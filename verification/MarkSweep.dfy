/** The collector for the whole heap: vm/heap.cc, Heap::MarkSweep. */
module MarkSweep {
  import opened HeapModel
  import opened Marking
  import opened Mourning
  import opened Sweeping
  import R = ScavengeResult
  import S = ScavengeInvariant

  class Heap {
    var mem: Memory
    /** Where mark bits are set. */
    var marks: set<Addr>
    var roots: seq<Value>
    var classTable: seq<Value>
    var classTableFree: nat
    var markStack: seq<Addr>
    var ephemeronList: seq<Addr>
    var weakList: seq<Addr>
    var rememberedSet: seq<Addr>
    /** The sizes in the headers of objects and of elements of the free list. */
    var sizes: map<Addr, nat>
    /** New space is filled from its start up to top. */
    var newStart: Addr
    var top: Addr
    var regions: seq<Region>
    var freeList: seq<Block>
    var oldSize: nat
    ghost var s: Snapshot
    ghost var freeIds: seq<nat>
    /** Marked blocks that are no objects: corpses whose mark bit a become has left set. */
    ghost var stale: set<Addr>

    /** The marked objects. */
    ghost function Own(): set<Addr> reads this { marks - stale }

    ghost function Now(): View
      reads this
    {
      View(mem, Own(), markStack, ephemeronList, weakList, rememberedSet)
    }

    ghost predicate StaleApart() reads this { stale <= marks && stale !! s.mem.Keys }

    ghost predicate Valid(busy: set<Addr>)
      reads this
    {
      Inv(s, Now(), busy) && StaleApart() && roots == s.roots && classTable == s.classTable
    }

    // ---- marking ----

    method MarkObject(obj: Value, ghost busy: set<Addr>)
      requires Valid(busy) && Within(obj, Live(s))
      modifies `mem, `marks, `markStack
      ensures Valid(busy) && Within(obj, Own()) && old(Own()) <= Own()
      ensures (Own() == old(Own()) ==> markStack == old(markStack))
      ensures Own() != old(Own()) ==> markStack != []
      ensures |old(markStack)| <= |markStack|
    {
      hide Inv, Live;
      LiveKnown(s, Now(), busy);
      if obj.Smi? {
        return;
      }
      if obj.addr in marks {
        return;
      }
      MarkedKeeps(s, Now(), busy, obj.addr);
      ghost var v := Marked(Now(), obj.addr);
      marks := marks + {obj.addr};
      mem := mem[obj.addr := mem[obj.addr].(remembered := false)];
      markStack := markStack + [obj.addr];
      assert Now() == v;
    }

    method AddToRememberedSet(a: Addr)
      requires a in mem && mem[a].Obj? && !IsNew(a)
      modifies `mem, `rememberedSet
      ensures Now() == Remembered(old(Now()), a)
    {
      rememberedSet := rememberedSet + [a];
      mem := mem[a := mem[a].(remembered := true)];
    }

    method MarkRoots()
      requires Valid({})
      modifies `mem, `marks, `markStack
      ensures Valid({}) && AllWithin(s.roots, Own()) && (markStack == [] ==> Own() == old(Own()))
    {
      hide Inv, Live;
      RootsLive(s, Now());
      ghost var live := Live(s);
      var i := 0;
      while i < |roots|
        invariant Valid({}) && i <= |roots| && AllWithin(roots[..i], Own()) && AllWithin(roots, live)
        invariant old(Own()) <= Own() && (markStack == [] ==> Own() == old(Own()))
      {
        ghost var before := Own();
        assert Within(roots[i], live);
        MarkObject(roots[i], {});
        assert forall k :: 0 <= k < i ==> Within(roots[..i][k], before);
        i := i + 1;
      }
      assert roots[..i] == roots;
    }

    /** Marks what the slots refer to. */
    method MarkSlots(slots: seq<Value>, ghost busy: set<Addr>) returns (hasNewTarget: bool)
      requires Sound(s) && Valid(busy) && AllWithin(slots, Live(s))
      modifies `mem, `marks, `markStack
      ensures Valid(busy) && AllWithin(slots, Own()) && old(Own()) <= Own()
      ensures (Own() == old(Own()) ==> markStack == old(markStack)) && |old(markStack)| <= |markStack|
      ensures Own() != old(Own()) ==> markStack != []
      ensures hasNewTarget <==> exists i :: 0 <= i < |slots| && IsNewRef(slots[i])
    {
      hide Inv, Live;
      ghost var live := Live(s);
      hasNewTarget := false;
      var i := 0;
      while i < |slots|
        invariant Valid(busy) && i <= |slots| && AllWithin(slots[..i], Own()) && AllWithin(slots, live)
        invariant old(Own()) <= Own()
        invariant (Own() == old(Own()) ==> markStack == old(markStack)) && |old(markStack)| <= |markStack|
        invariant Own() != old(Own()) ==> markStack != []
        invariant hasNewTarget <==> exists k :: 0 <= k < i && IsNewRef(slots[k])
      {
        ghost var before := Own();
        var target := slots[i];
        hasNewTarget := hasNewTarget || IsNewRef(target);
        assert Within(slots[i], live);
        MarkObject(target, busy);
        assert forall k :: 0 <= k < i ==> Within(slots[..i][k], before);
        i := i + 1;
      }
      assert slots[..i] == slots;
    }

    /** One round of the loop over the mark stack. */
    method ProcessObject()
      requires Valid({}) && markStack != []
      modifies `mem, `marks, `markStack, `ephemeronList, `weakList, `rememberedSet
      ensures Valid({}) && old(Own()) <= Own()
      ensures Own() == old(Own()) ==> |markStack| == |old(markStack)| - 1
    {
      hide Inv, Live, Waiting;
      var n := |markStack| - 1;
      var obj := markStack[n];
      PopKeeps(s, Now(), {});
      markStack := markStack[..n];
      assert {} + {obj} == {obj} && {obj} - {obj} == {};
      ObjectAt(s, Now(), {obj}, obj);
      var cid := mem[obj].cid;
      if cid == WEAK_ARRAY_CID {
        QueueWeakKeeps(s, Now(), {obj}, obj);
        weakList := [obj] + weakList;
      } else if cid == EPHEMERON_CID {
        QueueEphemeronKeeps(s, Now(), {obj}, obj);
        ephemeronList := [obj] + ephemeronList;
      } else {
        ProcessStrong(obj);
      }
    }

    /** Marks what an ordinary object refers to, and remembers the object if any of that is new. */
    method ProcessStrong(obj: Addr)
      requires Sound(s) && obj in s.mem && s.mem[obj].Obj? && Valid({obj}) && IsStrong(s.mem[obj].cid)
      modifies `mem, `marks, `markStack, `rememberedSet
      ensures Valid({}) && old(Own()) <= Own() && |old(markStack)| <= |markStack|
      ensures Own() == old(Own()) ==> |markStack| == |old(markStack)|
    {
      hide Inv, Live, Sound;
      assert {obj} - {obj} == {};
      ObjectAt(s, Now(), {obj}, obj);
      StrongKeeps(s, Now(), {obj}, obj);
      MarkObject(classTable[mem[obj].cid], {obj});
      ObjectAt(s, Now(), {obj}, obj);
      var hasNewTarget := IsNewRef(classTable[mem[obj].cid]);
      StrongKeeps(s, Now(), {obj}, obj);
      var slotHasNewTarget := MarkSlots(mem[obj].slots, {obj});
      ObjectAt(s, Now(), {obj}, obj);
      hasNewTarget := hasNewTarget || slotHasNewTarget;
      FinishKeeps(s, Now(), {obj}, obj);
      if hasNewTarget && !IsNew(obj) {
        AddToRememberedSet(obj);
      }
    }

    method ProcessMarkStack()
      requires Valid({})
      modifies `mem, `marks, `markStack, `ephemeronList, `weakList, `rememberedSet
      ensures Valid({}) && markStack == [] && old(Own()) <= Own()
    {
      hide Inv, Live;
      while markStack != []
        invariant Valid({}) && old(Own()) <= Own()
        decreases s.mem.Keys - Own(), |markStack|
      {
        ghost var before := Own();
        ProcessObject();
        Grows(s, Now(), before);
      }
    }

    /** One round of the loop over the ephemerons that were on the list. */
    method MarkEphemeron(survivor: Addr, ghost busy: set<Addr>)
      requires Valid(busy) && survivor in busy && s.mem[survivor].cid == EPHEMERON_CID
      requires Undecided(s, Now())
      modifies `mem, `marks, `markStack, `ephemeronList, `rememberedSet
      ensures Valid(busy - {survivor}) && Undecided(s, Now()) && old(Own()) <= Own()
      ensures Own() == old(Own()) ==> markStack == old(markStack)
      ensures markStack == [] ==> Own() == old(Own())
    {
      hide Inv, Live;
      ObjectAt(s, Now(), busy, survivor);
      var key := mem[survivor].slots[0];
      if key.Smi? || key.addr in marks {
        EphemeronKeeps(s, Now(), busy, survivor);
        var hasNewTarget := MarkSlots(mem[survivor].slots, busy);
        ObjectAt(s, Now(), busy, survivor);
        FinishKeeps(s, Now(), busy, survivor);
        if hasNewTarget && !IsNew(survivor) {
          AddToRememberedSet(survivor);
        }
      } else {
        QueueEphemeronKeeps(s, Now(), busy, survivor);
        ephemeronList := [survivor] + ephemeronList;
      }
    }

    method MarkEphemeronList()
      requires Valid({}) && markStack == []
      modifies `mem, `marks, `markStack, `ephemeronList, `rememberedSet
      ensures Valid({}) && old(Own()) <= Own() && Undecided(s, Now())
      ensures markStack == [] <==> Own() == old(Own())
    {
      hide Inv, Live;
      TakeEphemeronsKeeps(s, Now());
      var rest := ephemeronList;
      Ephemerons(s, Now(), {});
      ephemeronList := [];
      ghost var busy := set a | a in rest;
      while rest != []
        invariant busy == (set a | a in rest) && Valid(busy) && S.Distinct(rest) && Undecided(s, Now())
        invariant old(Own()) <= Own()
        invariant forall a :: a in rest ==> a in s.mem && s.mem[a].Obj? && s.mem[a].cid == EPHEMERON_CID
        invariant markStack == [] <==> Own() == old(Own())
        decreases |rest|
      {
        var survivor := rest[0];
        assert rest == [survivor] + rest[1..];
        assert busy - {survivor} == set a | a in rest[1..];
        MarkEphemeron(survivor, busy);
        rest := rest[1..];
        busy := busy - {survivor};
      }
      assert busy == {};
    }

    method Mark()
      requires Valid({}) && Own() == {} && markStack == [] && ephemeronList == [] && weakList == []
      modifies `mem, `marks, `markStack, `ephemeronList, `weakList, `rememberedSet
      ensures Valid({}) && Traced(s, Now())
    {
      hide Inv, Live;
      MarkRoots();
      ghost var rooted := Own();
      assert Undecided(s, Now());
      while markStack != []
        invariant Valid({}) && rooted <= Own() && Undecided(s, Now())
        decreases s.mem.Keys - Own(), |markStack|
      {
        ghost var before, height := Own(), |markStack|;
        ProcessMarkStack();
        MarkEphemeronList();
        Grows(s, Now(), before);
      }
      TracedNow(s, Now());
    }

    // ---- mourning ----

    ghost predicate Grieving()
      reads this
    {
      MournInv(s, Now()) && StaleApart() && roots == s.roots
    }

    method MournEphemeronList()
      requires Grieving()
      modifies `mem, `ephemeronList
      ensures Grieving() && ephemeronList == []
    {
      hide MournInv;
      while ephemeronList != []
        invariant Grieving()
        decreases |ephemeronList|
      {
        MournEphemeronKeeps(s, Now());
        NilIs(s, Now());
        var survivor, nil := ephemeronList[0], roots[0];
        mem := mem[survivor := mem[survivor].(slots := [nil, nil, nil])];
        ephemeronList := ephemeronList[1..];
      }
    }

    method MournWeakArray()
      requires Grieving() && weakList != []
      modifies `mem, `weakList, `rememberedSet
      ensures Grieving() && |weakList| == |old(weakList)| - 1 && ephemeronList == old(ephemeronList)
    {
      hide MournInv, Live;
      NilIs(s, Now());
      WeakMournedKeeps(s, Now());
      ghost var next := WeakMourned(s, Now());
      var survivor := weakList[0];
      WeakAt(s, Now());
      ghost var c := s.mem[survivor];
      var slots, hasNewTarget := MournSlots(mem[survivor].slots);
      assert slots == FinalSlots(s, Own(), c);
      mem := mem[survivor := mem[survivor].(slots := slots)];
      if hasNewTarget && !IsNew(survivor) {
        AddToRememberedSet(survivor);
      }
      weakList := weakList[1..];
      WeakTargets(s, Own(), survivor, hasNewTarget);
      assert Now() == next;
    }

    method MournSlots(targets: seq<Value>) returns (slots: seq<Value>, hasNewTarget: bool)
      requires |roots| > 0
      ensures |slots| == |targets| && forall k :: 0 <= k < |slots| ==> slots[k] == MournWeakPointer(targets[k])
      ensures hasNewTarget <==> exists k :: 0 <= k < |slots| && IsNewRef(slots[k])
    {
      slots := targets;
      hasNewTarget := false;
      var i := 0;
      while i < |slots|
        invariant i <= |slots| == |targets|
        invariant forall k :: 0 <= k < i ==> slots[k] == MournWeakPointer(targets[k])
        invariant forall k :: i <= k < |slots| ==> slots[k] == targets[k]
        invariant hasNewTarget <==> exists k :: 0 <= k < i && IsNewRef(slots[k])
      {
        slots := slots[i := MournWeakPointer(slots[i])];
        hasNewTarget := hasNewTarget || IsNewRef(slots[i]);
        i := i + 1;
      }
    }

    /** A dead target is replaced with nil. */
    function MournWeakPointer(target: Value): Value
      requires |roots| > 0
      reads this
    {
      if target.Smi? || target.addr in marks then target else roots[0]
    }

    method MournWeakList()
      requires Grieving()
      modifies `mem, `weakList, `rememberedSet
      ensures Grieving() && weakList == [] && ephemeronList == old(ephemeronList)
    {
      hide MournInv;
      while weakList != []
        invariant Grieving() && ephemeronList == old(ephemeronList)
        decreases |weakList|
      {
        MournWeakArray();
      }
    }

    /** Frees the ids of dead classes. */
    method MournClassTable() returns (ghost freed: seq<nat>)
      requires Sound(s) && StaleApart() && classTable == s.classTable
      requires R.FreeChain(classTable, classTableFree, freeIds)
      modifies `classTable, `classTableFree, `freeIds
      ensures TableAfter(s, Own(), classTable, |classTable|) && FreedIds(s, Own(), freed, |classTable|)
      ensures R.FreeChain(classTable, classTableFree, freeIds) && freeIds == freed + old(freeIds)
    {
      hide Sound, R.FreeChain;
      freed := [];
      var i := FIRST_LEGAL_CID;
      while i < |classTable|
        invariant FIRST_LEGAL_CID <= i && (i <= |classTable| || i == FIRST_LEGAL_CID)
        invariant TableAfter(s, Own(), classTable, i) && FreedIds(s, Own(), freed, i)
        invariant R.FreeChain(classTable, classTableFree, freeIds) && freeIds == freed + old(freeIds)
        decreases |s.classTable| - i
      {
        var target := classTable[i];
        EntryKnown(s, i);
        if target.Ref? && target.addr !in marks {
          R.FreeChainFrame(classTable, classTableFree, freeIds, i, Smi(classTableFree));
          R.FreeChainMore(classTable[i := Smi(classTableFree)], classTableFree, freeIds, i);
          classTable := classTable[i := Smi(classTableFree)];
          classTableFree := i;
          freed := [i] + freed;
          freeIds := [i] + freeIds;
        }
        i := i + 1;
      }
    }

    // ---- sweeping ----

    /** Finds the end of a run of dead blocks. */
    method FindFreeEnd(scan: Addr, end: Addr, ghost live: set<Addr>) returns (freeScan: Addr)
      requires Tiled(sizes, scan, end) && scan < end && scan !in live
      requires forall a :: scan <= a < end ==> (a in live <==> a in marks)
      ensures scan < freeScan <= end && Tiled(sizes, freeScan, end)
      ensures Run(sizes, live, scan, freeScan, end) && (freeScan < end ==> freeScan in live)
    {
      hide Run, Growing;
      RunFirst(sizes, live, scan, end);
      freeScan := scan + sizes[scan];
      while freeScan < end && freeScan !in marks
        invariant Growing(sizes, live, scan, freeScan, end)
        invariant scan < freeScan <= end
      {
        RunMore(sizes, live, scan, freeScan, end);
        freeScan := freeScan + sizes[freeScan];
      }
      RunDone(sizes, live, scan, freeScan, end);
      RunTiled(sizes, live, scan, freeScan, end);
    }

    method SweepNewSpace(ghost live: set<Addr>)
      requires Placed(sizes, mem.Keys + marks, live, newStart, top)
      requires (forall a :: newStart <= a < top ==> (a in live <==> a in marks))
      modifies `mem, `marks, `sizes
      ensures Tiled(old(sizes), newStart, top) && Tiled(sizes, newStart, top)
      ensures Walk(sizes, live, newStart, top) == Coalesce(Walk(old(sizes), live, newStart, top))
      ensures mem == Without(old(mem), live, newStart, top)
      ensures marks == set a | a in old(marks) && (a < newStart || top <= a)
      ensures SameElsewhere(old(sizes), sizes, newStart, top)
    {
      hide Midway, Run, Walk, Coalesce;
      var scan := newStart;
      MidwayStart(sizes, mem, marks, live, newStart, top);
      while scan < top
        invariant Midway(old(sizes), sizes, old(mem), mem, old(marks), marks, live, newStart, scan, top)
        invariant newStart <= scan <= top
      {
        MidwayAt(old(sizes), sizes, old(mem), mem, old(marks), marks, live, newStart, scan, top);
        if scan in marks {
          MidwayLive(old(sizes), sizes, old(mem), mem, old(marks), marks, live, newStart, scan, top);
          marks := marks - {scan};
          scan := scan + sizes[scan];
        } else {
          var freeScan := FindFreeEnd(scan, top, live);
          MidwayDead(old(sizes), sizes, old(mem), mem, old(marks), marks, live, newStart, scan, freeScan, top);
          WriteFree(scan, freeScan);
          scan := freeScan;
        }
      }
      MidwayEnd(old(sizes), sizes, old(mem), mem, old(marks), marks, live, newStart, top);
      MidwayResult(old(sizes), sizes, old(mem), mem, old(marks), marks, live, newStart, top);
    }

    /** Writes the header of an element of the free list. */
    method WriteFree(scan: Addr, freeScan: Addr)
      requires scan < freeScan
      modifies `mem, `sizes
      ensures sizes == old(sizes)[scan := freeScan - scan]
      ensures mem == CutOut(old(mem), scan, freeScan)
    {
      sizes := sizes[scan := freeScan - scan];
      mem := CutOut(mem, scan, freeScan);
    }

    method SweepRegion(region: Region, ghost live: set<Addr>) returns (inUse: bool)
      requires region.start < region.end && Placed(sizes, mem.Keys + marks, live, region.start, region.end)
      requires forall a :: region.start <= a < region.end ==> (a in live <==> a in marks)
      modifies `mem, `marks, `sizes, `freeList, `oldSize
      ensures Tiled(old(sizes), region.start, region.end)
      ensures var bs := Walk(old(sizes), live, region.start, region.end);
        && (inUse <==> InUse(bs))
        && freeList == old(freeList) + (if inUse then FreeBlocks(Coalesce(bs)) else [])
        && oldSize == old(oldSize) + Total(LiveBlocks(bs))
      ensures inUse ==> RegionSwept(old(sizes), sizes, live, region)
      ensures mem == Without(old(mem), live, region.start, region.end)
      ensures marks == set a | a in old(marks) && (a < region.start || region.end <= a)
      ensures SameElsewhere(old(sizes), sizes, region.start, region.end)
    {
      hide Midway, Run, Walk, Coalesce, InUse, LiveBlocks, FreeBlocks, Total, Placed, Tiled;
      var scan, end := region.start, region.end;
      MidwayStart(sizes, mem, marks, live, scan, end);
      MidwayAt(sizes, sizes, mem, mem, marks, marks, live, scan, scan, end);
      NothingYet(sizes, live, scan);
      ghost var bs := Walk(sizes, live, scan, end);
      while scan < end
        invariant Midway(old(sizes), sizes, old(mem), mem, old(marks), marks, live, region.start, scan, end)
        invariant region.start <= scan <= end && Tiled(sizes, region.start, scan) && Tiled(sizes, scan, end)
        invariant freeList == old(freeList) + FreeBlocks(Walk(sizes, live, region.start, scan))
        invariant oldSize == old(oldSize) + Total(LiveBlocks(Walk(sizes, live, region.start, scan)))
        invariant if scan == region.start
          then sizes == old(sizes) && freeList == old(freeList) && oldSize == old(oldSize) else InUse(bs)
        invariant InUse(Walk(sizes, live, scan, end)) ==> InUse(bs)
      {
        MidwayAt(old(sizes), sizes, old(mem), mem, old(marks), marks, live, region.start, scan, end);
        ghost var before := Walk(sizes, live, region.start, scan);
        if scan in marks {
          MidwayLive(old(sizes), sizes, old(mem), mem, old(marks), marks, live, region.start, scan, end);
          UsedLater(sizes, live, scan, end);
          BlockMore(before, Block(scan, sizes[scan], true));
          marks := marks - {scan};
          var size := sizes[scan];
          oldSize := oldSize + size;
          scan := scan + size;
        } else {
          var freeScan := FindFreeEnd(scan, end, live);
          UsedAfter(sizes, live, scan, freeScan, end);
          MidwayDead(old(sizes), sizes, old(mem), mem, old(marks), marks, live, region.start, scan, freeScan, end);
          if scan == region.start && freeScan == end {
            // The region is given back as a whole.
            mem := CutOut(mem, scan, freeScan);
            MidwayResult(old(sizes), sizes[scan := freeScan - scan], old(mem), mem, old(marks), marks, live,
                         region.start, end);
            return false;
          }
          BlockMore(before, Block(scan, freeScan - scan, false));
          WalkKept(sizes, live, scan, freeScan, end);
          WriteFree(scan, freeScan);
          freeList := freeList + [Block(scan, freeScan - scan, false)];
          scan := freeScan;
        }
      }
      MidwayEnd(old(sizes), sizes, old(mem), mem, old(marks), marks, live, region.start, end);
      MidwayResult(old(sizes), sizes, old(mem), mem, old(marks), marks, live, region.start, end);
      CoalesceKeeps(bs);
      inUse := true;
    }

    method Sweep(ghost live: set<Addr>)
      requires live == marks && LaidOut(sizes, mem.Keys + live, newStart, top, regions) && oldSize == 0
      modifies `mem, `marks, `sizes, `freeList, `oldSize, `regions
      ensures marks == {} && mem == (map a | a in old(mem) && a in live :: old(mem)[a])
      ensures RegionsSwept(old(sizes), live, old(regions), regions, freeList, oldSize)
      ensures SweptTo(old(sizes), sizes, old(mem), mem, live, marks, newStart, top, old(regions), |old(regions)|)
      ensures LaidOut(sizes, live, newStart, top, regions)
    {
      hide LaidOut, SweptTo, Walk, Coalesce, Tiled, InUse, FreeBlocks, LiveBlocks, Placed, Apart, Kept, FreeIn;
      hide LiveSizeIn, Total;
      ghost var sizes0, mem0 := sizes, mem;
      freeList := [];
      NoRegions(sizes, live);
      assert regions[..0] == [];
      NewReady(sizes, mem.Keys + live, live, newStart, top, regions);
      SweepNewSpace(live);
      SweptFirst(sizes0, sizes, mem0, live, newStart, top, regions);
      var kept: seq<Region> := [];
      var i := 0;
      while i < |regions|
        invariant regions == old(regions)
        invariant i <= |regions| && SweptTo(sizes0, sizes, mem0, mem, live, marks, newStart, top, regions, i)
        invariant kept == Kept(sizes0, live, regions[..i]) && freeList == FreeIn(sizes0, live, regions[..i])
        invariant oldSize == LiveSizeIn(sizes0, live, regions[..i])
      {
        OneMoreRegion(sizes0, live, regions, i);
        RegionReady(sizes0, sizes, mem0, mem, live, marks, newStart, top, regions, i);
        ghost var sizes1, mem1, marks1 := sizes, mem, marks;
        var inUse := SweepRegion(regions[i], live);
        if inUse {
          kept := kept + [regions[i]];
        }
        SweptOneMore(sizes0, sizes1, sizes, mem0, mem1, live, marks1, newStart, top, regions, i);
        i := i + 1;
      }
      assert regions[..i] == regions;
      LaidOutAfter(sizes0, sizes, mem0, mem, live, marks, newStart, top, regions);
      regions := kept;
    }

    /** Everything up to the sweep. */
    method MarkAndMourn() returns (ghost freed: seq<nat>)
      requires s == Snapshot(mem, roots, classTable) && Sound(s) && R.FreeChain(classTable, classTableFree, freeIds)
      requires marks == stale && stale !! s.mem.Keys
      requires markStack == [] && ephemeronList == [] && weakList == [] && rememberedSet == []
      modifies `mem, `marks, `classTable, `classTableFree, `freeIds, `markStack, `ephemeronList, `weakList
      modifies `rememberedSet
      ensures MournInv(s, Now()) && roots == s.roots && ephemeronList == [] && weakList == []
      ensures mem.Keys == s.mem.Keys && Own() == Live(s) <= mem.Keys && markStack == [] && StaleApart()
      ensures TableAfter(s, Live(s), classTable, |classTable|) && FreedIds(s, Live(s), freed, |classTable|)
      ensures R.FreeChain(classTable, classTableFree, freeIds) && freeIds == freed + old(freeIds)
    {
      hide Inv, Live, Sound, R.FreeChain, MournInv, FreedIds, TableAfter, Traced;
      assert Own() == {};
      EmptyInv(s);
      Mark();
      MarkedIsLive(s, Now());
      MourningStarts(s, Now());
      LiveInMem(s);
      MournEphemeronList();
      MournWeakList();
      KeysAre(s, Now());
      freed := MournClassTable();
    }

    /** The sweep, after everything that is dead has been mourned. */
    method SweepMourned()
      requires MournInv(s, Now()) && ephemeronList == [] && weakList == [] && Own() == Live(s) && StaleApart()
      requires TableAfter(s, Live(s), classTable, |classTable|) && mem.Keys == s.mem.Keys && oldSize == 0
      requires LaidOut(sizes, s.mem.Keys + stale, newStart, top, regions)
      modifies `mem, `marks, `sizes, `freeList, `oldSize, `regions
      ensures Collected(s, mem, classTable, rememberedSet) && Sound(Snapshot(mem, s.roots, classTable))
      ensures S.RememberedOk(mem, rememberedSet) && S.RememberedComplete(mem, rememberedSet, classTable)
      ensures marks == {} && RegionsSwept(old(sizes), Live(s) + stale, old(regions), regions, freeList, oldSize)
      ensures LaidOut(sizes, mem.Keys + stale, newStart, top, regions)
      ensures LaidOut(sizes, mem.Keys, newStart, top, regions)
    {
      hide Live, Sound, LaidOut, MournInv, TableAfter, Collected, SweptTo;
      hide S.RememberedOk, S.RememberedComplete, RegionsSwept;
      ghost var kept, v := marks, Now();
      KeysAre(s, v);
      assert kept == Live(s) + stale;
      FewerObjects(sizes, s.mem.Keys + stale, mem.Keys + kept, newStart, top, regions);
      Sweep(kept);
      AllCollected(s, v, mem, classTable, stale);
      FewerObjects(sizes, kept, mem.Keys + stale, newStart, top, regions);
      FewerObjects(sizes, kept, mem.Keys, newStart, top, regions);
    }

    /**
     * A whole collection: what survives is what is live, and nothing that survives refers to anything that does not. A
     * block that was marked before, as a become can leave a corpse, is taken for live by the sweep, but only once.
     */
    method MarkSweep() returns (ghost freed: seq<nat>)
      requires s == Snapshot(mem, roots, classTable) && Sound(s) && R.FreeChain(classTable, classTableFree, freeIds)
      requires marks !! mem.Keys && markStack == [] && ephemeronList == [] && weakList == []
      requires LaidOut(sizes, mem.Keys + marks, newStart, top, regions)
      modifies `mem, `marks, `classTable, `classTableFree, `freeIds, `markStack, `ephemeronList, `weakList
      modifies `rememberedSet, `stale
      modifies `sizes, `freeList, `oldSize, `regions
      ensures Collected(s, mem, classTable, rememberedSet) && roots == s.roots
      ensures R.FreeChain(classTable, classTableFree, freeIds) && freeIds == freed + old(freeIds)
      ensures FreedIds(s, Live(s), freed, |classTable|)
      ensures marks == {} && markStack == [] && ephemeronList == [] && weakList == []
      ensures RegionsSwept(old(sizes), Live(s) + old(marks), old(regions), regions, freeList, oldSize)
      ensures LaidOut(sizes, mem.Keys + old(marks), newStart, top, regions)
      ensures LaidOut(sizes, mem.Keys, newStart, top, regions)
      ensures Sound(Snapshot(mem, roots, classTable))
      ensures S.RememberedOk(mem, rememberedSet) && S.RememberedComplete(mem, rememberedSet, classTable)
    {
      hide *;
      rememberedSet := [];
      oldSize := 0;
      stale := marks;
      freed := MarkAndMourn();
      SweepMourned();
    }
  }

  /** What is kept but is no object does not show in the objects. */
  lemma OnlyObjects(mem: Memory, marks: set<Addr>, stale: set<Addr>)
    requires stale !! mem.Keys
    ensures (map a | a in mem && a in marks + stale :: mem[a]) == (map a | a in mem && a in marks :: mem[a])
  {
  }

  lemma AllCollected(s: Snapshot, v: View, mem: Memory, table: seq<Value>, stale: set<Addr>)
    requires MournInv(s, v) && v.ephemerons == [] && v.weak == [] && TableAfter(s, v.marks, table, |table|)
    requires stale !! v.mem.Keys && mem == (map a | a in v.mem && a in v.marks + stale :: v.mem[a])
    ensures Collected(s, mem, table, v.rem) && mem.Keys == Live(s) && Sound(Snapshot(mem, s.roots, table))
    ensures S.RememberedOk(mem, v.rem) && S.RememberedComplete(mem, v.rem, table)
  {
    hide Live, MournInv, TableAfter, Collected, S.RememberedOk, S.RememberedComplete;
    NilIs(s, v);
    OnlyObjects(v.mem, v.marks, stale);
    CollectedNow(s, v, mem, table);
    NothingDangles(s, mem, table, v.rem);
    RememberedExactly(s, mem, table, v.rem);
    CollectedKeys(s, mem, table, v.rem);
  }

  lemma CollectedKeys(s: Snapshot, mem: Memory, table: seq<Value>, rem: seq<Addr>)
    requires Sound(s) && Collected(s, mem, table, rem)
    ensures mem.Keys == Live(s)
  {
  }

  lemma NewReady(sizes: map<Addr, nat>, objects: set<Addr>, live: set<Addr>, newStart: nat, top: nat, rs: seq<Region>)
    requires LaidOut(sizes, objects, newStart, top, rs) && live <= objects
    ensures Placed(sizes, objects, live, newStart, top) && Apart(newStart, top, rs)
  {
    PlacedAlive(sizes, objects, live, newStart, top);
  }

  lemma KeysAre(s: Snapshot, v: View)
    requires MournInv(s, v) && v.ephemerons == [] && v.weak == []
    ensures v.mem.Keys == s.mem.Keys && Sound(s) && v.marks == Live(s) <= s.mem.Keys && v.stack == []
  {
  }

  lemma CollectedNow(s: Snapshot, v: View, mem: Memory, table: seq<Value>)
    requires MournInv(s, v) && v.ephemerons == [] && v.weak == []
    requires mem == (map a | a in v.mem && a in v.marks :: v.mem[a]) && TableAfter(s, v.marks, table, |table|)
    ensures Collected(s, mem, table, v.rem)
  {
    hide Live, FinalSlots, S.HasNewTarget;
    LiveInMem(s);
  }

  lemma NilIs(s: Snapshot, v: View)
    requires MournInv(s, v)
    ensures Sound(s) && |s.roots| >= 1
  {
  }

  lemma WeakAt(s: Snapshot, v: View)
    requires MournInv(s, v) && v.weak != []
    ensures var a := v.weak[0];
      a in s.mem && a in v.mem && s.mem[a].Obj? && s.mem[a].cid == WEAK_ARRAY_CID
        && v.mem[a] == s.mem[a].(remembered := false)
  {
    var a := v.weak[0];
    assert a in v.weak;
  }

  lemma WeakTargets(s: Snapshot, L: set<Addr>, a: Addr, hasNewTarget: bool)
    requires Sound(s) && a in s.mem && s.mem[a].cid == WEAK_ARRAY_CID
    requires hasNewTarget <==> exists i :: 0 <= i < |s.mem[a].slots| && IsNewRef(FinalSlots(s, L, s.mem[a])[i])
    ensures FinalCell(s, L, a)
      == s.mem[a].(slots := FinalSlots(s, L, s.mem[a]), remembered := hasNewTarget && !IsNew(a))
  {
  }

  /** An ephemeron is back on the list only if nothing has marked its key yet, or else there is more to process. */
  ghost predicate Undecided(s: Snapshot, v: View)
  {
    v.stack == [] ==>
      forall a :: a in v.ephemerons && a in s.mem && s.mem[a].Obj? && |s.mem[a].slots| == 3 ==>
        !KeyLives(s.mem[a], v.marks)
  }

  lemma LiveKnown(s: Snapshot, v: View, busy: set<Addr>)
    requires Inv(s, v, busy)
    ensures Sound(s) && Live(s) <= s.mem.Keys
  {
  }

  lemma EntryKnown(s: Snapshot, i: nat)
    requires Sound(s) && i < |s.classTable|
    ensures s.classTable[i].Ref? ==> s.classTable[i].addr in s.mem
  {
  }

  lemma RootsLive(s: Snapshot, v: View)
    requires Inv(s, v, {})
    ensures Sound(s) && AllWithin(s.roots, Live(s))
  {
    LiveIsLeast(s);
  }

  lemma ObjectAt(s: Snapshot, v: View, busy: set<Addr>, a: Addr)
    requires Inv(s, v, busy) && a in busy
    ensures Sound(s) && a in s.mem && a in v.mem && s.mem[a].Obj?
    ensures v.mem[a] == s.mem[a].(remembered := v.mem[a].Obj? && v.mem[a].remembered)
    ensures s.mem[a].cid < |s.classTable| && (s.mem[a].cid == EPHEMERON_CID ==> |s.mem[a].slots| == 3)
    ensures a in v.marks
  {
  }

  lemma StrongKeeps(s: Snapshot, v: View, busy: set<Addr>, a: Addr)
    requires Inv(s, v, busy) && a in busy && a in s.mem && s.mem[a].Obj? && IsStrong(s.mem[a].cid)
    ensures AllWithin(s.mem[a].slots, Live(s)) && Within(s.classTable[s.mem[a].cid], Live(s))
  {
    LiveIsLeast(s);
    hide Live;
    assert Keeps(s, a, Live(s));
  }

  lemma EphemeronKeeps(s: Snapshot, v: View, busy: set<Addr>, a: Addr)
    requires Inv(s, v, busy) && a in busy && a in s.mem && s.mem[a].Obj? && s.mem[a].cid == EPHEMERON_CID
    requires |s.mem[a].slots| == 3 && Within(s.mem[a].slots[0], v.marks)
    ensures AllWithin(s.mem[a].slots, Live(s))
  {
    LiveIsLeast(s);
    hide Live;
    assert Keeps(s, a, Live(s));
  }

  lemma Ephemerons(s: Snapshot, v: View, busy: set<Addr>)
    requires Inv(s, v, busy)
    ensures S.Distinct(v.ephemerons)
    ensures forall a :: a in v.ephemerons ==> a in s.mem && s.mem[a].Obj? && s.mem[a].cid == EPHEMERON_CID
  {
  }

  /** Marking more leaves less to mark. */
  lemma Grows(s: Snapshot, v: View, before: set<Addr>)
    requires Inv(s, v, {}) && before <= v.marks
    ensures v.marks == before || s.mem.Keys - v.marks < s.mem.Keys - before
  {
    if v.marks != before {
      var a :| a in v.marks && a !in before;
      assert a in s.mem.Keys - before;
    }
  }

  lemma TracedNow(s: Snapshot, v: View)
    requires Inv(s, v, {}) && v.stack == [] && Undecided(s, v) && AllWithin(s.roots, v.marks)
    ensures Traced(s, v)
  {
  }
}
