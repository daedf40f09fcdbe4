/** The copying collector for new space: vm/heap.cc, Heap::Scavenge and its helpers. */
module Scavenger {
  import opened HeapModel
  import opened ScavengeInvariant
  import opened ScavengeResult
  import opened WriteBarrier

  // 2 * sizeof(uword) megabytes, in words
  const MAX_SEMISPACE_CAPACITY: nat := 2 * 1024 * 1024

  function Smaller(x: nat, y: nat): nat { if x < y then x else y }

  class Heap {
    var mem: Memory
    var from: Space
    var to: Space
    var top: nat
    var end: nat
    var survivorEnd: nat
    // the words from end to the limit of to-space, the last push first
    var tenureStack: seq<Addr>
    var ephemeronList: seq<Addr>
    var weakList: seq<Addr>
    var rememberedSet: seq<Addr>
    var rememberedSetSize: nat
    var roots: seq<Value>
    var classTable: seq<Value>
    var classTableFree: nat
    var nextSemispaceCapacity: nat

    // the objects of new space in order, and the free class ids
    ghost var layout: seq<Addr>
    ghost var freeIds: seq<nat>
    // the state at the start, the objects that may not be lost, and the abstract state
    ghost var s: Start
    ghost var live: set<Addr>
    ghost var v: View
    // what is left of a list that has been taken off its field and is being walked
    ghost var ephemeronChain: seq<Addr>
    ghost var weakChain: seq<Addr>

    ghost predicate Tied(remSize: nat, chain: seq<Addr>)
      reads this
    {
      && mem == v.mem && top == v.top && end == v.end && tenureStack == v.tenureStack && roots == v.roots
      && chain + ephemeronList == v.ephemeronList && weakChain + weakList == v.weakList
      && remSize <= |rememberedSet| && rememberedSet[..remSize] == v.rem && classTable == s.classTable
      && survivorEnd == s.survivorEnd
    }

    ghost predicate ValidWith(remSize: nat)
      reads this
    {
      Tied(remSize, ephemeronChain) && WellFormed(s) && Closed(s, live) && Inv(s, v, to, live)
    }

    ghost predicate Valid()
      reads this
    {
      ValidWith(rememberedSetSize)
    }

    method AllocateCopy(size: nat) returns (result: Addr)
      requires size <= end - top
      modifies `top
      ensures result == old(top) && top == old(top) + size
    {
      result := top;
      top := result + size;
    }

    /** Old space: any even address that is free. */
    method AllocateOld() returns (result: Addr)
      ensures result !in mem && !IsNew(result)
    {
      result := 0;
      ghost var tried: set<Addr> := {};
      while result in mem
        invariant result % 2 == 0 && tried <= mem.Keys && forall a :: a in tried ==> a < result
        decreases |mem.Keys - tried|
      {
        assert result in mem.Keys - tried;
        assert mem.Keys - (tried + {result}) == mem.Keys - tried - {result};
        tried := tried + {result};
        result := result + 2;
      }
    }

    method PushTenureStack(addr: Addr)
      requires top < end <= to.Limit()
      modifies `end, `tenureStack
      ensures end == old(end) - 1 && tenureStack == [addr] + old(tenureStack)
    {
      end := end - 1;
      tenureStack := [addr] + tenureStack;
    }

    method AllocateTenure(size: nat) returns (result: Addr)
      requires top < end <= to.Limit()
      modifies `end, `tenureStack
      ensures result !in mem && !IsNew(result)
      ensures end == old(end) - 1 && tenureStack == [result] + old(tenureStack)
    {
      result := AllocateOld();
      PushTenureStack(result);
    }

    /** Moves the from-space object at a to old space. */
    method TenureObject(a: Addr, ghost x: Addr) returns (target: Addr)
      requires Valid() && v.phase.Tracing? && a in s.mem && IsNew(a) && a in live && a in mem && mem[a].Obj?
      requires a < survivorEnd
      modifies `mem, `top, `end, `tenureStack, `v
      ensures Valid() && v.phase.Tracing? && Grows(s, old(v), v, x) && StaysPut(old(v), v)
      ensures a in mem && mem[a] == Forwarded(target) && target !in s.mem
    {
      hide Inv, WellFormed, Closed, Grows, StaysPut;
      FromSpaceCell(s, v, to, live, a);
      ghost var v0 := v;
      target := AllocateTenure(mem[a].size);
      TenureKeepsInv(s, v, to, live, a, target);
      v := TenureTo(v, a, target);
      mem := mem[target := mem[a]];
      mem := mem[a := Forwarded(target)];
      assert mem == v.mem;
      FromSpaceCell(s, v, to, live, a);
      MovesOne(s, v0, v, to, live, a, x);
    }

    /** Moves the from-space object at a to to-space. */
    method CopyObject(a: Addr, ghost x: Addr) returns (target: Addr)
      requires Valid() && v.phase.Tracing? && a in s.mem && IsNew(a) && a in live && a in mem && mem[a].Obj?
      requires a >= survivorEnd
      modifies `mem, `top, `end, `tenureStack, `v
      ensures Valid() && v.phase.Tracing? && Grows(s, old(v), v, x) && StaysPut(old(v), v)
      ensures a in mem && mem[a] == Forwarded(target) && target !in s.mem
    {
      hide Inv, WellFormed, Closed, Grows, StaysPut;
      FromSpaceCell(s, v, to, live, a);
      ghost var v0 := v;
      target := AllocateCopy(mem[a].size);
      CopyKeepsInv(s, v, to, live, a);
      v := CopyTo(v, a);
      mem := mem[target := mem[a]];
      mem := mem[a := Forwarded(target)];
      assert mem == v.mem;
      FromSpaceCell(s, v, to, live, a);
      MovesOne(s, v0, v, to, live, a, x);
    }

    /** Moves the from-space object at a to to-space, or to old space if it is a survivor. */
    method MoveObject(a: Addr, ghost x: Addr) returns (target: Addr)
      requires Valid() && v.phase.Tracing? && a in s.mem && IsNew(a) && a in live && a in mem && mem[a].Obj?
      modifies `mem, `top, `end, `tenureStack, `v
      ensures Valid() && v.phase.Tracing? && Grows(s, old(v), v, x) && StaysPut(old(v), v)
      ensures a in mem && mem[a] == Forwarded(target) && target !in s.mem
    {
      hide Inv, WellFormed, Closed, Grows, StaysPut;
      if a < survivorEnd {
        target := TenureObject(a, x);
      } else {
        target := CopyObject(a, x);
      }
    }

    /** Follows one pointer found while scanning x, moving its target if this is the first pointer to it. */
    method ScavengePointer(val: Value, ghost x: Addr) returns (r: Value, isNew: bool)
      requires Valid() && v.phase.Tracing? && (val.Ref? ==> val.addr in s.mem) && Within(s, val, live)
      modifies `mem, `top, `end, `tenureStack, `v
      ensures Valid() && v.phase.Tracing? && Grows(s, old(v), v, x) && StaysPut(old(v), v)
      ensures r == Image(s, mem, val) && Survives(s, mem, val) && !FromRef(s, r) && isNew == IsNewRef(r)
      ensures if FromRef(s, val) then SomeMoved(s, mem) else Still(old(v), v)
    {
      hide Inv, WellFormed, Closed;
      ColorsInMemory(s, v, to, live);
      if !IsNewRef(val) {
        EverythingIsObj(s, v, to, live, x);
        GrowsReflexive(s, v, x);
        return val, false;
      }
      var a := val.addr;
      FromSpaceCell(s, v, to, live, a);
      if mem[a].Forwarded? {
        EverythingIsObj(s, v, to, live, x);
        GrowsReflexive(s, v, x);
        r := Ref(mem[a].to);
      } else {
        var target := MoveObject(a, x);
        r := Ref(target);
      }
      isNew := IsNewRef(r);
    }

    /** Follows slot i of x, and writes back where its target now is. */
    method ScavengeSlot(x: Addr, i: nat) returns (isNew: bool)
      requires Valid() && v.phase.Tracing? && Opened(s, v, x, live) && i < |mem[x].slots|
      requires mem[x].slots[i] == Orig(s, v.origin, x).slots[i] && Within(s, mem[x].slots[i], live)
      modifies `mem, `top, `end, `tenureStack, `v
      ensures Valid() && v.phase.Tracing? && Grows(s, old(v), v, x) && Opened(s, v, x, live)
      ensures Orig(s, v.origin, x) == old(Orig(s, v.origin, x))
      ensures |mem[x].slots| == old(|mem[x].slots|) && mem[x].slots == old(mem[x].slots)[i := mem[x].slots[i]]
      ensures !FromRef(s, mem[x].slots[i]) && isNew == IsNewRef(mem[x].slots[i])
      ensures if FromRef(s, old(mem[x].slots[i])) then SomeMoved(s, mem) else Still(old(v), v)
    {
      hide Inv, WellFormed, Closed, Grows, Opened, Image, Survives, SomeMoved, StaysPut, FromRef, SetSlot;
      OpenedFacts(s, v, x, live);
      ghost var v1 := v;
      var r;
      r, isNew := ScavengePointer(mem[x].slots[i], x);
      SlotScanned(s, v1, v, to, live, x, i, r);
      WithSlotIs(v, x, i, r);
      v := SetSlot(v, x, i, r);
      mem := mem[x := mem[x].(slots := mem[x].slots[i := r])];
    }

    /** Scans the slots of x in place; the result says whether one of them now refers to new space. */
    method ScavengePointers(x: Addr) returns (hasNew: bool)
      requires Valid() && v.phase.Tracing? && Opened(s, v, x, live)
      requires mem[x].slots == Orig(s, v.origin, x).slots && AllWithin(s, mem[x].slots, live)
      modifies `mem, `top, `end, `tenureStack, `v
      ensures Valid() && v.phase.Tracing? && Grows(s, old(v), v, x) && Opened(s, v, x, live)
      ensures NoFromRefs(s, mem[x].slots)
      ensures hasNew <==> exists i :: 0 <= i < |mem[x].slots| && IsNewRef(mem[x].slots[i])
      ensures if NoFromRefs(s, old(mem[x].slots)) then Still(old(v), v) else SomeMoved(s, mem)
    {
      hide Inv, WellFormed, Closed, Grows, Opened, SomeMoved, Scanned, NoFromRefs, FromRef, Within, AllWithin;
      OpenedFacts(s, v, x, live);
      ghost var v0, orig := v, mem[x].slots;
      GrowsReflexive(s, v, x);
      ScannedStart(s, orig);
      hasNew := false;
      var i := 0;
      while i < |mem[x].slots|
        invariant x in mem && mem[x].Obj? && |mem[x].slots| == |orig| && i <= |orig|
        invariant Valid() && v.phase.Tracing? && Grows(s, v0, v, x) && Opened(s, v, x, live)
        invariant (x in s.mem || (x in v.origin && v.origin[x] in s.mem)) && Orig(s, v.origin, x).Obj?
        invariant Orig(s, v.origin, x).slots == orig
        invariant Scanned(s, mem[x].slots, orig, i, hasNew)
        invariant if NoFromRefs(s, orig[..i]) then Still(v0, v) else SomeMoved(s, mem)
        decreases |orig| - i
      {
        ghost var v1, slots := v, mem[x].slots;
        ScannedNext(s, slots, orig, i, hasNew);
        WithinAt(s, orig, live, i);
        var isNew := ScavengeSlot(x, i);
        OpenedFacts(s, v, x, live);
        ScanStep(s, v0, v1, v, to, live, x);
        ScannedOne(s, slots, mem[x].slots, orig, i, hasNew, isNew);
        hasNew := hasNew || isNew;
        i := i + 1;
      }
      ScannedAll(s, mem[x].slots, orig, hasNew);
    }

    /**
     * Keeps the class of a live object alive; the class table itself is updated only when everything has been traced.
     */
    method ScavengeClass(cid: nat, ghost x: Addr) returns (hasNew: bool)
      requires Valid() && v.phase.Tracing? && cid < |classTable| && Within(s, classTable[cid], live)
      requires classTable[cid].Ref? ==> classTable[cid].addr in s.mem
      modifies `mem, `top, `end, `tenureStack, `v
      ensures Valid() && v.phase.Tracing? && Grows(s, old(v), v, x) && StaysPut(old(v), v)
      ensures var c := old(classTable[cid]);
        && Survives(s, mem, c) && (IsNewRef(Image(s, mem, c)) ==> hasNew) && (hasNew ==> IsNewRef(c))
        && if FromRef(s, c) then SomeMoved(s, mem) else Still(old(v), v)
    {
      hide Inv, WellFormed, Closed, Grows, Image, Survives, SomeMoved;
      var target := classTable[cid];
      EverythingIsObj(s, v, to, live, x);
      ColorsInMemory(s, v, to, live);
      GrowsReflexive(s, v, x);
      if !IsNewRef(target) {
        NotFollowed(s, mem, target);
        return false;
      }
      FromSpaceCell(s, v, to, live, target.addr);
      if mem[target.addr].Forwarded? {
        Followed(s, mem, target);
        return IsNew(mem[target.addr].to);
      }
      var newAddr := MoveObject(target.addr, x);
      Followed(s, mem, target);
      return true;
    }

    method AddToRememberedSet(x: Addr)
      requires rememberedSetSize <= |rememberedSet| && x in mem && mem[x].Obj? && !IsNew(x) && !mem[x].remembered
      modifies `rememberedSet, `rememberedSetSize, `mem
      ensures rememberedSetSize == old(rememberedSetSize) + 1 <= |rememberedSet|
      ensures |rememberedSet| >= old(|rememberedSet|)
      ensures rememberedSet[..rememberedSetSize] == old(rememberedSet[..rememberedSetSize]) + [x]
      ensures forall i :: rememberedSetSize <= i < old(|rememberedSet|) ==> rememberedSet[i] == old(rememberedSet[i])
      ensures mem == old(mem)[x := old(mem)[x].(remembered := true)]
    {
      if rememberedSetSize == |rememberedSet| {
        rememberedSet := rememberedSet + [x];
      } else {
        rememberedSet := rememberedSet[rememberedSetSize := x];
      }
      rememberedSetSize := rememberedSetSize + 1;
      mem := mem[x := mem[x].(remembered := true)];
    }

    method AddToWeakList(x: Addr)
      requires Valid() && Opened(s, v, x, live) && mem[x].slots == Orig(s, v.origin, x).slots
      requires mem[x].cid == WEAK_ARRAY_CID
      modifies `weakList, `v
      ensures Valid() && v.phase == old(v).phase && Settles(s, old(v), v, x) && Still(old(v), v)
      ensures v.mem == old(v).mem && v.rem == old(v).rem
      ensures x in v.color && v.color[x] == OnWeakList
    {
      hide Inv, WellFormed, Closed;
      ghost var list := weakChain + [x] + weakList;
      QueueStep(s, v, to, live, x, OnWeakList, weakChain, weakList);
      QueueSettles(s, v, x, OnWeakList, list);
      weakList := [x] + weakList;
      v := Queue(v, x, OnWeakList, list);
      assert weakChain + weakList == list;
    }

    method AddToEphemeronList(x: Addr)
      requires Valid() && Opened(s, v, x, live) && mem[x].slots == Orig(s, v.origin, x).slots
      requires mem[x].cid == EPHEMERON_CID
      modifies `ephemeronList, `v
      ensures Valid() && v.phase == old(v).phase && Settles(s, old(v), v, x) && Still(old(v), v)
      ensures v.mem == old(v).mem && v.rem == old(v).rem
      ensures x in v.color && v.color[x] == OnEphemeronList
    {
      hide Inv, WellFormed, Closed;
      ghost var list := ephemeronChain + [x] + ephemeronList;
      QueueStep(s, v, to, live, x, OnEphemeronList, ephemeronChain, ephemeronList);
      QueueSettles(s, v, x, OnEphemeronList, list);
      ephemeronList := [x] + ephemeronList;
      v := Queue(v, x, OnEphemeronList, list);
      assert ephemeronChain + ephemeronList == list;
    }

    /** Scans an ordinary object: its class, then its slots. */
    method ScavengeObject(x: Addr) returns (hasNew: bool)
      requires Valid() && v.phase.Tracing? && Opened(s, v, x, live)
      requires mem[x].slots == Orig(s, v.origin, x).slots && IsStrong(mem[x].cid) && !mem[x].remembered
      modifies `mem, `top, `end, `tenureStack, `v
      ensures Valid() && v.phase.Tracing? && Grows(s, old(v), v, x) && Opened(s, v, x, live) && !mem[x].remembered
      ensures Done(s, mem, Orig(s, v.origin, x), mem[x]) && (NewTargetNow(s, mem, mem[x]) ==> hasNew)
      ensures hasNew ==> NewTargetNow(s, mem, mem[x]) || ClassWasNew(s, mem[x])
      ensures if TouchesNew(s, old(Orig(s, v.origin, x))) then SomeMoved(s, mem) else Still(old(v), v)
    {
      hide Inv, WellFormed, Closed, Grows, Opened, SomeMoved, Image, Survives;
      OpenedFacts(s, v, x, live);
      ghost var v0, c0 := v, Orig(s, v.origin, x);
      hasNew := ScavengeClass(mem[x].cid, x);
      ghost var v1 := v;
      OpenedGrows(s, v0, v1, x, live);
      OpenedFacts(s, v1, x, live);
      var more := ScavengePointers(x);
      OpenedGrows(s, v1, v, x, live);
      OpenedFacts(s, v, x, live);
      ScanStep(s, v0, v1, v, to, live, x);
      ClassStays(s, v1, v, x, c0.cid);
      ScannedDone(s, v, to, live, x);
      SameBit(s, v0, v, x);
      hasNew := hasNew || more;
    }

    /** Ends the scan of x, remembering it if that was asked for. */
    method FinishObject(x: Addr, remember: bool)
      requires Valid() && Opened(s, v, x, live) && Done(s, mem, Orig(s, v.origin, x), mem[x]) && !mem[x].remembered
      requires remember ==> !IsNew(x) && (NewTargetNow(s, mem, mem[x]) || ClassWasNew(s, mem[x]))
      requires !IsNew(x) && NewTargetNow(s, mem, mem[x]) ==> remember
      modifies `mem, `v, `rememberedSet, `rememberedSetSize
      ensures x in old(v).mem && old(v).mem[x].Obj? && Valid() && v == Finish(old(v), x, remember)
      ensures rememberedSetSize <= old(rememberedSetSize) + 1 && |rememberedSet| >= old(|rememberedSet|)
      ensures forall i :: old(rememberedSetSize) < i < old(|rememberedSet|) ==>
        rememberedSet[i] == old(rememberedSet[i])
    {
      hide Inv, WellFormed, Closed, Opened, Done, NewTargetNow;
      OpenedFacts(s, v, x, live);
      FinishKeepsInv(s, v, to, live, x, remember);
      if remember {
        AddToRememberedSet(x);
      } else {
        assert mem == mem[x := mem[x].(remembered := false)];
      }
      v := Finish(v, x, remember);
    }

    /** Scans an old object, and remembers it if it still refers to new space. */
    method ScavengeOldObject(x: Addr)
      requires Valid() && v.phase.Tracing? && Opened(s, v, x, live) && !IsNew(x)
      requires mem[x].slots == Orig(s, v.origin, x).slots && !mem[x].remembered
      modifies `mem, `top, `end, `tenureStack, `v, `ephemeronList, `weakList, `rememberedSet, `rememberedSetSize
      ensures Valid() && v.phase.Tracing? && Settles(s, old(v), v, x)
      ensures rememberedSetSize <= old(rememberedSetSize) + 1 && |rememberedSet| >= old(|rememberedSet|)
      ensures forall i :: old(rememberedSetSize) < i < old(|rememberedSet|) ==>
        rememberedSet[i] == old(rememberedSet[i])
      ensures x in v.color && (old(mem[x].cid) == EPHEMERON_CID ==> v.color[x] == OnEphemeronList)
      ensures if TouchesNew(s, old(Orig(s, v.origin, x))) then SomeMoved(s, mem) else Still(old(v), v)
    {
      hide Inv, WellFormed, Closed, Grows, Opened, SomeMoved, Settles, Done, NewTargetNow;
      OpenedFacts(s, v, x, live);
      ghost var v0 := v;
      var cid := mem[x].cid;
      if cid == WEAK_ARRAY_CID {
        AddToWeakList(x);
      } else if cid == EPHEMERON_CID {
        AddToEphemeronList(x);
      } else {
        var hasNew := ScavengeObject(x);
        ghost var v1 := v;
        FinishObject(x, hasNew);
        OpenedFacts(s, v1, x, live);
        OldAddress(s, v0, x, live);
        SettleStep(s, v0, v1, v, x, hasNew);
      }
    }

    method PopTenureStack() returns (addr: Addr)
      requires tenureStack != [] && end < to.Limit()
      modifies `end, `tenureStack
      ensures addr == old(tenureStack)[0] && tenureStack == old(tenureStack)[1..] && end == old(end) + 1
    {
      addr := tenureStack[0];
      tenureStack := tenureStack[1..];
      end := end + 1;
    }

    method ProcessTenureStack()
      requires Valid() && v.phase.Tracing?
      modifies `mem, `top, `end, `tenureStack, `v, `ephemeronList, `weakList, `rememberedSet, `rememberedSetSize
      ensures Valid() && v.phase.Tracing? && Progress(s, old(v), v)
      ensures tenureStack == [] && v.unread == old(v).unread && v.scanned == old(v).scanned
    {
      hide Inv, WellFormed, Closed, Opened, Settles, Opening, Progress, Advance, Calm, SomeMoved;
      ghost var v0 := v;
      ProgressReflexive(s, v);
      Budget(s, v, to, live);
      while tenureStack != []
        invariant Valid() && v.phase.Tracing? && Progress(s, v0, v)
        invariant v.unread == v0.unread && v.scanned == v0.scanned
        invariant v.top + v.tenured <= to.Start() + Unforwarded(s.layout, s.mem)
        decreases Unforwarded(s.layout, s.mem) + to.Start() - (v.top + v.tenured), |tenureStack|
      {
        Budget(s, v, to, live);
        OpenTenured(s, v, to, live);
        ghost var v1 := v;
        var x := PopTenureStack();
        v := PopTenured(v1);
        ghost var v2 := v;
        OpeningFacts(s, v1, v2, to, live, x);
        ScavengeOldObject(x);
        Budget(s, v, to, live);
        SettledProgress(s, v1, v2, v, x);
        ProgressTransitive(s, v0, v1, v);
      }
    }

    /** Scans a copy in to-space. */
    method ScavengeNewObject(x: Addr)
      requires Valid() && v.phase.Tracing? && Opened(s, v, x, live) && IsNew(x)
      requires mem[x].slots == Orig(s, v.origin, x).slots && !mem[x].remembered
      modifies `mem, `top, `end, `tenureStack, `v, `ephemeronList, `weakList, `rememberedSet, `rememberedSetSize
      ensures Valid() && v.phase.Tracing? && Settles(s, old(v), v, x) && x in mem && mem[x].Obj?
      ensures mem[x].size == old(mem[x].size)
    {
      hide Inv, WellFormed, Closed, Grows, Opened, SomeMoved, Settles, Done, NewTargetNow;
      OpenedFacts(s, v, x, live);
      ghost var v0 := v;
      var cid := mem[x].cid;
      if cid == WEAK_ARRAY_CID {
        AddToWeakList(x);
      } else if cid == EPHEMERON_CID {
        AddToEphemeronList(x);
      } else {
        var _ := ScavengeObject(x);
        ghost var v1 := v;
        FinishObject(x, false);
        OpenedFacts(s, v1, x, live);
        OldAddress(s, v0, x, live);
        SettleStep(s, v0, v1, v, x, false);
        SameSize(s, v0, v1, x);
      }
    }

    /** Scans the copy at scan, and steps over it. */
    method ScavengeCopy(scan: nat) returns (next: nat)
      requires Valid() && v.phase.Tracing? && scan == ScanAddress(v) < top
      modifies `mem, `top, `end, `tenureStack, `v, `ephemeronList, `weakList, `rememberedSet, `rememberedSetSize
      ensures Valid() && v.phase.Tracing? && Progress(s, old(v), v) && v.scanned == old(v).scanned + 1
      ensures next == ScanAddress(v) && v.unread == old(v).unread
    {
      hide Inv, WellFormed, Closed, Opened, Settles, Opening, Progress, ScanAddress;
      ScanPending(s, v, to, live);
      OpenCopy(s, v, to, live);
      ghost var v1 := v;
      var x := scan;
      NextScanned(v1);
      v := NextCopy(v1);
      ghost var v2 := v;
      OpeningFacts(s, v1, v2, to, live, x);
      ScavengeNewObject(x);
      SettledProgress(s, v1, v2, v, x);
      ProgressCopies(s, v1, v);
      ScanAdvances(s, v1, v, to, live);
      next := scan + mem[x].size;
    }

    /** Scans copies in the order they were made, including the ones made meanwhile. */
    method ScavengeToSpace(start: nat) returns (scan: nat)
      requires Valid() && v.phase.Tracing? && start == ScanAddress(v)
      modifies `mem, `top, `end, `tenureStack, `v, `ephemeronList, `weakList, `rememberedSet, `rememberedSetSize
      ensures Valid() && v.phase.Tracing? && Progress(s, old(v), v)
      ensures scan == top == ScanAddress(v) && v.scanned == |v.copies| && v.unread == old(v).unread
    {
      hide Inv, WellFormed, Closed, Progress, ScanAddress;
      ghost var v0 := v;
      ProgressReflexive(s, v);
      Budget(s, v, to, live);
      scan := start;
      while scan < top
        invariant Valid() && v.phase.Tracing? && Progress(s, v0, v) && scan == ScanAddress(v) && v.unread == v0.unread
        invariant v.top + v.tenured <= to.Start() + Unforwarded(s.layout, s.mem) && v.scanned <= |v.copies|
        decreases Unforwarded(s.layout, s.mem) + to.Start() - (v.top + v.tenured), |v.copies| - v.scanned
      {
        ghost var v1 := v;
        ScanPending(s, v, to, live);
        scan := ScavengeCopy(scan);
        Budget(s, v, to, live);
        ProgressTransitive(s, v0, v1, v);
        ProgressCopies(s, v1, v);
      }
      ScanPending(s, v, to, live);
      ScanEnd(v);
    }

    /** Scans an ephemeron whose key is known to survive. */
    method ScavengeLiveEphemeron(x: Addr)
      requires Valid() && v.phase.Tracing? && Opened(s, v, x, live) && KeyGivesAll(s, v, x, live)
      requires mem[x].slots == Orig(s, v.origin, x).slots && !mem[x].remembered
      requires mem[x].cid == EPHEMERON_CID && |mem[x].slots| == 3 && Survives(s, mem, mem[x].slots[0])
      modifies `mem, `top, `end, `tenureStack, `v, `rememberedSet, `rememberedSetSize
      ensures Valid() && v.phase.Tracing? && Settles(s, old(v), v, x) && v.ephemeronList == old(v).ephemeronList
    {
      hide Inv, WellFormed, Closed, Grows, Opened, SomeMoved, Settles, Done, Survives;
      OpenedFacts(s, v, x, live);
      ghost var v0, key := v, mem[x].slots[0];
      var hasNew := ScavengePointers(x);
      ghost var v1 := v;
      OpenedFacts(s, v1, x, live);
      OpenedGrows(s, v0, v1, x, live);
      KeySurvivesDone(s, v0, v1, x, key);
      ScannedDone(s, v1, to, live, x);
      SameBit(s, v0, v1, x);
      FinishObject(x, hasNew && !IsNew(x));
      OldAddress(s, v0, x, live);
      SettleStep(s, v0, v1, v, x, hasNew && !IsNew(x));
    }

    method ScavengeFirstEphemeron(x: Addr)
      requires Valid() && v.phase.Tracing? && ephemeronChain != [] && ephemeronChain[0] == x
      requires x in mem && mem[x].Obj? && |mem[x].slots| == 3 && Survives(s, mem, mem[x].slots[0])
      modifies `mem, `top, `end, `tenureStack, `v, `rememberedSet, `rememberedSetSize, `ephemeronChain
      ensures Valid() && v.phase.Tracing? && Progress(s, old(v), v) && ephemeronChain == old(ephemeronChain)[1..]
      ensures v.unread == old(v).unread && v.scanned == old(v).scanned
      ensures v.pushes - |v.tenureStack| == old(v.pushes - |v.tenureStack|)
      ensures Still(old(v), v) && DeadKeys(s, old(v), ephemeronList) ==> DeadKeys(s, v, ephemeronList)
    {
      hide Inv, WellFormed, Closed, Opened, Settles, Opening, Progress, DeadKeys, KeyDead, Listed, Survives;
      ghost var v1 := v;
      assert v.ephemeronList[0] == x && v.ephemeronList[1..] == ephemeronChain[1..] + ephemeronList;
      OpenEphemeron(s, v1, to, live);
      v := NextEphemeron(v1);
      ghost var v2 := v;
      ephemeronChain := ephemeronChain[1..];
      OpeningFacts(s, v1, v2, to, live, x);
      ScavengeLiveEphemeron(x);
      SettledProgress(s, v1, v2, v, x);
      SettledKeys(s, v1, v2, v, to, live, x, ephemeronList);
    }

    /** Puts back an ephemeron whose key has not been reached. */
    method ReturnEphemeron(x: Addr)
      requires WellFormed(s) && Closed(s, live) && Inv(s, v, to, live) && v.phase.Tracing?
      requires v.ephemeronList == [x] + ephemeronChain + ephemeronList && x in v.color && v.color[x] == OnEphemeronList
      requires Tied(rememberedSetSize, [x] + ephemeronChain)
      requires x in mem && mem[x].Obj? && |mem[x].slots| == 3 && FromRef(s, mem[x].slots[0])
      requires mem[x].slots[0].addr in mem && !mem[mem[x].slots[0].addr].Forwarded?
      modifies `ephemeronList, `v
      ensures Valid() && v == old(v).(ephemeronList := v.ephemeronList) && Progress(s, old(v), v)
      ensures DeadKeys(s, old(v), old(ephemeronList)) ==> DeadKeys(s, v, ephemeronList)
    {
      hide Inv, WellFormed, Closed, Progress, DeadKeys;
      ghost var list := ephemeronChain + [x] + ephemeronList;
      Requeue(s, v, to, live, x, ephemeronChain, ephemeronList);
      DeadKeyAdded(s, v, to, live, x, list, ephemeronList);
      ProgressReflexive(s, v);
      ProgressRequeue(s, v, v, list);
      ephemeronList := [x] + ephemeronList;
      v := v.(ephemeronList := list);
      assert ephemeronChain + ephemeronList == list;
    }

    /** Takes the first ephemeron off the list being walked: scans it if its key survives, else puts it back. */
    method ScavengeEphemeron(survivor: seq<Addr>)
      requires Valid() && v.phase.Tracing? && ephemeronChain == survivor != []
      modifies `mem, `top, `end, `tenureStack, `v, `rememberedSet, `rememberedSetSize, `ephemeronList, `ephemeronChain
      ensures Valid() && v.phase.Tracing? && Progress(s, old(v), v) && ephemeronChain == survivor[1..]
      ensures v.unread == old(v).unread && v.scanned == old(v).scanned
      ensures v.pushes - |v.tenureStack| == old(v.pushes - |v.tenureStack|)
      ensures Still(old(v), v) && DeadKeys(s, old(v), old(ephemeronList)) ==> DeadKeys(s, v, ephemeronList)
    {
      hide Inv, WellFormed, Closed, Opened, Settles, Opening, Progress, DeadKeys, KeyDead, Listed;
      ghost var v1 := v;
      var x, next := survivor[0], survivor[1..];
      assert v.ephemeronList == [x] + next + ephemeronList;
      HeadQueued(s, v, to, live);
      QueuedEphemeron(s, v, to, live, x);
      ProgressReflexive(s, v);
      var key := mem[x].slots[0];
      if !IsNewRef(key) || mem[key.addr].Forwarded? {
        ScavengeFirstEphemeron(x);
      } else {
        ephemeronChain := next;
        ReturnEphemeron(x);
      }
    }

    method ScavengeEphemeronList()
      requires Valid() && v.phase.Tracing? && ephemeronChain == []
      modifies `mem, `top, `end, `tenureStack, `v, `rememberedSet, `rememberedSetSize, `ephemeronList, `ephemeronChain
      ensures Valid() && v.phase.Tracing? && Progress(s, old(v), v) && ephemeronChain == []
      ensures v.unread == old(v).unread && v.scanned == old(v).scanned
      ensures v.pushes - |v.tenureStack| == old(v.pushes - |v.tenureStack|)
      ensures Still(old(v), v) ==> DeadKeys(s, v, v.ephemeronList)
    {
      hide Inv, WellFormed, Closed, Progress, DeadKeys;
      ghost var v0 := v;
      ProgressReflexive(s, v);
      var survivor := ephemeronList;
      ephemeronList := [];
      ephemeronChain := survivor;
      assert ephemeronChain + ephemeronList == v.ephemeronList;
      NoKeys(s, v);
      while survivor != []
        invariant ephemeronChain == survivor && Valid() && v.phase.Tracing? && Progress(s, v0, v)
        invariant v.unread == v0.unread && v.scanned == v0.scanned
        invariant v.pushes - |v.tenureStack| == v0.pushes - |v0.tenureStack|
        invariant Still(v0, v) ==> DeadKeys(s, v, ephemeronList)
        decreases |survivor|
      {
        ghost var v1 := v;
        ScavengeEphemeron(survivor);
        ProgressTransitive(s, v0, v1, v);
        StillBetween(s, v0, v1, v);
        survivor := survivor[1..];
      }
      assert v.ephemeronList == ephemeronList;
    }

    /** Entries i up to saved of the remembered set are still to be read; the ones that were kept lie before them. */
    ghost predicate StillUnread(i: nat, saved: nat)
      reads this
    {
      && rememberedSetSize <= i <= saved == |s.remembered| <= |rememberedSet|
      && rememberedSet[i..saved] == v.unread == s.remembered[i..]
    }

    /** Scans entry i of the remembered set, keeping it only if it still refers to new space. */
    method ScavengeRememberedObject(i: nat, saved: nat, ghost v0: View)
      requires i < saved && StillUnread(i, saved)
      requires Valid() && v.phase.Tracing? && RootsStep(s, v0, v) && EphemeronsListed(s, v, i)
      requires if RememberedTouch(s, i) then SomeMoved(s, mem) else Still(v0, v)
      modifies `mem, `top, `end, `tenureStack, `v, `ephemeronList, `weakList, `rememberedSet, `rememberedSetSize
      ensures StillUnread(i + 1, saved)
      ensures Valid() && v.phase.Tracing? && RootsStep(s, v0, v) && EphemeronsListed(s, v, i + 1)
      ensures v.roots == old(v).roots
      ensures if RememberedTouch(s, i + 1) then SomeMoved(s, mem) else Still(v0, v)
    {
      hide Inv, WellFormed, Closed, Opened, Settles, Opening, SomeMoved, TouchesNew, EphemeronsListed, RememberedTouch;
      hide RootsStep;
      ghost var v1 := v;
      var obj := rememberedSet[i];
      TailHead(rememberedSet, i, saved);
      TailHead(s.remembered, i, saved);
      OpenUnread(s, v1, to, live);
      mem := mem[obj := mem[obj].(remembered := false)];
      v := NextUnread(v1);
      ghost var v2 := v;
      OpeningFacts(s, v1, v2, to, live, obj);
      OpenedFacts(s, v2, obj, live);
      RememberedOrig(s, v2, obj, live);
      ghost var tail := rememberedSet;
      ScavengeOldObject(obj);
      RootsStepped(s, v0, v1, v2, v, to, live, obj, i);
      SettledProgress(s, v1, v2, v, obj);
      SameTail(tail, rememberedSet, i + 1, saved);
    }

    /** Scans the remembered set and keeps, in place, the objects that still refer to new space. */
    method ScavengeRemembered()
      requires rememberedSetSize <= |rememberedSet| && ValidWith(0) && v.phase.Tracing?
      requires v.unread == s.remembered == rememberedSet[..rememberedSetSize]
      modifies `mem, `top, `end, `tenureStack, `v, `ephemeronList, `weakList, `rememberedSet, `rememberedSetSize
      ensures Valid() && v.phase.Tracing? && RootsStep(s, old(v), v) && v.unread == [] && v.roots == old(v).roots
      ensures EphemeronsListed(s, v, |s.remembered|)
      ensures if RememberedTouch(s, |s.remembered|) then SomeMoved(s, mem) else Still(old(v), v)
    {
      hide Inv, WellFormed, Closed, SomeMoved, EphemeronsListed, RememberedTouch, RootsStep;
      ghost var v0 := v;
      var saved := rememberedSetSize;
      rememberedSetSize := 0;
      FirstRoots(s, v);
      var i := 0;
      while i < saved
        invariant i <= saved == |s.remembered| && StillUnread(i, saved)
        invariant Valid() && v.phase.Tracing? && RootsStep(s, v0, v) && v.roots == v0.roots
        invariant EphemeronsListed(s, v, i)
        invariant if RememberedTouch(s, i) then SomeMoved(s, mem) else Still(v0, v)
      {
        ScavengeRememberedObject(i, saved, v0);
        i := i + 1;
      }
    }

    method ScavengeRoot(i: nat)
      requires Valid() && v.phase.Tracing? && i < |roots| == |s.roots| && roots[i] == s.roots[i]
      modifies `mem, `top, `end, `tenureStack, `v, `roots
      ensures Valid() && v.phase.Tracing? && RootsStep(s, old(v), v) && v.unread == old(v).unread
      ensures |roots| == |s.roots| && roots == old(roots)[i := roots[i]] && !FromRef(s, roots[i])
      ensures ColorsStay(old(v), v)
      ensures if FromRef(s, s.roots[i]) then SomeMoved(s, mem) else Still(old(v), v)
      ensures SomeMoved(s, old(mem)) ==> SomeMoved(s, mem)
    {
      hide Inv, WellFormed, Closed, Grows, SomeMoved, Image, Survives;
      ghost var v1 := v;
      RootReaches(s, live, i);
      var r, _ := ScavengePointer(roots[i], 0);
      MovedStays(s, v1, v);
      GrowsKeepsColors(s, v1, v, 0);
      RootStep(s, v, to, live, i, r);
      roots := roots[i := r];
      v := v.(roots := roots);
    }

    method ScavengeRootPointers()
      requires Valid() && v.phase.Tracing? && roots == s.roots
      modifies `mem, `top, `end, `tenureStack, `v, `roots
      ensures Valid() && v.phase.Tracing? && RootsStep(s, old(v), v) && v.unread == old(v).unread
      ensures NoFromRefs(s, roots)
      ensures ColorsStay(old(v), v)
      ensures if NoFromRefs(s, s.roots) then Still(old(v), v) else SomeMoved(s, mem)
      ensures SomeMoved(s, old(mem)) ==> SomeMoved(s, mem)
    {
      hide Inv, WellFormed, Closed, Grows, SomeMoved, Image, Survives, NoFromRefs, Scanned, RootsStep, ColorsStay;
      hide FromRef;
      ghost var v0 := v;
      NoRootsYet(s, v);
      ScannedStart(s, roots);
      ghost var hasNew := false;
      var i := 0;
      while i < |roots|
        invariant Valid() && v.phase.Tracing? && RootsStep(s, v0, v) && v.unread == v0.unread
        invariant i <= |roots| == |s.roots| && Scanned(s, roots, s.roots, i, hasNew)
        invariant ColorsStay(v0, v)
        invariant if NoFromRefs(s, s.roots[..i]) then Still(v0, v) else SomeMoved(s, mem)
        invariant SomeMoved(s, v0.mem) ==> SomeMoved(s, mem)
      {
        ghost var v1, before := v, roots;
        ScannedNext(s, roots, s.roots, i, hasNew);
        ScavengeRoot(i);
        RootsFurther(s, v0, v1, v);
        ScannedOne(s, before, roots, s.roots, i, hasNew, IsNewRef(roots[i]));
        hasNew := hasNew || IsNewRef(roots[i]);
        i := i + 1;
      }
      ScannedAll(s, roots, s.roots, hasNew);
    }

    /** Scans the remembered set, then follows the roots. */
    method ScavengeRoots()
      requires rememberedSetSize <= |rememberedSet| && ValidWith(0) && v.phase.Tracing? && roots == s.roots
      requires v.unread == s.remembered == rememberedSet[..rememberedSetSize]
      modifies `mem, `top, `end, `tenureStack, `v, `ephemeronList, `weakList, `rememberedSet, `rememberedSetSize, `roots
      ensures Valid() && v.phase.Tracing? && RootsStep(s, old(v), v) && v.unread == [] && NoFromRefs(s, roots)
      ensures EphemeronsListed(s, v, |s.remembered|)
      ensures if RootsTouchNew(s) then SomeMoved(s, mem) else Still(old(v), v)
    {
      hide Inv, WellFormed, Closed, SomeMoved, RememberedTouch;
      ScavengeRemembered();
      ScavengeRootPointers();
    }

    ghost predicate MayClear(x: Addr)
      reads this
    {
      && (x in s.mem || (x in v.origin && v.origin[x] in s.mem)) && v.phase.Mourning?
      && var c0 := Orig(s, v.origin, x);
         c0.Obj? && |c0.slots| == 3 && ((v.phase.skipped && c0.remembered) || !Survives(s, mem, c0.slots[0]))
    }

    method ClearSlot(x: Addr, i: nat, nil: Value)
      requires Valid() && v.phase.Mourning? && Opened(s, v, x, live) && nil == Nil(s) && i < 3
      requires mem[x].cid == EPHEMERON_CID && |mem[x].slots| == 3
      requires MayClear(x)
      modifies `mem, `v
      ensures Valid() && Opened(s, v, x, live) && x in old(v).mem && old(v).mem[x].Obj?
      ensures v == SetSlot(old(v), x, i, nil)
      ensures mem[x].cid == EPHEMERON_CID && mem[x].slots == old(mem[x].slots)[i := nil]
      ensures mem[x].remembered == old(mem[x].remembered)
      ensures Orig(s, v.origin, x) == old(Orig(s, v.origin, x)) && MayClear(x)
    {
      hide Inv, WellFormed, Closed, Grows, Opened, Survives;
      OpenedFacts(s, v, x, live);
      ghost var v1 := v;
      SetSlotKeepsInv(s, v, to, live, x, i, nil);
      v := SetSlot(v, x, i, nil);
      mem := mem[x := mem[x].(slots := mem[x].slots[i := nil])];
      OpenedGrows(s, v1, v, x, live);
      OpenedFacts(s, v, x, live);
      StillImages(s, v1, v, to, live, x);
    }

    method ClearSlots(x: Addr, nil: Value)
      requires Valid() && v.phase.Mourning? && Opened(s, v, x, live) && nil == Nil(s) && MayClear(x)
      requires mem[x].cid == EPHEMERON_CID && |mem[x].slots| == 3
      modifies `mem, `v
      ensures Valid() && Opened(s, v, x, live) && OnlySlots(old(v), v, x)
      ensures mem[x].cid == EPHEMERON_CID && mem[x].slots == [nil, nil, nil]
      ensures mem[x].remembered == old(mem[x].remembered)
      ensures Orig(s, v.origin, x) == old(Orig(s, v.origin, x))
    {
      hide Inv, WellFormed, Closed, Opened, OnlySlots, MayClear;
      OpenedFacts(s, v, x, live);
      ghost var v0 := v;
      SlotsReflexive(v, x);
      SlotWritten(v0, v, x, 0, nil);
      ClearSlot(x, 0, nil);
      SlotWritten(v0, v, x, 1, nil);
      ClearSlot(x, 1, nil);
      SlotWritten(v0, v, x, 2, nil);
      ClearSlot(x, 2, nil);
      OpenedFacts(s, v, x, live);
    }

    /** Clears an ephemeron whose key died. */
    method MournEphemeron(x: Addr)
      requires Valid() && v.phase.Mourning? && Opened(s, v, x, live) && mem[x].slots == Orig(s, v.origin, x).slots
      requires !mem[x].remembered && mem[x].cid == EPHEMERON_CID && |mem[x].slots| == 3
      requires (v.phase.skipped && Orig(s, v.origin, x).remembered) || !Survives(s, mem, mem[x].slots[0])
      modifies `mem, `v, `rememberedSet, `rememberedSetSize
      ensures Valid() && OnlyTouches(old(v), v, x) && Cleared(s, v, x)
    {
      hide Inv, WellFormed, Closed, Opened, OnlySlots, OnlyTouches, Survives, Done, NewTargetNow;
      OpenedFacts(s, v, x, live);
      NilStays(s, v, to, live);
      ghost var v0 := v;
      ClearSlots(x, roots[0]);
      OpenedFacts(s, v, x, live);
      ClearedDone(s, mem, Orig(s, v.origin, x), mem[x]);
      SlotsFinished(v0, v, x, false);
      FinishObject(x, false);
    }

    /** Takes the first ephemeron off the list being walked and clears it. */
    method MournFirstEphemeron(x: Addr)
      requires Valid() && v.phase.Mourning? && ephemeronChain != [] && ephemeronChain[0] == x
      requires Mournable(s, v, ephemeronChain)
      modifies `mem, `v, `rememberedSet, `rememberedSetSize, `ephemeronChain
      ensures Valid() && Mourns(s, old(v), v) && v.phase == old(v).phase && v.weakList == old(v).weakList
      ensures ephemeronChain == old(ephemeronChain)[1..] && Cleared(s, v, x)
      ensures Mournable(s, v, ephemeronChain)
    {
      hide Inv, WellFormed, Closed, Opened, Opening, Mourns, DeadKeys, Cleared, OnlyTouches, SomeMoved, Orig;
      ghost var v1 := v;
      ghost var rest := ephemeronChain[1..];
      assert v.ephemeronList[0] == x && v.ephemeronList[1..] == rest + ephemeronList && ephemeronChain == [x] + rest;
      HeadQueued(s, v1, to, live);
      OpenEphemeron(s, v1, to, live);
      QueuedEphemeron(s, v1, to, live, x);
      v := NextEphemeron(v1);
      ghost var v2 := v;
      ephemeronChain := rest;
      OpeningFacts(s, v1, v2, to, live, x);
      if v.phase.skipped { QueuedRemembered(s, v1, to, live, x); }
      HeadKeyDead(s, v1, v2, x, rest);
      MournEphemeron(x);
      MournsStep(s, v1, v2, v, to, live, x);
      TouchedLists(v2, v, x);
      DeadKeysMourn(s, v1, v2, v, to, live, rest);
      StillNoneMoved(s, v1, v, to, live);
    }

    /** Clears the ephemerons left on the list. */
    method MournEphemeronList()
      requires Valid() && v.phase.Mourning? && ephemeronChain == []
      requires Mournable(s, v, v.ephemeronList)
      modifies `mem, `v, `rememberedSet, `rememberedSetSize, `ephemeronList, `ephemeronChain
      ensures Valid() && Mourns(s, old(v), v) && v.ephemeronList == [] && ephemeronChain == []
      ensures v.weakList == old(v).weakList
      ensures AllCleared(s, v, old(v).ephemeronList)
    {
      hide Inv, WellFormed, Closed, Mourns, Mournable, Cleared, AllCleared;
      NoneToClear(s, v);
      ghost var v0 := v;
      MournsReflexive(s, v);
      var survivor := ephemeronList;
      ephemeronList := [];
      ephemeronChain := survivor;
      assert v.ephemeronList == survivor;
      ghost var done: seq<Addr> := [];
      while survivor != []
        invariant ephemeronChain == survivor && ephemeronList == [] && Valid() && Mourns(s, v0, v)
        invariant v.phase == v0.phase
        invariant v.weakList == v0.weakList && v0.ephemeronList == done + survivor
        invariant Mournable(s, v, survivor)
        invariant AllCleared(s, v, done)
        decreases |survivor|
      {
        ghost var v1 := v;
        var x := survivor[0];
        MournFirstEphemeron(x);
        survivor := survivor[1..];
        MournedOneMore(s, v0, v1, v, to, live, done, x, survivor);
        done := done + [x];
      }
      assert done == v0.ephemeronList;
    }

    /** Follows a weak pointer whose target moved, and gives up one whose target died. */
    method MournWeakPointer(val: Value) returns (r: Value, isNew: bool)
      requires Valid() && (val.Ref? ==> val.addr in s.mem)
      ensures |s.roots| >= 1 && r == WeakImage(s, mem, val) && !FromRef(s, r) && isNew == IsNewRef(r)
    {
      hide Inv, WellFormed, Closed;
      NilStays(s, v, to, live);
      if !IsNewRef(val) {
        return val, false;
      }
      FromSpaceCell(s, v, to, live, val.addr);
      if mem[val.addr].Forwarded? {
        r := Ref(mem[val.addr].to);
      } else {
        r := roots[0];
      }
      isNew := IsNewRef(r);
    }

    method MournWeakSlot(x: Addr, i: nat) returns (isNew: bool)
      requires Valid() && v.phase.Mourning? && Opened(s, v, x, live) && mem[x].cid == WEAK_ARRAY_CID
      requires i < |mem[x].slots|
      requires mem[x].slots[i] == Orig(s, v.origin, x).slots[i]
      modifies `mem, `v
      ensures Valid() && Opened(s, v, x, live) && Orig(s, v.origin, x) == old(Orig(s, v.origin, x))
      ensures OnlySlots(old(v), v, x) && mem[x].slots == old(mem[x].slots)[i := mem[x].slots[i]]
      ensures !FromRef(s, mem[x].slots[i]) && isNew == IsNewRef(mem[x].slots[i])
    {
      hide Inv, WellFormed, Closed, Opened, Grows, SlotOk, WeakImage;
      OpenedFacts(s, v, x, live);
      ghost var v1 := v;
      var r;
      r, isNew := MournWeakPointer(mem[x].slots[i]);
      WeakSlotOk(s, v, Orig(s, v.origin, x), mem[x].slots[i]);
      SetSlotKeepsInv(s, v, to, live, x, i, r);
      SlotsReflexive(v1, x);
      SlotWritten(v1, v1, x, i, r);
      v := SetSlot(v1, x, i, r);
      OpenedGrows(s, v1, v, x, live);
      OpenedFacts(s, v, x, live);
      mem := mem[x := mem[x].(slots := mem[x].slots[i := r])];
    }

    method MournWeakArray(x: Addr)
      requires Valid() && v.phase.Mourning? && Opened(s, v, x, live) && mem[x].slots == Orig(s, v.origin, x).slots
      requires mem[x].cid == WEAK_ARRAY_CID && !mem[x].remembered
      modifies `mem, `v, `rememberedSet, `rememberedSetSize
      ensures Valid() && OnlyTouches(old(v), v, x)
    {
      hide Inv, WellFormed, Closed, Opened, OnlySlots, Scanned, FromRef;
      OpenedFacts(s, v, x, live);
      ghost var v0, orig := v, mem[x].slots;
      SlotsReflexive(v, x);
      ScannedStart(s, orig);
      var hasNew := false;
      var i := 0;
      while i < |mem[x].slots|
        invariant x in mem && mem[x].Obj? && mem[x].cid == WEAK_ARRAY_CID && |mem[x].slots| == |orig| && i <= |orig|
        invariant !mem[x].remembered
        invariant Valid() && v.phase.Mourning? && Opened(s, v, x, live) && OnlySlots(v0, v, x)
        invariant (x in s.mem || (x in v.origin && v.origin[x] in s.mem)) && Orig(s, v.origin, x).Obj?
        invariant Orig(s, v.origin, x).slots == orig
        invariant Scanned(s, mem[x].slots, orig, i, hasNew)
        decreases |orig| - i
      {
        ghost var v1, slots := v, mem[x].slots;
        ScannedNext(s, slots, orig, i, hasNew);
        var isNew := MournWeakSlot(x, i);
        OpenedFacts(s, v, x, live);
        SlotsTransitive(v0, v1, v, x);
        ScannedOne(s, slots, mem[x].slots, orig, i, hasNew, isNew);
        hasNew := hasNew || isNew;
        i := i + 1;
      }
      ScannedAll(s, mem[x].slots, orig, hasNew);
      OpenedFacts(s, v, x, live);
      NilStays(s, v, to, live);
      WeakDone(s, mem, Orig(s, v.origin, x), mem[x]);
      SlotsFinished(v0, v, x, hasNew && !IsNew(x));
      FinishObject(x, hasNew && !IsNew(x));
    }

    method MournFirstWeakArray(x: Addr)
      requires Valid() && v.phase.Mourning? && weakChain != [] && weakChain[0] == x
      modifies `mem, `v, `rememberedSet, `rememberedSetSize, `weakChain
      ensures Valid() && Mourns(s, old(v), v) && v.phase == old(v).phase && v.ephemeronList == old(v).ephemeronList
      ensures weakChain == old(weakChain)[1..]
    {
      hide Inv, WellFormed, Closed, Opened, Opening, Mourns, OnlyTouches;
      ghost var v1 := v;
      ghost var rest := weakChain[1..];
      assert v.weakList[0] == x && v.weakList[1..] == rest + weakList;
      HeadWeak(s, v1, to, live);
      OpenWeak(s, v1, to, live);
      v := NextWeak(v1);
      ghost var v2 := v;
      weakChain := rest;
      OpeningFacts(s, v1, v2, to, live, x);
      MournWeakArray(x);
      MournsStep(s, v1, v2, v, to, live, x);
      TouchedLists(v2, v, x);
    }

    method MournWeakList()
      requires Valid() && v.phase.Mourning? && weakChain == []
      modifies `mem, `v, `rememberedSet, `rememberedSetSize, `weakList, `weakChain
      ensures Valid() && Mourns(s, old(v), v) && v.weakList == [] && weakChain == []
      ensures v.ephemeronList == old(v).ephemeronList
    {
      hide Inv, WellFormed, Closed, Mourns;
      ghost var v0 := v;
      MournsReflexive(s, v);
      var survivor := weakList;
      weakList := [];
      weakChain := survivor;
      assert v.weakList == survivor;
      while survivor != []
        invariant weakChain == survivor && weakList == [] && Valid() && Mourns(s, v0, v) && v.phase == v0.phase
        invariant v.ephemeronList == v0.ephemeronList
        decreases |survivor|
      {
        ghost var v1 := v;
        MournFirstWeakArray(survivor[0]);
        survivor := survivor[1..];
        MournsTransitive(s, v0, v1, v, to, live);
      }
    }

    /** One round of the tracing loop: scans the copies, then the tenured objects, then the ephemerons. */
    method TraceRound(start: nat) returns (scan: nat)
      requires Valid() && v.phase.Tracing? && ephemeronChain == [] && start == ScanAddress(v) && v.unread == []
      modifies `mem, `top, `end, `tenureStack, `v, `ephemeronList, `weakList, `rememberedSet, `rememberedSetSize
      modifies `ephemeronChain
      ensures Valid() && v.phase.Tracing? && ephemeronChain == [] && Progress(s, old(v), v) && v.unread == []
      ensures scan == ScanAddress(v) && (Still(old(v), v) ==> Pending(v) == 0)
      ensures v.scanned == |v.copies| && tenureStack == [] ==> DeadKeys(s, v, v.ephemeronList)
    {
      hide Inv, WellFormed, Closed, Progress, ScanAddress, DeadKeys;
      ghost var v0 := v;
      scan := ScavengeToSpace(start);
      ghost var v1 := v;
      ProcessTenureStack();
      ghost var v2 := v;
      ScavengeEphemeronList();
      RoundEnds(s, v0, v1, v2, v);
    }

    /** The tracing loop. It does not start if the roots have handed nothing out, whatever ephemerons are waiting. */
    method Trace() returns (ghost skipped: bool)
      requires Valid() && v.phase.Tracing? && ephemeronChain == [] && v.unread == [] && v.scanned == 0
      modifies `mem, `top, `end, `tenureStack, `v, `ephemeronList, `weakList, `rememberedSet, `rememberedSetSize
      modifies `ephemeronChain
      ensures Valid() && v.phase.Tracing? && ephemeronChain == [] && Progress(s, old(v), v) && v.unread == []
      ensures v.scanned == |v.copies| && tenureStack == []
      ensures skipped <==> old(top == to.Start() && tenureStack == [])
      ensures if skipped then v == old(v) else DeadKeys(s, v, v.ephemeronList)
    {
      hide Inv, WellFormed, Closed, Progress, ScanAddress, DeadKeys;
      ghost var v0 := v;
      ProgressReflexive(s, v);
      FirstScan(s, v, to, live);
      Budget(s, v, to, live);
      ScanPending(s, v, to, live);
      var scan := to.Start();
      skipped := true;
      while scan < top || end < to.Limit()
        invariant Valid() && v.phase.Tracing? && ephemeronChain == [] && Progress(s, v0, v) && v.unread == []
        invariant scan == ScanAddress(v) && end == to.Limit() - |tenureStack| && v.scanned <= |v.copies|
        invariant scan < top <==> v.scanned < |v.copies|
        invariant v.top + v.tenured <= to.Start() + Unforwarded(s.layout, s.mem)
        invariant if skipped then v == v0 && scan == to.Start() else v.scanned == |v.copies| && tenureStack == [] ==>
          DeadKeys(s, v, v.ephemeronList)
        invariant !skipped ==> v0.top > to.Start() || v0.tenureStack != []
        decreases Unforwarded(s.layout, s.mem) + to.Start() - (v.top + v.tenured), Pending(v)
      {
        ghost var v1 := v;
        scan := TraceRound(scan);
        skipped := false;
        Budget(s, v, to, live);
        ScanPending(s, v, to, live);
        ProgressTransitive(s, v0, v1, v);
        ProgressCopies(s, v1, v);
      }
      TopFromStart(s, v, to, live);
    }

    /** Everything up to mourning. */
    method TraceAll() returns (ghost skipped: bool)
      requires rememberedSetSize <= |rememberedSet| && ValidWith(0) && v == FirstView(s, to) && ephemeronChain == []
      requires s.remembered == rememberedSet[..rememberedSetSize]
      modifies `mem, `top, `end, `tenureStack, `v, `ephemeronList, `weakList, `rememberedSet, `rememberedSetSize
      modifies `roots, `ephemeronChain
      ensures Valid() && Traced(s, v, skipped) && ephemeronChain == []
    {
      hide Inv, WellFormed, Closed, RootsTouchNew, EphemeronsListed, DeadKeys, SomeMoved, RootsStep, Progress;
      ghost var v0 := v;
      ScavengeRoots();
      ghost var v1 := v;
      RootsScanned(s, v0, v1);
      skipped := Trace();
      TracedEnough(s, v0, v1, v, to, live, skipped);
    }

    /** The weak lists, once everything reachable has been moved. */
    method MournLists(ghost skipped: bool)
      requires Valid() && Traced(s, v, skipped) && ephemeronChain == [] && weakChain == []
      modifies `mem, `v, `rememberedSet, `rememberedSetSize, `ephemeronList, `ephemeronChain, `weakList, `weakChain
      ensures Valid() && Finished(s, v) && ephemeronChain == [] && weakChain == [] && tenureStack == []
      ensures v.ephemeronList == [] && v.weakList == []
    {
      hide Inv, WellFormed, Closed, Traced, Mourns, AllCleared, Mournable, Finished;
      ghost var v0 := v;
      TracedPhase(s, v, skipped);
      MourningBegins(s, v, to, live, skipped);
      MourningFirst(s, v, skipped);
      v := v.(phase := Mourning(skipped));
      ghost var v1 := v;
      MournEphemeronList();
      ghost var v2 := v;
      MournsPhase(s, v1, v2);
      MournWeakList();
      MournsPhase(s, v2, v);
      MournedAll(s, v0, v1, v2, v, to, live, skipped);
    }

    method MournClass(i: nat, ghost freed: seq<nat>) returns (ghost freed': seq<nat>)
      requires WellFormed(s) && Inv(s, v, to, live) && mem == v.mem
      requires FIRST_LEGAL_CID <= i < |classTable| == |s.classTable|
      requires TablePartly(s, mem, classTable, i) && FreedIds(s, mem, freed, i)
      requires FreeChain(classTable, classTableFree, freeIds)
      modifies `classTable, `classTableFree, `freeIds
      ensures |classTable| == |s.classTable| && TablePartly(s, mem, classTable, i + 1)
      ensures FreedIds(s, mem, freed', i + 1)
      ensures FreeChain(classTable, classTableFree, freeIds)
      ensures exists added: seq<nat> :: freed' == added + freed && freeIds == added + old(freeIds)
    {
      hide Inv, WellFormed, FreedIds;
      ClassTableSound(s);
      var target := classTable[i];
      assert target == s.classTable[i];
      freed' := freed;
      ghost var added: seq<nat> := [];
      if IsNewRef(target) {
        FromSpaceCell(s, v, to, live, target.addr);
        if mem[target.addr].Forwarded? {
          var val := Ref(mem[target.addr].to);
          FreeChainFrame(classTable, classTableFree, freeIds, i, val);
          TableStep(s, mem, classTable, i, val, freed);
          classTable := classTable[i := val];
        } else {
          FreeChainFrame(classTable, classTableFree, freeIds, i, Smi(classTableFree));
          TableStep(s, mem, classTable, i, Smi(classTableFree), freed);
          classTable := classTable[i := Smi(classTableFree)];
          classTableFree := i;
          assert ([i] + freeIds)[1..] == freeIds;
          added := [i];
          freed' := [i] + freed;
          freeIds := [i] + freeIds;
        }
      } else {
        TableStep(s, mem, classTable, i, target, freed);
        assert classTable[i := target] == classTable;
      }
      assert freed' == added + freed && freeIds == added + old(freeIds);
    }

    /** Follows the class table, and frees the numbers of dead classes. */
    method MournClassTable() returns (ghost freed: seq<nat>)
      requires Valid() && FreeChain(classTable, classTableFree, freeIds)
      modifies `classTable, `classTableFree, `freeIds
      ensures ClassTableAfter(s, mem, classTable)
      ensures FreeChain(classTable, classTableFree, freeIds) && freeIds == freed + old(freeIds)
      ensures FreedIds(s, mem, freed, |s.classTable|)
    {
      hide Inv, WellFormed, Closed, FreeChain, FreedIds;
      freed := [];
      TableStarts(s, mem);
      var i := FIRST_LEGAL_CID;
      while i < |classTable|
        invariant FIRST_LEGAL_CID <= i && |classTable| == |s.classTable| && (i <= |classTable| || i == FIRST_LEGAL_CID)
        invariant TablePartly(s, mem, classTable, i) && FreedIds(s, mem, freed, i)
        invariant FreeChain(classTable, classTableFree, freeIds) && freeIds == freed + old(freeIds)
        decreases |s.classTable| - i
      {
        ghost var freed0, ids0 := freed, freeIds;
        freed := MournClass(i, freed);
        ghost var added: seq<nat> :| freed == added + freed0 && freeIds == added + ids0;
        i := i + 1;
      }
      AllFreed(s, mem, freed, i);
    }

    /** The heap as a scavenge finds it. */
    ghost function Now(): Start
      requires rememberedSetSize <= |rememberedSet|
      reads this
    {
      Start(mem, roots, classTable, rememberedSet[..rememberedSetSize], layout, survivorEnd)
    }

    /** All of the collection but the class table. */
    method Collect()
      requires rememberedSetSize <= |rememberedSet| && s == Now() && WellFormed(s) && live == Live(s)
      requires Roomy(s, to) && v == FirstView(s, to) && top == to.Start() && end == to.Limit()
      requires ephemeronList == [] && weakList == [] && tenureStack == [] && ephemeronChain == [] && weakChain == []
      modifies `mem, `top, `end, `tenureStack, `v, `ephemeronList, `weakList, `rememberedSet, `rememberedSetSize
      modifies `roots, `ephemeronChain, `weakChain
      ensures Valid() && Finished(s, v) && ephemeronList == [] && weakList == [] && tenureStack == []
      ensures ephemeronChain == [] && weakChain == []
    {
      hide Inv, WellFormed, Closed, Traced, Finished, Live, Roomy;
      LiveIsLeastClosed(s);
      FirstInv(s, to, live);
      ghost var skipped := TraceAll();
      MournLists(skipped);
    }

    ghost predicate EvenAndApart()
      reads this
    {
      to.base % 2 == 0 && from.base % 2 == 0 && Apart(to, from)
    }

    /** The heap between collections. */
    ghost predicate Ready()
      reads this
    {
      && rememberedSetSize <= |rememberedSet| && WellFormed(Now()) && FreeChain(classTable, classTableFree, freeIds)
      && ephemeronList == [] && weakList == [] && tenureStack == [] && ephemeronChain == [] && weakChain == []
      && EvenAndApart() && to.size <= nextSemispaceCapacity
      && from.size <= nextSemispaceCapacity <= MAX_SEMISPACE_CAPACITY
      && NewWithin(mem, to.Start(), top) && survivorEnd <= top
      && Unforwarded(layout, mem) <= top - to.Start() && top < to.Limit() == end
    }

    /** Stores a value in a slot. An old object that now refers to a new one is remembered. */
    method Store(a: Addr, i: nat, value: Value)
      requires Ready() && a in mem && mem[a].Obj? && i < |mem[a].slots| && (value.Ref? ==> value.addr in mem)
      modifies `mem, `rememberedSet, `rememberedSetSize
      ensures Ready() && Now() == Stored(old(Now()), a, i, value)
      ensures mem.Keys == old(mem.Keys) && forall b :: b in mem && b != a ==> mem[b] == old(mem[b])
      ensures mem[a] == old(mem[a]).(slots := old(mem[a].slots)[i := value], remembered := mem[a].remembered)
      ensures var noted := !IsNew(a) && IsNewRef(value) && !old(mem[a].remembered);
        rememberedSet[..rememberedSetSize] == old(rememberedSet[..rememberedSetSize]) + if noted then [a] else []
    {
      hide WellFormed, Unforwarded, FreeChain, Apart;
      ghost var s0 := Now();
      StoreKeeps(s0, a, i, value);
      mem := mem[a := mem[a].(slots := mem[a].slots[i := value])];
      if !IsNew(a) && IsNewRef(value) && !mem[a].remembered {
        AddToRememberedSet(a);
      }
      assert Now().mem == Stored(s0, a, i, value).mem;
    }

    /** Exchanges the semispaces; a space that is too small is replaced by a larger one at newBase. */
    method FlipSpaces(newBase: nat)
      requires EvenAndApart() && newBase % 2 == 0 && Apart(to, Space(newBase, nextSemispaceCapacity))
      requires to.size <= nextSemispaceCapacity && from.size <= nextSemispaceCapacity
      modifies `to, `from, `top, `end
      ensures from == old(to) && EvenAndApart() && from.size <= to.size == nextSemispaceCapacity
      ensures top == to.Start() && end == to.Limit()
      ensures old(from.size < nextSemispaceCapacity) ==> to == Space(newBase, nextSemispaceCapacity)
      ensures old(from.size >= nextSemispaceCapacity) ==> to == old(from)
    {
      from, to := to, from;
      if to.size < nextSemispaceCapacity {
        to := Space(newBase, nextSemispaceCapacity);
      }
      top := to.Start();
      end := to.Limit();
    }

    /** Lets go of everything in from-space. */
    method DropFromSpace()
      requires Inv(s, v, to, live) && mem == v.mem
      modifies `mem
      ensures mem == Survivors(s, v.mem)
    {
      hide Inv;
      InvRem(s, v, to, live);
      SpacesApart(s, v, to, live);
      mem := map a | a in mem && !(IsNew(a) && !(to.base <= a < to.Limit())) :: mem[a];
    }

    /** The semispaces and the free class ids, which tracing leaves alone. */
    ghost predicate Spaces()
      reads this
    {
      && FreeChain(classTable, classTableFree, freeIds)
      && EvenAndApart() && from.size <= to.size && to.size <= nextSemispaceCapacity <= MAX_SEMISPACE_CAPACITY
    }

    method BeginScavenge(tenureAll: bool, newBase: nat)
      requires Ready() && newBase % 2 == 0 && Apart(to, Space(newBase, nextSemispaceCapacity))
      modifies `survivorEnd, `from, `to, `top, `end, `s, `live, `v
      ensures survivorEnd == (if tenureAll then old(top) else old(survivorEnd))
      ensures s == Now() && WellFormed(s) && live == Live(s)
      ensures Roomy(s, to) && v == FirstView(s, to) && top == to.Start() && end == to.Limit()
      ensures Spaces()
      ensures from == old(to)
      ensures old(from.size < nextSemispaceCapacity) ==> to == Space(newBase, nextSemispaceCapacity)
      ensures old(from.size >= nextSemispaceCapacity) ==> to == old(from)
    {
      hide WellFormed, Live, FreeChain, Inv, Roomy, FirstView, Apart, Unforwarded, NewWithin;
      ghost var full, fullTop := to, top;
      if tenureAll {
        survivorEnd := top;
      }
      FlipSpaces(newBase);
      TakeStock(old(Now()), full, fullTop);
    }

    /** The heap at the start, with full as from-space. */
    ghost method TakeStock(before: Start, full: Space, fullTop: nat)
      requires rememberedSetSize <= |rememberedSet| && WellFormed(before)
      requires Now() == before.(survivorEnd := survivorEnd)
      requires Apart(to, full) && to.base % 2 == 0 && full.size <= to.size && fullTop < full.Limit()
      requires NewWithin(mem, full.Start(), fullTop) && Unforwarded(layout, mem) <= fullTop - full.Start()
      modifies `s, `live, `v
      ensures s == Now() && WellFormed(s) && live == Live(s) && Roomy(s, to) && v == FirstView(s, to)
    {
      hide WellFormed, Live, Inv, Roomy, FirstView, Apart, Unforwarded, NewWithin;
      s := Now();
      SameHeap(before, s);
      FlippedRoomy(s, full, fullTop, to);
      live, v := Live(s), FirstView(s, to);
    }

    method EndScavenge(grow: bool)
      requires WellFormed(s) && Inv(s, v, to, live) && Finished(s, v) && ClassTableAfter(s, mem, classTable) && Spaces()
      requires mem == v.mem && top == v.top && end == v.end && roots == v.roots
      requires rememberedSetSize <= |rememberedSet| && rememberedSet[..rememberedSetSize] == v.rem
      requires ephemeronList == [] && weakList == [] && tenureStack == v.tenureStack == [] && ephemeronChain == []
      requires weakChain == []
      modifies `mem, `layout, `survivorEnd, `nextSemispaceCapacity
      ensures Ready() && Preserved(s, Now(), MovedMap(s, v.mem)) && Now() == After(s, v, classTable)
      ensures survivorEnd == top && Packed(mem, layout, to.Start(), top) && RememberedOnly(s, Now())
      ensures nextSemispaceCapacity == (if grow then Smaller(2 * to.size, MAX_SEMISPACE_CAPACITY)
                                        else old(nextSemispaceCapacity))
    {
      hide WellFormed, Inv, Finished, ClassTableAfter, Preserved, FreeChain, Unforwarded, Survivors, Packed;
      hide RememberedOnly;
      WellFormedAfter(s, v, to, live, classTable);
      DropFromSpace();
      layout := v.copies;
      survivorEnd := top;
      if grow {
        nextSemispaceCapacity := if to.size * 2 > MAX_SEMISPACE_CAPACITY then MAX_SEMISPACE_CAPACITY else to.size * 2;
      }
    }

    /** The class table, and the bookkeeping for the next collection. */
    method FinishScavenge(grow: bool) returns (ghost moved: map<Addr, Addr>, ghost freed: seq<nat>)
      requires Valid() && Finished(s, v) && live == Live(s) && Spaces()
      requires ephemeronList == [] && weakList == [] && tenureStack == [] && ephemeronChain == [] && weakChain == []
      modifies `classTable, `classTableFree, `freeIds, `mem, `layout, `survivorEnd, `nextSemispaceCapacity
      ensures Ready() && Preserved(s, Now(), moved) && survivorEnd == top
      ensures Packed(mem, layout, to.Start(), top) && RememberedOnly(s, Now())
      ensures nextSemispaceCapacity == (if grow then Smaller(2 * to.size, MAX_SEMISPACE_CAPACITY)
                                        else old(nextSemispaceCapacity))
      ensures if RootsTouchNew(s) then moved.Keys == Live(s) else moved == map[]
      ensures freeIds == freed + old(freeIds) && forall i :: i in freed <==>
        FIRST_LEGAL_CID <= i < |s.classTable| && Lost(s, moved, s.classTable[i])
    {
      hide WellFormed, Inv, Finished, ClassTableAfter, Preserved, FreeChain, RootsTouchNew, Live, Closed, Apart;
      hide Packed, RememberedOnly;
      freed := MournClassTable();
      SurvivorsExact(s, v, to, live);
      moved := MovedMap(s, v.mem);
      ColorsInMemory(s, v, to, live);
      FollowIsImage(s, v.mem);
      EndScavenge(grow);
    }

    /**
     * Collects new space. With tenureAll everything that survives goes to old space. newBase is where the operating
     * system would put a larger semispace, and grow stands for the heuristic that asks for one.
     */
    method Scavenge(tenureAll: bool, newBase: nat, grow: bool)
      returns (ghost before: Start, ghost moved: map<Addr, Addr>, ghost freed: seq<nat>)
      requires Ready() && newBase % 2 == 0 && Apart(to, Space(newBase, nextSemispaceCapacity))
      modifies this
      ensures Ready() && survivorEnd == top && forall a :: a in mem && IsNew(a) ==> to.Start() <= a < survivorEnd
      ensures Packed(mem, layout, to.Start(), top) && RememberedOnly(before, Now())
      ensures from == old(to) && nextSemispaceCapacity >= to.size >= old(nextSemispaceCapacity)
      ensures old(from.size < nextSemispaceCapacity) ==> to == Space(newBase, old(nextSemispaceCapacity))
      ensures old(from.size >= nextSemispaceCapacity) ==> to == old(from)
      ensures nextSemispaceCapacity == (if grow then Smaller(2 * to.size, MAX_SEMISPACE_CAPACITY)
                                        else old(nextSemispaceCapacity))
      ensures before == old(Now()).(survivorEnd := if tenureAll then old(top) else old(survivorEnd))
      ensures WellFormed(before)
      ensures Preserved(before, Now(), moved)
      ensures if RootsTouchNew(before) then moved.Keys == Live(before) else moved == map[]
      ensures freeIds == freed + old(freeIds) && forall i :: i in freed <==>
        FIRST_LEGAL_CID <= i < |before.classTable| && Lost(before, moved, before.classTable[i])
    {
      hide WellFormed, Inv, Finished, Preserved, FreeChain, RootsTouchNew, Live, Closed, Roomy, FirstView, Apart, Lost;
      hide Unforwarded, NewWithin, Tied, ValidWith, Packed, RememberedOnly;
      BeginScavenge(tenureAll, newBase);
      before := s;
      Collect();
      moved, freed := FinishScavenge(grow);
      NewBelow(mem, to.Start(), top);
    }
  }
}
