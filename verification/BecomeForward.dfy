/** One-way become, over the whole heap: vm/heap.cc, Heap::BecomeForward. */
module BecomeForward {
  import opened HeapModel
  import opened Become
  import R = ScavengeResult
  import S = ScavengeInvariant

  class Heap {
    var mem: Things
    /** The objects whose mark bit is set. */
    var marks: set<Addr>
    /** Handles, interpreter roots and the stack. */
    var roots: seq<Value>
    var classTable: seq<Value>
    var classTableFree: nat
    var rememberedSet: seq<Addr>
    /** The objects of new space and of old space, in the order of their addresses. */
    var newLayout: seq<Addr>
    var oldLayout: seq<Addr>
    ghost var freeIds: seq<nat>

    /** What there is but for the dead. */
    ghost function Live(dead: set<Addr>): Things reads this { Without(mem, dead) }

    ghost function Now(): Snapshot reads this { Snapshot(Live(Dead(mem)), roots, classTable) }

    /** Corpses and free blocks may be around, even marked ones, but nothing refers to them. */
    ghost predicate Valid()
      reads this
    {
      && Sound(Now()) && marks <= Dead(mem) && R.FreeChain(classTable, classTableFree, freeIds)
      && S.Distinct(newLayout) && S.Distinct(oldLayout)
      && (forall a :: a in newLayout <==> a in mem && IsNew(a))
      && (forall a :: a in oldLayout <==> a in mem && !IsNew(a))
      && (forall a :: a in mem && IsNew(a) ==> !mem[a].Object? || !mem[a].remembered)
    }

    // ---- checking the request ----

    method MarkForwardees(neus: seq<Value>) returns (invalid: bool)
      modifies `marks
      ensures marks == old(marks) + Addrs(neus) && (invalid <==> !AllRefs(neus))
    {
      invalid := false;
      var i := 0;
      while i < |neus|
        invariant i <= |neus| && marks == old(marks) + Addrs(neus[..i]) && (invalid <==> !AllRefs(neus[..i]))
      {
        OneMoreAddr(neus, i);
        var forwardee := neus[i];
        if forwardee.Smi? {
          invalid := true;
        } else {
          marks := marks + {forwardee.addr};
        }
        i := i + 1;
      }
      assert neus[..i] == neus;
    }

    method MarkForwarders(olds: seq<Value>, ghost neus: seq<Value>, ghost before: set<Addr>) returns (invalid: bool)
      requires marks == before + Addrs(neus) && before !! Addrs(olds)
      modifies `marks
      ensures marks == before + Addrs(neus) + Addrs(olds)
      ensures invalid <==> !(AllRefs(olds) && DistinctValues(olds) && Addrs(olds) !! Addrs(neus))
    {
      invalid := false;
      var i := 0;
      while i < |olds|
        invariant i <= |olds| && marks == before + Addrs(neus) + Addrs(olds[..i])
        invariant invalid <==> !(AllRefs(olds[..i]) && DistinctValues(olds[..i]) && Addrs(olds[..i]) !! Addrs(neus))
      {
        OneMore(olds, neus, i);
        var forwarder := olds[i];
        if forwarder.Smi? {
          invalid := true;
        } else if forwarder.addr in marks {
          invalid := true;
        } else {
          marks := marks + {forwarder.addr};
        }
        i := i + 1;
      }
      assert olds[..i] == olds;
    }

    method Unmark(olds: seq<Value>, neus: seq<Value>, ghost before: set<Addr>)
      requires |olds| == |neus| && marks == before + Addrs(neus) + Addrs(olds) && before !! Addrs(neus) + Addrs(olds)
      modifies `marks
      ensures marks == before
    {
      hide Addrs;
      var i := 0;
      NoAddrs();
      assert olds[..0] == [] == neus[..0];
      while i < |olds|
        invariant i <= |olds| && marks == before + Addrs(neus) + Addrs(olds) - Addrs(neus[..i]) - Addrs(olds[..i])
      {
        OneMoreAddr(olds, i);
        OneMoreAddr(neus, i);
        if olds[i].Ref? { marks := marks - {olds[i].addr}; }
        if neus[i].Ref? { marks := marks - {neus[i].addr}; }
        i := i + 1;
      }
      assert olds[..i] == olds && neus[..i] == neus;
    }

    method Check(olds: seq<Value>, neus: seq<Value>, old_: Addr, neu: Addr) returns (ok: bool)
      requires |olds| == |neus| && marks !! Addrs(neus) + Addrs(olds) + {old_, neu}
      modifies `marks
      ensures marks == old(marks) && (ok <==> CanBecome(olds, neus, old_, neu))
    {
      var invalidNeu := MarkForwardees(neus);
      var invalidOld := MarkForwarders(olds, neus, old(marks));
      ok := !invalidNeu && !invalidOld && old_ !in marks && neu !in marks;
      Unmark(olds, neus, old(marks));
    }

    // ---- making corpses ----

    method MakeCorpses(olds: seq<Value>, neus: seq<Value>, ghost dead: set<Addr>)
      requires |olds| == |neus| && AllRefs(olds) && AllRefs(neus) && DistinctValues(olds) && Addrs(olds) !! Addrs(neus)
      requires Addrs(olds) <= Live(dead).Keys && Addrs(neus) <= Live(dead).Keys
      requires forall a :: a in Live(dead) ==> mem[a].Object?
      modifies `mem
      ensures Live(dead) == WithCorpses(old(Live(dead)), olds, neus) && Spared(old(mem), mem, dead)
    {
      hide WithCorpses;
      ghost var before := Live(dead);
      NoCorpsesYet(before, olds, neus);
      var i := 0;
      while i < |olds|
        invariant i <= |olds| && Live(dead) == WithCorpses(before, olds[..i], neus[..i]) && Spared(old(mem), mem, dead)
      {
        MakeCorpse(before, olds, neus, i);
        var forwarder, forwardee := olds[i].addr, neus[i].addr;
        LiveUpdate(mem, dead, forwardee, mem[forwardee].(hash := mem[forwarder].hash));
        mem := mem[forwardee := mem[forwardee].(hash := mem[forwarder].hash)];
        var size := mem[forwarder].size;
        LiveUpdate(mem, dead, forwarder, Corpse(size, forwardee));
        mem := mem[forwarder := Corpse(size, forwardee)];
        i := i + 1;
      }
      assert olds[..i] == olds && neus[..i] == neus;
    }

    // ---- class ids ----

    /** Gives the index of each class that turns to the class it turns into. */
    method ExchangeClassIds(ghost s: Snapshot, ghost f: map<Addr, Addr>, ghost dead: set<Addr>)
      requires s.roots == roots && s.classTable == classTable && marks <= dead && Sound(s) && Corpses(s, f, Live(dead))
      requires ClassesOk(s.mem, s.classTable, Nil(s), f)
      modifies `mem, `classTable, `marks
      ensures ExchangeDone(s, f, old(Live(dead)), Ids(Live(dead), classTable, marks - dead))
      ensures |classTable| == |s.classTable|
      ensures marks * dead == old(marks) && Spared(old(mem), mem, dead)
    {
      hide Sound, Corpses, Exchange, ClassesOk, Exchanged, Ready, TargetOk;
      SoundTable(s);
      ExchangeStarts(s, f, Live(dead));
      assert marks - dead == {};
      var nil := roots[0];
      var oldCid := FIRST_LEGAL_CID;
      while oldCid < |classTable|
        invariant FIRST_LEGAL_CID <= oldCid && |classTable| == |s.classTable| && marks * dead == old(marks)
        invariant Spared(old(mem), mem, dead)
        invariant Exchange(s, f, old(Live(dead)), Ids(Live(dead), classTable, marks - dead), oldCid)
      {
        ghost var x := Ids(Live(dead), classTable, marks - dead);
        EntriesInHeap(s, f, old(Live(dead)), x, oldCid);
        var v := classTable[oldCid];
        if !(v.Ref? && v.addr in mem && mem[v.addr].Corpse?) || v.addr in marks {
          ExchangeSkips(s, f, old(Live(dead)), x, oldCid);
        } else {
          ExchangeStep(s, f, old(Live(dead)), x, oldCid);
          ReadyFacts(s, f, x, oldCid);
          HandOver(s, oldCid, nil, dead);
        }
        oldCid := oldCid + 1;
      }
    }

    method HandOver(ghost s: Snapshot, oldCid: nat, nil: Value, ghost dead: set<Addr>)
      requires |s.roots| >= 1 && nil == Nil(s) && nil.Ref? && oldCid < |classTable|
      requires IsCorpse(Live(dead), classTable[oldCid])
      requires TargetOk(Live(dead), classTable, nil, mem[classTable[oldCid].addr].target)
      modifies `mem, `classTable, `marks
      ensures Ids(Live(dead), classTable, marks - dead)
        == Exchanged(s, Ids(old(Live(dead)), old(classTable), old(marks) - dead), oldCid)
      ensures |classTable| == |old(classTable)| && marks * dead == old(marks) * dead && Spared(old(mem), mem, dead)
    {
      var oldClass := classTable[oldCid].addr;
      var newClass := mem[oldClass].target;
      if mem[newClass].slots[ID_SLOT] != nil {
        var newCid := mem[newClass].slots[ID_SLOT].n;
        classTable := classTable[newCid := Ref(oldClass)];
      }
      LiveUpdate(mem, dead, newClass, mem[newClass].(slots := mem[newClass].slots[ID_SLOT := Smi(oldCid)]));
      mem := mem[newClass := mem[newClass].(slots := mem[newClass].slots[ID_SLOT := Smi(oldCid)])];
      classTable := classTable[oldCid := Ref(newClass)];
      marks := marks + {oldClass};
      assert marks - dead == (old(marks) - dead) + {oldClass};
    }

    /** Clears the marks of the corpses in the table. Those that are no longer in the table keep theirs. */
    method UnmarkCorpses()
      modifies `marks
      ensures marks == set a | a in old(marks) && !(InTable(classTable, Ref(a)) && IsCorpse(mem, Ref(a)))
    {
      var cid := FIRST_LEGAL_CID;
      while cid < |classTable|
        invariant FIRST_LEGAL_CID <= cid && (cid <= |classTable| || cid == FIRST_LEGAL_CID)
        invariant marks == set a | a in old(marks) && !(InTableUpTo(classTable, Ref(a), cid) && IsCorpse(mem, Ref(a)))
      {
        var klass := classTable[cid];
        if klass.Ref? && klass.addr in mem && mem[klass.addr].Corpse? {
          marks := marks - {klass.addr};
        }
        cid := cid + 1;
      }
    }

    // ---- forwarding ----

    /** Where a reference to an object or to its corpse leads. */
    function ForwardPointer(v: Value): Value
      reads this
    {
      if v.Ref? && v.addr in mem && mem[v.addr].Corpse? then Ref(mem[v.addr].target) else v
    }

    method ForwardPointers(vs: seq<Value>) returns (r: seq<Value>, hasNewTarget: bool)
      ensures |r| == |vs| && forall i :: 0 <= i < |vs| ==> r[i] == ForwardPointer(vs[i])
      ensures hasNewTarget <==> exists i :: 0 <= i < |r| && IsNewRef(r[i])
    {
      r := vs;
      hasNewTarget := false;
      var i := 0;
      while i < |r|
        invariant i <= |r| == |vs|
        invariant forall k :: 0 <= k < i ==> r[k] == ForwardPointer(vs[k])
        invariant forall k :: i <= k < |r| ==> r[k] == vs[k]
        invariant hasNewTarget <==> exists k :: 0 <= k < i && IsNewRef(r[k])
      {
        r := r[i := ForwardPointer(r[i])];
        hasNewTarget := hasNewTarget || IsNewRef(r[i]);
        i := i + 1;
      }
    }

    /** Gives an object the index of what its class has become. */
    method ForwardClass(cid: nat, ghost f: map<Addr, Addr>, ghost x: Ids, ghost dead: set<Addr>)
      returns (cid': nat, hasNewTarget: bool)
      requires SameCorpses(f, x.mem, Live(dead)) && classTable == x.table && cid < |x.table|
      requires x.table[cid].Ref? ==> x.table[cid].addr in x.mem
      requires IsCorpse(x.mem, x.table[cid]) ==>
        x.mem[x.table[cid].addr].target in x.mem && HasSmiId(x.mem[x.mem[x.table[cid].addr].target])
      requires 0 <= ForwardedCid(x, cid) < |x.table|
      requires IsCorpse(x.mem, x.table[cid]) ==> x.table[ForwardedCid(x, cid)] == Ref(x.mem[x.table[cid].addr].target)
      ensures cid' == ForwardedCid(x, cid) && (hasNewTarget <==> IsNewRef(x.table[cid']))
    {
      var oldClass := classTable[cid];
      if oldClass.Ref? && oldClass.addr in mem && mem[oldClass.addr].Corpse? {
        var newClass := mem[oldClass.addr].target;
        cid' := mem[newClass].slots[ID_SLOT].n;
        hasNewTarget := IsNew(newClass);
      } else {
        cid' := cid;
        hasNewTarget := IsNewRef(oldClass);
      }
    }

    method ForwardObject(a: Addr, ghost s: Snapshot, ghost f: map<Addr, Addr>, ghost mem0: Things, ghost x: Ids,
                         ghost dead: set<Addr>)
      returns (hasNewTarget: bool)
      requires ExchangeDone(s, f, mem0, x) && Sound(s) && SameCorpses(f, x.mem, Live(dead)) && classTable == x.table
      requires a in x.mem && a in s.mem && a !in f && x.mem[a].Object? && x.mem[a].cid == s.mem[a].cid
      requires InHeap(x.mem, x.mem[a].slots)
      requires a in Live(dead) && mem[a] == x.mem[a].(remembered := mem[a].Object? && mem[a].remembered)
      modifies `mem
      ensures SameCorpses(f, x.mem, Live(dead)) && mem.Keys == old(mem.Keys)
      ensures (forall b :: b in mem && b != a ==> mem[b] == old(mem)[b])
      ensures x.mem[a].cid < |x.table| && mem[a].Object? && IsForwarded(f, x, x.mem[a], mem[a])
      ensures mem[a].remembered == old(mem[a].remembered)
      ensures hasNewTarget == HasNewTarget(x.table, mem[a])
    {
      hide ExchangeDone, Sound, ForwardedCid, SameCorpses;
      SameCorpsesFacts(f, x.mem, Live(dead));
      ClassKnown(s, a);
      CidFits(s, f, mem0, x, x.mem[a].cid);
      CorpseClass(s, f, mem0, x, x.mem[a].cid);
      var cid, classIsNew := ForwardClass(mem[a].cid, f, x, dead);
      var slots, slotIsNew := ForwardPointers(mem[a].slots);
      assert slots == FollowAll(f, x.mem[a].slots);
      SameCorpsesUpdate(f, x.mem, Live(dead), a, cid, slots);
      LiveUpdate(mem, dead, a, mem[a].(cid := cid, slots := slots));
      mem := mem[a := mem[a].(cid := cid, slots := slots)];
      hasNewTarget := classIsNew || slotIsNew;
    }

    method ForwardRoots(ghost f: map<Addr, Addr>, ghost live: Things)
      requires forall a :: a in live ==> a in mem && mem[a] == live[a] && (mem[a].Corpse? <==> a in f)
      requires forall a :: a in f ==> a in live && live[a].Corpse? && live[a].target == f[a]
      requires InHeap(live, roots)
      modifies `roots
      ensures roots == FollowAll(f, old(roots))
    {
      var forwarded, hasNewTarget := ForwardPointers(roots);
      roots := forwarded;
    }

    /** The next object of new space. */
    method ForwardNewObject(obj: Addr, ghost done: seq<Addr>, ghost s: Snapshot, ghost f: map<Addr, Addr>,
                            ghost mem0: Things, ghost x: Ids,
                            ghost dead: set<Addr>)
      requires ExchangeDone(s, f, mem0, x) && Sound(s) && classTable == x.table && BodiesFrom(s, f, x.mem)
      requires obj in mem && obj !in done && HeapForwarded(f, x, Live(dead), done, [], []) && Buried(mem, dead)
      modifies `mem
      ensures Spared(old(mem), mem, dead) && HeapForwarded(f, x, Live(dead), done + [obj], [], [])
    {
      hide ExchangeDone, Sound, IsForwarded, HasNewTarget, BodiesFrom, HeapForwarded, SameCorpses;
      ghost var before := Live(dead);
      if mem[obj].Object? {
        StillToDo(f, x, before, done, [], [], obj);
        BodyAt(s, f, x.mem, obj);
        var hasNewTarget := ForwardObject(obj, s, f, mem0, x, dead);
        NewDone(f, x, before, Live(dead), done, obj);
      } else {
        NotObject(s, f, x, before, done, [], [], obj);
        CorpseDone(f, x, before, done, [], [], obj, []);
      }
    }

    /** The next object of old space. */
    method ForwardOldObject(obj: Addr, ghost done: seq<Addr>, ghost olds: seq<Addr>, ghost s: Snapshot,
                            ghost f: map<Addr, Addr>,
                            ghost mem0: Things, ghost x: Ids, ghost dead: set<Addr>)
      requires ExchangeDone(s, f, mem0, x) && Sound(s) && classTable == x.table && BodiesFrom(s, f, x.mem)
      requires obj in mem && obj !in done && obj !in olds
      requires HeapForwarded(f, x, Live(dead), done, olds, rememberedSet) && Buried(mem, dead)
      modifies `mem, `rememberedSet
      ensures Spared(old(mem), mem, dead) && HeapForwarded(f, x, Live(dead), done + [obj], olds + [obj], rememberedSet)
    {
      hide ExchangeDone, Sound, IsForwarded, HasNewTarget, BodiesFrom, HeapForwarded, SameCorpses;
      ghost var before, rem := Live(dead), rememberedSet;
      if mem[obj].Object? {
        StillToDo(f, x, before, done, olds, rememberedSet, obj);
        BodyAt(s, f, x.mem, obj);
        LiveUpdate(mem, dead, obj, mem[obj].(remembered := false));
        mem := mem[obj := mem[obj].(remembered := false)];
        SameCorpsesStill(f, x.mem, before, obj, false);
        var hasNewTarget := ForwardObject(obj, s, f, mem0, x, dead);
        ghost var after := Live(dead);
        if hasNewTarget {
          rememberedSet := rememberedSet + [obj];
          LiveUpdate(mem, dead, obj, mem[obj].(remembered := true));
          mem := mem[obj := mem[obj].(remembered := true)];
        }
        assert Live(dead) == after[obj := after[obj].(remembered := HasNewTarget(x.table, after[obj]))];
        OldDone(f, x, before, after, Live(dead), done, olds, rem, obj);
      } else {
        NotObject(s, f, x, before, done, olds, rem, obj);
        CorpseDone(f, x, before, done, olds, rem, obj, [obj]);
      }
    }

    method ForwardNewSpace(ghost s: Snapshot, ghost f: map<Addr, Addr>, ghost mem0: Things, ghost x: Ids,
                           ghost dead: set<Addr>)
      requires ExchangeDone(s, f, mem0, x) && Sound(s) && classTable == x.table && BodiesFrom(s, f, x.mem)
      requires Buried(mem, dead)
      requires S.Distinct(newLayout) && (forall a :: a in newLayout ==> a in mem)
      requires HeapForwarded(f, x, Live(dead), [], [], [])
      modifies `mem
      ensures Spared(old(mem), mem, dead) && HeapForwarded(f, x, Live(dead), newLayout, [], [])
    {
      hide ExchangeDone, Sound, BodiesFrom, HeapForwarded, Without;
      var i := 0;
      while i < |newLayout|
        invariant i <= |newLayout| && Spared(old(mem), mem, dead)
        invariant HeapForwarded(f, x, Live(dead), newLayout[..i], [], [])
      {
        assert newLayout[..i + 1] == newLayout[..i] + [newLayout[i]];
        ForwardNewObject(newLayout[i], newLayout[..i], s, f, mem0, x, dead);
        i := i + 1;
      }
      assert newLayout[..i] == newLayout;
    }

    method ForwardOldSpace(ghost s: Snapshot, ghost f: map<Addr, Addr>, ghost mem0: Things, ghost x: Ids,
                           ghost dead: set<Addr>,
                           ghost done: seq<Addr>)
      requires ExchangeDone(s, f, mem0, x) && Sound(s) && classTable == x.table && BodiesFrom(s, f, x.mem)
      requires Buried(mem, dead)
      requires S.Distinct(oldLayout) && (forall a :: a in oldLayout ==> a in mem && a !in done)
      requires HeapForwarded(f, x, Live(dead), done, [], [])
      modifies `mem, `rememberedSet
      ensures Spared(old(mem), mem, dead) && HeapForwarded(f, x, Live(dead), done + oldLayout, oldLayout, rememberedSet)
    {
      hide ExchangeDone, Sound, BodiesFrom, HeapForwarded, Without;
      rememberedSet := [];
      var i := 0;
      assert done + oldLayout[..0] == done;
      while i < |oldLayout|
        invariant i <= |oldLayout| && Spared(old(mem), mem, dead)
        invariant HeapForwarded(f, x, Live(dead), done + oldLayout[..i], oldLayout[..i], rememberedSet)
      {
        assert oldLayout[..i + 1] == oldLayout[..i] + [oldLayout[i]];
        assert done + oldLayout[..i + 1] == done + oldLayout[..i] + [oldLayout[i]];
        ForwardOldObject(oldLayout[i], done + oldLayout[..i], oldLayout[..i], s, f, mem0, x, dead);
        i := i + 1;
      }
      assert oldLayout[..i] == oldLayout;
    }

    /** Forwards new space, then old space, and finds out anew what is to be remembered. */
    method ForwardHeap(ghost s: Snapshot, ghost f: map<Addr, Addr>, ghost mem0: Things, ghost x: Ids,
                       ghost dead: set<Addr>)
      requires ExchangeDone(s, f, mem0, x) && Sound(s) && x == Ids(Live(dead), classTable, x.marks)
      requires BodiesFrom(s, f, x.mem) && Buried(mem, dead)
      requires S.Distinct(newLayout) && S.Distinct(oldLayout) && (forall a :: a in newLayout + oldLayout <==> a in mem)
      requires (forall a :: a in newLayout ==> IsNew(a)) && (forall a :: a in oldLayout ==> !IsNew(a))
      modifies `mem, `rememberedSet
      ensures Spared(old(mem), mem, dead)
      ensures HeapForwarded(f, x, Live(dead), newLayout + oldLayout, oldLayout, rememberedSet)
    {
      hide ExchangeDone, Sound, BodiesFrom, HeapForwarded, Without;
      BodiesSame(s, f, x.mem);
      NothingDone(f, x);
      assert forall a :: a in newLayout ==> a in newLayout + oldLayout;
      ForwardNewSpace(s, f, mem0, x, dead);
      assert forall a :: a in oldLayout ==> a in newLayout + oldLayout;
      ForwardOldSpace(s, f, mem0, x, dead, newLayout);
    }

    /** Frees the indices that corpses are left at. */
    method MournClassTableForwarded() returns (ghost freed: seq<nat>)
      requires R.FreeChain(classTable, classTableFree, freeIds)
      modifies `classTable, `classTableFree, `freeIds
      ensures R.FreeChain(classTable, classTableFree, freeIds) && freeIds == freed + old(freeIds)
      ensures TableFreed(mem, old(classTable), classTable, |classTable|)
      ensures FreedIds(mem, old(classTable), freed, |classTable|)
    {
      hide R.FreeChain;
      freed := [];
      var i := FIRST_LEGAL_CID;
      while i < |classTable|
        invariant FIRST_LEGAL_CID <= i && TableFreed(mem, old(classTable), classTable, i)
        invariant FreedIds(mem, old(classTable), freed, i)
        invariant R.FreeChain(classTable, classTableFree, freeIds) && freeIds == freed + old(freeIds)
        decreases |old(classTable)| - i
      {
        var oldClass := classTable[i];
        if oldClass.Ref? && oldClass.addr in mem && mem[oldClass.addr].Corpse? {
          R.FreeChainFrame(classTable, classTableFree, freeIds, i, Smi(classTableFree));
          R.FreeChainMore(classTable[i := Smi(classTableFree)], classTableFree, freeIds, i);
          classTable := classTable[i := Smi(classTableFree)];
          classTableFree := i;
          freed := [i] + freed;
          freeIds := [i] + freeIds;
        }
        i := i + 1;
      }
    }

    /** Makes the corpses, and hands the ids of their classes over. */
    method Turn(olds: seq<Value>, neus: seq<Value>, ghost s: Snapshot, ghost f: map<Addr, Addr>, ghost dead: set<Addr>)
      returns (ghost x: Ids)
      requires s == Snapshot(Live(dead), roots, classTable) && Sound(s) && marks <= dead
      requires |olds| == |neus| && AllRefs(olds) && AllRefs(neus) && DistinctValues(olds) && Addrs(olds) !! Addrs(neus)
      requires Addrs(olds) <= s.mem.Keys && Addrs(neus) <= s.mem.Keys
      requires f == Forwarding(olds, neus) && ClassesOk(s.mem, classTable, Nil(s), f)
      requires R.FreeChain(classTable, classTableFree, freeIds)
      modifies `mem, `marks, `classTable
      ensures Turned(s, f, olds, neus, x) && x == Ids(Live(dead), classTable, x.marks) && Spared(old(mem), mem, dead)
      ensures marks * dead == old(marks) && (forall a :: a in marks - dead <==> StaysMarked(s, f, a))
      ensures R.FreeChain(classTable, classTableFree, freeIds)
    {
      hide Sound, WithCorpses, Corpses, ClassesOk, ExchangeDone, R.FreeChain, BodiesFrom, Forwarding, Without;
      hide SameSizes, StaysMarked, IsCorpse;
      AllObjects(s);
      LiveCells(mem, dead);
      MakeCorpses(olds, neus, dead);
      ghost var mem0 := Live(dead);
      SoundTable(s);
      CorpsesNow(s, olds, neus);
      ExchangeClassIds(s, f, dead);
      x := Ids(Live(dead), classTable, marks - dead);
      ghost var marked := marks;
      ChainKept(s, f, mem0, x, classTableFree, freeIds);
      UnmarkCorpses();
      EntriesAtLast(s, f, mem0, x);
      UnmarkedLive(mem, dead, x, marked, marks);
      LeftMarked(s, f, mem0, x, marks - dead);
      BodiesNow(s, f, mem0, x);
    }

    /** Everything after the request has been found to be in order. */
    method Become(olds: seq<Value>, neus: seq<Value>, ghost s: Snapshot, ghost dead: set<Addr>)
      returns (ghost freed: seq<nat>)
      requires Valid() && s == Now() && dead == Dead(mem)
      requires |olds| == |neus| && AllRefs(olds) && AllRefs(neus) && DistinctValues(olds) && Addrs(olds) !! Addrs(neus)
      requires Addrs(olds) <= s.mem.Keys && Addrs(neus) <= s.mem.Keys
      requires ClassesOk(s.mem, classTable, Nil(s), Forwarding(olds, neus))
      modifies `mem, `marks, `roots, `classTable, `classTableFree, `freeIds, `rememberedSet
      ensures var f := Forwarding(olds, neus);
        && Became(s, f, olds, neus, Live(dead), roots, classTable)
        && RememberedExactly(f, Live(dead), classTable, rememberedSet)
        && (forall a :: a in marks - dead <==> StaysMarked(s, f, a))
      ensures R.FreeChain(classTable, classTableFree, freeIds) && marks * dead == old(marks)
      ensures freeIds == freed + old(freeIds) && ClasslessNow(s.classTable, classTable, freed)
      ensures Spared(old(mem), mem, dead)
    {
      hide Sound, ClassesOk, ExchangeDone, R.FreeChain, HeapForwarded, BodiesFrom, Forwarding, Without, WithCorpses;
      hide Became, StaysMarked, RememberedExactly, TableFreed, InHeap, DistinctValues, AllRefs, Addrs;
      ghost var f, mem1 := Forwarding(olds, neus), mem;
      ghost var x := Turn(olds, neus, s, f, dead);
      ghost var mem0 := WithCorpses(s.mem, olds, neus);
      AllObjects(s);
      RootsReady(s, f, x.mem);
      LiveCells(mem, dead);
      ForwardRoots(f, x.mem);
      StillBuried(mem1, mem, dead);
      ForwardHeap(s, f, mem0, x, dead);
      freed := MournClassTableForwarded();
      FreedClassless(s, f, mem0, x, mem, classTable, freed);
      EntriesAtLast(s, f, mem0, x);
      FreedLive(f, x, mem, dead, classTable, newLayout + oldLayout, oldLayout, rememberedSet);
      LiveCells(mem, dead);
      LiveCells(mem1, dead);
      BecameNow(s, f, olds, neus, mem0, x, Live(dead), roots, classTable, newLayout + oldLayout, oldLayout,
                rememberedSet);
      CorpsesKept(s, olds, neus);
      RememberedNow(s, f, mem0, x, Live(dead), classTable, newLayout + oldLayout, oldLayout, rememberedSet);
    }

    /**
     * All or nothing: either the request is not in order, and nothing happens, or every old object becomes its new one.
     */
    method BecomeForward(old_: Addr, neu: Addr) returns (ok: bool, ghost freed: seq<nat>)
      requires Valid() && old_ in mem && neu in mem && mem[old_].Object? && mem[neu].Object?
      requires CanBecome(mem[old_].slots, mem[neu].slots, old_, neu) ==>
        ClassesOk(Now().mem, classTable, Nil(Now()), Forwarding(mem[old_].slots, mem[neu].slots))
      modifies `mem, `marks, `roots, `classTable, `classTableFree, `freeIds, `rememberedSet
      ensures Valid()
      ensures ok <==> CanBecome(old(mem[old_].slots), old(mem[neu].slots), old_, neu)
      ensures !ok ==> mem == old(mem) && marks == old(marks) && roots == old(roots) && classTable == old(classTable)
      ensures !ok ==> rememberedSet == old(rememberedSet) && classTableFree == old(classTableFree)
      ensures freeIds == freed + old(freeIds) && ClasslessNow(old(classTable), classTable, freed)
      ensures ok ==> Spared(old(mem), mem, old(Dead(mem))) && old(marks) <= marks
      ensures ok ==> Happened(old(Now()), old(mem[old_].slots), old(mem[neu].slots),
                              Snapshot(Live(old(Dead(mem))), roots, classTable),
                              rememberedSet, marks - old(marks))
    {
      hide Sound, ClassesOk, R.FreeChain, Became, RememberedExactly, StaysMarked, Forwarding, DistinctValues, Happened;
      var olds, neus := mem[old_].slots, mem[neu].slots;
      ghost var s, dead := Now(), Dead(mem);
      freed := [];
      if |olds| != |neus| {
        return false, freed;
      }
      SlotsInHeap(s, old_);
      SlotsInHeap(s, neu);
      ok := Check(olds, neus, old_, neu);
      if !ok {
        return;
      }
      SoundTable(s);
      freed := Become(olds, neus, s, dead);
      ForwardingFacts(olds, neus);
      assert marks - old(marks) == marks - dead;
      ghost var t := Snapshot(Live(dead), roots, classTable);
      HappenedNow(s, olds, neus, t, rememberedSet, marks - dead);
      ValidAgain(s, olds, neus, t, old(mem), mem, rememberedSet, marks - dead);
    }
  }

  /** The old objects are corpses, and the ids of their classes have been handed over. */
  ghost predicate Turned(s: Snapshot, f: map<Addr, Addr>, olds: seq<Value>, neus: seq<Value>, x: Ids)
  {
    && |olds| == |neus| && AllRefs(olds) && AllRefs(neus) && (forall a :: a in s.mem ==> s.mem[a].Object?)
    && ExchangeDone(s, f, WithCorpses(s.mem, olds, neus), x) && BodiesFrom(s, f, x.mem)
  }

  lemma LiveCells(mem: Things, dead: set<Addr>)
    ensures forall a :: a in Without(mem, dead) <==> a in mem && a !in dead
    ensures forall a :: a in Without(mem, dead) ==> Without(mem, dead)[a] == mem[a]
  {
  }

  lemma StillBuried(before: Things, mem: Things, dead: set<Addr>)
    requires Spared(before, mem, dead) && dead == Dead(before)
    ensures Buried(mem, dead)
  {
  }

  lemma CorpsesKept(s: Snapshot, olds: seq<Value>, neus: seq<Value>)
    requires |olds| == |neus| && AllRefs(olds) && AllRefs(neus) && forall a :: a in s.mem ==> s.mem[a].Object?
    ensures var mem0 := WithCorpses(s.mem, olds, neus);
      mem0.Keys == s.mem.Keys && forall a :: a in mem0 && a !in Forwarding(olds, neus) ==> mem0[a].Object?
  {
    hide Forwarding, HashOf;
  }

  lemma LiveUpdate(mem: Things, dead: set<Addr>, a: Addr, o: Thing)
    requires a in mem && a !in dead
    ensures Without(mem[a := o], dead) == Without(mem, dead)[a := o]
  {
  }

  ghost predicate Buried(mem: Things, dead: set<Addr>) { forall a :: a in dead ==> a in mem && !mem[a].Object? }

  ghost predicate InTableUpTo(table: seq<Value>, v: Value, n: nat)
  {
    exists c :: FIRST_LEGAL_CID <= c < n && c < |table| && table[c] == v
  }

  lemma EntriesInHeap(s: Snapshot, f: map<Addr, Addr>, mem0: Things, x: Ids, n: nat)
    requires |s.roots| >= 1 && Exchange(s, f, mem0, x, n)
    ensures forall c :: FIRST_LEGAL_CID <= c < |x.table| && x.table[c].Ref? ==> x.table[c].addr in x.mem
  {
  }

  lemma EntriesAtLast(s: Snapshot, f: map<Addr, Addr>, mem0: Things, x: Ids)
    requires ExchangeDone(s, f, mem0, x)
    ensures forall c :: FIRST_LEGAL_CID <= c < |x.table| && x.table[c].Ref? ==> x.table[c].addr in x.mem
  {
    hide Exchange;
    var n :| n >= |x.table| && Exchange(s, f, mem0, x, n);
    EntriesInHeap(s, f, mem0, x, n);
  }

  /** Marks of what is dead are not looked at. */
  lemma UnmarkedLive(mem: Things, dead: set<Addr>, x: Ids, before: set<Addr>, marks: set<Addr>)
    requires x.mem == Without(mem, dead) && x.marks == before - dead
    requires forall c :: FIRST_LEGAL_CID <= c < |x.table| && x.table[c].Ref? ==> x.table[c].addr in x.mem
    requires marks == set a | a in before && !(InTable(x.table, Ref(a)) && IsCorpse(mem, Ref(a)))
    ensures marks - dead == set a | a in x.marks && !(InTable(x.table, Ref(a)) && IsCorpse(x.mem, Ref(a)))
    ensures marks * dead == before * dead
  {
  }

  /** A cell of the heap that is no object was dead before, or is the corpse of an old object. */
  lemma NotObject(s: Snapshot, f: map<Addr, Addr>, x: Ids, live: Things, done: seq<Addr>, olds: seq<Addr>,
                  rem: seq<Addr>, a: Addr)
    requires BodiesFrom(s, f, x.mem) && HeapForwarded(f, x, live, done, olds, rem) && a !in done
    requires (a in live ==> !live[a].Object?)
    ensures a !in live || a in f
  {
  }

  lemma FreedLive(f: map<Addr, Addr>, x: Ids, mem: Things, dead: set<Addr>, table: seq<Value>, done: seq<Addr>,
                  olds: seq<Addr>, rem: seq<Addr>)
    requires HeapForwarded(f, x, Without(mem, dead), done, olds, rem) && TableFreed(mem, x.table, table, |table|)
    requires forall c :: FIRST_LEGAL_CID <= c < |x.table| && x.table[c].Ref? ==> x.table[c].addr in x.mem
    ensures TableFreed(Without(mem, dead), x.table, table, |table|)
  {
    hide Settled, SameCorpses;
  }

  lemma MarkedTurns(s: Snapshot, f: map<Addr, Addr>, a: Addr)
    requires Sound(s) && StaysMarked(s, f, a)
    ensures a in f && a in s.mem
  {
    hide ObjectOk, Orphaned;
  }

  /** What is alive after a become: objects, and nothing but objects. */
  lemma ValidAgain(s: Snapshot, olds: seq<Value>, neus: seq<Value>, t: Snapshot, before: Things, mem: Things,
                   rem: seq<Addr>, marks: set<Addr>)
    requires Happened(s, olds, neus, t, rem, marks) && s.mem == Without(before, Dead(before))
    requires t.mem == Without(mem, Dead(before))
    requires Spared(before, mem, Dead(before))
    ensures Sound(Snapshot(Without(mem, Dead(mem)), t.roots, t.classTable)) && marks <= Dead(mem)
    ensures Dead(before) <= Dead(mem)
    ensures forall a :: a in mem && IsNew(a) ==> !mem[a].Object? || !mem[a].remembered
  {
    hide Sound, Forwarding, TableOk, TableBecame, HasNewTarget, HashOf, ObjectBecame;
    var f, dead := Forwarding(olds, neus), Dead(before);
    forall a | a in mem ensures mem[a].Object? <==> a !in dead && a !in f {
      if a !in dead { assert t.mem[a] == mem[a]; }
    }
    forall a | a in marks ensures a in mem && a in f { MarkedTurns(s, f, a); }
    assert Without(mem, Dead(mem)) == Without(t.mem, f.Keys);
  }

  /** A become that succeeds, from the heap s to the heap t. */
  ghost predicate Happened(s: Snapshot, olds: seq<Value>, neus: seq<Value>, t: Snapshot, rem: seq<Addr>,
                           marks: set<Addr>)
  {
    && Sound(s) && |olds| == |neus| && AllRefs(olds) && AllRefs(neus)
    && var f := Forwarding(olds, neus);
       && Became(s, f, olds, neus, t.mem, t.roots, t.classTable)
       && RememberedExactly(f, t.mem, t.classTable, rem)
       && (forall a :: a in marks <==> StaysMarked(s, f, a))
       && Sound(Snapshot(Without(t.mem, f.Keys), t.roots, t.classTable))
  }

  lemma HappenedNow(s: Snapshot, olds: seq<Value>, neus: seq<Value>, t: Snapshot, rem: seq<Addr>, marks: set<Addr>)
    requires Sound(s) && |olds| == |neus| && AllRefs(olds) && AllRefs(neus) && Addrs(olds) !! Addrs(neus)
    requires Addrs(olds) <= s.mem.Keys && Addrs(neus) <= s.mem.Keys
    requires Became(s, Forwarding(olds, neus), olds, neus, t.mem, t.roots, t.classTable)
    requires RememberedExactly(Forwarding(olds, neus), t.mem, t.classTable, rem)
    requires forall a :: a in marks <==> StaysMarked(s, Forwarding(olds, neus), a)
    ensures Happened(s, olds, neus, t, rem, marks)
  {
    hide Sound, RememberedExactly, StaysMarked, Forwarding, Addrs, ObjectBecame, TableBecame, TableOk;
    ForwardingFacts(olds, neus);
    assert t.mem.Keys == s.mem.Keys;
    SoundAgain(s, Forwarding(olds, neus), olds, neus, t.mem, t.roots, t.classTable);
  }

  lemma SlotsInHeap(s: Snapshot, a: Addr)
    requires Sound(s) && a in s.mem
    ensures s.mem[a].Object? && Addrs(s.mem[a].slots) <= s.mem.Keys
  {
    ClassKnown(s, a);
  }

  ghost predicate TableFreed(mem: Things, before: seq<Value>, table: seq<Value>, n: nat)
  {
    && |table| == |before|
    && forall c :: 0 <= c < |table| ==>
         if FIRST_LEGAL_CID <= c < n && IsCorpse(mem, before[c]) then table[c].Smi? else table[c] == before[c]
  }

  /** The indices below n that corpses are left at. */
  ghost predicate FreedIds(mem: Things, before: seq<Value>, freed: seq<nat>, n: nat)
  {
    forall i :: i in freed <==> FIRST_LEGAL_CID <= i < n && i < |before| && IsCorpse(mem, before[i])
  }

  /** The indices that had a class and have none any more. */
  ghost predicate ClasslessNow(before: seq<Value>, table: seq<Value>, freed: seq<nat>)
  {
    && |table| == |before|
    && forall i :: i in freed <==> FIRST_LEGAL_CID <= i < |table| && before[i].Ref? && table[i].Smi?
  }

  lemma FreedClassless(s: Snapshot, f: map<Addr, Addr>, mem0: Things, x: Ids, mem: Things,
                       table: seq<Value>, freed: seq<nat>)
    requires ExchangeDone(s, f, mem0, x) && TableFreed(mem, x.table, table, |table|)
    requires FreedIds(mem, x.table, freed, |table|)
    ensures ClasslessNow(s.classTable, table, freed)
  {
    hide Sound, Corpses, Bodies, Pending, Handled, Leftovers;
    var n :| n >= |x.table| && Exchange(s, f, mem0, x, n);
    forall c | FIRST_LEGAL_CID <= c < |x.table| ensures x.table[c].Ref? <==> s.classTable[c].Ref? {
      assert ClassFor(x.mem, x.table[c]) == Follow(f, s.classTable[c]);
    }
  }

  /** The remembered set holds the old objects that refer to new ones, each once, and the header bits agree. */
  ghost predicate RememberedExactly(f: map<Addr, Addr>, mem: Things, table: seq<Value>, rem: seq<Addr>)
  {
    && S.Distinct(rem)
    && forall a :: a in mem && a !in f ==>
         mem[a].Object? && (a in rem <==> !IsNew(a) && HasNewTarget(table, mem[a])) && (mem[a].remembered <==> a in rem)
  }

  /** A corpse whose mark is not cleared again: nothing in the class table leads to it any more. */
  ghost predicate StaysMarked(s: Snapshot, f: map<Addr, Addr>, a: Addr)
  {
    && |s.roots| >= 1
    && exists c ::
         FIRST_LEGAL_CID <= c < |s.classTable| && Turns(s, f, c) && s.classTable[c] == Ref(a) && Orphaned(s, f, c)
  }

  // ---- a corpse that stays marked ----

  const NIL: Value := Ref(2)

  /** The class with id c. */
  function ClassWithId(c: nat): Thing { Object(14, 6, 0, false, [], [NIL, NIL, NIL, NIL, Smi(c)]) }

  /**
   * The classes with ids 3 to 15 are at the addresses from 26 on, a class without an id is at 8, nil is at 2, and at 10
   * and 12 are arrays that ask for the class with id 15 to become the one without.
   */
  ghost function NewClassInPlaceOfOld(): Snapshot
  {
    Snapshot(map a | 0 <= a <= 50 && IsCell(a) :: CellAt(a), [NIL],
             seq(16, c requires 0 <= c < 16 => if c < FIRST_LEGAL_CID then Smi(0) else Ref(20 + 2 * c)))
  }

  predicate IsCell(a: Addr) { a == 2 || a == 8 || a == 10 || a == 12 || (26 <= a <= 50 && a % 2 == 0) }

  function CellAt(a: Addr): Thing
    requires IsCell(a)
  {
    if a == 2 then Object(14, 2, 0, false, [], [])
    else if a == 8 then Object(14, 6, 0, false, [], [NIL, NIL, NIL, NIL, NIL])
    else if a == 10 then Object(9, 2, 0, false, [], [Ref(50)])
    else if a == 12 then Object(9, 2, 0, false, [], [Ref(8)])
    else ClassWithId(a / 2 - 10)
  }

  lemma NewClassCells()
    ensures var s := NewClassInPlaceOfOld();
      && (forall a :: a in s.mem <==> IsCell(a)) && (forall a :: a in s.mem ==> s.mem[a] == CellAt(a))
      && |s.classTable| == 16 && s.roots == [NIL]
      && forall c :: 0 <= c < 16 ==> s.classTable[c] == if c < FIRST_LEGAL_CID then Smi(0) else Ref(20 + 2 * c)
  {
    hide CellAt;
  }

  lemma NewClassSound()
    ensures Sound(NewClassInPlaceOfOld())
  {
    var s := NewClassInPlaceOfOld();
    NewClassCells();
    hide NewClassInPlaceOfOld;
    assert IsCell(2);
    forall a | a in s.mem ensures ObjectOk(s, a) {
      hide IsCell;
      CellShape(a);
    }
    NewClassTable();
  }

  lemma CellShape(a: Addr)
    requires IsCell(a)
    ensures var o := CellAt(a);
      o.Object? && (o.cid == 9 || o.cid == 14)
      && forall i :: 0 <= i < |o.slots| && o.slots[i].Ref? ==> IsCell(o.slots[i].addr)
  {
  }

  lemma NewClassTable()
    ensures var s := NewClassInPlaceOfOld(); TableOk(s.mem, s.classTable)
  {
    var s := NewClassInPlaceOfOld();
    NewClassCells();
    hide NewClassInPlaceOfOld;
    forall c | FIRST_LEGAL_CID <= c < 16 ensures HasId(s.mem, s.classTable[c].addr, c) {
      assert IsCell(20 + 2 * c) && CellAt(20 + 2 * c) == ClassWithId(c);
    }
  }

  /** The class that nothing leads to any more keeps its mark. */
  lemma CorpseCanStayMarked()
    ensures var s := NewClassInPlaceOfOld();
      && Sound(s) && 10 in s.mem && 12 in s.mem && s.mem[10].Object? && s.mem[12].Object?
      && CanBecome(s.mem[10].slots, s.mem[12].slots, 10, 12)
      && ClassesOk(s.mem, s.classTable, Nil(s), Forwarding(s.mem[10].slots, s.mem[12].slots))
      && StaysMarked(s, Forwarding(s.mem[10].slots, s.mem[12].slots), 50)
  {
    var s := NewClassInPlaceOfOld();
    NewClassSound();
    NewClassCells();
    hide NewClassInPlaceOfOld, Sound;
    assert IsCell(8) && IsCell(10) && IsCell(12) && IsCell(50);
    var f := Forwarding([Ref(50)], [Ref(8)]);
    assert f == map[50 := 8];
    assert Turns(s, f, 15) && s.classTable[15] == Ref(50) && !Taken(s, f, 8, 15);
  }

  lemma AllObjects(s: Snapshot)
    requires Sound(s)
    ensures forall a :: a in s.mem ==> s.mem[a].Object?
  {
  }

  lemma CorpsesNow(s: Snapshot, olds: seq<Value>, neus: seq<Value>)
    requires Sound(s) && |olds| == |neus| && AllRefs(olds) && AllRefs(neus) && Addrs(olds) !! Addrs(neus)
    requires Addrs(olds) <= s.mem.Keys && Addrs(neus) <= s.mem.Keys
    ensures (forall a :: a in s.mem ==> s.mem[a].Object?) && |s.roots| >= 1
    ensures Corpses(s, Forwarding(olds, neus), WithCorpses(s.mem, olds, neus))
    ensures SameSizes(s, Forwarding(olds, neus), WithCorpses(s.mem, olds, neus))
    ensures WithCorpses(s.mem, olds, neus).Keys == s.mem.Keys
    ensures forall a :: a in s.mem && a !in Forwarding(olds, neus) ==> WithCorpses(s.mem, olds, neus)[a].Object?
  {
    hide Sound, HashOf, Forwarding, Addrs;
    AllObjects(s);
    SoundTable(s);
    ForwardingFacts(olds, neus);
    var f, mem0 := Forwarding(olds, neus), WithCorpses(s.mem, olds, neus);
    forall a | a in mem0
      ensures if a in f then mem0[a] == Corpse(s.mem[a].size, f[a])
              else mem0[a] == s.mem[a].(hash := HashOf(s.mem, olds, neus, a))
    {
    }
  }

  lemma ForwardingFacts(olds: seq<Value>, neus: seq<Value>)
    requires |olds| == |neus| && AllRefs(olds) && AllRefs(neus) && Addrs(olds) !! Addrs(neus)
    ensures var f := Forwarding(olds, neus); f.Keys == Addrs(olds) && forall a :: a in f ==>
      f[a] in Addrs(neus) && f[a] !in f
  {
  }

  ghost predicate SameSizes(s: Snapshot, f: map<Addr, Addr>, mem0: Things)
  {
    forall a :: a in mem0 && a in f && mem0[a].Corpse? && a in s.mem && s.mem[a].Object? ==>
      mem0[a].size == s.mem[a].size
  }

  /** Entries that are free stay as they are. */
  lemma {:induction false} ChainSame(before: seq<Value>, table: seq<Value>, head: nat, ids: seq<nat>)
    requires R.FreeChain(before, head, ids) && |table| == |before|
    requires forall c :: FIRST_LEGAL_CID <= c < |table| && before[c].Smi? ==> table[c] == before[c]
    ensures R.FreeChain(table, head, ids)
    decreases |ids|
  {
    if ids != [] { ChainSame(before, table, before[head].n, ids[1..]); }
  }

  lemma ChainKept(s: Snapshot, f: map<Addr, Addr>, mem0: Things, x: Ids, head: nat, ids: seq<nat>)
    requires ExchangeDone(s, f, mem0, x) && R.FreeChain(s.classTable, head, ids)
    ensures R.FreeChain(x.table, head, ids)
  {
    hide Sound, Corpses, Bodies, Pending, Handled, Leftovers, R.FreeChain;
    var n :| n >= |x.table| && Exchange(s, f, mem0, x, n);
    forall c | FIRST_LEGAL_CID <= c < |x.table| && s.classTable[c].Smi? ensures x.table[c] == s.classTable[c] {
      assert ClassFor(x.mem, x.table[c]) == Follow(f, s.classTable[c]);
    }
    ChainSame(s.classTable, x.table, head, ids);
  }

  lemma LeftMarked(s: Snapshot, f: map<Addr, Addr>, mem0: Things, x: Ids, marks: set<Addr>)
    requires ExchangeDone(s, f, mem0, x)
    requires marks == set a | a in x.marks && !(InTable(x.table, Ref(a)) && IsCorpse(x.mem, Ref(a)))
    ensures forall a :: a in marks <==> StaysMarked(s, f, a)
  {
    hide Sound, Corpses, Bodies, Pending, Stands, InTable, IsCorpse, Orphaned;
    var n :| n >= |x.table| && Exchange(s, f, mem0, x, n);
    assert |x.table| == |s.classTable| by { TableLength(s, f, mem0, x, n); }
    forall a ensures a in marks <==> StaysMarked(s, f, a) {
      CorpseIs(s, f, mem0, x, n, Ref(a));
    }
  }

  lemma TableLength(s: Snapshot, f: map<Addr, Addr>, mem0: Things, x: Ids, n: nat)
    requires |s.roots| >= 1 && Exchange(s, f, mem0, x, n)
    ensures |x.table| == |s.classTable| && x.mem.Keys == mem0.Keys == s.mem.Keys
  {
  }

  lemma BodiesNow(s: Snapshot, f: map<Addr, Addr>, mem0: Things, x: Ids)
    requires ExchangeDone(s, f, mem0, x) && Sound(s) && SameSizes(s, f, mem0)
    ensures BodiesFrom(s, f, x.mem)
  {
    hide Sound, Pending, Stands, Handled, Leftovers, Registered, Taken, SameButId, InHeap, HasSmiId;
    var n :| n >= |x.table| && Exchange(s, f, mem0, x, n);
    forall a | a in x.mem && a !in f
      ensures x.mem[a].Object? && x.mem[a].cid == s.mem[a].cid && InHeap(x.mem, x.mem[a].slots)
    {
      BodyAfterExchange(s, f, mem0, x, a);
      SameButIdFacts(mem0[a], x.mem[a]);
      SlotsStay(s, x.mem, a);
    }
    forall a | a in f && a in x.mem ensures x.mem[a] == Corpse(s.mem[a].size, f[a]) {
      CorpseStays(mem0[a], x.mem[a]);
    }
  }

  lemma CorpseStays(o: Thing, p: Thing)
    requires SameButId(o, p) && !o.Object?
    ensures o == p
  {
  }

  /** Only a small integer may have been put into a slot. */
  lemma SlotsStay(s: Snapshot, mem: Things, a: Addr)
    requires Sound(s) && a in s.mem && s.mem[a].Object? && mem.Keys == s.mem.Keys && mem[a].Object?
    requires |mem[a].slots| == |s.mem[a].slots|
    requires forall i :: 0 <= i < |s.mem[a].slots| && i != ID_SLOT ==> mem[a].slots[i] == s.mem[a].slots[i]
    requires mem[a].slots == s.mem[a].slots || HasSmiId(mem[a])
    ensures InHeap(mem, mem[a].slots)
  {
    ClassKnown(s, a);
  }

  lemma RootsReady(s: Snapshot, f: map<Addr, Addr>, mem: Things)
    requires BodiesFrom(s, f, mem) && Sound(s)
    ensures InHeap(mem, s.roots)
    ensures forall a :: a in mem ==>
      (mem[a].Corpse? <==> a in f) && (a in f ==> mem[a].Corpse? && mem[a].target == f[a])
    ensures f.Keys <= mem.Keys && mem.Keys == s.mem.Keys
  {
    hide ObjectOk, TableOk;
  }

  /** What an object is once the ids are exchanged. */
  lemma BodyAfterExchange(s: Snapshot, f: map<Addr, Addr>, mem0: Things, x: Ids, a: Addr)
    requires ExchangeDone(s, f, mem0, x) && a in s.mem && a !in f && a in mem0 && mem0[a].Object?
    ensures a in x.mem && x.mem[a].Object? && s.mem[a].Object?
    ensures SameButId(mem0[a], x.mem[a]) && mem0[a] == s.mem[a].(hash := mem0[a].hash)
    ensures x.mem[a] == mem0[a] || (Taken(s, f, a, |s.classTable|) && HasSmiId(x.mem[a]))
  {
    hide Sound, Pending, Stands, Handled, Leftovers, Taken;
    var n :| n >= |x.table| && Exchange(s, f, mem0, x, n);
    if Taken(s, f, a, n) {
      RegisteredAt(x.mem, x.table, a);
      TakenAtAll(s, f, a, n);
    }
  }

  lemma TakenAtAll(s: Snapshot, f: map<Addr, Addr>, a: Addr, n: nat)
    requires Taken(s, f, a, n)
    ensures Taken(s, f, a, |s.classTable|)
  {
  }

  lemma SameButIdFacts(o: Thing, p: Thing)
    requires SameButId(o, p) && o.Object? && p.Object?
    ensures o.cid == p.cid && o.size == p.size && o.data == p.data && o.hash == p.hash && |o.slots| == |p.slots|
    ensures forall i :: 0 <= i < |o.slots| && i != ID_SLOT ==> p.slots[i] == o.slots[i]
  {
  }

  lemma ClassFits(s: Snapshot, f: map<Addr, Addr>, mem0: Things, x: Ids, a: Addr, before: Thing, o: Thing,
                  table: seq<Value>)
    requires Sound(s) && ExchangeDone(s, f, mem0, x) && a in s.mem && s.mem[a].Object? && before.Object?
    requires before.cid == s.mem[a].cid < |x.table|
    requires IsForwarded(f, x, before, o) && TableFreed(x.mem, x.table, table, |table|)
    ensures FIRST_LEGAL_CID <= o.cid < |table| && s.mem[a].cid < |s.classTable|
    ensures table[o.cid] == Follow(f, s.classTable[s.mem[a].cid])
  {
    hide Sound, ExchangeDone, ForwardedCid;
    ClassKnown(s, a);
    CidFits(s, f, mem0, x, s.mem[a].cid);
  }

  lemma ObjectBecameNow(s: Snapshot, f: map<Addr, Addr>, olds: seq<Value>, neus: seq<Value>, mem0: Things, x: Ids,
                        a: Addr, o: Thing, table: seq<Value>)
    requires Sound(s) && |olds| == |neus| && ExchangeDone(s, f, mem0, x) && a in s.mem && a !in f && a in mem0
    requires mem0[a].Object?
    requires a in x.mem && x.mem[a].Object? && x.mem[a].cid < |x.table| && IsForwarded(f, x, x.mem[a], o)
    requires mem0[a].hash == HashOf(s.mem, olds, neus, a) && TableFreed(x.mem, x.table, table, |table|)
    ensures ObjectBecame(s, f, olds, neus, a, o, table)
  {
    hide Sound, ExchangeDone, HashOf, ForwardedCid, Taken, SameButId, IsCorpse;
    BodyAfterExchange(s, f, mem0, x, a);
    SameButIdFacts(mem0[a], x.mem[a]);
    ClassFits(s, f, mem0, x, a, x.mem[a], o, table);
    forall i | 0 <= i < |o.slots|
      ensures o.slots[i] == Follow(f, s.mem[a].slots[i])
        || (i == ID_SLOT && Taken(s, f, a, |s.classTable|) && o.slots[i].Smi?)
    {
      assert o.slots[i] == Follow(f, x.mem[a].slots[i]);
    }
  }

  lemma TableNow(s: Snapshot, f: map<Addr, Addr>, mem0: Things, x: Ids, mem: Things, table: seq<Value>)
    requires Sound(s) && ExchangeDone(s, f, mem0, x) && TableFreed(x.mem, x.table, table, |table|)
    requires SameCorpses(f, x.mem, mem)
    ensures TableOk(mem, table) && TableBecame(s, f, table)
  {
    hide Sound, ExchangeDone, Stands, InTable, HasId, ForwardedCid, SameCorpses;
    StandsNow(s, f, mem0, x);
    forall c | FIRST_LEGAL_CID <= c < |table| && s.classTable[c].Ref?
      ensures InTable(table, Follow(f, s.classTable[c]))
    {
      CidFits(s, f, mem0, x, c);
      InTableAt(table, ForwardedCid(x, c));
    }
    forall c | FIRST_LEGAL_CID <= c < |table| && table[c].Ref?
      ensures table[c] == Follow(f, s.classTable[c]) && HasId(mem, table[c].addr, c)
    {
      StandsAt(s, f, x, c);
      IdKept(f, x.mem, mem, table[c].addr, c);
    }
    forall c | 0 <= c < FIRST_LEGAL_CID && c < |table| ensures table[c] == s.classTable[c] { StandsLow(s, f, x, c); }
  }

  lemma StandsNow(s: Snapshot, f: map<Addr, Addr>, mem0: Things, x: Ids)
    requires ExchangeDone(s, f, mem0, x)
    ensures Stands(s, f, x) && |x.table| == |s.classTable| && forall v :: IsCorpse(x.mem, v) <==> v.Ref? && v.addr in f
  {
    var n :| n >= |x.table| && Exchange(s, f, mem0, x, n);
    hide Sound, Pending, Handled, Leftovers, Bodies, Corpses;
    forall v ensures IsCorpse(x.mem, v) <==> v.Ref? && v.addr in f { CorpseIs(s, f, mem0, x, n, v); }
  }

  lemma StandsAt(s: Snapshot, f: map<Addr, Addr>, x: Ids, c: nat)
    requires Stands(s, f, x) && FIRST_LEGAL_CID <= c < |x.table| && x.table[c].Ref? && !IsCorpse(x.mem, x.table[c])
    requires x.table[c].addr !in f
    ensures x.table[c] == Follow(f, s.classTable[c]) && HasId(x.mem, x.table[c].addr, c)
  {
    assert ClassFor(x.mem, x.table[c]) == Follow(f, s.classTable[c]);
  }

  lemma StandsLow(s: Snapshot, f: map<Addr, Addr>, x: Ids, c: nat)
    requires Stands(s, f, x) && c < FIRST_LEGAL_CID && c < |x.table|
    ensures x.table[c] == s.classTable[c]
  {
  }

  lemma InTableAt(table: seq<Value>, c: int)
    requires FIRST_LEGAL_CID <= c < |table|
    ensures InTable(table, table[c])
  {
  }

  lemma IdKept(f: map<Addr, Addr>, mem0: Things, mem: Things, a: Addr, c: int)
    requires SameCorpses(f, mem0, mem)
    ensures HasId(mem0, a, c) ==> HasId(mem, a, c)
  {
    if HasId(mem0, a, c) { assert HasSmiId(mem0[a]); }
  }

  /** The table, with corpses told apart in the heap before or after it was forwarded. */
  lemma FreedSame(f: map<Addr, Addr>, mem0: Things, mem: Things, before: seq<Value>, table: seq<Value>)
    requires SameCorpses(f, mem0, mem) && TableFreed(mem, before, table, |table|)
    ensures TableFreed(mem0, before, table, |table|)
  {
  }

  lemma BecameNow(s: Snapshot, f: map<Addr, Addr>, olds: seq<Value>, neus: seq<Value>, mem0: Things, x: Ids,
                  mem: Things, roots: seq<Value>,
                  table: seq<Value>, done: seq<Addr>, oldLayout: seq<Addr>, rem: seq<Addr>)
    requires Sound(s) && |olds| == |neus| && AllRefs(olds) && AllRefs(neus) && ExchangeDone(s, f, mem0, x)
    requires BodiesFrom(s, f, x.mem)
    requires f == Forwarding(olds, neus) && (forall a :: a in s.mem ==> s.mem[a].Object?)
    requires mem0 == WithCorpses(s.mem, olds, neus)
    requires HeapForwarded(f, x, mem, done, oldLayout, rem) && (forall a :: a in mem ==> a in done)
    requires TableFreed(mem, x.table, table, |table|) && roots == FollowAll(f, s.roots)
    ensures Became(s, f, olds, neus, mem, roots, table)
  {
    hide ExchangeDone, IsForwarded, ObjectBecame, HasNewTarget, HashOf, SameCorpses, TableFreed, Forwarding;
    FreedSame(f, x.mem, mem, x.table, table);
    TableNow(s, f, mem0, x, mem, table);
    hide Sound;
    forall a | a in mem
      ensures if a in f then mem[a] == Corpse(s.mem[a].size, f[a]) else ObjectBecame(s, f, olds, neus, a, mem[a], table)
    {
      assert Settled(f, x, mem[a], done, oldLayout, rem, a);
      if a !in f { ObjectBecameNow(s, f, olds, neus, mem0, x, a, mem[a], table); }
    }
  }

  lemma RememberedNow(s: Snapshot, f: map<Addr, Addr>, mem0: Things, x: Ids, mem: Things, table: seq<Value>,
                      done: seq<Addr>, oldLayout: seq<Addr>, rem: seq<Addr>)
    requires Sound(s) && ExchangeDone(s, f, mem0, x) && BodiesFrom(s, f, x.mem)
    requires (forall a :: a in mem0 && a !in f ==> mem0[a].Object?)
    requires mem0.Keys == s.mem.Keys
    requires HeapForwarded(f, x, mem, done, oldLayout, rem)
    requires (forall a :: a in mem ==> a in done && (a in oldLayout <==> !IsNew(a)))
    requires forall a :: a in s.mem && IsNew(a) ==> s.mem[a].Object? && !s.mem[a].remembered
    requires TableFreed(mem, x.table, table, |table|)
    ensures RememberedExactly(f, mem, table, rem)
  {
    hide ExchangeDone, IsForwarded, HasNewTarget, SameCorpses, TableFreed, Sound;
    FreedSame(f, x.mem, mem, x.table, table);
    forall a | a in mem && a !in f
      ensures mem[a].Object? && (a in rem <==> !IsNew(a) && HasNewTarget(table, mem[a]))
      ensures (mem[a].remembered <==> a in rem)
    {
      assert Settled(f, x, mem[a], done, oldLayout, rem, a);
      BodyAfterExchange(s, f, mem0, x, a);
      ClassKnown(s, a);
      CidFits(s, f, mem0, x, s.mem[a].cid);
      TargetsInTable(f, x, mem0[a].cid, mem[a], table, a);
    }
  }

  lemma TargetsInTable(f: map<Addr, Addr>, x: Ids, cid: nat, o: Thing, table: seq<Value>, a: Addr)
    requires a in x.mem && x.mem[a].Object? && x.mem[a].cid == cid < |x.table| && o.Object?
    requires IsForwarded(f, x, x.mem[a], o)
    requires TableFreed(x.mem, x.table, table, |table|) && 0 <= ForwardedCid(x, cid) < |x.table|
    requires !IsCorpse(x.mem, x.table[ForwardedCid(x, cid)])
    ensures HasNewTarget(x.table, o) == HasNewTarget(table, o)
  {
    hide ForwardedCid;
    assert table[o.cid] == x.table[o.cid];
  }

  lemma NothingDone(f: map<Addr, Addr>, x: Ids)
    requires SameCorpses(f, x.mem, x.mem)
    ensures HeapForwarded(f, x, x.mem, [], [], [])
  {
  }

  lemma SameCorpsesFacts(f: map<Addr, Addr>, mem0: Things, mem: Things)
    requires SameCorpses(f, mem0, mem)
    ensures mem.Keys == mem0.Keys && f.Keys <= mem.Keys
    ensures forall a :: a in mem ==>
      (mem[a].Corpse? <==> a in f) && (a in f ==> mem[a].Corpse? && mem[a].target == f[a])
  {
  }

  lemma SameCorpsesUpdate(f: map<Addr, Addr>, mem0: Things, mem: Things, a: Addr, cid: nat, slots: seq<Value>)
    requires SameCorpses(f, mem0, mem) && a in mem && mem[a].Object? && slots == FollowAll(f, mem[a].slots)
    ensures SameCorpses(f, mem0, mem[a := mem[a].(cid := cid, slots := slots)])
  {
  }

  lemma SameCorpsesStill(f: map<Addr, Addr>, mem0: Things, mem: Things, a: Addr, remembered: bool)
    requires SameCorpses(f, mem0, mem) && a in mem && mem[a].Object?
    ensures SameCorpses(f, mem0, mem[a := mem[a].(remembered := remembered)])
  {
  }

  lemma NewDone(f: map<Addr, Addr>, x: Ids, mem: Things, mem': Things, done: seq<Addr>, a: Addr)
    requires HeapForwarded(f, x, mem, done, [], []) && a in mem && a !in f && a !in done
    requires SameCorpses(f, x.mem, mem') && mem'.Keys == mem.Keys
    requires (forall b :: b in mem && b != a ==> mem'[b] == mem[b])
    requires a in x.mem && x.mem[a].Object? && x.mem[a].cid < |x.table| && mem'[a].Object?
    requires IsForwarded(f, x, x.mem[a], mem'[a])
    requires mem[a].Object? && mem'[a].remembered == mem[a].remembered
    ensures HeapForwarded(f, x, mem', done + [a], [], [])
  {
    hide IsForwarded, HasNewTarget, SameCorpses;
    assert Settled(f, x, mem[a], done, [], [], a);
    forall b | b in mem && b != a ensures Settled(f, x, mem'[b], done + [a], [], [], b) {
      assert Settled(f, x, mem[b], done, [], [], b);
    }
  }

  lemma OldDone(f: map<Addr, Addr>, x: Ids, mem: Things, after: Things, mem': Things, done: seq<Addr>, olds: seq<Addr>,
                rem: seq<Addr>, a: Addr)
    requires HeapForwarded(f, x, mem, done, olds, rem) && a in mem && a !in f && a !in done && a !in olds
    requires SameCorpses(f, x.mem, after) && after.Keys == mem.Keys
    requires (forall b :: b in mem && b != a ==> after[b] == mem[b])
    requires a in x.mem && x.mem[a].Object? && x.mem[a].cid < |x.table| && after[a].Object?
    requires IsForwarded(f, x, x.mem[a], after[a])
    requires mem' == after[a := after[a].(remembered := HasNewTarget(x.table, after[a]))]
    ensures var rem' := if HasNewTarget(x.table, after[a]) then rem + [a] else rem;
      HeapForwarded(f, x, mem', done + [a], olds + [a], rem')
  {
    hide HasNewTarget, SameCorpses, IsForwarded;
    SameTargets(x.table, after[a], mem'[a]);
    StillForwarded(f, x, x.mem[a], after[a], mem'[a]);
    SameCorpsesStill(f, x.mem, after, a, mem'[a].remembered);
    var rem' := if HasNewTarget(x.table, after[a]) then rem + [a] else rem;
    assert a !in rem;
    forall b | b in mem' && b != a ensures Settled(f, x, mem'[b], done + [a], olds + [a], rem', b) {
      assert Settled(f, x, mem[b], done, olds, rem, b);
    }
    assert Settled(f, x, mem'[a], done + [a], olds + [a], rem', a);
  }

  lemma StillForwarded(f: map<Addr, Addr>, x: Ids, o: Thing, p: Thing, q: Thing)
    requires o.Object? && o.cid < |x.table| && IsForwarded(f, x, o, p) && p.Object?
    requires q == p.(remembered := q.Object? && q.remembered)
    ensures IsForwarded(f, x, o, q)
  {
  }

  lemma SameTargets(table: seq<Value>, o: Thing, p: Thing)
    requires o.Object? && p == o.(remembered := p.Object? && p.remembered)
    ensures HasNewTarget(table, o) == HasNewTarget(table, p)
  {
  }

  /** There is nothing to do in a corpse. */
  lemma CorpseDone(f: map<Addr, Addr>, x: Ids, mem: Things, done: seq<Addr>, olds: seq<Addr>, rem: seq<Addr>, a: Addr,
                   more: seq<Addr>)
    requires HeapForwarded(f, x, mem, done, olds, rem) && (a !in mem || a in f) && more <= [a]
    ensures HeapForwarded(f, x, mem, done + [a], olds + more, rem)
    ensures more == [] ==> olds + more == olds
  {
    hide HasNewTarget, IsForwarded;
  }

  /** The corpses are where they were, and the ids of classes are what they were. */
  ghost predicate SameCorpses(f: map<Addr, Addr>, mem0: Things, mem: Things)
  {
    && mem.Keys == mem0.Keys && f.Keys <= mem.Keys
    && (forall a :: a in mem ==> (mem0[a].Corpse? <==> a in f) && (mem[a].Corpse? <==> a in f))
    && (forall a :: a in f ==> mem[a].Corpse? && mem0[a].Corpse? && mem[a].target == mem0[a].target == f[a])
    && (forall a :: a in mem && HasSmiId(mem0[a]) ==>
         HasSmiId(mem[a]) && mem[a].slots[ID_SLOT] == mem0[a].slots[ID_SLOT])
  }

  /** Objects are what they were before the exchange, but for ids and hashes. */
  ghost predicate BodiesFrom(s: Snapshot, f: map<Addr, Addr>, mem: Things)
  {
    && mem.Keys == s.mem.Keys && f.Keys <= mem.Keys
    && forall a :: a in mem ==>
         && s.mem[a].Object?
         && if a in f then mem[a] == Corpse(s.mem[a].size, f[a])
            else mem[a].Object? && mem[a].cid == s.mem[a].cid && InHeap(mem, mem[a].slots)
  }

  /** How far an object is: untouched, or forwarded, and then remembered if it is old and refers to a new object. */
  ghost predicate Settled(f: map<Addr, Addr>, x: Ids, o: Thing, done: seq<Addr>, olds: seq<Addr>, rem: seq<Addr>,
                          a: Addr)
    requires a in x.mem
  {
    if a in f || a !in done then o == x.mem[a]
    else
      && x.mem[a].Object? && x.mem[a].cid < |x.table| && o.Object? && IsForwarded(f, x, x.mem[a], o)
      && if a in olds then (a in rem <==> HasNewTarget(x.table, o)) && (o.remembered <==> a in rem)
         else o.remembered == x.mem[a].remembered
  }

  /** The objects on the list done are forwarded; of those on the list olds, the right ones are remembered. */
  ghost predicate HeapForwarded(f: map<Addr, Addr>, x: Ids, mem: Things, done: seq<Addr>, olds: seq<Addr>,
                                rem: seq<Addr>)
  {
    && SameCorpses(f, x.mem, mem) && mem.Keys == x.mem.Keys
    && (forall a :: a in mem ==> Settled(f, x, mem[a], done, olds, rem, a))
    && S.Distinct(rem) && (forall a :: a in rem ==> a in olds && a in mem && a !in f)
  }

  lemma StillToDo(f: map<Addr, Addr>, x: Ids, mem: Things, done: seq<Addr>, olds: seq<Addr>, rem: seq<Addr>, a: Addr)
    requires HeapForwarded(f, x, mem, done, olds, rem) && a !in done && a in mem
    ensures SameCorpses(f, x.mem, mem) && a in x.mem && mem[a] == x.mem[a] && (mem[a].Corpse? <==> a in f)
  {
  }

  lemma BodiesSame(s: Snapshot, f: map<Addr, Addr>, mem: Things)
    requires BodiesFrom(s, f, mem)
    ensures SameCorpses(f, mem, mem)
  {
  }

  lemma BodyAt(s: Snapshot, f: map<Addr, Addr>, mem: Things, a: Addr)
    requires BodiesFrom(s, f, mem) && a in mem
    ensures a in s.mem && s.mem[a].Object? && (mem[a].Object? <==> a !in f)
    ensures a !in f ==> mem[a].cid == s.mem[a].cid && InHeap(mem, mem[a].slots)
  {
  }

  lemma ClassKnown(s: Snapshot, a: Addr)
    requires Sound(s) && a in s.mem
    ensures ObjectOk(s, a)
  {
  }

  lemma CorpseClass(s: Snapshot, f: map<Addr, Addr>, mem0: Things, x: Ids, cid: nat)
    requires ExchangeDone(s, f, mem0, x) && FIRST_LEGAL_CID <= cid < |s.classTable| && s.classTable[cid].Ref?
    ensures cid < |x.table| && 0 <= ForwardedCid(x, cid) < |x.table|
    ensures (x.table[cid].Ref? ==> x.table[cid].addr in x.mem)
    ensures IsCorpse(x.mem, x.table[cid]) ==> x.table[ForwardedCid(x, cid)] == Ref(x.mem[x.table[cid].addr].target)
  {
    CidFits(s, f, mem0, x, cid);
    EntriesAtLast(s, f, mem0, x);
    hide Sound, Corpses, Bodies, Pending, Handled, Leftovers, ForwardedCid;
    var n :| n >= |x.table| && Exchange(s, f, mem0, x, n);
    assert ClassFor(x.mem, x.table[cid]) == Follow(f, s.classTable[cid]);
  }

  lemma NoAddrs()
    ensures Addrs([]) == {}
  {
  }

  lemma OneMoreAddr(vs: seq<Value>, i: nat)
    requires i < |vs|
    ensures Addrs(vs[..i + 1]) == Addrs(vs[..i]) + if vs[i].Ref? then {vs[i].addr} else {}
    ensures AllRefs(vs[..i + 1]) <==> AllRefs(vs[..i]) && vs[i].Ref?
    ensures vs[i].Ref? ==> vs[i].addr in Addrs(vs)
  {
    assert vs[..i + 1] == vs[..i] + [vs[i]];
    assert vs[i] in vs;
  }

  lemma OneMore(olds: seq<Value>, neus: seq<Value>, i: nat)
    requires i < |olds|
    ensures AllRefs(olds[..i + 1]) <==> AllRefs(olds[..i]) && olds[i].Ref?
    ensures Addrs(olds[..i + 1]) == Addrs(olds[..i]) + if olds[i].Ref? then {olds[i].addr} else {}
    ensures AllRefs(olds[..i]) && olds[i].Ref? ==>
      (DistinctValues(olds[..i + 1]) <==> DistinctValues(olds[..i]) && olds[i].addr !in Addrs(olds[..i]))
  {
    var low, high := olds[..i], olds[..i + 1];
    assert high == low + [olds[i]];
    assert AllRefs(high) <==> AllRefs(low) && olds[i].Ref? by {
      assert forall k :: 0 <= k < i ==> high[k] == low[k];
      assert high[i] == olds[i];
    }
    if AllRefs(low) && olds[i].Ref? {
      assert DistinctValues(high) ==> DistinctValues(low) by { assert forall k :: 0 <= k < i ==> high[k] == low[k]; }
      if olds[i].addr in Addrs(low) {
        var v :| v in low && v.Ref? && v.addr == olds[i].addr;
        var k :| 0 <= k < i && low[k] == v;
        assert high[k] == high[i];
      }
    }
  }

  lemma NoCorpsesYet(mem: Things, olds: seq<Value>, neus: seq<Value>)
    requires forall a :: a in mem ==> mem[a].Object?
    ensures WithCorpses(mem, olds[..0], neus[..0]) == mem
  {
  }

  lemma PairsApart(olds: seq<Value>, neus: seq<Value>, i: nat)
    requires i < |olds| == |neus| && AllRefs(olds) && AllRefs(neus) && DistinctValues(olds)
    requires Addrs(olds) !! Addrs(neus)
    ensures AllRefs(olds[..i]) && AllRefs(neus[..i]) && AllRefs(olds[..i + 1]) && AllRefs(neus[..i + 1])
    ensures olds[i].addr !in Addrs(olds[..i]) && Ref(olds[i].addr) !in neus && neus[i].addr !in Addrs(olds)
    ensures olds[i].addr in Addrs(olds) && neus[i].addr in Addrs(neus) && Addrs(olds[..i]) <= Addrs(olds)
  {
    assert olds[i] in olds && neus[i] in neus;
    assert olds[i].addr in Addrs(olds) && olds[i].addr !in Addrs(neus);
  }

  lemma PairMore(mem: Things, olds: seq<Value>, neus: seq<Value>, i: nat)
    requires i < |olds| == |neus| && AllRefs(olds[..i]) && AllRefs(neus[..i]) && AllRefs(olds[..i + 1])
    requires AllRefs(neus[..i + 1])
    requires olds[i].Ref? && neus[i].Ref? && olds[i].addr in mem && mem[olds[i].addr].Object?
    ensures Forwarding(olds[..i + 1], neus[..i + 1]) == Forwarding(olds[..i], neus[..i])[olds[i].addr := neus[i].addr]
    ensures forall x :: x in mem && mem[x].Object? ==>
      (HashOf(mem, olds[..i + 1], neus[..i + 1], x) == if x == neus[i].addr then mem[olds[i].addr].hash
        else HashOf(mem, olds[..i], neus[..i], x))
  {
    assert olds[..i + 1][..i] == olds[..i] && neus[..i + 1][..i] == neus[..i];
  }

  /** One more pair. */
  lemma MakeCorpse(mem: Things, olds: seq<Value>, neus: seq<Value>, i: nat)
    requires i < |olds| == |neus| && AllRefs(olds) && AllRefs(neus) && DistinctValues(olds)
    requires Addrs(olds) !! Addrs(neus)
    requires Addrs(olds) <= mem.Keys && Addrs(neus) <= mem.Keys && forall a :: a in mem ==> mem[a].Object?
    ensures AllRefs(olds[..i]) && AllRefs(neus[..i]) && AllRefs(olds[..i + 1]) && AllRefs(neus[..i + 1])
    ensures var now, a, b := WithCorpses(mem, olds[..i], neus[..i]), olds[i].addr, neus[i].addr;
      && a in now && now[a].Object? && b in now && now[b].Object? && a != b
      && WithCorpses(mem, olds[..i + 1], neus[..i + 1])
         == now[b := now[b].(hash := now[a].hash)][a := Corpse(now[a].size, b)]
  {
    hide HashOf, Forwarding, Addrs, DistinctValues;
    PairsApart(olds, neus, i);
    PairMore(mem, olds, neus, i);
    var a, b := olds[i].addr, neus[i].addr;
    HashKept(mem, olds[..i], neus[..i], a);
    var now, next := WithCorpses(mem, olds[..i], neus[..i]), WithCorpses(mem, olds[..i + 1], neus[..i + 1]);
    forall x | x in mem ensures next[x] == if x == a then Corpse(mem[a].size, b)
      else if x == b then now[b].(hash := mem[a].hash) else now[x] {}
  }

  /** An old object is no one's replacement, so its hash is its own. */
  lemma {:induction false} HashKept(mem: Things, olds: seq<Value>, neus: seq<Value>, a: Addr)
    requires |olds| == |neus| && a in mem && mem[a].Object? && Ref(a) !in neus
    ensures HashOf(mem, olds, neus, a) == mem[a].hash
    decreases |olds|
  {
    if olds != [] { HashKept(mem, olds[..|olds| - 1], neus[..|olds| - 1], a); }
  }
}
