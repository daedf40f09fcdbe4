/** What a mark-sweep makes of the weak references, and the invariant of its mourning phase: vm/heap.cc. */
module Mourning {
  import opened HeapModel
  import opened Marking
  import S = ScavengeInvariant

  /**
   * The slots of a survivor: weak references to the dead become nil, and so does all of an ephemeron with a dead key.
   */
  ghost function FinalSlots(s: Snapshot, L: set<Addr>, c: Cell): (r: seq<Value>)
    requires |s.roots| >= 1 && c.Obj? && (c.cid == EPHEMERON_CID ==> |c.slots| == 3)
    ensures |r| == |c.slots|
  {
    var nil := s.roots[0];
    if c.cid == EPHEMERON_CID then if KeyLives(c, L) then c.slots else [nil, nil, nil]
    else if c.cid == WEAK_ARRAY_CID
      then seq(|c.slots|, i requires 0 <= i < |c.slots| => if Within(c.slots[i], L) then c.slots[i] else nil)
    else c.slots
  }

  /** A survivor after the collection. */
  ghost function FinalCell(s: Snapshot, L: set<Addr>, a: Addr): Cell
    requires Sound(s) && a in s.mem
  {
    var c := s.mem[a];
    var body := c.(slots := FinalSlots(s, L, c));
    body.(remembered := !IsNew(a) && S.HasNewTarget(body, s.classTable))
  }

  ghost predicate MournInv(s: Snapshot, v: View)
  {
    && Sound(s) && v.marks == Live(s) && v.stack == [] && v.mem.Keys == s.mem.Keys
    && S.Distinct(v.ephemerons) && S.Distinct(v.weak) && S.Distinct(v.rem)
    && (forall a :: a in v.ephemerons ==>
         a in v.marks && a in s.mem && s.mem[a].cid == EPHEMERON_CID && !KeyLives(s.mem[a], v.marks))
    && (forall a :: a in v.weak ==> a in v.marks && a in s.mem && s.mem[a].cid == WEAK_ARRAY_CID)
    && (forall a :: a in v.marks && a in s.mem ==>
          v.mem[a] == if a in v.ephemerons || a in v.weak then s.mem[a].(remembered := false)
            else FinalCell(s, v.marks, a))
    && (forall a :: a in v.rem ==> a in v.marks)
    && (forall a :: a in v.marks && a in s.mem ==> (a in v.rem <==> v.mem[a].Obj? && v.mem[a].remembered))
  }

  /** Nothing to mourn in an object that is done. */
  lemma DoneIsFinal(s: Snapshot, marks: set<Addr>, a: Addr)
    requires Sound(s) && a in s.mem && Done(s, marks, a)
    ensures FinalSlots(s, marks, s.mem[a]) == s.mem[a].slots
  {
  }

  lemma MourningStarts(s: Snapshot, v: View)
    requires Traced(s, v)
    ensures MournInv(s, v)
  {
    MarkedIsLive(s, v);
    hide Live, FinalSlots, S.HasNewTarget, AllWithin;
    forall a | a in v.marks && a in s.mem
      ensures v.mem[a] == if a in v.ephemerons || a in v.weak then s.mem[a].(remembered := false)
              else FinalCell(s, v.marks, a)
      ensures a in v.rem <==> v.mem[a].Obj? && v.mem[a].remembered
    {
      assert Waiting(v, {}, a) || Done(s, v.marks, a);
      if !Waiting(v, {}, a) {
        DoneIsFinal(s, v.marks, a);
        assert s.mem[a].(slots := FinalSlots(s, v.marks, s.mem[a])) == s.mem[a];
      }
    }
  }

  lemma NilIsOld(s: Snapshot, c: Cell)
    requires Sound(s) && c.Obj? && c.cid == EPHEMERON_CID && c.cid < |s.classTable|
    requires c.slots == [s.roots[0], s.roots[0], s.roots[0]]
    ensures !S.HasNewTarget(c, s.classTable)
  {
  }

  /** The first ephemeron on the list gets nil in all its slots. */
  lemma MournEphemeronKeeps(s: Snapshot, v: View)
    requires MournInv(s, v) && v.ephemerons != []
    ensures v.ephemerons[0] in v.mem && v.mem[v.ephemerons[0]].Obj?
    ensures var a, nil := v.ephemerons[0], s.roots[0];
      MournInv(s, v.(ephemerons := v.ephemerons[1..], mem := v.mem[a := v.mem[a].(slots := [nil, nil, nil])]))
  {
    hide Live, S.HasNewTarget;
    var a, nil := v.ephemerons[0], s.roots[0];
    assert v.mem[a] == s.mem[a].(remembered := false);
    var body := s.mem[a].(slots := [nil, nil, nil]);
    NilIsOld(s, body);
    assert FinalCell(s, v.marks, a) == body.(remembered := false);
    assert v.ephemerons == [a] + v.ephemerons[1..];
  }

  /** The first weak array on the list is dealt with. */
  ghost function WeakMourned(s: Snapshot, v: View): View
    requires Sound(s) && v.weak != [] && v.weak[0] in s.mem
  {
    var a := v.weak[0];
    var c := FinalCell(s, v.marks, a);
    v.(weak := v.weak[1..], mem := v.mem[a := c], rem := if c.remembered then v.rem + [a] else v.rem)
  }

  lemma WeakMournedKeeps(s: Snapshot, v: View)
    requires MournInv(s, v) && v.weak != []
    ensures v.weak[0] in s.mem && MournInv(s, WeakMourned(s, v)) && v.weak[0] !in v.rem
  {
    hide Live, S.HasNewTarget, FinalSlots;
    var a := v.weak[0];
    assert v.weak == [a] + v.weak[1..];
    assert a !in v.ephemerons;
    assert a !in v.rem;
  }

  /** The class table after the collection: the ids of dead classes are freed, and every other entry is what it was. */
  ghost predicate TableAfter(s: Snapshot, L: set<Addr>, table: seq<Value>, n: nat)
  {
    && |table| == |s.classTable|
    && (forall i :: 0 <= i < |table| && !(FIRST_LEGAL_CID <= i < n && !Within(s.classTable[i], L)) ==>
         table[i] == s.classTable[i])
    && (forall i :: FIRST_LEGAL_CID <= i < n && i < |table| && !Within(s.classTable[i], L) ==> table[i].Smi?)
  }

  ghost predicate FreedIds(s: Snapshot, L: set<Addr>, freed: seq<nat>, n: nat)
  {
    forall i :: i in freed <==> FIRST_LEGAL_CID <= i < n && i < |s.classTable| && !Within(s.classTable[i], L)
  }

  /** Everything the collection promises of the object graph. */
  ghost predicate Collected(s: Snapshot, mem: Memory, classTable: seq<Value>, rem: seq<Addr>)
    requires Sound(s)
  {
    && mem.Keys == Live(s)
    && (forall a :: a in mem && a in s.mem ==> mem[a] == FinalCell(s, Live(s), a))
    && TableAfter(s, Live(s), classTable, |classTable|)
    && S.Distinct(rem) && (forall a :: a in rem <==> a in mem && mem[a].Obj? && mem[a].remembered)
  }

  lemma {:induction false} FinalWithin(s: Snapshot, a: Addr, i: nat)
    requires Sound(s) && a in Live(s) && i < |s.mem[a].slots|
    ensures Within(FinalSlots(s, Live(s), s.mem[a])[i], Live(s))
  {
    LiveIsLeast(s);
    hide Live;
    assert Within(s.roots[0], Live(s));
    assert Keeps(s, a, Live(s));
  }

  /**
   * A survivor is what it was, except that a weak array has nil for each reference to the dead, and that an ephemeron
   * with a dead key has nothing but nil.
   */
  lemma SurvivorsAre(s: Snapshot, mem: Memory, classTable: seq<Value>, rem: seq<Addr>, a: Addr)
    requires Sound(s) && Collected(s, mem, classTable, rem) && a in Live(s)
    ensures a in s.mem && a in mem && mem[a].Obj? && s.mem[a].Obj? && |mem[a].slots| == |s.mem[a].slots|
    ensures mem[a] == s.mem[a].(slots := mem[a].slots, remembered := mem[a].remembered)
    ensures s.mem[a].cid == WEAK_ARRAY_CID ==> forall i :: 0 <= i < |mem[a].slots| ==>
      var v := s.mem[a].slots[i];
      mem[a].slots[i] == if v.Smi? || v.addr in Live(s) then v else s.roots[0]
    ensures s.mem[a].cid == EPHEMERON_CID ==> |s.mem[a].slots| == 3
    ensures s.mem[a].cid == EPHEMERON_CID ==>
      var key := s.mem[a].slots[0];
      mem[a].slots == if key.Smi? || key.addr in Live(s) then s.mem[a].slots else [s.roots[0], s.roots[0], s.roots[0]]
    ensures s.mem[a].cid != WEAK_ARRAY_CID && s.mem[a].cid != EPHEMERON_CID ==> mem[a].slots == s.mem[a].slots
  {
    LiveInMem(s);
    hide Live, S.HasNewTarget;
    assert mem[a] == FinalCell(s, Live(s), a);
  }

  /** No survivor refers to a dead object, and the class of each survivor that the collector looks at survives. */
  lemma NothingDangles(s: Snapshot, mem: Memory, classTable: seq<Value>, rem: seq<Addr>)
    requires Sound(s) && Collected(s, mem, classTable, rem)
    ensures Sound(Snapshot(mem, s.roots, classTable))
    ensures forall a :: a in mem && IsStrong(mem[a].cid) ==> classTable[mem[a].cid] == s.classTable[mem[a].cid]
  {
    LiveIsLeast(s);
    LiveInMem(s);
    hide Live, FinalSlots, S.HasNewTarget;
    forall a | a in mem ensures mem[a] == FinalCell(s, Live(s), a) { assert a in s.mem; }
    forall a, i | a in mem && 0 <= i < |mem[a].slots| && mem[a].slots[i].Ref? ensures mem[a].slots[i].addr in mem {
      FinalWithin(s, a, i);
    }
    forall i | 0 <= i < |s.roots| && s.roots[i].Ref?
      ensures s.roots[i].addr in mem { assert Within(s.roots[i], Live(s)); }
    forall a | a in mem && IsStrong(mem[a].cid) ensures classTable[mem[a].cid] == s.classTable[mem[a].cid] {
      assert Keeps(s, a, Live(s));
    }
    assert forall i :: 0 <= i < |classTable| ==> Within(classTable[i], Live(s));
  }

  /** The remembered set is just what a scavenge needs: the old objects that refer to new ones, each of them once. */
  lemma RememberedExactly(s: Snapshot, mem: Memory, classTable: seq<Value>, rem: seq<Addr>)
    requires Sound(s) && Collected(s, mem, classTable, rem)
    ensures S.RememberedOk(mem, rem) && S.RememberedComplete(mem, rem, classTable)
    ensures forall a :: a in mem && mem[a].Obj? && mem[a].cid < |classTable| ==>
      (a in rem <==> !IsNew(a) && S.HasNewTarget(mem[a], classTable))
  {
    NothingDangles(s, mem, classTable, rem);
    LiveInMem(s);
    hide Live, FinalSlots;
    forall a | a in mem && mem[a].Obj? && mem[a].cid < |classTable|
      ensures a in rem <==> !IsNew(a) && S.HasNewTarget(mem[a], classTable)
    {
      assert a in s.mem && mem[a] == FinalCell(s, Live(s), a);
      var c := s.mem[a];
      SameTargets(c.(slots := FinalSlots(s, Live(s), c)), mem[a], s.classTable, classTable);
    }
  }

  lemma SameTargets(c: Cell, d: Cell, table: seq<Value>, table': seq<Value>)
    requires c.Obj? && d.Obj? && c.cid == d.cid && c.slots == d.slots && c.cid < |table| && |table| == |table'|
    requires IsStrong(c.cid) ==> table[c.cid] == table'[c.cid]
    ensures S.HasNewTarget(c, table) == S.HasNewTarget(d, table')
  {
  }
}
