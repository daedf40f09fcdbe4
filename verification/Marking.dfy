/** What a mark-sweep keeps, and the invariant of its marking phase: vm/heap.cc, Heap::MarkSweep. */
module Marking {
  import opened HeapModel
  import S = ScavengeInvariant

  /** The heap that a mark-sweep starts from. */
  datatype Snapshot = Snapshot(mem: Memory, roots: seq<Value>, classTable: seq<Value>)

  /** References lead to objects, and objects have the shape their class asks for. */
  ghost predicate Sound(s: Snapshot)
  {
    && (forall a :: a in s.mem ==> s.mem[a].Obj? && FIRST_LEGAL_CID <= s.mem[a].cid < |s.classTable|)
    && (forall a :: a in s.mem && s.mem[a].cid == EPHEMERON_CID ==> |s.mem[a].slots| == 3)
    && (forall a, i :: a in s.mem && 0 <= i < |s.mem[a].slots| && s.mem[a].slots[i].Ref? ==>
         s.mem[a].slots[i].addr in s.mem)
    && (forall i :: 0 <= i < |s.roots| && s.roots[i].Ref? ==> s.roots[i].addr in s.mem)
    && (forall i :: 0 <= i < |s.classTable| && s.classTable[i].Ref? ==> s.classTable[i].addr in s.mem)
    && (forall i :: 0 <= i < FIRST_LEGAL_CID && i < |s.classTable| ==> s.classTable[i].Smi?)
    // nil is an old object
    && |s.roots| >= 1 && s.roots[0].Ref? && !IsNew(s.roots[0].addr)
  }

  ghost predicate Within(v: Value, L: set<Addr>) { v.Ref? ==> v.addr in L }

  ghost predicate AllWithin(vs: seq<Value>, L: set<Addr>) { forall i :: 0 <= i < |vs| ==> Within(vs[i], L) }

  ghost predicate KeyLives(c: Cell, L: set<Addr>)
    requires c.Obj? && |c.slots| == 3
  {
    Within(c.slots[0], L)
  }

  /** What a live object keeps alive. */
  ghost predicate Keeps(s: Snapshot, a: Addr, L: set<Addr>)
    requires Sound(s) && a in s.mem
  {
    var c := s.mem[a];
    && (IsStrong(c.cid) ==> AllWithin(c.slots, L) && Within(s.classTable[c.cid], L))
    && (c.cid == EPHEMERON_CID && KeyLives(c, L) ==> AllWithin(c.slots, L))
  }

  ghost predicate Closed(s: Snapshot, L: set<Addr>)
    requires Sound(s)
  {
    AllWithin(s.roots, L) && forall a :: a in s.mem && a in L ==> Keeps(s, a, L)
  }

  /** The objects that every closed set holds. */
  ghost function Live(s: Snapshot): set<Addr>
    requires Sound(s)
  {
    set a | a in s.mem && forall L :: Closed(s, L) ==> a in L
  }

  lemma LiveIsLeast(s: Snapshot)
    requires Sound(s)
    ensures Closed(s, Live(s))
    ensures forall L :: Closed(s, L) ==> Live(s) <= L
  {
    var M := Live(s);
    assert AllWithin(s.roots, M) by {
      forall i | 0 <= i < |s.roots| ensures Within(s.roots[i], M) {
        forall L | Closed(s, L) ensures Within(s.roots[i], L) {}
      }
    }
    forall a | a in s.mem && a in M ensures Keeps(s, a, M) { LiveKeeps(s, a); }
  }

  lemma LiveKeeps(s: Snapshot, a: Addr)
    requires Sound(s) && a in s.mem && a in Live(s)
    ensures Keeps(s, a, Live(s))
  {
    var c, M := s.mem[a], Live(s);
    forall L | Closed(s, L) ensures Keeps(s, a, L) && (c.cid == EPHEMERON_CID && KeyLives(c, M) ==> KeyLives(c, L)) {
      assert M <= L;
    }
    if IsStrong(c.cid) || (c.cid == EPHEMERON_CID && KeyLives(c, M)) {
      forall i | 0 <= i < |c.slots| ensures Within(c.slots[i], M) {
        forall L | Closed(s, L) ensures Within(c.slots[i], L) { assert Keeps(s, a, L); }
      }
    }
    if IsStrong(c.cid) {
      assert Within(s.classTable[c.cid], M) by {
        forall L | Closed(s, L) ensures Within(s.classTable[c.cid], L) { assert Keeps(s, a, L); }
      }
    }
  }

  // ---- the state while marking ----

  /** marks holds the objects whose mark bit is set. */
  datatype View = View(mem: Memory, marks: set<Addr>, stack: seq<Addr>, ephemerons: seq<Addr>, weak: seq<Addr>,
                       rem: seq<Addr>)

  /** Marked, but not yet dealt with; busy holds the objects that the collector has in hand. */
  ghost predicate Waiting(v: View, busy: set<Addr>, a: Addr)
  {
    a in v.stack || a in v.ephemerons || a in v.weak || a in busy
  }

  /** What a has kept alive is marked. */
  ghost predicate Done(s: Snapshot, marks: set<Addr>, a: Addr)
    requires Sound(s) && a in s.mem
  {
    var c := s.mem[a];
    c.cid != WEAK_ARRAY_CID && AllWithin(c.slots, marks) && (IsStrong(c.cid) ==> Within(s.classTable[c.cid], marks))
  }

  ghost predicate MemOk(s: Snapshot, v: View)
  {
    v.mem.Keys == s.mem.Keys && forall a :: a in s.mem && s.mem[a].Obj? ==>
      v.mem[a] == s.mem[a].(remembered := v.mem[a].Obj? && v.mem[a].remembered)
  }

  ghost predicate ListsOk(s: Snapshot, v: View, busy: set<Addr>)
  {
    && S.Distinct(v.stack) && S.Distinct(v.ephemerons) && S.Distinct(v.weak) && busy <= v.marks
    && (forall a :: a in v.stack ==> a in v.marks && a !in v.ephemerons && a !in v.weak && a !in busy)
    && (forall a :: a in v.ephemerons ==>
         a in v.marks && a !in busy && a in s.mem && s.mem[a].Obj? && s.mem[a].cid == EPHEMERON_CID)
    && (forall a :: a in v.weak ==>
         a in v.marks && a !in busy && a in s.mem && s.mem[a].Obj? && s.mem[a].cid == WEAK_ARRAY_CID)
  }

  /** The remembered set holds exactly the finished old objects that refer to new ones. */
  ghost predicate RemOk(s: Snapshot, v: View, busy: set<Addr>)
    requires Sound(s) && MemOk(s, v) && v.marks <= s.mem.Keys
  {
    && S.Distinct(v.rem)
    && (forall a :: a in v.rem ==> a in v.marks)
    && (forall a :: a in v.marks ==>
          (a in v.rem <==> !Waiting(v, busy, a) && !IsNew(a) && S.HasNewTarget(s.mem[a], s.classTable)))
    && (forall a :: a in v.marks ==> (v.mem[a].remembered <==> a in v.rem))
  }

  ghost predicate Inv(s: Snapshot, v: View, busy: set<Addr>)
  {
    && Sound(s) && MemOk(s, v) && v.marks <= s.mem.Keys && v.marks <= Live(s)
    && ListsOk(s, v, busy) && RemOk(s, v, busy)
    && (forall a :: a in v.marks ==> Waiting(v, busy, a) || Done(s, v.marks, a))
  }

  // ---- the steps ----

  lemma EmptyInv(s: Snapshot)
    requires Sound(s)
    ensures Inv(s, View(s.mem, {}, [], [], [], []), {})
  {
  }

  ghost function Marked(v: View, a: Addr): View
    requires a in v.mem && v.mem[a].Obj?
  {
    v.(mem := v.mem[a := v.mem[a].(remembered := false)], marks := v.marks + {a}, stack := v.stack + [a])
  }

  lemma MarkedKeeps(s: Snapshot, v: View, busy: set<Addr>, a: Addr)
    requires Inv(s, v, busy) && a in Live(s) && a !in v.marks
    ensures a in v.mem && v.mem[a].Obj? && Inv(s, Marked(v, a), busy)
  {
    hide Live, S.HasNewTarget;
    LiveInMem(s);
    var v' := Marked(v, a);
    assert a !in v.rem;
    forall x | x in v'.marks ensures Waiting(v', busy, x) <==> (x == a || Waiting(v, busy, x)) {}
    forall x | x in v'.marks ensures Waiting(v', busy, x) || Done(s, v'.marks, x) {
      if x != a && !Waiting(v, busy, x) { assert Done(s, v.marks, x); }
    }
    assert ListsOk(s, v', busy);
    assert MemOk(s, v');
  }

  lemma LiveInMem(s: Snapshot)
    requires Sound(s)
    ensures Live(s) <= s.mem.Keys
  {
  }

  /** The collector takes an object in hand. */
  lemma PopKeeps(s: Snapshot, v: View, busy: set<Addr>)
    requires Inv(s, v, busy) && v.stack != []
    ensures var n := |v.stack| - 1; Inv(s, v.(stack := v.stack[..n]), busy + {v.stack[n]}) && v.stack[n] !in busy
  {
    hide Live, S.HasNewTarget;
    var n := |v.stack| - 1;
    var a := v.stack[n];
    var v', busy' := v.(stack := v.stack[..n]), busy + {a};
    hide RemOk, Waiting;
    PoppedLists(s, v, busy);
    RemSame(s, v, v', busy, busy');
  }

  lemma PoppedLists(s: Snapshot, v: View, busy: set<Addr>)
    requires ListsOk(s, v, busy) && v.stack != []
    ensures var n := |v.stack| - 1;
      var v', busy' := v.(stack := v.stack[..n]), busy + {v.stack[n]};
      && v.stack[n] !in busy && v.stack[n] in v.marks && ListsOk(s, v', busy')
      && forall x :: Waiting(v', busy', x) <==> Waiting(v, busy, x)
  {
    var n := |v.stack| - 1;
    assert v.stack == v.stack[..n] + [v.stack[n]];
  }

  /** The remembered set does not depend on which list an object waits on. */
  lemma RemSame(s: Snapshot, v: View, v': View, busy: set<Addr>, busy': set<Addr>)
    requires Sound(s) && MemOk(s, v) && v.marks <= s.mem.Keys && RemOk(s, v, busy)
    requires v'.mem == v.mem && v'.marks == v.marks && v'.rem == v.rem
    requires forall x :: Waiting(v', busy', x) <==> Waiting(v, busy, x)
    ensures MemOk(s, v') && RemOk(s, v', busy')
  {
    hide Sound, Waiting, S.HasNewTarget;
  }

  lemma QueueWeakKeeps(s: Snapshot, v: View, busy: set<Addr>, a: Addr)
    requires Inv(s, v, busy) && a in busy && s.mem[a].cid == WEAK_ARRAY_CID
    ensures Inv(s, v.(weak := [a] + v.weak), busy - {a})
  {
    hide Live, S.HasNewTarget;
    var v', busy' := v.(weak := [a] + v.weak), busy - {a};
    forall x | x in v.marks ensures Waiting(v', busy', x) <==> Waiting(v, busy, x) {}
  }

  lemma QueueEphemeronKeeps(s: Snapshot, v: View, busy: set<Addr>, a: Addr)
    requires Inv(s, v, busy) && a in busy && s.mem[a].cid == EPHEMERON_CID
    ensures Inv(s, v.(ephemerons := [a] + v.ephemerons), busy - {a})
  {
    hide Live, S.HasNewTarget;
    var v', busy' := v.(ephemerons := [a] + v.ephemerons), busy - {a};
    forall x | x in v.marks ensures Waiting(v', busy', x) <==> Waiting(v, busy, x) {}
  }

  /** The whole ephemeron list is taken in hand. */
  lemma TakeEphemeronsKeeps(s: Snapshot, v: View)
    requires Inv(s, v, {})
    ensures Inv(s, v.(ephemerons := []), set a | a in v.ephemerons)
  {
    hide Live, S.HasNewTarget;
    var v', busy' := v.(ephemerons := []), set a | a in v.ephemerons;
    forall x | x in v.marks ensures Waiting(v', busy', x) <==> Waiting(v, {}, x) {}
  }

  /** An object is finished, and remembered if need be. */
  ghost function Remembered(v: View, a: Addr): View
    requires a in v.mem && v.mem[a].Obj?
  {
    v.(rem := v.rem + [a], mem := v.mem[a := v.mem[a].(remembered := true)])
  }

  lemma FinishKeeps(s: Snapshot, v: View, busy: set<Addr>, a: Addr)
    requires Inv(s, v, busy) && a in busy && Done(s, v.marks, a)
    ensures a in v.mem && v.mem[a].Obj?
    ensures a !in v.rem
    ensures Inv(s, if !IsNew(a) && S.HasNewTarget(s.mem[a], s.classTable) then Remembered(v, a) else v, busy - {a})
  {
    hide Live, S.HasNewTarget, RemOk, Waiting;
    var busy' := busy - {a};
    var v' := if !IsNew(a) && S.HasNewTarget(s.mem[a], s.classTable) then Remembered(v, a) else v;
    NotRemembered(s, v, busy, a);
    FinishedLists(s, v, v', busy, a);
    FinishedRem(s, v, v', busy, a);
  }

  lemma NotRemembered(s: Snapshot, v: View, busy: set<Addr>, a: Addr)
    requires Sound(s) && MemOk(s, v) && v.marks <= s.mem.Keys && RemOk(s, v, busy) && a in busy && a in v.marks
    ensures a !in v.rem
  {
    hide Sound, S.HasNewTarget;
  }

  lemma FinishedLists(s: Snapshot, v: View, v': View, busy: set<Addr>, a: Addr)
    requires ListsOk(s, v, busy) && a in busy && a in v.marks
    requires v'.stack == v.stack && v'.ephemerons == v.ephemerons && v'.weak == v.weak && v'.marks == v.marks
    ensures ListsOk(s, v', busy - {a})
    ensures forall x :: Waiting(v', busy - {a}, x) <==> x != a && Waiting(v, busy, x)
  {
    assert a !in v.stack && a !in v.ephemerons && a !in v.weak;
  }

  lemma FinishedRem(s: Snapshot, v: View, v': View, busy: set<Addr>, a: Addr)
    requires Sound(s) && MemOk(s, v) && MemOk(s, v') && v.marks <= s.mem.Keys && v'.marks == v.marks
    requires RemOk(s, v, busy) && a in v.marks && a in v.mem && v.mem[a].Obj? && a !in v.rem && s.mem[a].Obj?
    requires v' == if !IsNew(a) && S.HasNewTarget(s.mem[a], s.classTable) then Remembered(v, a) else v
    requires forall x :: Waiting(v', busy - {a}, x) <==> x != a && Waiting(v, busy, x)
    ensures RemOk(s, v', busy - {a})
  {
    hide Sound, MemOk, Waiting, S.HasNewTarget;
  }

  // ---- when marking is over ----

  ghost predicate Traced(s: Snapshot, v: View)
  {
    && Inv(s, v, {}) && v.stack == [] && AllWithin(s.roots, v.marks)
    && (forall a :: a in v.ephemerons && a in s.mem && s.mem[a].Obj? && |s.mem[a].slots| == 3 ==>
         !KeyLives(s.mem[a], v.marks))
  }

  /** What is marked is exactly what is live. */
  lemma MarkedIsLive(s: Snapshot, v: View)
    requires Traced(s, v)
    ensures v.marks == Live(s)
  {
    hide S.HasNewTarget, Live;
    LiveIsLeast(s);
    forall a | a in s.mem && a in v.marks ensures Keeps(s, a, v.marks) {
      assert Waiting(v, {}, a) || Done(s, v.marks, a);
    }
    assert Closed(s, v.marks);
  }
}
