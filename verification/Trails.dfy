/**
 * What keeps an object alive, told from below: a trail that starts at the roots, or at an old object if only new space
 * is collected, and gives a reason for each of its objects. Both collectors keep exactly the objects on such trails.
 */
module Trails {
  import opened HeapModel
  import M = Marking
  import S = ScavengeInvariant

  /** The objects in known are there in any case; if young holds, only new objects are collected. */
  datatype Graph = Graph(mem: Memory, classTable: seq<Value>, roots: seq<Value>, known: set<Addr>, young: bool)

  ghost predicate Collects(g: Graph, a: Addr) { a in g.mem && (g.young ==> IsNew(a)) }

  /**
   * x leads to a: an ordinary object to what is in its slots and to its class, an ephemeron to what is in its slots
   * once its key is there, a weak array to nothing.
   */
  ghost predicate Leads(g: Graph, x: Addr, earlier: seq<Addr>, a: Addr)
  {
    && x in g.mem && g.mem[x].Obj?
    && var c := g.mem[x];
       if c.cid == WEAK_ARRAY_CID then false
       else if c.cid == EPHEMERON_CID then
         && Ref(a) in c.slots && |c.slots| == 3
         && (c.slots[0].Smi? || !Collects(g, c.slots[0].addr) || c.slots[0].addr in earlier)
       else
         Ref(a) in c.slots || (c.cid < |g.classTable| && g.classTable[c.cid] == Ref(a))
  }

  ghost predicate Reason(g: Graph, earlier: seq<Addr>, a: Addr)
  {
    Ref(a) in g.roots || exists x :: (x in g.known || x in earlier) && Leads(g, x, earlier, a)
  }

  ghost predicate Trail(g: Graph, p: seq<Addr>)
  {
    forall k :: 0 <= k < |p| ==> Collects(g, p[k]) && Reason(g, p[..k], p[k])
  }

  /** The objects on trails. */
  ghost function Reached(g: Graph): set<Addr> { set a | a in g.mem && exists p :: Trail(g, p) && a in p }

  lemma ReasonStays(g: Graph, earlier: seq<Addr>, more: seq<Addr>, a: Addr)
    requires Reason(g, earlier, a) && forall x :: x in earlier ==> x in more
    ensures Reason(g, more, a)
  {
    if Ref(a) !in g.roots {
      var x :| (x in g.known || x in earlier) && Leads(g, x, earlier, a);
      assert Leads(g, x, more, a);
    }
  }

  lemma TrailJoined(g: Graph, p: seq<Addr>, q: seq<Addr>)
    requires Trail(g, p) && Trail(g, q)
    ensures Trail(g, p + q)
  {
    var r := p + q;
    forall k | 0 <= k < |r| ensures Collects(g, r[k]) && Reason(g, r[..k], r[k]) {
      if k < |p| {
        assert r[..k] == p[..k];
      } else {
        assert r[..k] == p + q[..k - |p|];
        ReasonStays(g, q[..k - |p|], r[..k], r[k]);
      }
    }
  }

  lemma TrailOn(g: Graph, p: seq<Addr>, a: Addr)
    requires Trail(g, p) && Collects(g, a) && Reason(g, p, a)
    ensures a in Reached(g)
  {
    var r := p + [a];
    forall k | 0 <= k < |r| ensures Collects(g, r[k]) && Reason(g, r[..k], r[k]) {
      assert r[..k] == if k < |p| then p[..k] else p;
    }
    assert Trail(g, r) && a in r;
  }

  /** What leads on from known objects and objects on trails is on a trail. */
  lemma ReachedOn(g: Graph, x: Addr, a: Addr)
    requires x in g.known || x in Reached(g)
    requires x in g.mem && g.mem[x].Obj? && Collects(g, a) && g.mem[x].cid != WEAK_ARRAY_CID
    requires g.mem[x].cid == EPHEMERON_CID ==>
      && |g.mem[x].slots| == 3 && Ref(a) in g.mem[x].slots
      && var key := g.mem[x].slots[0]; key.Ref? && Collects(g, key.addr) ==> key.addr in Reached(g)
    requires g.mem[x].cid != EPHEMERON_CID ==>
      Ref(a) in g.mem[x].slots || (g.mem[x].cid < |g.classTable| && g.classTable[g.mem[x].cid] == Ref(a))
    ensures a in Reached(g)
  {
    var p: seq<Addr>, q: seq<Addr> := [], [];
    if x in Reached(g) { p :| Trail(g, p) && x in p; }
    if g.mem[x].cid == EPHEMERON_CID {
      var key := g.mem[x].slots[0];
      if key.Ref? && Collects(g, key.addr) { q :| Trail(g, q) && key.addr in q; }
    }
    TrailJoined(g, p, q);
    assert Leads(g, x, p + q, a);
    TrailOn(g, p + q, a);
  }

  lemma RootReached(g: Graph, a: Addr)
    requires Collects(g, a) && Ref(a) in g.roots
    ensures a in Reached(g)
  {
    TrailOn(g, [], a);
  }

  // ---- mark-sweep ----

  ghost function Whole(s: M.Snapshot): Graph { Graph(s.mem, s.classTable, s.roots, {}, false) }

  lemma {:induction false} TrailMarked(s: M.Snapshot, p: seq<Addr>, k: nat)
    requires M.Sound(s) && Trail(Whole(s), p) && k <= |p|
    ensures forall j :: 0 <= j < k ==> p[j] in M.Live(s)
  {
    if k > 0 {
      TrailMarked(s, p, k - 1);
      M.LiveIsLeast(s);
      var g, a, L := Whole(s), p[k - 1], M.Live(s);
      assert Reason(g, p[..k - 1], a);
      if Ref(a) in s.roots {
        var i :| 0 <= i < |s.roots| && s.roots[i] == Ref(a);
        assert M.Within(s.roots[i], L);
      } else {
        var x :| x in p[..k - 1] && Leads(g, x, p[..k - 1], a);
        assert M.Keeps(s, x, L);
        if Ref(a) in s.mem[x].slots {
          var i :| 0 <= i < |s.mem[x].slots| && s.mem[x].slots[i] == Ref(a);
          assert M.Within(s.mem[x].slots[i], L);
        }
      }
    }
  }

  /** A mark-sweep keeps exactly the objects on trails from the roots. */
  lemma MarkedByTrail(s: M.Snapshot, a: Addr)
    requires M.Sound(s)
    ensures a in M.Live(s) <==> exists p :: Trail(Whole(s), p) && a in p
  {
    var g := Whole(s);
    var D := Reached(g);
    if p :| Trail(g, p) && a in p { TrailMarked(s, p, |p|); }
    assert M.Closed(s, D) by {
      forall i | 0 <= i < |s.roots| ensures M.Within(s.roots[i], D) {
        if s.roots[i].Ref? { RootReached(g, s.roots[i].addr); }
      }
      forall x | x in s.mem && x in D ensures M.Keeps(s, x, D) {
        var c := s.mem[x];
        if c.cid != WEAK_ARRAY_CID && (c.cid == EPHEMERON_CID ==> M.KeyLives(c, D)) {
          forall i | 0 <= i < |c.slots| ensures M.Within(c.slots[i], D) {
            if c.slots[i].Ref? { ReachedOn(g, x, c.slots[i].addr); }
          }
          if c.cid != EPHEMERON_CID && s.classTable[c.cid].Ref? { ReachedOn(g, x, s.classTable[c.cid].addr); }
        }
      }
    }
    M.LiveIsLeast(s);
  }

  // ---- scavenge ----

  /** Trails in new space start at the roots and at old objects, whether or not these are remembered. */
  ghost function NewSpace(s: S.Start): Graph
  {
    Graph(s.mem, s.classTable, s.roots, set a | a in s.mem && !IsNew(a), true)
  }

  lemma {:induction false} TrailScavenged(s: S.Start, p: seq<Addr>, k: nat)
    requires S.WellFormed(s) && Trail(NewSpace(s), p) && k <= |p|
    ensures forall j :: 0 <= j < k ==> p[j] in S.Live(s)
  {
    if k > 0 {
      hide S.WellFormed, S.Live, Leads;
      TrailScavenged(s, p, k - 1);
      S.LiveIsLeastClosed(s);
      var g, earlier, a, L := NewSpace(s), p[..k - 1], p[k - 1], S.Live(s);
      assert Collects(g, a) && Reason(g, earlier, a);
      if Ref(a) in s.roots {
        RootWithin(s, a, L);
      } else {
        var x :| (x in g.known || x in earlier) && Leads(g, x, earlier, a);
        LeadsVisited(s, x, earlier, a, L);
      }
    }
  }

  lemma RootWithin(s: S.Start, a: Addr, L: set<Addr>)
    requires S.WellFormed(s) && S.Closed(s, L) && Ref(a) in s.roots && a in s.mem && IsNew(a)
    ensures a in L
  {
    var i :| 0 <= i < |s.roots| && s.roots[i] == Ref(a);
    assert S.Within(s, s.roots[i], L);
  }

  lemma LeadsVisited(s: S.Start, x: Addr, earlier: seq<Addr>, a: Addr, L: set<Addr>)
    requires S.WellFormed(s) && S.Closed(s, L) && Leads(NewSpace(s), x, earlier, a) && a in s.mem && IsNew(a)
    requires (forall y :: y in earlier ==> y in L) && (IsNew(x) ==> x in earlier)
    ensures a in L
  {
    var c := s.mem[x];
    if Ref(a) in c.slots {
      var i :| 0 <= i < |c.slots| && c.slots[i] == Ref(a);
      assert IsNewRef(c.slots[i]);
      assert S.Visited(s, x, L);
      assert S.Within(s, c.slots[i], L);
    } else {
      assert S.Visited(s, x, L);
    }
  }

  /** A scavenge keeps exactly the new objects on trails from the roots and from old space. */
  lemma ScavengedByTrail(s: S.Start, a: Addr)
    requires S.WellFormed(s)
    ensures a in S.Live(s) <==> exists p :: Trail(NewSpace(s), p) && a in p
  {
    var g := NewSpace(s);
    var D := Reached(g);
    if p :| Trail(g, p) && a in p { TrailScavenged(s, p, |p|); }
    assert S.Closed(s, D) by {
      forall i | 0 <= i < |s.roots| ensures S.Within(s, s.roots[i], D) {
        if S.FromRef(s, s.roots[i]) { RootReached(g, s.roots[i].addr); }
      }
      forall x | S.Visited(s, x, D) && s.mem[x].cid != WEAK_ARRAY_CID
                 && (s.mem[x].cid == EPHEMERON_CID ==> S.KeyLives(s, s.mem[x], D))
        ensures S.AllWithin(s, s.mem[x].slots, D)
        ensures s.mem[x].cid != EPHEMERON_CID ==> S.Within(s, s.classTable[s.mem[x].cid], D)
      {
        var c := s.mem[x];
        forall i | 0 <= i < |c.slots| ensures S.Within(s, c.slots[i], D) {
          if S.FromRef(s, c.slots[i]) { ReachedOn(g, x, c.slots[i].addr); }
        }
        if c.cid != EPHEMERON_CID && S.FromRef(s, s.classTable[c.cid]) { ReachedOn(g, x, s.classTable[c.cid].addr); }
      }
    }
    S.LiveIsLeastClosed(s);
  }
}
