/** What a scavenge promises: the state afterwards holds the live objects, moved, with their references followed. */
module ScavengeResult {
  import opened HeapModel
  import opened ScavengeInvariant

  /** v after its target, if moved has it, has moved. */
  ghost function Follow(s: Start, moved: map<Addr, Addr>, v: Value): Value
  {
    if FromRef(s, v) && v.addr in moved then Ref(moved[v.addr]) else v
  }

  /** v refers to a new object that did not survive. */
  ghost predicate Lost(s: Start, moved: map<Addr, Addr>, v: Value)
  {
    FromRef(s, v) && v.addr !in moved
  }

  ghost predicate SlotsFollowed(s: Start, moved: map<Addr, Addr>, c0: Cell, c: Cell)
    requires SameBody(c0, c)
  {
    forall i :: 0 <= i < |c.slots| ==> !Lost(s, moved, c0.slots[i]) && c.slots[i] == Follow(s, moved, c0.slots[i])
  }

  /** A surviving object: only weak arrays and ephemerons give anything up, and they give up exactly what died. */
  ghost predicate ObjectPreserved(s: Start, moved: map<Addr, Addr>, forgotten: bool, c0: Cell, c: Cell)
  {
    && |s.roots| >= 1 && SameBody(c0, c)
    && if c0.cid == WEAK_ARRAY_CID then
         forall i :: 0 <= i < |c.slots| ==>
           c.slots[i] == if Lost(s, moved, c0.slots[i]) then Nil(s) else Follow(s, moved, c0.slots[i])
       else if c0.cid == EPHEMERON_CID && |c0.slots| == 3 && (forgotten || Lost(s, moved, c0.slots[0])) then
         c.slots == [Nil(s), Nil(s), Nil(s)]
       else
         SlotsFollowed(s, moved, c0, c)
  }

  /** The one case in which the collector clears ephemerons without having looked at their keys. */
  ghost predicate Forgotten(s: Start, a: Addr)
  {
    !RootsTouchNew(s) && a in s.remembered
  }

  /** What the objects of s, wherever they are now, look like. */
  ghost predicate ObjectsKept(s: Start, s': Start, moved: map<Addr, Addr>)
  {
    && (forall a :: a in moved ==> a in s.mem && IsNew(a) && moved[a] !in s.mem && moved[a] in s'.mem)
    && (forall a :: a in moved ==> (IsNew(moved[a]) <==> a >= s.survivorEnd))
    && (forall a :: a in s.mem && !IsNew(a) ==> a in s'.mem)
    && (forall a :: a in moved ==> ObjectPreserved(s, moved, false, s.mem[a], s'.mem[moved[a]]))
    && (forall a :: a in s.mem && !IsNew(a) ==> ObjectPreserved(s, moved, Forgotten(s, a), s.mem[a], s'.mem[a]))
  }

  /** s' is s with the objects of moved moved, the other new objects gone, and everything else where it was. */
  ghost predicate Preserved(s: Start, s': Start, moved: map<Addr, Addr>)
  {
    && ObjectsKept(s, s', moved)
    && (forall a, b :: a in moved && b in moved && a != b ==> moved[a] != moved[b])
    && (forall x :: x in s'.mem ==> (x in s.mem && !IsNew(x)) || exists a :: a in moved && moved[a] == x)
    && |s'.roots| == |s.roots|
    && (forall i :: 0 <= i < |s.roots| ==> !Lost(s, moved, s.roots[i]) && s'.roots[i] == Follow(s, moved, s.roots[i]))
    && ClassesPreserved(s, s', moved)
  }

  /** The classes of dead objects leave the class table; the others stay under their number. */
  ghost predicate ClassesPreserved(s: Start, s': Start, moved: map<Addr, Addr>)
  {
    && |s'.classTable| == |s.classTable|
    && (forall i :: 0 <= i < |s.classTable| && !Lost(s, moved, s.classTable[i]) ==>
          s'.classTable[i] == Follow(s, moved, s.classTable[i]))
    && (forall i :: FIRST_LEGAL_CID <= i < |s.classTable| && Lost(s, moved, s.classTable[i]) ==> s'.classTable[i].Smi?)
  }

  /** v0 has become v: a small integer or a reference to old space stays, a reference to new space follows moved. */
  ghost predicate FollowedTo(moved: map<Addr, Addr>, v0: Value, v: Value)
  {
    if v0.Smi? || !IsNew(v0.addr) then v == v0 else v0.addr in moved && v == Ref(moved[v0.addr])
  }

  ghost predicate AllFollowedTo(moved: map<Addr, Addr>, vs0: seq<Value>, vs: seq<Value>)
  {
    |vs| == |vs0| && forall i :: 0 <= i < |vs| ==> FollowedTo(moved, vs0[i], vs[i])
  }

  /**
   * What has become of the object that was at a and is at x: every slot has been followed, except that a weak array has
   * nil for each reference to the dead, and that an ephemeron with a dead key has nothing but nil. So has every
   * remembered ephemeron if neither the roots nor the ordinary remembered objects touch new space.
   */
  lemma SurvivorsAre(s: Start, s': Start, moved: map<Addr, Addr>, a: Addr, x: Addr)
    requires WellFormed(s) && Preserved(s, s', moved) && a in s.mem
    requires if IsNew(a) then a in moved && x == moved[a] else x == a
    ensures x in s'.mem && SameBody(s.mem[a], s'.mem[x])
    ensures s.mem[a].cid == WEAK_ARRAY_CID ==> forall i :: 0 <= i < |s'.mem[x].slots| ==>
      var v0 := s.mem[a].slots[i];
      if v0.Ref? && IsNew(v0.addr) && v0.addr !in moved then s'.mem[x].slots[i] == s.roots[0]
      else FollowedTo(moved, v0, s'.mem[x].slots[i])
    ensures s.mem[a].cid == EPHEMERON_CID ==> |s.mem[a].slots| == 3
    ensures s.mem[a].cid == EPHEMERON_CID ==>
      var key := s.mem[a].slots[0];
      if (key.Ref? && IsNew(key.addr) && key.addr !in moved) || (a in s.remembered && !RootsTouchNew(s))
      then s'.mem[x].slots == [s.roots[0], s.roots[0], s.roots[0]]
      else AllFollowedTo(moved, s.mem[a].slots, s'.mem[x].slots)
    ensures s.mem[a].cid != WEAK_ARRAY_CID && s.mem[a].cid != EPHEMERON_CID ==>
      AllFollowedTo(moved, s.mem[a].slots, s'.mem[x].slots)
    ensures AllFollowedTo(moved, s.roots, s'.roots)
  {
    hide RootsTouchNew, ClassesPreserved;
    assert ObjectPreserved(s, moved, !IsNew(a) && Forgotten(s, a), s.mem[a], s'.mem[x]);
    assert a in s.remembered ==> !IsNew(a);
    var c0, c := s.mem[a], s'.mem[x];
    forall i | 0 <= i < |c0.slots| && !Lost(s, moved, c0.slots[i])
      ensures FollowedTo(moved, c0.slots[i], Follow(s, moved, c0.slots[i])) {}
    forall i | 0 <= i < |s.roots| ensures FollowedTo(moved, s.roots[i], s'.roots[i]) {
      assert !Lost(s, moved, s.roots[i]);
    }
  }

  /**
   * An object that a first scavenge leaves in new space is below the survivor line from then on. A second scavenge that
   * keeps it, whatever has been allocated and stored in the meantime, moves it to old space, and an object that has
   * been allocated in the meantime stays in new space unless everything is tenured.
   */
  lemma OldAfterTwo(s0: Start, s1: Start, s2: Start, s3: Start, first: map<Addr, Addr>, second: map<Addr, Addr>,
                    a: Addr)
    requires Preserved(s0, s1, first) && (forall x :: x in s1.mem && IsNew(x) ==> x < s1.survivorEnd)
    requires s1.survivorEnd <= s2.survivorEnd && Preserved(s2, s3, second)
    requires a in first && IsNew(first[a]) && first[a] in second && SameBody(s1.mem[first[a]], s2.mem[first[a]])
    ensures a >= s0.survivorEnd && !IsNew(second[first[a]])
    ensures second[first[a]] in s3.mem && SameBody(s0.mem[a], s3.mem[second[first[a]]])
    ensures forall x :: x in second && x >= s2.survivorEnd ==> x !in s1.mem && IsNew(second[x])
  {
    hide Preserved, SameBody;
    KeptBody(s0, s1, first);
    KeptBody(s2, s3, second);
    SameBodies(s0.mem[a], s1.mem[first[a]], s2.mem[first[a]], s3.mem[second[first[a]]]);
  }

  lemma KeptBody(s: Start, s': Start, moved: map<Addr, Addr>)
    requires Preserved(s, s', moved)
    ensures forall x :: x in moved ==> x in s.mem && moved[x] in s'.mem && (IsNew(moved[x]) <==> x >= s.survivorEnd)
    ensures forall x :: x in moved ==> IsNew(x) && SameBody(s.mem[x], s'.mem[moved[x]])
  {
    hide Lost, ClassesPreserved, RootsTouchNew, SlotsFollowed, Follow;
  }

  lemma SameBodies(a: Cell, b: Cell, c: Cell, d: Cell)
    requires SameBody(a, b) && SameBody(b, c) && SameBody(c, d)
    ensures SameBody(a, d)
  {
  }

  // ---- from the final state of the collector ----

  ghost predicate AllBlack(v: View)
  {
    forall x :: x in v.color ==> v.color[x] == Black
  }

  ghost predicate Finished(s: Start, v: View)
  {
    && v.phase.Mourning? && v.phase.skipped == !RootsTouchNew(s) && AllBlack(v) && NoFromRefs(s, v.roots)
    && (v.phase.skipped ==> !SomeMoved(s, v.mem))
    && (v.phase.skipped ==>
          forall a :: a in s.remembered && a in s.mem && s.mem[a].Obj? && s.mem[a].cid == EPHEMERON_CID ==>
            Cleared(s, v, a))
  }

  ghost function MovedMap(s: Start, mem: Memory): map<Addr, Addr>
  {
    map a | a in s.mem && IsNew(a) && a in mem && mem[a].Forwarded? :: mem[a].to
  }

  ghost function Survivors(s: Start, mem: Memory): Memory
  {
    map x | x in mem && Tracked(s, mem, x) :: mem[x]
  }

  ghost function After(s: Start, v: View, classTable: seq<Value>): Start
  {
    Start(Survivors(s, v.mem), v.roots, classTable, v.rem, v.copies, v.top)
  }

  lemma FollowIsImage(s: Start, mem: Memory)
    requires InDomain(s, mem)
    ensures forall v :: Follow(s, MovedMap(s, mem), v) == Image(s, mem, v)
    ensures forall v :: Lost(s, MovedMap(s, mem), v) == !Survives(s, mem, v)
  {
  }

  lemma {:induction false} AllListsEmpty(v: View)
    requires Lists(v) && v.scanned == |v.copies| && v.tenureStack == [] && v.ephemeronList == [] && v.weakList == []
    requires v.unread == []
    requires forall x :: x in v.color ==> v.color[x] != Scanning
    ensures AllBlack(v)
  {
    assert v.copies[v.scanned..] == [];
  }

  /** A finished ordinary object reads as the original with its references followed. */
  lemma BlackSlot(s: Start, mem: Memory, phase: Phase, c0: Cell, v0: Value, v: Value)
    requires |s.roots| >= 1 && c0.Obj? && SlotOk(s, mem, phase, c0, v0, v) && !FromRef(s, v)
    ensures Survives(s, mem, v0) && !MayMourn(s, mem, phase, c0, v0) ==> v == Image(s, mem, v0)
    ensures !Survives(s, mem, v0) ==> v == Nil(s) && MayMourn(s, mem, phase, c0, v0)
    ensures c0.cid == WEAK_ARRAY_CID && Survives(s, mem, v0) ==> v == Image(s, mem, v0)
  {
  }

  lemma FinishedObject(s: Start, v: View, to: Space, L: set<Addr>, x: Addr)
    requires WellFormed(s) && Inv(s, v, to, L) && Finished(s, v) && x in v.color
    ensures x in v.mem && (x in s.mem || (x in v.origin && v.origin[x] in s.mem)) && |s.roots| >= 1 && v.phase.Mourning?
    ensures var c0, c := Orig(s, v.origin, x), v.mem[x];
      && c0.Obj? && BodyOk(s, v.mem, v.phase, c0, c) && NoFromRefs(s, c.slots) && MournedOne(s, v.mem, c0, c)
      && (c0.cid == EPHEMERON_CID && v.phase.skipped && c0.remembered ==> c.slots == [Nil(s), Nil(s), Nil(s)])
  {
    hide RoomOk, RootsOk, RemOk, Lists, QueuedIntact, Graph;
    TrackedObj(s, v.mem, v.phase, v.origin, x);
    var c0 := Orig(s, v.origin, x);
    if v.phase.skipped && x !in s.mem { CopyMoved(s, v, x); }
    assert c0.cid == EPHEMERON_CID && v.phase.skipped ==> c0 == s.mem[x];
    assert c0.cid == EPHEMERON_CID && v.phase.skipped && c0.remembered ==> x in s.remembered && Cleared(s, v, x);
  }

  lemma ObjectOk(s: Start, v: View, to: Space, L: set<Addr>, x: Addr, forgotten: bool)
    requires WellFormed(s) && Inv(s, v, to, L) && Finished(s, v) && x in v.color
    requires x in s.mem || (x in v.origin && v.origin[x] in s.mem)
    requires Orig(s, v.origin, x).Obj? && forgotten == (v.phase.skipped && Orig(s, v.origin, x).remembered)
    ensures x in v.mem
    ensures ObjectPreserved(s, MovedMap(s, v.mem), forgotten, Orig(s, v.origin, x), v.mem[x])
  {
    hide Inv, WellFormed, Finished;
    ColorsInMemory(s, v, to, L);
    FinishedObject(s, v, to, L, x);
    FollowIsImage(s, v.mem);
    var c0, c := Orig(s, v.origin, x), v.mem[x];
    forall i | 0 <= i < |c.slots|
      ensures c0.cid == WEAK_ARRAY_CID ==> c.slots[i] == WeakImage(s, v.mem, c0.slots[i])
      ensures !MayMourn(s, v.mem, v.phase, c0, c0.slots[i]) ==>
        Survives(s, v.mem, c0.slots[i]) && c.slots[i] == Image(s, v.mem, c0.slots[i])
    {
      BlackSlot(s, v.mem, v.phase, c0, c0.slots[i], c.slots[i]);
    }
  }

  // ---- who survived ----

  lemma AtLeastLive(s: Start, v: View, to: Space, L: set<Addr>)
    requires WellFormed(s) && Inv(s, v, to, L) && Finished(s, v) && !v.phase.skipped
    ensures Closed(s, MovedMap(s, v.mem).Keys)
  {
    hide Inv, Finished;
    ColorsInMemory(s, v, to, L);
    FollowIsImage(s, v.mem);
    var M := MovedMap(s, v.mem).Keys;
    assert forall val :: Within(s, val, M) <==> Survives(s, v.mem, val);
    FinishedRoots(s, v, to, L);
    assert AllWithin(s, s.roots, M);
    forall a | Visited(s, a, M)
      ensures IsStrong(s.mem[a].cid) ==> AllWithin(s, s.mem[a].slots, M) && Within(s, s.classTable[s.mem[a].cid], M)
      ensures s.mem[a].cid == EPHEMERON_CID && KeyLives(s, s.mem[a], M) ==> AllWithin(s, s.mem[a].slots, M)
    {
      VisitedSurvives(s, v, to, L, a);
    }
  }

  lemma FinishedRoots(s: Start, v: View, to: Space, L: set<Addr>)
    requires Inv(s, v, to, L) && Finished(s, v)
    ensures |v.roots| == |s.roots| >= 1
    ensures forall i :: 0 <= i < |s.roots| ==>
      Survives(s, v.mem, s.roots[i]) && v.roots[i] == Image(s, v.mem, s.roots[i])
  {
    hide RoomOk, Colors, RemOk, Mourned, Graph;
  }

  /** Where the object that was at a is now. */
  ghost function Where(s: Start, mem: Memory, a: Addr): Addr
    requires a in mem
  {
    if mem[a].Forwarded? then mem[a].to else a
  }

  lemma WhereIs(s: Start, v: View, to: Space, L: set<Addr>, a: Addr)
    requires WellFormed(s) && Inv(s, v, to, L) && a in s.mem && (IsNew(a) ==> a in MovedMap(s, v.mem))
    ensures a in v.mem && var x := Where(s, v.mem, a);
      && x in v.color && (x in s.mem || (x in v.origin && v.origin[x] in s.mem)) && Orig(s, v.origin, x) == s.mem[a]
      && (x in s.mem <==> !IsNew(a)) && (!IsNew(a) ==> x == a) && s.mem[a].Obj?
      && (IsNew(a) ==> x in v.origin && v.origin[x] == a && x == MovedMap(s, v.mem)[a])
      && (IsNew(a) ==> (IsNew(x) <==> a >= s.survivorEnd))
  {
    hide RoomOk, RemOk, Mourned, RootsOk, BlackDone, QueuedIntact, Lists;
    if IsNew(a) {
      assert FromOk(s, v.mem, v.origin, a) && CopyOk(s, v.mem, v.phase, v.origin, v.mem[a].to);
    } else {
      assert BodyOk(s, v.mem, v.phase, s.mem[a], v.mem[a]);
    }
  }

  lemma FinishedClass(s: Start, v: View, to: Space, L: set<Addr>, x: Addr)
    requires WellFormed(s) && Inv(s, v, to, L) && Finished(s, v) && x in v.color
    ensures x in v.mem && v.mem[x].Obj? && v.mem[x].cid < |s.classTable|
    ensures IsStrong(v.mem[x].cid) ==> Survives(s, v.mem, s.classTable[v.mem[x].cid])
  {
    hide RoomOk, RemOk, Mourned, RootsOk, Lists, QueuedIntact, Graph;
    ColorsInMemory(s, v, to, L);
  }

  lemma VisitedSurvives(s: Start, v: View, to: Space, L: set<Addr>, a: Addr)
    requires WellFormed(s) && Inv(s, v, to, L) && Finished(s, v) && !v.phase.skipped
    requires Visited(s, a, MovedMap(s, v.mem).Keys)
    ensures IsStrong(s.mem[a].cid) ==>
      && (forall i :: 0 <= i < |s.mem[a].slots| ==> Survives(s, v.mem, s.mem[a].slots[i]))
      && Survives(s, v.mem, s.classTable[s.mem[a].cid])
    ensures s.mem[a].cid == EPHEMERON_CID && Survives(s, v.mem, s.mem[a].slots[0]) ==>
      forall i :: 0 <= i < |s.mem[a].slots| ==> Survives(s, v.mem, s.mem[a].slots[i])
  {
    hide Inv;
    WhereIs(s, v, to, L, a);
    var x := Where(s, v.mem, a);
    ColorsInMemory(s, v, to, L);
    FollowIsImage(s, v.mem);
    FinishedClass(s, v, to, L, x);
    ObjectOk(s, v, to, L, x, false);
  }

  lemma OnlyLive(s: Start, v: View, to: Space, L: set<Addr>)
    requires Inv(s, v, to, L)
    ensures MovedMap(s, v.mem).Keys <= L
  {
    hide RoomOk, RemOk, Mourned, RootsOk, Colors, Graph;
  }

  // ---- the state afterwards ----

  /** What the class table holds once its dead entries have been freed. */
  ghost predicate ClassTableAfter(s: Start, mem: Memory, table: seq<Value>)
  {
    && |table| == |s.classTable|
    && (forall i :: 0 <= i < |table| && (i < FIRST_LEGAL_CID || Survives(s, mem, s.classTable[i])) ==>
         table[i] == Image(s, mem, s.classTable[i]))
    && (forall i :: FIRST_LEGAL_CID <= i < |table| && !Survives(s, mem, s.classTable[i]) ==> table[i].Smi?)
  }

  lemma OriginOf(s: Start, v: View, to: Space, L: set<Addr>, x: Addr)
    requires WellFormed(s) && Inv(s, v, to, L) && x in Survivors(s, v.mem)
    ensures x in v.color && (x in s.mem || (x in v.origin && v.origin[x] in s.mem)) && (x in s.mem ==> !IsNew(x))
    ensures x !in s.mem ==> v.origin[x] in MovedMap(s, v.mem) && MovedMap(s, v.mem)[v.origin[x]] == x
  {
    hide RoomOk, RemOk, Mourned, RootsOk, BlackDone, QueuedIntact, Lists;
    if x !in s.mem { assert CopyOk(s, v.mem, v.phase, v.origin, x); }
  }

  lemma NewNotRemembered(s: Start, a: Addr)
    requires WellFormed(s) && a in s.mem
    ensures s.mem[a].Obj? && (s.mem[a].remembered <==> a in s.remembered) && (IsNew(a) ==> !s.mem[a].remembered)
  {
  }

  lemma ObjectsPreserved(s: Start, v: View, to: Space, L: set<Addr>, a: Addr)
    requires WellFormed(s) && Inv(s, v, to, L) && Finished(s, v) && a in s.mem && (IsNew(a) ==> a in MovedMap(s, v.mem))
    ensures a in v.mem && Where(s, v.mem, a) in Survivors(s, v.mem)
    ensures var forgotten, where := !IsNew(a) && Forgotten(s, a), Where(s, v.mem, a);
      ObjectPreserved(s, MovedMap(s, v.mem), forgotten, s.mem[a], Survivors(s, v.mem)[where])
    ensures IsNew(a) ==> Where(s, v.mem, a) == MovedMap(s, v.mem)[a] && Where(s, v.mem, a) !in s.mem
    ensures IsNew(a) ==> (IsNew(MovedMap(s, v.mem)[a]) <==> a >= s.survivorEnd)
    ensures !IsNew(a) ==> Where(s, v.mem, a) == a
  {
    hide Inv, WellFormed, RootsTouchNew, ObjectPreserved;
    NewNotRemembered(s, a);
    WhereIs(s, v, to, L, a);
    ColorsInMemory(s, v, to, L);
    ObjectOk(s, v, to, L, Where(s, v.mem, a), !IsNew(a) && Forgotten(s, a));
  }

  lemma ObjectsKeptAfter(s: Start, v: View, to: Space, L: set<Addr>, table: seq<Value>)
    requires WellFormed(s) && Inv(s, v, to, L) && Finished(s, v)
    ensures ObjectsKept(s, After(s, v, table), MovedMap(s, v.mem))
  {
    hide Inv, Finished, WellFormed, ObjectPreserved, RootsTouchNew;
    var moved, mem' := MovedMap(s, v.mem), Survivors(s, v.mem);
    forall a | a in s.mem && (IsNew(a) ==> a in moved)
      ensures IsNew(a) ==> moved[a] in mem' && moved[a] !in s.mem && (IsNew(moved[a]) <==> a >= s.survivorEnd)
      ensures IsNew(a) ==> ObjectPreserved(s, moved, false, s.mem[a], mem'[moved[a]])
      ensures !IsNew(a) ==> a in mem' && ObjectPreserved(s, moved, Forgotten(s, a), s.mem[a], mem'[a])
    {
      ObjectsPreserved(s, v, to, L, a);
    }
  }

  /** A scavenge preserves what it should. */
  lemma PreservedAfter(s: Start, v: View, to: Space, L: set<Addr>, table: seq<Value>)
    requires WellFormed(s) && Inv(s, v, to, L) && Finished(s, v) && ClassTableAfter(s, v.mem, table)
    ensures Preserved(s, After(s, v, table), MovedMap(s, v.mem))
  {
    hide Inv, Finished, WellFormed, ObjectPreserved, RootsTouchNew, ClassTableAfter, ClassesPreserved, Forgotten;
    var moved, mem' := MovedMap(s, v.mem), Survivors(s, v.mem);
    ObjectsKeptAfter(s, v, to, L, table);
    forall a, b | a in moved && b in moved && moved[a] == moved[b] ensures a == b {
      WhereIs(s, v, to, L, a);
      WhereIs(s, v, to, L, b);
    }
    forall x | x in mem' ensures (x in s.mem && !IsNew(x)) || exists a :: a in moved && moved[a] == x {
      OriginOf(s, v, to, L, x);
      if x !in s.mem { assert moved[v.origin[x]] == x; }
    }
    ColorsInMemory(s, v, to, L);
    FollowIsImage(s, v.mem);
    FinishedRoots(s, v, to, L);
    LowClasses(s, v.mem, table, After(s, v, table));
  }

  lemma LowClasses(s: Start, mem: Memory, table: seq<Value>, s': Start)
    requires WellFormed(s) && ClassTableAfter(s, mem, table) && InDomain(s, mem) && s'.classTable == table
    ensures ClassesPreserved(s, s', MovedMap(s, mem))
  {
    FollowIsImage(s, mem);
  }

  lemma FollowedLives(s: Start, s': Start, moved: map<Addr, Addr>, v: Value)
    requires WellFormed(s) && Preserved(s, s', moved) && !Lost(s, moved, v) && (v.Ref? ==> v.addr in s.mem)
    ensures Follow(s, moved, v).Ref? ==> Follow(s, moved, v).addr in s'.mem
  {
  }

  lemma SoundObject(s: Start, s': Start, moved: map<Addr, Addr>, a: Addr, forgotten: bool, c: Cell)
    requires WellFormed(s) && Preserved(s, s', moved) && a in s.mem && ObjectPreserved(s, moved, forgotten, s.mem[a], c)
    ensures c.Obj? && c.size >= 2 && c.size % 2 == 0 && FIRST_LEGAL_CID <= c.cid < |s'.classTable|
    ensures c.cid == EPHEMERON_CID ==> |c.slots| == 3
    ensures forall i :: 0 <= i < |c.slots| && c.slots[i].Ref? ==> c.slots[i].addr in s'.mem
  {
    forall i | 0 <= i < |c.slots| && c.slots[i].Ref? ensures c.slots[i].addr in s'.mem {
      var v0 := s.mem[a].slots[i];
      if !Lost(s, moved, v0) { FollowedLives(s, s', moved, v0); }
      assert Nil(s).addr in s'.mem;
    }
  }

  lemma SoundAfter(s: Start, s': Start, moved: map<Addr, Addr>)
    requires WellFormed(s) && Preserved(s, s', moved)
    ensures Sound(s')
  {
    hide WellFormed, Preserved;
    forall x | x in s'.mem
      ensures s'.mem[x].Obj? && s'.mem[x].size >= 2 && s'.mem[x].size % 2 == 0
      ensures FIRST_LEGAL_CID <= s'.mem[x].cid < |s'.classTable|
      ensures s'.mem[x].cid == EPHEMERON_CID ==> |s'.mem[x].slots| == 3
      ensures forall i :: 0 <= i < |s'.mem[x].slots| && s'.mem[x].slots[i].Ref? ==> s'.mem[x].slots[i].addr in s'.mem
    {
      var a, forgotten := Before(s, s', moved, x);
      SoundObject(s, s', moved, a, forgotten, s'.mem[x]);
    }
    SoundTables(s, s', moved);
  }

  /** The object that is at x afterwards. */
  lemma Before(s: Start, s': Start, moved: map<Addr, Addr>, x: Addr) returns (a: Addr, forgotten: bool)
    requires Preserved(s, s', moved) && x in s'.mem
    ensures a in s.mem && ObjectPreserved(s, moved, forgotten, s.mem[a], s'.mem[x])
  {
    if x in s.mem && !IsNew(x) {
      a, forgotten := x, Forgotten(s, x);
    } else {
      a :| a in moved && moved[a] == x;
      forgotten := false;
    }
  }

  lemma SoundTables(s: Start, s': Start, moved: map<Addr, Addr>)
    requires WellFormed(s) && Preserved(s, s', moved)
    ensures forall i :: 0 <= i < |s'.roots| && s'.roots[i].Ref? ==> s'.roots[i].addr in s'.mem
    ensures forall i :: 0 <= i < |s'.classTable| && s'.classTable[i].Ref? ==> s'.classTable[i].addr in s'.mem
    ensures forall i :: 0 <= i < FIRST_LEGAL_CID && i < |s'.classTable| ==> s'.classTable[i].Smi?
    ensures |s'.roots| >= 1 && s'.roots[0] == Nil(s) && s'.roots[0].Ref? && !IsNew(s'.roots[0].addr)
  {
    forall i | 0 <= i < |s'.roots| && s'.roots[i].Ref? ensures s'.roots[i].addr in s'.mem {
      FollowedLives(s, s', moved, s.roots[i]);
    }
    forall i | 0 <= i < |s'.classTable| && s'.classTable[i].Ref? ensures s'.classTable[i].addr in s'.mem {
      if !Lost(s, moved, s.classTable[i]) { FollowedLives(s, s', moved, s.classTable[i]); }
    }
  }

  /** An object is remembered for a reference to a new one, or for a class that was new before. */
  ghost predicate RememberedOnly(s: Start, s': Start)
  {
    forall a :: a in s'.remembered ==>
      && a in s'.mem && s'.mem[a].Obj? && s'.mem[a].cid < |s'.classTable| && s'.mem[a].cid < |s.classTable|
      && (HasNewTarget(s'.mem[a], s'.classTable) || ClassWasNew(s, s'.mem[a]))
  }

  lemma RememberedAfter(s: Start, v: View, to: Space, L: set<Addr>, table: seq<Value>)
    requires WellFormed(s) && Inv(s, v, to, L) && Finished(s, v) && ClassTableAfter(s, v.mem, table)
    ensures RememberedOk(Survivors(s, v.mem), v.rem)
    ensures RememberedComplete(Survivors(s, v.mem), v.rem, table)
    ensures RememberedOnly(s, After(s, v, table))
  {
    hide Inv, WellFormed, Finished;
    var mem' := Survivors(s, v.mem);
    ColorsInMemory(s, v, to, L);
    InvRem(s, v, to, L);
    assert AllBlack(v) by { FinishedBlack(s, v); }
    assert RememberedOk(mem', v.rem);
    forall a | a in mem' && !IsNew(a) && mem'[a].Obj? && mem'[a].cid < |table| && a !in v.rem
      ensures !HasNewTarget(mem'[a], table)
    {
      OriginOf(s, v, to, L, a);
      FinishedClass(s, v, to, L, a);
      assert !NewTargetNow(s, v.mem, v.mem[a]);
    }
    forall a | a in v.rem
      ensures a in mem' && mem'[a].Obj? && mem'[a].cid < |table| && mem'[a].cid < |s.classTable|
      ensures HasNewTarget(mem'[a], table) || ClassWasNew(s, mem'[a])
    {
      OriginOf(s, v, to, L, a);
      FinishedClass(s, v, to, L, a);
      assert NewTargetNow(s, v.mem, v.mem[a]) || ClassWasNew(s, v.mem[a]);
    }
  }

  lemma FinishedBlack(s: Start, v: View)
    requires Finished(s, v)
    ensures AllBlack(v)
  {
  }

  lemma InvRem(s: Start, v: View, to: Space, L: set<Addr>)
    requires Inv(s, v, to, L)
    ensures RemOk(s, v) && forall y :: y in v.color <==> Tracked(s, v.mem, y)
  {
    hide RoomOk, RootsOk, Mourned, Graph, BlackDone, QueuedIntact, Lists;
  }

  // ---- the next layout of new space ----

  /** New space is filled by these objects, one behind the other. */
  ghost predicate Packed(mem: Memory, layout: seq<Addr>, start: nat, end: nat)
  {
    && (if layout == [] then start == end else layout[0] == start)
    && (forall a :: a in layout ==> a in mem && mem[a].Obj?)
    && forall i :: 0 <= i < |layout| ==>
         layout[i] + mem[layout[i]].size == if i + 1 < |layout| then layout[i + 1] else end
  }

  lemma CopiesPacked(s: Start, v: View, to: Space, mem: Memory)
    requires CopiesTile(s, v, to)
    requires forall i :: 0 <= i < |v.copies| ==> v.copies[i] in mem && mem[v.copies[i]] == v.mem[v.copies[i]]
    ensures Packed(mem, v.copies, to.Start(), v.top)
  {
    forall i | 0 <= i < |v.copies| ensures v.copies[i] + mem[v.copies[i]].size == CopyEnd(v, i) {
      assert v.copies[i] + v.mem[v.copies[i]].size == CopyEnd(v, i);
    }
  }

  lemma {:induction false} CopiesAscend(s: Start, v: View, to: Space, i: nat, j: nat)
    requires CopiesTile(s, v, to) && i < j < |v.copies|
    requires forall k :: 0 <= k < |v.copies| ==>
      v.copies[k] in v.mem && v.mem[v.copies[k]].Obj? && v.mem[v.copies[k]].size >= 2
    ensures v.copies[i] < v.copies[j]
    decreases j - i
  {
    assert v.copies[i] + v.mem[v.copies[i]].size == CopyEnd(v, i);
    if i + 1 < j { CopiesAscend(s, v, to, i + 1, j); }
  }

  lemma {:induction false} CopiesFill(s: Start, v: View, to: Space, mem: Memory, i: nat)
    requires CopiesTile(s, v, to) && i <= |v.copies|
    requires forall k :: 0 <= k < |v.copies| ==>
      v.copies[k] in mem && v.copies[k] in v.mem && mem[v.copies[k]] == v.mem[v.copies[k]]
    ensures Unforwarded(v.copies[i..], mem) == v.top - if i < |v.copies| then v.copies[i] else v.top
    decreases |v.copies| - i
  {
    if i < |v.copies| {
      assert v.copies[i] + v.mem[v.copies[i]].size == CopyEnd(v, i);
      CopiesFill(s, v, to, mem, i + 1);
      assert v.copies[i..][0] == v.copies[i] && v.copies[i..][1..] == v.copies[i + 1..];
    }
  }

  lemma CopiesCells(s: Start, v: View, to: Space, table: seq<Value>)
    requires CopiesTile(s, v, to) && Sound(After(s, v, table))
    ensures forall k :: 0 <= k < |v.copies| ==>
      v.copies[k] in v.mem && v.mem[v.copies[k]].Obj? && v.mem[v.copies[k]].size >= 2
    ensures forall k :: 0 <= k < |v.copies| ==>
      v.copies[k] in Survivors(s, v.mem) && Survivors(s, v.mem)[v.copies[k]] == v.mem[v.copies[k]]
  {
    var s' := After(s, v, table);
    forall k | 0 <= k < |v.copies|
      ensures v.copies[k] in v.mem && v.mem[v.copies[k]].Obj? && v.mem[v.copies[k]].size >= 2
      ensures v.copies[k] in s'.mem && s'.mem[v.copies[k]] == v.mem[v.copies[k]]
    {
      assert v.copies[k] in s'.mem;
    }
  }

  lemma CopiesLayout(s: Start, v: View, to: Space, table: seq<Value>)
    requires CopiesTile(s, v, to) && Sound(After(s, v, table))
    ensures Layout(After(s, v, table))
  {
    CopiesCells(s, v, to, table);
    hide Sound;
    forall i, j | 0 <= i < j < |v.copies| ensures v.copies[i] != v.copies[j] {
      CopiesAscend(s, v, to, i, j);
    }
  }

  /** New space is again filled, without gaps, by its objects. */
  lemma LayoutAfter(s: Start, v: View, to: Space, L: set<Addr>, table: seq<Value>)
    requires Inv(s, v, to, L) && Sound(After(s, v, table)) && v.tenureStack == []
    ensures Layout(After(s, v, table)) && Unforwarded(v.copies, Survivors(s, v.mem)) == v.top - to.Start()
    ensures v.top < to.Limit() == v.end && Packed(Survivors(s, v.mem), v.copies, to.Start(), v.top)
    ensures forall a :: a in Survivors(s, v.mem) && IsNew(a) ==> to.Start() <= a < v.top
  {
    hide RootsOk, Mourned, Graph, Colors, RemOk, Sound;
    CopiesLayout(s, v, to, table);
    CopiesCells(s, v, to, table);
    CopiesFill(s, v, to, Survivors(s, v.mem), 0);
    CopiesPacked(s, v, to, Survivors(s, v.mem));
    assert v.copies[0..] == v.copies;
    UnforwardedNonNegative(s.layout, v.mem);
  }

  /** The state between tracing and mourning. */
  ghost predicate Traced(s: Start, v: View, skipped: bool)
  {
    && v.phase.Tracing? && v.unread == [] && v.scanned == |v.copies| && v.tenureStack == [] && NoFromRefs(s, v.roots)
    && NoneScanning(v)
    && skipped == !RootsTouchNew(s)
    && if skipped then !SomeMoved(s, v.mem) && EphemeronsListed(s, v, |s.remembered|)
       else DeadKeys(s, v, v.ephemeronList)
  }

  lemma TracedEnough(s: Start, v0: View, v1: View, v2: View, to: Space, L: set<Addr>, skipped: bool)
    requires WellFormed(s) && v0 == FirstView(s, to) && RootsStep(s, v0, v1) && Progress(s, v1, v2) && Inv(s, v1, to, L)
    requires NoFromRefs(s, v1.roots) && EphemeronsListed(s, v1, |s.remembered|)
    requires if RootsTouchNew(s) then SomeMoved(s, v1.mem) else Still(v0, v1)
    requires skipped <==> v1.top == to.Start() && v1.tenureStack == []
    requires if skipped then v2 == v1 else DeadKeys(s, v2, v2.ephemeronList)
    requires v2.phase.Tracing? && v2.unread == [] && v2.scanned == |v2.copies| && v2.tenureStack == []
    ensures Traced(s, v2, skipped)
  {
    hide Inv, WellFormed, RootsTouchNew, EphemeronsListed, DeadKeys, SomeMoved;
    MovedIsSpent(s, v1, to, L);
  }

  lemma MourningFirst(s: Start, v: View, skipped: bool)
    requires Traced(s, v, skipped)
    ensures Mournable(s, v.(phase := Mourning(skipped)), v.ephemeronList)
  {
    if !skipped {
      forall x | x in v.ephemeronList ensures KeyDead(s, v.(phase := Mourning(skipped)), x) { assert KeyDead(s, v, x); }
    }
  }

  lemma MournedAll(s: Start, v0: View, v1: View, v2: View, v3: View, to: Space, L: set<Addr>, skipped: bool)
    requires Inv(s, v0, to, L) && Traced(s, v0, skipped) && v1 == v0.(phase := Mourning(skipped)) && Inv(s, v1, to, L)
    requires Mourns(s, v1, v2) && Mourns(s, v2, v3) && AllCleared(s, v2, v1.ephemeronList) && Inv(s, v3, to, L)
    requires v3.ephemeronList == [] && v3.weakList == []
    ensures Finished(s, v3)
  {
    hide Inv, RootsTouchNew, EphemeronsListed, DeadKeys, SomeMoved;
    MournsTransitive(s, v1, v2, v3, to, L);
    StillNoneMoved(s, v1, v3, to, L);
    InvLists(s, v3, to, L);
    AllListsEmpty(v3);
    if skipped {
      forall a | a in s.remembered && a in s.mem && s.mem[a].Obj? && s.mem[a].cid == EPHEMERON_CID
        ensures Cleared(s, v3, a)
      {
        EphemeronsInList(s, v0, to, L, a);
        assert Cleared(s, v2, a);
      }
    }
  }

  // ---- the class table ----

  /** The numbers of ids, linked through the class table from head. */
  ghost predicate FreeChain(table: seq<Value>, head: nat, ids: seq<nat>)
    decreases |ids|
  {
    if ids == [] then head == 0
    else
      && head == ids[0] && FIRST_LEGAL_CID <= head < |table| && table[head].Smi? && table[head].n >= 0
      && FreeChain(table, table[head].n, ids[1..])
  }

  lemma {:induction false} FreeChainFrame(table: seq<Value>, head: nat, ids: seq<nat>, i: nat, val: Value)
    requires FreeChain(table, head, ids) && i < |table| && !table[i].Smi?
    ensures FreeChain(table[i := val], head, ids) && i !in ids
    decreases |ids|
  {
    if ids != [] { FreeChainFrame(table, table[head].n, ids[1..], i, val); }
  }

  lemma FreeChainMore(table: seq<Value>, head: nat, ids: seq<nat>, i: nat)
    requires FreeChain(table, head, ids) && FIRST_LEGAL_CID <= i < |table| && table[i] == Smi(head)
    ensures FreeChain(table, i, [i] + ids)
  {
    assert ([i] + ids)[1..] == ids;
  }

  /** The first n entries have been dealt with. */
  ghost predicate TablePartly(s: Start, mem: Memory, table: seq<Value>, n: nat)
  {
    && |table| == |s.classTable| && (forall j :: n <= j < |table| ==> table[j] == s.classTable[j])
    && (forall j :: 0 <= j < n && j < |table| && (j < FIRST_LEGAL_CID || Survives(s, mem, s.classTable[j])) ==>
         table[j] == Image(s, mem, s.classTable[j]))
    && (forall j :: FIRST_LEGAL_CID <= j < n && j < |table| && !Survives(s, mem, s.classTable[j]) ==> table[j].Smi?)
  }

  lemma TableStarts(s: Start, mem: Memory)
    requires WellFormed(s)
    ensures TablePartly(s, mem, s.classTable, FIRST_LEGAL_CID) && FreedIds(s, mem, [], FIRST_LEGAL_CID)
  {
  }

  lemma TableStep(s: Start, mem: Memory, table: seq<Value>, i: nat, val: Value, freed: seq<nat>)
    requires FIRST_LEGAL_CID <= i < |s.classTable| && TablePartly(s, mem, table, i) && FreedIds(s, mem, freed, i)
    requires if Survives(s, mem, s.classTable[i]) then val == Image(s, mem, s.classTable[i]) else val.Smi?
    ensures TablePartly(s, mem, table[i := val], i + 1)
    ensures FreedIds(s, mem, if Survives(s, mem, s.classTable[i]) then freed else [i] + freed, i + 1)
  {
  }

  ghost predicate FreedIds(s: Start, mem: Memory, freed: seq<nat>, n: nat)
  {
    forall i :: i in freed <==> FIRST_LEGAL_CID <= i < n && i < |s.classTable| && !Survives(s, mem, s.classTable[i])
  }

  lemma ClassTableSound(s: Start)
    requires WellFormed(s)
    ensures forall i :: 0 <= i < |s.classTable| && s.classTable[i].Ref? ==> s.classTable[i].addr in s.mem
    ensures forall i :: 0 <= i < FIRST_LEGAL_CID && i < |s.classTable| ==> s.classTable[i].Smi?
  {
  }

  lemma TracedPhase(s: Start, v: View, skipped: bool)
    requires Traced(s, v, skipped)
    ensures v.phase.Tracing? && v.tenureStack == []
  {
  }

  lemma MournsPhase(s: Start, v: View, v': View)
    requires Mourns(s, v, v')
    ensures v'.phase == v.phase && v'.tenureStack == v.tenureStack
  {
  }

  lemma RootsScanned(s: Start, v0: View, v1: View)
    requires RootsStep(s, v0, v1)
    ensures v1.scanned == v0.scanned && v1.pushes - |v1.tenureStack| == v0.pushes - |v0.tenureStack|
  {
  }

  lemma AllFreed(s: Start, mem: Memory, freed: seq<nat>, n: nat)
    requires n >= |s.classTable| && FreedIds(s, mem, freed, n)
    ensures FreedIds(s, mem, freed, |s.classTable|)
  {
  }

  /** Who survives: exactly the live objects, unless the collector had nothing to start from. */
  lemma SurvivorsExact(s: Start, v: View, to: Space, L: set<Addr>)
    requires WellFormed(s) && Inv(s, v, to, L) && Finished(s, v) && L == Live(s)
    ensures if RootsTouchNew(s) then MovedMap(s, v.mem).Keys == Live(s) else MovedMap(s, v.mem) == map[]
  {
    hide Inv, WellFormed, RootsTouchNew;
    if RootsTouchNew(s) {
      AtLeastLive(s, v, to, L);
      LiveIsLeastClosed(s);
      OnlyLive(s, v, to, L);
    }
  }

  lemma WellFormedAfter(s: Start, v: View, to: Space, L: set<Addr>, table: seq<Value>)
    requires WellFormed(s) && Inv(s, v, to, L) && Finished(s, v) && ClassTableAfter(s, v.mem, table)
    requires v.tenureStack == []
    ensures Preserved(s, After(s, v, table), MovedMap(s, v.mem)) && WellFormed(After(s, v, table))
    ensures Unforwarded(v.copies, Survivors(s, v.mem)) == v.top - to.Start() && v.top < to.Limit() == v.end
    ensures forall a :: a in Survivors(s, v.mem) && IsNew(a) ==> to.Start() <= a < v.top
    ensures Packed(Survivors(s, v.mem), v.copies, to.Start(), v.top) && RememberedOnly(s, After(s, v, table))
  {
    hide Inv, Finished, Preserved, ClassTableAfter, Sound, RememberedOk, RememberedComplete, Layout, Packed;
    hide RememberedOnly;
    PreservedAfter(s, v, to, L, table);
    SoundAfter(s, After(s, v, table), MovedMap(s, v.mem));
    RememberedAfter(s, v, to, L, table);
    LayoutAfter(s, v, to, L, table);
  }

  // ---- ephemerons ----

  ghost predicate AllNil(s: Start, c: Cell)
  {
    |s.roots| >= 1 && c.Obj? && c.slots == [Nil(s), Nil(s), Nil(s)]
  }

  /** Every remembered ephemeron whose key is alive still holds what it held. */
  ghost predicate EphemeronsKept(s: Start, s': Start, moved: map<Addr, Addr>)
    requires WellFormed(s)
  {
    forall a :: a in s.remembered && s.mem[a].cid == EPHEMERON_CID && KeyLives(s, s.mem[a], Live(s)) ==>
      a in s'.mem && SameBody(s.mem[a], s'.mem[a]) && SlotsFollowed(s, moved, s.mem[a], s'.mem[a])
  }

  /** With nothing to start from, a remembered ephemeron with a live key must be empty already to come out unchanged. */
  ghost predicate EphemeronsEmpty(s: Start)
    requires WellFormed(s)
  {
    forall a :: a in s.remembered && s.mem[a].cid == EPHEMERON_CID && !FromRef(s, s.mem[a].slots[0]) ==>
      AllNil(s, s.mem[a])
  }

  /** If nothing is touched and the ephemerons with keys outside new space are empty, no new object is alive. */
  lemma NothingLive(s: Start)
    requires WellFormed(s) && !RootsTouchNew(s) && EphemeronsEmpty(s)
    ensures Live(s) == {}
  {
    LiveIsLeastClosed(s);
    forall a | Visited(s, a, {}) && IsStrong(s.mem[a].cid)
      ensures AllWithin(s, s.mem[a].slots, {}) && Within(s, s.classTable[s.mem[a].cid], {})
    {
      var i :| 0 <= i < |s.remembered| && s.remembered[i] == a;
      assert !TouchesNew(s, s.mem[s.remembered[i]]);
    }
    assert Closed(s, {});
  }

  /**
   * The loop that processes ephemerons runs only if tracing the roots moved something. The scavenger keeps the
   * ephemerons whose keys are alive if and only if that is so, or there was nothing in them to lose.
   */
  lemma EphemeronsKeptExactly(s: Start, s': Start, moved: map<Addr, Addr>)
    requires WellFormed(s) && Preserved(s, s', moved)
    requires if RootsTouchNew(s) then moved.Keys == Live(s) else moved == map[]
    ensures EphemeronsKept(s, s', moved) <==> RootsTouchNew(s) || EphemeronsEmpty(s)
  {
    hide RootsTouchNew, Live, WellFormed, Preserved, EphemeronsKept, EphemeronsEmpty;
    if RootsTouchNew(s) {
      KeptWhenTouched(s, s', moved);
    } else if EphemeronsEmpty(s) {
      KeptWhenEmpty(s, s', moved);
    } else {
      LostOtherwise(s, s', moved);
    }
  }

  lemma KeptWhenTouched(s: Start, s': Start, moved: map<Addr, Addr>)
    requires WellFormed(s) && Preserved(s, s', moved) && RootsTouchNew(s) && moved.Keys == Live(s)
    ensures EphemeronsKept(s, s', moved)
  {
    hide RootsTouchNew, Live;
  }

  lemma KeptWhenEmpty(s: Start, s': Start, moved: map<Addr, Addr>)
    requires WellFormed(s) && Preserved(s, s', moved) && !RootsTouchNew(s) && moved == map[] && EphemeronsEmpty(s)
    ensures EphemeronsKept(s, s', moved)
  {
    hide RootsTouchNew, Live;
    NothingLive(s);
  }

  lemma LostOtherwise(s: Start, s': Start, moved: map<Addr, Addr>)
    requires WellFormed(s) && Preserved(s, s', moved) && !RootsTouchNew(s) && moved == map[] && !EphemeronsEmpty(s)
    ensures !EphemeronsKept(s, s', moved)
  {
    hide RootsTouchNew, Live;
    var a :| a in s.remembered && s.mem[a].cid == EPHEMERON_CID && !FromRef(s, s.mem[a].slots[0])
      && !AllNil(s, s.mem[a]);
    assert KeyLives(s, s.mem[a], Live(s));
    assert ObjectPreserved(s, moved, true, s.mem[a], s'.mem[a]);
  }

  /**
   * An old ephemeron with an old key and a new value, and nothing else that refers to new space. The classes with fixed
   * ids and the class of all other objects are old, from address 12 on.
   */
  ghost function LostEphemeron(): Start
  {
    Start(
      map a | 0 <= a <= 34 && (a == 2 || a == 4 || a == 7 || (12 <= a && a % 2 == 0)) ::
        if a == 4 then Obj(EPHEMERON_CID, 4, true, [], [Ref(2), Ref(7), Ref(2)]) else Obj(14, 2, false, [], []),
      [Ref(2)],
      seq(15, i requires 0 <= i < 15 => if i < FIRST_LEGAL_CID then Smi(0) else Ref(6 + 2 * i)),
      [4], [7], 0)
  }

  lemma LostEphemeronSound()
    ensures Sound(LostEphemeron()) && Layout(LostEphemeron())
  {
    var s := LostEphemeron();
    LostEphemeronCells();
    hide LostEphemeron;
    assert forall a, i :: a in s.mem && 0 <= i < |s.mem[a].slots| ==> s.mem[a].slots[i].addr in s.mem;
  }

  lemma LostEphemeronCells()
    ensures var s := LostEphemeron();
      && (forall a :: a in s.mem <==> a == 2 || a == 4 || a == 7 || (12 <= a <= 34 && a % 2 == 0))
      && (forall a :: a in s.mem && a != 4 ==> s.mem[a] == Obj(14, 2, false, [], []))
      && s.mem[4] == Obj(EPHEMERON_CID, 4, true, [], [Ref(2), Ref(7), Ref(2)]) && s.roots == [Ref(2)]
      && s.remembered == [4] && s.layout == [7] && |s.classTable| == 15
      && forall i :: 0 <= i < 15 ==> s.classTable[i] == if i < FIRST_LEGAL_CID then Smi(0) else Ref(6 + 2 * i)
  {
  }

  lemma LostEphemeronRemembered()
    ensures var s := LostEphemeron();
      RememberedOk(s.mem, s.remembered) && RememberedComplete(s.mem, s.remembered, s.classTable)
  {
    var s := LostEphemeron();
    assert forall a :: a in s.mem && a != 4 ==> !HasNewTarget(s.mem[a], s.classTable);
  }

  /** So a scavenge can clear an ephemeron whose key is alive. */
  lemma EphemeronCanBeLost()
    ensures WellFormed(LostEphemeron()) && !RootsTouchNew(LostEphemeron()) && !EphemeronsEmpty(LostEphemeron())
  {
    hide Sound, RememberedOk, RememberedComplete, Layout;
    var s := LostEphemeron();
    LostEphemeronSound();
    LostEphemeronRemembered();
    assert s.mem[4].slots[1] == Ref(7) && 4 in s.remembered;
  }
}
