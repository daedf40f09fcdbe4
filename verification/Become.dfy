/** Exchanging the identity of objects, and of the ids of classes: vm/heap.cc, Heap::BecomeForward. */
module Become {
  import opened HeapModel

  /** An object, the corpse that forwards to the object that took its place, or a free block. */
  datatype Thing =
    | Object(cid: nat, size: nat, hash: int, remembered: bool, data: seq<int>, slots: seq<Value>)
    | Corpse(size: nat, target: Addr)
    | FreeListElement(size: nat)

  type Things = map<Addr, Thing>

  /** The slot in which a class has its id: a small integer, or nil if it has none. */
  const ID_SLOT: nat := 4

  datatype Snapshot = Snapshot(mem: Things, roots: seq<Value>, classTable: seq<Value>)

  ghost function Nil(s: Snapshot): Value
    requires |s.roots| >= 1
  {
    s.roots[0]
  }

  /** What is not an object: nothing may refer to it, but it takes up space until it is swept. */
  ghost function Dead(mem: Things): set<Addr> { set a | a in mem && !mem[a].Object? }

  ghost function Without(mem: Things, gone: set<Addr>): Things { map a | a in mem && a !in gone :: mem[a] }

  /** Only what is not dead has changed. */
  ghost predicate Spared(before: Things, mem: Things, dead: set<Addr>)
  {
    mem.Keys == before.Keys && forall a :: a in dead && a in mem ==> mem[a] == before[a]
  }

  ghost predicate InHeap(mem: Things, vs: seq<Value>) { forall i :: 0 <= i < |vs| && vs[i].Ref? ==> vs[i].addr in mem }

  ghost predicate HasId(mem: Things, a: Addr, id: int)
  {
    a in mem && mem[a].Object? && |mem[a].slots| > ID_SLOT && mem[a].slots[ID_SLOT] == Smi(id)
  }

  /** The class at each index of the table has this index as its id. */
  ghost predicate TableOk(mem: Things, table: seq<Value>)
  {
    forall c :: FIRST_LEGAL_CID <= c < |table| && table[c].Ref? ==> HasId(mem, table[c].addr, c)
  }

  ghost predicate ObjectOk(s: Snapshot, a: Addr)
    requires a in s.mem
  {
    var o := s.mem[a];
    && o.Object? && FIRST_LEGAL_CID <= o.cid < |s.classTable| && s.classTable[o.cid].Ref?
    && forall i :: 0 <= i < |o.slots| && o.slots[i].Ref? ==> o.slots[i].addr in s.mem
  }

  ghost predicate Sound(s: Snapshot)
  {
    && (forall a :: a in s.mem ==> ObjectOk(s, a))
    && (forall i :: 0 <= i < |s.roots| && s.roots[i].Ref? ==> s.roots[i].addr in s.mem)
    && TableOk(s.mem, s.classTable)
    && |s.roots| >= 1 && s.roots[0].Ref?
  }

  // ---- the request ----

  ghost predicate AllRefs(vs: seq<Value>) { forall i :: 0 <= i < |vs| ==> vs[i].Ref? }

  ghost function Addrs(vs: seq<Value>): set<Addr> { set v | v in vs && v.Ref? :: v.addr }

  ghost predicate DistinctValues(vs: seq<Value>) { forall i, j :: 0 <= i < j < |vs| ==> vs[i] != vs[j] }

  /**
   * No small integers, no object that becomes two, none that becomes one that becomes another, and not the arrays
   * themselves.
   */
  ghost predicate CanBecome(olds: seq<Value>, neus: seq<Value>, old_: Addr, neu: Addr)
  {
    && |olds| == |neus| && AllRefs(olds) && AllRefs(neus) && DistinctValues(olds)
    && Addrs(olds) !! Addrs(neus) && old_ !in Addrs(olds) + Addrs(neus) && neu !in Addrs(olds) + Addrs(neus)
  }

  /** The same index by index. */
  lemma OrderlyRequest(olds: seq<Value>, neus: seq<Value>, old_: Addr, neu: Addr)
    ensures CanBecome(olds, neus, old_, neu) <==>
      && |olds| == |neus|
      && (forall i :: 0 <= i < |olds| ==> olds[i].Ref? && olds[i].addr != old_ && olds[i].addr != neu)
      && (forall i :: 0 <= i < |neus| ==> neus[i].Ref? && neus[i].addr != old_ && neus[i].addr != neu)
      && (forall i, j :: 0 <= i < j < |olds| ==> olds[i] != olds[j])
      && (forall i, j :: 0 <= i < |olds| && 0 <= j < |neus| ==> olds[i] != neus[j])
  {
    forall i | 0 <= i < |olds| && olds[i].Ref? ensures olds[i].addr in Addrs(olds) { assert olds[i] in olds; }
    forall i | 0 <= i < |neus| && neus[i].Ref? ensures neus[i].addr in Addrs(neus) { assert neus[i] in neus; }
  }

  /** What each old object becomes. */
  ghost function Forwarding(olds: seq<Value>, neus: seq<Value>): (f: map<Addr, Addr>)
    requires |olds| == |neus| && AllRefs(olds) && AllRefs(neus)
    ensures f.Keys == Addrs(olds) && forall a :: a in f ==> f[a] in Addrs(neus)
  {
    if olds == [] then map[] else
      var n := |olds| - 1;
      assert olds == olds[..n] + [olds[n]] && neus == neus[..n] + [neus[n]];
      Forwarding(olds[..n], neus[..n])[olds[n].addr := neus[n].addr]
  }

  ghost function Follow(f: map<Addr, Addr>, v: Value): Value
  {
    if v.Ref? && v.addr in f then Ref(f[v.addr]) else v
  }

  /** The hash goes over to the new object, from the last pair if there are several. */
  ghost function HashOf(mem: Things, olds: seq<Value>, neus: seq<Value>, a: Addr): int
    requires |olds| == |neus| && a in mem && mem[a].Object?
  {
    if olds == [] then mem[a].hash else
      var n := |olds| - 1;
      if neus[n] == Ref(a) && olds[n].Ref? && olds[n].addr in mem && mem[olds[n].addr].Object?
        then mem[olds[n].addr].hash
      else HashOf(mem, olds[..n], neus[..n], a)
  }

  lemma WithoutLast(olds: seq<Value>, neus: seq<Value>)
    requires |olds| == |neus| > 0 && AllRefs(olds) && AllRefs(neus) && DistinctValues(olds)
    ensures var n := |olds| - 1;
      && AllRefs(olds[..n]) && AllRefs(neus[..n]) && DistinctValues(olds[..n]) && olds[n].Ref? && neus[n].Ref?
      && (forall i :: 0 <= i < n ==> olds[..n][i] == olds[i] && neus[..n][i] == neus[i] && olds[i] != olds[n])
  {
  }

  /** Each old object becomes the new one that stands beside it. */
  lemma {:induction false} ForwardingPairs(olds: seq<Value>, neus: seq<Value>, i: nat)
    requires |olds| == |neus| && AllRefs(olds) && AllRefs(neus) && DistinctValues(olds) && i < |olds|
    ensures olds[i].Ref? && neus[i].Ref? && olds[i].addr in Forwarding(olds, neus)
    ensures Forwarding(olds, neus)[olds[i].addr] == neus[i].addr
    decreases |olds|
  {
    hide AllRefs, DistinctValues, Addrs, Forwarding;
    WithoutLast(olds, neus);
    ForwardingLast(olds, neus);
    var n := |olds| - 1;
    if i < n {
      ForwardingPairs(olds[..n], neus[..n], i);
    }
  }

  lemma ForwardingLast(olds: seq<Value>, neus: seq<Value>)
    requires |olds| == |neus| > 0 && AllRefs(olds) && AllRefs(neus)
    ensures var n := |olds| - 1;
      && AllRefs(olds[..n]) && AllRefs(neus[..n]) && olds[n].Ref? && neus[n].Ref?
      && Forwarding(olds, neus) == Forwarding(olds[..n], neus[..n])[olds[n].addr := neus[n].addr]
  {
    hide Addrs;
  }

  /** a stands in neus for the last time at i. */
  ghost predicate LastAt(neus: seq<Value>, a: Addr, i: int)
  {
    0 <= i < |neus| && neus[i] == Ref(a) && forall j :: i < j < |neus| ==> neus[j] != Ref(a)
  }

  /** A new object has the hash of the last old object beside it, and its own one if it stands beside none. */
  lemma {:induction false} HashFromLast(mem: Things, olds: seq<Value>, neus: seq<Value>, a: Addr)
    requires |olds| == |neus| && a in mem && mem[a].Object? && AllRefs(olds)
    requires forall i :: 0 <= i < |olds| ==> olds[i].Ref? && olds[i].addr in mem && mem[olds[i].addr].Object?
    ensures Ref(a) !in neus ==> HashOf(mem, olds, neus, a) == mem[a].hash
    ensures forall i :: LastAt(neus, a, i) ==> HashOf(mem, olds, neus, a) == mem[olds[i].addr].hash
    decreases |olds|
  {
    if olds != [] && neus[|olds| - 1] != Ref(a) {
      var n := |olds| - 1;
      HashFromLast(mem, olds[..n], neus[..n], a);
      forall i | LastAt(neus, a, i) ensures HashOf(mem, olds, neus, a) == mem[olds[i].addr].hash {
        assert i < n && neus[..n][i] == neus[i] && olds[..n][i] == olds[i];
        assert LastAt(neus[..n], a, i);
      }
    }
  }

  /** The heap with corpses in place of the old objects. */
  ghost function WithCorpses(mem: Things, olds: seq<Value>, neus: seq<Value>): Things
    requires |olds| == |neus| && AllRefs(olds) && AllRefs(neus)
    requires forall a :: a in mem ==> mem[a].Object?
  {
    var f := Forwarding(olds, neus);
    map a | a in mem :: if a in f then Corpse(mem[a].size, f[a]) else mem[a].(hash := HashOf(mem, olds, neus, a))
  }

  // ---- class ids ----

  ghost predicate IsCorpse(mem: Things, v: Value) { v.Ref? && v.addr in mem && mem[v.addr].Corpse? }

  /** The class an index of the table stands for, once it is forwarded. */
  ghost function ClassFor(mem: Things, v: Value): Value
  {
    if IsCorpse(mem, v) then Ref(mem[v.addr].target) else v
  }

  /** A class is registered if it is in the table, at the index that is its id. */
  ghost predicate Registered(mem: Things, table: seq<Value>, a: Addr)
  {
    && a in mem && mem[a].Object? && |mem[a].slots| > ID_SLOT && mem[a].slots[ID_SLOT].Smi?
    && FIRST_LEGAL_CID <= mem[a].slots[ID_SLOT].n < |table| && table[mem[a].slots[ID_SLOT].n] == Ref(a)
  }

  /** A class may become another one, which may have an id of its own or none. */
  ghost predicate TargetOk(mem: Things, table: seq<Value>, nil: Value, a: Addr)
  {
    && a in mem && mem[a].Object? && |mem[a].slots| > ID_SLOT
    && (mem[a].slots[ID_SLOT] == nil || Registered(mem, table, a))
  }

  ghost predicate ClassesOk(mem: Things, table: seq<Value>, nil: Value, f: map<Addr, Addr>)
  {
    forall c :: FIRST_LEGAL_CID <= c < |table| && table[c].Ref? && table[c].addr in f ==>
      TargetOk(mem, table, nil, f[table[c].addr])
  }

  /** a is what a class with an index below n becomes. */
  ghost predicate Taken(s: Snapshot, f: map<Addr, Addr>, a: Addr, n: nat)
  {
    exists c :: FIRST_LEGAL_CID <= c < n && c < |s.classTable| && Turns(s, f, c) && f[s.classTable[c].addr] == a
  }

  /** The class at index c becomes another one. */
  ghost predicate Turns(s: Snapshot, f: map<Addr, Addr>, c: nat)
    requires c < |s.classTable|
  {
    s.classTable[c].Ref? && s.classTable[c].addr in f
  }

  ghost predicate SameButId(x: Thing, y: Thing)
  {
    if x.Object? then
      y.Object? && |y.slots| == |x.slots| && y == x.(slots := y.slots)
      && forall i :: 0 <= i < |x.slots| && i != ID_SLOT ==> y.slots[i] == x.slots[i]
    else x == y
  }

  /** The corpse at index c is left out of the table: its target had no id yet when the index was handed over. */
  ghost predicate Orphaned(s: Snapshot, f: map<Addr, Addr>, c: nat)
    requires c < |s.classTable| && Turns(s, f, c) && |s.roots| >= 1
  {
    var a := f[s.classTable[c].addr];
    !Taken(s, f, a, c) && a in s.mem && s.mem[a].Object? && |s.mem[a].slots| > ID_SLOT
      && s.mem[a].slots[ID_SLOT] == Nil(s)
  }

  /** The state that the exchange of ids starts from. */
  ghost predicate Corpses(s: Snapshot, f: map<Addr, Addr>, mem0: Things)
    requires |s.roots| >= 1
  {
    && mem0.Keys == s.mem.Keys && f.Keys <= mem0.Keys && Nil(s).Ref?
    && (forall a :: a in f ==> f[a] in mem0 && f[a] !in f)
    && (forall a :: a in mem0 ==> s.mem[a].Object?)
    && (forall a :: a in mem0 ==>
         if a in f then mem0[a].Corpse? && mem0[a].target == f[a]
           else mem0[a] == s.mem[a].(hash := if mem0[a].Object? then mem0[a].hash else 0))
  }

  /** The state while ids are exchanged: the objects, the class table and the mark bits. */
  datatype Ids = Ids(mem: Things, table: seq<Value>, marks: set<Addr>)

  /** Only the ids of the classes that took over an index have changed, and these classes are registered. */
  ghost predicate Bodies(s: Snapshot, f: map<Addr, Addr>, mem0: Things, x: Ids, n: nat)
  {
    && x.mem.Keys == mem0.Keys && |x.table| == |s.classTable|
    && forall a :: a in mem0 ==>
         SameButId(mem0[a], x.mem[a]) && if Taken(s, f, a, n) then Registered(x.mem, x.table, a)
           else x.mem[a] == mem0[a]
  }

  /** What each index stands for has not changed, and a class in the table has its index as its id. */
  ghost predicate Stands(s: Snapshot, f: map<Addr, Addr>, x: Ids)
  {
    && |x.table| == |s.classTable|
    && (forall c :: FIRST_LEGAL_CID <= c < |x.table| ==> ClassFor(x.mem, x.table[c]) == Follow(f, s.classTable[c]))
    && (forall c :: 0 <= c < |x.table| && c < FIRST_LEGAL_CID ==> x.table[c] == s.classTable[c])
    && (forall c :: FIRST_LEGAL_CID <= c < |x.table| && x.table[c].Ref? ==>
          x.table[c].addr in x.mem && (x.table[c].addr !in f ==> HasId(x.mem, x.table[c].addr, c)))
  }

  /** The indices from n on are still to be seen. */
  ghost predicate Pending(s: Snapshot, f: map<Addr, Addr>, x: Ids, n: nat)
    requires |s.roots| >= 1
  {
    && |x.table| == |s.classTable|
    && (forall c :: FIRST_LEGAL_CID <= c < |x.table| && n <= c && Turns(s, f, c) ==>
          x.table[c] == s.classTable[c] && TargetOk(x.mem, x.table, Nil(s), f[x.table[c].addr]))
    && (forall c :: FIRST_LEGAL_CID <= c < |x.table| && x.table[c].Ref? && x.table[c].addr in f ==>
          x.table[c].addr in x.marks || (n <= c && x.table[c] == s.classTable[c]))
  }

  /** The corpses whose index has been handed over are marked. */
  ghost predicate Handled(s: Snapshot, f: map<Addr, Addr>, marks: set<Addr>, n: nat)
  {
    forall a :: a in marks <==>
      exists c :: FIRST_LEGAL_CID <= c < n && c < |s.classTable| && Turns(s, f, c) && s.classTable[c] == Ref(a)
  }

  ghost predicate InTable(table: seq<Value>, v: Value) { exists c :: FIRST_LEGAL_CID <= c < |table| && table[c] == v }

  /** Which of these corpses are still in the table. */
  ghost predicate Leftovers(s: Snapshot, f: map<Addr, Addr>, table: seq<Value>, n: nat)
    requires |s.roots| >= 1
  {
    forall c :: FIRST_LEGAL_CID <= c < n && c < |s.classTable| && Turns(s, f, c) ==>
      (InTable(table, s.classTable[c]) <==> !Orphaned(s, f, c))
  }

  ghost predicate Exchange(s: Snapshot, f: map<Addr, Addr>, mem0: Things, x: Ids, n: nat)
    requires |s.roots| >= 1
  {
    && Sound(s) && Corpses(s, f, mem0) && Bodies(s, f, mem0, x, n) && Stands(s, f, x) && Pending(s, f, x, n)
    && Handled(s, f, x.marks, n) && Leftovers(s, f, x.table, n)
  }

  lemma ExchangeStarts(s: Snapshot, f: map<Addr, Addr>, mem0: Things)
    requires Sound(s) && Corpses(s, f, mem0) && ClassesOk(s.mem, s.classTable, Nil(s), f)
    ensures Exchange(s, f, mem0, Ids(mem0, s.classTable, {}), FIRST_LEGAL_CID)
  {
    hide Sound, Stands, Pending, Corpses, Bodies, ClassesOk;
    SoundTable(s);
    StandsStarts(s, f, mem0);
    PendingStarts(s, f, mem0);
    BodiesStart(s, f, mem0);
  }

  lemma BodiesStart(s: Snapshot, f: map<Addr, Addr>, mem0: Things)
    ensures Bodies(s, f, mem0, Ids(mem0, s.classTable, {}), FIRST_LEGAL_CID)
  {
  }

  lemma StandsStarts(s: Snapshot, f: map<Addr, Addr>, mem0: Things)
    requires Sound(s) && Corpses(s, f, mem0)
    ensures Stands(s, f, Ids(mem0, s.classTable, {}))
  {
    hide Sound, ObjectOk;
    assert TableOk(s.mem, s.classTable) by { SoundTable(s); }
  }

  lemma SoundTable(s: Snapshot)
    requires Sound(s)
    ensures TableOk(s.mem, s.classTable) && |s.roots| >= 1 && Nil(s).Ref?
  {
  }

  lemma PendingStarts(s: Snapshot, f: map<Addr, Addr>, mem0: Things)
    requires |s.roots| >= 1 && Corpses(s, f, mem0) && ClassesOk(s.mem, s.classTable, Nil(s), f)
    ensures Pending(s, f, Ids(mem0, s.classTable, {}), FIRST_LEGAL_CID)
  {
  }

  lemma TakenStep(s: Snapshot, f: map<Addr, Addr>, n: nat)
    requires FIRST_LEGAL_CID <= n < |s.classTable|
    ensures forall a :: Taken(s, f, a, n + 1) <==> Taken(s, f, a, n) || (Turns(s, f, n) && f[s.classTable[n].addr] == a)
  {
    forall a ensures Taken(s, f, a, n + 1) <==> Taken(s, f, a, n) || (Turns(s, f, n) && f[s.classTable[n].addr] == a) {}
  }

  /** A class is in the table once. */
  lemma OnceInTable(s: Snapshot, c: nat, d: nat)
    requires Sound(s) && FIRST_LEGAL_CID <= c < |s.classTable| && FIRST_LEGAL_CID <= d < |s.classTable|
    requires s.classTable[c].Ref? && s.classTable[d].Ref?
    ensures s.classTable[c] == s.classTable[d] ==> c == d
  {
    SoundTable(s);
    hide Sound;
    assert HasId(s.mem, s.classTable[c].addr, c) && HasId(s.mem, s.classTable[d].addr, d);
  }

  lemma CorpseIs(s: Snapshot, f: map<Addr, Addr>, mem0: Things, x: Ids, n: nat, v: Value)
    requires |s.roots| >= 1 && Corpses(s, f, mem0) && Bodies(s, f, mem0, x, n)
    ensures IsCorpse(x.mem, v) <==> v.Ref? && v.addr in f
    ensures IsCorpse(x.mem, v) ==> x.mem[v.addr].target == f[v.addr] && f[v.addr] in x.mem && x.mem[f[v.addr]].Object?
  {
    hide Taken, Registered;
  }

  /** The class at index n does not turn, or its corpse was put there by an earlier exchange. */
  lemma ExchangeSkips(s: Snapshot, f: map<Addr, Addr>, mem0: Things, x: Ids, n: nat)
    requires |s.roots| >= 1 && Exchange(s, f, mem0, x, n) && FIRST_LEGAL_CID <= n < |x.table|
    requires !IsCorpse(x.mem, x.table[n]) || x.table[n].addr in x.marks
    ensures Exchange(s, f, mem0, x, n + 1)
  {
    hide Sound, Stands, Corpses, Bodies, TargetOk, IsCorpse, Orphaned, Taken;
    CorpseIs(s, f, mem0, x, n, x.table[n]);
    if Turns(s, f, n) {
      var c :| FIRST_LEGAL_CID <= c < n && c < |s.classTable| && Turns(s, f, c) && s.classTable[c] == x.table[n];
      OnceInTable(s, c, n);
    }
    BodiesSkip(s, f, mem0, x, n);
  }

  lemma BodiesSkip(s: Snapshot, f: map<Addr, Addr>, mem0: Things, x: Ids, n: nat)
    requires Bodies(s, f, mem0, x, n) && FIRST_LEGAL_CID <= n < |x.table| && !Turns(s, f, n)
    ensures Bodies(s, f, mem0, x, n + 1)
  {
    TakenStep(s, f, n);
    hide Taken, Registered, SameButId;
  }

  /**
   * The index n goes from the corpse of the old class to the new class; if that had an index, it goes to the corpse.
   */
  ghost function Exchanged(s: Snapshot, x: Ids, n: nat): Ids
    requires |s.roots| >= 1 && n < |x.table| && IsCorpse(x.mem, x.table[n])
    requires TargetOk(x.mem, x.table, Nil(s), x.mem[x.table[n].addr].target)
  {
    var oldClass := x.table[n].addr;
    var newClass := x.mem[oldClass].target;
    var slots := x.mem[newClass].slots;
    var table := if slots[ID_SLOT] != Nil(s) then x.table[slots[ID_SLOT].n := Ref(oldClass)] else x.table;
    Ids(x.mem[newClass := x.mem[newClass].(slots := slots[ID_SLOT := Smi(n)])], table[n := Ref(newClass)],
        x.marks + {oldClass})
  }

  /** Index n holds the corpse of its own class. */
  ghost predicate Ready(s: Snapshot, f: map<Addr, Addr>, x: Ids, n: nat)
  {
    && |s.roots| >= 1 && Nil(s).Ref? && FIRST_LEGAL_CID <= n < |x.table| == |s.classTable|
    && IsCorpse(x.mem, x.table[n]) && x.table[n].addr !in x.marks && Turns(s, f, n) && x.table[n] == s.classTable[n]
    && var a := f[x.table[n].addr];
       x.mem[x.table[n].addr].target == a && a !in f && TargetOk(x.mem, x.table, Nil(s), a)
  }

  /** An unmarked corpse is at its own index, and its target is a class. */
  lemma ReadyToExchange(s: Snapshot, f: map<Addr, Addr>, mem0: Things, x: Ids, n: nat)
    requires |s.roots| >= 1 && Exchange(s, f, mem0, x, n) && FIRST_LEGAL_CID <= n < |x.table|
    requires IsCorpse(x.mem, x.table[n]) && x.table[n].addr !in x.marks
    ensures Ready(s, f, x, n)
  {
    hide Sound, Stands, Handled, Leftovers, TargetOk, Bodies;
    CorpseIs(s, f, mem0, x, n, x.table[n]);
  }

  lemma NewIndex(s: Snapshot, f: map<Addr, Addr>, x: Ids, n: nat)
    requires Ready(s, f, x, n)
    ensures var y, a := Exchanged(s, x, n), f[x.table[n].addr];
      && a in x.mem && x.mem[a].Object? && |y.table| == |x.table| && y.table[n] == Ref(a)
      && y.marks == x.marks + {x.table[n].addr} && HasId(y.mem, a, n) && SameButId(x.mem[a], y.mem[a])
      && (forall b :: b in x.mem && b != a ==> b in y.mem && y.mem[b] == x.mem[b]) && y.mem.Keys == x.mem.Keys
      && (forall c :: 0 <= c < |x.table| && c != n ==>
            y.table[c] == if FIRST_LEGAL_CID <= c && x.table[c] == Ref(a) && x.mem[a].slots[ID_SLOT] == Smi(c)
              then x.table[n] else x.table[c])
      && (x.mem[a].slots[ID_SLOT] != Nil(s) ==> InTable(y.table, x.table[n]))
  {
    var y, a := Exchanged(s, x, n), f[x.table[n].addr];
    if x.mem[a].slots[ID_SLOT] != Nil(s) {
      assert y.table[x.mem[a].slots[ID_SLOT].n] == x.table[n];
    }
  }

  /** No other class loses its place in the table. */
  lemma StillRegistered(s: Snapshot, f: map<Addr, Addr>, x: Ids, n: nat, b: Addr)
    requires Ready(s, f, x, n) && b != f[x.table[n].addr] && Registered(x.mem, x.table, b)
    ensures Registered(Exchanged(s, x, n).mem, Exchanged(s, x, n).table, b)
  {
    NewIndex(s, f, x, n);
    hide Exchanged, Ready;
    assert x.table[n] == s.classTable[n] && IsCorpse(x.mem, x.table[n]) by { ReadyFacts(s, f, x, n); }
  }

  lemma ReadyFacts(s: Snapshot, f: map<Addr, Addr>, x: Ids, n: nat)
    requires Ready(s, f, x, n)
    ensures |s.roots| >= 1 && Nil(s).Ref? && FIRST_LEGAL_CID <= n < |x.table| == |s.classTable|
    ensures IsCorpse(x.mem, x.table[n]) && x.table[n].addr !in x.marks && Turns(s, f, n)
    ensures x.table[n] == s.classTable[n]
    ensures var a := f[x.table[n].addr];
      x.mem[x.table[n].addr].target == a && a !in f && TargetOk(x.mem, x.table, Nil(s), a)
  {
  }

  lemma BodiesStep(s: Snapshot, f: map<Addr, Addr>, mem0: Things, x: Ids, n: nat)
    requires Ready(s, f, x, n) && Bodies(s, f, mem0, x, n)
    ensures Bodies(s, f, mem0, Exchanged(s, x, n), n + 1)
  {
    hide Taken, Registered, Exchanged, TargetOk, Ready;
    ReadyFacts(s, f, x, n);
    NewIndex(s, f, x, n);
    TakenStep(s, f, n);
    var y, newClass := Exchanged(s, x, n), f[x.table[n].addr];
    assert Registered(y.mem, y.table, newClass) by { NowRegistered(y.mem, y.table, newClass, n); }
    forall a | a in mem0 && a != newClass ensures Taken(s, f, a, n) ==> Registered(y.mem, y.table, a) {
      if Taken(s, f, a, n) { StillRegistered(s, f, x, n, a); }
    }
  }

  lemma NowRegistered(mem: Things, table: seq<Value>, a: Addr, n: nat)
    requires FIRST_LEGAL_CID <= n < |table| && table[n] == Ref(a) && HasId(mem, a, n)
    ensures Registered(mem, table, a)
  {
  }

  lemma StandsStep(s: Snapshot, f: map<Addr, Addr>, x: Ids, n: nat)
    requires Ready(s, f, x, n) && Stands(s, f, x)
    ensures Stands(s, f, Exchanged(s, x, n))
  {
    hide Exchanged, Ready, TargetOk;
    ReadyFacts(s, f, x, n);
    NewIndex(s, f, x, n);
    var y, a := Exchanged(s, x, n), f[x.table[n].addr];
    forall c | FIRST_LEGAL_CID <= c < |y.table|
      ensures ClassFor(y.mem, y.table[c]) == Follow(f, s.classTable[c])
      ensures y.table[c].Ref? ==>
        y.table[c].addr in y.mem && (y.table[c].addr !in f ==> HasId(y.mem, y.table[c].addr, c))
    {
      assert ClassFor(x.mem, x.table[c]) == Follow(f, s.classTable[c]);
    }
  }

  lemma PendingStep(s: Snapshot, f: map<Addr, Addr>, x: Ids, n: nat)
    requires Ready(s, f, x, n) && Pending(s, f, x, n)
    ensures Pending(s, f, Exchanged(s, x, n), n + 1)
  {
    hide Exchanged, Ready, TargetOk, IsCorpse;
    ReadyFacts(s, f, x, n);
    NewIndex(s, f, x, n);
    var y := Exchanged(s, x, n);
    forall c | FIRST_LEGAL_CID <= c < |y.table| && n + 1 <= c && Turns(s, f, c)
      ensures y.table[c] == s.classTable[c] && TargetOk(y.mem, y.table, Nil(s), f[y.table[c].addr])
    {
      TargetStep(s, f, x, n, f[x.table[c].addr]);
    }
  }

  lemma TargetStep(s: Snapshot, f: map<Addr, Addr>, x: Ids, n: nat, b: Addr)
    requires Ready(s, f, x, n) && TargetOk(x.mem, x.table, Nil(s), b)
    ensures TargetOk(Exchanged(s, x, n).mem, Exchanged(s, x, n).table, Nil(s), b)
  {
    NewIndex(s, f, x, n);
    hide Exchanged;
    if b == f[x.table[n].addr] {
      NowRegistered(Exchanged(s, x, n).mem, Exchanged(s, x, n).table, b, n);
    } else if x.mem[b].slots[ID_SLOT] != Nil(s) {
      StillRegistered(s, f, x, n, b);
    }
  }

  lemma HandledStep(s: Snapshot, f: map<Addr, Addr>, x: Ids, n: nat)
    requires Ready(s, f, x, n) && Handled(s, f, x.marks, n)
    ensures Handled(s, f, Exchanged(s, x, n).marks, n + 1)
  {
    hide Exchanged, Ready, TargetOk, IsCorpse;
    ReadyFacts(s, f, x, n);
    NewIndex(s, f, x, n);
  }

  /** A corpse that is in the table stays, and the one at index n goes to the index of its target, if there is one. */
  lemma LeftoversStep(s: Snapshot, f: map<Addr, Addr>, mem0: Things, x: Ids, n: nat)
    requires Ready(s, f, x, n) && Leftovers(s, f, x.table, n) && Pending(s, f, x, n) && Handled(s, f, x.marks, n)
    requires Sound(s)
    requires Bodies(s, f, mem0, x, n) && Corpses(s, f, mem0)
    ensures Leftovers(s, f, Exchanged(s, x, n).table, n + 1)
  {
    hide Exchanged, Ready, TargetOk, Sound, Orphaned, Bodies, Corpses, Pending;
    ReadyFacts(s, f, x, n);
    NewIndex(s, f, x, n);
    var y, a := Exchanged(s, x, n), f[x.table[n].addr];
    forall c | FIRST_LEGAL_CID <= c < n && Turns(s, f, c)
      ensures InTable(y.table, s.classTable[c]) <==> InTable(x.table, s.classTable[c])
    {
      OnceInTable(s, c, n);
      CorpseIs(s, f, mem0, x, n, s.classTable[c]);
      CorpseIs(s, f, mem0, x, n, Ref(a));
      if InTable(x.table, s.classTable[c]) {
        var d :| FIRST_LEGAL_CID <= d < |x.table| && x.table[d] == s.classTable[c];
        assert y.table[d] == s.classTable[c];
      }
      if InTable(y.table, s.classTable[c]) {
        var d :| FIRST_LEGAL_CID <= d < |y.table| && y.table[d] == s.classTable[c];
        assert x.table[d] == s.classTable[c];
      }
    }
    OrphanedNow(s, f, mem0, x, n);
    if x.mem[a].slots[ID_SLOT] == Nil(s) && InTable(y.table, x.table[n]) {
      var d :| FIRST_LEGAL_CID <= d < |y.table| && y.table[d] == x.table[n];
      assert d != n && x.table[d] == x.table[n];
      NotElsewhere(s, f, x, n, d);
    }
  }

  lemma NotElsewhere(s: Snapshot, f: map<Addr, Addr>, x: Ids, n: nat, d: nat)
    requires Ready(s, f, x, n) && Pending(s, f, x, n) && Sound(s) && FIRST_LEGAL_CID <= d < |x.table| && d != n
    ensures x.table[d] != x.table[n]
  {
    hide Sound;
    if x.table[d] == x.table[n] { OnceInTable(s, d, n); }
  }

  lemma OrphanedNow(s: Snapshot, f: map<Addr, Addr>, mem0: Things, x: Ids, n: nat)
    requires Ready(s, f, x, n) && Bodies(s, f, mem0, x, n) && Corpses(s, f, mem0)
    ensures Orphaned(s, f, n) <==> x.mem[f[x.table[n].addr]].slots[ID_SLOT] == Nil(s)
  {
    hide Exchanged, Taken;
    var a := f[x.table[n].addr];
    assert a in mem0 && mem0[a].Object?;
    assert SameButId(mem0[a], x.mem[a]);
  }

  lemma ExchangeStep(s: Snapshot, f: map<Addr, Addr>, mem0: Things, x: Ids, n: nat)
    requires |s.roots| >= 1 && Exchange(s, f, mem0, x, n) && FIRST_LEGAL_CID <= n < |x.table|
    requires IsCorpse(x.mem, x.table[n]) && x.table[n].addr !in x.marks
    ensures Ready(s, f, x, n) && Exchange(s, f, mem0, Exchanged(s, x, n), n + 1)
  {
    ReadyToExchange(s, f, mem0, x, n);
    BodiesStep(s, f, mem0, x, n);
    StandsStep(s, f, x, n);
    PendingStep(s, f, x, n);
    HandledStep(s, f, x, n);
    LeftoversStep(s, f, mem0, x, n);
    hide Sound, Corpses, Bodies, Stands, Pending, Handled, Leftovers, Exchanged, Ready;
  }

  // ---- forwarding the heap ----

  ghost predicate ExchangeDone(s: Snapshot, f: map<Addr, Addr>, mem0: Things, x: Ids)
  {
    |s.roots| >= 1 && exists n :: n >= |x.table| && Exchange(s, f, mem0, x, n)
  }

  /** The id that replaces an id whose class has turned. */
  ghost function ForwardedCid(x: Ids, cid: nat): int
    requires cid < |x.table|
  {
    var v := x.table[cid];
    if IsCorpse(x.mem, v) && x.mem[v.addr].target in x.mem && HasSmiId(x.mem[x.mem[v.addr].target])
    then x.mem[x.mem[v.addr].target].slots[ID_SLOT].n
    else cid
  }

  predicate HasSmiId(o: Thing) { o.Object? && |o.slots| > ID_SLOT && o.slots[ID_SLOT].Smi? }

  /** Every object gets the index of what its class has become. */
  lemma CidFits(s: Snapshot, f: map<Addr, Addr>, mem0: Things, x: Ids, cid: nat)
    requires ExchangeDone(s, f, mem0, x) && FIRST_LEGAL_CID <= cid < |s.classTable| && s.classTable[cid].Ref?
    ensures cid < |x.table| == |s.classTable|
    ensures IsCorpse(x.mem, x.table[cid]) ==>
      x.mem[x.table[cid].addr].target in x.mem && HasSmiId(x.mem[x.mem[x.table[cid].addr].target])
    ensures var c := ForwardedCid(x, cid);
      FIRST_LEGAL_CID <= c < |x.table| && x.table[c] == Follow(f, s.classTable[cid]) && !IsCorpse(x.mem, x.table[c])
  {
    hide Sound, Corpses, Leftovers, Registered, Taken;
    var n :| n >= |x.table| && Exchange(s, f, mem0, x, n);
    var v := x.table[cid];
    assert ClassFor(x.mem, v) == Follow(f, s.classTable[cid]);
    CorpseIs(s, f, mem0, x, n, v);
    if IsCorpse(x.mem, v) {
      var a := f[v.addr];
      var c :| FIRST_LEGAL_CID <= c < n && c < |s.classTable| && Turns(s, f, c) && s.classTable[c] == v;
      assert Taken(s, f, a, n) by { TakenBy(s, f, c, n); }
      RegisteredAt(x.mem, x.table, a);
      assert a in mem0 by { CorpseTarget(s, f, mem0, v.addr); }
      CorpseIs(s, f, mem0, x, n, Ref(a));
      assert a !in f by { CorpseTarget(s, f, mem0, v.addr); }
    }
  }

  lemma TakenBy(s: Snapshot, f: map<Addr, Addr>, c: nat, n: nat)
    requires FIRST_LEGAL_CID <= c < n && c < |s.classTable| && Turns(s, f, c)
    ensures Taken(s, f, f[s.classTable[c].addr], n)
  {
  }

  lemma RegisteredAt(mem: Things, table: seq<Value>, a: Addr)
    ensures Registered(mem, table, a) ==>
      a in mem && HasSmiId(mem[a]) && FIRST_LEGAL_CID <= mem[a].slots[ID_SLOT].n < |table|
        && table[mem[a].slots[ID_SLOT].n] == Ref(a)
  {
  }

  lemma CorpseTarget(s: Snapshot, f: map<Addr, Addr>, mem0: Things, a: Addr)
    requires |s.roots| >= 1 && Corpses(s, f, mem0) && a in f
    ensures f[a] in mem0 && f[a] !in f
  {
  }

  ghost function FollowAll(f: map<Addr, Addr>, vs: seq<Value>): (r: seq<Value>)
    ensures |r| == |vs| && forall i :: 0 <= i < |vs| ==> r[i] == Follow(f, vs[i])
  {
    seq(|vs|, i requires 0 <= i < |vs| => Follow(f, vs[i]))
  }

  ghost predicate HasNewTarget(table: seq<Value>, o: Thing)
  {
    && o.Object?
    && ((0 <= o.cid < |table| && IsNewRef(table[o.cid])) || exists i :: 0 <= i < |o.slots| && IsNewRef(o.slots[i]))
  }

  /** An object with everything in it forwarded. */
  ghost predicate IsForwarded(f: map<Addr, Addr>, x: Ids, o: Thing, p: Thing)
    requires o.Object? && o.cid < |x.table|
  {
    p.Object? && p == o.(cid := p.cid, slots := FollowAll(f, o.slots), remembered := p.remembered)
      && p.cid as int == ForwardedCid(x, o.cid)
  }

  // ---- the result ----

  /** All that a successful become does; f says what becomes what. */
  ghost predicate Became(s: Snapshot, f: map<Addr, Addr>, olds: seq<Value>, neus: seq<Value>, mem: Things,
                         roots: seq<Value>, table: seq<Value>)
    requires Sound(s) && |olds| == |neus|
  {
    && mem.Keys == s.mem.Keys && |table| == |s.classTable|
    && (forall a :: a in mem ==>
         if a in f then mem[a] == Corpse(s.mem[a].size, f[a]) else ObjectBecame(s, f, olds, neus, a, mem[a], table))
    && roots == FollowAll(f, s.roots)
    && TableOk(mem, table) && TableBecame(s, f, table)
  }

  /** Every slot follows f, and so does the class. Only the id of a class that replaces another may change otherwise. */
  ghost predicate ObjectBecame(s: Snapshot, f: map<Addr, Addr>, olds: seq<Value>, neus: seq<Value>, a: Addr, o: Thing,
                               table: seq<Value>)
    requires Sound(s) && |olds| == |neus| && a in s.mem
  {
    var before := s.mem[a];
    && o.Object? && o.size == before.size && o.data == before.data && |o.slots| == |before.slots|
    && o.hash == HashOf(s.mem, olds, neus, a)
    && FIRST_LEGAL_CID <= o.cid < |table| && before.cid < |s.classTable|
    && table[o.cid] == Follow(f, s.classTable[before.cid])
    && forall i :: 0 <= i < |o.slots| ==>
         o.slots[i] == Follow(f, before.slots[i]) || (i == ID_SLOT && Taken(s, f, a, |s.classTable|) && o.slots[i].Smi?)
  }

  /** The classes in the table are what the classes in it before have become. */
  ghost predicate TableBecame(s: Snapshot, f: map<Addr, Addr>, table: seq<Value>)
  {
    && |table| == |s.classTable|
    && (forall c :: FIRST_LEGAL_CID <= c < |table| && table[c].Ref? ==> table[c] == Follow(f, s.classTable[c]))
    && (forall c :: FIRST_LEGAL_CID <= c < |table| && s.classTable[c].Ref? ==>
         InTable(table, Follow(f, s.classTable[c])))
    && (forall c :: 0 <= c < FIRST_LEGAL_CID && c < |table| ==> table[c] == s.classTable[c])
  }

  /** Nothing refers to a corpse. */
  ghost predicate NoCorpses(f: map<Addr, Addr>, vs: seq<Value>)
  {
    forall i :: 0 <= i < |vs| && vs[i].Ref? ==> vs[i].addr !in f
  }

  lemma NothingRefersToCorpses(s: Snapshot, f: map<Addr, Addr>, olds: seq<Value>, neus: seq<Value>, mem: Things,
                               roots: seq<Value>, table: seq<Value>)
    requires Sound(s) && |olds| == |neus| && Became(s, f, olds, neus, mem, roots, table)
    requires forall a :: a in f ==> f[a] !in f
    ensures NoCorpses(f, roots) && forall c :: FIRST_LEGAL_CID <= c < |table| && table[c].Ref? ==> table[c].addr !in f
    ensures forall a :: a in mem && a !in f ==> mem[a].Object? && NoCorpses(f, mem[a].slots)
  {
    hide Sound, HashOf, TableOk;
    forall a | a in mem && a !in f ensures mem[a].Object? && NoCorpses(f, mem[a].slots) {
      assert ObjectBecame(s, f, olds, neus, a, mem[a], table);
    }
  }

  lemma FollowedIn(s: Snapshot, f: map<Addr, Addr>, v: Value)
    requires (forall a :: a in f ==> f[a] !in f && f[a] in s.mem) && (v.Ref? ==> v.addr in s.mem)
    ensures Follow(f, v).Ref? ==> Follow(f, v).addr in s.mem && Follow(f, v).addr !in f
  {
  }

  lemma ObjectAgain(s: Snapshot, f: map<Addr, Addr>, olds: seq<Value>, neus: seq<Value>, mem: Things,
                    roots: seq<Value>, table: seq<Value>, a: Addr)
    requires Sound(s) && |olds| == |neus| && mem.Keys == s.mem.Keys && a in mem && a !in f
    requires ObjectBecame(s, f, olds, neus, a, mem[a], table) && (forall b :: b in f ==> f[b] !in f && f[b] in mem)
    ensures ObjectOk(Snapshot(Without(mem, f.Keys), roots, table), a)
  {
    hide HashOf, Taken, TableOk;
    assert ObjectOk(s, a);
    hide Sound;
    var o := mem[a];
    forall i | 0 <= i < |o.slots| && o.slots[i].Ref? ensures o.slots[i].addr in Without(mem, f.Keys) {
      FollowedIn(s, f, s.mem[a].slots[i]);
    }
  }

  lemma RootsAgain(s: Snapshot, f: map<Addr, Addr>, mem: Things, roots: seq<Value>)
    requires Sound(s) && mem.Keys == s.mem.Keys && roots == FollowAll(f, s.roots)
    requires (forall b :: b in f ==> f[b] !in f && f[b] in mem)
    ensures (forall i :: 0 <= i < |roots| && roots[i].Ref? ==> roots[i].addr in Without(mem, f.Keys)) && |roots| >= 1
    ensures roots[0].Ref?
  {
    hide TableOk, ObjectOk;
    forall i | 0 <= i < |roots| && roots[i].Ref?
      ensures roots[i].addr in Without(mem, f.Keys) { FollowedIn(s, f, s.roots[i]); }
  }

  lemma TableAgain(f: map<Addr, Addr>, mem: Things, table: seq<Value>)
    requires TableOk(mem, table) && forall c :: FIRST_LEGAL_CID <= c < |table| && table[c].Ref? ==> table[c].addr !in f
    ensures TableOk(Without(mem, f.Keys), table)
  {
  }

  lemma SoundFrom(s: Snapshot)
    requires forall a :: a in s.mem ==> ObjectOk(s, a)
    requires (forall i :: 0 <= i < |s.roots| && s.roots[i].Ref? ==> s.roots[i].addr in s.mem) && |s.roots| >= 1
    requires s.roots[0].Ref?
    requires TableOk(s.mem, s.classTable)
    ensures Sound(s)
  {
    hide ObjectOk, TableOk;
  }

  lemma BecameFacts(s: Snapshot, f: map<Addr, Addr>, olds: seq<Value>, neus: seq<Value>, mem: Things,
                    roots: seq<Value>, table: seq<Value>)
    requires Sound(s) && |olds| == |neus| && Became(s, f, olds, neus, mem, roots, table)
    ensures mem.Keys == s.mem.Keys && roots == FollowAll(f, s.roots) && TableOk(mem, table)
    ensures forall a :: a in mem && a !in f ==> ObjectBecame(s, f, olds, neus, a, mem[a], table)
  {
    hide Sound, TableOk, TableBecame, ObjectBecame;
  }

  /** Without the corpses, the heap is as sound as it was. */
  lemma SoundAgain(s: Snapshot, f: map<Addr, Addr>, olds: seq<Value>, neus: seq<Value>, mem: Things, roots: seq<Value>,
                   table: seq<Value>)
    requires Sound(s) && |olds| == |neus| && Became(s, f, olds, neus, mem, roots, table)
    requires forall a :: a in f ==> f[a] !in f && f[a] in mem
    ensures Sound(Snapshot(Without(mem, f.Keys), roots, table))
  {
    hide Sound, Became, TableOk, ObjectOk, ObjectBecame, TableBecame, FollowAll, NoCorpses;
    BecameFacts(s, f, olds, neus, mem, roots, table);
    NothingRefersToCorpses(s, f, olds, neus, mem, roots, table);
    RootsAgain(s, f, mem, roots);
    TableAgain(f, mem, table);
    var t := Snapshot(Without(mem, f.Keys), roots, table);
    forall a | a in t.mem ensures ObjectOk(t, a) {
      ObjectAgain(s, f, olds, neus, mem, roots, table, a);
    }
    SoundFrom(t);
  }
}
