/** What the mutator does between collections: stores into objects, with the generational barrier; vm/object.h. */
module WriteBarrier {
  import opened HeapModel
  import opened ScavengeInvariant

  /** The barrier acts: an old object that is not remembered yet gets a reference to a new one. */
  ghost predicate Noted(s: Start, a: Addr, value: Value)
    requires a in s.mem && s.mem[a].Obj?
  {
    !IsNew(a) && IsNewRef(value) && !s.mem[a].remembered
  }

  /** The heap after storing value in slot i of a. */
  ghost function Stored(s: Start, a: Addr, i: nat, value: Value): Start
    requires a in s.mem && s.mem[a].Obj? && i < |s.mem[a].slots|
  {
    var noted := Noted(s, a, value);
    var cell := s.mem[a].(slots := s.mem[a].slots[i := value], remembered := s.mem[a].remembered || noted);
    s.(mem := s.mem[a := cell], remembered := if noted then s.remembered + [a] else s.remembered)
  }

  /** After a store, the remembered set still holds every old object that refers to a new one, and each once. */
  lemma StoreKeeps(s: Start, a: Addr, i: nat, value: Value)
    requires WellFormed(s) && a in s.mem && s.mem[a].Obj? && i < |s.mem[a].slots|
    requires value.Ref? ==> value.addr in s.mem
    ensures WellFormed(Stored(s, a, i, value))
    ensures Unforwarded(s.layout, Stored(s, a, i, value).mem) == Unforwarded(s.layout, s.mem)
  {
    hide HasNewTarget;
    StoreRemembers(s, a, i, value);
    SameSizes(s.layout, s.mem, Stored(s, a, i, value).mem);
  }

  lemma StoreRemembers(s: Start, a: Addr, i: nat, value: Value)
    requires WellFormed(s) && a in s.mem && s.mem[a].Obj? && i < |s.mem[a].slots|
    ensures var t := Stored(s, a, i, value); RememberedComplete(t.mem, t.remembered, t.classTable)
  {
    var t := Stored(s, a, i, value);
    if !IsNew(a) && a !in t.remembered {
      assert forall k :: 0 <= k < |t.mem[a].slots| && k != i ==> t.mem[a].slots[k] == s.mem[a].slots[k];
      assert !HasNewTarget(s.mem[a], s.classTable);
    }
  }

  lemma {:induction false} SameSizes(layout: seq<Addr>, mem: Memory, mem': Memory)
    requires mem'.Keys == mem.Keys
    requires forall a :: a in mem && mem[a].Obj? ==> mem'[a].Obj? && mem'[a].size == mem[a].size
    requires forall a :: a in mem && mem[a].Forwarded? ==> mem'[a] == mem[a]
    ensures Unforwarded(layout, mem') == Unforwarded(layout, mem)
  {
    if layout != [] { SameSizes(layout[1..], mem, mem'); }
  }
}
