/** The cache of method lookups: vm/lookup_cache.h, vm/lookup_cache.cc, and its use in vm/interpreter.cc. */
module LookupCaches {
  import opened Contexts
  import opened Lookup

  const SIZE := 512
  const ILLEGAL_CID := 0

  datatype Entry = Entry(ordinaryCid: nat, ordinarySelector: nat, ordinaryTarget: MethodDef,
                         nsCidAndRule: nat, nsSelector: nat, nsCaller: MethodDef, nsAbsentReceiver: Option<nat>,
                         nsTarget: MethodDef)

  /** Bitwise exclusive or of two non-negative words. */
  function Xor(a: nat, b: nat): nat
    decreases a + b
  {
    if a == 0 && b == 0 then 0 else (a + b) % 2 + 2 * Xor(a / 2, b / 2)
  }

  function OrdinaryHash(cid: nat, selector: nat): nat { Xor(cid, selector / 16) }

  function NsHash(cid: nat, selector: nat, caller: MethodDef): nat { Xor(Xor(cid, selector / 16), caller.address / 16) }

  function CidAndRule(cid: nat, rule: nat): nat { cid * 0x10000 + rule }

  /** The class id and the rule can be told apart as long as the rule has 16 bits. */
  lemma CidAndRuleInjective(cid: nat, rule: nat, cid': nat, rule': nat)
    requires rule < 0x10000 && rule' < 0x10000
    ensures CidAndRule(cid, rule) == CidAndRule(cid', rule') <==> cid == cid' && rule == rule'
    ensures CidAndRule(cid, rule) / 0x10000 == cid && CidAndRule(cid, rule) % 0x10000 == rule
  {
  }

  /** What the cache answers, for every receiver of its class, is what the lookup finds. */
  ghost predicate OrdinaryOk(w: World, e: Entry)
    requires WorldOk(w)
  {
    e.ordinaryCid != ILLEGAL_CID ==>
      forall o :: o in w.classIdOf && w.classIdOf[o] == e.ordinaryCid ==>
        OrdinaryTarget(w, o, e.ordinarySelector, Some(w.classIdOf[o])) == Activated(o, e.ordinaryTarget)
  }

  /** No absent receiver in the entry stands for the receiver of the running method. */
  ghost predicate NsAnswers(w: World, o: nat, e: Entry, rule: nat)
    requires WorldOk(w) && o in w.classIdOf
  {
    && NsTarget(w, o, e.nsSelector, e.nsCaller, rule)
       == Activated(if e.nsAbsentReceiver.None? then o else e.nsAbsentReceiver.value, e.nsTarget)
    && (rule in {SELF, SUPER} ==> e.nsAbsentReceiver.None?)
    && (rule !in {SELF, SUPER, IMPLICIT} ==> e.nsAbsentReceiver.Some?)
  }

  ghost predicate NsOk(w: World, e: Entry)
    requires WorldOk(w)
  {
    e.nsCidAndRule / 0x10000 != ILLEGAL_CID ==>
      forall o :: o in w.classIdOf && w.classIdOf[o] == e.nsCidAndRule / 0x10000 ==>
        NsAnswers(w, o, e, e.nsCidAndRule % 0x10000)
  }

  ghost predicate Coherent(w: World, entries: seq<Entry>)
    requires WorldOk(w)
  {
    forall i :: 0 <= i < |entries| ==> OrdinaryOk(w, entries[i]) && NsOk(w, entries[i])
  }

  predicate IsOrdinary(e: Entry, cid: nat, selector: nat) { e.ordinaryCid == cid && e.ordinarySelector == selector }

  predicate IsNs(e: Entry, cidAndRule: nat, selector: nat, caller: MethodDef)
  {
    e.nsCidAndRule == cidAndRule && e.nsSelector == selector && e.nsCaller == caller
  }

  lemma CoherentUpdate(w: World, entries: seq<Entry>, i: nat, e: Entry)
    requires WorldOk(w) && Coherent(w, entries) && i < |entries| && OrdinaryOk(w, e)
    ensures Coherent(w, entries[i := e]) <==> NsOk(w, e)
  {
    assert entries[i := e][i] == e;
  }

  /**
   * The answer for a lookup with the receiver of the caller: the absent receiver, if it is another one, and the method.
   */
  function FindNS(entries: seq<Entry>, cid: nat, selector: nat, caller: MethodDef,
                  rule: nat): (found: Option<(Option<nat>, MethodDef)>)
    requires |entries| == SIZE
    ensures found.Some? ==> exists e :: e in entries && IsNs(e, CidAndRule(cid, rule), selector, caller)
                                        && found.value == (e.nsAbsentReceiver, e.nsTarget)
  {
    var hash := NsHash(cid, selector, caller);
    var key := CidAndRule(cid, rule);
    var probe1, probe2 := hash % SIZE, (hash / 8) % SIZE;
    if IsNs(entries[probe1], key, selector, caller)
      then Some((entries[probe1].nsAbsentReceiver, entries[probe1].nsTarget))
    else if IsNs(entries[probe2], key, selector, caller)
      then Some((entries[probe2].nsAbsentReceiver, entries[probe2].nsTarget))
    else None
  }

  function NsEntry(e: Entry, cid: nat, selector: nat, caller: MethodDef, rule: nat, absentReceiver: Option<nat>,
                   target: MethodDef): Entry
  {
    e.(nsCidAndRule := CidAndRule(cid, rule), nsSelector := selector, nsCaller := caller, nsTarget := target,
       nsAbsentReceiver := absentReceiver)
  }

  /** Both places that a lookup probes are overwritten. */
  ghost function NsInserted(entries: seq<Entry>, cid: nat, selector: nat, caller: MethodDef, rule: nat,
                            absentReceiver: Option<nat>, target: MethodDef): (r: seq<Entry>)
    requires |entries| == SIZE
    ensures |r| == SIZE
  {
    var hash := NsHash(cid, selector, caller);
    var probe1, probe2 := hash % SIZE, (hash / 8) % SIZE;
    var once := entries[probe1 := NsEntry(entries[probe1], cid, selector, caller, rule, absentReceiver, target)];
    once[probe2 := NsEntry(once[probe2], cid, selector, caller, rule, absentReceiver, target)]
  }

  lemma NsInsertedFound(entries: seq<Entry>, cid: nat, selector: nat, caller: MethodDef, rule: nat,
                        absentReceiver: Option<nat>, target: MethodDef)
    requires |entries| == SIZE
    ensures FindNS(NsInserted(entries, cid, selector, caller, rule, absentReceiver, target), cid, selector, caller,
                   rule)
      == Some((absentReceiver, target))
    ensures var r := NsInserted(entries, cid, selector, caller, rule, absentReceiver, target);
      && (forall k :: 0 <= k < SIZE ==>
            r[k] == entries[k].(nsCidAndRule := r[k].nsCidAndRule, nsSelector := r[k].nsSelector,
                                nsCaller := r[k].nsCaller, nsAbsentReceiver := r[k].nsAbsentReceiver,
                                nsTarget := r[k].nsTarget))
      && forall k :: 0 <= k < SIZE && r[k] != entries[k] ==> IsNs(r[k], CidAndRule(cid, rule), selector, caller)
  {
    hide NsHash, CidAndRule;
  }

  /** The cache after a send that missed and came to t: only a method is remembered. */
  ghost function Recorded(entries: seq<Entry>, cid: nat, selector: nat, caller: MethodDef, rule: nat, self: nat,
                          t: Target): seq<Entry>
    requires |entries| == SIZE
  {
    if t.Activated? then
      NsInserted(entries, cid, selector, caller, rule, if t.receiver == self then None else Some(t.receiver), t.code)
    else entries
  }

  /** The same for ordinary sends, entry by entry. */
  ghost predicate OrdinaryInserted(entries: seq<Entry>, after: seq<Entry>, cid: nat, selector: nat, target: MethodDef)
  {
    && |entries| == |after| == SIZE
    && var hash := OrdinaryHash(cid, selector);
       forall k :: 0 <= k < SIZE ==>
         after[k] == if k == hash % SIZE || k == (hash / 8) % SIZE
                     then entries[k].(ordinaryCid := cid, ordinarySelector := selector, ordinaryTarget := target)
                     else entries[k]
  }

  /** An insertion keeps the cache right exactly if the answer is right for every receiver of the class. */
  lemma NsInsertedCoherent(w: World, entries: seq<Entry>, cid: nat, selector: nat, caller: MethodDef, rule: nat,
                           absentReceiver: Option<nat>, target: MethodDef)
    requires WorldOk(w) && |entries| == SIZE && Coherent(w, entries) && rule < 0x10000
    ensures Coherent(w, NsInserted(entries, cid, selector, caller, rule, absentReceiver, target)) <==>
      forall o :: o in w.classIdOf && w.classIdOf[o] == cid ==>
        NsAnswers(w, o, NsShape(selector, caller, absentReceiver, target), rule)
  {
    hide NsAnswers, NsHash, Coherent, NsOk, OrdinaryOk, CidAndRule;
    var hash := NsHash(cid, selector, caller);
    var probe1, probe2 := hash % SIZE, (hash / 8) % SIZE;
    var shape := NsShape(selector, caller, absentReceiver, target);
    var e := NsEntry(entries[probe1], cid, selector, caller, rule, absentReceiver, target);
    EntryAt(w, entries, probe1);
    EntryFits(w, cid, rule, shape, entries[probe1], e);
    CoherentUpdate(w, entries, probe1, e);
    var once := entries[probe1 := e];
    var e' := NsEntry(once[probe2], cid, selector, caller, rule, absentReceiver, target);
    if NsOk(w, e) {
      EntryAt(w, once, probe2);
      EntryFits(w, cid, rule, shape, once[probe2], e');
      CoherentUpdate(w, once, probe2, e');
    } else {
      EntryAt(w, entries, probe2);
      EntryFits(w, cid, rule, shape, once[probe2], e');
      if Coherent(w, once[probe2 := e']) {
        EntryAt(w, once[probe2 := e'], probe2);
      }
    }
  }

  class LookupCache {
    const entries: array<Entry>

    ghost predicate Valid(w: World)
      requires WorldOk(w)
      reads this, entries
    {
      entries.Length == SIZE && Coherent(w, entries[..])
    }

    constructor (ghost w: World)
      requires WorldOk(w)
      ensures Valid(w) && fresh(entries)
    {
      entries := new Entry[SIZE];
      new;
      Clear(w);
    }

    function LookupOrdinary(cid: nat, selector: nat): (target: Option<MethodDef>)
      requires entries.Length == SIZE
      reads this, entries
      ensures target.Some? ==>
        exists e :: e in entries[..] && IsOrdinary(e, cid, selector) && e.ordinaryTarget == target.value
    {
      var hash := OrdinaryHash(cid, selector);
      var probe1, probe2 := hash % SIZE, (hash / 8) % SIZE;
      if IsOrdinary(entries[probe1], cid, selector) then Some(entries[probe1].ordinaryTarget)
      else if IsOrdinary(entries[probe2], cid, selector) then Some(entries[probe2].ordinaryTarget)
      else None
    }

    function LookupNS(cid: nat, selector: nat, caller: MethodDef, rule: nat): Option<(Option<nat>, MethodDef)>
      requires entries.Length == SIZE
      reads this, entries
    {
      FindNS(entries[..], cid, selector, caller, rule)
    }

    method InsertOrdinary(cid: nat, selector: nat, target: MethodDef, ghost w: World)
      requires WorldOk(w) && Valid(w)
      requires forall o :: o in w.classIdOf && w.classIdOf[o] == cid ==>
        OrdinaryTarget(w, o, selector, Some(cid)) == Activated(o, target)
      modifies entries
      ensures Valid(w) && LookupOrdinary(cid, selector) == Some(target)
      ensures OrdinaryInserted(old(entries[..]), entries[..], cid, selector, target)
    {
      hide OrdinaryTarget, OrdinaryHash, Coherent, NsOk, OrdinaryOk;
      var hash := OrdinaryHash(cid, selector);
      PutOrdinary(hash % SIZE, cid, selector, target, w);
      PutOrdinary((hash / 8) % SIZE, cid, selector, target, w);
    }

    method PutOrdinary(probe: nat, cid: nat, selector: nat, target: MethodDef, ghost w: World)
      requires WorldOk(w) && Valid(w) && probe < SIZE
      requires forall o :: o in w.classIdOf && w.classIdOf[o] == cid ==>
        OrdinaryTarget(w, o, selector, Some(cid)) == Activated(o, target)
      modifies entries
      ensures Valid(w) && entries[..] == old(entries[..])[probe := entries[probe]]
      ensures entries[probe] ==
        old(entries[probe]).(ordinaryCid := cid, ordinarySelector := selector, ordinaryTarget := target)
    {
      hide OrdinaryTarget, Coherent;
      var e := entries[probe].(ordinaryCid := cid, ordinarySelector := selector, ordinaryTarget := target);
      EntryAt(w, entries[..], probe);
      CoherentUpdate(w, entries[..], probe, e);
      entries[probe] := e;
    }

    method InsertNS(cid: nat, selector: nat, caller: MethodDef, rule: nat, absentReceiver: Option<nat>,
                    target: MethodDef)
      requires entries.Length == SIZE
      modifies entries
      ensures entries[..] == NsInserted(old(entries[..]), cid, selector, caller, rule, absentReceiver, target)
      ensures LookupNS(cid, selector, caller, rule) == Some((absentReceiver, target))
    {
      hide NsHash, CidAndRule, FindNS;
      var hash := NsHash(cid, selector, caller);
      var probe1 := hash % SIZE;
      entries[probe1] := NsEntry(entries[probe1], cid, selector, caller, rule, absentReceiver, target);
      var probe2 := (hash / 8) % SIZE;
      entries[probe2] := NsEntry(entries[probe2], cid, selector, caller, rule, absentReceiver, target);
      NsInsertedFound(old(entries[..]), cid, selector, caller, rule, absentReceiver, target);
    }

    method Clear(ghost w: World)
      requires WorldOk(w) && entries.Length == SIZE
      modifies entries
      ensures Valid(w)
    {
      var i := 0;
      while i < SIZE
        invariant i <= SIZE
        invariant forall k :: 0 <= k < i ==>
          entries[k].ordinaryCid == ILLEGAL_CID && entries[k].nsCidAndRule == ILLEGAL_CID * 0x10000
      {
        entries[i] := entries[i].(ordinaryCid := ILLEGAL_CID, nsCidAndRule := ILLEGAL_CID * 0x10000);
        i := i + 1;
      }
    }
  }

  lemma EntryAt(w: World, entries: seq<Entry>, i: nat)
    requires WorldOk(w) && Coherent(w, entries) && i < |entries|
    ensures OrdinaryOk(w, entries[i]) && NsOk(w, entries[i])
  {
  }

  /** An entry of which only the part for lookups with a receiver of the caller matters. */
  ghost function NsShape(selector: nat, caller: MethodDef, absentReceiver: Option<nat>, target: MethodDef): Entry
  {
    Entry(0, 0, target, 0, selector, caller, absentReceiver, target)
  }

  lemma EntryFits(w: World, cid: nat, rule: nat, shape: Entry, before: Entry, after: Entry)
    requires WorldOk(w) && rule < 0x10000 && OrdinaryOk(w, before)
    requires after == before.(nsCidAndRule := CidAndRule(cid, rule), nsSelector := shape.nsSelector,
                              nsCaller := shape.nsCaller,
                              nsAbsentReceiver := shape.nsAbsentReceiver, nsTarget := shape.nsTarget)
    ensures OrdinaryOk(w, after)
    ensures NsOk(w, after) <==> forall o :: o in w.classIdOf && w.classIdOf[o] == cid ==> NsAnswers(w, o, shape, rule)
  {
    hide NsTarget, OrdinaryTarget, CidAndRule;
    CidAndRuleInjective(cid, rule, cid, rule);
    forall o | o in w.classIdOf && w.classIdOf[o] == cid
      ensures cid != ILLEGAL_CID && (NsAnswers(w, o, after, rule) <==> NsAnswers(w, o, shape, rule))
    {
      assert ClassOk(w, cid);
    }
  }
}
