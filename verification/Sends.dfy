/** Sends through the lookup cache: vm/interpreter.cc. */
module Sends {
  import opened Contexts
  import opened Lookup
  import opened LookupCaches

  class Sender {
    const w: World
    const cache: LookupCache

    constructor (w: World)
      requires WorldOk(w)
      ensures Valid() && this.w == w && fresh(cache) && fresh(cache.entries)
    {
      this.w := w;
      cache := new LookupCache(w);
    }

    ghost predicate Valid()
      reads cache, cache.entries
    {
      WorldOk(w) && cache.Valid(w)
    }

    method MethodAt(c: nat, selector: nat) returns (m: Option<MethodDef>)
      requires c in w.classes
      ensures m == MethodIn(w.classes[c].methods, selector)
    {
      var methods := w.classes[c].methods;
      var i := 0;
      while i < |methods|
        invariant i <= |methods| && MethodIn(methods, selector) == MethodIn(methods[i..], selector)
      {
        if methods[i].selector == selector {
          return Some(methods[i]);
        }
        assert methods[i..][1..] == methods[i + 1..];
        i := i + 1;
      }
      m := None;
    }

    method FindApplicationOf(mixin: Option<nat>, start: nat) returns (app: Option<nat>)
      requires WorldOk(w) && start in w.classes
      ensures app == if mixin.None? then None else ApplicationOf(w, mixin.value, Some(start))
      ensures app.Some? ==> app.value in w.classes && ClassOk(w, app.value)
    {
      if mixin.None? {
        return None;
      }
      var c := start;
      while w.classes[c].mixin != mixin.value
        invariant c in w.classes
        invariant ApplicationOf(w, mixin.value, Some(start)) == ApplicationOf(w, mixin.value, Some(c))
        decreases w.classes[c].depth
      {
        assert ClassOk(w, c);
        var superclass := w.classes[c].superclass;
        if superclass.None? {
          return None;
        }
        c := superclass.value;
      }
      app := Some(c);
    }

    // ---- sends to a receiver on the stack ----

    method OrdinarySend(receiver: nat, selector: nat) returns (t: Target)
      requires Valid() && receiver in w.classIdOf
      modifies cache.entries
      ensures Valid() && t == OrdinaryTarget(w, receiver, selector, Some(w.classIdOf[receiver]))
      ensures t.Activated? ==> cache.LookupOrdinary(w.classIdOf[receiver], selector) == Some(t.code)
      ensures if old(cache.LookupOrdinary(w.classIdOf[receiver], selector)).Some? || !t.Activated?
              then cache.entries[..] == old(cache.entries[..])
              else OrdinaryInserted(old(cache.entries[..]), cache.entries[..], w.classIdOf[receiver], selector, t.code)
    {
      hide OrdinaryTarget, WorldOk, OrdinaryHash, NsOk, OrdinaryInserted;
      var target := cache.LookupOrdinary(w.classIdOf[receiver], selector);
      if target.Some? {
        ClassIdKnown(w, receiver);
        return Activated(receiver, target.value);
      }
      t := OrdinarySendMiss(receiver, selector);
    }

    method OrdinarySendMiss(receiver: nat, selector: nat) returns (t: Target)
      requires Valid() && receiver in w.classIdOf
      modifies cache.entries
      ensures Valid() && t == OrdinaryTarget(w, receiver, selector, Some(w.classIdOf[receiver]))
      ensures t.Activated? ==> cache.LookupOrdinary(w.classIdOf[receiver], selector) == Some(t.code)
      ensures if !t.Activated? then cache.entries[..] == old(cache.entries[..])
              else OrdinaryInserted(old(cache.entries[..]), cache.entries[..], w.classIdOf[receiver], selector, t.code)
    {
      hide OrdinaryHash, OrdinaryOk, NsOk, Coherent, MethodIn, OrdinaryInserted;
      var cid := w.classIdOf[receiver];
      var c := Some(cid);
      while c.Some?
        invariant (c.Some? ==> c.value in w.classes) && Valid()
        invariant OrdinaryTarget(w, receiver, selector, c) == OrdinaryTarget(w, receiver, selector, Some(cid))
        invariant cache.entries[..] == old(cache.entries[..])
        decreases Rank(w, c)
      {
        assert ClassOk(w, c.value);
        var m := MethodAt(c.value, selector);
        if m.Some? {
          if m.value.access == Public {
            t := Activated(receiver, m.value);
            forall o | o in w.classIdOf ensures OrdinaryTarget(w, o, selector, Some(cid)) == Activated(o, m.value) {
              OrdinaryForAll(w, receiver, selector, m.value, Some(cid), o);
            }
            cache.InsertOrdinary(cid, selector, m.value, w);
            return;
          } else if m.value.access == Protected {
            return NotUnderstood(receiver, Some(cid), true);
          }
        }
        c := w.classes[c.value].superclass;
      }
      t := NotUnderstood(receiver, Some(cid), true);
    }

    // ---- sends that bring their own receiver ----

    /** The answer of the cache, with the receiver of the caller in place of no absent receiver. */
    method TryCache(self: nat, selector: nat, caller: MethodDef, rule: nat) returns (t: Option<Target>)
      requires Valid() && self in w.classIdOf && rule < 0x10000
      ensures t.Some? <==> cache.LookupNS(w.classIdOf[self], selector, caller, rule).Some?
      ensures t.Some? ==> t.value == NsTarget(w, self, selector, caller, rule)
    {
      hide NsTarget, WorldOk, NsHash, OrdinaryOk, CidAndRule;
      var found := cache.LookupNS(w.classIdOf[self], selector, caller, rule);
      if found.None? {
        return None;
      }
      ClassIdKnown(w, self);
      CidAndRuleInjective(w.classIdOf[self], rule, w.classIdOf[self], rule);
      ghost var e :| e in cache.entries[..] && IsNs(e, CidAndRule(w.classIdOf[self], rule), selector, caller)
                     && found.value == (e.nsAbsentReceiver, e.nsTarget);
      assert NsOk(w, e) && NsAnswers(w, self, e, rule);
      var absentReceiver := found.value.0;
      t := Some(Activated(if absentReceiver.None? then self else absentReceiver.value, found.value.1));
    }

    /** Remembers what a send found. */
    method Remember(self: nat, selector: nat, caller: MethodDef, rule: nat, receiver: nat, m: MethodDef)
      requires Valid() && self in w.classIdOf && rule < 0x10000
      requires NsTarget(w, self, selector, caller, rule) == Activated(receiver, m)
      modifies cache.entries
      ensures Valid() <==> Cacheable(w, self, selector, caller, rule)
      ensures cache.entries[..] == Recorded(old(cache.entries[..]), w.classIdOf[self], selector, caller, rule, self,
                                            Activated(receiver, m))
    {
      hide NsTarget, NsHash, OrdinaryOk, NsOk, Coherent, CidAndRule, Cacheable, NsAnswers;
      var absentReceiver := if receiver == self then None else Some(receiver);
      NsForAll(w, self, selector, caller, rule, receiver, m);
      NsInsertedCoherent(w, cache.entries[..], w.classIdOf[self], selector, caller, rule, absentReceiver, m);
      cache.InsertNS(w.classIdOf[self], selector, caller, rule, absentReceiver, m);
    }

    method ProtectedSend(self: nat, selector: nat, caller: MethodDef, rule: nat, receiver: nat, start: Option<nat>)
      returns (t: Target)
      requires Valid() && self in w.classIdOf && rule < 0x10000 && (start.Some? ==> start.value in w.classes)
      requires NsTarget(w, self, selector, caller, rule) == ProtectedTarget(w, receiver, selector, start)
      modifies cache.entries
      ensures t == NsTarget(w, self, selector, caller, rule)
      ensures Valid() <==> !t.Activated? || Cacheable(w, self, selector, caller, rule)
      ensures cache.entries[..] == Recorded(old(cache.entries[..]), w.classIdOf[self], selector, caller, rule, self, t)
    {
      hide WorldOk, NsTarget, OrdinaryOk, NsOk, Coherent, MethodIn, NonPrivate;
      EndOfSuperclasses(w, selector);
      var c := start;
      while c.Some?
        invariant (c.Some? ==> c.value in w.classes) && Valid()
        invariant NonPrivate(w, selector, c) == NonPrivate(w, selector, start)
        invariant cache.entries[..] == old(cache.entries[..])
        decreases Rank(w, c)
      {
        NonPrivateStep(w, selector, c.value);
        var m := MethodAt(c.value, selector);
        if m.Some? && m.value.access != Private {
          t := Activated(receiver, m.value);
          Remember(self, selector, caller, rule, receiver, m.value);
          return;
        }
        c := w.classes[c.value].superclass;
      }
      t := NotUnderstood(receiver, start, false);
    }

    method LexicalSend(self: nat, selector: nat, caller: MethodDef, rule: nat, receiver: nat, mixin: Option<nat>)
      returns (t: Target)
      requires Valid() && self in w.classIdOf && rule < 0x10000 && receiver in w.classIdOf
      requires NsTarget(w, self, selector, caller, rule) == LexicalTarget(w, receiver, selector, mixin)
      modifies cache.entries
      ensures t == NsTarget(w, self, selector, caller, rule)
      ensures Valid() <==> !t.Activated? || Cacheable(w, self, selector, caller, rule)
      ensures cache.entries[..] == Recorded(old(cache.entries[..]), w.classIdOf[self], selector, caller, rule, self, t)
    {
      hide NsTarget, ProtectedTarget, OrdinaryOk, NsOk, Coherent, MethodIn, ApplicationOf;
      var receiverClass := w.classIdOf[receiver];
      var app := FindApplicationOf(mixin, receiverClass);
      if app.None? {
        return Fatal;
      }
      var m := MethodAt(app.value, selector);
      if m.Some? && m.value.access == Private {
        t := Activated(receiver, m.value);
        Remember(self, selector, caller, rule, receiver, m.value);
        return;
      }
      t := ProtectedSend(self, selector, caller, rule, receiver, Some(receiverClass));
    }

    method SelfSend(self: nat, selector: nat, caller: MethodDef) returns (t: Target)
      requires Valid() && self in w.classIdOf
      modifies cache.entries
      ensures Valid() && t == NsTarget(w, self, selector, caller, SELF)
      ensures cache.entries[..] ==
        if old(cache.LookupNS(w.classIdOf[self], selector, caller, SELF)).Some? then old(cache.entries[..])
        else Recorded(old(cache.entries[..]), w.classIdOf[self], selector, caller, SELF, self, t)
    {
      hide LexicalTarget, OrdinaryOk, NsOk, Coherent;
      var hit := TryCache(self, selector, caller, SELF);
      if hit.Some? {
        return hit.value;
      }
      t := LexicalSend(self, selector, caller, SELF, self, Some(caller.mixin));
    }

    method SuperSend(self: nat, selector: nat, caller: MethodDef) returns (t: Target)
      requires Valid() && self in w.classIdOf
      modifies cache.entries
      ensures Valid() && t == NsTarget(w, self, selector, caller, SUPER)
      ensures cache.entries[..] ==
        if old(cache.LookupNS(w.classIdOf[self], selector, caller, SUPER)).Some? then old(cache.entries[..])
        else Recorded(old(cache.entries[..]), w.classIdOf[self], selector, caller, SUPER, self, t)
    {
      hide ProtectedTarget, OrdinaryOk, NsOk, Coherent, ApplicationOf;
      var hit := TryCache(self, selector, caller, SUPER);
      if hit.Some? {
        return hit.value;
      }
      var app := FindApplicationOf(Some(caller.mixin), w.classIdOf[self]);
      if app.None? {
        return Fatal;
      }
      t := ProtectedSend(self, selector, caller, SUPER, self, w.classes[app.value].superclass);
    }

    /** depth is at least one: the cache is assumed to hold an absent receiver. */
    method OuterSend(self: nat, selector: nat, caller: MethodDef, depth: nat) returns (t: Target)
      requires Valid() && self in w.classIdOf && 0 < depth < 256
      modifies cache.entries
      ensures t == NsTarget(w, self, selector, caller, depth)
      ensures Valid() <==> !t.Activated? || Cacheable(w, self, selector, caller, depth)
                           || old(cache.LookupNS(w.classIdOf[self], selector, caller, depth)).Some?
      ensures cache.entries[..] ==
        if old(cache.LookupNS(w.classIdOf[self], selector, caller, depth)).Some? then old(cache.entries[..])
        else Recorded(old(cache.entries[..]), w.classIdOf[self], selector, caller, depth, self, t)
    {
      hide WorldOk, LexicalTarget, OrdinaryOk, NsOk, Coherent, ApplicationOf, OuterTarget;
      OuterEnds(w, selector);
      var hit := TryCache(self, selector, caller, depth);
      if hit.Some? {
        return hit.value;
      }
      var receiver, mixin, count := self, Some(caller.mixin), 0;
      while count < depth
        invariant count <= depth && receiver in w.classIdOf && Valid()
        invariant OuterTarget(w, receiver, selector, mixin, depth - count) == NsTarget(w, self, selector, caller, depth)
        invariant cache.entries[..] == old(cache.entries[..])
      {
        OuterStep(w, receiver, selector, mixin, depth - count);
        ClassIdKnown(w, receiver);
        count := count + 1;
        var app := FindApplicationOf(mixin, w.classIdOf[receiver]);
        if app.None? {
          return Fatal;
        }
        receiver := w.classes[app.value].enclosingObject;
        mixin := w.mixins[mixin.value].enclosing;
      }
      t := LexicalSend(self, selector, caller, depth, receiver, mixin);
    }

    method ImplicitReceiverSend(self: nat, selector: nat, caller: MethodDef) returns (t: Target)
      requires Valid() && self in w.classIdOf
      modifies cache.entries
      ensures t == NsTarget(w, self, selector, caller, IMPLICIT)
      ensures Valid() <==> !t.Activated? || Cacheable(w, self, selector, caller, IMPLICIT)
                           || old(cache.LookupNS(w.classIdOf[self], selector, caller, IMPLICIT)).Some?
      ensures cache.entries[..] ==
        if old(cache.LookupNS(w.classIdOf[self], selector, caller, IMPLICIT)).Some? then old(cache.entries[..])
        else Recorded(old(cache.entries[..]), w.classIdOf[self], selector, caller, IMPLICIT, self, t)
    {
      hide LexicalTarget, ProtectedTarget, OrdinaryOk, NsOk, Coherent, ApplicationOf, MethodIn;
      var hit := TryCache(self, selector, caller, IMPLICIT);
      if hit.Some? {
        return hit.value;
      }
      var candidate, mixin := self, caller.mixin;
      while true
        invariant candidate in w.classIdOf && Valid()
        invariant ImplicitTarget(w, self, selector, candidate, mixin) == NsTarget(w, self, selector, caller, IMPLICIT)
        invariant cache.entries[..] == old(cache.entries[..])
        decreases MixinRank(w, Some(mixin))
      {
        var app := FindApplicationOf(Some(mixin), w.classIdOf[candidate]);
        if app.None? {
          return Fatal;
        }
        var m := MethodAt(app.value, selector);
        if m.Some? {
          t := LexicalSend(self, selector, caller, IMPLICIT, candidate, Some(mixin));
          return;
        }
        ghost var out := Outward(w, candidate, Some(mixin));
        assert out == Some((w.classes[app.value].enclosingObject, w.mixins[mixin].enclosing));
        var enclosing := w.mixins[mixin].enclosing;
        if enclosing.None? {
          break;
        }
        mixin := enclosing.value;
        candidate := w.classes[app.value].enclosingObject;
      }
      t := ProtectedSend(self, selector, caller, IMPLICIT, self, Some(w.classIdOf[self]));
    }
  }

  /** Class ids are never zero. */
  lemma ClassIdKnown(w: World, o: nat)
    requires WorldOk(w) && o in w.classIdOf
    ensures w.classIdOf[o] in w.classes && w.classIdOf[o] != ILLEGAL_CID
  {
    assert ClassOk(w, w.classIdOf[o]);
  }

  lemma EndOfSuperclasses(w: World, selector: nat)
    requires WorldOk(w)
    ensures NonPrivate(w, selector, None) == None
  {
  }

  lemma NonPrivateStep(w: World, selector: nat, c: nat)
    requires WorldOk(w) && c in w.classes
    ensures ClassOk(w, c)
    ensures var m := MethodIn(w.classes[c].methods, selector);
      NonPrivate(w, selector, Some(c)) ==
      if m.Some? && m.value.access != Private then m else NonPrivate(w, selector, w.classes[c].superclass)
  {
  }

  lemma OuterEnds(w: World, selector: nat)
    requires WorldOk(w)
    ensures forall o, mixin :: o in w.classIdOf ==>
      OuterTarget(w, o, selector, mixin, 0) == LexicalTarget(w, o, selector, mixin)
  {
  }

  lemma OuterStep(w: World, receiver: nat, selector: nat, mixin: Option<nat>, depth: nat)
    requires WorldOk(w) && receiver in w.classIdOf && depth > 0
    ensures var app := if mixin.None? then None else ApplicationOf(w, mixin.value, Some(w.classIdOf[receiver]));
      if app.None? then OuterTarget(w, receiver, selector, mixin, depth) == Fatal
      else app.value in w.classes && mixin.value in w.mixins && w.classes[app.value].enclosingObject in w.classIdOf
           && OuterTarget(w, receiver, selector, mixin, depth) ==
              OuterTarget(w, w.classes[app.value].enclosingObject, selector, w.mixins[mixin.value].enclosing, depth - 1)
  {
    if mixin.Some? { ApplicationExists(w, mixin.value, Some(w.classIdOf[receiver])); }
  }

  /** What an ordinary send finds depends only on the class of the receiver. */
  lemma {:induction false} OrdinaryForAll(w: World, receiver: nat, selector: nat, m: MethodDef, c: Option<nat>,
                                          other: nat)
    requires WorldOk(w) && receiver in w.classIdOf && (c.Some? ==> c.value in w.classes) && other in w.classIdOf
    requires OrdinaryTarget(w, receiver, selector, c) == Activated(receiver, m)
    ensures OrdinaryTarget(w, other, selector, c) == Activated(other, m)
    decreases Rank(w, c)
  {
    hide MethodIn, WorldOk;
    ClassFits(w, c.value);
    var found := MethodIn(w.classes[c.value].methods, selector);
    if found.None? || found.value.access == Private {
      OrdinaryForAll(w, receiver, selector, m, w.classes[c.value].superclass, other);
    }
  }

  /** The entry that a send makes answers for its whole class exactly if what it finds can be cached. */
  lemma NsForAll(w: World, self: nat, selector: nat, caller: MethodDef, rule: nat, receiver: nat, m: MethodDef)
    requires WorldOk(w) && self in w.classIdOf
    requires NsTarget(w, self, selector, caller, rule) == Activated(receiver, m)
    ensures Cacheable(w, self, selector, caller, rule) <==>
      forall o :: o in w.classIdOf && w.classIdOf[o] == w.classIdOf[self] ==>
        NsAnswers(w, o, NsShape(selector, caller, if receiver == self then None else Some(receiver), m), rule)
  {
    hide NsTarget, ComesBack, WorldOk;
    var e := NsShape(selector, caller, if receiver == self then None else Some(receiver), m);
    if rule in {SELF, SUPER} {
      OwnReceiver(w, self, selector, caller, rule);
      NoWayBack(w, self, selector, caller, rule);
    } else if rule != IMPLICIT {
      OuterComesBack(w, self, selector, caller, rule);
    }
    forall o | o in w.classIdOf && w.classIdOf[o] == w.classIdOf[self]
      ensures NsAnswers(w, o, e, rule) <==>
        !ComesBack(w, self, selector, caller, rule) || (rule == IMPLICIT && o == self)
    {
      SameClassSameTarget(w, self, o, selector, caller, rule);
    }
    assert NsAnswers(w, self, e, rule) || rule != IMPLICIT;
  }

  lemma NoWayBack(w: World, self: nat, selector: nat, caller: MethodDef, rule: nat)
    requires WorldOk(w) && self in w.classIdOf && rule in {SELF, SUPER}
    ensures !ComesBack(w, self, selector, caller, rule)
  {
  }

  /**
   * Object 5 sends first, and what it finds is cached without an absent receiver, for it is its own. The next send from
   * object 6, of the same class, hits: it would run the method with receiver 6, where the lookup finds receiver 5.
   */
  lemma WrongHit(entries: seq<Entry>)
    requires |entries| == SIZE
    ensures WorldOk(Tangled()) && Tangled().classIdOf[5] == Tangled().classIdOf[6] == 1
    ensures NsTarget(Tangled(), 5, 40, CALLER, IMPLICIT) == Activated(5, FOUND)
      == NsTarget(Tangled(), 6, 40, CALLER, IMPLICIT)
    ensures FindNS(NsInserted(entries, 1, 40, CALLER, IMPLICIT, None, FOUND), 1, 40, CALLER, IMPLICIT)
      == Some((None, FOUND))
  {
    hide NsTarget, NsInserted, FindNS;
    TangledTargets();
    NsInsertedFound(entries, 1, 40, CALLER, IMPLICIT, None, FOUND);
  }

  /**
   * What the kernel's outer send finds is the kernel's own, and so it is cached without an absent receiver. The next
   * send hits, also one from the kernel, and has no receiver to activate the method with.
   */
  lemma NoReceiver(entries: seq<Entry>)
    requires |entries| == SIZE
    ensures WorldOk(Booted()) && Booted().classIdOf[5] == 1
    ensures NsTarget(Booted(), 5, 40, ASKER, 1) == Activated(5, SERVICE) && !Cacheable(Booted(), 5, 40, ASKER, 1)
    ensures FindNS(NsInserted(entries, 1, 40, ASKER, 1, None, SERVICE), 1, 40, ASKER, 1) == Some((None, SERVICE))
  {
    hide NsTarget, NsInserted, FindNS, ComesBack;
    KernelComesBack();
    NsInsertedFound(entries, 1, 40, ASKER, 1, None, SERVICE);
  }
}
