/** What the lookups come to, read off the superclasses and the enclosing objects: vm/interpreter.cc. */
module LookupRules {
  import opened Contexts
  import opened Lookup

  ghost function Above(w: World, c: nat): Option<nat> { if c in w.classes then w.classes[c].superclass else None }

  /** A class and its superclasses, to the last one. */
  ghost predicate Lineage(w: World, c: Option<nat>, p: seq<nat>)
  {
    && (if c.None? then p == [] else p != [] && p[0] == c.value && Above(w, p[|p| - 1]) == None)
    && forall j :: 0 <= j < |p| ==> p[j] in w.classes && (j > 0 ==> Above(w, p[j - 1]) == Some(p[j]))
  }

  lemma {:induction false} LineageExists(w: World, c: Option<nat>) returns (p: seq<nat>)
    requires WorldOk(w) && (c.Some? ==> c.value in w.classes)
    ensures Lineage(w, c, p)
    decreases Rank(w, c)
  {
    if c.None? {
      p := [];
    } else {
      assert ClassOk(w, c.value);
      var rest := LineageExists(w, w.classes[c.value].superclass);
      p := [c.value] + rest;
      LineagePush(w, c.value, rest);
    }
  }

  lemma LineagePush(w: World, c: nat, rest: seq<nat>)
    requires c in w.classes && Lineage(w, Above(w, c), rest)
    ensures Lineage(w, Some(c), [c] + rest)
  {
    hide Above;
    var p := [c] + rest;
    forall j | 0 <= j < |p| ensures p[j] in w.classes && (j > 0 ==> Above(w, p[j - 1]) == Some(p[j])) {
      if j > 0 { assert p[j] == rest[j - 1] && (j > 1 ==> p[j - 1] == rest[j - 2]); }
    }
  }

  lemma LineageTail(w: World, c: Option<nat>, p: seq<nat>)
    requires WorldOk(w) && Lineage(w, c, p) && p != []
    ensures c == Some(p[0]) && p[0] in w.classes && ClassOk(w, p[0])
    ensures Lineage(w, w.classes[p[0]].superclass, p[1..])
  {
    hide WorldOk;
    ClassFits(w, p[0]);
    var rest := p[1..];
    if rest != [] { assert rest[0] == p[1]; }
    forall j | 0 <= j < |rest| ensures rest[j] in w.classes && (j > 0 ==> Above(w, rest[j - 1]) == Some(rest[j])) {
      assert rest[j] == p[j + 1] && (j > 0 ==> rest[j - 1] == p[j]);
    }
  }

  /** The method that a class itself has for the selector. */
  ghost function Own(w: World, c: nat, selector: nat): Option<MethodDef>
  {
    if c in w.classes then MethodIn(w.classes[c].methods, selector) else None
  }

  /** It is the first one with the selector. */
  lemma {:induction false} MethodInIs(methods: seq<MethodDef>, selector: nat, m: MethodDef)
    ensures MethodIn(methods, selector) == None <==> forall i :: 0 <= i < |methods| ==> methods[i].selector != selector
    ensures MethodIn(methods, selector) == Some(m) <==>
      exists i :: 0 <= i < |methods| && FirstAt(methods, selector, i) && methods[i] == m
  {
    if methods != [] && methods[0].selector != selector {
      MethodInIs(methods[1..], selector, m);
      assert forall i :: 0 <= i < |methods[1..]| ==> methods[1..][i] == methods[i + 1];
      forall i | 0 <= i < |methods| - 1
        ensures FirstAt(methods[1..], selector, i) <==> FirstAt(methods, selector, i + 1)
      {
        if FirstAt(methods[1..], selector, i) {
          assert forall j :: 0 < j < i + 1 ==> methods[j] == methods[1..][j - 1];
        }
      }
      if exists i :: 0 <= i < |methods| && FirstAt(methods, selector, i) && methods[i] == m {
        var i :| 0 <= i < |methods| && FirstAt(methods, selector, i) && methods[i] == m;
        assert FirstAt(methods[1..], selector, i - 1);
      }
    } else if methods != [] {
      assert FirstAt(methods, selector, 0);
    }
  }

  ghost predicate FirstAt(methods: seq<MethodDef>, selector: nat, i: nat)
    requires i < |methods|
  {
    methods[i].selector == selector && forall j :: 0 <= j < i ==> methods[j].selector != selector
  }

  /** A class that an outside sender does not see a method in. */
  ghost predicate Silent(w: World, c: nat, selector: nat)
  {
    Own(w, c, selector).None? || Own(w, c, selector).value.access == Private
  }

  /** The first class of the lineage that is not silent is the one at i. */
  ghost predicate SpeaksFirst(w: World, p: seq<nat>, selector: nat, i: int)
  {
    0 <= i < |p| && !Silent(w, p[i], selector) && forall j :: 0 <= j < i ==> Silent(w, p[j], selector)
  }

  lemma {:induction false} FirstSpeaker(w: World, p: seq<nat>, selector: nat) returns (i: nat)
    ensures i <= |p| && forall j :: 0 <= j < i ==> Silent(w, p[j], selector)
    ensures i < |p| ==> SpeaksFirst(w, p, selector, i)
  {
    i := 0;
    while i < |p| && Silent(w, p[i], selector)
      invariant i <= |p| && forall j :: 0 <= j < i ==> Silent(w, p[j], selector)
    {
      i := i + 1;
    }
  }

  lemma OneSpeaker(w: World, p: seq<nat>, selector: nat, i: int)
    requires 0 <= i <= |p| && (forall j :: 0 <= j < i ==> Silent(w, p[j], selector))
    requires i < |p| ==> SpeaksFirst(w, p, selector, i)
    ensures forall k :: SpeaksFirst(w, p, selector, k) ==> k == i
  {
    hide Silent;
  }

  lemma {:induction false} OrdinaryAt(w: World, receiver: nat, selector: nat, c: Option<nat>, p: seq<nat>, i: nat)
    requires WorldOk(w) && receiver in w.classIdOf && Lineage(w, c, p) && (c.Some? ==> c.value in w.classes)
    requires i <= |p| && (forall j :: 0 <= j < i ==> Silent(w, p[j], selector))
    requires i < |p| ==> !Silent(w, p[i], selector)
    ensures OrdinaryTarget(w, receiver, selector, c) ==
      if i < |p| && Own(w, p[i], selector).value.access == Public
        then Activated(receiver, Own(w, p[i], selector).value)
      else NotUnderstood(receiver, Some(w.classIdOf[receiver]), true)
    decreases |p|
  {
    hide WorldOk, MethodIn;
    if p != [] {
      LineageTail(w, c, p);
      if i > 0 {
        OrdinaryAt(w, receiver, selector, w.classes[p[0]].superclass, p[1..], i - 1);
      }
    }
  }

  /**
   * An ordinary send activates a method exactly if it is public and the first on the way up that is not private. One
   * that is protected stops the lookup, and a private one does not.
   */
  lemma OrdinaryRule(w: World, receiver: nat, selector: nat, p: seq<nat>)
    requires WorldOk(w) && receiver in w.classIdOf && Lineage(w, Some(w.classIdOf[receiver]), p)
    ensures var t := OrdinaryTarget(w, receiver, selector, Some(w.classIdOf[receiver]));
      && (forall m :: t == Activated(receiver, m) <==>
            exists i :: SpeaksFirst(w, p, selector, i) && Own(w, p[i], selector) == Some(m) && m.access == Public)
      && ((exists m :: t == Activated(receiver, m)) || t == NotUnderstood(receiver, Some(w.classIdOf[receiver]), true))
  {
    hide OrdinaryTarget, Lineage, MethodIn;
    var i := FirstSpeaker(w, p, selector);
    OrdinaryAt(w, receiver, selector, Some(w.classIdOf[receiver]), p, i);
    OneSpeaker(w, p, selector, i);
  }

  lemma {:induction false} NonPrivateAt(w: World, selector: nat, c: Option<nat>, p: seq<nat>, i: nat)
    requires WorldOk(w) && Lineage(w, c, p) && (c.Some? ==> c.value in w.classes)
    requires i <= |p| && (forall j :: 0 <= j < i ==> Silent(w, p[j], selector))
    requires i < |p| ==> !Silent(w, p[i], selector)
    ensures NonPrivate(w, selector, c) == if i < |p| then Own(w, p[i], selector) else None
    decreases |p|
  {
    hide WorldOk, MethodIn;
    if p != [] {
      LineageTail(w, c, p);
      if i > 0 {
        NonPrivateAt(w, selector, w.classes[p[0]].superclass, p[1..], i - 1);
      }
    }
  }

  /** A protected lookup activates the first method on the way up that is not private. */
  lemma ProtectedRule(w: World, receiver: nat, selector: nat, c: Option<nat>, p: seq<nat>)
    requires WorldOk(w) && Lineage(w, c, p) && (c.Some? ==> c.value in w.classes)
    ensures var t := ProtectedTarget(w, receiver, selector, c);
      && (forall m :: t == Activated(receiver, m) <==>
            exists i :: SpeaksFirst(w, p, selector, i) && Own(w, p[i], selector) == Some(m))
      && ((exists m :: t == Activated(receiver, m)) || t == NotUnderstood(receiver, c, false))
  {
    hide NonPrivate, Lineage, MethodIn;
    var i := FirstSpeaker(w, p, selector);
    NonPrivateAt(w, selector, c, p, i);
    OneSpeaker(w, p, selector, i);
  }

  /** The class at i is the first application of the mixin. */
  ghost predicate AppliesFirst(w: World, p: seq<nat>, mixin: nat, i: int)
  {
    && 0 <= i < |p| && p[i] in w.classes && w.classes[p[i]].mixin == mixin
    && forall j :: 0 <= j < i ==> p[j] in w.classes && w.classes[p[j]].mixin != mixin
  }

  lemma AppliesLater(w: World, p: seq<nat>, mixin: nat, i: int)
    requires p != [] && p[0] in w.classes && w.classes[p[0]].mixin != mixin && AppliesFirst(w, p[1..], mixin, i)
    ensures AppliesFirst(w, p, mixin, i + 1)
  {
    assert forall j :: 0 < j < |p| ==> p[j] == p[1..][j - 1];
  }

  lemma {:induction false} ApplicationAt(w: World, mixin: nat, c: Option<nat>, p: seq<nat>)
    requires WorldOk(w) && Lineage(w, c, p) && (c.Some? ==> c.value in w.classes)
    ensures ApplicationOf(w, mixin, c).None? ==> forall j :: 0 <= j < |p| ==> w.classes[p[j]].mixin != mixin
    ensures ApplicationOf(w, mixin, c).Some? ==>
      exists i :: AppliesFirst(w, p, mixin, i) && ApplicationOf(w, mixin, c) == Some(p[i])
    decreases |p|
  {
    hide WorldOk;
    if p != [] {
      LineageTail(w, c, p);
      if w.classes[p[0]].mixin == mixin {
        assert AppliesFirst(w, p, mixin, 0);
      } else {
        ApplicationAt(w, mixin, w.classes[p[0]].superclass, p[1..]);
        if ApplicationOf(w, mixin, c).Some? {
          var i :| AppliesFirst(w, p[1..], mixin, i) && ApplicationOf(w, mixin, c) == Some(p[1..][i]);
          AppliesLater(w, p, mixin, i);
        } else {
          assert forall j :: 0 < j < |p| ==> p[j] == p[1..][j - 1];
        }
      }
    }
  }

  /** The application of a mixin is the first class on the way up that applies it. */
  lemma ApplicationRule(w: World, mixin: nat, c: Option<nat>, p: seq<nat>)
    requires WorldOk(w) && Lineage(w, c, p) && (c.Some? ==> c.value in w.classes)
    ensures ApplicationOf(w, mixin, c).Some? <==> exists i :: AppliesFirst(w, p, mixin, i)
    ensures forall i :: AppliesFirst(w, p, mixin, i) ==> ApplicationOf(w, mixin, c) == Some(p[i])
  {
    hide ApplicationOf, WorldOk;
    ApplicationAt(w, mixin, c, p);
    forall i | AppliesFirst(w, p, mixin, i) ensures ApplicationOf(w, mixin, c) == Some(p[i]) {
      var k :| AppliesFirst(w, p, mixin, k) && ApplicationOf(w, mixin, c) == Some(p[k]);
      OneApplication(w, p, mixin, i, k);
    }
  }

  lemma OneApplication(w: World, p: seq<nat>, mixin: nat, i: int, k: int)
    requires AppliesFirst(w, p, mixin, i) && AppliesFirst(w, p, mixin, k)
    ensures i == k
  {
  }

  /**
   * A lexical send activates a private method of the receiver's application of the mixin, whatever the subclasses have.
   * Otherwise it is a protected lookup from the receiver's class. Without an application it is a fatal error.
   */
  lemma LexicalRule(w: World, receiver: nat, selector: nat, mixin: nat, p: seq<nat>)
    requires WorldOk(w) && receiver in w.classIdOf && Lineage(w, Some(w.classIdOf[receiver]), p)
    ensures var t := LexicalTarget(w, receiver, selector, Some(mixin));
      && (t == Fatal <==> forall i :: !AppliesFirst(w, p, mixin, i))
      && forall i :: AppliesFirst(w, p, mixin, i) ==>
           var m := Own(w, p[i], selector);
           t == if m.Some? && m.value.access == Private then Activated(receiver, m.value)
                else ProtectedTarget(w, receiver, selector, Some(w.classIdOf[receiver]))
  {
    hide ApplicationOf, WorldOk, MethodIn, Lineage, ProtectedTarget;
    ClassKnown(w, receiver);
    ApplicationRule(w, mixin, Some(w.classIdOf[receiver]), p);
    ApplicationKnown(w, mixin, receiver);
    LexicalReceiver(w, receiver, selector, Some(mixin));
  }

  lemma ClassKnown(w: World, o: nat)
    requires WorldOk(w) && o in w.classIdOf
    ensures w.classIdOf[o] in w.classes
  {
  }

  /** A super send is a protected lookup that starts above the application of the caller's mixin. */
  lemma SuperRule(w: World, receiver: nat, selector: nat, mixin: nat, p: seq<nat>)
    requires WorldOk(w) && receiver in w.classIdOf && Lineage(w, Some(w.classIdOf[receiver]), p)
    ensures var t := SuperTarget(w, receiver, selector, mixin);
      && (t == Fatal <==> forall i :: !AppliesFirst(w, p, mixin, i))
      && forall i :: AppliesFirst(w, p, mixin, i) ==>
           var above := if i + 1 < |p| then Some(p[i + 1]) else None;
           && Lineage(w, above, p[i + 1..]) && (above.Some? ==> above.value in w.classes)
           && t == ProtectedTarget(w, receiver, selector, above)
  {
    hide ApplicationOf, WorldOk, MethodIn, NonPrivate;
    ClassKnown(w, receiver);
    ApplicationRule(w, mixin, Some(w.classIdOf[receiver]), p);
    ApplicationKnown(w, mixin, receiver);
  }

  /** Which lookup each kind of send does. */
  lemma SendRules(w: World, self: nat, selector: nat, caller: MethodDef, depth: nat)
    requires WorldOk(w) && self in w.classIdOf && 0 < depth < 256
    ensures NsTarget(w, self, selector, caller, SELF) == LexicalTarget(w, self, selector, Some(caller.mixin))
    ensures NsTarget(w, self, selector, caller, SUPER) == SuperTarget(w, self, selector, caller.mixin)
    ensures NsTarget(w, self, selector, caller, depth) == OuterTarget(w, self, selector, Some(caller.mixin), depth)
    ensures NsTarget(w, self, selector, caller, IMPLICIT) == ImplicitTarget(w, self, selector, self, caller.mixin)
  {
    hide LexicalTarget, SuperTarget, ImplicitTarget, WorldOk;
  }

  // ---- enclosing objects ----

  /** One step outwards leads to the object around the application of the mixin, and to the mixin around the mixin. */
  lemma OutwardRule(w: World, o: nat, mixin: nat, p: seq<nat>)
    requires WorldOk(w) && o in w.classIdOf && Lineage(w, Some(w.classIdOf[o]), p)
    ensures Outward(w, o, Some(mixin)) == None <==> forall i :: !AppliesFirst(w, p, mixin, i)
    ensures forall i :: AppliesFirst(w, p, mixin, i) ==> mixin in w.mixins
    ensures forall i :: AppliesFirst(w, p, mixin, i) ==>
      Outward(w, o, Some(mixin)) == Some((w.classes[p[i]].enclosingObject, w.mixins[mixin].enclosing))
  {
    hide ApplicationOf, WorldOk, Lineage;
    ClassKnown(w, o);
    ApplicationRule(w, mixin, Some(w.classIdOf[o]), p);
    ApplicationFound(w, mixin, o);
  }

  /** Objects around each other, with the mixins reached. */
  ghost predicate Outwards(w: World, q: seq<(nat, Option<nat>)>)
    requires WorldOk(w)
  {
    && q != [] && (forall j :: 0 <= j < |q| ==> q[j].0 in w.classIdOf)
    && forall j :: 0 < j < |q| ==> Outward(w, q[j - 1].0, q[j - 1].1) == Some(q[j])
  }

  lemma OutwardsTail(w: World, q: seq<(nat, Option<nat>)>)
    requires WorldOk(w) && Outwards(w, q) && |q| > 1
    ensures Outwards(w, q[1..]) && Outward(w, q[0].0, q[0].1) == Some(q[1]) && q[1..][0] == q[1]
  {
    hide WorldOk, Outward;
    var rest := q[1..];
    forall j | 0 < j < |rest| ensures Outward(w, rest[j - 1].0, rest[j - 1].1) == Some(rest[j]) {
      assert rest[j] == q[j + 1] && rest[j - 1] == q[j];
    }
  }

  /** An outer send of depth n is a lexical send to the object n steps outwards, with the mixin reached there. */
  lemma {:induction false} OuterRule(w: World, selector: nat, q: seq<(nat, Option<nat>)>)
    requires WorldOk(w) && Outwards(w, q)
    ensures OuterTarget(w, q[0].0, selector, q[0].1, |q| - 1) ==
      LexicalTarget(w, q[|q| - 1].0, selector, q[|q| - 1].1)
    ensures Reached(w, q[0].0, q[0].1, |q| - 1) == Some(q[|q| - 1])
    decreases |q|
  {
    hide WorldOk, Outward, Outwards, LexicalTarget;
    OutwardsKnown(w, q);
    if |q| > 1 {
      OutwardsTail(w, q);
      OuterRule(w, selector, q[1..]);
      assert q[1..][|q| - 2] == q[|q| - 1];
    }
  }

  lemma OutwardsKnown(w: World, q: seq<(nat, Option<nat>)>)
    requires WorldOk(w) && Outwards(w, q)
    ensures q != [] && forall j :: 0 <= j < |q| ==> q[j].0 in w.classIdOf
  {
  }

  /** The object's application of the mixin does not have the method itself. */
  ghost predicate Without(w: World, o: nat, mixin: Option<nat>, selector: nat)
    requires WorldOk(w) && o in w.classIdOf
  {
    && mixin.Some? && ApplicationOf(w, mixin.value, Some(w.classIdOf[o])).Some?
    && Own(w, ApplicationOf(w, mixin.value, Some(w.classIdOf[o])).value, selector).None?
  }

  /**
   * From the receiver on outwards, q are objects of which all but the last are without the method. If the last one has
   * it, an implicit send is a lexical send to that one. If not, and nothing is around its mixin, it is a protected
   * lookup in the receiver after all. If it does not apply its mixin it is a fatal error.
   */
  lemma {:induction false} ImplicitRule(w: World, self: nat, selector: nat, q: seq<(nat, Option<nat>)>)
    requires WorldOk(w) && self in w.classIdOf && Outwards(w, q) && q[0].1.Some?
    requires forall j :: 0 <= j < |q| - 1 ==> Without(w, q[j].0, q[j].1, selector)
    requires q[|q| - 1].1.None? || !Without(w, q[|q| - 1].0, q[|q| - 1].1, selector)
    ensures var last := q[|q| - 1];
      ImplicitTarget(w, self, selector, q[0].0, q[0].1.value) ==
      if last.1.None? then ProtectedTarget(w, self, selector, Some(w.classIdOf[self]))
      else if ApplicationOf(w, last.1.value, Some(w.classIdOf[last.0])).None? then Fatal
      else LexicalTarget(w, last.0, selector, last.1)
    ensures var last := q[|q| - 1];
      Stop(w, q[0].0, selector, q[0].1.value) ==
      if last.1.None? || ApplicationOf(w, last.1.value, Some(w.classIdOf[last.0])).None? then None else Some(last.0)
    decreases |q|
  {
    hide WorldOk, Outwards, LexicalTarget, ProtectedTarget, ApplicationOf, MethodIn, Outward;
    OutwardsKnown(w, q);
    ImplicitStep(w, self, selector, q[0].0, q[0].1.value);
    ApplicationKnown(w, q[0].1.value, q[0].0);
    NoWayOut(w, q[0].0, q[0].1.value);
    if |q| > 1 {
      assert Without(w, q[0].0, q[0].1, selector);
      OutwardsTail(w, q);
      if q[1].1.Some? {
        assert forall j :: 0 <= j < |q[1..]| ==> q[1..][j] == q[j + 1];
        ImplicitRule(w, self, selector, q[1..]);
      } else if |q| > 2 {
        StepNeedsMixin(w, q);
      }
    }
  }

  lemma NoWayOut(w: World, o: nat, mixin: nat)
    requires WorldOk(w) && o in w.classIdOf
    ensures Outward(w, o, Some(mixin)).None? <==> ApplicationOf(w, mixin, Some(w.classIdOf[o])).None?
  {
    hide WorldOk, ApplicationOf;
  }

  lemma StepNeedsMixin(w: World, q: seq<(nat, Option<nat>)>)
    requires WorldOk(w) && Outwards(w, q) && |q| > 2
    ensures q[1].1.Some?
  {
    hide WorldOk, ApplicationOf;
    assert Outward(w, q[1].0, q[1].1) == Some(q[2]);
  }

  /** Such a sequence of objects exists for every send. */
  lemma {:induction false} OutwardsExist(w: World, o: nat, mixin: nat, selector: nat)
    returns (q: seq<(nat, Option<nat>)>)
    requires WorldOk(w) && o in w.classIdOf
    ensures Outwards(w, q) && q[0] == (o, Some(mixin))
    ensures forall j :: 0 <= j < |q| - 1 ==> Without(w, q[j].0, q[j].1, selector)
    ensures var last := q[|q| - 1]; last.1.None? || !Without(w, last.0, last.1, selector)
    decreases MixinRank(w, Some(mixin))
  {
    hide WorldOk, Outward, ApplicationOf, MethodIn;
    if !Without(w, o, Some(mixin), selector) {
      q := [(o, Some(mixin))];
    } else {
      NoWayOut(w, o, mixin);
      ImplicitStep(w, o, selector, o, mixin);
      var out := Outward(w, o, Some(mixin)).value;
      var rest := [out];
      if out.1.Some? {
        rest := OutwardsExist(w, out.0, out.1.value, selector);
      }
      q := [(o, Some(mixin))] + rest;
      assert forall j :: 0 < j < |q| ==> q[j] == rest[j - 1];
    }
  }
}
