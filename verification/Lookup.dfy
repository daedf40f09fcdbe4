/** Method lookup without a cache, as the miss paths of the sends do it: vm/interpreter.cc. */
module Lookup {
  import opened Contexts

  datatype Access = Public | Protected | Private

  /** Selectors, methods and mixins are told apart by their addresses. */
  datatype MethodDef = MethodDef(address: nat, selector: nat, access: Access, mixin: nat)

  /** depth counts the superclasses. */
  datatype Class = Class(superclass: Option<nat>, depth: nat, mixin: nat, methods: seq<MethodDef>, enclosingObject: nat)

  /** depth counts the mixins around this one. */
  datatype Mixin = Mixin(enclosing: Option<nat>, depth: nat)

  datatype World = World(classes: map<nat, Class>, mixins: map<nat, Mixin>, classIdOf: map<nat, nat>)

  ghost predicate ClassOk(w: World, c: nat)
    requires c in w.classes
  {
    var k := w.classes[c];
    && c != 0
    && (k.superclass.Some? ==> k.superclass.value in w.classes && w.classes[k.superclass.value].depth < k.depth)
    && k.mixin in w.mixins && k.enclosingObject in w.classIdOf
  }

  ghost predicate MixinOk(w: World, x: nat)
    requires x in w.mixins
  {
    var enclosing := w.mixins[x].enclosing;
    enclosing.Some? ==> enclosing.value in w.mixins && w.mixins[enclosing.value].depth < w.mixins[x].depth
  }

  ghost predicate WorldOk(w: World)
  {
    && (forall c :: c in w.classes ==> ClassOk(w, c))
    && (forall x :: x in w.mixins ==> MixinOk(w, x))
    && (forall o :: o in w.classIdOf ==> w.classIdOf[o] in w.classes)
  }

  lemma ClassFits(w: World, c: nat)
    requires WorldOk(w) && c in w.classes
    ensures ClassOk(w, c)
  {
  }

  /** Where a send ends up. A class lookup that runs off the superclasses is a fatal error. */
  datatype Target =
    | Activated(receiver: nat, code: MethodDef)
    | NotUnderstood(receiver: nat, lookupClass: Option<nat>, present: bool)
    | Fatal

  ghost function MethodIn(methods: seq<MethodDef>, selector: nat): Option<MethodDef>
  {
    if methods == [] then None
    else if methods[0].selector == selector then Some(methods[0])
    else MethodIn(methods[1..], selector)
  }

  ghost function Rank(w: World, c: Option<nat>): nat
  {
    if c.Some? && c.value in w.classes then w.classes[c.value].depth + 1 else 0
  }

  /** The first class from c up that is an application of the mixin. */
  ghost function ApplicationOf(w: World, mixin: nat, c: Option<nat>): Option<nat>
    requires WorldOk(w) && (c.Some? ==> c.value in w.classes)
    decreases Rank(w, c)
  {
    if c.None? then None
    else
      assert ClassOk(w, c.value);
      if w.classes[c.value].mixin == mixin then c else ApplicationOf(w, mixin, w.classes[c.value].superclass)
  }

  /** The first public method from c up, if no protected one comes first. */
  ghost function OrdinaryTarget(w: World, receiver: nat, selector: nat, c: Option<nat>): Target
    requires WorldOk(w) && receiver in w.classIdOf && (c.Some? ==> c.value in w.classes)
    decreases Rank(w, c)
  {
    var unknown := NotUnderstood(receiver, Some(w.classIdOf[receiver]), true);
    if c.None? then unknown
    else
      assert ClassOk(w, c.value);
      var m := MethodIn(w.classes[c.value].methods, selector);
      if m.Some? && m.value.access == Public then Activated(receiver, m.value)
      else if m.Some? && m.value.access == Protected then unknown
      else OrdinaryTarget(w, receiver, selector, w.classes[c.value].superclass)
  }

  /** The first method from c up that is not private. */
  ghost function NonPrivate(w: World, selector: nat, c: Option<nat>): Option<MethodDef>
    requires WorldOk(w) && (c.Some? ==> c.value in w.classes)
    decreases Rank(w, c)
  {
    if c.None? then None
    else
      assert ClassOk(w, c.value);
      var m := MethodIn(w.classes[c.value].methods, selector);
      if m.Some? && m.value.access != Private then m else NonPrivate(w, selector, w.classes[c.value].superclass)
  }

  ghost function ProtectedTarget(w: World, receiver: nat, selector: nat, c: Option<nat>): Target
    requires WorldOk(w) && (c.Some? ==> c.value in w.classes)
  {
    var m := NonPrivate(w, selector, c);
    if m.Some? then Activated(receiver, m.value) else NotUnderstood(receiver, c, false)
  }

  /** A private method of the receiver's application of the mixin, or else a method that is not private. */
  ghost function LexicalTarget(w: World, receiver: nat, selector: nat, mixin: Option<nat>): Target
    requires WorldOk(w) && receiver in w.classIdOf
  {
    var c := Some(w.classIdOf[receiver]);
    var app := if mixin.None? then None else ApplicationOf(w, mixin.value, c);
    if app.None? then Fatal
    else
      ApplicationExists(w, mixin.value, c);
      var m := MethodIn(w.classes[app.value].methods, selector);
      if m.Some? && m.value.access == Private then Activated(receiver, m.value)
      else ProtectedTarget(w, receiver, selector, c)
  }

  lemma {:induction false} ApplicationExists(w: World, mixin: nat, c: Option<nat>)
    requires WorldOk(w) && (c.Some? ==> c.value in w.classes)
    ensures var app := ApplicationOf(w, mixin, c);
      app.Some? ==> app.value in w.classes && w.classes[app.value].mixin == mixin && ClassOk(w, app.value)
    decreases Rank(w, c)
  {
    if c.Some? {
      assert ClassOk(w, c.value);
      if w.classes[c.value].mixin != mixin { ApplicationExists(w, mixin, w.classes[c.value].superclass); }
    }
  }

  /** One step outwards: the object around the receiver, and the mixin around the mixin. */
  ghost function Outward(w: World, receiver: nat, mixin: Option<nat>): Option<(nat, Option<nat>)>
    requires WorldOk(w) && receiver in w.classIdOf
    ensures var out := Outward(w, receiver, mixin);
      out.Some? ==> mixin.Some? && mixin.value in w.mixins && MixinOk(w, mixin.value)
                    && out.value.0 in w.classIdOf && out.value.1 == w.mixins[mixin.value].enclosing
  {
    var c := Some(w.classIdOf[receiver]);
    var app := if mixin.None? then None else ApplicationOf(w, mixin.value, c);
    if app.None? then None
    else
      ApplicationExists(w, mixin.value, c);
      Some((w.classes[app.value].enclosingObject, w.mixins[mixin.value].enclosing))
  }

  ghost function OuterTarget(w: World, receiver: nat, selector: nat, mixin: Option<nat>, depth: nat): Target
    requires WorldOk(w) && receiver in w.classIdOf
    decreases depth
  {
    if depth == 0 then LexicalTarget(w, receiver, selector, mixin)
    else
      var out := Outward(w, receiver, mixin);
      if out.None? then Fatal else OuterTarget(w, out.value.0, selector, out.value.1, depth - 1)
  }

  ghost function MixinRank(w: World, mixin: Option<nat>): nat {
    if mixin.Some? && mixin.value in w.mixins then w.mixins[mixin.value].depth + 1 else 0
  }

  /** The innermost enclosing object whose class has the method, or else the receiver itself. */
  ghost function ImplicitTarget(w: World, self: nat, selector: nat, candidate: nat, mixin: nat): Target
    requires WorldOk(w) && self in w.classIdOf && candidate in w.classIdOf
    decreases MixinRank(w, Some(mixin))
  {
    var c := Some(w.classIdOf[candidate]);
    var app := ApplicationOf(w, mixin, c);
    if app.None? then Fatal
    else
      ApplicationExists(w, mixin, c);
      if MethodIn(w.classes[app.value].methods, selector).Some? then LexicalTarget(w, candidate, selector, Some(mixin))
      else
        var out := Outward(w, candidate, Some(mixin));
        if out.value.1.None? then ProtectedTarget(w, self, selector, Some(w.classIdOf[self]))
        else ImplicitTarget(w, self, selector, out.value.0, out.value.1.value)
  }

  ghost function SuperTarget(w: World, receiver: nat, selector: nat, mixin: nat): Target
    requires WorldOk(w) && receiver in w.classIdOf
  {
    var c := Some(w.classIdOf[receiver]);
    var app := ApplicationOf(w, mixin, c);
    if app.None? then Fatal
    else
      ApplicationExists(w, mixin, c);
      ProtectedTarget(w, receiver, selector, w.classes[app.value].superclass)
  }

  const SELF := 0
  const SUPER := 256
  const IMPLICIT := 257

  /** Every kind of send with the receiver of the running method; the other rules are the depths of outer sends. */
  ghost function NsTarget(w: World, self: nat, selector: nat, caller: MethodDef, rule: nat): Target
    requires WorldOk(w) && self in w.classIdOf
  {
    if rule == SUPER then SuperTarget(w, self, selector, caller.mixin)
    else if rule == IMPLICIT then ImplicitTarget(w, self, selector, self, caller.mixin)
    else OuterTarget(w, self, selector, Some(caller.mixin), rule)
  }

  // ---- what a lookup depends on ----

  /** The object that is this many steps around another one, and the mixin reached with it. */
  ghost function Reached(w: World, o: nat, mixin: Option<nat>, depth: nat): Option<(nat, Option<nat>)>
    requires WorldOk(w) && o in w.classIdOf
    decreases depth
  {
    if depth == 0 then Some((o, mixin))
    else
      var out := Outward(w, o, mixin);
      if out.None? then None else Reached(w, out.value.0, out.value.1, depth - 1)
  }

  ghost function Around(w: World, o: nat, mixin: Option<nat>, depth: nat): Option<nat>
    requires WorldOk(w) && o in w.classIdOf
  {
    var end := Reached(w, o, mixin, depth);
    if end.None? then None else Some(end.value.0)
  }

  /** The class of the object has an application of the mixin. */
  ghost predicate Applied(w: World, o: nat, mixin: Option<nat>)
    requires WorldOk(w) && o in w.classIdOf
  {
    mixin.Some? && ApplicationOf(w, mixin.value, Some(w.classIdOf[o])).Some?
  }

  ghost predicate NotAroundItself(w: World, o: nat)
    requires WorldOk(w) && o in w.classIdOf
  {
    forall mixin, depth: nat :: depth > 0 ==> Around(w, o, mixin, depth) != Some(o)
  }

  /** The target with another receiver of the same class in place of the receiver. */
  ghost function Redirect(t: Target, o: nat, p: nat): Target
  {
    match t
    case Activated(r, m) => Activated(if r == o then p else r, m)
    case NotUnderstood(r, c, present) => NotUnderstood(if r == o then p else r, c, present)
    case Fatal => Fatal
  }

  /** An outer send ends at the object it reaches, unless that object's class does not apply the mixin reached. */
  lemma {:induction false} OuterReceiver(w: World, o: nat, selector: nat, mixin: Option<nat>, depth: nat)
    requires WorldOk(w) && o in w.classIdOf
    ensures var t, end := OuterTarget(w, o, selector, mixin, depth), Reached(w, o, mixin, depth);
      && (end.Some? ==> end.value.0 in w.classIdOf)
      && (t.Fatal? <==> end.None? || !Applied(w, end.value.0, end.value.1))
      && (!t.Fatal? ==> t.receiver == end.value.0)
    decreases depth
  {
    hide WorldOk, Outward, LexicalTarget, Applied;
    if depth == 0 {
      LexicalReceiver(w, o, selector, mixin);
    } else {
      var out := Outward(w, o, mixin);
      OutwardKnown(w, o, mixin);
      if out.Some? { OuterReceiver(w, out.value.0, selector, out.value.1, depth - 1); }
    }
  }

  lemma LexicalReceiver(w: World, o: nat, selector: nat, mixin: Option<nat>)
    requires WorldOk(w) && o in w.classIdOf
    ensures var t := LexicalTarget(w, o, selector, mixin);
      (t.Fatal? <==> !Applied(w, o, mixin)) && (t.Fatal? || t.receiver == o)
  {
    hide ApplicationOf, NonPrivate;
  }

  lemma OutwardKnown(w: World, o: nat, mixin: Option<nat>)
    requires WorldOk(w) && o in w.classIdOf
    ensures var out := Outward(w, o, mixin); out.Some? ==> out.value.0 in w.classIdOf
  {
  }

  /** The object whose method an implicit send from this candidate finds; none if it falls back on the receiver. */
  ghost function Stop(w: World, candidate: nat, selector: nat, mixin: nat): Option<nat>
    requires WorldOk(w) && candidate in w.classIdOf
    decreases MixinRank(w, Some(mixin))
  {
    if Defines(w, candidate, selector, mixin) then Some(candidate)
    else
      var out := Outward(w, candidate, Some(mixin));
      if out.None? || out.value.1.None? then None else Stop(w, out.value.0, selector, out.value.1.value)
  }

  /** The candidate's application of the mixin has the method. */
  ghost predicate Defines(w: World, candidate: nat, selector: nat, mixin: nat)
    requires WorldOk(w) && candidate in w.classIdOf
  {
    var app := ApplicationOf(w, mixin, Some(w.classIdOf[candidate]));
    app.Some? && app.value in w.classes && MethodIn(w.classes[app.value].methods, selector).Some?
  }

  /** What one step of an implicit send comes to. */
  lemma ImplicitStep(w: World, self: nat, selector: nat, candidate: nat, mixin: nat)
    requires WorldOk(w) && self in w.classIdOf && candidate in w.classIdOf
    ensures var t := ImplicitTarget(w, self, selector, candidate, mixin);
      Defines(w, candidate, selector, mixin) ==>
        !t.Fatal? && t.receiver == candidate && t == LexicalTarget(w, candidate, selector, Some(mixin))
    ensures var out := Outward(w, candidate, Some(mixin));
      out.Some? ==> out.value.0 in w.classIdOf && MixinRank(w, out.value.1) < MixinRank(w, Some(mixin))
    ensures var t, out := ImplicitTarget(w, self, selector, candidate, mixin), Outward(w, candidate, Some(mixin));
      !Defines(w, candidate, selector, mixin) ==>
        t == if out.None? then Fatal
             else if out.value.1.None? then ProtectedTarget(w, self, selector, Some(w.classIdOf[self]))
             else ImplicitTarget(w, self, selector, out.value.0, out.value.1.value)
  {
    hide WorldOk, MethodIn, NonPrivate;
    ApplicationKnown(w, mixin, candidate);
    ApplicationFound(w, mixin, candidate);
  }

  lemma ApplicationKnown(w: World, mixin: nat, o: nat)
    requires WorldOk(w) && o in w.classIdOf
    ensures var app := ApplicationOf(w, mixin, Some(w.classIdOf[o])); app.Some? ==> app.value in w.classes
  {
    ApplicationExists(w, mixin, Some(w.classIdOf[o]));
  }

  lemma ApplicationFound(w: World, mixin: nat, o: nat)
    requires WorldOk(w) && o in w.classIdOf
    ensures var app := ApplicationOf(w, mixin, Some(w.classIdOf[o])); app.Some? ==> mixin in w.mixins
  {
    ApplicationExists(w, mixin, Some(w.classIdOf[o]));
  }

  /** From a candidate around the receiver on, another receiver of the same class finds the same. */
  lemma {:induction false} ImplicitReceiver(w: World, self: nat, selector: nat, candidate: nat, mixin: nat, other: nat)
    requires WorldOk(w) && self in w.classIdOf && candidate in w.classIdOf
    requires other in w.classIdOf && w.classIdOf[other] == w.classIdOf[self]
    ensures var t, stop := ImplicitTarget(w, self, selector, candidate, mixin), Stop(w, candidate, selector, mixin);
      && ImplicitTarget(w, other, selector, candidate, mixin) == (if stop.Some? then t else Redirect(t, self, other))
      && (stop.Some? ==> !t.Fatal? && t.receiver == stop.value)
      && (stop.None? ==> t.Fatal? || t.receiver == self)
    decreases MixinRank(w, Some(mixin))
  {
    hide WorldOk, ImplicitTarget, Outward, Defines, LexicalTarget, NonPrivate;
    ImplicitStep(w, self, selector, candidate, mixin);
    ImplicitStep(w, other, selector, candidate, mixin);
    var out := Outward(w, candidate, Some(mixin));
    if !Defines(w, candidate, selector, mixin) && out.Some? && out.value.1.Some? {
      ImplicitReceiver(w, self, selector, out.value.0, out.value.1.value, other);
    }
  }

  /**
   * The search of an implicit send stops at an object around the receiver that is the receiver again; or so many steps
   * around the receiver of an outer send there is the receiver again, with an application of the mixin reached.
   */
  ghost predicate ComesBack(w: World, self: nat, selector: nat, caller: MethodDef, rule: nat)
    requires WorldOk(w) && self in w.classIdOf
  {
    if rule == SELF || rule == SUPER then false
    else if rule == IMPLICIT then
      !Defines(w, self, selector, caller.mixin) && Stop(w, self, selector, caller.mixin) == Some(self)
    else
      var end := Reached(w, self, Some(caller.mixin), rule);
      end.Some? && end.value.0 == self && Applied(w, self, end.value.1)
  }

  /**
   * What a send finds can be cached without an absent receiver if it is the receiver's own, and with one if not. It
   * can not if the lookup comes back, for an outer send or for a class with another instance.
   */
  ghost predicate Cacheable(w: World, self: nat, selector: nat, caller: MethodDef, rule: nat)
    requires WorldOk(w) && self in w.classIdOf
  {
    || !ComesBack(w, self, selector, caller, rule)
    || (rule == IMPLICIT && forall o :: o in w.classIdOf && w.classIdOf[o] == w.classIdOf[self] ==> o == self)
  }

  /** For outer sends that is when they find the receiver. */
  lemma OuterComesBack(w: World, self: nat, selector: nat, caller: MethodDef, rule: nat)
    requires WorldOk(w) && self in w.classIdOf && rule !in {SELF, SUPER, IMPLICIT}
    ensures var t := NsTarget(w, self, selector, caller, rule);
      ComesBack(w, self, selector, caller, rule) <==> !t.Fatal? && t.receiver == self
  {
    hide WorldOk, OuterTarget, Reached, Applied;
    OuterReceiver(w, self, selector, Some(caller.mixin), rule);
  }

  lemma OuterSame(w: World, self: nat, other: nat, selector: nat, mixin: Option<nat>, depth: nat)
    requires WorldOk(w) && self in w.classIdOf && other in w.classIdOf && w.classIdOf[self] == w.classIdOf[other]
    requires depth > 0
    ensures OuterTarget(w, other, selector, mixin, depth) == OuterTarget(w, self, selector, mixin, depth)
  {
    hide ApplicationOf, LexicalTarget;
    assert Outward(w, self, mixin) == Outward(w, other, mixin);
  }

  lemma OneStepSame(w: World, self: nat, other: nat, selector: nat, mixin: nat)
    requires WorldOk(w) && self in w.classIdOf && other in w.classIdOf && w.classIdOf[self] == w.classIdOf[other]
    ensures LexicalTarget(w, other, selector, Some(mixin))
      == Redirect(LexicalTarget(w, self, selector, Some(mixin)), self, other)
    ensures ProtectedTarget(w, other, selector, Some(w.classIdOf[other])) ==
      Redirect(ProtectedTarget(w, self, selector, Some(w.classIdOf[self])), self, other)
    ensures Outward(w, self, Some(mixin)) == Outward(w, other, Some(mixin))
    ensures SuperTarget(w, other, selector, mixin) == Redirect(SuperTarget(w, self, selector, mixin), self, other)
    ensures Defines(w, self, selector, mixin) == Defines(w, other, selector, mixin)
    ensures var t := SuperTarget(w, self, selector, mixin); t.Fatal? || t.receiver == self
  {
    hide ApplicationOf, NonPrivate, MethodIn;
  }

  lemma ImplicitSame(w: World, self: nat, other: nat, selector: nat, caller: MethodDef)
    requires WorldOk(w) && self in w.classIdOf && other in w.classIdOf && w.classIdOf[self] == w.classIdOf[other]
    ensures NsTarget(w, other, selector, caller, IMPLICIT)
      == Redirect(NsTarget(w, self, selector, caller, IMPLICIT), self, other)
      <==> other == self || !ComesBack(w, self, selector, caller, IMPLICIT)
  {
    hide WorldOk, ImplicitTarget, Outward, Defines, LexicalTarget, NonPrivate;
    var mixin := caller.mixin;
    OneStepSame(w, self, other, selector, mixin);
    ImplicitStep(w, self, selector, self, mixin);
    ImplicitStep(w, other, selector, other, mixin);
    var out := Outward(w, self, Some(mixin));
    if !Defines(w, self, selector, mixin) && out.Some? && out.value.1.Some? {
      ImplicitReceiver(w, self, selector, out.value.0, out.value.1.value, other);
    }
  }

  /**
   * What a send finds carries over to another receiver of the class just when the lookup does not come back to the
   * receiver.
   */
  lemma SameClassSameTarget(w: World, self: nat, other: nat, selector: nat, caller: MethodDef, rule: nat)
    requires WorldOk(w) && self in w.classIdOf && other in w.classIdOf && w.classIdOf[self] == w.classIdOf[other]
    ensures NsTarget(w, other, selector, caller, rule)
      == Redirect(NsTarget(w, self, selector, caller, rule), self, other)
      <==> other == self || !ComesBack(w, self, selector, caller, rule)
  {
    hide WorldOk, ImplicitTarget, Outward, Defines, LexicalTarget, SuperTarget, ProtectedTarget, Reached, Applied;
    OneStepSame(w, self, other, selector, caller.mixin);
    if rule == IMPLICIT {
      ImplicitSame(w, self, other, selector, caller);
    } else if rule == SELF {
      assert OuterTarget(w, self, selector, Some(caller.mixin), 0)
        == LexicalTarget(w, self, selector, Some(caller.mixin));
      assert OuterTarget(w, other, selector, Some(caller.mixin), 0)
        == LexicalTarget(w, other, selector, Some(caller.mixin));
    } else if rule != SUPER {
      OuterSame(w, self, other, selector, Some(caller.mixin), rule);
      OuterComesBack(w, self, selector, caller, rule);
    }
  }

  /** No lookup comes back to an object that is not around itself. */
  lemma {:induction false} StopAround(w: World, o: nat, selector: nat, mixin: nat)
    requires WorldOk(w) && o in w.classIdOf && Stop(w, o, selector, mixin).Some?
    ensures exists depth: nat ::
      Around(w, o, Some(mixin), depth) == Stop(w, o, selector, mixin) && (depth == 0 ==> Defines(w, o, selector, mixin))
    decreases MixinRank(w, Some(mixin))
  {
    hide WorldOk, Outward, Defines;
    assert Around(w, o, Some(mixin), 0) == Some(o);
    if !Defines(w, o, selector, mixin) {
      ImplicitStep(w, o, selector, o, mixin);
      var out := Outward(w, o, Some(mixin));
      StopAround(w, out.value.0, selector, out.value.1.value);
      var depth: nat :| Around(w, out.value.0, out.value.1, depth) == Stop(w, o, selector, mixin);
      assert Around(w, o, Some(mixin), depth + 1) == Stop(w, o, selector, mixin);
    }
  }

  lemma NeverComesBack(w: World, self: nat, selector: nat, caller: MethodDef, rule: nat)
    requires WorldOk(w) && self in w.classIdOf && NotAroundItself(w, self)
    ensures !ComesBack(w, self, selector, caller, rule)
  {
    hide WorldOk, Outward, Defines, OuterTarget, Reached, Applied, ImplicitTarget;
    if rule == IMPLICIT && Stop(w, self, selector, caller.mixin).Some? {
      StopAround(w, self, selector, caller.mixin);
    } else if rule != IMPLICIT && rule != SELF && rule != SUPER {
      assert Around(w, self, Some(caller.mixin), rule) != Some(self);
    }
  }

  lemma OwnReceiver(w: World, self: nat, selector: nat, caller: MethodDef, rule: nat)
    requires WorldOk(w) && self in w.classIdOf && rule in {SELF, SUPER}
    ensures var t := NsTarget(w, self, selector, caller, rule); t.Fatal? || t.receiver == self
  {
    hide WorldOk, SuperTarget, LexicalTarget;
    OneStepSame(w, self, self, selector, caller.mixin);
    LexicalReceiver(w, self, selector, Some(caller.mixin));
    assert OuterTarget(w, self, selector, Some(caller.mixin), 0)
      == LexicalTarget(w, self, selector, Some(caller.mixin));
  }

  // ---- an object that is around itself ----

  const FOUND := MethodDef(100, 40, Public, 11)
  const CALLER := MethodDef(101, 41, Public, 10)

  /** Objects 5 and 6 have the same class, and object 5 encloses the class. */
  ghost function Tangled(): World {
    World(map[1 := Class(Some(2), 1, 10, [], 5), 2 := Class(None, 0, 11, [FOUND], 5)],
          map[10 := Mixin(Some(11), 1), 11 := Mixin(None, 0)], map[5 := 1, 6 := 1])
  }

  lemma TangledOk()
    ensures WorldOk(Tangled())
    ensures MethodIn([FOUND], 40) == Some(FOUND) && MethodIn([], 40) == None
  {
  }

  lemma TangledApplications()
    ensures WorldOk(Tangled()) && ApplicationOf(Tangled(), 10, Some(1)) == Some(1)
    ensures ApplicationOf(Tangled(), 11, Some(1)) == Some(2)
    ensures NonPrivate(Tangled(), 40, Some(1)) == Some(FOUND)
  {
    TangledOk();
    var w := Tangled();
    hide WorldOk;
    assert ApplicationOf(w, 11, Some(2)) == Some(2);
    assert NonPrivate(w, 40, Some(2)) == Some(FOUND);
  }

  /** An implicit send from object 5 finds the method in object 5 itself, one step out; so does one from object 6. */
  lemma TangledTargets()
    ensures WorldOk(Tangled()) && ComesBack(Tangled(), 5, 40, CALLER, IMPLICIT)
    ensures NsTarget(Tangled(), 5, 40, CALLER, IMPLICIT) == NsTarget(Tangled(), 6, 40, CALLER, IMPLICIT)
      == Activated(5, FOUND)
  {
    TangledOk();
    TangledApplications();
    var w := Tangled();
    hide WorldOk, ApplicationOf, NonPrivate, MethodIn;
    assert Outward(w, 5, Some(10)) == Some((5, Some(11))) == Outward(w, 6, Some(10));
    assert LexicalTarget(w, 5, 40, Some(11)) == Activated(5, FOUND);
    assert ImplicitTarget(w, 5, 40, 5, 11) == Activated(5, FOUND) == ImplicitTarget(w, 6, 40, 5, 11);
    assert Stop(w, 5, 40, 11) == Some(5);
  }

  // ---- the kernel and nil, which are around themselves ----

  const SERVICE := MethodDef(100, 40, Public, 10)
  const ASKER := MethodDef(101, 41, Public, 11)

  /**
   * Object 5 is the kernel and object 6 is nil. The kernel's class is top-level, so that nil encloses it; it inherits
   * from a class nested in the kernel, and so does the class of nil.
   */
  ghost function Booted(): World {
    World(map[1 := Class(Some(2), 1, 10, [SERVICE], 6), 2 := Class(None, 0, 11, [], 5),
              3 := Class(Some(2), 1, 12, [], 5)],
          map[10 := Mixin(None, 0), 11 := Mixin(Some(10), 1), 12 := Mixin(Some(10), 1)], map[5 := 1, 6 := 3])
  }

  lemma BootedOk()
    ensures WorldOk(Booted()) && MethodIn([SERVICE], 40) == Some(SERVICE)
  {
  }

  lemma BootedApplications()
    ensures WorldOk(Booted()) && ApplicationOf(Booted(), 10, Some(1)) == Some(1)
    ensures ApplicationOf(Booted(), 11, Some(1)) == Some(2)
    ensures ApplicationOf(Booted(), 12, Some(3)) == Some(3) && NonPrivate(Booted(), 40, Some(1)) == Some(SERVICE)
  {
    BootedOk();
    var w := Booted();
    hide WorldOk;
    assert ApplicationOf(w, 11, Some(2)) == Some(2);
  }

  /** One step around the kernel there is the kernel, and two steps around nil there is nil. */
  lemma KernelAndNilAroundThemselves()
    ensures WorldOk(Booted()) && !NotAroundItself(Booted(), 5) && !NotAroundItself(Booted(), 6)
  {
    BootedOk();
    BootedApplications();
    var w := Booted();
    hide WorldOk, ApplicationOf, NonPrivate, MethodIn;
    assert Outward(w, 5, Some(11)) == Some((5, Some(10)));
    assert Around(w, 5, Some(11), 1) == Some(5) by { assert Reached(w, 5, Some(10), 0) == Some((5, Some(10))); }
    assert Outward(w, 6, Some(12)) == Some((5, Some(10)));
    assert Outward(w, 5, Some(10)) == Some((6, None));
    assert Around(w, 6, Some(12), 2) == Some(6) by {
      assert Reached(w, 6, None, 0) == Some((6, None));
      assert Reached(w, 5, Some(10), 1) == Some((6, None));
    }
  }

  /** A method of the class nested in the kernel, run by the kernel itself, that sends to the kernel around it. */
  lemma KernelComesBack()
    ensures WorldOk(Booted()) && ComesBack(Booted(), 5, 40, ASKER, 1)
    ensures NsTarget(Booted(), 5, 40, ASKER, 1) == Activated(5, SERVICE)
  {
    BootedOk();
    BootedApplications();
    var w := Booted();
    hide WorldOk, ApplicationOf, NonPrivate, MethodIn;
    assert Outward(w, 5, Some(11)) == Some((5, Some(10)));
    assert Reached(w, 5, Some(10), 0) == Some((5, Some(10)));
    assert OuterTarget(w, 5, 40, Some(10), 0) == LexicalTarget(w, 5, 40, Some(10)) == Activated(5, SERVICE);
  }
}
