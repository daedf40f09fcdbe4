/** The chain of senders, and what a non-local return does to it: vm/interpreter.cc. */
module SenderChain {
  import opened Contexts
  import opened ContextSteps

  datatype Outcome = Returned | CannotReturn | AboutToReturnThrough(unwind: nat)

  /** The chain of senders from u ends within n steps. */
  ghost predicate Finite(m: Contexts, u: Option<nat>, n: nat)
    decreases n
  {
    u.None? || u.value !in m || (n > 0 && Finite(m, m[u.value].sender, n - 1))
  }

  /** How many contexts the chain from u has. */
  ghost function Depth(m: Contexts, u: Option<nat>, n: nat): nat
    requires Finite(m, u, n)
    decreases n
  {
    if u.None? || u.value !in m then 0 else 1 + Depth(m, m[u.value].sender, n - 1)
  }

  /** What the search for the home of a non-local return meets first. */
  ghost function Search(m: Contexts, u: Option<nat>, home: nat, n: nat): Outcome
    requires Finite(m, u, n)
    decreases n
  {
    if u == Some(home) then Returned
    else if u.None? || u.value !in m then CannotReturn
    else match m[u.value].code.primitive
      case UnwindProtect => AboutToReturnThrough(u.value)
      case SimulationRoot => CannotReturn
      case Ordinary => Search(m, m[u.value].sender, home, n - 1)
  }

  /** The contexts on the chain from u up to the home. */
  ghost function Through(m: Contexts, u: Option<nat>, home: nat, n: nat): set<nat>
    requires Finite(m, u, n)
    decreases n
  {
    if u.None? || u.value !in m then {}
    else if u == Some(home) then {home}
    else {u.value} + Through(m, m[u.value].sender, home, n - 1)
  }

  ghost predicate CanReturnTo(m: Contexts, sender: Option<nat>) {
    sender.Some? && sender.value in m && m[sender.value].bci.Some?
  }

  ghost predicate Running(m: Machine) { m.current.Some? && m.current.value in m.contexts }

  /** A local return ends the running context and resumes its sender, if that is alive. */
  ghost function LocallyReturned(m: Machine, v: Value): (Outcome, Machine)
  {
    if Running(m) && CanReturnTo(m.contexts, m.contexts[m.current.value].sender) then
      var sender := m.contexts[m.current.value].sender;
      (Returned, Machine(sender, Resume(Kill(m.contexts, {m.current.value}), sender.value, v)))
    else
      (CannotReturn, m)
  }

  /**
   * A non-local return ends every context from the running one through the home and resumes the sender of the home,
   * unless the search for the home finds the chain blocked, or the sender is dead.
   */
  ghost function NonLocallyReturned(m: Machine, home: nat, v: Value, n: nat): (Outcome, Machine)
    requires Running(m) && Finite(m.contexts, m.current, n)
  {
    var found := Search(m.contexts, m.contexts[m.current.value].sender, home, n - 1);
    if found != Returned then (found, m)
    else if home in m.contexts && CanReturnTo(m.contexts, m.contexts[home].sender) then
      var sender := m.contexts[home].sender;
      (Returned, Machine(sender, Resume(Kill(m.contexts, Through(m.contexts, m.current, home, n)), sender.value, v)))
    else (CannotReturn, m)
  }

  /** Closures are created inside the activations that define them. */
  ghost predicate Nested(m: Contexts)
  {
    forall id :: id in m && m[id].closure.Some? ==> Inside(m, m[id].closure.value)
  }

  ghost predicate Inside(m: Contexts, c: Closure)
  {
    && c.definingActivation in m
    && var outer := m[c.definingActivation].closure; (outer.Some? ==> outer.value.nesting < c.nesting)
  }

  /** The method activation that a closure is in. */
  ghost function HomeOf(m: Contexts, c: Closure): (home: nat)
    requires Nested(m) && Inside(m, c)
    ensures home in m && m[home].closure.None?
    decreases c.nesting
  {
    var outer := m[c.definingActivation].closure;
    if outer.None? then c.definingActivation else HomeOf(m, outer.value)
  }

  lemma {:induction false} FiniteMore(m: Contexts, u: Option<nat>, n: nat, k: nat)
    requires Finite(m, u, n) && n <= k
    ensures Finite(m, u, k) && Depth(m, u, k) == Depth(m, u, n)
    decreases n
  {
    if u.Some? && u.value in m { FiniteMore(m, m[u.value].sender, n - 1, k - 1); }
  }

  /** No context comes after itself. */
  lemma SenderBelow(m: Contexts, id: nat, n: nat)
    requires id in m && Finite(m, Some(id), n)
    ensures Finite(m, m[id].sender, n) && Depth(m, m[id].sender, n) < Depth(m, Some(id), n)
  {
    FiniteMore(m, m[id].sender, n - 1, n);
  }

  lemma {:induction false} ThroughDepth(m: Contexts, u: Option<nat>, home: nat, n: nat, k: nat, id: nat)
    requires Finite(m, u, k) && k <= n && id in Through(m, u, home, k)
    ensures Finite(m, u, n) && id in m && Finite(m, Some(id), n) && Depth(m, Some(id), n) <= Depth(m, u, n)
    ensures home in Through(m, u, home, k) ==>
      Finite(m, Some(home), n) && Depth(m, Some(home), n) <= Depth(m, Some(id), n)
    decreases k
  {
    FiniteMore(m, u, k, n);
    var x := u.value;
    if u != Some(home) {
      SenderBelow(m, x, n);
      if id != x {
        ThroughDepth(m, m[x].sender, home, n, k - 1, id);
      } else if home in Through(m, u, home, k) {
        ThroughDepth(m, m[x].sender, home, n, k - 1, home);
      }
    }
  }

  /** A search that succeeds has the home on its chain. */
  lemma {:induction false} FoundIsThrough(m: Contexts, u: Option<nat>, home: nat, n: nat)
    requires Finite(m, u, n) && home in m && Search(m, u, home, n) == Returned
    ensures home in Through(m, u, home, n)
    decreases n
  {
    if u != Some(home) { FoundIsThrough(m, m[u.value].sender, home, n - 1); }
  }

  /** The sender of the home is not among the contexts up to the home. */
  lemma SenderNotThrough(m: Contexts, u: Option<nat>, home: nat, n: nat)
    requires Finite(m, u, n) && home in m && home in Through(m, u, home, n)
    ensures m[home].sender.Some? ==> m[home].sender.value !in Through(m, u, home, n)
  {
    var sender := m[home].sender;
    ThroughDepth(m, u, home, n, n, home);
    SenderBelow(m, home, n);
    if sender.Some? && sender.value in Through(m, u, home, n) {
      ThroughDepth(m, u, home, n, n, sender.value);
    }
  }

  // ---- what a return comes to, read off the chain ----

  /** Contexts that follow each other on the chain from u, each the sender of the one before. */
  ghost predicate Path(m: Contexts, u: Option<nat>, p: seq<nat>)
  {
    && (forall j :: 0 <= j < |p| ==> p[j] in m)
    && (p != [] ==> u == Some(p[0])) && forall j :: 0 < j < |p| ==> m[p[j - 1]].sender == Some(p[j])
  }

  ghost function Ids(p: seq<nat>): set<nat> { set id | id in p }

  /** What comes behind the path. */
  ghost function Behind(m: Contexts, u: Option<nat>, p: seq<nat>): Option<nat>
    requires Path(m, u, p)
  {
    if p == [] then u else m[p[|p| - 1]].sender
  }

  /** Nothing on the path stops the search for the home. */
  ghost predicate Clear(m: Contexts, p: seq<nat>, home: nat)
  {
    forall j :: 0 <= j < |p| ==> p[j] in m && p[j] != home && m[p[j]].code.primitive == Ordinary
  }

  lemma PathTail(m: Contexts, u: Option<nat>, p: seq<nat>)
    requires Path(m, u, p) && p != []
    ensures u == Some(p[0]) && p[0] in m
    ensures Path(m, m[p[0]].sender, p[1..]) && Behind(m, m[p[0]].sender, p[1..]) == Behind(m, u, p)
  {
  }

  /** A path that nothing on it stops ends where something does. */
  lemma {:induction false} StopsSomewhere(m: Contexts, u: Option<nat>, home: nat, n: nat) returns (p: seq<nat>)
    requires Finite(m, u, n)
    ensures Path(m, u, p) && Clear(m, p, home)
    ensures var k := Behind(m, u, p);
      k.None? || k.value !in m || k.value == home || m[k.value].code.primitive != Ordinary
    decreases n
  {
    if u.None? || u.value !in m || u.value == home || m[u.value].code.primitive != Ordinary {
      p := [];
    } else {
      var rest := StopsSomewhere(m, m[u.value].sender, home, n - 1);
      p := [u.value] + rest;
      assert p[1..] == rest;
      assert forall j :: 0 < j < |p| ==> p[j] == rest[j - 1];
    }
  }

  /** The search says what is behind the path. */
  lemma {:induction false} SearchStops(m: Contexts, u: Option<nat>, home: nat, n: nat, p: seq<nat>)
    requires Finite(m, u, n) && home in m && Path(m, u, p) && Clear(m, p, home)
    ensures var k := Behind(m, u, p);
      && (k == Some(home) ==> Search(m, u, home, n) == Returned)
      && (k.None? || k.value !in m ==> Search(m, u, home, n) == CannotReturn)
      && (k.Some? && k.value in m && k.value != home && m[k.value].code.primitive == SimulationRoot ==>
            Search(m, u, home, n) == CannotReturn)
      && (k.Some? && k.value in m && k.value != home && m[k.value].code.primitive == UnwindProtect ==>
            Search(m, u, home, n) == AboutToReturnThrough(k.value))
    decreases n
  {
    if p != [] {
      PathTail(m, u, p);
      SearchStops(m, m[p[0]].sender, home, n - 1, p[1..]);
    }
  }

  lemma {:induction false} ThroughPath(m: Contexts, u: Option<nat>, home: nat, n: nat, p: seq<nat>)
    requires Finite(m, u, n) && home in m && Path(m, u, p) && Clear(m, p, home) && Behind(m, u, p) == Some(home)
    ensures forall id :: id in Through(m, u, home, n) <==> id in p || id == home
    decreases n
  {
    if p != [] {
      PathTail(m, u, p);
      assert p == [p[0]] + p[1..];
      ThroughPath(m, m[p[0]].sender, home, n - 1, p[1..]);
    }
  }

  /**
   * The contexts in ended are dead, the context that is resumed has the value and nothing else is different. All of
   * this is said of each context for itself.
   */
  ghost predicate ReturnedTo(before: Machine, after: Machine, ended: set<nat>, target: nat, v: Value)
  {
    && after.current == Some(target) && after.contexts.Keys == before.contexts.Keys && target in before.contexts
    && target !in ended && ended <= before.contexts.Keys
    && (forall id :: id in ended ==>
          after.contexts[id] == before.contexts[id].(sender := None, bci := None, temps := []))
    && (forall id :: id in before.contexts && id !in ended && id != target ==>
          after.contexts[id] == before.contexts[id])
    && after.contexts[target] == before.contexts[target].(temps := before.contexts[target].temps + [v])
  }

  /** A context that can be returned to: it has not ended. */
  ghost predicate Alive(m: Contexts, u: Option<nat>) { u.Some? && u.value in m && m[u.value].bci.Some? }

  /**
   * From the sender of the running context on, p are ordinary contexts other than the home. An unwind context behind
   * them is told first, and nothing happens to any context. A simulation root, or the end of the chain, stops the
   * return. The home behind them lets it through, if the sender of the home is alive: then the running context, those
   * of p and the home end, and the sender of the home goes on with the value.
   */
  lemma NonLocalReturnRule(m: Machine, home: nat, v: Value, n: nat, p: seq<nat>)
    requires Running(m) && Finite(m.contexts, m.current, n) && home in m.contexts && m.current != Some(home)
    requires Path(m.contexts, m.contexts[m.current.value].sender, p) && Clear(m.contexts, p, home)
    ensures var k := Behind(m.contexts, m.contexts[m.current.value].sender, p);
      var (outcome, after) := NonLocallyReturned(m, home, v, n);
      if k == Some(home) && Alive(m.contexts, m.contexts[home].sender) then
        && outcome == Returned
        && ReturnedTo(m, after, {m.current.value, home} + Ids(p), m.contexts[home].sender.value, v)
      else
        (k.Some? && k.value in m.contexts && k.value != home ==> m.contexts[k.value].code.primitive != Ordinary) ==>
          after == m && outcome ==
            if k.Some? && k.value in m.contexts && k.value != home
               && m.contexts[k.value].code.primitive == UnwindProtect
            then AboutToReturnThrough(k.value) else CannotReturn
  {
    var u := m.contexts[m.current.value].sender;
    SearchStops(m.contexts, u, home, n - 1, p);
    if Behind(m.contexts, u, p) == Some(home) && Alive(m.contexts, m.contexts[home].sender) {
      ThroughPath(m.contexts, u, home, n - 1, p);
      var ended := Through(m.contexts, m.current, home, n);
      assert ended == {m.current.value, home} + Ids(p);
      SenderNotThrough(m.contexts, m.current, home, n);
    }
  }

  /** The running context ends and its sender goes on with the value, or nothing happens. */
  lemma LocalReturnRule(m: Machine, v: Value)
    requires Running(m) && m.contexts[m.current.value].sender != m.current
    ensures var sender, (outcome, after) := m.contexts[m.current.value].sender, LocallyReturned(m, v);
      if Alive(m.contexts, sender) then outcome == Returned && ReturnedTo(m, after, {m.current.value}, sender.value, v)
      else outcome == CannotReturn && after == m
  {
  }

  /** Closures, each of which was created in the activation that the one before runs in. */
  ghost predicate StaticPath(m: Contexts, c: Closure, q: seq<Closure>)
  {
    && q != [] && q[0] == c && (forall j :: 0 <= j < |q| ==> q[j].definingActivation in m)
    && forall j :: 0 < j < |q| ==> m[q[j - 1].definingActivation].closure == Some(q[j])
  }

  /** The home is the activation at the end of the static chain, which is that of a method. */
  lemma {:induction false} HomeAtEnd(m: Contexts, c: Closure, q: seq<Closure>)
    requires Nested(m) && Inside(m, c) && StaticPath(m, c, q)
    requires m[q[|q| - 1].definingActivation].closure.None?
    ensures HomeOf(m, c) == q[|q| - 1].definingActivation
    decreases |q|
  {
    if |q| > 1 {
      assert m[q[0].definingActivation].closure == Some(q[1]);
      assert forall j :: 0 < j < |q[1..]| ==> q[1..][j - 1] == q[j];
      HomeAtEnd(m, q[1], q[1..]);
    }
  }
}
