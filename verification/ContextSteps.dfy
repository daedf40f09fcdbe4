/** What each step of the interpreter does to the contexts: vm/interpreter.cc. */
module ContextSteps {
  import opened Contexts

  /** The step that ends contexts. */
  ghost function Dead(c: Context): Context { c.(sender := None, bci := None, temps := []) }

  ghost function Kill(m: Contexts, ids: set<nat>): Contexts {
    map id | id in m :: if id in ids then Dead(m[id]) else m[id]
  }

  /** The step that gives a context the value it is waiting for. */
  ghost function Resume(m: Contexts, id: nat, v: Value): Contexts
    requires id in m
  {
    m[id := m[id].(temps := m[id].temps + [v])]
  }

  ghost function Only(m: Contexts, ids: set<nat>): Contexts { map id | id in m && id in ids :: m[id] }

  // ---- allocating the activation of a frame ----

  ghost function Ensured(s: State, i: nat): State
    requires i < |s.frames|
  {
    var f := s.frames[i];
    if f.filled then s else
      s.(frames := Allocated(s.frames, i),
         activations := s.activations[f.id := Activation(InFrame(FpOf(s.frames[..i + 1])), None, f.code, f.Closure(),
                                                         f.receiver, [])])
  }

  lemma EnsuredOk(s: State, i: nat)
    requires StateOk(s) && i < |s.frames|
    ensures StateOk(Ensured(s, i))
  {
    hide FpOf;
    var t := Ensured(s, i);
    assert forall k :: 0 <= k < |s.frames| ==> t.frames[k] == s.frames[k].(filled := t.frames[k].filled);
    assert FrameOk(s, i) && SlotOk(s, i);
    forall k | 0 <= k < |t.frames| ensures FrameOk(t, k) && SlotOk(t, k) {
      assert FrameOk(s, k) && SlotOk(s, k);
      if !s.frames[i].filled {
        FpAllocated(s.frames, i, k + 1);
        assert k != i ==> t.frames[k].id != t.frames[i].id;
      }
    }
    forall id | id in t.activations ensures ActivationOk(t, id) {
      assert id in s.activations ==> ActivationOk(s, id);
      assert InFrames(s.frames, s.frames[i].id);
      if InFrames(s.frames, id) { assert t.frames[IndexOf(s.frames, id)].id == id; }
    }
  }

  lemma EnsuredContext(s: State, i: nat, id: nat)
    requires StateOk(s) && i < |s.frames|
    ensures Named(s, id) <==> Named(Ensured(s, i), id)
    ensures Named(s, id) ==> ContextOf(s, id) == ContextOf(Ensured(s, i), id)
  {
    hide FpOf;
    var t := Ensured(s, i);
    assert InFrames(s.frames, s.frames[i].id);
    SameIds(s.frames, t.frames, id);
    if InFrames(s.frames, id) {
      var k := IndexOf(s.frames, id);
      assert t.frames[k] == s.frames[k].(filled := t.frames[k].filled);
      assert FrameContext(s, k) == FrameContext(t, k);
    }
  }

  lemma EnsuredKeeps(s: State, i: nat)
    requires StateOk(s) && i < |s.frames|
    ensures All(Ensured(s, i)) == All(s) && Current(Ensured(s, i)) == Current(s)
  {
    hide StateOk, ContextOf, Named;
    var t := Ensured(s, i);
    forall id ensures Named(s, id) <==> Named(t, id) { EnsuredContext(s, i, id); }
    forall id | Named(s, id) && Named(t, id) ensures ContextOf(s, id) == ContextOf(t, id) { EnsuredContext(s, i, id); }
    SameContexts(s, t);
  }

  // ---- moving the top frame to the heap ----

  ghost function SavedIpOf(f: Frame): Option<int> { if f.ret.SavedIp? then Some(f.ret.bci) else None }

  ghost function Flushed(s: State): State
    requires s.frames != [] && s.frames[|s.frames| - 1].id in s.activations
  {
    var n := |s.frames| - 1;
    var f := s.frames[n];
    var sender := FrameSender(s.frames, n);
    var ref := if sender.Some? then From(sender.value) else NoSender;
    State(s.frames[..n], SavedIpOf(f),
          s.activations[f.id := s.activations[f.id].(sender := ref, bci := s.ip, temps := f.args + f.locals)])
  }

  lemma FlushedOk(s: State)
    requires StateOk(s) && s.frames != []
    requires s.frames[|s.frames| - 1].filled && (|s.frames| > 1 ==> s.frames[|s.frames| - 2].filled)
    ensures s.frames[|s.frames| - 1].id in s.activations && StateOk(Flushed(s))
  {
    hide FpOf;
    var n := |s.frames| - 1;
    assert FrameOk(s, n) && SlotOk(s, n);
    var t, f := Flushed(s), s.frames[n];
    assert f.ret.SavedIp? <==> n > 0;
    if n > 0 { assert SlotOk(s, n - 1); }
    forall k | 0 <= k < n ensures FrameOk(t, k) && SlotOk(t, k) {
      assert FrameOk(s, k) && SlotOk(s, k);
      assert t.frames[..k + 1] == s.frames[..k + 1];
    }
    forall id | id in t.activations ensures ActivationOk(t, id) {
      assert ActivationOk(s, id);
      if id != f.id && InFrames(s.frames, id) {
        var k := IndexOf(s.frames, id);
        assert t.frames[k].id == id;
      }
    }
  }

  lemma FlushedContext(s: State, id: nat)
    requires StateOk(s) && s.frames != [] && s.frames[|s.frames| - 1].id in s.activations
    ensures Named(s, id) <==> Named(Flushed(s), id)
    ensures Named(s, id) ==> ContextOf(s, id) == ContextOf(Flushed(s), id)
  {
    hide FpOf;
    var n, t := |s.frames| - 1, Flushed(s);
    LowerIds(s.frames, n, id);
    ContextAt(s, n);
    if InFrames(s.frames, id) {
      var k := IndexOf(s.frames, id);
      if k < n {
        assert FrameContext(s, k) == FrameContext(t, k);
      } else {
        assert FrameOk(s, n);
      }
    }
  }

  lemma FlushedKeeps(s: State)
    requires StateOk(s) && s.frames != [] && s.frames[|s.frames| - 1].id in s.activations
    ensures All(Flushed(s)) == All(s)
  {
    hide StateOk, ContextOf, Named, Flushed;
    var t := Flushed(s);
    forall id ensures Named(s, id) <==> Named(t, id) { FlushedContext(s, id); }
    forall id | Named(s, id) && Named(t, id) ensures ContextOf(s, id) == ContextOf(t, id) { FlushedContext(s, id); }
    SameContexts(s, t);
  }

  // ---- making a base frame of an activation ----

  ghost function BaseFrame(a: Activation, id: nat): Frame
    requires |a.temps| >= NumArgs(a.code, a.closure)
  {
    var n := NumArgs(a.code, a.closure);
    Frame(if a.closure.Some? then ClosureRef(a.closure.value) else a.receiver, a.temps[..n], BaseSender(SenderRef(a)),
          a.closure.Some?, a.code, id, true, a.receiver, a.temps[n..])
  }

  ghost function Based(s: State, id: nat): State
    requires id in s.activations
    requires |s.activations[id].temps| >= NumArgs(s.activations[id].code, s.activations[id].closure)
  {
    var a := s.activations[id];
    var n := NumArgs(a.code, a.closure);
    State([BaseFrame(a, id)], a.bci, s.activations[id := a.(sender := InFrame(n + 2), temps := a.temps[..n])])
  }

  lemma BasedKeeps(s: State, id: nat)
    requires StateOk(s) && s.frames == [] && id in s.activations && s.activations[id].bci.Some?
    ensures |s.activations[id].temps| >= NumArgs(s.activations[id].code, s.activations[id].closure)
    ensures StateOk(Based(s, id)) && All(Based(s, id)) == All(s)
  {
    assert ActivationOk(s, id);
    var a, t := s.activations[id], Based(s, id);
    var f := BaseFrame(a, id);
    assert t.frames[..1] == [f] && [f][..0] == [];
    assert FpOf([f]) == |f.args| + 2;
    assert t.frames[0].id == id;
    forall x | x in t.activations ensures ActivationOk(t, x) { assert ActivationOk(s, x); }
    assert FrameOk(t, 0) && SlotOk(t, 0);
    forall x ensures Named(s, x) <==> Named(t, x) { }
    forall x | Named(s, x) && Named(t, x) ensures ContextOf(s, x) == ContextOf(t, x) {
      if x == id {
        ContextAt(t, 0);
        assert f.args + f.locals == a.temps;
      }
    }
    SameContexts(s, t);
  }

  // ---- dropping frames ----

  /** Frame j and all above it are gone. */
  ghost function Dropped(s: State, j: nat): State
    requires 0 < j < |s.frames|
  {
    State(s.frames[..j], SavedIpOf(s.frames[j]), s.activations)
  }

  lemma DroppedOk(s: State, j: nat)
    requires StateOk(s) && 0 < j < |s.frames|
    ensures StateOk(Dropped(s, j))
  {
    hide FpOf;
    var t := Dropped(s, j);
    assert FrameOk(s, j);
    forall k | 0 <= k < j ensures FrameOk(t, k) && SlotOk(t, k) {
      assert FrameOk(s, k) && SlotOk(s, k);
      assert t.frames[..k + 1] == s.frames[..k + 1];
    }
    forall id | id in t.activations ensures ActivationOk(t, id) {
      assert ActivationOk(s, id);
      LowerIds(s.frames, j, id);
      if InFrames(s.frames, id) { assert SlotOk(s, IndexOf(s.frames, id)); }
    }
  }

  lemma IdsFrom(frames: seq<Frame>, j: nat, id: nat)
    requires Distinct(frames) && j <= |frames|
    ensures id in FrameIds(frames[j..]) <==> InFrames(frames, id) && j <= IndexOf(frames, id)
  {
    if InFrames(frames, id) && j <= IndexOf(frames, id) {
      assert frames[j..][IndexOf(frames, id) - j].id == id;
    }
    if id in FrameIds(frames[j..]) {
      var f :| f in frames[j..] && f.id == id;
      var k :| 0 <= k < |frames| - j && frames[j..][k] == f;
      assert frames[j + k].id == id;
    }
  }

  lemma DroppedContext(s: State, j: nat, id: nat)
    requires StateOk(s) && 0 < j < |s.frames|
    ensures Named(Dropped(s, j), id) ==> Named(s, id)
    ensures Named(Dropped(s, j), id) ==>
      ContextOf(Dropped(s, j), id) == if id in FrameIds(s.frames[j..]) then Dead(ContextOf(s, id)) else ContextOf(s, id)
  {
    hide FpOf, FrameIds;
    var t := Dropped(s, j);
    LowerIds(s.frames, j, id);
    IdsFrom(s.frames, j, id);
    if InFrames(s.frames, id) {
      var k := IndexOf(s.frames, id);
      assert SlotOk(s, k) && FrameOk(s, k) && FrameOk(s, j);
    }
  }

  /** The dropped contexts are dead, and everything else is what it was. */
  lemma DroppedShows(s: State, j: nat)
    requires StateOk(s) && 0 < j < |s.frames|
    ensures All(Dropped(s, j)) == Only(Kill(All(s), FrameIds(s.frames[j..])), Names(Dropped(s, j)))
  {
    hide FpOf, All, ContextOf, FrameIds, Dropped, Named, Names, StateOk;
    var t, m := Dropped(s, j), All(s);
    var shown := Only(Kill(m, FrameIds(s.frames[j..])), Names(t));
    forall id ensures Named(t, id) <==> id in shown {
      DroppedContext(s, j, id);
      AllAt(s, id);
      NamesAre(t, id);
    }
    forall id | Named(t, id) && id in shown ensures ContextOf(t, id) == shown[id] {
      DroppedContext(s, j, id);
      AllAt(s, id);
    }
    AllAre(t, shown);
  }

  // ---- pushing, killing, burying ----

  ghost function PushedOn(s: State, v: Value): State
    requires s.frames != []
  {
    s.(frames := Pushed(s.frames, v))
  }

  lemma PushedShows(s: State, v: Value)
    requires StateOk(s) && s.frames != []
    ensures StateOk(PushedOn(s, v)) && Current(PushedOn(s, v)) == Current(s)
    ensures Current(s).value in All(s) && All(PushedOn(s, v)) == Resume(All(s), Current(s).value, v)
  {
    hide FpOf, All;
    var t, n := PushedOn(s, v), |s.frames| - 1;
    assert forall k :: 0 <= k < |s.frames| ==> t.frames[k] == s.frames[k].(locals := t.frames[k].locals);
    forall k | 0 <= k < |t.frames| ensures FrameOk(t, k) && SlotOk(t, k) {
      assert FrameOk(s, k) && SlotOk(s, k);
      FpPushed(s.frames, v, k + 1);
    }
    forall id ensures InFrames(s.frames, id) <==> InFrames(t.frames, id) {
      if InFrames(s.frames, id) { assert t.frames[IndexOf(s.frames, id)].id == id; }
      if InFrames(t.frames, id) { assert s.frames[IndexOf(t.frames, id)].id == id; }
    }
    forall id | id in t.activations ensures ActivationOk(t, id) { assert ActivationOk(s, id); }
    PushedContexts(s, v);
  }

  lemma PushedContext(s: State, v: Value, id: nat)
    requires Distinct(s.frames) && s.frames != []
    ensures Named(PushedOn(s, v), id) <==> Named(s, id)
    ensures Named(s, id) ==>
      var c := ContextOf(s, id);
      ContextOf(PushedOn(s, v), id) == if id == Current(s).value then c.(temps := c.temps + [v]) else c
  {
    var t, n := PushedOn(s, v), |s.frames| - 1;
    SameIds(s.frames, t.frames, id);
    ContextAt(s, n);
    if InFrames(s.frames, id) {
      var k := IndexOf(s.frames, id);
      var f := s.frames[k];
      assert f.args + (f.locals + [v]) == f.args + f.locals + [v];
    }
  }

  lemma PushedContexts(s: State, v: Value)
    requires StateOk(s) && s.frames != []
    ensures Current(s).value in All(s) && All(PushedOn(s, v)) == Resume(All(s), Current(s).value, v)
  {
    hide FpOf, All, ContextOf, Named, PushedOn;
    var t, m, top := PushedOn(s, v), All(s), Current(s).value;
    ContextAt(s, |s.frames| - 1);
    AllAt(s, top);
    var shown := Resume(m, top, v);
    forall id ensures Named(t, id) <==> id in shown { PushedContext(s, v, id); AllAt(s, id); }
    forall id | Named(t, id) && id in shown ensures ContextOf(t, id) == shown[id] {
      PushedContext(s, v, id);
      AllAt(s, id);
    }
    AllAre(t, shown);
  }

  /** What is done to an activation to mark it as dead. */
  function Buried(a: Activation): Activation { a.(sender := NoSender, bci := None) }

  ghost function Killed(s: State, id: nat): State
    requires id in s.activations
  {
    s.(activations := s.activations[id := Buried(s.activations[id])])
  }

  lemma KilledShows(s: State, id: nat)
    requires StateOk(s) && id in s.activations && !InFrames(s.frames, id)
    ensures StateOk(Killed(s, id)) && All(Killed(s, id)) == Kill(All(s), {id})
    ensures s.activations[id].sender.InFrame? ==> All(Killed(s, id)) == All(s)
  {
    hide FpOf, All;
    var t := Killed(s, id);
    forall k | 0 <= k < |t.frames| ensures FrameOk(t, k) && SlotOk(t, k) {
      assert FrameOk(s, k) && SlotOk(s, k);
    }
    forall x | x in t.activations ensures ActivationOk(t, x) { assert ActivationOk(s, x); }
    assert ActivationOk(s, id);
    KilledContexts(s, id);
  }

  lemma KilledContexts(s: State, id: nat)
    requires StateOk(s) && id in s.activations && !InFrames(s.frames, id)
    ensures All(Killed(s, id)) == Kill(All(s), {id})
    ensures s.activations[id].sender.InFrame? ==> All(Killed(s, id)) == All(s)
  {
    hide FpOf, All;
    var t, m := Killed(s, id), All(s);
    var shown := Kill(m, {id});
    assert ActivationOk(s, id);
    forall x ensures Named(t, x) <==> x in shown { AllAt(s, x); }
    forall x | Named(t, x) && x in shown ensures ContextOf(t, x) == shown[x] {
      AllAt(s, x);
      if InFrames(s.frames, x) {
        assert FrameContext(s, IndexOf(s.frames, x)) == FrameContext(t, IndexOf(s.frames, x));
      }
    }
    AllAre(t, shown);
    AllAt(s, id);
    if s.activations[id].sender.InFrame? { assert shown == m; }
  }

  function RefTo(sender: Option<nat>): Sender { if sender.Some? then From(sender.value) else NoSender }

  /** Giving an activation without a frame another sender. */
  ghost function Redirected(s: State, id: nat, sender: Option<nat>): State
    requires id in s.activations
  {
    s.(activations := s.activations[id := s.activations[id].(sender := RefTo(sender))])
  }

  lemma RedirectedShows(s: State, id: nat, sender: Option<nat>)
    requires StateOk(s) && id in s.activations && !InFrames(s.frames, id) && !s.activations[id].sender.InFrame?
    requires sender.Some? ==> sender.value in s.activations
    ensures StateOk(Redirected(s, id, sender)) && id in All(s)
    ensures All(Redirected(s, id, sender)) == All(s)[id := All(s)[id].(sender := sender)]
  {
    hide FpOf, All;
    var t, m := Redirected(s, id, sender), All(s);
    AllAt(s, id);
    forall k | 0 <= k < |t.frames| ensures FrameOk(t, k) && SlotOk(t, k) {
      assert FrameOk(s, k) && SlotOk(s, k);
    }
    forall x: nat | x in t.activations ensures ActivationOk(t, x) { assert ActivationOk(s, x); }
    var shown := m[id := m[id].(sender := sender)];
    forall x: nat ensures Named(t, x) <==> x in shown { AllAt(s, x); }
    forall x: nat | Named(t, x) && x in shown ensures ContextOf(t, x) == shown[x] {
      AllAt(s, x);
      if InFrames(s.frames, x) {
        assert FrameContext(s, IndexOf(s.frames, x)) == FrameContext(t, IndexOf(s.frames, x));
      }
    }
    AllAre(t, shown);
  }
}
