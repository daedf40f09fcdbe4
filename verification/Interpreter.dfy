/** The stack of the interpreter, how it is moved to the heap and back, and returning: vm/interpreter.cc. */
module Interpreters {
  import opened Contexts
  import opened ContextSteps
  import opened SenderChain

  /** The state s shows a machine: of the contexts that ended, the ones nothing can refer to may be gone. */
  ghost predicate Shows(s: State, m: Machine) {
    Current(s) == m.current && All(s) == Only(m.contexts, Names(s))
  }

  lemma OnlyNames(s: State, m: Contexts)
    requires All(s) == m
    ensures Only(m, Names(s)) == m
  {
    forall id | id in m ensures id in Names(s) { AllAt(s, id); NamesAre(s, id); }
  }

  lemma FrameShown(s: State, k: nat)
    requires StateOk(s) && k < |s.frames|
    ensures s.frames[k].id in All(s) && All(s)[s.frames[k].id] == FrameContext(s, k)
  {
    ContextAt(s, k);
    AllAt(s, s.frames[k].id);
  }

  /** What can be seen of an activation; which closure it belongs to does not depend on whether it has a frame. */
  lemma ActivationShown(s: State, id: nat)
    requires StateOk(s) && id in s.activations
    ensures id in All(s) && All(s)[id].closure == s.activations[id].closure
    ensures !InFrames(s.frames, id) ==> All(s)[id] == HeapContext(s.activations[id])
  {
    AllAt(s, id);
    if InFrames(s.frames, id) { assert SlotOk(s, IndexOf(s.frames, id)); }
  }

  lemma HeapOnly(s: State)
    requires s.frames == []
    ensures All(s).Keys == s.activations.Keys
    ensures forall id :: id in s.activations ==> All(s)[id] == HeapContext(s.activations[id])
  {
    forall id ensures id in All(s) <==> id in s.activations { AllAt(s, id); }
    forall id | id in s.activations ensures All(s)[id] == HeapContext(s.activations[id]) { AllAt(s, id); }
  }

  ghost predicate SameButSlots(a: seq<Frame>, b: seq<Frame>)
    requires |a| == |b|
  {
    forall k :: 0 <= k < |a| ==> b[k] == a[k].(filled := b[k].filled) && (a[k].filled ==> b[k].filled)
  }

  class Interpreter {
    /** The stack pointer is the number of words; the base is at zero. */
    var stack: seq<Word>
    var fp: nat
    var ip: Option<int>
    var activations: map<nat, Activation>
    ghost var frames: seq<Frame>

    ghost function Now(): State reads this { State(frames, ip, activations) }

    ghost predicate Valid() reads this { stack == Encode(frames) && fp == FpOf(frames) && StateOk(Now()) }

    method Push(v: Value)
      requires Valid() && frames != []
      modifies this
      ensures Valid() && Now() == PushedOn(old(Now()), v)
    {
      hide StateOk, Encode, FpOf, Pushed, All, FrameWords;
      PushedShows(Now(), v);
      EncodePushed(frames, v);
      stack := stack + [Val(v)];
      frames := Pushed(frames, v);
    }

    /** The temporary of a frame: an argument, or a local; -1 is the receiver of the message. */
    function FrameTemp(at: nat, index: int): Word
      requires at + 1 < |stack| && stack[at + 1].Flags? && -1 <= index
      requires if index < stack[at + 1].numArgs then at >= stack[at + 1].numArgs + 2
               else at + 5 + index - stack[at + 1].numArgs < |stack|
      reads this
    {
      var n := stack[at + 1].numArgs;
      if index < n then stack[at - 1 - n + index] else stack[at + 5 + (index - n)]
    }

    method EnsureActivation(at: nat, ghost i: nat) returns (id: nat)
      requires Valid() && i < |frames| && at == FpOf(frames[..i + 1])
      modifies this
      ensures Valid() && Now() == Ensured(old(Now()), i) && id == old(frames[i].id) && fp == old(fp)
      ensures All(Now()) == old(All(Now()))
      ensures |frames| == old(|frames|) && frames[i].filled && id in activations && SameButSlots(old(frames), frames)
    {
      hide Encode, FpOf, All;
      EnsuredOk(Now(), i);
      EnsuredKeeps(Now(), i);
      LayoutAt(frames, i);
      assert FrameOk(Now(), i) && SlotOk(Now(), i);
      id := stack[at + 3].id;
      if !stack[at + 3].filled {
        var closure := None;
        if stack[at + 1].isClosure {
          closure := Some(FrameTemp(at, -1).value.closure);
        }
        EncodeAllocated(frames, i);
        activations := activations[id := Activation(InFrame(at), None, stack[at + 2].code, closure,
                                                    stack[at + 4].value, [])];
        stack := stack[at + 3 := Slot(id, true)];
        frames := Allocated(frames, i);
      }
    }

    /** The arguments and locals of the top frame. */
    method TopTemps() returns (temps: seq<Value>)
      requires Valid() && frames != []
      ensures temps == frames[|frames| - 1].args + frames[|frames| - 1].locals
    {
      hide StateOk, Encode, FpOf;
      Layout(frames);
      ghost var f := frames[|frames| - 1];
      var numArgs := stack[fp + 1].numArgs;
      var numTemps := numArgs + (|stack| - (fp + 5));
      temps := [];
      var i := 0;
      while i < numTemps
        invariant i <= numTemps && temps == (f.args + f.locals)[..i]
      {
        if i < numArgs { assert stack[fp - 1 - numArgs + i] == Val(f.args[i]); }
        assert FrameTemp(fp, i) == Val((f.args + f.locals)[i]);
        temps := temps + [FrameTemp(fp, i).value];
        i := i + 1;
      }
    }

    /** Copies the top frame to its activation and drops it. */
    method SaveTop(id: nat, sender: Option<nat>)
      requires Valid() && frames != [] && id == frames[|frames| - 1].id && sender == FrameSender(frames, |frames| - 1)
      requires id in activations && StateOk(Flushed(Now()))
      modifies this
      ensures Valid() && Now() == Flushed(old(Now()))
    {
      hide Encode, FpOf, StateOk, FrameWords, FrameSender;
      ghost var n, flushed := |frames| - 1, Flushed(Now());
      var temps := TopTemps();
      Layout(frames);
      var ret, numArgs, savedFp := stack[fp - 1], stack[fp + 1].numArgs, stack[fp].fp;
      var ref := if sender.Some? then From(sender.value) else NoSender;
      activations := activations[id := activations[id].(sender := ref, bci := ip, temps := temps)];
      ip := if ret.SavedIp? then Some(ret.bci) else None;
      stack := stack[..fp - 2 - numArgs];
      fp := savedFp;
      frames := frames[..n];
    }

    /** One round of the loop that moves the frames to the heap. */
    method FlushTop()
      requires Valid() && frames != []
      modifies this
      ensures Valid() && |frames| == old(|frames|) - 1
      ensures All(Now()) == old(All(Now()))
    {
      hide Encode, FpOf, All, StateOk, FrameWords, Ensured;
      ghost var n := |frames| - 1;
      assert frames[..n + 1] == frames;
      var id := EnsureActivation(fp, n);
      assert frames[..n + 1] == frames;
      Layout(frames);
      SavedFpIs(frames);
      var savedFp := stack[fp].fp;
      var sender := None;
      if savedFp != 0 {
        var s := EnsureActivation(savedFp, n - 1);
        sender := Some(s);
      } else {
        TopReturns(Now());
        sender := stack[fp - 1].sender;
      }
      FlushedOk(Now());
      FlushedKeeps(Now());
      SaveTop(id, sender);
    }

    /** Moves every frame to the heap. Nothing can tell. */
    method FlushAllFrames() returns (top: nat)
      requires Valid() && frames != []
      modifies this
      ensures Valid() && frames == [] && All(Now()) == old(All(Now()))
      ensures Some(top) == old(Current(Now())) && top in activations && activations[top].bci.Some?
    {
      hide Encode, FpOf, All, StateOk, Ensured;
      ghost var s := Now();
      FrameShown(s, |frames| - 1);
      AliveAt(s, |frames| - 1);
      assert frames[..|frames| - 1 + 1] == frames;
      top := EnsureActivation(fp, |frames| - 1);
      FpIs(frames);
      while fp != 0
        invariant Valid() && All(Now()) == All(s)
        invariant fp == 0 <==> frames == []
        decreases |frames|
      {
        FlushTop();
        FpIs(frames);
      }
      HeapOnly(Now());
    }

    /** Makes a frame of an activation, as the only frame. Nothing can tell. */
    method CreateBaseFrame(id: nat)
      requires Valid() && frames == [] && id in activations && activations[id].bci.Some?
      modifies this
      ensures Valid() && Now() == Based(old(Now()), id)
      ensures All(Now()) == old(All(Now())) && Current(Now()) == Some(id)
    {
      hide FpOf, All, StateOk, Encode, FrameWords;
      BasedKeeps(Now(), id);
      ghost var s := Now();
      ghost var f := BaseFrame(activations[id], id);
      NoFrames();
      PushFrame(activations[id], id);
      var numArgs := NumArgs(activations[id].code, activations[id].closure);
      activations := activations[id := activations[id].(temps := activations[id].temps[..numArgs])];
      ip := activations[id].bci;
      activations := activations[id := activations[id].(sender := InFrame(fp))];
      frames := [f];
      BaseEncoded(f);
      assert Now() == Based(s, id);
    }

    /** Lays out the words of a frame for an activation. */
    method PushFrame(a: Activation, id: nat)
      requires |a.temps| >= NumArgs(a.code, a.closure) && stack == []
      modifies this`stack, this`fp
      ensures stack == FrameWords(BaseFrame(a, id), 0) && fp == NumArgs(a.code, a.closure) + 2
    {
      PushMessage(a);
      var numArgs := NumArgs(a.code, a.closure);
      stack := stack + [BaseSender(SenderRef(a)), SavedFp(0)];
      fp := |stack| - 1;
      stack := stack + [Flags(numArgs, a.closure.Some?), Code(a.code), Slot(id, true), Val(a.receiver)];
      PushTemps(a.temps, numArgs);
    }

    /** Pushes the message receiver and the arguments. */
    method PushMessage(a: Activation)
      requires |a.temps| >= NumArgs(a.code, a.closure) && stack == []
      modifies this`stack
      ensures stack == [Val(BaseFrame(a, 0).message)] + Vals(BaseFrame(a, 0).args)
    {
      stack := stack + [Val(if a.closure.None? then a.receiver else ClosureRef(a.closure.value))];
      var numArgs := NumArgs(a.code, a.closure);
      var i := 0;
      while i < numArgs
        invariant i <= numArgs && stack == [Val(BaseFrame(a, 0).message)] + Vals(a.temps[..i])
      {
        stack := stack + [Val(a.temps[i])];
        i := i + 1;
      }
    }

    method PushTemps(temps: seq<Value>, numArgs: nat)
      requires numArgs <= |temps|
      modifies this`stack
      ensures stack == old(stack) + Vals(temps[numArgs..])
    {
      var i := numArgs;
      while i < |temps|
        invariant numArgs <= i <= |temps| && stack == old(stack) + Vals(temps[numArgs..i])
      {
        stack := stack + [Val(temps[i])];
        i := i + 1;
      }
      assert temps[numArgs..i] == temps[numArgs..];
    }

    /** Continues below the frame at a frame pointer, dropping it and all above it. */
    method UnwindThrough(at: nat, ghost j: nat)
      requires Valid() && 0 < j < |frames| && at == FpOf(frames[..j + 1])
      modifies this
      ensures Valid() && Now() == Dropped(old(Now()), j)
    {
      hide Encode, FpOf, StateOk, FrameWords;
      DroppedOk(Now(), j);
      LayoutAt(frames, j);
      EncodePrefix(frames, j);
      LowerEnd(frames, j);
      ip := if stack[at - 1].SavedIp? then Some(stack[at - 1].bci) else None;
      var savedFp := stack[at].fp;
      stack := stack[..at - 2 - stack[at + 1].numArgs];
      fp := savedFp;
      frames := frames[..j];
    }

    method LocalReturn(v: Value) returns (outcome: Outcome)
      requires Valid() && frames != [] && FrameSender(frames, |frames| - 1) != Current(Now())
      modifies this
      ensures Valid() && outcome == LocallyReturned(old(Abstract(Now())), v).0
      ensures Shows(Now(), LocallyReturned(old(Abstract(Now())), v).1)
      ensures old(activations.Keys) <= activations.Keys
    {
      hide Encode, FpOf, StateOk, All;
      Layout(frames);
      SavedFpIs(frames);
      if stack[fp].fp == 0 {
        outcome := LocalBaseReturn(v);
        OnlyNames(Now(), All(Now()));
        return;
      }
      ghost var s, n := Now(), |frames| - 1;
      assert frames[..n + 1] == frames;
      UnwindThrough(fp, n);
      DroppedShows(s, n);
      PushedShows(Now(), v);
      ghost var t := Now();
      Push(v);
      LocalReturnFits(s, t, v);
      outcome := Returned;
    }

    /** Returning from the base frame has the same effect as returning from any other. */
    method LocalBaseReturn(v: Value) returns (outcome: Outcome)
      requires Valid() && |frames| == 1 && FrameSender(frames, 0) != Current(Now())
      modifies this
      ensures Valid() && (outcome, Abstract(Now())) == LocallyReturned(old(Abstract(Now())), v)
      ensures old(activations.Keys) <= activations.Keys
    {
      hide Encode, FpOf, StateOk, All;
      ghost var s := Now();
      FrameShown(s, 0);
      KeysShown(s);
      var top := FlushAllFrames();
      HeapOnly(Now());
      var sender := SenderRef(activations[top]);
      SenderExists(Now(), top);
      if sender.None? || activations[sender.value].bci.None? {
        CreateBaseFrame(top);
        return CannotReturn;
      }
      KilledShows(Now(), top);
      activations := activations[top := Buried(activations[top])];
      HeapOnly(Now());
      KeysShown(Now());
      CreateBaseFrame(sender.value);
      PushedShows(Now(), v);
      Push(v);
      KeysShown(Now());
      outcome := Returned;
    }

    /** The method activation at the end of the static chain of the running closure. */
    method FindHome() returns (home: nat)
      requires Valid() && frames != [] && Nested(All(Now())) && frames[|frames| - 1].isClosure
      ensures var closure := frames[|frames| - 1].Closure();
        closure.Some? && Inside(All(Now()), closure.value) && home == HomeOf(All(Now()), closure.value)
      ensures home in activations && All(Now())[home].closure.None?
    {
      hide Encode, FpOf, StateOk, All;
      ghost var s := Now();
      Layout(frames);
      FrameShown(s, |frames| - 1);
      TopClosure(s);
      var c := FrameTemp(fp, -1).value.closure;
      ghost var start := c;
      home := c.definingActivation;
      ClosureShown(s, c, home);
      ActivationShown(s, home);
      var outer := activations[home].closure;
      while outer.Some?
        invariant home in activations && home in All(s) && outer == All(s)[home].closure == activations[home].closure
        invariant HomeOf(All(s), start) == if outer.None? then home else HomeOf(All(s), outer.value)
        decreases if outer.Some? then outer.value.nesting + 1 else 0
      {
        assert Inside(All(s), outer.value);
        DefinerExists(s, home);
        home := outer.value.definingActivation;
        ActivationShown(s, home);
        outer := activations[home].closure;
      }
    }

    /** Looks for the home among the frames; at is zero if the frames do not settle the matter. */
    method FindHomeFrame(home: nat, ghost n: nat) returns (at: nat, ghost j: nat)
      requires Valid() && frames != [] && home in activations && home != frames[|frames| - 1].id
      requires Finite(All(Now()), Current(Now()), n)
      ensures at != 0 ==> 0 < j < |frames| && at == FpOf(frames[..j + 1]) && Found(Now(), home, n, j)
    {
      hide Encode, FpOf, StateOk, All, FrameIds, Passed, Found;
      ghost var s := Now();
      ghost var k: nat := |frames| - 1;
      Layout(frames);
      PrefixFp(frames, k);
      at := stack[fp].fp;
      ghost var left: nat := n;
      if at != 0 {
        left := PassedFirst(s, home, n);
      }
      while at != 0
        invariant k < |frames| && at == FpOf(frames[..k]) && (at == 0 <==> k == 0)
        invariant k > 0 ==> Passed(s, home, n, k, left)
        decreases k
      {
        k := k - 1;
        LayoutAt(frames, k);
        PrefixFp(frames, k);
        SlotShown(s, k);
        if stack[at + 3].filled && stack[at + 3].id == home {
          if stack[at].fp == 0 {
            return 0, 0;
          }
          PassedFound(s, home, n, k + 1, left);
          return at, k;
        }
        if stack[at + 2].code.primitive != Ordinary {
          return 0, 0;
        }
        at := stack[at].fp;
        if at != 0 {
          left := PassedNext(s, home, n, k + 1, left);
        }
      }
      j := 0;
    }

    /** Returning from the home of the running closure. The home is told by its activation. */
    method NonLocalReturn(v: Value, ghost n: nat) returns (outcome: Outcome, ghost home: nat)
      requires Valid() && frames != [] && frames[|frames| - 1].isClosure
      requires Nested(All(Now())) && Finite(All(Now()), Current(Now()), n)
      modifies this
      ensures var closure := old(frames[|frames| - 1].Closure());
        closure.Some? && Inside(old(All(Now())), closure.value) && home == HomeOf(old(All(Now())), closure.value)
      ensures Valid() && Running(old(Abstract(Now())))
      ensures outcome == NonLocallyReturned(old(Abstract(Now())), home, v, n).0
      ensures Shows(Now(), NonLocallyReturned(old(Abstract(Now())), home, v, n).1)
      ensures old(activations.Keys) <= activations.Keys
    {
      hide Encode, FpOf, StateOk, All, HomeOf, Inside, Nested, FrameIds;
      var h := FindHome();
      home := h;
      ghost var s := Now();
      FrameShown(s, |frames| - 1);
      ghost var j: nat;
      var at;
      at, j := FindHomeFrame(h, n);
      if at != 0 {
        UnwindThrough(at, j);
        DroppedShows(s, j);
        PushedShows(Now(), v);
        ghost var t := Now();
        Push(v);
        FastReturnFits(s, t, j, v, home, n);
        outcome := Returned;
        return;
      }
      outcome := NonLocalReturnSlowly(h, v, n);
      OnlyNames(Now(), All(Now()));
    }

    /** The general case: everything is moved to the heap first. */
    method NonLocalReturnSlowly(home: nat, v: Value, ghost n: nat) returns (outcome: Outcome)
      requires Valid() && frames != [] && home in activations && home != frames[|frames| - 1].id
      requires Finite(All(Now()), Current(Now()), n)
      modifies this
      ensures Valid() && Running(old(Abstract(Now())))
      ensures (outcome, Abstract(Now())) == NonLocallyReturned(old(Abstract(Now())), home, v, n)
      ensures old(activations.Keys) <= activations.Keys
    {
      hide Encode, FpOf, StateOk, All, Search, Through, Kill;
      ghost var m := All(Now());
      FrameShown(Now(), |frames| - 1);
      KeysShown(Now());
      var top := FlushAllFrames();
      HeapOnly(Now());
      outcome := SearchHome(top, home, n);
      var sender := SenderRef(activations[home]);
      SenderExists(Now(), home);
      if outcome != Returned || sender.None? || activations[sender.value].bci.None? {
        CreateBaseFrame(top);
        KeysShown(Now());
        return if outcome != Returned then outcome else CannotReturn;
      }
      FoundIsThrough(m, m[top].sender, home, n - 1);
      ThroughFirst(m, top, home, n);
      ReturnThrough(top, home, sender.value, v, n);
    }

    /** Ends the activations from top to home, and continues with a value in the sender of home. */
    method ReturnThrough(top: nat, home: nat, sender: nat, v: Value, ghost n: nat)
      requires Valid() && frames == [] && home in activations && top in activations
      requires SenderRef(activations[home]) == Some(sender) && sender in activations && activations[sender].bci.Some?
      requires Finite(All(Now()), Some(top), n) && home in Through(All(Now()), Some(top), home, n)
      modifies this
      ensures Valid() && activations.Keys == old(activations.Keys)
      ensures sender in Kill(old(All(Now())), Through(old(All(Now())), Some(top), home, n))
      ensures Abstract(Now()) ==
        Machine(Some(sender), Resume(Kill(old(All(Now())), Through(old(All(Now())), Some(top), home, n)), sender, v))
    {
      hide Encode, FpOf, StateOk, All, Through, Kill;
      ghost var m := All(Now());
      ghost var ended := Through(m, Some(top), home, n);
      HeapOnly(Now());
      SenderNotThrough(m, Some(top), home, n);
      KillSpares(m, ended, sender);
      Zap(top, home, sender, n);
      HeapOnly(Now());
      CreateBaseFrame(sender);
      PushedShows(Now(), v);
      Push(v);
    }

    /** Searches the dynamic chain for a dead activation or one that blocks the return. */
    method SearchHome(top: nat, home: nat, ghost n: nat) returns (outcome: Outcome)
      requires Valid() && frames == [] && top in activations && home in activations
      requires Finite(All(Now()), Some(top), n)
      ensures top in All(Now()) && outcome == Search(All(Now()), All(Now())[top].sender, home, n - 1)
    {
      hide Encode, FpOf, StateOk, All;
      ghost var m := All(Now());
      HeapOnly(Now());
      ghost var k: nat := n - 1;
      var unwind := SenderRef(activations[top]);
      SenderExists(Now(), top);
      while unwind != Some(home)
        invariant Finite(m, unwind, k) && Search(m, unwind, home, k) == Search(m, m[top].sender, home, n - 1)
        invariant unwind.Some? ==> unwind.value in activations
        decreases k
      {
        if unwind.None? {
          return CannotReturn;
        }
        var primitive := activations[unwind.value].code.primitive;
        if primitive == UnwindProtect {
          return AboutToReturnThrough(unwind.value);
        }
        if primitive == SimulationRoot {
          return CannotReturn;
        }
        SenderExists(Now(), unwind.value);
        unwind := SenderRef(activations[unwind.value]);
        k := k - 1;
      }
      outcome := Returned;
    }

    /** Marks the activations up to the target of the return as dead. */
    method Zap(top: nat, home: nat, sender: nat, ghost n: nat)
      requires Valid() && frames == [] && home in activations && top in activations
      requires SenderRef(activations[home]) == Some(sender) && sender in activations
      requires Finite(All(Now()), Some(top), n) && home in Through(All(Now()), Some(top), home, n)
      modifies this
      ensures Valid() && frames == [] && activations.Keys == old(activations.Keys)
      ensures All(Now()) == Kill(old(All(Now())), Through(old(All(Now())), Some(top), home, n))
    {
      hide Encode, FpOf, StateOk, All, Below;
      ghost var m := All(Now());
      ghost var all := Through(m, Some(top), home, n);
      HeapOnly(Now());
      ghost var killed: set<nat>, k: nat := {}, n;
      KillNone(m);
      var zap := top;
      while true
        invariant Valid() && frames == [] && activations.Keys == old(activations.Keys) && ip == old(ip)
        invariant zap in m && k <= n && Finite(m, Some(zap), k) && home in Through(m, Some(zap), home, k)
        invariant killed + Through(m, Some(zap), home, k) == all && All(Now()) == Kill(m, killed)
        invariant forall x :: x in killed ==> Below(m, x, zap, n)
        decreases k
      {
        HeapOnly(Now());
        NotBelowItself(m, zap, n);
        var next := SenderRef(activations[zap]);
        KilledShows(Now(), zap);
        KillOneMore(m, killed, zap);
        activations := activations[zap := Buried(activations[zap])];
        BelowStep(m, killed, zap, home, k, n);
        killed := killed + {zap};
        if next == Some(sender) {
          break;
        }
        zap := next.value;
        k := k - 1;
      }
    }

    /** Whether an activation has a frame. If it had one that is gone, it is marked as dead. */
    method HasLivingFrame(id: nat) returns (living: bool)
      requires Valid() && id in activations
      modifies this`activations
      ensures Valid() && All(Now()) == old(All(Now())) && living == InFrames(frames, id)
      ensures activations.Keys == old(activations.Keys) && (living <==> activations[id].sender.InFrame?)
      ensures living ==> activations == old(activations)
    {
      hide Encode, FpOf, StateOk, All;
      MarriedAt(Now(), id);
      if !activations[id].sender.InFrame? {
        return false;
      }
      var activationFp := activations[id].sender.fp;
      var at := fp;
      ghost var k: nat := |frames|;
      assert frames[..k] == frames;
      PrefixFp(frames, k);
      while at != 0
        invariant Valid() && activations == old(activations)
        invariant k <= |frames| && at == FpOf(frames[..k]) && (at == 0 <==> k == 0)
        invariant InFrames(frames, id) ==> IndexOf(frames, id) < k
        decreases k
      {
        k := k - 1;
        LayoutAt(frames, k);
        PrefixFp(frames, k);
        if InFrames(frames, id) { FpDiffers(frames, IndexOf(frames, id), k); }
        if at == activationFp {
          if stack[at + 3].filled && stack[at + 3].id == id {
            return true;
          }
          break;
        }
        at := stack[at].fp;
      }
      KilledShows(Now(), id);
      activations := activations[id := Buried(activations[id])];
      living := false;
    }

    method ActivationSender(id: nat) returns (sender: Option<nat>)
      requires Valid() && id in activations
      modifies this
      ensures Valid() && Abstract(Now()) == old(Abstract(Now()))
      ensures id in old(All(Now())) && sender == old(All(Now()))[id].sender
    {
      hide Encode, FpOf, StateOk, All;
      ActivationShown(Now(), id);
      var living := HasLivingFrame(id);
      ActivationShown(Now(), id);
      if !living {
        return SenderRef(activations[id]);
      }
      var at := activations[id].sender.fp;
      ghost var k := IndexOf(frames, id);
      MarriedAt(Now(), id);
      LayoutAt(frames, k);
      PrefixFp(frames, k);
      FrameShown(Now(), k);
      FrameRet(Now(), k);
      if stack[at].fp == 0 {
        return stack[at - 1].sender;
      }
      var s := EnsureActivation(stack[at].fp, k - 1);
      sender := Some(s);
    }

    method ActivationBCI(id: nat) returns (bci: Option<int>)
      requires Valid() && id in activations
      modifies this`activations
      ensures Valid() && Abstract(Now()) == old(Abstract(Now()))
      ensures id in old(All(Now())) && bci == old(All(Now()))[id].bci
    {
      hide Encode, FpOf, StateOk, All;
      ActivationShown(Now(), id);
      MarriedAt(Now(), id);
      if activations[id].sender.InFrame? {
        var activationFp := activations[id].sender.fp;
        var at, pc := fp, ip;
        ghost var k: nat := |frames|;
        assert frames[..k] == frames;
        PrefixFp(frames, k);
        while at != 0
          invariant Valid() && activations == old(activations)
          invariant k <= |frames| && at == FpOf(frames[..k]) && (at == 0 <==> k == 0)
          invariant k > 0 ==> pc == FrameBci(Now(), k - 1)
          invariant InFrames(frames, id) ==> IndexOf(frames, id) < k
          decreases k
        {
          k := k - 1;
          LayoutAt(frames, k);
          PrefixFp(frames, k);
          FrameShown(Now(), k);
          FrameRet(Now(), k);
          if InFrames(frames, id) { FpDiffers(frames, IndexOf(frames, id), k); }
          if at == activationFp {
            if stack[at + 3].filled && stack[at + 3].id == id {
              return pc;
            }
            break;
          }
          pc := if stack[at - 1].SavedIp? then Some(stack[at - 1].bci) else None;
          at := stack[at].fp;
        }
        KilledShows(Now(), id);
        activations := activations[id := Buried(activations[id])];
        ActivationShown(Now(), id);
      }
      bci := activations[id].bci;
    }

    /** Changing the sender of a context, wherever the context is. */
    method ActivationSenderPut(id: nat, sender: Option<nat>)
      requires Valid() && frames != [] && id in activations && (sender.Some? ==> sender.value in activations)
      modifies this
      ensures id in old(All(Now()))
      ensures Valid() && Current(Now()) == old(Current(Now()))
      ensures All(Now()) == old(All(Now()))[id := old(All(Now()))[id].(sender := sender)]
    {
      hide Encode, FpOf, StateOk, All;
      ActivationShown(Now(), id);
      KeysShown(Now());
      var living := HasLivingFrame(id);
      if living {
        FrameShown(Now(), IndexOf(frames, id));
        AliveAt(Now(), IndexOf(frames, id));
        var top := FlushAllFrames();
        HeapOnly(Now());
        MarriedAt(Now(), id);
        RedirectedShows(Now(), id, sender);
        activations := activations[id := activations[id].(sender := RefTo(sender))];
        CreateBaseFrame(top);
      } else {
        RedirectedShows(Now(), id, sender);
        activations := activations[id := activations[id].(sender := RefTo(sender))];
      }
    }
  }

  /** An activation with a frame knows where it is; one whose frame is gone has no bci. */
  lemma MarriedAt(s: State, id: nat)
    requires StateOk(s) && id in s.activations
    ensures InFrames(s.frames, id) ==>
      s.activations[id].sender == InFrame(FpOf(s.frames[..IndexOf(s.frames, id) + 1]))
        && s.frames[IndexOf(s.frames, id)].filled
    ensures s.activations[id].sender.InFrame? && !InFrames(s.frames, id) ==> s.activations[id].bci.None?
  {
    assert ActivationOk(s, id);
    if InFrames(s.frames, id) { assert SlotOk(s, IndexOf(s.frames, id)); }
  }

  lemma FpDiffers(frames: seq<Frame>, i: nat, k: nat)
    requires i < |frames| && k < |frames|
    ensures FpOf(frames[..i + 1]) == FpOf(frames[..k + 1]) <==> i == k
  {
    if i < k { FpOrder(frames, i + 1, k + 1); }
    if k < i { FpOrder(frames, k + 1, i + 1); }
  }

  lemma FrameRet(s: State, k: nat)
    requires StateOk(s) && k < |s.frames|
    ensures if k == 0 then s.frames[k].ret.BaseSender? else s.frames[k].ret.SavedIp?
  {
    assert FrameOk(s, k);
  }

  lemma KillNone(m: Contexts)
    ensures Kill(m, {}) == m
  {
  }

  lemma KillOneMore(m: Contexts, ids: set<nat>, id: nat)
    ensures Kill(Kill(m, ids), {id}) == Kill(m, ids + {id})
  {
  }

  /** y is further down the chain than x. */
  ghost predicate Below(m: Contexts, x: nat, y: nat, n: nat)
  {
    && x in m && y in m && Finite(m, Some(x), n) && Finite(m, Some(y), n)
    && Depth(m, Some(y), n) < Depth(m, Some(x), n)
  }

  lemma NotBelowItself(m: Contexts, x: nat, n: nat)
    ensures !Below(m, x, x, n)
  {
  }

  lemma BelowStep(m: Contexts, killed: set<nat>, zap: nat, home: nat, k: nat, n: nat)
    requires k <= n && zap in m && home in m && Finite(m, Some(zap), k) && home in Through(m, Some(zap), home, k)
    requires m[home].sender.Some? && m[home].sender.value in m
    requires forall x :: x in killed ==> Below(m, x, zap, n)
    ensures zap == home <==> m[zap].sender == m[home].sender
    ensures zap != home ==> m[zap].sender.Some? && m[zap].sender.value in m
    ensures zap != home ==> home in Through(m, m[zap].sender, home, k - 1)
    ensures zap != home ==> forall x :: x in killed + {zap} ==> Below(m, x, m[zap].sender.value, n)
  {
    FiniteMore(m, Some(zap), k, n);
    SenderBelow(m, zap, n);
    ThroughDepth(m, Some(zap), home, n, k, home);
    SenderBelow(m, home, n);
    if zap != home {
      ThroughDepth(m, m[zap].sender, home, n, k - 1, home);
    }
  }

  lemma FpIs(frames: seq<Frame>)
    ensures FpOf(frames) == 0 <==> frames == []
  {
  }

  /** No context with a frame is dead. */
  lemma AliveAt(s: State, k: nat)
    requires StateOk(s) && k < |s.frames|
    ensures FrameContext(s, k).bci.Some?
  {
    if k + 1 < |s.frames| { assert FrameOk(s, k + 1); }
  }

  lemma ThroughFirst(m: Contexts, id: nat, home: nat, n: nat)
    requires Finite(m, Some(id), n) && id in m && n >= 1 && id != home && home in Through(m, m[id].sender, home, n - 1)
    ensures home in Through(m, Some(id), home, n)
  {
  }

  lemma KillSpares(m: Contexts, ids: set<nat>, id: nat)
    requires id in m && id !in ids
    ensures id in Kill(m, ids) && Kill(m, ids)[id] == m[id]
  {
  }

  lemma NoFrames()
    ensures Encode([]) == []
  {
  }

  lemma BaseEncoded(f: Frame)
    ensures Encode([f]) == FrameWords(f, 0) && FpOf([f]) == |f.args| + 2
  {
    assert [f][..0] == [];
  }

  lemma LowerEnd(frames: seq<Frame>, j: nat)
    requires j < |frames|
    ensures FpOf(frames[..j + 1]) - 2 - |frames[j].args| == |Encode(frames[..j])|
  {
    assert frames[..j + 1][..j] == frames[..j];
  }

  lemma KeysShown(s: State)
    ensures s.activations.Keys <= All(s).Keys
  {
    forall id | id in s.activations ensures id in All(s) { AllAt(s, id); }
  }

  lemma SenderExists(s: State, id: nat)
    requires StateOk(s) && id in s.activations
    ensures SenderRef(s.activations[id]).Some? ==> SenderRef(s.activations[id]).value in s.activations
  {
    assert ActivationOk(s, id);
  }

  lemma SavedFpIs(frames: seq<Frame>)
    requires frames != []
    ensures FpOf(frames[..|frames| - 1]) == 0 <==> |frames| == 1
  {
    var rest := frames[..|frames| - 1];
    if rest != [] { Layout(rest); }
  }

  lemma TopReturns(s: State)
    requires StateOk(s) && s.frames != []
    ensures var n := |s.frames| - 1;
      && (n == 0 <==> s.frames[n].ret.BaseSender?) && (n > 0 <==> s.frames[n].ret.SavedIp?)
      && FrameSender(s.frames, n) == if n == 0 then s.frames[n].ret.sender else Some(s.frames[n - 1].id)
  {
    assert FrameOk(s, |s.frames| - 1);
  }

  /** s returned from its top frame to t; t then gets the value. */
  lemma LocalReturnFits(s: State, t: State, v: Value)
    requires StateOk(s) && |s.frames| > 1 && t == Dropped(s, |s.frames| - 1) && StateOk(t)
    ensures LocallyReturned(Abstract(s), v).0 == Returned && Shows(PushedOn(t, v), LocallyReturned(Abstract(s), v).1)
  {
    hide FpOf, All, StateOk, Names, FrameIds;
    var n := |s.frames| - 1;
    var top, low, m := s.frames[n].id, s.frames[n - 1].id, All(s);
    FrameShown(s, n);
    FrameShown(s, n - 1);
    TopReturns(s);
    DroppedShows(s, n);
    PushedShows(t, v);
    StateDistinct(s);
    StateDistinct(t);
    TopIds(s.frames);
    assert LocallyReturned(Abstract(s), v) == (Returned, Machine(Some(low), Resume(Kill(m, {top}), low, v)));
    NamesPushed(t, v);
    var now := PushedOn(t, v);
    OnlyResumed(Kill(m, {top}), Names(t), low, v);
  }

  lemma StateDistinct(s: State)
    requires StateOk(s)
    ensures Distinct(s.frames)
  {
  }

  lemma OnlyResumed(m: Contexts, names: set<nat>, id: nat, v: Value)
    requires id in Only(m, names)
    ensures id in m && Resume(Only(m, names), id, v) == Only(Resume(m, id, v), names)
  {
  }

  lemma TopIds(frames: seq<Frame>)
    requires Distinct(frames) && frames != []
    ensures FrameIds(frames[|frames| - 1..]) == {frames[|frames| - 1].id}
    ensures |frames| > 1 ==> frames[|frames| - 1].id != frames[|frames| - 2].id
  {
    var n := |frames| - 1;
    assert frames[n..] == [frames[n]];
  }

  lemma NamesPushed(s: State, v: Value)
    requires Distinct(s.frames) && s.frames != []
    ensures Names(PushedOn(s, v)) == Names(s)
  {
    forall id ensures id in Names(PushedOn(s, v)) <==> id in Names(s) {
      PushedContext(s, v, id);
      NamesAre(s, id);
      NamesAre(PushedOn(s, v), id);
    }
  }

  lemma TopClosure(s: State)
    requires StateOk(s) && s.frames != [] && s.frames[|s.frames| - 1].isClosure
    ensures var c := s.frames[|s.frames| - 1].Closure(); c.Some? && c.value.definingActivation in s.activations
  {
    assert FrameOk(s, |s.frames| - 1);
  }

  lemma ClosureShown(s: State, c: Closure, home: nat)
    requires StateOk(s) && Nested(All(s)) && s.frames != [] && s.frames[|s.frames| - 1].Closure() == Some(c)
    ensures Inside(All(s), c)
  {
    FrameShown(s, |s.frames| - 1);
  }

  lemma DefinerExists(s: State, id: nat)
    requires StateOk(s) && id in s.activations
    ensures s.activations[id].closure.Some? ==> s.activations[id].closure.value.definingActivation in s.activations
  {
    assert ActivationOk(s, id);
  }

  lemma PrefixFp(frames: seq<Frame>, k: nat)
    requires k <= |frames|
    ensures FpOf(frames[..k]) == 0 <==> k == 0
  {
  }

  lemma SlotShown(s: State, k: nat)
    requires StateOk(s) && k < |s.frames|
    ensures s.frames[k].filled <==> s.frames[k].id in s.activations
  {
    assert SlotOk(s, k);
  }

  lemma FrameSenders(s: State, k: nat)
    requires StateOk(s) && k < |s.frames|
    ensures k > 0 ==> FrameContext(s, k).sender == Some(s.frames[k - 1].id) && FrameContext(s, k - 1).bci.Some?
  {
    assert FrameOk(s, k);
  }

  lemma IdsDown(frames: seq<Frame>, k: nat)
    requires k < |frames|
    ensures FrameIds(frames[k..]) == {frames[k].id} + FrameIds(frames[k + 1..])
  {
    assert frames[k..] == [frames[k]] + frames[k + 1..];
  }

  /** The search has passed frame k; left bounds the rest of the chain. */
  ghost predicate Passed(s: State, home: nat, n: nat, k: nat, left: nat)
  {
    var m := All(s);
    && 0 < k < |s.frames| && Running(Abstract(s)) && Finite(m, Current(s), n)
    && Finite(m, Some(s.frames[k - 1].id), left)
    && Search(m, m[Current(s).value].sender, home, n - 1) == Search(m, Some(s.frames[k - 1].id), home, left)
    && Through(m, Current(s), home, n) == FrameIds(s.frames[k..]) + Through(m, Some(s.frames[k - 1].id), home, left)
  }

  /** Frame j is that of the home, and nothing above it blocks the return. */
  ghost predicate Found(s: State, home: nat, n: nat, j: nat)
  {
    var m := All(s);
    && 0 < j < |s.frames| && s.frames[j].id == home && Running(Abstract(s)) && Finite(m, Current(s), n)
    && Search(m, m[Current(s).value].sender, home, n - 1) == Returned
    && Through(m, Current(s), home, n) == FrameIds(s.frames[j..])
  }

  lemma PassedFirst(s: State, home: nat, n: nat) returns (left: nat)
    requires StateOk(s) && |s.frames| > 1 && home != s.frames[|s.frames| - 1].id && Finite(All(s), Current(s), n)
    ensures Passed(s, home, n, |s.frames| - 1, left)
  {
    hide FpOf, StateOk, All, FrameIds;
    var k := |s.frames| - 1;
    FrameShown(s, k);
    FrameSenders(s, k);
    StateDistinct(s);
    TopIds(s.frames);
    left := n - 1;
  }

  lemma PassedNext(s: State, home: nat, n: nat, k: nat, left: nat) returns (left': nat)
    requires StateOk(s) && Passed(s, home, n, k, left) && k > 1
    requires s.frames[k - 1].id != home && s.frames[k - 1].code.primitive == Ordinary
    ensures Passed(s, home, n, k - 1, left')
  {
    hide FpOf, StateOk, All, FrameIds;
    FrameShown(s, k - 1);
    FrameSenders(s, k - 1);
    IdsDown(s.frames, k - 1);
    left' := left - 1;
  }

  lemma PassedFound(s: State, home: nat, n: nat, k: nat, left: nat)
    requires StateOk(s) && Passed(s, home, n, k, left) && k > 1 && s.frames[k - 1].id == home
    ensures Found(s, home, n, k - 1)
  {
    hide FpOf, StateOk, All, FrameIds;
    FrameShown(s, k - 1);
    IdsDown(s.frames, k - 1);
  }

  /** The frames above the home were dropped. */
  lemma FastReturnFits(s: State, t: State, j: nat, v: Value, home: nat, n: nat)
    requires StateOk(s) && 0 < j < |s.frames| && t == Dropped(s, j) && StateOk(t) && s.frames[j].id == home
    requires Found(s, home, n, j)
    ensures NonLocallyReturned(Abstract(s), home, v, n).0 == Returned
    ensures Shows(PushedOn(t, v), NonLocallyReturned(Abstract(s), home, v, n).1)
  {
    hide FpOf, All, StateOk, Names, FrameIds, Search, Through;
    var low, m, dead := s.frames[j - 1].id, All(s), FrameIds(s.frames[j..]);
    FrameShown(s, j);
    FrameShown(s, j - 1);
    FrameSenders(s, j);
    DroppedShows(s, j);
    PushedShows(t, v);
    StateDistinct(t);
    assert NonLocallyReturned(Abstract(s), home, v, n) == (Returned, Machine(Some(low), Resume(Kill(m, dead), low, v)));
    NamesPushed(t, v);
    OnlyResumed(Kill(m, dead), Names(t), low, v);
  }
}
