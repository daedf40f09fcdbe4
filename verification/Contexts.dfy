/**
 * Contexts, as the language sees them: every context is either a frame on the stack or an activation in the heap, and
 * which of the two it is must not be observable. Source: vm/interpreter.cc, vm/object.h.
 */
module Contexts {

  datatype Option<T> = None | Some(value: T)

  datatype Value = Nil | Small(n: int) | ClosureRef(closure: Closure) | Object(id: nat)

  datatype Primitive = Ordinary | UnwindProtect | SimulationRoot

  datatype Method = Method(id: nat, numArgs: nat, primitive: Primitive)

  /** nesting counts the closures that this one is lexically inside of. */
  datatype Closure = Closure(id: nat, definingActivation: nat, numArgs: nat, nesting: nat)

  /** An activation that has a frame holds the frame pointer, a small integer, in place of its sender. */
  datatype Sender = NoSender | From(id: nat) | InFrame(fp: nat)

  datatype Activation = Activation(sender: Sender, bci: Option<int>, code: Method, closure: Option<Closure>,
                                   receiver: Value, temps: seq<Value>)

  /**
   * One word of the stack. An activation slot is empty until the activation is made; id is the address that the
   * activation has, or will have.
   */
  datatype Word =
    | Val(value: Value)
    | SavedIp(bci: int)
    | SavedFp(fp: nat)
    | Flags(numArgs: nat, isClosure: bool)
    | Code(code: Method)
    | Slot(id: nat, filled: bool)
    | BaseSender(sender: Option<nat>)

  // ---- frames ----

  /** message is the receiver of the message that made the frame; ret is what the frame returns to. */
  datatype Frame = Frame(message: Value, args: seq<Value>, ret: Word, isClosure: bool, code: Method, id: nat,
                         filled: bool, receiver: Value, locals: seq<Value>)
  {
    ghost function Closure(): Option<Closure> {
      if isClosure && message.ClosureRef? then Some(message.closure) else None
    }
  }

  ghost function Vals(vs: seq<Value>): (r: seq<Word>)
    ensures |r| == |vs| && forall i :: 0 <= i < |vs| ==> r[i] == Val(vs[i])
  {
    seq(|vs|, i requires 0 <= i < |vs| => Val(vs[i]))
  }

  /** The words of a frame. The frame pointer points to the saved frame pointer. */
  ghost function FrameWords(f: Frame, savedFp: nat): seq<Word>
  {
    [Val(f.message)] + Vals(f.args)
    + [f.ret, SavedFp(savedFp), Flags(|f.args|, f.isClosure), Code(f.code), Slot(f.id, f.filled), Val(f.receiver)]
    + Vals(f.locals)
  }

  /** The stack that holds these frames, the base frame first. The source's stack grows towards lower addresses. */
  ghost function Encode(frames: seq<Frame>): seq<Word>
  {
    if frames == [] then [] else
      var rest := frames[..|frames| - 1];
      Encode(rest) + FrameWords(frames[|frames| - 1], FpOf(rest))
  }

  ghost function FpOf(frames: seq<Frame>): nat
  {
    if frames == [] then 0 else |Encode(frames[..|frames| - 1])| + |frames[|frames| - 1].args| + 2
  }

  /** A frame's words, seen from its frame pointer. */
  ghost predicate FrameAt(stack: seq<Word>, fp: int, f: Frame, savedFp: nat)
  {
    && |f.args| + 2 <= fp && fp + 5 + |f.locals| <= |stack|
    && stack[fp - 2 - |f.args|] == Val(f.message) && stack[fp - 1] == f.ret && stack[fp] == SavedFp(savedFp)
    && stack[fp + 1] == Flags(|f.args|, f.isClosure) && stack[fp + 2] == Code(f.code)
    && stack[fp + 3] == Slot(f.id, f.filled) && stack[fp + 4] == Val(f.receiver)
    && (forall i :: 0 <= i < |f.args| ==> stack[fp - 1 - |f.args| + i] == Val(f.args[i]))
    && (forall i :: 0 <= i < |f.locals| ==> stack[fp + 5 + i] == Val(f.locals[i]))
  }

  lemma WordsAt(f: Frame, savedFp: nat)
    ensures |FrameWords(f, savedFp)| == |f.args| + 7 + |f.locals|
    ensures FrameAt(FrameWords(f, savedFp), |f.args| + 2, f, savedFp)
  {
    var n, words := |f.args|, FrameWords(f, savedFp);
    var low := [Val(f.message)] + Vals(f.args);
    var middle := [f.ret, SavedFp(savedFp), Flags(n, f.isClosure), Code(f.code), Slot(f.id, f.filled), Val(f.receiver)];
    var high := Vals(f.locals);
    assert words == low + middle + high && |low| == n + 1 && |middle| == 6;
    assert middle[0] == f.ret && middle[1] == SavedFp(savedFp) && middle[2] == Flags(n, f.isClosure);
    assert middle[3] == Code(f.code) && middle[4] == Slot(f.id, f.filled) && middle[5] == Val(f.receiver);
    assert forall k :: 0 <= k < |low| ==> words[k] == low[k];
    assert forall k :: 0 <= k < |middle| ==> words[n + 1 + k] == middle[k];
    assert forall k :: 0 <= k < |high| ==> words[n + 7 + k] == high[k];
  }

  lemma FrameAtShift(words: seq<Word>, low: seq<Word>, high: seq<Word>, fp: int, f: Frame, savedFp: nat)
    requires FrameAt(words, fp, f, savedFp)
    ensures FrameAt(low + words + high, |low| + fp, f, savedFp)
  {
    var stack := low + words + high;
    assert forall k :: 0 <= k < |words| ==> stack[|low| + k] == words[k];
    forall i | 0 <= i < |f.args| ensures stack[|low| + fp - 1 - |f.args| + i] == Val(f.args[i]) {
      var k := fp - 1 - |f.args| + i;
      assert words[k] == stack[|low| + k];
    }
    forall i | 0 <= i < |f.locals| ensures stack[|low| + fp + 5 + i] == Val(f.locals[i]) {
      var k := fp + 5 + i;
      assert words[k] == stack[|low| + k];
    }
  }

  lemma Layout(frames: seq<Frame>)
    requires frames != []
    ensures var n, stack, fp := |frames| - 1, Encode(frames), FpOf(frames);
      && FrameAt(stack, fp, frames[n], FpOf(frames[..n]))
      && fp + 5 + |frames[n].locals| == |stack| && stack[..fp - 2 - |frames[n].args|] == Encode(frames[..n])
  {
    hide FrameAt, FrameWords;
    var n := |frames| - 1;
    var low, f, savedFp := Encode(frames[..n]), frames[n], FpOf(frames[..n]);
    WordsAt(f, savedFp);
    var words := FrameWords(f, savedFp);
    FrameAtShift(words, low, [], |f.args| + 2, f, savedFp);
    assert Encode(frames) == low + words + [];
    assert Encode(frames)[..|low|] == low;
  }

  lemma {:induction false} EncodePrefix(frames: seq<Frame>, n: nat)
    requires n <= |frames|
    ensures |Encode(frames[..n])| <= |Encode(frames)| && Encode(frames)[..|Encode(frames[..n])|] == Encode(frames[..n])
    decreases |frames|
  {
    if n == |frames| {
      assert frames[..n] == frames;
    } else {
      var rest := frames[..|frames| - 1];
      EncodePrefix(rest, n);
      assert rest[..n] == frames[..n];
      assert Encode(frames)[..|Encode(rest)|] == Encode(rest);
    }
  }

  lemma FrameAtPrefix(stack: seq<Word>, n: nat, fp: int, f: Frame, savedFp: nat)
    requires n <= |stack| && FrameAt(stack[..n], fp, f, savedFp)
    ensures FrameAt(stack, fp, f, savedFp)
  {
    hide FrameAt;
    FrameAtShift(stack[..n], [], stack[n..], fp, f, savedFp);
    assert [] + stack[..n] + stack[n..] == stack;
  }

  /** Every frame can be found at its frame pointer. */
  lemma LayoutAt(frames: seq<Frame>, i: nat)
    requires i < |frames|
    ensures FrameAt(Encode(frames), FpOf(frames[..i + 1]), frames[i], FpOf(frames[..i]))
  {
    hide Encode, FpOf, FrameAt;
    var part := frames[..i + 1];
    assert part[..i] == frames[..i] && part[i] == frames[i];
    Layout(part);
    EncodePrefix(frames, i + 1);
    FrameAtPrefix(Encode(frames), |Encode(part)|, FpOf(part), frames[i], FpOf(frames[..i]));
  }

  lemma {:induction false} FpOrder(frames: seq<Frame>, i: nat, j: nat)
    requires i < j <= |frames|
    ensures FpOf(frames[..i]) < FpOf(frames[..j])
    decreases j
  {
    var top := frames[..j];
    assert top[..j - 1] == frames[..j - 1];
    if j - 1 > 0 { Layout(frames[..j - 1]); }
    if i < j - 1 { FpOrder(frames, i, j - 1); }
  }

  /** Filling the activation slot of frame i. */
  ghost function Allocated(frames: seq<Frame>, i: nat): seq<Frame>
    requires i < |frames|
  {
    frames[i := frames[i].(filled := true)]
  }

  /** Every word of a frame but its slot stays when the slot is filled. */
  lemma WordsAllocated(f: Frame, savedFp: nat)
    ensures |FrameWords(f, savedFp)| == |f.args| + 7 + |f.locals|
    ensures FrameWords(f.(filled := true), savedFp) == FrameWords(f, savedFp)[|f.args| + 5 := Slot(f.id, true)]
  {
    var low := [Val(f.message)] + Vals(f.args);
    var flags := Flags(|f.args|, f.isClosure);
    var middle := [f.ret, SavedFp(savedFp), flags, Code(f.code), Slot(f.id, f.filled), Val(f.receiver)];
    var middle' := [f.ret, SavedFp(savedFp), flags, Code(f.code), Slot(f.id, true), Val(f.receiver)];
    var high := Vals(f.locals);
    assert middle' == middle[4 := Slot(f.id, true)];
    UpdateMiddle(low, middle, high, 4, Slot(f.id, true));
  }

  lemma UpdateMiddle<T>(low: seq<T>, middle: seq<T>, high: seq<T>, i: nat, v: T)
    requires i < |middle|
    ensures low + middle[i := v] + high == (low + middle + high)[|low| + i := v]
  {
  }

  lemma {:induction false} EncodeAllocated(frames: seq<Frame>, i: nat)
    requires i < |frames|
    ensures FpOf(frames[..i + 1]) + 3 < |Encode(frames)|
    ensures Encode(Allocated(frames, i)) == Encode(frames)[FpOf(frames[..i + 1]) + 3 := Slot(frames[i].id, true)]
    ensures FpOf(Allocated(frames, i)) == FpOf(frames)
    decreases |frames|
  {
    hide FrameWords;
    var n := |frames| - 1;
    var rest, frames' := frames[..n], Allocated(frames, i);
    var low, words := Encode(rest), FrameWords(frames[n], FpOf(rest));
    if i == n {
      assert frames'[..n] == rest && frames[..i + 1] == frames;
      WordsAllocated(frames[n], FpOf(rest));
      UpdateMiddle(low, words, [], |frames[n].args| + 5, Slot(frames[i].id, true));
      assert low + words + [] == Encode(frames);
      assert low + FrameWords(frames'[n], FpOf(rest)) + [] == Encode(frames');
    } else {
      EncodeAllocated(rest, i);
      assert frames'[..n] == Allocated(rest, i) && rest[..i + 1] == frames[..i + 1];
      assert frames'[n] == frames[n];
      UpdateMiddle([], low, words, FpOf(frames[..i + 1]) + 3, Slot(frames[i].id, true));
      assert [] + low + words == Encode(frames);
      assert Encode(frames') == Encode(Allocated(rest, i)) + words;
      assert [] + low[FpOf(frames[..i + 1]) + 3 := Slot(frames[i].id, true)] + words == Encode(frames');
    }
  }

  lemma FpAllocated(frames: seq<Frame>, i: nat, k: nat)
    requires i < |frames| && k <= |frames|
    ensures FpOf(Allocated(frames, i)[..k]) == FpOf(frames[..k])
  {
    if i < k {
      EncodeAllocated(frames[..k], i);
      assert Allocated(frames, i)[..k] == Allocated(frames[..k], i);
    } else {
      assert Allocated(frames, i)[..k] == frames[..k];
    }
  }

  /** Pushing a value on the operand stack of the top frame. */
  ghost function Pushed(frames: seq<Frame>, v: Value): seq<Frame>
    requires frames != []
  {
    var n := |frames| - 1;
    frames[n := frames[n].(locals := frames[n].locals + [v])]
  }

  lemma EncodePushed(frames: seq<Frame>, v: Value)
    requires frames != []
    ensures Encode(Pushed(frames, v)) == Encode(frames) + [Val(v)] && FpOf(Pushed(frames, v)) == FpOf(frames)
  {
    hide Encode, FpOf, FrameWords;
    var n, frames' := |frames| - 1, Pushed(frames, v);
    assert frames'[..n] == frames[..n];
    EncodeTop(frames);
    EncodeTop(frames');
    WordsPushed(frames[n], FpOf(frames[..n]), v);
    AppendLast(Encode(frames[..n]), FrameWords(frames[n], FpOf(frames[..n])), Val(v));
  }

  lemma EncodeTop(frames: seq<Frame>)
    requires frames != []
    ensures var n := |frames| - 1;
      && Encode(frames) == Encode(frames[..n]) + FrameWords(frames[n], FpOf(frames[..n]))
      && FpOf(frames) == |Encode(frames[..n])| + |frames[n].args| + 2
  {
  }

  lemma WordsPushed(f: Frame, savedFp: nat, v: Value)
    ensures FrameWords(f.(locals := f.locals + [v]), savedFp) == FrameWords(f, savedFp) + [Val(v)]
  {
    assert Vals(f.locals + [v]) == Vals(f.locals) + [Val(v)];
  }

  lemma AppendLast<T>(low: seq<T>, high: seq<T>, v: T)
    ensures low + (high + [v]) == low + high + [v]
  {
  }

  lemma FpPushed(frames: seq<Frame>, v: Value, k: nat)
    requires frames != [] && k <= |frames|
    ensures FpOf(Pushed(frames, v)[..k]) == FpOf(frames[..k])
  {
    hide Encode, FpOf;
    if k < |frames| {
      assert Pushed(frames, v)[..k] == frames[..k];
    } else {
      EncodePushed(frames, v);
      assert Pushed(frames, v)[..k] == Pushed(frames, v) && frames[..k] == frames;
    }
  }

  // ---- the state, and the contexts it stands for ----

  datatype State = State(frames: seq<Frame>, ip: Option<int>, activations: map<nat, Activation>)

  /** A context without a bci is dead: it cannot be returned to. What its temporaries were is not part of it. */
  datatype Context = Context(sender: Option<nat>, bci: Option<int>, code: Method, closure: Option<Closure>,
                             receiver: Value, temps: seq<Value>)

  type Contexts = map<nat, Context>

  ghost function FrameIds(frames: seq<Frame>): set<nat> { set f | f in frames :: f.id }

  ghost predicate InFrames(frames: seq<Frame>, id: nat) { exists i :: 0 <= i < |frames| && frames[i].id == id }

  ghost function IndexOf(frames: seq<Frame>, id: nat): (i: nat)
    requires InFrames(frames, id)
    ensures i < |frames| && frames[i].id == id
  {
    var i :| 0 <= i < |frames| && frames[i].id == id; i
  }

  ghost function FrameSender(frames: seq<Frame>, i: nat): Option<nat>
    requires i < |frames|
  {
    if i > 0 then Some(frames[i - 1].id) else if frames[0].ret.BaseSender? then frames[0].ret.sender else None
  }

  ghost function FrameBci(s: State, i: nat): Option<int>
    requires i < |s.frames|
  {
    if i == |s.frames| - 1 then s.ip
    else if s.frames[i + 1].ret.SavedIp? then Some(s.frames[i + 1].ret.bci) else None
  }

  ghost function FrameContext(s: State, i: nat): Context
    requires i < |s.frames|
  {
    var f := s.frames[i];
    Context(FrameSender(s.frames, i), FrameBci(s, i), f.code, f.Closure(), f.receiver, f.args + f.locals)
  }

  function SenderRef(a: Activation): Option<nat> { if a.sender.From? then Some(a.sender.id) else None }

  ghost function HeapContext(a: Activation): Context
  {
    Context(SenderRef(a), a.bci, a.code, a.closure, a.receiver, if a.bci.None? then [] else a.temps)
  }

  ghost predicate Named(s: State, id: nat) { id in s.activations || InFrames(s.frames, id) }

  ghost function ContextOf(s: State, id: nat): Context
    requires Named(s, id)
  {
    if InFrames(s.frames, id) then FrameContext(s, IndexOf(s.frames, id)) else HeapContext(s.activations[id])
  }

  ghost function Names(s: State): set<nat> { s.activations.Keys + FrameIds(s.frames) }

  lemma NamesAre(s: State, id: nat)
    ensures id in Names(s) <==> Named(s, id)
  {
    if id in FrameIds(s.frames) {
      var f :| f in s.frames && f.id == id;
      var i :| 0 <= i < |s.frames| && s.frames[i] == f;
    }
    if InFrames(s.frames, id) {
      assert s.frames[IndexOf(s.frames, id)] in s.frames;
    }
  }

  /** Every context that something can refer to. */
  ghost function All(s: State): Contexts
  {
    map id | id in Names(s) && Named(s, id) :: ContextOf(s, id)
  }

  ghost function Current(s: State): Option<nat>
  {
    if s.frames == [] then None else Some(s.frames[|s.frames| - 1].id)
  }

  /** What the interpreter looks like from outside: the contexts, and which one is running. */
  datatype Machine = Machine(current: Option<nat>, contexts: Contexts)

  ghost function Abstract(s: State): Machine { Machine(Current(s), All(s)) }

  // ---- validity ----

  function NumArgs(code: Method, closure: Option<Closure>): nat
  {
    if closure.Some? then closure.value.numArgs else code.numArgs
  }

  ghost predicate FrameOk(s: State, i: nat)
    requires i < |s.frames|
  {
    var f := s.frames[i];
    && (if i == 0 then f.ret.BaseSender? && (f.ret.sender.Some? ==> f.ret.sender.value in s.activations)
       else f.ret.SavedIp?)
    && (if f.isClosure then f.message.ClosureRef? && f.message.closure.definingActivation in s.activations
        else f.message == f.receiver)
    && |f.args| == NumArgs(f.code, f.Closure())
  }

  /** The activation and the frame of one context refer to each other. */
  ghost predicate Married(a: Activation, f: Frame, fp: nat)
  {
    a.sender == InFrame(fp) && a.code == f.code && a.closure == f.Closure() && a.receiver == f.receiver
  }

  ghost predicate SlotOk(s: State, i: nat)
    requires i < |s.frames|
  {
    var f := s.frames[i];
    && (f.filled <==> f.id in s.activations)
    && (f.filled ==> Married(s.activations[f.id], f, FpOf(s.frames[..i + 1])))
    && (f.filled && i > 0 ==> s.activations[f.id].bci.None?)
  }

  ghost predicate ActivationOk(s: State, id: nat)
    requires id in s.activations
  {
    var a := s.activations[id];
    && (a.closure.Some? ==> a.closure.value.definingActivation in s.activations)
    && (a.sender.From? ==> a.sender.id in s.activations)
    && (a.sender.InFrame? && !InFrames(s.frames, id) ==> a.bci.None?)
    && (!a.sender.InFrame? && a.bci.Some? ==> |a.temps| >= NumArgs(a.code, a.closure))
  }

  ghost predicate Distinct(frames: seq<Frame>) { forall i, j :: 0 <= i < j < |frames| ==> frames[i].id != frames[j].id }

  ghost predicate StateOk(s: State)
  {
    && (s.ip.Some? <==> s.frames != [])
    && Distinct(s.frames)
    && (forall i :: 0 <= i < |s.frames| ==> FrameOk(s, i) && SlotOk(s, i))
    && (forall id :: id in s.activations ==> ActivationOk(s, id))
  }

  lemma ContextAt(s: State, i: nat)
    requires Distinct(s.frames) && i < |s.frames|
    ensures Named(s, s.frames[i].id) && ContextOf(s, s.frames[i].id) == FrameContext(s, i)
    ensures InFrames(s.frames, s.frames[i].id) && s.frames[i].id in Names(s)
  {
    NamesAre(s, s.frames[i].id);
  }

  lemma SameIds(a: seq<Frame>, b: seq<Frame>, id: nat)
    requires Distinct(a) && |a| == |b| && forall k :: 0 <= k < |a| ==> a[k].id == b[k].id
    ensures InFrames(a, id) <==> InFrames(b, id)
    ensures InFrames(a, id) ==> IndexOf(a, id) == IndexOf(b, id)
  {
    if InFrames(a, id) { assert b[IndexOf(a, id)].id == id; }
    if InFrames(b, id) { assert a[IndexOf(b, id)].id == id; }
  }

  lemma LowerIds(frames: seq<Frame>, n: nat, id: nat)
    requires Distinct(frames) && n <= |frames|
    ensures InFrames(frames[..n], id) <==> InFrames(frames, id) && IndexOf(frames, id) < n
    ensures InFrames(frames[..n], id) ==> IndexOf(frames[..n], id) == IndexOf(frames, id)
  {
    if InFrames(frames[..n], id) { assert frames[IndexOf(frames[..n], id)].id == id; }
    if InFrames(frames, id) && IndexOf(frames, id) < n { assert frames[..n][IndexOf(frames, id)].id == id; }
  }

  lemma AllAt(s: State, id: nat)
    ensures id in All(s) <==> Named(s, id)
    ensures Named(s, id) ==> All(s)[id] == ContextOf(s, id)
  {
    NamesAre(s, id);
  }

  lemma AllAre(s: State, m: Contexts)
    requires forall id :: Named(s, id) <==> id in m
    requires forall id :: Named(s, id) && id in m ==> ContextOf(s, id) == m[id]
    ensures All(s) == m
  {
    hide All, Named, ContextOf;
    forall id ensures id in All(s) <==> id in m { AllAt(s, id); }
    assert All(s).Keys == m.Keys;
    forall id | id in m ensures All(s)[id] == m[id] { AllAt(s, id); }
  }

  /** Two states show the same contexts if every name means the same in both. */
  lemma SameContexts(s: State, t: State)
    requires forall id :: Named(s, id) <==> Named(t, id)
    requires forall id :: Named(s, id) && Named(t, id) ==> ContextOf(s, id) == ContextOf(t, id)
    ensures All(s) == All(t)
  {
    hide All, Named, ContextOf;
    forall id ensures id in All(s) <==> Named(t, id) { AllAt(s, id); }
    forall id | Named(t, id) && id in All(s) ensures ContextOf(t, id) == All(s)[id] { AllAt(s, id); }
    AllAre(t, All(s));
  }
}
