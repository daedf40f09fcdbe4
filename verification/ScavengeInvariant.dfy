/** The invariant of the copying collector for new space, and the steps that keep it: vm/heap.cc, Heap::Scavenge. */
module ScavengeInvariant {
  import opened HeapModel

  /** A semispace; objects start one word past its base. */
  datatype Space = Space(base: nat, size: nat)
  {
    function Start(): nat { base + 1 }
    function Limit(): nat { base + size }
  }

  /** The state a scavenge starts from, once the spaces are flipped: every new object is in from-space. */
  datatype Start = Start(mem: Memory, roots: seq<Value>, classTable: seq<Value>, remembered: seq<Addr>,
                         layout: seq<Addr>, survivorEnd: nat)

  /** v refers to a from-space object. */
  ghost predicate FromRef(s: Start, v: Value)
  {
    IsNewRef(v) && v.addr in s.mem
  }

  ghost predicate NoFromRefs(s: Start, vs: seq<Value>)
  {
    forall i :: 0 <= i < |vs| ==> !FromRef(s, vs[i])
  }

  /** References lead to objects, and objects have the shape their class asks for. */
  ghost predicate Sound(s: Start)
  {
    && (forall a :: a in s.mem ==> s.mem[a].Obj? && s.mem[a].size >= 2 && s.mem[a].size % 2 == 0)
    && (forall a :: a in s.mem ==> FIRST_LEGAL_CID <= s.mem[a].cid < |s.classTable|)
    && (forall a :: a in s.mem && s.mem[a].cid == EPHEMERON_CID ==> |s.mem[a].slots| == 3)
    && (forall a, i :: a in s.mem && 0 <= i < |s.mem[a].slots| && s.mem[a].slots[i].Ref? ==>
         s.mem[a].slots[i].addr in s.mem)
    && (forall i :: 0 <= i < |s.roots| && s.roots[i].Ref? ==> s.roots[i].addr in s.mem)
    && (forall i :: 0 <= i < |s.classTable| && s.classTable[i].Ref? ==> s.classTable[i].addr in s.mem)
    && (forall i :: 0 <= i < FIRST_LEGAL_CID && i < |s.classTable| ==> s.classTable[i].Smi?)
    // nil is an old object
    && |s.roots| >= 1 && s.roots[0].Ref? && !IsNew(s.roots[0].addr)
  }

  /** What the collector may assume of the heap it is given. */
  ghost predicate WellFormed(s: Start)
  {
    && Sound(s) && RememberedOk(s.mem, s.remembered) && RememberedComplete(s.mem, s.remembered, s.classTable)
    && Layout(s)
  }

  /** From-space holds its objects in this order. Words between them may be free or belong to corpses. */
  ghost predicate Layout(s: Start)
  {
    Distinct(s.layout) && forall a :: a in s.layout <==> a in s.mem && IsNew(a)
  }

  ghost predicate Distinct(l: seq<Addr>)
  {
    forall i, j :: 0 <= i < j < |l| ==> l[i] != l[j]
  }

  ghost function Nil(s: Start): Value
    requires |s.roots| >= 1
  {
    s.roots[0]
  }

  /** The remembered set holds each of its objects once, all of them old, and the header bits agree with it. */
  ghost predicate RememberedOk(mem: Memory, rem: seq<Addr>)
  {
    && Distinct(rem)
    && (forall a :: a in rem ==> a in mem && !IsNew(a))
    && (forall a :: a in mem && mem[a].Obj? ==> (mem[a].remembered <==> a in rem))
  }

  ghost predicate HasNewTarget(c: Cell, classTable: seq<Value>)
    requires c.Obj? && c.cid < |classTable|
  {
    || (exists i :: 0 <= i < |c.slots| && IsNewRef(c.slots[i]))
    || (IsStrong(c.cid) && IsNewRef(classTable[c.cid]))
  }

  /** Every old object that refers to a new one is in the remembered set. */
  ghost predicate RememberedComplete(mem: Memory, rem: seq<Addr>, classTable: seq<Value>)
  {
    forall a :: a in mem && !IsNew(a) && mem[a].Obj? && mem[a].cid < |classTable| && a !in rem
      ==> !HasNewTarget(mem[a], classTable)
  }

  // ---- reachability ----

  ghost predicate Within(s: Start, v: Value, L: set<Addr>)
  {
    FromRef(s, v) ==> v.addr in L
  }

  ghost predicate AllWithin(s: Start, vs: seq<Value>, L: set<Addr>)
  {
    forall i :: 0 <= i < |vs| ==> Within(s, vs[i], L)
  }

  ghost predicate KeyLives(s: Start, c: Cell, L: set<Addr>)
    requires c.Obj? && |c.slots| == 3
  {
    FromRef(s, c.slots[0]) ==> c.slots[0].addr in L
  }

  /** a is scanned by the collector: an old object in the remembered set, or a new object that is live. */
  ghost predicate Visited(s: Start, a: Addr, L: set<Addr>)
  {
    a in s.mem && (if IsNew(a) then a in L else a in s.remembered)
  }

  /**
   * L is closed under what keeps new objects alive: roots, the slots and class of visited ordinary objects, and the
   * slots of visited ephemerons whose key is alive.
   */
  ghost predicate Closed(s: Start, L: set<Addr>)
    requires WellFormed(s)
  {
    && AllWithin(s, s.roots, L)
    && (forall a :: Visited(s, a, L) && IsStrong(s.mem[a].cid) ==>
          AllWithin(s, s.mem[a].slots, L) && Within(s, s.classTable[s.mem[a].cid], L))
    && (forall a :: Visited(s, a, L) && s.mem[a].cid == EPHEMERON_CID && KeyLives(s, s.mem[a], L) ==>
          AllWithin(s, s.mem[a].slots, L))
  }

  /** The objects that any closed set must hold: the new objects that a scavenge may not lose. */
  ghost function Live(s: Start): set<Addr>
    requires WellFormed(s)
  {
    set a | a in s.mem && IsNew(a) && forall L :: Closed(s, L) ==> a in L
  }

  lemma LiveIsLeastClosed(s: Start)
    requires WellFormed(s)
    ensures Closed(s, Live(s))
    ensures forall L :: Closed(s, L) ==> Live(s) <= L
  {
    var M := Live(s);
    forall L | Closed(s, L) ensures M <= L {}
    assert AllWithin(s, s.roots, M);
    forall a | Visited(s, a, M) && IsStrong(s.mem[a].cid)
      ensures AllWithin(s, s.mem[a].slots, M) && Within(s, s.classTable[s.mem[a].cid], M)
    {
      assert forall L :: Closed(s, L) ==> Visited(s, a, L);
    }
    forall a | Visited(s, a, M) && s.mem[a].cid == EPHEMERON_CID && KeyLives(s, s.mem[a], M)
      ensures AllWithin(s, s.mem[a].slots, M)
    {
      assert forall L :: Closed(s, L) ==> Visited(s, a, L) && KeyLives(s, s.mem[a], L);
    }
  }

  // ---- the invariant, part one: the object graph ----

  /** Live during the scavenge: an old object, or a copy. */
  ghost predicate Tracked(s: Start, mem: Memory, x: Addr)
  {
    x in mem && (x in s.mem ==> !IsNew(x))
  }

  /**
   * The collector first traces; then it mourns, having skipped the tracing loop altogether when the roots moved
   * nothing.
   */
  datatype Phase = Tracing | Mourning(skipped: bool)

  /** v is not a from-space object that stayed behind. */
  ghost predicate Survives(s: Start, mem: Memory, v: Value)
  {
    FromRef(s, v) ==> v.addr in mem && mem[v.addr].Forwarded?
  }

  /** What v refers to once its target, if it has moved, is followed. */
  ghost function Image(s: Start, mem: Memory, v: Value): Value
  {
    if FromRef(s, v) && v.addr in mem && mem[v.addr].Forwarded? then Ref(mem[v.addr].to) else v
  }

  /** Mourning may overwrite a slot of c0 that held v0 with nil. */
  ghost predicate MayMourn(s: Start, mem: Memory, phase: Phase, c0: Cell, v0: Value)
    requires c0.Obj?
  {
    && phase.Mourning?
    && (|| (c0.cid == EPHEMERON_CID && |c0.slots| == 3
       && ((phase.skipped && c0.remembered) || !Survives(s, mem, c0.slots[0])))
        || (c0.cid == WEAK_ARRAY_CID && !Survives(s, mem, v0)))
  }

  ghost predicate SlotOk(s: Start, mem: Memory, phase: Phase, c0: Cell, v0: Value, v: Value)
    requires c0.Obj? && |s.roots| >= 1
  {
    v == v0 || v == Image(s, mem, v0) || (v == Nil(s) && MayMourn(s, mem, phase, c0, v0))
  }

  ghost predicate BodyOk(s: Start, mem: Memory, phase: Phase, c0: Cell, c: Cell)
    requires |s.roots| >= 1
  {
    SameBody(c0, c) && forall i :: 0 <= i < |c.slots| ==> SlotOk(s, mem, phase, c0, c0.slots[i], c.slots[i])
  }

  ghost predicate FromOk(s: Start, mem: Memory, origin: map<Addr, Addr>, a: Addr)
    requires a in s.mem && a in mem
  {
    mem[a] == s.mem[a] || (mem[a].Forwarded? && var t := mem[a].to;
      t in mem && t !in s.mem && t in origin && origin[t] == a)
  }

  ghost predicate CopyOk(s: Start, mem: Memory, phase: Phase, origin: map<Addr, Addr>, t: Addr)
    requires t in mem && |s.roots| >= 1
  {
    && t in origin && (IsNew(t) <==> origin[t] >= s.survivorEnd)
    && var a := origin[t];
       a in s.mem && a in mem && IsNew(a) && mem[a] == Forwarded(t) && BodyOk(s, mem, phase, s.mem[a], mem[t])
  }

  /** Each from-space object is intact or forwarded to its one copy; bodies and slots agree with the originals. */
  ghost predicate Graph(s: Start, mem: Memory, phase: Phase, origin: map<Addr, Addr>)
    requires |s.roots| >= 1
  {
    && (forall a :: a in s.mem ==> a in mem)
    && (forall a :: a in s.mem && IsNew(a) ==> FromOk(s, mem, origin, a))
    && (forall t :: t in mem && t !in s.mem ==> CopyOk(s, mem, phase, origin, t))
    && (forall a :: a in s.mem && !IsNew(a) ==> BodyOk(s, mem, phase, s.mem[a], mem[a]))
    && (forall t :: t in origin ==> t in mem && t !in s.mem)
  }

  ghost function Orig(s: Start, origin: map<Addr, Addr>, x: Addr): Cell
    requires x in s.mem || (x in origin && origin[x] in s.mem)
  {
    if x in s.mem then s.mem[x] else s.mem[origin[x]]
  }

  /** Moving an unforwarded object a to the fresh address t. */
  ghost function Forward(mem: Memory, a: Addr, t: Addr): Memory
    requires a in mem
  {
    mem[t := mem[a]][a := Forwarded(t)]
  }

  lemma BodyAfterForward(s: Start, mem: Memory, mem': Memory, c0: Cell, c: Cell)
    requires |s.roots| >= 1 && BodyOk(s, mem, Tracing, c0, c)
    requires forall x :: x in s.mem && x in mem && mem[x].Forwarded? ==> x in mem' && mem'[x] == mem[x]
    ensures BodyOk(s, mem', Tracing, c0, c)
  {
    forall i | 0 <= i < |c.slots| ensures SlotOk(s, mem', Tracing, c0, c0.slots[i], c.slots[i]) {
      assert SlotOk(s, mem, Tracing, c0, c0.slots[i], c.slots[i]);
    }
  }

  lemma OwnBody(s: Start, mem: Memory, c: Cell)
    requires |s.roots| >= 1 && c.Obj?
    ensures BodyOk(s, mem, Tracing, c, c)
  {
  }

  lemma ForwardGraph(s: Start, mem: Memory, origin: map<Addr, Addr>, a: Addr, t: Addr)
    requires |s.roots| >= 1 && Graph(s, mem, Tracing, origin) && a in s.mem && IsNew(a) && mem[a].Obj? && t !in mem
    requires IsNew(t) <==> a >= s.survivorEnd
    ensures Graph(s, Forward(mem, a, t), Tracing, origin[t := a])
  {
    hide BodyOk;
    var mem', origin' := Forward(mem, a, t), origin[t := a];
    assert FromOk(s, mem, origin, a);
    forall x | x in mem' && x !in s.mem ensures CopyOk(s, mem', Tracing, origin', x) {
      if x != t {
        assert CopyOk(s, mem, Tracing, origin, x);
        BodyAfterForward(s, mem, mem', s.mem[origin[x]], mem[x]);
      } else {
        OwnBody(s, mem', s.mem[a]);
      }
    }
    forall x | x in s.mem && !IsNew(x) ensures BodyOk(s, mem', Tracing, s.mem[x], mem'[x]) {
      BodyAfterForward(s, mem, mem', s.mem[x], mem[x]);
    }
  }

  lemma BodyAfterUpdate(s: Start, mem: Memory, mem': Memory, phase: Phase, c0: Cell, c: Cell)
    requires |s.roots| >= 1 && BodyOk(s, mem, phase, c0, c)
    requires forall x :: x in s.mem && IsNew(x) ==> x in mem && x in mem' && mem[x] == mem'[x]
    ensures BodyOk(s, mem', phase, c0, c)
  {
    forall i | 0 <= i < |c.slots| ensures SlotOk(s, mem', phase, c0, c0.slots[i], c.slots[i]) {
      assert SlotOk(s, mem, phase, c0, c0.slots[i], c.slots[i]);
    }
  }

  lemma UpdateGraph(s: Start, mem: Memory, phase: Phase, origin: map<Addr, Addr>, x: Addr, c: Cell)
    requires |s.roots| >= 1 && Graph(s, mem, phase, origin) && Tracked(s, mem, x)
    requires x in s.mem || (x in origin && origin[x] in s.mem)
    requires BodyOk(s, mem, phase, Orig(s, origin, x), c)
    ensures Graph(s, mem[x := c], phase, origin)
  {
    hide BodyOk;
    var mem' := mem[x := c];
    forall y | y in mem' && y !in s.mem ensures CopyOk(s, mem', phase, origin, y) {
      assert CopyOk(s, mem, phase, origin, y);
      BodyAfterUpdate(s, mem, mem', phase, s.mem[origin[y]], mem'[y]);
    }
    forall y | y in s.mem && !IsNew(y) ensures BodyOk(s, mem', phase, s.mem[y], mem'[y]) {
      assert BodyOk(s, mem, phase, s.mem[y], mem[y]);
      BodyAfterUpdate(s, mem, mem', phase, s.mem[y], mem'[y]);
    }
    forall a | a in s.mem && IsNew(a) ensures FromOk(s, mem', origin, a) {
      assert FromOk(s, mem, origin, a);
    }
  }

  // ---- the invariant, part two: what is still to be done ----

  /** Where an object stands: queued on one of the work lists with its slots untouched, being scanned, or finished. */
  datatype Color = Unread | ToScan | OnTenureStack | OnEphemeronList | OnWeakList | Scanning | Black

  /** The collector's fields, and the ghost bookkeeping of the proof. */
  datatype View = View(
    mem: Memory,
    top: nat,
    end: nat,
    tenureStack: seq<Addr>,
    ephemeronList: seq<Addr>,
    weakList: seq<Addr>,
    rem: seq<Addr>,
    roots: seq<Value>,
    phase: Phase,
    origin: map<Addr, Addr>,
    color: map<Addr, Color>,
    unread: seq<Addr>,
    copies: seq<Addr>,
    scanned: nat,
    tenured: int,
    pushes: int)

  /** The objects of color c are those on list l, each once. */
  ghost predicate Listed(color: map<Addr, Color>, l: seq<Addr>, c: Color)
  {
    Distinct(l) && forall x :: x in l <==> x in color && color[x] == c
  }

  ghost function ClassNow(s: Start, mem: Memory, cid: nat): Value
    requires cid < |s.classTable|
  {
    Image(s, mem, s.classTable[cid])
  }

  lemma TrackedObj(s: Start, mem: Memory, phase: Phase, origin: map<Addr, Addr>, x: Addr)
    requires WellFormed(s) && Graph(s, mem, phase, origin) && Tracked(s, mem, x)
    ensures x in s.mem || (x in origin && origin[x] in s.mem)
    ensures BodyOk(s, mem, phase, Orig(s, origin, x), mem[x])
    ensures mem[x].Obj? && mem[x].cid < |s.classTable| && Orig(s, origin, x).Obj?
  {
    if x !in s.mem { assert CopyOk(s, mem, phase, origin, x); }
  }

  /** Black objects: no slot and no class refers to from-space. */
  ghost predicate BlackDone(s: Start, v: View)
  {
    forall x :: x in v.color && x in v.mem && v.color[x] == Black ==>
      && v.mem[x].Obj? && v.mem[x].cid < |s.classTable| && NoFromRefs(s, v.mem[x].slots)
      && (IsStrong(v.mem[x].cid) ==> !FromRef(s, ClassNow(s, v.mem, v.mem[x].cid)))
  }

  /** Queued objects still have their original slots. */
  ghost predicate QueuedIntact(s: Start, v: View)
  {
    forall x :: x in v.color && x in v.mem && v.color[x] != Black && v.color[x] != Scanning ==>
      (x in s.mem || (x in v.origin && v.origin[x] in s.mem)) &&
      var c0 := Orig(s, v.origin, x);
      && c0.Obj? && v.mem[x].Obj? && v.mem[x].slots == c0.slots
      && (v.color[x] == OnEphemeronList ==> c0.cid == EPHEMERON_CID)
      && (v.color[x] == OnWeakList ==> c0.cid == WEAK_ARRAY_CID)
  }

  ghost predicate Lists(v: View)
  {
    && v.scanned <= |v.copies|
    && Listed(v.color, v.copies[v.scanned..], ToScan)
    && Listed(v.color, v.tenureStack, OnTenureStack)
    && Listed(v.color, v.ephemeronList, OnEphemeronList)
    && Listed(v.color, v.weakList, OnWeakList)
    && Listed(v.color, v.unread, Unread)
    && (forall x :: x in v.tenureStack || x in v.unread ==> !IsNew(x))
  }

  ghost predicate Colors(s: Start, v: View)
  {
    && (forall x :: x in v.color <==> Tracked(s, v.mem, x))
    && (forall x :: x in v.color && x in s.mem && v.color[x] != Black ==> x in s.remembered)
    && BlackDone(s, v) && QueuedIntact(s, v) && Lists(v)
  }

  /** Once mourning has begun, a finished ephemeron whose key died is all nil. */
  ghost predicate Mourned(s: Start, v: View)
    requires |s.roots| >= 1
  {
    v.phase.Mourning? ==>
      forall x ::
        x in v.color && x in v.mem && v.color[x] == Black && (x in s.mem || (x in v.origin && v.origin[x] in s.mem)) ==>
          MournedOne(s, v.mem, Orig(s, v.origin, x), v.mem[x])
  }

  ghost predicate MournedOne(s: Start, mem: Memory, c0: Cell, c: Cell)
    requires |s.roots| >= 1
  {
    c0.Obj? && c0.cid == EPHEMERON_CID && |c0.slots| == 3 && !Survives(s, mem, c0.slots[0]) ==>
      c.Obj? && c.slots == [Nil(s), Nil(s), Nil(s)]
  }

  ghost predicate RootsOk(s: Start, mem: Memory, roots: seq<Value>)
  {
    |roots| == |s.roots| && forall i :: 0 <= i < |roots| ==>
      roots[i] == s.roots[i] || roots[i] == Image(s, mem, s.roots[i])
  }

  // ---- part three: room in to-space ----

  /** The words of the objects of layout that are not forwarded yet. */
  ghost function Unforwarded(layout: seq<Addr>, mem: Memory): int
  {
    if layout == [] then 0
    else (if layout[0] in mem && mem[layout[0]].Obj? then mem[layout[0]].size else 0) + Unforwarded(layout[1..], mem)
  }

  lemma {:induction false} UnforwardedLocal(layout: seq<Addr>, mem: Memory, mem': Memory)
    requires forall a :: a in layout ==> a in mem && a in mem' && mem[a] == mem'[a]
    ensures Unforwarded(layout, mem) == Unforwarded(layout, mem')
  {
    if layout != [] { UnforwardedLocal(layout[1..], mem, mem'); }
  }

  lemma {:induction false} UnforwardedNonNegative(layout: seq<Addr>, mem: Memory)
    ensures Unforwarded(layout, mem) >= 0
  {
    if layout != [] { UnforwardedNonNegative(layout[1..], mem); }
  }

  lemma {:induction false} UnforwardedStep(layout: seq<Addr>, mem: Memory, a: Addr, t: Addr)
    requires Distinct(layout) && a in layout && t !in layout && a in mem && mem[a].Obj?
    requires forall x :: x in layout ==> x in mem
    ensures Unforwarded(layout, Forward(mem, a, t)) == Unforwarded(layout, mem) - mem[a].size
    ensures mem[a].size <= Unforwarded(layout, mem)
  {
    UnforwardedNonNegative(layout[1..], mem);
    if layout[0] == a {
      assert a !in layout[1..];
      UnforwardedLocal(layout[1..], mem, Forward(mem, a, t));
    } else {
      UnforwardedStep(layout[1..], mem, a, t);
    }
  }

  ghost function CopyEnd(v: View, i: nat): int
    requires i < |v.copies|
  {
    if i + 1 < |v.copies| then v.copies[i + 1] else v.top
  }

  /** Copies fill to-space from its start to top, in order. */
  ghost predicate CopiesTile(s: Start, v: View, to: Space)
  {
    && (|v.copies| == 0 ==> v.top == to.Start())
    && (|v.copies| > 0 ==> v.copies[0] == to.Start())
    && (forall i :: 0 <= i < |v.copies| ==>
          && v.copies[i] in v.mem && v.copies[i] !in s.mem && IsNew(v.copies[i])
          && v.mem[v.copies[i]].Obj? && to.Start() <= v.copies[i] < v.top)
    && (forall i {:trigger CopyEnd(v, i)} :: 0 <= i < |v.copies| ==>
         v.copies[i] + v.mem[v.copies[i]].size == CopyEnd(v, i))
    && (forall t :: t in v.mem && t !in s.mem && IsNew(t) ==> t in v.copies)
  }

  /**
   * Every word handed out, at either end of to-space, is paid for by a forwarded object: pushes never outnumber
   * tenured objects, and an object has at least two words.
   */
  ghost predicate RoomOk(s: Start, v: View, to: Space)
  {
    && to.base % 2 == 0
    && (forall a :: a in s.mem && IsNew(a) ==> a in v.mem && !(to.base <= a < to.Limit()))
    && Unforwarded(s.layout, s.mem) + 2 <= to.size
    && v.top >= to.Start() && (v.top - to.Start()) % 2 == 0
    && v.end == to.Limit() - |v.tenureStack|
    && |v.tenureStack| <= v.pushes && 2 * v.pushes <= v.tenured && (v.pushes == 0 ==> v.tenured == 0)
    && v.top - to.Start() + v.tenured + Unforwarded(s.layout, v.mem) == Unforwarded(s.layout, s.mem)
    && CopiesTile(s, v, to)
  }

  // ---- part four: the remembered set under construction ----

  ghost predicate NewTargetNow(s: Start, mem: Memory, c: Cell)
    requires c.Obj? && c.cid < |s.classTable|
  {
    || (exists i :: 0 <= i < |c.slots| && IsNewRef(c.slots[i]))
    || (IsStrong(c.cid) && IsNewRef(ClassNow(s, mem, c.cid)))
  }

  ghost predicate RemBits(v: View)
  {
    forall x :: x in v.color && x in v.mem ==>
      v.mem[x].Obj? && (v.mem[x].remembered <==> x in v.rem || v.color[x] == Unread)
  }

  /** The class was new when the collection began. Moving it is taken for a new target, even if it becomes old. */
  ghost predicate ClassWasNew(s: Start, c: Cell)
    requires c.Obj? && c.cid < |s.classTable|
  {
    IsStrong(c.cid) && IsNewRef(s.classTable[c.cid])
  }

  /** Every scanned object with a new target is remembered, and hardly any other one. */
  ghost predicate RemCovers(s: Start, v: View)
  {
    forall x :: x in v.color && x in v.mem && !IsNew(x) && v.color[x] == Black ==>
      && v.mem[x].Obj? && v.mem[x].cid < |s.classTable| && (NewTargetNow(s, v.mem, v.mem[x]) ==> x in v.rem)
      && (x in v.rem ==> NewTargetNow(s, v.mem, v.mem[x]) || ClassWasNew(s, v.mem[x]))
  }

  ghost predicate RemOk(s: Start, v: View)
  {
    && Distinct(v.rem)
    && (forall x :: x in v.rem ==> x in v.color && !IsNew(x) && v.color[x] == Black)
    && RemBits(v) && RemCovers(s, v)
  }

  /** Only live objects are forwarded. */
  ghost predicate Bounded(s: Start, v: View, L: set<Addr>)
  {
    forall a :: a in s.mem && IsNew(a) && a in v.mem && v.mem[a].Forwarded? ==> a in L
  }

  ghost predicate Inv(s: Start, v: View, to: Space, L: set<Addr>)
  {
    && |s.roots| >= 1 && Layout(s) && Graph(s, v.mem, v.phase, v.origin) && Colors(s, v) && RoomOk(s, v, to)
    && RemOk(s, v) && Bounded(s, v, L)
    && RootsOk(s, v.mem, v.roots) && Mourned(s, v)
  }

  /** Space only runs out, and objects stay where they were moved. */
  ghost predicate Advance(s: Start, v: View, v': View)
  {
    && v.top <= v'.top && v.tenured <= v'.tenured && v.pushes <= v'.pushes
    && (v'.top == v.top <==> v'.copies == v.copies) && (v'.tenured == v.tenured <==> v'.pushes == v.pushes)
    && (|v'.copies| > |v.copies| ==> v'.copies[|v.copies|] == v.top)
    && (forall a :: a in s.mem && a in v.mem && v.mem[a].Forwarded? ==> a in v'.mem && v'.mem[a] == v.mem[a])
    && (v'.top == v.top && v'.tenured == v.tenured ==> SameFromSpace(s, v.mem, v'.mem))
    && v'.phase == v.phase && v'.roots == v.roots && v.copies <= v'.copies
  }

  /** No object is left half scanned that was not so before. */
  ghost predicate Calm(v: View, v': View)
  {
    forall y :: y in v'.color && v'.color[y] == Scanning ==> y in v.color && v.color[y] == Scanning
  }

  ghost predicate Progress(s: Start, v: View, v': View)
  {
    Advance(s, v, v') && Calm(v, v')
  }

  ghost predicate InDomain(s: Start, mem: Memory)
  {
    forall a :: a in s.mem ==> a in mem
  }

  ghost predicate SameFromSpace(s: Start, mem: Memory, mem': Memory)
  {
    forall a :: a in s.mem && IsNew(a) && a in mem ==> a in mem' && mem'[a] == mem[a]
  }

  /** What happens while the slots of x are scanned: objects are added, and the others are left alone. */
  ghost predicate Grows(s: Start, v: View, v': View, x: Addr)
  {
    && Progress(s, v, v')
    && (forall y :: y in v.color ==> y in v'.color && v'.color[y] == v.color[y])
    && (forall y :: y in v.color && y != x && y in v.mem ==> y in v'.mem && v'.mem[y] == v.mem[y])
    && (x in v.color && x in v.mem ==>
       x in v'.mem && SameBody(v.mem[x], v'.mem[x]) && v'.mem[x].remembered == v.mem[x].remembered)
    && (forall y :: y in v.origin ==> y in v'.origin && v'.origin[y] == v.origin[y])
    && v'.ephemeronList == v.ephemeronList && v'.weakList == v.weakList && v'.rem == v.rem && v'.unread == v.unread
    && v'.scanned == v.scanned && v'.pushes - |v'.tenureStack| == v.pushes - |v.tenureStack|
  }

  ghost function CopyTo(v: View, a: Addr): View
    requires a in v.mem && v.mem[a].Obj?
  {
    v.(mem := Forward(v.mem, a, v.top), top := v.top + v.mem[a].size, origin := v.origin[v.top := a],
       color := v.color[v.top := ToScan], copies := v.copies + [v.top])
  }

  ghost function TenureTo(v: View, a: Addr, t: Addr): View
    requires a in v.mem && v.mem[a].Obj? && v.end > 0
  {
    v.(mem := Forward(v.mem, a, t), end := v.end - 1, tenureStack := [t] + v.tenureStack, origin := v.origin[t := a],
       color := v.color[t := OnTenureStack], tenured := v.tenured + v.mem[a].size, pushes := v.pushes + 1)
  }

  /** There is room for the object, and for its push if it is tenured. */
  lemma RoomForObject(s: Start, v: View, to: Space, a: Addr)
    requires WellFormed(s) && Graph(s, v.mem, v.phase, v.origin) && RoomOk(s, v, to) && a in s.mem && IsNew(a)
    requires v.mem[a].Obj?
    ensures a in v.mem && v.mem[a] == s.mem[a] && v.mem[a].size >= 2 && v.mem[a].size % 2 == 0
    ensures v.top + v.mem[a].size < v.end <= to.Limit()
  {
    assert FromOk(s, v.mem, v.origin, a);
    UnforwardedFits(s.layout, v.mem, a);
  }

  lemma TopIsFresh(s: Start, v: View, to: Space)
    requires RoomOk(s, v, to) && v.top < to.Limit()
    ensures IsNew(v.top) && v.top !in v.mem && v.top !in s.mem
  {
  }

  lemma {:induction false} UnforwardedFits(layout: seq<Addr>, mem: Memory, a: Addr)
    requires a in layout && a in mem && mem[a].Obj?
    ensures mem[a].size <= Unforwarded(layout, mem)
  {
    UnforwardedNonNegative(layout[1..], mem);
    if layout[0] != a { UnforwardedFits(layout[1..], mem, a); }
  }

  lemma ForwardColors(s: Start, v: View, v': View, a: Addr, t: Addr, c: Color)
    requires BlackDone(s, v) && QueuedIntact(s, v)
    requires forall x :: x in s.mem ==> x in v.mem
    requires forall x :: x in v.color ==> x in v.mem && x != a
    requires a in s.mem && v.mem[a] == s.mem[a] && v.mem[a].Obj? && t !in v.mem && (c == ToScan || c == OnTenureStack)
    requires v'.mem == Forward(v.mem, a, t) && v'.origin == v.origin[t := a] && v'.color == v.color[t := c]
    ensures BlackDone(s, v') && QueuedIntact(s, v')
  {
    hide BlackDone, QueuedIntact;
    ForwardBlack(s, v, v', a, t, c);
    ForwardQueued(s, v, v', a, t, c);
  }

  lemma ForwardBlack(s: Start, v: View, v': View, a: Addr, t: Addr, c: Color)
    requires BlackDone(s, v) && (forall x :: x in s.mem ==> x in v.mem)
    requires (forall x :: x in v.color ==> x in v.mem && x != a)
    requires a in s.mem && v.mem[a].Obj? && t !in v.mem && c != Black
    requires v'.mem == Forward(v.mem, a, t) && v'.color == v.color[t := c]
    ensures BlackDone(s, v')
  {
    hide NoFromRefs, ClassNow;
    forall x | x in v'.color && v'.color[x] == Black
      ensures v'.mem[x].Obj? && v'.mem[x].cid < |s.classTable| && NoFromRefs(s, v'.mem[x].slots)
      ensures IsStrong(v'.mem[x].cid) ==> !FromRef(s, ClassNow(s, v'.mem, v'.mem[x].cid))
    {
      assert v'.mem[x] == v.mem[x];
      if IsStrong(v.mem[x].cid) { ClassNowStable(s, v.mem, v'.mem, v.mem[x].cid); }
    }
  }

  lemma ForwardQueued(s: Start, v: View, v': View, a: Addr, t: Addr, c: Color)
    requires QueuedIntact(s, v) && (forall x :: x in s.mem ==> x in v.mem)
    requires (forall x :: x in v.color ==> x in v.mem && x != a)
    requires a in s.mem && v.mem[a] == s.mem[a] && v.mem[a].Obj? && t !in v.mem && (c == ToScan || c == OnTenureStack)
    requires v'.mem == Forward(v.mem, a, t) && v'.origin == v.origin[t := a] && v'.color == v.color[t := c]
    ensures QueuedIntact(s, v')
  {
    assert t !in s.mem && Orig(s, v'.origin, t) == s.mem[a];
  }

  lemma ClassNowStable(s: Start, mem: Memory, mem': Memory, cid: nat)
    requires cid < |s.classTable| && !FromRef(s, ClassNow(s, mem, cid))
    requires forall a :: a in s.mem && a in mem && mem[a].Forwarded? ==> a in mem' && mem'[a] == mem[a]
    requires forall a :: a in s.mem ==> a in mem
    ensures ClassNow(s, mem', cid) == ClassNow(s, mem, cid)
  {}

  lemma GrowthKeepsCover(s: Start, v: View, v': View)
    requires RemCovers(s, v) && BlackDone(s, v)
    requires forall a :: a in s.mem && a in v.mem && v.mem[a].Forwarded? ==> a in v'.mem && v'.mem[a] == v.mem[a]
    requires forall a :: a in s.mem ==> a in v.mem
    requires v'.rem == v.rem
    requires forall x :: x in v'.color && v'.color[x] == Black ==>
      x in v.color && v.color[x] == Black && x in v.mem && x in v'.mem && v'.mem[x] == v.mem[x]
    ensures RemCovers(s, v')
  {
    forall x | x in v'.color && !IsNew(x) && v'.color[x] == Black && x !in v'.rem
      ensures v'.mem[x].Obj? && v'.mem[x].cid < |s.classTable| && !NewTargetNow(s, v'.mem, v'.mem[x])
    {
      if IsStrong(v.mem[x].cid) { ClassNowStable(s, v.mem, v'.mem, v.mem[x].cid); }
    }
  }

  /** The facts about v, a and t that both ways of moving an object rest on. */
  ghost predicate Movable(s: Start, v: View, a: Addr, t: Addr)
  {
    && a in s.mem && IsNew(a) && a in v.mem && v.mem[a] == s.mem[a] && v.mem[a].Obj? && !v.mem[a].remembered
    && t !in v.mem && t !in s.mem && t !in v.color && a !in v.color && t !in v.rem && t !in v.origin
    && (forall x :: x in s.mem ==> x in v.mem)
    && (forall x :: x in v.color ==> x in v.mem && x != a && x != t)
  }

  ghost predicate Moved(v: View, v': View, a: Addr, t: Addr, c: Color)
    requires a in v.mem
  {
    && v'.mem == Forward(v.mem, a, t) && v'.color == v.color[t := c] && v'.origin == v.origin[t := a] && v'.rem == v.rem
    && v'.ephemeronList == v.ephemeronList && v'.weakList == v.weakList && v'.unread == v.unread
    && v'.scanned == v.scanned
    && v'.roots == v.roots && v'.phase == v.phase
    && (c == ToScan ==> v'.copies == v.copies + [t] && v'.tenureStack == v.tenureStack)
    && (c == OnTenureStack ==> v'.copies == v.copies && v'.tenureStack == [t] + v.tenureStack)
    && (c == ToScan || (c == OnTenureStack && !IsNew(t)))
  }

  lemma InvMovable(s: Start, v: View, to: Space, L: set<Addr>, a: Addr, t: Addr)
    requires WellFormed(s) && Inv(s, v, to, L) && a in s.mem && IsNew(a) && v.mem[a].Obj? && t !in v.mem
    ensures Movable(s, v, a, t)
    ensures forall y :: y in v.color && y in v.mem ==> v.mem[y].Obj?
  {
    hide RoomOk, BlackDone, QueuedIntact, BodyOk, RemCovers, Lists;
    assert FromOk(s, v.mem, v.origin, a);
  }

  lemma MovedGrows(s: Start, v: View, v': View, a: Addr, t: Addr, c: Color)
    requires Movable(s, v, a, t) && Moved(v, v', a, t, c)
    requires forall y :: y in v.color && y in v.mem ==> v.mem[y].Obj?
    requires v.top <= v'.top && v.tenured <= v'.tenured && v.pushes <= v'.pushes
    requires c == ToScan ==> t == v.top
    requires if c == ToScan then v'.top > v.top && v'.tenured == v.tenured && v'.pushes == v.pushes
            else v'.top == v.top && v'.tenured > v.tenured && v'.pushes == v.pushes + 1
    ensures forall x {:trigger Grows(s, v, v', x)} :: Grows(s, v, v', x)
  {
    hide Progress, Grows;
    MovedProgress(s, v, v', a, t, c);
    forall x ensures Grows(s, v, v', x) {
      MovedGrowsAt(s, v, v', a, t, c, x);
    }
  }

  lemma MovedProgress(s: Start, v: View, v': View, a: Addr, t: Addr, c: Color)
    requires Movable(s, v, a, t) && Moved(v, v', a, t, c)
    requires v.top <= v'.top && v.tenured <= v'.tenured && v.pushes <= v'.pushes
    requires c == ToScan ==> t == v.top
    requires if c == ToScan then v'.top > v.top && v'.tenured == v.tenured && v'.pushes == v.pushes
             else v'.top == v.top && v'.tenured > v.tenured && v'.pushes == v.pushes + 1
    ensures Progress(s, v, v')
  {
  }

  lemma MovedGrowsAt(s: Start, v: View, v': View, a: Addr, t: Addr, c: Color, x: Addr)
    requires Movable(s, v, a, t) && Moved(v, v', a, t, c) && Progress(s, v, v')
    requires forall y :: y in v.color && y in v.mem ==> v.mem[y].Obj?
    requires if c == ToScan then v'.pushes == v.pushes else v'.pushes == v.pushes + 1
    ensures Grows(s, v, v', x)
  {
    hide Progress;
  }

  lemma MovedLists(s: Start, v: View, v': View, a: Addr, t: Addr, c: Color)
    requires Movable(s, v, a, t) && Moved(v, v', a, t, c) && Lists(v)
    ensures Lists(v')
  {
    if c == ToScan { assert v'.copies[v'.scanned..] == v.copies[v.scanned..] + [t]; }
  }

  lemma MovedColors(s: Start, v: View, v': View, a: Addr, t: Addr, c: Color)
    requires Movable(s, v, a, t) && Moved(v, v', a, t, c) && Colors(s, v)
    requires IsNew(a) && a in s.mem
    ensures Colors(s, v')
  {
    hide BlackDone, QueuedIntact, Lists;
    ForwardColors(s, v, v', a, t, c);
    MovedLists(s, v, v', a, t, c);
    assert forall x :: x in v'.color <==> Tracked(s, v'.mem, x);
  }

  lemma MovedRem(s: Start, v: View, v': View, a: Addr, t: Addr, c: Color)
    requires Movable(s, v, a, t) && Moved(v, v', a, t, c) && RemOk(s, v) && Colors(s, v)
    ensures RemOk(s, v')
  {
    ForwardRem(s, v, v', a, t, c);
  }

  lemma MovedRest(s: Start, v: View, v': View, a: Addr, t: Addr, c: Color, L: set<Addr>)
    requires Movable(s, v, a, t) && Moved(v, v', a, t, c) && |s.roots| >= 1
    requires Bounded(s, v, L) && RootsOk(s, v.mem, v.roots) && v.phase.Tracing? && a in L
    ensures Bounded(s, v', L) && RootsOk(s, v'.mem, v'.roots) && Mourned(s, v')
  {
  }

  lemma CopyKeepsInv(s: Start, v: View, to: Space, L: set<Addr>, a: Addr)
    requires WellFormed(s) && Inv(s, v, to, L) && v.phase.Tracing? && a in s.mem && IsNew(a) && v.mem[a].Obj?
    requires a in L && a >= s.survivorEnd
    ensures Inv(s, CopyTo(v, a), to, L)
    ensures forall x {:trigger Grows(s, v, CopyTo(v, a), x)} :: Grows(s, v, CopyTo(v, a), x)
  {
    hide Graph, Colors, RoomOk, RemOk, Bounded, RootsOk, Mourned, BlackDone, Grows, WellFormed;
    RoomForObject(s, v, to, a);
    var t, v' := v.top, CopyTo(v, a);
    TopIsFresh(s, v, to);
    InvMovable(s, v, to, L, a, t);
    ForwardGraph(s, v.mem, v.origin, a, t);
    MovedColors(s, v, v', a, t, ToScan);
    CopyRoom(s, v, to, a);
    MovedRem(s, v, v', a, t, ToScan);
    MovedRest(s, v, v', a, t, ToScan, L);
    MovedGrows(s, v, v', a, t, ToScan);
  }

  lemma ForwardRem(s: Start, v: View, v': View, a: Addr, t: Addr, c: Color)
    requires RemBits(v) && RemCovers(s, v) && BlackDone(s, v)
    requires forall x :: x in s.mem ==> x in v.mem
    requires forall x :: x in v.color ==> x in v.mem && x != a
    requires a in v.mem && v.mem[a].Obj? && !v.mem[a].remembered && t !in v.mem && t !in v.rem
    requires (c == ToScan || c == OnTenureStack)
    requires v'.mem == Forward(v.mem, a, t) && v'.color == v.color[t := c] && v'.rem == v.rem
    ensures RemBits(v') && RemCovers(s, v')
  {
    GrowthKeepsCover(s, v, v');
  }

  lemma CopyRoom(s: Start, v: View, to: Space, a: Addr)
    requires Layout(s) && RoomOk(s, v, to) && a in s.layout && v.mem[a].Obj?
    requires v.mem[a].size >= 2 && v.mem[a].size % 2 == 0 && v.top + v.mem[a].size < v.end <= to.Limit()
    requires IsNew(v.top) && v.top !in v.mem && v.top !in s.mem
    ensures RoomOk(s, CopyTo(v, a), to)
  {
    hide CopiesTile;
    UnforwardedStep(s.layout, v.mem, a, v.top);
    CopyTiles(s, v, to, a);
  }

  lemma CopyTiles(s: Start, v: View, to: Space, a: Addr)
    requires CopiesTile(s, v, to) && a in s.mem && a in v.mem && v.mem[a].Obj? && v.top >= to.Start()
    requires v.mem[a].size >= 2 && IsNew(v.top) && v.top !in v.mem && v.top !in s.mem
    ensures CopiesTile(s, CopyTo(v, a), to)
  {
    var t, v' := v.top, CopyTo(v, a);
    forall i | 0 <= i < |v'.copies|
      ensures v'.copies[i] in v'.mem && v'.copies[i] !in s.mem && IsNew(v'.copies[i])
      ensures v'.mem[v'.copies[i]].Obj? && to.Start() <= v'.copies[i] < v'.top
    {
      if i < |v.copies| { assert v'.copies[i] == v.copies[i]; }
    }
    forall i | 0 <= i < |v'.copies| ensures v'.copies[i] + v'.mem[v'.copies[i]].size == CopyEnd(v', i) {
      if i < |v.copies| { assert v.copies[i] + v.mem[v.copies[i]].size == CopyEnd(v, i); }
    }
    forall x | x in v'.mem && x !in s.mem && IsNew(x) ensures x in v'.copies {
      if x == t { assert v'.copies[|v.copies|] == t; } else { assert x in v.copies; }
    }
  }

  lemma TenureKeepsInv(s: Start, v: View, to: Space, L: set<Addr>, a: Addr, t: Addr)
    requires WellFormed(s) && Inv(s, v, to, L) && v.phase.Tracing? && a in s.mem && IsNew(a) && v.mem[a].Obj?
    requires a in L && t !in v.mem && !IsNew(t) && a < s.survivorEnd
    ensures v.end > 0 && Inv(s, TenureTo(v, a, t), to, L)
    ensures forall x {:trigger Grows(s, v, TenureTo(v, a, t), x)} :: Grows(s, v, TenureTo(v, a, t), x)
  {
    hide Graph, Colors, RoomOk, RemOk, Bounded, RootsOk, Mourned, BlackDone, Grows, WellFormed;
    RoomForObject(s, v, to, a);
    var v' := TenureTo(v, a, t);
    InvMovable(s, v, to, L, a, t);
    ForwardGraph(s, v.mem, v.origin, a, t);
    MovedColors(s, v, v', a, t, OnTenureStack);
    TenureRoom(s, v, to, a, t);
    MovedRem(s, v, v', a, t, OnTenureStack);
    MovedRest(s, v, v', a, t, OnTenureStack, L);
    MovedGrows(s, v, v', a, t, OnTenureStack);
  }

  lemma TenureTiles(s: Start, v: View, to: Space, a: Addr, t: Addr)
    requires CopiesTile(s, v, to) && a in s.mem && a in v.mem && v.mem[a].Obj? && v.end > 0
    requires t !in v.mem && t !in s.mem && !IsNew(t)
    ensures CopiesTile(s, TenureTo(v, a, t), to)
  {
    var v' := TenureTo(v, a, t);
    forall i | 0 <= i < |v'.copies| ensures v'.copies[i] + v'.mem[v'.copies[i]].size == CopyEnd(v', i) {
      assert v.copies[i] + v.mem[v.copies[i]].size == CopyEnd(v, i);
    }
  }

  lemma TenureRoom(s: Start, v: View, to: Space, a: Addr, t: Addr)
    requires Layout(s) && RoomOk(s, v, to) && a in s.layout && v.mem[a].Obj? && v.mem[a].size >= 2 && v.end > 0
    requires t !in v.mem && t !in s.mem && !IsNew(t)
    ensures RoomOk(s, TenureTo(v, a, t), to)
  {
    hide CopiesTile;
    UnforwardedStep(s.layout, v.mem, a, t);
    TenureTiles(s, v, to, a, t);
  }

  // ---- steps that only touch one live object ----

  /** From v to v', one live object x may change its slots, its remembered bit and its color. */
  ghost predicate Tweak(v: View, v': View, x: Addr)
  {
    && x in v.color && x in v.mem && x in v'.mem && v'.mem == v.mem[x := v'.mem[x]] && SameBody(v.mem[x], v'.mem[x])
    && x in v'.color && v'.color == v.color[x := v'.color[x]]
    && v'.origin == v.origin && v'.roots == v.roots && v'.phase == v.phase
    && v'.copies == v.copies && v'.top == v.top && v'.tenured == v.tenured && v'.pushes == v.pushes
  }

  /** x may be black: nothing in it refers to from-space, and if it is mourned it is all nil. */
  ghost predicate Done(s: Start, mem: Memory, c0: Cell, c: Cell)
    requires |s.roots| >= 1
  {
    && c.Obj? && c.cid < |s.classTable| && NoFromRefs(s, c.slots)
    && (IsStrong(c.cid) ==> !FromRef(s, ClassNow(s, mem, c.cid))) && MournedOne(s, mem, c0, c)
  }

  ghost predicate Queueable(c0: Cell, c: Cell, k: Color)
  {
    && c0.Obj? && c.Obj? && c.slots == c0.slots
    && (k == OnEphemeronList ==> c0.cid == EPHEMERON_CID) && (k == OnWeakList ==> c0.cid == WEAK_ARRAY_CID)
  }

  lemma SameImages(s: Start, mem: Memory, mem': Memory)
    requires SameFromSpace(s, mem, mem') && InDomain(s, mem)
    ensures forall v :: Image(s, mem', v) == Image(s, mem, v) && Survives(s, mem', v) == Survives(s, mem, v)
  {
  }

  lemma TweakBlack(s: Start, v: View, v': View, x: Addr)
    requires BlackDone(s, v) && Tweak(v, v', x) && |s.roots| >= 1
    requires SameFromSpace(s, v.mem, v'.mem) && InDomain(s, v.mem)
    requires v'.color[x] == Black ==> exists c0 :: Done(s, v.mem, c0, v'.mem[x])
    ensures BlackDone(s, v')
  {
    SameImages(s, v.mem, v'.mem);
    forall y | y in v'.color && y in v'.mem && v'.color[y] == Black
      ensures v'.mem[y].Obj? && v'.mem[y].cid < |s.classTable| && NoFromRefs(s, v'.mem[y].slots)
      ensures IsStrong(v'.mem[y].cid) ==> !FromRef(s, ClassNow(s, v'.mem, v'.mem[y].cid))
    {
      if y != x { assert v'.mem[y] == v.mem[y]; }
    }
  }

  lemma TweakQueued(s: Start, v: View, v': View, x: Addr)
    requires QueuedIntact(s, v) && Tweak(v, v', x)
    requires x in s.mem || (x in v.origin && v.origin[x] in s.mem)
    requires v'.color[x] != Black && v'.color[x] != Scanning ==> Queueable(Orig(s, v.origin, x), v'.mem[x], v'.color[x])
    ensures QueuedIntact(s, v')
  {
  }

  lemma TweakColors(s: Start, v: View, v': View, x: Addr)
    requires Colors(s, v) && Tweak(v, v', x) && SameFromSpace(s, v.mem, v'.mem) && InDomain(s, v.mem) && |s.roots| >= 1
    requires x in s.mem || (x in v.origin && v.origin[x] in s.mem)
    requires v.color[x] != Black && Lists(v')
    requires v'.color[x] == Black ==> Done(s, v.mem, Orig(s, v.origin, x), v'.mem[x])
    requires v'.color[x] != Black && v'.color[x] != Scanning ==> Queueable(Orig(s, v.origin, x), v'.mem[x], v'.color[x])
    ensures Colors(s, v')
  {
    hide Lists, BlackDone, QueuedIntact, Done, Queueable;
    TweakBlack(s, v, v', x);
    TweakQueued(s, v, v', x);
  }

  lemma TweakMourned(s: Start, v: View, v': View, x: Addr)
    requires |s.roots| >= 1 && Mourned(s, v) && Tweak(v, v', x) && SameFromSpace(s, v.mem, v'.mem) && InDomain(s, v.mem)
    requires x in s.mem || (x in v.origin && v.origin[x] in s.mem)
    requires v'.color[x] == Black ==> Done(s, v.mem, Orig(s, v.origin, x), v'.mem[x])
    ensures Mourned(s, v')
  {
    SameImages(s, v.mem, v'.mem);
  }

  lemma TweakTiles(s: Start, v: View, v': View, to: Space, x: Addr)
    requires CopiesTile(s, v, to) && Tweak(v, v', x)
    ensures CopiesTile(s, v', to)
  {
    forall i | 0 <= i < |v'.copies| ensures v'.copies[i] + v'.mem[v'.copies[i]].size == CopyEnd(v', i) {
      assert v.copies[i] + v.mem[v.copies[i]].size == CopyEnd(v, i);
    }
  }

  lemma TweakRoom(s: Start, v: View, v': View, to: Space, x: Addr)
    requires Layout(s) && RoomOk(s, v, to) && Tweak(v, v', x) && SameFromSpace(s, v.mem, v'.mem) && InDomain(s, v.mem)
    requires v'.end == to.Limit() - |v'.tenureStack| && |v'.tenureStack| <= |v.tenureStack|
    ensures RoomOk(s, v', to)
  {
    hide CopiesTile;
    UnforwardedLocal(s.layout, v.mem, v'.mem);
    TweakTiles(s, v, v', to, x);
  }

  lemma TweakRem(s: Start, v: View, v': View, x: Addr)
    requires RemOk(s, v) && Tweak(v, v', x) && SameFromSpace(s, v.mem, v'.mem) && InDomain(s, v.mem)
    requires v.color[x] != Black
    requires forall y :: y in v.color ==> y in v.mem
    requires v'.rem == v.rem || (v'.rem == v.rem + [x] && v'.color[x] == Black && !IsNew(x))
    requires v'.mem[x].remembered <==> x in v'.rem || v'.color[x] == Unread
    requires v'.color[x] == Black && !IsNew(x) ==>
      && v'.mem[x].cid < |s.classTable| && (NewTargetNow(s, v.mem, v'.mem[x]) ==> v'.rem != v.rem)
      && (v'.rem != v.rem ==> NewTargetNow(s, v.mem, v'.mem[x]) || ClassWasNew(s, v'.mem[x]))
    ensures RemOk(s, v')
  {
    SameImages(s, v.mem, v'.mem);
    assert x !in v.rem;
    forall y | y in v'.color && y in v'.mem && !IsNew(y) && v'.color[y] == Black
      ensures v'.mem[y].Obj? && v'.mem[y].cid < |s.classTable|
      ensures NewTargetNow(s, v'.mem, v'.mem[y]) ==> y in v'.rem
      ensures y in v'.rem ==> NewTargetNow(s, v'.mem, v'.mem[y]) || ClassWasNew(s, v'.mem[y])
    {
      if y != x { assert v'.mem[y] == v.mem[y] && (y in v'.rem <==> y in v.rem); }
    }
  }

  lemma TweakKeepsInv(s: Start, v: View, v': View, to: Space, L: set<Addr>, x: Addr)
    requires Inv(s, v, to, L) && Tweak(v, v', x) && v.color[x] != Black
    requires x in s.mem || (x in v.origin && v.origin[x] in s.mem)
    requires BodyOk(s, v.mem, v.phase, Orig(s, v.origin, x), v'.mem[x])
    requires v'.color[x] == Black ==> Done(s, v.mem, Orig(s, v.origin, x), v'.mem[x])
    requires v'.color[x] != Black && v'.color[x] != Scanning ==> Queueable(Orig(s, v.origin, x), v'.mem[x], v'.color[x])
    requires Lists(v') && v'.end == to.Limit() - |v'.tenureStack| && |v'.tenureStack| <= |v.tenureStack|
    requires v'.rem == v.rem || (v'.rem == v.rem + [x] && v'.color[x] == Black && !IsNew(x))
    requires v'.mem[x].remembered <==> x in v'.rem || v'.color[x] == Unread
    requires v'.color[x] == Black && !IsNew(x) ==>
      && v'.mem[x].cid < |s.classTable| && (NewTargetNow(s, v.mem, v'.mem[x]) ==> v'.rem != v.rem)
      && (v'.rem != v.rem ==> NewTargetNow(s, v.mem, v'.mem[x]) || ClassWasNew(s, v'.mem[x]))
    ensures Inv(s, v', to, L)
  {
    ColorsTracked(s, v);
    hide Graph, Colors, RoomOk, RemOk, Bounded, RootsOk, Mourned, Lists, Done, BodyOk, NewTargetNow;
    TweakFrom(s, v, v', x);
    UpdateGraph(s, v.mem, v.phase, v.origin, x, v'.mem[x]);
    TweakColors(s, v, v', x);
    TweakRoom(s, v, v', to, x);
    TweakRem(s, v, v', x);
    TweakMourned(s, v, v', x);
    TweakBounded(s, v, v', L);
  }

  lemma ColorsTracked(s: Start, v: View)
    requires Colors(s, v)
    ensures forall x :: x in v.color <==> x in v.mem && (x in s.mem ==> !IsNew(x))
  {
  }

  lemma TweakFrom(s: Start, v: View, v': View, x: Addr)
    requires |s.roots| >= 1 && x in v'.mem && v'.mem == v.mem[x := v'.mem[x]]
    requires Graph(s, v.mem, v.phase, v.origin) && Tracked(s, v.mem, x)
    ensures SameFromSpace(s, v.mem, v'.mem) && InDomain(s, v.mem)
  {
  }

  lemma TweakBounded(s: Start, v: View, v': View, L: set<Addr>)
    requires SameFromSpace(s, v.mem, v'.mem) && InDomain(s, v.mem) && v'.roots == v.roots && Bounded(s, v, L)
    requires RootsOk(s, v.mem, v.roots)
    ensures Bounded(s, v', L) && RootsOk(s, v'.mem, v'.roots)
  {
    SameImages(s, v.mem, v'.mem);
  }

  // ---- the concrete steps ----

  lemma RecolorListed(color: map<Addr, Color>, l: seq<Addr>, c: Color, x: Addr, k: Color)
    requires Listed(color, l, c) && x in color && color[x] != c && k != c
    ensures Listed(color[x := k], l, c)
  {
  }

  lemma UnlistHead(color: map<Addr, Color>, l: seq<Addr>, c: Color, k: Color)
    requires Listed(color, l, c) && l != [] && k != c
    ensures l[0] in color && Listed(color[l[0] := k], l[1..], c)
  {
    assert l == [l[0]] + l[1..];
    assert l[0] in l;
    assert l[0] !in l[1..];
  }

  /** What is known of an object taken off its work list. */
  ghost predicate Opened(s: Start, v: View, x: Addr, L: set<Addr>)
  {
    && x in v.color && x in v.mem && v.mem[x].Obj? && v.color[x] == Scanning && (x in s.mem ==> !IsNew(x))
    && (x in s.mem || (x in v.origin && v.origin[x] in s.mem))
    && var c0 := Orig(s, v.origin, x);
    && c0.Obj? && c0.cid < |s.classTable| && SameBody(c0, v.mem[x])
    && (forall i :: 0 <= i < |c0.slots| && c0.slots[i].Ref? ==> c0.slots[i].addr in s.mem)
    && (s.classTable[c0.cid].Ref? ==> s.classTable[c0.cid].addr in s.mem)
    && (IsStrong(c0.cid) ==> AllWithin(s, c0.slots, L) && Within(s, s.classTable[c0.cid], L))
    && (c0.cid == EPHEMERON_CID ==> |c0.slots| == 3)
  }

  /** An ephemeron off its list whose key survives keeps its slots alive. */
  ghost predicate KeyGivesAll(s: Start, v: View, x: Addr, L: set<Addr>)
    requires Opened(s, v, x, L)
  {
    var c0 := Orig(s, v.origin, x);
    c0.cid == EPHEMERON_CID && Survives(s, v.mem, c0.slots[0]) ==> AllWithin(s, c0.slots, L)
  }

  lemma OpenedReaches(s: Start, v: View, x: Addr, L: set<Addr>)
    requires WellFormed(s) && Graph(s, v.mem, v.phase, v.origin) && Bounded(s, v, L) && Closed(s, L)
    requires x in v.color && v.color[x] == Scanning && Tracked(s, v.mem, x) && (x in s.mem ==> x in s.remembered)
    ensures Opened(s, v, x, L) && KeyGivesAll(s, v, x, L)
  {
    hide BodyOk, FromOk, RememberedOk;
    TrackedObj(s, v.mem, v.phase, v.origin, x);
    var a := if x in s.mem then x else v.origin[x];
    if x !in s.mem { assert CopyOk(s, v.mem, v.phase, v.origin, x); }
    assert Visited(s, a, L);
  }

  /** Taking x off its work list. */
  ghost predicate Opens(v: View, v': View, x: Addr)
  {
    && Tweak(v, v', x) && v.color[x] != Black && v.color[x] != Scanning && v'.color[x] == Scanning && v.mem[x].Obj?
    && v'.mem[x] == v.mem[x].(remembered := v.mem[x].remembered && v.color[x] != Unread) && v'.rem == v.rem
  }

  lemma StaysOpen(s: Start, v: View, v': View, x: Addr, L: set<Addr>)
    requires Colors(s, v) && Opens(v, v', x) && (x in s.mem || (x in v.origin && v.origin[x] in s.mem))
    ensures Tracked(s, v'.mem, x) && (x in s.mem ==> x in s.remembered)
    ensures v'.mem[x].slots == Orig(s, v'.origin, x).slots
  {
  }

  lemma OpenKeepsInv(s: Start, v: View, v': View, to: Space, L: set<Addr>, x: Addr)
    requires WellFormed(s) && Inv(s, v, to, L) && Closed(s, L) && Opens(v, v', x)
    requires Lists(v') && v'.end == to.Limit() - |v'.tenureStack| && |v'.tenureStack| <= |v.tenureStack|
    ensures Inv(s, v', to, L) && Opened(s, v', x, L) && KeyGivesAll(s, v', x, L)
    ensures v'.mem[x].slots == Orig(s, v'.origin, x).slots
    ensures !v'.mem[x].remembered
  {
    hide Graph, Colors, RoomOk, RemOk, Bounded, RootsOk, Mourned, Lists, WellFormed, BodyOk, SlotOk, Layout, Done;
    hide NewTargetNow;
    Unfinished(s, v, to, L, x);
    BodyWithBit(s, v.mem, v.phase, Orig(s, v.origin, x), v.mem[x], v'.mem[x].remembered);
    TweakKeepsInv(s, v, v', to, L, x);
    StaysOpen(s, v, v', x, L);
    OpenedReaches(s, v', x, L);
  }

  ghost function SetSlot(v: View, x: Addr, i: nat, val: Value): View
    requires x in v.mem && v.mem[x].Obj? && i < |v.mem[x].slots|
  {
    v.(mem := v.mem[x := v.mem[x].(slots := v.mem[x].slots[i := val])])
  }

  lemma SetSlotKeepsInv(s: Start, v: View, to: Space, L: set<Addr>, x: Addr, i: nat, val: Value)
    requires WellFormed(s) && Inv(s, v, to, L) && Opened(s, v, x, L) && i < |v.mem[x].slots|
    requires SlotOk(s, v.mem, v.phase, Orig(s, v.origin, x), Orig(s, v.origin, x).slots[i], val)
    ensures Inv(s, SetSlot(v, x, i, val), to, L) && Grows(s, v, SetSlot(v, x, i, val), x)
  {
    hide Graph, Colors, RoomOk, RemOk, Bounded, RootsOk, Mourned, Lists, WellFormed, BodyOk, SlotOk, Layout, Done;
    hide NewTargetNow;
    var v' := SetSlot(v, x, i, val);
    Unfinished(s, v, to, L, x);
    assert v'.color == v.color[x := v'.color[x]];
    BodyWithSlot(s, v.mem, v.phase, Orig(s, v.origin, x), v.mem[x], i, val);
    SetSlotLists(v, v');
    TweakKeepsInv(s, v, v', to, L, x);
    SetSlotGrows(s, v, x, i, val);
  }

  lemma SetSlotLists(v: View, v': View)
    requires Lists(v) && v'.color == v.color && v'.scanned == v.scanned && v'.copies == v.copies
    requires v'.tenureStack == v.tenureStack
    requires v'.ephemeronList == v.ephemeronList && v'.weakList == v.weakList && v'.unread == v.unread
    ensures Lists(v')
  {
  }

  lemma BodyWithSlot(s: Start, mem: Memory, phase: Phase, c0: Cell, c: Cell, i: nat, val: Value)
    requires |s.roots| >= 1 && BodyOk(s, mem, phase, c0, c) && i < |c.slots|
    requires SlotOk(s, mem, phase, c0, c0.slots[i], val)
    ensures BodyOk(s, mem, phase, c0, c.(slots := c.slots[i := val]))
  {
    var c' := c.(slots := c.slots[i := val]);
    forall j | 0 <= j < |c'.slots| ensures SlotOk(s, mem, phase, c0, c0.slots[j], c'.slots[j]) {
      assert SlotOk(s, mem, phase, c0, c0.slots[j], c.slots[j]);
    }
  }

  lemma BodyWithBit(s: Start, mem: Memory, phase: Phase, c0: Cell, c: Cell, bit: bool)
    requires |s.roots| >= 1 && BodyOk(s, mem, phase, c0, c)
    ensures BodyOk(s, mem, phase, c0, c.(remembered := bit))
  {
    var c' := c.(remembered := bit);
    forall j | 0 <= j < |c'.slots| ensures SlotOk(s, mem, phase, c0, c0.slots[j], c'.slots[j]) {
      assert SlotOk(s, mem, phase, c0, c0.slots[j], c.slots[j]);
    }
  }

  lemma RoomStack(s: Start, v: View, to: Space)
    requires RoomOk(s, v, to)
    ensures v.end == to.Limit() - |v.tenureStack|
  {
  }

  /** What the steps below need of an object that is not black. */
  lemma Unfinished(s: Start, v: View, to: Space, L: set<Addr>, x: Addr)
    requires Inv(s, v, to, L) && WellFormed(s) && x in v.color && v.color[x] != Black
    ensures x !in v.rem && x in v.mem && v.mem[x].Obj? && (v.mem[x].remembered <==> v.color[x] == Unread)
    ensures x in s.mem || (x in v.origin && v.origin[x] in s.mem)
    ensures BodyOk(s, v.mem, v.phase, Orig(s, v.origin, x), v.mem[x]) && Orig(s, v.origin, x).Obj?
    ensures (x in s.mem ==> !IsNew(x)) && v.end == to.Limit() - |v.tenureStack| && Lists(v)
  {
    hide RoomOk, BlackDone, QueuedIntact, BodyOk, RemCovers, Lists, WellFormed, Graph;
    RoomStack(s, v, to);
    TrackedObj(s, v.mem, v.phase, v.origin, x);
  }

  lemma SetSlotGrows(s: Start, v: View, x: Addr, i: nat, val: Value)
    requires x in v.mem && v.mem[x].Obj? && i < |v.mem[x].slots| && (x in s.mem ==> !IsNew(x))
    ensures Grows(s, v, SetSlot(v, x, i, val), x)
  {
  }

  ghost function Finish(v: View, x: Addr, remember: bool): View
    requires x in v.mem && v.mem[x].Obj?
  {
    v.(mem := v.mem[x := v.mem[x].(remembered := remember)], color := v.color[x := Black],
       rem := if remember then v.rem + [x] else v.rem)
  }

  lemma FinishLists(v: View, x: Addr, remember: bool)
    requires Lists(v) && x in v.color && v.color[x] == Scanning && x in v.mem && v.mem[x].Obj?
    ensures Lists(Finish(v, x, remember))
  {
  }

  lemma NewTargetFrame(s: Start, mem: Memory, c: Cell, bit: bool)
    requires c.Obj? && c.cid < |s.classTable|
    ensures NewTargetNow(s, mem, c.(remembered := bit)) == NewTargetNow(s, mem, c)
  {
  }

  lemma DoneFrame(s: Start, mem: Memory, c0: Cell, c: Cell, bit: bool)
    requires |s.roots| >= 1 && Done(s, mem, c0, c)
    ensures Done(s, mem, c0, c.(remembered := bit))
  {
  }

  lemma FinishKeepsInv(s: Start, v: View, to: Space, L: set<Addr>, x: Addr, remember: bool)
    requires WellFormed(s) && Inv(s, v, to, L) && Opened(s, v, x, L) && Done(s, v.mem, Orig(s, v.origin, x), v.mem[x])
    requires remember ==> !IsNew(x) && (NewTargetNow(s, v.mem, v.mem[x]) || ClassWasNew(s, v.mem[x]))
    requires !IsNew(x) && NewTargetNow(s, v.mem, v.mem[x]) ==> remember
    ensures Inv(s, Finish(v, x, remember), to, L)
  {
    hide Graph, Colors, RoomOk, RemOk, Bounded, RootsOk, Mourned, Lists, WellFormed, BodyOk, SlotOk, Layout, Done;
    hide NewTargetNow;
    var v' := Finish(v, x, remember);
    Unfinished(s, v, to, L, x);
    FinishLists(v, x, remember);
    BodyWithBit(s, v.mem, v.phase, Orig(s, v.origin, x), v.mem[x], remember);
    DoneFrame(s, v.mem, Orig(s, v.origin, x), v.mem[x], remember);
    NewTargetFrame(s, v.mem, v.mem[x], remember);
    TweakKeepsInv(s, v, v', to, L, x);
  }

  lemma QueueKeepsInv(s: Start, v: View, v': View, to: Space, L: set<Addr>, x: Addr)
    requires WellFormed(s) && Inv(s, v, to, L) && Opened(s, v, x, L) && Tweak(v, v', x) && v'.mem == v.mem
    requires v'.rem == v.rem
    requires v'.color[x] == OnEphemeronList || v'.color[x] == OnWeakList
    requires Queueable(Orig(s, v.origin, x), v.mem[x], v'.color[x])
    requires Lists(v') && v'.end == v.end && v'.tenureStack == v.tenureStack
    ensures Inv(s, v', to, L)
  {
    hide Graph, Colors, RoomOk, RemOk, Bounded, RootsOk, Mourned, Lists, WellFormed, BodyOk, SlotOk, Layout, Done;
    hide NewTargetNow;
    Unfinished(s, v, to, L, x);
    TweakKeepsInv(s, v, v', to, L, x);
  }

  // ---- facts the collector's methods use without looking inside the invariant ----

  ghost predicate SomeMoved(s: Start, mem: Memory)
  {
    exists a :: a in s.mem && IsNew(a) && a in mem && mem[a].Forwarded?
  }

  /** The slots below i are scanned, the rest is as it was; hasNew says whether a scanned one refers to new space. */
  ghost predicate Scanned(s: Start, slots: seq<Value>, orig: seq<Value>, i: nat, hasNew: bool)
  {
    && i <= |orig| == |slots| && slots[i..] == orig[i..] && NoFromRefs(s, slots[..i])
    && (hasNew <==> exists j :: 0 <= j < i && IsNewRef(slots[j]))
  }

  lemma ScannedStart(s: Start, slots: seq<Value>)
    ensures Scanned(s, slots, slots, 0, false) && NoFromRefs(s, slots[..0])
  {
  }

  lemma WithinAt(s: Start, vs: seq<Value>, L: set<Addr>, i: nat)
    requires AllWithin(s, vs, L) && i < |vs|
    ensures Within(s, vs[i], L)
  {
  }

  lemma ScannedNext(s: Start, slots: seq<Value>, orig: seq<Value>, i: nat, hasNew: bool)
    requires Scanned(s, slots, orig, i, hasNew) && i < |orig|
    ensures |slots| == |orig| && slots[i] == orig[i]
  {
    assert slots[i..][0] == orig[i..][0];
  }

  lemma ScannedOne(s: Start, slots: seq<Value>, slots': seq<Value>, orig: seq<Value>, i: nat, hasNew: bool, isNew: bool)
    requires Scanned(s, slots, orig, i, hasNew) && i < |orig| && |slots'| == |slots| && slots' == slots[i := slots'[i]]
    requires !FromRef(s, slots'[i]) && isNew == IsNewRef(slots'[i])
    ensures Scanned(s, slots', orig, i + 1, hasNew || isNew)
    ensures NoFromRefs(s, orig[..i + 1]) <==> NoFromRefs(s, orig[..i]) && !FromRef(s, orig[i])
  {
    assert forall j :: 0 <= j < i ==> slots'[j] == slots[j];
    assert slots'[..i + 1] == slots[..i] + [slots'[i]];
    assert orig[..i + 1] == orig[..i] + [orig[i]];
    assert slots'[i + 1..] == slots[i..][1..] && orig[i + 1..] == orig[i..][1..];
    if hasNew { var j :| 0 <= j < i && IsNewRef(slots[j]); assert IsNewRef(slots'[j]); }
  }

  lemma ScannedAll(s: Start, slots: seq<Value>, orig: seq<Value>, hasNew: bool)
    requires Scanned(s, slots, orig, |orig|, hasNew)
    ensures |slots| == |orig| && NoFromRefs(s, slots)
    ensures (hasNew <==> exists j :: 0 <= j < |slots| && IsNewRef(slots[j]))
    ensures orig[..|orig|] == orig
  {
    assert slots[..|orig|] == slots;
  }

  /** What has been reached so far is where it was. */
  ghost predicate StaysPut(v: View, v': View)
  {
    forall y :: y in v.color && y in v.mem ==> y in v'.mem && v'.mem[y] == v.mem[y]
  }

  lemma StaysPutAt(v: View, v': View, y: Addr)
    requires StaysPut(v, v') && y in v.color && y in v.mem
    ensures y in v'.mem && v'.mem[y] == v.mem[y]
  {
  }

  ghost predicate ColorsStay(v: View, v': View)
  {
    forall y :: y in v.color ==> y in v'.color && v'.color[y] == v.color[y]
  }

  ghost predicate Still(v: View, v': View)
  {
    v'.top == v.top && v'.tenured == v.tenured
  }

  lemma FromSpaceCell(s: Start, v: View, to: Space, L: set<Addr>, a: Addr)
    requires WellFormed(s) && Inv(s, v, to, L) && a in s.mem && IsNew(a)
    ensures a in v.mem
    ensures v.mem[a].Forwarded? ==> v.mem[a].to !in s.mem
    ensures v.mem[a].Obj? ==> v.mem[a] == s.mem[a] && v.mem[a].size >= 2 && v.top + v.mem[a].size < v.end <= to.Limit()
    ensures v.mem[a].Obj? && v.top + v.mem[a].size < v.end ==> v.top !in v.mem && IsNew(v.top) && v.top !in s.mem
  {
    hide Colors, RootsOk, RemOk, Mourned;
    assert FromOk(s, v.mem, v.origin, a);
    if v.mem[a].Obj? {
      RoomForObject(s, v, to, a);
      TopIsFresh(s, v, to);
    }
  }

  lemma GrowsReflexive(s: Start, v: View, x: Addr)
    requires x in v.color && x in v.mem ==> v.mem[x].Obj?
    ensures Grows(s, v, v, x)
  {
  }

  lemma EverythingIsObj(s: Start, v: View, to: Space, L: set<Addr>, x: Addr)
    requires Inv(s, v, to, L)
    ensures x in v.color && x in v.mem ==> v.mem[x].Obj?
  {
    hide RoomOk, RootsOk, Graph, Mourned, Colors;
  }

  lemma AdvanceTransitive(s: Start, v0: View, v1: View, v2: View)
    requires Advance(s, v0, v1) && Advance(s, v1, v2)
    ensures Advance(s, v0, v2)
  {
  }

  lemma ProgressTransitive(s: Start, v0: View, v1: View, v2: View)
    requires Progress(s, v0, v1) && Progress(s, v1, v2)
    ensures Progress(s, v0, v2)
  {
  }

  lemma GrowsTransitive(s: Start, v0: View, v1: View, v2: View, x: Addr)
    requires Grows(s, v0, v1, x) && Grows(s, v1, v2, x)
    requires forall y :: y in v0.color ==> y in v0.mem
    ensures Grows(s, v0, v2, x)
  {
    assert Progress(s, v0, v2) by { hide Grows; ProgressTransitive(s, v0, v1, v2); }
  }

  lemma OpenedGrows(s: Start, v: View, v': View, x: Addr, L: set<Addr>)
    requires Opened(s, v, x, L) && Grows(s, v, v', x)
    ensures Opened(s, v', x, L) && Orig(s, v'.origin, x) == Orig(s, v.origin, x)
  {
  }

  lemma ColorsInMemory(s: Start, v: View, to: Space, L: set<Addr>)
    requires Inv(s, v, to, L)
    ensures forall y :: y in v.color ==> y in v.mem && (y in s.mem ==> !IsNew(y))
    ensures forall a :: a in s.mem ==> a in v.mem
  {
    hide RoomOk, RootsOk, RemOk, Mourned, Lists, BlackDone, QueuedIntact;
  }

  /** What scanning x has established by the time x is finished. */
  lemma ScannedDone(s: Start, v: View, to: Space, L: set<Addr>, x: Addr)
    requires WellFormed(s) && Inv(s, v, to, L) && Opened(s, v, x, L) && v.phase.Tracing?
    requires NoFromRefs(s, v.mem[x].slots)
    requires var c0 := Orig(s, v.origin, x);
      && (IsStrong(c0.cid) ==> Survives(s, v.mem, s.classTable[c0.cid]))
      && (c0.cid == EPHEMERON_CID ==> Survives(s, v.mem, c0.slots[0]))
    ensures Done(s, v.mem, Orig(s, v.origin, x), v.mem[x])
  {
    hide RoomOk, RootsOk, RemOk, Mourned, Colors, BodyOk;
    var c0 := Orig(s, v.origin, x);
    if FromRef(s, s.classTable[c0.cid]) && Survives(s, v.mem, s.classTable[c0.cid]) {
      assert FromOk(s, v.mem, v.origin, s.classTable[c0.cid].addr);
    }
  }

  lemma EnlistMid(color: map<Addr, Color>, l1: seq<Addr>, l2: seq<Addr>, c: Color, x: Addr)
    requires Listed(color, l1 + l2, c) && x in color && color[x] != c
    ensures Listed(color[x := c], l1 + [x] + l2, c)
  {
    var l, l' := l1 + l2, l1 + [x] + l2;
    assert forall y :: y in l' <==> y == x || y in l;
    assert forall i :: 0 <= i < |l1| ==> l'[i] == l[i];
    assert forall i :: |l1| < i < |l'| ==> l'[i] == l[i - 1];
    assert forall i :: 0 <= i < |l| ==> l[i] in l;
  }

  /** Putting a scanned weak array or ephemeron on its list, behind the part of the list that is being walked. */
  ghost function Queue(v: View, x: Addr, k: Color, list: seq<Addr>): View
  {
    if k == OnWeakList then v.(color := v.color[x := k], weakList := list)
      else v.(color := v.color[x := k], ephemeronList := list)
  }

  lemma QueueLists(v: View, x: Addr, k: Color, l1: seq<Addr>, l2: seq<Addr>)
    requires Lists(v) && x in v.color && v.color[x] == Scanning
    requires (k == OnWeakList && v.weakList == l1 + l2) || (k == OnEphemeronList && v.ephemeronList == l1 + l2)
    ensures Lists(Queue(v, x, k, l1 + [x] + l2))
  {
    EnlistMid(v.color, l1, l2, k, x);
  }

  lemma QueueStep(s: Start, v: View, to: Space, L: set<Addr>, x: Addr, k: Color, l1: seq<Addr>, l2: seq<Addr>)
    requires WellFormed(s) && Inv(s, v, to, L) && Opened(s, v, x, L) && v.mem[x].slots == Orig(s, v.origin, x).slots
    requires k == OnWeakList || k == OnEphemeronList
    requires v.mem[x].cid == (if k == OnWeakList then WEAK_ARRAY_CID else EPHEMERON_CID)
    requires l1 + l2 == if k == OnWeakList then v.weakList else v.ephemeronList
    ensures Inv(s, Queue(v, x, k, l1 + [x] + l2), to, L)
  {
    hide Inv, WellFormed;
    InvLists(s, v, to, L);
    QueueLists(v, x, k, l1, l2);
    var v' := Queue(v, x, k, l1 + [x] + l2);
    assert Tweak(v, v', x) by { assert v'.mem == v.mem[x := v'.mem[x]]; }
    QueueKeepsInv(s, v, v', to, L, x);
  }

  lemma InvLists(s: Start, v: View, to: Space, L: set<Addr>)
    requires Inv(s, v, to, L)
    ensures Lists(v)
  {
    hide RoomOk, RootsOk, Graph, Mourned, RemOk;
  }

  /** What finishing or queueing x leaves alone. */
  ghost predicate Settles(s: Start, v: View, v': View, x: Addr)
  {
    && Progress(s, v, v')
    && (forall y :: y in v.color && y != x ==> y in v'.color && v'.color[y] == v.color[y])
    && (forall y :: y in v.color && y != x && y in v.mem ==> y in v'.mem && v'.mem[y] == v.mem[y])
    && (forall y :: y in v.origin ==> y in v'.origin && v'.origin[y] == v.origin[y])
    && (x in v'.color ==> v'.color[x] != Scanning)
    && v'.unread == v.unread && v'.scanned == v.scanned && v'.pushes - |v'.tenureStack| == v.pushes - |v.tenureStack|
  }

  lemma FinishSettles(s: Start, v0: View, v: View, x: Addr, remember: bool)
    requires Grows(s, v0, v, x) && x in v.color && x in v.mem && v.mem[x].Obj? && (x in s.mem ==> !IsNew(x))
    ensures Settles(s, v0, Finish(v, x, remember), x)
  {
  }

  lemma QueueSettles(s: Start, v: View, x: Addr, k: Color, list: seq<Addr>)
    requires k == OnWeakList || k == OnEphemeronList
    ensures Settles(s, v, Queue(v, x, k, list), x)
  {
  }

  /** An object whose scan the source starts, or whose class, may move something. */
  ghost predicate TouchesNew(s: Start, c0: Cell)
  {
    c0.Obj? && c0.cid < |s.classTable| && IsStrong(c0.cid)
      && (!NoFromRefs(s, c0.slots) || FromRef(s, s.classTable[c0.cid]))
  }

  lemma OpenedFacts(s: Start, v: View, x: Addr, L: set<Addr>)
    requires Opened(s, v, x, L)
    ensures x in v.color && x in v.mem && v.mem[x].Obj? && (x in s.mem || (x in v.origin && v.origin[x] in s.mem))
    ensures var c0 := Orig(s, v.origin, x);
      && c0.Obj? && c0.cid == v.mem[x].cid < |s.classTable| && |c0.slots| == |v.mem[x].slots|
      && (forall i :: 0 <= i < |c0.slots| && c0.slots[i].Ref? ==> c0.slots[i].addr in s.mem)
      && (s.classTable[c0.cid].Ref? ==> s.classTable[c0.cid].addr in s.mem)
      && (IsStrong(c0.cid) ==> AllWithin(s, c0.slots, L) && Within(s, s.classTable[c0.cid], L))
  {
  }

  lemma Followed(s: Start, mem: Memory, v: Value)
    requires FromRef(s, v) && v.addr in mem && mem[v.addr].Forwarded?
    ensures Image(s, mem, v) == Ref(mem[v.addr].to) && Survives(s, mem, v) && SomeMoved(s, mem)
  {
  }

  lemma NotFollowed(s: Start, mem: Memory, v: Value)
    requires !FromRef(s, v)
    ensures Image(s, mem, v) == v && Survives(s, mem, v)
  {
  }

  lemma MovedStays(s: Start, v: View, v': View)
    requires Advance(s, v, v') || exists x :: Grows(s, v, v', x)
    ensures SomeMoved(s, v.mem) ==> SomeMoved(s, v'.mem)
  {
  }

  lemma ScanStep(s: Start, v0: View, v1: View, v2: View, to: Space, L: set<Addr>, x: Addr)
    requires Inv(s, v0, to, L) && Grows(s, v0, v1, x) && Grows(s, v1, v2, x)
    ensures Grows(s, v0, v2, x)
    ensures Still(v0, v1) && Still(v1, v2) ==> Still(v0, v2)
    ensures SomeMoved(s, v1.mem) ==> SomeMoved(s, v2.mem)
  {
    hide Inv;
    ColorsInMemory(s, v0, to, L);
    GrowsTransitive(s, v0, v1, v2, x);
    if SomeMoved(s, v1.mem) { MovedStays(s, v1, v2); }
  }

  // ---- taking the next object off each list ----

  ghost function Scan(v: View, x: Addr): View
  {
    v.(color := v.color[x := Scanning])
  }

  ghost function PopTenured(v: View): View
    requires v.tenureStack != []
  {
    Scan(v, v.tenureStack[0]).(tenureStack := v.tenureStack[1..], end := v.end + 1)
  }

  ghost function NextCopy(v: View): View
    requires v.scanned < |v.copies|
  {
    Scan(v, v.copies[v.scanned]).(scanned := v.scanned + 1)
  }

  ghost function NextEphemeron(v: View): View
    requires v.ephemeronList != []
  {
    Scan(v, v.ephemeronList[0]).(ephemeronList := v.ephemeronList[1..])
  }

  ghost function NextWeak(v: View): View
    requires v.weakList != []
  {
    Scan(v, v.weakList[0]).(weakList := v.weakList[1..])
  }

  ghost function NextUnread(v: View): View
    requires v.unread != [] && v.unread[0] in v.mem && v.mem[v.unread[0]].Obj?
  {
    var x := v.unread[0];
    Scan(v, x).(unread := v.unread[1..], mem := v.mem[x := v.mem[x].(remembered := false)])
  }

  lemma OthersListed(v: View, v': View, x: Addr, k: Color)
    requires Lists(v) && x in v.color && v.color[x] == k != Scanning && v'.color == v.color[x := Scanning]
    ensures k != ToScan ==> Listed(v'.color, v.copies[v.scanned..], ToScan)
    ensures k != OnTenureStack ==> Listed(v'.color, v.tenureStack, OnTenureStack)
    ensures k != OnEphemeronList ==> Listed(v'.color, v.ephemeronList, OnEphemeronList)
    ensures k != OnWeakList ==> Listed(v'.color, v.weakList, OnWeakList)
    ensures k != Unread ==> Listed(v'.color, v.unread, Unread)
  {
    hide Listed;
    if k != ToScan { RecolorListed(v.color, v.copies[v.scanned..], ToScan, x, Scanning); }
    if k != OnTenureStack { RecolorListed(v.color, v.tenureStack, OnTenureStack, x, Scanning); }
    if k != OnEphemeronList { RecolorListed(v.color, v.ephemeronList, OnEphemeronList, x, Scanning); }
    if k != OnWeakList { RecolorListed(v.color, v.weakList, OnWeakList, x, Scanning); }
    if k != Unread { RecolorListed(v.color, v.unread, Unread, x, Scanning); }
  }

  /** What opening the next object x of a list gives its scanner. */
  ghost predicate Opening(s: Start, v: View, v': View, to: Space, L: set<Addr>, x: Addr)
  {
    && Inv(s, v', to, L) && Opened(s, v', x, L) && KeyGivesAll(s, v', x, L)
    && v'.mem[x].slots == Orig(s, v'.origin, x).slots && !v'.mem[x].remembered
    && Advance(s, v, v') && Still(v, v') && x in v.color && v.color[x] != Scanning
    && v'.color == v.color[x := Scanning] && v'.origin == v.origin && v'.rem == v.rem
  }

  lemma OpenStep(s: Start, v: View, v': View, to: Space, L: set<Addr>, x: Addr)
    requires WellFormed(s) && Closed(s, L) && Inv(s, v, to, L) && Opens(v, v', x) && Lists(v')
    requires v'.end == v.end + (|v.tenureStack| - |v'.tenureStack|) && |v'.tenureStack| <= |v.tenureStack|
    ensures Opening(s, v, v', to, L, x)
  {
    hide Inv, WellFormed, Closed, Lists, Opened;
    Unfinished(s, v, to, L, x);
    OpenKeepsInv(s, v, v', to, L, x);
  }

  lemma OpenTenured(s: Start, v: View, to: Space, L: set<Addr>)
    requires WellFormed(s) && Closed(s, L) && Inv(s, v, to, L) && v.tenureStack != []
    ensures Opening(s, v, PopTenured(v), to, L, v.tenureStack[0]) && !IsNew(v.tenureStack[0])
  {
    hide Inv, WellFormed, Closed, Opening, Listed;
    var x, v' := v.tenureStack[0], PopTenured(v);
    InvLists(s, v, to, L);
    UnlistHead(v.color, v.tenureStack, OnTenureStack, Scanning);
    ListedColor(v.color, v.tenureStack, OnTenureStack);
    OthersListed(v, v', x, OnTenureStack);
    IsCell(s, v, to, L, x);
    assert Opens(v, v', x) by { assert v'.mem == v.mem[x := v'.mem[x]]; }
    OpenStep(s, v, v', to, L, x);
  }

  lemma OpenCopy(s: Start, v: View, to: Space, L: set<Addr>)
    requires WellFormed(s) && Closed(s, L) && Inv(s, v, to, L) && v.scanned < |v.copies|
    ensures Opening(s, v, NextCopy(v), to, L, v.copies[v.scanned]) && IsNew(v.copies[v.scanned])
  {
    hide Inv, WellFormed, Closed, Opening, Listed;
    var x, v' := v.copies[v.scanned], NextCopy(v);
    InvLists(s, v, to, L);
    UnlistHead(v.color, v.copies[v.scanned..], ToScan, Scanning);
    ListedColor(v.color, v.copies[v.scanned..], ToScan);
    assert v.copies[v.scanned..][0] == x && v.copies[v.scanned..][1..] == v'.copies[v'.scanned..];
    OthersListed(v, v', x, ToScan);
    IsCell(s, v, to, L, x);
    CopiesNew(s, v, to, L);
    assert Opens(v, v', x) by { assert v'.mem == v.mem[x := v'.mem[x]]; }
    OpenStep(s, v, v', to, L, x);
  }

  lemma OpenEphemeron(s: Start, v: View, to: Space, L: set<Addr>)
    requires WellFormed(s) && Closed(s, L) && Inv(s, v, to, L) && v.ephemeronList != []
    ensures Opening(s, v, NextEphemeron(v), to, L, v.ephemeronList[0])
    ensures NextEphemeron(v).mem[v.ephemeronList[0]].cid == EPHEMERON_CID
  {
    hide Inv, WellFormed, Closed, Opening, Listed;
    var x, v' := v.ephemeronList[0], NextEphemeron(v);
    InvLists(s, v, to, L);
    UnlistHead(v.color, v.ephemeronList, OnEphemeronList, Scanning);
    ListedColor(v.color, v.ephemeronList, OnEphemeronList);
    OthersListed(v, v', x, OnEphemeronList);
    IsCell(s, v, to, L, x);
    assert Opens(v, v', x) by { assert v'.mem == v.mem[x := v'.mem[x]]; }
    OpenStep(s, v, v', to, L, x);
  }

  lemma OpenWeak(s: Start, v: View, to: Space, L: set<Addr>)
    requires WellFormed(s) && Closed(s, L) && Inv(s, v, to, L) && v.weakList != []
    ensures Opening(s, v, NextWeak(v), to, L, v.weakList[0])
    ensures NextWeak(v).mem[v.weakList[0]].cid == WEAK_ARRAY_CID
  {
    hide Inv, WellFormed, Closed, Opening, Listed;
    var x, v' := v.weakList[0], NextWeak(v);
    InvLists(s, v, to, L);
    UnlistHead(v.color, v.weakList, OnWeakList, Scanning);
    ListedColor(v.color, v.weakList, OnWeakList);
    OthersListed(v, v', x, OnWeakList);
    IsCell(s, v, to, L, x);
    assert Opens(v, v', x) by { assert v'.mem == v.mem[x := v'.mem[x]]; }
    OpenStep(s, v, v', to, L, x);
  }

  lemma OpenUnread(s: Start, v: View, to: Space, L: set<Addr>)
    requires WellFormed(s) && Closed(s, L) && Inv(s, v, to, L) && v.unread != []
    ensures v.unread[0] in v.mem && v.mem[v.unread[0]].Obj? && !IsNew(v.unread[0]) && v.mem[v.unread[0]].remembered
    ensures Opening(s, v, NextUnread(v), to, L, v.unread[0])
  {
    hide Inv, WellFormed, Closed, Opening, Listed;
    var x := v.unread[0];
    InvLists(s, v, to, L);
    UnlistHead(v.color, v.unread, Unread, Scanning);
    ListedColor(v.color, v.unread, Unread);
    IsCell(s, v, to, L, x);
    var v' := NextUnread(v);
    OthersListed(v, v', x, Unread);
    assert Opens(v, v', x) by { assert v'.mem == v.mem[x := v'.mem[x]]; }
    OpenStep(s, v, v', to, L, x);
  }

  lemma ListedColor(color: map<Addr, Color>, l: seq<Addr>, c: Color)
    requires Listed(color, l, c) && l != []
    ensures l[0] in color && color[l[0]] == c
  {
    assert l[0] in l;
  }

  lemma BodyCid(s: Start, mem: Memory, phase: Phase, c0: Cell, c: Cell)
    requires |s.roots| >= 1 && BodyOk(s, mem, phase, c0, c)
    ensures c.Obj? && c0.Obj? && c.cid == c0.cid
  {
  }

  lemma IsCell(s: Start, v: View, to: Space, L: set<Addr>, x: Addr)
    requires WellFormed(s) && Inv(s, v, to, L) && x in v.color
    ensures x in v.mem && v.mem[x].Obj? && (v.color[x] == Unread ==> v.mem[x].remembered)
    ensures v.color[x] == OnEphemeronList ==> v.mem[x].cid == EPHEMERON_CID
    ensures v.color[x] == OnWeakList ==> v.mem[x].cid == WEAK_ARRAY_CID
  {
    hide RoomOk, RootsOk, Mourned, BodyOk, BlackDone, RemCovers, WellFormed, Graph, Lists;
    TrackedObj(s, v.mem, v.phase, v.origin, x);
    BodyCid(s, v.mem, v.phase, Orig(s, v.origin, x), v.mem[x]);
  }

  lemma CopiesNew(s: Start, v: View, to: Space, L: set<Addr>)
    requires Inv(s, v, to, L)
    ensures forall i :: 0 <= i < |v.copies| ==> IsNew(v.copies[i])
  {
    hide Graph, RootsOk, Mourned, Colors, RemOk;
  }

  // ---- whole passes ----

  lemma SettleStep(s: Start, v0: View, v1: View, v2: View, x: Addr, remember: bool)
    requires Grows(s, v0, v1, x) && x in v1.color && x in v1.mem && v1.mem[x].Obj? && (x in s.mem ==> !IsNew(x))
    requires v2 == Finish(v1, x, remember)
    ensures Settles(s, v0, v2, x) && (Still(v0, v1) ==> Still(v0, v2))
    ensures (SomeMoved(s, v1.mem) ==> SomeMoved(s, v2.mem))
    ensures v2.ephemeronList == v0.ephemeronList && v2.weakList == v0.weakList
    ensures |v2.rem| == |v0.rem| + if remember then 1 else 0
  {
    FinishSettles(s, v0, v1, x, remember);
  }

  /** The budget of the tracing loop: words that can still be handed out. */
  lemma Budget(s: Start, v: View, to: Space, L: set<Addr>)
    requires Inv(s, v, to, L)
    ensures v.top + v.tenured <= to.Start() + Unforwarded(s.layout, s.mem)
    ensures v.scanned <= |v.copies| && v.top < v.end && v.end == to.Limit() - |v.tenureStack|
  {
    hide Graph, RootsOk, Mourned, RemOk, CopiesTile, Listed;
    UnforwardedNonNegative(s.layout, v.mem);
  }

  ghost function ScanAddress(v: View): nat
  {
    if v.scanned < |v.copies| then v.copies[v.scanned] else v.top
  }

  /** Scanning has not caught up with allocation exactly when a copy is left to scan. */
  lemma ScanPending(s: Start, v: View, to: Space, L: set<Addr>)
    requires Inv(s, v, to, L)
    ensures ScanAddress(v) < v.top <==> v.scanned < |v.copies|
    ensures v.scanned < |v.copies| ==> v.copies[v.scanned] in v.mem && v.mem[v.copies[v.scanned]].Obj?
  {
    hide Graph, RootsOk, Mourned, RemOk, Listed, BlackDone, QueuedIntact;
    if v.scanned < |v.copies| { assert CopyEnd(v, v.scanned) == CopyEnd(v, v.scanned); }
  }

  lemma ScanAdvances(s: Start, v0: View, v1: View, to: Space, L: set<Addr>)
    requires Inv(s, v0, to, L) && Inv(s, v1, to, L) && v0.scanned < |v0.copies| && v1.scanned == v0.scanned + 1
    requires v0.copies <= v1.copies && v0.copies[v0.scanned] in v0.mem && v0.copies[v0.scanned] in v1.mem
    requires v0.mem[v0.copies[v0.scanned]].Obj? && v1.mem[v0.copies[v0.scanned]].Obj?
    requires v0.mem[v0.copies[v0.scanned]].size == v1.mem[v0.copies[v0.scanned]].size
    ensures ScanAddress(v0) + v0.mem[v0.copies[v0.scanned]].size == ScanAddress(v1)
  {
    hide Graph, RootsOk, Mourned, RemOk, Listed, BlackDone, QueuedIntact;
    assert CopyEnd(v1, v0.scanned) == ScanAddress(v1);
  }

  lemma ClassStays(s: Start, v: View, v': View, x: Addr, cid: nat)
    requires Grows(s, v, v', x) && cid < |s.classTable| && Survives(s, v.mem, s.classTable[cid])
    ensures Survives(s, v'.mem, s.classTable[cid])
    ensures Image(s, v'.mem, s.classTable[cid]) == Image(s, v.mem, s.classTable[cid])
  {
  }

  lemma SameBit(s: Start, v: View, v': View, x: Addr)
    requires Grows(s, v, v', x) && x in v.color && x in v.mem && v.mem[x].Obj?
    ensures x in v'.mem && v'.mem[x].Obj? && v'.mem[x].remembered == v.mem[x].remembered
    ensures v'.mem[x].cid == v.mem[x].cid
  {
  }

  lemma OldAddress(s: Start, v: View, x: Addr, L: set<Addr>)
    requires Opened(s, v, x, L)
    ensures x in s.mem ==> !IsNew(x)
  {
  }

  lemma ProgressReflexive(s: Start, v: View)
    ensures Progress(s, v, v)
  {
  }

  lemma OpeningFacts(s: Start, v: View, v': View, to: Space, L: set<Addr>, x: Addr)
    requires Opening(s, v, v', to, L, x)
    ensures Inv(s, v', to, L) && Opened(s, v', x, L) && KeyGivesAll(s, v', x, L)
    ensures v'.mem[x].slots == Orig(s, v'.origin, x).slots && !v'.mem[x].remembered && v'.phase == v.phase
    ensures v'.rem == v.rem
    ensures Advance(s, v, v') && Still(v, v') && v'.color == v.color[x := Scanning]
  {
    hide Inv, Opened, Still;
  }

  lemma SettledProgress(s: Start, v0: View, v1: View, v2: View, x: Addr)
    requires Advance(s, v0, v1) && v1.color == v0.color[x := Scanning] && Settles(s, v1, v2, x)
    ensures Progress(s, v0, v2) && v2.top >= v1.top && v2.tenured >= v1.tenured
    ensures v2.tenured == v1.tenured ==> |v2.tenureStack| == |v1.tenureStack|
    ensures v2.unread == v1.unread && v2.scanned == v1.scanned
    ensures v2.pushes - |v2.tenureStack| == v1.pushes - |v1.tenureStack|
  {
    AdvanceTransitive(s, v0, v1, v2);
  }

  // ---- ephemerons ----

  ghost predicate KeyDead(s: Start, v: View, x: Addr)
  {
    && (x in s.mem || (x in v.origin && v.origin[x] in s.mem))
    && var c0 := Orig(s, v.origin, x); c0.Obj? && |c0.slots| == 3 && !Survives(s, v.mem, c0.slots[0])
  }

  ghost predicate DeadKeys(s: Start, v: View, l: seq<Addr>)
  {
    forall x :: x in l ==> KeyDead(s, v, x)
  }

  lemma QueuedEphemeron(s: Start, v: View, to: Space, L: set<Addr>, x: Addr)
    requires WellFormed(s) && Inv(s, v, to, L) && x in v.color && v.color[x] == OnEphemeronList
    ensures x in v.mem && v.mem[x].Obj? && v.mem[x].cid == EPHEMERON_CID && |v.mem[x].slots| == 3
    ensures (x in s.mem || (x in v.origin && v.origin[x] in s.mem)) && Orig(s, v.origin, x).Obj?
    ensures v.mem[x].slots == Orig(s, v.origin, x).slots
    ensures v.mem[x].slots[0].Ref? ==> v.mem[x].slots[0].addr in s.mem && v.mem[x].slots[0].addr in v.mem
  {
    hide RoomOk, RootsOk, Mourned, BodyOk, BlackDone, RemOk, Lists;
    IsCell(s, v, to, L, x);
    TrackedObj(s, v.mem, v.phase, v.origin, x);
  }

  lemma DeadKeysStay(s: Start, v: View, v': View, l: seq<Addr>)
    requires DeadKeys(s, v, l) && SameFromSpace(s, v.mem, v'.mem) && InDomain(s, v.mem)
    requires forall y :: y in v.origin ==> y in v'.origin && v'.origin[y] == v.origin[y]
    ensures DeadKeys(s, v', l)
  {
    SameImages(s, v.mem, v'.mem);
    forall x | x in l ensures KeyDead(s, v', x) { assert KeyDead(s, v, x); }
  }

  lemma Rotate(color: map<Addr, Color>, l1: seq<Addr>, l2: seq<Addr>, c: Color, x: Addr)
    requires Listed(color, [x] + l1 + l2, c)
    ensures Listed(color, l1 + [x] + l2, c)
  {
    var l, l' := [x] + l1 + l2, l1 + [x] + l2;
    assert forall y :: y in l' <==> y in l;
    assert l[0] == x;
    assert forall i :: 0 <= i < |l1| ==> l'[i] == l[i + 1];
    assert forall i :: |l1| < i < |l'| ==> l'[i] == l[i];
  }

  lemma ReframeTiles(s: Start, v: View, v': View, to: Space)
    requires CopiesTile(s, v, to) && v'.copies == v.copies && v'.mem == v.mem && v'.top == v.top
    ensures CopiesTile(s, v', to)
  {
    forall i | 0 <= i < |v'.copies| ensures v'.copies[i] + v'.mem[v'.copies[i]].size == CopyEnd(v', i) {
      assert v.copies[i] + v.mem[v.copies[i]].size == CopyEnd(v, i);
    }
  }

  lemma ReframeRoom(s: Start, v: View, v': View, to: Space)
    requires RoomOk(s, v, to) && v' == v.(ephemeronList := v'.ephemeronList, roots := v'.roots, phase := v'.phase)
    ensures RoomOk(s, v', to)
  {
    hide CopiesTile;
    ReframeTiles(s, v, v', to);
  }

  lemma ReframeColors(s: Start, v: View, v': View)
    requires Colors(s, v) && RemOk(s, v)
    requires v' == v.(ephemeronList := v'.ephemeronList, roots := v'.roots, phase := v'.phase)
    requires Lists(v')
    ensures Colors(s, v') && RemOk(s, v')
  {
    hide Lists;
  }

  /** The lists, roots and phase may be replaced by others that agree with the rest of the state. */
  lemma Reframe(s: Start, v: View, v': View, to: Space, L: set<Addr>)
    requires Inv(s, v, to, L) && v' == v.(ephemeronList := v'.ephemeronList, roots := v'.roots, phase := v'.phase)
    requires Lists(v') && RootsOk(s, v.mem, v'.roots) && Graph(s, v.mem, v'.phase, v.origin) && Mourned(s, v')
    ensures Inv(s, v', to, L)
  {
    hide Graph, RootsOk, Mourned, Lists, RoomOk, Colors, RemOk;
    ReframeRoom(s, v, v', to);
    ReframeColors(s, v, v');
  }

  lemma Requeue(s: Start, v: View, to: Space, L: set<Addr>, x: Addr, l1: seq<Addr>, l2: seq<Addr>)
    requires Inv(s, v, to, L) && v.ephemeronList == [x] + l1 + l2
    ensures Inv(s, v.(ephemeronList := l1 + [x] + l2), to, L)
  {
    hide RoomOk, Graph, RootsOk, RemOk, BlackDone, QueuedIntact;
    Rotate(v.color, l1, l2, OnEphemeronList, x);
    Reframe(s, v, v.(ephemeronList := l1 + [x] + l2), to, L);
  }

  lemma KeySurvivesDone(s: Start, v: View, v': View, x: Addr, val: Value)
    requires Grows(s, v, v', x) && Survives(s, v.mem, val)
    ensures Survives(s, v'.mem, val)
  {
  }

  // ---- the roots ----

  lemma RootStep(s: Start, v: View, to: Space, L: set<Addr>, i: nat, r: Value)
    requires Inv(s, v, to, L) && i < |v.roots| && |s.roots| == |v.roots| && r == Image(s, v.mem, s.roots[i])
    ensures Inv(s, v.(roots := v.roots[i := r]), to, L)
  {
    hide RoomOk, Graph, RemOk, Colors, Image;
    InvLists(s, v, to, L);
    Reframe(s, v, v.(roots := v.roots[i := r]), to, L);
  }

  lemma SameSize(s: Start, v: View, v': View, x: Addr)
    requires Grows(s, v, v', x) && x in v.color && x in v.mem && v.mem[x].Obj?
    ensures x in v'.mem && v'.mem[x].Obj? && v'.mem[x].size == v.mem[x].size
  {
  }

  lemma NextScanned(v: View)
    requires v.scanned < |v.copies|
    ensures ScanAddress(v) == v.copies[v.scanned]
  {
  }

  lemma ScanEnd(v: View)
    requires v.scanned >= |v.copies|
    ensures ScanAddress(v) == v.top
  {
  }

  lemma ProgressCopies(s: Start, v: View, v': View)
    requires Progress(s, v, v')
    ensures v.copies <= v'.copies && (v'.top == v.top <==> v'.copies == v.copies)
    ensures (|v'.copies| > |v.copies| ==> v'.copies[|v.copies|] == v.top)
    ensures v'.top >= v.top && v'.tenured >= v.tenured && (v'.tenured == v.tenured <==> v'.pushes == v.pushes)
  {
  }

  /** Where tracing from the remembered set and the roots has got to. */
  ghost predicate RootsStep(s: Start, v0: View, v: View)
  {
    && v.scanned == v0.scanned && v.pushes - |v.tenureStack| == v0.pushes - |v0.tenureStack|
    && v.phase == v0.phase && Calm(v0, v)
  }

  ghost predicate RememberedTouch(s: Start, n: nat)
    requires n <= |s.remembered|
  {
    exists i :: 0 <= i < n && s.remembered[i] in s.mem && TouchesNew(s, s.mem[s.remembered[i]])
  }

  /** The remembered ephemerons among the first n are on their list. */
  ghost predicate EphemeronsListed(s: Start, v: View, n: nat)
    requires n <= |s.remembered|
  {
    forall i :: 0 <= i < n ==>
      s.remembered[i] in s.mem && s.mem[s.remembered[i]].Obj? && s.mem[s.remembered[i]].cid == EPHEMERON_CID ==>
        s.remembered[i] in v.color && v.color[s.remembered[i]] == OnEphemeronList
  }

  lemma RootsStepped(s: Start, v0: View, v1: View, v2: View, v3: View, to: Space, L: set<Addr>, x: Addr, n: nat)
    requires Distinct(s.remembered) && n < |s.remembered| && s.remembered[n] == x && x in s.mem && s.mem[x].Obj?
    requires RootsStep(s, v0, v1) && Opening(s, v1, v2, to, L, x) && Settles(s, v2, v3, x)
    requires v2.scanned == v1.scanned && v2.pushes - |v2.tenureStack| == v1.pushes - |v1.tenureStack|
    requires v2.color == v1.color[x := Scanning] && EphemeronsListed(s, v1, n)
    requires (s.mem[x].cid == EPHEMERON_CID ==> x in v3.color && v3.color[x] == OnEphemeronList)
    requires if RememberedTouch(s, n) then SomeMoved(s, v1.mem) else Still(v0, v1)
    requires if TouchesNew(s, s.mem[x]) then SomeMoved(s, v3.mem) else Still(v2, v3)
    ensures RootsStep(s, v0, v3) && EphemeronsListed(s, v3, n + 1)
    ensures if RememberedTouch(s, n + 1) then SomeMoved(s, v3.mem) else Still(v0, v3)
  {
    hide Inv, Opened, KeyGivesAll, TouchesNew;
    assert forall i :: 0 <= i < n ==> s.remembered[i] != x;
    assert RememberedTouch(s, n + 1) <==> RememberedTouch(s, n) || TouchesNew(s, s.mem[x]);
    assert SomeMoved(s, v1.mem) ==> SomeMoved(s, v3.mem) by { MovedStays(s, v1, v2); MovedStaysSettled(s, v2, v3, x); }
  }

  lemma MovedStaysSettled(s: Start, v: View, v': View, x: Addr)
    requires Settles(s, v, v', x)
    ensures SomeMoved(s, v.mem) ==> SomeMoved(s, v'.mem)
  {
  }

  /** All that writing back a slot of x does, once its target has been followed. */
  lemma SlotScanned(s: Start, v1: View, v2: View, to: Space, L: set<Addr>, x: Addr, i: nat, r: Value)
    requires WellFormed(s) && Inv(s, v1, to, L) && Inv(s, v2, to, L) && v2.phase.Tracing? && Opened(s, v1, x, L)
    requires i < |v1.mem[x].slots| == |Orig(s, v1.origin, x).slots|
    requires v1.mem[x].slots[i] == Orig(s, v1.origin, x).slots[i]
    requires Grows(s, v1, v2, x) && StaysPut(v1, v2)
    requires r == Image(s, v2.mem, v1.mem[x].slots[i]) && Survives(s, v2.mem, v1.mem[x].slots[i]) && !FromRef(s, r)
    ensures x in v2.mem && v2.mem[x] == v1.mem[x] && v2.mem[x].Obj?
    ensures Inv(s, SetSlot(v2, x, i, r), to, L) && Grows(s, v1, SetSlot(v2, x, i, r), x)
    ensures Opened(s, SetSlot(v2, x, i, r), x, L)
    ensures Orig(s, SetSlot(v2, x, i, r).origin, x) == Orig(s, v1.origin, x)
    ensures SomeMoved(s, v2.mem) ==> SomeMoved(s, SetSlot(v2, x, i, r).mem)
  {
    hide Inv, WellFormed, Grows, Opened, Image, Survives, SomeMoved, StaysPut;
    OpenedFacts(s, v1, x, L);
    StaysPutAt(v1, v2, x);
    OpenedGrows(s, v1, v2, x, L);
    OpenedFacts(s, v2, x, L);
    SetSlotKeepsInv(s, v2, to, L, x, i, r);
    var v3 := SetSlot(v2, x, i, r);
    OpenedGrows(s, v2, v3, x, L);
    ColorsInMemory(s, v1, to, L);
    GrowsTransitive(s, v1, v2, v3, x);
    MovedStays(s, v2, v3);
  }

  lemma WithSlotIs(v: View, x: Addr, i: nat, val: Value)
    requires x in v.mem && v.mem[x].Obj? && i < |v.mem[x].slots|
    ensures SetSlot(v, x, i, val) == v.(mem := v.mem[x := v.mem[x].(slots := v.mem[x].slots[i := val])])
  {
  }

  /** A step that keeps the colors and continues where the last one ended. */
  lemma RootsFurther(s: Start, v0: View, v1: View, v2: View)
    requires RootsStep(s, v0, v1) && RootsStep(s, v1, v2) && ColorsStay(v0, v1) && ColorsStay(v1, v2)
    ensures RootsStep(s, v0, v2) && ColorsStay(v0, v2)
    ensures Still(v0, v1) && Still(v1, v2) ==> Still(v0, v2)
  {
  }

  lemma NoRootsYet(s: Start, v: View)
    ensures RootsStep(s, v, v) && ColorsStay(v, v) && Still(v, v)
  {
  }

  /** Moving an object is a step whatever is being scanned, and what has been reached does not move. */
  lemma MovesOne(s: Start, v: View, v': View, to: Space, L: set<Addr>, a: Addr, x: Addr)
    requires Inv(s, v, to, L) && Grows(s, v, v', a) && a in s.mem && IsNew(a) && (a == x || Grows(s, v, v', x))
    ensures Grows(s, v, v', x) && StaysPut(v, v')
  {
    hide Inv;
    ColorsInMemory(s, v, to, L);
  }

  lemma FirstRoots(s: Start, v: View)
    requires WellFormed(s)
    ensures RootsStep(s, v, v) && EphemeronsListed(s, v, 0) && !RememberedTouch(s, 0)
  {
  }

  lemma RememberedOrig(s: Start, v: View, x: Addr, L: set<Addr>)
    requires WellFormed(s) && Opened(s, v, x, L) && x in s.remembered
    ensures x in s.mem && Orig(s, v.origin, x) == s.mem[x] && s.mem[x].Obj? && Distinct(s.remembered)
  {
  }

  lemma NoKeys(s: Start, v: View)
    ensures DeadKeys(s, v, [])
  {
  }

  lemma HeadQueued(s: Start, v: View, to: Space, L: set<Addr>)
    requires Inv(s, v, to, L) && v.ephemeronList != []
    ensures v.ephemeronList[0] in v.color && v.color[v.ephemeronList[0]] == OnEphemeronList
  {
    hide RoomOk, Graph, RemOk, RootsOk, Mourned, BlackDone, QueuedIntact, Listed;
    ListedColor(v.color, v.ephemeronList, OnEphemeronList);
  }

  lemma SettledKeys(s: Start, v1: View, v2: View, v3: View, to: Space, L: set<Addr>, x: Addr, l: seq<Addr>)
    requires Opening(s, v1, v2, to, L, x) && Settles(s, v2, v3, x) && Inv(s, v1, to, L) && v2.mem == v1.mem
    ensures Still(v1, v3) && DeadKeys(s, v1, l) ==> DeadKeys(s, v3, l)
  {
    hide Inv, Opened, KeyGivesAll, DeadKeys;
    ColorsInMemory(s, v1, to, L);
    if Still(v1, v3) && DeadKeys(s, v1, l) { DeadKeysStay(s, v1, v3, l); }
  }

  lemma StillBetween(s: Start, v0: View, v1: View, v2: View)
    requires Progress(s, v0, v1) && Progress(s, v1, v2)
    ensures Still(v0, v2) ==> Still(v0, v1) && Still(v1, v2)
  {
  }

  lemma TailHead(l: seq<Addr>, i: nat, n: nat)
    requires i < n <= |l|
    ensures l[i..n] != [] && l[i..n][0] == l[i] && l[i..n][1..] == l[i + 1..n]
    ensures n == |l| ==> l[i..] == l[i..n] && l[i + 1..] == l[i + 1..n]
  {
  }

  lemma SameTail(l: seq<Addr>, l': seq<Addr>, i: nat, n: nat)
    requires i <= n <= |l| <= |l'| && forall j :: i <= j < |l| ==> l'[j] == l[j]
    ensures l'[i..n] == l[i..n]
  {
  }

  lemma DeadKeyAdded(s: Start, v: View, to: Space, L: set<Addr>, x: Addr, list: seq<Addr>, l: seq<Addr>)
    requires WellFormed(s) && Inv(s, v, to, L) && x in v.color && v.color[x] == OnEphemeronList
    requires x in v.mem && v.mem[x].Obj? && |v.mem[x].slots| == 3 && FromRef(s, v.mem[x].slots[0])
    requires v.mem[x].slots[0].addr in v.mem && !v.mem[v.mem[x].slots[0].addr].Forwarded?
    ensures DeadKeys(s, v, l) ==> DeadKeys(s, v.(ephemeronList := list), [x] + l)
  {
    hide Inv, WellFormed;
    QueuedEphemeron(s, v, to, L, x);
    var v' := v.(ephemeronList := list);
    if DeadKeys(s, v, l) {
      forall y | y in [x] + l ensures KeyDead(s, v', y) { if y in l { assert KeyDead(s, v, y); } }
    }
  }

  lemma ProgressRequeue(s: Start, v0: View, v: View, list: seq<Addr>)
    requires Progress(s, v0, v)
    ensures Progress(s, v0, v.(ephemeronList := list))
  {
  }

  /** Something the collector starts from refers to new space. */
  ghost predicate RootsTouchNew(s: Start)
  {
    !NoFromRefs(s, s.roots) || RememberedTouch(s, |s.remembered|)
  }

  // ---- mourning ----

  /** Nil is an old object that the first root never stops referring to. */
  lemma NilStays(s: Start, v: View, to: Space, L: set<Addr>)
    requires WellFormed(s) && Inv(s, v, to, L)
    ensures |v.roots| == |s.roots| >= 1 && v.roots[0] == Nil(s) && !FromRef(s, Nil(s)) && !IsNewRef(Nil(s))
  {
    hide RoomOk, Graph, RemOk, Colors, Mourned;
  }

  lemma MourningBegins(s: Start, v: View, to: Space, L: set<Addr>, skipped: bool)
    requires WellFormed(s) && Inv(s, v, to, L) && v.phase.Tracing?
    ensures Inv(s, v.(phase := Mourning(skipped)), to, L)
  {
    var v' := v.(phase := Mourning(skipped));
    InvLists(s, v, to, L);
    assert Graph(s, v.mem, v'.phase, v.origin) by { MourningGraph(s, v.mem, v.origin, skipped); }
    assert Mourned(s, v') by { NoneMourned(s, v, v'); }
    assert RootsOk(s, v.mem, v'.roots);
    hide RoomOk, Graph, RemOk, Colors, Mourned, RootsOk, WellFormed, Lists;
    Reframe(s, v, v', to, L);
  }

  lemma MourningGraph(s: Start, mem: Memory, origin: map<Addr, Addr>, skipped: bool)
    requires |s.roots| >= 1 && Graph(s, mem, Tracing, origin)
    ensures Graph(s, mem, Mourning(skipped), origin)
  {
    forall t | t in mem && t !in s.mem ensures CopyOk(s, mem, Mourning(skipped), origin, t) {
      assert CopyOk(s, mem, Tracing, origin, t);
      MourningBody(s, mem, s.mem[origin[t]], mem[t], skipped);
    }
    forall a | a in s.mem && !IsNew(a) ensures BodyOk(s, mem, Mourning(skipped), s.mem[a], mem[a]) {
      MourningBody(s, mem, s.mem[a], mem[a], skipped);
    }
  }

  lemma MourningBody(s: Start, mem: Memory, c0: Cell, c: Cell, skipped: bool)
    requires |s.roots| >= 1 && BodyOk(s, mem, Tracing, c0, c)
    ensures BodyOk(s, mem, Mourning(skipped), c0, c)
  {
    forall i | 0 <= i < |c.slots| ensures SlotOk(s, mem, Mourning(skipped), c0, c0.slots[i], c.slots[i]) {
      assert SlotOk(s, mem, Tracing, c0, c0.slots[i], c.slots[i]);
    }
  }

  /** While tracing, an ephemeron is finished only when its key survives. */
  lemma NoneMourned(s: Start, v: View, v': View)
    requires WellFormed(s) && Graph(s, v.mem, Tracing, v.origin) && Colors(s, v)
    requires v'.mem == v.mem && v'.color == v.color && v'.origin == v.origin
    ensures Mourned(s, v')
  {
    WellFormedLayout(s);
    hide RemOk, Lists, QueuedIntact, FromOk, WellFormed, BodyOk, Graph, MournedOne;
    forall x | x in v.color && x in v.mem && v.color[x] == Black
      && (x in s.mem || (x in v.origin && v.origin[x] in s.mem))
      ensures MournedOne(s, v.mem, Orig(s, v.origin, x), v.mem[x])
    {
      TrackedObj(s, v.mem, Tracing, v.origin, x);
      FollowedKey(s, v.mem, Orig(s, v.origin, x), v.mem[x]);
    }
  }

  lemma FollowedKey(s: Start, mem: Memory, c0: Cell, c: Cell)
    requires |s.roots| >= 1 && BodyOk(s, mem, Tracing, c0, c) && NoFromRefs(s, c.slots)
    ensures MournedOne(s, mem, c0, c)
  {
    if |c0.slots| == 3 {
      assert SlotOk(s, mem, Tracing, c0, c0.slots[0], c.slots[0]);
    }
  }

  /** What mourning one list leaves alone. */
  ghost predicate Mourns(s: Start, v: View, v': View)
  {
    && v'.phase == v.phase && v'.roots == v.roots && v'.origin == v.origin && v'.unread == v.unread
    && v'.scanned == v.scanned
    && v'.copies == v.copies && v'.tenureStack == v.tenureStack && v'.top == v.top && v'.end == v.end
    && SameFromSpace(s, v.mem, v'.mem) && Calm(v, v')
    && (forall y :: y in v.color ==> y in v'.color)
    && (forall y :: y in v.color && v.color[y] == Black ==>
          v'.color[y] == Black && (y in v.mem ==> y in v'.mem && v'.mem[y] == v.mem[y]))
  }

  lemma RootReaches(s: Start, L: set<Addr>, i: nat)
    requires WellFormed(s) && Closed(s, L) && i < |s.roots|
    ensures Within(s, s.roots[i], L) && (s.roots[i].Ref? ==> s.roots[i].addr in s.mem)
  {
  }

  lemma GrowsKeepsColors(s: Start, v: View, v': View, x: Addr)
    requires Grows(s, v, v', x)
    ensures forall y :: y in v.color ==> y in v'.color && v'.color[y] == v.color[y]
    ensures v'.scanned == v.scanned && v'.pushes - |v'.tenureStack| == v.pushes - |v.tenureStack| && v'.phase == v.phase
    ensures v'.unread == v.unread && Calm(v, v')
  {
  }

  /** A black ephemeron with nothing left in it. */
  ghost predicate Cleared(s: Start, v: View, x: Addr)
  {
    |s.roots| >= 1 && x in v.color && v.color[x] == Black && x in v.mem && v.mem[x].Obj?
      && v.mem[x].slots == [Nil(s), Nil(s), Nil(s)]
  }

  lemma ClearedDone(s: Start, mem: Memory, c0: Cell, c: Cell)
    requires WellFormed(s) && c.Obj? && c.cid == EPHEMERON_CID && c.cid < |s.classTable|
    requires c.slots == [Nil(s), Nil(s), Nil(s)]
    ensures Done(s, mem, c0, c) && !NewTargetNow(s, mem, c)
  {
  }

  lemma StillImages(s: Start, v: View, v': View, to: Space, L: set<Addr>, x: Addr)
    requires Inv(s, v, to, L) && Grows(s, v, v', x) && Still(v, v')
    ensures forall val :: Survives(s, v'.mem, val) == Survives(s, v.mem, val)
  {
    hide Inv;
    ColorsInMemory(s, v, to, L);
    SameImages(s, v.mem, v'.mem);
  }

  lemma MournsReflexive(s: Start, v: View)
    ensures Mourns(s, v, v)
  {
  }

  lemma HeadKeyDead(s: Start, v1: View, v2: View, x: Addr, rest: seq<Addr>)
    requires x in v1.mem && v1.mem[x].Obj? && (x in s.mem || (x in v1.origin && v1.origin[x] in s.mem))
    requires v1.mem[x].slots == (if Orig(s, v1.origin, x).Obj? then Orig(s, v1.origin, x).slots else [])
    requires v2.mem == v1.mem && v2.origin == v1.origin
    ensures DeadKeys(s, v1, [x] + rest) ==>
      |v1.mem[x].slots| == 3 && !Survives(s, v2.mem, v1.mem[x].slots[0]) && DeadKeys(s, v2, rest)
  {
    if DeadKeys(s, v1, [x] + rest) {
      assert x in [x] + rest;
      assert KeyDead(s, v1, x);
      forall y | y in rest ensures KeyDead(s, v2, y) { assert y in [x] + rest && KeyDead(s, v1, y); }
    }
  }

  /** The whole effect of mourning x. */
  ghost predicate OnlyTouches(v: View, v': View, x: Addr)
  {
    && x in v.mem && x in v'.mem && v'.mem[x].Obj?
    && v' == v.(mem := v.mem[x := v'.mem[x]], color := v.color[x := Black], rem := v'.rem)
  }

  lemma MournsTransitive(s: Start, v0: View, v1: View, v2: View, to: Space, L: set<Addr>)
    requires Mourns(s, v0, v1) && Mourns(s, v1, v2) && Inv(s, v0, to, L)
    ensures Mourns(s, v0, v2)
  {
    hide Inv;
    ColorsInMemory(s, v0, to, L);
  }

  lemma MournsStep(s: Start, v1: View, v2: View, v3: View, to: Space, L: set<Addr>, x: Addr)
    requires Inv(s, v1, to, L) && x in v1.color && v1.color[x] != Black && OnlyTouches(v2, v3, x)
    requires v2 == v1.(color := v1.color[x := Scanning], ephemeronList := v2.ephemeronList, weakList := v2.weakList)
    ensures Mourns(s, v1, v3)
  {
    hide Inv;
    ColorsInMemory(s, v1, to, L);
  }

  lemma TouchedLists(v: View, v': View, x: Addr)
    requires OnlyTouches(v, v', x)
    ensures v'.ephemeronList == v.ephemeronList && v'.weakList == v.weakList && v'.phase == v.phase
  {
  }

  ghost predicate AllCleared(s: Start, v: View, l: seq<Addr>)
  {
    forall x :: x in l ==> Cleared(s, v, x)
  }

  lemma NoneToClear(s: Start, v: View)
    ensures AllCleared(s, v, [])
  {
  }

  lemma StillCleared(s: Start, v: View, v': View, done: seq<Addr>, x: Addr)
    requires Mourns(s, v, v') && AllCleared(s, v, done) && Cleared(s, v', x)
    ensures AllCleared(s, v', done + [x])
  {
    forall y | y in done + [x] ensures Cleared(s, v', y) {
      if y in done { assert Cleared(s, v, y); }
    }
  }

  lemma MournedOneMore(s: Start, v0: View, v1: View, v2: View, to: Space, L: set<Addr>, done: seq<Addr>, x: Addr,
                       rest: seq<Addr>)
    requires Mourns(s, v0, v1) && Mourns(s, v1, v2) && Inv(s, v0, to, L) && AllCleared(s, v1, done) && Cleared(s, v2, x)
    ensures Mourns(s, v0, v2) && AllCleared(s, v2, done + [x]) && done + [x] + rest == done + ([x] + rest)
  {
    hide Inv, Mourns, AllCleared, Cleared;
    MournsTransitive(s, v0, v1, v2, to, L);
    StillCleared(s, v1, v2, done, x);
  }

  lemma DeadKeysMourn(s: Start, v1: View, v2: View, v3: View, to: Space, L: set<Addr>, rest: seq<Addr>)
    requires Inv(s, v1, to, L) && Mourns(s, v1, v3) && v2.mem == v1.mem && v2.origin == v1.origin
    ensures DeadKeys(s, v2, rest) ==> DeadKeys(s, v3, rest)
  {
    hide Inv, DeadKeys;
    ColorsInMemory(s, v1, to, L);
    if DeadKeys(s, v2, rest) { DeadKeysStay(s, v2, v3, rest); }
  }

  // ---- weak arrays ----

  /** What mourning leaves in a weak slot that held val. */
  ghost function WeakImage(s: Start, mem: Memory, val: Value): Value
    requires |s.roots| >= 1
  {
    if Survives(s, mem, val) then Image(s, mem, val) else Nil(s)
  }

  /** Some slots of x have been rewritten. */
  ghost predicate OnlySlots(v: View, v': View, x: Addr)
  {
    && x in v.mem && v.mem[x].Obj? && x in v'.mem && v'.mem[x].Obj?
    && v'.mem[x] == v.mem[x].(slots := v'.mem[x].slots) && |v'.mem[x].slots| == |v.mem[x].slots|
    && v' == v.(mem := v.mem[x := v'.mem[x]])
  }

  lemma SlotWritten(v0: View, v: View, x: Addr, i: nat, val: Value)
    requires OnlySlots(v0, v, x) && i < |v.mem[x].slots|
    ensures OnlySlots(v0, SetSlot(v, x, i, val), x)
  {
    assert v0.mem[x := v.mem[x]][x := SetSlot(v, x, i, val).mem[x]] == v0.mem[x := SetSlot(v, x, i, val).mem[x]];
  }

  lemma SlotsFinished(v0: View, v: View, x: Addr, remember: bool)
    requires OnlySlots(v0, v, x)
    ensures OnlyTouches(v0, Finish(v, x, remember), x)
  {
    assert v0.mem[x := v.mem[x]][x := Finish(v, x, remember).mem[x]] == v0.mem[x := Finish(v, x, remember).mem[x]];
  }

  lemma SlotsReflexive(v: View, x: Addr)
    requires x in v.mem && v.mem[x].Obj?
    ensures OnlySlots(v, v, x)
  {
    assert v.mem[x := v.mem[x]] == v.mem;
  }

  lemma WeakSlotOk(s: Start, v: View, c0: Cell, val: Value)
    requires |s.roots| >= 1 && v.phase.Mourning? && c0.Obj? && c0.cid == WEAK_ARRAY_CID
    ensures SlotOk(s, v.mem, v.phase, c0, val, WeakImage(s, v.mem, val))
  {
  }

  lemma WeakDone(s: Start, mem: Memory, c0: Cell, c: Cell)
    requires |s.roots| >= 1 && c0.Obj? && c.Obj? && c0.cid == WEAK_ARRAY_CID == c.cid < |s.classTable|
    requires NoFromRefs(s, c.slots)
    ensures Done(s, mem, c0, c) && (NewTargetNow(s, mem, c) <==> exists i :: 0 <= i < |c.slots| && IsNewRef(c.slots[i]))
  {
  }

  lemma SlotsTransitive(v0: View, v1: View, v2: View, x: Addr)
    requires OnlySlots(v0, v1, x) && OnlySlots(v1, v2, x)
    ensures OnlySlots(v0, v2, x) && v2.mem[x].remembered == v1.mem[x].remembered && v2.mem[x].cid == v1.mem[x].cid
    ensures v2.phase == v1.phase
  {
    assert v0.mem[x := v1.mem[x]][x := v2.mem[x]] == v0.mem[x := v2.mem[x]];
  }

  lemma HeadWeak(s: Start, v: View, to: Space, L: set<Addr>)
    requires Inv(s, v, to, L) && v.weakList != []
    ensures v.weakList[0] in v.color && v.color[v.weakList[0]] == OnWeakList
  {
    hide RoomOk, Graph, RemOk, RootsOk, Mourned, BlackDone, QueuedIntact, Listed;
    ListedColor(v.color, v.weakList, OnWeakList);
  }

  // ---- the tracing loop ----

  /** Work handed out but not yet scanned. */
  ghost function Pending(v: View): int
  {
    |v.copies| - v.scanned + |v.tenureStack|
  }

  /** One round that hands nothing out leaves nothing pending. */
  lemma RoundEnds(s: Start, v0: View, v1: View, v2: View, v3: View)
    requires Progress(s, v0, v1) && Progress(s, v1, v2) && Progress(s, v2, v3)
    requires v1.scanned == |v1.copies| && v2.scanned == v1.scanned && v3.scanned == v2.scanned
    requires v2.tenureStack == [] && v3.pushes - |v3.tenureStack| == v2.pushes - |v2.tenureStack|
    ensures Progress(s, v0, v3) && (Still(v0, v3) ==> Pending(v3) == 0)
    ensures ScanAddress(v3) == ScanAddress(v1)
    ensures v3.scanned == |v3.copies| && v3.tenureStack == [] ==> Still(v2, v3)
  {
    ProgressTransitive(s, v0, v1, v2);
    ProgressTransitive(s, v0, v2, v3);
    ProgressTransitive(s, v1, v2, v3);
  }

  lemma FirstScan(s: Start, v: View, to: Space, L: set<Addr>)
    requires Inv(s, v, to, L) && v.scanned == 0
    ensures ScanAddress(v) == to.Start()
  {
    hide Graph, Colors, RootsOk, Mourned, RemOk;
  }

  // ---- the first state ----

  ghost function FirstColors(s: Start): map<Addr, Color>
  {
    map a | a in s.mem && !IsNew(a) :: if a in s.remembered then Unread else Black
  }

  ghost function FirstView(s: Start, to: Space): View
  {
    View(s.mem, to.Start(), to.Limit(), [], [], [], [], s.roots, Tracing, map[], FirstColors(s), s.remembered, [], 0,
         0, 0)
  }

  /** To-space is empty, and large enough for everything in from-space. */
  ghost predicate Roomy(s: Start, to: Space)
  {
    && to.base % 2 == 0 && (forall a :: a in s.mem && IsNew(a) ==> !(to.base <= a < to.Limit()))
    && Unforwarded(s.layout, s.mem) + 2 <= to.size
  }

  lemma FirstInv(s: Start, to: Space, L: set<Addr>)
    requires WellFormed(s) && Roomy(s, to)
    ensures Inv(s, FirstView(s, to), to, L)
  {
    var v := FirstView(s, to);
    UnforwardedNonNegative(s.layout, s.mem);
    assert RoomOk(s, v, to);
    FirstGraph(s, v);
    FirstRem(s, v, to);
    assert Colors(s, v) by { FirstColorsOk(s, v, to); }
    assert Bounded(s, v, L) && Mourned(s, v) && RootsOk(s, v.mem, v.roots);
    hide WellFormed, Graph, Colors, RoomOk, RemOk, Bounded, RootsOk, Mourned;
    assert Layout(s) by { WellFormedLayout(s); }
  }

  lemma WellFormedLayout(s: Start)
    requires WellFormed(s)
    ensures Layout(s) && |s.roots| >= 1
  {
  }

  lemma FirstGraph(s: Start, v: View)
    requires WellFormed(s) && v.mem == s.mem && v.origin == map[] && v.phase.Tracing?
    ensures Graph(s, v.mem, v.phase, v.origin)
  {
    forall a | a in s.mem && !IsNew(a) ensures BodyOk(s, v.mem, v.phase, s.mem[a], v.mem[a]) {
      OwnBody(s, v.mem, s.mem[a]);
    }
  }

  lemma FirstRem(s: Start, v: View, to: Space)
    requires WellFormed(s) && v == FirstView(s, to)
    ensures RemOk(s, v)
  {
    forall x | x in v.color && !IsNew(x) && v.color[x] == Black
      ensures v.mem[x].Obj? && v.mem[x].cid < |s.classTable| && !NewTargetNow(s, v.mem, v.mem[x])
    {
      assert !HasNewTarget(s.mem[x], s.classTable);
    }
  }

  lemma FirstColorsOk(s: Start, v: View, to: Space)
    requires WellFormed(s) && v == FirstView(s, to)
    ensures Colors(s, v)
  {
    forall x | x in v.color && x in v.mem && v.color[x] == Black
      ensures v.mem[x].Obj? && v.mem[x].cid < |s.classTable| && NoFromRefs(s, v.mem[x].slots)
      ensures IsStrong(v.mem[x].cid) ==> !FromRef(s, ClassNow(s, v.mem, v.mem[x].cid))
    {
      assert !HasNewTarget(s.mem[x], s.classTable);
    }
    assert v.copies[v.scanned..] == [];
    assert Lists(v);
    assert QueuedIntact(s, v);
  }

  lemma TopFromStart(s: Start, v: View, to: Space, L: set<Addr>)
    requires Inv(s, v, to, L)
    ensures v.top >= to.Start()
  {
    hide Graph, Colors, RootsOk, Mourned, RemOk;
  }

  lemma CopyMoved(s: Start, v: View, x: Addr)
    requires |s.roots| >= 1 && Graph(s, v.mem, v.phase, v.origin) && x in v.mem && x !in s.mem
    ensures SomeMoved(s, v.mem)
  {
    assert CopyOk(s, v.mem, v.phase, v.origin, x);
  }

  /** If nothing has moved, the ephemerons waiting are old objects of the remembered set. */
  lemma QueuedRemembered(s: Start, v: View, to: Space, L: set<Addr>, x: Addr)
    requires WellFormed(s) && Inv(s, v, to, L) && !SomeMoved(s, v.mem) && x in v.color && v.color[x] == OnEphemeronList
    ensures x in s.mem && s.mem[x].Obj? && s.mem[x].remembered && Orig(s, v.origin, x) == s.mem[x]
  {
    hide RoomOk, RootsOk, Mourned, RemOk, Lists, BlackDone, Graph, SomeMoved;
    if x !in s.mem { CopyMoved(s, v, x); }
  }

  lemma StillNoneMoved(s: Start, v: View, v': View, to: Space, L: set<Addr>)
    requires Inv(s, v, to, L) && Mourns(s, v, v')
    ensures SomeMoved(s, v'.mem) == SomeMoved(s, v.mem)
  {
    hide Inv;
    ColorsInMemory(s, v, to, L);
  }

  /** The ephemerons of l may be cleared. */
  ghost predicate Mournable(s: Start, v: View, l: seq<Addr>)
  {
    v.phase.Mourning? && if v.phase.skipped then !SomeMoved(s, v.mem) else DeadKeys(s, v, l)
  }

  // ---- between the passes ----

  ghost predicate NoneScanning(v: View)
  {
    forall x :: x in v.color ==> v.color[x] != Scanning
  }

  lemma {:induction false} UnforwardedDrops(layout: seq<Addr>, mem0: Memory, mem: Memory)
    requires forall a :: a in layout ==>
      a in mem0 && mem0[a].Obj? && mem0[a].size >= 2 && a in mem && (mem[a] == mem0[a] || mem[a].Forwarded?)
    ensures Unforwarded(layout, mem) <= Unforwarded(layout, mem0)
    ensures (exists a :: a in layout && mem[a].Forwarded?) ==> Unforwarded(layout, mem) < Unforwarded(layout, mem0)
  {
    if layout != [] { UnforwardedDrops(layout[1..], mem0, mem); }
  }

  /** As long as nothing has been taken off the tenure stack, an object has moved exactly when space has been used. */
  lemma MovedIsSpent(s: Start, v: View, to: Space, L: set<Addr>)
    requires WellFormed(s) && Inv(s, v, to, L) && v.pushes == |v.tenureStack|
    ensures SomeMoved(s, v.mem) ==> v.top > to.Start() || v.tenureStack != []
    ensures v.top == to.Start() && v.tenured == 0 ==> v.tenureStack == [] && !SomeMoved(s, v.mem)
    ensures v.top == to.Start() && v.tenureStack == [] ==> !SomeMoved(s, v.mem)
  {
    hide Colors, RemOk, RootsOk, Mourned, CopiesTile;
    forall a | a in s.layout
      ensures a in v.mem && s.mem[a].Obj? && s.mem[a].size >= 2 && (v.mem[a] == s.mem[a] || v.mem[a].Forwarded?)
    {
      assert FromOk(s, v.mem, v.origin, a);
    }
    UnforwardedDrops(s.layout, s.mem, v.mem);
  }

  lemma EphemeronsInList(s: Start, v: View, to: Space, L: set<Addr>, a: Addr)
    requires Inv(s, v, to, L) && EphemeronsListed(s, v, |s.remembered|) && a in s.remembered && a in s.mem
    requires s.mem[a].Obj?
    requires s.mem[a].cid == EPHEMERON_CID
    ensures a in v.ephemeronList
  {
    hide Graph, RoomOk, RemOk, RootsOk, Mourned, BlackDone, QueuedIntact;
  }

  /** Two semispaces that share no word. */
  ghost predicate Apart(x: Space, y: Space)
  {
    x.Limit() <= y.base || y.Limit() <= x.base
  }

  lemma SpacesApart(s: Start, v: View, to: Space, L: set<Addr>)
    requires Inv(s, v, to, L)
    ensures forall a :: a in v.mem && IsNew(a) ==> (to.base <= a < to.Limit() <==> a !in s.mem)
  {
    hide Graph, Colors, RemOk, RootsOk, Mourned;
    UnforwardedNonNegative(s.layout, v.mem);
    assert v.top <= to.Limit();
  }

  lemma SameHeap(s: Start, s': Start)
    requires WellFormed(s) && s' == s.(survivorEnd := s'.survivorEnd)
    ensures WellFormed(s')
  {
  }

  ghost predicate NewWithin(mem: Memory, start: nat, end: nat) { forall a :: a in mem && IsNew(a) ==> start <= a < end }

  lemma NewBelow(mem: Memory, start: nat, end: nat)
    requires NewWithin(mem, start, end)
    ensures forall a :: a in mem && IsNew(a) ==> start <= a < end
  {
  }

  /** The space that was full is from-space now; the other one is no smaller. */
  lemma FlippedRoomy(s: Start, from: Space, top: nat, to: Space)
    requires Apart(to, from) && to.base % 2 == 0 && from.size <= to.size && top < from.Limit()
    requires NewWithin(s.mem, from.Start(), top) && Unforwarded(s.layout, s.mem) <= top - from.Start()
    ensures Roomy(s, to)
  {
  }
}
