/** What a sweep makes of a stretch of memory: vm/heap.cc, Heap::Sweep and Heap::SweepRegion. */
module Sweeping {
  import opened HeapModel

  /** A stretch of memory is filled by blocks: objects, and elements of the free list. */
  datatype Block = Block(addr: Addr, size: nat, live: bool)

  datatype Region = Region(start: Addr, end: Addr)

  /** Going from header to header by the sizes in them leads from one address to the other. */
  ghost predicate Tiled(sizes: map<Addr, nat>, from: nat, end: nat)
    decreases end - from
  {
    from == end || (from < end && from in sizes && sizes[from] > 0 && Tiled(sizes, from + sizes[from], end))
  }

  ghost function Walk(sizes: map<Addr, nat>, live: set<Addr>, from: nat, end: nat): seq<Block>
    requires Tiled(sizes, from, end)
    decreases end - from
  {
    if from == end then [] else [Block(from, sizes[from], from in live)] + Walk(sizes, live, from + sizes[from], end)
  }

  /** Each maximal run of dead blocks becomes one. */
  ghost function Coalesce(bs: seq<Block>): seq<Block>
    decreases |bs|, 1
  {
    if bs == [] then []
    else if bs[0].live then [bs[0]] + Coalesce(bs[1..])
    else Grow(bs[0].addr, bs[0].size, bs[1..])
  }

  /** A dead block that takes in the dead blocks right behind it. */
  ghost function Grow(addr: Addr, size: nat, bs: seq<Block>): seq<Block>
    decreases |bs|, 2
  {
    if bs != [] && !bs[0].live then Grow(addr, size + bs[0].size, bs[1..])
      else [Block(addr, size, false)] + Coalesce(bs)
  }

  ghost function LiveBlocks(bs: seq<Block>): seq<Block>
  {
    if bs == [] then [] else (if bs[0].live then [bs[0]] else []) + LiveBlocks(bs[1..])
  }

  ghost function FreeBlocks(bs: seq<Block>): seq<Block>
  {
    if bs == [] then [] else (if bs[0].live then [] else [bs[0]]) + FreeBlocks(bs[1..])
  }

  ghost function Total(bs: seq<Block>): nat
  {
    if bs == [] then 0 else bs[0].size + Total(bs[1..])
  }

  ghost predicate NoFreeNeighbours(bs: seq<Block>)
  {
    forall i :: 0 <= i < |bs| - 1 ==> bs[i].live || bs[i + 1].live
  }

  /** No live block is lost, moved or resized, no word is lost, and no two free blocks are left beside each other. */
  lemma {:induction false} CoalesceKeeps(bs: seq<Block>)
    ensures LiveBlocks(Coalesce(bs)) == LiveBlocks(bs) && Total(Coalesce(bs)) == Total(bs)
    ensures NoFreeNeighbours(Coalesce(bs))
    ensures bs != [] ==> Coalesce(bs) != [] && Coalesce(bs)[0].live == bs[0].live
    decreases |bs|, 1
  {
    if bs != [] {
      if bs[0].live {
        CoalesceKeeps(bs[1..]);
        var rest := Coalesce(bs[1..]);
        assert ([bs[0]] + rest)[1..] == rest;
      } else {
        GrowKeeps(bs[0].addr, bs[0].size, bs[1..]);
      }
    }
  }

  lemma {:induction false} GrowKeeps(addr: Addr, size: nat, bs: seq<Block>)
    ensures var r := Grow(addr, size, bs);
      LiveBlocks(r) == LiveBlocks(bs) && Total(r) == size + Total(bs) && NoFreeNeighbours(r) && r != [] && !r[0].live
    decreases |bs|, 2
  {
    if bs != [] && !bs[0].live {
      GrowKeeps(addr, size + bs[0].size, bs[1..]);
    } else {
      CoalesceKeeps(bs);
      var rest := Coalesce(bs);
      assert ([Block(addr, size, false)] + rest)[1..] == rest;
    }
  }

  /** The walk depends on the headers in the stretch only. */
  ghost predicate SameHeaders(sizes: map<Addr, nat>, sizes': map<Addr, nat>, from: nat, end: nat)
  {
    forall a :: from <= a < end ==>
      (a in sizes <==> a in sizes') && (a in sizes && a in sizes' ==> sizes[a] == sizes'[a])
  }

  ghost predicate SameElsewhere(sizes: map<Addr, nat>, sizes': map<Addr, nat>, from: nat, end: nat)
  {
    forall a :: a < from || end <= a ==>
      (a in sizes <==> a in sizes') && (a in sizes && a in sizes' ==> sizes[a] == sizes'[a])
  }

  lemma {:induction false} WalkSame(sizes: map<Addr, nat>, sizes': map<Addr, nat>, live: set<Addr>, from: nat, end: nat)
    requires Tiled(sizes, from, end) && SameHeaders(sizes, sizes', from, end)
    ensures Tiled(sizes', from, end) && Walk(sizes', live, from, end) == Walk(sizes, live, from, end)
    decreases end - from
  {
    if from != end { WalkSame(sizes, sizes', live, from + sizes[from], end); }
  }

  lemma {:induction false} WalkAppend(sizes: map<Addr, nat>, live: set<Addr>, from: nat, last: nat)
    requires Tiled(sizes, from, last) && last in sizes && sizes[last] > 0
    ensures Tiled(sizes, from, last + sizes[last])
    ensures Walk(sizes, live, from, last + sizes[last])
      == Walk(sizes, live, from, last) + [Block(last, sizes[last], last in live)]
    decreases last - from
  {
    if from != last {
      WalkAppend(sizes, live, from + sizes[from], last);
      assert Tiled(sizes, from + sizes[from], last);
      TiledUpTo(sizes, from + sizes[from], last);
    } else {
      assert Walk(sizes, live, last + sizes[last], last + sizes[last]) == [];
    }
  }

  lemma TiledUpTo(sizes: map<Addr, nat>, from: nat, end: nat)
    requires Tiled(sizes, from, end)
    ensures from <= end
  {
  }

  ghost predicate HasBlock(bs: seq<Block>, a: Addr) { exists b :: b in bs && b.addr == a }

  ghost predicate InUse(bs: seq<Block>) { exists b :: b in bs && b.live }

  lemma FirstBlock(sizes: map<Addr, nat>, live: set<Addr>, from: nat, end: nat)
    requires Tiled(sizes, from, end) && from < end
    ensures from in sizes && sizes[from] > 0 && from + sizes[from] <= end && Tiled(sizes, from + sizes[from], end)
    ensures var b, bs := Block(from, sizes[from], from in live), Walk(sizes, live, from, end);
      var rest := Walk(sizes, live, from + sizes[from], end);
      && bs != [] && bs[0] == b && bs[1..] == rest
      && (forall x :: x in bs <==> x == b || x in rest)
  {
    TiledUpTo(sizes, from + sizes[from], end);
    var b, rest, bs := Block(from, sizes[from], from in live), Walk(sizes, live, from + sizes[from], end), Walk(sizes,
                             live, from, end);
    assert bs == [b] + rest;
    assert forall x :: x in bs <==> x == b || x in rest;
  }

  lemma {:induction false} StartsFrom(sizes: map<Addr, nat>, live: set<Addr>, from: nat, end: nat)
    requires Tiled(sizes, from, end)
    ensures forall b :: b in Walk(sizes, live, from, end) ==> from <= b.addr < end && (b.live <==> b.addr in live)
    decreases end - from
  {
    if from != end {
      FirstBlock(sizes, live, from, end);
      StartsFrom(sizes, live, from + sizes[from], end);
    }
  }

  // ---- the steps of a sweep ----

  /** start to scan is swept, and scan to end is as it was. */
  ghost predicate Partly(sizes0: map<Addr, nat>, sizes: map<Addr, nat>, live: set<Addr>, start: nat, scan: nat,
                         end: nat)
  {
    && Tiled(sizes0, start, end) && Tiled(sizes, start, scan) && Tiled(sizes, scan, end) && start <= scan <= end
    && Walk(sizes, live, start, scan) + Coalesce(Walk(sizes, live, scan, end))
       == Coalesce(Walk(sizes0, live, start, end))
    && SameElsewhere(sizes0, sizes, start, end)
  }

  lemma LiveStep(sizes0: map<Addr, nat>, sizes: map<Addr, nat>, live: set<Addr>, start: nat, scan: nat, end: nat)
    requires Partly(sizes0, sizes, live, start, scan, end) && scan < end && scan in live
    ensures scan in sizes && sizes[scan] > 0 && Partly(sizes0, sizes, live, start, scan + sizes[scan], end)
    ensures Walk(sizes, live, start, scan + sizes[scan])
      == Walk(sizes, live, start, scan) + [Block(scan, sizes[scan], true)]
    ensures Walk(sizes, live, scan, end)
      == [Block(scan, sizes[scan], true)] + Walk(sizes, live, scan + sizes[scan], end)
  {
    WalkAppend(sizes, live, start, scan);
    var b, rest := Block(scan, sizes[scan], true), Walk(sizes, live, scan + sizes[scan], end);
    TiledUpTo(sizes, scan + sizes[scan], end);
    assert ([b] + rest)[1..] == rest;
    assert Walk(sizes, live, start, scan) + ([b] + Coalesce(rest))
      == Walk(sizes, live, start, scan) + [b] + Coalesce(rest);
  }

  /** scan to freeScan holds dead blocks only, and a live one or nothing follows. */
  ghost predicate Run(sizes: map<Addr, nat>, live: set<Addr>, scan: nat, freeScan: nat, end: nat)
  {
    && scan < freeScan <= end && Tiled(sizes, scan, end) && Tiled(sizes, freeScan, end) && scan in sizes
    && Coalesce(Walk(sizes, live, scan, end))
       == [Block(scan, freeScan - scan, false)] + Coalesce(Walk(sizes, live, freeScan, end))
    && (forall b :: b in Walk(sizes, live, scan, end) ==>
         if b.addr < freeScan then !b.live else b in Walk(sizes, live, freeScan, end))
    && (forall b :: b in Walk(sizes, live, freeScan, end) ==> b in Walk(sizes, live, scan, end))
  }

  /** The run that starts at scan has been followed up to freeScan. */
  ghost predicate Growing(sizes: map<Addr, nat>, live: set<Addr>, scan: nat, freeScan: nat, end: nat)
  {
    && scan < freeScan <= end && Tiled(sizes, scan, end) && Tiled(sizes, freeScan, end) && scan in sizes
    && Coalesce(Walk(sizes, live, scan, end)) == Grow(scan, freeScan - scan, Walk(sizes, live, freeScan, end))
    && (forall b :: b in Walk(sizes, live, scan, end) ==>
         if b.addr < freeScan then !b.live else b in Walk(sizes, live, freeScan, end))
    && (forall b :: b in Walk(sizes, live, freeScan, end) ==> b in Walk(sizes, live, scan, end))
  }

  lemma RunFirst(sizes: map<Addr, nat>, live: set<Addr>, scan: nat, end: nat)
    requires Tiled(sizes, scan, end) && scan < end && scan !in live
    ensures scan in sizes && scan + sizes[scan] <= end && Growing(sizes, live, scan, scan + sizes[scan], end)
  {
    FirstBlock(sizes, live, scan, end);
    StartsFrom(sizes, live, scan + sizes[scan], end);
  }

  lemma RunMore(sizes: map<Addr, nat>, live: set<Addr>, scan: nat, freeScan: nat, end: nat)
    requires Growing(sizes, live, scan, freeScan, end) && freeScan < end && freeScan !in live
    ensures freeScan in sizes && sizes[freeScan] > 0 && freeScan + sizes[freeScan] <= end
    ensures Growing(sizes, live, scan, freeScan + sizes[freeScan], end)
  {
    hide Coalesce, Walk, Tiled;
    FirstBlock(sizes, live, freeScan, end);
    StartsFrom(sizes, live, freeScan + sizes[freeScan], end);
  }

  lemma RunDone(sizes: map<Addr, nat>, live: set<Addr>, scan: nat, freeScan: nat, end: nat)
    requires Growing(sizes, live, scan, freeScan, end) && (freeScan == end || freeScan in live)
    ensures Run(sizes, live, scan, freeScan, end)
  {
    hide Coalesce;
    if freeScan < end { FirstBlock(sizes, live, freeScan, end); }
  }

  lemma RunTiled(sizes: map<Addr, nat>, live: set<Addr>, scan: nat, freeScan: nat, end: nat)
    requires Run(sizes, live, scan, freeScan, end)
    ensures Tiled(sizes, freeScan, end)
  {
  }

  lemma DeadStep(sizes0: map<Addr, nat>, sizes: map<Addr, nat>, live: set<Addr>, start: nat, scan: nat, freeScan: nat,
                 end: nat)
    requires Partly(sizes0, sizes, live, start, scan, end) && Run(sizes, live, scan, freeScan, end) && scan !in live
    ensures var sizes' := sizes[scan := freeScan - scan];
      && Partly(sizes0, sizes', live, start, freeScan, end)
      && Walk(sizes', live, start, freeScan) == Walk(sizes, live, start, scan) + [Block(scan, freeScan - scan, false)]
      && Walk(sizes', live, freeScan, end) == Walk(sizes, live, freeScan, end)
  {
    hide Coalesce;
    var sizes' := sizes[scan := freeScan - scan];
    var b, rest := Block(scan, freeScan - scan, false), Coalesce(Walk(sizes, live, freeScan, end));
    WalkSame(sizes, sizes', live, start, scan);
    WalkSame(sizes, sizes', live, freeScan, end);
    WalkAppend(sizes', live, start, scan);
    assert Walk(sizes, live, start, scan) + ([b] + rest) == Walk(sizes, live, start, scan) + [b] + rest;
  }

  /** The walk comes by every object in the stretch, and what is kept there is one. */
  ghost predicate Placed(sizes: map<Addr, nat>, objects: set<Addr>, live: set<Addr>, from: nat, end: nat)
  {
    && Tiled(sizes, from, end)
    && (forall a :: a in objects && from <= a < end ==> HasBlock(Walk(sizes, live, from, end), a))
    && (forall a :: a in live && from <= a < end ==> a in objects)
  }

  /** Of what is between start and scan, only live objects are left, and their mark bits are clear. */
  ghost predicate Midway(sizes0: map<Addr, nat>, sizes: map<Addr, nat>, mem0: Memory, mem: Memory, marks0: set<Addr>,
                         marks: set<Addr>, live: set<Addr>, start: nat, scan: nat, end: nat)
  {
    && Partly(sizes0, sizes, live, start, scan, end) && Placed(sizes, mem0.Keys + marks0, live, scan, end)
    && mem == (map a | a in mem0 && (a < start || scan <= a || a in live) :: mem0[a])
    && marks == (set a | a in marks0 && (a < start || scan <= a))
    && (forall a :: start <= a < end ==> (a in live <==> a in marks0))
  }

  /** The objects that are left when a stretch is overwritten. */
  function CutOut(mem: Memory, from: Addr, end: Addr): Memory { map a | a in mem && !(from <= a < end) :: mem[a] }

  lemma MidwayStart(sizes: map<Addr, nat>, mem: Memory, marks: set<Addr>, live: set<Addr>, start: nat, end: nat)
    requires Placed(sizes, mem.Keys + marks, live, start, end)
    requires forall a :: start <= a < end ==> (a in live <==> a in marks)
    ensures Midway(sizes, sizes, mem, mem, marks, marks, live, start, start, end)
  {
    TiledUpTo(sizes, start, end);
    assert Walk(sizes, live, start, start) == [];
    assert [] + Coalesce(Walk(sizes, live, start, end)) == Coalesce(Walk(sizes, live, start, end));
  }

  lemma MidwayEnd(sizes0: map<Addr, nat>, sizes: map<Addr, nat>, mem0: Memory, mem: Memory, marks0: set<Addr>,
                  marks: set<Addr>, live: set<Addr>, start: nat, end: nat)
    requires Midway(sizes0, sizes, mem0, mem, marks0, marks, live, start, end, end)
    ensures Walk(sizes, live, start, end) == Coalesce(Walk(sizes0, live, start, end))
  {
    assert Walk(sizes, live, end, end) == [];
    assert Walk(sizes, live, start, end) + [] == Walk(sizes, live, start, end);
  }

  lemma MidwayLive(sizes0: map<Addr, nat>, sizes: map<Addr, nat>, mem0: Memory, mem: Memory, marks0: set<Addr>,
                   marks: set<Addr>, live: set<Addr>, start: nat, scan: nat, end: nat)
    requires Midway(sizes0, sizes, mem0, mem, marks0, marks, live, start, scan, end) && scan < end && scan in marks
    ensures scan in sizes && sizes[scan] > 0 && scan + sizes[scan] <= end
    ensures Midway(sizes0, sizes, mem0, mem, marks0, marks - {scan}, live, start, scan + sizes[scan], end)
    ensures Walk(sizes, live, start, scan + sizes[scan])
      == Walk(sizes, live, start, scan) + [Block(scan, sizes[scan], true)]
    ensures InUse(Walk(sizes, live, scan, end))
    ensures Tiled(sizes, start, scan + sizes[scan]) && Tiled(sizes, scan + sizes[scan], end)
  {
    hide Partly, HasBlock;
    PartlyAt(sizes0, sizes, live, start, scan, end);
    assert scan in live;
    LiveStep(sizes0, sizes, live, start, scan, end);
    FirstBlock(sizes, live, scan, end);
    StartsFrom(sizes, live, scan + sizes[scan], end);
    PartlyAt(sizes0, sizes, live, start, scan + sizes[scan], end);
    assert Walk(sizes, live, scan, end)[0].live;
    PlacedLive(sizes, mem0.Keys + marks0, live, scan, end);
  }

  lemma PlacedLive(sizes: map<Addr, nat>, objects: set<Addr>, live: set<Addr>, scan: nat, end: nat)
    requires Placed(sizes, objects, live, scan, end) && scan < end
    ensures scan in sizes && Placed(sizes, objects, live, scan + sizes[scan], end)
    ensures forall a :: a in objects && scan < a < end ==> scan + sizes[scan] <= a
  {
    FirstBlock(sizes, live, scan, end);
    StartsFrom(sizes, live, scan + sizes[scan], end);
    forall a | a in objects && scan < a < end
      ensures scan + sizes[scan] <= a && HasBlock(Walk(sizes, live, scan + sizes[scan], end), a)
    {
      var b :| b in Walk(sizes, live, scan, end) && b.addr == a;
    }
  }

  lemma PlacedDead(sizes: map<Addr, nat>, objects: set<Addr>, live: set<Addr>, scan: nat, freeScan: nat, end: nat)
    requires Placed(sizes, objects, live, scan, end) && Run(sizes, live, scan, freeScan, end)
    ensures Placed(sizes, objects, live, freeScan, end)
    ensures forall a :: scan <= a < freeScan ==> a !in live
  {
    hide Coalesce, Walk;
    StartsFrom(sizes, live, scan, end);
    forall a | a in objects && scan <= a < end
      ensures if a < freeScan then a !in live else HasBlock(Walk(sizes, live, freeScan, end), a)
    {
      var b :| b in Walk(sizes, live, scan, end) && b.addr == a;
    }
  }

  lemma PartlyAt(sizes0: map<Addr, nat>, sizes: map<Addr, nat>, live: set<Addr>, start: nat, scan: nat, end: nat)
    requires Partly(sizes0, sizes, live, start, scan, end)
    ensures start <= scan <= end && Tiled(sizes, scan, end) && Tiled(sizes, start, scan) && Tiled(sizes0, start, end)
  {
  }

  lemma MidwayDead(sizes0: map<Addr, nat>, sizes: map<Addr, nat>, mem0: Memory, mem: Memory, marks0: set<Addr>,
                   marks: set<Addr>, live: set<Addr>, start: nat, scan: nat, freeScan: nat, end: nat)
    requires Midway(sizes0, sizes, mem0, mem, marks0, marks, live, start, scan, end) && scan !in marks
    requires Run(sizes, live, scan, freeScan, end)
    ensures Midway(sizes0, sizes[scan := freeScan - scan], mem0, CutOut(mem, scan, freeScan),
                   marks0, marks, live, start, freeScan, end)
    ensures Tiled(sizes, start, scan) && Tiled(sizes[scan := freeScan - scan], start, freeScan)
    ensures Walk(sizes[scan := freeScan - scan], live, start, freeScan)
      == Walk(sizes, live, start, scan) + [Block(scan, freeScan - scan, false)]
  {
    hide Partly, Walk, Coalesce;
    PartlyAt(sizes0, sizes, live, start, scan, end);
    DeadStep(sizes0, sizes, live, start, scan, freeScan, end);
    PartlyAt(sizes0, sizes[scan := freeScan - scan], live, start, freeScan, end);
    PlacedDead(sizes, mem0.Keys + marks0, live, scan, freeScan, end);
    assert Placed(sizes[scan := freeScan - scan], mem0.Keys + marks0, live, freeScan, end);
  }

  lemma MidwayAt(sizes0: map<Addr, nat>, sizes: map<Addr, nat>, mem0: Memory, mem: Memory, marks0: set<Addr>,
                 marks: set<Addr>, live: set<Addr>, start: nat, scan: nat, end: nat)
    requires Midway(sizes0, sizes, mem0, mem, marks0, marks, live, start, scan, end)
    ensures Tiled(sizes0, start, end) && Tiled(sizes, start, scan) && Tiled(sizes, scan, end) && start <= scan <= end
    ensures forall a :: scan <= a < end ==> (a in live <==> a in marks)
  {
  }

  lemma MidwayResult(sizes0: map<Addr, nat>, sizes: map<Addr, nat>, mem0: Memory, mem: Memory, marks0: set<Addr>,
                     marks: set<Addr>, live: set<Addr>, start: nat, end: nat)
    requires Midway(sizes0, sizes, mem0, mem, marks0, marks, live, start, end, end)
    ensures Tiled(sizes0, start, end) && Tiled(sizes, start, end) && SameElsewhere(sizes0, sizes, start, end)
    ensures mem == Without(mem0, live, start, end)
    ensures marks == set a | a in marks0 && (a < start || end <= a)
  {
  }

  lemma NothingYet(sizes: map<Addr, nat>, live: set<Addr>, start: nat)
    ensures Walk(sizes, live, start, start) == [] && FreeBlocks([]) == [] && Total(LiveBlocks([])) == 0
  {
  }

  lemma UsedLater(sizes: map<Addr, nat>, live: set<Addr>, scan: nat, end: nat)
    requires Tiled(sizes, scan, end) && scan < end
    ensures scan in sizes && Tiled(sizes, scan + sizes[scan], end)
    ensures InUse(Walk(sizes, live, scan + sizes[scan], end)) ==> InUse(Walk(sizes, live, scan, end))
  {
    FirstBlock(sizes, live, scan, end);
  }

  lemma UsedAfter(sizes: map<Addr, nat>, live: set<Addr>, scan: nat, freeScan: nat, end: nat)
    requires Run(sizes, live, scan, freeScan, end) && (freeScan < end ==> freeScan in live)
    ensures InUse(Walk(sizes, live, scan, end)) <==> freeScan < end
    ensures InUse(Walk(sizes, live, freeScan, end)) <==> freeScan < end
    ensures freeScan == end ==> Total(LiveBlocks(Walk(sizes, live, scan, end))) == 0
  {
    hide Coalesce;
    var all, rest := Walk(sizes, live, scan, end), Walk(sizes, live, freeScan, end);
    StartsFrom(sizes, live, scan, end);
    if freeScan < end {
      FirstBlock(sizes, live, freeScan, end);
      assert rest[0].live && rest[0] in all;
    } else {
      NoneLive(all);
    }
  }

  lemma {:induction false} NoneLive(bs: seq<Block>)
    requires !InUse(bs)
    ensures LiveBlocks(bs) == []
  {
    if bs != [] {
      assert forall b :: b in bs[1..] ==> b in bs;
      NoneLive(bs[1..]);
    }
  }

  lemma BlockMore(bs: seq<Block>, b: Block)
    ensures FreeBlocks(bs + [b]) == FreeBlocks(bs) + if b.live then [] else [b]
    ensures Total(LiveBlocks(bs + [b])) == Total(LiveBlocks(bs)) + if b.live then b.size else 0
  {
    FreeAppend(bs, b);
    TotalAppend(LiveBlocks(bs), b);
    assert LiveBlocks(bs) + [] == LiveBlocks(bs);
  }

  lemma WalkKept(sizes: map<Addr, nat>, live: set<Addr>, scan: nat, freeScan: nat, end: nat)
    requires Tiled(sizes, freeScan, end) && scan < freeScan
    ensures Tiled(sizes[scan := freeScan - scan], freeScan, end)
    ensures Walk(sizes[scan := freeScan - scan], live, freeScan, end) == Walk(sizes, live, freeScan, end)
  {
    WalkSame(sizes, sizes[scan := freeScan - scan], live, freeScan, end);
  }

  lemma {:induction false} FreeAppend(bs: seq<Block>, b: Block)
    ensures FreeBlocks(bs + [b]) == FreeBlocks(bs) + if b.live then [] else [b]
    ensures LiveBlocks(bs + [b]) == LiveBlocks(bs) + if b.live then [b] else []
  {
    if bs != [] {
      assert (bs + [b])[1..] == bs[1..] + [b];
      FreeAppend(bs[1..], b);
    } else {
      assert bs + [b] == [b];
    }
  }

  lemma {:induction false} TotalAppend(bs: seq<Block>, b: Block)
    ensures Total(bs + [b]) == Total(bs) + b.size
  {
    if bs != [] {
      assert (bs + [b])[1..] == bs[1..] + [b];
      TotalAppend(bs[1..], b);
    } else {
      assert bs + [b] == [b];
    }
  }

  /** What is left of the objects after a stretch is swept. */
  ghost function Without(mem: Memory, live: set<Addr>, start: nat, end: nat): Memory
  {
    map a | a in mem && (a < start || end <= a || a in live) :: mem[a]
  }

  // ---- the whole heap ----

  ghost function Blocks(sizes: map<Addr, nat>, live: set<Addr>, r: Region): seq<Block>
  {
    if Tiled(sizes, r.start, r.end) then Walk(sizes, live, r.start, r.end) else []
  }

  /** The regions that hold something live. */
  ghost function Kept(sizes: map<Addr, nat>, live: set<Addr>, rs: seq<Region>): seq<Region>
  {
    if rs == [] then [] else
      var n := |rs| - 1;
      Kept(sizes, live, rs[..n]) + if InUse(Blocks(sizes, live, rs[n])) then [rs[n]] else []
  }

  /** The free blocks of the regions that are kept. */
  ghost function FreeIn(sizes: map<Addr, nat>, live: set<Addr>, rs: seq<Region>): seq<Block>
  {
    if rs == [] then [] else
      var n := |rs| - 1;
      var bs := Blocks(sizes, live, rs[n]);
      FreeIn(sizes, live, rs[..n]) + if InUse(bs) then FreeBlocks(Coalesce(bs)) else []
  }

  ghost function LiveSizeIn(sizes: map<Addr, nat>, live: set<Addr>, rs: seq<Region>): nat
  {
    if rs == [] then 0 else
      var n := |rs| - 1;
      LiveSizeIn(sizes, live, rs[..n]) + Total(LiveBlocks(Blocks(sizes, live, rs[n])))
  }

  /** Blocks that lie behind each other from one address to another. */
  ghost predicate Chained(bs: seq<Block>, from: nat, end: nat)
  {
    if bs == [] then from == end else bs[0].addr == from && Chained(bs[1..], from + bs[0].size, end)
  }

  lemma {:induction false} WalkChained(sizes: map<Addr, nat>, live: set<Addr>, from: nat, end: nat)
    requires Tiled(sizes, from, end)
    ensures Chained(Walk(sizes, live, from, end), from, end)
    decreases end - from
  {
    if from != end {
      FirstBlock(sizes, live, from, end);
      WalkChained(sizes, live, from + sizes[from], end);
    }
  }

  /** The free blocks fill the room between the live ones. */
  lemma {:induction false} CoalesceChained(bs: seq<Block>, from: nat, end: nat)
    requires Chained(bs, from, end)
    ensures Chained(Coalesce(bs), from, end)
    decreases |bs|, 1
  {
    if bs != [] {
      if bs[0].live {
        CoalesceChained(bs[1..], from + bs[0].size, end);
        assert ([bs[0]] + Coalesce(bs[1..]))[1..] == Coalesce(bs[1..]);
      } else {
        GrowChained(bs[0].addr, bs[0].size, bs[1..], end);
      }
    }
  }

  lemma {:induction false} GrowChained(addr: Addr, size: nat, bs: seq<Block>, end: nat)
    requires Chained(bs, addr + size, end)
    ensures Chained(Grow(addr, size, bs), addr, end)
    decreases |bs|, 2
  {
    if bs != [] && !bs[0].live {
      GrowChained(addr, size + bs[0].size, bs[1..], end);
    } else {
      CoalesceChained(bs, addr + size, end);
      assert ([Block(addr, size, false)] + Coalesce(bs))[1..] == Coalesce(bs);
    }
  }

  lemma {:induction false} FreeBlocksAre(bs: seq<Block>)
    ensures forall b :: b in FreeBlocks(bs) <==> b in bs && !b.live
    ensures forall b :: b in LiveBlocks(bs) <==> b in bs && b.live
  {
    if bs != [] {
      FreeBlocksAre(bs[1..]);
      assert bs == [bs[0]] + bs[1..];
    }
  }

  lemma {:induction false} FreeAndLive(bs: seq<Block>)
    ensures Total(FreeBlocks(bs)) + Total(LiveBlocks(bs)) == Total(bs)
  {
    if bs != [] {
      var rest := bs[1..];
      FreeAndLive(rest);
      assert [] + FreeBlocks(rest) == FreeBlocks(rest) && [] + LiveBlocks(rest) == LiveBlocks(rest);
      assert ([bs[0]] + FreeBlocks(rest))[1..] == FreeBlocks(rest);
      assert ([bs[0]] + LiveBlocks(rest))[1..] == LiveBlocks(rest);
    }
  }

  lemma {:induction false} ChainedTotal(bs: seq<Block>, from: nat, end: nat)
    requires Chained(bs, from, end)
    ensures from + Total(bs) == end
  {
    if bs != [] { ChainedTotal(bs[1..], from + bs[0].size, end); }
  }

  ghost function Words(rs: seq<Region>): int
  {
    if rs == [] then 0 else Words(rs[..|rs| - 1]) + rs[|rs| - 1].end - rs[|rs| - 1].start
  }

  /** What a region is divided into by the sweep. */
  lemma RegionDivided(sizes: map<Addr, nat>, live: set<Addr>, r: Region)
    requires Tiled(sizes, r.start, r.end)
    ensures var bs := Blocks(sizes, live, r);
      && Chained(Coalesce(bs), r.start, r.end) && NoFreeNeighbours(Coalesce(bs))
      && LiveBlocks(Coalesce(bs)) == LiveBlocks(bs)
      && Total(LiveBlocks(bs)) + Total(FreeBlocks(Coalesce(bs))) == r.end - r.start
  {
    var bs := Blocks(sizes, live, r);
    WalkChained(sizes, live, r.start, r.end);
    CoalesceChained(bs, r.start, r.end);
    CoalesceKeeps(bs);
    FreeAndLive(Coalesce(bs));
    ChainedTotal(Coalesce(bs), r.start, r.end);
  }

  lemma {:induction false} TotalBoth(x: seq<Block>, y: seq<Block>)
    ensures Total(x + y) == Total(x) + Total(y)
  {
    if x == [] {
      assert x + y == y;
    } else {
      assert (x + y)[1..] == x[1..] + y;
      TotalBoth(x[1..], y);
    }
  }

  /** What is left is exactly the regions with a live block. */
  lemma {:induction false} KeptExactly(sizes: map<Addr, nat>, live: set<Addr>, rs: seq<Region>)
    ensures forall r :: r in Kept(sizes, live, rs) <==> r in rs && InUse(Blocks(sizes, live, r))
  {
    hide Blocks, InUse;
    if rs != [] {
      var n := |rs| - 1;
      assert rs == rs[..n] + [rs[n]];
      KeptExactly(sizes, live, rs[..n]);
    }
  }

  /** Exactly the free blocks of what is left are on the free list. */
  lemma {:induction false} FreeExactly(sizes: map<Addr, nat>, live: set<Addr>, rs: seq<Region>)
    ensures forall b :: b in FreeIn(sizes, live, rs) <==>
      !b.live && exists r :: r in rs && InUse(Blocks(sizes, live, r)) && b in Coalesce(Blocks(sizes, live, r))
  {
    hide Blocks, InUse, Coalesce, FreeBlocks;
    if rs != [] {
      var n := |rs| - 1;
      assert rs == rs[..n] + [rs[n]];
      FreeExactly(sizes, live, rs[..n]);
      FreeBlocksAre(Coalesce(Blocks(sizes, live, rs[n])));
    }
  }

  /** The words of the free blocks and of the live ones are all the words there are. */
  lemma {:induction false} WordsExactly(sizes: map<Addr, nat>, live: set<Addr>, rs: seq<Region>)
    requires forall r :: r in rs ==> Tiled(sizes, r.start, r.end)
    ensures LiveSizeIn(sizes, live, rs) + Total(FreeIn(sizes, live, rs)) == Words(Kept(sizes, live, rs))
  {
    hide Blocks, InUse, Coalesce, FreeBlocks, LiveBlocks, Tiled, Total;
    if rs == [] {
      TotalNone();
    } else {
      var n := |rs| - 1;
      var r, before := rs[n], rs[..n];
      assert rs == before + [r];
      WordsExactly(sizes, live, before);
      var bs := Blocks(sizes, live, r);
      if InUse(bs) {
        RegionDivided(sizes, live, r);
        TotalBoth(FreeIn(sizes, live, before), FreeBlocks(Coalesce(bs)));
        var kept := Kept(sizes, live, before);
        assert (kept + [r])[..|kept|] == kept;
      } else {
        NothingLive(bs);
        assert FreeIn(sizes, live, before) + [] == FreeIn(sizes, live, before);
        assert Kept(sizes, live, before) + [] == Kept(sizes, live, before);
      }
    }
  }

  lemma TotalNone()
    ensures Total([]) == 0
  {
  }

  lemma NothingLive(bs: seq<Block>)
    requires !InUse(bs)
    ensures Total(LiveBlocks(bs)) == 0
  {
    FreeBlocksAre(bs);
    assert forall i :: 0 <= i < |LiveBlocks(bs)| ==> LiveBlocks(bs)[i] in LiveBlocks(bs);
  }

  /** The regions that are left, their free blocks, and the size of what is kept. */
  ghost predicate RegionsSwept(sizes: map<Addr, nat>, kept: set<Addr>, rs: seq<Region>, left: seq<Region>,
                               freeList: seq<Block>, oldSize: nat)
  {
    left == Kept(sizes, kept, rs) && freeList == FreeIn(sizes, kept, rs) && oldSize == LiveSizeIn(sizes, kept, rs)
  }

  /** What is marked while the heap has been swept up to these regions. */
  ghost function Unswept(live: set<Addr>, newStart: nat, top: nat, rs: seq<Region>): set<Addr>
  {
    set a | a in live && !Covered(a, newStart, top, rs)
  }

  lemma NoRegions(sizes: map<Addr, nat>, live: set<Addr>)
    ensures Kept(sizes, live, []) == [] && FreeIn(sizes, live, []) == [] && LiveSizeIn(sizes, live, []) == 0
  {
  }

  lemma OneMoreRegion(sizes: map<Addr, nat>, live: set<Addr>, rs: seq<Region>, i: nat)
    requires i < |rs|
    ensures var bs := Blocks(sizes, live, rs[i]);
      && Kept(sizes, live, rs[..i + 1]) == Kept(sizes, live, rs[..i]) + (if InUse(bs) then [rs[i]] else [])
      && FreeIn(sizes, live, rs[..i + 1])
         == FreeIn(sizes, live, rs[..i]) + (if InUse(bs) then FreeBlocks(Coalesce(bs)) else [])
      && LiveSizeIn(sizes, live, rs[..i + 1]) == LiveSizeIn(sizes, live, rs[..i]) + Total(LiveBlocks(bs))
  {
    hide Blocks, Coalesce, InUse, FreeBlocks, LiveBlocks, Total;
    assert rs[..i + 1][..i] == rs[..i];
  }

  ghost predicate Covered(a: Addr, newStart: nat, top: nat, rs: seq<Region>)
  {
    newStart <= a < top || exists r :: r in rs && r.start <= a < r.end
  }

  /** The regions do not overlap each other or new space. */
  ghost predicate Apart(newStart: nat, top: nat, rs: seq<Region>)
  {
    && newStart <= top
    && (forall i :: 0 <= i < |rs| ==> rs[i].start < rs[i].end && (rs[i].end <= newStart || top <= rs[i].start))
    && (forall i, j :: 0 <= i < j < |rs| ==> rs[i].end <= rs[j].start || rs[j].end <= rs[i].start)
  }

  /** Objects are where the headers say, in new space and in each region, and nowhere else. */
  ghost predicate LaidOut(sizes: map<Addr, nat>, objects: set<Addr>, newStart: nat, top: nat, rs: seq<Region>)
  {
    && Apart(newStart, top, rs)
    && Placed(sizes, objects, {}, newStart, top)
    && (forall i :: 0 <= i < |rs| ==> Placed(sizes, objects, {}, rs[i].start, rs[i].end))
    && (forall a :: a in objects ==> Covered(a, newStart, top, rs))
  }

  /** New space and the first n regions are swept. */
  ghost predicate SweptTo(sizes0: map<Addr, nat>, sizes: map<Addr, nat>, mem0: Memory, mem: Memory, live: set<Addr>,
                          marks: set<Addr>, newStart: nat, top: nat, rs: seq<Region>, n: nat)
  {
    && n <= |rs| && Apart(newStart, top, rs)
    && mem == (map a | a in mem0 && (a in live || !Covered(a, newStart, top, rs[..n])) :: mem0[a])
    && marks == Unswept(live, newStart, top, rs[..n])
    && Tiled(sizes0, newStart, top) && Tiled(sizes, newStart, top)
    && Walk(sizes, live, newStart, top) == Coalesce(Walk(sizes0, live, newStart, top))
    && (forall i :: 0 <= i < n && InUse(Blocks(sizes0, live, rs[i])) ==> RegionSwept(sizes0, sizes, live, rs[i]))
    && (forall i :: n <= i < |rs| ==> SameHeaders(sizes0, sizes, rs[i].start, rs[i].end))
  }

  ghost predicate RegionSwept(sizes0: map<Addr, nat>, sizes: map<Addr, nat>, live: set<Addr>, r: Region)
  {
    && Tiled(sizes0, r.start, r.end) && Tiled(sizes, r.start, r.end)
    && Walk(sizes, live, r.start, r.end) == Coalesce(Walk(sizes0, live, r.start, r.end))
  }

  lemma {:induction false} SameWalk(sizes: map<Addr, nat>, live: set<Addr>, live': set<Addr>, from: nat, end: nat,
                                    a: Addr)
    requires Tiled(sizes, from, end) && HasBlock(Walk(sizes, live, from, end), a)
    ensures HasBlock(Walk(sizes, live', from, end), a)
    decreases end - from
  {
    hide Walk, Tiled;
    var b :| b in Walk(sizes, live, from, end) && b.addr == a;
    StartsFrom(sizes, live, from, end);
    FirstBlock(sizes, live, from, end);
    FirstBlock(sizes, live', from, end);
    if a == from {
      assert Walk(sizes, live', from, end)[0].addr == a;
    } else {
      SameWalk(sizes, live, live', from + sizes[from], end, a);
    }
  }

  /** Which blocks are live has nothing to do with where they are. */
  lemma PlacedAlive(sizes: map<Addr, nat>, objects: set<Addr>, live: set<Addr>, from: nat, end: nat)
    requires Placed(sizes, objects, {}, from, end) && live <= objects
    ensures Placed(sizes, objects, live, from, end)
  {
    forall a | a in objects && from <= a < end ensures HasBlock(Walk(sizes, live, from, end), a) {
      SameWalk(sizes, {}, live, from, end, a);
    }
  }

  lemma PlacedSame(sizes: map<Addr, nat>, sizes': map<Addr, nat>, objects: set<Addr>, objects': set<Addr>,
                   live: set<Addr>, from: nat, end: nat)
    requires Placed(sizes, objects, live, from, end) && SameHeaders(sizes, sizes', from, end)
    requires forall a :: from <= a < end ==> (a in objects <==> a in objects')
    ensures Placed(sizes', objects', live, from, end)
  {
    WalkSame(sizes, sizes', live, from, end);
  }

  /** One more region. */
  lemma SweptOneMore(sizes0: map<Addr, nat>, sizes: map<Addr, nat>, sizes': map<Addr, nat>, mem0: Memory, mem: Memory,
                     live: set<Addr>, marks: set<Addr>, newStart: nat, top: nat, rs: seq<Region>, n: nat)
    requires n < |rs| && SweptTo(sizes0, sizes, mem0, mem, live, marks, newStart, top, rs, n)
    requires SameElsewhere(sizes, sizes', rs[n].start, rs[n].end)
    requires InUse(Blocks(sizes0, live, rs[n])) ==> RegionSwept(sizes0, sizes', live, rs[n])
    ensures SweptTo(sizes0, sizes', mem0, Without(mem, live, rs[n].start, rs[n].end), live,
                    (set a | a in marks && (a < rs[n].start || rs[n].end <= a)), newStart, top, rs, n + 1)
  {
    hide Walk, Coalesce, Tiled, InUse, Blocks, Covered;
    var r := rs[n];
    UncoveredLess(mem0, live, newStart, top, rs, n);
    WalkSame(sizes, sizes', live, newStart, top);
    forall i | 0 <= i < n && InUse(Blocks(sizes0, live, rs[i])) ensures RegionSwept(sizes0, sizes', live, rs[i]) {
      assert RegionSwept(sizes0, sizes, live, rs[i]);
      WalkSame(sizes, sizes', live, rs[i].start, rs[i].end);
    }
  }

  /** What is left when one more region is covered. */
  lemma UncoveredLess(mem0: Memory, live: set<Addr>, newStart: nat, top: nat, rs: seq<Region>, n: nat)
    requires n < |rs|
    ensures var mem := map a | a in mem0 && (a in live || !Covered(a, newStart, top, rs[..n])) :: mem0[a];
      Without(mem, live, rs[n].start, rs[n].end) ==
      map a | a in mem0 && (a in live || !Covered(a, newStart, top, rs[..n + 1])) :: mem0[a]
    ensures (set a | a in Unswept(live, newStart, top, rs[..n]) && (a < rs[n].start || rs[n].end <= a)) ==
      Unswept(live, newStart, top, rs[..n + 1])
  {
    hide Covered;
    CoveredMore(newStart, top, rs, n);
  }

  lemma CoveredMore(newStart: nat, top: nat, rs: seq<Region>, n: nat)
    requires n < |rs|
    ensures forall a: Addr :: Covered(a, newStart, top, rs[..n + 1]) <==>
      Covered(a, newStart, top, rs[..n]) || rs[n].start <= a < rs[n].end
  {
    assert rs[..n + 1] == rs[..n] + [rs[n]];
    assert forall r :: r in rs[..n + 1] <==> r in rs[..n] || r == rs[n];
    forall a: Addr
      ensures Covered(a, newStart, top, rs[..n + 1]) <==>
        Covered(a, newStart, top, rs[..n]) || rs[n].start <= a < rs[n].end
    {
      if rs[n].start <= a < rs[n].end { assert rs[n] in rs[..n + 1]; }
    }
  }

  lemma SweptFirst(sizes0: map<Addr, nat>, sizes: map<Addr, nat>, mem0: Memory, live: set<Addr>, newStart: nat,
                   top: nat, rs: seq<Region>)
    requires Apart(newStart, top, rs) && Tiled(sizes0, newStart, top) && Tiled(sizes, newStart, top)
    requires Walk(sizes, live, newStart, top) == Coalesce(Walk(sizes0, live, newStart, top))
    requires SameElsewhere(sizes0, sizes, newStart, top)
    ensures SweptTo(sizes0, sizes, mem0, Without(mem0, live, newStart, top), live,
                    (set a | a in live && (a < newStart || top <= a)),
                    newStart, top, rs, 0)
  {
    hide Walk, Coalesce, Tiled;
    forall a: Addr ensures Covered(a, newStart, top, rs[..0]) <==> newStart <= a < top {}
  }

  /** The next region is as it was at the start. */
  lemma RegionReady(sizes0: map<Addr, nat>, sizes: map<Addr, nat>, mem0: Memory, mem: Memory, live: set<Addr>,
                    marks: set<Addr>, newStart: nat, top: nat, rs: seq<Region>, n: nat)
    requires n < |rs| && SweptTo(sizes0, sizes, mem0, mem, live, marks, newStart, top, rs, n)
    requires LaidOut(sizes0, mem0.Keys + live, newStart, top, rs)
    ensures Placed(sizes, mem.Keys + marks, live, rs[n].start, rs[n].end) && rs[n].start < rs[n].end
    ensures forall a :: rs[n].start <= a < rs[n].end ==> (a in live <==> a in marks)
    ensures Tiled(sizes, rs[n].start, rs[n].end) && Tiled(sizes0, rs[n].start, rs[n].end)
    ensures Walk(sizes, live, rs[n].start, rs[n].end) == Walk(sizes0, live, rs[n].start, rs[n].end)
  {
    hide Walk, Coalesce, Tiled, HasBlock, RegionSwept, InUse, Blocks;
    var r := rs[n];
    PlacedAlive(sizes0, mem0.Keys + live, live, r.start, r.end);
    forall a: Addr | r.start <= a < r.end ensures !Covered(a, newStart, top, rs[..n]) {}
    PlacedSame(sizes0, sizes, mem0.Keys + live, mem.Keys + marks, live, r.start, r.end);
    WalkSame(sizes0, sizes, live, r.start, r.end);
  }

  lemma {:induction false} KeptIn(sizes: map<Addr, nat>, live: set<Addr>, rs: seq<Region>, r: Region)
    ensures r in Kept(sizes, live, rs) <==> r in rs && InUse(Blocks(sizes, live, r))
    decreases |rs|
  {
    hide InUse, Blocks;
    if rs != [] {
      KeptIn(sizes, live, rs[..|rs| - 1], r);
      assert rs == rs[..|rs| - 1] + [rs[|rs| - 1]];
    }
  }

  lemma {:induction false} KeptApart(sizes: map<Addr, nat>, live: set<Addr>, newStart: nat, top: nat, rs: seq<Region>)
    requires Apart(newStart, top, rs)
    ensures Apart(newStart, top, Kept(sizes, live, rs))
    decreases |rs|
  {
    hide InUse, Blocks, Apart;
    if rs != [] {
      var n := |rs| - 1;
      var low := Kept(sizes, live, rs[..n]);
      ApartPrefix(newStart, top, rs);
      KeptApart(sizes, live, newStart, top, rs[..n]);
      forall i | 0 <= i < |low| ensures low[i].end <= rs[n].start || rs[n].end <= low[i].start {
        KeptIn(sizes, live, rs[..n], low[i]);
      }
      ApartMore(newStart, top, low, rs[n]);
    } else {
      assert Kept(sizes, live, rs) == rs;
    }
  }

  lemma ApartPrefix(newStart: nat, top: nat, rs: seq<Region>)
    requires Apart(newStart, top, rs) && rs != []
    ensures var n := |rs| - 1;
      && Apart(newStart, top, rs[..n]) && rs[n].start < rs[n].end && (rs[n].end <= newStart || top <= rs[n].start)
      && forall r :: r in rs[..n] ==> r.end <= rs[n].start || rs[n].end <= r.start
  {
  }

  lemma ApartMore(newStart: nat, top: nat, rs: seq<Region>, r: Region)
    requires Apart(newStart, top, rs) && r.start < r.end && (r.end <= newStart || top <= r.start)
    requires forall i :: 0 <= i < |rs| ==> rs[i].end <= r.start || r.end <= rs[i].start
    ensures Apart(newStart, top, rs + [r])
    ensures rs + [] == rs
  {
  }

  lemma {:induction false} LiveIn(bs: seq<Block>, b: Block)
    ensures b in LiveBlocks(bs) <==> b in bs && b.live
  {
    if bs != [] { LiveIn(bs[1..], b); }
  }

  /** An object that is live can still be found. */
  lemma StillThere(sizes0: map<Addr, nat>, sizes: map<Addr, nat>, live: set<Addr>, from: nat, end: nat, a: Addr)
    requires Tiled(sizes0, from, end) && Tiled(sizes, from, end) && a in live
    requires HasBlock(Walk(sizes0, live, from, end), a)
    requires Walk(sizes, live, from, end) == Coalesce(Walk(sizes0, live, from, end))
    ensures HasBlock(Walk(sizes, live, from, end), a) && InUse(Walk(sizes0, live, from, end))
  {
    hide Coalesce, LiveBlocks;
    var bs := Walk(sizes0, live, from, end);
    StartsFrom(sizes0, live, from, end);
    var b :| b in bs && b.addr == a;
    CoalesceKeeps(bs);
    LiveIn(bs, b);
    LiveIn(Coalesce(bs), b);
  }

  lemma StretchAfter(sizes0: map<Addr, nat>, sizes: map<Addr, nat>, objects: set<Addr>, live: set<Addr>, from: nat,
                     end: nat)
    requires Placed(sizes0, objects, {}, from, end) && live <= objects && Tiled(sizes, from, end)
    requires Walk(sizes, live, from, end) == Coalesce(Walk(sizes0, live, from, end))
    ensures Placed(sizes, live, {}, from, end)
  {
    hide Coalesce, Walk, Tiled, HasBlock;
    PlacedAlive(sizes0, objects, live, from, end);
    forall a | a in live && from <= a < end ensures HasBlock(Walk(sizes, {}, from, end), a) {
      StillThere(sizes0, sizes, live, from, end, a);
      SameWalk(sizes, live, {}, from, end, a);
    }
  }

  /** A heap is laid out for some of its objects if it is for all of them. */
  lemma FewerObjects(sizes: map<Addr, nat>, objects: set<Addr>, fewer: set<Addr>, newStart: nat, top: nat,
                     rs: seq<Region>)
    requires LaidOut(sizes, objects, newStart, top, rs) && fewer <= objects
    ensures LaidOut(sizes, fewer, newStart, top, rs)
  {
    hide Tiled, HasBlock, Walk;
  }

  /** After a sweep the heap is laid out as it should be, with the live objects only. */
  lemma LaidOutAfter(sizes0: map<Addr, nat>, sizes: map<Addr, nat>, mem0: Memory, mem: Memory, live: set<Addr>,
                     marks: set<Addr>, newStart: nat, top: nat, rs: seq<Region>)
    requires SweptTo(sizes0, sizes, mem0, mem, live, marks, newStart, top, rs, |rs|)
    requires LaidOut(sizes0, mem0.Keys + live, newStart, top, rs)
    ensures marks == {} && mem == (map a | a in mem0 && a in live :: mem0[a])
    ensures LaidOut(sizes, live, newStart, top, Kept(sizes0, live, rs))
  {
    hide Walk, Coalesce, Tiled, HasBlock, InUse, Blocks, Placed;
    assert rs[..|rs|] == rs;
    KeptApart(sizes0, live, newStart, top, rs);
    StretchAfter(sizes0, sizes, mem0.Keys + live, live, newStart, top);
    var kept := Kept(sizes0, live, rs);
    forall i | 0 <= i < |kept| ensures Placed(sizes, live, {}, kept[i].start, kept[i].end) {
      KeptIn(sizes0, live, rs, kept[i]);
      var j :| 0 <= j < |rs| && rs[j] == kept[i];
      assert RegionSwept(sizes0, sizes, live, rs[j]);
      StretchAfter(sizes0, sizes, mem0.Keys + live, live, rs[j].start, rs[j].end);
    }
    forall a | a in live ensures Covered(a, newStart, top, kept) {
      assert Covered(a, newStart, top, rs);
      if !(newStart <= a < top) {
        var r :| r in rs && r.start <= a < r.end;
        var j :| 0 <= j < |rs| && rs[j] == r;
        LiveRegion(sizes0, mem0.Keys + live, live, r, a);
        KeptIn(sizes0, live, rs, r);
      }
    }
  }

  lemma LiveRegion(sizes: map<Addr, nat>, objects: set<Addr>, live: set<Addr>, r: Region, a: Addr)
    requires Placed(sizes, objects, {}, r.start, r.end) && live <= objects && a in live && r.start <= a < r.end
    ensures InUse(Blocks(sizes, live, r))
  {
    PlacedAlive(sizes, objects, live, r.start, r.end);
    StartsFrom(sizes, live, r.start, r.end);
  }
}
