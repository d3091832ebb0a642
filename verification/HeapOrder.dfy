/** The order of the hole index by size: kept by unaligned allocation, kept by aligned allocation and by release
    exactly in some cases. */
module HeapOrder {
  import opened Machine
  import opened Memory
  import opened OrderedArrays
  import opened HeapModel
  import opened HeapTiling
  import opened HeapProofs
  import opened HeapSafety
  import opened HeapAligned
  import opened HeapLimits

  /** The key the index is sorted by. */
  function SizeKey(m: Bytes): int -> int {
    a => SizeAt(m, a)
  }

  ghost predicate Ordered(m: Bytes, index: seq<int>) {
    InOrder(index, SizeKey(m))
  }

  lemma OrderedAt(m: Bytes, s: seq<int>)
    ensures Ordered(m, s) <==> forall i, j :: 0 <= i < j < |s| ==> SizeAt(m, s[i]) <= SizeAt(m, s[j])
  {
    hide SizeAt;
    if Ordered(m, s) {
      forall i, j | 0 <= i < j < |s|
        ensures SizeAt(m, s[i]) <= SizeAt(m, s[j])
      {
        assert SizeKey(m)(s[i]) <= SizeKey(m)(s[j]);
      }
    }
  }

  /** `find_smallest_hole` deserves its name on an ordered index. */
  lemma SmallestFit(h: Heap, need: int, j: nat)
    requires Ordered(h.mem, h.index)
    requires j < |h.index| && SizeAt(h.mem, h.index[j]) >= need
    ensures var i := FindFrom(h.mem, h.index, need, false, 0);
            i < |h.index| && SizeAt(h.mem, h.index[i]) >= need && SizeAt(h.mem, h.index[i]) <= SizeAt(h.mem, h.index[j])
  {
    hide SizeAt, Ordered;
    OrderedAt(h.mem, h.index);
    assert Fits(h.mem, h.index[j], need, false);
  }

  lemma OrderedInsert(m: Bytes, s: seq<int>, capacity: nat, item: int)
    requires Ordered(m, s)
    ensures Ordered(m, Inserted(s, capacity, item, SizeLess(m)))
  {
    hide SizeAt, Inserted;
    InsertedInOrder(s, capacity, item, SizeLess(m), SizeKey(m));
  }

  lemma OrderedFrame(m: Bytes, m': Bytes, s: seq<int>)
    requires Ordered(m, s) && forall a :: a in s ==> SizeAt(m', a) == SizeAt(m, a)
    ensures Ordered(m', s)
  {
    hide SizeAt, Ordered;
    OrderedAt(m, s);
    OrderedAt(m', s);
  }

  /** Index entries other than slot `i` are the holes on either side of that slot's block. */
  lemma OtherEntries(h: Heap, bs: seq<Block>, i: nat, k: nat, a: int)
    requires Tiled(h, bs) && i < |h.index| && k < |bs| && bs[k].hole && bs[k].addr == h.index[i]
    requires a in Removed(h.index, i)
    ensures a + HEADER <= bs[k].addr || bs[k].End() <= a
  {
    hide Addrs, AllTagged, UntaggedBelow, Chain, Removed;
    SplitAt(h, bs, k);
    IndexWithout(h, bs[..k], bs[k], bs[k + 1..], i);
    ChainSplit(bs, k, h.start, h.end);
    assert a in multiset(Removed(h.index, i));
    if a in Addrs(bs[..k], true) {
      var j := Locate(bs[..k], true, a);
      ChainWithin(bs[..k], h.start, bs[k].addr, j);
    } else {
      var j := Locate(bs[k + 1..], true, a);
      ChainWithin(bs[k + 1..], bs[k].End(), h.end, j);
    }
  }

  /** Carving keeps the order if the index is ordered without the slot being used. */
  lemma CarveOrdered(h: Heap, bs: seq<Block>, i: nat, size: int)
    requires Tiled(h, bs) && 0 <= size && i < |h.index| && Fits(h.mem, h.index[i], size + OVERHEAD, false)
    requires Ordered(h.mem, Removed(h.index, i))
    ensures var h' := Carve(h, i, size, false).0; Ordered(h'.mem, h'.index)
  {
    hide Addrs, AllTagged, UntaggedBelow, Chain, Removed, Inserted, At, WriteHeader, WriteFooter, Ordered,
      SameOutside, Tiled, Load32;
    var k := CarveTiled(h, bs, i, size);
    var h' := Carve(h, i, size, false).0;
    forall a | a in Removed(h.index, i)
      ensures SizeAt(h'.mem, a) == SizeAt(h.mem, a)
    {
      OtherEntries(h, bs, i, k, a);
      LoadFrame(h.mem, h'.mem, bs[k].addr, bs[k].End(), a + 4);
    }
    OrderedFrame(h.mem, h'.mem, Removed(h.index, i));
    var rest := h.index[i] + Taken(SizeAt(h.mem, h.index[i]), size + OVERHEAD);
    OrderedInsert(h'.mem, Removed(h.index, i), h.capacity, rest);
  }

  lemma RemovedOrdered(m: Bytes, s: seq<int>, i: nat)
    requires Ordered(m, s)
    ensures Ordered(m, Removed(s, i))
  {
    RemovedInOrder(s, i, SizeKey(m));
  }

  /** Growing a hole in place may break the order, but only around the slot the retry then removes. */
  lemma GrowthOrdered(h: Heap, bs: seq<Block>, need: int)
    requires Tiled(h, bs) && GrowGuard(h, need) && !SomeHoleFits(h, need) && Ordered(h.mem, h.index)
    requires Highest(h.index).found && TopTouchesEnd(h)
    ensures var g := Grow(h, need);
            var j := FindFrom(g.mem, g.index, need, false, 0);
            j < |g.index| && Ordered(g.mem, Removed(g.index, j))
  {
    hide Addrs, AllTagged, UntaggedBelow, Chain, Removed, Ordered, Grow, SizeAt, Highest, NoWrap, GrownEnd;
    var k := TopGrows(h, bs, need);
    RetryTakesTop(h, bs, need, k);
    var g := Grow(h, need);
    var j := FindFrom(g.mem, g.index, need, false, 0);
    OthersOrdered(h, bs, need, k, j);
  }

  /** The other entries keep their sizes when a hole grows. */
  lemma OthersSame(h: Heap, bs: seq<Block>, need: int, k: nat, j: nat)
    requires Tiled(h, bs) && GrowGuard(h, need) && Highest(h.index).found
    requires k < |bs| && bs[k].hole && bs[k].addr == Highest(h.index).value && j < |h.index| && h.index[j] == bs[k].addr
    ensures var g := Grow(h, need);
            && g.index == h.index
            && (forall a :: a in Removed(h.index, j) ==> SizeAt(g.mem, a) == SizeAt(h.mem, a))
            && (forall i :: 0 <= i < |h.index| && i != j ==> SizeAt(g.mem, h.index[i]) == SizeAt(h.mem, h.index[i]))
            && SizeAt(g.mem, bs[k].addr) == SizeAt(h.mem, bs[k].addr) + Growth(h, need)
  {
    hide Addrs, AllTagged, UntaggedBelow, Chain, Removed, Grow, SizeAt, Highest, NoWrap, GrownEnd;
    var k' := TopGrows(h, bs, need);
    ChainWithin(bs, h.start, h.end, k);
    var g := Grow(h, need);
    GrownSizes(h, need, bs[k].addr - HEADER);
    forall a | a in Removed(h.index, j)
      ensures SizeAt(g.mem, a) == SizeAt(h.mem, a)
    {
      OtherEntries(h, bs, j, k, a);
      EntryBelowTop(h, j, a);
      GrownSizes(h, need, a);
    }
    forall i | 0 <= i < |h.index| && i != j
      ensures SizeAt(g.mem, h.index[i]) == SizeAt(h.mem, h.index[i])
    {
      RemovedHas(h.index, j, i);
    }
  }

  /** Without the hole that grew, the index stays ordered. */
  lemma OthersOrdered(h: Heap, bs: seq<Block>, need: int, k: nat, j: nat)
    requires Tiled(h, bs) && GrowGuard(h, need) && Highest(h.index).found && Ordered(h.mem, h.index)
    requires k < |bs| && bs[k].hole && bs[k].addr == Highest(h.index).value && j < |h.index| && h.index[j] == bs[k].addr
    ensures Ordered(Grow(h, need).mem, Removed(Grow(h, need).index, j))
  {
    hide Tiled, Removed, Ordered, Grow, SizeAt, Highest, NoWrap, GrownEnd;
    OthersSame(h, bs, need, k, j);
    RemovedOrdered(h.mem, h.index, j);
    OrderedFrame(h.mem, Grow(h, need).mem, Removed(h.index, j));
  }

  lemma RemovedHas(s: seq<int>, t: nat, i: nat)
    requires t < |s| && i < |s| && i != t
    ensures s[i] in Removed(s, t)
  {
    var r := Removed(s, t);
    assert s[i] == r[if i < t then i else i - 1];
  }

  lemma EntryBelowTop(h: Heap, j: nat, a: int)
    requires a in Removed(h.index, j)
    ensures a <= Highest(h.index).value
  {
    assert a in h.index;
  }

  /** Unaligned allocation takes an ordered index to an ordered index, also through an expansion. */
  lemma AllocateOrdered(h: Heap, live: map<int, int>, size: int)
    requires Sound(h, live) && MallocGuard(h, size) && Ordered(h.mem, h.index)
    ensures var h' := Allocate(h, size, false, 0).0; Ordered(h'.mem, h'.index)
  {
    hide Ordered, Fits, Grow, Carve, Removed, Tiled, TopTouchesEnd, NoWrap, Highest, Need;
    NeedFits(size);
    var bs: seq<Block> :| Tiled(h, bs) && Serves(bs, live);
    var need := Need(size);
    var i := FindFrom(h.mem, h.index, need, false, 0);
    if i < |h.index| {
      RemovedOrdered(h.mem, h.index, i);
      CarveOrdered(h, bs, i, size);
    } else if !OverLimit(h, need) {
      var g := Grow(h, need);
      var j := FindFrom(g.mem, g.index, need, false, 0);
      if Highest(h.index).found {
        GrowthOrdered(h, bs, need);
        GrowLast(h, bs, need);
        var b := bs[|bs| - 1];
        CarveOrdered(g, bs[..|bs| - 1] + [Block(b.addr, g.end - b.addr, true)], j, size);
      } else {
        GrowFresh(h, bs, need);
        LastFits(g, bs + [Block(h.end, g.end - h.end, true)], need);
        OneLeft(g.mem, g.index, j);
        CarveOrdered(g, bs + [Block(h.end, g.end - h.end, true)], j, size);
      }
    }
  }

  lemma OneLeft(m: Bytes, s: seq<int>, i: nat)
    requires |s| == 1 && i < |s|
    ensures Ordered(m, Removed(s, i))
  {
  }

  /** One entry changes its size, and the rest are ordered: the order holds iff the entry fits between its
      neighbours. */
  lemma ResizedEntryOrder(m: Bytes, m': Bytes, s: seq<int>, t: nat, size: int)
    requires t < |s| && Ordered(m, Removed(s, t)) && SizeAt(m', s[t]) == size
    requires forall j :: 0 <= j < |s| && j != t ==> SizeAt(m', s[j]) == SizeAt(m, s[j])
    ensures Ordered(m', s) <==> (t > 0 ==> SizeAt(m, s[t - 1]) <= size) && (t + 1 < |s| ==> size <= SizeAt(m, s[t + 1]))
  {
    hide SizeAt, Ordered;
    OrderedAt(m, Removed(s, t));
    OrderedAt(m', s);
    if (t > 0 ==> SizeAt(m, s[t - 1]) <= size) && (t + 1 < |s| ==> size <= SizeAt(m, s[t + 1])) {
      forall i, j | 0 <= i < j < |s|
        ensures SizeAt(m', s[i]) <= SizeAt(m', s[j])
      {
        ResizedPair(m, s, t, size, i, j);
      }
    }
  }

  lemma ResizedPair(m: Bytes, s: seq<int>, t: nat, size: int, i: nat, j: nat)
    requires t < |s| && i < j < |s|
    requires var r := Removed(s, t); forall x, y :: 0 <= x < y < |r| ==> SizeAt(m, r[x]) <= SizeAt(m, r[y])
    requires (t > 0 ==> SizeAt(m, s[t - 1]) <= size) && (t + 1 < |s| ==> size <= SizeAt(m, s[t + 1]))
    ensures i != t && j != t ==> SizeAt(m, s[i]) <= SizeAt(m, s[j])
    ensures i == t ==> size <= SizeAt(m, s[j])
    ensures j == t ==> SizeAt(m, s[i]) <= size
  {
    hide SizeAt;
    var r := Removed(s, t);
    assert forall x :: 0 <= x < |s| && x != t ==> s[x] == r[if x < t then x else x - 1];
  }

  // ---- page-aligned allocation ----

  /** The front gap of the hole in slot `i` is between its neighbours in size. */
  predicate GapInOrder(h: Heap, i: nat)
    requires i < |h.index|
  {
    var gap := FrontGap(h.index[i]);
    && (i > 0 ==> SizeAt(h.mem, h.index[i - 1]) <= gap)
    && (i + 1 < |h.index| ==> gap <= SizeAt(h.mem, h.index[i + 1]))
  }

  /** Inserting by size neither repairs an index nor spoils it. */
  lemma InsertedOrderedIff(m: Bytes, s: seq<int>, capacity: nat, item: int)
    ensures Ordered(m, Inserted(s, capacity, item, SizeLess(m))) <==> Ordered(m, s)
  {
    hide SizeAt, Ordered, Inserted;
    if Ordered(m, s) {
      OrderedInsert(m, s, capacity, item);
    } else {
      OrderedAt(m, s);
      var i, j :| 0 <= i < j < |s| && SizeAt(m, s[i]) > SizeAt(m, s[j]);
      var t := Inserted(s, capacity, item, SizeLess(m));
      OrderedAt(m, t);
      var x, y := InsertedPair(s, capacity, item, SizeLess(m), i, j);
      assert SizeAt(m, t[x]) > SizeAt(m, t[y]);
    }
  }

  /** Where two elements are after an insertion: in the same order. */
  lemma InsertedPair(s: seq<int>, capacity: nat, item: int, less: Less, i: nat, j: nat) returns (x: nat, y: nat)
    requires i < j < |s|
    ensures var t := Inserted(s, capacity, item, less); x < y < |t| && t[x] == s[i] && t[y] == s[j]
  {
    var p := Slot(s, item, less, 0, |s|);
    x, y := i, j;
    if |s| < capacity {
      x := if i < p then i else i + 1;
      y := if j < p then j else j + 1;
    }
  }

  /** The front hole keeps the slot of the hole it came from: the order survives exactly if it belongs there. */
  lemma AlignedCarveOrdered(h: Heap, bs: seq<Block>, k: nat, size: int)
    requires Tiled(h, bs) && k < |bs| && bs[k].hole && AlignedGuard(h, size)
    requires bs[k].addr == h.index[FindFrom(h.mem, h.index, Need(size), true, 0)]
    requires Ordered(h.mem, Removed(h.index, FindFrom(h.mem, h.index, Need(size), true, 0)))
    ensures var h' := Allocate(h, size, true, 0).0;
            Ordered(h'.mem, h'.index) <==> GapInOrder(h, FindFrom(h.mem, h.index, Need(size), true, 0))
  {
    hide Addrs, AllTagged, UntaggedBelow, Chain, Removed, Inserted, Ordered, SameOutside, Allocate, Fits, Need, SizeAt,
      AlignedMid, PlaceBlock, GapHeap;
    var i := FindFrom(h.mem, h.index, Need(size), true, 0);
    var b := bs[k];
    var gap, taken := FrontGap(b.addr), size + OVERHEAD;
    assert b.size == SizeAt(h.mem, b.addr) by { HeaderOfBlock(h, bs, k); }
    AlignedResult(h, i, b, size);
    ChainWithin(bs, h.start, h.end, k);
    AlignedSplice(h, bs, k, gap, taken);
    var h' := PlaceBlock(GapHeap(h, b, gap), b.addr + gap, b.size - gap, taken);
    var bs' := bs[..k] + AlignedMid(b, gap, taken) + bs[k + 1..];
    assert bs'[k] == Block(b.addr, gap, true) by { FrontFirst(b, gap, taken); }
    HeaderOfBlock(h', bs', k);
    forall j | 0 <= j < |h.index| && j != i
      ensures SizeAt(h'.mem, h.index[j]) == SizeAt(h.mem, h.index[j])
    {
      EntryElsewhere(h, bs, k, i, j);
      SameSize(h.mem, h'.mem, b.addr, b.End(), h.index[j]);
    }
    ResizedEntryOrder(h.mem, h'.mem, h.index, i, gap);
    PlacedIndex(h, b, gap, taken);
    if h'.index != h.index {
      InsertedOrderedIff(h'.mem, h.index, h.capacity, b.addr + gap + taken);
    }
  }

  lemma FrontFirst(b: Block, gap: int, taken: int)
    ensures |AlignedMid(b, gap, taken)| > 0 && AlignedMid(b, gap, taken)[0] == Block(b.addr, gap, true)
  {
  }

  lemma HeaderOfBlock(h: Heap, bs: seq<Block>, k: nat)
    requires Tiled(h, bs) && k < |bs|
    ensures SizeAt(h.mem, bs[k].addr) == bs[k].size
  {
    hide Chain, Addrs, UntaggedBelow;
    TaggedAt(h, bs, k);
  }

  lemma SameSize(m: Bytes, m': Bytes, lo: int, hi: int, a: int)
    requires SameOutside(m, m', lo, hi) && (a + HEADER <= lo || hi <= a)
    ensures SizeAt(m', a) == SizeAt(m, a)
  {
    LoadFrame(m, m', lo, hi, a + 4);
  }

  lemma PlacedIndex(h: Heap, b: Block, gap: int, taken: int)
    ensures var h' := PlaceBlock(GapHeap(h, b, gap), b.addr + gap, b.size - gap, taken);
            h'.index == h.index || h'.index == Inserted(h.index, h.capacity, b.addr + gap + taken, SizeLess(h'.mem))
  {
    hide WriteHeader, WriteFooter, Inserted;
  }

  /** An aligned request served from a hole keeps an ordered index ordered exactly when the entry before that hole is
      no larger than the front gap. */
  lemma AlignedOrderedIff(h: Heap, live: map<int, int>, size: int)
    requires Sound(h, live) && AlignedGuard(h, size) && Ordered(h.mem, h.index)
    ensures var h' := Allocate(h, size, true, 0).0;
            var i := FindFrom(h.mem, h.index, Need(size), true, 0);
            Ordered(h'.mem, h'.index) <==> (i > 0 ==> SizeAt(h.mem, h.index[i - 1]) <= FrontGap(h.index[i]))
  {
    hide Ordered, Allocate, Fits, Need, SizeAt, Removed, FrontGap, Tiled;
    var bs: seq<Block> :| Tiled(h, bs) && Serves(bs, live);
    var i := FindFrom(h.mem, h.index, Need(size), true, 0);
    var k := HoleOf(h, bs, i);
    RemovedOrdered(h.mem, h.index, i);
    AlignedCarveOrdered(h, bs, k, size);
    OrderedAt(h.mem, h.index);
  }

  /** An aligned request that expands the heap keeps an ordered index ordered exactly when what is left of the grown
      hole, its front gap or, if nothing could be cut, all of it, belongs in its slot. */
  lemma AlignedExpansionOrderedIff(h: Heap, live: map<int, int>, size: int)
    requires Sound(h, live) && Ordered(h.mem, h.index) && 0 <= size && size + OVERHEAD < WORD
    requires !AlignedFits(h, Need(size)) && !OverLimit(h, Need(size)) && AlignedExpansionGuard(h, size)
    ensures var h' := Allocate(h, size, true, 0).0;
            var g := Grow(h, Need(size));
            Ordered(h'.mem, h'.index) <==>
              if AlignedFits(g, Need(size)) then GapInOrder(g, FindFrom(g.mem, g.index, Need(size), true, 0))
              else GrownInOrder(h, Need(size))
  {
    hide Ordered, Allocate, Fits, SizeAt, Removed, FrontGap, Tiled, Grow, TopTouchesEnd, NoWrap, Highest, GapInOrder,
      GrownInOrder, AlignedGuard, Need;
    NeedFits(size);
    var need := size + OVERHEAD;
    var bs: seq<Block> :| Tiled(h, bs) && Serves(bs, live);
    AlignedRetryIs(h, size);
    var g := Grow(h, need);
    if Highest(h.index).found {
      var k := TopGrows(h, bs, need);
      GrownOrderedIff(h, bs, need, k);
      if AlignedFits(g, Need(size)) {
        var j := FindFrom(g.mem, g.index, Need(size), true, 0);
        GrowLast(h, bs, need);
        AlignedTopTaken(h, bs, need, k, Need(size));
        OthersOrdered(h, bs, need, k, j);
        var bs' := bs[..|bs| - 1] + [Block(bs[|bs| - 1].addr, g.end - bs[|bs| - 1].addr, true)];
        AlignedCarveOrdered(g, bs', |bs| - 1, size);
      }
    } else {
      GrowFresh(h, bs, need);
      FreshInOrder(h, need);
      if AlignedFits(g, Need(size)) {
        OneLeft(g.mem, g.index, 0);
        AlignedCarveOrdered(g, bs + [Block(h.end, g.end - h.end, true)], |bs|, size);
      }
    }
  }

  /** The hole that grew is no larger than the next entry of the index. */
  predicate GrownInOrder(h: Heap, need: int) {
    var top := Highest(h.index);
    top.found && top.slot + 1 < |h.index| ==>
      SizeAt(h.mem, top.value) + Growth(h, need) <= SizeAt(h.mem, h.index[top.slot + 1])
  }

  lemma FreshInOrder(h: Heap, need: int)
    requires !Highest(h.index).found && |Grow(h, need).index| == 1
    ensures GrownInOrder(h, need) && Ordered(Grow(h, need).mem, Grow(h, need).index)
  {
    hide Grow, SizeAt, GrownEnd;
  }

  /** Growth by itself keeps the order exactly if the grown hole is no larger than the next entry. */
  lemma GrownOrderedIff(h: Heap, bs: seq<Block>, need: int, k: nat)
    requires Tiled(h, bs) && GrowGuard(h, need) && Highest(h.index).found && Ordered(h.mem, h.index)
    requires k < |bs| && bs[k].hole && bs[k].addr == Highest(h.index).value
    ensures var g := Grow(h, need); Ordered(g.mem, g.index) <==> GrownInOrder(h, need)
  {
    hide Ordered, SizeAt, Removed, Tiled, Grow, NoWrap, Highest, GrownEnd;
    var t := Highest(h.index).slot;
    OthersSame(h, bs, need, k, t);
    GrownEntryOrder(h.mem, Grow(h, need).mem, h.index, t, SizeAt(h.mem, bs[k].addr) + Growth(h, need));
  }

  /** A hole that fits only after the growth is the one that grew. */
  lemma AlignedTopTaken(h: Heap, bs: seq<Block>, need: int, k: nat, want: int)
    requires Tiled(h, bs) && GrowGuard(h, need) && Highest(h.index).found
    requires k < |bs| && bs[k].hole && bs[k].addr == Highest(h.index).value
    requires !AlignedFits(h, want) && AlignedFits(Grow(h, need), want)
    ensures var g := Grow(h, need);
            g.index == h.index && g.index[FindFrom(g.mem, g.index, want, true, 0)] == bs[k].addr
  {
    hide Ordered, Removed, Tiled, Grow, NoWrap, Highest, GrownEnd, Load32;
    var g := Grow(h, need);
    var t := Highest(h.index).slot;
    OthersSame(h, bs, need, k, t);
    assert forall i :: 0 <= i < |h.index| && i != t ==> !Fits(g.mem, h.index[i], want, true);
  }

  // ---- free ----

  /** What a caller can check: a left merge leaves the grown hole no larger than its successor in the index. */
  predicate MergeKeepsOrder(h: Heap, p: int) {
    var a := p - HEADER;
    var left := Load32(h.mem, a - FOOTER + 4);
    if LeftTest(h.mem, a) then
      var t := SlotOf(h.index, left, 0);
      t + 1 < |h.index| ==> SizeAt(h.mem, left) + SizeAt(h.mem, a) <= SizeAt(h.mem, h.index[t + 1])
    else true
  }

  /** One entry grows and the rest keep their sizes: the order survives iff the next entry is as large. */
  lemma GrownEntryOrder(m: Bytes, m': Bytes, s: seq<int>, t: nat, size: int)
    requires Ordered(m, s) && t < |s| && SizeAt(m', s[t]) == size >= SizeAt(m, s[t])
    requires forall j :: 0 <= j < |s| && j != t ==> SizeAt(m', s[j]) == SizeAt(m, s[j])
    ensures Ordered(m', s) <==> (t + 1 < |s| ==> size <= SizeAt(m, s[t + 1]))
  {
    hide SizeAt, Ordered, Removed;
    OrderedAt(m, s);
    RemovedOrdered(m, s, t);
    ResizedEntryOrder(m, m', s, t, size);
  }

  lemma FreePlainOrdered(h: Heap, bs: seq<Block>, k: nat)
    requires Tiled(h, bs) && k < |bs| && !bs[k].hole && !(k > 0 && bs[k - 1].hole)
    requires Unallocate(h, bs[k].addr + HEADER).Freed? && !Swallows(h.mem, bs[k].End() - FOOTER)
    requires |h.index| < h.capacity && Ordered(h.mem, h.index)
    ensures var h' := Unallocate(h, bs[k].addr + HEADER).heap; Ordered(h'.mem, h'.index)
  {
    hide Addrs, AllTagged, UntaggedBelow, Chain, Inserted, Ordered, Unallocate, SameOutside, Swallows, Load32;
    FreePlain(h, bs, k);
    var h' := Unallocate(h, bs[k].addr + HEADER).heap;
    forall a | a in h.index
      ensures SizeAt(h'.mem, a) == SizeAt(h.mem, a)
    {
      EntryClear(h, bs, k, a);
      LoadFrame(h.mem, h'.mem, bs[k].addr, bs[k].End(), a + 4);
    }
    OrderedFrame(h.mem, h'.mem, h.index);
    OrderedInsert(h'.mem, h.index, h.capacity, bs[k].addr);
  }

  /** An indexed hole lies clear of a used block. */
  lemma EntryClear(h: Heap, bs: seq<Block>, k: nat, a: int)
    requires Tiled(h, bs) && k < |bs| && !bs[k].hole && a in h.index
    ensures a + HEADER <= bs[k].addr || bs[k].End() <= a
  {
    hide Addrs, AllTagged, UntaggedBelow, Chain;
    var i :| 0 <= i < |h.index| && h.index[i] == a;
    var j := HoleOf(h, bs, i);
    OthersClear(bs, h.start, h.end, k);
    assert bs[j] in bs && bs[j] != bs[k];
  }

  lemma FreeMergeOrderedIff(h: Heap, bs: seq<Block>, k: nat)
    requires Tiled(h, bs) && 0 < k < |bs| && !bs[k].hole && bs[k - 1].hole
    requires Unallocate(h, bs[k].addr + HEADER).Freed? && !Swallows(h.mem, bs[k].End() - FOOTER)
    requires Ordered(h.mem, h.index)
    ensures var h' := Unallocate(h, bs[k].addr + HEADER).heap;
            var t := SlotOf(h.index, bs[k - 1].addr, 0);
            && t < |h.index|
            && (Ordered(h'.mem, h'.index)
                <==> (t + 1 < |h.index| ==> bs[k - 1].size + bs[k].size <= SizeAt(h.mem, h.index[t + 1])))
  {
    hide Addrs, AllTagged, UntaggedBelow, Chain, Ordered, Unallocate, SameOutside, Swallows, Load32;
    var l, b := bs[k - 1], bs[k];
    FreeMerge(h, bs, k);
    var h' := Unallocate(h, b.addr + HEADER).heap;
    IndexedHole(h, bs, k - 1);
    var t := SlotOf(h.index, l.addr, 0);
    assert t < |h.index|;
    assert SizeAt(h'.mem, l.addr) == l.size + b.size && SizeAt(h.mem, l.addr) == l.size by {
      assert FreedBlocks(bs, k)[k - 1] == Block(l.addr, l.size + b.size, true);
      TaggedAt(h', FreedBlocks(bs, k), k - 1);
      TaggedAt(h, bs, k - 1);
    }
    SplitPair(h, bs, k);
    forall j | 0 <= j < |h.index| && j != t
      ensures SizeAt(h'.mem, h.index[j]) == SizeAt(h.mem, h.index[j])
    {
      EntryElsewhere(h, bs, k - 1, t, j);
      EntryClear(h, bs, k, h.index[j]);
      LoadFrame(h.mem, h'.mem, l.addr, b.End(), h.index[j] + 4);
    }
    GrownEntryOrder(h.mem, h'.mem, h.index, t, l.size + b.size);
  }

  lemma EntryElsewhere(h: Heap, bs: seq<Block>, k: nat, t: nat, j: nat)
    requires Tiled(h, bs) && k < |bs| && bs[k].hole && t < |h.index| && h.index[t] == bs[k].addr
    requires j < |h.index| && j != t
    ensures h.index[j] + HEADER <= bs[k].addr || bs[k].End() <= h.index[j]
  {
    hide Tiled;
    RemovedHas(h.index, t, j);
    OtherEntries(h, bs, t, k, h.index[j]);
  }

  /** Freeing keeps an ordered index ordered exactly when it merges nothing on the left, or the merged hole
      is no larger than the next entry. */
  lemma FreeOrderedIff(h: Heap, live: map<int, int>, p: int)
    requires Sound(h, live) && p in live && FreeGuard(h, p) && Ordered(h.mem, h.index)
    ensures Unallocate(h, p).Freed?
    ensures var h' := Unallocate(h, p).heap; Ordered(h'.mem, h'.index) <==> MergeKeepsOrder(h, p)
  {
    hide Addrs, AllTagged, UntaggedBelow, Chain, Ordered, Unallocate, Swallows, Load32, LeftTest;
    ReleaseReturns(h, live, p);
    var bs: seq<Block> :| Tiled(h, bs) && Serves(bs, live);
    var k := UsedOf(bs, live, p);
    TaggedAt(h, bs, k);
    LeftTestIff(h, bs, k);
    BelowBlock(h, bs, k);
    if k > 0 && bs[k - 1].hole {
      SplitPair(h, bs, k);
      FreeMergeOrderedIff(h, bs, k);
    } else {
      FreePlainOrdered(h, bs, k);
    }
  }
}
