/** Exactly when `allocate` and `unallocate` keep the heap sound. */
module HeapLimits {
  import opened Machine
  import opened Memory
  import opened OrderedArrays
  import opened HeapModel
  import opened HeapTiling
  import opened HeapProofs
  import opened HeapSafety
  import opened HeapRuns

  // ---- where blocks start ----

  /** Two blocks that start at different addresses do not overlap. */
  lemma StartsApart(bs: seq<Block>, lo: int, hi: int, j: nat, k: nat)
    requires Chain(bs, lo, hi) && j < |bs| && k < |bs| && bs[j].addr < bs[k].addr
    ensures bs[j].End() <= bs[k].addr && bs[j].size >= OVERHEAD
  {
    hide Chain;
    ChainWithin(bs, lo, hi, j);
    ChainWithin(bs, lo, hi, k);
    if j < k {
      ChainDisjoint(bs, lo, hi, j, k);
    } else if k < j {
      ChainDisjoint(bs, lo, hi, k, j);
    }
  }

  /** Two starts coincide only if they are one block. */
  lemma OneStart(bs: seq<Block>, lo: int, hi: int, j: nat, k: nat)
    requires Chain(bs, lo, hi) && j < |bs| && k < |bs| && bs[j].addr == bs[k].addr
    ensures j == k
  {
    hide Chain;
    ChainWithin(bs, lo, hi, j);
    ChainWithin(bs, lo, hi, k);
    if j < k {
      ChainDisjoint(bs, lo, hi, j, k);
    } else if k < j {
      ChainDisjoint(bs, lo, hi, k, j);
    }
  }

  /** An indexed hole, or a block some caller holds, starts a block of the tiling. */
  lemma StartOf(h: Heap, live: map<int, int>, bs: seq<Block>, a: int) returns (j: nat)
    requires Tiled(h, bs) && Serves(bs, live) && (a in h.index || a + HEADER in live)
    ensures j < |bs| && bs[j].addr == a && SizeAt(h.mem, a) == bs[j].size
  {
    hide Chain, Addrs, UntaggedBelow;
    if a in h.index {
      var i :| 0 <= i < |h.index| && h.index[i] == a;
      j := HoleOf(h, bs, i);
    } else {
      j := UsedOf(bs, live, a + HEADER);
    }
    TaggedAt(h, bs, j);
  }

  lemma Indexed(h: Heap, live: map<int, int>, bs: seq<Block>, k: nat)
    requires Tiled(h, bs) && Serves(bs, live) && k < |bs|
    ensures bs[k].addr in h.index || bs[k].addr + HEADER in live
  {
    hide Chain, Addrs, AllTagged, UntaggedBelow;
    if bs[k].hole {
      IndexedHole(h, bs, k);
    } else {
      assert bs[k] in bs;
    }
  }

  lemma FirstStart(bs: seq<Block>, lo: int, hi: int)
    requires Chain(bs, lo, hi) && bs != []
    ensures bs[0].addr == lo
  {
  }

  lemma LastEnds(bs: seq<Block>, lo: int, hi: int)
    requires Chain(bs, lo, hi) && bs != []
    ensures bs[|bs| - 1].End() == hi
  {
    ChainSplit(bs, |bs| - 1, lo, hi);
  }

  // ---- expansion ----

  /** The block above the highest hole, when that hole does not end the heap, is in use. */
  lemma AboveTop(h: Heap, bs: seq<Block>) returns (k: nat)
    requires Tiled(h, bs) && Highest(h.index).found && !TopTouchesEnd(h)
    ensures k + 1 < |bs| && bs[k].hole && !bs[k + 1].hole
    ensures bs[k].addr == Highest(h.index).value && bs[k + 1].addr == bs[k].End()
    ensures SizeAt(h.mem, bs[k].addr) == bs[k].size && bs[k].size >= OVERHEAD && bs[k + 1].size >= OVERHEAD
  {
    hide Addrs, AllTagged, UntaggedBelow, SizeAt, Highest;
    k := HoleOf(h, bs, Highest(h.index).slot);
    ChainSplit(bs, k, h.start, h.end);
    assert k + 1 < |bs|;
    SplitPair(h, bs, k + 1);
    if bs[k + 1].hole {
      IndexedHole(h, bs, k + 1);
      assert false;
    }
  }

  function Growth(h: Heap, need: int): int {
    (GrownEnd(h, need) - h.end) % WORD
  }

  lemma GrownSizes(h: Heap, need: int, a: int)
    requires Highest(h.index).found
    requires var top := Highest(h.index).value;
             OVERHEAD <= SizeAt(h.mem, top) && SizeAt(h.mem, top) + Growth(h, need) < WORD && a + HEADER <= top
    ensures var g := Grow(h, need);
            && g.index == h.index
            && SizeAt(g.mem, a) == SizeAt(h.mem, a)
            && SizeAt(g.mem, Highest(h.index).value) == SizeAt(h.mem, Highest(h.index).value) + Growth(h, need)
  {
    hide At, Store32, WriteFooter, Highest, GrownEnd;
    var top := Highest(h.index).value;
    var size := SizeAt(h.mem, top) + Growth(h, need);
    var m1 := Store32(h.mem, top + 4, size);
    LoadOfStore(h.mem, top + 4, size);
    assert SameOutside(h.mem, m1, top + 4, top + 8) by { StoreFrame(h.mem, top + 4, size); }
    var foot := top + size - FOOTER;
    var m2 := WriteFooter(m1, foot, top);
    FooterAbove(m1, foot, top, foot);
    LoadFrame(h.mem, m1, top + 4, top + 8, a + 4);
    SameLoad(m1, m2, a + 4, foot);
    SameLoad(m1, m2, top + 4, foot);
  }

  lemma FooterAbove(m: Bytes, a: int, header: int, lo: int)
    requires lo <= a
    ensures forall x :: x < lo ==> At(WriteFooter(m, a, header), x) == At(m, x)
  {
    hide Store32, At;
    var m1 := Store32(m, a + 4, header);
    StoreFrame(m, a + 4, header);
    StoreFrame(m1, a, MAGIC);
  }

  lemma SameLoad(m: Bytes, m': Bytes, a: int, lo: int)
    requires a + 4 <= lo && forall x :: x < lo ==> At(m', x) == At(m, x)
    ensures Load32(m', a) == Load32(m, a)
  {
  }

  /** The hole that takes the new bytes, when no sum wraps. */
  lemma TopGrows(h: Heap, bs: seq<Block>, need: int) returns (k: nat)
    requires Tiled(h, bs) && GrowGuard(h, need) && Highest(h.index).found
    ensures k < |bs| && bs[k].hole && bs[k].addr == Highest(h.index).value && SizeAt(h.mem, bs[k].addr) == bs[k].size
    ensures OVERHEAD <= bs[k].size && need <= Growth(h, need) && bs[k].size + Growth(h, need) < WORD
  {
    hide Chain, Addrs, AllTagged, UntaggedBelow, SizeAt, Highest, NoWrap;
    k := HoleOf(h, bs, Highest(h.index).slot);
    ChainOrder(bs, h.start, h.end);
    GrowExact(h, need);
  }

  // ---- sums that wrap ----

  /** An expansion that wraps ends before the request would, or does nothing. */
  lemma WrapsShort(h: Heap, need: int)
    requires PAGE <= h.start <= h.end < WORD && 0 < need < WORD && !NoWrap(h, need)
    ensures GrownEnd(h, need) < h.start + need || GrownEnd(h, need) == h.end
  {
    var length := h.end - h.start + need;
    if length < WORD {
      PageUpFits(length);
    } else if length > WORD {
      assert length % WORD == length - WORD;
      PageUpFits(length - WORD);
    }
  }

  lemma PageUpFits(n: int)
    requires 0 <= n < WORD
    ensures PageUp(n) <= WORD
  {
  }

  /** An expansion that does nothing leaves no hole that fits. */
  lemma StalledGrowth(h: Heap, bs: seq<Block>, need: int)
    requires Tiled(h, bs) && GrownEnd(h, need) == h.end && 0 < need && !SomeHoleFits(h, need)
    ensures var g := Grow(h, need); FindFrom(g.mem, g.index, need, false, 0) == |g.index|
  {
    hide Chain, Addrs, AllTagged, UntaggedBelow, SizeAt, Highest, GrownEnd, Grow, SomeHoleFits;
    var g := Grow(h, need);
    var i := FindFrom(g.mem, g.index, need, false, 0);
    assert Growth(h, need) == 0;
    if i < |g.index| {
      if Highest(h.index).found {
        var k := HoleOf(h, bs, Highest(h.index).slot);
        GrownSizes(h, need, bs[k].addr - HEADER);
        var j := HoleOf(h, bs, i);
        if bs[j].addr != bs[k].addr {
          OthersClear(bs, h.start, h.end, k);
          assert bs[j] in bs && bs[j] != bs[k];
          GrownSizes(h, need, bs[j].addr);
        }
        TooSmall(h, i, need);
      } else {
        NoHoles(h, bs);
        ChainOrder(bs, h.start, h.end);
        FreshSize(h, need, i);
      }
      assert false;
    }
  }

  lemma FreshSize(h: Heap, need: int, i: nat)
    requires h.index == [] && GrownEnd(h, need) == h.end && i < |Grow(h, need).index| && 0 <= h.end < WORD
    ensures SizeAt(Grow(h, need).mem, Grow(h, need).index[i]) == 0
  {
    hide WriteHeader, WriteFooter, GrownEnd, At, Load32;
    var m := WriteHeader(h.mem, h.end, 0, 1);
    HeaderWritten(h.mem, h.end, 0, 1);
    FooterWritten(m, h.end - FOOTER, h.end);
    LoadFrame(m, WriteFooter(m, h.end - FOOTER, h.end), h.end - FOOTER, h.end, h.end + 4);
  }

  /** An allocation that has to expand: no hole fits, and the limit is not in the way. */
  predicate GrowthNeeded(h: Heap, size: int) {
    && 0 <= size < WORD && PAGE <= h.start && 0 < h.capacity
    && !SomeHoleFits(h, Need(size)) && !OverLimit(h, Need(size))
  }

  /** What the expansion leaves behind, whatever the retry answers. */
  lemma RetryEnds(h: Heap, size: int)
    requires GrowthNeeded(h, size)
    ensures var h' := Allocate(h, size, false, 0).0;
            h'.start == h.start && h'.end == GrownEnd(h, Need(size))
    ensures var g := Grow(h, Need(size));
            FindFrom(g.mem, g.index, Need(size), false, 0) == |g.index| ==> Allocate(h, size, false, 0).1 == NULL
  {
    hide GrownEnd, Need, Fits, WriteHeader, WriteFooter, Store32, Inserted, Removed, Highest;
  }

  /** An expansion whose sums wrap serves nobody: it answers NULL, or hands out bytes past the new end. */
  lemma WrappedGrowthUnsound(h: Heap, live: map<int, int>, size: int)
    requires Sound(h, live) && GrowthNeeded(h, size) && size + OVERHEAD < WORD && !NoWrap(h, size + OVERHEAD)
    ensures var (h', p) := Allocate(h, size, false, 0); p == NULL || !Sound(h', live[p := size])
  {
    hide Chain, Addrs, AllTagged, UntaggedBelow, Allocate, Grow, GrownEnd, NoWrap, Need, SomeHoleFits, Load32;
    var bs: seq<Block> :| Tiled(h, bs) && Serves(bs, live);
    ChainOrder(bs, h.start, h.end);
    NeedFits(size);
    var need := size + OVERHEAD;
    WrapsShort(h, need);
    RetryEnds(h, size);
    var (h', p) := Allocate(h, size, false, 0);
    if GrownEnd(h, need) == h.end {
      StalledGrowth(h, bs, need);
    } else if Sound(h', live[p := size]) {
      var bs': seq<Block> :| Tiled(h', bs') && Serves(bs', live[p := size]);
      var k := UsedOf(bs', live[p := size], p);
      ChainWithin(bs', h'.start, h'.end, k);
      assert false;
    }
  }

  /** Growing a hole that does not end the heap hands out memory that is already in use. */
  lemma GrowthOverlaps(h: Heap, live: map<int, int>, size: int)
    requires Sound(h, live) && GrowthNeeded(h, size) && size + OVERHEAD < WORD && NoWrap(h, size + OVERHEAD)
    requires !TopTouchesEnd(h)
    ensures var p := Allocate(h, size, false, 0).1;
            p != NULL && exists q :: q in live && p < q < p + size + OVERHEAD
  {
    hide Addrs, Chain, AllTagged, UntaggedBelow, Grow, Highest, SizeAt, Need, Carve, Allocate, FindFrom, SomeHoleFits,
      NoWrap;
    NeedFits(size);
    var bs: seq<Block> :| Tiled(h, bs) && Serves(bs, live);
    var need := size + OVERHEAD;
    var k := AboveTop(h, bs);
    var b := bs[k];
    var q := bs[k + 1].addr + HEADER;
    assert bs[k + 1] in bs && q in live;
    ChainWithin(bs, h.start, h.end, k);
    TooSmall(h, Highest(h.index).slot, need);
    var g := Grow(h, need);
    RetryTakesTop(h, bs, need, k);
    RetryIs(h, size);
    CarveReturns(g, FindFrom(g.mem, g.index, need, false, 0), size);
  }

  lemma TooSmall(h: Heap, i: nat, need: int)
    requires !SomeHoleFits(h, need) && i < |h.index|
    ensures SizeAt(h.mem, h.index[i]) < need
  {
    hide SizeAt;
    assert !Fits(h.mem, h.index[i], need, false);
  }

  /** An allocation that expands carves out of the grown heap. */
  lemma RetryIs(h: Heap, size: int)
    requires GrowthNeeded(h, size) && Need(size) == size + OVERHEAD
    requires var g := Grow(h, size + OVERHEAD); FindFrom(g.mem, g.index, size + OVERHEAD, false, 0) < |g.index|
    ensures var g := Grow(h, size + OVERHEAD);
            Allocate(h, size, false, 0) == Carve(g, FindFrom(g.mem, g.index, size + OVERHEAD, false, 0), size, false)
  {
    hide Grow, Carve, Fits, Need;
  }

  lemma CarveReturns(g: Heap, j: nat, size: int)
    requires j < |g.index|
    ensures Carve(g, j, size, false).1 == g.index[j] + HEADER
  {
  }

  /** The retry after an expansion picks exactly the hole that grew. */
  lemma RetryTakesTop(h: Heap, bs: seq<Block>, need: int, k: nat)
    requires Tiled(h, bs) && GrowGuard(h, need) && !SomeHoleFits(h, need)
    requires k < |bs| && bs[k].hole && Highest(h.index).found && bs[k].addr == Highest(h.index).value
    ensures var g := Grow(h, need);
            var j := FindFrom(g.mem, g.index, need, false, 0);
            g.index == h.index && j < |g.index| && g.index[j] == bs[k].addr
  {
    hide Addrs, Chain, AllTagged, UntaggedBelow, Grow, Highest, SizeAt, NoWrap, GrownEnd;
    var g := Grow(h, need);
    var t := Highest(h.index).slot;
    var top := Highest(h.index).value;
    var k' := TopGrows(h, bs, need);
    GrownSizes(h, need, top - HEADER);
    assert Fits(g.mem, g.index[t], need, false);
    var j := FindFrom(g.mem, g.index, need, false, 0);
    if g.index[j] != top {
      var i := HoleOf(h, bs, j);
      OthersClear(bs, h.start, h.end, k');
      assert bs[i] in bs && bs[i] != bs[k'];
      GrownSizes(h, need, bs[i].addr);
      assert false;
    }
  }

  /** An allocation that has to expand serves its caller soundly exactly when no 32-bit sum wraps and the highest
      hole ends the heap. */
  lemma ExpansionSoundIff(h: Heap, live: map<int, int>, size: int)
    requires Sound(h, live) && GrowthNeeded(h, size)
    ensures var (h', p) := Allocate(h, size, false, 0);
            p != NULL && Sound(h', live[p := size])
            <==> size + OVERHEAD < WORD && NoWrap(h, size + OVERHEAD) && TopTouchesEnd(h)
  {
    hide Sound, TopTouchesEnd, Allocate, SomeHoleFits, NoWrap, Need, OverLimit;
    NeedFits(size);
    if WORD <= size + OVERHEAD {
      WrappedRequestUnsound(h, live, size, false);
    } else if !NoWrap(h, size + OVERHEAD) {
      WrappedGrowthUnsound(h, live, size);
    } else if TopTouchesEnd(h) {
      AllocateSound(h, live, size);
    } else {
      GrowthOverlaps(h, live, size);
      var (h', p) := Allocate(h, size, false, 0);
      var q :| q in live && p < q < p + size + OVERHEAD;
      if Sound(h', live[p := size]) {
        LiveDisjoint(h', live[p := size], p, q);
      }
    }
  }

  // ---- the right-neighbour test of unallocate ----

  /** No block other than `k` itself starts strictly inside the merged stretch. */
  lemma NothingInside(bs: seq<Block>, lo: int, hi: int, k: nat, j: nat)
    requires Chain(bs, lo, hi) && k < |bs| && j < |bs|
    requires MergedFrom(bs, k) < bs[j].addr < bs[k].End()
    ensures j == k
  {
    if j > k {
      ChainDisjoint(bs, lo, hi, k, j);
    } else if j < k {
      ChainDisjoint(bs, lo, hi, j, k);
      ChainWithin(bs, lo, hi, j);
      if k > 0 && bs[k - 1].hole && j < k - 1 {
        ChainDisjoint(bs, lo, hi, j, k - 1);
      }
    }
  }

  /** The heap `unallocate` leaves when its right test swallows something. */
  lemma AfterRightMerge(h: Heap, bs: seq<Block>, k: nat)
    requires Tiled(h, bs) && k < |bs| && !bs[k].hole
    requires Swallows(h.mem, bs[k].End() - FOOTER) && Unallocate(h, bs[k].addr + HEADER).Freed?
    ensures var h' := Unallocate(h, bs[k].addr + HEADER).heap;
            var from := MergedFrom(bs, k);
            && h'.start == h.start && h'.end == h.end
            && (k > 0 && bs[k - 1].hole ==> from in h'.index)
            && (forall a :: a in h'.index ==> a == from || a in h.index)
            && (forall a :: a in h.index && a != bs[k].End() - FOOTER + NEIGHBOUR ==> a in h'.index)
            && SizeAt(h'.mem, from) != bs[k].End() - from
            && SameOutside(h.mem, h'.mem, from, bs[k].End())
  {
    hide AllTagged, Addrs, UntaggedBelow, MergeLeft, At, Chain, RightTest, Inserted, Removed, Store32, Load32;
    var b, from := bs[k], MergedFrom(bs, k);
    var test := b.End() - FOOTER + NEIGHBOUR;
    ChainWithin(bs, h.start, h.end, k);
    AfterLeftMerge(h, bs, k);
    var l := MergeLeft(h.mem, b.addr);
    RightTestFrame(h.mem, l.mem, from, b.End(), b.End() - FOOTER);
    LoadFrame(h.mem, l.mem, from, b.End(), test + 4);
    var sum := SizeAt(l.mem, from) + SizeAt(l.mem, test);
    var m := Store32(l.mem, from + 4, sum);
    StoreFrame(l.mem, from + 4, sum);
    SumNotKept(l.mem, from, SizeAt(l.mem, test));
    var i := SlotOf(h.index, test, 0);
    RemovedMembers(h.index, i, test);
    var index := Removed(h.index, i);
    assert Unallocate(h, b.addr + HEADER).heap
        == h.(mem := m, index := if l.add then Inserted(index, h.capacity, from, SizeLess(m)) else index);
    if l.add {
      InsertedMembers(index, h.capacity, from, SizeLess(m));
    } else {
      IndexedHole(h, bs, k - 1);
    }
  }

  /** Adding a nonzero word to a stored size changes it, even when the sum wraps. */
  lemma SumNotKept(m: Bytes, a: int, extra: int)
    requires 0 < extra < WORD
    ensures SizeAt(Store32(m, a + 4, SizeAt(m, a) + extra), a) != SizeAt(m, a)
  {
    hide Store32, Load32;
    var sum := SizeAt(m, a) + extra;
    if sum < WORD { LoadOfStore(m, a + 4, sum); } else { StoreWraps(m, a + 4, sum); }
  }

  lemma RemovedMembers(s: seq<int>, i: nat, x: int)
    requires i <= |s| && (i < |s| ==> s[i] == x)
    ensures |Removed(s, i)| <= |s|
    ensures forall a :: a in Removed(s, i) ==> a in s
    ensures forall a :: a in s && a != x ==> a in Removed(s, i)
  {
    if i < |s| {
      assert s == s[..i] + [s[i]] + s[i + 1..];
    }
  }

  lemma InsertedMembers(s: seq<int>, capacity: nat, item: int, less: Less)
    ensures |s| < capacity ==> item in Inserted(s, capacity, item, less)
    ensures forall a :: a in s ==> a in Inserted(s, capacity, item, less)
    ensures forall a :: a in Inserted(s, capacity, item, less) ==> a == item || a in s
  {
    var p := Slot(s, item, less, 0, |s|);
    assert s == s[..p] + s[p..];
  }

  /** A freed block that is recorded nowhere leaves a stretch of the heap to nobody. */
  lemma UnindexedUnsound(h: Heap, live: map<int, int>, bs: seq<Block>, k: nat, h': Heap)
    requires Tiled(h, bs) && Serves(bs, live) && k < |bs| && !bs[k].hole && !(k > 0 && bs[k - 1].hole)
    requires h'.start == h.start && h'.end == h.end && SameOutside(h.mem, h'.mem, bs[k].addr, bs[k].End())
    requires bs[k].addr !in h'.index
    ensures !Sound(h', live - {bs[k].addr + HEADER})
  {
    hide Addrs, AllTagged, UntaggedBelow, SameOutside, Serves, Chain, Load32;
    var live' := live - {bs[k].addr + HEADER};
    if Sound(h', live') {
      var bs': seq<Block> :| Tiled(h', bs') && Serves(bs', live');
      var j := StartKept(h, live, bs, k, h', live', bs');
      Indexed(h', live', bs', j);
      assert false;
    }
  }

  /** The freed block would still start a block. */
  lemma StartKept(h: Heap, live: map<int, int>, bs: seq<Block>, k: nat, h': Heap, live': map<int, int>, bs': seq<Block>)
    returns (j: nat)
    requires Tiled(h, bs) && Serves(bs, live) && k < |bs| && !bs[k].hole && !(k > 0 && bs[k - 1].hole)
    requires h'.start == h.start && h'.end == h.end && SameOutside(h.mem, h'.mem, bs[k].addr, bs[k].End())
    requires live' == live - {bs[k].addr + HEADER} && Tiled(h', bs') && Serves(bs', live')
    ensures j < |bs'| && bs'[j].addr == bs[k].addr
  {
    hide Addrs, AllTagged, UntaggedBelow, Chain, Load32;
    ChainWithin(bs, h.start, h.end, k);
    if k == 0 {
      FirstStart(bs, h.start, h.end);
      j := 0;
      if bs' == [] { EmptyEnds(h'.start, h'.end); }
      FirstStart(bs', h.start, h.end);
    } else {
      var prev := bs[k - 1];
      SplitPair(h, bs, k);
      Indexed(h, live, bs, k - 1);
      assert prev in bs && prev.addr + HEADER in live';
      var i := UsedOf(bs', live', prev.addr + HEADER);
      TaggedAt(h, bs, k - 1);
      TaggedAt(h', bs', i);
      LoadFrame(h.mem, h'.mem, bs[k].addr, bs[k].End(), prev.addr + 4);
      NextStart(bs', h'.start, h'.end, i);
      j := i + 1;
    }
  }

  lemma EmptyEnds(lo: int, hi: int)
    requires Chain([], lo, hi)
    ensures lo == hi
  {
  }

  /** A block that does not end the heap is followed by another. */
  lemma NextStart(bs: seq<Block>, lo: int, hi: int, i: nat)
    requires Chain(bs, lo, hi) && i < |bs| && bs[i].End() < hi
    ensures i + 1 < |bs| && bs[i + 1].addr == bs[i].End()
  {
    ChainSplit(bs, i, lo, hi);
  }

  /** When the right test swallows something, the heap is no longer sound. */
  lemma RightMergeUnsound(h: Heap, live: map<int, int>, p: int)
    requires Sound(h, live) && p in live && Swallows(h.mem, FooterOf(h, p)) && Unallocate(h, p).Freed?
    ensures !Sound(Unallocate(h, p).heap, live - {p})
  {
    hide Chain, Addrs, AllTagged, UntaggedBelow, Unallocate, Swallows, Load32, SameOutside;
    var bs: seq<Block> :| Tiled(h, bs) && Serves(bs, live);
    var k := UsedOf(bs, live, p);
    TaggedAt(h, bs, k);
    var h' := Unallocate(h, p).heap;
    AfterRightMerge(h, bs, k);
    if MergedFrom(bs, k) !in h'.index {
      UnindexedUnsound(h, live, bs, k, h');
    } else if Sound(h', live - {p}) {
      var bs': seq<Block> :| Tiled(h', bs') && Serves(bs', live - {p});
      SoundMergeSize(h, live, bs, k, h', bs');
    }
  }

  /** The block after the freed one starts a block of any tiling of the new heap. */
  lemma NextSurvives(h: Heap, live: map<int, int>, bs: seq<Block>, k: nat, h': Heap, bs': seq<Block>) returns (j: nat)
    requires Tiled(h, bs) && Serves(bs, live) && k < |bs| && !bs[k].hole && bs[k].End() != h.end
    requires Tiled(h', bs') && Serves(bs', live - {bs[k].addr + HEADER})
    requires forall a :: a in h.index && a != bs[k].End() - FOOTER + NEIGHBOUR ==> a in h'.index
    ensures j < |bs'| && bs'[j].addr == bs[k].End()
  {
    hide Addrs, AllTagged, UntaggedBelow;
    ChainSplit(bs, k, h.start, h.end);
    assert k + 1 < |bs|;
    SplitPair(h, bs, k + 1);
    var n := bs[k + 1];
    if n.hole {
      IndexedHole(h, bs, k + 1);
      var i :| 0 <= i < |h'.index| && h'.index[i] == n.addr;
      j := HoleOf(h', bs', i);
    } else {
      assert n in bs && n.addr + HEADER in live;
      j := UsedOf(bs', live - {bs[k].addr + HEADER}, n.addr + HEADER);
    }
  }

  /** A sound result would give the merged hole exactly the freed bytes. */
  lemma SoundMergeSize(h: Heap, live: map<int, int>, bs: seq<Block>, k: nat, h': Heap, bs': seq<Block>)
    requires Tiled(h, bs) && Serves(bs, live) && k < |bs| && !bs[k].hole && h'.end == h.end
    requires Tiled(h', bs') && Serves(bs', live - {bs[k].addr + HEADER})
    requires MergedFrom(bs, k) in h'.index
    requires forall a :: a in h'.index ==> a == MergedFrom(bs, k) || a in h.index
    requires forall a :: a in h.index && a != bs[k].End() - FOOTER + NEIGHBOUR ==> a in h'.index
    ensures SizeAt(h'.mem, MergedFrom(bs, k)) == bs[k].End() - MergedFrom(bs, k)
  {
    hide Addrs, AllTagged, UntaggedBelow, SizeAt, Chain, MergeLeft, LeftMerged, Serves, MergedFrom;
    var from := MergedFrom(bs, k);
    var i :| 0 <= i < |h'.index| && h'.index[i] == from;
    var f := HoleOf(h', bs', i);
    AfterLeftMerge(h, bs, k);
    assert bs'[f].End() >= bs[k].End() by {
      if bs'[f].End() < bs[k].End() {
        NextStart(bs', h'.start, h'.end, f);
        StartIsOld(h, live, bs, k, h', bs', f + 1);
      }
    }
    assert bs'[f].End() <= bs[k].End() by {
      if bs[k].End() != h.end {
        var n := NextSurvives(h, live, bs, k, h', bs');
        StartsApart(bs', h'.start, h'.end, f, n);
      }
    }
  }

  /** Every block of the new tiling starts at the merged hole or where a surviving block started. */
  lemma StartIsOld(h: Heap, live: map<int, int>, bs: seq<Block>, k: nat, h': Heap, bs': seq<Block>, j: nat)
    requires Tiled(h, bs) && Serves(bs, live) && k < |bs| && !bs[k].hole
    requires Tiled(h', bs') && Serves(bs', live - {bs[k].addr + HEADER}) && j < |bs'|
    requires forall a :: a in h'.index ==> a == MergedFrom(bs, k) || a in h.index
    ensures !(MergedFrom(bs, k) < bs'[j].addr < bs[k].End())
  {
    hide Addrs, AllTagged, UntaggedBelow, Chain, MergedFrom;
    var x := bs'[j];
    if MergedFrom(bs, k) < x.addr < bs[k].End() {
      if x.hole {
        IndexedHole(h', bs', j);
        var i :| 0 <= i < |h.index| && h.index[i] == x.addr;
        var o := HoleOf(h, bs, i);
        NothingInside(bs, h.start, h.end, k, o);
      } else {
        assert x in bs' && x.addr + HEADER in live;
        var o := UsedOf(bs, live, x.addr + HEADER);
        NothingInside(bs, h.start, h.end, k, o);
      }
      assert false;
    }
  }

  /** A freed block with no hole below it and no room in the index is lost. */
  lemma FullIndexUnsound(h: Heap, live: map<int, int>, p: int)
    requires Sound(h, live) && p in live && !Recordable(h, p) && Unallocate(h, p).Freed?
    requires !Swallows(h.mem, FooterOf(h, p))
    ensures !Sound(Unallocate(h, p).heap, live - {p})
  {
    hide Chain, Addrs, AllTagged, UntaggedBelow, Unallocate, Swallows, Load32, SameOutside, LeftTest, Inserted;
    var bs: seq<Block> :| Tiled(h, bs) && Serves(bs, live);
    var k := UsedOf(bs, live, p);
    TaggedAt(h, bs, k);
    LeftTestIff(h, bs, k);
    LeftPlain(h, bs, k, h.end);
    ChainWithin(bs, h.start, h.end, k);
    IdleTest(h, bs, k, MergeLeft(h.mem, bs[k].addr), h.end);
    var h' := Unallocate(h, p).heap;
    assert h'.index == h.index by { FullDrops(h.index, h.capacity, bs[k].addr, SizeLess(h'.mem)); }
    NotIndexed(h, bs, k);
    UnindexedUnsound(h, live, bs, k, h');
  }

  lemma FullDrops(s: seq<int>, capacity: nat, item: int, less: Less)
    requires |s| >= capacity
    ensures Inserted(s, capacity, item, less) == s
  {
  }

  lemma NotIndexed(h: Heap, bs: seq<Block>, k: nat)
    requires Tiled(h, bs) && k < |bs| && !bs[k].hole
    ensures bs[k].addr !in h.index
  {
    hide Chain, Addrs, AllTagged, UntaggedBelow;
    if bs[k].addr in h.index {
      var i :| 0 <= i < |h.index| && h.index[i] == bs[k].addr;
      var j := HoleOf(h, bs, i);
      OneStart(bs, h.start, h.end, j, k);
      assert false;
    }
  }

  /** A release that gives no pages back is sound exactly when no hole header that claims some bytes is found 64
      bytes past the footer, where the code looks for its right neighbour, and the block can be recorded: a hole
      ends just below it, or the index has room. */
  lemma FreeSoundIff(h: Heap, live: map<int, int>, p: int)
    requires Sound(h, live) && p in live && !ReachesEnd(h.mem, FooterOf(h, p), h.end)
    ensures Unallocate(h, p).Freed?
    ensures Sound(Unallocate(h, p).heap, live - {p}) <==> !Swallows(h.mem, FooterOf(h, p)) && Recordable(h, p)
  {
    hide Sound, Unallocate, Swallows, Recordable, ReachesEnd;
    ReleaseReturns(h, live, p);
    if Swallows(h.mem, FooterOf(h, p)) {
      RightMergeUnsound(h, live, p);
    } else if Recordable(h, p) {
      FreeSound(h, live, p);
    } else {
      FullIndexUnsound(h, live, p);
    }
  }

  lemma ReleaseReturns(h: Heap, live: map<int, int>, p: int)
    requires Sound(h, live) && p in live && !ReachesEnd(h.mem, FooterOf(h, p), h.end)
    ensures Unallocate(h, p).Freed?
  {
    hide Chain, Addrs, AllTagged, UntaggedBelow, Unallocate, ReachesEnd, Load32;
    var bs: seq<Block> :| Tiled(h, bs) && Serves(bs, live);
    var k := UsedOf(bs, live, p);
    TaggedAt(h, bs, k);
    FreedIff(h, bs, k);
  }
}
