/** Which requests a heap answers without growing, said of its blocks alone. */
module HeapAlignedSearch {
  import opened Machine
  import opened Memory
  import opened OrderedArrays
  import opened HeapModel
  import opened HeapTiling
  import opened HeapProofs
  import opened HeapSafety
  import opened HeapAligned
  import opened HeapAlignedLimits
  import opened HeapTables

  const HALF := 0x8000_0000

  /** The bytes `[a, a + n)` hold `need` bytes, tags included, whose payload starts at the page boundary `q`. */
  ghost predicate PlacedAt(a: int, n: int, need: int, q: int) {
    q % 4096 == 0 && a + 12 <= q && q - 12 + need <= a + n
  }

  ghost predicate HoldsAligned(a: int, n: int, need: int) {
    exists q :: PlacedAt(a, n, need, q)
  }

  /** The page boundary the search has in mind is the first one that leaves room for a header. */
  lemma FirstBoundary(a: int)
    ensures var q := a + HEADER + AlignOffset(a);
            q % 4096 == 0 && a + 12 <= q && forall x :: x % 4096 == 0 && a + 12 <= x ==> q <= x
  {
    var s := a + HEADER;
    assert s == s / 4096 * 4096 + s % 4096;
    var q := a + HEADER + AlignOffset(a);
    if s % PAGE != 0 { assert q == (s / 4096 + 1) * 4096; }
    forall x | x % 4096 == 0 && a + 12 <= x
      ensures q <= x
    {
      assert x == x / 4096 * 4096;
    }
  }

  /** A hole is found for an aligned request exactly when some page boundary in it leaves room for the request. */
  lemma FitsAlignedIff(m: Bytes, a: int, need: int)
    requires SizeAt(m, a) < HALF && 0 <= need < HALF
    ensures Fits(m, a, need, true) <==> HoldsAligned(a, SizeAt(m, a), need)
  {
    hide Load32, Signed, AlignOffset, HoldsAligned;
    HoldsIff(a, SizeAt(m, a), need);
  }

  lemma SignedSmall(v: int)
    requires -4096 <= v < HALF
    ensures Signed(v) == v
  {
  }

  /** Some hole of the tiling holds the aligned request. */
  ghost predicate SomeHolds(bs: seq<Block>, need: int) {
    exists k :: 0 <= k < |bs| && bs[k].hole && HoldsAligned(bs[k].addr, bs[k].size, need)
  }

  /** The search finds a hole exactly when some hole of the heap holds the request. */
  lemma AlignedFitsIff(h: Heap, bs: seq<Block>, need: int)
    requires Tiled(h, bs) && h.end - h.start < HALF && 0 <= need < HALF
    ensures AlignedFits(h, need) <==> SomeHolds(bs, need)
  {
    hide Chain, Addrs, AllTagged, UntaggedBelow, Fits, SizeAt, HoldsAligned;
    if AlignedFits(h, need) {
      var i := FindFrom(h.mem, h.index, need, true, 0);
      var k := HoleOf(h, bs, i);
      FitsAlignedIff(h.mem, h.index[i], need);
    }
    if SomeHolds(bs, need) {
      var k :| 0 <= k < |bs| && bs[k].hole && HoldsAligned(bs[k].addr, bs[k].size, need);
      IndexedHole(h, bs, k);
      var i :| 0 <= i < |h.index| && h.index[i] == bs[k].addr;
      ChainWithin(bs, h.start, h.end, k);
      BlockSize(h, bs, k);
      FitsAlignedIff(h.mem, h.index[i], need);
      assert Fits(h.mem, h.index[i], need, true);
    }
  }

  lemma BlockSize(h: Heap, bs: seq<Block>, k: nat)
    requires Tiled(h, bs) && k < |bs|
    ensures SizeAt(h.mem, bs[k].addr) == bs[k].size
  {
    hide Chain, Addrs, UntaggedBelow;
    TaggedAt(h, bs, k);
  }

  /** An aligned request that wraps no sum is answered without growing the heap exactly when some hole holds it; it is
      refused, or grows the heap, exactly when none does. */
  lemma AlignedServedIff(h: Heap, live: map<int, int>, bs: seq<Block>, size: int)
    requires Tiled(h, bs) && Serves(bs, live) && PAGE <= h.start && h.end - h.start < HALF
    requires 0 <= size && size + OVERHEAD < HALF && NoWrap(h, size + OVERHEAD)
    ensures var (h', p) := Allocate(h, size, true, 0);
            p != NULL && h'.end == h.end <==> SomeHolds(bs, size + 20)
  {
    hide Tiled, Serves, Fits, Need, Allocate, Grow, SomeHolds, NoWrap, AlignedFits;
    NeedFits(size);
    AlignedFitsIff(h, bs, size + OVERHEAD);
    if AlignedFits(h, Need(size)) {
      TableAnswer(h, live, size);
      KeepsEnd(h, size);
    } else if OverLimit(h, Need(size)) {
      AlignedRefused(h, size);
    } else {
      AlignedMoves(h, bs, size);
    }
  }

  lemma TableAnswer(h: Heap, live: map<int, int>, size: int)
    requires Sound(h, live) && PAGE <= h.start && AlignedFits(h, Need(size))
    ensures Allocate(h, size, true, 0).1 != NULL
  {
    hide Tiled, Serves, Need, Fits, Carve, FrontGap;
    var bs: seq<Block> :| Tiled(h, bs) && Serves(bs, live);
    var i := FindFrom(h.mem, h.index, Need(size), true, 0);
    var k := HoleOf(h, bs, i);
    GapBound(h.index[i]);
    CarveAbove(h, i, size);
  }

  lemma KeepsEnd(h: Heap, size: int)
    requires AlignedFits(h, Need(size))
    ensures Allocate(h, size, true, 0).0.end == h.end
  {
    hide Need, Fits, WriteHeader, WriteFooter, Inserted, Removed, FrontGap, Taken;
  }

  lemma AlignedRefused(h: Heap, size: int)
    requires !AlignedFits(h, Need(size)) && OverLimit(h, Need(size))
    ensures Allocate(h, size, true, 0).1 == NULL
  {
    hide Need, Fits, Grow, Carve;
  }

  /** An expansion moves the end, whatever the retry then does. */
  lemma AlignedMoves(h: Heap, bs: seq<Block>, size: int)
    requires Tiled(h, bs) && 0 <= size && size + OVERHEAD < WORD && NoWrap(h, size + OVERHEAD)
    requires !AlignedFits(h, Need(size)) && !OverLimit(h, Need(size))
    ensures Allocate(h, size, true, 0).0.end > h.end
  {
    hide Chain, Addrs, AllTagged, UntaggedBelow, Need, Fits, Grow, Allocate, NoWrap, GrownEnd, AlignedFits;
    NeedFits(size);
    ChainOrder(bs, h.start, h.end);
    GrowExact(h, size + OVERHEAD);
    GrowsTo(h, size + OVERHEAD);
    AlignedRetryIs(h, size);
    if AlignedFits(Grow(h, Need(size)), Need(size)) {
      KeepsEnd(Grow(h, Need(size)), size);
    }
  }

  /** The payload handed out is the first page boundary of its hole that leaves room for a header. */
  lemma FirstBoundaryTaken(h: Heap, size: int)
    requires AlignedGuard(h, size)
    ensures var a := h.index[FindFrom(h.mem, h.index, Need(size), true, 0)];
            var p := Allocate(h, size, true, 0).1;
            p % 4096 == 0 && a + 12 <= p && forall x :: x % 4096 == 0 && a + 12 <= x ==> p <= x
  {
    hide Need, Fits, PlaceBlock, Load32, GapHeap, Allocate;
    var i := FindFrom(h.mem, h.index, Need(size), true, 0);
    var a := h.index[i];
    AlignedResult(h, i, Block(a, SizeAt(h.mem, a), true), size);
    PayloadAligned(a);
    var p := a + FrontGap(a) + HEADER;
    assert p == (a / 4096 + 1) * 4096;
    forall x | x % 4096 == 0 && a + 12 <= x
      ensures p <= x
    {
      assert x == x / 4096 * 4096;
    }
  }

  /** Whatever the request, a block larger than asked for by 20 bytes or more is never handed out. */
  lemma WasteBounded(room: int, size: int)
    requires 0 <= size && size + 20 <= room < WORD
    ensures var taken := Taken(room, size + 20);
            && size + 20 <= taken < size + 40
            && (taken == room || taken == size + 20)
  {
  }

  /** Some hole of the tiling has the bytes. */
  ghost predicate SomeBlock(bs: seq<Block>, need: int) {
    exists k :: 0 <= k < |bs| && bs[k].hole && need <= bs[k].size
  }

  lemma FitsBlocks(h: Heap, bs: seq<Block>, need: int)
    requires Tiled(h, bs)
    ensures SomeHoleFits(h, need) <==> SomeBlock(bs, need)
  {
    hide Chain, Addrs, AllTagged, UntaggedBelow, SizeAt, Tiled;
    if SomeHoleFits(h, need) {
      var i :| 0 <= i < |h.index| && Fits(h.mem, h.index[i], need, false);
      var k := HoleOf(h, bs, i);
    }
    if SomeBlock(bs, need) {
      var k :| 0 <= k < |bs| && bs[k].hole && need <= bs[k].size;
      IndexedHole(h, bs, k);
      var i :| 0 <= i < |h.index| && h.index[i] == bs[k].addr;
      BlockSize(h, bs, k);
      assert Fits(h.mem, h.index[i], need, false);
    }
  }

  lemma TiledOrder(h: Heap, bs: seq<Block>)
    requires Tiled(h, bs)
    ensures h.start <= h.end
  {
    hide Addrs, AllTagged, UntaggedBelow;
    ChainOrder(bs, h.start, h.end);
  }

  /** An unaligned request that wraps no sum answers NULL exactly when every hole is too small for it with its tags,
      and the limit lies below what it needs. */
  lemma NullIff(h: Heap, live: map<int, int>, bs: seq<Block>, size: int)
    requires Tiled(h, bs) && Serves(bs, live) && MallocGuard(h, size)
    requires 0 <= h.start && h.end + size + 20 < WORD
    ensures Allocate(h, size, false, 0).1 == NULL
            <==> !SomeBlock(bs, size + 20) && h.end + size + 20 > h.maxEnd
  {
    hide Tiled, Serves, Need, Allocate, SomeHoleFits, SomeBlock, ExpansionGuard, KeepsPayloads;
    NeedFits(size);
    TiledOrder(h, bs);
    AllocateSound(h, live, size);
    assert (h.end + size + 20) % WORD == h.end + size + 20;
    FitsBlocks(h, bs, size + 20);
  }

  // ---- the expansion ----

  /** Where the hole that takes the new bytes starts. */
  function GrowingHole(h: Heap): int {
    var top := Highest(h.index);
    if top.found then top.value else h.end
  }

  /** When the highest hole ends the heap, an aligned request answers NULL exactly when no hole holds it, and the limit
      lies below what it needs or the grown hole, which reaches from its start to the new end, does not hold it. */
  lemma AlignedNullIff(h: Heap, live: map<int, int>, bs: seq<Block>, size: int)
    requires Tiled(h, bs) && Serves(bs, live) && PAGE <= h.start && ExpansionGuard(h, size + OVERHEAD)
    requires 0 <= size && h.end - h.start + size + 20 + 0x1000 < HALF
    ensures var a := GrowingHole(h);
            Allocate(h, size, true, 0).1 == NULL
            <==> !SomeHolds(bs, size + 20)
                 && (h.end + size + 20 > h.maxEnd || !HoldsAligned(a, Grow(h, size + 20).end - a, size + 20))
  {
    hide Chain, Addrs, AllTagged, UntaggedBelow, Serves, Fits, Need, Allocate, Grow, SomeHolds, HoldsAligned, NoWrap,
      AlignedFits, GrownHoleFits, TopTouchesEnd, Highest, GrownEnd, AlignedGuard, GrowingHole;
    NeedFits(size);
    TiledOrder(h, bs);
    GrowExact(h, size + OVERHEAD);
    AlignedFitsIff(h, bs, size + OVERHEAD);
    if AlignedFits(h, Need(size)) {
      TableAnswer(h, live, size);
    } else if OverLimit(h, Need(size)) {
      AlignedRefused(h, size);
    } else {
      AlignedExpansionIff(h, live, size);
      if GrownHoleFits(h, size + OVERHEAD) {
        GrownAnswers(h, live, size);
      }
      GrownHolds(h, bs, size + OVERHEAD);
    }
  }

  lemma GrownAnswers(h: Heap, live: map<int, int>, size: int)
    requires Sound(h, live) && 0 <= size && size + OVERHEAD < WORD && ExpansionGuard(h, size + OVERHEAD)
    requires !AlignedFits(h, Need(size)) && !OverLimit(h, Need(size)) && PAGE <= h.start
    requires GrownHoleFits(h, size + OVERHEAD)
    ensures Allocate(h, size, true, 0).1 != NULL
  {
    hide Tiled, Serves, Grow, Need, Fits, NoWrap, GrownEnd, Allocate, GrownHoleFits, TopTouchesEnd, AlignedFits;
    NeedFits(size);
    var need := size + OVERHEAD;
    var bs: seq<Block> :| Tiled(h, bs) && Serves(bs, live);
    AlignedRetryIs(h, size);
    GrowSound(h, live, need);
    RetryFits(h, bs, need);
    GrowsTo(h, need);
    TableAnswer(Grow(h, need), live, size);
  }

  lemma GrownHolds(h: Heap, bs: seq<Block>, need: int)
    requires Tiled(h, bs) && 0 < h.start && ExpansionGuard(h, need)
    requires OVERHEAD <= need && h.end - h.start + need + PAGE < HALF
    ensures var a := GrowingHole(h);
            GrownHoleFits(h, need) <==> HoldsAligned(a, Grow(h, need).end - a, need)
  {
    hide Chain, Addrs, AllTagged, UntaggedBelow, Grow, SizeAt, Highest, NoWrap, GrownEnd, AlignOffset, Signed,
      HoldsAligned;
    TiledOrder(h, bs);
    GrowExact(h, need);
    GrowsTo(h, need);
    var a := GrowingHole(h);
    if Highest(h.index).found {
      var k := HoleOf(h, bs, Highest(h.index).slot);
    }
    HoldsIff(a, Grow(h, need).end - a, need);
  }

  lemma HoldsIff(a: int, n: int, need: int)
    requires 0 <= n < HALF && 0 <= need < HALF
    ensures Signed(n - AlignOffset(a)) >= Signed(need) <==> HoldsAligned(a, n, need)
  {
    FirstBoundary(a);
    var q := a + HEADER + AlignOffset(a);
    SignedSmall(need);
    SignedSmall(n - AlignOffset(a));
    if Signed(n - AlignOffset(a)) >= Signed(need) {
      assert PlacedAt(a, n, need, q);
    }
    if HoldsAligned(a, n, need) {
      var x :| PlacedAt(a, n, need, x);
    }
  }
}
