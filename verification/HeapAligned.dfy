/** The page-aligned half of `allocate`, taken from a hole that already fits. */
module HeapAligned {
  import opened Machine
  import opened Memory
  import opened HeapModel
  import opened HeapTiling
  import opened HeapProofs
  import opened HeapSafety

  /** What a caller can check: the first hole that fits leaves a front gap big enough for tags, and a tail that is
      absent, or big enough and with room in the index. (The code always makes a front gap above the first page.) */
  predicate AlignedGuard(h: Heap, size: int) {
    var i := FindFrom(h.mem, h.index, Need(size), true, 0);
    && 0 <= size
    && i < |h.index|
    && PAGE <= h.index[i] && OVERHEAD <= FrontGap(h.index[i])
    && var tail := SizeAt(h.mem, h.index[i]) - FrontGap(h.index[i]) - (size + OVERHEAD);
    (tail == 0 || (OVERHEAD <= tail && |h.index| < h.capacity))
  }

  ghost function AlignedMid(b: Block, gap: int, taken: int): seq<Block> {
    [Block(b.addr, gap, true)] + Placed(b.addr + gap, b.size - gap, taken)
  }

  ghost predicate GapGuard(h: Heap, b: Block, gap: int, taken: int) {
    && OVERHEAD <= gap && OVERHEAD <= taken && (b.size - gap == taken || OVERHEAD <= b.size - gap - taken)
    && 0 <= b.addr && b.End() <= h.end < WORD
  }

  ghost function GapHeap(h: Heap, b: Block, gap: int): Heap {
    h.(mem := WriteFooter(WriteHeader(h.mem, b.addr, gap, 1), b.addr + gap - FOOTER, b.addr))
  }

  lemma AlignedTags(h: Heap, b: Block, gap: int, taken: int, end: int)
    requires GapGuard(h, b, gap, taken)
    ensures var h' := PlaceBlock(GapHeap(h, b, gap), b.addr + gap, b.size - gap, taken);
            && SameOutside(h.mem, h'.mem, b.addr, b.End())
            && AllTagged(h'.mem, AlignedMid(b, gap, taken), end)
  {
    hide WriteHeader, WriteFooter, PlaceBlock, Tagged, At, Placed;
    var g := GapHeap(h, b, gap);
    var h' := PlaceBlock(g, b.addr + gap, b.size - gap, taken);
    BlockWritten(h.mem, b.addr, gap, 1, end);
    PlaceBlockTags(g, b.addr + gap, b.size - gap, taken, end);
    TaggedFrame(g.mem, h'.mem, b.addr + gap, b.End(), Block(b.addr, gap, true), end);
  }

  lemma AlignedAddrs(b: Block, gap: int, taken: int)
    requires OVERHEAD <= gap && OVERHEAD <= taken && (b.size - gap == taken || OVERHEAD <= b.size - gap - taken)
    ensures Chain(AlignedMid(b, gap, taken), b.addr, b.End())
    ensures Addrs(AlignedMid(b, gap, taken), true) == [b.addr] + Addrs(Placed(b.addr + gap, b.size - gap, taken), true)
    ensures Addrs(AlignedMid(b, gap, taken), false) == [b.addr + gap]
  {
    hide Chain, Addrs, Placed;
    var front := Block(b.addr, gap, true);
    Single(front);
    PlacedChain(b.addr + gap, b.size - gap, taken);
    ChainConcat([front], Placed(b.addr + gap, b.size - gap, taken), b.addr, b.addr + gap, b.End());
    AddrsConcat([front], Placed(b.addr + gap, b.size - gap, taken), true);
    AddrsConcat([front], Placed(b.addr + gap, b.size - gap, taken), false);
  }

  /** The front hole keeps the slot of the hole it came from. */
  lemma AlignedSplice(h: Heap, bs: seq<Block>, k: nat, gap: int, taken: int)
    requires Tiled(h, bs) && k < |bs| && bs[k].hole
    requires GapGuard(h, bs[k], gap, taken) && (bs[k].size - gap == taken || |h.index| < h.capacity)
    ensures var h' := PlaceBlock(GapHeap(h, bs[k], gap), bs[k].addr + gap, bs[k].size - gap, taken);
            && Tiled(h', bs[..k] + AlignedMid(bs[k], gap, taken) + bs[k + 1..])
            && SameOutside(h.mem, h'.mem, bs[k].addr, bs[k].End())
  {
    hide PlaceBlock, SameOutside, AllTagged, Chain, Addrs, Placed, WriteHeader, WriteFooter, UntaggedBelow, AlignedMid,
      Load32, FrontGap;
    var b := bs[k];
    var g := GapHeap(h, b, gap);
    var h' := PlaceBlock(g, b.addr + gap, b.size - gap, taken);
    SplitAt(h, bs, k);
    Single(b);
    AlignedTags(h, b, gap, taken, h.end);
    AlignedAddrs(b, gap, taken);
    PlaceBlockIndex(g, b.addr + gap, b.size - gap, taken);
    Rewritten(h, h', bs[..k], [b], AlignedMid(b, gap, taken), bs[k + 1..], b.addr, b.End());
  }

  lemma AlignedServes(bs: seq<Block>, live: map<int, int>, lo: int, hi: int, k: nat, gap: int, taken: int, size: int)
    requires Serves(bs, live) && Chain(bs, lo, hi) && k < |bs| && bs[k].hole
    requires OVERHEAD <= gap && OVERHEAD <= taken && (bs[k].size - gap == taken || OVERHEAD <= bs[k].size - gap - taken)
    requires 0 <= size <= taken - OVERHEAD
    ensures bs[k].addr + gap + HEADER !in live
    ensures Serves(bs[..k] + AlignedMid(bs[k], gap, taken) + bs[k + 1..], live[bs[k].addr + gap + HEADER := size])
  {
    hide Chain, Addrs;
    var b, ls, rs := bs[k], bs[..k], bs[k + 1..];
    var p := b.addr + gap + HEADER;
    if p in live {
      var j := UsedOf(bs, live, p);
      assert bs[j] in bs && bs[j] != b;
      ChainWithin(bs, lo, hi, j);
      OthersClear(bs, lo, hi, k);
      assert false;
    }
    AlignedUsed(bs, k, gap, taken);
    forall x | x in ls + AlignedMid(b, gap, taken) + rs && !x.hole
      ensures x.addr + HEADER in live[p := size] && 0 <= live[p := size][x.addr + HEADER] <= x.size - OVERHEAD
    {
      if x != Block(b.addr + gap, taken, false) {
        assert x in bs;
      }
    }
  }

  lemma AlignedUsed(bs: seq<Block>, k: nat, gap: int, taken: int)
    requires k < |bs| && bs[k].hole
    requires OVERHEAD <= gap && OVERHEAD <= taken && (bs[k].size - gap == taken || OVERHEAD <= bs[k].size - gap - taken)
    ensures Addrs(bs, false) == Addrs(bs[..k], false) + Addrs(bs[k + 1..], false)
    ensures Addrs(bs[..k] + AlignedMid(bs[k], gap, taken) + bs[k + 1..], false)
         == Addrs(bs[..k], false) + [bs[k].addr + gap] + Addrs(bs[k + 1..], false)
  {
    hide Addrs, AlignedMid;
    var b, ls, rs := bs[k], bs[..k], bs[k + 1..];
    assert bs == ls + [b] + rs;
    Single(b);
    AddrsConcat(ls + [b], rs, false);
    AddrsConcat(ls, [b], false);
    AlignedAddrs(b, gap, taken);
    AddrsConcat(ls + AlignedMid(b, gap, taken), rs, false);
    AddrsConcat(ls, AlignedMid(b, gap, taken), false);
  }

  lemma AlignedSound(h: Heap, live: map<int, int>, size: int)
    requires Sound(h, live) && AlignedGuard(h, size)
    ensures var (h', p) := Allocate(h, size, true, 0);
            && p % PAGE == 0 && p != NULL && p !in live
            && Sound(h', live[p := size])
            && KeepsPayloads(h.mem, h'.mem, live)
            && h'.end == h.end
            && h.index[FindFrom(h.mem, h.index, Need(size), true, 0)] in h'.index
  {
    hide Chain, Addrs, AllTagged, SameOutside, PlaceBlock, KeepsPayloads, UntaggedBelow, AlignedMid, Serves, Fits,
      WriteHeader, WriteFooter, Allocate, Need, Load32;
    var bs: seq<Block> :| Tiled(h, bs) && Serves(bs, live);
    var i := FindFrom(h.mem, h.index, Need(size), true, 0);
    var k := HoleOf(h, bs, i);
    var b := bs[k];
    var gap, taken := FrontGap(b.addr), size + OVERHEAD;
    var h' := PlaceBlock(GapHeap(h, b, gap), b.addr + gap, b.size - gap, taken);
    AlignedResult(h, i, b, size);
    assert (b.addr + gap + HEADER) % PAGE == 0 by { PayloadAligned(b.addr); }
    AlignedSplice(h, bs, k, gap, taken);
    AlignedServes(bs, live, h.start, h.end, k, gap, taken, size);
    OthersClear(bs, h.start, h.end, k);
    ClearOfPayloads(h.mem, h'.mem, b.addr, b.End(), bs, live);
    FrontStays(h, b, gap, taken);
  }

  /** The heap and payload of a guarded aligned request. */
  lemma AlignedResult(h: Heap, i: nat, b: Block, size: int)
    requires AlignedGuard(h, size) && i == FindFrom(h.mem, h.index, Need(size), true, 0)
    requires b.addr == h.index[i] && b.size == SizeAt(h.mem, b.addr)
    ensures var gap, taken := FrontGap(b.addr), size + OVERHEAD;
            Allocate(h, size, true, 0)
            == (PlaceBlock(GapHeap(h, b, gap), b.addr + gap, b.size - gap, taken), b.addr + gap + HEADER)
  {
    hide PlaceBlock, WriteHeader, WriteFooter, Fits, FrontGap, Load32;
    var tail := b.size - FrontGap(b.addr) - (size + OVERHEAD);
    TakenSize(b.size, size);
    hide Taken;
    assert Taken(b.size, size + OVERHEAD) == size + OVERHEAD by { GapLeft(b.size, size, FrontGap(b.addr), tail); }
  }

  lemma GapLeft(room: int, size: int, gap: int, tail: int)
    requires 0 <= size && room < WORD && OVERHEAD <= gap && 0 <= tail && room == gap + tail + size + OVERHEAD
    ensures Taken(room, size + OVERHEAD) == size + OVERHEAD
  {
  }

  lemma PayloadAligned(a: int)
    ensures (a + FrontGap(a) + HEADER) % PAGE == 0
  {
    assert a + FrontGap(a) + HEADER == (a / PAGE + 1) * PAGE;
  }

  lemma FrontStays(h: Heap, b: Block, gap: int, taken: int)
    requires GapGuard(h, b, gap, taken) && b.addr in h.index
    requires |h.index| <= h.capacity && (b.size - gap == taken || |h.index| < h.capacity)
    ensures var h' := PlaceBlock(GapHeap(h, b, gap), b.addr + gap, b.size - gap, taken);
            b.addr in h'.index && h'.end == h.end
  {
    hide PlaceBlock, Placed, Addrs;
    var g := GapHeap(h, b, gap);
    PlaceBlockIndex(g, b.addr + gap, b.size - gap, taken);
    assert b.addr in multiset(g.index);
    assert b.addr in multiset(PlaceBlock(g, b.addr + gap, b.size - gap, taken).index);
  }

  // ---- requests that may have to expand the heap ----

  predicate AlignedFits(h: Heap, need: int) {
    FindFrom(h.mem, h.index, need, true, 0) < |h.index|
  }

  /** What a caller of aligned `allocate` can check: the guard above on the heap the block is cut from, which is the
      expanded one if no hole fits and the limit is not in the way. */
  predicate AlignedRequestGuard(h: Heap, size: int) {
    && 0 <= size
    && if AlignedFits(h, Need(size)) then AlignedGuard(h, size)
       else OverLimit(h, Need(size)) || (size + OVERHEAD < WORD && AlignedExpansionGuard(h, size))
  }

  predicate AlignedExpansionGuard(h: Heap, size: int) {
    && ExpansionGuard(h, size + OVERHEAD)
    && var g := Grow(h, size + OVERHEAD);
       AlignedFits(g, Need(size)) ==> AlignedGuard(g, size)
  }

  /** An aligned request either is served soundly or answers NULL on a sound heap, which may have grown. */
  lemma AlignedRequestSound(h: Heap, live: map<int, int>, size: int)
    requires Sound(h, live) && AlignedRequestGuard(h, size)
    ensures var (h', p) := Allocate(h, size, true, 0);
            && (p == NULL <==> !AlignedFits(h, Need(size))
                               && (OverLimit(h, Need(size)) || !AlignedFits(Grow(h, Need(size)), Need(size))))
            && (p == NULL ==> h' == if OverLimit(h, Need(size)) then h else Grow(h, Need(size)))
            && (if p == NULL then Sound(h', live) else p % PAGE == 0 && p !in live && Sound(h', live[p := size]))
            && KeepsPayloads(h.mem, h'.mem, live)
  {
    hide Sound, AlignedGuard, Grow, Fits, KeepsPayloads, Carve, Need, ExpansionGuard;
    if AlignedFits(h, Need(size)) {
      AlignedSound(h, live, size);
    } else if OverLimit(h, Need(size)) {
      KeepsSelf(h.mem, live);
    } else {
      AlignedRetrySound(h, live, size);
    }
  }

  lemma AlignedRetrySound(h: Heap, live: map<int, int>, size: int)
    requires Sound(h, live) && 0 <= size && size + OVERHEAD < WORD && AlignedExpansionGuard(h, size)
    requires !AlignedFits(h, Need(size)) && !OverLimit(h, Need(size))
    ensures var (h', p) := Allocate(h, size, true, 0);
            && (p == NULL <==> !AlignedFits(Grow(h, Need(size)), Need(size)))
            && (p == NULL ==> h' == Grow(h, Need(size)))
            && (if p == NULL then Sound(h', live) else p % PAGE == 0 && p !in live && Sound(h', live[p := size]))
            && KeepsPayloads(h.mem, h'.mem, live)
  {
    hide Sound, AlignedGuard, Grow, Fits, KeepsPayloads, Carve, Need, TopTouchesEnd;
    NeedFits(size);
    GrowSound(h, live, size + OVERHEAD);
    var g := Grow(h, size + OVERHEAD);
    AlignedRetryIs(h, size);
    if AlignedFits(g, Need(size)) {
      AlignedSound(g, live, size);
      KeepsTransitive(h.mem, g.mem, Allocate(g, size, true, 0).0.mem, live);
    }
  }

  /** The retry is an allocation from the grown heap that may not expand again. */
  lemma AlignedRetryIs(h: Heap, size: int)
    requires !AlignedFits(h, Need(size)) && !OverLimit(h, Need(size))
    ensures var g := Grow(h, Need(size));
            Allocate(h, size, true, 0) == if AlignedFits(g, Need(size)) then Allocate(g, size, true, 0) else (g, NULL)
  {
    hide Grow, Fits, Carve, Need;
  }
}
