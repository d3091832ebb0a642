/** One call of `heap_manager_malloc` or `heap_manager_free`: live blocks stay disjoint and keep their bytes. */
module HeapSafety {
  import opened Machine
  import opened Memory
  import opened OrderedArrays
  import opened HeapModel
  import opened HeapTiling
  import opened HeapProofs

  /** `live` maps each payload handed out and not yet freed to the number of bytes asked for. */
  ghost predicate Serves(bs: seq<Block>, live: map<int, int>) {
    && (forall p :: p in live <==> p - HEADER in Addrs(bs, false))
    && (forall b :: b in bs && !b.hole ==> b.addr + HEADER in live && 0 <= live[b.addr + HEADER] <= b.size - OVERHEAD)
  }

  ghost predicate Sound(h: Heap, live: map<int, int>) {
    exists bs :: Tiled(h, bs) && Serves(bs, live)
  }

  ghost predicate KeepsPayloads(m: Bytes, m': Bytes, live: map<int, int>) {
    forall p, a :: p in live && p <= a < p + live[p] ==> At(m', a) == At(m, a)
  }

  lemma UsedOf(bs: seq<Block>, live: map<int, int>, p: int) returns (k: nat)
    requires Serves(bs, live) && p in live
    ensures k < |bs| && !bs[k].hole && bs[k].addr == p - HEADER && 0 <= live[p] <= bs[k].size - OVERHEAD
  {
    k := Locate(bs, false, p - HEADER);
    assert bs[k] in bs;
  }

  /** Writes that stay inside `[lo, hi)`, clear of every used block, change no live payload. */
  lemma ClearOfPayloads(m: Bytes, m': Bytes, lo: int, hi: int, bs: seq<Block>, live: map<int, int>)
    requires SameOutside(m, m', lo, hi) && Serves(bs, live)
    requires forall b :: b in bs && !b.hole ==> b.End() <= lo || hi <= b.addr
    ensures KeepsPayloads(m, m', live)
  {
    hide At;
    forall p, a | p in live && p <= a < p + live[p]
      ensures At(m', a) == At(m, a)
    {
      var k := UsedOf(bs, live, p);
      assert bs[k] in bs;
    }
  }

  /** Used blocks other than position `k` lie outside the block at `k`. */
  lemma OthersClear(bs: seq<Block>, lo: int, hi: int, k: nat)
    requires Chain(bs, lo, hi) && k < |bs|
    ensures forall b :: b in bs && b != bs[k] ==> b.End() <= bs[k].addr || bs[k].End() <= b.addr
  {
    forall b | b in bs && b != bs[k]
      ensures b.End() <= bs[k].addr || bs[k].End() <= b.addr
    {
      var j :| 0 <= j < |bs| && bs[j] == b;
      if j < k {
        ChainDisjoint(bs, lo, hi, j, k);
      } else {
        ChainDisjoint(bs, lo, hi, k, j);
      }
    }
  }

  lemma AllWithin(bs: seq<Block>, lo: int, hi: int)
    requires Chain(bs, lo, hi)
    ensures forall b :: b in bs ==> lo <= b.addr && b.End() <= hi && b.size >= OVERHEAD
  {
    forall b | b in bs
      ensures lo <= b.addr && b.End() <= hi && b.size >= OVERHEAD
    {
      var j :| 0 <= j < |bs| && bs[j] == b;
      ChainWithin(bs, lo, hi, j);
    }
  }

  // ---- malloc ----

  lemma HoleNotLive(bs: seq<Block>, live: map<int, int>, lo: int, hi: int, k: nat)
    requires Serves(bs, live) && Chain(bs, lo, hi) && k < |bs| && bs[k].hole
    ensures bs[k].addr + HEADER !in live
  {
    if bs[k].addr + HEADER in live {
      var j := UsedOf(bs, live, bs[k].addr + HEADER);
      assert bs[j] in bs && bs[j] != bs[k];
      ChainWithin(bs, lo, hi, j);
      ChainWithin(bs, lo, hi, k);
      OthersClear(bs, lo, hi, k);
      assert false;
    }
  }

  lemma CarvedServes(bs: seq<Block>, live: map<int, int>, lo: int, hi: int, k: nat, taken: int, size: int)
    requires Serves(bs, live) && Chain(bs, lo, hi) && k < |bs| && bs[k].hole
    requires OVERHEAD <= taken && (bs[k].size == taken || OVERHEAD <= bs[k].size - taken)
    requires 0 <= size <= taken - OVERHEAD
    ensures Serves(CarvedBlocks(bs, k, taken), live[bs[k].addr + HEADER := size])
  {
    hide Chain, Addrs;
    var b := bs[k];
    var p := b.addr + HEADER;
    HoleNotLive(bs, live, lo, hi, k);
    CarvedUsed(bs, k, taken);
    var bs' := CarvedBlocks(bs, k, taken);
    var live' := live[p := size];
    forall x | x in bs' && !x.hole
      ensures x.addr + HEADER in live' && 0 <= live'[x.addr + HEADER] <= x.size - OVERHEAD
    {
      if x != Block(b.addr, taken, false) {
        assert x in bs;
      }
    }
  }

  lemma CarvedUsed(bs: seq<Block>, k: nat, taken: int)
    requires k < |bs| && bs[k].hole
    requires OVERHEAD <= taken && (bs[k].size == taken || OVERHEAD <= bs[k].size - taken)
    ensures Addrs(bs, false) == Addrs(bs[..k], false) + Addrs(bs[k + 1..], false)
    ensures Addrs(CarvedBlocks(bs, k, taken), false) == Addrs(bs[..k], false) + [bs[k].addr] + Addrs(bs[k + 1..], false)
  {
    hide Addrs, Placed;
    var b, ls, rs := bs[k], bs[..k], bs[k + 1..];
    assert bs == ls + [b] + rs;
    Single(b);
    AddrsConcat(ls + [b], rs, false);
    AddrsConcat(ls, [b], false);
    PlacedChain(b.addr, b.size, taken);
    AddrsConcat(ls + Placed(b.addr, b.size, taken), rs, false);
    AddrsConcat(ls, Placed(b.addr, b.size, taken), false);
  }

  lemma CarveSound(h: Heap, live: map<int, int>, i: nat, size: int)
    requires Sound(h, live) && 0 <= size
    requires i < |h.index| && Fits(h.mem, h.index[i], size + OVERHEAD, false)
    ensures var (h', p) := Carve(h, i, size, false);
            && p == h.index[i] + HEADER && p !in live
            && Sound(h', live[p := size])
            && KeepsPayloads(h.mem, h'.mem, live)
  {
    hide Chain, Addrs, AllTagged, SameOutside, Fits, PlaceBlock, Removed, KeepsPayloads, UntaggedBelow;
    var bs: seq<Block> :| Tiled(h, bs) && Serves(bs, live);
    var k := CarveTiled(h, bs, i, size);
    var taken := Taken(bs[k].size, size + OVERHEAD);
    HoleNotLive(bs, live, h.start, h.end, k);
    CarvedServes(bs, live, h.start, h.end, k, taken, size);
    OthersClear(bs, h.start, h.end, k);
    ClearOfPayloads(h.mem, Carve(h, i, size, false).0.mem, bs[k].addr, bs[k].End(), bs, live);
  }

  /** Growth keeps the heap sound when the highest hole touches its end, and leaves a hole that fits. */
  lemma GrowSound(h: Heap, live: map<int, int>, need: int)
    requires Sound(h, live) && GrowGuard(h, need) && TopTouchesEnd(h)
    ensures var h' := Grow(h, need);
            && Sound(h', live) && KeepsPayloads(h.mem, h'.mem, live)
            && exists i :: 0 <= i < |h'.index| && Fits(h'.mem, h'.index[i], need, false)
  {
    var bs: seq<Block> :| Tiled(h, bs) && Serves(bs, live);
    if Highest(h.index).found {
      GrowLastSound(h, live, bs, need);
    } else {
      GrowFreshSound(h, live, bs, need);
    }
  }

  /** A last block that is a hole of `need` bytes is indexed and fits. */
  lemma LastFits(h: Heap, bs: seq<Block>, need: int)
    requires Tiled(h, bs) && bs != []
    requires var b := bs[|bs| - 1]; b.hole && b.size >= need
    ensures exists i :: 0 <= i < |h.index| && Fits(h.mem, h.index[i], need, false)
  {
    hide Chain, Addrs, UntaggedBelow;
    var b := bs[|bs| - 1];
    assert b in bs && Tagged(h.mem, b, h.end);
    Listed(bs, |bs| - 1);
    assert b.addr in multiset(h.index);
    assert b.addr in h.index;
    var i :| 0 <= i < |h.index| && h.index[i] == b.addr;
    assert Fits(h.mem, h.index[i], need, false);
  }

  /** Growth that only replaces or appends a last hole serves the same callers. */
  lemma SameUsed(ls: seq<Block>, xs: seq<Block>, b: Block, live: map<int, int>)
    requires Serves(ls + xs, live) && b.hole && (xs == [] || (|xs| == 1 && xs[0].hole))
    ensures Serves(ls + [b], live)
  {
    assert Addrs(xs, false) == [] by {
      if xs != [] { Single(xs[0]); assert xs == [xs[0]]; }
    }
    hide Addrs;
    Single(b);
    AddrsConcat(ls, xs, false);
    AddrsConcat(ls, [b], false);
    forall x | x in ls + [b] && !x.hole
      ensures x.addr + HEADER in live && 0 <= live[x.addr + HEADER] <= x.size - OVERHEAD
    {
      assert x in ls + xs;
    }
  }

  lemma GrowFreshSound(h: Heap, live: map<int, int>, bs: seq<Block>, need: int)
    requires Tiled(h, bs) && Serves(bs, live) && GrowGuard(h, need) && !Highest(h.index).found
    ensures var h' := Grow(h, need);
            && Sound(h', live) && KeepsPayloads(h.mem, h'.mem, live)
            && exists i :: 0 <= i < |h'.index| && Fits(h'.mem, h'.index[i], need, false)
  {
    hide Chain, AllTagged, SameOutside, Grow, Highest, Fits, UntaggedBelow, KeepsPayloads, Serves, Addrs;
    GrowFresh(h, bs, need);
    var h' := Grow(h, need);
    var b := Block(h.end, h'.end - h.end, true);
    assert bs + [] == bs;
    SameUsed(bs, [], b, live);
    AllWithin(bs, h.start, h.end);
    ClearOfPayloads(h.mem, h'.mem, h.end, h'.end, bs, live);
    LastFits(h', bs + [b], need);
  }

  lemma GrowLastSound(h: Heap, live: map<int, int>, bs: seq<Block>, need: int)
    requires Tiled(h, bs) && Serves(bs, live) && GrowGuard(h, need)
    requires Highest(h.index).found && TopTouchesEnd(h)
    ensures var h' := Grow(h, need);
            && Sound(h', live) && KeepsPayloads(h.mem, h'.mem, live)
            && exists i :: 0 <= i < |h'.index| && Fits(h'.mem, h'.index[i], need, false)
  {
    hide Chain, AllTagged, SameOutside, Grow, Highest, Fits, UntaggedBelow, SizeAt, KeepsPayloads, Serves, Addrs;
    GrowLast(h, bs, need);
    var h' := Grow(h, need);
    var k := |bs| - 1;
    var ls, last := bs[..k], bs[k];
    var b := Block(last.addr, h'.end - last.addr, true);
    assert bs == ls + [last];
    SameUsed(ls, [last], b, live);
    ChainSplit(bs, k, h.start, h.end);
    AllWithin(ls, h.start, last.addr);
    ClearOfPayloads(h.mem, h'.mem, last.addr, h'.end, bs, live);
    ChainOrder(ls, h.start, last.addr);
    LastFits(h', ls + [b], need);
  }

  // ---- allocate ----

  predicate SomeHoleFits(h: Heap, need: int) {
    exists i :: 0 <= i < |h.index| && Fits(h.mem, h.index[i], need, false)
  }

  /** The request would take the heap past its limit, as the code tests it. */
  predicate OverLimit(h: Heap, need: int) {
    (h.end + need) % WORD > h.maxEnd
  }

  /** What a caller of unaligned `allocate` may check first. A request that some hole fits must not wrap; one that
      expands the heap must wrap no sum, and the highest hole must end the heap; one past the limit is refused. */
  predicate MallocGuard(h: Heap, size: int) {
    && 0 <= size
    && if SomeHoleFits(h, Need(size)) then size + OVERHEAD < WORD
       else OverLimit(h, Need(size)) || (size + OVERHEAD < WORD && ExpansionGuard(h, size + OVERHEAD))
  }

  predicate ExpansionGuard(h: Heap, need: int) {
    NoWrap(h, need) && 0 < h.capacity && TopTouchesEnd(h)
  }

  lemma AllocateSound(h: Heap, live: map<int, int>, size: int)
    requires Sound(h, live) && MallocGuard(h, size)
    ensures var (h', p) := Allocate(h, size, false, 0);
            && (p == NULL <==> !SomeHoleFits(h, Need(size)) && OverLimit(h, Need(size)))
            && (p == NULL ==> h' == h)
            && (p != NULL ==> p !in live && Sound(h', live[p := size]))
            && KeepsPayloads(h.mem, h'.mem, live)
  {
    hide Fits, Grow, Carve, KeepsPayloads, Sound, ExpansionGuard, Need;
    NeedFits(size);
    var need := Need(size);
    var i := FindFrom(h.mem, h.index, need, false, 0);
    if i < |h.index| {
      CarveSound(h, live, i, size);
      IndexedAboveHeader(h, live, i);
    } else if !OverLimit(h, need) {
      RetrySound(h, live, size);
    } else {
      KeepsSelf(h.mem, live);
    }
  }

  /** The expansion and the retry. */
  lemma RetrySound(h: Heap, live: map<int, int>, size: int)
    requires Sound(h, live) && 0 <= size && size + OVERHEAD < WORD && ExpansionGuard(h, size + OVERHEAD)
    requires !SomeHoleFits(h, size + OVERHEAD) && !OverLimit(h, size + OVERHEAD)
    ensures var (h', p) := Allocate(h, size, false, 0);
            && p != NULL && p !in live && Sound(h', live[p := size])
            && KeepsPayloads(h.mem, h'.mem, live)
  {
    hide Fits, Grow, Carve, KeepsPayloads, Sound, TopTouchesEnd, Need;
    NeedFits(size);
    var need := size + OVERHEAD;
    GrowSound(h, live, need);
    var g := Grow(h, need);
    var j := FindFrom(g.mem, g.index, need, false, 0);
    assert j < |g.index|;
    assert Allocate(h, size, false, 0) == Carve(g, j, size, false);
    CarveSound(g, live, j, size);
    IndexedAboveHeader(g, live, j);
    KeepsTransitive(h.mem, g.mem, Carve(g, j, size, false).0.mem, live);
  }

  lemma NeedFits(size: int)
    ensures 0 <= size && size + OVERHEAD < WORD ==> Need(size) == size + OVERHEAD
  {
  }

  /** A request whose size wraps once the tags are added is answered with less than was asked for. */
  lemma WrappedRequestUnsound(h: Heap, live: map<int, int>, size: int, align: bool)
    requires WORD <= size + OVERHEAD
    ensures var (h', p) := Allocate(h, size, align, 0); !Sound(h', live[p := size])
  {
    hide Chain, Addrs, AllTagged, Allocate;
    var (h', p) := Allocate(h, size, align, 0);
    if Sound(h', live[p := size]) {
      var bs: seq<Block> :| Tiled(h', bs) && Serves(bs, live[p := size]);
      var k := UsedOf(bs, live[p := size], p);
      ChainWithin(bs, h'.start, h'.end, k);
      assert false;
    }
  }

  /** A request served from a hole is sound exactly when its size does not wrap. */
  lemma ServedSoundIff(h: Heap, live: map<int, int>, size: int)
    requires Sound(h, live) && 0 <= size < WORD && SomeHoleFits(h, Need(size))
    ensures var (h', p) := Allocate(h, size, false, 0);
            Sound(h', live[p := size]) <==> size + OVERHEAD < WORD
  {
    hide Allocate, Sound;
    if size + OVERHEAD < WORD {
      AllocateSound(h, live, size);
    } else {
      WrappedRequestUnsound(h, live, size, false);
    }
  }

  lemma IndexedAboveHeader(h: Heap, live: map<int, int>, i: nat)
    requires Sound(h, live) && i < |h.index|
    ensures h.index[i] + HEADER != NULL
  {
    var bs: seq<Block> :| Tiled(h, bs) && Serves(bs, live);
    var k := HoleOf(h, bs, i);
  }

  lemma KeepsTransitive(m: Bytes, m1: Bytes, m2: Bytes, live: map<int, int>)
    requires KeepsPayloads(m, m1, live) && KeepsPayloads(m1, m2, live)
    ensures KeepsPayloads(m, m2, live)
  {
    hide At;
  }

  lemma KeepsSelf(m: Bytes, live: map<int, int>)
    ensures KeepsPayloads(m, m, live)
  {
  }

  // ---- free ----

  function FooterOf(h: Heap, p: int): int {
    p - HEADER + SizeAt(h.mem, p - HEADER) - FOOTER
  }

  /** A freed block can be recorded: a hole ends just below it, or the index has room. */
  predicate Recordable(h: Heap, p: int) {
    LeftTest(h.mem, p - HEADER) || |h.index| < h.capacity
  }

  /** What a caller of `free` may check first: no pages are given back, the misplaced right-neighbour test
      swallows nothing, and the block can be recorded. */
  predicate FreeGuard(h: Heap, p: int) {
    && !ReachesEnd(h.mem, FooterOf(h, p), h.end)
    && !Swallows(h.mem, FooterOf(h, p))
    && Recordable(h, p)
  }

  /** The left-neighbour test sees the hole below a block, and nothing else. */
  lemma LeftTestIff(h: Heap, bs: seq<Block>, k: nat)
    requires Tiled(h, bs) && k < |bs|
    ensures LeftTest(h.mem, bs[k].addr) <==> k > 0 && bs[k - 1].hole
  {
    hide Chain, Addrs, AllTagged, Load32, At;
    BelowBlock(h, bs, k);
    if k > 0 && bs[k - 1].hole {
      SplitPair(h, bs, k);
    }
  }

  lemma FreeSound(h: Heap, live: map<int, int>, p: int)
    requires Sound(h, live) && p in live && FreeGuard(h, p)
    ensures Unallocate(h, p).Freed?
    ensures var h' := Unallocate(h, p).heap;
            Sound(h', live - {p}) && KeepsPayloads(h.mem, h'.mem, live - {p})
  {
    hide RightTest, Chain, Addrs, UntaggedBelow, Load32, Unallocate, AllTagged, KeepsPayloads, LeftTest;
    var bs: seq<Block> :| Tiled(h, bs) && Serves(bs, live);
    var k := UsedOf(bs, live, p);
    TaggedAt(h, bs, k);
    FreedIff(h, bs, k);
    LeftTestIff(h, bs, k);
    FreeSoundAt(h, live, p, bs, k);
  }

  lemma FreeSoundAt(h: Heap, live: map<int, int>, p: int, bs: seq<Block>, k: nat)
    requires Tiled(h, bs) && Serves(bs, live) && p in live
    requires k < |bs| && !bs[k].hole && bs[k].addr == p - HEADER
    requires Unallocate(h, p).Freed? && !Swallows(h.mem, bs[k].End() - FOOTER)
    requires (k > 0 && bs[k - 1].hole) || |h.index| < h.capacity
    ensures var h' := Unallocate(h, p).heap;
            Sound(h', live - {p}) && KeepsPayloads(h.mem, h'.mem, live - {p})
  {
    hide Chain, Addrs, AllTagged, SameOutside, Unallocate, Swallows, Inserted, UntaggedBelow, KeepsPayloads;
    FreedServes(bs, live, h.start, h.end, k);
    if k > 0 && bs[k - 1].hole {
      FreeMerge(h, bs, k);
      FreedClear(bs, h.start, h.end, k);
      ClearOfPayloads(h.mem, Unallocate(h, p).heap.mem, bs[k - 1].addr, bs[k].End(), FreedBlocks(bs, k), live - {p});
    } else {
      FreePlain(h, bs, k);
      FreedClear(bs, h.start, h.end, k);
      ClearOfPayloads(h.mem, Unallocate(h, p).heap.mem, bs[k].addr, bs[k].End(), FreedBlocks(bs, k), live - {p});
    }
  }

  lemma FreedUsed(bs: seq<Block>, k: nat)
    requires k < |bs| && !bs[k].hole
    ensures Addrs(bs, false) == Addrs(bs[..k], false) + [bs[k].addr] + Addrs(bs[k + 1..], false)
    ensures Addrs(FreedBlocks(bs, k), false) == Addrs(bs[..k], false) + Addrs(bs[k + 1..], false)
  {
    hide Addrs;
    var b, ls, rs := bs[k], bs[..k], bs[k + 1..];
    assert bs == ls + [b] + rs;
    Single(b);
    AddrsConcat(ls + [b], rs, false);
    AddrsConcat(ls, [b], false);
    if k > 0 && bs[k - 1].hole {
      var l := bs[k - 1];
      assert ls == bs[..k - 1] + [l];
      Single(l);
      AddrsConcat(bs[..k - 1], [l], false);
      HoleBetween(bs[..k - 1], Block(l.addr, l.size + b.size, true), rs);
    } else {
      HoleBetween(ls, b.(hole := true), rs);
    }
  }

  lemma HoleBetween(ls: seq<Block>, b: Block, rs: seq<Block>)
    requires b.hole
    ensures Addrs(ls + [b] + rs, false) == Addrs(ls, false) + Addrs(rs, false)
  {
    Single(b);
    AddrsConcat(ls + [b], rs, false);
    AddrsConcat(ls, [b], false);
  }

  lemma FreedServes(bs: seq<Block>, live: map<int, int>, lo: int, hi: int, k: nat)
    requires Serves(bs, live) && Chain(bs, lo, hi) && k < |bs| && !bs[k].hole
    ensures Serves(FreedBlocks(bs, k), live - {bs[k].addr + HEADER})
  {
    hide Addrs, Chain;
    var p := bs[k].addr + HEADER;
    FreedUsed(bs, k);
    UsedOnce(bs, lo, hi, k);
    forall x | x in FreedBlocks(bs, k) && !x.hole
      ensures x.addr + HEADER in live - {p} && 0 <= (live - {p})[x.addr + HEADER] <= x.size - OVERHEAD
    {
      var j :| 0 <= j < |FreedBlocks(bs, k)| && FreedBlocks(bs, k)[j] == x;
      Listed(FreedBlocks(bs, k), j);
      assert x.addr != bs[k].addr;
      assert x in bs[..k] || x in bs[k + 1..];
      assert x in bs;
    }
  }

  /** The used blocks that survive lie clear of the freed one. */
  lemma FreedClear(bs: seq<Block>, lo: int, hi: int, k: nat)
    requires Chain(bs, lo, hi) && k < |bs| && !bs[k].hole
    ensures var from := if k > 0 && bs[k - 1].hole then bs[k - 1].addr else bs[k].addr;
            forall b :: b in FreedBlocks(bs, k) && !b.hole ==>
              b.size >= OVERHEAD && (b.End() <= from || bs[k].End() <= b.addr)
  {
    var from := if k > 0 && bs[k - 1].hole then bs[k - 1].addr else bs[k].addr;
    forall b | b in FreedBlocks(bs, k) && !b.hole
      ensures b.size >= OVERHEAD && (b.End() <= from || bs[k].End() <= b.addr)
    {
      var ls := if k > 0 && bs[k - 1].hole then bs[..k - 1] else bs[..k];
      ChainSplit(bs, k, lo, hi);
      AllWithin(bs[k + 1..], bs[k].End(), hi);
      if b !in bs[k + 1..] {
        assert b in ls;
        ChainSplit(bs, |ls|, lo, hi);
        AllWithin(ls, lo, from);
      }
    }
  }

  lemma UsedOnce(bs: seq<Block>, lo: int, hi: int, k: nat)
    requires Chain(bs, lo, hi) && k < |bs|
    ensures bs[k].addr !in Addrs(bs[..k], false) && bs[k].addr !in Addrs(bs[k + 1..], false)
  {
    ChainSplit(bs, k, lo, hi);
    if bs[k].addr in Addrs(bs[..k], false) {
      var j := Locate(bs[..k], false, bs[k].addr);
      ChainWithin(bs[..k], lo, bs[k].addr, j);
      assert false;
    }
    if bs[k].addr in Addrs(bs[k + 1..], false) {
      var j := Locate(bs[k + 1..], false, bs[k].addr);
      ChainWithin(bs[k + 1..], bs[k].End(), hi, j);
      assert false;
    }
  }
}
