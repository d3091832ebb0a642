/** `heap_manager_init` writes no footer: when, in a run, every block carries both its tags. */
module HeapFooters {
  import opened Memory
  import opened OrderedArrays
  import opened HeapModel
  import opened HeapTiling
  import opened HeapProofs
  import opened HeapSafety
  import opened HeapAligned
  import opened HeapRuns

  ghost predicate BothTags(m: Bytes, bs: seq<Block>) {
    forall b :: b in bs ==> HeaderIs(m, b.addr, b.size, b.hole) && FooterIs(m, b.End() - FOOTER, b.addr)
  }

  /** Every block of the heap carries both tags. */
  ghost predicate Footed(h: Heap) {
    exists bs :: Tiled(h, bs) && BothTags(h.mem, bs)
  }

  /** A heap has one tiling, so it does not matter which one is looked at. */
  lemma {:induction false} OneTiling(m: Bytes, bs: seq<Block>, bs': seq<Block>, lo: int, hi: int, end: int)
    requires Chain(bs, lo, hi) && Chain(bs', lo, hi) && AllTagged(m, bs, end) && AllTagged(m, bs', end)
    ensures bs == bs'
    decreases |bs|
  {
    if bs == [] || bs' == [] {
      NothingBetween(bs, lo, hi);
      NothingBetween(bs', lo, hi);
    } else {
      assert bs[0] in bs && bs'[0] in bs';
      assert bs[0] == bs'[0];
      OneTiling(m, bs[1..], bs'[1..], bs[0].End(), hi, end);
    }
  }

  lemma NothingBetween(bs: seq<Block>, lo: int, hi: int)
    requires Chain(bs, lo, hi)
    ensures bs == [] <==> lo == hi
  {
    if bs != [] {
      ChainOrder(bs[1..], bs[0].End(), hi);
    }
  }

  lemma FootedMeans(h: Heap, bs: seq<Block>)
    requires Tiled(h, bs)
    ensures Footed(h) <==> BothTags(h.mem, bs)
  {
    hide Chain, Addrs, AllTagged, UntaggedBelow, BothTags;
    if Footed(h) {
      var bs': seq<Block> :| Tiled(h, bs') && BothTags(h.mem, bs');
      OneTiling(h.mem, bs, bs', h.start, h.end, h.end);
    }
  }

  // ---- tags without the exception for the end of the heap: no block ends at this address ----

  const NOWHERE := -1

  lemma Strict(h: Heap, bs: seq<Block>)
    requires Tiled(h, bs)
    ensures BothTags(h.mem, bs) <==> AllTagged(h.mem, bs, NOWHERE)
  {
    hide Chain, Addrs, UntaggedBelow, Load32, At;
    AllWithin(bs, h.start, h.end);
  }

  lemma SideStrict(m: Bytes, ls: seq<Block>, lo: int, hi: int, end: int)
    requires Chain(ls, lo, hi) && hi < end && AllTagged(m, ls, end)
    ensures AllTagged(m, ls, NOWHERE)
  {
    hide Chain, HeaderIs, FooterIs;
    AllWithin(ls, lo, hi);
  }

  /** Blocks other than the one at position `k` have footers, if all have or if that one ends the heap. */
  lemma SidesStrict(h: Heap, m': Bytes, bs: seq<Block>, k: nat)
    requires Tiled(h, bs) && k < |bs| && SameOutside(h.mem, m', bs[k].addr, bs[k].End())
    requires AllTagged(h.mem, bs, NOWHERE) || k == |bs| - 1
    ensures AllTagged(m', bs[..k], NOWHERE) && AllTagged(m', bs[k + 1..], NOWHERE)
  {
    hide Chain, Addrs, UntaggedBelow, Tagged, SameOutside;
    ChainSplit(bs, k, h.start, h.end);
    ChainWithin(bs, h.start, h.end, k);
    var ls, rs := bs[..k], bs[k + 1..];
    assert AllTagged(h.mem, ls, NOWHERE) by {
      if k == |bs| - 1 { SideStrict(h.mem, ls, h.start, bs[k].addr, h.end); }
    }
    AllTaggedFrame(h.mem, m', bs[k].addr, bs[k].End(), ls, h.start, bs[k].addr, NOWHERE);
    if k + 1 < |bs| {
      AllTaggedFrame(h.mem, m', bs[k].addr, bs[k].End(), rs, bs[k].End(), h.end, NOWHERE);
    }
  }

  lemma FootedBy(h: Heap, ls: seq<Block>, mid: seq<Block>, rs: seq<Block>)
    requires Tiled(h, ls + mid + rs)
    requires AllTagged(h.mem, ls, NOWHERE) && AllTagged(h.mem, mid, NOWHERE) && AllTagged(h.mem, rs, NOWHERE)
    ensures Footed(h)
  {
    hide Chain, Addrs, UntaggedBelow, Tagged, BothTags;
    var bs := ls + mid + rs;
    assert AllTagged(h.mem, bs, NOWHERE);
    Strict(h, bs);
  }

  // ---- malloc ----

  /** An allocation from a hole leaves footers everywhere if they were there, or if that hole ended the heap. */
  lemma CarveFooted(h: Heap, bs: seq<Block>, i: nat, size: int)
    requires Tiled(h, bs) && 0 <= size && i < |h.index| && Fits(h.mem, h.index[i], size + OVERHEAD, false)
    requires AllTagged(h.mem, bs, NOWHERE) || |bs| == 1
    ensures Footed(Carve(h, i, size, false).0)
  {
    hide Chain, Addrs, AllTagged, UntaggedBelow, PlaceBlock, Placed, Need, Taken, Load32, Removed;
    var k := CarveTiled(h, bs, i, size);
    var b := bs[k];
    ChainWithin(bs, h.start, h.end, k);
    TaggedAt(h, bs, k);
    TakenSize(b.size, size);
    var taken := Taken(b.size, size + OVERHEAD);
    var g := h.(index := Removed(h.index, i));
    PlaceBlockTags(g, b.addr, b.size, taken, NOWHERE);
    var h' := Carve(h, i, size, false).0;
    assert h' == PlaceBlock(g, b.addr, b.size, taken);
    SidesStrict(h, h'.mem, bs, k);
    FootedBy(h', bs[..k], Placed(b.addr, b.size, taken), bs[k + 1..]);
  }

  /** An expansion writes the footer of the hole that ends the heap. */
  lemma GrowStrict(h: Heap, bs: seq<Block>, need: int) returns (bs': seq<Block>)
    requires Tiled(h, bs) && GrowGuard(h, need) && TopTouchesEnd(h)
    ensures Tiled(Grow(h, need), bs') && AllTagged(Grow(h, need).mem, bs', NOWHERE)
    ensures bs' != [] && bs'[|bs'| - 1].hole && bs'[|bs'| - 1].size >= need
  {
    hide Chain, Addrs, AllTagged, UntaggedBelow, PageUp, Grow, Highest;
    var h' := Grow(h, need);
    if Highest(h.index).found {
      GrowLast(h, bs, need);
      var k := |bs| - 1;
      var b := Block(bs[k].addr, h'.end - bs[k].addr, true);
      bs' := bs[..k] + [b];
      ChainWithin(bs, h.start, h.end, k);
      LastStrict(h, bs, need);
      ChainSplit(bs, k, h.start, h.end);
      assert bs == bs[..k] + [bs[k]] + [];
      AllTaggedParts(h.mem, bs, bs[..k], [bs[k]], [], h.end);
      SideStrict(h.mem, bs[..k], h.start, b.addr, h.end);
      AllTaggedFrame(h.mem, h'.mem, b.addr, h'.end, bs[..k], h.start, b.addr, NOWHERE);
      BothStrict(h'.mem, bs[..k], b);
    } else {
      GrowFresh(h, bs, need);
      var b := Block(h.end, h'.end - h.end, true);
      bs' := bs + [b];
      ChainOrder(bs, h.start, h.end);
      FreshStrict(h, need);
      NoHoles(h, bs);
      UsedStrict(h.mem, bs, h.end);
      AllTaggedFrame(h.mem, h'.mem, b.addr, h'.end, bs, h.start, h.end, NOWHERE);
      BothStrict(h'.mem, bs, b);
    }
  }

  lemma UsedStrict(m: Bytes, bs: seq<Block>, end: int)
    requires AllTagged(m, bs, end) && forall b :: b in bs ==> !b.hole
    ensures AllTagged(m, bs, NOWHERE)
  {
  }

  lemma BothStrict(m: Bytes, ls: seq<Block>, b: Block)
    requires AllTagged(m, ls, NOWHERE) && Tagged(m, b, NOWHERE)
    ensures AllTagged(m, ls + [b], NOWHERE)
  {
    hide Tagged;
  }

  lemma LastStrict(h: Heap, bs: seq<Block>, need: int)
    requires Tiled(h, bs) && GrowGuard(h, need) && Highest(h.index).found && bs != []
    requires var b := bs[|bs| - 1]; b.hole && b.addr == Highest(h.index).value && b.End() == h.end < Grow(h, need).end
    ensures var h', a := Grow(h, need), bs[|bs| - 1].addr; Tagged(h'.mem, Block(a, h'.end - a, true), NOWHERE)
  {
    hide WriteFooter, Store32, At, GrownEnd, NoWrap, Chain, Addrs, Highest, HeaderIs, FooterIs, Load32;
    var b := bs[|bs| - 1];
    ChainWithin(bs, h.start, h.end, |bs| - 1);
    GrowExact(h, need);
    TaggedAt(h, bs, |bs| - 1);
    HeaderSize(h.mem, b.addr, b.size, true);
    HoleGrown(h.mem, b.addr, b.size, Grow(h, need).end - b.addr, NOWHERE);
  }

  lemma FreshStrict(h: Heap, need: int)
    requires GrowGuard(h, need) && !Highest(h.index).found && 0 < h.start <= h.end
    ensures var h' := Grow(h, need); Tagged(h'.mem, Block(h.end, h'.end - h.end, true), NOWHERE)
  {
    hide WriteHeader, WriteFooter, Tagged, At, GrownEnd, NoWrap, Inserted;
    GrowExact(h, need);
    BlockWritten(h.mem, h.end, GrownEnd(h, need) - h.end, 1, NOWHERE);
  }

  lemma AllocateFooted(h: Heap, live: map<int, int>, bs: seq<Block>, size: int)
    requires Tiled(h, bs) && Serves(bs, live) && MallocGuard(h, size) && Allocate(h, size, false, 0).1 != NULL
    requires AllTagged(h.mem, bs, NOWHERE) || |bs| == 1
    ensures Footed(Allocate(h, size, false, 0).0)
  {
    hide Fits, Grow, Carve, Tiled, TopTouchesEnd, NoWrap, Need, Footed, AllTagged, Serves;
    NeedFits(size);
    var need := size + OVERHEAD;
    var i := FindFrom(h.mem, h.index, need, false, 0);
    if i < |h.index| {
      CarveFooted(h, bs, i, size);
    } else {
      var g := Grow(h, need);
      var bs' := GrowStrict(h, bs, need);
      LastFits(g, bs', need);
      var j := FindFrom(g.mem, g.index, need, false, 0);
      CarveFooted(g, bs', j, size);
    }
  }

  lemma AlignedFooted(h: Heap, bs: seq<Block>, size: int)
    requires Tiled(h, bs) && AlignedGuard(h, size) && (AllTagged(h.mem, bs, NOWHERE) || |bs| == 1)
    ensures Footed(Allocate(h, size, true, 0).0)
  {
    hide Chain, Addrs, AllTagged, SameOutside, PlaceBlock, UntaggedBelow, AlignedMid, WriteHeader, WriteFooter, Fits,
      Allocate;
    var i := FindFrom(h.mem, h.index, Need(size), true, 0);
    var k := HoleOf(h, bs, i);
    var b := bs[k];
    var gap, taken := FrontGap(b.addr), size + OVERHEAD;
    var h' := PlaceBlock(GapHeap(h, b, gap), b.addr + gap, b.size - gap, taken);
    AlignedResult(h, i, b, size);
    AlignedSplice(h, bs, k, gap, taken);
    AlignedTags(h, b, gap, taken, NOWHERE);
    SidesStrict(h, h'.mem, bs, k);
    FootedBy(h', bs[..k], AlignedMid(b, gap, taken), bs[k + 1..]);
  }

  /** An aligned request that answers leaves footers everywhere; one that is refused changes nothing. */
  lemma AlignedRequestFooted(h: Heap, live: map<int, int>, bs: seq<Block>, size: int)
    requires Tiled(h, bs) && Serves(bs, live) && AlignedRequestGuard(h, size)
    requires AllTagged(h.mem, bs, NOWHERE) || |bs| == 1
    ensures var r := Allocate(h, size, true, 0);
            if !AlignedFits(h, Need(size)) && OverLimit(h, Need(size)) then r == (h, NULL)
            else Footed(r.0) && Answers(h, r)
  {
    hide Fits, Grow, Carve, Tiled, TopTouchesEnd, NoWrap, Need, Footed, AllTagged, Serves, Allocate, AlignedGuard;
    AlignedRequestSound(h, live, size) by { assert Sound(h, live); }
    if AlignedFits(h, Need(size)) {
      AlignedFooted(h, bs, size);
    } else if OverLimit(h, Need(size)) {
      Refused(h, size);
    } else {
      NeedFits(size);
      var need := size + OVERHEAD;
      var bs' := GrowStrict(h, bs, need);
      AlignedRetryIs(h, size);
      Expands(h, bs, need);
      var g := Grow(h, need);
      if AlignedFits(g, Need(size)) {
        AlignedFooted(g, bs', size);
      } else {
        Strict(g, bs');
        FootedMeans(g, bs');
      }
    }
  }

  lemma Refused(h: Heap, size: int)
    requires !AlignedFits(h, Need(size)) && OverLimit(h, Need(size))
    ensures Allocate(h, size, true, 0) == (h, NULL)
  {
    hide Fits, Grow, Carve, Need;
  }

  lemma Expands(h: Heap, bs: seq<Block>, need: int)
    requires Tiled(h, bs) && GrowGuard(h, need)
    ensures Grow(h, need).end > h.end
  {
    hide WriteHeader, WriteFooter, Store32, Inserted, GrownEnd, Chain, Addrs, NoWrap, Load32;
    ChainOrder(bs, h.start, h.end);
    GrowExact(h, need);
  }

  // ---- free and callers' writes ----

  lemma FreeFooted(h: Heap, live: map<int, int>, p: int)
    requires Sound(h, live) && p in live && FreeGuard(h, p) && Footed(h) && Unallocate(h, p).Freed?
    ensures Footed(Unallocate(h, p).heap)
  {
    hide Chain, Addrs, AllTagged, UntaggedBelow, Unallocate, Swallows, LeftTest, Load32, Footed, ReachesEnd;
    var bs: seq<Block> :| Tiled(h, bs) && Serves(bs, live);
    var k := UsedOf(bs, live, p);
    TaggedAt(h, bs, k);
    LeftTestIff(h, bs, k);
    FootedMeans(h, bs);
    Strict(h, bs);
    FreeStrict(h, bs, k);
  }

  lemma FreeStrict(h: Heap, bs: seq<Block>, k: nat)
    requires Tiled(h, bs) && k < |bs| && !bs[k].hole && AllTagged(h.mem, bs, NOWHERE)
    requires Unallocate(h, bs[k].addr + HEADER).Freed? && !Swallows(h.mem, bs[k].End() - FOOTER)
    requires (k > 0 && bs[k - 1].hole) || |h.index| < h.capacity
    ensures Footed(Unallocate(h, bs[k].addr + HEADER).heap)
  {
    hide Chain, Addrs, UntaggedBelow, Unallocate, Swallows, Tagged, SameOutside, MergeLeft, Inserted, Footed;
    assert Tagged(h.mem, bs[k], NOWHERE);
    ChainWithin(bs, h.start, h.end, k);
    var h' := Unallocate(h, bs[k].addr + HEADER).heap;
    var l := MergeLeft(h.mem, bs[k].addr);
    if k > 0 && bs[k - 1].hole {
      LeftJoined(h, bs, k, NOWHERE);
      FreeMerge(h, bs, k);
      SplitPair(h, bs, k);
      MergeStrict(h, bs, k, h'.mem);
      IdleTest(h, bs, k, l, NOWHERE);
      var b := Block(bs[k - 1].addr, bs[k].End() - bs[k - 1].addr, true);
      OneTagged(h'.mem, b, NOWHERE);
      FootedBy(h', bs[..k - 1], [b], bs[k + 1..]);
    } else {
      LeftPlain(h, bs, k, NOWHERE);
      FreePlain(h, bs, k);
      IdleTest(h, bs, k, l, NOWHERE);
      SidesStrict(h, h'.mem, bs, k);
      OneTagged(h'.mem, bs[k].(hole := true), NOWHERE);
      FootedBy(h', bs[..k], [bs[k].(hole := true)], bs[k + 1..]);
    }
  }

  lemma MergeStrict(h: Heap, bs: seq<Block>, k: nat, m': Bytes)
    requires Tiled(h, bs) && 0 < k < |bs| && AllTagged(h.mem, bs, NOWHERE)
    requires SameOutside(h.mem, m', bs[k - 1].addr, bs[k].End())
    ensures AllTagged(m', bs[..k - 1], NOWHERE) && AllTagged(m', bs[k + 1..], NOWHERE)
  {
    hide Chain, Addrs, UntaggedBelow, SameOutside, AllTagged;
    SplitPair(h, bs, k);
    assert bs == bs[..k - 1] + [bs[k - 1], bs[k]] + bs[k + 1..];
    AllTaggedParts(h.mem, bs, bs[..k - 1], [bs[k - 1], bs[k]], bs[k + 1..], NOWHERE);
    var lo, hi := bs[k - 1].addr, bs[k].End();
    AllTaggedFrame(h.mem, m', lo, hi, bs[..k - 1], h.start, lo, NOWHERE);
    AllTaggedFrame(h.mem, m', lo, hi, bs[k + 1..], hi, h.end, NOWHERE);
  }

  lemma WriteFooted(h: Heap, live: map<int, int>, m': Bytes)
    requires Sound(h, live) && Footed(h)
    requires forall a :: !Held(live, a) ==> At(m', a) == At(h.mem, a)
    ensures Footed(h.(mem := m'))
  {
    hide At, Tiled, Held, Serves, AllTagged, BothTags;
    var bs: seq<Block> :| Tiled(h, bs) && Serves(bs, live);
    FootedMeans(h, bs);
    Strict(h, bs);
    WriteTiled(h, live, bs, m');
    WriteTags(h, live, bs, m', NOWHERE);
    Strict(h.(mem := m'), bs);
  }

  // ---- runs ----

  /** The request hands out a block or expands the heap. */
  predicate Answers(h: Heap, r: (Heap, int)) {
    r.1 != NULL || r.0.end != h.end
  }

  predicate Gives(s: State, op: Op) {
    match op
    case Malloc(size) => Answers(s.heap, Allocate(s.heap, size, false, 0))
    case MallocAligned(size) => Answers(s.heap, Allocate(s.heap, size, true, 0))
    case Free(_) => false
    case Write(_) => false
  }

  /** One of the first `n` steps hands out a block or expands the heap. */
  ghost predicate Served(trace: seq<State>, ops: seq<Op>, n: nat)
    requires |trace| == |ops| + 1 && n < |trace|
  {
    exists j :: 0 <= j < n && Gives(trace[j], ops[j])
  }

  lemma StepFooted(s: State, op: Op)
    requires Inv(s) && Enabled(s, op) && Footed(s.heap)
    ensures Footed(Next(s, op).heap)
  {
    hide Sound, Footed, MallocGuard, AlignedRequestGuard, FreeGuard, Allocate, Need, AllTagged, Tiled, Serves;
    var bs: seq<Block> := StrictTiling(s.heap, s.live);
    match op
    case Malloc(size) =>
      AllocateSound(s.heap, s.live, size);
      if Allocate(s.heap, size, false, 0).1 != NULL {
        AllocateFooted(s.heap, s.live, bs, size);
      }
    case MallocAligned(size) => AlignedRequestFooted(s.heap, s.live, bs, size);
    case Free(p) =>
      if p != NULL {
        FreeSound(s.heap, s.live, p);
        FreeFooted(s.heap, s.live, p);
      }
    case Write(m) => WriteFooted(s.heap, s.live, m);
  }

  lemma StrictTiling(h: Heap, live: map<int, int>) returns (bs: seq<Block>)
    requires Sound(h, live) && Footed(h)
    ensures Tiled(h, bs) && Serves(bs, live) && AllTagged(h.mem, bs, NOWHERE)
  {
    hide Tiled, Serves, AllTagged, Footed;
    bs :| Tiled(h, bs) && Serves(bs, live);
    FootedMeans(h, bs);
    Strict(h, bs);
  }

  /** As initialization left it, up to the representation of the memory. */
  ghost predicate Untouched(s: State, h: Heap) {
    s.live == map[] && s.heap == h.(mem := s.heap.mem) && forall a :: At(s.heap.mem, a) == At(h.mem, a)
  }

  /** The first answer cuts a block from the one hole, or writes that hole's footer first. */
  lemma FirstStep(s: State, op: Op, h: Heap, b: Block)
    requires Inv(s) && Enabled(s, op) && Untouched(s, h) && Tiled(h, [b]) && Serves([b], map[])
    ensures if Gives(s, op) then Footed(Next(s, op).heap) else Untouched(Next(s, op), h)
  {
    hide Sound, Footed, MallocGuard, AlignedRequestGuard, FreeGuard, Allocate, Need, AllTagged, Tiled, Serves, At;
    assert Tiled(s.heap, [b]) by { WriteTiled(h, map[], [b], s.heap.mem); }
    match op
    case Malloc(size) =>
      AllocateSound(s.heap, s.live, size);
      if Gives(s, op) {
        AllocateFooted(s.heap, s.live, [b], size);
      }
    case MallocAligned(size) =>
      AlignedRequestSound(s.heap, s.live, size);
      AlignedRequestFooted(s.heap, s.live, [b], size);
    case Free(p) =>
    case Write(m) =>
      assert forall a :: !Held(s.live, a);
  }

  /** In every run from initialization, every block carries both tags exactly when a block has been handed out or the
      heap has been expanded, or the memory held a footer in the right place by chance. */
  lemma FootersIff(trace: seq<State>, ops: seq<Op>, n: nat, base: int, end: int, maxEnd: int,
                                      capacity: nat, m: Bytes)
    requires IsRun(trace, ops) && n < |trace|
    requires trace[0] == State(InitialHeap(base, end, maxEnd, capacity, m), map[]) && InitGuard(trace[0].heap, m)
    ensures var h := trace[0].heap;
            Footed(trace[n].heap) <==> Served(trace, ops, n) || FooterIs(m, end - FOOTER, h.start)
  {
    hide InitialHeap, Footed, FooterIs, Untouched, Inv, Enabled, Tiled, Serves, Gives, InitGuard;
    var h := trace[0].heap;
    var b := Block(h.start, end - h.start, true);
    InitialTiled(base, end, maxEnd, capacity, m);
    FootersSoFar(trace, ops, n, h, b) by {
      InitialInv(base, end, maxEnd, capacity, m);
      assert Untouched(trace[0], h) by { StartUntouched(h); }
    }
    if !Served(trace, ops, n) {
      UntouchedFooter(trace[n], h, b);
      InitialFooter(base, end, maxEnd, capacity, m);
    }
  }

  lemma StartUntouched(h: Heap)
    ensures Untouched(State(h, map[]), h)
  {
  }

  lemma {:induction false} FootersSoFar(trace: seq<State>, ops: seq<Op>, n: nat, h: Heap, b: Block)
    requires IsRun(trace, ops) && n < |trace| && Inv(trace[0]) && Untouched(trace[0], h)
    requires Tiled(h, [b]) && Serves([b], map[])
    ensures Inv(trace[n])
    ensures if Served(trace, ops, n) then Footed(trace[n].heap) else Untouched(trace[n], h)
  {
    hide Footed, Untouched, Inv, Enabled, Tiled, Serves, Gives;
    if n == 0 {
    } else {
      FootersSoFar(trace, ops, n - 1, h, b);
      var s, op := trace[n - 1], ops[n - 1];
      StepKeepsInv(s, op);
      if Served(trace, ops, n - 1) {
        StepFooted(s, op);
      } else {
        FirstStep(s, op, h, b);
      }
    }
  }

  /** A footer at the end of the untouched heap is one that initialization found there. */
  lemma UntouchedFooter(s: State, h: Heap, b: Block)
    requires Untouched(s, h) && Tiled(h, [b])
    ensures Footed(s.heap) <==> FooterIs(h.mem, b.End() - FOOTER, b.addr)
  {
    hide Addrs, UntaggedBelow, Footed, Load32;
    SameTiling(s, h, b);
    FootedMeans(s.heap, [b]);
    SameFooter(h.mem, s.heap.mem, b.End() - FOOTER, b.addr);
  }

  lemma SameTiling(s: State, h: Heap, b: Block)
    requires Untouched(s, h) && Tiled(h, [b])
    ensures Tiled(s.heap, [b])
  {
    hide Addrs, Chain;
    assert b in [b];
    forall a: int
      ensures Load32(s.heap.mem, a) == Load32(h.mem, a)
    {
    }
  }

  lemma SameFooter(m: Bytes, m': Bytes, a: int, header: int)
    requires forall x :: At(m', x) == At(m, x)
    ensures FooterIs(m', a, header) <==> FooterIs(m, a, header)
  {
  }

  lemma InitialFooter(base: int, end: int, maxEnd: int, capacity: nat, m: Bytes)
    requires InitGuard(InitialHeap(base, end, maxEnd, capacity, m), m)
    ensures var h := InitialHeap(base, end, maxEnd, capacity, m);
            FooterIs(h.mem, end - FOOTER, h.start) <==> FooterIs(m, end - FOOTER, h.start)
  {
    hide WriteHeader, At, Load32;
    var h := InitialHeap(base, end, maxEnd, capacity, m);
    HeaderWritten(m, h.start, end - h.start, 1);
    LoadFrame(m, h.mem, h.start, h.start + HEADER, end - FOOTER);
    LoadFrame(m, h.mem, h.start, h.start + HEADER, end - FOOTER + 4);
  }
}
