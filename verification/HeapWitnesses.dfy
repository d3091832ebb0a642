/** Runs of the kernel's own heap that lead to a call which breaks it. */
module HeapWitnesses {
  import opened Machine
  import opened Memory
  import opened OrderedArrays
  import opened HeapModel
  import opened HeapTiling
  import opened HeapProofs
  import opened HeapSafety
  import opened HeapAligned
  import opened HeapRuns
  import opened HeapLimits
  import opened HeapAlignedLimits
  import opened HeapOrder

  // ---- reaching a state ----

  /** The heap the kernel initializes, over memory that reads as zero. */
  function KernelHeap(): State {
    State(InitialHeap(HEAP_START, HEAP_INITIAL_END, HEAP_MAX_END, HEAP_INDEX_SIZE, map[]), map[])
  }

  /** Some run of the kernel's heap leads to `s`. */
  ghost predicate Reached(s: State) {
    exists trace, ops :: IsRun(trace, ops) && trace[0] == KernelHeap() && trace[|ops|] == s
  }

  lemma ReachedStart()
    ensures Reached(KernelHeap())
  {
    hide KernelHeap;
    var ops: seq<Op> := [];
    assert IsRun([KernelHeap()], ops);
  }

  lemma ReachedNext(s: State, op: Op)
    requires Reached(s) && Enabled(s, op)
    ensures Reached(Next(s, op))
  {
    hide KernelHeap, Enabled, Next;
    var trace: seq<State>, ops: seq<Op> :| IsRun(trace, ops) && trace[0] == KernelHeap() && trace[|ops|] == s;
    var trace', ops' := trace + [Next(s, op)], ops + [op];
    forall i | 0 <= i < |ops'|
      ensures Enabled(trace'[i], ops'[i]) && trace'[i + 1] == Next(trace'[i], ops'[i])
    {
      if i < |ops| {
        assert trace'[i] == trace[i] && ops'[i] == ops[i] && trace'[i + 1] == trace[i + 1];
      }
    }
    assert IsRun(trace', ops') && trace'[|ops'|] == Next(s, op);
  }

  /** Where the first block starts: past the index, on the next page. */
  const FIRST := 0xC048_1000

  /** A reached state with this tiling. */
  ghost predicate Looks(s: State, bs: seq<Block>) {
    && Reached(s) && Tiled(s.heap, bs) && Serves(bs, s.live)
    && s.heap.start == FIRST && s.heap.maxEnd == HEAP_MAX_END && s.heap.capacity == HEAP_INDEX_SIZE
  }

  ghost predicate AllUsed(bs: seq<Block>) {
    forall b :: b in bs ==> !b.hole
  }

  lemma {:induction false} NoneFree(bs: seq<Block>)
    requires AllUsed(bs)
    ensures Addrs(bs, true) == []
  {
    if bs == [] {
    } else {
      assert bs[0] in bs;
      NoneFree(bs[1..]);
    }
  }

  lemma IndexIs(h: Heap, us: seq<Block>, tail: seq<Block>)
    requires Tiled(h, us + tail) && AllUsed(us) && (tail == [] || (|tail| == 1 && tail[0].hole))
    ensures h.index == if tail == [] then [] else [tail[0].addr]
  {
    hide Chain, AllTagged, UntaggedBelow;
    NoneFree(us);
    AddrsConcat(us, tail, true);
    if tail != [] {
      Single(tail[0]);
      assert tail == [tail[0]];
    }
    OneEntry(h.index, Addrs(tail, true));
  }

  lemma OneEntry(s: seq<int>, t: seq<int>)
    requires multiset(s) == multiset(t) && |t| <= 1
    ensures s == t
  {
    assert |s| == |multiset(s)| == |multiset(t)| == |t|;
    if |s| == 1 {
      assert s[0] in multiset(s);
      assert s[0] in multiset(t);
    }
  }

  lemma Start() returns (s: State, b: Block)
    ensures s == KernelHeap() && b == Block(FIRST, HEAP_INITIAL_END - FIRST, true)
    ensures Looks(s, [b]) && s.live == map[] && s.heap.end == HEAP_INITIAL_END
  {
    hide InitialHeap, Tiled, Serves;
    s := KernelHeap();
    ReachedStart();
    InitialFields();
    InitialTiled(HEAP_START, HEAP_INITIAL_END, HEAP_MAX_END, HEAP_INDEX_SIZE, map[]);
    b := Block(FIRST, HEAP_INITIAL_END - FIRST, true);
  }

  lemma InitialFields()
    ensures var h := KernelHeap().heap;
            && h.start == FIRST && h.end == HEAP_INITIAL_END && h.maxEnd == HEAP_MAX_END
            && h.capacity == HEAP_INDEX_SIZE && InitGuard(h, map[])
  {
  }

  // ---- steps ----

  /** The blocks after a request is served from the hole that ends the heap. */
  ghost function ServedFrom(us: seq<Block>, b: Block, size: int): seq<Block> {
    us + Placed(b.addr, b.size, Taken(b.size, size + OVERHEAD))
  }

  lemma IndexOne(h: Heap, us: seq<Block>, b: Block, rs: seq<Block>)
    requires Tiled(h, us + [b] + rs) && AllUsed(us) && AllUsed(rs) && b.hole
    ensures h.index == [b.addr]
  {
    hide Chain, AllTagged, UntaggedBelow, AllUsed;
    NoneFree(us);
    NoneFree(rs);
    Single(b);
    AddrsConcat(us + [b], rs, true);
    AddrsConcat(us, [b], true);
    OneEntry(h.index, [b.addr]);
  }

  /** A block is cut from the only hole. */
  lemma Cut(h: Heap, live: map<int, int>, us: seq<Block>, b: Block, rs: seq<Block>, size: int)
    requires Tiled(h, us + [b] + rs) && Serves(us + [b] + rs, live) && AllUsed(us) && AllUsed(rs) && b.hole
    requires 0 <= size && size + OVERHEAD <= b.size
    ensures h.index == [b.addr] && MallocGuard(h, size) && b.addr != NULL - HEADER && b.size < WORD
    ensures FindFrom(h.mem, h.index, size + OVERHEAD, false, 0) == 0
              && Allocate(h, size, false, 0) == Carve(h, 0, size, false)
    ensures var (h', p) := Carve(h, 0, size, false);
            var bs := us + Placed(b.addr, b.size, Taken(b.size, size + OVERHEAD)) + rs;
            && Tiled(h', bs) && Serves(bs, live[b.addr + HEADER := size])
            && h'.start == h.start && h'.end == h.end && h'.maxEnd == h.maxEnd && h'.capacity == h.capacity
            && p == b.addr + HEADER && SameOutside(h.mem, h'.mem, b.addr, b.End())
  {
    hide Tiled, Serves, Placed, Taken, Need, Carve, AllUsed, Fits, Load32, SameOutside;
    var bs := us + [b] + rs;
    IndexOne(h, us, b, rs);
    assert bs[|us|] == b;
    OnlyFits(h, bs, |us|, size);
    var k := CarveTiled(h, bs, 0, size);
    var taken := Taken(b.size, size + OVERHEAD);
    TakenSize(b.size, size);
    ServeChain(h, bs, |us|, k);
    ChainOf(h, bs);
    CarvedServes(bs, live, h.start, h.end, k, taken, size);
    assert bs[..k] == us && bs[k + 1..] == rs;
    CarveFields(h, 0, size);
  }

  /** The same when that hole ends the heap. */
  lemma CutLast(h: Heap, live: map<int, int>, us: seq<Block>, b: Block, size: int)
    requires Tiled(h, us + [b]) && Serves(us + [b], live) && AllUsed(us) && b.hole
    requires 0 <= size && size + OVERHEAD <= b.size
    ensures h.index == [b.addr] && MallocGuard(h, size) && b.addr != NULL - HEADER && b.size < WORD
    ensures FindFrom(h.mem, h.index, size + OVERHEAD, false, 0) == 0
              && Allocate(h, size, false, 0) == Carve(h, 0, size, false)
    ensures var (h', p) := Carve(h, 0, size, false);
            && Tiled(h', ServedFrom(us, b, size)) && Serves(ServedFrom(us, b, size), live[b.addr + HEADER := size])
            && h'.start == h.start && h'.end == h.end && h'.maxEnd == h.maxEnd && h'.capacity == h.capacity
            && p == b.addr + HEADER
  {
    hide Tiled, Serves, Placed, Taken, Carve, AllUsed;
    assert us + [b] + [] == us + [b];
    assert ServedFrom(us, b, size) + [] == ServedFrom(us, b, size);
    Cut(h, live, us, b, [], size) by { assert AllUsed([]) by { NoneUsed(); } }
  }

  lemma NoneUsed()
    ensures AllUsed([])
  {
  }

  /** A request served from that hole. */
  lemma Serve(s: State, us: seq<Block>, b: Block, size: int) returns (s': State)
    requires Looks(s, us + [b]) && AllUsed(us) && b.hole && 0 <= size && size + OVERHEAD <= b.size
    ensures s' == Next(s, Malloc(size))
    ensures Looks(s', ServedFrom(us, b, size)) && s'.live == s.live[b.addr + HEADER := size]
    ensures s'.heap.end == s.heap.end
  {
    hide Tiled, Serves, Reached, ServedFrom, Carve, AllUsed;
    CutLast(s.heap, s.live, us, b, size);
    s' := Next(s, Malloc(size));
    ReachedNext(s, Malloc(size));
  }

  lemma ChainOf(h: Heap, bs: seq<Block>)
    requires Tiled(h, bs)
    ensures Chain(bs, h.start, h.end)
  {
  }

  lemma ServeChain(h: Heap, bs: seq<Block>, j: nat, k: nat)
    requires Tiled(h, bs) && j < |bs| && k < |bs| && bs[j].addr == bs[k].addr
    ensures j == k
  {
    OneStart(bs, h.start, h.end, j, k);
  }

  lemma OnlyFits(h: Heap, bs: seq<Block>, k: nat, size: int)
    requires Tiled(h, bs) && k < |bs| && h.index == [bs[k].addr] && 0 <= size && size + OVERHEAD <= bs[k].size
    ensures MallocGuard(h, size) && Fits(h.mem, h.index[0], size + OVERHEAD, false)
    ensures Allocate(h, size, false, 0) == Carve(h, 0, size, false) && bs[k].addr != NULL - HEADER
    ensures bs[k].size < WORD && FindFrom(h.mem, h.index, size + OVERHEAD, false, 0) == 0
  {
    hide Chain, Addrs, UntaggedBelow, Carve, Load32;
    TaggedAt(h, bs, k);
    ChainWithin(bs, h.start, h.end, k);
    TakenSize(SizeAt(h.mem, bs[k].addr), size);
    assert Fits(h.mem, h.index[0], size + OVERHEAD, false);
    assert FindFrom(h.mem, h.index, size + OVERHEAD, false, 0) == 0;
  }

  lemma CarveFields(h: Heap, i: nat, size: int)
    requires i < |h.index|
    ensures var (h', p) := Carve(h, i, size, false);
            && h'.start == h.start && h'.end == h.end && h'.maxEnd == h.maxEnd && h'.capacity == h.capacity
            && p == h.index[i] + HEADER
  {
    hide Inserted, Removed, WriteHeader, WriteFooter;
  }

  /** Every byte in a caller's hands is set to zero. */
  ghost function Wiped(m: Bytes, live: map<int, int>): Bytes {
    map a | a in m && !Held(live, a) :: m[a]
  }

  /** The callers clear what they hold. */
  lemma Wipe(s: State, bs: seq<Block>) returns (s': State)
    requires Looks(s, bs)
    ensures Looks(s', bs) && s'.live == s.live && s'.heap == s.heap.(mem := s'.heap.mem)
    ensures forall a :: Held(s.live, a) ==> At(s'.heap.mem, a) == 0
  {
    hide Tiled, Serves, Reached, Held;
    var m := Wiped(s.heap.mem, s.live);
    assert forall a :: !Held(s.live, a) ==> At(m, a) == At(s.heap.mem, a);
    WriteTiled(s.heap, s.live, bs, m);
    s' := Next(s, Write(m));
    ReachedNext(s, Write(m));
  }

  /** Where `unallocate` looks for a right neighbour there is no header. */
  ghost predicate Quiet(m: Bytes, b: Block) {
    Load32(m, b.End() - FOOTER + NEIGHBOUR) != MAGIC
  }

  /** An address a caller holds, four bytes of it. */
  lemma QuietIn(s: State, b: Block, p: int)
    requires forall a :: Held(s.live, a) ==> At(s.heap.mem, a) == 0
    requires p in s.live && p <= b.End() - FOOTER + NEIGHBOUR && b.End() - FOOTER + NEIGHBOUR + 4 <= p + s.live[p]
    ensures Quiet(s.heap.mem, b)
  {
    hide At;
    var a := b.End() - FOOTER + NEIGHBOUR;
    assert Held(s.live, a) && Held(s.live, a + 1) && Held(s.live, a + 2) && Held(s.live, a + 3);
  }

  lemma QuietFrame(m: Bytes, m': Bytes, lo: int, hi: int, b: Block)
    requires SameOutside(m, m', lo, hi) && Quiet(m, b)
    requires b.End() - FOOTER + NEIGHBOUR + 4 <= lo || hi <= b.End() - FOOTER + NEIGHBOUR
    ensures Quiet(m', b)
  {
    LoadFrame(m, m', lo, hi, b.End() - FOOTER + NEIGHBOUR);
  }

  /** A release with used blocks on both sides. */
  lemma Release(s: State, bs: seq<Block>, k: nat) returns (s': State)
    requires Looks(s, bs) && k + 1 < |bs| && !bs[k].hole && !(k > 0 && bs[k - 1].hole)
    requires Quiet(s.heap.mem, bs[k]) && |s.heap.index| < s.heap.capacity
    ensures Looks(s', bs[k := bs[k].(hole := true)]) && s'.live == s.live - {bs[k].addr + HEADER}
    ensures SameOutside(s.heap.mem, s'.heap.mem, bs[k].addr, bs[k].End()) && s'.heap.end == s.heap.end
    ensures s'.heap.index == Inserted(s.heap.index, s.heap.capacity, bs[k].addr, SizeLess(s'.heap.mem))
    ensures Ordered(s.heap.mem, s.heap.index) ==> Ordered(s'.heap.mem, s'.heap.index)
  {
    hide Serves, Reached, Load32, At, Chain, Addrs, AllTagged, UntaggedBelow, Inserted, Ordered, Unallocate, LeftTest;
    var h, p := s.heap, bs[k].addr + HEADER;
    ReleaseGuard(s, bs, k);
    FreedIff(h, bs, k);
    FreePlain(h, bs, k);
    if Ordered(h.mem, h.index) { FreePlainOrdered(h, bs, k); }
    FreedServes(bs, s.live, h.start, h.end, k);
    assert FreedBlocks(bs, k) == bs[k := bs[k].(hole := true)];
    s' := Next(s, Free(p));
    ReachedNext(s, Free(p));
    FreeFields(h, p);
  }

  lemma ReleaseGuard(s: State, bs: seq<Block>, k: nat)
    requires Looks(s, bs) && k + 1 < |bs| && !bs[k].hole
    requires Quiet(s.heap.mem, bs[k]) && |s.heap.index| < s.heap.capacity
    ensures var p := bs[k].addr + HEADER;
            && p in s.live && FreeGuard(s.heap, p) && FooterOf(s.heap, p) == bs[k].End() - FOOTER
            && !ReachesEnd(s.heap.mem, bs[k].End() - FOOTER, s.heap.end)
            && !Swallows(s.heap.mem, bs[k].End() - FOOTER)
  {
    hide Reached, Load32, Chain, Addrs, UntaggedBelow, LeftTest;
    TaggedAt(s.heap, bs, k);
    ChainWithin(bs, s.heap.start, s.heap.end, k + 1);
    ChainDisjoint(bs, s.heap.start, s.heap.end, k, k + 1);
    assert bs[k] in bs;
  }

  lemma FreeFields(h: Heap, p: int)
    requires Unallocate(h, p).Freed?
    ensures var h' := Unallocate(h, p).heap;
            h'.start == h.start && h'.end == h.end && h'.maxEnd == h.maxEnd && h'.capacity == h.capacity
  {
  }

  /** A request that leaves part of the hole, and one that takes all of it. */
  lemma ServePart(s: State, us: seq<Block>, b: Block, size: int) returns (s': State, us': seq<Block>, rest: Block)
    requires Looks(s, us + [b]) && AllUsed(us) && b.hole && 0 <= size && size + 2 * OVERHEAD <= b.size
    ensures us' == us + [Block(b.addr, size + OVERHEAD, false)] && AllUsed(us')
    ensures rest == Block(b.addr + size + OVERHEAD, b.size - size - OVERHEAD, true)
    ensures Looks(s', us' + [rest]) && s'.live == s.live[b.addr + HEADER := size] && s'.heap.end == s.heap.end
  {
    s' := ServeHidden(s, us, b, size);
    us', rest := us + [Block(b.addr, size + OVERHEAD, false)],
      Block(b.addr + size + OVERHEAD, b.size - size - OVERHEAD, true);
    assert us' + [rest] == ServedFrom(us, b, size) by { Parts(us, b, size); }
  }

  lemma Parts(us: seq<Block>, b: Block, size: int)
    requires 0 <= size && size + 2 * OVERHEAD <= b.size < WORD
    ensures ServedFrom(us, b, size)
         == us + [Block(b.addr, size + OVERHEAD, false)]
           + [Block(b.addr + size + OVERHEAD, b.size - size - OVERHEAD, true)]
  {
    assert Taken(b.size, size + OVERHEAD) == size + OVERHEAD;
  }

  lemma ServeHidden(s: State, us: seq<Block>, b: Block, size: int) returns (s': State)
    requires Looks(s, us + [b]) && AllUsed(us) && b.hole && 0 <= size && size + OVERHEAD <= b.size
    ensures Looks(s', ServedFrom(us, b, size)) && s'.live == s.live[b.addr + HEADER := size]
    ensures s'.heap.end == s.heap.end && b.size < WORD
  {
    hide Serves, Reached, ServedFrom, AllUsed, Chain, AllTagged, UntaggedBelow;
    s' := Serve(s, us, b, size);
    TaggedAt(s.heap, us + [b], |us|);
    HoleSize(s.heap.mem, b, s.heap.end);
  }

  lemma HoleSize(m: Bytes, b: Block, end: int)
    requires Tagged(m, b, end)
    ensures b.size < WORD && SizeAt(m, b.addr) == b.size
  {
    hide Load32;
  }

  lemma ServeAll(s: State, us: seq<Block>, b: Block) returns (s': State)
    requires Looks(s, us + [b]) && AllUsed(us) && b.hole && OVERHEAD <= b.size
    ensures Looks(s', us + [b.(hole := false)]) && s'.heap.end == s.heap.end
    ensures s'.live == s.live[b.addr + HEADER := b.size - OVERHEAD]
  {
    hide Looks, AllUsed;
    s' := ServeHidden(s, us, b, b.size - OVERHEAD);
    assert Taken(b.size, b.size) == b.size;
    assert ServedFrom(us, b, b.size - OVERHEAD) == us + [b.(hole := false)];
  }

  /** The first request expands the heap to `total` bytes and takes `need` of them. */
  lemma ExpandOnce(need: int, total: int) returns (s: State, b: Block, rest: Block)
    requires HEAP_INITIAL_END - FIRST < need && need + OVERHEAD <= total == PageUp(HEAP_INITIAL_END - FIRST + need)
    requires FIRST + total <= HEAP_MAX_END && HEAP_INITIAL_END + need <= HEAP_MAX_END
    ensures Looks(s, [b] + [rest])
    ensures b == Block(FIRST, need, false) && rest == Block(FIRST + need, total - need, true)
    ensures s.heap.end == FIRST + total
  {
    hide Serves, Reached, Chain, Addrs, AllTagged, UntaggedBelow, Load32, AllUsed, Carve, Grow, Allocate, PageUp;
    var s0, hole := Start();
    var h := s0.heap;
    var size := need - OVERHEAD;
    var g := Grow(h, need);
    var grown := Block(FIRST, total, true);
    FirstGrowth(s0, hole, need, total);
    assert [] + [grown] == [grown];
    NoneUsed();
    CutLast(g, map[], [], grown, size);
    RetryIs(h, size);
    s := Next(s0, Malloc(size));
    ReachedNext(s0, Malloc(size));
    b, rest := Block(FIRST, need, false), Block(FIRST + need, total - need, true);
    assert ServedFrom([], grown, size) == [b] + [rest] by { Parts([], grown, size); }
  }

  lemma FirstGrowth(s: State, hole: Block, need: int, total: int)
    requires s == KernelHeap() && Looks(s, [hole]) && hole == Block(FIRST, HEAP_INITIAL_END - FIRST, true)
    requires s.live == map[] && s.heap.end == HEAP_INITIAL_END
    requires HEAP_INITIAL_END - FIRST < need && need + OVERHEAD <= total == PageUp(HEAP_INITIAL_END - FIRST + need)
    requires FIRST + total <= HEAP_MAX_END && HEAP_INITIAL_END + need <= HEAP_MAX_END
    ensures GrowthNeeded(s.heap, need - OVERHEAD) && MallocGuard(s.heap, need - OVERHEAD)
    ensures Need(need - OVERHEAD) == need
    ensures var g := Grow(s.heap, need);
            && Tiled(g, [Block(FIRST, total, true)]) && Serves([Block(FIRST, total, true)], map[])
            && g.start == FIRST && g.end == FIRST + total
            && g.maxEnd == HEAP_MAX_END && g.capacity == HEAP_INDEX_SIZE
  {
    hide Serves, Reached, Chain, Addrs, AllTagged, UntaggedBelow, Load32, Grow, GrownEnd, KernelHeap, PageUp;
    var h := s.heap;
    NeedFits(need - OVERHEAD);
    assert [] + [hole] == [hole];
    NoneUsed();
    IndexIs(h, [], [hole]);
    TaggedAt(h, [hole], 0);
    HoleSize(h.mem, hole, h.end);
    OneHighest(FIRST);
    assert !SomeHoleFits(h, need) && TopTouchesEnd(h);
    assert !OverLimit(h, need);
    assert Reach(h, need) == FIRST + total;
    GrowExact(h, need);
    GrowLast(h, [hole], need);
    GrowFields(h, need);
    SameUsed([], [hole], Block(FIRST, total, true), map[]);
    assert [] + [Block(FIRST, total, true)] == [Block(FIRST, total, true)];
    assert [hole][..0] == [];
  }

  lemma GrowFields(h: Heap, need: int)
    ensures var g := Grow(h, need);
            g.start == h.start && g.maxEnd == h.maxEnd && g.capacity == h.capacity && g.end == GrownEnd(h, need)
  {
    hide WriteHeader, WriteFooter, Store32, Inserted, Load32, GrownEnd;
  }

  // ---- the witnesses ----

  /** Right after initialization a request for 2^32 - 1 bytes is answered, with a block of too few. */
  lemma WrapWitness()
    ensures Reached(KernelHeap())
    ensures var (h', p) := Allocate(KernelHeap().heap, WORD - 1, false, 0); p != NULL && !Sound(h', map[p := WORD - 1])
  {
    hide Serves, Reached, Chain, Addrs, AllTagged, UntaggedBelow, Allocate, Load32, KernelHeap;
    var s, b := Start();
    assert [] + [b] == [b];
    NoneUsed();
    IndexIs(s.heap, [], [b]);
    TaggedAt(s.heap, [b], 0);
    HoleSize(s.heap.mem, b, s.heap.end);
    assert Need(WORD - 1) == OVERHEAD - 1;
    assert Fits(s.heap.mem, s.heap.index[0], Need(WORD - 1), false);
    WrappedAnswer(s.heap, WORD - 1);
    assert s.live[FIRST + HEADER := WORD - 1] == map[FIRST + HEADER := WORD - 1];
    WrappedRequestUnsound(s.heap, s.live, WORD - 1, false);
  }

  lemma WrappedAnswer(h: Heap, size: int)
    requires h.index == [FIRST] && Fits(h.mem, FIRST, Need(size), false)
    ensures Allocate(h, size, false, 0).1 == FIRST + HEADER
  {
    hide Fits, Need, PlaceBlock;
  }

  /** Right after initialization a request for 2^30 bytes passes the limit test and moves the end of the heap below its
      start. */
  lemma WrapGrowthWitness()
    ensures Reached(KernelHeap())
    ensures var (h', p) := Allocate(KernelHeap().heap, 0x4000_0000, false, 0);
            h'.end == 0x50_1000 < h'.start && (p == NULL || !Sound(h', map[p := 0x4000_0000]))
  {
    hide Serves, Reached, Chain, Addrs, AllTagged, UntaggedBelow, Allocate, Load32, KernelHeap;
    var s, b := Start();
    var h, need := s.heap, 0x4000_0014;
    assert [] + [b] == [b];
    NoneUsed();
    IndexIs(h, [], [b]);
    TaggedAt(h, [b], 0);
    HoleSize(h.mem, b, h.end);
    assert Need(0x4000_0000) == need && !SomeHoleFits(h, need) && !OverLimit(h, need);
    assert GrownEnd(h, need) == 0x50_1000 && !NoWrap(h, need);
    RetryEnds(h, 0x4000_0000);
    WrappedGrowthUnsound(h, s.live, 0x4000_0000);
    var p := Allocate(h, 0x4000_0000, false, 0).1;
    assert s.live[p := 0x4000_0000] == map[p := 0x4000_0000];
  }

  /** Two blocks fill the heap and the first is freed: a request for 100 bytes then grows the 40-byte hole it left
      through the second block. */
  lemma GrowthWitness() returns (s: State)
    ensures Reached(s) && GrowthNeeded(s.heap, 100)
    ensures var (h', p) := Allocate(s.heap, 100, false, 0); p != NULL && !Sound(h', s.live[p := 100])
  {
    hide Serves, Reached, Chain, Addrs, AllTagged, UntaggedBelow, Allocate, Load32, Quiet, Held, At, Ordered;
    var s0, b := Start();
    assert [] + [b] == [b];
    var s1, us, rest := ServePart(s0, [], b, 20);
    var s2 := ServeAll(s1, us, rest);
    var bs := us + [rest.(hole := false)];
    var s3 := Wipe(s2, bs);
    assert bs + [] == bs;
    IndexIs(s3.heap, bs, []);
    QuietIn(s3, bs[0], bs[1].addr + HEADER);
    s := Release(s3, bs, 0);
    assert s.heap.index == [bs[0].addr] by { OneInserted(bs[0].addr, SizeLess(s.heap.mem)); }
    HoleBelowUsed(s, bs[0 := bs[0].(hole := true)]);
  }

  lemma HoleBelowUsed(s: State, bs: seq<Block>)
    requires Looks(s, bs) && |bs| == 2 && bs[0].hole && bs[0].size == 40 && s.heap.index == [bs[0].addr]
    requires s.heap.end == HEAP_INITIAL_END && bs[0].End() < s.heap.end
    ensures GrowthNeeded(s.heap, 100)
    ensures var (h', p) := Allocate(s.heap, 100, false, 0); p != NULL && !Sound(h', s.live[p := 100])
  {
    hide Serves, Reached, Chain, Addrs, AllTagged, UntaggedBelow, Allocate, Load32;
    var h := s.heap;
    TaggedAt(h, bs, 0);
    ChainWithin(bs, h.start, h.end, 0);
    HoleSize(h.mem, bs[0], h.end);
    OneHighest(bs[0].addr);
    assert !SomeHoleFits(h, 120) && Need(100) == 120;
    assert !OverLimit(h, 120) && NoWrap(h, 120);
    GrowthOverlaps(h, s.live, 100);
    ExpansionSoundIff(h, s.live, 100);
  }

  lemma OneInserted(a: int, less: Less)
    ensures Inserted([], HEAP_INDEX_SIZE, a, less) == [a]
  {
  }

  lemma OneHighest(a: int)
    requires 0 < a
    ensures Highest([a]) == Scan(true, 0, a)
  {
    assert HighestFrom([a], 1, Scan(true, 0, a)) == Scan(true, 0, a);
  }

  /** A 56-byte used block between the freed one and a hole: the hole's header is where the code looks for the right
      neighbour, and freeing swallows the block in between. */
  lemma FreeWitness() returns (s: State, p: int)
    ensures Reached(s) && p in s.live && !ReachesEnd(s.heap.mem, FooterOf(s.heap, p), s.heap.end)
    ensures Recordable(s.heap, p)
    ensures Unallocate(s.heap, p).Freed? && !Sound(Unallocate(s.heap, p).heap, s.live - {p})
  {
    hide Serves, Reached, Chain, Addrs, AllTagged, UntaggedBelow, Unallocate, Load32, Quiet, Held, Ordered, Inserted,
      Swallows, ReachesEnd, FooterOf;
    var s0, b := Start();
    assert [] + [b] == [b];
    var s1, us1, r1 := ServePart(s0, [], b, 20);
    var s2, us2, r2 := ServePart(s1, us1, r1, 36);
    var s3, us3, r3 := ServePart(s2, us2, r2, 40);
    var s4, us4, r4 := ServePart(s3, us3, r3, 480);
    var bs := us4 + [r4];
    var s5 := Wipe(s4, bs);
    IndexIs(s5.heap, us4, [r4]);
    QuietIn(s5, bs[2], bs[3].addr + HEADER);
    s := Release(s5, bs, 2);
    assert |s.heap.index| < s.heap.capacity by { TwoInserted(s5.heap.index, r4, bs[2].addr, SizeLess(s.heap.mem)); }
    p := bs[0].addr + HEADER;
    HoleAhead(s, bs[2 := bs[2].(hole := true)], p);
    FreeSoundIff(s.heap, s.live, p);
  }

  /** A used block of 40 bytes, another of 56, and a hole. */
  lemma HoleAhead(s: State, bs: seq<Block>, p: int)
    requires Looks(s, bs) && |bs| == 5 && !bs[0].hole && bs[2].hole && p == bs[0].addr + HEADER
    requires bs[0].size == 40 && bs[2].addr == bs[0].addr + 96 && bs[2].End() < s.heap.end
    ensures p in s.live && Swallows(s.heap.mem, FooterOf(s.heap, p))
    ensures !ReachesEnd(s.heap.mem, FooterOf(s.heap, p), s.heap.end)
  {
    hide Reached, Chain, Addrs, UntaggedBelow, Load32;
    TaggedAt(s.heap, bs, 0);
    TaggedAt(s.heap, bs, 2);
    ChainWithin(bs, s.heap.start, s.heap.end, 2);
    assert bs[0] in bs;
  }

  lemma TwoInserted(index: seq<int>, r: Block, a: int, less: Less)
    requires index == [r.addr]
    ensures |Inserted(index, HEAP_INDEX_SIZE, a, less)| == 2
  {
  }

  /** A hole whose payload is already on a page boundary: the code makes an empty front gap all the same, and the
      block it returns stays in the index of holes. */
  lemma AlignedWitness() returns (s: State)
    ensures Reached(s) && AlignedFound(s.heap, 20)
    ensures var (h', p) := Allocate(s.heap, 20, true, 0); p !in s.live && !Sound(h', s.live[p := 20])
  {
    hide Serves, Reached, Chain, Addrs, AllTagged, UntaggedBelow, Allocate, Load32;
    var s0, b := Start();
    assert [] + [b] == [b];
    var us, rest;
    s, us, rest := ServePart(s0, [], b, 4064);
    IndexIs(s.heap, us, [rest]);
    TaggedAt(s.heap, us + [rest], 1);
    HoleSize(s.heap.mem, rest, s.heap.end);
    FirstFound(s.heap, rest);
    AlignedSoundIff(s.heap, s.live, 20);
    AlignedPayload(s.heap, 20);
  }

  /** All of the heap is in use. A request for an aligned page is within the limit, but the expansion makes no room for
      the alignment offset: the heap grows, and the answer is NULL. */
  lemma AlignedNullWitness() returns (s: State)
    ensures Reached(s) && Enabled(s, MallocAligned(PAGE)) && !OverLimit(s.heap, Need(PAGE))
    ensures Allocate(s.heap, PAGE, true, 0).1 == NULL && Next(s, MallocAligned(PAGE)).heap.end > s.heap.end
  {
    hide Serves, Reached, Chain, Addrs, AllTagged, UntaggedBelow, Allocate, Load32, AllUsed;
    var s0, b := Start();
    assert [] + [b] == [b];
    s := ServeAll(s0, [], b) by { NoneUsed(); }
    var bs := [b.(hole := false)];
    assert [] + bs == bs == bs + [];
    assert AllUsed(bs) by { OneUsed(b.(hole := false)); }
    IndexIs(s.heap, bs, []);
    FullHeap(s, bs);
  }

  lemma OneUsed(b: Block)
    requires !b.hole
    ensures AllUsed([b])
  {
  }

  lemma FullHeap(s: State, bs: seq<Block>)
    requires Looks(s, bs) && s.heap.index == [] && s.heap.end == HEAP_INITIAL_END
    ensures Enabled(s, MallocAligned(PAGE)) && !OverLimit(s.heap, Need(PAGE))
    ensures Allocate(s.heap, PAGE, true, 0).1 == NULL && Next(s, MallocAligned(PAGE)).heap.end > s.heap.end
  {
    hide Serves, Reached, Chain, Addrs, AllTagged, UntaggedBelow, Allocate, Load32, Grow;
    var h, need := s.heap, PAGE + OVERHEAD;
    NeedFits(PAGE);
    assert !OverLimit(h, need) && NoWrap(h, need);
    assert !AlignedFits(h, need);
    assert !GrownHoleFits(h, need);
    RetryFits(h, bs, need);
    AlignedExpansionIff(h, s.live, PAGE);
    GrowsTo(h, need);
  }

  lemma FirstFound(h: Heap, r: Block)
    requires h.index == [r.addr] && SizeAt(h.mem, r.addr) == r.size && r.addr == FIRST + 4084
              && 40 <= r.size < 0x8000_0000
    ensures FindFrom(h.mem, h.index, Need(20), true, 0) == 0 && FrontGap(r.addr) == 0
  {
    hide Load32;
    assert Fits(h.mem, h.index[0], Need(20), true);
  }

  lemma AlignedPayload(h: Heap, size: int)
    requires AlignedFound(h, size)
    ensures var i := FindFrom(h.mem, h.index, Need(size), true, 0);
            Allocate(h, size, true, 0).1 == h.index[i] + FrontGap(h.index[i]) + HEADER
  {
    hide PlaceBlock, Fits, Need, FrontGap;
  }

  /** A 40-byte hole, and the rest of the heap 30 bytes before a page boundary: an aligned request leaves a front hole
      of 30 bytes behind the one of 40 bytes in the index. */
  lemma AlignedOrderWitness() returns (s: State)
    ensures Reached(s) && Ordered(s.heap.mem, s.heap.index) && Enabled(s, MallocAligned(20))
    ensures !Ordered(Next(s, MallocAligned(20)).heap.mem, Next(s, MallocAligned(20)).heap.index)
  {
    hide Serves, Reached, Chain, Addrs, AllTagged, UntaggedBelow, Load32, Quiet, Held, At, Ordered, Inserted,
      SameOutside, Enabled, Next, Tagged;
    var s0, b := Start();
    assert [] + [b] == [b];
    var s1, us1, r1 := ServePart(s0, [], b, 20);
    var s2, us2, r2 := ServePart(s1, us1, r1, 3994);
    var bs := us2 + [r2];
    var s3 := Wipe(s2, bs);
    IndexIs(s3.heap, us2, [r2]);
    OneOrdered(s3.heap.mem, r2.addr);
    QuietIn(s3, bs[0], bs[1].addr + HEADER);
    s := Release(s3, bs, 0);
    AlignedBreaksOrder(s, bs[0 := bs[0].(hole := true)]);
  }

  lemma AlignedBreaksOrder(s: State, bs: seq<Block>)
    requires Looks(s, bs) && |bs| == 3 && Ordered(s.heap.mem, s.heap.index)
    requires bs[0] == Block(FIRST, 40, true) && !bs[1].hole && bs[2].hole
    requires bs[2].addr == FIRST + 4054 && 1000 <= bs[2].size < 0x8000_0000
    ensures Enabled(s, MallocAligned(20))
    ensures !Ordered(Next(s, MallocAligned(20)).heap.mem, Next(s, MallocAligned(20)).heap.index)
  {
    hide Serves, Reached, Chain, AllTagged, UntaggedBelow, Load32, Ordered, Addrs, Allocate;
    var h := s.heap;
    TwoHoles(h, bs);
    HoleTag(h, bs, 0);
    HoleTag(h, bs, 2);
    TwoOrdered(h.mem, h.index, bs[0].addr, bs[2].addr);
    SecondFound(h, bs[0], bs[2]);
    AlignedOrderedIff(h, s.live, 20);
  }

  lemma TwoHoles(h: Heap, bs: seq<Block>)
    requires Tiled(h, bs) && |bs| == 3 && bs[0].hole && !bs[1].hole && bs[2].hole
    ensures multiset(h.index) == multiset{bs[0].addr, bs[2].addr}
  {
    hide Chain, AllTagged, UntaggedBelow, Addrs;
    assert bs == [bs[0]] + [bs[1]] + [bs[2]];
    AddrsConcat([bs[0]] + [bs[1]], [bs[2]], true);
    AddrsConcat([bs[0]], [bs[1]], true);
    forall k | 0 <= k < 3
      ensures Addrs([bs[k]], true) == if bs[k].hole then [bs[k].addr] else []
    {
      Single(bs[k]);
    }
    assert Addrs(bs, true) == [bs[0].addr, bs[2].addr];
  }

  lemma TwoOrdered(m: Bytes, s: seq<int>, a: int, b: int)
    requires Ordered(m, s) && multiset(s) == multiset{a, b} && SizeAt(m, a) < SizeAt(m, b)
    ensures s == [a, b]
  {
    hide SizeAt, Ordered;
    OrderedAt(m, s);
    assert |s| == |multiset(s)| == 2;
    assert s[0] in multiset(s) && s[1] in multiset(s);
    assert a in multiset(s) && b in multiset(s);
    assert a in s && b in s;
  }

  /** The small hole is too small for the request behind its alignment offset, and the other leaves 30 bytes. */
  lemma SecondFound(h: Heap, a: Block, r: Block)
    requires h.index == [a.addr, r.addr] && SizeAt(h.mem, a.addr) == 40 && SizeAt(h.mem, r.addr) == r.size
    requires a.addr == FIRST && r.addr == FIRST + 4054 && 1000 <= r.size < 0x8000_0000 && h.capacity == HEAP_INDEX_SIZE
    ensures FindFrom(h.mem, h.index, Need(20), true, 0) == 1 && FrontGap(r.addr) == 30
    ensures AlignedGuard(h, 20) && AlignedRequestGuard(h, 20)
  {
    hide Load32;
    assert !Fits(h.mem, h.index[0], Need(20), true);
    assert Fits(h.mem, h.index[1], Need(20), true);
    assert FindFrom(h.mem, h.index, Need(20), true, 1) == 1;
  }

  /** Holes of 30 and 40 bytes, then the 200-byte block above the first is freed: the merged hole of 230 bytes stays
      in front of the one of 40 bytes. */
  lemma OrderWitness() returns (s: State, p: int)
    ensures Reached(s) && Ordered(s.heap.mem, s.heap.index) && Enabled(s, Free(p)) && p != NULL
    ensures !Ordered(Next(s, Free(p)).heap.mem, Next(s, Free(p)).heap.index)
  {
    hide Serves, Reached, Chain, Addrs, AllTagged, UntaggedBelow, Unallocate, Load32, Quiet, Held, At, Ordered,
      Inserted, FreeGuard, MergeKeepsOrder, SameOutside, Tagged;
    var s0, b := Start();
    assert [] + [b] == [b];
    var s1, us1, r1 := ServePart(s0, [], b, 10);
    var s2, us2, r2 := ServePart(s1, us1, r1, 180);
    var s3, us3, r3 := ServePart(s2, us2, r2, 20);
    var s4, us4, r4 := ServePart(s3, us3, r3, 310);
    var bs := us4 + [r4];
    var s5 := Wipe(s4, bs);
    IndexIs(s5.heap, us4, [r4]);
    OneOrdered(s5.heap.mem, r4.addr);
    QuietIn(s5, bs[0], bs[1].addr + HEADER);
    QuietIn(s5, bs[1], bs[3].addr + HEADER);
    QuietIn(s5, bs[2], bs[3].addr + HEADER);
    var s6 := Release(s5, bs, 0);
    var bs6 := bs[0 := bs[0].(hole := true)];
    QuietFrame(s5.heap.mem, s6.heap.mem, bs[0].addr, bs[0].End(), bs[1]);
    QuietFrame(s5.heap.mem, s6.heap.mem, bs[0].addr, bs[0].End(), bs[2]);
    assert |s6.heap.index| == 2 by { TwoInserted(s5.heap.index, r4, bs[0].addr, SizeLess(s6.heap.mem)); }
    s := Release(s6, bs6, 2);
    var bs7 := bs6[2 := bs6[2].(hole := true)];
    QuietFrame(s6.heap.mem, s.heap.mem, bs[2].addr, bs[2].End(), bs[1]);
    p := bs[1].addr + HEADER;
    OrderBroken(s, bs7, p);
  }

  lemma OneOrdered(m: Bytes, a: int)
    ensures Ordered(m, [a])
  {
  }

  lemma OrderBroken(s: State, bs: seq<Block>, p: int)
    requires Looks(s, bs) && |bs| == 5 && Ordered(s.heap.mem, s.heap.index) && Quiet(s.heap.mem, bs[1])
    requires bs[0].hole && !bs[1].hole && bs[2].hole && !bs[3].hole && bs[4].hole
    requires bs[0].size == 30 && bs[1].size == 200 && bs[2].size == 40 && bs[4].size > 40 && p == bs[1].addr + HEADER
    ensures Enabled(s, Free(p)) && p != NULL
    ensures !Ordered(Next(s, Free(p)).heap.mem, Next(s, Free(p)).heap.index)
  {
    hide Serves, Reached, Chain, AllTagged, UntaggedBelow, Unallocate, Load32, Ordered, Inserted, LeftTest, Addrs;
    var h := s.heap;
    MergeGuard(s, bs, p);
    FreeMergeOrderedIff(h, bs, 1);
    ThreeHoles(h, bs);
    HoleSizes(h, bs);
    ThreeOrdered(h.mem, h.index, bs[0].addr, bs[2].addr, bs[4].addr);
  }

  lemma MergeGuard(s: State, bs: seq<Block>, p: int)
    requires Looks(s, bs) && |bs| == 5 && Quiet(s.heap.mem, bs[1]) && bs[0].hole && !bs[1].hole
    requires p == bs[1].addr + HEADER
    ensures p in s.live && FreeGuard(s.heap, p) && p != NULL
    ensures Unallocate(s.heap, p).Freed? && !Swallows(s.heap.mem, bs[1].End() - FOOTER)
  {
    hide Reached, Load32, Chain, Addrs, UntaggedBelow, LeftTest, Unallocate;
    TaggedAt(s.heap, bs, 1);
    HoleTag(s.heap, bs, 1);
    LeftTestIff(s.heap, bs, 1);
    ChainWithin(bs, s.heap.start, s.heap.end, 1);
    ChainWithin(bs, s.heap.start, s.heap.end, 2);
    ChainDisjoint(bs, s.heap.start, s.heap.end, 1, 2);
    assert bs[1] in bs;
    FreedIff(s.heap, bs, 1);
  }

  lemma HoleTag(h: Heap, bs: seq<Block>, k: nat)
    requires Tiled(h, bs) && k < |bs|
    ensures SizeAt(h.mem, bs[k].addr) == bs[k].size
  {
    hide Chain, Addrs, UntaggedBelow;
    TaggedAt(h, bs, k);
  }

  lemma HoleSizes(h: Heap, bs: seq<Block>)
    requires Tiled(h, bs) && |bs| == 5
    ensures SizeAt(h.mem, bs[0].addr) == bs[0].size && SizeAt(h.mem, bs[2].addr) == bs[2].size
    ensures SizeAt(h.mem, bs[4].addr) == bs[4].size
  {
    hide Tiled;
    HoleTag(h, bs, 0);
    HoleTag(h, bs, 2);
    HoleTag(h, bs, 4);
  }

  lemma ThreeHoles(h: Heap, bs: seq<Block>)
    requires Tiled(h, bs) && |bs| == 5 && bs[0].hole && !bs[1].hole && bs[2].hole && !bs[3].hole && bs[4].hole
    ensures multiset(h.index) == multiset{bs[0].addr, bs[2].addr, bs[4].addr}
  {
    hide Chain, AllTagged, UntaggedBelow, Addrs;
    FiveBlocks(bs);
  }

  lemma FiveBlocks(bs: seq<Block>)
    requires |bs| == 5 && bs[0].hole && !bs[1].hole && bs[2].hole && !bs[3].hole && bs[4].hole
    ensures Addrs(bs, true) == [bs[0].addr, bs[2].addr, bs[4].addr]
  {
    hide Addrs;
    var front := [bs[0]] + [bs[1]];
    var most := front + [bs[2]] + [bs[3]];
    assert bs == most + [bs[4]];
    AddrsConcat(most, [bs[4]], true);
    AddrsConcat(front + [bs[2]], [bs[3]], true);
    AddrsConcat(front, [bs[2]], true);
    AddrsConcat([bs[0]], [bs[1]], true);
    forall k | 0 <= k < 5
      ensures Addrs([bs[k]], true) == if bs[k].hole then [bs[k].addr] else []
    {
      Single(bs[k]);
    }
  }

  lemma ThreeOrdered(m: Bytes, s: seq<int>, a: int, b: int, c: int)
    requires Ordered(m, s) && multiset(s) == multiset{a, b, c} && SizeAt(m, a) < SizeAt(m, b) < SizeAt(m, c)
    ensures s == [a, b, c] && SlotOf(s, a, 0) == 0
  {
    hide SizeAt, Ordered;
    OrderedAt(m, s);
    assert |s| == |multiset(s)| == 3;
    assert s[0] in multiset(s) && s[1] in multiset(s) && s[2] in multiset(s);
    assert a in multiset(s) && b in multiset(s) && c in multiset(s);
    assert a in s && b in s && c in s;
  }
}
