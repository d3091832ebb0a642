/** Whole runs of `heap_manager_malloc` and `heap_manager_free`, interleaved with arbitrary writes by the
    callers into the blocks they hold. */
module HeapRuns {
  import opened Machine
  import opened Memory
  import opened OrderedArrays
  import opened HeapModel
  import opened HeapTiling
  import opened HeapProofs
  import opened HeapSafety
  import opened HeapAligned

  datatype State = State(heap: Heap, live: map<int, int>)

  datatype Op =
    | Malloc(size: int)
    | MallocAligned(size: int)
    | Free(p: int)
    | Write(mem: Bytes)

  /** The address lies in a payload some caller holds. */
  ghost predicate Held(live: map<int, int>, a: int) {
    exists p :: p in live && p <= a < p + live[p]
  }

  ghost predicate Enabled(s: State, op: Op) {
    match op
    case Malloc(size) => MallocGuard(s.heap, size)
    case MallocAligned(size) => AlignedRequestGuard(s.heap, size)
    case Free(p) => p == NULL || (p in s.live && FreeGuard(s.heap, p))
    case Write(m) => forall a :: !Held(s.live, a) ==> At(m, a) == At(s.heap.mem, a)
  }

  function Next(s: State, op: Op): State {
    match op
    case Malloc(size) => Given(s, Allocate(s.heap, size, false, 0), size)
    case MallocAligned(size) => Given(s, Allocate(s.heap, size, true, 0), size)
    case Free(p) =>
      var r := Unallocate(s.heap, p);
      if r.Shrinks? then s else State(r.heap, s.live - {p})
    case Write(m) => s.(heap := s.heap.(mem := m))
  }

  function Given(s: State, r: (Heap, int), size: int): State {
    State(r.0, if r.1 == NULL then s.live else s.live[r.1 := size])
  }

  ghost predicate Inv(s: State) {
    && Sound(s.heap, s.live)
    && s.heap.end < s.heap.maxEnd + PAGE
    && NULL !in s.live
  }

  ghost predicate IsRun(trace: seq<State>, ops: seq<Op>) {
    && |trace| == |ops| + 1
    && forall i :: 0 <= i < |ops| ==> Enabled(trace[i], ops[i]) && trace[i + 1] == Next(trace[i], ops[i])
  }

  /** Callers' writes reach no tag. */
  lemma HeldInside(bs: seq<Block>, live: map<int, int>, lo: int, hi: int, b: Block, a: int)
    requires Chain(bs, lo, hi) && Serves(bs, live) && b in bs
    requires b.addr <= a < b.addr + HEADER || b.End() - FOOTER <= a < b.End()
    ensures !Held(live, a)
  {
    hide Chain, Addrs;
    if Held(live, a) {
      var p :| p in live && p <= a < p + live[p];
      var k := UsedOf(bs, live, p);
      ChainWithin(bs, lo, hi, k);
      OthersClear(bs, lo, hi, k);
      AllWithin(bs, lo, hi);
      assert false;
    }
  }

  lemma BelowNotHeld(bs: seq<Block>, live: map<int, int>, lo: int, hi: int, a: int)
    requires Chain(bs, lo, hi) && Serves(bs, live) && a < lo
    ensures !Held(live, a)
  {
    if Held(live, a) {
      var p :| p in live && p <= a < p + live[p];
      var k := UsedOf(bs, live, p);
      ChainWithin(bs, lo, hi, k);
      assert false;
    }
  }

  lemma TagsSurvive(m: Bytes, m': Bytes, b: Block, end: int)
    requires Tagged(m, b, end)
    requires forall a :: b.addr <= a < b.addr + HEADER || b.End() - FOOTER <= a < b.End() ==> At(m', a) == At(m, a)
    ensures Tagged(m', b, end)
  {
    hide At;
    assert Load32(m', b.addr) == Load32(m, b.addr);
    assert Load32(m', b.addr + 4) == Load32(m, b.addr + 4);
    assert At(m', b.addr + 8) == At(m, b.addr + 8);
    assert Load32(m', b.End() - FOOTER) == Load32(m, b.End() - FOOTER);
    assert Load32(m', b.End() - FOOTER + 4) == Load32(m, b.End() - FOOTER + 4);
  }

  lemma WriteTags(h: Heap, live: map<int, int>, bs: seq<Block>, m': Bytes, end: int)
    requires Tiled(h, bs) && Serves(bs, live) && AllTagged(h.mem, bs, end)
    requires forall a :: !Held(live, a) ==> At(m', a) == At(h.mem, a)
    ensures AllTagged(m', bs, end)
  {
    hide At, Chain, Addrs, Held, Serves, Tagged;
    forall b | b in bs
      ensures Tagged(m', b, end)
    {
      forall a | b.addr <= a < b.addr + HEADER || b.End() - FOOTER <= a < b.End()
        ensures At(m', a) == At(h.mem, a)
      {
        HeldInside(bs, live, h.start, h.end, b, a);
      }
      TagsSurvive(h.mem, m', b, end);
    }
  }

  lemma WriteTiled(h: Heap, live: map<int, int>, bs: seq<Block>, m': Bytes)
    requires Tiled(h, bs) && Serves(bs, live)
    requires forall a :: !Held(live, a) ==> At(m', a) == At(h.mem, a)
    ensures Tiled(h.(mem := m'), bs)
  {
    hide At, Chain, Addrs, Held, Serves, AllTagged;
    WriteTags(h, live, bs, m', h.end);
    forall a | a < h.start
      ensures At(m', a) == At(h.mem, a)
    {
      BelowNotHeld(bs, live, h.start, h.end, a);
    }
    BelowSame(h.mem, m', h.start);
  }

  lemma WriteSound(h: Heap, live: map<int, int>, m': Bytes)
    requires Sound(h, live)
    requires forall a :: !Held(live, a) ==> At(m', a) == At(h.mem, a)
    ensures Sound(h.(mem := m'), live)
  {
    hide At, Tiled, Held, Serves;
    var bs: seq<Block> :| Tiled(h, bs) && Serves(bs, live);
    WriteTiled(h, live, bs, m');
  }

  lemma BelowSame(m: Bytes, m': Bytes, a: int)
    requires forall x :: x < a ==> At(m', x) == At(m, x)
    requires UntaggedBelow(m, a)
    ensures UntaggedBelow(m', a)
  {
    assert Load32(m', a - FOOTER) == Load32(m, a - FOOTER);
  }

  /** An expansion overshoots the limit by less than a page. */
  lemma AllocateEnd(h: Heap, size: int, align: bool, iteration: nat)
    requires 0 <= size && h.end < h.maxEnd + PAGE
    ensures var h' := Allocate(h, size, align, iteration).0;
            h'.end < h'.maxEnd + PAGE && h'.maxEnd == h.maxEnd && h'.start == h.start
    decreases if iteration > 0 then 0 else 1
  {
    hide GrownEnd, Inserted, Removed, WriteHeader, WriteFooter, Store32, Fits, Highest, Need, Taken;
    var need := Need(size);
    var i := FindFrom(h.mem, h.index, need, align, 0);
    if i == |h.index| && !OverLimit(h, need) && iteration == 0 {
      GrownEndBound(h, need);
      AllocateEnd(Grow(h, need), size, align, iteration + 1);
    }
  }

  /** Rounding up to a page adds less than a page, also when the sum wraps. */
  lemma GrownEndBound(h: Heap, need: int)
    requires !OverLimit(h, need) && h.end < h.maxEnd + PAGE
    ensures GrownEnd(h, need) < h.maxEnd + PAGE
  {
    var length := (h.end - h.start + need) % WORD;
    var sum := h.start + length;
    assert (h.end + need) % WORD == sum % WORD by { SameModulo(h.end + need, sum, (h.end - h.start + need) / WORD); }
    assert h.start + PageUp(length) == sum + (PageUp(length) - length);
    AddedModulo(sum, PageUp(length) - length);
  }

  lemma SameModulo(a: int, b: int, k: int)
    requires a == b + k * WORD
    ensures a % WORD == b % WORD
  {
  }

  lemma AddedModulo(a: int, d: int)
    requires 0 <= d
    ensures (a + d) % WORD <= a % WORD + d
  {
  }

  lemma StepKeepsInv(s: State, op: Op)
    requires Inv(s) && Enabled(s, op)
    ensures Inv(Next(s, op))
  {
    hide Sound, MallocGuard, AlignedRequestGuard, FreeGuard, Allocate, KeepsPayloads, SomeHoleFits, Need;
    match op
    case Malloc(size) =>
      AllocateSound(s.heap, s.live, size);
      AllocateEnd(s.heap, size, false, 0) by { GuardSize(s.heap, size); }
    case MallocAligned(size) =>
      AlignedRequestSound(s.heap, s.live, size);
      AllocateEnd(s.heap, size, true, 0) by { GuardSize(s.heap, size); }
    case Free(p) =>
      if p != NULL {
        FreeSound(s.heap, s.live, p);
        FreeEnd(s.heap, p);
      } else {
        assert s.live - {p} == s.live;
      }
    case Write(m) =>
      WriteSound(s.heap, s.live, m);
  }

  lemma GuardSize(h: Heap, size: int)
    requires MallocGuard(h, size) || AlignedRequestGuard(h, size)
    ensures 0 <= size
  {
  }

  lemma FreeEnd(h: Heap, p: int)
    requires Unallocate(h, p).Freed?
    ensures var h' := Unallocate(h, p).heap; h'.end == h.end && h'.maxEnd == h.maxEnd
  {
  }

  /** In every run, whatever the callers write into their blocks, the heap stays tiled and tagged, the
      index holds exactly the holes, and the heap ends less than a page past its limit. */
  lemma {:induction false} RunKeepsInv(trace: seq<State>, ops: seq<Op>, n: nat)
    requires IsRun(trace, ops) && Inv(trace[0]) && n < |trace|
    ensures Inv(trace[n])
  {
    if n == 0 {
    } else {
      RunKeepsInv(trace, ops, n - 1);
      StepKeepsInv(trace[n - 1], ops[n - 1]);
    }
  }

  /** In a sound heap, what callers hold is inside the heap and pairwise disjoint, tags included. */
  lemma LiveDisjoint(h: Heap, live: map<int, int>, p: int, q: int)
    requires Sound(h, live) && p in live && q in live && p != q
    ensures h.start + HEADER <= p && p + live[p] + FOOTER <= h.end && 0 <= live[p] && 0 <= live[q]
    ensures p + live[p] + OVERHEAD <= q || q + live[q] + OVERHEAD <= p
  {
    hide Addrs, Chain;
    var bs: seq<Block> :| Tiled(h, bs) && Serves(bs, live);
    var j := UsedOf(bs, live, p);
    var k := UsedOf(bs, live, q);
    ChainWithin(bs, h.start, h.end, j);
    OthersClear(bs, h.start, h.end, j);
    assert bs[k] in bs && bs[k] != bs[j];
  }

  /** A step other than the holder's own write changes no byte a caller holds before and after it. */
  lemma StepKeepsBytes(s: State, op: Op, p: int, a: int)
    requires Inv(s) && Enabled(s, op) && !op.Write?
    requires p in s.live && p in Next(s, op).live && p <= a < p + s.live[p]
    ensures At(Next(s, op).heap.mem, a) == At(s.heap.mem, a) && Next(s, op).live[p] == s.live[p]
  {
    hide Sound, MallocGuard, AlignedRequestGuard, FreeGuard, Allocate, SomeHoleFits, At;
    match op
    case Malloc(size) => AllocateSound(s.heap, s.live, size);
    case MallocAligned(size) => AlignedRequestSound(s.heap, s.live, size);
    case Free(q) =>
      if q != NULL { FreeSound(s.heap, s.live, q); }
  }

  /** What `heap_manager_init` needs: room for one hole, and no footer that ends where the heap starts. */
  ghost predicate InitGuard(h: Heap, m: Bytes) {
    && 0 < h.capacity && FOOTER < h.start && h.start + OVERHEAD <= h.end < WORD && h.end < h.maxEnd + PAGE
    && UntaggedBelow(m, h.start)
  }

  /** The index lies at `base`, four bytes an entry, and the heap starts at the first page boundary above it. */
  lemma InitialExtent(base: int, end: int, maxEnd: int, capacity: nat, m: Bytes)
    requires 0x1000 <= base
    ensures var h := InitialHeap(base, end, maxEnd, capacity, m);
            && h.start % 0x1000 == 0 && base + 4 * capacity < h.start <= base + 4 * capacity + 0x1000
            && h.end == end && h.maxEnd == maxEnd && h.capacity == capacity
  {
    hide WriteHeader, Inserted;
    var raw := base + 4 * capacity;
    assert raw - raw % PAGE + PAGE == (raw / PAGE + 1) * PAGE;
  }

  lemma InitialTiled(base: int, end: int, maxEnd: int, capacity: nat, m: Bytes)
    requires InitGuard(InitialHeap(base, end, maxEnd, capacity, m), m)
    ensures var h := InitialHeap(base, end, maxEnd, capacity, m);
            var b := Block(h.start, end - h.start, true);
            Tiled(h, [b]) && Serves([b], map[]) && h.index == [h.start]
  {
    hide WriteHeader, At, Load32;
    var h := InitialHeap(base, end, maxEnd, capacity, m);
    var b := Block(h.start, end - h.start, true);
    HeaderWritten(m, h.start, end - h.start, 1);
    LoadFrame(m, h.mem, h.start, h.start + HEADER, h.start - FOOTER);
    Single(b);
  }

  /** `heap_manager_init` starts such a run: one hole, nothing live. */
  lemma InitialInv(base: int, end: int, maxEnd: int, capacity: nat, m: Bytes)
    requires InitGuard(InitialHeap(base, end, maxEnd, capacity, m), m)
    ensures Inv(State(InitialHeap(base, end, maxEnd, capacity, m), map[]))
  {
    hide Tiled, Serves;
    InitialTiled(base, end, maxEnd, capacity, m);
  }
}
