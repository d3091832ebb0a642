/** Exactly when page-aligned allocation from a hole keeps the heap sound. */
module HeapAlignedLimits {
  import opened Machine
  import opened Memory
  import opened OrderedArrays
  import opened HeapModel
  import opened HeapTiling
  import opened HeapProofs
  import opened HeapSafety
  import opened HeapAligned
  import opened HeapLimits
  import opened HeapOrder

  /** An aligned request that some hole above the first page fits. */
  predicate AlignedFound(h: Heap, size: int) {
    var i := FindFrom(h.mem, h.index, Need(size), true, 0);
    0 <= size < WORD && i < |h.index| && PAGE <= h.index[i]
  }

  /** What is true of the heap `allocate` leaves, however small the front gap and the tail are. */
  lemma AfterCarve(h: Heap, b: Block, gap: int, taken: int)
    ensures var h' := PlaceBlock(GapHeap(h, b, gap), b.addr + gap, b.size - gap, taken);
            && h'.start == h.start && h'.end == h.end
            && (forall a :: a in h.index ==> a in h'.index)
            && (|h.index| >= h.capacity ==> h'.index == h.index)
            && ((b.size - gap - taken) % WORD != 0 && |h.index| < h.capacity ==> b.addr + gap + taken in h'.index)
  {
    hide WriteHeader, WriteFooter, Inserted, SizeLess;
    var g := GapHeap(h, b, gap);
    var h' := PlaceBlock(g, b.addr + gap, b.size - gap, taken);
    if (b.size - gap - taken) % WORD != 0 {
      InsertedMembers(g.index, g.capacity, b.addr + gap + taken, SizeLess(h'.mem));
      if |h.index| >= h.capacity { FullDrops(g.index, g.capacity, b.addr + gap + taken, SizeLess(h'.mem)); }
    }
  }

  lemma HeaderAbove(m: Bytes, a: int, size: int, hole: Byte, lo: int)
    requires lo <= a
    ensures forall x :: x < lo ==> At(WriteHeader(m, a, size, hole), x) == At(m, x)
  {
    hide Store32, Store8, At;
    var m1 := Store32(m, a + 4, size);
    var m2 := Store32(m1, a, MAGIC);
    StoreFrame(m, a + 4, size);
    StoreFrame(m1, a, MAGIC);
    Stored8(m2, a + 8, hole);
  }

  /** Every write is above the footer of the front gap. */
  lemma CarveWritesAbove(h: Heap, b: Block, gap: int, taken: int)
    requires OVERHEAD <= taken && OVERHEAD <= b.size && gap <= FOOTER
    ensures var h' := PlaceBlock(GapHeap(h, b, gap), b.addr + gap, b.size - gap, taken);
            forall x :: x < b.addr + gap - FOOTER ==> At(h'.mem, x) == At(h.mem, x)
  {
    hide WriteHeader, WriteFooter, Inserted, SizeLess, At;
    var lo, pos, room := b.addr + gap - FOOTER, b.addr + gap, b.size - gap;
    HeaderAbove(h.mem, b.addr, gap, 1, lo);
    var m0 := WriteHeader(h.mem, b.addr, gap, 1);
    FooterAbove(m0, lo, b.addr, lo);
    var g := GapHeap(h, b, gap);
    HeaderAbove(g.mem, pos, taken, 0, lo);
    var m1 := WriteHeader(g.mem, pos, taken, 0);
    FooterAbove(m1, pos + taken - FOOTER, pos, lo);
    var m := WriteFooter(m1, pos + taken - FOOTER, pos);
    HeaderAbove(m, pos + taken, room - taken, 1, lo);
    var m2 := WriteHeader(m, pos + taken, room - taken, 1);
    FooterAbove(m2, pos + taken + (room - taken) - FOOTER, pos + taken, lo);
  }

  /** A front gap without room for tags of its own breaks the heap. */
  lemma SmallGapUnsound(h: Heap, live: map<int, int>, bs: seq<Block>, k: nat, gap: int, taken: int, size: int)
    requires Tiled(h, bs) && Serves(bs, live) && k < |bs| && bs[k].hole
    requires OVERHEAD <= taken && -HEADER < gap < OVERHEAD
    ensures var h' := PlaceBlock(GapHeap(h, bs[k], gap), bs[k].addr + gap, bs[k].size - gap, taken);
            !Sound(h', live[bs[k].addr + gap + HEADER := size])
  {
    hide Chain, Addrs, AllTagged, UntaggedBelow, PlaceBlock, GapHeap, Serves;
    var b := bs[k];
    var u := b.addr + gap;
    var h' := PlaceBlock(GapHeap(h, b, gap), u, b.size - gap, taken);
    var live' := live[u + HEADER := size];
    ChainWithin(bs, h.start, h.end, k);
    AfterCarve(h, b, gap, taken);
    IndexedHole(h, bs, k);
    if Sound(h', live') {
      var bs': seq<Block> :| Tiled(h', bs') && Serves(bs', live');
      var i :| 0 <= i < |h'.index| && h'.index[i] == b.addr;
      var f := HoleOf(h', bs', i);
      var n := UsedOf(bs', live', u + HEADER);
      if gap == 0 {
        OneStart(bs', h.start, h.end, f, n);
      } else if gap > 0 {
        StartsApart(bs', h.start, h.end, f, n);
      } else if k == 0 {
        FirstStart(bs, h.start, h.end);
        ChainWithin(bs', h.start, h.end, n);
      } else {
        var j := BelowOverlaps(h, live, bs, k, gap, taken, h', live', bs');
        StartsApart(bs', h.start, h.end, j, n);
      }
      assert false;
    }
  }

  /** A used block that starts below its hole runs into the block before that hole. */
  lemma BelowOverlaps(h: Heap, live: map<int, int>, bs: seq<Block>, k: nat, gap: int, taken: int,
                      h': Heap, live': map<int, int>, bs': seq<Block>) returns (j: nat)
    requires Tiled(h, bs) && Serves(bs, live) && 0 < k < |bs| && bs[k].hole
    requires OVERHEAD <= taken && -HEADER < gap < 0
    requires h' == PlaceBlock(GapHeap(h, bs[k], gap), bs[k].addr + gap, bs[k].size - gap, taken)
    requires Tiled(h', bs') && Serves(bs', live') && forall p :: p in live ==> p in live'
    ensures var u := bs[k].addr + gap;
            j < |bs'| && bs'[j].addr < u && (u < bs'[j].addr + OVERHEAD || u < bs'[j].End())
  {
    hide Chain, Addrs, AllTagged, UntaggedBelow, PlaceBlock, GapHeap, Serves, At, Load32;
    var b, prev := bs[k], bs[k - 1];
    var u := b.addr + gap;
    ChainWithin(bs, h.start, h.end, k);
    AfterCarve(h, b, gap, taken);
    SplitPair(h, bs, k);
    Indexed(h, live, bs, k - 1);
    j := StartOf(h', live', bs', prev.addr);
    if prev.addr + OVERHEAD <= u {
      CarveWritesAbove(h, b, gap, taken);
      SameLoad(h.mem, h'.mem, prev.addr + 4, u - FOOTER);
      TaggedAt(h, bs, k - 1);
    }
  }

  /** A tail without room for tags of its own breaks the heap. */
  lemma SmallTailUnsound(h: Heap, live: map<int, int>, bs: seq<Block>, k: nat, gap: int, taken: int, size: int)
    requires Tiled(h, bs) && Serves(bs, live) && k < |bs| && bs[k].hole && |h.index| < h.capacity
    requires OVERHEAD <= taken && OVERHEAD <= gap && 0 < bs[k].size - gap - taken < OVERHEAD
    ensures var h' := PlaceBlock(GapHeap(h, bs[k], gap), bs[k].addr + gap, bs[k].size - gap, taken);
            !Sound(h', live[bs[k].addr + gap + HEADER := size])
  {
    hide Chain, Addrs, AllTagged, UntaggedBelow, PlaceBlock, GapHeap, Serves;
    var b := bs[k];
    var u := b.addr + gap;
    var h' := PlaceBlock(GapHeap(h, b, gap), u, b.size - gap, taken);
    var live' := live[u + HEADER := size];
    ChainWithin(bs, h.start, h.end, k);
    AfterCarve(h, b, gap, taken);
    if Sound(h', live') {
      var bs': seq<Block> :| Tiled(h', bs') && Serves(bs', live');
      var j := StartOf(h', live', bs', u + taken);
      NothingPast(h, live, bs, k, h', live', bs', j);
      assert false;
    }
  }

  /** A block that starts inside a hole ends inside it, as long as the other blocks keep their starts. */
  lemma NothingPast(h: Heap, live: map<int, int>, bs: seq<Block>, k: nat,
                    h': Heap, live': map<int, int>, bs': seq<Block>, j: nat)
    requires Tiled(h, bs) && Serves(bs, live) && k < |bs| && h'.start == h.start && h'.end == h.end
    requires Tiled(h', bs') && Serves(bs', live') && j < |bs'| && bs'[j].addr < bs[k].End()
    requires (forall a :: a in h.index ==> a in h'.index) && forall p :: p in live ==> p in live'
    ensures bs'[j].End() <= bs[k].End() && OVERHEAD <= bs'[j].size
  {
    hide Chain, Addrs, AllTagged, UntaggedBelow, Serves;
    ChainWithin(bs', h.start, h.end, j);
    if k + 1 < |bs| {
      SplitPair(h, bs, k + 1);
      Indexed(h, live, bs, k + 1);
      var n := StartOf(h', live', bs', bs[k].End());
      StartsApart(bs', h.start, h.end, j, n);
    } else {
      LastEnds(bs, h.start, h.end);
    }
  }

  /** The size word of the new block is not touched by the tags of the tail. */
  lemma TakenWritten(h: Heap, b: Block, gap: int, taken: int)
    requires OVERHEAD <= taken < WORD && 0 < b.size - gap - taken
    ensures var h' := PlaceBlock(GapHeap(h, b, gap), b.addr + gap, b.size - gap, taken);
            SizeAt(h'.mem, b.addr + gap) == taken
  {
    hide WriteHeader, WriteFooter, Inserted, SizeLess, At, Load32, HeaderIs;
    var g := GapHeap(h, b, gap);
    var pos, room := b.addr + gap, b.size - gap;
    var m1 := WriteHeader(g.mem, pos, taken, 0);
    assert SizeAt(m1, pos) == taken by { HeaderWritten(g.mem, pos, taken, 0); HeaderSize(m1, pos, taken, false); }
    var foot := pos + taken - FOOTER;
    var m := WriteFooter(m1, foot, pos);
    FooterAbove(m1, foot, pos, foot);
    SameLoad(m1, m, pos + 4, foot);
    var m2 := WriteHeader(m, pos + taken, room - taken, 1);
    HeaderAbove(m, pos + taken, room - taken, 1, foot);
    SameLoad(m, m2, pos + 4, foot);
    var last := pos + taken + (room - taken) - FOOTER;
    var m3 := WriteFooter(m2, last, pos + taken);
    FooterAbove(m2, last, pos + taken, foot);
    SameLoad(m2, m3, pos + 4, foot);
  }

  /** A tail that a full index does not record breaks the heap. */
  lemma LostTailUnsound(h: Heap, live: map<int, int>, bs: seq<Block>, k: nat, gap: int, taken: int, size: int)
    requires Tiled(h, bs) && Serves(bs, live) && k < |bs| && bs[k].hole && |h.index| >= h.capacity
    requires OVERHEAD <= taken < WORD && OVERHEAD <= gap && 0 < bs[k].size - gap - taken
    ensures var h' := PlaceBlock(GapHeap(h, bs[k], gap), bs[k].addr + gap, bs[k].size - gap, taken);
            !Sound(h', live[bs[k].addr + gap + HEADER := size])
  {
    hide Chain, Addrs, AllTagged, UntaggedBelow, PlaceBlock, GapHeap, Serves, Load32;
    var b := bs[k];
    var u := b.addr + gap;
    var h' := PlaceBlock(GapHeap(h, b, gap), u, b.size - gap, taken);
    var live' := live[u + HEADER := size];
    ChainWithin(bs, h.start, h.end, k);
    AfterCarve(h, b, gap, taken);
    TakenWritten(h, b, gap, taken);
    if Sound(h', live') {
      var bs': seq<Block> :| Tiled(h', bs') && Serves(bs', live');
      var n := UsedOf(bs', live', u + HEADER);
      TaggedAt(h', bs', n);
      NextStart(bs', h.start, h.end, n);
      Indexed(h', live', bs', n + 1);
      var j := StartOf(h, live, bs, u + taken);
      StartsApart(bs, h.start, h.end, k, j);
      assert false;
    }
  }

  // ---- a hole that fits only because its size and the request are compared as signed numbers ----

  /** The block that covers an address of the heap. */
  lemma {:induction false} Covering(bs: seq<Block>, lo: int, hi: int, a: int) returns (j: nat)
    requires Chain(bs, lo, hi) && lo <= a < hi
    ensures j < |bs| && bs[j].addr <= a < bs[j].End()
  {
    if a < bs[0].End() {
      j := 0;
    } else {
      var i := Covering(bs[1..], bs[0].End(), hi, a);
      j := i + 1;
    }
  }

  lemma HeaderOnly(m: Bytes, a: int, size: int, hole: Byte, lo: int, hi: int)
    requires a + HEADER <= lo || hi <= a
    ensures forall x :: lo <= x < hi ==> At(WriteHeader(m, a, size, hole), x) == At(m, x)
  {
    hide Store32, Store8, At;
    var m1 := Store32(m, a + 4, size);
    var m2 := Store32(m1, a, MAGIC);
    StoreFrame(m, a + 4, size);
    StoreFrame(m1, a, MAGIC);
    Stored8(m2, a + 8, hole);
  }

  lemma FooterOnly(m: Bytes, a: int, header: int, lo: int, hi: int)
    requires a + FOOTER <= lo || hi <= a
    ensures forall x :: lo <= x < hi ==> At(WriteFooter(m, a, header), x) == At(m, x)
  {
    hide Store32, At;
    var m1 := Store32(m, a + 4, header);
    StoreFrame(m, a + 4, header);
    StoreFrame(m1, a, MAGIC);
  }

  /** Between a small hole and the payload placed far above it nothing is written. */
  lemma CarveWritesBeyond(h: Heap, b: Block, gap: int, taken: int)
    requires 0 <= taken && OVERHEAD <= b.size <= gap
    ensures var h' := PlaceBlock(GapHeap(h, b, gap), b.addr + gap, b.size - gap, taken);
            forall x :: b.End() <= x < b.addr + gap - FOOTER ==> At(h'.mem, x) == At(h.mem, x)
  {
    hide WriteHeader, WriteFooter, Inserted, SizeLess, At;
    var lo, hi, pos, room := b.End(), b.addr + gap - FOOTER, b.addr + gap, b.size - gap;
    HeaderOnly(h.mem, b.addr, gap, 1, lo, hi);
    var m0 := WriteHeader(h.mem, b.addr, gap, 1);
    FooterOnly(m0, hi, b.addr, lo, hi);
    var g := GapHeap(h, b, gap);
    HeaderOnly(g.mem, pos, taken, 0, lo, hi);
    var m1 := WriteHeader(g.mem, pos, taken, 0);
    FooterOnly(m1, pos + taken - FOOTER, pos, lo, hi);
    var m := WriteFooter(m1, pos + taken - FOOTER, pos);
    HeaderOnly(m, pos + taken, room - taken, 1, lo, hi);
    var m2 := WriteHeader(m, pos + taken, room - taken, 1);
    FooterOnly(m2, pos + taken + (room - taken) - FOOTER, pos + taken, lo, hi);
  }

  /** A payload placed inside a block above its hole runs into that block. */
  lemma InsideAnother(h: Heap, live: map<int, int>, bs: seq<Block>, k: nat, gap: int, taken: int, size: int,
                      bs': seq<Block>) returns (f: nat, n: nat)
    requires Tiled(h, bs) && Serves(bs, live) && k < |bs| && bs[k].hole
    requires 0 <= taken && bs[k].size <= gap && bs[k].addr + gap + HEADER !in live
    requires var h' := PlaceBlock(GapHeap(h, bs[k], gap), bs[k].addr + gap, bs[k].size - gap, taken);
             Tiled(h', bs') && Serves(bs', live[bs[k].addr + gap + HEADER := size])
    ensures f < |bs'| && n < |bs'|
    ensures var x, y := bs'[f], bs'[n];
            || (x.addr == y.addr && x.hole && !y.hole)
            || (x.addr < y.addr && (y.addr < x.addr + OVERHEAD || y.addr < x.End()))
  {
    hide Chain, Addrs, AllTagged, UntaggedBelow, PlaceBlock, GapHeap, Serves, At, Load32;
    var b := bs[k];
    var u := b.addr + gap;
    var h' := PlaceBlock(GapHeap(h, b, gap), u, b.size - gap, taken);
    var live' := live[u + HEADER := size];
    ChainWithin(bs, h.start, h.end, k);
    AfterCarve(h, b, gap, taken);
    n := UsedOf(bs', live', u + HEADER);
    ChainWithin(bs', h.start, h.end, n);
    var j := Covering(bs, h.start, h.end, u);
    var c := bs[j];
    Indexed(h, live, bs, j);
    if c.addr == u {
      var i :| 0 <= i < |h'.index| && h'.index[i] == u;
      f := HoleOf(h', bs', i);
    } else {
      if j < k {
        ChainDisjoint(bs, h.start, h.end, j, k);
      } else if k < j {
        ChainDisjoint(bs, h.start, h.end, k, j);
      }
      f := StartOf(h', live', bs', c.addr);
      if c.addr + OVERHEAD <= u {
        CarveWritesBeyond(h, b, gap, taken);
        LoadWithin(h.mem, h'.mem, c.addr + 4, b.End(), u - FOOTER);
        TaggedAt(h, bs, j);
      }
    }
  }

  lemma LoadWithin(m: Bytes, m': Bytes, a: int, lo: int, hi: int)
    requires lo <= a && a + 4 <= hi && forall x :: lo <= x < hi ==> At(m', x) == At(m, x)
    ensures Load32(m', a) == Load32(m, a)
  {
  }

  /** A request that the hole cannot hold once the front gap is cut breaks the heap. */
  lemma NoTailUnsound(h: Heap, live: map<int, int>, bs: seq<Block>, k: nat, gap: int, taken: int, size: int)
    requires Tiled(h, bs) && Serves(bs, live) && k < |bs| && bs[k].hole
    requires 0 <= taken && bs[k].size - gap < size + OVERHEAD && bs[k].addr + gap + HEADER !in live
    ensures var h' := PlaceBlock(GapHeap(h, bs[k], gap), bs[k].addr + gap, bs[k].size - gap, taken);
            !Sound(h', live[bs[k].addr + gap + HEADER := size])
  {
    hide Chain, Addrs, AllTagged, UntaggedBelow, PlaceBlock, GapHeap, Serves;
    var b := bs[k];
    var u := b.addr + gap;
    var h' := PlaceBlock(GapHeap(h, b, gap), u, b.size - gap, taken);
    var live' := live[u + HEADER := size];
    AfterCarve(h, b, gap, taken);
    if Sound(h', live') {
      var bs': seq<Block> :| Tiled(h', bs') && Serves(bs', live');
      if b.size <= gap {
        var f, n := InsideAnother(h, live, bs, k, gap, taken, size, bs');
        if bs'[f].addr == bs'[n].addr {
          OneStart(bs', h.start, h.end, f, n);
        } else {
          StartsApart(bs', h.start, h.end, f, n);
        }
        assert false;
      } else {
        var n := UsedOf(bs', live', u + HEADER);
        NothingPast(h, live, bs, k, h', live', bs', n);
        assert false;
      }
    }
  }

  lemma GapBound(a: int)
    ensures -HEADER < FrontGap(a)
  {
  }

  /** Page-aligned allocation from a hole is sound, with a payload nobody holds, exactly when the front gap has room
      for tags and the tail is empty, or has room for tags and for an index entry. */
  lemma AlignedSoundIff(h: Heap, live: map<int, int>, size: int)
    requires Sound(h, live) && AlignedFound(h, size)
    ensures var (h', p) := Allocate(h, size, true, 0);
            p % PAGE == 0 && (p !in live && Sound(h', live[p := size]) <==> AlignedGuard(h, size))
  {
    hide Chain, Addrs, AllTagged, UntaggedBelow, PlaceBlock, Serves, WriteHeader, WriteFooter, FrontGap, Fits, Need,
      Taken;
    var bs: seq<Block> :| Tiled(h, bs) && Serves(bs, live);
    var i := FindFrom(h.mem, h.index, Need(size), true, 0);
    var k := HoleOf(h, bs, i);
    var b := bs[k];
    var gap, taken := FrontGap(b.addr), Taken(b.size, Need(size));
    PayloadAligned(b.addr);
    GapBound(b.addr);
    var p := b.addr + gap + HEADER;
    assert Allocate(h, size, true, 0) == (PlaceBlock(GapHeap(h, b, gap), b.addr + gap, b.size - gap, taken), p);
    if AlignedGuard(h, size) {
      AlignedSound(h, live, size);
    } else if p !in live {
      AlignedUnsound(h, live, bs, k, gap, size);
    }
  }

  lemma AlignedUnsound(h: Heap, live: map<int, int>, bs: seq<Block>, k: nat, gap: int, size: int)
    requires Tiled(h, bs) && Serves(bs, live) && k < |bs| && bs[k].hole && 0 <= size < WORD
    requires PAGE <= bs[k].addr && -HEADER < gap && bs[k].addr + gap + HEADER !in live
    requires var tail := bs[k].size - gap - (size + OVERHEAD);
             !(OVERHEAD <= gap && (tail == 0 || (OVERHEAD <= tail && |h.index| < h.capacity)))
    ensures var taken := Taken(bs[k].size, Need(size));
            var h' := PlaceBlock(GapHeap(h, bs[k], gap), bs[k].addr + gap, bs[k].size - gap, taken);
            !Sound(h', live[bs[k].addr + gap + HEADER := size])
  {
    hide Chain, Addrs, AllTagged, UntaggedBelow, PlaceBlock, Serves, WriteHeader, WriteFooter, Need, Taken, Sound;
    var b := bs[k];
    var taken := Taken(b.size, Need(size));
    ChainWithin(bs, h.start, h.end, k);
    TakenCases(b.size, size, gap);
    if b.size - gap < size + OVERHEAD {
      NoTailUnsound(h, live, bs, k, gap, taken, size);
    } else if gap < OVERHEAD {
      SmallGapUnsound(h, live, bs, k, gap, taken, size);
    } else if |h.index| < h.capacity {
      SmallTailUnsound(h, live, bs, k, gap, taken, size);
    } else {
      LostTailUnsound(h, live, bs, k, gap, taken, size);
    }
  }

  /** The size of the block, by how the request compares with the hole. */
  lemma TakenCases(room: int, size: int, gap: int)
    requires 0 <= size < WORD && OVERHEAD <= room && room + HEADER < WORD && -HEADER < gap
    ensures var taken := Taken(room, Need(size));
            && 0 <= taken
            && (size + OVERHEAD <= room - gap ==> OVERHEAD <= taken < WORD)
            && (size + OVERHEAD <= room - gap && OVERHEAD <= gap ==> taken == size + OVERHEAD)
  {
  }

  // ---- an aligned request that expands the heap ----

  /** The hole the expansion grows, or makes, holds the request behind its alignment offset. The growth covers the
      request, but not that offset. */
  predicate GrownHoleFits(h: Heap, need: int) {
    var top := Highest(h.index);
    var a := if top.found then top.value else h.end;
    var room := (if top.found then SizeAt(h.mem, a) else 0) + Growth(h, need);
    Signed(room - AlignOffset(a)) >= Signed(need)
  }

  /** An aligned request within the limit that no hole fits is answered exactly when the grown hole fits it, and then
      as from any hole; else the heap has grown, and the answer is NULL. */
  lemma AlignedExpansionIff(h: Heap, live: map<int, int>, size: int)
    requires Sound(h, live) && 0 <= size && size + OVERHEAD < WORD && ExpansionGuard(h, size + OVERHEAD)
    requires !AlignedFits(h, Need(size)) && !OverLimit(h, Need(size)) && PAGE <= h.start
    ensures var (h', p) := Allocate(h, size, true, 0);
            var g := Grow(h, size + OVERHEAD);
            if GrownHoleFits(h, size + OVERHEAD)
            then p % PAGE == 0 && (p !in live && Sound(h', live[p := size]) <==> AlignedGuard(g, size))
            else p == NULL && h' == g && Sound(g, live)
  {
    hide Tiled, Serves, Grow, Need, Fits, SizeAt, Highest, NoWrap, GrownEnd, Allocate, AlignOffset, Signed,
      AlignedGuard, TopTouchesEnd;
    NeedFits(size);
    var need := size + OVERHEAD;
    var bs: seq<Block> :| Tiled(h, bs) && Serves(bs, live);
    AlignedRetryIs(h, size);
    GrowSound(h, live, need);
    RetryFits(h, bs, need);
    GrowsTo(h, need);
    if GrownHoleFits(h, need) {
      FoundAbove(Grow(h, need), live, size);
      AlignedSoundIff(Grow(h, need), live, size);
    }
  }

  lemma FoundAbove(g: Heap, live: map<int, int>, size: int)
    requires Sound(g, live) && AlignedFits(g, Need(size)) && PAGE <= g.start && 0 <= size < WORD
    ensures AlignedFound(g, size)
  {
    hide Tiled, Serves, Need, Fits;
    var bs: seq<Block> :| Tiled(g, bs) && Serves(bs, live);
    var k := HoleOf(g, bs, FindFrom(g.mem, g.index, Need(size), true, 0));
  }

  lemma RetryFits(h: Heap, bs: seq<Block>, need: int)
    requires Tiled(h, bs) && GrowGuard(h, need) && !AlignedFits(h, need)
    ensures AlignedFits(Grow(h, need), need) <==> GrownHoleFits(h, need)
  {
    hide Tiled, Grow, SizeAt, Highest, NoWrap, GrownEnd, AlignOffset, Signed;
    var g := Grow(h, need);
    if Highest(h.index).found {
      var k := TopGrows(h, bs, need);
      var t := Highest(h.index).slot;
      OthersSame(h, bs, need, k, t);
      assert forall i :: 0 <= i < |h.index| && i != t ==> !Fits(g.mem, h.index[i], need, true);
      assert Fits(g.mem, h.index[t], need, true) <==> GrownHoleFits(h, need);
    } else {
      NoHoles(h, bs);
      FreshIndex(h, bs, need);
      assert Fits(g.mem, g.index[0], need, true) <==> GrownHoleFits(h, need);
    }
  }

  lemma FreshIndex(h: Heap, bs: seq<Block>, need: int)
    requires Tiled(h, bs) && GrowGuard(h, need) && !Highest(h.index).found
    ensures Grow(h, need).index == [h.end] && SizeAt(Grow(h, need).mem, h.end) == Growth(h, need)
  {
    hide Chain, Addrs, AllTagged, UntaggedBelow, Grow, SizeAt, Highest, NoWrap, GrownEnd, SameOutside;
    ChainOrder(bs, h.start, h.end);
    GrowExact(h, need);
    GrowFresh(h, bs, need);
    GrowsTo(h, need);
    HeaderOfBlock(Grow(h, need), bs + [Block(h.end, Grow(h, need).end - h.end, true)], |bs|);
  }

  lemma GrowsTo(h: Heap, need: int)
    ensures Grow(h, need).end == GrownEnd(h, need) && Grow(h, need).start == h.start
  {
  }
}
