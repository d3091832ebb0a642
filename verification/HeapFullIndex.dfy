/** A run of the kernel's heap that fills the index of holes, and the release that is then lost. The heap stays below
    the end of the page table it starts with. */
module HeapFullIndex {
  import opened Memory
  import opened OrderedArrays
  import opened HeapModel
  import opened HeapTiling
  import opened HeapProofs
  import opened HeapSafety
  import opened HeapRuns
  import opened HeapLimits
  import opened HeapWitnesses

  /** Where the 4 MiB that the first page table of the heap maps end. */
  const FIRST_TABLE_END := 0xC080_0000

  /** One more block than the index has slots, of 21 bytes each. */
  const COUNT: nat := HEAP_INDEX_SIZE + 1
  const SIZE: nat := 21
  const ROW := 2_752_533

  // ---- a hole for all the blocks ----

  /** A hole of `ROW` bytes, then one block up to the end of the heap that its holder has cleared. */
  lemma Opened() returns (s: State, t: Block)
    ensures Looks(s, [Block(FIRST, ROW, true)] + [t]) && t == Block(FIRST + ROW, 0x32_0000 - ROW, false)
    ensures Cleared(s, t) && s.heap.end == FIRST + 0x32_0000
  {
    hide Serves, Reached, Chain, Addrs, AllTagged, UntaggedBelow, Load32, Quiet, Held, At, Inserted, AllUsed;
    assert PageUp(HEAP_INITIAL_END - FIRST + ROW) == 0x32_0000;
    var s1, b1, rest := ExpandOnce(ROW, 0x32_0000);
    var s2 := ServeAll(s1, [b1], rest) by { OneUsed(b1); }
    t := rest.(hole := false);
    var bs := [b1] + [t];
    var s3 := Wipe(s2, bs);
    QuietIn(s3, b1, t.addr + HEADER);
    TwoUsedIndex(s3.heap, b1, t);
    s := Release(s3, bs, 0);
    assert bs[0 := b1.(hole := true)] == [Block(FIRST, ROW, true)] + [t];
    ClearedBy(s3, t);
    ClearedFrame(s3, s, t, b1.addr, b1.End());
  }

  lemma TwoUsedIndex(h: Heap, b: Block, t: Block)
    requires Tiled(h, [b] + [t]) && !b.hole && !t.hole
    ensures h.index == []
  {
    hide Tiled;
    assert AllUsed([b] + [t]);
    assert ([b] + [t]) + [] == [b] + [t];
    IndexIs(h, [b] + [t], []);
  }

  /** The first bytes of the payload of `t` are zero. */
  ghost predicate Cleared(s: State, t: Block) {
    && t.addr + HEADER in s.live
    && forall a :: t.addr + HEADER <= a < t.addr + 100 ==> At(s.heap.mem, a) == 0
  }

  lemma ClearedBy(s: State, t: Block)
    requires t.addr + HEADER in s.live && s.live[t.addr + HEADER] >= 100
    requires forall a :: Held(s.live, a) ==> At(s.heap.mem, a) == 0
    ensures Cleared(s, t)
  {
    hide At;
    assert forall a :: t.addr + HEADER <= a < t.addr + 100 ==> Held(s.live, a);
  }

  lemma ClearedFrame(s: State, s': State, t: Block, lo: int, hi: int)
    requires Cleared(s, t) && SameOutside(s.heap.mem, s'.heap.mem, lo, hi) && hi <= t.addr
    requires t.addr + HEADER in s'.live
    ensures Cleared(s', t)
  {
    hide At;
  }

  // ---- the row of blocks ----

  /** The first `n` blocks of the row. */
  ghost function Line(n: nat): (r: seq<Block>)
    ensures |r| == n && forall i :: 0 <= i < n ==> r[i] == Block(FIRST + SIZE * i, SIZE, false)
  {
    seq(n, i => Block(FIRST + SIZE * i, SIZE, false))
  }

  lemma LineUsed(n: nat)
    ensures AllUsed(Line(n))
  {
  }

  /** What is left of the hole. */
  ghost function Rest(n: nat): seq<Block> {
    if n < COUNT then [Block(FIRST + SIZE * n, SIZE * (COUNT - n), true)] else []
  }

  ghost predicate Lined(s: State, n: nat, t: Block) {
    && n <= COUNT && Looks(s, Line(n) + Rest(n) + [t]) && Cleared(s, t) && s.heap.end == FIRST + 0x32_0000
    && t == Block(FIRST + ROW, 0x32_0000 - ROW, false)
  }

  lemma LineStart() returns (s: State, t: Block)
    ensures Lined(s, 0, t)
  {
    hide Looks, Cleared;
    s, t := Opened();
    assert Line(0) + Rest(0) + [t] == [Block(FIRST, ROW, true)] + [t];
  }

  lemma LineNext(s: State, n: nat, t: Block) returns (s': State)
    requires Lined(s, n, t) && n < COUNT
    ensures Lined(s', n + 1, t)
  {
    hide Tiled, Serves, Reached, AllUsed, Carve, Cleared, Placed, Taken, SameOutside;
    var us, b := Line(n), Rest(n)[0];
    LineUsed(n);
    OneUsed(t);
    assert Line(n) + Rest(n) + [t] == us + [b] + [t];
    Cut(s.heap, s.live, us, b, [t], 1);
    LineCut(n, b, t);
    s' := Next(s, Malloc(1));
    ReachedNext(s, Malloc(1));
    ClearedFrame(s, s', t, b.addr, b.End()) by { ClearedLive(s, s', t, b); }
  }

  lemma ClearedLive(s: State, s': State, t: Block, b: Block)
    requires Cleared(s, t) && s'.live == s.live[b.addr + HEADER := 1]
    ensures t.addr + HEADER in s'.live
  {
  }

  lemma LineCut(n: nat, b: Block, t: Block)
    requires n < COUNT && b == Rest(n)[0]
    ensures Line(n) + Placed(b.addr, b.size, Taken(b.size, 1 + OVERHEAD)) + [t] == Line(n + 1) + Rest(n + 1) + [t]
  {
    assert Taken(b.size, SIZE) == SIZE;
    assert Line(n) + Placed(b.addr, b.size, SIZE) == Line(n + 1) + Rest(n + 1);
  }

  lemma {:induction false} Lines(n: nat) returns (s: State, t: Block)
    requires n <= COUNT
    ensures Lined(s, n, t)
  {
    hide Lined;
    if n == 0 {
      s, t := LineStart();
    } else {
      s, t := Lines(n - 1);
      s := LineNext(s, n - 1, t);
    }
  }

  // ---- the blocks are freed from the top down ----

  /** The row with its last `j` blocks free. */
  ghost function Thinned(j: nat): (r: seq<Block>)
    ensures |r| == COUNT
    ensures forall i :: 0 <= i < COUNT ==> r[i] == Block(FIRST + SIZE * i, SIZE, COUNT - j <= i)
  {
    seq(COUNT, i => Block(FIRST + SIZE * i, SIZE, COUNT - j <= i))
  }

  ghost predicate Thin(s: State, j: nat, t: Block) {
    && j <= COUNT && Looks(s, Thinned(j) + [t]) && Cleared(s, t) && |s.heap.index| == j
    && t == Block(FIRST + ROW, 0x32_0000 - ROW, false) && s.heap.end == FIRST + 0x32_0000
  }

  lemma ThinStart() returns (s: State, t: Block)
    ensures Thin(s, 0, t)
  {
    hide Cleared;
    s, t := Lines(COUNT);
    assert Line(COUNT) + Rest(COUNT) == Thinned(0);
    RowIndex(s, t);
  }

  lemma RowIndex(s: State, t: Block)
    requires Looks(s, Thinned(0) + [t]) && !t.hole
    ensures s.heap.index == []
  {
    hide Tiled, Serves, Reached;
    var bs := Thinned(0) + [t];
    assert AllUsed(bs);
    assert bs + [] == bs;
    IndexIs(s.heap, bs, []);
  }

  /** Where the code looks for the right neighbour of a block it finds three bytes of a footer's magic number, or a byte
      that the holder of the last block has cleared. */
  lemma RowQuiet(s: State, j: nat, t: Block, i: nat)
    requires Thin(s, j, t) && i < COUNT
    ensures Quiet(s.heap.mem, (Thinned(j) + [t])[i])
  {
    hide Reached, Serves, Chain, Addrs, AllTagged, UntaggedBelow, At, Load32;
    var bs := Thinned(j) + [t];
    var a := FIRST + SIZE * i + SIZE - FOOTER + NEIGHBOUR;
    if i + 3 < COUNT {
      TaggedAt(s.heap, bs, i + 3);
      assert bs[i + 3].End() != s.heap.end;
      ShiftedMagic(s.heap.mem, bs[i + 3].End() - FOOTER);
    } else {
      ZeroAt(s.heap.mem, a) by { assert Cleared(s, t); }
    }
  }

  /** One byte into a magic number there is no magic number. */
  lemma ShiftedMagic(m: Bytes, a: int)
    requires Load32(m, a) == MAGIC
    ensures Load32(m, a + 1) != MAGIC
  {
    hide At;
    assert At(m, a + 1) == 0xBE;
  }

  lemma ZeroAt(m: Bytes, a: int)
    requires At(m, a) == 0 && At(m, a + 1) == 0 && At(m, a + 2) == 0 && At(m, a + 3) == 0
    ensures Load32(m, a) != MAGIC
  {
  }

  lemma ThinNext(s: State, j: nat, t: Block) returns (s': State)
    requires Thin(s, j, t) && j < HEAP_INDEX_SIZE
    ensures Thin(s', j + 1, t)
  {
    hide Quiet, Reached, Serves, Tiled, Inserted, SameOutside, Cleared;
    var bs := Thinned(j) + [t];
    var k := COUNT - j - 1;
    RowQuiet(s, j, t, k);
    s' := Release(s, bs, k);
    assert Thinned(j + 1) + [t] == bs[k := bs[k].(hole := true)];
    InsertedContents(s.heap.index, s.heap.capacity, bs[k].addr, SizeLess(s'.heap.mem));
    assert |s'.heap.index| == |multiset(s'.heap.index)| && |s.heap.index| == |multiset(s.heap.index)|;
    ClearedFrame(s, s', t, bs[k].addr, bs[k].End()) by { StillLive(s, s', t, bs[k]); }
  }

  lemma StillLive(s: State, s': State, t: Block, b: Block)
    requires Cleared(s, t) && s'.live == s.live - {b.addr + HEADER} && b.addr < t.addr
    ensures t.addr + HEADER in s'.live
  {
  }

  lemma {:induction false} ThinTo(j: nat) returns (s: State, t: Block)
    requires j <= HEAP_INDEX_SIZE
    ensures Thin(s, j, t)
  {
    hide Thin;
    if j == 0 {
      s, t := ThinStart();
    } else {
      s, t := ThinTo(j - 1);
      s := ThinNext(s, j - 1, t);
    }
  }

  /** The index can be filled without leaving the first page table; the next block freed with no hole below it is then
      recorded nowhere, and the heap is no longer sound. */
  lemma FullIndexWitness() returns (s: State, p: int)
    ensures Reached(s) && s.heap.end < FIRST_TABLE_END
    ensures p in s.live && |s.heap.index| == s.heap.capacity
    ensures !ReachesEnd(s.heap.mem, FooterOf(s.heap, p), s.heap.end) && !Swallows(s.heap.mem, FooterOf(s.heap, p))
    ensures Unallocate(s.heap, p).Freed? && !Sound(Unallocate(s.heap, p).heap, s.live - {p})
  {
    hide Quiet, Reached, Serves, Unallocate, Recordable, Swallows, ReachesEnd, Tiled, Cleared;
    var t;
    s, t := ThinTo(HEAP_INDEX_SIZE);
    RowQuiet(s, HEAP_INDEX_SIZE, t, 0);
    var bs := Thinned(HEAP_INDEX_SIZE) + [t];
    p := bs[0].addr + HEADER;
    FullRelease(s, bs, 0);
    FreeSoundIff(s.heap, s.live, p);
  }

  lemma FullRelease(s: State, bs: seq<Block>, k: nat)
    requires Looks(s, bs) && k + 1 < |bs| && !bs[k].hole && !(k > 0 && bs[k - 1].hole) && Quiet(s.heap.mem, bs[k])
    requires |s.heap.index| == s.heap.capacity
    ensures var p := bs[k].addr + HEADER;
            && p in s.live && !Recordable(s.heap, p) && Sound(s.heap, s.live)
            && !ReachesEnd(s.heap.mem, FooterOf(s.heap, p), s.heap.end) && !Swallows(s.heap.mem, FooterOf(s.heap, p))
  {
    hide Reached, Load32, Chain, Addrs, UntaggedBelow, LeftTest;
    TaggedAt(s.heap, bs, k);
    LeftTestIff(s.heap, bs, k);
    ChainWithin(bs, s.heap.start, s.heap.end, k + 1);
    ChainDisjoint(bs, s.heap.start, s.heap.end, k, k + 1);
    assert bs[k] in bs;
  }
}
