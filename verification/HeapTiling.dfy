/** The invariant of the heap: blocks tile `[start, end)`, their tags agree with the tiling, and the
    index holds exactly the holes. */
module HeapTiling {
  import opened Machine
  import opened Memory
  import opened HeapModel

  datatype Block = Block(addr: int, size: int, hole: bool) {
    function End(): int { addr + size }
  }

  /** The blocks cover `[lo, hi)` end to end, each with room for its two tags. */
  ghost predicate Chain(bs: seq<Block>, lo: int, hi: int) {
    if bs == [] then lo == hi
    else bs[0].addr == lo && bs[0].size >= OVERHEAD && Chain(bs[1..], bs[0].End(), hi)
  }

  ghost predicate HeaderIs(m: Bytes, a: int, size: int, hole: bool) {
    Load32(m, a) == MAGIC && SizeAt(m, a) == size && HoleAt(m, a) == hole
  }

  /** No footer ends at `a`. */
  ghost predicate UntaggedBelow(m: Bytes, a: int) {
    Load32(m, a - FOOTER) != MAGIC
  }

  ghost predicate FooterIs(m: Bytes, a: int, header: int) {
    Load32(m, a) == MAGIC && Load32(m, a + 4) == header
  }

  /** `heap_manager_init` writes no footer, so a hole that ends the heap may lack one. */
  ghost predicate Tagged(m: Bytes, b: Block, end: int) {
    && HeaderIs(m, b.addr, b.size, b.hole)
    && (FooterIs(m, b.End() - FOOTER, b.addr) || (b.hole && b.End() == end))
  }

  ghost predicate AllTagged(m: Bytes, bs: seq<Block>, end: int) {
    forall b :: b in bs ==> Tagged(m, b, end)
  }

  /** Addresses of the holes, or of the used blocks, in address order. */
  ghost function Addrs(bs: seq<Block>, hole: bool): seq<int> {
    if bs == [] then []
    else (if bs[0].hole == hole then [bs[0].addr] else []) + Addrs(bs[1..], hole)
  }

  ghost predicate Tiled(h: Heap, bs: seq<Block>) {
    && FOOTER < h.start && h.end < WORD
    && Chain(bs, h.start, h.end)
    && AllTagged(h.mem, bs, h.end)
    && UntaggedBelow(h.mem, h.start)
    && multiset(h.index) == multiset(Addrs(bs, true))
    && |h.index| <= h.capacity
  }

  // ---- chains ----

  lemma {:induction false} ChainConcat(xs: seq<Block>, ys: seq<Block>, lo: int, mid: int, hi: int)
    requires Chain(xs, lo, mid) && Chain(ys, mid, hi)
    ensures Chain(xs + ys, lo, hi)
  {
    if xs == [] {
      assert xs + ys == ys;
    } else {
      ChainConcat(xs[1..], ys, xs[0].End(), mid, hi);
      assert (xs + ys)[1..] == xs[1..] + ys;
    }
  }

  lemma {:induction false} ChainSplit(bs: seq<Block>, k: nat, lo: int, hi: int)
    requires Chain(bs, lo, hi) && k < |bs|
    ensures Chain(bs[..k], lo, bs[k].addr) && bs[k].size >= OVERHEAD
    ensures Chain(bs[k + 1..], bs[k].End(), hi)
  {
    if k == 0 {
    } else {
      ChainSplit(bs[1..], k - 1, bs[0].End(), hi);
      assert bs[1..][..k - 1] == bs[..k][1..];
      assert bs[1..][k..] == bs[k + 1..];
    }
  }

  lemma {:induction false} ChainOrder(bs: seq<Block>, lo: int, hi: int)
    requires Chain(bs, lo, hi)
    ensures lo <= hi
  {
    if bs == [] {
    } else {
      ChainOrder(bs[1..], bs[0].End(), hi);
    }
  }

  lemma ChainWithin(bs: seq<Block>, lo: int, hi: int, k: nat)
    requires Chain(bs, lo, hi) && k < |bs|
    ensures lo <= bs[k].addr && bs[k].End() <= hi && bs[k].size >= OVERHEAD
  {
    ChainSplit(bs, k, lo, hi);
    ChainOrder(bs[..k], lo, bs[k].addr);
    ChainOrder(bs[k + 1..], bs[k].End(), hi);
  }

  lemma ChainDisjoint(bs: seq<Block>, lo: int, hi: int, j: nat, k: nat)
    requires Chain(bs, lo, hi) && j < k < |bs|
    ensures bs[j].End() <= bs[k].addr
  {
    ChainSplit(bs, k, lo, hi);
    ChainWithin(bs[..k], lo, bs[k].addr, j);
  }

  // ---- addresses ----

  lemma {:induction false} AddrsConcat(xs: seq<Block>, ys: seq<Block>, hole: bool)
    ensures Addrs(xs + ys, hole) == Addrs(xs, hole) + Addrs(ys, hole)
  {
    if xs == [] {
      assert xs + ys == ys;
    } else {
      AddrsConcat(xs[1..], ys, hole);
      assert (xs + ys)[1..] == xs[1..] + ys;
      assert (xs + ys)[0] == xs[0];
      var front := if xs[0].hole == hole then [xs[0].addr] else [];
      assert front + (Addrs(xs[1..], hole) + Addrs(ys, hole)) == (front + Addrs(xs[1..], hole)) + Addrs(ys, hole);
    }
  }

  lemma {:induction false} Locate(bs: seq<Block>, hole: bool, a: int) returns (k: nat)
    requires a in Addrs(bs, hole)
    ensures k < |bs| && bs[k].addr == a && bs[k].hole == hole
  {
    if bs[0].hole == hole && bs[0].addr == a {
      k := 0;
    } else {
      k := Locate(bs[1..], hole, a);
      k := k + 1;
    }
  }

  lemma {:induction false} Listed(bs: seq<Block>, k: nat)
    requires k < |bs|
    ensures bs[k].addr in Addrs(bs, bs[k].hole)
  {
    if k == 0 {
    } else {
      Listed(bs[1..], k - 1);
    }
  }

  // ---- frames ----

  lemma HeaderWritten(m: Bytes, a: int, size: int, hole: Byte)
    requires 0 <= size < WORD
    ensures HeaderIs(WriteHeader(m, a, size, hole), a, size, hole != 0)
    ensures SameOutside(m, WriteHeader(m, a, size, hole), a, a + HEADER)
  {
    var m1 := Store32(m, a + 4, size);
    var m2 := Store32(m1, a, MAGIC);
    var m3 := Store8(m2, a + 8, hole);
    LoadOfStore(m, a + 4, size);
    LoadOfStore(m1, a, MAGIC);
    LoadFrame(m1, m2, a, a + 4, a + 4);
    LoadFrame(m2, m3, a + 8, a + 9, a);
    LoadFrame(m2, m3, a + 8, a + 9, a + 4);
  }

  lemma HeaderSize(m: Bytes, a: int, size: int, hole: bool)
    requires HeaderIs(m, a, size, hole)
    ensures SizeAt(m, a) == size
  {
  }

  lemma FooterWritten(m: Bytes, a: int, header: int)
    requires 0 <= header < WORD
    ensures FooterIs(WriteFooter(m, a, header), a, header)
    ensures SameOutside(m, WriteFooter(m, a, header), a, a + FOOTER)
  {
    var m1 := Store32(m, a + 4, header);
    LoadOfStore(m, a + 4, header);
    LoadOfStore(m1, a, MAGIC);
    LoadFrame(m1, Store32(m1, a, MAGIC), a, a + 4, a + 4);
  }

  /** The bytes of the two tags: a header is the magic number, the size and the hole flag; a footer is the magic number
      and the address of the header. */
  lemma TagBytes(m: Bytes, a: int, size: int, hole: Byte, foot: int)
    requires 0 <= size < WORD && 0 <= a < WORD && a + 12 <= foot
    ensures var m' := WriteFooter(WriteHeader(m, a, size, hole), foot, a);
            && Load32(m', a) == 0xDEADBEEF && Load32(m', a + 4) == size && At(m', a + 8) == hole
            && Load32(m', foot) == 0xDEADBEEF && Load32(m', foot + 4) == a
            && forall x :: !(a <= x < a + 12) && !(foot <= x < foot + 8) ==> At(m', x) == At(m, x)
  {
    hide Load32, WriteHeader, WriteFooter;
    var m1 := WriteHeader(m, a, size, hole);
    HeaderWritten(m, a, size, hole);
    FooterWritten(m1, foot, a);
    assert At(m1, a + 8) == hole by { FlagWritten(m, a, size, hole); }
    LoadFrame(m1, WriteFooter(m1, foot, a), foot, foot + FOOTER, a);
    LoadFrame(m1, WriteFooter(m1, foot, a), foot, foot + FOOTER, a + 4);
  }

  lemma FlagWritten(m: Bytes, a: int, size: int, hole: Byte)
    ensures At(WriteHeader(m, a, size, hole), a + 8) == hole
  {
  }

  lemma HeaderFrame(m: Bytes, m': Bytes, lo: int, hi: int, a: int, size: int, hole: bool)
    requires SameOutside(m, m', lo, hi) && (a + HEADER <= lo || hi <= a)
    requires HeaderIs(m, a, size, hole)
    ensures HeaderIs(m', a, size, hole)
  {
    LoadFrame(m, m', lo, hi, a);
    LoadFrame(m, m', lo, hi, a + 4);
  }

  lemma FooterFrame(m: Bytes, m': Bytes, lo: int, hi: int, a: int, header: int)
    requires SameOutside(m, m', lo, hi) && (a + FOOTER <= lo || hi <= a)
    requires FooterIs(m, a, header)
    ensures FooterIs(m', a, header)
  {
    LoadFrame(m, m', lo, hi, a);
    LoadFrame(m, m', lo, hi, a + 4);
  }

  lemma AllTaggedFrame(m: Bytes, m': Bytes, lo: int, hi: int, bs: seq<Block>, from: int, to: int, end: int)
    requires SameOutside(m, m', lo, hi) && Chain(bs, from, to) && (to <= lo || hi <= from)
    requires AllTagged(m, bs, end)
    ensures AllTagged(m', bs, end)
  {
    forall b | b in bs
      ensures Tagged(m', b, end)
    {
      var k :| 0 <= k < |bs| && bs[k] == b;
      ChainWithin(bs, from, to, k);
      HeaderFrame(m, m', lo, hi, b.addr, b.size, b.hole);
      if FooterIs(m, b.End() - FOOTER, b.addr) {
        FooterFrame(m, m', lo, hi, b.End() - FOOTER, b.addr);
      }
    }
  }

  // ---- replacing a stretch of blocks ----

  /** The tiling seen as three stretches, the middle one covering `[lo, hi)`. */
  ghost predicate Split(h: Heap, ls: seq<Block>, mid: seq<Block>, rs: seq<Block>, lo: int, hi: int) {
    && FOOTER < h.start && h.end < WORD
    && Chain(ls, h.start, lo) && Chain(mid, lo, hi) && Chain(rs, hi, h.end)
    && AllTagged(h.mem, ls, h.end) && AllTagged(h.mem, mid, h.end) && AllTagged(h.mem, rs, h.end)
    && UntaggedBelow(h.mem, h.start)
    && multiset(h.index) == multiset(Addrs(ls, true)) + multiset(Addrs(mid, true)) + multiset(Addrs(rs, true))
    && |h.index| <= h.capacity
  }

  lemma SplitAt(h: Heap, bs: seq<Block>, k: nat)
    requires Tiled(h, bs) && k < |bs|
    ensures Split(h, bs[..k], [bs[k]], bs[k + 1..], bs[k].addr, bs[k].End())
    ensures bs == bs[..k] + [bs[k]] + bs[k + 1..]
  {
    ChainSplit(bs, k, h.start, h.end);
    assert bs == bs[..k] + [bs[k]] + bs[k + 1..];
    AddrsConcat(bs[..k] + [bs[k]], bs[k + 1..], true);
    AddrsConcat(bs[..k], [bs[k]], true);
  }

  lemma Joined(h: Heap, ls: seq<Block>, mid: seq<Block>, rs: seq<Block>, lo: int, hi: int)
    requires Split(h, ls, mid, rs, lo, hi)
    ensures Tiled(h, ls + mid + rs)
  {
    ChainConcat(ls, mid, h.start, lo, hi);
    ChainConcat(ls + mid, rs, h.start, hi, h.end);
    AddrsConcat(ls + mid, rs, true);
    AddrsConcat(ls, mid, true);
  }

  /** Rewriting only `[lo, hi)` leaves the blocks on both sides tagged as they were. */
  lemma SidesFrame(h: Heap, m': Bytes, ls: seq<Block>, mid: seq<Block>, rs: seq<Block>, lo: int, hi: int)
    requires Split(h, ls, mid, rs, lo, hi) && SameOutside(h.mem, m', lo, hi)
    ensures AllTagged(m', ls, h.end) && AllTagged(m', rs, h.end)
    ensures UntaggedBelow(m', h.start)
  {
    ChainOrder(ls, h.start, lo);
    AllTaggedFrame(h.mem, m', lo, hi, ls, h.start, lo, h.end);
    AllTaggedFrame(h.mem, m', lo, hi, rs, hi, h.end, h.end);
    LoadFrame(h.mem, m', lo, hi, h.start - FOOTER);
  }

  lemma Rewritten(h: Heap, h': Heap, ls: seq<Block>, mid: seq<Block>, mid': seq<Block>, rs: seq<Block>,
                  lo: int, hi: int)
    requires Split(h, ls, mid, rs, lo, hi)
    requires h'.start == h.start && h'.end == h.end && h'.capacity == h.capacity
    requires SameOutside(h.mem, h'.mem, lo, hi)
    requires Chain(mid', lo, hi) && AllTagged(h'.mem, mid', h.end)
    requires multiset(h'.index) == multiset(Addrs(ls, true)) + multiset(Addrs(mid', true)) + multiset(Addrs(rs, true))
    requires |h'.index| <= h.capacity
    ensures Tiled(h', ls + mid' + rs)
  {
    SidesFrame(h, h'.mem, ls, mid, rs, lo, hi);
    assert Split(h', ls, mid', rs, lo, hi);
    Joined(h', ls, mid', rs, lo, hi);
  }
}
