/** What `allocate` and `unallocate` keep: the tiling, the index, and every live payload byte. */
module HeapProofs {
  import opened Machine
  import opened Memory
  import opened OrderedArrays
  import opened HeapModel
  import opened HeapTiling

  // ---- writing whole blocks ----

  lemma BlockWritten(m: Bytes, a: int, size: int, hole: Byte, end: int)
    requires OVERHEAD <= size < WORD && 0 <= a < WORD
    ensures var m' := WriteFooter(WriteHeader(m, a, size, hole), a + size - FOOTER, a);
            Tagged(m', Block(a, size, hole != 0), end) && SameOutside(m, m', a, a + size)
  {
    hide WriteHeader, WriteFooter, HeaderIs, FooterIs, At;
    var m1 := WriteHeader(m, a, size, hole);
    HeaderWritten(m, a, size, hole);
    FooterWritten(m1, a + size - FOOTER, a);
    HeaderFrame(m1, WriteFooter(m1, a + size - FOOTER, a), a + size - FOOTER, a + size, a, size, hole != 0);
  }

  lemma TaggedFrame(m: Bytes, m': Bytes, lo: int, hi: int, b: Block, end: int)
    requires SameOutside(m, m', lo, hi) && (b.End() <= lo || hi <= b.addr) && b.size >= OVERHEAD
    requires Tagged(m, b, end)
    ensures Tagged(m', b, end)
  {
    HeaderFrame(m, m', lo, hi, b.addr, b.size, b.hole);
    if FooterIs(m, b.End() - FOOTER, b.addr) {
      FooterFrame(m, m', lo, hi, b.End() - FOOTER, b.addr);
    }
  }

  /** The blocks that replace a hole `[pos, pos + room)` of which `taken` bytes were handed out. */
  ghost function Placed(pos: int, room: int, taken: int): seq<Block> {
    [Block(pos, taken, false)] + (if room == taken then [] else [Block(pos + taken, room - taken, true)])
  }

  lemma PlacedChain(pos: int, room: int, taken: int)
    requires OVERHEAD <= taken && (room == taken || OVERHEAD <= room - taken)
    ensures Chain(Placed(pos, room, taken), pos, pos + room)
    ensures Addrs(Placed(pos, room, taken), true) == if room == taken then [] else [pos + taken]
    ensures Addrs(Placed(pos, room, taken), false) == [pos]
  {
    var rest := if room == taken then [] else [Block(pos + taken, room - taken, true)];
    assert Placed(pos, room, taken)[1..] == rest;
    assert Chain(rest, pos + taken, pos + room);
    assert Addrs(rest, true) == if room == taken then [] else [pos + taken];
    assert Addrs(rest, false) == [];
  }

  ghost predicate PlaceGuard(h: Heap, pos: int, room: int, taken: int) {
    && OVERHEAD <= taken && (room == taken || OVERHEAD <= room - taken)
    && 0 <= pos && pos + room <= h.end < WORD
  }

  lemma PlaceBlockTags(h: Heap, pos: int, room: int, taken: int, end: int)
    requires PlaceGuard(h, pos, room, taken)
    ensures var h' := PlaceBlock(h, pos, room, taken);
            && SameOutside(h.mem, h'.mem, pos, pos + room)
            && AllTagged(h'.mem, Placed(pos, room, taken), end)
  {
    hide WriteHeader, WriteFooter, Tagged, At, Inserted, Chain;
    var m := WriteFooter(WriteHeader(h.mem, pos, taken, 0), pos + taken - FOOTER, pos);
    BlockWritten(h.mem, pos, taken, 0, end);
    if room != taken {
      var m2 := WriteFooter(WriteHeader(m, pos + taken, room - taken, 1), pos + room - FOOTER, pos + taken);
      BlockWritten(m, pos + taken, room - taken, 1, end);
      TaggedFrame(m, m2, pos + taken, pos + room, Block(pos, taken, false), end);
    }
  }

  lemma PlaceBlockIndex(h: Heap, pos: int, room: int, taken: int)
    requires PlaceGuard(h, pos, room, taken)
    requires |h.index| <= h.capacity && (room == taken || |h.index| < h.capacity)
    ensures var h' := PlaceBlock(h, pos, room, taken);
            && multiset(h'.index) == multiset(h.index) + multiset(Addrs(Placed(pos, room, taken), true))
            && |h'.index| <= h.capacity
            && h' == h.(mem := h'.mem, index := h'.index)
  {
    hide WriteHeader, WriteFooter, Inserted, Placed, Chain, Addrs;
    PlacedChain(pos, room, taken);
    if room != taken {
      InsertedContents(h.index, h.capacity, pos + taken, SizeLess(PlaceBlock(h, pos, room, taken).mem));
    }
  }

  // ---- carving ----

  /** The tiling after `taken` bytes of the hole at position `k` were handed out. */
  ghost function CarvedBlocks(bs: seq<Block>, k: nat, taken: int): seq<Block>
    requires k < |bs|
  {
    bs[..k] + Placed(bs[k].addr, bs[k].size, taken) + bs[k + 1..]
  }

  lemma Single(b: Block)
    ensures Addrs([b], true) == if b.hole then [b.addr] else []
    ensures Addrs([b], false) == if b.hole then [] else [b.addr]
    ensures b.size >= OVERHEAD ==> Chain([b], b.addr, b.End())
  {
    assert [b][1..] == [];
  }

  /** The position in the tiling of the hole in slot `i` of the index. */
  lemma HoleOf(h: Heap, bs: seq<Block>, i: nat) returns (k: nat)
    requires Tiled(h, bs) && i < |h.index|
    ensures k < |bs| && bs[k].addr == h.index[i] && bs[k].hole
    ensures SizeAt(h.mem, bs[k].addr) == bs[k].size
    ensures h.start <= bs[k].addr && bs[k].End() <= h.end && bs[k].size >= OVERHEAD
  {
    assert h.index[i] in multiset(h.index);
    assert h.index[i] in Addrs(bs, true);
    k := Locate(bs, true, h.index[i]);
    assert bs[k] in bs && Tagged(h.mem, bs[k], h.end);
    ChainWithin(bs, h.start, h.end, k);
  }

  lemma IndexedHole(h: Heap, bs: seq<Block>, k: nat)
    requires Tiled(h, bs) && k < |bs| && bs[k].hole
    ensures bs[k].addr in h.index
  {
    Listed(bs, k);
    assert bs[k].addr in multiset(h.index);
  }

  lemma IndexWithout(h: Heap, ls: seq<Block>, b: Block, rs: seq<Block>, i: nat)
    requires Split(h, ls, [b], rs, b.addr, b.End())
    requires i < |h.index| && h.index[i] == b.addr && b.hole
    ensures multiset(Removed(h.index, i)) == multiset(Addrs(ls, true)) + multiset(Addrs(rs, true))
    ensures |Removed(h.index, i)| == |h.index| - 1
  {
    hide AllTagged, Chain, Addrs, UntaggedBelow;
    Single(b);
    RemovedContents(h.index, i);
  }

  /** The size of a block carved out of a hole that fits. */
  lemma TakenSize(room: int, size: int)
    requires 0 <= size && size + OVERHEAD <= room < WORD
    ensures Need(size) == size + OVERHEAD
    ensures var taken := Taken(room, size + OVERHEAD);
            size + OVERHEAD <= taken && (taken == room || OVERHEAD <= room - taken)
  {
  }

  lemma CarveTiled(h: Heap, bs: seq<Block>, i: nat, size: int) returns (k: nat)
    requires Tiled(h, bs) && 0 <= size
    requires i < |h.index| && Fits(h.mem, h.index[i], size + OVERHEAD, false)
    ensures k < |bs| && bs[k].hole && bs[k].addr == h.index[i] && size + OVERHEAD <= bs[k].size
    ensures var taken := Taken(bs[k].size, size + OVERHEAD);
            && size + OVERHEAD <= taken
            && Tiled(Carve(h, i, size, false).0, CarvedBlocks(bs, k, taken))
            && SameOutside(h.mem, Carve(h, i, size, false).0.mem, bs[k].addr, bs[k].End())
  {
    hide Need, Taken, Chain, Addrs, AllTagged, UntaggedBelow, SameOutside, PlaceBlock, Load32, Removed, Placed;
    k := HoleOf(h, bs, i);
    var b := bs[k];
    TakenSize(b.size, size);
    var taken := Taken(b.size, size + OVERHEAD);
    var g := h.(index := Removed(h.index, i));
    var h' := PlaceBlock(g, b.addr, b.size, taken);
    assert Carve(h, i, size, false).0 == h';
    PlaceBlockTags(g, b.addr, b.size, taken, h.end);
    CarveSplice(h, g, h', bs, i, k, taken);
  }

  lemma CarveSplice(h: Heap, g: Heap, h': Heap, bs: seq<Block>, i: nat, k: nat, taken: int)
    requires Tiled(h, bs) && k < |bs| && bs[k].hole
    requires i < |h.index| && h.index[i] == bs[k].addr && g == h.(index := Removed(h.index, i))
    requires PlaceGuard(g, bs[k].addr, bs[k].size, taken)
    requires h' == PlaceBlock(g, bs[k].addr, bs[k].size, taken)
    requires SameOutside(h.mem, h'.mem, bs[k].addr, bs[k].End())
    requires AllTagged(h'.mem, Placed(bs[k].addr, bs[k].size, taken), h.end)
    ensures Tiled(h', CarvedBlocks(bs, k, taken))
  {
    hide Placed, PlaceBlock, SameOutside, AllTagged, Chain, Addrs, Removed;
    var b := bs[k];
    SplitAt(h, bs, k);
    IndexWithout(h, bs[..k], b, bs[k + 1..], i);
    PlaceBlockIndex(g, b.addr, b.size, taken);
    PlacedChain(b.addr, b.size, taken);
    Rewritten(h, h', bs[..k], [b], Placed(b.addr, b.size, taken), bs[k + 1..], b.addr, b.End());
  }

  // ---- growing ----

  /** The hole that would be grown ends the heap, or there is no hole. */
  predicate TopTouchesEnd(h: Heap) {
    var top := Highest(h.index);
    top.found ==> top.value + SizeAt(h.mem, top.value) == h.end
  }

  lemma Retarget(m: Bytes, bs: seq<Block>, end: int, end': int)
    requires AllTagged(m, bs, end)
    requires forall b :: b in bs && b.hole ==> b.End() != end
    ensures AllTagged(m, bs, end')
  {
  }

  /** The footer-only writes that grow the hole at `a` to `size` bytes. */
  lemma HoleGrown(m: Bytes, a: int, was: int, size: int, end: int)
    requires HeaderIs(m, a, was, true) && OVERHEAD <= was <= size < WORD && 0 <= a < WORD
    ensures var m1 := Store32(m, a + 4, size);
            var m' := WriteFooter(m1, a + size - FOOTER, a);
            && SizeAt(m1, a) == size
            && Tagged(m', Block(a, size, true), end) && SameOutside(m, m', a, a + size)
  {
    hide WriteFooter, At, FooterIs;
    var m1 := Store32(m, a + 4, size);
    var m' := WriteFooter(m1, a + size - FOOTER, a);
    assert HeaderIs(m1, a, size, true) && SameOutside(m, m1, a + 4, a + 8) by {
      StoredSize(m, a, was, size, true);
    }
    FooterWritten(m1, a + size - FOOTER, a);
    HeaderFrame(m1, m', a + size - FOOTER, a + size, a, size, true);
  }

  lemma StoredSize(m: Bytes, a: int, was: int, size: int, hole: bool)
    requires HeaderIs(m, a, was, hole) && 0 <= size < WORD
    ensures HeaderIs(Store32(m, a + 4, size), a, size, hole)
    ensures SameOutside(m, Store32(m, a + 4, size), a + 4, a + 8)
  {
    LoadOfStore(m, a + 4, size);
    LoadFrame(m, Store32(m, a + 4, size), a + 4, a + 8, a);
  }

  lemma NoHoles(h: Heap, bs: seq<Block>)
    requires Tiled(h, bs)
    requires !Highest(h.index).found
    ensures h.index == [] && forall b :: b in bs ==> !b.hole
  {
    if h.index != [] {
      var k := HoleOf(h, bs, 0);
      assert false;
    }
    forall b | b in bs
      ensures !b.hole
    {
      var k :| 0 <= k < |bs| && bs[k] == b;
      Listed(bs, k);
      assert b.hole ==> b.addr in multiset(h.index);
    }
  }

  /** Where the end of the heap would be if no sum wrapped. */
  function Reach(h: Heap, need: int): int {
    h.start + PageUp(h.end - h.start + need)
  }

  /** Asking for `need` more bytes wraps no 32-bit sum. */
  predicate NoWrap(h: Heap, need: int) {
    Reach(h, need) < WORD
  }

  predicate GrowGuard(h: Heap, need: int) {
    OVERHEAD <= need && NoWrap(h, need) && 0 < h.capacity
  }

  lemma GrowExact(h: Heap, need: int)
    requires 0 <= need && NoWrap(h, need) && 0 < h.start <= h.end
    ensures GrownEnd(h, need) == Reach(h, need) < WORD && h.end + need <= GrownEnd(h, need) < h.end + need + PAGE
    ensures (GrownEnd(h, need) - h.end) % WORD == GrownEnd(h, need) - h.end
    ensures (h.end + need) % WORD == h.end + need
  {
  }

  lemma GrowFresh(h: Heap, bs: seq<Block>, need: int)
    requires Tiled(h, bs) && GrowGuard(h, need) && !Highest(h.index).found
    ensures var h' := Grow(h, need);
            && Tiled(h', bs + [Block(h.end, h'.end - h.end, true)])
            && h'.index == [h.end] && h.end + need <= h'.end
            && SameOutside(h.mem, h'.mem, h.end, h'.end)
  {
    hide WriteHeader, WriteFooter, Tagged, AllTagged, At, GrownEnd, Chain, Addrs, NoWrap;
    ChainOrder(bs, h.start, h.end);
    GrowExact(h, need);
    NoHoles(h, bs);
    var h' := Grow(h, need);
    var b := Block(h.end, h'.end - h.end, true);
    ChainOrder(bs, h.start, h.end);
    BlockWritten(h.mem, b.addr, b.size, 1, h'.end);
    assert SameOutside(h.mem, h'.mem, b.addr, b.End()) && Tagged(h'.mem, b, h'.end);
    FreshAppended(h, h', bs, b);
  }

  lemma FreshAppended(h: Heap, h': Heap, bs: seq<Block>, b: Block)
    requires Tiled(h, bs) && h.index == [] && forall x :: x in bs ==> !x.hole
    requires b.hole && b.addr == h.end && b.size >= OVERHEAD && b.End() == h'.end < WORD
    requires h'.start == h.start && h'.capacity == h.capacity > 0 && h'.index == [b.addr]
    requires SameOutside(h.mem, h'.mem, b.addr, b.End()) && Tagged(h'.mem, b, h'.end)
    ensures Tiled(h', bs + [b])
  {
    hide Tagged, At;
    AllTaggedFrame(h.mem, h'.mem, b.addr, b.End(), bs, h.start, h.end, h.end);
    RetargetUsed(h'.mem, bs, h.end, h'.end);
    Single(b);
    ChainConcat(bs, [b], h.start, h.end, h'.end);
    AddrsConcat(bs, [b], true);
    ChainOrder(bs, h.start, h.end);
    BelowFrame(h.mem, h'.mem, b.addr, b.End(), h.start);
  }

  lemma RetargetUsed(m: Bytes, bs: seq<Block>, end: int, end': int)
    requires AllTagged(m, bs, end) && forall x :: x in bs ==> !x.hole
    ensures AllTagged(m, bs, end')
  {
  }

  lemma BelowFrame(m: Bytes, m': Bytes, lo: int, hi: int, a: int)
    requires SameOutside(m, m', lo, hi) && a <= lo && UntaggedBelow(m, a)
    ensures UntaggedBelow(m', a)
  {
    LoadFrame(m, m', lo, hi, a - FOOTER);
  }

  /** With a hole at the end of the heap, that hole is the highest and takes the new bytes. */
  lemma GrowLast(h: Heap, bs: seq<Block>, need: int)
    requires Tiled(h, bs) && GrowGuard(h, need)
    requires Highest(h.index).found && TopTouchesEnd(h)
    ensures var h' := Grow(h, need);
            && bs != [] && bs[|bs| - 1].hole
            && var b := bs[|bs| - 1];
            && b.addr == Highest(h.index).value && b.End() == h.end
            && Tiled(h', bs[..|bs| - 1] + [Block(b.addr, h'.end - b.addr, true)])
            && h'.index == h.index && h.end + need <= h'.end
            && SameOutside(h.mem, h'.mem, b.addr, h'.end)
  {
    hide WriteFooter, Store32, At, GrownEnd, NoWrap, Chain, Addrs, Highest, SizeAt, HeaderIs, FooterIs;
    ChainOrder(bs, h.start, h.end);
    GrowExact(h, need);
    var k := HoleOf(h, bs, Highest(h.index).slot);
    if k < |bs| - 1 {
      ChainDisjoint(bs, h.start, h.end, k, |bs| - 1);
      ChainWithin(bs, h.start, h.end, |bs| - 1);
      assert false;
    }
    var h' := Grow(h, need);
    var b := bs[k];
    assert bs[k] in bs && Tagged(h.mem, b, h.end);
    HoleGrown(h.mem, b.addr, b.size, h'.end - b.addr, h'.end);
    LastReplaced(h, h', bs, Block(b.addr, h'.end - b.addr, true));
  }

  lemma LastReplaced(h: Heap, h': Heap, bs: seq<Block>, b: Block)
    requires Tiled(h, bs) && bs != []
    requires var last := bs[|bs| - 1]; last.hole && b.addr == last.addr && last.End() == h.end < h'.end
    requires b.hole && b.size >= OVERHEAD && b.End() == h'.end < WORD
    requires h'.start == h.start && h'.capacity == h.capacity && h'.index == h.index
    requires SameOutside(h.mem, h'.mem, b.addr, b.End()) && Tagged(h'.mem, b, h'.end)
    ensures Tiled(h', bs[..|bs| - 1] + [b])
  {
    hide Tagged, At, Chain, Addrs, UntaggedBelow;
    var k := |bs| - 1;
    var ls := bs[..k];
    assert bs == ls + [bs[k]];
    ChainSplit(bs, k, h.start, h.end);
    AllTaggedFrame(h.mem, h'.mem, b.addr, b.End(), ls, h.start, b.addr, h.end);
    forall x | x in ls
      ensures x.End() != h.end
    {
      var j :| 0 <= j < |ls| && ls[j] == x;
      ChainWithin(ls, h.start, b.addr, j);
    }
    Retarget(h'.mem, ls, h.end, h'.end);
    Single(b);
    Single(bs[k]);
    ChainConcat(ls, [b], h.start, b.addr, h'.end);
    AddrsConcat(ls, [b], true);
    AddrsConcat(ls, [bs[k]], true);
    ChainOrder(ls, h.start, b.addr);
    BelowFrame(h.mem, h'.mem, b.addr, b.End(), h.start);
  }

  // ---- freeing ----

  /** Clearing a used block's flag turns it into a hole and writes nothing else. */
  lemma FlagCleared(m: Bytes, b: Block, end: int)
    requires Tagged(m, b, end) && !b.hole && b.size >= OVERHEAD
    ensures var m1 := Store8(m, b.addr + 8, 1);
            && HeaderIs(m1, b.addr, b.size, true) && FooterIs(m1, b.End() - FOOTER, b.addr)
            && SameOutside(m, m1, b.addr + 8, b.addr + 9)
  {
    var m1 := Store8(m, b.addr + 8, 1);
    LoadFrame(m, m1, b.addr + 8, b.addr + 9, b.addr);
    LoadFrame(m, m1, b.addr + 8, b.addr + 9, b.addr + 4);
    FooterFrame(m, m1, b.addr + 8, b.addr + 9, b.End() - FOOTER, b.addr);
  }

  /** No hole ends where `b` begins, as `unallocate` tests it. */
  ghost predicate NoHoleBelow(m: Bytes, a: int) {
    || UntaggedBelow(m, a)
    || exists x, size :: FooterIs(m, a - FOOTER, x) && HeaderIs(m, x, size, false) && x + HEADER <= a
  }

  lemma MergesNothing(m: Bytes, b: Block, end: int)
    requires Tagged(m, b, end) && !b.hole && b.size >= OVERHEAD && NoHoleBelow(m, b.addr)
    ensures var m1 := Store8(m, b.addr + 8, 1);
            && MergeLeft(m, b.addr) == Merge(m1, b.addr, b.End() - FOOTER, true)
            && Tagged(m1, b.(hole := true), end) && SameOutside(m, m1, b.addr, b.End())
  {
    hide Load32;
    var m1 := Store8(m, b.addr + 8, 1);
    FlagCleared(m, b, end);
    LoadFrame(m, m1, b.addr + 8, b.addr + 9, b.addr - FOOTER);
    LoadFrame(m, m1, b.addr + 8, b.addr + 9, b.addr - FOOTER + 4);
    if !UntaggedBelow(m, b.addr) {
      var x, size :| FooterIs(m, b.addr - FOOTER, x) && HeaderIs(m, x, size, false) && x + HEADER <= b.addr;
      HeaderFrame(m, m1, b.addr + 8, b.addr + 9, x, size, false);
    }
  }

  lemma MergesHole(m: Bytes, l: Block, b: Block, end: int)
    requires Tagged(m, b, end) && !b.hole && b.size >= OVERHEAD && b.addr < WORD
    requires HeaderIs(m, l.addr, l.size, true) && FooterIs(m, l.End() - FOOTER, l.addr)
    requires l.End() == b.addr && l.size >= OVERHEAD && l.size + b.size < WORD && 0 <= l.addr
    ensures var r := MergeLeft(m, b.addr);
            && r == Merge(r.mem, l.addr, b.End() - FOOTER, false)
            && Tagged(r.mem, Block(l.addr, l.size + b.size, true), end)
            && SameOutside(m, r.mem, l.addr, b.End())
  {
    hide Load32, At, Store8, Store32;
    var footer := b.End() - FOOTER;
    var m1 := Store8(m, b.addr + 8, 1);
    FlagCleared(m, b, end);
    FooterFrame(m, m1, b.addr + 8, b.addr + 9, b.addr - FOOTER, l.addr);
    HeaderFrame(m, m1, b.addr + 8, b.addr + 9, l.addr, l.size, true);
    var m2 := Store32(m1, footer + 4, l.addr);
    FooterRetargeted(m1, footer, b.addr, l.addr);
    HeaderFrame(m1, m2, footer + 4, footer + 8, l.addr, l.size, true);
    var m3 := Store32(m2, l.addr + 4, l.size + b.size);
    StoredSize(m2, l.addr, l.size, l.size + b.size, true);
    FooterFrame(m2, m3, l.addr + 4, l.addr + 8, footer, l.addr);
    assert MergeLeft(m, b.addr) == Merge(m3, l.addr, footer, false);
  }

  lemma FooterRetargeted(m: Bytes, a: int, was: int, header: int)
    requires FooterIs(m, a, was) && 0 <= header < WORD
    ensures FooterIs(Store32(m, a + 4, header), a, header)
    ensures SameOutside(m, Store32(m, a + 4, header), a + 4, a + 8)
  {
    LoadOfStore(m, a + 4, header);
    LoadFrame(m, Store32(m, a + 4, header), a + 4, a + 8, a);
  }

  /** The tiling after the used block at position `k` was freed. */
  ghost function FreedBlocks(bs: seq<Block>, k: nat): seq<Block>
    requires k < |bs|
  {
    if k > 0 && bs[k - 1].hole then
      bs[..k - 1] + [Block(bs[k - 1].addr, bs[k - 1].size + bs[k].size, true)] + bs[k + 1..]
    else
      bs[..k] + [bs[k].(hole := true)] + bs[k + 1..]
  }

  lemma RightTestFrame(m: Bytes, m': Bytes, lo: int, hi: int, footer: int)
    requires SameOutside(m, m', lo, hi) && hi <= footer + NEIGHBOUR
    ensures RightTest(m', footer) == RightTest(m, footer)
  {
    LoadFrame(m, m', lo, hi, footer + NEIGHBOUR);
  }

  lemma SplitPair(h: Heap, bs: seq<Block>, k: nat)
    requires Tiled(h, bs) && 0 < k < |bs|
    ensures Split(h, bs[..k - 1], [bs[k - 1], bs[k]], bs[k + 1..], bs[k - 1].addr, bs[k].End())
    ensures bs[k - 1].End() == bs[k].addr && bs[k - 1].size >= OVERHEAD && bs[k].size >= OVERHEAD
  {
    hide AllTagged, Addrs, UntaggedBelow;
    var ls, l, b, rs := bs[..k - 1], bs[k - 1], bs[k], bs[k + 1..];
    ChainSplit(bs, k - 1, h.start, h.end);
    assert bs[k..] == [b] + rs;
    assert Chain(rs, b.End(), h.end) && l.End() == b.addr;
    assert [l, b][1..] == [b];
    Single(b);
    AllTaggedParts(h.mem, bs, ls, [l, b], rs, h.end);
    assert bs == ls + [l, b] + rs;
    AddrsConcat(ls + [l, b], rs, true);
    AddrsConcat(ls, [l, b], true);
  }

  lemma AllTaggedParts(m: Bytes, bs: seq<Block>, ls: seq<Block>, mid: seq<Block>, rs: seq<Block>, end: int)
    requires AllTagged(m, bs, end) && bs == ls + mid + rs
    ensures AllTagged(m, ls, end) && AllTagged(m, mid, end) && AllTagged(m, rs, end)
  {
    hide Tagged;
    assert forall b :: b in ls || b in mid || b in rs ==> b in bs;
  }

  /** The block just below position `k`, as the footer test sees it. */
  lemma BelowBlock(h: Heap, bs: seq<Block>, k: nat)
    requires Tiled(h, bs) && k < |bs|
    ensures k > 0 && bs[k - 1].hole ==>
              HeaderIs(h.mem, bs[k - 1].addr, bs[k - 1].size, true)
                && FooterIs(h.mem, bs[k - 1].End() - FOOTER, bs[k - 1].addr)
    ensures !(k > 0 && bs[k - 1].hole) ==> NoHoleBelow(h.mem, bs[k].addr)
  {
    hide HeaderIs, FooterIs, Addrs;
    if k > 0 {
      SplitPair(h, bs, k);
      assert bs[k - 1] in bs && Tagged(h.mem, bs[k - 1], h.end);
      ChainWithin(bs, h.start, h.end, k);
    } else {
      assert bs[0].addr == h.start;
    }
  }

  // Where the right-neighbour test does not swallow anything it leaves every byte as it was.

  lemma UnindexedZero(h: Heap, bs: seq<Block>, a: int)
    requires Tiled(h, bs) && SizeAt(h.mem, a) == 0
    ensures SlotOf(h.index, a, 0) == |h.index|
  {
    hide Chain, Addrs, AllTagged, UntaggedBelow, SizeAt;
    var i := SlotOf(h.index, a, 0);
    if i < |h.index| {
      var k := HoleOf(h, bs, i);
      assert false;
    }
  }

  /** The state between the left merge and the right test, for the block at position `k`. */
  ghost predicate LeftMerged(h: Heap, bs: seq<Block>, k: nat, l: Merge, end: int)
    requires k < |bs|
  {
    && l == MergeLeft(h.mem, bs[k].addr) && l.footer == bs[k].End() - FOOTER
    && 0 < l.header && l.header + OVERHEAD <= bs[k].End() && SameOutside(h.mem, l.mem, l.header, bs[k].End())
    && Tagged(l.mem, Block(l.header, bs[k].End() - l.header, true), end)
  }

  lemma IdleTest(h: Heap, bs: seq<Block>, k: nat, l: Merge, end: int)
    requires Tiled(h, bs) && k < |bs| && 0 < bs[k].addr && LeftMerged(h, bs, k, l, end)
    requires Unallocate(h, bs[k].addr + HEADER).Freed? && !Swallows(h.mem, bs[k].End() - FOOTER)
    ensures var h' := Unallocate(h, bs[k].addr + HEADER).heap;
            && h' == h.(mem := h'.mem, index := h'.index)
            && h'.index == (if l.add then Inserted(h.index, h.capacity, l.header, SizeLess(h'.mem)) else h.index)
            && Tagged(h'.mem, Block(l.header, bs[k].End() - l.header, true), end)
            && SameOutside(h.mem, h'.mem, l.header, bs[k].End())
  {
    hide AllTagged, Addrs, UntaggedBelow, MergeLeft, At, Inserted, Removed, Chain, Load32, Store32, FooterIs;
    var footer := bs[k].End() - FOOTER;
    var size := bs[k].End() - l.header;
    RightTestFrame(h.mem, l.mem, l.header, bs[k].End(), footer);
    if RightTest(h.mem, footer) {
      LoadFrame(h.mem, l.mem, l.header, bs[k].End(), footer + NEIGHBOUR + 4);
      UnindexedZero(h, bs, footer + NEIGHBOUR);
      var m := Store32(l.mem, l.header + 4, size);
      SizeKept(l.mem, Block(l.header, size, true), end);
      assert Unallocate(h, bs[k].addr + HEADER).heap.mem == m;
      NoneRemoved(h.index);
    }
  }

  lemma NoneRemoved(s: seq<int>)
    ensures Removed(s, |s|) == s
  {
  }

  /** Storing a block's own size in its header changes no byte. */
  lemma SizeKept(m: Bytes, b: Block, end: int)
    requires Tagged(m, b, end) && b.size >= OVERHEAD
    ensures var m' := Store32(m, b.addr + 4, b.size); Tagged(m', b, end) && SameOutside(m, m', b.addr, b.End())
  {
    hide At, Load32, Store32;
    var m' := Store32(m, b.addr + 4, b.size);
    StoredSize(m, b.addr, b.size, b.size, b.hole);
    if FooterIs(m, b.End() - FOOTER, b.addr) {
      FooterFrame(m, m', b.addr + 4, b.addr + 8, b.End() - FOOTER, b.addr);
    }
  }

  /** With no hole below, the left merge only clears the flag. */
  lemma LeftPlain(h: Heap, bs: seq<Block>, k: nat, end: int)
    requires Tiled(h, bs) && k < |bs| && !bs[k].hole && !(k > 0 && bs[k - 1].hole) && Tagged(h.mem, bs[k], end)
    ensures var l := MergeLeft(h.mem, bs[k].addr);
            l.add && l.header == bs[k].addr && LeftMerged(h, bs, k, l, end)
  {
    hide AllTagged, Addrs, UntaggedBelow, MergeLeft, At, Tagged, NoHoleBelow, Chain;
    ChainWithin(bs, h.start, h.end, k);
    BelowBlock(h, bs, k);
    MergesNothing(h.mem, bs[k], end);
  }

  /** With a hole below, the two become one. */
  lemma LeftJoined(h: Heap, bs: seq<Block>, k: nat, end: int)
    requires Tiled(h, bs) && 0 < k < |bs| && !bs[k].hole && bs[k - 1].hole && Tagged(h.mem, bs[k], end)
    ensures var l := MergeLeft(h.mem, bs[k].addr);
            !l.add && l.header == bs[k - 1].addr && LeftMerged(h, bs, k, l, end)
  {
    hide AllTagged, Addrs, UntaggedBelow, MergeLeft, At, Tagged, NoHoleBelow, Chain;
    SplitPair(h, bs, k);
    ChainWithin(bs, h.start, h.end, k - 1);
    ChainWithin(bs, h.start, h.end, k);
    BelowBlock(h, bs, k);
    MergesHole(h.mem, bs[k - 1], bs[k], end);
  }

  ghost function MergedFrom(bs: seq<Block>, k: nat): int
    requires k < |bs|
  {
    if k > 0 && bs[k - 1].hole then bs[k - 1].addr else bs[k].addr
  }

  /** What is true after the left merge, whatever the right test then says. */
  lemma AfterLeftMerge(h: Heap, bs: seq<Block>, k: nat)
    requires Tiled(h, bs) && k < |bs| && !bs[k].hole
    ensures var l := MergeLeft(h.mem, bs[k].addr);
            && l.header == MergedFrom(bs, k) && LeftMerged(h, bs, k, l, h.end)
            && (l.add <==> !(k > 0 && bs[k - 1].hole))
            && SizeAt(l.mem, l.header) == bs[k].End() - l.header
            && h.start <= l.header < bs[k].End() <= h.end
  {
    hide AllTagged, Addrs, UntaggedBelow, MergeLeft, At, Chain, FooterIs;
    ChainWithin(bs, h.start, h.end, k);
    TaggedAt(h, bs, k);
    if k > 0 && bs[k - 1].hole {
      ChainWithin(bs, h.start, h.end, k - 1);
      LeftJoined(h, bs, k, h.end);
    } else {
      LeftPlain(h, bs, k, h.end);
    }
  }

  /** A release gives pages back exactly when what it takes for the freed bytes reaches the end of the heap. */
  lemma FreedIff(h: Heap, bs: seq<Block>, k: nat)
    requires Tiled(h, bs) && k < |bs| && !bs[k].hole
    ensures Unallocate(h, bs[k].addr + HEADER).Freed? <==> !ReachesEnd(h.mem, bs[k].End() - FOOTER, h.end)
  {
    hide AllTagged, Addrs, UntaggedBelow, MergeLeft, At, Inserted, Removed, Chain, Load32, Store32, Tagged;
    AfterLeftMerge(h, bs, k);
    var l := MergeLeft(h.mem, bs[k].addr);
    var footer := bs[k].End() - FOOTER;
    var test := footer + NEIGHBOUR;
    RightTestFrame(h.mem, l.mem, l.header, bs[k].End(), footer);
    LoadFrame(h.mem, l.mem, l.header, bs[k].End(), test + 4);
    var m := Store32(l.mem, l.header + 4, SizeAt(l.mem, l.header) + SizeAt(l.mem, test));
    StoreFrame(l.mem, l.header + 4, SizeAt(l.mem, l.header) + SizeAt(l.mem, test));
    LoadFrame(l.mem, m, l.header + 4, l.header + 8, test + 4);
    ChainWithin(bs, h.start, h.end, k);
  }

  lemma FreePlain(h: Heap, bs: seq<Block>, k: nat)
    requires Tiled(h, bs) && k < |bs| && !bs[k].hole && !(k > 0 && bs[k - 1].hole)
    requires Unallocate(h, bs[k].addr + HEADER).Freed? && !Swallows(h.mem, bs[k].End() - FOOTER)
    requires |h.index| < h.capacity
    ensures var h' := Unallocate(h, bs[k].addr + HEADER).heap;
            && Tiled(h', FreedBlocks(bs, k))
            && h'.index == Inserted(h.index, h.capacity, bs[k].addr, SizeLess(h'.mem))
            && SameOutside(h.mem, h'.mem, bs[k].addr, bs[k].End())
  {
    hide AllTagged, Addrs, UntaggedBelow, MergeLeft, At, Tagged, Swallows, Inserted, Chain, SameOutside, Unallocate;
    ChainWithin(bs, h.start, h.end, k);
    TaggedAt(h, bs, k);
    LeftPlain(h, bs, k, h.end);
    IdleTest(h, bs, k, MergeLeft(h.mem, bs[k].addr), h.end);
    FreePlainSplice(h, Unallocate(h, bs[k].addr + HEADER).heap, bs, k);
  }

  lemma TaggedAt(h: Heap, bs: seq<Block>, k: nat)
    requires Tiled(h, bs) && k < |bs|
    ensures Tagged(h.mem, bs[k], h.end)
  {
  }

  lemma FreePlainSplice(h: Heap, h': Heap, bs: seq<Block>, k: nat)
    requires Tiled(h, bs) && k < |bs| && !bs[k].hole && !(k > 0 && bs[k - 1].hole) && |h.index| < h.capacity
    requires h' == h.(mem := h'.mem, index := Inserted(h.index, h.capacity, bs[k].addr, SizeLess(h'.mem)))
    requires SameOutside(h.mem, h'.mem, bs[k].addr, bs[k].End()) && Tagged(h'.mem, bs[k].(hole := true), h.end)
    ensures Tiled(h', FreedBlocks(bs, k))
  {
    hide Addrs, UntaggedBelow, At, Tagged, Inserted, Chain;
    var b := bs[k];
    var b' := b.(hole := true);
    SplitAt(h, bs, k);
    ChainWithin(bs, h.start, h.end, k);
    Single(b);
    Single(b');
    InsertedContents(h.index, h.capacity, b.addr, SizeLess(h'.mem));
    Rewritten(h, h', bs[..k], [b], [b'], bs[k + 1..], b.addr, b.End());
  }

  lemma FreeMerge(h: Heap, bs: seq<Block>, k: nat)
    requires Tiled(h, bs) && 0 < k < |bs| && !bs[k].hole && bs[k - 1].hole
    requires Unallocate(h, bs[k].addr + HEADER).Freed? && !Swallows(h.mem, bs[k].End() - FOOTER)
    ensures var h' := Unallocate(h, bs[k].addr + HEADER).heap;
            && Tiled(h', FreedBlocks(bs, k))
            && h'.index == h.index
            && SameOutside(h.mem, h'.mem, bs[k - 1].addr, bs[k].End())
  {
    hide AllTagged, Addrs, UntaggedBelow, MergeLeft, At, Tagged, Swallows, Chain, SameOutside, Unallocate;
    var l, b := bs[k - 1], bs[k];
    SplitPair(h, bs, k);
    ChainWithin(bs, h.start, h.end, k - 1);
    TaggedAt(h, bs, k);
    LeftJoined(h, bs, k, h.end);
    IdleTest(h, bs, k, MergeLeft(h.mem, b.addr), h.end);
    var h' := Unallocate(h, b.addr + HEADER).heap;
    var merged := Block(l.addr, l.size + b.size, true);
    Single(merged);
    PairHoles(l, b);
    OneTagged(h'.mem, merged, h.end);
    Rewritten(h, h', bs[..k - 1], [l, b], [merged], bs[k + 1..], l.addr, b.End());
  }

  lemma OneTagged(m: Bytes, b: Block, end: int)
    requires Tagged(m, b, end)
    ensures AllTagged(m, [b], end)
  {
  }

  lemma PairHoles(l: Block, b: Block)
    requires l.hole && !b.hole
    ensures Addrs([l, b], true) == [l.addr] && Addrs([l, b], false) == [b.addr]
  {
    assert [l, b][1..] == [b];
    Single(b);
  }
}
