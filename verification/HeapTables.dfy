/** Expansion and page tables: mapping the new pages may ask the heap itself for a page table, before its end moves.
    Whether such a request ever returns. */
module HeapTables {
  import opened Machine
  import opened Memory
  import opened OrderedArrays
  import opened HeapModel
  import opened HeapTiling
  import opened HeapProofs
  import opened HeapSafety
  import opened HeapAligned
  import opened HeapRuns
  import opened HeapAlignedLimits
  import opened HeapWitnesses

  /** The heap, and the directory slots that have a page table. */
  datatype Kernel = Kernel(heap: Heap, tables: set<int>)

  /** The result of a call, or the sign that it is still nested deeper than the depth looked at. */
  datatype Call<T> = Returns(value: T) | Deeper

  function DirSlot(a: int): int {
    a / 0x40_0000
  }

  /** The loop of `paging_manager_allocate_range`, as far as the heap sees it. */
  function MapPages(k: Kernel, from: int, to: int, depth: nat): Call<Kernel>
    decreases depth, 1, if from <= to then to - from + 1 else 0
  {
    if from > to then Returns(k)
    else if DirSlot(from) in k.tables then MapPages(k, from + PAGE, to, depth)
    else if depth == 0 then Deeper
    else
      match Request(k, PAGE, true, 0, depth - 1)
      case Deeper => Deeper
      case Returns((k', p)) =>
        MapPages(if p == NULL then k' else k'.(tables := k'.tables + {DirSlot(from)}), from + PAGE, to, depth)
  }

  /** `allocate` with the mapping that `expand` does. The hole grows by what the end moved since before it. */
  function Request(k: Kernel, size: int, align: bool, iteration: nat, depth: nat): Call<(Kernel, int)>
    decreases depth, if iteration > 0 then 0 else 2, 0
  {
    var h, need := k.heap, Need(size);
    var i := FindFrom(h.mem, h.index, need, align, 0);
    if i < |h.index| then
      var (h', p) := Carve(h, i, size, align);
      Returns((k.(heap := h'), p))
    else if OverLimit(h, need) || iteration > 0 then Returns((k, NULL))
    else
      match MapPages(k, h.end, GrownEnd(h, need), depth)
      case Deeper => Deeper
      case Returns(k') =>
        var g := Extend(k'.heap, h.end, GrownEnd(h, need));
        Request(k'.(heap := g), size, align, iteration + 1, depth)
  }

  /** The hole that ends up with the new bytes `[from, to)`. */
  function Extend(h: Heap, from: int, to: int): Heap {
    var growth := (to - from) % WORD;
    var top := Highest(h.index);
    if !top.found then
      var m := WriteFooter(WriteHeader(h.mem, from, growth, 1), from + growth - FOOTER, from);
      h.(end := to, mem := m, index := Inserted(h.index, h.capacity, from, SizeLess(m)))
    else
      var a := h.index[top.slot];
      var m := Store32(h.mem, a + 4, SizeAt(h.mem, a) + growth);
      h.(end := to, mem := WriteFooter(m, a + SizeAt(m, a) - FOOTER, a))
  }

  lemma ExtendIsGrow(h: Heap, need: int)
    ensures Extend(h, h.end, GrownEnd(h, need)) == Grow(h, need)
  {
    hide GrownEnd, WriteHeader, WriteFooter, Store32, Inserted, Highest;
  }

  // ---- all tables present ----

  /** The pages a range loop touches between the two addresses all have tables. */
  predicate Present(tables: set<int>, from: int, to: int)
    decreases if from <= to then to - from + 1 else 0
  {
    from <= to ==> DirSlot(from) in tables && Present(tables, from + PAGE, to)
  }

  lemma {:induction false} MapsPresent(k: Kernel, from: int, to: int, depth: nat)
    requires Present(k.tables, from, to)
    ensures MapPages(k, from, to, depth) == Returns(k)
    decreases if from <= to then to - from + 1 else 0
  {
    hide Request;
    if from > to {
    } else {
      MapsPresent(k, from + PAGE, to, depth);
    }
  }

  /** When the tables of the new pages are there, the request is the pure allocation, at any depth. */
  lemma PresentIsAllocate(k: Kernel, size: int, align: bool, depth: nat)
    requires Present(k.tables, k.heap.end, GrownEnd(k.heap, Need(size)))
    ensures var (h', p) := Allocate(k.heap, size, align, 0);
            Request(k, size, align, 0, depth) == Returns((Kernel(h', k.tables), p))
  {
    hide Present, MapPages, Carve, Fits, Need, Grow, GrownEnd, Extend;
    MapsPresent(k, k.heap.end, GrownEnd(k.heap, Need(size)), depth);
    ExtendIsGrow(k.heap, Need(size));
    RetryReturns(k.(heap := Grow(k.heap, Need(size))), size, align, 1, depth);
  }

  /** A retry returns. */
  lemma RetryReturns(k: Kernel, size: int, align: bool, iteration: nat, depth: nat)
    requires iteration > 0
    ensures var (h', p) := Allocate(k.heap, size, align, iteration);
            Request(k, size, align, iteration, depth) == Returns((k.(heap := h'), p))
  {
    hide Carve, Fits, Need, Grow, GrownEnd, Extend, MapPages;
  }

  // ---- a missing table ----

  /** `at` is the first address of the loop whose page has no table. */
  predicate FirstMissing(tables: set<int>, from: int, to: int, at: int) {
    from <= at <= to && (at - from) % PAGE == 0 && DirSlot(at) !in tables && Present(tables, from, at - PAGE)
  }

  lemma {:induction false} WalksTo(k: Kernel, from: int, to: int, at: int, depth: nat)
    requires FirstMissing(k.tables, from, to, at)
    ensures MapPages(k, from, to, depth) == MapPages(k, at, to, depth)
    decreases if from <= to then to - from + 1 else 0
  {
    hide Request;
    if from == at {
    } else {
      PageBetween(from, at);
      WalksTo(k, from + PAGE, to, at, depth);
    }
  }

  lemma PageBetween(from: int, at: int)
    requires from < at && (at - from) % PAGE == 0
    ensures from + PAGE <= at && (at - (from + PAGE)) % PAGE == 0
  {
    assert at - from == (at - from) / PAGE * PAGE;
  }

  /** A request that no hole answers and that expands the heap. */
  predicate Expands(h: Heap, size: int, align: bool) {
    FindFrom(h.mem, h.index, Need(size), align, 0) == |h.index| && !OverLimit(h, Need(size))
  }

  /** The page without a table is one that an expansion for a page table would map too. */
  predicate AsksAgain(k: Kernel, at: int) {
    FirstMissing(k.tables, k.heap.end, GrownEnd(k.heap, Need(PAGE)), at) && !OverLimit(k.heap, Need(PAGE))
  }

  /** If no hole fits the page table, the request for it runs into the same page again, without end. */
  lemma {:induction false} NeverReturns(k: Kernel, size: int, align: bool, at: int, depth: nat)
    requires Expands(k.heap, size, align) && FirstMissing(k.tables, k.heap.end, GrownEnd(k.heap, Need(size)), at)
    requires AsksAgain(k, at) && !AlignedFits(k.heap, Need(PAGE))
    ensures Request(k, size, align, 0, depth).Deeper?
    decreases depth
  {
    hide Carve, Fits, Need, GrownEnd, Extend, Present;
    WalksTo(k, k.heap.end, GrownEnd(k.heap, Need(size)), at, depth);
    if depth == 0 {
    } else {
      NeverReturns(k, PAGE, true, at, depth - 1);
    }
  }

  /** With a hole for the table, and no second table missing, the request returns one level down. */
  lemma ReturnsOnce(k: Kernel, size: int, align: bool, at: int)
    requires Expands(k.heap, size, align) && FirstMissing(k.tables, k.heap.end, GrownEnd(k.heap, Need(size)), at)
    requires AlignedFits(k.heap, Need(PAGE)) && Allocate(k.heap, PAGE, true, 0).1 != NULL
    requires Present(k.tables + {DirSlot(at)}, at + PAGE, GrownEnd(k.heap, Need(size)))
    ensures Request(k, size, align, 0, 1).Returns?
  {
    hide Carve, Fits, Need, GrownEnd, Extend, Present;
    var end := GrownEnd(k.heap, Need(size));
    WalksTo(k, k.heap.end, end, at, 1);
    TableServed(k);
    var (h', p) := Allocate(k.heap, PAGE, true, 0);
    var k' := Kernel(h', k.tables + {DirSlot(at)});
    MapsPresent(k', at + PAGE, end, 1);
    assert MapPages(k, at, end, 1) == MapPages(k', at + PAGE, end, 1);
    RetryReturns(k'.(heap := Extend(h', k.heap.end, end)), size, align, 1, 1);
  }

  lemma TableServed(k: Kernel)
    requires AlignedFits(k.heap, Need(PAGE))
    ensures var (h', p) := Allocate(k.heap, PAGE, true, 0);
            Request(k, PAGE, true, 0, 0) == Returns((k.(heap := h'), p))
  {
    hide Carve, Fits, Need, GrownEnd, Extend, MapPages;
  }

  /** An expansion that needs one more page table, for a page that the expansion for that table would need too,
      returns exactly when some hole fits the table. */
  lemma TableReturnsIff(k: Kernel, live: map<int, int>, size: int, align: bool, at: int)
    requires Sound(k.heap, live) && PAGE <= k.heap.start && Expands(k.heap, size, align) && AsksAgain(k, at)
    requires FirstMissing(k.tables, k.heap.end, GrownEnd(k.heap, Need(size)), at)
    requires Present(k.tables + {DirSlot(at)}, at + PAGE, GrownEnd(k.heap, Need(size)))
    ensures (exists depth: nat :: Request(k, size, align, 0, depth).Returns?) <==> AlignedFits(k.heap, Need(PAGE))
  {
    hide Sound, Request, Need, GrownEnd, Present, FirstMissing, Fits, Allocate;
    if AlignedFits(k.heap, Need(PAGE)) {
      TableThere(k.heap, live);
      ReturnsOnce(k, size, align, at);
    } else {
      forall depth: nat
        ensures Request(k, size, align, 0, depth).Deeper?
      {
        NeverReturns(k, size, align, at, depth);
      }
    }
  }

  lemma TableThere(h: Heap, live: map<int, int>)
    requires Sound(h, live) && PAGE <= h.start && AlignedFits(h, Need(PAGE))
    ensures Allocate(h, PAGE, true, 0).1 != NULL
  {
    hide Tiled, Serves, Need, Fits, Carve, FrontGap;
    var bs: seq<Block> :| Tiled(h, bs) && Serves(bs, live);
    var i := FindFrom(h.mem, h.index, Need(PAGE), true, 0);
    var k := HoleOf(h, bs, i);
    GapBound(h.index[i]);
    CarveAbove(h, i, PAGE);
  }

  lemma CarveAbove(h: Heap, i: nat, size: int)
    requires i < |h.index| && PAGE <= h.index[i]
    ensures Carve(h, i, size, true).1 == h.index[i] + FrontGap(h.index[i]) + HEADER
  {
    hide PlaceBlock, WriteHeader, WriteFooter;
  }

  // ---- a run that gets there ----

  /** The slots of the kernel and of the first 4 MiB of its heap. */
  const FIRST_TABLES: set<int> := {768, 769}

  /** The heap ends at the last page its table maps, and all of it is in use: the next small request never returns. */
  lemma TableWitness() returns (s: State)
    ensures Reached(s) && Enabled(s, Malloc(20))
    ensures forall depth: nat :: Request(Kernel(s.heap, FIRST_TABLES), 20, false, 0, depth).Deeper?
  {
    hide Serves, Reached, Chain, Addrs, AllTagged, UntaggedBelow, Load32, AllUsed, Request, Enabled, Looks;
    assert PageUp(HEAP_INITIAL_END - FIRST + 0x2F_F000) == 0x37_E000;
    var s1, b, rest := ExpandOnce(0x2F_F000, 0x37_E000);
    s := ServeAll(s1, [b], rest) by { OneUsed(b); }
    var bs := [b] + [rest.(hole := false)];
    NothingFree(s, bs);
    AtTheBoundary(s, bs);
  }

  lemma NothingFree(s: State, bs: seq<Block>)
    requires Looks(s, bs) && |bs| == 2 && !bs[0].hole && !bs[1].hole
    ensures s.heap.index == []
  {
    hide Tiled, Serves, Reached;
    assert AllUsed(bs);
    assert bs + [] == bs;
    IndexIs(s.heap, bs, []);
  }

  lemma AtTheBoundary(s: State, bs: seq<Block>)
    requires Looks(s, bs) && s.heap.index == [] && s.heap.end == FIRST + 0x37_E000
    ensures Reached(s) && Enabled(s, Malloc(20))
    ensures forall depth: nat :: Request(Kernel(s.heap, FIRST_TABLES), 20, false, 0, depth).Deeper?
  {
    hide Tiled, Serves, Reached, Request;
    var h := s.heap;
    var k := Kernel(h, FIRST_TABLES);
    var at := FIRST + 0x37_F000;
    assert !OverLimit(h, 40) && NoWrap(h, 40) && Need(20) == 40;
    assert GrownEnd(h, 40) == at && GrownEnd(h, Need(PAGE)) == at + PAGE;
    assert DirSlot(h.end) == 769 && DirSlot(at) == 770;
    assert Present(FIRST_TABLES, h.end, at - PAGE);
    forall depth: nat
      ensures Request(k, 20, false, 0, depth).Deeper?
    {
      NeverReturns(k, 20, false, at, depth);
    }
  }
}
