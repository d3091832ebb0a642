/** The memory set-up of src/kernel/kernel-main.c: bump allocation, the frame bitmap, and the first mappings. */
module Boot {
  import opened Machine
  import HeapModel
  import opened HeapManagers
  import opened PhysicalMemory
  import opened PageMaps
  import opened PageTables
  import opened PagingManagers

  const DIRECTORY_SIZE: nat := 0x2000

  function BitmapBytes(memorySize: nat): nat {
    memorySize / PAGE / 32 * 4
  }

  /** Where the bump allocator stands once the bitmap and the page directory are placed. */
  function Placement(kernelEnd: nat, memorySize: nat): int {
    HeapModel.PageUp(HeapModel.PageUp(kernelEnd) + BitmapBytes(memorySize)) + DIRECTORY_SIZE
  }

  lemma PageUpUnique(n: int, p: int)
    requires n <= p < n + PAGE && p % PAGE == 0
    ensures p == HeapModel.PageUp(n)
  {
  }

  /** The kernel fits below its heap and memory has enough frames for the boot range. */
  predicate BootFits(kernelEnd: nat, memorySize: nat) {
    var p := Placement(kernelEnd, memorySize);
    && KERNEL <= kernelEnd && memorySize < WORD && p + PAGE < HeapModel.HEAP_START
    && (p + PAGE - KERNEL) / PAGE + 1 <= 32 * (memorySize / PAGE / 32)
  }

  lemma PlacementFits(kernelEnd: nat, memorySize: nat)
    requires BootFits(kernelEnd, memorySize)
    ensures var p := Placement(kernelEnd, memorySize);
            && KERNEL <= kernelEnd && memorySize < WORD && KERNEL <= p && p % PAGE == 0
            && p + PAGE < HeapModel.HEAP_START && (p + PAGE - KERNEL) / PAGE + 1 <= 32 * (memorySize / PAGE / 32)
  {
  }

  /** After boot, `[0xC0000000, end)` is mapped to `[0, end - 0xC0000000)`, by the tables and by the directory, and no
      frame is shared. The kernel, the words of the bitmap, the page directory, its only page table and the next table
      to be bump-allocated lie in that range one after the other. */
  method Boot(kernelEnd: nat, memorySize: nat) returns (heap: HeapManager, paging: PagingManager, bitmap: int,
              directory: int, table: int, end: int)
    requires BootFits(kernelEnd, memorySize)
    ensures fresh(heap) && heap.Valid() && fresh(paging) && paging.Valid() && paging.enabled && paging.Wired()
    ensures 0xC000_0000 <= kernelEnd <= bitmap && bitmap + 4 * paging.pmm.words.Length <= directory
    ensures directory + 0x2000 == table && table + 0x1000 == heap.placement && heap.placement + 0x1000 == end
    ensures bitmap < kernelEnd + 0x1000 && directory < bitmap + 4 * paging.pmm.words.Length + 0x1000
    ensures bitmap % 0x1000 == directory % 0x1000 == table % 0x1000 == 0
    ensures forall v: nat :: 0xC000_0000 <= v < end ==> paging.VirtualToPhysical(v) == v - 0xC000_0000
    ensures forall v: nat, a: nat :: 0xC000_0000 <= v < end ==>
              (WalksTo(paging.refs[..], paging.dirs[..], v, a) <==> a == v - 0xC000_0000)
    ensures paging.dirs[0x300] == DirEntry(true, true, false, (table - 0xC000_0000) / 0x1000)
    ensures paging.refs[0x300].Table? && paging.refs[0x300].addr == table
    ensures forall d :: 0 <= d < ENTRIES ==> (paging.refs[d] != NoTable <==> d == 0x300)
    ensures paging.heap == heap && Inv(paging.Value())
  {
    hide Flat, UsedIn, TablesOk, Inv, PagingManager.VirtualToPhysical, PagingManager.Wired, DirectoryOk, WalksTo,
      InKernelSpace, Placement, BitmapBytes, BootFits;
    PlacementFits(kernelEnd, memorySize);
    heap, bitmap, directory := PlaceStructures(kernelEnd, memorySize);
    var pmm := new PhysicalMemoryManager(memorySize);
    paging := new PagingManager(pmm, heap);
    MapKernel(paging);
    table := paging.refs[KERNEL / PAGE / ENTRIES].addr;
    end := table + 2 * PAGE;
    BootWalks(paging, end);
  }

  lemma BootWalks(paging: PagingManager, end: nat)
    requires paging.Valid() && paging.enabled && paging.Wired()
    requires end < WORD && InKernelSpace(Flat(paging.refs[..]), end)
    ensures forall v: nat :: KERNEL <= v < end ==> paging.VirtualToPhysical(v) == v - KERNEL
    ensures forall v: nat, a: nat :: KERNEL <= v < end ==>
              (WalksTo(paging.refs[..], paging.dirs[..], v, a) <==> a == v - KERNEL)
  {
    hide Flat, TablesOk, DirectoryOk, WalksTo, PagingManager.VirtualToPhysical;
    forall v: nat | KERNEL <= v < end
      ensures paging.VirtualToPhysical(v) == v - KERNEL
    {
      assert At(Flat(paging.refs[..]), v);
    }
    forall v: nat, a: nat | KERNEL <= v < end
      ensures WalksTo(paging.refs[..], paging.dirs[..], v, a) <==> a == v - KERNEL
    {
      WalkAgrees(paging.refs[..], paging.dirs[..], v, a);
      assert At(Flat(paging.refs[..]), v);
    }
  }

  /** The page of `v` is mapped, and `v` translates to where the kernel offset puts it. */
  ghost predicate At(pages: map<nat, Entry>, v: nat) {
    Page(v) in pages && Translate(pages, v) == v - KERNEL
  }

  ghost predicate InKernelSpace(pages: map<nat, Entry>, end: nat) {
    forall v: nat :: KERNEL <= v < end ==> At(pages, v)
  }

  /** The bump allocations before the first mapping: the frame bitmap, then the page directory. */
  method PlaceStructures(kernelEnd: nat, memorySize: nat) returns (heap: HeapManager, bitmap: int, directory: int)
    ensures fresh(heap) && heap.Valid() && fresh(heap.index) && fresh(heap.index.data)
    ensures heap.status == Bootstrapped
    ensures kernelEnd <= bitmap < kernelEnd + PAGE && bitmap % PAGE == 0
    ensures var size := 4 * (memorySize / PAGE / 32); bitmap + size <= directory < bitmap + size + PAGE
    ensures directory % PAGE == 0 && directory + DIRECTORY_SIZE == heap.placement == Placement(kernelEnd, memorySize)
  {
    heap := new HeapManager.Bootstrap(kernelEnd, map[], HeapModel.HEAP_INDEX_SIZE);
    bitmap := heap.Malloc(BitmapBytes(memorySize), true);
    PageUpUnique(kernelEnd, bitmap);
    ghost var before := heap.placement;
    directory := heap.Malloc(DIRECTORY_SIZE, true);
    PageUpUnique(before, directory);
  }

  /** Maps kernel space up to the page at `p + PAGE`, where `p` is where the bump allocator stands, and enables paging.
      The loop asks that allocator for exactly one page table, and gets it at `p`. */
  method MapKernel(paging: PagingManager)
    requires paging.Valid() && !paging.enabled && paging.Wired()
    requires paging.Value() == Space(map[], {}, paging.pmm.Blocks(), 0)
    requires forall d :: 0 <= d < ENTRIES ==> paging.refs[d] == NoTable
    requires var p := paging.heap.placement;
             && paging.heap.status == Bootstrapped && KERNEL <= p && p % PAGE == 0 && p + PAGE < HeapModel.HEAP_START
             && (p + PAGE - KERNEL) / PAGE + 1 <= paging.pmm.Blocks()
    modifies paging, paging.dirs, paging.refs, paging.pmm, paging.pmm.words
    modifies paging.heap`end, paging.heap`mem, paging.heap`placement, paging.heap.index, paging.heap.index.data
    ensures paging.Valid() && paging.enabled
    ensures var p, d := old(paging.heap.placement), KERNEL / PAGE / ENTRIES;
            && paging.heap.placement == p + PAGE
            && (forall e :: 0 <= e < ENTRIES ==> (paging.refs[e] != NoTable <==> e == d))
            && paging.refs[d].Table? && paging.refs[d].addr == p
            && paging.dirs[d] == DirEntry(true, true, false, (p - KERNEL) / PAGE)
    ensures Inv(paging.Value()) && paging.Wired()
    ensures InKernelSpace(Flat(paging.refs[..]), old(paging.heap.placement) + 2 * PAGE)
  {
    hide Flat, UsedIn, BootPages, Below, MapRange, MapRangeBut, TablesTaken, Entered, Inv, DirectoryOk, InKernelSpace,
      MappedAt, NewStored, Untouched, Extends;
    var p: nat := paging.heap.placement;
    ghost var k := (p + PAGE - KERNEL) / PAGE + 1;
    ghost var was := Places(paging.refs[..]);
    MapBoot(paging.pmm.Blocks(), p);
    NothingLost(paging.Value(), KERNEL, p + PAGE, true, false);
    var ok, lost := paging.AllocateRange(KERNEL, p + PAGE, true, false);
    assert paging.Value() == BootSpace(paging.pmm.Blocks(), k);
    BootInv(paging.pmm.Blocks(), k);
    TableMapped(paging, k);
    OneTable(p, paging.heap.placement, was, Places(paging.refs[..]), paging.dirs[..]);
    KernelSpace(paging.pmm.Blocks(), k);
    OneTableStored(was, Places(paging.refs[..]), paging.dirs[..], p, Flat(paging.refs[..]));
    paging.Enable();
  }

  lemma KernelSpace(blocks: nat, k: nat)
    ensures InKernelSpace(BootSpace(blocks, k).pages, KERNEL + k * PAGE)
  {
    forall v: nat | KERNEL <= v < KERNEL + k * PAGE
      ensures At(BootSpace(blocks, k).pages, v)
    {
      BootTranslates(blocks, k, v);
    }
  }

  /** The only table lies where the directory says, before and after paging is enabled. */
  lemma OneTableStored(was: seq<int>, now: seq<int>, dirs: seq<DirEntry>, p: nat, pages: map<nat, Entry>)
    requires |was| == |now| == |dirs| == ENTRIES && KERNEL <= p && p % PAGE == 0 && p + PAGE < WORD
    requires forall d :: 0 <= d < ENTRIES ==> was[d] == -1 && (now[d] != -1 <==> d == KERNEL / PAGE / ENTRIES)
    requires now[KERNEL / PAGE / ENTRIES] == p && InKernelSpace(pages, p + PAGE)
    ensures NewStored(was, now, dirs, map[], false)
    ensures forall d: nat :: d < ENTRIES && now[d] >= 0 ==> MappedAt(pages, now[d])
  {
    assert At(pages, p);
  }

  /** The first page of the boot range has a table. */
  lemma TableMapped(paging: PagingManager, k: nat)
    requires paging.Valid() && paging.Value() == BootSpace(paging.pmm.Blocks(), k) && 0 < k
    ensures paging.refs[KERNEL / PAGE / ENTRIES].Table?
  {
    assert KERNEL_PAGE in BootSpace(paging.pmm.Blocks(), k).pages;
    assert KERNEL_PAGE in Flat(paging.refs[..]);
  }

  /** All slots of the boot range are one slot. */
  lemma OneTable(p: nat, to: int, was: seq<int>, now: seq<int>, dirs: seq<DirEntry>)
    requires KERNEL <= p && p % PAGE == 0 && p + PAGE < HeapModel.HEAP_START
    requires TablesTaken(p, to, was, now) && forall d :: 0 <= d < ENTRIES ==> was[d] == -1
    requires Entered(was, now, dirs, true, false, KERNEL / PAGE / ENTRIES, (p + PAGE) / PAGE / ENTRIES, false, map[])
    requires now[KERNEL / PAGE / ENTRIES] != -1
    ensures var d := KERNEL / PAGE / ENTRIES;
            && to == p + PAGE && now[d] == p && dirs[d] == DirEntry(true, true, false, (p - KERNEL) / PAGE)
            && forall e :: 0 <= e < ENTRIES ==> (now[e] != -1 <==> e == d)
  {
    var d := KERNEL / PAGE / ENTRIES;
    assert (p + PAGE) / PAGE / ENTRIES == d;
    assert New(was, now) == {d};
    assert HeapModel.PageUp(p) == p;
    assert PlaceOf(p, 1, now[d]);
  }

  lemma BootStart(blocks: nat)
    ensures BootSpace(blocks, 0) == Space(map[], {}, blocks, 0)
  {
  }

  /** The boot range maps the pages up to and including the one at `p + PAGE`, in frame order. */
  lemma MapBoot(blocks: nat, p: nat)
    requires KERNEL <= p && p % PAGE == 0 && (p + PAGE - KERNEL) / PAGE + 1 <= blocks <= PAGES
    ensures var k := (p + PAGE - KERNEL) / PAGE + 1;
            && MapRange(Space(map[], {}, blocks, 0), KERNEL, p + PAGE, true, false) == Mapped(BootSpace(blocks, k))
            && KERNEL + k * PAGE == p + 2 * PAGE
  {
    hide BootSpace, MapRange;
    BootStart(blocks);
    BootRange(blocks, 0, p + PAGE);
  }
}
