/** src/kernel/memory-mangement/paging-manager.c: the page directory and its tables, changed in place and proved against
    the flat map of PageMaps. */
module PagingManagers {
  import opened Machine
  import HeapModel
  import opened HeapManagers
  import opened PhysicalMemory
  import opened PageMaps
  import opened PageTables

  class PagingManager {
    const dirs: array<DirEntry>
    const refs: array<Table>
    const pmm: PhysicalMemoryManager
    const heap: HeapManager
    var enabled: bool

    ghost predicate Valid()
      reads refs, heap, heap.index
    {
      && dirs.Length == ENTRIES && refs.Length == ENTRIES
      && dirs as object != refs && dirs as object != pmm.words && refs as object != pmm.words
      && heap.Valid()
      && heap.index.data as object != dirs && heap.index.data as object != refs
      && heap.index.data as object != pmm.words
      && TablesOk(refs[..])
      && pmm.Blocks() <= PAGES
    }

    ghost function Value(): Space
      reads refs, pmm, pmm.words, heap, heap.index
      requires Valid()
    {
      Space(Flat(refs[..]), pmm.Used(), pmm.Blocks(), pmm.blockUsed)
    }

    /** `paging_manager_init` with `should_clear` set. */
    constructor (pmm: PhysicalMemoryManager, heap: HeapManager)
      requires pmm.Blocks() <= PAGES && heap.Valid()
      requires heap.index.data as object != pmm.words
      ensures Valid() && this.pmm == pmm && this.heap == heap && !enabled && fresh(dirs) && fresh(refs)
      ensures Value() == Space(map[], pmm.Used(), pmm.Blocks(), pmm.blockUsed)
      ensures forall d :: 0 <= d < ENTRIES ==> refs[d] == NoTable && !dirs[d].present
      ensures Wired()
    {
      this.pmm, this.heap := pmm, heap;
      dirs := new DirEntry[ENTRIES](_ => DirEntry(false, false, false, 0));
      refs := new Table[ENTRIES](_ => NoTable);
      enabled := false;
    }

    /** What the directory tells the processor is right. */
    ghost predicate Wired()
      reads this, dirs, refs, heap, heap.index
      requires Valid()
    {
      DirectoryOk(Places(refs[..]), dirs[..], Flat(refs[..]), enabled)
    }

    /** `virtual_2_physical`. */
    function VirtualToPhysical(v: nat): (r: nat)
      reads this, refs, heap, heap.index
      requires Valid() && v < WORD
      ensures enabled ==> r == Translate(Flat(refs[..]), v)
      ensures !enabled ==> r == (v - KERNEL) % WORD
    {
      if !enabled then (v - KERNEL) % WORD
      else
        var d, t, offset := v / PAGE / ENTRIES, v / PAGE % ENTRIES, v % PAGE;
        if refs[d] == NoTable || !refs[d].pages[t].present then 0
        else refs[d].pages[t].frame * PAGE + offset
    }

    /** The first half of `allocate_page`: a missing table is asked of the heap, cleared, and entered. */
    method NeedTable(p: nat, rw: bool, user: bool)
      requires Valid() && p < PAGES
      modifies dirs, refs, heap`end, heap`mem, heap`placement, heap.index, heap.index.data
      ensures Valid() && heap.index.data == old(heap.index.data)
      ensures Value() == old(Value())
      ensures Requested(p / ENTRIES, rw, user, old(Places(refs[..])), old(dirs[..]), old(heap.placement),
                        old(Flat(refs[..])))
    {
      hide HeapModel.PageUp, Flat, UsedIn, Phys;
      if refs[p / ENTRIES] == NoTable {
        NewTable(p / ENTRIES, rw, user);
      }
    }

    /** When the heap answers NULL the slot stays empty, although its directory entry is written. */
    method NewTable(d: nat, rw: bool, user: bool)
      requires Valid() && d < ENTRIES && refs[d] == NoTable
      modifies dirs, refs, heap`end, heap`mem, heap`placement, heap.index, heap.index.data
      ensures Valid() && heap.index.data == old(heap.index.data)
      ensures Value() == old(Value())
      ensures Requested(d, rw, user, old(Places(refs[..])), old(dirs[..]), old(heap.placement), old(Flat(refs[..])))
    {
      hide HeapModel.PageUp, HeapModel.Allocate, Flat, UsedIn, Places, TablesOk, PagingManager.VirtualToPhysical;
      var a := heap.Malloc(PAGE, true);
      if a % WORD == 0 {
        dirs[d] := DirEntry(true, rw, user, VirtualToPhysical(0) / PAGE);
      } else {
        EnterTable(d, a % WORD, rw, user);
      }
    }

    method EnterTable(d: nat, addr: nat, rw: bool, user: bool)
      requires Valid() && d < ENTRIES && refs[d] == NoTable && addr < WORD
      modifies dirs, refs
      ensures Valid() && Value() == old(Value())
      ensures refs[d].Table? && refs[d].addr == addr && Places(refs[..]) == old(Places(refs[..]))[d := addr]
      ensures dirs[..] == old(dirs[..])[d := DirEntry(true, rw, user, old(VirtualToPhysical(addr)) / PAGE)]
    {
      hide Flat, UsedIn;
      var t := VirtualToPhysical(addr);
      var table := Table(addr, seq(ENTRIES, _ => CLEAR));
      FlatNewTable(refs[..], d, table);
      ghost var next := refs[..][d := table];
      dirs[d] := DirEntry(true, rw, user, t / PAGE);
      refs[d] := table;
      assert refs[..] == next;
      assert Places(next) == old(Places(refs[..]))[d := addr];
    }

    /** The slot `d` has the table it had; or the heap was asked for one. What the heap answered was entered in the
        directory by its physical address, and in the slot unless it was NULL. Before the heap is initialized the
        bump allocator answers. */
    ghost predicate Requested(d: nat, rw: bool, user: bool, was: seq<int>, dirsWas: seq<DirEntry>, placement: int,
                              pages: map<nat, Entry>)
      requires Valid() && d < ENTRIES && |was| == |dirsWas| == ENTRIES
      reads this, refs, dirs, heap, heap.index
    {
      if was[d] != -1 then
        Places(refs[..]) == was && dirs[..] == dirsWas && heap.placement == placement
      else
        var addr := if refs[d].Table? then refs[d].addr else 0;
        && (refs[d].Table? ==> addr != 0) && Places(refs[..]) == was[d := if addr == 0 then -1 else addr]
        && |dirs[..]| == ENTRIES && dirs[..] == dirsWas[d := dirs[d]]
        && dirs[d].present && dirs[d].rw == rw && dirs[d].user == user
        && dirs[d].frame == Phys(pages, enabled, addr) / PAGE
        && (heap.status == Bootstrapped ==>
              && addr == HeapModel.PageUp(placement) % WORD
              && heap.placement == HeapModel.PageUp(placement) + PAGE)
    }

    /** `allocate_page`; `false` is the failure the code reports to the memory manager. */
    method AllocatePage(v: nat, frame: nat, rw: bool, user: bool) returns (ok: bool)
      requires Valid() && v < WORD && frame < PAGES
      modifies dirs, refs, pmm, pmm.words, heap`end, heap`mem, heap`placement, heap.index, heap.index.data
      ensures Valid() && heap.index.data == old(heap.index.data)
      ensures var r := if refs[v / PAGE / ENTRIES].Table? then MapPage(old(Value()), Page(v), frame, rw, user)
                       else LosePage(old(Value()), frame);
              if ok then r == Mapped(Value()) else r == NoMemory && Value() == old(Value()) && pmm.failed
      ensures Requested(v / PAGE / ENTRIES, rw, user, old(Places(refs[..])), old(dirs[..]), old(heap.placement),
                        old(Flat(refs[..])))
      ensures old(Wired()) ==> StaysWired(v / PAGE / ENTRIES, old(Places(refs[..])), old(Flat(refs[..])))
    {
      hide Flat, UsedIn, MapPage, LosePage, HeapModel.PageUp, Phys, Extends, DirectoryOk, TablesOk,
        PagingManager.StaysWired;
      ghost var s := Value();
      var p := v / PAGE;
      NeedTable(p, rw, user);
      if refs[p / ENTRIES] == NoTable {
        ok := FillNowhere(frame);
      } else {
        ok := Fill(p, frame, rw, user);
      }
      MappingExtends(s, p, frame, rw, user);
      ExtendsItself(s.pages);
      if old(Wired()) {
        KeptWired(p / ENTRIES, rw, user, old(Places(refs[..])), old(dirs[..]), old(heap.placement), s.pages);
      }
    }

    /** A directory that was right when the tables were at `was` and `pages` was mapped is right still if slot `d` had
        a table. If not, it is exactly when the heap answered with a mapped page of its own; the page mapped with the
        new table must not be the one that holds it. */
    ghost predicate StaysWired(d: nat, was: seq<int>, pages: map<nat, Entry>)
      requires Valid() && d < ENTRIES && |was| == ENTRIES
      reads this, refs, dirs, heap, heap.index
    {
      var addr := Places(refs[..])[d];
      if was[d] >= 0 then Wired()
      else
        (addr >= 0 && Page(addr) in Flat(refs[..]) ==> Page(addr) in pages) ==>
          (Wired() <==> addr >= 0 && Stored(addr, pages, enabled) && OwnFrame(Places(refs[..]), dirs[..], d))
    }

    lemma KeptWired(d: nat, rw: bool, user: bool, was: seq<int>, dirsWas: seq<DirEntry>, placement: int,
                    pages: map<nat, Entry>)
      requires Valid() && d < ENTRIES && DirectoryOk(was, dirsWas, pages, enabled) && Extends(pages, Flat(refs[..]))
      requires Requested(d, rw, user, was, dirsWas, placement, pages) && was[d] >= -1
      ensures StaysWired(d, was, pages)
    {
      hide Flat, HeapModel.PageUp, Phys, Extends, SlotOk, OwnFrame, Stored;
      var more := Flat(refs[..]);
      if was[d] >= 0 {
        AllStay(was, dirsWas, pages, more, enabled);
      } else {
        var addr := Places(refs[..])[d];
        if addr >= 0 && Page(addr) in more ==> Page(addr) in pages {
          AnsweredIff(was, dirsWas, Places(refs[..]), dirs[..], pages, more, enabled, d);
        }
      }
    }

    /** What the second half does to a table at address 0: the entry it writes there belongs to no table. */
    method FillNowhere(frame: nat) returns (ok: bool)
      requires Valid()
      modifies pmm, pmm.words
      ensures Valid()
      ensures var r := LosePage(old(Value()), frame);
              if ok then r == Mapped(Value()) else r == NoMemory && Value() == old(Value()) && pmm.failed
    {
      hide UsedIn, LeastFree, Flat;
      if frame == 0 {
        var t := pmm.AllocateBlock();
        if !pmm.IsValidBlock(t) {
          pmm.failed := true;
          return false;
        }
      }
      return true;
    }

    /** The second half of `allocate_page`, once the table is there. */
    method Fill(p: nat, frame: nat, rw: bool, user: bool) returns (ok: bool)
      requires Valid() && p < PAGES && refs[p / ENTRIES].Table? && frame < PAGES
      modifies refs, pmm, pmm.words
      ensures Valid()
      ensures var r := MapPage(old(Value()), p, frame, rw, user);
              if ok then r == Mapped(Value()) else r == NoMemory && Value() == old(Value()) && pmm.failed
      ensures Places(refs[..]) == old(Places(refs[..]))
    {
      hide WithEntry, UsedIn, LeastFree, Flat, Places;
      PresentFlat(refs[..], p);
      if !refs[p / ENTRIES].pages[p % ENTRIES].present {
        var t := frame;
        if frame == 0 {
          t := pmm.AllocateBlock();
          if !pmm.IsValidBlock(t) {
            pmm.failed := true;
            return false;
          }
        }
        Enter(p, PageEntry(true, rw, user, t));
      }
      return true;
    }

    method Enter(p: nat, e: PageEntry)
      requires Valid() && p < PAGES && refs[p / ENTRIES].Table?
      modifies refs
      ensures Valid() && refs[..] == WithEntry(old(refs[..]), p, e)
      ensures Flat(refs[..]) == if e.present then old(Flat(refs[..]))[p := Entry(e.frame, e.rw, e.user)]
                else old(Flat(refs[..])) - {p}
      ensures Places(refs[..]) == old(Places(refs[..]))
    {
      FlatWithEntry(refs[..], p, e);
      ghost var next := WithEntry(refs[..], p, e);
      refs[p / ENTRIES] := refs[p / ENTRIES].(pages := refs[p / ENTRIES].pages[p % ENTRIES := e]);
      assert refs[..] == next;
    }

    /** `free_page`. A frame that is given back has to be one the bitmap covers. */
    method FreePage(v: nat, shouldFree: bool)
      requires Valid() && v < WORD
      requires shouldFree && Page(v) in Value().pages ==> Value().pages[Page(v)].frame < pmm.Blocks()
      modifies refs, pmm`blockUsed, pmm.words
      ensures Valid()
      ensures shouldFree ==> Value() == UnmapPage(old(Value()), Page(v))
      ensures !shouldFree ==> Value() == old(Value()).(pages := old(Value()).pages - {Page(v)})
      ensures Places(refs[..]) == old(Places(refs[..]))
      ensures old(Wired()) ==> (Wired() <==> !enabled || !HoldsTable(Places(refs[..]), Page(v)))
    {
      hide WithEntry, UsedIn, DirectoryOk, HoldsTable, Places;
      ghost var pages := Flat(refs[..]);
      if Wired() {
        ReleasedIff(Places(refs[..]), dirs[..], pages, v / PAGE, enabled);
      }
      var p := v / PAGE;
      if refs[p / ENTRIES] == NoTable || !refs[p / ENTRIES].pages[p % ENTRIES].present {
        assert p !in Flat(refs[..]);
        assert Flat(refs[..]) - {p} == Flat(refs[..]);
        return;
      }
      var e := refs[p / ENTRIES].pages[p % ENTRIES];
      if shouldFree {
        pmm.FreeBlock(e.frame);
      }
      Enter(p, e.(present := false, frame := 0));
    }

    /** `paging_manager_allocate_range`. The loop ends because the range stops short of the last page. The pages for
        which the heap had no table to give are `lost`; the bump allocator has one for every slot if it stands low
        enough. */
    method AllocateRange(start: nat, end: nat, rw: bool, user: bool) returns (ok: bool, ghost lost: set<nat>)
      requires Valid() && start < WORD && RangeEnds(start, end)
      modifies dirs, refs, pmm, pmm.words, heap`end, heap`mem, heap`placement, heap.index, heap.index.data
      ensures Valid() && heap.index.data == old(heap.index.data)
      ensures var r := MapRangeBut(old(Value()), start, end, rw, user, lost);
              if ok then r == Mapped(Value()) else r == NoMemory
      ensures heap.status == Bootstrapped && 0 < old(heap.placement) <= WORD - (ENTRIES + 2) * PAGE ==>
                && lost == {}
                && TablesTaken(old(heap.placement), heap.placement, old(Places(refs[..])), Places(refs[..]))
      ensures Entered(old(Places(refs[..])), Places(refs[..]), dirs[..], rw, user,
                      start / PAGE / ENTRIES, end / PAGE / ENTRIES, enabled, old(Flat(refs[..])))
      ensures lost == {} ==> Untouched(old(Places(refs[..])), old(dirs[..]), Places(refs[..]), dirs[..])
      ensures Extends(old(Flat(refs[..])), Flat(refs[..]))
      ensures old(Wired()) && lost == {}
              && NewStored(old(Places(refs[..])), Places(refs[..]), dirs[..], old(Flat(refs[..])), enabled) ==>
                Wired()
    {
      hide MapPage, LosePage, MapRangeBut, Follows, Flat, UsedIn, TablesOk, TablesTaken, HeapModel.PageUp,
        PagingManager.VirtualToPhysical, Phys, Entered, Untouched, Extends, New,
        DirectoryOk, NewStored, PagingManager.StaysWired;
      var a := start;
      lost := {};
      ghost var was, dirsWas, pages, from := Places(refs[..]), dirs[..], Flat(refs[..]), heap.placement;
      ghost var low := heap.status == Bootstrapped && 0 < from <= WORD - (ENTRIES + 2) * PAGE;
      ghost var lo, hi := start / PAGE / ENTRIES, end / PAGE / ENTRIES;
      NoneTaken(from, was);
      NoneEntered(was, dirsWas, rw, user, lo, hi, enabled, pages);
      ExtendsItself(pages);
      FollowsStart(Value(), start, end, rw, user);
      while a <= end
        invariant start <= a < WORD && a % PAGE == start % PAGE && Valid() && heap.index.data == old(heap.index.data)
        invariant forall p :: p in lost ==> p < Page(a)
        invariant Follows(old(Value()), start, Value(), a, end, rw, user, lost)
        invariant low ==> lost == {} && TablesTaken(from, heap.placement, was, Places(refs[..]))
        invariant Entered(was, Places(refs[..]), dirs[..], rw, user, lo, hi, enabled, pages)
        invariant lost == {} ==> Untouched(was, dirsWas, Places(refs[..]), dirs[..])
        invariant Extends(pages, Flat(refs[..]))
      {
        ghost var now, dirsNow, placement, s := Places(refs[..]), dirs[..], heap.placement, Value();
        ok := AllocatePage(a, 0, rw, user);
        OneTaken(a / PAGE / ENTRIES, rw, user, was, now, dirsNow, from, placement, low, s.pages);
        OneEntered(a / PAGE / ENTRIES, rw, user, was, now, dirsNow, placement, lo, hi, s.pages, pages);
        NotLost(a / PAGE / ENTRIES, rw, user, was, dirsWas, now, dirsNow, placement, s.pages);
        MappingExtends(s, Page(a), 0, rw, user);
        if ok {
          ExtendsFurther(pages, s.pages, Flat(refs[..]));
        }
        OnePage(old(Value()), start, s, a, end, rw, user, lost, refs[a / PAGE / ENTRIES] == NoTable);
        if refs[a / PAGE / ENTRIES] == NoTable {
          lost := lost + {Page(a)};
        }
        if !ok {
          RangeWired(was, dirsWas, rw, user, lo, hi, pages, lost);
          return false, lost;
        }
        NextPage(start, a, end);
        a := (a + PAGE) % WORD;
      }
      Followed(old(Value()), start, Value(), a, end, rw, user, lost);
      RangeWired(was, dirsWas, rw, user, lo, hi, pages, lost);
      return true, lost;
    }

    lemma RangeWired(was: seq<int>, dirsWas: seq<DirEntry>, rw: bool, user: bool, lo: nat, hi: nat,
                     pages: map<nat, Entry>, lost: set<nat>)
      requires Valid() && Extends(pages, Flat(refs[..])) && |was| == |dirsWas| == ENTRIES
      requires Entered(was, Places(refs[..]), dirs[..], rw, user, lo, hi, enabled, pages)
      requires lost == {} ==> Untouched(was, dirsWas, Places(refs[..]), dirs[..])
      ensures DirectoryOk(was, dirsWas, pages, enabled) && lost == {}
              && NewStored(was, Places(refs[..]), dirs[..], pages, enabled) ==>
                Wired()
    {
      hide DirectoryOk, Extends, Entered, Untouched, NewStored, Flat, TablesOk, Places;
      if DirectoryOk(was, dirsWas, pages, enabled) && lost == {}
         && NewStored(was, Places(refs[..]), dirs[..], pages, enabled) {
        RangeKeeps(was, dirsWas, Places(refs[..]), dirs[..], rw, user, lo, hi, pages, Flat(refs[..]), enabled);
      }
    }

    /** A page that asked for a table, or found one, keeps the account of tables. */
    lemma OneTaken(d: nat, rw: bool, user: bool, was: seq<int>, now: seq<int>, dirsNow: seq<DirEntry>,
                   from: int, placement: int, low: bool, pagesNow: map<nat, Entry>)
      requires Valid() && d < ENTRIES && |now| == |dirsNow| == ENTRIES
      requires Requested(d, rw, user, now, dirsNow, placement, pagesNow)
      requires low ==> && heap.status == Bootstrapped && 0 < from <= WORD - (ENTRIES + 2) * PAGE
                       && TablesTaken(from, placement, was, now)
      ensures low ==> TablesTaken(from, heap.placement, was, Places(refs[..])) && refs[d].Table?
    {
      hide HeapModel.PageUp, TablesTaken, Phys;
      if now[d] == -1 && low {
        NextTableThere(from, placement, was, now);
        OneMoreTaken(from, placement, was, now, d);
      }
    }

    lemma OneEntered(d: nat, rw: bool, user: bool, was: seq<int>, now: seq<int>, dirsNow: seq<DirEntry>,
                     placement: int, lo: nat, hi: nat, pagesNow: map<nat, Entry>, pages: map<nat, Entry>)
      requires Valid() && d < ENTRIES && |now| == |dirsNow| == ENTRIES && lo <= d <= hi && Extends(pages, pagesNow)
      requires Requested(d, rw, user, now, dirsNow, placement, pagesNow)
      requires Entered(was, now, dirsNow, rw, user, lo, hi, enabled, pages)
      ensures Entered(was, Places(refs[..]), dirs[..], rw, user, lo, hi, enabled, pages)
    {
      hide HeapModel.PageUp, Entered, Phys, Extends;
      if now[d] == -1 {
        EnteredToo(d, rw, user, was, now, dirsNow, Places(refs[..]), dirs[..], lo, hi, pagesNow, pages, enabled);
      }
    }

    /** A page that got a table, or found one, leaves the other slots alone. */
    lemma NotLost(d: nat, rw: bool, user: bool, was: seq<int>, dirsWas: seq<DirEntry>, now: seq<int>,
                  dirsNow: seq<DirEntry>, placement: int, pagesNow: map<nat, Entry>)
      requires Valid() && d < ENTRIES && |was| == |dirsWas| == |now| == |dirsNow| == ENTRIES
      requires Requested(d, rw, user, now, dirsNow, placement, pagesNow)
      ensures Untouched(was, dirsWas, now, dirsNow) && refs[d].Table? ==>
                Untouched(was, dirsWas, Places(refs[..]), dirs[..])
    {
      hide HeapModel.PageUp, Phys;
    }

    /** `paging_manager_free_range` with `should_free` set, for frames the bitmap covers. */
    method FreeRange(start: nat, end: nat)
      requires Valid() && start < WORD && RangeEnds(start, end) && Covered(Value())
      modifies refs, pmm`blockUsed, pmm.words
      ensures Valid() && Value() == UnmapRange(old(Value()), start, end)
      ensures Places(refs[..]) == old(Places(refs[..]))
      ensures old(Wired()) && (forall p: nat :: Page(start) <= p <= Page(end) ==> !HoldsTable(Places(refs[..]), p)) ==>
                Wired()
    {
      hide Flat, UnmapPage, DirectoryOk, HoldsTable, Places;
      var a := start;
      while a <= end
        invariant start <= a < WORD && a % PAGE == start % PAGE && Valid() && Covered(Value())
        invariant UnmapRange(Value(), a, end) == UnmapRange(old(Value()), start, end)
        invariant Places(refs[..]) == old(Places(refs[..]))
        invariant old(Wired()) && (forall p: nat :: Page(start) <= p <= Page(end) ==> !HoldsTable(Places(refs[..]), p))
                  ==> Wired()
      {
        StillCovered(Value(), Page(a));
        FreePage(a, true);
        NextPage(start, a, end);
        a := (a + PAGE) % WORD;
      }
    }

    /** `paging_manager_enable`. */
    method Enable()
      requires Valid()
      modifies this`enabled
      ensures Valid() && enabled
      ensures old(Wired() && !enabled) ==>
                (Wired() <==> forall d: nat :: d < ENTRIES && Places(refs[..])[d] >= 0 ==>
                                MappedAt(Flat(refs[..]), Places(refs[..])[d]))
    {
      hide Flat, DirectoryOk, Places, MappedAt;
      if Wired() && !enabled {
        EnabledIff(Places(refs[..]), dirs[..], Flat(refs[..]));
      }
      enabled := true;
    }
  }
}
