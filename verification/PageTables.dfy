/** The two levels of src/kernel/memory-mangement/paging-manager.c on values: a page directory over page tables (Intel
    SDM Vol. 3A, section 4.3), the flat map they stand for, and what the directory tells the processor. */
module PageTables {
  import opened Machine
  import HeapModel
  import opened PageMaps

  const ENTRIES: nat := 1024

  datatype PageEntry = PageEntry(present: bool, rw: bool, user: bool, frame: nat)
  datatype DirEntry = DirEntry(present: bool, rw: bool, user: bool, frame: nat)

  /** A slot of `ref_tables`: null, or a table with the address it was allocated at. */
  datatype Table = NoTable | Table(addr: nat, pages: seq<PageEntry>)

  const CLEAR: PageEntry := PageEntry(false, false, false, 0)

  ghost predicate TablesOk(refs: seq<Table>) {
    |refs| == ENTRIES && forall d :: 0 <= d < ENTRIES && refs[d].Table? ==> |refs[d].pages| == ENTRIES
  }

  predicate PresentIn(refs: seq<Table>, p: nat)
    requires TablesOk(refs) && p < PAGES
  {
    refs[p / ENTRIES].Table? && refs[p / ENTRIES].pages[p % ENTRIES].present
  }

  function EntryIn(refs: seq<Table>, p: nat): Entry
    requires TablesOk(refs) && p < PAGES && PresentIn(refs, p)
  {
    var e := refs[p / ENTRIES].pages[p % ENTRIES];
    Entry(e.frame, e.rw, e.user)
  }

  /** The flat map the two levels stand for. */
  ghost function Flat(refs: seq<Table>): map<nat, Entry>
    requires TablesOk(refs)
  {
    map p: nat | p < PAGES && PresentIn(refs, p) :: EntryIn(refs, p)
  }

  lemma SameSlot(p: nat, q: nat)
    ensures p / ENTRIES == q / ENTRIES && p % ENTRIES == q % ENTRIES <==> p == q
  {
    assert p == p / ENTRIES * ENTRIES + p % ENTRIES && q == q / ENTRIES * ENTRIES + q % ENTRIES;
  }

  /** A fresh, cleared table maps nothing. */
  lemma FlatNewTable(refs: seq<Table>, d: nat, t: Table)
    requires TablesOk(refs) && d < ENTRIES && refs[d] == NoTable
    requires t.Table? && |t.pages| == ENTRIES && forall i :: 0 <= i < ENTRIES ==> !t.pages[i].present
    ensures TablesOk(refs[d := t]) && Flat(refs[d := t]) == Flat(refs)
  {
    var refs' := refs[d := t];
    assert forall p: nat :: p < PAGES ==> (PresentIn(refs', p) <==> PresentIn(refs, p));
  }

  lemma PresentFlat(refs: seq<Table>, p: nat)
    requires TablesOk(refs) && p < PAGES
    ensures p in Flat(refs) <==> PresentIn(refs, p)
  {
  }

  function WithEntry(refs: seq<Table>, p: nat, e: PageEntry): seq<Table>
    requires TablesOk(refs) && p < PAGES && refs[p / ENTRIES].Table?
  {
    var t := refs[p / ENTRIES];
    refs[p / ENTRIES := t.(pages := t.pages[p % ENTRIES := e])]
  }

  lemma WithEntryAt(refs: seq<Table>, p: nat, e: PageEntry, q: nat)
    requires TablesOk(refs) && p < PAGES && refs[p / ENTRIES].Table? && q < PAGES
    ensures TablesOk(WithEntry(refs, p, e))
    ensures p != q ==> PresentIn(WithEntry(refs, p, e), q) == PresentIn(refs, q)
    ensures p != q && PresentIn(refs, q) ==> EntryIn(WithEntry(refs, p, e), q) == EntryIn(refs, q)
    ensures PresentIn(WithEntry(refs, p, e), p) == e.present
    ensures e.present ==> EntryIn(WithEntry(refs, p, e), p) == Entry(e.frame, e.rw, e.user)
  {
    SameSlot(p, q);
  }

  /** Writing one entry maps or unmaps exactly that page. */
  lemma FlatWithEntry(refs: seq<Table>, p: nat, e: PageEntry)
    requires TablesOk(refs) && p < PAGES && refs[p / ENTRIES].Table?
    ensures TablesOk(WithEntry(refs, p, e))
    ensures Flat(WithEntry(refs, p, e)) ==
            if e.present then Flat(refs)[p := Entry(e.frame, e.rw, e.user)] else Flat(refs) - {p}
  {
    hide PresentIn, EntryIn, WithEntry;
    var refs' := WithEntry(refs, p, e);
    WithEntryAt(refs, p, e, p);
    forall q: nat | q < PAGES
      ensures q != p ==> PresentIn(refs', q) == PresentIn(refs, q)
      ensures q != p && PresentIn(refs, q) ==> EntryIn(refs', q) == EntryIn(refs, q)
    {
      WithEntryAt(refs, p, e, q);
    }
  }

  // ---- where page tables come from ----

  /** The addresses the tables were allocated at; -1 where there is none. */
  ghost function Places(refs: seq<Table>): (r: seq<int>)
    ensures |r| == |refs|
    ensures forall d :: 0 <= d < |r| ==> r[d] == if refs[d].Table? then refs[d].addr else -1
  {
    seq(|refs|, d requires 0 <= d < |refs| => if refs[d].Table? then refs[d].addr else -1)
  }

  /** The directory slots that have received a table. */
  ghost function New(was: seq<int>, now: seq<int>): set<nat> {
    set d: nat | d < |was| && d < |now| && was[d] == -1 && now[d] != -1
  }

  /** Since the bump allocator stood at `from`, each new table has taken one page from it, in order, and it has given
      out nothing else. */
  ghost predicate TablesTaken(from: int, to: int, was: seq<int>, now: seq<int>) {
    && |was| == |now| == ENTRIES
    && to == (if New(was, now) == {} then from else HeapModel.PageUp(from) + |New(was, now)| * PAGE)
    && (forall d: nat :: d < ENTRIES && d !in New(was, now) ==> now[d] == was[d])
    && (forall d :: d in New(was, now) ==> PlaceOf(from, |New(was, now)|, now[d]))
  }

  /** One of the first `n` pages a bump allocator at `from` gives out. */
  ghost predicate PlaceOf(from: int, n: nat, addr: int) {
    exists j: nat :: j < n && addr == (HeapModel.PageUp(from) + j * PAGE) % WORD
  }

  lemma NoneTaken(from: int, was: seq<int>)
    requires |was| == ENTRIES
    ensures TablesTaken(from, from, was, was)
  {
    assert New(was, was) == {};
  }

  lemma OneMoreTaken(from: int, to: int, was: seq<int>, now: seq<int>, d: nat)
    requires TablesTaken(from, to, was, now) && d < ENTRIES && now[d] == -1
    ensures var to', addr := HeapModel.PageUp(to) + PAGE, HeapModel.PageUp(to) % WORD;
            TablesTaken(from, to', was, now[d := addr])
  {
    hide HeapModel.PageUp, New, PlaceOf;
    var taken := New(was, now);
    var addr := HeapModel.PageUp(to) % WORD;
    var now' := now[d := addr];
    NewPlus(was, now, d, addr);
    PageUpAgain(from, |taken|);
    assert HeapModel.PageUp(to) == HeapModel.PageUp(from) + |taken| * PAGE;
    forall x | x in New(was, now')
      ensures PlaceOf(from, |taken| + 1, now'[x])
    {
      if x == d {
        LastPlace(from, |taken|);
      } else {
        MorePlaces(from, |taken|, now[x]);
      }
    }
  }

  lemma NewPlus(was: seq<int>, now: seq<int>, d: nat, addr: int)
    requires |was| == |now| == ENTRIES && d < ENTRIES && now[d] == -1 && addr >= 0
    requires forall x: nat :: x < ENTRIES && x !in New(was, now) ==> now[x] == was[x]
    ensures d !in New(was, now) && New(was, now[d := addr]) == New(was, now) + {d}
    ensures forall x :: x in New(was, now) ==> x < ENTRIES
  {
  }

  lemma LastPlace(from: int, n: nat)
    ensures PlaceOf(from, n + 1, (HeapModel.PageUp(from) + n * PAGE) % WORD)
  {
    hide HeapModel.PageUp;
  }

  lemma MorePlaces(from: int, n: nat, addr: int)
    requires PlaceOf(from, n, addr)
    ensures PlaceOf(from, n + 1, addr)
  {
    hide HeapModel.PageUp;
  }

  lemma PageUpAgain(from: int, n: nat)
    ensures n > 0 ==> HeapModel.PageUp(HeapModel.PageUp(from) + n * PAGE) == HeapModel.PageUp(from) + n * PAGE
  {
    var k := HeapModel.PageUp(from) / PAGE + n;
    assert HeapModel.PageUp(from) + n * PAGE == k * PAGE;
  }

  /** A bump allocator that has room for a table for every slot never answers NULL. */
  lemma NextTableThere(from: int, to: int, was: seq<int>, now: seq<int>)
    requires TablesTaken(from, to, was, now) && 0 < from && from + (ENTRIES + 2) * PAGE <= WORD
    ensures HeapModel.PageUp(to) % WORD != 0
  {
    hide HeapModel.PageUp, New, PlaceOf;
    var n := |New(was, now)|;
    NewCount(was, now);
    PageUpAgain(from, n);
    PageUpNear(from);
    assert HeapModel.PageUp(to) == HeapModel.PageUp(from) + n * PAGE;
    NotZero(HeapModel.PageUp(to));
  }

  lemma NewCount(was: seq<int>, now: seq<int>)
    requires |was| == |now| == ENTRIES
    ensures |New(was, now)| <= ENTRIES
  {
    assert New(was, now) <= Below(ENTRIES);
    Subset(New(was, now), Below(ENTRIES));
  }

  lemma NotZero(v: int)
    requires 0 < v < WORD
    ensures v % WORD != 0
  {
  }

  lemma PageUpNear(n: int)
    ensures n <= HeapModel.PageUp(n) < n + PAGE
  {
  }

  // ---- what the directory tells the processor ----

  /** `virtual_2_physical` on the flat map. */
  ghost function Phys(pages: map<nat, Entry>, enabled: bool, v: nat): nat {
    if enabled then Translate(pages, v) else (v - KERNEL) % WORD
  }

  /** A table may lie at `addr`: at the start of a page, and a mapped one once paging is enabled. */
  ghost predicate Stored(addr: int, pages: map<nat, Entry>, enabled: bool) {
    0 <= addr < WORD && addr % PAGE == 0 && (enabled ==> Page(addr) in pages)
  }

  /** The entry of a slot with a table is present and holds the frame the table lies in; the others are not present. */
  ghost predicate SlotOk(addr: int, e: DirEntry, pages: map<nat, Entry>, enabled: bool) {
    if addr < 0 then !e.present
    else e.present && Stored(addr, pages, enabled) && e.frame * PAGE == Phys(pages, enabled, addr)
  }

  /** No other table than the one of slot `d` lies in the frame of its entry. */
  ghost predicate OwnFrame(places: seq<int>, dirs: seq<DirEntry>, d: nat)
    requires |places| == |dirs| == ENTRIES && d < ENTRIES
  {
    forall e: nat :: e < ENTRIES && e != d && places[e] >= 0 ==> dirs[e].frame != dirs[d].frame
  }

  ghost predicate DirectoryOk(places: seq<int>, dirs: seq<DirEntry>, pages: map<nat, Entry>, enabled: bool) {
    && |places| == |dirs| == ENTRIES
    && (forall d: nat :: d < ENTRIES ==> SlotOk(places[d], dirs[d], pages, enabled))
    && (forall d: nat :: d < ENTRIES && places[d] >= 0 ==> OwnFrame(places, dirs, d))
  }

  /** Mapping more pages moves no table. */
  lemma SlotStays(addr: int, e: DirEntry, pages: map<nat, Entry>, more: map<nat, Entry>, enabled: bool)
    requires SlotOk(addr, e, pages, enabled) && Extends(pages, more)
    ensures SlotOk(addr, e, more, enabled)
  {
  }

  lemma AllStay(places: seq<int>, dirs: seq<DirEntry>, pages: map<nat, Entry>, more: map<nat, Entry>, enabled: bool)
    requires DirectoryOk(places, dirs, pages, enabled) && Extends(pages, more)
    ensures DirectoryOk(places, dirs, more, enabled)
  {
    hide SlotOk, Extends, OwnFrame;
    forall d: nat | d < ENTRIES
      ensures SlotOk(places[d], dirs[d], more, enabled)
    {
      SlotStays(places[d], dirs[d], pages, more, enabled);
    }
  }

  ghost predicate Extends(pages: map<nat, Entry>, more: map<nat, Entry>) {
    forall p :: p in pages ==> p in more && more[p] == pages[p]
  }

  lemma MappingExtends(s: Space, page: nat, frame: nat, rw: bool, user: bool)
    ensures MapPage(s, page, frame, rw, user).Mapped? ==>
              Extends(s.pages, MapPage(s, page, frame, rw, user).space.pages)
    ensures LosePage(s, frame).Mapped? ==> Extends(s.pages, LosePage(s, frame).space.pages)
  {
  }

  /** A table for slot `d` was asked for on `pages`, and what the heap answered, or 0 for NULL, was entered. */
  ghost predicate Answered(was: seq<int>, dirsWas: seq<DirEntry>, now: seq<int>, dirs: seq<DirEntry>,
                           pages: map<nat, Entry>, enabled: bool, d: nat) {
    && |was| == |dirsWas| == |now| == |dirs| == ENTRIES && d < ENTRIES
    && was[d] == -1 && now == was[d := now[d]] && dirs == dirsWas[d := dirs[d]]
    && dirs[d].present && now[d] >= -1
    && dirs[d].frame == Phys(pages, enabled, if now[d] < 0 then 0 else now[d]) / PAGE
  }

  /** A new table keeps the directory right exactly when the heap answered with a mapped page of its own. The page
      mapped with it may be any other than the one that holds the table. */
  lemma AnsweredIff(was: seq<int>, dirsWas: seq<DirEntry>, now: seq<int>, dirs: seq<DirEntry>, pages: map<nat, Entry>,
                    more: map<nat, Entry>, enabled: bool, d: nat)
    requires DirectoryOk(was, dirsWas, pages, enabled) && Extends(pages, more)
    requires Answered(was, dirsWas, now, dirs, pages, enabled, d)
    requires now[d] >= 0 && Page(now[d]) in more ==> Page(now[d]) in pages
    ensures DirectoryOk(now, dirs, more, enabled)
            <==> now[d] >= 0 && Stored(now[d], pages, enabled) && OwnFrame(now, dirs, d)
  {
    hide SlotOk, Stored, Extends, Phys, OwnFrame;
    forall e: nat | e < ENTRIES && e != d
      ensures SlotOk(now[e], dirs[e], more, enabled)
    {
      SlotStays(was[e], dirsWas[e], pages, more, enabled);
    }
    AnsweredSlot(now[d], dirs[d], pages, more, enabled);
    if OwnFrame(now, dirs, d) {
      forall e: nat | e < ENTRIES && now[e] >= 0
        ensures OwnFrame(now, dirs, e)
      {
        OthersOwn(was, dirsWas, now, dirs, d, e);
      }
    }
  }

  lemma AnsweredSlot(addr: int, e: DirEntry, pages: map<nat, Entry>, more: map<nat, Entry>, enabled: bool)
    requires Extends(pages, more) && addr >= -1 && e.present
    requires e.frame == Phys(pages, enabled, if addr < 0 then 0 else addr) / PAGE
    requires addr >= 0 && Page(addr) in more ==> Page(addr) in pages
    ensures SlotOk(addr, e, more, enabled) <==> addr >= 0 && Stored(addr, pages, enabled)
  {
    if Stored(addr, pages, enabled) {
      FrameOf(addr, pages, enabled);
    }
  }

  lemma FrameOf(addr: nat, pages: map<nat, Entry>, enabled: bool)
    requires Stored(addr, pages, enabled)
    ensures Phys(pages, enabled, addr) / PAGE * PAGE == Phys(pages, enabled, addr)
  {
    if !enabled {
      assert addr == addr / PAGE * PAGE;
      var q := if addr < KERNEL then addr / PAGE - KERNEL / PAGE + 0x10_0000 else addr / PAGE - KERNEL / PAGE;
      assert (addr - KERNEL) % WORD == q * PAGE;
    }
  }

  lemma OthersOwn(was: seq<int>, dirsWas: seq<DirEntry>, now: seq<int>, dirs: seq<DirEntry>, d: nat, e: nat)
    requires |was| == |dirsWas| == |now| == |dirs| == ENTRIES && d < ENTRIES && e < ENTRIES && now[e] >= 0
    requires now == was[d := now[d]] && dirs == dirsWas[d := dirs[d]]
    requires was[e] >= 0 ==> OwnFrame(was, dirsWas, e)
    requires OwnFrame(now, dirs, d)
    ensures OwnFrame(now, dirs, e)
  {
  }

  /** Mapped pages that share no frame give tables at different addresses different frames. */
  lemma OwnPageOwnFrame(places: seq<int>, dirs: seq<DirEntry>, pages: map<nat, Entry>, d: nat)
    requires |places| == |dirs| == ENTRIES && d < ENTRIES && places[d] >= 0 && Injective(pages)
    requires forall e: nat :: e < ENTRIES ==> SlotOk(places[e], dirs[e], pages, true)
    ensures OwnFrame(places, dirs, d) <==> forall e: nat :: e < ENTRIES && e != d ==> places[e] != places[d]
  {
    forall e: nat | e < ENTRIES && places[e] >= 0
      ensures dirs[e].frame == dirs[d].frame <==> places[e] == places[d]
    {
      assert SlotOk(places[e], dirs[e], pages, true) && SlotOk(places[d], dirs[d], pages, true);
      assert pages[Page(places[e])].frame == dirs[e].frame && pages[Page(places[d])].frame == dirs[d].frame;
      assert places[e] == Page(places[e]) * PAGE && places[d] == Page(places[d]) * PAGE;
    }
  }

  /** Some table lies in the page. */
  ghost predicate HoldsTable(places: seq<int>, page: nat) {
    exists d: nat :: d < |places| && places[d] >= 0 && Page(places[d]) == page
  }

  /** Releasing a page keeps the directory right exactly when the page holds no table, or paging is not enabled. */
  lemma ReleasedIff(places: seq<int>, dirs: seq<DirEntry>, pages: map<nat, Entry>, page: nat, enabled: bool)
    requires DirectoryOk(places, dirs, pages, enabled)
    ensures DirectoryOk(places, dirs, pages - {page}, enabled) <==> !enabled || !HoldsTable(places, page)
  {
    hide OwnFrame;
    if enabled && HoldsTable(places, page) {
      var d: nat :| d < |places| && places[d] >= 0 && Page(places[d]) == page;
      assert !SlotOk(places[d], dirs[d], pages - {page}, enabled);
    }
  }

  /** Enabling paging keeps the directory right exactly when every table is mapped where it was entered. */
  lemma EnabledIff(places: seq<int>, dirs: seq<DirEntry>, pages: map<nat, Entry>)
    requires DirectoryOk(places, dirs, pages, false)
    ensures DirectoryOk(places, dirs, pages, true)
            <==> forall d: nat :: d < ENTRIES && places[d] >= 0 ==> MappedAt(pages, places[d])
  {
    hide OwnFrame;
    forall d: nat | d < ENTRIES
      ensures SlotOk(places[d], dirs[d], pages, true) <==> (places[d] >= 0 ==> MappedAt(pages, places[d]))
    {
      assert SlotOk(places[d], dirs[d], pages, false);
    }
  }

  ghost predicate MappedAt(pages: map<nat, Entry>, addr: nat) {
    Page(addr) in pages && Translate(pages, addr) == (addr - KERNEL) % WORD
  }

  /** The table of slot `d` lies at the physical address `a`. */
  ghost predicate LiesAt(refs: seq<Table>, d: nat, a: nat)
    requires TablesOk(refs)
  {
    d < ENTRIES && refs[d].Table? && Translate(Flat(refs), refs[d].addr) == a
  }

  /** What the processor does with the linear address `v` (Intel SDM Vol. 3A, section 4.3): bits 31 to 22 choose the
      directory entry, which names the frame of a table, bits 21 to 12 an entry of that table, which names the frame. */
  ghost predicate WalksTo(refs: seq<Table>, dirs: seq<DirEntry>, v: nat, a: nat)
    requires TablesOk(refs) && |dirs| == ENTRIES && v < WORD
  {
    var entry := dirs[v / 0x40_0000];
    entry.present && exists d: nat :: LiesAt(refs, d, entry.frame * 0x1000) && Reads(refs, d, v, a)
  }

  ghost predicate Reads(refs: seq<Table>, d: nat, v: nat, a: nat)
    requires TablesOk(refs)
  {
    && d < ENTRIES && refs[d].Table?
    && var e := refs[d].pages[v / 0x1000 % 0x400]; e.present && a == e.frame * 0x1000 + v % 0x1000
  }

  /** While the directory is right, the processor's walk through the directory's frames gives an address exactly for
      the mapped pages, and the one that `virtual_2_physical` computes from the tables' addresses. */
  lemma WalkAgrees(refs: seq<Table>, dirs: seq<DirEntry>, v: nat, a: nat)
    requires TablesOk(refs) && v < WORD && DirectoryOk(Places(refs), dirs, Flat(refs), true)
    ensures WalksTo(refs, dirs, v, a) <==> Page(v) in Flat(refs) && a == Translate(Flat(refs), v)
  {
    hide OwnFrame, TablesOk;
    var d := v / 0x40_0000;
    assert d == v / 0x1000 / 0x400;
    assert SlotOk(Places(refs)[d], dirs[d], Flat(refs), true);
    WalkReads(refs, v, a);
    if dirs[d].present {
      forall e: nat | LiesAt(refs, e, dirs[d].frame * 0x1000)
        ensures e == d
      {
        SameFrame(refs, dirs, d, e);
      }
      assert LiesAt(refs, d, dirs[d].frame * 0x1000);
    }
  }

  lemma SameFrame(refs: seq<Table>, dirs: seq<DirEntry>, d: nat, e: nat)
    requires TablesOk(refs) && DirectoryOk(Places(refs), dirs, Flat(refs), true)
    requires d < ENTRIES && refs[d].Table? && LiesAt(refs, e, dirs[d].frame * 0x1000)
    ensures e == d
  {
    hide TablesOk;
    assert SlotOk(Places(refs)[e], dirs[e], Flat(refs), true);
    assert OwnFrame(Places(refs), dirs, d);
  }

  lemma WalkReads(refs: seq<Table>, v: nat, a: nat)
    requires TablesOk(refs) && v < WORD
    ensures Reads(refs, v / 0x1000 / 0x400, v, a) <==> Page(v) in Flat(refs) && a == Translate(Flat(refs), v)
  {
    PresentFlat(refs, v / 0x1000);
  }

  /** An entry with those rights that holds the frame of `addr`, provided that its page is one of `pages` if paging is
      enabled. */
  ghost predicate EntryFor(addr: int, e: DirEntry, rw: bool, user: bool, pages: map<nat, Entry>, enabled: bool) {
    && addr >= 0 && e.present && e.rw == rw && e.user == user
    && ((enabled ==> Page(addr) in pages) ==> e.frame == Phys(pages, enabled, addr) / PAGE)
  }

  /** Each new table lies in the slots `[lo, hi]`, and the directory holds its frame, provided that its page was mapped
      before the range if paging is enabled. */
  ghost predicate Entered(was: seq<int>, now: seq<int>, dirs: seq<DirEntry>, rw: bool, user: bool, lo: nat, hi: nat,
                          enabled: bool, pages: map<nat, Entry>) {
    && |was| == |now| == |dirs| == ENTRIES
    && forall d :: d in New(was, now) ==> lo <= d <= hi && EntryFor(now[d], dirs[d], rw, user, pages, enabled)
  }

  lemma NoneEntered(was: seq<int>, dirs: seq<DirEntry>, rw: bool, user: bool, lo: nat, hi: nat, enabled: bool,
                    pages: map<nat, Entry>)
    requires |was| == |dirs| == ENTRIES
    ensures Entered(was, was, dirs, rw, user, lo, hi, enabled, pages) && Untouched(was, dirs, was, dirs)
  {
  }

  lemma ExtendsItself(pages: map<nat, Entry>)
    ensures Extends(pages, pages)
  {
  }

  /** One more answer of the heap. */
  lemma EnteredToo(d: nat, rw: bool, user: bool, was: seq<int>, now: seq<int>, dirsNow: seq<DirEntry>, next: seq<int>,
                   dirs: seq<DirEntry>, lo: nat, hi: nat, pagesNow: map<nat, Entry>, pages: map<nat, Entry>,
                   enabled: bool)
    requires Entered(was, now, dirsNow, rw, user, lo, hi, enabled, pages) && Extends(pages, pagesNow)
    requires Answered(now, dirsNow, next, dirs, pagesNow, enabled, d)
    requires lo <= d <= hi && dirs[d].rw == rw && dirs[d].user == user
    ensures Entered(was, next, dirs, rw, user, lo, hi, enabled, pages)
  {
    hide EntryFor, Phys, Extends;
    if next[d] >= 0 {
      NewEntry(next[d], dirs[d], rw, user, pages, pagesNow, enabled);
    }
    forall e | e in New(was, next)
      ensures lo <= e <= hi && EntryFor(next[e], dirs[e], rw, user, pages, enabled)
    {
      if e != d {
        assert e in New(was, now);
      }
    }
  }

  lemma NewEntry(addr: nat, e: DirEntry, rw: bool, user: bool, pages: map<nat, Entry>, pagesNow: map<nat, Entry>,
                 enabled: bool)
    requires e.present && e.rw == rw && e.user == user && Extends(pages, pagesNow)
    requires e.frame == Phys(pagesNow, enabled, addr) / PAGE
    ensures EntryFor(addr, e, rw, user, pages, enabled)
  {
  }

  lemma ExtendsFurther(pages: map<nat, Entry>, more: map<nat, Entry>, most: map<nat, Entry>)
    requires Extends(pages, more) && Extends(more, most)
    ensures Extends(pages, most)
  {
  }

  /** The other slots are as they were. */
  ghost predicate Untouched(was: seq<int>, dirsWas: seq<DirEntry>, now: seq<int>, dirs: seq<DirEntry>) {
    && |was| == |dirsWas| == |now| == |dirs| == ENTRIES
    && forall d: nat :: d < ENTRIES && d !in New(was, now) ==> now[d] == was[d] && dirs[d] == dirsWas[d]
  }

  /** Each new table lies in a page mapped before, and in a frame of its own. */
  ghost predicate NewStored(was: seq<int>, now: seq<int>, dirs: seq<DirEntry>, pages: map<nat, Entry>, enabled: bool) {
    && |was| == |now| == |dirs| == ENTRIES
    && forall d :: d in New(was, now) ==> Stored(now[d], pages, enabled) && OwnFrame(now, dirs, d)
  }

  /** The tables of a range keep the directory right when each lies in a mapped page of its own. */
  lemma RangeKeeps(was: seq<int>, dirsWas: seq<DirEntry>, now: seq<int>, dirs: seq<DirEntry>, rw: bool, user: bool,
                   lo: nat, hi: nat, pages: map<nat, Entry>, more: map<nat, Entry>, enabled: bool)
    requires DirectoryOk(was, dirsWas, pages, enabled) && Extends(pages, more)
    requires Entered(was, now, dirs, rw, user, lo, hi, enabled, pages) && Untouched(was, dirsWas, now, dirs)
    requires NewStored(was, now, dirs, pages, enabled)
    ensures DirectoryOk(now, dirs, more, enabled)
  {
    hide SlotOk, Stored, Extends, Phys, OwnFrame, New, EntryFor;
    var added := New(was, now);
    forall d: nat | d < ENTRIES
      ensures SlotOk(now[d], dirs[d], more, enabled)
    {
      if d in added {
        EntrySlot(now[d], dirs[d], rw, user, pages, enabled);
      }
      SlotStays(now[d], dirs[d], pages, more, enabled);
    }
    forall d: nat | d < ENTRIES && now[d] >= 0
      ensures OwnFrame(now, dirs, d)
    {
      if d !in added {
        StillOwn(was, dirsWas, now, dirs, d);
      }
    }
  }

  lemma EntrySlot(addr: int, e: DirEntry, rw: bool, user: bool, pages: map<nat, Entry>, enabled: bool)
    requires EntryFor(addr, e, rw, user, pages, enabled) && Stored(addr, pages, enabled)
    ensures SlotOk(addr, e, pages, enabled)
  {
    FrameOf(addr, pages, enabled);
  }

  lemma StillOwn(was: seq<int>, dirsWas: seq<DirEntry>, now: seq<int>, dirs: seq<DirEntry>, d: nat)
    requires Untouched(was, dirsWas, now, dirs) && d < ENTRIES && d !in New(was, now) && now[d] >= 0
    requires OwnFrame(was, dirsWas, d)
    requires forall e :: e in New(was, now) ==> OwnFrame(now, dirs, e)
    ensures OwnFrame(now, dirs, d)
  {
    hide New;
    assert now[d] == was[d];
    forall e: nat | e < ENTRIES && e != d && now[e] >= 0
      ensures dirs[e].frame != dirs[d].frame
    {
      if e in New(was, now) {
        assert OwnFrame(now, dirs, e);
      }
    }
  }

  /** Mapping the range from `start` on `s0` amounts to mapping it from `a` on `s`, whatever is lost from there on. */
  ghost predicate Follows(s0: Space, start: nat, s: Space, a: nat, end: nat, rw: bool, user: bool, lost: set<nat>) {
    forall more: set<nat> :: (forall p :: p in more ==> p >= Page(a)) ==>
      MapRangeBut(s0, start, end, rw, user, lost + more) == MapRangeBut(s, a, end, rw, user, more)
  }

  lemma FollowsStart(s: Space, start: nat, end: nat, rw: bool, user: bool)
    ensures Follows(s, start, s, start, end, rw, user, {})
  {
    hide MapRangeBut;
    forall more: set<nat> | forall p :: p in more ==> p >= Page(start)
      ensures MapRangeBut(s, start, end, rw, user, {} + more) == MapRangeBut(s, start, end, rw, user, more)
    {
      assert {} + more == more;
    }
  }

  lemma Followed(s0: Space, start: nat, s: Space, a: nat, end: nat, rw: bool, user: bool, lost: set<nat>)
    requires Follows(s0, start, s, a, end, rw, user, lost) && a > end
    ensures MapRangeBut(s0, start, end, rw, user, lost) == Mapped(s)
  {
    assert lost + {} == lost;
    assert MapRangeBut(s, a, end, rw, user, {}) == Mapped(s);
  }

  /** One turn of the loop over a range. */
  lemma OnePage(s0: Space, start: nat, s: Space, a: nat, end: nat, rw: bool, user: bool, lost: set<nat>, loses: bool)
    requires Follows(s0, start, s, a, end, rw, user, lost) && a <= end
    ensures var r := if loses then LosePage(s, 0) else MapPage(s, Page(a), 0, rw, user);
            var lost' := if loses then lost + {Page(a)} else lost;
            && (r.Mapped? ==> Follows(s0, start, r.space, a + PAGE, end, rw, user, lost'))
            && (r.NoMemory? ==> MapRangeBut(s0, start, end, rw, user, lost') == NoMemory)
  {
    hide MapPage, LosePage;
    var r := if loses then LosePage(s, 0) else MapPage(s, Page(a), 0, rw, user);
    var lost' := if loses then lost + {Page(a)} else lost;
    var one := if loses then {Page(a)} else {};
    assert lost + one == lost';
    if r.Mapped? {
      forall more: set<nat> | forall p :: p in more ==> p >= Page(a + PAGE)
        ensures MapRangeBut(s0, start, end, rw, user, lost' + more)
             == MapRangeBut(r.space, a + PAGE, end, rw, user, more)
      {
        assert lost' + more == lost + (more + one);
        assert Page(a + PAGE) == Page(a) + 1;
        assert MapRangeBut(s, a, end, rw, user, more + one)
            == MapRangeBut(r.space, a + PAGE, end, rw, user, more + one);
        if loses {
          LostBelow(r.space, a + PAGE, end, rw, user, more, Page(a));
        } else {
          assert more + one == more;
        }
      }
    } else {
      assert MapRangeBut(s, a, end, rw, user, one) == NoMemory;
    }
  }

  /** Every mapped frame has a bit in the bitmap. */
  ghost predicate Covered(s: Space) {
    forall p :: p in s.pages ==> s.pages[p].frame < s.blocks
  }

  lemma StillCovered(s: Space, page: nat)
    requires Covered(s)
    ensures Covered(UnmapPage(s, page))
  {
  }
}
