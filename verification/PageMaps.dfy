/** src/kernel/memory-mangement/paging-manager.c as a flat map from page numbers to frames, over a set of used
    frames. */
module PageMaps {
  import opened Machine
  import opened PhysicalMemory

  const PAGES: nat := 0x10_0000
  const KERNEL: nat := 0xC000_0000

  datatype Entry = Entry(frame: nat, rw: bool, user: bool)

  /** The mapped pages, the frames set in the bitmap, and the manager's counter. */
  datatype Space = Space(pages: map<nat, Entry>, used: set<nat>, blocks: nat, count: int)

  function Page(v: nat): nat {
    v / PAGE
  }

  datatype Outcome = Mapped(space: Space) | NoMemory

  /** `allocate_page`: frame 0 asks for one from the bitmap; a present page is left alone. */
  function MapPage(s: Space, page: nat, frame: nat, rw: bool, user: bool): Outcome {
    if page in s.pages then Mapped(s)
    else if frame != 0 then Mapped(s.(pages := s.pages[page := Entry(frame % PAGES, rw, user)]))
    else
      var t := LeastFree(s.used, s.blocks, 0);
      if t == s.blocks then NoMemory
      else Mapped(s.(
        pages := s.pages[page := Entry(t % PAGES, rw, user)], used := s.used + {t}, count := (s.count + 1) % WORD))
  }

  /** `allocate_page` when its page table could not be allocated: a frame is taken, and no page is mapped. */
  function LosePage(s: Space, frame: nat): Outcome {
    if frame != 0 then Mapped(s)
    else
      var t := LeastFree(s.used, s.blocks, 0);
      if t == s.blocks then NoMemory else Mapped(s.(used := s.used + {t}, count := (s.count + 1) % WORD))
  }

  /** `free_page` with `should_free` set. */
  function UnmapPage(s: Space, page: nat): Space {
    if page !in s.pages then s
    else s.(pages := s.pages - {page}, used := s.used - {s.pages[page].frame}, count := (s.count - 1) % WORD)
  }

  /** `virtual_2_physical` with paging enabled. */
  function Translate(pages: map<nat, Entry>, v: nat): nat {
    if Page(v) in pages then pages[Page(v)].frame * PAGE + v % PAGE else 0
  }

  // ---- ranges ----

  /** `paging_manager_allocate_range`, inclusive of `end`. */
  function MapRange(s: Space, start: nat, end: nat, rw: bool, user: bool): Outcome
    decreases if start <= end then end - start + 1 else 0
  {
    if start > end then Mapped(s)
    else
      var r := MapPage(s, Page(start), 0, rw, user);
      if r.NoMemory? then NoMemory else MapRange(r.space, start + PAGE, end, rw, user)
  }

  /** The same when no table could be allocated for the pages of `lost`. */
  function MapRangeBut(s: Space, start: nat, end: nat, rw: bool, user: bool, lost: set<nat>): Outcome
    decreases if start <= end then end - start + 1 else 0
  {
    if start > end then Mapped(s)
    else
      var r := if Page(start) in lost then LosePage(s, 0) else MapPage(s, Page(start), 0, rw, user);
      if r.NoMemory? then NoMemory else MapRangeBut(r.space, start + PAGE, end, rw, user, lost)
  }

  lemma {:induction false} NothingLost(s: Space, start: nat, end: nat, rw: bool, user: bool)
    ensures MapRangeBut(s, start, end, rw, user, {}) == MapRange(s, start, end, rw, user)
    decreases if start <= end then end - start + 1 else 0
  {
    hide MapPage;
    if start > end {
    } else {
      var r := MapPage(s, Page(start), 0, rw, user);
      if r.Mapped? {
        NothingLost(r.space, start + PAGE, end, rw, user);
      }
    }
  }

  /** Pages below the range do not matter to it. */
  lemma {:induction false} LostBelow(s: Space, start: nat, end: nat, rw: bool, user: bool, lost: set<nat>, page: nat)
    requires page < Page(start)
    ensures MapRangeBut(s, start, end, rw, user, lost + {page}) == MapRangeBut(s, start, end, rw, user, lost)
    decreases if start <= end then end - start + 1 else 0
  {
    hide MapPage, LosePage;
    if start > end {
    } else {
      var r := if Page(start) in lost then LosePage(s, 0) else MapPage(s, Page(start), 0, rw, user);
      if r.Mapped? {
        LostBelow(r.space, start + PAGE, end, rw, user, lost, page);
      }
    }
  }

  /** `paging_manager_free_range` with `should_free` set. */
  function UnmapRange(s: Space, start: nat, end: nat): Space
    decreases if start <= end then end - start + 1 else 0
  {
    if start > end then s else UnmapRange(UnmapPage(s, Page(start)), start + PAGE, end)
  }

  /** The address a range loop stands at after `n` turns. */
  function Turn(start: nat, n: nat): nat {
    (start + n * PAGE) % WORD
  }

  /** What a caller can check: the loop over a range does not wrap past the last page before it ends. */
  predicate RangeEnds(start: nat, end: nat) {
    end < 0xFFFF_F000 + start % PAGE
  }

  /** The loops over ranges count in 32 bits: they end exactly under that condition. */
  lemma RangeEndsIff(start: nat, end: nat)
    requires start < WORD
    ensures (exists n: nat :: Turn(start, n) > end) <==> RangeEnds(start, end)
  {
    if RangeEnds(start, end) {
      var n := 0xF_FFFF - start / PAGE;
      assert start == start / PAGE * PAGE + start % PAGE;
      assert start + n * PAGE == 0xFFFF_F000 + start % PAGE;
      assert Turn(start, n) > end;
    } else {
      forall n: nat
        ensures Turn(start, n) <= end
      {
        TurnBound(start, n);
      }
    }
  }

  lemma TurnBound(start: nat, n: nat)
    ensures Turn(start, n) <= 0xFFFF_F000 + start % PAGE
  {
    var a := start + n * PAGE;
    var q := a / WORD;
    assert a == q * WORD + a % WORD;
    var k := start / PAGE + n - q * 0x10_0000;
    assert Turn(start, n) == k * PAGE + start % PAGE;
  }

  /** Within such a range the next address does not wrap. */
  lemma NextPage(start: nat, a: nat, end: nat)
    requires RangeEnds(start, end) && a <= end && a % PAGE == start % PAGE
    ensures (a + PAGE) % WORD == a + PAGE < WORD && (a + PAGE) % PAGE == start % PAGE
  {
    assert a == a / PAGE * PAGE + start % PAGE;
    assert a + PAGE == (a / PAGE + 1) * PAGE + start % PAGE;
  }

  // ---- the invariant of bitmap-backed mappings ----

  ghost predicate AllBacked(pages: map<nat, Entry>, used: set<nat>) {
    forall t :: t in used ==> Backs(pages, t)
  }

  ghost predicate Injective(pages: map<nat, Entry>) {
    forall p, q :: p in pages && q in pages && pages[p].frame == pages[q].frame ==> p == q
  }

  ghost predicate Backs(pages: map<nat, Entry>, t: nat) {
    exists p :: p in pages && pages[p].frame == t
  }

  /** No two pages share a frame, the set bits are exactly the mapped frames, and the counter is their number. */
  ghost predicate Inv(s: Space) {
    && s.blocks <= PAGES
    && (forall p :: p in s.pages ==> s.pages[p].frame in s.used)
    && (forall t :: t in s.used ==> t < s.blocks)
    && AllBacked(s.pages, s.used)
    && Injective(s.pages)
    && s.count == |s.used| && |s.used| <= s.blocks
  }

  /** The frames below `n`. */
  ghost function Below(n: nat): (r: set<nat>)
    ensures |r| == n && forall t: nat :: t in r <==> t < n
  {
    if n == 0 then {} else Below(n - 1) + {n - 1}
  }

  lemma Subset(s: set<nat>, t: set<nat>)
    requires s <= t
    ensures |s| <= |t| && (|s| == |t| <==> s == t)
  {
    var rest := t - s;
    assert t == s + rest;
    assert |t| == |s| + |rest|;
    if |s| == |t| {
      assert |rest| == 0;
      assert rest == {};
      assert s == t;
    }
  }

  /** An absent page gets the rights asked for and the frame chosen, or for frame 0 the lowest one that is not used;
      a present page keeps what it has, and so do all others. */
  lemma MapEntry(s: Space, page: nat, frame: nat, rw: bool, user: bool)
    requires s.blocks <= PAGES && frame < PAGES && MapPage(s, page, frame, rw, user).Mapped?
    ensures var s' := MapPage(s, page, frame, rw, user).space;
            && page in s'.pages && (page in s.pages ==> s' == s)
            && (page !in s.pages ==>
                  var e := s'.pages[page];
                  && e.rw == rw && e.user == user && s'.used == s.used + (if frame == 0 then {e.frame} else {})
                  && if frame != 0 then e.frame == frame
                     else e.frame !in s.used && forall t: nat :: t < e.frame ==> t in s.used)
            && forall p :: p != page ==>
                 (p in s'.pages <==> p in s.pages) && (p in s.pages ==> s'.pages[p] == s.pages[p])
  {
    if page !in s.pages && frame == 0 {
      var t := LeastFree(s.used, s.blocks, 0);
      assert t % PAGES == t;
    }
  }

  lemma MapInv(s: Space, page: nat, rw: bool, user: bool)
    requires Inv(s) && MapPage(s, page, 0, rw, user).Mapped?
    ensures Inv(MapPage(s, page, 0, rw, user).space)
    ensures page in MapPage(s, page, 0, rw, user).space.pages
  {
    hide AllBacked, Injective;
    if page !in s.pages {
      var e := Entry(LeastFree(s.used, s.blocks, 0), rw, user);
      MapCount(s, e.frame);
      MapBacks(s, page, e);
      MapInjective(s, page, e);
    }
  }

  lemma MapCount(s: Space, t: nat)
    requires Inv(s) && t !in s.used && t < s.blocks
    ensures |s.used + {t}| == s.count + 1 <= s.blocks && (s.count + 1) % WORD == s.count + 1
  {
    hide AllBacked, Injective;
    Subset(s.used + {t}, Below(s.blocks));
  }

  lemma MapInjective(s: Space, page: nat, e: Entry)
    requires Inv(s) && e.frame !in s.used && page !in s.pages
    ensures Injective(s.pages[page := e])
  {
    hide AllBacked;
  }

  lemma MapBacks(s: Space, page: nat, e: Entry)
    requires AllBacked(s.pages, s.used) && page !in s.pages
    ensures AllBacked(s.pages[page := e], s.used + {e.frame})
  {
    var pages' := s.pages[page := e];
    forall t | t in s.used + {e.frame}
      ensures Backs(pages', t)
    {
      if t == e.frame {
        assert pages'[page].frame == t;
      } else {
        assert Backs(s.pages, t);
        var p :| p in s.pages && s.pages[p].frame == t;
        assert p in pages' && pages'[p].frame == t;
      }
    }
  }

  lemma UnmapInv(s: Space, page: nat)
    requires Inv(s)
    ensures Inv(UnmapPage(s, page))
  {
    if page in s.pages {
      var s' := UnmapPage(s, page);
      forall f | f in s'.used
        ensures Backs(s'.pages, f)
      {
        assert Backs(s.pages, f);
        var p :| p in s.pages && s.pages[p].frame == f;
        assert p != page && s'.pages[p].frame == f;
      }
    }
  }

  /** A frame taken for a page that is not mapped breaks the invariant: nothing gives it back. */
  lemma LosePageInvIff(s: Space, frame: nat)
    requires Inv(s) && LosePage(s, frame).Mapped?
    ensures Inv(LosePage(s, frame).space) <==> frame != 0
  {
    if frame == 0 {
      var t := LeastFree(s.used, s.blocks, 0);
      assert t in LosePage(s, frame).space.used;
      assert Inv(LosePage(s, frame).space) ==> Backs(s.pages, t);
    }
  }

  /** A mapping keeps the invariant exactly when it takes its frame from the bitmap or finds the page present: a frame
      of the caller's choice is not recorded. */
  lemma FixedFrameInvIff(s: Space, page: nat, frame: nat, rw: bool, user: bool)
    requires Inv(s) && MapPage(s, page, frame, rw, user).Mapped?
    ensures Inv(MapPage(s, page, frame, rw, user).space) <==> frame == 0 || page in s.pages
  {
    if frame == 0 {
      MapInv(s, page, rw, user);
    } else if page !in s.pages {
      hide AllBacked, Injective;
      var s' := MapPage(s, page, frame, rw, user).space;
      var t := frame % PAGES;
      assert s'.pages[page].frame == t && s'.used == s.used;
      if t in s.used {
        SharedWith(s, page, t);
      }
    }
  }

  lemma SharedWith(s: Space, page: nat, t: nat)
    requires AllBacked(s.pages, s.used) && t in s.used && page !in s.pages
    ensures forall e: Entry :: e.frame == t ==> !Injective(s.pages[page := e])
  {
    assert Backs(s.pages, t);
    var p :| p in s.pages && s.pages[p].frame == t;
    forall e: Entry | e.frame == t
      ensures !Injective(s.pages[page := e])
    {
      var pages' := s.pages[page := e];
      assert p in pages' && pages'[p].frame == pages'[page].frame && p != page;
    }
  }

  /** The next bitmap-backed mapping shares a chosen frame exactly when that frame is the least free one. */
  lemma ChosenFrameSharedIff(s: Space, page: nat, frame: nat, rw: bool, user: bool, other: nat)
    requires s.blocks <= PAGES && page !in s.pages && 0 < frame < PAGES && other !in s.pages && other != page
    requires MapPage(MapPage(s, page, frame, rw, user).space, other, 0, rw, user).Mapped?
    ensures var pages := MapPage(MapPage(s, page, frame, rw, user).space, other, 0, rw, user).space.pages;
            pages[other].frame == pages[page].frame <==> frame == LeastFree(s.used, s.blocks, 0)
  {
  }

  /** An identity mapping of an absent page is one, except that page 0 gets whatever frame is free. */
  lemma IdentityIff(s: Space, v: nat, rw: bool, user: bool)
    requires s.blocks <= PAGES && Page(v) !in s.pages && Page(v) < PAGES
    requires MapPage(s, Page(v), Page(v), rw, user).Mapped?
    ensures Translate(MapPage(s, Page(v), Page(v), rw, user).space.pages, v) == v
            <==> Page(v) != 0 || LeastFree(s.used, s.blocks, 0) == 0
  {
    var s' := MapPage(s, Page(v), Page(v), rw, user).space;
    assert v == Page(v) * PAGE + v % PAGE;
  }

  /** Identity-mapping the second page of memory after boot, as the kernel does next, breaks the invariant: the kernel's
      second page has that frame from the bitmap. */
  lemma LowMemoryBreaksInv(blocks: nat, k: nat)
    requires 2 <= k <= blocks <= PAGES
    ensures Inv(BootSpace(blocks, k)) && MapPage(BootSpace(blocks, k), 1, 1, true, false).Mapped?
    ensures !Inv(MapPage(BootSpace(blocks, k), 1, 1, true, false).space)
  {
    hide Inv, BootPages, Below;
    BootInv(blocks, k);
    FixedFrameInvIff(BootSpace(blocks, k), 1, 1, true, false);
  }

  // ---- mappings whose frames come from the bitmap, among others ----

  /** The part of the map on the pages of `backed`. */
  ghost function Restrict(s: Space, backed: set<nat>): Space {
    s.(pages := map p | p in s.pages && p in backed :: s.pages[p])
  }

  /** The pages of `backed` are mapped, and among them frames are unshared and the bitmap is exact. */
  ghost predicate BackedInv(s: Space, backed: set<nat>) {
    (forall p :: p in backed ==> p in s.pages) && Inv(Restrict(s, backed))
  }

  lemma RestrictAll(s: Space)
    ensures BackedInv(s, s.pages.Keys) <==> Inv(s)
  {
    hide Inv;
    assert Restrict(s, s.pages.Keys).pages == s.pages;
  }

  /** The pages whose frames came from the bitmap, after a mapping. */
  ghost function BackedBy(s: Space, backed: set<nat>, page: nat, frame: nat): set<nat> {
    if frame == 0 && page !in s.pages then backed + {page} else backed
  }

  /** A mapping to a chosen frame, or to one from the bitmap, keeps the invariant of the backed pages. */
  lemma MapBackedInv(s: Space, backed: set<nat>, page: nat, frame: nat, rw: bool, user: bool)
    requires BackedInv(s, backed) && MapPage(s, page, frame, rw, user).Mapped?
    ensures BackedInv(MapPage(s, page, frame, rw, user).space, BackedBy(s, backed, page, frame))
  {
    hide Inv, LeastFree;
    var s' := MapPage(s, page, frame, rw, user).space;
    if page !in s.pages {
      if frame == 0 {
        var r := Restrict(s, backed);
        MapInv(r, page, rw, user);
        assert Restrict(s', backed + {page}).pages == MapPage(r, page, 0, rw, user).space.pages;
      } else {
        assert Restrict(s', backed).pages == Restrict(s, backed).pages;
      }
    }
  }

  /** A release that gives the frame back keeps that invariant exactly for a backed page or an absent one. */
  lemma UnmapBackedInvIff(s: Space, backed: set<nat>, page: nat)
    requires BackedInv(s, backed)
    ensures BackedInv(UnmapPage(s, page), backed - {page}) <==> page in backed || page !in s.pages
  {
    hide Inv;
    var r, s' := Restrict(s, backed), UnmapPage(s, page);
    var r' := Restrict(s', backed - {page});
    if page in backed {
      UnmapInv(r, page);
      assert r'.pages == UnmapPage(r, page).pages;
    } else {
      assert backed - {page} == backed;
      assert r'.pages == r.pages;
      if page !in s.pages {
      } else if s.pages[page].frame in s.used {
        StillBacked(r, s.pages[page].frame, r');
      } else {
        assert s'.used == s.used;
        CountedTwice(r, r');
      }
    }
  }

  /** A release that clears no bit leaves the counter wrong. */
  lemma CountedTwice(r: Space, r': Space)
    requires Inv(r) && r'.used == r.used && r'.count == (r.count - 1) % WORD
    ensures !Inv(r')
  {
    hide AllBacked, Injective;
  }

  /** Taking a backed frame out of the bitmap leaves its page without one. */
  lemma StillBacked(r: Space, t: nat, r': Space)
    requires Inv(r) && t in r.used && t !in r'.used
    requires forall p :: p in r.pages ==> p in r'.pages && r'.pages[p] == r.pages[p]
    ensures !Inv(r')
  {
    assert Backs(r.pages, t);
    var p :| p in r.pages && r.pages[p].frame == t;
    assert p in r'.pages && r'.pages[p].frame !in r'.used;
  }

  /** A release that keeps the frame. */
  function DropPage(s: Space, page: nat): Space {
    s.(pages := s.pages - {page})
  }

  lemma DropBackedInv(s: Space, backed: set<nat>, page: nat)
    requires BackedInv(s, backed) && page !in backed
    ensures BackedInv(DropPage(s, page), backed)
  {
    hide Inv;
    assert Restrict(DropPage(s, page), backed).pages == Restrict(s, backed).pages;
  }

  // ---- runs ----

  /** A space with the pages whose frames came from the bitmap. */
  datatype Tracked = Tracked(space: Space, backed: set<nat>)

  datatype Op =
    | Map(page: nat, frame: nat, rw: bool, user: bool)
    | Unmap(page: nat)
    | Drop(page: nat)

  ghost predicate IsRun(trace: seq<Tracked>, ops: seq<Op>) {
    && |trace| == |ops| + 1
    && forall i :: 0 <= i < |ops| ==> Steps(trace[i], ops[i], trace[i + 1])
  }

  /** Any mapping that succeeds; a release with its frame of a page whose frame came from the bitmap; a release without
      it of any other. */
  ghost predicate Steps(t: Tracked, op: Op, t': Tracked) {
    var (s, backed) := (t.space, t.backed);
    match op
    case Map(page, frame, rw, user) =>
      MapPage(s, page, frame, rw, user) == Mapped(t'.space) && t'.backed == BackedBy(s, backed, page, frame)
    case Unmap(page) => page in backed && t' == Tracked(UnmapPage(s, page), backed - {page})
    case Drop(page) => page !in backed && t' == Tracked(DropPage(s, page), backed)
  }

  /** Initialization starts such a run: nothing is mapped and no bit is set. */
  lemma InitialInv(blocks: nat)
    requires blocks <= PAGES
    ensures BackedInv(Space(map[], {}, blocks, 0), {})
  {
  }

  /** In every run, mappings to chosen frames included, no two pages with frames from the bitmap share one, the set bits
      are exactly their frames, and the counter is their number. */
  lemma {:induction false} RunInv(trace: seq<Tracked>, ops: seq<Op>, n: nat)
    requires IsRun(trace, ops) && BackedInv(trace[0].space, trace[0].backed) && n < |trace|
    ensures BackedInv(trace[n].space, trace[n].backed)
  {
    hide BackedInv;
    if n == 0 {
    } else {
      RunInv(trace, ops, n - 1);
      var t := trace[n - 1];
      assert Steps(t, ops[n - 1], trace[n - 1 + 1]);
      match ops[n - 1]
      case Map(page, frame, rw, user) => MapBackedInv(t.space, t.backed, page, frame, rw, user);
      case Unmap(page) => UnmapBackedInvIff(t.space, t.backed, page);
      case Drop(page) => DropBackedInv(t.space, t.backed, page);
    }
  }

  /** A mapping fails exactly when the page is absent and every frame is used. */
  lemma MapFailsIff(s: Space, page: nat, rw: bool, user: bool)
    requires Inv(s)
    ensures MapPage(s, page, 0, rw, user).NoMemory? <==> page !in s.pages && |s.used| == s.blocks
  {
    var t := LeastFree(s.used, s.blocks, 0);
    Subset(s.used, Below(s.blocks));
    assert t == s.blocks ==> s.used == Below(s.blocks);
  }

  // ---- what a range covers ----

  /** Pages the inclusive loop touches. */
  ghost predicate Touched(start: nat, end: nat, page: nat) {
    start <= end && Page(start) <= page <= Page(start) + (end - start) / PAGE
  }

  lemma {:induction false} MapRangePages(s: Space, start: nat, end: nat, rw: bool, user: bool)
    requires MapRange(s, start, end, rw, user).Mapped?
    ensures var s' := MapRange(s, start, end, rw, user).space;
            && (forall p: nat :: p in s'.pages <==> p in s.pages || Touched(start, end, p))
            && (forall p :: p in s.pages ==> s'.pages[p] == s.pages[p])
            && (forall p :: p in s'.pages && p !in s.pages ==> s'.pages[p].rw == rw && s'.pages[p].user == user)
            && s'.blocks == s.blocks
    decreases if start <= end then end - start + 1 else 0
  {
    if start > end {
    } else {
      var r := MapPage(s, Page(start), 0, rw, user);
      MapRangePages(r.space, start + PAGE, end, rw, user);
      assert Page(start + PAGE) == Page(start) + 1;
      assert start + PAGE <= end ==> (end - (start + PAGE)) / PAGE == (end - start) / PAGE - 1;
    }
  }

  /** Every address of an inclusive range is mapped, for all page contents, exactly when the offset of `start`
      in its page is no larger than that of `end`; an aligned start always satisfies this. */
  lemma RangeCovers(start: nat, end: nat)
    requires start <= end
    ensures (forall v: nat :: start <= v <= end ==> Touched(start, end, Page(v))) <==> start % PAGE <= end % PAGE
  {
    var k := (end - start) / PAGE;
    if start % PAGE <= end % PAGE {
      assert Page(end) == Page(start) + k;
      forall v: nat | start <= v <= end
        ensures Touched(start, end, Page(v))
      {
        assert Page(start) <= Page(v) <= Page(end);
      }
    } else {
      assert Page(end) == Page(start) + k + 1;
      assert !Touched(start, end, Page(end));
    }
  }

  lemma {:induction false} MapRangeInv(s: Space, start: nat, end: nat, rw: bool, user: bool)
    requires Inv(s) && MapRange(s, start, end, rw, user).Mapped?
    ensures Inv(MapRange(s, start, end, rw, user).space)
    decreases if start <= end then end - start + 1 else 0
  {
    hide Inv, MapPage;
    if start > end {
    } else {
      MapInv(s, Page(start), rw, user);
      MapRangeInv(MapPage(s, Page(start), 0, rw, user).space, start + PAGE, end, rw, user);
    }
  }

  /** After a successful range over an aligned start every address in it translates, at its offset, into a frame that
      is used, and no two addresses of it translate to the same place. */
  lemma RangeMapped(s: Space, start: nat, end: nat, rw: bool, user: bool, v: nat, w: nat)
    requires Inv(s) && MapRange(s, start, end, rw, user).Mapped?
    requires start % PAGE == 0 && start <= v <= end && start <= w <= end
    ensures var s' := MapRange(s, start, end, rw, user).space;
            var a := Translate(s'.pages, v);
            && Page(v) in s'.pages && Page(a) in s'.used && a % PAGE == v % PAGE
            && (a == Translate(s'.pages, w) ==> v == w)
  {
    hide MapRange, AllBacked;
    MapRangePages(s, start, end, rw, user);
    MapRangeInv(s, start, end, rw, user);
    RangeCovers(start, end);
    assert start % PAGE <= end % PAGE;
    assert Touched(start, end, Page(v)) && Touched(start, end, Page(w));
    var s' := MapRange(s, start, end, rw, user).space;
    InFrame(s'.pages[Page(v)].frame, v);
    InFrame(s'.pages[Page(w)].frame, w);
  }

  lemma InFrame(frame: nat, v: nat)
    ensures var a := frame * PAGE + v % PAGE; Page(a) == frame && a % PAGE == v % PAGE
    ensures v == Page(v) * PAGE + v % PAGE
  {
  }

  // ---- a range undone ----

  lemma UnmapCommutes(s: Space, p: nat, q: nat)
    requires p != q
    ensures UnmapPage(UnmapPage(s, p), q) == UnmapPage(UnmapPage(s, q), p)
  {
    assert s.pages - {p} - {q} == s.pages - {q} - {p};
    if p in s.pages && q in s.pages {
      assert s.used - {s.pages[p].frame} - {s.pages[q].frame} == s.used - {s.pages[q].frame} - {s.pages[p].frame};
    }
  }

  lemma {:induction false} UnmapRangeCommutes(s: Space, p: nat, start: nat, end: nat)
    requires !Touched(start, end, p)
    ensures UnmapRange(UnmapPage(s, p), start, end) == UnmapPage(UnmapRange(s, start, end), p)
    decreases if start <= end then end - start + 1 else 0
  {
    hide UnmapPage;
    if start > end {
    } else {
      var q := Page(start);
      UnmapCommutes(s, p, q);
      NextTouched(start, end, p);
      UnmapRangeCommutes(UnmapPage(s, q), p, start + PAGE, end);
    }
  }

  lemma NextTouched(start: nat, end: nat, p: nat)
    requires start <= end
    ensures Touched(start, end, p) <==> p == Page(start) || Touched(start + PAGE, end, p)
    ensures !Touched(start + PAGE, end, Page(start))
  {
    assert Page(start + PAGE) == Page(start) + 1;
    assert start + PAGE <= end ==> (end - (start + PAGE)) / PAGE == (end - start) / PAGE - 1;
    assert start + PAGE > end ==> (end - start) / PAGE == 0;
  }

  lemma UnmapUndoesMap(s: Space, p: nat, rw: bool, user: bool)
    requires s.blocks <= PAGES && 0 <= s.count < WORD && p !in s.pages && MapPage(s, p, 0, rw, user).Mapped?
    ensures UnmapPage(MapPage(s, p, 0, rw, user).space, p) == s
  {
    var t := LeastFree(s.used, s.blocks, 0);
    assert s.pages[p := Entry(t, rw, user)] - {p} == s.pages;
    assert s.used + {t} - {t} == s.used;
  }

  /** Mapping an absent range and releasing it restores the map, the bitmap and the counter. */
  lemma {:induction false} RangeRoundTrip(s: Space, start: nat, end: nat, rw: bool, user: bool)
    requires s.blocks <= PAGES && 0 <= s.count < WORD
    requires forall p: nat :: Touched(start, end, p) ==> p !in s.pages
    requires MapRange(s, start, end, rw, user).Mapped?
    ensures UnmapRange(MapRange(s, start, end, rw, user).space, start, end) == s
    decreases if start <= end then end - start + 1 else 0
  {
    if start > end {
    } else {
      var p := Page(start);
      NextTouched(start, end, p);
      var s1 := MapPage(s, p, 0, rw, user).space;
      forall q: nat | Touched(start + PAGE, end, q)
        ensures q !in s1.pages
      {
        NextTouched(start, end, q);
      }
      hide UnmapPage, MapPage, Touched;
      RangeRoundTrip(s1, start + PAGE, end, rw, user) by { MapPageCount(s, p, rw, user); }
      var s' := MapRange(s1, start + PAGE, end, rw, user).space;
      UnmapRangeCommutes(s', p, start + PAGE, end);
      UnmapUndoesMap(s, p, rw, user);
    }
  }

  lemma MapPageCount(s: Space, p: nat, rw: bool, user: bool)
    requires 0 <= s.count < WORD && MapPage(s, p, 0, rw, user).Mapped?
    ensures var s1 := MapPage(s, p, 0, rw, user).space; 0 <= s1.count < WORD && s1.blocks == s.blocks
  {
  }

  // ---- the boot mapping ----

  const KERNEL_PAGE: nat := KERNEL / PAGE

  ghost function BootPages(k: nat): (r: map<nat, Entry>)
    ensures forall p :: p in r <==> KERNEL_PAGE <= p < KERNEL_PAGE + k
    ensures forall p :: p in r ==> r[p] == Entry(p - KERNEL_PAGE, true, false)
  {
    if k == 0 then map[] else BootPages(k - 1)[KERNEL_PAGE + k - 1 := Entry(k - 1, true, false)]
  }

  /** The first `k` pages of kernel space mapped to the first `k` frames, in order. */
  ghost function BootSpace(blocks: nat, k: nat): Space {
    Space(BootPages(k), Below(k), blocks, k)
  }

  lemma BootInv(blocks: nat, k: nat)
    requires k <= blocks <= PAGES
    ensures Inv(BootSpace(blocks, k))
  {
    hide BootPages, Below;
    forall t | t in Below(k)
      ensures Backs(BootPages(k), t)
    {
      assert BootPages(k)[KERNEL_PAGE + t].frame == t;
    }
  }

  /** The boot mappings start such a run too: the kernel's next mappings continue it. */
  lemma BootBackedInv(blocks: nat, k: nat)
    requires k <= blocks <= PAGES
    ensures BackedInv(BootSpace(blocks, k), BootSpace(blocks, k).pages.Keys)
  {
    hide Inv, BootSpace;
    BootInv(blocks, k);
    RestrictAll(BootSpace(blocks, k));
  }

  lemma BootPage(blocks: nat, k: nat)
    requires k < blocks <= PAGES
    ensures MapPage(BootSpace(blocks, k), KERNEL_PAGE + k, 0, true, false) == Mapped(BootSpace(blocks, k + 1))
  {
    hide Below, BootPages, LeastFree;
    LeastAbove(k, blocks);
    NextBoot(k);
  }

  lemma NextBoot(k: nat)
    ensures BootPages(k + 1) == BootPages(k)[KERNEL_PAGE + k := Entry(k, true, false)]
    ensures Below(k + 1) == Below(k) + {k}
  {
    assert KERNEL_PAGE + (k + 1) - 1 == KERNEL_PAGE + k && (k + 1) - 1 == k;
  }

  lemma LeastAbove(k: nat, blocks: nat)
    requires k < blocks
    ensures LeastFree(Below(k), blocks, 0) == k
  {
    hide Below;
    var r := LeastFree(Below(k), blocks, 0);
    assert k !in Below(k);
    assert r < k ==> r in Below(k);
  }

  lemma {:induction false} BootRange(blocks: nat, k: nat, end: nat)
    requires KERNEL <= end && k <= (end - KERNEL) / PAGE + 1 <= blocks <= PAGES
    ensures MapRange(BootSpace(blocks, k), KERNEL + k * PAGE, end, true, false)
         == Mapped(BootSpace(blocks, (end - KERNEL) / PAGE + 1))
    decreases (end - KERNEL) / PAGE + 1 - k
  {
    hide MapPage, BootSpace;
    if k > (end - KERNEL) / PAGE {
    } else {
      assert Page(KERNEL + k * PAGE) == KERNEL_PAGE + k;
      BootPage(blocks, k);
      BootRange(blocks, k + 1, end);
      assert KERNEL + k * PAGE + PAGE == KERNEL + (k + 1) * PAGE;
    }
  }

  /** On the boot range, translation through the tables is the formula used before paging was enabled. */
  lemma BootTranslates(blocks: nat, k: nat, v: nat)
    requires KERNEL <= v < KERNEL + k * PAGE
    ensures Translate(BootSpace(blocks, k).pages, v) == v - KERNEL
  {
    var p := Page(v);
    assert KERNEL_PAGE <= p < KERNEL_PAGE + k;
    assert v == p * PAGE + v % PAGE;
  }
}
