/** src/kernel/memory-mangement/heap-manager.c as functions on values: a boundary-tag heap whose
    headers and footers live in byte memory, with an index of hole addresses. */
module HeapModel {
  import opened Machine
  import opened Memory
  import opened OrderedArrays

  const MAGIC := 0xDEADBEEF
  const HEADER := 12
  const FOOTER := 8
  const OVERHEAD := HEADER + FOOTER
  /** `footer + sizeof(heap_footer_t)` is pointer arithmetic on an 8-byte type. */
  const NEIGHBOUR := FOOTER * FOOTER

  // The kernel's heap, as the linker script and the headers place it.
  const HEAP_START: nat := 0xC040_0000
  const HEAP_INITIAL_END: nat := 0xC050_0000
  const HEAP_MAX_END: nat := 0xCFFF_FF00
  const HEAP_INDEX_SIZE: nat := 0x2_0000

  /** The manager's fields. `capacity` is HEAP_INDEX_SIZE. */
  datatype Heap = Heap(start: int, end: int, maxEnd: int, capacity: nat, index: seq<int>, mem: Bytes)

  // ---- tags ----

  function SizeAt(m: Bytes, a: int): int {
    Load32(m, a + 4)
  }

  predicate HoleAt(m: Bytes, a: int) {
    At(m, a + 8) != 0
  }

  function SizeLess(m: Bytes): Less {
    (a, b) => SizeAt(m, a) < SizeAt(m, b)
  }

  function WriteHeader(m: Bytes, a: int, size: int, hole: Byte): Bytes {
    Store8(Store32(Store32(m, a + 4, size), a, MAGIC), a + 8, hole)
  }

  function WriteFooter(m: Bytes, a: int, header: int): Bytes {
    Store32(Store32(m, a + 4, header), a, MAGIC)
  }

  // ---- find_smallest_hole ----

  function AlignOffset(a: int): int {
    if (a + HEADER) % PAGE != 0 then PAGE - (a + HEADER) % PAGE else 0
  }

  /** A 32-bit word read as an `int`. */
  function Signed(v: int): int {
    if v % WORD < 0x8000_0000 then v % WORD else v % WORD - WORD
  }

  /** The aligned test compares signed numbers, the other one unsigned. */
  predicate Fits(m: Bytes, a: int, need: int, align: bool) {
    if align then Signed(SizeAt(m, a) - AlignOffset(a)) >= Signed(need) else SizeAt(m, a) >= need
  }

  /** First slot from `i` on whose hole fits, or the length of the index. */
  function FindFrom(m: Bytes, index: seq<int>, need: int, align: bool, i: nat): (r: nat)
    requires i <= |index|
    ensures i <= r <= |index|
    ensures forall k :: i <= k < r ==> !Fits(m, index[k], need, align)
    ensures r < |index| ==> Fits(m, index[r], need, align)
    decreases |index| - i
  {
    if i == |index| || Fits(m, index[i], need, align) then i else FindFrom(m, index, need, align, i + 1)
  }

  // ---- expand and the growth of a hole ----

  function PageUp(n: int): (r: int)
    ensures n <= r < n + PAGE && r % PAGE == 0
  {
    if n % PAGE != 0 then n - n % PAGE + PAGE else n
  }

  datatype Scan = Scan(found: bool, slot: nat, value: int)

  /** The search for the hole with the highest address. */
  function HighestFrom(index: seq<int>, i: nat, best: Scan): (r: Scan)
    requires i <= |index|
    requires best.found ==> best.slot < i && index[best.slot] == best.value
    ensures r.found ==> r.slot < |index| && index[r.slot] == r.value
    ensures r.value >= best.value && forall k :: i <= k < |index| ==> index[k] <= r.value
    ensures !r.found ==> !best.found && r.value == best.value
    decreases |index| - i
  {
    if i == |index| then best
    else HighestFrom(index, i + 1, if index[i] > best.value then Scan(true, i, index[i]) else best)
  }

  function Highest(index: seq<int>): (r: Scan)
    ensures r.found ==> r.slot < |index| && index[r.slot] == r.value
    ensures forall k :: 0 <= k < |index| ==> index[k] <= r.value
    ensures !r.found ==> r.value == 0
  {
    HighestFrom(index, 0, Scan(false, 0, 0))
  }

  /** Where `expand` puts the end, in 32-bit sums; it ignores a length of zero. */
  function GrownEnd(h: Heap, need: int): int {
    var length := (h.end - h.start + need) % WORD;
    if length == 0 then h.end else (h.start + PageUp(length)) % WORD
  }

  /** Expands the heap by at least `need` bytes and hands the new bytes to the highest hole, or to a
      new hole when the index is empty. */
  function Grow(h: Heap, need: int): Heap {
    var end' := GrownEnd(h, need);
    var growth := (end' - h.end) % WORD;
    var top := Highest(h.index);
    if !top.found then
      var m := WriteFooter(WriteHeader(h.mem, h.end, growth, 1), h.end + growth - FOOTER, h.end);
      h.(end := end', mem := m, index := Inserted(h.index, h.capacity, h.end, SizeLess(m)))
    else
      var a := h.index[top.slot];
      var m := Store32(h.mem, a + 4, SizeAt(h.mem, a) + growth);
      h.(end := end', mem := WriteFooter(m, a + SizeAt(m, a) - FOOTER, a))
  }

  // ---- carving a block out of hole `i` ----

  /** Bytes to look for: the request with its tags, in 32 bits. */
  function Need(size: int): int {
    (size + OVERHEAD) % WORD
  }

  /** Total bytes of the block: a remainder too small for tags of its own is absorbed. */
  function Taken(holeSize: int, need: int): int {
    if (holeSize - need) % WORD < OVERHEAD then holeSize else need
  }

  /** Writes the used block `[pos, pos + taken)` and, when bytes are left over, a hole behind it. */
  function PlaceBlock(h: Heap, pos: int, room: int, taken: int): Heap {
    var m := WriteFooter(WriteHeader(h.mem, pos, taken, 0), pos + taken - FOOTER, pos);
    if (room - taken) % WORD == 0 then h.(mem := m)
    else
      var rest := pos + taken;
      var m1 := WriteHeader(m, rest, room - taken, 1);
      var foot := rest + (room - taken) - FOOTER;
      var m2 := if foot < h.end then WriteFooter(m1, foot, rest) else m1;
      h.(mem := m2, index := Inserted(h.index, h.capacity, rest, SizeLess(m2)))
  }

  function FrontGap(pos: int): int {
    PAGE - pos % PAGE - HEADER
  }

  /** The found-hole half of `allocate`; the result is the heap and the payload address. */
  function Carve(h: Heap, i: nat, size: int, align: bool): (Heap, int)
    requires i < |h.index|
  {
    var pos := h.index[i];
    var room := SizeAt(h.mem, pos);
    var taken := Taken(room, Need(size));
    if align && pos >= PAGE then
      var gap := FrontGap(pos);
      var m := WriteFooter(WriteHeader(h.mem, pos, gap, 1), pos + gap - FOOTER, pos);
      (PlaceBlock(h.(mem := m), pos + gap, room - gap, taken), pos + gap + HEADER)
    else
      (PlaceBlock(h.(index := Removed(h.index, i)), pos, room, taken), pos + HEADER)
  }

  // ---- allocate ----

  const NULL := 0

  /** `allocate`; the iteration counter allows one expansion. */
  function Allocate(h: Heap, size: int, align: bool, iteration: nat): (Heap, int)
    decreases if iteration > 0 then 0 else 1
  {
    var need := Need(size);
    var i := FindFrom(h.mem, h.index, need, align, 0);
    if i < |h.index| then Carve(h, i, size, align)
    else if (h.end + need) % WORD > h.maxEnd || iteration > 0 then (h, NULL)
    else Allocate(Grow(h, need), size, align, iteration + 1)
  }

  // ---- unallocate ----

  /** The state of `unallocate` between its steps: the surviving header, its footer address, and
      whether the header still has to be indexed. */
  datatype Merge = Merge(mem: Bytes, header: int, footer: int, add: bool)

  /** Marks the block free and joins it to a hole just below it. */
  function MergeLeft(m: Bytes, a: int): Merge {
    var footer := a + SizeAt(m, a) - FOOTER;
    var m1 := Store8(m, a + 8, 1);
    var below := a - FOOTER;
    var left := Load32(m1, below + 4);
    if Load32(m1, below) == MAGIC && HoleAt(m1, left) then
      var m2 := Store32(m1, footer + 4, left);
      Merge(Store32(m2, left + 4, SizeAt(m2, left) + SizeAt(m1, a)), left, footer, false)
    else
      Merge(m1, a, footer, true)
  }

  predicate RightTest(m: Bytes, footer: int) {
    Load32(m, footer + NEIGHBOUR) == MAGIC && HoleAt(m, footer + NEIGHBOUR)
  }

  /** The right-neighbour test fires on a header that claims some bytes. */
  predicate Swallows(m: Bytes, footer: int) {
    RightTest(m, footer) && 0 < SizeAt(m, footer + NEIGHBOUR)
  }

  /** The freed bytes, with what the right test adds, reach the end of the heap. */
  predicate ReachesEnd(m: Bytes, footer: int, end: int) {
    end == if RightTest(m, footer) then footer + NEIGHBOUR + SizeAt(m, footer + NEIGHBOUR) else footer + FOOTER
  }

  /** The left-neighbour test: a footer ends at `a` and the header it names is a hole. */
  predicate LeftTest(m: Bytes, a: int) {
    Load32(m, a - FOOTER) == MAGIC && HoleAt(m, Load32(m, a - FOOTER + 4))
  }

  function SlotOf(index: seq<int>, a: int, i: nat): (r: nat)
    requires i <= |index|
    ensures i <= r <= |index|
    ensures r < |index| ==> index[r] == a
    ensures forall k :: i <= k < r ==> index[k] != a
    decreases |index| - i
  {
    if i == |index| || index[i] == a then i else SlotOf(index, a, i + 1)
  }

  datatype Freed = Freed(heap: Heap) | Shrinks

  /** `unallocate`. The branch that gives pages back is not modelled: it answers `Shrinks`. */
  function Unallocate(h: Heap, p: int): Freed {
    if p == NULL then Freed(h)
    else
      var l := MergeLeft(h.mem, p - HEADER);
      var (m, footer, index) :=
        if RightTest(l.mem, l.footer) then
          var test := l.footer + NEIGHBOUR;
          var m := Store32(l.mem, l.header + 4, SizeAt(l.mem, l.header) + SizeAt(l.mem, test));
          (m, test + SizeAt(m, test) - FOOTER, Removed(h.index, SlotOf(h.index, test, 0)))
        else (l.mem, l.footer, h.index);
      if footer + FOOTER == h.end then Shrinks
      else if l.add then Freed(h.(mem := m, index := Inserted(index, h.capacity, l.header, SizeLess(m))))
      else Freed(h.(mem := m, index := index))
  }

  // ---- heap_manager_init ----

  /** The state `heap_manager_init` leaves: one hole over `[start, end)`, with a header and no footer. */
  function InitialHeap(base: int, end: int, maxEnd: int, capacity: nat, m: Bytes): Heap {
    var raw := base + 4 * capacity;
    var start := if raw >= PAGE then raw - raw % PAGE + PAGE else raw;
    var m' := WriteHeader(m, start, end - start, 1);
    Heap(start, end, maxEnd, capacity, Inserted([], capacity, start, SizeLess(m')), m')
  }
}
