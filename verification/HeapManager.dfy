/** The heap manager as an object whose fields, tags and index are rewritten in place. Every method is
    proved against the functions of HeapModel. */
module HeapManagers {
  import opened Machine
  import opened Memory
  import opened OrderedArrays
  import opened HeapModel

  datatype Status = Uninitialized | Bootstrapped | Initialized

  class HeapManager {
    var status: Status
    var placement: int
    var start: int
    var end: int
    var maxEnd: int
    var index: OrderedArray
    var mem: Bytes

    ghost predicate Valid()
      reads this, index
    {
      index.Valid()
    }

    ghost function Value(): Heap
      reads this, index, index.data
      requires Valid()
    {
      Heap(start, end, maxEnd, index.data.Length, index.Contents(), mem)
    }

    /** `heap_manager_bootstrap` on a fresh manager. */
    constructor Bootstrap(kernelEnd: int, m: Bytes, capacity: nat)
      ensures Valid() && fresh(index) && fresh(index.data)
      ensures status == Bootstrapped && placement == kernelEnd && mem == m
      ensures index.data.Length == capacity && index.Contents() == [] && start == end == maxEnd == 0
    {
      index := new OrderedArray(capacity);
      placement, status, mem := kernelEnd, Bootstrapped, m;
      start, end, maxEnd := 0, 0, 0;
    }

    /** `heap_manager_init`; mapping the pages of the heap is outside this class. */
    method Init(base: int, endAddress: int, maxEndAddress: int)
      requires Valid() && status == Bootstrapped && index.Contents() == []
      modifies this, index, index.data
      ensures Valid() && index == old(index) && index.data == old(index.data) && status == Initialized
      ensures Value() == InitialHeap(base, endAddress, maxEndAddress, index.data.Length, old(mem))
    {
      var address := base + 4 * index.data.Length;
      if address >= PAGE {
        address := address - address % PAGE + PAGE;
      }
      start, end, maxEnd := address, endAddress, maxEndAddress;
      mem := WriteHeader(mem, address, endAddress - address, 1);
      var ok := index.Insert(address, SizeLess(mem));
      status := Initialized;
    }

    method FindSmallestHole(need: int, align: bool) returns (r: int)
      requires Valid()
      ensures var i := FindFrom(mem, index.Contents(), need, align, 0);
              r == if i < |index.Contents()| then i else -1
    {
      var i := 0;
      while i < index.size
        invariant 0 <= i <= index.size
        invariant FindFrom(mem, index.Contents(), need, align, i) == FindFrom(mem, index.Contents(), need, align, 0)
      {
        var header := index.data[i];
        if align {
          var offset := 0;
          if (header + HEADER) % PAGE != 0 {
            offset := PAGE - (header + HEADER) % PAGE;
          }
          if Signed(SizeAt(mem, header) - offset) >= Signed(need) {
            break;
          }
        } else if SizeAt(mem, header) >= need {
          break;
        }
        i := i + 1;
      }
      return if i == index.size then -1 else i;
    }

    method Expand(newLength: int)
      requires Valid() && 0 <= newLength
      modifies this`end
      ensures end == if newLength == 0 then old(end) else (start + PageUp(newLength)) % WORD
    {
      if newLength == 0 {
        return;
      }
      var length := newLength;
      if length % PAGE != 0 {
        length := length - length % PAGE + PAGE;
      }
      end := (start + length) % WORD;
    }

    method FindHighest() returns (found: bool, slot: nat)
      requires Valid()
      ensures var top := Highest(index.Contents());
              found == top.found && (found ==> slot == top.slot)
    {
      var i, value := 0, 0;
      found, slot := false, 0;
      while i < index.size
        invariant 0 <= i <= index.size
        invariant found ==> slot < i && index.data[slot] == value
        invariant HighestFrom(index.Contents(), i, Scan(found, slot, value)) == Highest(index.Contents())
      {
        var tmp := index.data[i];
        if tmp > value {
          value, slot, found := tmp, i, true;
        }
        i := i + 1;
      }
    }

    /** The expanding half of `allocate`. */
    method GrowBy(need: int)
      requires Valid()
      modifies this`end, this`mem, index, index.data
      ensures Valid() && index.data == old(index.data)
      ensures Value() == Grow(old(Value()), need)
    {
      hide WriteHeader, WriteFooter, Store32, Load32, At, PageUp, Inserted, Highest;
      var oldEnd := end;
      Expand((end - start + need) % WORD);
      var growth := (end - oldEnd) % WORD;
      var found, slot := FindHighest();
      if !found {
        mem := WriteHeader(mem, oldEnd, growth, 1);
        mem := WriteFooter(mem, oldEnd + growth - FOOTER, oldEnd);
        var ok := index.Insert(oldEnd, SizeLess(mem));
      } else {
        var header := index.data[slot];
        mem := Store32(mem, header + 4, SizeAt(mem, header) + growth);
        mem := WriteFooter(mem, header + SizeAt(mem, header) - FOOTER, header);
      }
    }

    /** The placing half of `allocate`. */
    method Place(pos: int, room: int, taken: int)
      requires Valid()
      modifies this`mem, index, index.data
      ensures Valid() && index.data == old(index.data)
      ensures Value() == PlaceBlock(old(Value()), pos, room, taken)
    {
      mem := WriteHeader(mem, pos, taken, 0);
      mem := WriteFooter(mem, pos + taken - FOOTER, pos);
      if (room - taken) % WORD != 0 {
        var rest := pos + taken;
        mem := WriteHeader(mem, rest, room - taken, 1);
        var foot := rest + (room - taken) - FOOTER;
        if foot < end {
          mem := WriteFooter(mem, foot, rest);
        }
        var ok := index.Insert(rest, SizeLess(mem));
      }
    }

    method Allocate(size: int, align: bool, iteration: nat) returns (p: int)
      requires Valid() && 0 <= size
      modifies this`end, this`mem, index, index.data
      ensures Valid() && index.data == old(index.data)
      ensures (Value(), p) == HeapModel.Allocate(old(Value()), size, align, iteration)
      decreases if iteration > 0 then 0 else 1
    {
      hide WriteHeader, WriteFooter, Load32, At, Removed, PlaceBlock, Grow, Fits, Need, GrownEnd, Highest;
      var need := Need(size);
      var i := FindSmallestHole(need, align);
      if i == -1 {
        if (end + need) % WORD > maxEnd || iteration > 0 {
          return NULL;
        }
        GrowBy(need);
        p := Allocate(size, align, iteration + 1);
        return;
      }
      var pos := index.data[i];
      var room := SizeAt(mem, pos);
      var taken := need;
      if (room - need) % WORD < OVERHEAD {
        taken := room;
      }
      if align && pos >= PAGE {
        var gap := PAGE - pos % PAGE - HEADER;
        mem := WriteHeader(mem, pos, gap, 1);
        mem := WriteFooter(mem, pos + gap - FOOTER, pos);
        pos, room := pos + gap, room - gap;
      } else {
        index.Remove(i);
      }
      Place(pos, room, taken);
      return pos + HEADER;
    }

    /** `unallocate`, on the paths that do not give pages back. */
    method Unallocate(p: int)
      requires Valid() && HeapModel.Unallocate(Value(), p).Freed?
      modifies this`mem, index, index.data
      ensures Valid() && index.data == old(index.data)
      ensures Freed(Value()) == HeapModel.Unallocate(old(Value()), p)
    {
      hide Load32, Store32, Store8, At, Inserted, Removed;
      if p == NULL {
        return;
      }
      var header := p - HEADER;
      var footer := header + SizeAt(mem, header) - FOOTER;
      ghost var m0 := mem;
      mem := Store8(mem, header + 8, 1);
      var add := true;
      var below := header - FOOTER;
      if Load32(mem, below) == MAGIC && HoleAt(mem, Load32(mem, below + 4)) {
        var cache := SizeAt(mem, header);
        header := Load32(mem, below + 4);
        mem := Store32(mem, footer + 4, header);
        mem := Store32(mem, header + 4, SizeAt(mem, header) + cache);
        add := false;
      }
      assert Merge(mem, header, footer, add) == MergeLeft(m0, p - HEADER);
      FinishFree(header, footer, add);
    }

    /** The right-neighbour test and the indexing that end `unallocate`. */
    method FinishFree(header: int, footer: int, add: bool)
      requires Valid()
      modifies this`mem, index, index.data
      ensures Valid() && index.data == old(index.data)
      ensures var test := footer + NEIGHBOUR;
              var fires := RightTest(old(mem), footer);
              var m := if fires then Store32(old(mem), header + 4, SizeAt(old(mem), header) + SizeAt(old(mem), test))
                else old(mem);
              var rest := if fires then Removed(old(index.Contents()), SlotOf(old(index.Contents()), test, 0))
                else old(index.Contents());
              && mem == m
              && index.Contents() == if add then Inserted(rest, index.data.Length, header, SizeLess(m)) else rest
    {
      var test := footer + NEIGHBOUR;
      if Load32(mem, test) == MAGIC && HoleAt(mem, test) {
        mem := Store32(mem, header + 4, SizeAt(mem, header) + SizeAt(mem, test));
        var i := FindSlot(test);
        index.Remove(i);
      }
      if add {
        var ok := index.Insert(header, SizeLess(mem));
      }
    }

    method FindSlot(a: int) returns (i: nat)
      requires Valid()
      ensures i == SlotOf(index.Contents(), a, 0)
    {
      i := 0;
      while i < index.size && index.data[i] != a
        invariant 0 <= i <= index.size
        invariant SlotOf(index.Contents(), a, i) == SlotOf(index.Contents(), a, 0)
      {
        i := i + 1;
      }
    }

    /** `heap_manager_malloc`: a bump allocator until the heap proper is initialized. */
    method Malloc(size: int, align: bool) returns (p: int)
      requires Valid() && 0 <= size
      modifies this`end, this`mem, this`placement, index, index.data
      ensures Valid() && index.data == old(index.data)
      ensures status == Initialized ==>
                (Value(), p) == HeapModel.Allocate(old(Value()), size, align, 0) && placement == old(placement)
      ensures status == Bootstrapped ==>
                && p == (if align then PageUp(old(placement)) else old(placement))
                && placement == p + size && Value() == old(Value())
      ensures status == Uninitialized ==> p == NULL && Value() == old(Value()) && placement == old(placement)
    {
      match status
      case Initialized =>
        p := Allocate(size, align, 0);
      case Bootstrapped =>
        if align && placement % PAGE != 0 {
          placement := placement - placement % PAGE + PAGE;
        }
        p := placement;
        placement := placement + size;
      case Uninitialized =>
        p := NULL;
    }

    /** `heap_manager_free`: a no-op until the heap proper is initialized. */
    method Free(p: int)
      requires Valid() && (status == Initialized ==> HeapModel.Unallocate(Value(), p).Freed?)
      modifies this`mem, index, index.data
      ensures Valid() && index.data == old(index.data)
      ensures if status == Initialized then Freed(Value()) == HeapModel.Unallocate(old(Value()), p)
                else Value() == old(Value())
    {
      if status == Initialized {
        Unallocate(p);
      }
    }
  }
}
