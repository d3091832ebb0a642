/** src/ordered-array.c: a bounded array kept in order by a caller-supplied comparison. */
module OrderedArrays {

  type Less = (int, int) -> bool

  /** The slot the binary search ends at when started on `[lo, hi)`. Its two boundary facts hold
      whether or not the array is in order. */
  function Slot(s: seq<int>, item: int, less: Less, lo: nat, hi: nat): (p: nat)
    requires lo <= hi <= |s|
    ensures lo <= p <= hi
    ensures lo < p ==> less(s[p - 1], item)
    ensures p < hi ==> !less(s[p], item)
    decreases hi - lo
  {
    if lo == hi then lo
    else
      var mid := lo + (hi - lo) / 2;
      if less(s[mid], item) then Slot(s, item, less, mid + 1, hi) else Slot(s, item, less, lo, mid)
  }

  /** A full array silently drops the new item. */
  function Inserted(s: seq<int>, capacity: nat, item: int, less: Less): seq<int> {
    if |s| >= capacity then s
    else
      var p := Slot(s, item, less, 0, |s|);
      s[..p] + [item] + s[p..]
  }

  /** An index past the end is ignored. */
  function Removed(s: seq<int>, i: nat): seq<int> {
    if i >= |s| then s else s[..i] + s[i + 1..]
  }

  /** No element precedes one that is less than it. */
  ghost predicate InOrder(s: seq<int>, key: int -> int) {
    forall i, j :: 0 <= i < j < |s| ==> key(s[i]) <= key(s[j])
  }

  ghost predicate ComparesBy(less: Less, key: int -> int) {
    forall a, b :: less(a, b) <==> key(a) < key(b)
  }

  lemma Compare(less: Less, key: int -> int, a: int, b: int)
    requires ComparesBy(less, key)
    ensures less(a, b) <==> key(a) < key(b)
  {
  }

  /** Insertion adds exactly the item when there is room and keeps the order. */
  lemma InsertedContents(s: seq<int>, capacity: nat, item: int, less: Less)
    ensures multiset(Inserted(s, capacity, item, less))
         == multiset(s) + (if |s| < capacity then multiset{item} else multiset{})
  {
    if |s| < capacity {
      var p := Slot(s, item, less, 0, |s|);
      assert s == s[..p] + s[p..];
    }
  }

  lemma InsertedInOrder(s: seq<int>, capacity: nat, item: int, less: Less, key: int -> int)
    requires ComparesBy(less, key) && InOrder(s, key)
    ensures InOrder(Inserted(s, capacity, item, less), key)
  {
    if |s| < capacity {
      var p := Slot(s, item, less, 0, |s|);
      var t := s[..p] + [item] + s[p..];
      if 0 < p { Compare(less, key, s[p - 1], item); }
      if p < |s| { Compare(less, key, s[p], item); }
      forall i, j | 0 <= i < j < |t|
        ensures key(t[i]) <= key(t[j])
      {
        assert t[i] == if i < p then s[i] else if i == p then item else s[i - 1];
        assert t[j] == if j < p then s[j] else if j == p then item else s[j - 1];
      }
    }
  }

  lemma RemovedContents(s: seq<int>, i: nat)
    ensures multiset(Removed(s, i)) == multiset(s) - (if i < |s| then multiset{s[i]} else multiset{})
  {
    if i < |s| {
      assert s == s[..i] + [s[i]] + s[i + 1..];
    }
  }

  lemma RemovedInOrder(s: seq<int>, i: nat, key: int -> int)
    requires InOrder(s, key)
    ensures InOrder(Removed(s, i), key)
  {
  }

  lemma Spliced(s: seq<int>, t: seq<int>, p: nat, item: int)
    requires p <= |s| && |t| == |s| + 1 && t[p] == item
    requires forall k :: 0 <= k < p ==> t[k] == s[k]
    requires forall k :: p < k < |t| ==> t[k] == s[k - 1]
    ensures t == s[..p] + [item] + s[p..]
  {
  }

  class OrderedArray {
    var data: array<int>
    var size: nat

    ghost predicate Valid()
      reads this
    {
      size <= data.Length
    }

    ghost function Contents(): seq<int>
      reads this, data
      requires Valid()
    {
      data[..size]
    }

    constructor (capacity: nat)
      ensures Valid() && fresh(data) && data.Length == capacity && Contents() == []
    {
      data := new int[capacity](_ => 0);
      size := 0;
    }

    method Insert(item: int, less: Less) returns (ok: bool)
      requires Valid()
      modifies this`size, data
      ensures Valid() && data == old(data)
      ensures ok <==> old(size) < data.Length
      ensures Contents() == Inserted(old(Contents()), data.Length, item, less)
    {
      if size >= data.Length {
        return false;
      }
      var left := Search(item, less);
      ghost var before := Contents();
      ShiftUp(left);
      data[left] := item;
      size := size + 1;
      Spliced(before, Contents(), left, item);
      return true;
    }

    /** Moves `[left, size)` one place up, leaving a gap at `left`. */
    method ShiftUp(left: nat)
      requires Valid() && left <= size < data.Length
      modifies data
      ensures forall k :: 0 <= k < left ==> data[k] == old(data[k])
      ensures forall k :: left < k <= size ==> data[k] == old(data[k - 1])
    {
      var i := size;
      while i > left
        invariant left <= i <= size
        invariant forall k :: 0 <= k < i ==> data[k] == old(data[k])
        invariant forall k :: i < k <= size ==> data[k] == old(data[k - 1])
      {
        data[i] := data[i - 1];
        i := i - 1;
      }
    }

    method Search(item: int, less: Less) returns (left: nat)
      requires Valid()
      ensures left == Slot(Contents(), item, less, 0, size)
    {
      var right := size;
      left := 0;
      while left < right
        invariant 0 <= left <= right <= size
        invariant Slot(Contents(), item, less, left, right) == Slot(Contents(), item, less, 0, size)
      {
        var mid := left + (right - left) / 2;
        if less(data[mid], item) {
          left := mid + 1;
        } else {
          right := mid;
        }
      }
    }

    method Remove(index: nat)
      requires Valid()
      modifies this`size, data
      ensures Valid() && data == old(data)
      ensures Contents() == Removed(old(Contents()), index)
    {
      if index >= size {
        return;
      }
      ghost var before := data[..];
      var n, i := size, index;
      while i < n - 1
        modifies data
        invariant index <= i <= n - 1 < data.Length
        invariant data[..index] == before[..index]
        invariant forall k :: index <= k < i ==> data[k] == before[k + 1]
        invariant data[i + 1..] == before[i + 1..]
      {
        data[i] := data[i + 1];
        i := i + 1;
      }
      size := n - 1;
      assert data[..n - 1] == before[..index] + before[index + 1..n];
      assert before[..n][..index] == before[..index] && before[..n][index + 1..] == before[index + 1..n];
    }
  }
}
