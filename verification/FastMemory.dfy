/** include/memory.h: the word-at-a-time copy and fill against the byte loops they replace. */
module FastMemory {
  import opened Memory

  /** `after` is `before` with `n` bytes at `d` replaced by the bytes that `before` holds at `s`. */
  ghost predicate Copied(before: Bytes, after: Bytes, d: int, s: int, n: nat) {
    && (forall a :: d <= a < d + n ==> At(after, a) == At(before, a - d + s))
    && SameOutside(before, after, d, d + n)
  }

  /** `after` is `before` with `n` bytes at `d` set to `v`. */
  ghost predicate Filled(before: Bytes, after: Bytes, d: int, v: Byte, n: nat) {
    && (forall a :: d <= a < d + n ==> At(after, a) == v)
    && SameOutside(before, after, d, d + n)
  }

  /** The regions the `restrict` qualifiers promise to be apart. */
  predicate Apart(d: int, s: int, n: nat) {
    d + n <= s || s + n <= d
  }

  method Memcpy(mem: Bytes, d: int, s: int, n: nat) returns (m: Bytes)
    requires Apart(d, s, n)
    ensures Copied(mem, m, d, s, n)
  {
    m := mem;
    for i := 0 to n
      invariant Copied(mem, m, d, s, i)
    {
      CopyByte(mem, m, d, s, i, n);
      m := Store8(m, d + i, At(m, s + i));
    }
  }

  /** Loading a word and storing it elsewhere copies its four bytes. */
  lemma WordCopied(m: Bytes, d: int, s: int)
    ensures var m' := Store32(m, d, Load32(m, s));
            && At(m', d) == At(m, s) && At(m', d + 1) == At(m, s + 1)
            && At(m', d + 2) == At(m, s + 2) && At(m', d + 3) == At(m, s + 3)
            && SameOutside(m, m', d, d + 4)
  {
    WordBytes(At(m, s), At(m, s + 1), At(m, s + 2), At(m, s + 3));
  }

  lemma WordBytes(a: Byte, b: Byte, c: Byte, d: Byte)
    ensures var v := a + 0x100 * b + 0x1_0000 * c + 0x100_0000 * d;
            v % 0x100 == a && v / 0x100 % 0x100 == b && v / 0x1_0000 % 0x100 == c && v / 0x100_0000 % 0x100 == d
  {
    var v := a + 0x100 * b + 0x1_0000 * c + 0x100_0000 * d;
    assert v / 0x100 == b + 0x100 * c + 0x1_0000 * d;
    assert v / 0x1_0000 == c + 0x100 * d;
    assert v / 0x100_0000 == d;
  }

  /** One byte, or one word, more of a copy in progress. */
  lemma CopyByte(mem: Bytes, m: Bytes, d: int, s: int, i: nat, n: nat)
    requires Apart(d, s, n) && i < n && Copied(mem, m, d, s, i)
    ensures Copied(mem, Store8(m, d + i, At(m, s + i)), d, s, i + 1)
  {
    assert At(m, s + i) == At(mem, s + i);
    Stored8(m, d + i, At(m, s + i));
    hide At, Store8;
  }

  lemma CopyWord(mem: Bytes, m: Bytes, d: int, s: int, i: nat, n: nat)
    requires Apart(d, s, n) && i + 4 <= n && Copied(mem, m, d, s, i)
    ensures Copied(mem, Store32(m, d + i, Load32(m, s + i)), d, s, i + 4)
  {
    var m' := Store32(m, d + i, Load32(m, s + i));
    WordCopied(m, d + i, s + i);
    hide At, Store32, Load32;
    assert forall a :: s + i <= a < s + i + 4 ==> At(m, a) == At(mem, a);
    forall a | d <= a < d + i + 4
      ensures At(m', a) == At(mem, a - d + s)
    {
      if a >= d + i {
        assert a == d + i || a == d + i + 1 || a == d + i + 2 || a == d + i + 3;
      }
    }
  }

  method FastMemcpy(mem: Bytes, dest: int, src: int, count: nat) returns (m: Bytes)
    requires Apart(dest, src, count)
    ensures Copied(mem, m, dest, src, count)
  {
    CopyNothing(mem, dest, src);
    hide At, Store32, Load32, Copied;
    m := mem;
    var n, done := count, 0;
    while n > 0 && (dest + done) % 4 != 0
      invariant done + n == count && Copied(mem, m, dest, src, done)
    {
      CopyByte(mem, m, dest, src, done, count);
      m := Store8(m, dest + done, At(m, src + done));
      done, n := done + 1, n - 1;
    }
    while n >= 16
      invariant done + n == count && Copied(mem, m, dest, src, done)
    {
      for k := 0 to 4
        invariant Copied(mem, m, dest, src, done + 4 * k)
      {
        CopyWord(mem, m, dest, src, done + 4 * k, count);
        m := Store32(m, dest + done + 4 * k, Load32(m, src + done + 4 * k));
      }
      done, n := done + 16, n - 16;
    }
    while n >= 4
      invariant done + n == count && Copied(mem, m, dest, src, done)
    {
      CopyWord(mem, m, dest, src, done, count);
      m := Store32(m, dest + done, Load32(m, src + done));
      done, n := done + 4, n - 4;
    }
    m := CopyTail(mem, m, dest, src, done, n);
  }

  method CopyTail(mem: Bytes, m0: Bytes, d: int, s: int, from: nat, n: nat) returns (m: Bytes)
    requires Apart(d, s, from + n) && Copied(mem, m0, d, s, from)
    ensures Copied(mem, m, d, s, from + n)
  {
    m := m0;
    for i := from to from + n
      invariant Copied(mem, m, d, s, i)
    {
      CopyByte(mem, m, d, s, i, from + n);
      m := Store8(m, d + i, At(m, s + i));
    }
  }

  // ---- fill ----

  method Memset(mem: Bytes, d: int, v: Byte, n: nat) returns (m: Bytes)
    ensures Filled(mem, m, d, v, n)
  {
    m := mem;
    for i := 0 to n
      invariant Filled(mem, m, d, v, i)
    {
      FillByte(mem, m, d, v, i);
      m := Store8(m, d + i, v);
    }
  }

  /** One byte, or one word, more of a fill in progress. */
  lemma FillByte(mem: Bytes, m: Bytes, d: int, v: Byte, i: nat)
    requires Filled(mem, m, d, v, i)
    ensures Filled(mem, Store8(m, d + i, v), d, v, i + 1)
  {
    Stored8(m, d + i, v);
    hide At, Store8;
  }

  /** The byte replicated through a word by two shift-and-or steps. */
  function Replicated(v: bv8): bv32 {
    var w := (v as bv32) | ((v as bv32) << 8);
    w | (w << 16)
  }

  function ByteOf(w: bv32, k: bv6): bv8
    requires k <= 24
  {
    ((w >> k) & 0xFF) as bv8
  }

  lemma ReplicatedBytes(v: bv8)
    ensures var w := Replicated(v);
            ByteOf(w, 0) == v && ByteOf(w, 8) == v && ByteOf(w, 16) == v && ByteOf(w, 24) == v
  {
  }

  /** A little-endian store of a machine word. */
  function StoreWord(m: Bytes, a: int, w: bv32): Bytes {
    m[a := ByteOf(w, 0) as int][a + 1 := ByteOf(w, 8) as int]
      [a + 2 := ByteOf(w, 16) as int][a + 3 := ByteOf(w, 24) as int]
  }

  lemma FillWord(mem: Bytes, m: Bytes, d: int, v: bv8, i: nat)
    requires Filled(mem, m, d, v as int, i)
    ensures Filled(mem, StoreWord(m, d + i, Replicated(v)), d, v as int, i + 4)
  {
    hide Filled;
    var b, w := v as int, Replicated(v);
    assert ByteOf(w, 0) == v && ByteOf(w, 8) == v && ByteOf(w, 16) == v && ByteOf(w, 24) == v by { ReplicatedBytes(v); }
    hide Replicated, ByteOf;
    FillByte(mem, m, d, b, i);
    var m1 := Store8(m, d + i, b);
    FillByte(mem, m1, d, b, i + 1);
    var m2 := Store8(m1, d + i + 1, b);
    FillByte(mem, m2, d, b, i + 2);
    var m3 := Store8(m2, d + i + 2, b);
    FillByte(mem, m3, d, b, i + 3);
    assert StoreWord(m, d + i, w) == Store8(m3, d + i + 3, b);
  }

  method FastMemset(mem: Bytes, dest: int, value: bv32, count: nat) returns (m: Bytes)
    ensures Filled(mem, m, dest, ByteOf(value, 0) as int, count)
  {
    hide Replicated, StoreWord, ByteOf, At;
    FillNothing(mem, dest, ByteOf(value, 0) as int);
    hide Filled;
    m := mem;
    var v := ByteOf(value, 0);
    var n, done := count, 0;
    while n > 0 && (dest + done) % 4 != 0
      invariant done + n == count && Filled(mem, m, dest, v as int, done)
    {
      FillByte(mem, m, dest, v as int, done);
      m := Store8(m, dest + done, v as int);
      done, n := done + 1, n - 1;
    }
    while n >= 4
      invariant done + n == count && Filled(mem, m, dest, v as int, done)
    {
      FillWord(mem, m, dest, v, done);
      m := StoreWord(m, dest + done, Replicated(v));
      done, n := done + 4, n - 4;
    }
    while n > 0
      invariant done + n == count && Filled(mem, m, dest, v as int, done)
    {
      FillByte(mem, m, dest, v as int, done);
      m := Store8(m, dest + done, v as int);
      done, n := done + 1, n - 1;
    }
  }

  lemma FillNothing(mem: Bytes, d: int, v: Byte)
    ensures Filled(mem, mem, d, v, 0)
  {
  }

  lemma CopyNothing(mem: Bytes, d: int, s: int)
    ensures Copied(mem, mem, d, s, 0)
  {
  }
}
