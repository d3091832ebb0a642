/** Byte-addressed memory, with the little-endian 32-bit loads and stores of the i386. */
module Memory {
  import opened Machine

  type Byte = x: int | 0 <= x < 256

  /** A memory is total: an address that was never written reads as zero. */
  type Bytes = map<int, Byte>

  function At(m: Bytes, a: int): Byte {
    if a in m then m[a] else 0
  }

  function Store8(m: Bytes, a: int, v: Byte): Bytes {
    m[a := v]
  }

  function Load32(m: Bytes, a: int): (v: int)
    ensures 0 <= v < WORD
  {
    At(m, a) + 0x100 * At(m, a + 1) + 0x1_0000 * At(m, a + 2) + 0x100_0000 * At(m, a + 3)
  }

  /** A 32-bit store; the value wraps as it does in a uint32_t. */
  function Store32(m: Bytes, a: int, v: int): Bytes {
    m[a := v % 0x100][a + 1 := v / 0x100 % 0x100][a + 2 := v / 0x1_0000 % 0x100][a + 3 := v / 0x100_0000 % 0x100]
  }

  /** The two memories agree at every address outside `[lo, hi)`. */
  ghost predicate SameOutside(m: Bytes, m': Bytes, lo: int, hi: int) {
    forall a :: a < lo || hi <= a ==> At(m', a) == At(m, a)
  }

  lemma Stored8(m: Bytes, a: int, v: Byte)
    ensures forall x :: At(Store8(m, a, v), x) == if x == a then v else At(m, x)
  {
  }

  /** A word is the sum of its four bytes. */
  lemma BytesOfWord(v: int)
    requires 0 <= v < WORD
    ensures v == v % 0x100 + 0x100 * (v / 0x100 % 0x100) + 0x1_0000 * (v / 0x1_0000 % 0x100)
              + 0x100_0000 * (v / 0x100_0000 % 0x100)
  {
    var a, b, c := v / 0x100, v / 0x1_0000, v / 0x100_0000;
    assert a / 0x100 == b && b / 0x100 == c && c % 0x100 == c;
    assert v == 0x100 * a + v % 0x100;
    assert a == 0x100 * b + a % 0x100;
    assert b == 0x100 * c + b % 0x100;
  }

  lemma StoredBytes(m: Bytes, a: int, v: int)
    ensures var m' := Store32(m, a, v);
            && At(m', a) == v % 0x100 && At(m', a + 1) == v / 0x100 % 0x100
            && At(m', a + 2) == v / 0x1_0000 % 0x100 && At(m', a + 3) == v / 0x100_0000 % 0x100
  {
  }

  lemma LoadOfStore(m: Bytes, a: int, v: int)
    requires 0 <= v < WORD
    ensures Load32(Store32(m, a, v), a) == v
  {
    hide At, Store32;
    StoredBytes(m, a, v);
    BytesOfWord(v);
  }

  lemma WrapBytes(v: int)
    requires WORD <= v
    ensures var w := v - WORD;
            && w % 0x100 == v % 0x100 && w / 0x100 % 0x100 == v / 0x100 % 0x100
            && w / 0x1_0000 % 0x100 == v / 0x1_0000 % 0x100 && w / 0x100_0000 % 0x100 == v / 0x100_0000 % 0x100
  {
    SecondByte(v);
    ThirdByte(v);
    assert v / 0x100_0000 == (v - WORD) / 0x100_0000 + 0x100;
  }

  lemma SecondByte(v: int)
    ensures (v - WORD) / 0x100 % 0x100 == v / 0x100 % 0x100
  {
    assert v / 0x100 == (v - WORD) / 0x100 + 0x100_0000;
  }

  lemma ThirdByte(v: int)
    ensures (v - WORD) / 0x1_0000 % 0x100 == v / 0x1_0000 % 0x100
  {
    assert v / 0x1_0000 == (v - WORD) / 0x1_0000 + 0x1_0000;
  }

  /** A sum of two words is stored modulo 2^32. */
  lemma StoreWraps(m: Bytes, a: int, v: int)
    requires WORD <= v < 2 * WORD
    ensures Load32(Store32(m, a, v), a) == v - WORD
  {
    hide Load32;
    WrapBytes(v);
    LoadOfStore(m, a, v - WORD);
  }

  lemma StoreFrame(m: Bytes, a: int, v: int)
    ensures SameOutside(m, Store32(m, a, v), a, a + 4)
  {
  }

  lemma LoadFrame(m: Bytes, m': Bytes, lo: int, hi: int, a: int)
    requires SameOutside(m, m', lo, hi)
    requires a + 4 <= lo || hi <= a
    ensures Load32(m', a) == Load32(m, a)
  {
  }
}
