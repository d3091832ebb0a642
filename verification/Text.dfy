/** include/string.h: printing and parsing integers. Strings are sequences without the terminating NUL. */
module Text {
  import opened Machine

  const INT_MIN := -0x8000_0000
  const INT_MAX := 0x7FFF_FFFF

  // ---- printing ----

  function DigitChar(r: int): char
    requires -48 <= r < 36
  {
    if r < 10 then (r + 48) as char else (r - 10 + 65) as char
  }

  /** The digits of `n`, most significant first. */
  function Digits(n: nat, base: nat): (s: string)
    requires 2 <= base <= 36
    ensures s != []
  {
    if n < base then [DigitChar(n)] else Digits(n / base, base) + [DigitChar(Rem(n, base))]
  }

  function Rem(n: nat, base: nat): (r: nat)
    requires 2 <= base
    ensures r < base
  {
    n % base
  }

  // ---- a reader of its own ----

  /** What a character stands for as a digit, or -1. */
  function CharValue(c: char): int {
    if '0' <= c <= '9' then c as int - '0' as int
    else if 'A' <= c <= 'Z' then c as int - 'A' as int + 10
    else -1
  }

  /** The positional value of a string of digits. */
  ghost function Value(s: string, base: nat): int {
    if s == [] then 0 else Value(s[..|s| - 1], base) * base + CharValue(s[|s| - 1])
  }

  ghost predicate DigitsBelow(s: string, base: nat) {
    forall i :: 0 <= i < |s| ==> 0 <= CharValue(s[i]) < base
  }

  /** `s` is `n` in that base, without leading zeros. */
  ghost predicate Spells(s: string, n: nat, base: nat) {
    s != [] && DigitsBelow(s, base) && Value(s, base) == n && (|s| > 1 ==> s[0] != '0')
  }

  /** The same with a minus sign in front of a negative number. */
  ghost predicate SpellsSigned(s: string, n: int, base: nat) {
    if n >= 0 then Spells(s, n, base) else s != [] && s[0] == '-' && Spells(s[1..], -n, base)
  }

  lemma DigitValue(r: nat)
    requires r < 36
    ensures CharValue(DigitChar(r)) == r && (DigitChar(r) == '0' <==> r == 0)
  {
  }

  lemma OneChar(c: char, c': char)
    requires CharValue(c) == CharValue(c') >= 0
    ensures c == c'
  {
  }

  lemma Appended(s: string, c: char, base: nat)
    ensures Value(s + [c], base) == Value(s, base) * base + CharValue(c)
    ensures DigitsBelow(s + [c], base) <==> DigitsBelow(s, base) && 0 <= CharValue(c) < base
  {
    var t := s + [c];
    assert t[..|t| - 1] == s && t[|t| - 1] == c;
    if DigitsBelow(t, base) {
      forall i | 0 <= i < |s|
        ensures 0 <= CharValue(s[i]) < base
      {
        assert t[i] == s[i];
      }
    }
  }

  /** The digits of a number are its spelling in every base. */
  lemma {:induction false} DigitsSpell(n: nat, base: nat)
    requires 2 <= base <= 36
    ensures Spells(Digits(n, base), n, base) && (n > 0 ==> Digits(n, base)[0] != '0')
  {
    hide CharValue, DigitChar, Rem, Spells;
    DivFacts(n, base);
    RemValue(n, base);
    var c := DigitChar(Rem(n, base));
    if n < base {
      OneDigit(c, n, base);
    } else {
      DigitsSpell(n / base, base);
      OneMoreDigit(Digits(n / base, base), n / base, c, base);
    }
  }

  lemma OneDigit(c: char, n: nat, base: nat)
    requires 2 <= base && CharValue(c) == n < base
    ensures Spells([c], n, base) && (n > 0 ==> c != '0')
  {
    assert [c][..0] == [];
  }

  lemma OneMoreDigit(s: string, q: nat, c: char, base: nat)
    requires 2 <= base && Spells(s, q, base) && s[0] != '0' && 0 <= CharValue(c) < base
    ensures Spells(s + [c], q * base + CharValue(c), base)
  {
    hide CharValue, Value, DigitsBelow;
    Appended(s, c, base);
    assert (s + [c])[0] == s[0];
  }

  lemma RemValue(n: nat, base: nat)
    requires 2 <= base <= 36
    ensures var c := DigitChar(Rem(n, base));
            && CharValue(c) == Rem(n, base) && n == n / base * base + CharValue(c)
            && (c == '0' <==> Rem(n, base) == 0)
  {
    DigitValue(n % base);
  }

  /** Nothing else spells it. */
  lemma {:induction false} SpellsIff(s: string, n: nat, base: nat)
    requires 2 <= base <= 36
    ensures Spells(s, n, base) <==> s == Digits(n, base)
    decreases |s|
  {
    DigitsSpell(n, base);
    if Spells(s, n, base) {
      hide CharValue, DigitChar, Rem, Spells;
      SpellingSteps(s, n, base);
      RemValue(n, base);
      OneChar(s[|s| - 1], DigitChar(Rem(n, base)));
      DivFacts(n, base);
      var front := s[..|s| - 1];
      assert s == front + [s[|s| - 1]];
      if front != [] {
        SpellsIff(front, n / base, base);
      }
    }
  }

  /** The last digit of a spelling is the remainder, what is before it spells the quotient. */
  lemma SpellingSteps(s: string, n: nat, base: nat)
    requires 2 <= base <= 36 && Spells(s, n, base)
    ensures CharValue(s[|s| - 1]) == Rem(n, base)
    ensures if |s| == 1 then n < base else n >= base && Spells(s[..|s| - 1], n / base, base)
  {
    hide CharValue, Rem;
    var front, c := s[..|s| - 1], s[|s| - 1];
    assert s == front + [c];
    Appended(front, c, base);
    Positive(front, base);
    QuotientIs(n, base, Value(front, base), CharValue(c));
  }

  lemma QuotientIs(n: nat, base: nat, q: nat, r: nat)
    requires 2 <= base && n == q * base + r && r < base
    ensures n / base == q && Rem(n, base) == r && (q > 0 ==> n >= base)
  {
    Division(n, base, n / base, n % base);
    var d := q - n / base;
    assert d * base == n % base - r;
    Multiple(d, base);
    Multiple(q, base);
  }

  lemma Multiple(d: int, base: nat)
    requires 2 <= base
    ensures d >= 1 ==> d * base >= base
    ensures d <= -1 ==> d * base <= -(base as int)
  {
  }

  /** Digits have a value that is not negative, and a positive one if the first is not zero. */
  lemma {:induction false} Positive(s: string, base: nat)
    requires 2 <= base && DigitsBelow(s, base)
    ensures Value(s, base) >= 0 && (s != [] && s[0] != '0' ==> Value(s, base) > 0)
  {
    if s == [] {
    } else {
      var front := s[..|s| - 1];
      Positive(front, base);
      Multiple(Value(front, base), base);
    }
  }

  // ---- the printers ----

  ghost function Power(base: nat, e: nat): nat {
    if e == 0 then 1 else base * Power(base, e - 1)
  }

  lemma {:induction false} PowerGrows(base: nat, e: nat)
    requires 2 <= base
    ensures Power(base, e) >= Power(2, e) >= 1
  {
    if e == 0 {
    } else {
      PowerGrows(base, e - 1);
    }
  }

  /** Division by the base uses up one power. */
  lemma DivPower(n: nat, base: nat, e: nat)
    requires 2 <= base && n < Power(base, e) && e > 0
    ensures n / base < Power(base, e - 1)
  {
    var q, p := n / base, Power(base, e - 1);
    assert q * base <= n < base * p;
    assert q >= p ==> q * base >= p * base;
  }

  lemma TwoPower32()
    ensures Power(2, 32) == WORD
  {
    assert Power(2, 8) == 256;
    assert Power(2, 16) == 256 * 256;
    assert Power(2, 24) == 256 * 256 * 256;
  }

  function Reversed(s: seq<char>): (r: seq<char>)
    ensures |r| == |s|
  {
    if s == [] then [] else Reversed(s[1..]) + [s[0]]
  }

  lemma {:induction false} ReversedAppend(s: seq<char>, c: char)
    ensures Reversed(s + [c]) == [c] + Reversed(s)
  {
    if s == [] {
      assert s + [c] == [c];
    } else {
      ReversedAppend(s[1..], c);
      assert (s + [c])[1..] == s[1..] + [c];
    }
  }

  /** The copy loop that ends both printers: the buffer back to front. */
  method Unroll(prefix: string, buf: array<char>, n: nat) returns (str: string)
    requires n <= buf.Length
    ensures str == prefix + Reversed(buf[..n])
  {
    str := prefix;
    var k := n;
    while k > 0
      invariant 0 <= k <= n
      invariant str + Reversed(buf[..k]) == prefix + Reversed(buf[..n])
    {
      k := k - 1;
      assert buf[..k + 1] == buf[..k] + [buf[k]];
      ReversedAppend(buf[..k], buf[k]);
      str := str + [buf[k]];
    }
  }

  /** What is still to be printed in front of the digits in the buffer. */
  ghost function Pending(n: nat, base: nat, more: bool): string
    requires 2 <= base <= 36
  {
    if more then Digits(n, base) else []
  }

  lemma NextDigit(n: nat, base: nat, tail: string)
    requires 2 <= base <= 36
    ensures Pending(n / base, base, n / base > 0) + ([DigitChar(Rem(n, base))] + tail) == Digits(n, base) + tail
  {
    DivFacts(n, base);
    hide Rem, DigitChar;
    var q, c := n / base, DigitChar(Rem(n, base));
    if n >= base {
      assert Digits(n, base) == Digits(q, base) + [c];
      assert Digits(q, base) + ([c] + tail) == Digits(q, base) + [c] + tail;
    }
  }

  lemma DivFacts(n: nat, base: nat)
    requires 2 <= base
    ensures n < base ==> n / base == 0 && Rem(n, base) == n
    ensures n >= base ==> 0 < n / base < n
  {
    Division(n, base, n / base, n % base);
    Product(n / base, base);
  }

  lemma Division(n: nat, base: nat, q: nat, r: nat)
    requires 2 <= base && q == n / base && r == n % base
    ensures n == q * base + r && r < base
  {
  }

  lemma Product(q: nat, base: nat)
    requires 2 <= base
    ensures q >= 1 ==> q * base >= base && q * base >= q * 2
    ensures q == 0 ==> q * base == 0
  {
  }

  /** `uitoa`: for every base the digits fit the 33-byte buffer. */
  method Uitoa(num: nat, base: nat) returns (str: string)
    requires num < WORD && 2 <= base <= 36
    ensures Spells(str, num, base) && str == Digits(num, base) && |str| <= 32
  {
    hide Spells, Digits, Reversed, Power, Rem, DigitChar;
    var buf := new char[33](_ => '\0');
    var n, i := num, 0;
    TwoPower32();
    PowerGrows(base, 32);
    NoDigits();
    assert buf[..0] == [];
    var more := true;
    while more
      invariant 0 <= i <= 32 && n >= 0 && (more ==> n < Power(base, 32 - i) && (n > 0 || i == 0))
      invariant Pending(n, base, more) + Reversed(buf[..i]) == Digits(num, base)
      decreases more, n
    {
      SomeRoom(n, base, 32 - i);
      var rem := Rem(n, base);
      DivPower(n, base, 32 - i);
      DivFacts(n, base);
      NextDigit(n, base, Reversed(buf[..i]));
      ReversedAppend(buf[..i], DigitChar(rem));
      ghost var before := buf[..i];
      buf[i] := DigitChar(rem);
      assert buf[..i + 1] == before + [DigitChar(rem)];
      i := i + 1;
      n := n / base;
      more := n > 0;
    }
    str := Unroll("", buf, i);
    DigitsSpell(num, base);
  }

  lemma NoDigits()
    ensures Reversed([]) == []
  {
  }

  lemma SomeRoom(n: nat, base: nat, e: nat)
    requires n < Power(base, e) && (n > 0 || e > 0)
    ensures e > 0
  {
  }

  // ---- parsing ----

  predicate IsDigit(c: char) {
    '0' <= c <= '9'
  }

  /** The unsigned value of the leading digits, in 32-bit arithmetic, on top of `acc`. */
  function Parse(s: string, acc: nat): nat {
    if s == [] || !IsDigit(s[0]) then acc
    else Parse(s[1..], (acc * 10 + (s[0] as int - 48)) % WORD)
  }

  /** How many digits the string starts with. */
  ghost function DigitRun(s: string): (r: nat)
    ensures r <= |s| && DigitsBelow(s[..r], 10)
    ensures r < |s| ==> !(0 <= CharValue(s[r]) < 10)
  {
    if s == [] || !IsDigit(s[0]) then 0 else 1 + DigitRun(s[1..])
  }

  /** The parser reads the number that the leading digits spell, modulo 2^32. */
  lemma {:induction false} ParseValue(s: string, read: string)
    requires DigitsBelow(read, 10)
    ensures Parse(s, Value(read, 10) % WORD) == Value(read + s[..DigitRun(s)], 10) % WORD
    decreases |s|
  {
    hide Value;
    if s == [] || !IsDigit(s[0]) {
      assert read + s[..DigitRun(s)] == read;
    } else {
      Appended(read, s[0], 10);
      ParseValue(s[1..], read + [s[0]]);
      assert read + [s[0]] + s[1..][..DigitRun(s[1..])] == read + s[..DigitRun(s)];
      Carry(Value(read, 10), s[0] as int - 48);
    }
  }

  lemma Carry(v: int, d: nat)
    ensures (v % WORD * 10 + d) % WORD == (v * 10 + d) % WORD
  {
    var q := v / WORD;
    assert v * 10 + d == q * 10 * WORD + (v % WORD * 10 + d);
    Multiples(v % WORD * 10 + d, q * 10);
  }

  lemma Multiples(v: int, k: int)
    ensures (k * WORD + v) % WORD == v % WORD
  {
  }

  method Uatoi(str: string) returns (res: nat)
    ensures res == Parse(str, 0) && res < WORD
    ensures res == Value(str[..DigitRun(str)], 10) % WORD
  {
    ReadFromStart(str);
    res := 0;
    var i := 0;
    while i < |str|
      invariant 0 <= i <= |str| && res < WORD
      invariant Parse(str[i..], res) == Parse(str, 0)
    {
      if !IsDigit(str[i]) {
        break;
      }
      assert str[i..][1..] == str[i + 1..];
      res := (res * 10 + (str[i] as int - 48)) % WORD;
      i := i + 1;
    }
  }

  lemma Empty()
    ensures Value([], 10) == 0 && DigitsBelow([], 10)
  {
  }

  lemma ReadFromStart(s: string)
    ensures Parse(s, 0) == Value(s[..DigitRun(s)], 10) % WORD
  {
    hide Parse, DigitsBelow;
    Empty();
    ParseValue(s, []);
    assert [] + s[..DigitRun(s)] == s[..DigitRun(s)];
  }

  /** Parsing the digits of `n` appends them to what was read before. */
  lemma {:induction false} ParseDigits(n: nat, tail: string)
    requires n < WORD
    ensures Parse(Digits(n, 10) + tail, 0) == Parse(tail, n)
  {
    if n < 10 {
      ParseOne(n, tail, 0);
    } else {
      var c := DigitChar(n % 10);
      ParseDigits(n / 10, [c] + tail);
      assert Digits(n, 10) == Digits(n / 10, 10) + [c];
      assert Digits(n, 10) + tail == Digits(n / 10, 10) + ([c] + tail);
      ParseOne(n % 10, tail, n / 10);
    }
  }

  lemma ParseOne(r: nat, tail: string, acc: nat)
    requires r < 10 && acc * 10 + r < WORD
    ensures Parse([DigitChar(r)] + tail, acc) == Parse(tail, acc * 10 + r)
  {
    var s := [DigitChar(r)] + tail;
    assert s[1..] == tail && IsDigit(s[0]) && s[0] as int - 48 == r;
  }

  /** Every 32-bit number survives printing and parsing. */
  lemma UnsignedRoundTrip(n: nat)
    requires n < WORD
    ensures Parse(Digits(n, 10), 0) == n
  {
    ParseDigits(n, []);
    assert Digits(n, 10) + [] == Digits(n, 10);
  }

  // ---- signed numbers ----

  /** Remainder and quotient of C, which truncate toward zero. */
  function CRem(n: int, base: nat): (r: int)
    requires 2 <= base
    ensures -(base as int) < r < base
  {
    if n >= 0 then n % base else -((-n) % base)
  }

  function CDiv(n: int, base: nat): int
    requires 2 <= base
  {
    if n >= 0 then n / base else -((-n) / base)
  }

  /** The quotient is rounded toward zero, and the remainder has the sign of the number. */
  lemma CDivision(n: int, base: nat)
    requires 2 <= base
    ensures CDiv(n, base) * base + CRem(n, base) == n && (if n >= 0 then CRem(n, base) >= 0 else CRem(n, base) <= 0)
  {
    hide CDiv, CRem;
    var m: nat := if n >= 0 then n else -n;
    Magnitude(n, base, m, m / base, m % base);
  }

  lemma Magnitude(n: int, base: nat, m: nat, q: nat, r: nat)
    requires 2 <= base && q == m / base && r == m % base && (if n >= 0 then m == n else m == -n)
    ensures CDiv(n, base) * base + CRem(n, base) == n && (if n >= 0 then CRem(n, base) >= 0 else CRem(n, base) <= 0)
  {
    hide CDiv, CRem;
    Division(m, base, q, r);
    Signs(n, base, m, q, r);
    Recombined(n, m, base, CDiv(n, base), q, r);
  }

  lemma Signs(n: int, base: nat, m: nat, q: int, r: int)
    requires 2 <= base && q == m / base && r == m % base && (if n >= 0 then m == n else m == -n)
    ensures CDiv(n, base) == (if n >= 0 then q else -q) && CRem(n, base) == if n >= 0 then r else -r
  {
  }

  lemma Recombined(n: int, m: int, base: int, d: int, q: int, r: int)
    requires m == q * base + r && (if n >= 0 then m == n else m == -n) && d == if n >= 0 then q else -q
    ensures d * base + (if n >= 0 then r else -r) == n
  {
  }

  /** 32-bit negation: the least number is its own negative. */
  function Negated(n: int): int {
    if n == INT_MIN then INT_MIN else -n
  }

  /** A 32-bit word read as a signed number. */
  function Wrapped(v: nat): int {
    if v <= INT_MAX then v else v - WORD
  }

  /** What the signed printer produces. */
  function Printed(n: int, base: nat): string
    requires INT_MIN <= n <= INT_MAX && 2 <= base <= 36
  {
    if n >= 0 then Digits(n, base)
    else if base == 10 && n != INT_MIN then ['-'] + Digits(-n, 10)
    else (if base == 10 then ['-'] else []) + [DigitChar(CRem(n, base))]
  }

  /** The signed printer is right exactly for numbers that are not negative and, in base 10, for every number but the
      least one. */
  lemma PrintedRightIff(n: int, base: nat)
    requires INT_MIN <= n <= INT_MAX && 2 <= base <= 36
    ensures SpellsSigned(Printed(n, base), n, base) <==> n >= 0 || (base == 10 && n != INT_MIN)
  {
    hide Digits, CharValue, Value;
    if n >= 0 {
      DigitsSpell(n, base);
    } else if n == INT_MIN && base == 10 {
      var s := Printed(n, 10)[1..];
      assert CRem(n, 10) == -8 && s == ['('];
      NoDigit();
      assert CharValue(s[0]) < 0;
    } else if base == 10 {
      DigitsSpell(-n, base);
      assert Printed(n, base)[1..] == Digits(-n, base);
    }
  }

  lemma NoDigit()
    ensures CharValue('(') == -1
  {
  }

  /** The digit loop of `itoa`: a number that stays negative gets one digit only. */
  method Emit(num: int, base: nat, buf: array<char>) returns (i: nat)
    requires INT_MIN <= num <= INT_MAX && 2 <= base <= 36 && buf.Length == 33
    modifies buf
    ensures i <= 32
    ensures num >= 0 ==> Reversed(buf[..i]) == Digits(num, base) && Spells(Digits(num, base), num, base)
    ensures num < 0 ==> i == 1 && buf[0] == DigitChar(CRem(num, base))
  {
    hide Spells, Digits, Reversed, Power, DigitChar, Rem, CRem, CDiv;
    TwoPower32();
    PowerGrows(base, 32);
    NoDigits();
    assert buf[..0] == [];
    var n, more := num, true;
    i := 0;
    while more
      invariant 0 <= i <= 32 && (i == 0 || n >= 0 || num < 0)
      invariant i == 0 ==> n == num && more
      invariant num >= 0 ==> n >= 0 && (more ==> n < Power(base, 32 - i) && (n > 0 || i == 0))
      invariant num >= 0 ==> Pending(n, base, more) + Reversed(buf[..i]) == Digits(num, base)
      invariant num < 0 && i > 0 ==> i == 1 && !more && buf[0] == DigitChar(CRem(num, base))
      decreases more, if n >= 0 then n else 0
    {
      ghost var before := buf[..i];
      var rem := CRem(n, base);
      Truncated(n, base);
      if num >= 0 {
        SomeRoom(n, base, 32 - i);
        DivPower(n, base, 32 - i);
        DivFacts(n, base);
        NextDigit(n, base, Reversed(before));
        ReversedAppend(before, DigitChar(rem));
      }
      buf[i] := DigitChar(rem);
      assert buf[..i + 1] == before + [DigitChar(rem)];
      i := i + 1;
      n := CDiv(n, base);
      more := n > 0;
    }
    Spelled(num, base);
  }

  lemma Spelled(n: int, base: nat)
    requires 2 <= base <= 36
    ensures n >= 0 ==> Spells(Digits(n, base), n, base)
  {
    if n >= 0 {
      DigitsSpell(n, base);
    }
  }

  /** Truncating division agrees with the division of natural numbers, and keeps a negative number from rising above
      zero. */
  lemma Truncated(n: int, base: nat)
    requires 2 <= base
    ensures n >= 0 ==> CRem(n, base) == Rem(n, base) && CDiv(n, base) == n / base >= 0
    ensures n < 0 ==> CDiv(n, base) <= 0
  {
    hide Rem;
    if n < 0 {
      var m: nat := -n;
      assert CDiv(n, base) == -(m / base);
      Quotient(m, base);
    } else {
      assert CDiv(n, base) == n / base;
      Quotient(n, base);
      Remainder(n, base);
    }
  }

  lemma Quotient(n: nat, base: nat)
    requires 2 <= base
    ensures n / base >= 0
  {
  }

  lemma Remainder(n: nat, base: nat)
    requires 2 <= base
    ensures CRem(n, base) == Rem(n, base)
  {
  }

  method Itoa(num: int, base: nat) returns (str: string)
    requires INT_MIN <= num <= INT_MAX && 2 <= base <= 36
    ensures str == Printed(num, base) && |str| <= 33
    ensures SpellsSigned(str, num, base) <==> num >= 0 || (base == 10 && num != INT_MIN)
  {
    hide Spells, SpellsSigned, Digits, Reversed, DigitChar, CRem;
    var buf := new char[33](_ => '\0');
    var n, neg := num, false;
    if n < 0 && base == 10 {
      neg, n := true, Negated(n);
    }
    var i := Emit(n, base, buf);
    str := Unroll(if neg then "-" else "", buf, i);
    if n < 0 {
      OneReversed(buf[0]);
      assert buf[..1] == [buf[0]];
    }
    PrintedRightIff(num, base);
  }

  lemma OneReversed(c: char)
    ensures Reversed([c]) == [c]
  {
    NoDigits();
    assert [c][1..] == [];
  }

  /** The signed parser: an optional minus sign, then digits. */
  function SignedValue(s: string): int {
    if s != [] && s[0] == '-' then Negated(Wrapped(Parse(s[1..], 0))) else Wrapped(Parse(s, 0))
  }

  method Atoi(str: string) returns (res: int)
    ensures res == SignedValue(str) && INT_MIN <= res <= INT_MAX
    ensures var (sign, s) := if str != [] && str[0] == '-' then (-1, str[1..]) else (1, str);
            (res - sign * Value(s[..DigitRun(s)], 10)) % WORD == 0
  {
    hide Parse, Value, DigitRun;
    var sign := |str| > 0 && str[0] == '-';
    var r := Uatoi(if sign then str[1..] else str);
    res := if sign then Negated(Wrapped(r)) else Wrapped(r);
    ghost var s := if sign then str[1..] else str;
    SameResidue(res, Value(s[..DigitRun(s)], 10), sign);
  }

  lemma SameResidue(res: int, v: int, sign: bool)
    requires res == if sign then Negated(Wrapped(v % WORD)) else Wrapped(v % WORD)
    ensures (res - (if sign then -1 else 1) * v) % WORD == 0
  {
    var k := v / WORD;
    assert v == k * WORD + v % WORD;
    if sign {
      assert res + v == k * WORD || res + v == (k + 1) * WORD;
    } else {
      assert res - v == -k * WORD || res - v == (-k - 1) * WORD;
    }
  }

  /** Printing in base 10 and parsing gives a signed number back exactly when it is not the least one. */
  lemma SignedRoundTripIff(n: int)
    requires INT_MIN <= n <= INT_MAX
    ensures SignedValue(Printed(n, 10)) == n <==> n != INT_MIN
  {
    if n >= 0 {
      UnsignedRoundTrip(n);
      LeadingDigit(n);
    } else if n == INT_MIN {
      var s := Printed(n, 10);
      assert s[1..] == [DigitChar(-8)] && DigitChar(-8) == '(';
    } else {
      UnsignedRoundTrip(-n);
      assert (['-'] + Digits(-n, 10))[1..] == Digits(-n, 10);
    }
  }

  lemma {:induction false} LeadingDigit(n: nat)
    ensures IsDigit(Digits(n, 10)[0])
  {
    if n < 10 {
    } else {
      LeadingDigit(n / 10);
    }
  }
}
