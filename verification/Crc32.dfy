/** CRC-32 as in section 8 of RFC 1952, which is what the code obtains from zlib.  A 32-bit
    word is the sequence of its binary digits, lowest first. */
module Crc32 {

  type byte = x: int | 0 <= x < 256

  type uint32 = x: int | 0 <= x < 0x1_0000_0000

  type Word = w: seq<bool> | |w| == 32 witness Zeros(32)

  function Zeros(k: nat): (z: seq<bool>)
    ensures |z| == k && forall i :: 0 <= i < k ==> !z[i]
  {
    seq(k, _ => false)
  }

  /** The k low binary digits of a number. */
  function Digits(n: nat, k: nat): (d: seq<bool>)
    ensures |d| == k
    decreases k
  {
    if k == 0 then [] else [n % 2 == 1] + Digits(n / 2, k - 1)
  }

  function Pow2(k: nat): nat
    decreases k
  {
    if k == 0 then 1 else 2 * Pow2(k - 1)
  }

  lemma TimesSixteen(k: nat)
    ensures Pow2(k + 4) == 16 * Pow2(k)
  {
    assert Pow2(k + 2) == 4 * Pow2(k);
  }

  lemma PowersOfTwo()
    ensures Pow2(8) == 0x100 && Pow2(31) == 0x8000_0000 && Pow2(32) == 0x1_0000_0000
  {
    TimesSixteen(0);
    TimesSixteen(4);
    TimesSixteen(8);
    TimesSixteen(12);
    TimesSixteen(16);
    TimesSixteen(20);
    TimesSixteen(24);
    TimesSixteen(28);
  }

  /** The number with the given binary digits. */
  function Number(d: seq<bool>): (n: nat)
    ensures n < Pow2(|d|)
    decreases |d|
  {
    if d == [] then 0 else (if d[0] then 1 else 0) + 2 * Number(d[1..])
  }

  function Xor(a: Word, b: Word): Word {
    seq(32, i requires 0 <= i < 32 => a[i] != b[i])
  }

  function ShiftRight(c: Word, k: nat): Word
    requires k <= 32
  {
    c[k..] + Zeros(k)
  }

  function OfByte(b: byte): Word {
    Digits(b, 8) + Zeros(24)
  }

  /** The reflected generator polynomial. */
  const POLY: Word := Digits(0xEDB8_8320, 32)

  function Ones(): Word {
    seq(32, _ => true)
  }

  /** One shift of the register. */
  function Shift(c: Word): Word {
    if c[0] then Xor(POLY, ShiftRight(c, 1)) else ShiftRight(c, 1)
  }

  function Shifts(c: Word, k: nat): Word
    decreases k
  {
    if k == 0 then c else Shifts(Shift(c), k - 1)
  }

  function LowByte(c: Word): Word {
    c[..8] + Zeros(24)
  }

  /** The table-driven update by one byte; entry n of the table is n after eight shifts. */
  function Update(c: Word, b: byte): Word {
    Xor(Shifts(LowByte(Xor(c, OfByte(b))), 8), ShiftRight(c, 8))
  }

  function Register(c: Word, s: seq<byte>): Word
    decreases |s|
  {
    if s == [] then c else Register(Update(c, s[0]), s[1..])
  }

  /** The checksum of a string. */
  function Crc(s: seq<byte>): uint32 {
    PowersOfTwo();
    Number(Xor(Register(Ones(), s), Ones()))
  }

  // ---------- the shift step ----------

  lemma ShiftDigit(c: Word, i: nat)
    requires i < 32
    ensures Shift(c)[i] == ((c[0] && POLY[i]) != (i < 31 && c[i + 1]))
  {
  }

  lemma {:induction false} TopDigit(n: nat, k: nat)
    requires k > 0 && Pow2(k - 1) <= n < Pow2(k)
    ensures Digits(n, k)[k - 1]
    decreases k
  {
    if k <= 1 {
    } else {
      TopDigit(n / 2, k - 1);
    }
  }

  /** The polynomial has its top digit set: what a step shifts out can be read off the result. */
  lemma PolyTopDigit()
    ensures POLY[31]
  {
    PowersOfTwo();
    TopDigit(0xEDB8_8320, 32);
  }

  lemma ShiftInjective(a: Word, b: Word)
    requires Shift(a) == Shift(b)
    ensures a == b
  {
    PolyTopDigit();
    ShiftDigit(a, 31);
    ShiftDigit(b, 31);
    forall i | 0 <= i < 32 ensures a[i] == b[i] {
      if i > 0 {
        ShiftDigit(a, i - 1);
        ShiftDigit(b, i - 1);
      }
    }
  }

  lemma ShiftLinear(a: Word, b: Word)
    ensures Shift(Xor(a, b)) == Xor(Shift(a), Shift(b))
  {
    forall i | 0 <= i < 32 ensures Shift(Xor(a, b))[i] == Xor(Shift(a), Shift(b))[i] {
      ShiftDigit(a, i);
      ShiftDigit(b, i);
      ShiftDigit(Xor(a, b), i);
    }
  }

  lemma {:induction false} ShiftsInjective(a: Word, b: Word, k: nat)
    requires Shifts(a, k) == Shifts(b, k)
    ensures a == b
    decreases k
  {
    if k == 0 {
    } else {
      ShiftsInjective(Shift(a), Shift(b), k - 1);
      ShiftInjective(a, b);
    }
  }

  lemma {:induction false} ShiftsLinear(a: Word, b: Word, k: nat)
    ensures Shifts(Xor(a, b), k) == Xor(Shifts(a, k), Shifts(b, k))
    decreases k
  {
    if k == 0 {
    } else {
      ShiftLinear(a, b);
      ShiftsLinear(Shift(a), Shift(b), k - 1);
    }
  }

  /** A word whose k low digits are clear is only shifted by k steps. */
  lemma {:induction false} HighDigitsPass(c: Word, k: nat)
    requires k <= 32 && c[..k] == Zeros(k)
    ensures Shifts(c, k) == ShiftRight(c, k)
    decreases k
  {
    if k != 0 {
      assert !c[..k][0];
      var d := ShiftRight(c, 1);
      assert forall i :: 0 <= i < k - 1 ==> d[i] == c[..k][i + 1];
      assert d[..k - 1] == Zeros(k - 1);
      HighDigitsPass(d, k - 1);
      assert ShiftRight(d, k - 1) == ShiftRight(c, k);
    } else {
      assert ShiftRight(c, 0) == c;
    }
  }

  lemma SplitLow(x: Word)
    ensures x == Xor(LowByte(x), Zeros(8) + x[8..])
  {
  }

  lemma ShiftedPast(c: Word, b: byte)
    ensures ShiftRight(Zeros(8) + Xor(c, OfByte(b))[8..], 8) == ShiftRight(c, 8)
  {
  }

  /** The byte table does in one update what eight shift steps do. */
  lemma UpdateIsEightShifts(c: Word, b: byte)
    ensures Update(c, b) == Shifts(Xor(c, OfByte(b)), 8)
  {
    var x := Xor(c, OfByte(b));
    var high := Zeros(8) + x[8..];
    SplitLow(x);
    ShiftsLinear(LowByte(x), high, 8);
    assert high[..8] == Zeros(8);
    HighDigitsPass(high, 8);
    ShiftedPast(c, b);
  }

  // ---------- bit by bit ----------

  /** The bits of a string in the order in which the register meets them. */
  function Bits(s: seq<byte>): (d: seq<bool>)
    ensures |d| == 8 * |s|
    decreases |s|
  {
    if s == [] then [] else Digits(s[0], 8) + Bits(s[1..])
  }

  function FeedBit(c: Word, b: bool): Word {
    Shift(c[0 := c[0] != b])
  }

  function FeedBits(c: Word, d: seq<bool>): Word
    decreases |d|
  {
    if d == [] then c else FeedBits(FeedBit(c, d[0]), d[1..])
  }

  /** Up to 32 bits as a word, the first bit lowest. */
  function Padded(d: seq<bool>): Word
    requires |d| <= 32
  {
    d + Zeros(32 - |d|)
  }

  lemma FeedFirst(c: Word, d: seq<bool>)
    requires 0 < |d| <= 32
    ensures Shift(Xor(c, Padded(d))) == Xor(FeedBit(c, d[0]), Padded(d[1..]))
  {
    var low, high := c[0 := c[0] != d[0]], [false] + d[1..] + Zeros(32 - |d|);
    assert Xor(c, Padded(d)) == Xor(low, high);
    ShiftLinear(low, high);
    assert Shift(high) == ShiftRight(high, 1) == Padded(d[1..]);
  }

  /** Up to 32 bits may as well be met all at once, before the shifts. */
  lemma {:induction false} FeedTogether(c: Word, d: seq<bool>)
    requires |d| <= 32
    ensures FeedBits(c, d) == Shifts(Xor(c, Padded(d)), |d|)
    decreases |d|
  {
    if d == [] {
      assert Xor(c, Padded(d)) == c;
    } else {
      FeedFirst(c, d);
      FeedTogether(FeedBit(c, d[0]), d[1..]);
    }
  }

  lemma {:induction false} FeedConcat(c: Word, d: seq<bool>, e: seq<bool>)
    ensures FeedBits(c, d + e) == FeedBits(FeedBits(c, d), e)
    decreases |d|
  {
    if d == [] {
      assert d + e == e;
    } else {
      assert (d + e)[1..] == d[1..] + e;
      FeedConcat(FeedBit(c, d[0]), d[1..], e);
    }
  }

  /** The byte-wise register is the bit-wise one. */
  lemma {:induction false} RegisterIsFed(c: Word, s: seq<byte>)
    ensures Register(c, s) == FeedBits(c, Bits(s))
    decreases |s|
  {
    if s == [] {
    } else {
      UpdateIsEightShifts(c, s[0]);
      FeedTogether(c, Digits(s[0], 8));
      FeedConcat(c, Digits(s[0], 8), Bits(s[1..]));
      RegisterIsFed(Update(c, s[0]), s[1..]);
    }
  }

  // ---------- bursts of up to 32 bits ----------

  lemma XorInjective(a: Word, b: Word, m: Word)
    requires Xor(a, m) == Xor(b, m)
    ensures a == b
  {
    forall i | 0 <= i < 32 ensures a[i] == b[i] {
      assert Xor(a, m)[i] == Xor(b, m)[i];
    }
  }

  lemma XorMoved(a: Word, b: Word, d: Word, e: Word)
    requires Xor(a, d) == Xor(b, e)
    ensures Xor(a, b) == Xor(d, e)
  {
    forall i | 0 <= i < 32 ensures Xor(a, b)[i] == Xor(d, e)[i] {
      assert Xor(a, d)[i] == Xor(b, e)[i];
    }
  }

  /** Two registers that meet after at most 32 bits differed by exactly what the bits differ. */
  lemma MeetBack(a: Word, b: Word, d: seq<bool>, e: seq<bool>)
    requires |d| == |e| <= 32
    requires FeedBits(a, d) == FeedBits(b, e)
    ensures Xor(a, b) == Xor(Padded(d), Padded(e))
  {
    FeedTogether(a, d);
    FeedTogether(b, e);
    ShiftsInjective(Xor(a, Padded(d)), Xor(b, Padded(e)), |d|);
    XorMoved(a, b, Padded(d), Padded(e));
  }

  lemma {:induction false} FeedInjective(a: Word, b: Word, d: seq<bool>)
    requires FeedBits(a, d) == FeedBits(b, d)
    ensures a == b
    decreases |d|
  {
    if d == [] {
    } else {
      FeedInjective(FeedBit(a, d[0]), FeedBit(b, d[0]), d[1..]);
      var x, y := a[0 := a[0] != d[0]], b[0 := b[0] != d[0]];
      ShiftInjective(x, y);
      forall i | 0 <= i < 32 ensures a[i] == b[i] { assert x[i] == y[i]; }
    }
  }

  lemma SameWindow(c: Word, d: seq<bool>, e: seq<bool>)
    requires |d| == |e| <= 32 && Xor(c, c) == Xor(Padded(d), Padded(e))
    ensures d == e
  {
    forall i | 0 <= i < |d| ensures d[i] == e[i] {
      assert Xor(c, c)[i] == Xor(Padded(d), Padded(e))[i];
      assert Padded(d)[i] == d[i] && Padded(e)[i] == e[i];
    }
  }

  lemma FeedSplit(c: Word, d: seq<bool>, i: nat, j: nat)
    requires i <= j <= |d|
    ensures FeedBits(c, d) == FeedBits(FeedBits(FeedBits(c, d[..i]), d[i..j]), d[j..])
  {
    assert d == d[..j] + d[j..] && d[..j] == d[..i] + d[i..j];
    FeedConcat(c, d[..j], d[j..]);
    FeedConcat(c, d[..i], d[i..j]);
  }

  /** Registers that start equal and end equal have met equal bits in any window of up to 32 bits
      outside which the bits agree. */
  lemma WindowForced(c: Word, d: seq<bool>, e: seq<bool>, i: nat, j: nat)
    requires |d| == |e| && i <= j <= |d| && j - i <= 32
    requires d[..i] == e[..i] && d[j..] == e[j..]
    requires FeedBits(c, d) == FeedBits(c, e)
    ensures d == e
  {
    var m := FeedBits(c, d[..i]);
    FeedSplit(c, d, i, j);
    FeedSplit(c, e, i, j);
    FeedInjective(FeedBits(m, d[i..j]), FeedBits(m, e[i..j]), d[j..]);
    MeetBack(m, m, d[i..j], e[i..j]);
    SameWindow(m, d[i..j], e[i..j]);
    SamePieces(d, e, i, j);
  }

  lemma SamePieces(d: seq<bool>, e: seq<bool>, i: nat, j: nat)
    requires |d| == |e| && i <= j <= |d|
    requires d[..i] == e[..i] && d[i..j] == e[i..j] && d[j..] == e[j..]
    ensures d == e
  {
    assert d == d[..i] + d[i..j] + d[j..];
    assert e == e[..i] + e[i..j] + e[j..];
  }

  lemma {:induction false} DigitsInjective(m: nat, n: nat, k: nat)
    requires m < Pow2(k) && n < Pow2(k) && Digits(m, k) == Digits(n, k)
    ensures m == n
    decreases k
  {
    if k == 0 {
    } else {
      var d, e := Digits(m, k), Digits(n, k);
      assert d[0] == e[0] && d[1..] == e[1..];
      assert d[1..] == Digits(m / 2, k - 1) && e[1..] == Digits(n / 2, k - 1);
      DigitsInjective(m / 2, n / 2, k - 1);
    }
  }

  lemma {:induction false} BitsInjective(s: seq<byte>, t: seq<byte>)
    requires |s| == |t| && Bits(s) == Bits(t)
    ensures s == t
    decreases |s|
  {
    if s == [] {
    } else {
      assert Digits(s[0], 8) == Bits(s)[..8] == Bits(t)[..8] == Digits(t[0], 8);
      PowersOfTwo();
      DigitsInjective(s[0], t[0], 8);
      assert Bits(s[1..]) == Bits(s)[8..] == Bits(t)[8..] == Bits(t[1..]);
      BitsInjective(s[1..], t[1..]);
    }
  }

  lemma {:induction false} BitsConcat(s: seq<byte>, t: seq<byte>)
    ensures Bits(s + t) == Bits(s) + Bits(t)
    decreases |s|
  {
    if s == [] {
      assert s + t == t;
    } else {
      assert (s + t)[1..] == s[1..] + t;
      BitsConcat(s[1..], t);
    }
  }

  // ---------- the checksum ----------

  lemma {:induction false} NumberInjective(d: seq<bool>, e: seq<bool>)
    requires |d| == |e| && Number(d) == Number(e)
    ensures d == e
    decreases |d|
  {
    if d == [] {
    } else {
      NumberInjective(d[1..], e[1..]);
      assert d == [d[0]] + d[1..] && e == [e[0]] + e[1..];
    }
  }

  /** Bits that agree outside a window of at most 32. */
  predicate BurstOf(d: seq<bool>, e: seq<bool>, i: nat) {
    |d| == |e| && forall k :: 0 <= k < |d| && !(i <= k < i + 32) ==> d[k] == e[k]
  }

  lemma OutsideAgrees(d: seq<bool>, e: seq<bool>, i: nat) returns (l: nat, h: nat)
    requires BurstOf(d, e, i)
    ensures l <= h <= |d| && h - l <= 32 && d[..l] == e[..l] && d[h..] == e[h..]
  {
    var n := |d|;
    l, h := if i < n then i else n, if i + 32 < n then i + 32 else n;
  }

  lemma SameCrc(s: seq<byte>, t: seq<byte>)
    requires Crc(s) == Crc(t)
    ensures FeedBits(Ones(), Bits(s)) == FeedBits(Ones(), Bits(t))
  {
    hide Bits, FeedBits, Register, Number, Xor;
    var x, y := Register(Ones(), s), Register(Ones(), t);
    NumberInjective(Xor(x, Ones()), Xor(y, Ones()));
    XorInjective(x, y, Ones());
    RegisterIsFed(Ones(), s);
    RegisterIsFed(Ones(), t);
  }

  /** Strings of equal length that differ, but only inside a window of at most 32 consecutive
      bits, have different checksums. */
  lemma BurstDetected(s: seq<byte>, t: seq<byte>, i: nat)
    requires |s| == |t| && s != t && BurstOf(Bits(s), Bits(t), i)
    ensures Crc(s) != Crc(t)
  {
    hide Bits, FeedBits, Crc, BurstOf;
    if Crc(s) == Crc(t) {
      SameCrc(s, t);
      var l, h := OutsideAgrees(Bits(s), Bits(t), i);
      WindowForced(Ones(), Bits(s), Bits(t), l, h);
      BitsInjective(s, t);
    }
  }

  /** One changed byte, wherever it is, changes the checksum. */
  lemma ByteDetected(s: seq<byte>, i: nat, b: byte)
    requires i < |s| && b != s[i]
    ensures Crc(s[i := b]) != Crc(s)
  {
    hide Bits, Digits, Crc, BurstOf;
    var t := s[i := b];
    assert t[i] != s[i];
    BitsAround(s, i);
    BitsAround(t, i);
    assert t[..i] == s[..i] && t[i + 1..] == s[i + 1..];
    BurstInside(Bits(s[..i]), Digits(t[i], 8), Digits(s[i], 8), Bits(s[i + 1..]));
    BurstDetected(t, s, 8 * i);
  }

  lemma BurstInside(front: seq<bool>, d: seq<bool>, e: seq<bool>, back: seq<bool>)
    requires |d| == |e| <= 32
    ensures BurstOf(front + d + back, front + e + back, |front|)
  {
  }

  lemma BitsAround(s: seq<byte>, i: nat)
    requires i < |s|
    ensures Bits(s) == Bits(s[..i]) + Digits(s[i], 8) + Bits(s[i + 1..])
  {
    hide Digits;
    var first, rest: seq<byte> := s[..i], s[i..];
    assert s == first + rest && rest[0] == s[i] && rest[1..] == s[i + 1..];
    BitsConcat(first, rest);
    hide Bits;
    Grouped(Bits(first), Digits(s[i], 8), Bits(s[i + 1..]));
    assert Bits(rest) == Digits(s[i], 8) + Bits(s[i + 1..]) by { FirstBits(rest); }
  }

  lemma FirstBits(s: seq<byte>)
    requires s != []
    ensures Bits(s) == Digits(s[0], 8) + Bits(s[1..])
  {
  }

  lemma Grouped(a: seq<bool>, b: seq<bool>, c: seq<bool>)
    ensures a + (b + c) == a + b + c
  {
  }

  lemma CrcOfNothing()
    ensures Crc([]) == 0
  {
    var w := Xor(Ones(), Ones());
    assert w == Digits(0, 32) by { ZeroDigits(32); }
    ZeroNumber(w);
  }

  lemma {:induction false} ZeroDigits(k: nat)
    ensures Digits(0, k) == Zeros(k)
    decreases k
  {
    if k == 0 {
    } else {
      ZeroDigits(k - 1);
    }
  }

  lemma {:induction false} ZeroNumber(d: seq<bool>)
    requires d == Zeros(|d|)
    ensures Number(d) == 0
    decreases |d|
  {
    if d == [] {
    } else {
      assert d[1..] == Zeros(|d| - 1);
      ZeroNumber(d[1..]);
    }
  }
}
