/** The checksum on machine words of 32 bits, proved to be the one on binary digits; with it the
    checksum of a given string can be computed. */
module Crc32Words {
  import opened Crc32
  import opened Codec

  function Halved(w: bv32): bv32 { w >> 1 }

  predicate IsOdd(w: bv32) { w & 1 == 1 }

  /** The k low binary digits of a machine word, lowest first. */
  function BitsOf(w: bv32, k: nat): (d: seq<bool>)
    ensures |d| == k
    decreases k
  {
    if k == 0 then [] else [IsOdd(w)] + BitsOf(Halved(w), k - 1)
  }

  function Bit(p: bool, w: bv32): bv32 { if p then w else 0 }

  /** The word with eight given low digits. */
  function EightBits(a: bool, b: bool, c: bool, d: bool, e: bool, f: bool, g: bool, h: bool): bv32 {
    Bit(a, 1) | Bit(b, 2) | Bit(c, 4) | Bit(d, 8) | Bit(e, 16) | Bit(f, 32) | Bit(g, 64) | Bit(h, 128)
  }

  function Nibble(n: nat): bv32 {
    match n
    case 0 => 0 case 1 => 1 case 2 => 2 case 3 => 3 case 4 => 4 case 5 => 5 case 6 => 6 case 7 => 7
    case 8 => 8 case 9 => 9 case 10 => 10 case 11 => 11 case 12 => 12 case 13 => 13 case 14 => 14 case _ => 15
  }

  function TwoNibbles(h: bv32, l: bv32): bv32 { (h << 4) | l }

  function ByteWord(b: byte): bv32 {
    TwoNibbles(Nibble(b / 16), Nibble(b % 16))
  }

  function ShiftWord(w: bv32): bv32 {
    if IsOdd(w) then 0xEDB8_8320 ^ Halved(w) else Halved(w)
  }

  function XorWord(a: bv32, b: bv32): bv32 { a ^ b }

  function EightShifts(w: bv32): bv32 {
    var a := ShiftWord(w);
    var b := ShiftWord(a);
    var c := ShiftWord(b);
    var d := ShiftWord(c);
    var e := ShiftWord(d);
    var f := ShiftWord(e);
    var g := ShiftWord(f);
    ShiftWord(g)
  }

  /** One step of the checksum, for a byte as a word. */
  function UpdateWord(w: bv32, b: bv32): bv32 {
    EightShifts(XorWord(w, b))
  }

  /** The register after a string, byte by byte. */
  function RegisterWord(w: bv32, s: seq<byte>): bv32
    decreases |s|
  {
    if s == [] then w else RegisterWord(UpdateWord(w, ByteWord(s[0])), s[1..])
  }

  // ---------- digits of words ----------

  function ShiftedDown(w: bv32, j: nat): bv32
    decreases j
  {
    if j == 0 then w else ShiftedDown(Halved(w), j - 1)
  }

  lemma {:induction false} BitsSplit(w: bv32, j: nat, k: nat)
    ensures BitsOf(w, j + k) == BitsOf(w, j) + BitsOf(ShiftedDown(w, j), k)
    decreases j
  {
    hide Halved, IsOdd;
    if j == 0 {
    } else {
      BitsSplit(Halved(w), j - 1, k);
    }
  }

  lemma {:induction false} ShiftedDownTwice(w: bv32, j: nat, k: nat)
    ensures ShiftedDown(w, j + k) == ShiftedDown(ShiftedDown(w, j), k)
    decreases j
  {
    hide Halved;
    if j == 0 {
    } else {
      ShiftedDownTwice(Halved(w), j - 1, k);
    }
  }

  function Quarter(w: bv32): bv32 { Halved(Halved(w)) }

  function Low8(w: bv32): bv32 { w & 0xFF }

  function Down4(w: bv32): bv32 { w >> 4 }

  function Down8(w: bv32): bv32 { w >> 8 }

  lemma Downs(w: bv32)
    ensures Quarter(Quarter(w)) == Down4(w) && Down4(Down4(w)) == Down8(w)
  {
  }

  lemma TwoBits(w: bv32)
    ensures ShiftedDown(w, 2) == Quarter(w)
    ensures BitsOf(w, 2) == [IsOdd(w), IsOdd(Halved(w))]
  {
    hide Halved, IsOdd;
    var x := Halved(w);
    assert ShiftedDown(x, 1) == Halved(x);
    assert BitsOf(x, 1) == [IsOdd(x)];
  }

  lemma DownFour(w: bv32)
    ensures ShiftedDown(w, 4) == Down4(w)
    ensures BitsOf(w, 4) == [IsOdd(w), IsOdd(Halved(w)), IsOdd(Quarter(w)), IsOdd(Halved(Quarter(w)))]
  {
    hide Halved, IsOdd, ShiftedDown, BitsOf, Quarter, Down4, Down8;
    Downs(w);
    TwoBits(w);
    TwoBits(Quarter(w));
    ShiftedDownTwice(w, 2, 2);
    BitsSplit(w, 2, 2);
  }

  lemma DownEight(w: bv32)
    ensures ShiftedDown(w, 8) == Down8(w)
  {
    hide ShiftedDown, BitsOf, IsOdd, Halved, Quarter, Down4, Down8;
    Downs(w);
    DownFour(w);
    DownFour(Down4(w));
    ShiftedDownTwice(w, 4, 4);
  }

  /** The digits of a word, eight for each of its bytes. */
  lemma FourBytes(w: bv32)
    ensures BitsOf(w, 32) ==
            BitsOf(w, 8) + BitsOf(Down8(w), 8) + BitsOf(Down8(Down8(w)), 8) + BitsOf(Down8(Down8(Down8(w))), 8)
  {
    hide BitsOf, ShiftedDown, Down8;
    var x := Down8(w);
    var y := Down8(x);
    DownEight(w);
    DownEight(x);
    DownEight(y);
    BitsSplit(w, 8, 24);
    BitsSplit(x, 8, 16);
    BitsSplit(y, 8, 8);
  }

  // ---------- bytes ----------

  lemma LowDigits(w: bv32, a: bool, b: bool, c: bool, d: bool, e: bool, f: bool, g: bool, h: bool)
    requires Low8(w) == EightBits(a, b, c, d, e, f, g, h)
    ensures
      var x := Down4(w);
      && IsOdd(w) == a && IsOdd(Halved(w)) == b && IsOdd(Quarter(w)) == c && IsOdd(Halved(Quarter(w))) == d
      && IsOdd(x) == e && IsOdd(Halved(x)) == f && IsOdd(Quarter(x)) == g && IsOdd(Halved(Quarter(x))) == h
  {
  }

  lemma LowEight(w: bv32)
    ensures
      var x := Down4(w);
      BitsOf(w, 8) == [IsOdd(w), IsOdd(Halved(w)), IsOdd(Quarter(w)), IsOdd(Halved(Quarter(w))),
                       IsOdd(x), IsOdd(Halved(x)), IsOdd(Quarter(x)), IsOdd(Halved(Quarter(x)))]
  {
    hide ShiftedDown, BitsOf, IsOdd, Halved, Quarter, Down4;
    DownFour(w);
    DownFour(Down4(w));
    BitsSplit(w, 4, 4);
  }

  lemma {:induction false} ZeroBits(k: nat)
    ensures BitsOf(0, k) == Zeros(k)
    decreases k
  {
    if k == 0 {
    } else {
      assert Halved(0) == 0;
      ZeroBits(k - 1);
    }
  }

  lemma TwoDigits(n: nat, k: nat)
    ensures Digits(n, 2 + k) == [n % 2 == 1, n / 2 % 2 == 1] + Digits(n / 2 / 2, k)
  {
    assert Digits(n / 2, 1 + k) == [n / 2 % 2 == 1] + Digits(n / 2 / 2, k);
  }

  lemma FourDigits(n: nat, k: nat)
    ensures Digits(n, 4 + k) ==
            [n % 2 == 1, n / 2 % 2 == 1, n / 2 / 2 % 2 == 1, n / 2 / 2 / 2 % 2 == 1] + Digits(n / 2 / 2 / 2 / 2, k)
  {
    hide Digits;
    TwoDigits(n, 2 + k);
    TwoDigits(n / 2 / 2, k);
  }

  function FourBits(a: bool, b: bool, c: bool, d: bool): bv32 {
    Bit(a, 1) | Bit(b, 2) | Bit(c, 4) | Bit(d, 8)
  }

  lemma NibbleBits(n: nat)
    requires n < 16
    ensures Nibble(n) == FourBits(n % 2 == 1, n / 2 % 2 == 1, n / 2 / 2 % 2 == 1, n / 2 / 2 / 2 % 2 == 1)
  {
    if n < 8 {
      if n == 0 { } else if n == 1 { } else if n == 2 { } else if n == 3 { }
      else if n == 4 { } else if n == 5 { } else if n == 6 { } else { }
    } else {
      if n == 8 { } else if n == 9 { } else if n == 10 { } else if n == 11 { }
      else if n == 12 { } else if n == 13 { } else if n == 14 { } else { }
    }
  }

  lemma NibbleDigits(n: nat)
    requires n < 16
    ensures var d := Digits(n, 4); Nibble(n) == FourBits(d[0], d[1], d[2], d[3])
  {
    hide Digits, Nibble, FourBits;
    NibbleBits(n);
    FourDigits(n, 0);
  }

  lemma TwoFours(a: bool, b: bool, c: bool, d: bool, e: bool, f: bool, g: bool, h: bool)
    ensures TwoNibbles(FourBits(e, f, g, h), FourBits(a, b, c, d)) == EightBits(a, b, c, d, e, f, g, h)
  {
  }

  lemma DigitsOfByte(b: byte)
    ensures Digits(b, 8) == Digits(b % 16, 4) + Digits(b / 16, 4)
  {
    hide Digits;
    var n: nat, h: nat := b % 16, b / 16;
    assert b == 16 * h + n;
    FourDigits(b, 4);
    FourDigits(n, 0);
    assert Digits(n / 2 / 2 / 2 / 2, 0) == [];
    assert b / 2 == 8 * h + n / 2;
    assert b / 2 / 2 == 4 * h + n / 2 / 2;
    assert b / 2 / 2 / 2 == 2 * h + n / 2 / 2 / 2;
    assert b / 2 / 2 / 2 / 2 == h;
  }

  lemma ByteDigits(b: byte)
    ensures var d := Digits(b, 8); ByteWord(b) == EightBits(d[0], d[1], d[2], d[3], d[4], d[5], d[6], d[7])
  {
    hide Digits, Nibble, FourBits, EightBits, TwoNibbles;
    DigitsOfByte(b);
    NibbleDigits(b % 16);
    NibbleDigits(b / 16);
    var d := Digits(b, 8);
    TwoFours(d[0], d[1], d[2], d[3], d[4], d[5], d[6], d[7]);
  }

  lemma EightBitsOf(w: bv32, a: bool, b: bool, c: bool, d: bool, e: bool, f: bool, g: bool, h: bool)
    requires Low8(w) == EightBits(a, b, c, d, e, f, g, h)
    ensures BitsOf(w, 8) == [a, b, c, d, e, f, g, h]
  {
    hide BitsOf, IsOdd, Halved, Quarter, Down4, EightBits, Low8;
    LowDigits(w, a, b, c, d, e, f, g, h);
    LowEight(w);
  }

  lemma Listed(d: seq<bool>)
    requires |d| == 8
    ensures d == [d[0], d[1], d[2], d[3], d[4], d[5], d[6], d[7]]
  {
  }

  /** A word whose low byte is given. */
  lemma LowByteBits(w: bv32, b: byte)
    requires Low8(w) == ByteWord(b)
    ensures BitsOf(w, 8) == Digits(b, 8)
  {
    hide Digits, BitsOf, EightBits, Low8, ByteWord;
    ByteDigits(b);
    var d := Digits(b, 8);
    Listed(d);
    EightBitsOf(w, d[0], d[1], d[2], d[3], d[4], d[5], d[6], d[7]);
  }

  lemma EightIsLow(a: bool, b: bool, c: bool, d: bool, e: bool, f: bool, g: bool, h: bool)
    ensures
      var w := EightBits(a, b, c, d, e, f, g, h);
      Low8(w) == w && Down8(w) == 0
  {
  }

  lemma ByteIsLow(b: byte)
    ensures Low8(ByteWord(b)) == ByteWord(b) && Down8(ByteWord(b)) == 0
  {
    hide Digits, EightBits, Low8, Down8, ByteWord;
    ByteDigits(b);
    var d := Digits(b, 8);
    EightIsLow(d[0], d[1], d[2], d[3], d[4], d[5], d[6], d[7]);
  }

  lemma ByteBits(b: byte)
    ensures BitsOf(ByteWord(b), 32) == OfByte(b)
  {
    hide ByteWord, Digits, BitsOf, Down8, Low8, ShiftedDown;
    ByteIsLow(b);
    LowByteBits(ByteWord(b), b);
    DownEight(ByteWord(b));
    BitsSplit(ByteWord(b), 8, 24);
    ZeroBits(24);
  }

  function Join(a: bv32, b: bv32, c: bv32, d: bv32): bv32 {
    (a << 24) | (b << 16) | (c << 8) | d
  }

  /** A word made of four bytes, the most significant first. */
  function Joined(a: byte, b: byte, c: byte, d: byte): bv32 {
    Join(ByteWord(a), ByteWord(b), ByteWord(c), ByteWord(d))
  }

  lemma JoinedParts(a: bv32, b: bv32, c: bv32, d: bv32)
    requires Low8(a) == a && Low8(b) == b && Low8(c) == c && Low8(d) == d
    ensures
      var w := Join(a, b, c, d);
      Low8(w) == d && Low8(Down8(w)) == c && Low8(Down8(Down8(w))) == b && Low8(Down8(Down8(Down8(w)))) == a
  {
  }

  lemma JoinedBits(a: byte, b: byte, c: byte, d: byte)
    ensures BitsOf(Joined(a, b, c, d), 32) == Digits(d, 8) + Digits(c, 8) + Digits(b, 8) + Digits(a, 8)
  {
    hide ByteWord, Join, Digits, BitsOf, Low8, Down8;
    ByteIsLow(a);
    ByteIsLow(b);
    ByteIsLow(c);
    ByteIsLow(d);
    JoinedParts(ByteWord(a), ByteWord(b), ByteWord(c), ByteWord(d));
    var w := Joined(a, b, c, d);
    FourBytes(w);
    LowByteBits(w, d);
    LowByteBits(Down8(w), c);
    LowByteBits(Down8(Down8(w)), b);
    LowByteBits(Down8(Down8(Down8(w))), a);
  }

  // ---------- the register ----------

  lemma XorHalf(a: bv32, b: bv32)
    ensures Halved(XorWord(a, b)) == XorWord(Halved(a), Halved(b))
    ensures IsOdd(XorWord(a, b)) <==> IsOdd(a) != IsOdd(b)
  {
  }

  predicate Differs(d: seq<bool>, e: seq<bool>, x: seq<bool>) {
    |d| == |e| == |x| && forall i :: 0 <= i < |x| ==> x[i] == (d[i] != e[i])
  }

  lemma DiffersPrepended(p: bool, q: bool, d: seq<bool>, e: seq<bool>, x: seq<bool>)
    requires Differs(d, e, x)
    ensures Differs([p] + d, [q] + e, [p != q] + x)
  {
  }

  lemma {:induction false} XorBits(a: bv32, b: bv32, k: nat)
    ensures Differs(BitsOf(a, k), BitsOf(b, k), BitsOf(XorWord(a, b), k))
    decreases k
  {
    hide Halved, IsOdd, XorWord;
    if k == 0 {
    } else {
      hide Differs;
      var x, y := Halved(a), Halved(b);
      XorHalf(a, b);
      XorBits(x, y, k - 1);
      DiffersPrepended(IsOdd(a), IsOdd(b), BitsOf(x, k - 1), BitsOf(y, k - 1), BitsOf(XorWord(x, y), k - 1));
    }
  }

  lemma XorWords(a: bv32, b: bv32)
    ensures BitsOf(XorWord(a, b), 32) == Xor(BitsOf(a, 32), BitsOf(b, 32))
  {
    hide BitsOf, XorWord;
    XorBits(a, b, 32);
  }

  lemma TopOfHalf(w: bv32)
    ensures
      var x := Down4(Down8(Down8(Down8(Halved(w)))));
      !IsOdd(Halved(Quarter(x)))
  {
  }

  lemma TopClear(w: bv32)
    ensures !BitsOf(Halved(w), 32)[31]
  {
    hide BitsOf, Halved, Down4, Down8, IsOdd, Quarter;
    TopOfHalf(w);
    FourBytes(Halved(w));
    LowEight(Down8(Down8(Down8(Halved(w)))));
  }

  lemma Dropped(first: bool, rest: seq<bool>, w: Word)
    requires |rest| == 31 && w[..31] == rest && !w[31]
    ensures w == ShiftRight([first] + rest, 1)
  {
  }

  lemma FirstBit(w: bv32, k: nat)
    ensures BitsOf(w, k + 1) == [IsOdd(w)] + BitsOf(Halved(w), k)
  {
    hide IsOdd, Halved;
  }

  lemma HalfWord(w: bv32)
    ensures BitsOf(Halved(w), 32) == ShiftRight(BitsOf(w, 32), 1)
  {
    hide IsOdd, Halved, BitsOf, ShiftRight, ShiftedDown;
    TopClear(w);
    FirstBit(w, 31);
    BitsSplit(Halved(w), 31, 1);
    Dropped(IsOdd(w), BitsOf(Halved(w), 31), BitsOf(Halved(w), 32));
  }

  lemma PolyWord()
    ensures Joined(0xED, 0xB8, 0x83, 0x20) == 0xEDB8_8320
  {
  }

  lemma PolyBits()
    ensures BitsOf(0xEDB8_8320, 32) == POLY
  {
    hide Joined, BitsOf, Digits;
    PolyWord();
    JoinedBits(0xED, 0xB8, 0x83, 0x20);
    DigitsJoined(0xED, 0xB8, 0x83, 0x20);
  }

  lemma {:induction false} DigitsSplit(r: nat, q: nat, j: nat, k: nat)
    requires r < Pow2(j)
    ensures Digits(r + Doubled(q, j), j + k) == Digits(r, j) + Digits(q, k)
    decreases j
  {
    if j == 0 {
    } else {
      var half := Doubled(q, j - 1);
      DigitsSplit(r / 2, q, j - 1, k);
      assert (r + 2 * half) / 2 == r / 2 + half && (r + 2 * half) % 2 == r % 2;
    }
  }

  function Doubled(q: nat, j: nat): nat
    decreases j
  {
    if j == 0 then q else 2 * Doubled(q, j - 1)
  }

  lemma TimesByte(q: nat)
    ensures Doubled(q, 8) == 0x100 * q
  {
    assert Doubled(q, 2) == 4 * q;
    assert Doubled(q, 4) == 16 * q;
    assert Doubled(q, 6) == 64 * q;
  }

  lemma ByteBelow(r: byte, q: nat, k: nat)
    ensures Digits(r + 0x100 * q, 8 + k) == Digits(r, 8) + Digits(q, k)
  {
    hide Digits, Doubled;
    PowersOfTwo();
    TimesByte(q);
    DigitsSplit(r, q, 8, k);
  }

  lemma DigitsJoined(a: byte, b: byte, c: byte, d: byte)
    ensures
      var n: nat := d + 0x100 * (c + 0x100 * (b + 0x100 * a));
      Digits(n, 32) == Digits(d, 8) + Digits(c, 8) + Digits(b, 8) + Digits(a, 8)
  {
    hide Digits;
    var x: nat := b + 0x100 * a;
    var y: nat := c + 0x100 * x;
    ByteBelow(d, y, 24);
    ByteBelow(c, x, 16);
    ByteBelow(b, a, 8);
  }

  lemma ShiftBits(w: bv32)
    ensures BitsOf(ShiftWord(w), 32) == Shift(BitsOf(w, 32))
  {
    PolyBits();
    HalfWord(w);
    XorWords(0xEDB8_8320, Halved(w));
    assert BitsOf(w, 32)[0] == IsOdd(w);
    hide BitsOf, IsOdd, Halved;
  }

  lemma TwoShifts(c: Word, k: nat)
    ensures Shifts(c, k + 2) == Shifts(Shift(Shift(c)), k)
  {
    hide Shift;
    assert Shifts(Shift(c), k + 1) == Shifts(Shift(Shift(c)), k);
  }

  lemma EightShiftsBits(w: bv32)
    ensures BitsOf(EightShifts(w), 32) == Shifts(BitsOf(w, 32), 8)
  {
    hide BitsOf, ShiftWord, Shift, Shifts;
    var a := ShiftWord(w);
    var b := ShiftWord(a);
    var c := ShiftWord(b);
    var d := ShiftWord(c);
    var e := ShiftWord(d);
    var f := ShiftWord(e);
    var g := ShiftWord(f);
    ShiftBits(w);
    ShiftBits(a);
    ShiftBits(b);
    ShiftBits(c);
    ShiftBits(d);
    ShiftBits(e);
    ShiftBits(f);
    ShiftBits(g);
    TwoShifts(BitsOf(w, 32), 6);
    TwoShifts(BitsOf(b, 32), 4);
    TwoShifts(BitsOf(d, 32), 2);
    TwoShifts(BitsOf(f, 32), 0);
    NoShifts(BitsOf(ShiftWord(g), 32));
  }

  lemma NoShifts(c: Word)
    ensures Shifts(c, 0) == c
  {
  }

  lemma FedBits(w: bv32, b: byte)
    ensures BitsOf(UpdateWord(w, ByteWord(b)), 32) == Update(BitsOf(w, 32), b)
  {
    hide BitsOf, EightShifts, Shifts, Update, Xor, OfByte, ByteWord, XorWord;
    UpdateIsEightShifts(BitsOf(w, 32), b);
    ByteBits(b);
    XorWords(w, ByteWord(b));
    EightShiftsBits(XorWord(w, ByteWord(b)));
  }

  /** The register of machine words is the register of binary digits, for every string. */
  lemma {:induction false} RegisterBits(w: bv32, s: seq<byte>)
    ensures BitsOf(RegisterWord(w, s), 32) == Register(BitsOf(w, 32), s)
    decreases |s|
  {
    hide BitsOf, UpdateWord, Update;
    if s == [] {
    } else {
      FedBits(w, s[0]);
      RegisterBits(UpdateWord(w, ByteWord(s[0])), s[1..]);
    }
  }

  // ---------- the checksum ----------

  lemma AllSet()
    ensures BitsOf(0xFFFF_FFFF, 32) == Ones()
  {
    assert Joined(255, 255, 255, 255) == 0xFFFF_FFFF;
    hide Joined, BitsOf, Digits;
    JoinedBits(255, 255, 255, 255);
    EightOnes();
  }

  lemma EightOnes()
    ensures Digits(255, 8) == seq(8, _ => true)
  {
    hide Digits;
    FourDigits(255, 4);
    FourDigits(15, 0);
  }

  lemma {:induction false} NumberDigits(n: nat, k: nat)
    requires n < Pow2(k)
    ensures Number(Digits(n, k)) == n
    decreases k
  {
    if k == 0 {
    } else {
      NumberDigits(n / 2, k - 1);
      assert Digits(n, k)[1..] == Digits(n / 2, k - 1);
    }
  }

  /** The checksum, from the last state of the machine word. */
  lemma CrcOfWord(s: seq<byte>, a: byte, b: byte, c: byte, d: byte)
    requires XorWord(RegisterWord(0xFFFF_FFFF, s), 0xFFFF_FFFF) == Joined(a, b, c, d)
    ensures Network(Crc(s)) == [a, b, c, d]
  {
    hide BitsOf, RegisterWord, XorWord, Joined, Digits, Network, FromNetwork, Register, Xor, Pow2;
    AllSet();
    RegisterBits(0xFFFF_FFFF, s);
    XorWords(RegisterWord(0xFFFF_FFFF, s), 0xFFFF_FFFF);
    JoinedBits(a, b, c, d);
    DigitsJoined(a, b, c, d);
    var n: nat := d + 0x100 * (c + 0x100 * (b + 0x100 * a));
    PowersOfTwo();
    NumberDigits(n, 32);
    BytesOf(a, b, c, d);
  }

  lemma {:induction false} RegisterOfTrail(s: seq<byte>, trail: seq<bv32>, i: nat)
    requires |trail| == |s| + 1 && i <= |s|
    requires forall k :: 0 <= k < |s| ==> UpdateWord(trail[k], ByteWord(s[k])) == trail[k + 1]
    ensures RegisterWord(trail[i], s[i..]) == trail[|s|]
    decreases |s| - i
  {
    hide UpdateWord;
    if i >= |s| {
    } else {
      RegisterOfTrail(s, trail, i + 1);
      assert s[i..][1..] == s[i + 1..];
    }
  }

  /** The checksum, from the states that the machine word goes through. */
  lemma CrcOfTrail(s: seq<byte>, trail: seq<bv32>, a: byte, b: byte, c: byte, d: byte)
    requires |trail| == |s| + 1 && trail[0] == 0xFFFF_FFFF
    requires forall k :: 0 <= k < |s| ==> UpdateWord(trail[k], ByteWord(s[k])) == trail[k + 1]
    requires XorWord(trail[|s|], 0xFFFF_FFFF) == Joined(a, b, c, d)
    ensures Network(Crc(s)) == [a, b, c, d]
  {
    hide UpdateWord, RegisterWord, XorWord, Joined, Network;
    RegisterOfTrail(s, trail, 0);
    assert s[0..] == s;
    CrcOfWord(s, a, b, c, d);
  }

  lemma BytesOf(a: byte, b: byte, c: byte, d: byte)
    ensures
      var n := d + 0x100 * (c + 0x100 * (b + 0x100 * a));
      n < 0x1_0000_0000 && Network(n) == [a, b, c, d]
  {
    var n: int := d + 0x100 * (c + 0x100 * (b + 0x100 * a));
    assert n == FromNetwork([a, b, c, d]);
    hide Network, FromNetwork;
    NetworkBack([a, b, c, d]);
  }
}
