/** Parity checks on checksums.  CRC-32 is linear, so the parity of any choice of bits of a register
    is the parity of a choice of bits of the string and of the register it started from.  Two such
    checks show that no header with byte 1 inverted is its own repetition. */
module Parity {
  import opened Crc32
  import opened Codec
  import opened Crc32Words

  /** The parity of the bits of `x` chosen by `m`. */
  predicate Dot(m: seq<bool>, x: seq<bool>)
    requires |m| == |x|
    decreases |m|
  {
    if m == [] then false else (m[0] && x[0]) != Dot(m[1..], x[1..])
  }

  lemma {:induction false} DotXor(m: seq<bool>, x: seq<bool>, y: seq<bool>, z: seq<bool>)
    requires |m| == |x| && Differs(x, y, z)
    ensures Dot(m, z) == (Dot(m, x) != Dot(m, y)) && Dot(z, m) == (Dot(x, m) != Dot(y, m))
    decreases |m|
  {
    if m == [] {
    } else {
      DotXor(m[1..], x[1..], y[1..], z[1..]);
    }
  }

  lemma {:induction false} DotConcat(m: seq<bool>, n: seq<bool>, x: seq<bool>, y: seq<bool>)
    requires |m| == |x| && |n| == |y|
    ensures Dot(m + n, x + y) == (Dot(m, x) != Dot(n, y))
    decreases |m|
  {
    if m == [] {
      assert m + n == n && x + y == y;
    } else {
      assert (m + n)[1..] == m[1..] + n && (x + y)[1..] == x[1..] + y;
      DotConcat(m[1..], n, x[1..], y);
    }
  }

  lemma {:induction false} DotZeros(m: seq<bool>, z: seq<bool>)
    requires |m| == |z| && forall i :: 0 <= i < |z| ==> !z[i]
    ensures !Dot(m, z) && !Dot(z, m)
    decreases |m|
  {
    if m == [] {
    } else {
      DotZeros(m[1..], z[1..]);
    }
  }

  // ---------- back through the register ----------

  /** The bits of a register whose parity becomes that of `m` by one shift. */
  function Back(m: Word): Word {
    [Dot(m, POLY)] + m[..31]
  }

  lemma DotOne(a: bool, b: bool)
    ensures Dot([a], [b]) == (a && b)
  {
    assert [a][1..] == [] && [b][1..] == [];
  }

  lemma DotHalf(m: Word, c: Word)
    ensures Dot(m, ShiftRight(c, 1)) == Dot(m[..31], c[1..])
  {
    hide Dot;
    assert m == m[..31] + [m[31]] && ShiftRight(c, 1) == c[1..] + [false];
    DotConcat(m[..31], [m[31]], c[1..], [false]);
    DotOne(m[31], false);
  }

  lemma DotBack(m: Word, c: Word)
    ensures Dot(Back(m), c) == ((Dot(m, POLY) && c[0]) != Dot(m[..31], c[1..]))
  {
    hide Dot;
    assert c == [c[0]] + c[1..];
    DotConcat([Dot(m, POLY)], m[..31], [c[0]], c[1..]);
    DotOne(Dot(m, POLY), c[0]);
  }

  lemma BackShift(m: Word, c: Word)
    ensures Dot(m, Shift(c)) == Dot(Back(m), c)
  {
    hide Dot, Back, ShiftRight, Xor;
    DotHalf(m, c);
    DotBack(m, c);
    if c[0] { DotXorWord(m, POLY, ShiftRight(c, 1)); }
  }

  lemma DotXorWord(m: Word, x: Word, y: Word)
    ensures Dot(m, Xor(x, y)) == (Dot(m, x) != Dot(m, y))
  {
    hide Dot;
    DotXor(m, x, y, Xor(x, y));
  }

  function BackEight(m: Word): Word {
    Back(Back(Back(Back(Back(Back(Back(Back(m))))))))
  }

  lemma BackShifts(m: Word, c: Word)
    ensures Dot(m, Shifts(c, 8)) == Dot(BackEight(m), c)
  {
    hide Back, Shift, Dot, Shifts;
    var c1 := Shift(c);
    var c2 := Shift(c1);
    var c3 := Shift(c2);
    var c4 := Shift(c3);
    var c5 := Shift(c4);
    var c6 := Shift(c5);
    var c7 := Shift(c6);
    TwoShifts(c, 6);
    TwoShifts(c2, 4);
    TwoShifts(c4, 2);
    TwoShifts(c6, 0);
    NoShifts(Shift(c7));
    var m1 := Back(m);
    var m2 := Back(m1);
    var m3 := Back(m2);
    var m4 := Back(m3);
    var m5 := Back(m4);
    var m6 := Back(m5);
    var m7 := Back(m6);
    BackShift(m, c7);
    BackShift(m1, c6);
    BackShift(m2, c5);
    BackShift(m3, c4);
    BackShift(m4, c3);
    BackShift(m5, c2);
    BackShift(m6, c1);
    BackShift(m7, c);
  }

  lemma BackByte(m: Word, c: Word, b: byte)
    ensures Dot(m, Update(c, b)) == (Dot(BackEight(m), c) != Dot(BackEight(m)[..8], Digits(b, 8)))
  {
    hide BackEight, Update, Shifts, Digits;
    var k := BackEight(m);
    UpdateIsEightShifts(c, b);
    BackShifts(m, Xor(c, OfByte(b)));
    assert Differs(c, OfByte(b), Xor(c, OfByte(b)));
    DotXor(k, c, OfByte(b), Xor(c, OfByte(b)));
    assert k == k[..8] + k[8..];
    DotConcat(k[..8], k[8..], Digits(b, 8), Zeros(24));
    DotZeros(k[8..], Zeros(24));
  }

  /** The parity, over a string, of the bits chosen by the low byte of one word for each byte. */
  predicate Chosen(trail: seq<bv32>, s: seq<byte>)
    requires |trail| == |s|
    decreases |s|
  {
    if s == [] then false else Dot(BitsOf(trail[0], 8), Digits(s[0], 8)) != Chosen(trail[1..], s[1..])
  }

  /** A register's parity, from the string it has read and the register before.  The words are those
      of the last one, taken back byte by byte. */
  lemma {:induction false} RegisterParity(c: Word, s: seq<byte>, trail: seq<bv32>)
    requires |trail| == |s| + 1
    requires forall k :: 0 <= k < |s| ==> BitsOf(trail[k], 32) == BackEight(BitsOf(trail[k + 1], 32))
    ensures Dot(BitsOf(trail[|s|], 32), Register(c, s)) ==
            (Dot(BitsOf(trail[0], 32), c) != Chosen(trail[..|s|], s))
    decreases |s|
  {
    hide BitsOf, BackEight, Dot, Update, Digits;
    if s == [] {
    } else {
      RegisterParity(Update(c, s[0]), s[1..], trail[1..]);
      BackByte(BitsOf(trail[1], 32), c, s[0]);
      BitsSplit(trail[0], 8, 24);
      assert BitsOf(trail[0], 32)[..8] == BitsOf(trail[0], 8);
      assert trail[1..][..|s| - 1] == trail[..|s|][1..];
    }
  }

  // ---------- on machine words ----------

  /** The bits of the polynomial, byte by byte, the low byte first. */
  predicate Tap20(w: bv32) { IsOdd(Halved(Down4(w))) }

  predicate Tap83(w: bv32) { (IsOdd(w) != IsOdd(Halved(w))) != IsOdd(Halved(Quarter(Down4(w)))) }

  predicate TapB8(w: bv32) {
    var x := Down4(w);
    (IsOdd(Halved(Quarter(w))) != IsOdd(x)) != (IsOdd(Halved(x)) != IsOdd(Halved(Quarter(x))))
  }

  predicate TapED(w: bv32) {
    var x := Down4(w);
    ((IsOdd(w) != IsOdd(Quarter(w))) != IsOdd(Halved(Quarter(w)))) !=
    ((IsOdd(Halved(x)) != IsOdd(Quarter(x))) != IsOdd(Halved(Quarter(x))))
  }

  /** The same of a whole word, each byte's bits moved to the lowest place. */
  function Low20(w: bv32): bv32 { w >> 5 }

  function Low83(w: bv32): bv32 { (w >> 8) ^ (w >> 9) ^ (w >> 15) }

  function LowB8(w: bv32): bv32 { (w >> 19) ^ (w >> 20) ^ (w >> 21) ^ (w >> 23) }

  function LowED(w: bv32): bv32 {
    (w >> 24) ^ (w >> 26) ^ (w >> 27) ^ (w >> 29) ^ (w >> 30) ^ (w >> 31)
  }

  predicate Tap(w: bv32) {
    (Low20(w) ^ Low83(w) ^ LowB8(w) ^ LowED(w)) & 1 == 1
  }

  lemma TapsByByte(w: bv32)
    ensures IsOdd(Low20(w)) == Tap20(w) && IsOdd(Low83(w)) == Tap83(Down8(w))
    ensures IsOdd(LowB8(w)) == TapB8(Down8(Down8(w))) && IsOdd(LowED(w)) == TapED(Down8(Down8(Down8(w))))
  {
  }

  lemma OddXor(a: bv32, b: bv32, c: bv32, d: bv32)
    ensures (a ^ b ^ c ^ d) & 1 == 1 <==> (((IsOdd(a) != IsOdd(b)) != IsOdd(c)) != IsOdd(d))
  {
  }

  lemma TapIs(w: bv32)
    ensures Tap(w) == (((Tap20(w) != Tap83(Down8(w))) != TapB8(Down8(Down8(w)))) != TapED(Down8(Down8(Down8(w)))))
  {
    hide IsOdd, Tap20, Tap83, TapB8, TapED, Down8, Low20, Low83, LowB8, LowED;
    TapsByByte(w);
    OddXor(Low20(w), Low83(w), LowB8(w), LowED(w));
  }

  function BackWord(w: bv32): bv32 {
    (w << 1) ^ (if Tap(w) then 1 else 0)
  }

  function EightBacks(w: bv32): bv32 {
    BackWord(BackWord(BackWord(BackWord(BackWord(BackWord(BackWord(BackWord(w))))))))
  }

  lemma DotFour(a: bool, b: bool, c: bool, d: bool, p: bool, q: bool, r: bool, s: bool)
    ensures Dot([a, b, c, d], [p, q, r, s]) == (((a && p) != (b && q)) != ((c && r) != (d && s)))
  {
    hide Dot;
    DotOne(a, p);
    DotOne(b, q);
    DotOne(c, r);
    DotOne(d, s);
    DotConcat([a], [b], [p], [q]);
    DotConcat([c], [d], [r], [s]);
    DotConcat([a, b], [c, d], [p, q], [r, s]);
    assert [a] + [b] == [a, b] && [p] + [q] == [p, q] && [c] + [d] == [c, d] && [r] + [s] == [r, s];
    assert [a, b] + [c, d] == [a, b, c, d] && [p, q] + [r, s] == [p, q, r, s];
  }

  lemma DotLists(a: bool, b: bool, c: bool, d: bool, e: bool, f: bool, g: bool, h: bool,
                 p: bool, q: bool, r: bool, s: bool, t: bool, u: bool, v: bool, w: bool)
    ensures Dot([a, b, c, d, e, f, g, h], [p, q, r, s, t, u, v, w]) ==
      ((((a && p) != (b && q)) != ((c && r) != (d && s))) != (((e && t) != (f && u)) != ((g && v) != (h && w))))
  {
    hide Dot;
    DotFour(a, b, c, d, p, q, r, s);
    DotFour(e, f, g, h, t, u, v, w);
    DotConcat([a, b, c, d], [e, f, g, h], [p, q, r, s], [t, u, v, w]);
    assert [a, b, c, d] + [e, f, g, h] == [a, b, c, d, e, f, g, h];
    assert [p, q, r, s] + [t, u, v, w] == [p, q, r, s, t, u, v, w];
  }

  lemma NibbleList(n: nat)
    requires n < 16
    ensures Digits(n, 4) == [n % 2 == 1, n / 2 % 2 == 1, n / 2 / 2 % 2 == 1, n / 2 / 2 / 2 % 2 == 1]
  {
    hide Digits;
    FourDigits(n, 0);
    assert Digits(n / 2 / 2 / 2 / 2, 0) == [];
  }

  lemma Nibbles(b: byte, h: nat, l: nat)
    requires b == 16 * h + l && l < 16
    ensures b / 16 == h && b % 16 == l
  {
  }

  /** The digits of a byte, from its two nibbles. */
  lemma NibblesOf(b: byte, h: nat, l: nat)
    requires b == 16 * h + l && l < 16
    ensures Digits(b, 8) == Digits(l, 4) + Digits(h, 4)
  {
    hide Digits;
    Nibbles(b, h, l);
    DigitsOfByte(b);
  }

  lemma PolyDigits()
    ensures Digits(0x20, 8) == [false, false, false, false, false, true, false, false]
    ensures Digits(0x83, 8) == [true, true, false, false, false, false, false, true]
    ensures Digits(0xB8, 8) == [false, false, false, true, true, true, false, true]
    ensures Digits(0xED, 8) == [true, false, true, true, false, true, true, true]
  {
    hide Digits;
    NibblesOf(0x20, 2, 0);
    NibblesOf(0x83, 8, 3);
    NibblesOf(0xB8, 11, 8);
    NibblesOf(0xED, 14, 13);
    NibbleList(0);
    NibbleList(2);
    NibbleList(3);
    NibbleList(8);
    NibbleList(11);
    NibbleList(13);
    NibbleList(14);
  }

  lemma Tap20OfByte(w: bv32)
    ensures Dot(BitsOf(w, 8), Digits(0x20, 8)) == Tap20(w)
  {
    hide Digits, Dot, BitsOf, IsOdd, Halved, Quarter, Down4;
    PolyDigits();
    LowEight(w);
    var x := Down4(w);
    DotLists(IsOdd(w), IsOdd(Halved(w)), IsOdd(Quarter(w)), IsOdd(Halved(Quarter(w))),
             IsOdd(x), IsOdd(Halved(x)), IsOdd(Quarter(x)), IsOdd(Halved(Quarter(x))),
             false, false, false, false, false, true, false, false);
  }

  lemma Tap83OfByte(w: bv32)
    ensures Dot(BitsOf(w, 8), Digits(0x83, 8)) == Tap83(w)
  {
    hide Digits, Dot, BitsOf, IsOdd, Halved, Quarter, Down4;
    PolyDigits();
    LowEight(w);
    var x := Down4(w);
    DotLists(IsOdd(w), IsOdd(Halved(w)), IsOdd(Quarter(w)), IsOdd(Halved(Quarter(w))),
             IsOdd(x), IsOdd(Halved(x)), IsOdd(Quarter(x)), IsOdd(Halved(Quarter(x))),
             true, true, false, false, false, false, false, true);
  }

  lemma TapB8OfByte(w: bv32)
    ensures Dot(BitsOf(w, 8), Digits(0xB8, 8)) == TapB8(w)
  {
    hide Digits, Dot, BitsOf, IsOdd, Halved, Quarter, Down4;
    PolyDigits();
    LowEight(w);
    var x := Down4(w);
    DotLists(IsOdd(w), IsOdd(Halved(w)), IsOdd(Quarter(w)), IsOdd(Halved(Quarter(w))),
             IsOdd(x), IsOdd(Halved(x)), IsOdd(Quarter(x)), IsOdd(Halved(Quarter(x))),
             false, false, false, true, true, true, false, true);
  }

  lemma TapEDOfByte(w: bv32)
    ensures Dot(BitsOf(w, 8), Digits(0xED, 8)) == TapED(w)
  {
    hide Digits, Dot, BitsOf, IsOdd, Halved, Quarter, Down4;
    PolyDigits();
    LowEight(w);
    var x := Down4(w);
    DotLists(IsOdd(w), IsOdd(Halved(w)), IsOdd(Quarter(w)), IsOdd(Halved(Quarter(w))),
             IsOdd(x), IsOdd(Halved(x)), IsOdd(Quarter(x)), IsOdd(Halved(Quarter(x))),
             true, false, true, true, false, true, true, true);
  }

  lemma TapIsDot(w: bv32)
    ensures Dot(BitsOf(w, 32), POLY) == Tap(w)
  {
    hide Digits, Dot, BitsOf, Tap, Tap20, Tap83, TapB8, TapED, Down8;
    TapIs(w);
    var b := Down8(w);
    var c := Down8(b);
    var d := Down8(c);
    FourBytes(w);
    DigitsJoined(0xED, 0xB8, 0x83, 0x20);
    Tap20OfByte(w);
    Tap83OfByte(b);
    TapB8OfByte(c);
    TapEDOfByte(d);
    DotConcat(BitsOf(w, 8), BitsOf(b, 8), Digits(0x20, 8), Digits(0x83, 8));
    DotConcat(BitsOf(w, 8) + BitsOf(b, 8), BitsOf(c, 8), Digits(0x20, 8) + Digits(0x83, 8), Digits(0xB8, 8));
    DotConcat(BitsOf(w, 8) + BitsOf(b, 8) + BitsOf(c, 8), BitsOf(d, 8),
              Digits(0x20, 8) + Digits(0x83, 8) + Digits(0xB8, 8), Digits(0xED, 8));
  }

  function TopOnly(w: bv32): bv32 { w & 0x8000_0000 }

  lemma HalfOfBack(w: bv32)
    ensures Halved(BackWord(w)) == XorWord(w, TopOnly(w)) && IsOdd(BackWord(w)) == Tap(w)
    ensures TopOnly(w) == 0 || TopOnly(w) == 0x8000_0000
  {
    hide Tap;
  }

  lemma TopWord()
    ensures Joined(0x80, 0, 0, 0) == 0x8000_0000
  {
  }

  lemma LowOfTop(d: seq<bool>)
    requires d == Zeros(8) + Zeros(8) + Zeros(8) + [false, false, false, false, false, false, false, true]
    ensures d[..31] == Zeros(31)
  {
  }

  lemma TopDigits()
    ensures Digits(0x80, 8) == [false, false, false, false, false, false, false, true]
  {
    hide Digits;
    NibblesOf(0x80, 8, 0);
    NibbleList(0);
    NibbleList(8);
  }

  lemma TopBits(w: bv32)
    requires w == 0 || w == 0x8000_0000
    ensures BitsOf(w, 31) == Zeros(31)
  {
    hide BitsOf, Joined, Digits, ShiftedDown;
    if w == 0 {
      ZeroBits(31);
    } else {
      TopWord();
      JoinedBits(0x80, 0, 0, 0);
      ZeroDigits(8);
      TopDigits();
      LowOfTop(BitsOf(w, 32));
      BitsSplit(w, 31, 1);
    }
  }

  lemma SameIfZeros(x: seq<bool>, z: seq<bool>, y: seq<bool>)
    requires Differs(x, z, y) && z == Zeros(|z|)
    ensures x == y
  {
  }

  lemma BackBits(w: bv32)
    ensures BitsOf(BackWord(w), 32) == Back(BitsOf(w, 32))
  {
    hide Dot, BitsOf, BackWord, IsOdd, Halved, TopOnly, XorWord, Tap;
    var x := BackWord(w);
    HalfOfBack(w);
    FirstBit(x, 31);
    TapIsDot(w);
    XorBits(w, TopOnly(w), 31);
    TopBits(TopOnly(w));
    SameIfZeros(BitsOf(w, 31), BitsOf(TopOnly(w), 31), BitsOf(Halved(x), 31));
    BitsSplit(w, 31, 1);
    assert BitsOf(w, 32)[..31] == BitsOf(w, 31);
  }

  lemma EightBacksBits(w: bv32)
    ensures BitsOf(EightBacks(w), 32) == BackEight(BitsOf(w, 32))
  {
    hide BitsOf, BackWord, Back;
    var a := BackWord(w);
    var b := BackWord(a);
    var c := BackWord(b);
    var d := BackWord(c);
    var e := BackWord(d);
    var f := BackWord(e);
    var g := BackWord(f);
    BackBits(w);
    BackBits(a);
    BackBits(b);
    BackBits(c);
    BackBits(d);
    BackBits(e);
    BackBits(f);
    BackBits(g);
  }

  // ---------- sums over bytes ----------

  /** The parity of the bits of a byte chosen by the low byte of a word. */
  predicate Parity(w: bv32, y: byte) {
    Dot(BitsOf(w, 8), Digits(y, 8))
  }

  lemma ParityXor(v: bv32, w: bv32, y: byte)
    ensures Parity(XorWord(v, w), y) == (Parity(v, y) != Parity(w, y))
  {
    hide Dot, BitsOf, Digits, XorWord;
    XorBits(v, w, 8);
    DotXor(Digits(y, 8), BitsOf(v, 8), BitsOf(w, 8), BitsOf(XorWord(v, w), 8));
  }

  function Folded(ws: seq<bv32>): bv32
    decreases |ws|
  {
    if ws == [] then 0 else XorWord(ws[0], Folded(ws[1..]))
  }

  predicate AllAre(s: seq<byte>, y: byte) {
    forall k :: 0 <= k < |s| ==> s[k] == y
  }

  /** Over a byte repeated, the words may be added up first. */
  lemma {:induction false} ChosenRepeated(ws: seq<bv32>, s: seq<byte>, y: byte)
    requires |ws| == |s| && AllAre(s, y)
    ensures Chosen(ws, s) == Parity(Folded(ws), y)
    decreases |s|
  {
    hide Dot, BitsOf, Digits, XorWord;
    if s == [] {
      ZeroBits(8);
      DotZeros(Digits(y, 8), BitsOf(0, 8));
    } else {
      ChosenRepeated(ws[1..], s[1..], y);
      ParityXor(ws[0], Folded(ws[1..]), y);
    }
  }

  /** A header whose first two bytes are followed by repetitions of one. */
  lemma ChosenHeader(ws: seq<bv32>, s: seq<byte>, y: byte)
    requires |ws| == |s| >= 2 && AllAre(s[2..], y)
    ensures Chosen(ws, s) == (Parity(ws[0], s[0]) != (Parity(ws[1], s[1]) != Parity(Folded(ws[2..]), y)))
  {
    hide Dot, BitsOf, Digits, Folded;
    assert ws[1..][1..] == ws[2..] && s[1..][1..] == s[2..];
    ChosenRepeated(ws[2..], s[2..], y);
  }

  /** The parity of the bits of `y` chosen by `x`. */
  predicate Of(x: byte, y: byte) {
    Dot(Digits(x, 8), Digits(y, 8))
  }

  lemma ParityOf(w: bv32, x: byte, y: byte)
    requires Low8(w) == ByteWord(x)
    ensures Parity(w, y) == Of(x, y)
  {
    hide Dot, BitsOf, Digits, Low8, ByteWord;
    LowByteBits(w, x);
  }

  lemma FourParities(a: byte, b: byte, c: byte, d: byte, p: byte, q: byte, r: byte, s: byte)
    ensures Dot(Digits(d, 8) + Digits(c, 8) + Digits(b, 8) + Digits(a, 8),
                Digits(s, 8) + Digits(r, 8) + Digits(q, 8) + Digits(p, 8)) ==
            (((Of(d, s) != Of(c, r)) != Of(b, q)) != Of(a, p))
  {
    hide Dot, Digits;
    DotConcat(Digits(d, 8), Digits(c, 8), Digits(s, 8), Digits(r, 8));
    DotConcat(Digits(d, 8) + Digits(c, 8), Digits(b, 8), Digits(s, 8) + Digits(r, 8), Digits(q, 8));
    DotConcat(Digits(d, 8) + Digits(c, 8) + Digits(b, 8), Digits(a, 8),
              Digits(s, 8) + Digits(r, 8) + Digits(q, 8), Digits(p, 8));
  }

  lemma OfZero(y: byte)
    ensures !Of(0, y) && !Of(y, 0)
  {
    hide Dot, Digits;
    ZeroDigits(8);
    DotZeros(Digits(y, 8), Digits(0, 8));
  }

  // ---------- checksums ----------

  lemma {:induction false} DigitsOfNumber(d: seq<bool>)
    ensures Digits(Number(d), |d|) == d
    decreases |d|
  {
    if d == [] {
    } else {
      DigitsOfNumber(d[1..]);
    }
  }

  function Finished(s: seq<byte>): Word {
    Xor(Register(Ones(), s), Ones())
  }

  lemma WordOfCrc(s: seq<byte>)
    ensures
      var n := Network(Crc(s));
      Finished(s) == Digits(n[3], 8) + Digits(n[2], 8) + Digits(n[1], 8) + Digits(n[0], 8)
  {
    hide Digits, Register, Xor, Number, Network, FromNetwork;
    var n := Network(Crc(s));
    PowersOfTwo();
    DigitsOfNumber(Finished(s));
    NetworkRoundTrip(Crc(s));
    DigitsJoined(n[0], n[1], n[2], n[3]);
    SumOf(n);
  }

  lemma SumOf(n: seq<byte>)
    requires |n| == 4
    ensures
      var a: int, b: int, c: int, d: int := n[0], n[1], n[2], n[3];
      FromNetwork(n) == d + 0x100 * (c + 0x100 * (b + 0x100 * a))
  {
  }

  /** The parity of the bits of a checksum chosen by a word `last`, which the trail takes back through
      the string. */
  lemma CrcParity(s: seq<byte>, trail: seq<bv32>)
    requires |trail| == |s| + 1
    requires forall k :: 0 <= k < |s| ==> trail[k] == EightBacks(trail[k + 1])
    ensures Dot(BitsOf(trail[|s|], 32), Finished(s)) ==
            (Dot(BitsOf(XorWord(trail[0], trail[|s|]), 32), Ones()) != Chosen(trail[..|s|], s))
  {
    hide BitsOf, Dot, Register, Chosen, XorWord, EightBacks, BackEight, Ones;
    forall k | 0 <= k < |s| ensures BitsOf(trail[k], 32) == BackEight(BitsOf(trail[k + 1], 32)) {
      EightBacksBits(trail[k + 1]);
    }
    RegisterParity(Ones(), s, trail);
    var m, r := BitsOf(trail[|s|], 32), Register(Ones(), s);
    assert Differs(r, Ones(), Finished(s));
    DotXor(m, r, Ones(), Finished(s));
    XorBits(trail[0], trail[|s|], 32);
    DotXor(Ones(), BitsOf(trail[0], 32), m, BitsOf(XorWord(trail[0], trail[|s|]), 32));
  }

  lemma OnesAre()
    ensures Ones() == Digits(255, 8) + Digits(255, 8) + Digits(255, 8) + Digits(255, 8)
  {
    hide Digits;
    EightOnes();
  }

  // ---------- acknowledgments ----------

  /** Bits of the checksum of the header, and of the one seen when byte 1 is inverted, taken back. */
  const SENT: seq<bv32> :=
    [0x518C_F0D0, 0xB251_8CF0, 0xA4B2_518C, 0x0DA4_B251, 0x160D_A4B2,
     0x0016_0DA4, 0x0000_160D, 0xD500_0016]

  const SEEN: seq<bv32> :=
    [0xD87C_A7F0, 0xD4D8_7CA7, 0x59D4_D87C, 0xAF59_D4D8, 0x95AF_59D4,
     0x0095_AF59, 0x1600_95AF, 0x0016_0095, 0x0000_1600]

  lemma SentSteps()
    ensures EightBacks(0xB251_8CF0) == 0x518C_F0D0
    ensures EightBacks(0xA4B2_518C) == 0xB251_8CF0
    ensures EightBacks(0x0DA4_B251) == 0xA4B2_518C
    ensures EightBacks(0x160D_A4B2) == 0x0DA4_B251
    ensures EightBacks(0x0016_0DA4) == 0x160D_A4B2
    ensures EightBacks(0x0000_160D) == 0x0016_0DA4
    ensures EightBacks(0xD500_0016) == 0x0000_160D
  {
  }

  lemma SeenSteps()
    ensures EightBacks(0xD4D8_7CA7) == 0xD87C_A7F0
    ensures EightBacks(0x59D4_D87C) == 0xD4D8_7CA7
    ensures EightBacks(0xAF59_D4D8) == 0x59D4_D87C
    ensures EightBacks(0x95AF_59D4) == 0xAF59_D4D8
    ensures EightBacks(0x0095_AF59) == 0x95AF_59D4
    ensures EightBacks(0x1600_95AF) == 0x0095_AF59
    ensures EightBacks(0x0016_0095) == 0x1600_95AF
    ensures EightBacks(0x0000_1600) == 0x0016_0095
  {
  }

  lemma AckWords()
    ensures XorWord(XorWord(0x518C_F0D0, 0xD500_0016), XorWord(0xD87C_A7F0, 0x0000_1600)) ==
            Joined(0x5C, 0xF0, 0x41, 0x36)
    ensures 0xD500_0016 == Joined(0xD5, 0, 0, 0x16) && 0x0000_1600 == Joined(0, 0, 0x16, 0)
  {
  }

  lemma AckBytes()
    ensures Low8(XorWord(0x518C_F0D0, 0xD87C_A7F0)) == ByteWord(0x20)
    ensures Low8(0xD4D8_7CA7) == ByteWord(0xA7)
  {
  }

  lemma AckFolds()
    ensures Folded(SENT[2..7]) == 0xBF0D_5CC6 && Folded(SEEN[2..8]) == 0x75A1_6F13
  {
    Folds5(SENT[2..7]);
    Folds5(SEEN[3..8]);
    assert SEEN[2..8][1..] == SEEN[3..8];
  }

  lemma Folds5(w: seq<bv32>)
    requires |w| == 5
    ensures Folded(w) == XorWord(w[0], XorWord(w[1], XorWord(w[2], XorWord(w[3], w[4]))))
  {
    hide XorWord;
    var a, b, c, d := w[1..], w[2..], w[3..], w[4..];
    assert a[1..] == b && b[1..] == c && c[1..] == d && d[1..] == [];
    XorZeroWord(w[4]);
    assert Folded(d) == w[4];
    assert Folded(c) == XorWord(w[3], Folded(d));
    assert Folded(b) == XorWord(w[2], Folded(c));
    assert Folded(a) == XorWord(w[1], Folded(b));
  }

  lemma XorZeroWord(w: bv32)
    ensures XorWord(w, 0) == w
  {
  }

  /** The parities of single bytes that the certificates need. */
  lemma SomeParities()
    ensures Of(0xA7, 255) && !Of(0x36, 255) && !Of(0x41, 255) && !Of(0xF0, 255) && !Of(0x5C, 255)
  {
    hide Digits, Dot;
    OfNibbles(0xA7, 10, 7, 255, 15, 15);
    OfNibbles(0x36, 3, 6, 255, 15, 15);
    OfNibbles(0x41, 4, 1, 255, 15, 15);
    OfNibbles(0xF0, 15, 0, 255, 15, 15);
    OfNibbles(0x5C, 5, 12, 255, 15, 15);
  }

  predicate OfNibble(n: nat, m: nat) {
    (((n % 2 == 1 && m % 2 == 1) != (n / 2 % 2 == 1 && m / 2 % 2 == 1)) !=
     ((n / 2 / 2 % 2 == 1 && m / 2 / 2 % 2 == 1) != (n / 2 / 2 / 2 % 2 == 1 && m / 2 / 2 / 2 % 2 == 1)))
  }

  lemma OfNibbles(x: byte, h: nat, l: nat, y: byte, i: nat, j: nat)
    requires x == 16 * h + l && l < 16 && y == 16 * i + j && j < 16
    ensures Of(x, y) == (OfNibble(l, j) != OfNibble(h, i))
  {
    hide Digits, Dot;
    NibblesOf(x, h, l);
    NibblesOf(y, i, j);
    DotConcat(Digits(l, 4), Digits(h, 4), Digits(j, 4), Digits(i, 4));
    NibbleDot(l, j);
    NibbleDot(h, i);
  }

  lemma NibbleDot(n: nat, m: nat)
    requires n < 16 && m < 16
    ensures Dot(Digits(n, 4), Digits(m, 4)) == OfNibble(n, m)
  {
    hide Digits, Dot;
    NibbleList(n);
    NibbleList(m);
    DotFour(n % 2 == 1, n / 2 % 2 == 1, n / 2 / 2 % 2 == 1, n / 2 / 2 / 2 % 2 == 1,
            m % 2 == 1, m / 2 % 2 == 1, m / 2 / 2 % 2 == 1, m / 2 / 2 / 2 % 2 == 1);
  }

  /** The TR bit of byte 0. */
  lemma TrParity(b: byte)
    ensures Of(0x20, b) == (b / 32 % 2 == 1)
  {
    hide Digits, Dot, OfNibble;
    var h, l := b / 16, b % 16;
    OfNibbles(0x20, 2, 0, b, h, l);
    NoBits(l);
    SecondBit(h);
    assert b / 32 == h / 2;
  }

  lemma NoBits(m: nat)
    ensures !OfNibble(0, m)
  {
  }

  lemma SecondBit(m: nat)
    ensures OfNibble(2, m) == (m / 2 % 2 == 1)
  {
  }

  function SentHeader(b: byte, s: byte): seq<byte> { [b, 0, s, s, s, s, s] }

  function SeenHeader(b: byte, s: byte): seq<byte> { [b, 255, s, s, s, s, s, s] }

  lemma ParityOfNothing(w: bv32)
    ensures !Parity(w, 0)
  {
    hide Digits, Dot, BitsOf;
    ZeroDigits(8);
    DotZeros(BitsOf(w, 8), Digits(0, 8));
  }

  lemma SentParity(b: byte, s: byte)
    ensures
      var n := Network(Crc(SentHeader(b, s)));
      (Of(0x16, n[3]) != Of(0xD5, n[0])) ==
      (Dot(BitsOf(XorWord(SENT[0], SENT[7]), 32), Ones()) != (Parity(SENT[0], b) != Parity(0xBF0D_5CC6, s)))
  {
    hide Digits, Dot, BitsOf, XorWord, Joined, EightBacks, Network, Crc, Ones, Finished, Chosen, Of, Parity, Folded;
    var h := SentHeader(b, s);
    var n := Network(Crc(h));
    SentSteps();
    AckWords();
    CrcParity(h, SENT);
    WordOfCrc(h);
    JoinedBits(0xD5, 0, 0, 0x16);
    FourParities(0xD5, 0, 0, 0x16, n[0], n[1], n[2], n[3]);
    OfZero(n[1]);
    OfZero(n[2]);
    ChosenHeader(SENT[..7], h, s);
    AckFolds();
    ParityOfNothing(SENT[1]);
    assert SENT[..7][2..] == SENT[2..7];
  }

  lemma SeenParity(b: byte, s: byte)
    ensures
      var n := Network(Crc(SeenHeader(b, s)));
      Of(0x16, n[2]) ==
      (Dot(BitsOf(XorWord(SEEN[0], SEEN[8]), 32), Ones()) !=
       (Parity(SEEN[0], b) != (Parity(SEEN[1], 255) != Parity(0x75A1_6F13, s))))
  {
    hide Digits, Dot, BitsOf, XorWord, Joined, EightBacks, Network, Crc, Ones, Finished, Chosen, Of, Parity, Folded;
    var h := SeenHeader(b, s);
    var n := Network(Crc(h));
    SeenSteps();
    AckWords();
    CrcParity(h, SEEN);
    WordOfCrc(h);
    JoinedBits(0, 0, 0x16, 0);
    FourParities(0, 0, 0x16, 0, n[0], n[1], n[2], n[3]);
    OfZero(n[0]);
    OfZero(n[1]);
    OfZero(n[3]);
    ChosenHeader(SEEN[..8], h, s);
    AckFolds();
    assert SEEN[..8][2..] == SEEN[2..8];
  }

  /** What the two parities add up to. */
  lemma AckSum(b: byte, s: byte)
    requires b / 32 % 2 == 0
    ensures
      (Dot(BitsOf(XorWord(SENT[0], SENT[7]), 32), Ones()) !=
       Dot(BitsOf(XorWord(SEEN[0], SEEN[8]), 32), Ones())) == false
    ensures (Parity(SENT[0], b) != Parity(SEEN[0], b)) == false && Parity(SEEN[1], 255)
    ensures (Parity(0xBF0D_5CC6, s) != Parity(0x75A1_6F13, s)) == Of(0xD5, s)
  {
    hide Digits, Dot, BitsOf, XorWord, Joined, Ones, Of, Parity, Low8, ByteWord;
    AckWords();
    AckBytes();
    SomeParities();
    var v, w := XorWord(SENT[0], SENT[7]), XorWord(SEEN[0], SEEN[8]);
    XorBits(v, w, 32);
    DotXor(Ones(), BitsOf(v, 32), BitsOf(w, 32), BitsOf(XorWord(v, w), 32));
    JoinedBits(0x5C, 0xF0, 0x41, 0x36);
    OnesAre();
    FourParities(0x5C, 0xF0, 0x41, 0x36, 255, 255, 255, 255);
    ParityXor(SENT[0], SEEN[0], b);
    ParityOf(XorWord(SENT[0], SEEN[0]), 0x20, b);
    TrParity(b);
    ParityOf(SEEN[1], 0xA7, 255);
    ParityXor(0xBF0D_5CC6, 0x75A1_6F13, s);
    FoldsAre();
    ParityOf(XorWord(0xBF0D_5CC6, 0x75A1_6F13), 0xD5, s);
  }

  lemma FoldsAre()
    ensures Low8(XorWord(0xBF0D_5CC6, 0x75A1_6F13)) == ByteWord(0xD5)
  {
  }

  /** A header with length 0, TR clear and one byte repeated, whose checksum starts with that byte
      too: the checksum of the same with 255 for the length and the byte once more does not go on as
      the first does. */
  lemma AckNeverRepeats(b: byte, s: byte)
    requires b / 32 % 2 == 0
    ensures
      var n, m := Network(Crc(SentHeader(b, s))), Network(Crc(SeenHeader(b, s)));
      !(n[0] == s && m[..3] == n[1..])
  {
    hide Dot, BitsOf, XorWord, Ones, Of, Parity, Network, Crc, SentHeader, SeenHeader;
    SentParity(b, s);
    SeenParity(b, s);
    AckSum(b, s);
    var n, m := Network(Crc(SentHeader(b, s))), Network(Crc(SeenHeader(b, s)));
    assert m[..3] == n[1..] ==> m[2] == m[..3][2] == n[1..][2] == n[3];
  }

  // ---------- DATA ----------

  const FULL: seq<bv32> :=
    [0x051C_F840, 0x3705_1CF8, 0x1E37_051C, 0x071E_3705, 0x0007_1E37,
     0x0000_071E, 0x0000_0007, 0x5100_0000]

  lemma FullSteps()
    ensures EightBacks(0x3705_1CF8) == 0x051C_F840
    ensures EightBacks(0x1E37_051C) == 0x3705_1CF8
    ensures EightBacks(0x071E_3705) == 0x1E37_051C
    ensures EightBacks(0x0007_1E37) == 0x071E_3705
    ensures EightBacks(0x0000_071E) == 0x0007_1E37
    ensures EightBacks(0x0000_0007) == 0x0000_071E
    ensures EightBacks(0x5100_0000) == 0x0000_0007
  {
  }

  function FullHeader(b: byte): seq<byte> { [b, 127, 127, 127, 127, 127, 127] }

  lemma FullWords()
    ensures XorWord(0x051C_F840, 0x5100_0000) == Joined(0x54, 0x1C, 0xF8, 0x40)
    ensures 0x5100_0000 == Joined(0x51, 0, 0, 0)
    ensures Low8(0x051C_F840) == ByteWord(0x40)
    ensures Low8(0x2E2B_37CF) == ByteWord(0xCF)
  {
  }

  lemma FullFolds()
    ensures Folded(FULL[1..7]) == 0x2E2B_37CF
  {
    Folds5(FULL[2..7]);
    assert FULL[1..7][1..] == FULL[2..7];
  }

  lemma FullParities()
    ensures Of(0x40, 255) && Of(0xF8, 255) && Of(0x1C, 255) && Of(0x54, 255)
    ensures Of(0xCF, 127) && Of(0x51, 127)
  {
    hide Digits, Dot;
    OfNibbles(0x40, 4, 0, 255, 15, 15);
    OfNibbles(0xF8, 15, 8, 255, 15, 15);
    OfNibbles(0x1C, 1, 12, 255, 15, 15);
    OfNibbles(0x54, 5, 4, 255, 15, 15);
    OfNibbles(0xCF, 12, 15, 127, 7, 15);
    OfNibbles(0x51, 5, 1, 127, 7, 15);
  }

  /** The low bit of the type. */
  lemma TypeParity(b: byte)
    ensures Of(0x40, b) == (b / 64 % 2 == 1)
  {
    hide Digits, Dot, OfNibble;
    var h, l := b / 16, b % 16;
    OfNibbles(0x40, 4, 0, b, h, l);
    NoBits(l);
    ThirdBit(h);
    assert b / 64 == h / 2 / 2;
  }

  lemma ThirdBit(m: nat)
    ensures OfNibble(4, m) == (m / 2 / 2 % 2 == 1)
  {
  }

  /** A DATA header all of whose other bytes are 127 has no checksum that starts with 127. */
  lemma DataNeverRepeats(b: byte)
    requires b / 64 == 1
    ensures Network(Crc(FullHeader(b)))[0] != 127
  {
    hide Digits, Dot, BitsOf, XorWord, Joined, EightBacks, Network, Crc, Ones, Finished, Chosen, Of, Parity, Folded;
    hide Low8, ByteWord;
    var h := FullHeader(b);
    var n := Network(Crc(h));
    FullSteps();
    FullWords();
    CrcParity(h, FULL);
    WordOfCrc(h);
    JoinedBits(0x51, 0, 0, 0);
    FourParities(0x51, 0, 0, 0, n[0], n[1], n[2], n[3]);
    OfZero(n[1]);
    OfZero(n[2]);
    OfZero(n[3]);
    JoinedBits(0x54, 0x1C, 0xF8, 0x40);
    OnesAre();
    FourParities(0x54, 0x1C, 0xF8, 0x40, 255, 255, 255, 255);
    FullParities();
    assert FULL[..7][1..] == FULL[1..7] && h[1..] == [127, 127, 127, 127, 127, 127];
    ChosenFirst(FULL[..7], h, 127);
    FullFolds();
    ParityOf(FULL[0], 0x40, b);
    TypeParity(b);
    ParityOf(0x2E2B_37CF, 0xCF, 127);
  }

  lemma ChosenFirst(ws: seq<bv32>, s: seq<byte>, y: byte)
    requires |ws| == |s| >= 1 && AllAre(s[1..], y)
    ensures Chosen(ws, s) == (Parity(ws[0], s[0]) != Parity(Folded(ws[1..]), y))
  {
    hide Dot, BitsOf, Digits, Folded;
    ChosenRepeated(ws[1..], s[1..], y);
  }
}
