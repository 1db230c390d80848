/** CRC-32 by table (src/kmod/common_zip.c:55-80) against the bit-serial
    definition, section 8 of RFC 1952. */
module Crc32 {

  const POLY: bv32 := 0xEDB8_8320

  function Xor(a: bv32, b: bv32): bv32 { a ^ b }

  function Half(x: bv32): bv32 { x >> 1 }

  predicate Odd(x: bv32) { x & 1 == 1 }

  /** The register takes in the lowest bit of `x`. */
  function BitStep(c: bv32, x: bv32): bv32 {
    if Odd(Xor(c, x)) then Xor(Half(c), POLY) else Half(c)
  }

  /** `n` bits of `x`, from the lowest. */
  function BitSteps(c: bv32, x: bv32, n: nat): bv32
    decreases n
  {
    if n == 0 then c else BitSteps(BitStep(c, x), Half(x), n - 1)
  }

  function Wide(b: bv8): bv32 { b as bv32 }

  function ByteStep(c: bv32, b: bv8): bv32 {
    BitSteps(c, Wide(b), 8)
  }

  function Serial(c: bv32, s: seq<bv8>): bv32
    decreases |s|
  {
    if s == [] then c else Serial(ByteStep(c, s[0]), s[1..])
  }

  /** The CRC of a byte string. */
  function Crc(s: seq<bv8>): bv32 {
    Xor(Serial(0xFFFF_FFFF, s), 0xFFFF_FFFF)
  }

  function Term(e: nat): bv32
    requires e < 32
  {
    1 << (31 - e)
  }

  /** The polynomial of section 8: x^32 and these powers, the highest in the
      lowest bit. */
  lemma PolyTerms()
    ensures POLY == Term(26) ^ Term(23) ^ Term(22) ^ Term(16) ^ Term(12) ^ Term(11) ^ Term(10) ^ Term(8) ^ Term(7)
      ^ Term(5) ^ Term(4) ^ Term(2) ^ Term(1) ^ Term(0)
  {
  }

  const DIGITS: seq<bv8> := [49, 50, 51, 52, 53, 54, 55, 56, 57]

  lemma Digit1()
    ensures ByteStep(0xFFFF_FFFF, 49) == 0x7C23_1048
  {
  }

  lemma Digit2()
    ensures ByteStep(0x7C23_1048, 50) == 0xB0AC_BB32
  {
  }

  lemma Digit3()
    ensures ByteStep(0xB0AC_BB32, 51) == 0x77B7_9C2D
  {
  }

  lemma Digit4()
    ensures ByteStep(0x77B7_9C2D, 52) == 0x641C_1F5C
  {
  }

  lemma Digit5()
    ensures ByteStep(0x641C_1F5C, 53) == 0x340A_C5E3
  {
  }

  lemma Digit6()
    ensures ByteStep(0x340A_C5E3, 54) == 0xF68D_2C9E
  {
  }

  lemma Digit7()
    ensures ByteStep(0xF68D_2C9E, 55) == 0xAFFC_9660
  {
  }

  lemma Digit8()
    ensures ByteStep(0xAFFC_9660, 56) == 0x651F_2550
  {
  }

  lemma Digit9()
    ensures ByteStep(0x651F_2550, 57) == 0x340B_C6D9
  {
  }

  lemma SerialStep(c: bv32, s: seq<bv8>, i: nat)
    requires i < |s|
    ensures Serial(c, s[i..]) == Serial(ByteStep(c, s[i]), s[i + 1..])
  {
    hide ByteStep;
    assert s[i..][1..] == s[i + 1..];
  }

  lemma SerialEnd(c: bv32)
    ensures Serial(c, []) == c
  {
  }

  /** The check value of the CRC: that of the nine digits. */
  lemma CheckValue()
    ensures Crc(DIGITS) == 0xCBF4_3926
  {
    Digit1();
    Digit2();
    Digit3();
    Digit4();
    Digit5();
    Digit6();
    Digit7();
    Digit8();
    Digit9();
    LastXor();
    hide ByteStep, Xor, Serial;
    SerialStep(0xFFFF_FFFF, DIGITS, 0);
    SerialStep(0x7C23_1048, DIGITS, 1);
    SerialStep(0xB0AC_BB32, DIGITS, 2);
    SerialStep(0x77B7_9C2D, DIGITS, 3);
    SerialStep(0x641C_1F5C, DIGITS, 4);
    SerialStep(0x340A_C5E3, DIGITS, 5);
    SerialStep(0xF68D_2C9E, DIGITS, 6);
    SerialStep(0xAFFC_9660, DIGITS, 7);
    SerialStep(0x651F_2550, DIGITS, 8);
    SerialEnd(0x340B_C6D9);
    assert DIGITS[0..] == DIGITS && DIGITS[9..] == [];
  }

  lemma LastXor()
    ensures Xor(0x340B_C6D9, 0xFFFF_FFFF) == 0xCBF4_3926
  {
  }

  // ------------------------------------------------------------------ the table

  /** The inner step of the table loop. */
  function Fold(c: bv32): bv32 {
    if Odd(c) then Xor(Half(c), POLY) else Half(c)
  }

  function Folds(c: bv32, n: nat): bv32
    decreases n
  {
    if n == 0 then c else Folds(Fold(c), n - 1)
  }

  function Entry(i: bv32): bv32 { Folds(i, 8) }

  lemma XorIs(a: bv32, b: bv32)
    ensures Xor(a, b) == a ^ b
  {
  }

  lemma HalfIs(a: bv32)
    ensures Half(a) == a >> 1
  {
  }

  lemma HalfOfXor(a: bv32, b: bv32)
    ensures Half(Xor(a, b)) == Xor(Half(a), Half(b))
  {
  }

  lemma SwapLast(a: bv32, b: bv32, p: bv32)
    ensures Xor(Xor(a, p), b) == Xor(Xor(a, b), p)
  {
    hide Xor;
    XorAssoc(a, p, b);
    XorComm(p, b);
    XorAssoc(a, b, p);
  }

  lemma XorAssoc(a: bv32, b: bv32, c: bv32)
    ensures Xor(Xor(a, b), c) == Xor(a, Xor(b, c))
  {
  }

  lemma XorComm(a: bv32, b: bv32)
    ensures Xor(a, b) == Xor(b, a)
  {
  }

  lemma OddOfXor(a: bv32, h: bv32)
    ensures !Odd(h) ==> (Odd(Xor(a, h)) <==> Odd(a))
  {
  }

  lemma FoldIsBitStep(c: bv32, x: bv32)
    ensures Xor(BitStep(c, x), Half(x)) == Fold(Xor(c, x))
  {
    hide Xor, Half, Odd;
    HalfOfXor(c, x);
    SwapLast(Half(c), Half(x), POLY);
  }

  /** Taking in the bits of `x` one by one, or all at once and then folding. */
  lemma {:induction false} FoldsAreBitSteps(c: bv32, x: bv32, n: nat)
    ensures Xor(BitSteps(c, x, n), Halves(x, n)) == Folds(Xor(c, x), n)
    decreases n
  {
    hide Xor, BitStep, Half, Fold, Odd;
    if n > 0 {
      FoldIsBitStep(c, x);
      FoldsAreBitSteps(BitStep(c, x), Half(x), n - 1);
    }
  }

  function Halves(x: bv32, n: nat): bv32
    decreases n
  {
    if n == 0 then x else Halves(Half(x), n - 1)
  }

  predicate EvenFor(h: bv32, n: nat)
    decreases n
  {
    n == 0 || (!Odd(h) && EvenFor(Half(h), n - 1))
  }

  lemma FoldHigh(lo: bv32, h: bv32)
    requires !Odd(h)
    ensures Fold(Xor(lo, h)) == Xor(Fold(lo), Half(h))
  {
    hide Xor, Half, Odd;
    OddOfXor(lo, h);
    HalfOfXor(lo, h);
    SwapLast(Half(lo), Half(h), POLY);
  }

  /** Bits that do not reach the bottom are only shifted. */
  lemma {:induction false} FoldsHigh(lo: bv32, h: bv32, n: nat)
    requires EvenFor(h, n)
    ensures Folds(Xor(lo, h), n) == Xor(Folds(lo, n), Halves(h, n))
    decreases n
  {
    hide Xor, Half, Fold, Odd;
    if n > 0 {
      FoldHigh(lo, h);
      FoldsHigh(Fold(lo), Half(h), n - 1);
    }
  }

  function Low8(v: bv32): bv32 { v & 0xFF }

  function High24(v: bv32): bv32 { v & 0xFFFF_FF00 }

  function Shift8(v: bv32): bv32 { v >> 8 }

  lemma Eight(x: bv32)
    ensures Halves(x, 8) == Shift8(x)
  {
    hide Half, Shift8;
    var x1 := Half(x);
    var x2 := Half(x1);
    var x3 := Half(x2);
    var x4 := Half(x3);
    var x5 := Half(x4);
    var x6 := Half(x5);
    var x7 := Half(x6);
    assert Halves(x, 8) == Half(x7);
    hide Halves;
    HalfIs(x);
    HalfIs(x1);
    HalfIs(x2);
    HalfIs(x3);
    HalfIs(x4);
    HalfIs(x5);
    HalfIs(x6);
    HalfIs(x7);
    Shift8Is(x);
    PureShift(x);
  }

  lemma Shift8Is(x: bv32)
    ensures Shift8(x) == x >> 8
    ensures Low8(x) == x & 0xFF && High24(x) == x & 0xFFFF_FF00
  {
  }

  lemma PureShift(x: bv32)
    ensures (((((((x >> 1) >> 1) >> 1) >> 1) >> 1) >> 1) >> 1) >> 1 == x >> 8
  {
  }

  lemma HighIsEven(v: bv32)
    ensures EvenFor(High24(v), 8)
  {
  }

  lemma PureParts(v: bv32, x: bv32)
    ensures (v & 0xFF) ^ (v & 0xFFFF_FF00) == v && (v & 0xFFFF_FF00) >> 8 == v >> 8
    ensures v ^ 0 == v
    ensures x < 0x100 ==> x >> 8 == 0 && (v ^ x) >> 8 == v >> 8
  {
  }

  lemma WideIs(b: bv8)
    ensures Wide(b) < 0x100
  {
  }

  lemma Split(v: bv32)
    ensures Xor(Low8(v), High24(v)) == v && Shift8(High24(v)) == Shift8(v)
  {
    hide *;
    PureParts(v, 0);
    Shift8Is(v);
    Shift8Is(High24(v));
    XorIs(Low8(v), High24(v));
  }

  lemma ShortShift(v: bv32, b: bv8)
    ensures Shift8(Wide(b)) == 0 && Shift8(Xor(v, Wide(b))) == Shift8(v)
  {
    hide *;
    var x := Wide(b);
    WideIs(b);
    PureParts(v, x);
    Shift8Is(v);
    Shift8Is(x);
    Shift8Is(Xor(v, x));
    XorIs(v, x);
  }

  lemma XorZero(v: bv32)
    ensures Xor(v, 0) == v
  {
  }

  /** One byte through the table is one byte bit by bit. */
  lemma TableStep(c: bv32, b: bv8)
    ensures ByteStep(c, b) == Xor(Entry(Low8(Xor(c, Wide(b)))), Shift8(c))
  {
    hide Xor, Wide, Low8, High24, Shift8, BitSteps, Folds, Halves, EvenFor;
    var x := Wide(b);
    var v := Xor(c, x);
    FoldsAreBitSteps(c, x, 8);
    Eight(x);
    Split(v);
    ShortShift(c, b);
    XorZero(BitSteps(c, x, 8));
    HighIsEven(v);
    FoldsHigh(Low8(v), High24(v), 8);
    Eight(High24(v));
  }

  // ------------------------------------------------------------------ the code

  function ToIndex(x: bv32): int { x as int }

  function ToWord(i: int): bv32
    requires 0 <= i < 256
  {
    i as bv32
  }

  lemma IndexOfLow(v: bv32)
    ensures 0 <= ToIndex(Low8(v)) < 256
    ensures ToWord(ToIndex(Low8(v))) == Low8(v)
  {
    var x := Low8(v);
    assert x < 0x100;
  }

  /** The table loop: eight folds of every byte value. */
  method MakeTable() returns (tbl: seq<bv32>)
    ensures |tbl| == 256
    ensures forall i :: 0 <= i < 256 ==> tbl[i] == Entry(ToWord(i))
  {
    hide Fold, Folds, ToWord, Xor, Half, Odd;
    tbl := [];
    for i := 0 to 256
      invariant |tbl| == i
      invariant forall j :: 0 <= j < i ==> tbl[j] == Entry(ToWord(j))
    {
      var c := ToWord(i);
      FoldsStep(c, 0);
      for k := 0 to 8
        invariant Folds(c, 8 - k) == Entry(ToWord(i))
      {
        FoldsStep(c, 7 - k);
        c := Fold(c);
      }
      FoldsStep(c, 0);
      tbl := tbl + [c];
    }
  }

  lemma FoldsStep(c: bv32, n: nat)
    ensures Folds(c, 0) == c && Folds(c, n + 1) == Folds(Fold(c), n)
  {
    hide Fold;
  }

  /** `calc_crc` computes the CRC-32 of any byte string. */
  method CalcCrc(s: seq<bv8>) returns (crc: bv32)
    ensures crc == Crc(s)
  {
    hide Xor, Wide, Low8, Shift8, Entry, ByteStep, ToIndex, ToWord;
    var tbl := MakeTable();
    crc := 0xFFFF_FFFF;
    for i := 0 to |s|
      invariant Serial(crc, s[i..]) == Serial(0xFFFF_FFFF, s)
    {
      var idx := Low8(Xor(crc, Wide(s[i])));
      IndexOfLow(Xor(crc, Wide(s[i])));
      TableStep(crc, s[i]);
      assert s[i..][0] == s[i] && s[i..][1..] == s[i + 1..];
      crc := Xor(tbl[ToIndex(idx)], Shift8(crc));
    }
    crc := Xor(crc, 0xFFFF_FFFF);
  }
}
