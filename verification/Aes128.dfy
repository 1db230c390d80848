/** AES-128 encryption and decryption of one block (lib/crypto/aes128.c),
    sections 5.1 and 5.3 of FIPS 197, for an arbitrary key schedule. */
module Aes128 {
  import opened Gf256
  import opened AesTables
  import opened Fips197

  // ------------------------------------------------------- bytes and words

  function B0(w: bv32): bv8 { (w >> 24) as bv8 }
  function B1(w: bv32): bv8 { ((w >> 16) & 0xFF) as bv8 }
  function B2(w: bv32): bv8 { ((w >> 8) & 0xFF) as bv8 }
  function B3(w: bv32): bv8 { (w & 0xFF) as bv8 }

  function Word(a: bv8, b: bv8, c: bv8, d: bv8): bv32 {
    (a as bv32 << 24) | (b as bv32 << 16) | (c as bv32 << 8) | d as bv32
  }

  lemma BytesOfWord(a: bv8, b: bv8, c: bv8, d: bv8)
    ensures B0(Word(a, b, c, d)) == a && B1(Word(a, b, c, d)) == b
    ensures B2(Word(a, b, c, d)) == c && B3(Word(a, b, c, d)) == d
  {
  }

  lemma WordOfBytes(w: bv32)
    ensures Word(B0(w), B1(w), B2(w), B3(w)) == w
  {
  }

  // ------------------------------------------------------------- GF(2^8)

  function Xtime(x: bv8): bv8 {
    (x << 1) ^ (((x >> 7) & 1) * 0x1b)
  }

  function Xor(a: bv8, b: bv8): bv8 { a ^ b }

  function Xor4(a: bv8, b: bv8, c: bv8, d: bv8): bv8 { Xor(Xor(a, b), Xor(c, d)) }

  function Sum4(a: bv8, b: bv8, c: bv8, d: bv8): bv8 { a ^ b ^ c ^ d }

  function Sum5(a: bv8, b: bv8, c: bv8, d: bv8, e: bv8): bv8 { a ^ b ^ c ^ d ^ e }

  lemma XorAssoc(a: bv8, b: bv8, c: bv8)
    ensures Xor(Xor(a, b), c) == Xor(a, Xor(b, c))
  {
  }

  lemma XorComm(a: bv8, b: bv8)
    ensures Xor(a, b) == Xor(b, a)
  {
  }

  lemma FourTerms(a: bv8, b: bv8, c: bv8, d: bv8)
    ensures Sum4(a, b, c, d) == Xor4(a, b, c, d)
  {
  }

  function Term(x: bv8, bit: bv8): bv8 {
    if bit == 0 then 0 else x
  }

  /** Product with a polynomial of degree below 5: the sum of the shifted
      copies of `x` picked by the bits of `y`. */
  function Xmul(x: bv8, y: bv8): bv8 {
    var x1 := Xtime(x);
    var x2 := Xtime(x1);
    var x3 := Xtime(x2);
    var x4 := Xtime(x3);
    Sum5(Term(x, y & 1), Term(x1, (y >> 1) & 1), Term(x2, (y >> 2) & 1), Term(x3, (y >> 3) & 1), Term(x4, (y >> 4) & 1))
  }

  lemma XmulTerms(x: bv8, y: bv8)
    ensures var x1 := Xtime(x);
      var x2 := Xtime(x1);
      var x3 := Xtime(x2);
      var x4 := Xtime(x3);
      Xmul(x, y) == Xor(Xor4(Term(x, y & 1), Term(x1, (y >> 1) & 1), Term(x2, (y >> 2) & 1), Term(x3, (y >> 3) & 1)),
                        Term(x4, (y >> 4) & 1))
  {
    hide Xtime, Term, Xor, Xor4, Sum5;
    var x1 := Xtime(x);
    var x2 := Xtime(x1);
    var x3 := Xtime(x2);
    FiveTerms(Term(x, y & 1), Term(x1, (y >> 1) & 1), Term(x2, (y >> 2) & 1), Term(x3, (y >> 3) & 1),
              Term(Xtime(x3), (y >> 4) & 1));
  }

  lemma FiveTerms(a: bv8, b: bv8, c: bv8, d: bv8, e: bv8)
    ensures Sum5(a, b, c, d, e) == Xor(Xor4(a, b, c, d), e)
  {
  }

  /** State of the loop of `xmul` after `i` rounds: shifted operands and sum. */
  function XmulX(x: bv8, i: nat): bv8 {
    if i == 0 then x else Xtime(XmulX(x, i - 1))
  }

  function XmulY(y: bv8, i: nat): bv8 {
    if i == 0 then y else XmulY(y, i - 1) >> 1
  }

  function XmulM(x: bv8, y: bv8, i: nat): bv8 {
    if i == 0 then 0 else Xor(XmulM(x, y, i - 1), Term(XmulX(x, i - 1), XmulY(y, i - 1) & 1))
  }

  method XmulLoop(x0: bv8, y0: bv8) returns (m: bv8)
    ensures m == Xmul(x0, y0)
  {
    hide Xmul, Xtime, XmulX, XmulY, XmulM;
    var x, y := x0, y0;
    m := 0;
    XmulRound(x0, y0, 0);
    for i := 0 to 5
      invariant x == XmulX(x0, i) && y == XmulY(y0, i) && m == XmulM(x0, y0, i)
    {
      XmulRound(x0, y0, i);
      if y & 1 == 1 { m := m ^ x; }
      y := y >> 1;
      x := Xtime(x);
    }
    FiveRounds(x0, y0);
  }

  lemma FiveRounds(x: bv8, y: bv8)
    ensures XmulM(x, y, 5) == Xmul(x, y)
  {
    hide Xtime, Term, Xor, Xmul, XmulX, XmulY, XmulM;
    XmulTerms(x, y);
    var x1 := Xtime(x);
    var x2 := Xtime(x1);
    var x3 := Xtime(x2);
    XmulRound(x, y, 0);
    XmulRound(x, y, 1);
    XmulRound(x, y, 2);
    XmulRound(x, y, 3);
    XmulRound(x, y, 4);
    Shifts(y);
    SumInOrder(Term(x, y & 1), Term(x1, (y >> 1) & 1), Term(x2, (y >> 2) & 1), Term(x3, (y >> 3) & 1));
  }

  lemma XmulRound(x: bv8, y: bv8, i: nat)
    ensures XmulX(x, 0) == x && XmulX(x, i + 1) == Xtime(XmulX(x, i))
    ensures XmulY(y, 0) == y && XmulY(y, i + 1) == XmulY(y, i) >> 1
    ensures XmulM(x, y, 0) == 0
    ensures XmulM(x, y, i + 1) == Xor(XmulM(x, y, i), Term(XmulX(x, i), XmulY(y, i) & 1))
  {
    hide Xtime, Term, Xor;
  }

  lemma Shifts(y: bv8)
    ensures (y >> 1) >> 1 == y >> 2 && (y >> 2) >> 1 == y >> 3 && (y >> 3) >> 1 == y >> 4
  {
  }

  lemma SumInOrder(a: bv8, b: bv8, c: bv8, d: bv8)
    ensures Xor(Xor(Xor(Xor(0, a), b), c), d) == Xor4(a, b, c, d)
  {
  }

  lemma XmulIsProduct0(x: bv8, y: bv8)
    requires 0 <= y < 4
    ensures Xmul(x, y) == Times(x, y)
  {
  }

  lemma XmulIsProduct1(x: bv8, y: bv8)
    requires 4 <= y < 8
    ensures Xmul(x, y) == Times(x, y)
  {
  }

  lemma XmulIsProduct2(x: bv8, y: bv8)
    requires 8 <= y < 12
    ensures Xmul(x, y) == Times(x, y)
  {
  }

  lemma XmulIsProduct3(x: bv8, y: bv8)
    requires 12 <= y < 16
    ensures Xmul(x, y) == Times(x, y)
  {
  }

  lemma XmulIsProduct4(x: bv8, y: bv8)
    requires 16 <= y < 20
    ensures Xmul(x, y) == Times(x, y)
  {
  }

  lemma XmulIsProduct5(x: bv8, y: bv8)
    requires 20 <= y < 24
    ensures Xmul(x, y) == Times(x, y)
  {
  }

  lemma XmulIsProduct6(x: bv8, y: bv8)
    requires 24 <= y < 28
    ensures Xmul(x, y) == Times(x, y)
  {
  }

  lemma XmulIsProduct7(x: bv8, y: bv8)
    requires 28 <= y < 32
    ensures Xmul(x, y) == Times(x, y)
  {
  }

  /** `xmul` is multiplication in GF(2^8), section 4.2 of FIPS 197, by any
      polynomial of degree below 5. */
  lemma XmulIsProduct(x: bv8, y: bv8)
    requires y < 0x20
    ensures Xmul(x, y) == Times(x, y)
  {
    hide Xmul, Times;
    if y < 4 {
      XmulIsProduct0(x, y);
    } else if y < 8 {
      XmulIsProduct1(x, y);
    } else if y < 12 {
      XmulIsProduct2(x, y);
    } else if y < 16 {
      XmulIsProduct3(x, y);
    } else if y < 20 {
      XmulIsProduct4(x, y);
    } else if y < 24 {
      XmulIsProduct5(x, y);
    } else if y < 28 {
      XmulIsProduct6(x, y);
    } else {
      XmulIsProduct7(x, y);
    }
  }

  lemma XtimeLinear(a: bv8, b: bv8)
    ensures Xtime(Xor(a, b)) == Xor(Xtime(a), Xtime(b))
  {
  }

  lemma TermLinear(a: bv8, b: bv8, bit: bv8)
    ensures Term(Xor(a, b), bit) == Xor(Term(a, bit), Term(b, bit))
  {
  }

  lemma Interchange(p: bv8, q: bv8, r: bv8, s: bv8)
    ensures Xor(Xor(p, q), Xor(r, s)) == Xor(Xor(p, r), Xor(q, s))
  {
    hide Xor;
    XorAssoc(p, q, Xor(r, s));
    XorAssoc(q, r, s);
    XorComm(q, r);
    XorAssoc(r, q, s);
    XorAssoc(p, r, Xor(q, s));
  }

  lemma SumRows(a0: bv8, a1: bv8, a2: bv8, a3: bv8, b0: bv8, b1: bv8, b2: bv8, b3: bv8)
    ensures Xor(Xor4(a0, a1, a2, a3), Xor4(b0, b1, b2, b3))
      == Xor4(Xor(a0, b0), Xor(a1, b1), Xor(a2, b2), Xor(a3, b3))
  {
    hide Xor;
    Interchange(Xor(a0, a1), Xor(a2, a3), Xor(b0, b1), Xor(b2, b3));
    Interchange(a0, a1, b0, b1);
    Interchange(a2, a3, b2, b3);
  }

  lemma XmulLinear(a: bv8, b: bv8, y: bv8)
    ensures Xmul(Xor(a, b), y) == Xor(Xmul(a, y), Xmul(b, y))
  {
    hide Xtime, Term, Xor, Xor4, Xmul;
    XmulTerms(a, y);
    XmulTerms(b, y);
    XmulTerms(Xor(a, b), y);
    var a1, b1 := Xtime(a), Xtime(b);
    var a2, b2 := Xtime(a1), Xtime(b1);
    var a3, b3 := Xtime(a2), Xtime(b2);
    var a4, b4 := Xtime(a3), Xtime(b3);
    XtimeLinear(a, b);
    XtimeLinear(a1, b1);
    XtimeLinear(a2, b2);
    XtimeLinear(a3, b3);
    TermLinear(a, b, y & 1);
    TermLinear(a1, b1, (y >> 1) & 1);
    TermLinear(a2, b2, (y >> 2) & 1);
    TermLinear(a3, b3, (y >> 3) & 1);
    TermLinear(a4, b4, (y >> 4) & 1);
    var p0, p1, p2 := Term(a, y & 1), Term(a1, (y >> 1) & 1), Term(a2, (y >> 2) & 1);
    var p3, p4 := Term(a3, (y >> 3) & 1), Term(a4, (y >> 4) & 1);
    var q0, q1, q2 := Term(b, y & 1), Term(b1, (y >> 1) & 1), Term(b2, (y >> 2) & 1);
    var q3, q4 := Term(b3, (y >> 3) & 1), Term(b4, (y >> 4) & 1);
    SumRows(p0, p1, p2, p3, q0, q1, q2, q3);
    Interchange(Xor4(p0, p1, p2, p3), p4, Xor4(q0, q1, q2, q3), q4);
  }

  // ------------------------------------------------------------ mix columns

  /** One output byte of MixColumns and of its inverse; the other three are the
      same with the column rotated. */
  function Mix(a: bv8, b: bv8, c: bv8, d: bv8): bv8 {
    Xor4(Xmul(a, 2), Xmul(b, 3), c, d)
  }

  function Unmix(a: bv8, b: bv8, c: bv8, d: bv8): bv8 {
    Xor4(Xmul(a, 14), Xmul(b, 11), Xmul(c, 13), Xmul(d, 9))
  }

  lemma XmulSum4(a: bv8, b: bv8, c: bv8, d: bv8, y: bv8)
    ensures Xmul(Xor4(a, b, c, d), y) == Xor4(Xmul(a, y), Xmul(b, y), Xmul(c, y), Xmul(d, y))
  {
    hide Xmul, Xor;
    XmulLinear(Xor(a, b), Xor(c, d), y);
    XmulLinear(a, b, y);
    XmulLinear(c, d, y);
  }

  // The products of the coefficients of the two matrices, for one byte.

  lemma Diagonal(x: bv8)
    ensures Sum4(Xmul(Xmul(x, 2), 14), Xmul(x, 11), Xmul(x, 13), Xmul(Xmul(x, 3), 9)) == x
  {
  }

  lemma OffDiagonal1(x: bv8)
    ensures Sum4(Xmul(Xmul(x, 3), 14), Xmul(Xmul(x, 2), 11), Xmul(x, 13), Xmul(x, 9)) == 0
  {
  }

  lemma OffDiagonal2(x: bv8)
    ensures Sum4(Xmul(x, 14), Xmul(Xmul(x, 3), 11), Xmul(Xmul(x, 2), 13), Xmul(x, 9)) == 0
  {
  }

  lemma OffDiagonal3(x: bv8)
    ensures Sum4(Xmul(x, 14), Xmul(x, 11), Xmul(Xmul(x, 3), 13), Xmul(Xmul(x, 2), 9)) == 0
  {
  }

  lemma DiagonalBack(x: bv8)
    ensures Sum4(Xmul(Xmul(x, 14), 2), Xmul(Xmul(x, 9), 3), Xmul(x, 13), Xmul(x, 11)) == x
  {
  }

  lemma OffDiagonalBack1(x: bv8)
    ensures Sum4(Xmul(Xmul(x, 11), 2), Xmul(Xmul(x, 14), 3), Xmul(x, 9), Xmul(x, 13)) == 0
  {
  }

  lemma OffDiagonalBack2(x: bv8)
    ensures Sum4(Xmul(Xmul(x, 13), 2), Xmul(Xmul(x, 11), 3), Xmul(x, 14), Xmul(x, 9)) == 0
  {
  }

  lemma OffDiagonalBack3(x: bv8)
    ensures Sum4(Xmul(Xmul(x, 9), 2), Xmul(Xmul(x, 13), 3), Xmul(x, 11), Xmul(x, 14)) == 0
  {
  }

  /** Transposing a 4 by 4 table of summands; three of the columns cancel. */
  lemma Transpose(p: bv8, a0: bv8, a1: bv8, a2: bv8, a3: bv8, b0: bv8, b1: bv8, b2: bv8, b3: bv8,
                  c0: bv8, c1: bv8, c2: bv8, c3: bv8, d0: bv8, d1: bv8, d2: bv8, d3: bv8)
    requires Xor4(a0, b0, c0, d0) == p && Xor4(a1, b1, c1, d1) == 0
    requires Xor4(a2, b2, c2, d2) == 0 && Xor4(a3, b3, c3, d3) == 0
    ensures Xor4(Xor4(a0, a1, a2, a3), Xor4(b0, b1, b2, b3), Xor4(c0, c1, c2, c3), Xor4(d0, d1, d2, d3)) == p
  {
    hide Xor;
    SumRows(a0, a1, a2, a3, b0, b1, b2, b3);
    SumRows(c0, c1, c2, c3, d0, d1, d2, d3);
    SumRows(Xor(a0, b0), Xor(a1, b1), Xor(a2, b2), Xor(a3, b3), Xor(c0, d0), Xor(c1, d1), Xor(c2, d2), Xor(c3, d3));
    OnlyFirst(p);
  }

  lemma OnlyFirst(p: bv8)
    ensures Xor4(p, 0, 0, 0) == p
  {
  }

  lemma RotateSum(a: bv8, b: bv8, c: bv8, d: bv8)
    ensures Xor4(b, c, d, a) == Xor4(a, b, c, d)
  {
    hide Xor;
    Interchange(b, c, d, a);
    XorComm(b, d);
    XorComm(c, a);
    Interchange(d, b, a, c);
    XorComm(d, a);
    XorComm(Xor(a, d), Xor(b, c));
    Interchange(a, d, b, c);
    XorComm(d, c);
  }

  /** The inverse matrix undoes the forward one, in its first row. */
  lemma UnmixMix(a: bv8, b: bv8, c: bv8, d: bv8)
    ensures Unmix(Mix(a, b, c, d), Mix(b, c, d, a), Mix(c, d, a, b), Mix(d, a, b, c)) == a
  {
    hide Xmul, Xor, Xor4, Sum4;
    var ea, eb, ec, ed := Xmul(Xmul(a, 2), 14), Xmul(Xmul(b, 3), 14), Xmul(c, 14), Xmul(d, 14);
    var ba, bb, bc, bd := Xmul(a, 11), Xmul(Xmul(b, 2), 11), Xmul(Xmul(c, 3), 11), Xmul(d, 11);
    var da, db, dc, dd := Xmul(a, 13), Xmul(b, 13), Xmul(Xmul(c, 2), 13), Xmul(Xmul(d, 3), 13);
    var na, nb, nc, nd := Xmul(Xmul(a, 3), 9), Xmul(b, 9), Xmul(c, 9), Xmul(Xmul(d, 2), 9);
    XmulSum4(Xmul(a, 2), Xmul(b, 3), c, d, 14);
    XmulSum4(Xmul(b, 2), Xmul(c, 3), d, a, 11);
    RotateSum(ba, bb, bc, bd);
    XmulSum4(Xmul(c, 2), Xmul(d, 3), a, b, 13);
    RotateSum(db, dc, dd, da);
    RotateSum(da, db, dc, dd);
    XmulSum4(Xmul(d, 2), Xmul(a, 3), b, c, 9);
    RotateSum(nd, na, nb, nc);
    Diagonal(a);
    FourTerms(ea, ba, da, na);
    OffDiagonal1(b);
    FourTerms(eb, bb, db, nb);
    OffDiagonal2(c);
    FourTerms(ec, bc, dc, nc);
    OffDiagonal3(d);
    FourTerms(ed, bd, dd, nd);
    Transpose(a, ea, eb, ec, ed, ba, bb, bc, bd, da, db, dc, dd, na, nb, nc, nd);
  }

  /** And the other way round. */
  lemma MixUnmix(a: bv8, b: bv8, c: bv8, d: bv8)
    ensures Mix(Unmix(a, b, c, d), Unmix(b, c, d, a), Unmix(c, d, a, b), Unmix(d, a, b, c)) == a
  {
    hide Xmul, Xor, Xor4, Sum4;
    var ea, eb, ec, ed := Xmul(Xmul(a, 14), 2), Xmul(Xmul(b, 11), 2), Xmul(Xmul(c, 13), 2), Xmul(Xmul(d, 9), 2);
    var ba, bb, bc, bd := Xmul(Xmul(a, 9), 3), Xmul(Xmul(b, 14), 3), Xmul(Xmul(c, 11), 3), Xmul(Xmul(d, 13), 3);
    var da, db, dc, dd := Xmul(a, 13), Xmul(b, 9), Xmul(c, 14), Xmul(d, 11);
    var na, nb, nc, nd := Xmul(a, 11), Xmul(b, 13), Xmul(c, 9), Xmul(d, 14);
    XmulSum4(Xmul(a, 14), Xmul(b, 11), Xmul(c, 13), Xmul(d, 9), 2);
    XmulSum4(Xmul(b, 14), Xmul(c, 11), Xmul(d, 13), Xmul(a, 9), 3);
    RotateSum(ba, bb, bc, bd);
    RotateSum(db, dc, dd, da);
    RotateSum(da, db, dc, dd);
    RotateSum(nd, na, nb, nc);
    DiagonalBack(a);
    FourTerms(ea, ba, da, na);
    OffDiagonalBack1(b);
    FourTerms(eb, bb, db, nb);
    OffDiagonalBack2(c);
    FourTerms(ec, bc, dc, nc);
    OffDiagonalBack3(d);
    FourTerms(ed, bd, dd, nd);
    Transpose(a, ea, eb, ec, ed, ba, bb, bc, bd, da, db, dc, dd, na, nb, nc, nd);
  }

  // ------------------------------------------------------------ the state

  /** Four columns; `S(i, j)` of FIPS 197 is byte i of word j. */
  datatype State = State(w0: bv32, w1: bv32, w2: bv32, w3: bv32)

  function AddRoundKey(s: State, w: Schedule, r: nat): State
    requires r <= 10
  {
    State(XorWord(s.w0, w[4 * r]), XorWord(s.w1, w[4 * r + 1]),
          XorWord(s.w2, w[4 * r + 2]), XorWord(s.w3, w[4 * r + 3]))
  }

  function XorWord(a: bv32, k: bv32): bv32 { a ^ k }

  function Subword(x: bv32): bv32 { Word(Sbox(B0(x)), Sbox(B1(x)), Sbox(B2(x)), Sbox(B3(x))) }
  function UnSubword(x: bv32): bv32 { Word(Rbox(B0(x)), Rbox(B1(x)), Rbox(B2(x)), Rbox(B3(x))) }

  function SubBytes(s: State): State { State(Subword(s.w0), Subword(s.w1), Subword(s.w2), Subword(s.w3)) }
  function UnSubBytes(s: State): State { State(UnSubword(s.w0), UnSubword(s.w1), UnSubword(s.w2), UnSubword(s.w3)) }

  function ShiftRows(s: State): State {
    State(Word(B0(s.w0), B1(s.w1), B2(s.w2), B3(s.w3)), Word(B0(s.w1), B1(s.w2), B2(s.w3), B3(s.w0)),
          Word(B0(s.w2), B1(s.w3), B2(s.w0), B3(s.w1)), Word(B0(s.w3), B1(s.w0), B2(s.w1), B3(s.w2)))
  }

  function UnShiftRows(s: State): State {
    State(Word(B0(s.w0), B1(s.w3), B2(s.w2), B3(s.w1)), Word(B0(s.w1), B1(s.w0), B2(s.w3), B3(s.w2)),
          Word(B0(s.w2), B1(s.w1), B2(s.w0), B3(s.w3)), Word(B0(s.w3), B1(s.w2), B2(s.w1), B3(s.w0)))
  }

  function MixWord(x: bv32): bv32 {
    var a, b, c, d := B0(x), B1(x), B2(x), B3(x);
    Word(Mix(a, b, c, d), Mix(b, c, d, a), Mix(c, d, a, b), Mix(d, a, b, c))
  }

  function UnMixWord(x: bv32): bv32 {
    var a, b, c, d := B0(x), B1(x), B2(x), B3(x);
    Word(Unmix(a, b, c, d), Unmix(b, c, d, a), Unmix(c, d, a, b), Unmix(d, a, b, c))
  }

  function MixColumns(s: State): State { State(MixWord(s.w0), MixWord(s.w1), MixWord(s.w2), MixWord(s.w3)) }
  function UnMixColumns(s: State): State { State(UnMixWord(s.w0), UnMixWord(s.w1), UnMixWord(s.w2), UnMixWord(s.w3)) }

  // ------------------------------------------------ each step and its inverse

  lemma XorTwice(a: bv32, k: bv32)
    ensures XorWord(XorWord(a, k), k) == a
  {
  }

  lemma AddRoundKeyTwice(s: State, w: Schedule, r: nat)
    requires r <= 10
    ensures AddRoundKey(AddRoundKey(s, w, r), w, r) == s
  {
    hide XorWord;
    XorTwice(s.w0, w[4 * r]);
    XorTwice(s.w1, w[4 * r + 1]);
    XorTwice(s.w2, w[4 * r + 2]);
    XorTwice(s.w3, w[4 * r + 3]);
  }

  lemma SubwordInverse(x: bv32)
    ensures UnSubword(Subword(x)) == x && Subword(UnSubword(x)) == x
  {
    hide Sbox, Rbox, Word, B0, B1, B2, B3;
    var a, b, c, d := B0(x), B1(x), B2(x), B3(x);
    WordOfBytes(x);
    BytesOfWord(Sbox(a), Sbox(b), Sbox(c), Sbox(d));
    BytesOfWord(Rbox(a), Rbox(b), Rbox(c), Rbox(d));
    RboxUndoesSbox(a);
    RboxUndoesSbox(b);
    RboxUndoesSbox(c);
    RboxUndoesSbox(d);
    SboxUndoesRbox(a);
    SboxUndoesRbox(b);
    SboxUndoesRbox(c);
    SboxUndoesRbox(d);
  }

  lemma MixWordInverse(x: bv32)
    ensures UnMixWord(MixWord(x)) == x && MixWord(UnMixWord(x)) == x
  {
    hide Mix, Unmix, Word, B0, B1, B2, B3;
    var a, b, c, d := B0(x), B1(x), B2(x), B3(x);
    WordOfBytes(x);
    BytesOfWord(Mix(a, b, c, d), Mix(b, c, d, a), Mix(c, d, a, b), Mix(d, a, b, c));
    BytesOfWord(Unmix(a, b, c, d), Unmix(b, c, d, a), Unmix(c, d, a, b), Unmix(d, a, b, c));
    UnmixMix(a, b, c, d);
    UnmixMix(b, c, d, a);
    UnmixMix(c, d, a, b);
    UnmixMix(d, a, b, c);
    MixUnmix(a, b, c, d);
    MixUnmix(b, c, d, a);
    MixUnmix(c, d, a, b);
    MixUnmix(d, a, b, c);
  }

  lemma ShiftRowsInverse(s: State)
    ensures UnShiftRows(ShiftRows(s)) == s && ShiftRows(UnShiftRows(s)) == s
  {
    hide Word, B0, B1, B2, B3;
    WordOfBytes(s.w0);
    WordOfBytes(s.w1);
    WordOfBytes(s.w2);
    WordOfBytes(s.w3);
    BytesOfWord(B0(s.w0), B1(s.w1), B2(s.w2), B3(s.w3));
    BytesOfWord(B0(s.w1), B1(s.w2), B2(s.w3), B3(s.w0));
    BytesOfWord(B0(s.w2), B1(s.w3), B2(s.w0), B3(s.w1));
    BytesOfWord(B0(s.w3), B1(s.w0), B2(s.w1), B3(s.w2));
    BytesOfWord(B0(s.w0), B1(s.w3), B2(s.w2), B3(s.w1));
    BytesOfWord(B0(s.w1), B1(s.w0), B2(s.w3), B3(s.w2));
    BytesOfWord(B0(s.w2), B1(s.w1), B2(s.w0), B3(s.w3));
    BytesOfWord(B0(s.w3), B1(s.w2), B2(s.w1), B3(s.w0));
  }

  lemma SubBytesInverse(s: State)
    ensures UnSubBytes(SubBytes(s)) == s && SubBytes(UnSubBytes(s)) == s
  {
    hide Subword, UnSubword;
    SubwordInverse(s.w0);
    SubwordInverse(s.w1);
    SubwordInverse(s.w2);
    SubwordInverse(s.w3);
  }

  lemma MixColumnsInverse(s: State)
    ensures UnMixColumns(MixColumns(s)) == s && MixColumns(UnMixColumns(s)) == s
  {
    hide MixWord, UnMixWord;
    MixWordInverse(s.w0);
    MixWordInverse(s.w1);
    MixWordInverse(s.w2);
    MixWordInverse(s.w3);
  }

  // ------------------------------------------------------------------ rounds

  function Round(s: State, w: Schedule, r: nat): State
    requires r <= 10
  {
    AddRoundKey(MixColumns(ShiftRows(SubBytes(s))), w, r)
  }

  function UnRound(s: State, w: Schedule, r: nat): State
    requires r <= 10
  {
    UnMixColumns(AddRoundKey(UnSubBytes(UnShiftRows(s)), w, r))
  }

  /** Rounds 1 to `r` of the cipher, section 5.1 of FIPS 197. */
  function Rounds(s: State, w: Schedule, r: nat): State
    requires r <= 10
  {
    if r == 0 then s else Round(Rounds(s, w, r - 1), w, r)
  }

  /** Rounds `r` down to 1 of the inverse cipher, section 5.3 of FIPS 197. */
  function UnRounds(s: State, w: Schedule, r: nat): State
    requires r <= 10
    decreases r
  {
    if r == 0 then s else UnRounds(UnRound(s, w, r), w, r - 1)
  }

  function EncryptState(s: State, w: Schedule): State {
    AddRoundKey(ShiftRows(SubBytes(Rounds(AddRoundKey(s, w, 0), w, 9))), w, 10)
  }

  function DecryptState(s: State, w: Schedule): State {
    AddRoundKey(UnSubBytes(UnShiftRows(UnRounds(AddRoundKey(s, w, 10), w, 9))), w, 0)
  }

  lemma UnRoundRound(s: State, w: Schedule, r: nat)
    requires r <= 10
    ensures UnRound(ShiftRows(SubBytes(Round(s, w, r))), w, r) == ShiftRows(SubBytes(s))
  {
    hide ShiftRows, UnShiftRows, SubBytes, UnSubBytes, MixColumns, UnMixColumns, AddRoundKey;
    var t := ShiftRows(SubBytes(s));
    var u := Round(s, w, r);
    ShiftRowsInverse(SubBytes(u));
    SubBytesInverse(u);
    AddRoundKeyTwice(MixColumns(t), w, r);
    MixColumnsInverse(t);
  }

  lemma RoundUnRound(t: State, w: Schedule, r: nat)
    requires r <= 10
    ensures Round(UnSubBytes(UnShiftRows(UnRound(t, w, r))), w, r) == UnSubBytes(UnShiftRows(t))
  {
    hide ShiftRows, UnShiftRows, SubBytes, UnSubBytes, MixColumns, UnMixColumns, AddRoundKey;
    var u := UnRound(t, w, r);
    SubBytesInverse(UnShiftRows(u));
    ShiftRowsInverse(u);
    var v := UnSubBytes(UnShiftRows(t));
    MixColumnsInverse(AddRoundKey(v, w, r));
    AddRoundKeyTwice(v, w, r);
  }

  lemma {:induction false} UnRoundsRounds(s: State, w: Schedule, r: nat)
    requires r <= 10
    ensures UnRounds(ShiftRows(SubBytes(Rounds(s, w, r))), w, r) == ShiftRows(SubBytes(s))
  {
    hide ShiftRows, SubBytes, Round, UnRound;
    if r > 0 {
      UnRoundRound(Rounds(s, w, r - 1), w, r);
      UnRoundsRounds(s, w, r - 1);
    }
  }

  lemma {:induction false} RoundsUnRounds(t: State, w: Schedule, r: nat)
    requires r <= 10
    ensures Rounds(UnSubBytes(UnShiftRows(UnRounds(t, w, r))), w, r) == UnSubBytes(UnShiftRows(t))
    decreases r
  {
    hide UnShiftRows, UnSubBytes, Round, UnRound;
    if r > 0 {
      RoundsUnRounds(UnRound(t, w, r), w, r - 1);
      RoundUnRound(t, w, r);
    }
  }

  /** Decryption undoes encryption for every state and every key schedule. */
  lemma DecryptEncrypt(s: State, w: Schedule)
    ensures DecryptState(EncryptState(s, w), w) == s
  {
    hide ShiftRows, UnShiftRows, SubBytes, UnSubBytes, Rounds, UnRounds, AddRoundKey;
    var a := AddRoundKey(s, w, 0);
    var b := Rounds(a, w, 9);
    AddRoundKeyTwice(ShiftRows(SubBytes(b)), w, 10);
    UnRoundsRounds(a, w, 9);
    ShiftRowsInverse(SubBytes(a));
    SubBytesInverse(a);
    AddRoundKeyTwice(s, w, 0);
  }

  /** And encryption undoes decryption. */
  lemma EncryptDecrypt(s: State, w: Schedule)
    ensures EncryptState(DecryptState(s, w), w) == s
  {
    hide ShiftRows, UnShiftRows, SubBytes, UnSubBytes, Rounds, UnRounds, AddRoundKey;
    var t := AddRoundKey(s, w, 10);
    var u := UnSubBytes(UnShiftRows(UnRounds(t, w, 9)));
    AddRoundKeyTwice(u, w, 0);
    RoundsUnRounds(t, w, 9);
    SubBytesInverse(UnShiftRows(t));
    ShiftRowsInverse(t);
    AddRoundKeyTwice(s, w, 10);
  }

  // ------------------------------------------------------------------ blocks

  function LoadBlock(b: Block): State {
    State(Word(b[0], b[1], b[2], b[3]), Word(b[4], b[5], b[6], b[7]),
          Word(b[8], b[9], b[10], b[11]), Word(b[12], b[13], b[14], b[15]))
  }

  function SaveBlock(s: State): Block {
    [B0(s.w0), B1(s.w0), B2(s.w0), B3(s.w0), B0(s.w1), B1(s.w1), B2(s.w1), B3(s.w1),
     B0(s.w2), B1(s.w2), B2(s.w2), B3(s.w2), B0(s.w3), B1(s.w3), B2(s.w3), B3(s.w3)]
  }

  lemma LoadSave(s: State)
    ensures LoadBlock(SaveBlock(s)) == s
  {
    hide Word, B0, B1, B2, B3;
    WordOfBytes(s.w0);
    WordOfBytes(s.w1);
    WordOfBytes(s.w2);
    WordOfBytes(s.w3);
  }

  lemma SaveLoad(b: Block)
    ensures SaveBlock(LoadBlock(b)) == b
  {
    hide Word, B0, B1, B2, B3;
    BytesOfWord(b[0], b[1], b[2], b[3]);
    BytesOfWord(b[4], b[5], b[6], b[7]);
    BytesOfWord(b[8], b[9], b[10], b[11]);
    BytesOfWord(b[12], b[13], b[14], b[15]);
    Sixteen(b, SaveBlock(LoadBlock(b)));
  }

  lemma Sixteen(b: Block, c: Block)
    requires c == [b[0], b[1], b[2], b[3], b[4], b[5], b[6], b[7],
                   b[8], b[9], b[10], b[11], b[12], b[13], b[14], b[15]]
    ensures c == b
  {
  }

  function Encrypt(b: Block, w: Schedule): Block { SaveBlock(EncryptState(LoadBlock(b), w)) }

  function Decrypt(b: Block, w: Schedule): Block { SaveBlock(DecryptState(LoadBlock(b), w)) }

  /** On 16-byte blocks, as callers use it: both directions. */
  lemma BlockRoundTrip(b: Block, w: Schedule)
    ensures Decrypt(Encrypt(b, w), w) == b
    ensures Encrypt(Decrypt(b, w), w) == b
  {
    hide SaveBlock, LoadBlock, EncryptState, DecryptState;
    LoadSave(EncryptState(LoadBlock(b), w));
    LoadSave(DecryptState(LoadBlock(b), w));
    DecryptEncrypt(LoadBlock(b), w);
    EncryptDecrypt(LoadBlock(b), w);
    SaveLoad(b);
  }

  // ----------------------------------------------------- the cipher of FIPS 197

  lemma BytesAre(w: bv32)
    ensures ByteOf(w, 0) == B0(w) && ByteOf(w, 1) == B1(w) && ByteOf(w, 2) == B2(w) && ByteOf(w, 3) == B3(w)
  {
  }

  lemma XorByte0(a: bv32, k: bv32)
    ensures B0(a ^ k) == B0(a) ^ B0(k)
  {
  }

  lemma XorByte1(a: bv32, k: bv32)
    ensures B1(a ^ k) == B1(a) ^ B1(k)
  {
  }

  lemma XorByte2(a: bv32, k: bv32)
    ensures B2(a ^ k) == B2(a) ^ B2(k)
  {
  }

  lemma XorByte3(a: bv32, k: bv32)
    ensures B3(a ^ k) == B3(a) ^ B3(k)
  {
  }

  lemma Bytewise(a: bv32, k: bv32)
    ensures B0(XorWord(a, k)) == Plus(B0(a), B0(k)) && B1(XorWord(a, k)) == Plus(B1(a), B1(k))
    ensures B2(XorWord(a, k)) == Plus(B2(a), B2(k)) && B3(XorWord(a, k)) == Plus(B3(a), B3(k))
  {
    hide B0, B1, B2, B3;
    XorByte0(a, k);
    XorByte1(a, k);
    XorByte2(a, k);
    XorByte3(a, k);
  }

  lemma KeyByte(a: bv32, k: bv32, r: nat)
    requires r < 4
    ensures ByteOf(XorWord(a, k), r) == Plus(ByteOf(a, r), ByteOf(k, r))
  {
    hide *;
    BytesAre(a);
    BytesAre(k);
    BytesAre(XorWord(a, k));
    Bytewise(a, k);
    if r == 0 {
    } else if r == 1 {
    } else if r == 2 {
    } else {
      assert r == 3;
    }
  }

  function Column(s: State, c: nat): bv32
    requires c < 4
  {
    if c == 0 then s.w0 else if c == 1 then s.w1 else if c == 2 then s.w2 else s.w3
  }

  lemma SavedWord0(s: State)
    ensures var b := SaveBlock(s);
      && b[0] == ByteOf(s.w0, 0) && b[1] == ByteOf(s.w0, 1)
      && b[2] == ByteOf(s.w0, 2) && b[3] == ByteOf(s.w0, 3)
  {
    hide B0, B1, B2, B3, ByteOf;
    BytesAre(s.w0);
  }

  lemma SavedWord1(s: State)
    ensures var b := SaveBlock(s);
      && b[4] == ByteOf(s.w1, 0) && b[5] == ByteOf(s.w1, 1)
      && b[6] == ByteOf(s.w1, 2) && b[7] == ByteOf(s.w1, 3)
  {
    hide B0, B1, B2, B3, ByteOf;
    BytesAre(s.w1);
  }

  lemma SavedWord2(s: State)
    ensures var b := SaveBlock(s);
      && b[8] == ByteOf(s.w2, 0) && b[9] == ByteOf(s.w2, 1)
      && b[10] == ByteOf(s.w2, 2) && b[11] == ByteOf(s.w2, 3)
  {
    hide B0, B1, B2, B3, ByteOf;
    BytesAre(s.w2);
  }

  lemma SavedWord3(s: State)
    ensures var b := SaveBlock(s);
      && b[12] == ByteOf(s.w3, 0) && b[13] == ByteOf(s.w3, 1)
      && b[14] == ByteOf(s.w3, 2) && b[15] == ByteOf(s.w3, 3)
  {
    hide B0, B1, B2, B3, ByteOf;
    BytesAre(s.w3);
  }

  lemma Columns(s: State)
    ensures Column(s, 0) == s.w0 && Column(s, 1) == s.w1 && Column(s, 2) == s.w2 && Column(s, 3) == s.w3
  {
  }

  /** Each of the sixteen places. */
  lemma Places(k: nat)
    requires k < 16
    ensures k == 4 * (k / 4) + k % 4 && k / 4 < 4
  {
  }

  lemma SavedByte(s: State, k: nat)
    requires k < 16
    ensures SaveBlock(s)[k] == ByteOf(Column(s, k / 4), k % 4)
  {
    hide *;
    Columns(s);
    var c, r := k / 4, k % 4;
    Places(k);
    if c == 0 {
      SavedWord0(s);
      SavedIn(s, s.w0, c, r);
    } else if c == 1 {
      SavedWord1(s);
      SavedIn(s, s.w1, c, r);
    } else if c == 2 {
      SavedWord2(s);
      SavedIn(s, s.w2, c, r);
    } else {
      SavedWord3(s);
      SavedIn(s, s.w3, c, r);
    }
  }

  lemma SavedIn(s: State, x: bv32, c: nat, r: nat)
    requires c < 4 && r < 4
    requires var b := SaveBlock(s);
      && b[4 * c] == ByteOf(x, 0) && b[4 * c + 1] == ByteOf(x, 1)
      && b[4 * c + 2] == ByteOf(x, 2) && b[4 * c + 3] == ByteOf(x, 3)
    ensures SaveBlock(s)[4 * c + r] == ByteOf(x, r)
  {
    hide *;
    if r == 0 {
    } else if r == 1 {
    } else if r == 2 {
    } else {
      assert r == 3;
    }
  }

  lemma SavedBytes(s: State)
    ensures forall k :: 0 <= k < 16 ==> SaveBlock(s)[k] == ByteOf(Column(s, k / 4), k % 4)
  {
    hide ByteOf, Column, SaveBlock;
    forall k | 0 <= k < 16 ensures SaveBlock(s)[k] == ByteOf(Column(s, k / 4), k % 4) { SavedByte(s, k); }
  }

  lemma SaveKey(s: State, w: Schedule, round: nat)
    requires round <= 10
    ensures SaveBlock(AddRoundKey(s, w, round)) == WithKey(SaveBlock(s), w, round)
  {
    hide XorWord, Plus, ByteOf, SaveBlock;
    var t := AddRoundKey(s, w, round);
    SavedBytes(s);
    SavedBytes(t);
    forall k | 0 <= k < 16 ensures SaveBlock(t)[k] == WithKey(SaveBlock(s), w, round)[k] {
      KeyByte(Column(s, k / 4), w[4 * round + k / 4], k % 4);
    }
  }

  lemma SubByte(x: bv32, r: nat)
    requires r < 4
    ensures ByteOf(Subword(x), r) == Sbox(ByteOf(x, r))
  {
    hide Sbox, Word, B0, B1, B2, B3, ByteOf;
    BytesAre(x);
    BytesAre(Subword(x));
    BytesOfWord(Sbox(B0(x)), Sbox(B1(x)), Sbox(B2(x)), Sbox(B3(x)));
  }

  lemma SaveSub(s: State)
    ensures SaveBlock(SubBytes(s)) == Substituted(SaveBlock(s))
  {
    hide Sbox, Subword, ByteOf, SaveBlock;
    var t := SubBytes(s);
    SavedBytes(s);
    SavedBytes(t);
    forall k | 0 <= k < 16 ensures SaveBlock(t)[k] == Substituted(SaveBlock(s))[k] {
      SubByte(Column(s, k / 4), k % 4);
    }
  }

  /** Byte `r` of output word `c` of the row shift is byte `r` of word `c + r`. */
  lemma ShiftByte(s: State, c: nat, r: nat)
    requires c < 4 && r < 4
    ensures ByteOf(Column(ShiftRows(s), c), r) == ByteOf(Column(s, (c + r) % 4), r)
  {
    ShiftedColumn(s, c);
    hide *;
    var x := Column(ShiftRows(s), c);
    BytesAre(x);
    BytesAre(Column(s, (c + r) % 4));
    if r == 0 {
      assert (c + r) % 4 == c;
    } else if r == 1 {
    } else if r == 2 {
    } else {
      assert r == 3;
    }
  }

  lemma ShiftedColumn(s: State, c: nat)
    requires c < 4
    ensures var x := Column(ShiftRows(s), c);
      && B0(x) == B0(Column(s, c)) && B1(x) == B1(Column(s, (c + 1) % 4))
      && B2(x) == B2(Column(s, (c + 2) % 4)) && B3(x) == B3(Column(s, (c + 3) % 4))
  {
    hide B0, B1, B2, B3, Word, Column;
    Columns(s);
    Columns(ShiftRows(s));
    BytesOfWord(B0(s.w0), B1(s.w1), B2(s.w2), B3(s.w3));
    BytesOfWord(B0(s.w1), B1(s.w2), B2(s.w3), B3(s.w0));
    BytesOfWord(B0(s.w2), B1(s.w3), B2(s.w0), B3(s.w1));
    BytesOfWord(B0(s.w3), B1(s.w0), B2(s.w1), B3(s.w2));
    if c == 0 {
    } else if c == 1 {
    } else if c == 2 {
    } else {
      assert c == 3;
    }
  }

  lemma SaveShift(s: State)
    ensures SaveBlock(ShiftRows(s)) == Shifted(SaveBlock(s))
  {
    hide ByteOf, SaveBlock, ShiftRows, Column;
    var t := ShiftRows(s);
    SavedBytes(s);
    SavedBytes(t);
    forall k | 0 <= k < 16 ensures SaveBlock(t)[k] == Shifted(SaveBlock(s))[k] {
      ShiftByte(s, k / 4, k % 4);
      SavedByte(s, 4 * ((k / 4 + k % 4) % 4) + k % 4);
    }
  }

  lemma MixByte(a: bv8, b: bv8, c: bv8, d: bv8)
    ensures Mix(a, b, c, d) == Plus4(Times(a, 2), Times(b, 3), c, d)
  {
    hide Xmul, Times, Plus, Xor;
    XmulIsProduct(a, 2);
    XmulIsProduct(b, 3);
    SameSum(Times(a, 2), Times(b, 3), c, d);
  }

  lemma SameSum(a: bv8, b: bv8, c: bv8, d: bv8)
    ensures Xor4(a, b, c, d) == Plus4(a, b, c, d)
  {
  }

  lemma MixedBytes(x: bv32, r: nat)
    requires r < 4
    ensures ByteOf(MixWord(x), r) ==
      Plus4(Times(ByteOf(x, r), 2), Times(ByteOf(x, (r + 1) % 4), 3), ByteOf(x, (r + 2) % 4), ByteOf(x, (r + 3) % 4))
  {
    hide Mix, Word, B0, B1, B2, B3, Times, Plus4, ByteOf;
    var a, b, c, d := B0(x), B1(x), B2(x), B3(x);
    BytesAre(x);
    BytesAre(MixWord(x));
    BytesOfWord(Mix(a, b, c, d), Mix(b, c, d, a), Mix(c, d, a, b), Mix(d, a, b, c));
    MixByte(a, b, c, d);
    MixByte(b, c, d, a);
    MixByte(c, d, a, b);
    MixByte(d, a, b, c);
  }

  lemma SaveMix(s: State)
    ensures SaveBlock(MixColumns(s)) == Mixed(SaveBlock(s))
  {
    hide ByteOf, SaveBlock, MixWord, Times, Plus4, MixedByte, MixColumns;
    var t := MixColumns(s);
    SavedBytes(t);
    forall k | 0 <= k < 16 ensures SaveBlock(t)[k] == Mixed(SaveBlock(s))[k] {
      MixColumn4(s, k / 4, k % 4);
    }
  }

  lemma MixColumn4(s: State, c: nat, r: nat)
    requires c < 4 && r < 4
    ensures ByteOf(Column(MixColumns(s), c), r) == MixedByte(SaveBlock(s), c, r)
  {
    hide ByteOf, SaveBlock, MixWord, Times, Plus4, Column;
    MixedWord(s, c);
    MixedBytes(Column(s, c), r);
    RowByte(s, c, r);
    RowByte(s, c, (r + 1) % 4);
    RowByte(s, c, (r + 2) % 4);
    RowByte(s, c, (r + 3) % 4);
  }

  lemma MixedWord(s: State, c: nat)
    requires c < 4
    ensures Column(MixColumns(s), c) == MixWord(Column(s, c))
  {
    hide MixWord;
  }

  lemma RowByte(s: State, c: nat, r: nat)
    requires c < 4 && r < 4
    ensures SaveBlock(s)[4 * c + r] == ByteOf(Column(s, c), r)
  {
    hide ByteOf, SaveBlock, Column;
    SavedByte(s, 4 * c + r);
  }

  lemma {:induction false} SaveRounds(s: State, w: Schedule, n: nat)
    requires n <= 10
    ensures SaveBlock(Rounds(s, w, n)) == AfterRounds(SaveBlock(s), w, n)
  {
    hide SaveBlock, AddRoundKey, SubBytes, ShiftRows, MixColumns, WithKey, Substituted, Shifted, Mixed;
    if n > 0 {
      var t := Rounds(s, w, n - 1);
      SaveRounds(s, w, n - 1);
      SaveSub(t);
      SaveShift(SubBytes(t));
      SaveMix(ShiftRows(SubBytes(t)));
      SaveKey(MixColumns(ShiftRows(SubBytes(t))), w, n);
    }
  }

  /** Working on words is the cipher of section 5.1. */
  lemma EncryptIsCipher(b: Block, w: Schedule)
    ensures Encrypt(b, w) == CipherOf(b, w)
  {
    hide SaveBlock, LoadBlock, AddRoundKey, SubBytes, ShiftRows, WithKey, Substituted, Shifted, Rounds, AfterRounds;
    var s := LoadBlock(b);
    var a := AddRoundKey(s, w, 0);
    SaveLoad(b);
    SaveKey(s, w, 0);
    SaveRounds(a, w, 9);
    SaveSub(Rounds(a, w, 9));
    SaveShift(SubBytes(Rounds(a, w, 9)));
    SaveKey(ShiftRows(SubBytes(Rounds(a, w, 9))), w, 10);
  }

  /** A block cipher under a fixed key, in either direction. */
  type Cipher = Block -> Block

  ghost predicate Undoes(d: Cipher, e: Cipher) {
    forall b: Block :: d(e(b)) == b
  }

  function Encryption(w: Schedule): Cipher { b => Encrypt(b, w) }

  function Decryption(w: Schedule): Cipher { b => Decrypt(b, w) }

  lemma AesUndoes(w: Schedule)
    ensures Undoes(Decryption(w), Encryption(w)) && Undoes(Encryption(w), Decryption(w))
  {
    hide Encrypt, Decrypt;
    forall b: Block
      ensures Decryption(w)(Encryption(w)(b)) == b && Encryption(w)(Decryption(w)(b)) == b
    {
      BlockRoundTrip(b, w);
    }
  }

  lemma DecryptIsInverse(b: Block, w: Schedule)
    ensures CipherOf(Decrypt(b, w), w) == b
  {
    hide CipherOf, Encrypt, Decrypt;
    BlockRoundTrip(b, w);
    EncryptIsCipher(Decrypt(b, w), w);
  }

  // ------------------------------------------------------------- key expansion

  function RconTable(j: nat): bv8
    requires j < 11
  {
    [0x8d, 0x01, 0x02, 0x04, 0x08, 0x10, 0x20, 0x40, 0x80, 0x1b, 0x36][j]
  }

  lemma RconDoubles(j: nat)
    requires 1 <= j < 10
    ensures RconTable(j + 1) == Times(RconTable(j), 2)
  {
    if j == 1 {
    } else if j == 2 {
    } else if j == 3 {
    } else if j == 4 {
    } else if j == 5 {
    } else if j == 6 {
    } else if j == 7 {
    } else if j == 8 {
    } else {
      assert j == 9;
    }
  }

  lemma {:induction false} RconIs(j: nat)
    requires 1 <= j <= 10
    ensures RconTable(j) == Rcon(j)
  {
    hide Times, RconTable;
    if j == 1 {
      RconFirst();
    } else {
      RconIs(j - 1);
      RconDoubles(j - 1);
    }
  }

  lemma RconFirst()
    ensures RconTable(1) == 1
  {
  }

  function Rotword(x: bv32): bv32 { (x << 8) | ((x >> 24) & 0xFF) }

  lemma RotBytes(x: bv32)
    ensures B0(Rotword(x)) == B1(x) && B1(Rotword(x)) == B2(x)
    ensures B2(Rotword(x)) == B3(x) && B3(Rotword(x)) == B0(x)
  {
  }

  lemma RotByte(x: bv32, r: nat)
    requires r < 4
    ensures ByteOf(Rotword(x), r) == ByteOf(x, (r + 1) % 4)
  {
    hide *;
    RotBytes(x);
    BytesAre(x);
    BytesAre(Rotword(x));
    if r == 0 {
    } else if r == 1 {
    } else if r == 2 {
    } else {
      assert r == 3;
    }
  }

  function OnTop(c: bv8): bv32 { c as bv32 << 24 }

  lemma TopBytes(c: bv8)
    ensures B0(OnTop(c)) == c && B1(OnTop(c)) == 0 && B2(OnTop(c)) == 0 && B3(OnTop(c)) == 0
  {
  }

  lemma TopByte(c: bv8, r: nat)
    requires r < 4
    ensures ByteOf(OnTop(c), r) == if r == 0 then c else 0
  {
    hide *;
    TopBytes(c);
    BytesAre(OnTop(c));
    if r == 0 {
    } else if r == 1 {
    } else if r == 2 {
    } else {
      assert r == 3;
    }
  }

  /** What the loop of `aes128_init` adds to word `i - 4`. */
  function Temp(prev: bv32, i: nat): bv32
    requires 4 <= i < 44
  {
    if i % 4 == 0 then XorWord(Subword(Rotword(prev)), OnTop(RconTable(i / 4))) else prev
  }

  lemma TempBytes(w: Schedule, i: nat)
    requires 4 <= i < 44
    ensures forall r :: 0 <= r < 4 ==>
      ByteOf(XorWord(w[i - 4], Temp(w[i - 1], i)), r) == Plus(ByteOf(w[i - 4], r), Fresh(w, i, r))
  {
    hide ByteOf, XorWord, Plus, Subword, Rotword, OnTop, RconTable, Rcon, Sbox;
    forall r | 0 <= r < 4
      ensures ByteOf(XorWord(w[i - 4], Temp(w[i - 1], i)), r) == Plus(ByteOf(w[i - 4], r), Fresh(w, i, r))
    {
      KeyByte(w[i - 4], Temp(w[i - 1], i), r);
      if i % 4 == 0 {
        KeyByte(Subword(Rotword(w[i - 1])), OnTop(RconTable(i / 4)), r);
        SubByte(Rotword(w[i - 1]), r);
        RotByte(w[i - 1], r);
        TopByte(RconTable(i / 4), r);
        RconIs(i / 4);
      }
    }
  }

  lemma KeyWordBytes(a: bv8, b: bv8, c: bv8, d: bv8)
    ensures var x := Word(a, b, c, d);
      ByteOf(x, 0) == a && ByteOf(x, 1) == b && ByteOf(x, 2) == c && ByteOf(x, 3) == d
  {
    hide B0, B1, B2, B3, Word, ByteOf;
    BytesOfWord(a, b, c, d);
    BytesAre(Word(a, b, c, d));
  }

  lemma LoadedWord(w: Schedule, key: Block, i: nat)
    requires i < 4 && w[i] == Word(key[4 * i], key[4 * i + 1], key[4 * i + 2], key[4 * i + 3])
    ensures Expanded(w, key, i)
  {
    hide ByteOf, Word, Fresh;
    KeyWordBytes(key[4 * i], key[4 * i + 1], key[4 * i + 2], key[4 * i + 3]);
    forall r | 0 <= r < 4 ensures ByteOf(w[i], r) == key[4 * i + r] {
      if r == 0 {
      } else if r == 1 {
      } else if r == 2 {
      } else {
        assert r == 3;
      }
    }
  }

  /** Later words do not matter. */
  lemma ExpandedKept(v: Schedule, w: Schedule, key: Block, i: nat)
    requires i < 44 && v[..i + 1] == w[..i + 1] && Expanded(v, key, i)
    ensures Expanded(w, key, i)
  {
    hide ByteOf, Plus, Sbox, Rcon;
    assert v[i] == v[..i + 1][i] == w[i];
    if i >= 4 {
      assert v[i - 4] == v[..i + 1][i - 4] == w[i - 4];
      assert v[i - 1] == v[..i + 1][i - 1] == w[i - 1];
    }
  }

  lemma NextWord(v: Schedule, w: Schedule, key: Block, i: nat)
    requires 4 <= i < 44 && w == v[i := XorWord(v[i - 4], Temp(v[i - 1], i))]
    requires forall j :: 0 <= j < i ==> Expanded(v, key, j)
    ensures forall j :: 0 <= j <= i ==> Expanded(w, key, j)
  {
    hide ByteOf, Plus, Sbox, Rcon, XorWord, Temp, Expanded;
    forall j | 0 <= j < i ensures Expanded(w, key, j) {
      assert v[..j + 1] == w[..j + 1];
      ExpandedKept(v, w, key, j);
    }
    TempBytes(v, i);
    NewWord(v, w, key, i);
  }

  lemma NewWord(v: Schedule, w: Schedule, key: Block, i: nat)
    requires 4 <= i < 44 && w == v[i := XorWord(v[i - 4], Temp(v[i - 1], i))]
    requires forall r :: 0 <= r < 4 ==> ByteOf(w[i], r) == Plus(ByteOf(v[i - 4], r), Fresh(v, i, r))
    ensures Expanded(w, key, i)
  {
    hide ByteOf, Plus, Sbox, Rcon, XorWord, Temp;
    assert w[i - 4] == v[i - 4] && w[i - 1] == v[i - 1];
  }

  // ---------------------------------------------------- the code, in place

  method Colmul(x: bv32, a: bv8, b: bv8, c: bv8, d: bv8) returns (r: bv8)
    ensures r == Sum4(Xmul(B0(x), a), Xmul(B1(x), b), Xmul(B2(x), c), Xmul(B3(x), d))
  {
    hide Xmul, B0, B1, B2, B3;
    var p := XmulLoop(B0(x), a);
    var q := XmulLoop(B1(x), b);
    var s := XmulLoop(B2(x), c);
    var t := XmulLoop(B3(x), d);
    r := p ^ q ^ s ^ t;
  }

  lemma XmulOne(x: bv8)
    ensures Xmul(x, 1) == x
  {
  }

  /** The rows of the two matrices as `colmul` is called. */
  lemma MixRows(a: bv8, b: bv8, c: bv8, d: bv8)
    ensures Sum4(Xmul(a, 2), Xmul(b, 3), Xmul(c, 1), Xmul(d, 1)) == Mix(a, b, c, d)
    ensures Sum4(Xmul(a, 1), Xmul(b, 2), Xmul(c, 3), Xmul(d, 1)) == Mix(b, c, d, a)
    ensures Sum4(Xmul(a, 1), Xmul(b, 1), Xmul(c, 2), Xmul(d, 3)) == Mix(c, d, a, b)
    ensures Sum4(Xmul(a, 3), Xmul(b, 1), Xmul(c, 1), Xmul(d, 2)) == Mix(d, a, b, c)
  {
    hide Xmul, Xor4, Sum4;
    XmulOne(a);
    XmulOne(b);
    XmulOne(c);
    XmulOne(d);
    FourTerms(Xmul(a, 2), Xmul(b, 3), c, d);
    FourTerms(a, Xmul(b, 2), Xmul(c, 3), d);
    FourTerms(a, b, Xmul(c, 2), Xmul(d, 3));
    FourTerms(Xmul(a, 3), b, c, Xmul(d, 2));
    RotateSum(a, Xmul(b, 2), Xmul(c, 3), d);
    RotateSum(a, b, Xmul(c, 2), Xmul(d, 3));
    RotateSum(b, Xmul(c, 2), Xmul(d, 3), a);
    RotateSum(Xmul(d, 2), Xmul(a, 3), b, c);
  }

  lemma UnmixRows(a: bv8, b: bv8, c: bv8, d: bv8)
    ensures Sum4(Xmul(a, 14), Xmul(b, 11), Xmul(c, 13), Xmul(d, 9)) == Unmix(a, b, c, d)
    ensures Sum4(Xmul(a, 9), Xmul(b, 14), Xmul(c, 11), Xmul(d, 13)) == Unmix(b, c, d, a)
    ensures Sum4(Xmul(a, 13), Xmul(b, 9), Xmul(c, 14), Xmul(d, 11)) == Unmix(c, d, a, b)
    ensures Sum4(Xmul(a, 11), Xmul(b, 13), Xmul(c, 9), Xmul(d, 14)) == Unmix(d, a, b, c)
  {
    hide Xmul, Xor4, Sum4;
    FourTerms(Xmul(a, 14), Xmul(b, 11), Xmul(c, 13), Xmul(d, 9));
    FourTerms(Xmul(a, 9), Xmul(b, 14), Xmul(c, 11), Xmul(d, 13));
    FourTerms(Xmul(a, 13), Xmul(b, 9), Xmul(c, 14), Xmul(d, 11));
    FourTerms(Xmul(a, 11), Xmul(b, 13), Xmul(c, 9), Xmul(d, 14));
    RotateSum(Xmul(a, 9), Xmul(b, 14), Xmul(c, 11), Xmul(d, 13));
    RotateSum(Xmul(a, 13), Xmul(b, 9), Xmul(c, 14), Xmul(d, 11));
    RotateSum(Xmul(b, 9), Xmul(c, 14), Xmul(d, 11), Xmul(a, 13));
    RotateSum(Xmul(d, 14), Xmul(a, 11), Xmul(b, 13), Xmul(c, 9));
  }

  lemma SavedBlock(b: seq<bv8>, s: State)
    requires |b| == 16
    requires b[0] == B0(s.w0) && b[1] == B1(s.w0) && b[2] == B2(s.w0) && b[3] == B3(s.w0)
    requires b[4] == B0(s.w1) && b[5] == B1(s.w1) && b[6] == B2(s.w1) && b[7] == B3(s.w1)
    requires b[8] == B0(s.w2) && b[9] == B1(s.w2) && b[10] == B2(s.w2) && b[11] == B3(s.w2)
    requires b[12] == B0(s.w3) && b[13] == B1(s.w3) && b[14] == B2(s.w3) && b[15] == B3(s.w3)
    ensures b == SaveBlock(s)
  {
    hide B0, B1, B2, B3;
  }

  class Context {
    var W: Schedule
    const S: array<bv32>

    ghost predicate Valid()
      reads this
    {
      S.Length == 4
    }

    ghost function St(): State
      requires Valid()
      reads this, S
    {
      State(S[0], S[1], S[2], S[3])
    }

    constructor (w: Schedule)
      ensures Valid() && W == w && fresh(S)
    {
      W := w;
      S := new bv32[4];
    }

    /** `aes128_init`. */
    method Init(key: Block)
      modifies this`W
      ensures Expansion(W, key)
    {
      hide ByteOf, Plus, Sbox, Rcon, XorWord, Word, Expanded, Subword, Rotword, OnTop, RconTable;
      for i := 0 to 4
        invariant forall j :: 0 <= j < i ==> Expanded(W, key, j)
      {
        ghost var v := W;
        W := W[i := Word(key[4 * i], key[4 * i + 1], key[4 * i + 2], key[4 * i + 3])];
        LoadedWord(W, key, i);
        forall j | 0 <= j < i ensures Expanded(W, key, j) {
          assert v[..j + 1] == W[..j + 1];
          ExpandedKept(v, W, key, j);
        }
      }
      for i := 4 to 44
        invariant forall j :: 0 <= j < i ==> Expanded(W, key, j)
      {
        ghost var v := W;
        var temp := W[i - 1];
        if i % 4 == 0 {
          temp := XorWord(Subword(Rotword(temp)), OnTop(RconTable(i / 4)));
        }
        W := W[i := XorWord(W[i - 4], temp)];
        NextWord(v, W, key, i);
      }
    }

    method KeyStep(r: nat)
      requires Valid() && r <= 10
      modifies S
      ensures St() == AddRoundKey(old(St()), W, r)
    {
      hide XorWord;
      for c := 0 to 4
        invariant forall j :: 0 <= j < c ==> S[j] == XorWord(old(S[j]), W[4 * r + j])
        invariant forall j :: c <= j < 4 ==> S[j] == old(S[j])
      {
        S[c] := XorWord(S[c], W[r * 4 + c]);
      }
    }

    method FwdShiftRows()
      requires Valid()
      modifies S
      ensures St() == ShiftRows(old(St()))
    {
      hide Word, B0, B1, B2, B3;
      var p0 := Word(B0(S[0]), B1(S[1]), B2(S[2]), B3(S[3]));
      var p1 := Word(B0(S[1]), B1(S[2]), B2(S[3]), B3(S[0]));
      var p2 := Word(B0(S[2]), B1(S[3]), B2(S[0]), B3(S[1]));
      var p3 := Word(B0(S[3]), B1(S[0]), B2(S[1]), B3(S[2]));
      S[0], S[1], S[2], S[3] := p0, p1, p2, p3;
    }

    method InvShiftRows()
      requires Valid()
      modifies S
      ensures St() == UnShiftRows(old(St()))
    {
      hide Word, B0, B1, B2, B3;
      var p0 := Word(B0(S[0]), B1(S[3]), B2(S[2]), B3(S[1]));
      var p1 := Word(B0(S[1]), B1(S[0]), B2(S[3]), B3(S[2]));
      var p2 := Word(B0(S[2]), B1(S[1]), B2(S[0]), B3(S[3]));
      var p3 := Word(B0(S[3]), B1(S[2]), B2(S[1]), B3(S[0]));
      S[0], S[1], S[2], S[3] := p0, p1, p2, p3;
    }

    method FwdSubBytes()
      requires Valid()
      modifies S
      ensures St() == SubBytes(old(St()))
    {
      hide Subword;
      for i := 0 to 4
        invariant forall j :: 0 <= j < i ==> S[j] == Subword(old(S[j]))
        invariant forall j :: i <= j < 4 ==> S[j] == old(S[j])
      {
        S[i] := Subword(S[i]);
      }
    }

    method InvSubBytes()
      requires Valid()
      modifies S
      ensures St() == UnSubBytes(old(St()))
    {
      hide UnSubword;
      for i := 0 to 4
        invariant forall j :: 0 <= j < i ==> S[j] == UnSubword(old(S[j]))
        invariant forall j :: i <= j < 4 ==> S[j] == old(S[j])
      {
        S[i] := UnSubword(S[i]);
      }
    }

    method FwdMixColumns()
      requires Valid()
      modifies S
      ensures St() == MixColumns(old(St()))
    {
      hide MixWord;
      for i := 0 to 4
        invariant forall j :: 0 <= j < i ==> S[j] == MixWord(old(S[j]))
        invariant forall j :: i <= j < 4 ==> S[j] == old(S[j])
      {
        var x := MixColumn(S[i]);
        S[i] := x;
      }
    }

    method InvMixColumns()
      requires Valid()
      modifies S
      ensures St() == UnMixColumns(old(St()))
    {
      hide UnMixWord;
      for i := 0 to 4
        invariant forall j :: 0 <= j < i ==> S[j] == UnMixWord(old(S[j]))
        invariant forall j :: i <= j < 4 ==> S[j] == old(S[j])
      {
        var x := UnMixColumn(S[i]);
        S[i] := x;
      }
    }

    method LoadInto(blk: array<bv8>)
      requires Valid() && blk.Length == 16
      modifies S
      ensures St() == LoadBlock(blk[..])
    {
      hide Word;
      S[0] := Word(blk[0], blk[1], blk[2], blk[3]);
      S[1] := Word(blk[4], blk[5], blk[6], blk[7]);
      S[2] := Word(blk[8], blk[9], blk[10], blk[11]);
      S[3] := Word(blk[12], blk[13], blk[14], blk[15]);
    }

    method SaveFrom(blk: array<bv8>)
      requires Valid() && blk.Length == 16
      modifies blk
      ensures blk[..] == SaveBlock(St())
    {
      hide B0, B1, B2, B3, SaveBlock;
      SaveWord(S[0], blk, 0);
      SaveWord(S[1], blk, 4);
      SaveWord(S[2], blk, 8);
      SaveWord(S[3], blk, 12);
      SavedBlock(blk[..], St());
    }

    /** `aes128_encrypt`, in place. */
    method EncryptInPlace(blk: array<bv8>)
      requires Valid() && blk.Length == 16
      modifies S, blk
      ensures blk[..] == Encrypt(old(blk[..]), W) == CipherOf(old(blk[..]), W)
    {
      hide LoadBlock, SaveBlock, AddRoundKey, SubBytes, ShiftRows, MixColumns, CipherOf;
      ghost var b: Block := blk[..];
      LoadInto(blk);
      KeyStep(0);
      ghost var a := St();
      for r := 1 to 10
        invariant St() == Rounds(a, W, r - 1)
      {
        FwdSubBytes();
        FwdShiftRows();
        FwdMixColumns();
        KeyStep(r);
      }
      FwdSubBytes();
      FwdShiftRows();
      KeyStep(10);
      SaveFrom(blk);
      EncryptIsCipher(b, W);
    }

    /** `aes128_decrypt`, in place. */
    method DecryptInPlace(blk: array<bv8>)
      requires Valid() && blk.Length == 16
      modifies S, blk
      ensures blk[..] == Decrypt(old(blk[..]), W) && CipherOf(blk[..], W) == old(blk[..])
    {
      hide LoadBlock, SaveBlock, AddRoundKey, UnSubBytes, UnShiftRows, UnMixColumns, CipherOf;
      ghost var b: Block := blk[..];
      LoadInto(blk);
      KeyStep(10);
      ghost var a := St();
      var r := 9;
      while r >= 1
        invariant 0 <= r <= 9
        invariant UnRounds(St(), W, r) == UnRounds(a, W, 9)
      {
        InvShiftRows();
        InvSubBytes();
        KeyStep(r);
        InvMixColumns();
        r := r - 1;
      }
      InvShiftRows();
      InvSubBytes();
      KeyStep(0);
      SaveFrom(blk);
      DecryptIsInverse(b, W);
    }
  }

  method SaveWord(w: bv32, blk: array<bv8>, at: nat)
    requires at + 4 <= blk.Length
    modifies blk
    ensures blk[at] == B0(w) && blk[at + 1] == B1(w) && blk[at + 2] == B2(w) && blk[at + 3] == B3(w)
    ensures forall k :: 0 <= k < blk.Length && !(at <= k < at + 4) ==> blk[k] == old(blk[k])
  {
    hide B0, B1, B2, B3;
    blk[at] := B0(w);
    blk[at + 1] := B1(w);
    blk[at + 2] := B2(w);
    blk[at + 3] := B3(w);
  }

  method MixColumn(x: bv32) returns (r: bv32)
    ensures r == MixWord(x)
  {
    hide Xmul, Sum4, Mix, Word, B0, B1, B2, B3;
    var a := Colmul(x, 2, 3, 1, 1);
    var b := Colmul(x, 1, 2, 3, 1);
    var c := Colmul(x, 1, 1, 2, 3);
    var d := Colmul(x, 3, 1, 1, 2);
    MixRows(B0(x), B1(x), B2(x), B3(x));
    r := Word(a, b, c, d);
  }

  method UnMixColumn(x: bv32) returns (r: bv32)
    ensures r == UnMixWord(x)
  {
    hide Xmul, Sum4, Unmix, Word, B0, B1, B2, B3;
    var a := Colmul(x, 0x0E, 0x0B, 0x0D, 0x09);
    var b := Colmul(x, 0x09, 0x0E, 0x0B, 0x0D);
    var c := Colmul(x, 0x0D, 0x09, 0x0E, 0x0B);
    var d := Colmul(x, 0x0B, 0x0D, 0x09, 0x0E);
    UnmixRows(B0(x), B1(x), B2(x), B3(x));
    r := Word(a, b, c, d);
  }
}
