/** The field of 256 elements, section 4.2 of FIPS 197: bytes are polynomials,
    bit `i` the coefficient of x^i. */
module Gf256 {

  /** Carry-less product, and its remainder modulo x^8 + x^4 + x^3 + x + 1. */
  function Product(x: bv8, y: bv8): (p: bv16)
    ensures p < 0x8000
  {
    Partial(x as bv16, y)
  }

  function Partial(z: bv16, y: bv8): bv16 {
    (if y & 1 == 1 then z else 0) ^ (if y & 2 == 2 then z << 1 else 0) ^ (if y & 4 == 4 then z << 2 else 0)
    ^ (if y & 8 == 8 then z << 3 else 0) ^ (if y & 16 == 16 then z << 4 else 0)
    ^ (if y & 32 == 32 then z << 5 else 0) ^ (if y & 64 == 64 then z << 6 else 0)
    ^ (if y & 128 == 128 then z << 7 else 0)
  }

  function Reduce(p: bv16, bit: bv16, modulus: bv16): bv16 {
    if p & bit == 0 then p else p ^ modulus
  }

  function Remainder(p: bv16): (r: bv16)
    requires p < 0x8000
    ensures r < 0x100
  {
    var p1 := Reduce(p, 0x4000, 0x46c0);
    var p2 := Reduce(p1, 0x2000, 0x2360);
    var p3 := Reduce(p2, 0x1000, 0x11b0);
    var p4 := Reduce(p3, 0x0800, 0x08d8);
    var p5 := Reduce(p4, 0x0400, 0x046c);
    var p6 := Reduce(p5, 0x0200, 0x0236);
    Reduce(p6, 0x0100, 0x011b)
  }

  function Times(x: bv8, y: bv8): bv8 { Remainder(Product(x, y)) as bv8 }

  ghost predicate Inverse(x: bv8, y: bv8) {
    (x == 0 && y == 0) || Times(x, y) == 1
  }

  function Bit(x: bv8, i: nat): bv8
    requires i < 8
  {
    (x >> i) & 1
  }

  /** The affine map of section 5.1.1 by whole bytes, and the map back. */
  function Affine(y: bv8): bv8 {
    y ^ y.RotateRight(4) ^ y.RotateRight(5) ^ y.RotateRight(6) ^ y.RotateRight(7) ^ 0x63
  }

  function UnAffine(z: bv8): bv8 { z.RotateRight(2) ^ z.RotateRight(5) ^ z.RotateRight(7) ^ 0x05 }

  lemma AffineBack(z: bv8)
    ensures Affine(UnAffine(z)) == z
  {
  }

  /** Bit `i` of it, section 5.1.1. */
  function AffineSum(y: bv8, i: nat): bv8
    requires i < 8
  {
    Bit(y, i) ^ Bit(y, (i + 4) % 8) ^ Bit(y, (i + 5) % 8) ^ Bit(y, (i + 6) % 8) ^ Bit(y, (i + 7) % 8) ^ Bit(0x63, i)
  }

  lemma AffineBit0(y: bv8)
    ensures Bit(Affine(y), 0) == AffineSum(y, 0)
  {
  }

  lemma AffineBit1(y: bv8)
    ensures Bit(Affine(y), 1) == AffineSum(y, 1)
  {
  }

  lemma AffineBit2(y: bv8)
    ensures Bit(Affine(y), 2) == AffineSum(y, 2)
  {
  }

  lemma AffineBit3(y: bv8)
    ensures Bit(Affine(y), 3) == AffineSum(y, 3)
  {
  }

  lemma AffineBit4(y: bv8)
    ensures Bit(Affine(y), 4) == AffineSum(y, 4)
  {
  }

  lemma AffineBit5(y: bv8)
    ensures Bit(Affine(y), 5) == AffineSum(y, 5)
  {
  }

  lemma AffineBit6(y: bv8)
    ensures Bit(Affine(y), 6) == AffineSum(y, 6)
  {
  }

  lemma AffineBit7(y: bv8)
    ensures Bit(Affine(y), 7) == AffineSum(y, 7)
  {
  }

  lemma AffineBit(y: bv8, i: nat)
    requires i < 8
    ensures Bit(Affine(y), i) == AffineSum(y, i)
  {
    hide *;
    if i == 0 {
      AffineBit0(y);
    } else if i == 1 {
      AffineBit1(y);
    } else if i == 2 {
      AffineBit2(y);
    } else if i == 3 {
      AffineBit3(y);
    } else if i == 4 {
      AffineBit4(y);
    } else if i == 5 {
      AffineBit5(y);
    } else if i == 6 {
      AffineBit6(y);
    } else {
      assert i == 7;
      AffineBit7(y);
    }
  }
}
