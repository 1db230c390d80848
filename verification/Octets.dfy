/** Numbers as bytes in memory. */
module Octets {
  import opened Arith

  /** A number as bytes, the lowest first, cut to `n` bytes. */
  function NumberBytes(s: nat, n: nat): (r: seq<bv8>)
    ensures |r| == n
  {
    if n == 0 then [] else [LowByte(s)] + NumberBytes(s / 256, n - 1)
  }

  function LowByte(s: nat): bv8 { (s % 256) as bv8 }

  lemma NumberStep(s: nat, n: nat)
    ensures NumberBytes(s, 0) == [] && NumberBytes(s, n + 1) == [LowByte(s)] + NumberBytes(s / 256, n)
  {
    hide LowByte;
  }

  /** The number that bytes stand for, the lowest first. */
  function NumberOf(n: seq<bv8>): nat {
    if n == [] then 0 else n[0] as nat + 256 * NumberOf(n[1..])
  }

  lemma LowByteIs(s: nat)
    ensures LowByte(s) as nat == s % 256
  {
    ByteThere(s % 256);
  }

  lemma ByteThere0(v: nat)
    requires 0 <= v < 32
    ensures v as bv8 as nat == v
  {
  }

  lemma ByteThere1(v: nat)
    requires 32 <= v < 64
    ensures v as bv8 as nat == v
  {
  }

  lemma ByteThere2(v: nat)
    requires 64 <= v < 96
    ensures v as bv8 as nat == v
  {
  }

  lemma ByteThere3(v: nat)
    requires 96 <= v < 128
    ensures v as bv8 as nat == v
  {
  }

  lemma ByteThere4(v: nat)
    requires 128 <= v < 160
    ensures v as bv8 as nat == v
  {
  }

  lemma ByteThere5(v: nat)
    requires 160 <= v < 192
    ensures v as bv8 as nat == v
  {
  }

  lemma ByteThere6(v: nat)
    requires 192 <= v < 224
    ensures v as bv8 as nat == v
  {
  }

  lemma ByteThere7(v: nat)
    requires 224 <= v < 256
    ensures v as bv8 as nat == v
  {
  }

  lemma ByteThere(v: nat)
    requires v < 256
    ensures v as bv8 as nat == v
  {
    hide *;
    if v < 32 {
      ByteThere0(v);
    } else if v < 64 {
      ByteThere1(v);
    } else if v < 96 {
      ByteThere2(v);
    } else if v < 128 {
      ByteThere3(v);
    } else if v < 160 {
      ByteThere4(v);
    } else if v < 192 {
      ByteThere5(v);
    } else if v < 224 {
      ByteThere6(v);
    } else {
      ByteThere7(v);
    }
  }

  /** What is left of a number in `n` bytes. */
  lemma {:induction false} NumberCut(s: nat, n: nat)
    ensures Pow256(n) > 0 && NumberOf(NumberBytes(s, n)) == s % Pow256(n)
  {
    if n > 0 {
      NumberCut(s / 256, n - 1);
      LowByteIs(s);
      CutStep(s, Pow256(n - 1));
    }
  }

  lemma CutStep(s: nat, p: nat)
    requires p > 0
    ensures s % 256 + 256 * (s / 256 % p) == s % (256 * p)
  {
    var q, r := s / 256 / p, s / 256 % p;
    MulAssoc(256, p, q);
    DivModOf(q, s % 256 + 256 * r, 256 * p);
  }

  lemma NumberThere(s: nat, n: nat)
    requires s < Pow256(n)
    ensures NumberOf(NumberBytes(s, n)) == s
  {
    hide NumberBytes, NumberOf, Pow256;
    NumberCut(s, n);
    DivModOf(0, s, Pow256(n));
  }

  lemma {:induction false} NumberAppend(a: seq<bv8>, b: seq<bv8>)
    ensures NumberOf(a + b) == NumberOf(a) + Pow256(|a|) * NumberOf(b)
  {
    if a == [] {
      assert a + b == b;
    } else {
      assert (a + b)[1..] == a[1..] + b;
      NumberAppend(a[1..], b);
      MulAssoc(256, Pow256(|a| - 1), NumberOf(b));
    }
  }

  /** Bytes of a given number are determined by it. */
  lemma {:induction false} NumberInjective(a: seq<bv8>, b: seq<bv8>)
    requires |a| == |b| && NumberOf(a) == NumberOf(b)
    ensures a == b
  {
    if a != [] {
      QuotientUnique(NumberOf(a[1..]), a[0] as nat, NumberOf(b[1..]), b[0] as nat, 256);
      ByteInjective(a[0], b[0]);
      NumberInjective(a[1..], b[1..]);
    }
  }

  lemma ByteInjective(a: bv8, b: bv8)
    requires a as nat == b as nat
    ensures a == b
  {
  }

  lemma Wide64()
    ensures 0x1_0000_0000_0000_0000 <= Pow256(16)
  {
    assert Pow256(2) == 0x1_0000;
    hide Pow256;
    Pow256Sum(2, 2);
    Pow256Sum(4, 4);
    Pow256Sum(8, 8);
  }
}
