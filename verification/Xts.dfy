/** Disk image encryption with AES-XTS (src/dcrypt/deitool.c), section 5 of
    IEEE 1619, by one process or by several workers.

    Ciphers are arbitrary functions on blocks; `Aes128` provides the real ones. */
module Xts {
  import opened Arith
  import opened Octets
  import opened Fips197
  import opened Aes128

  const SECTOR := 512

  type Sector = s: seq<bv8> | |s| == 512 witness seq(512, _ => 0)

  function XorBlock(a: Block, t: Block): (r: Block)
    ensures forall i :: 0 <= i < 16 ==> r[i] == a[i] ^ t[i]
  {
    var r: seq<bv8> := seq(16, i requires 0 <= i < 16 => a[i] ^ t[i]);
    r
  }

  lemma XorBlockTwice(a: Block, t: Block)
    ensures XorBlock(XorBlock(a, t), t) == a
  {
    var x := XorBlock(a, t);
    forall i | 0 <= i < 16 ensures XorBlock(x, t)[i] == a[i] {
      XorBytes(a[i], t[i]);
    }
  }

  lemma XorBytes(a: bv8, m: bv8)
    ensures (a ^ m) ^ m == a
  {
  }

  /** Shift left by one across bytes, the lowest first, and fold the bit that
      falls out back in. */
  function ShiftedByte(t: Block, i: nat): bv8
    requires i < 16
  {
    ShiftIn(t[i], if i == 0 then 0 else t[i - 1])
  }

  function ShiftIn(a: bv8, below: bv8): bv8 { (a << 1) + ((below >> 7) & 1) }

  function FoldByte(a: bv8): bv8 { a ^ 0x87 }

  predicate Carry(a: bv8) { (a >> 7) & 1 == 1 }

  function Shifted(t: Block): (u: Block)
    ensures forall i :: 0 <= i < 16 ==> u[i] == ShiftedByte(t, i)
  {
    var u: seq<bv8> := seq(16, i requires 0 <= i < 16 => ShiftedByte(t, i));
    u
  }

  function Folded(u: Block): Block { u[0 := FoldByte(u[0])] }

  function NextTweak(t: Block): Block {
    if Carry(t[15]) then Folded(Shifted(t)) else Shifted(t)
  }

  method NextTweakInPlace(t: array<bv8>)
    requires t.Length == 16
    modifies t
    ensures t[..] == NextTweak(old(t[..]))
  {
    ghost var s: Block := t[..];
    var c: bv8 := 0;
    for i := 0 to 16
      invariant c == if i == 0 then 0 else (s[i - 1] >> 7) & 1
      invariant i > 0 ==> (c == 1 <==> Carry(s[i - 1])) && (c == 0 || c == 1)
      invariant forall j :: 0 <= j < i ==> t[j] == ShiftedByte(s, j)
      invariant forall j :: i <= j < 16 ==> t[j] == s[j]
    {
      var ti := t[i];
      t[i] := (ti << 1) + c;
      c := (ti >> 7) & 1;
    }
    if c != 0 {
      t[0] := t[0] ^ 0x87;
    }
    assert t[..] == NextTweak(s);
  }

  /** A sector from its first tweak on: mask, cipher, mask, block by block. */
  function Blocks(s: seq<bv8>, t: Block, f: Cipher): (r: seq<bv8>)
    requires |s| % 16 == 0
    ensures |r| == |s|
  {
    if s == [] then []
    else
      var x: Block := XorBlock(f(XorBlock(s[..16], t)), t);
      x + Blocks(s[16..], NextTweak(t), f)
  }

  /** Decryption of a sector undoes its encryption, given the same tweak. */
  lemma {:induction false} BlocksUndone(s: seq<bv8>, t: Block, e: Cipher, d: Cipher)
    requires |s| % 16 == 0 && Undoes(d, e)
    ensures Blocks(Blocks(s, t, e), t, d) == s
  {
    hide NextTweak, XorBlock;
    if s != [] {
      var a: Block := s[..16];
      var y := e(XorBlock(a, t));
      var x := XorBlock(y, t);
      var r := Blocks(s, t, e);
      assert r[..16] == x && r[16..] == Blocks(s[16..], NextTweak(t), e);
      XorBlockTwice(y, t);
      assert d(e(XorBlock(a, t))) == XorBlock(a, t);
      XorBlockTwice(a, t);
      BlocksUndone(s[16..], NextTweak(t), e, d);
    }
  }

  /** Sixteen bytes as one number, the lowest first. */
  function Pack16(a0: bv8, a1: bv8, a2: bv8, a3: bv8, a4: bv8, a5: bv8, a6: bv8, a7: bv8, a8: bv8, a9: bv8,
      a10: bv8, a11: bv8, a12: bv8, a13: bv8, a14: bv8, a15: bv8): bv128 {
    a0 as bv128
    | (a1 as bv128 << 8)
    | (a2 as bv128 << 16)
    | (a3 as bv128 << 24)
    | (a4 as bv128 << 32)
    | (a5 as bv128 << 40)
    | (a6 as bv128 << 48)
    | (a7 as bv128 << 56)
    | (a8 as bv128 << 64)
    | (a9 as bv128 << 72)
    | (a10 as bv128 << 80)
    | (a11 as bv128 << 88)
    | (a12 as bv128 << 96)
    | (a13 as bv128 << 104)
    | (a14 as bv128 << 112)
    | (a15 as bv128 << 120)
  }

  function Pack(t: Block): bv128 {
    Pack16(t[0], t[1], t[2], t[3], t[4], t[5], t[6], t[7], t[8], t[9], t[10], t[11], t[12], t[13], t[14], t[15])
  }

  /** Multiplication by x in GF(2^128) modulo x^128 + x^7 + x^2 + x + 1,
      section 5.2 of IEEE 1619. */
  function Double(x: bv128): bv128 {
    if TopBit(x) then FoldWide(ShiftWide(x)) else ShiftWide(x)
  }

  function ShiftWide(x: bv128): bv128 { x << 1 }

  function FoldWide(x: bv128): bv128 { x ^ ((1 << 7) ^ (1 << 2) ^ (1 << 1) ^ 1) }

  predicate TopBit(x: bv128) { (x >> 127) & 1 == 1 }

  lemma ShiftPacked(a0: bv8, a1: bv8, a2: bv8, a3: bv8, a4: bv8, a5: bv8, a6: bv8, a7: bv8, a8: bv8, a9: bv8,
      a10: bv8, a11: bv8, a12: bv8, a13: bv8, a14: bv8, a15: bv8)
    ensures Pack16(a0 << 1,
        (a1 << 1) + ((a0 >> 7) & 1), (a2 << 1) + ((a1 >> 7) & 1), (a3 << 1) + ((a2 >> 7) & 1),
        (a4 << 1) + ((a3 >> 7) & 1), (a5 << 1) + ((a4 >> 7) & 1), (a6 << 1) + ((a5 >> 7) & 1),
        (a7 << 1) + ((a6 >> 7) & 1), (a8 << 1) + ((a7 >> 7) & 1), (a9 << 1) + ((a8 >> 7) & 1),
        (a10 << 1) + ((a9 >> 7) & 1), (a11 << 1) + ((a10 >> 7) & 1), (a12 << 1) + ((a11 >> 7) & 1),
        (a13 << 1) + ((a12 >> 7) & 1), (a14 << 1) + ((a13 >> 7) & 1), (a15 << 1) + ((a14 >> 7) & 1))
      == Pack16(a0, a1, a2, a3, a4, a5, a6, a7, a8, a9, a10, a11, a12, a13, a14, a15) << 1
  {
  }

  lemma FoldPacked(a0: bv8, a1: bv8, a2: bv8, a3: bv8, a4: bv8, a5: bv8, a6: bv8, a7: bv8, a8: bv8, a9: bv8,
      a10: bv8, a11: bv8, a12: bv8, a13: bv8, a14: bv8, a15: bv8)
    ensures Pack16(a0 ^ 0x87, a1, a2, a3, a4, a5, a6, a7, a8, a9, a10, a11, a12, a13, a14, a15)
      == Pack16(a0, a1, a2, a3, a4, a5, a6, a7, a8, a9, a10, a11, a12, a13, a14, a15) ^ 0x87
  {
  }

  lemma TopPacked(a0: bv8, a1: bv8, a2: bv8, a3: bv8, a4: bv8, a5: bv8, a6: bv8, a7: bv8, a8: bv8, a9: bv8,
      a10: bv8, a11: bv8, a12: bv8, a13: bv8, a14: bv8, a15: bv8)
    ensures (Pack16(a0, a1, a2, a3, a4, a5, a6, a7, a8, a9, a10, a11, a12, a13, a14, a15) >> 127) & 1 == 1 <==>
      (a15 >> 7) & 1 == 1
  {
  }

  lemma Unfolded(a: bv8, below: bv8, x: bv128)
    ensures ShiftIn(a, below) == (a << 1) + ((below >> 7) & 1) && ShiftIn(a, 0) == a << 1
    ensures FoldByte(a) == a ^ 0x87 && (Carry(a) <==> (a >> 7) & 1 == 1)
    ensures ShiftWide(x) == x << 1 && FoldWide(x) == x ^ 0x87 && (TopBit(x) <==> (x >> 127) & 1 == 1)
  {
  }

  lemma ShiftedPack(a0: bv8, a1: bv8, a2: bv8, a3: bv8, a4: bv8, a5: bv8, a6: bv8, a7: bv8, a8: bv8, a9: bv8,
      a10: bv8, a11: bv8, a12: bv8, a13: bv8, a14: bv8, a15: bv8)
    ensures Pack16(ShiftIn(a0, 0), ShiftIn(a1, a0), ShiftIn(a2, a1), ShiftIn(a3, a2),
        ShiftIn(a4, a3), ShiftIn(a5, a4), ShiftIn(a6, a5), ShiftIn(a7, a6),
        ShiftIn(a8, a7), ShiftIn(a9, a8), ShiftIn(a10, a9), ShiftIn(a11, a10),
        ShiftIn(a12, a11), ShiftIn(a13, a12), ShiftIn(a14, a13), ShiftIn(a15, a14))
      == ShiftWide(Pack16(a0, a1, a2, a3, a4, a5, a6, a7, a8, a9, a10, a11, a12, a13, a14, a15))
  {
    hide *;
    ShiftPacked(a0, a1, a2, a3, a4, a5, a6, a7, a8, a9, a10, a11, a12, a13, a14, a15);
    Unfolded(a0, 0, Pack16(a0, a1, a2, a3, a4, a5, a6, a7, a8, a9, a10, a11, a12, a13, a14, a15));
    Unfolded(a1, a0, 0);
    Unfolded(a2, a1, 0);
    Unfolded(a3, a2, 0);
    Unfolded(a4, a3, 0);
    Unfolded(a5, a4, 0);
    Unfolded(a6, a5, 0);
    Unfolded(a7, a6, 0);
    Unfolded(a8, a7, 0);
    Unfolded(a9, a8, 0);
    Unfolded(a10, a9, 0);
    Unfolded(a11, a10, 0);
    Unfolded(a12, a11, 0);
    Unfolded(a13, a12, 0);
    Unfolded(a14, a13, 0);
    Unfolded(a15, a14, 0);
  }

  lemma FoldedPack(a0: bv8, a1: bv8, a2: bv8, a3: bv8, a4: bv8, a5: bv8, a6: bv8, a7: bv8, a8: bv8, a9: bv8,
      a10: bv8, a11: bv8, a12: bv8, a13: bv8, a14: bv8, a15: bv8)
    ensures Pack16(FoldByte(a0), a1, a2, a3, a4, a5, a6, a7, a8, a9, a10, a11, a12, a13, a14, a15)
      == FoldWide(Pack16(a0, a1, a2, a3, a4, a5, a6, a7, a8, a9, a10, a11, a12, a13, a14, a15))
    ensures TopBit(Pack16(a0, a1, a2, a3, a4, a5, a6, a7, a8, a9, a10, a11, a12, a13, a14, a15)) <==> Carry(a15)
  {
    hide *;
    FoldPacked(a0, a1, a2, a3, a4, a5, a6, a7, a8, a9, a10, a11, a12, a13, a14, a15);
    TopPacked(a0, a1, a2, a3, a4, a5, a6, a7, a8, a9, a10, a11, a12, a13, a14, a15);
    Unfolded(a0, 0, Pack16(a0, a1, a2, a3, a4, a5, a6, a7, a8, a9, a10, a11, a12, a13, a14, a15));
    Unfolded(a15, 0, 0);
  }

  lemma PackShifted(t: Block)
    ensures Pack(Shifted(t)) == ShiftWide(Pack(t))
  {
    hide Pack16, ShiftIn, ShiftWide;
    var u := Shifted(t);
    assert u[0] == ShiftIn(t[0], 0);
    assert forall i :: 1 <= i < 16 ==> u[i] == ShiftIn(t[i], t[i - 1]);
    hide Shifted;
    ShiftedPack(t[0], t[1], t[2], t[3], t[4], t[5], t[6], t[7], t[8], t[9], t[10], t[11], t[12], t[13], t[14], t[15]);
  }

  lemma PackFolded(t: Block)
    ensures Pack(Folded(t)) == FoldWide(Pack(t))
    ensures TopBit(Pack(t)) <==> Carry(t[15])
  {
    hide Pack16, FoldByte, FoldWide, TopBit, Carry;
    FoldedPack(t[0], t[1], t[2], t[3], t[4], t[5], t[6], t[7], t[8], t[9], t[10], t[11], t[12], t[13], t[14], t[15]);
  }

  /** The byte-wise step is the doubling of the standard. */
  lemma NextTweakDoubles(t: Block)
    ensures Pack(NextTweak(t)) == Double(Pack(t))
  {
    hide Pack, Carry, ShiftWide, FoldWide, TopBit, Shifted, Folded;
    PackShifted(t);
    PackFolded(t);
    PackFolded(Shifted(t));
  }

  // ------------------------------------------------------------------ sectors

  function FirstTweak(s: nat, e: Cipher): Block {
    e(NumberBytes(s, 16))
  }

  /** A whole sector: tweak cipher `g`, data cipher `f`. */
  function CryptSector(x: Sector, s: nat, g: Cipher, f: Cipher): Sector {
    Blocks(x, FirstTweak(s, g), f)
  }

  /** Decrypting a sector undoes encrypting it under the same number. */
  lemma SectorRoundTrip(x: Sector, s: nat, w1: Schedule, w2: Schedule)
    ensures CryptSector(CryptSector(x, s, Encryption(w2), Encryption(w1)), s, Encryption(w2), Decryption(w1)) == x
  {
    hide Encryption, Decryption, Blocks, FirstTweak;
    AesUndoes(w1);
    BlocksUndone(x, FirstTweak(s, Encryption(w2)), Encryption(w1), Decryption(w1));
  }

  // ------------------------------------------- what becomes of a sector, by bytes

  /** `y` is the image of sector `x` with number `s`: section 5.3 of IEEE 1619
      with tweak cipher `g` and data cipher `f`.  The tweak of the first block
      is the encrypted number; each other is the one before times x. */
  ghost predicate XtsImage(x: Sector, y: Sector, s: nat, g: Cipher, f: Cipher) {
    exists n: Block, ts: seq<Block> :: |ts| == 32 && NumberOf(n) == s && ts[0] == g(n) && Masks(x, y, ts, f)
  }

  ghost predicate Masks(x: Sector, y: Sector, ts: seq<Block>, f: Cipher)
    requires |ts| == 32
  {
    && (forall j :: 0 <= j < 31 ==> Pack(ts[j + 1]) == Double(Pack(ts[j])))
    && (forall j, i :: 0 <= j < 32 && 0 <= i < 16 ==>
          y[16 * j + i] == f(XorBlock(x[16 * j..16 * j + 16], ts[j]))[i] ^ ts[j][i])
  }

  /** The tweak of block `j`. */
  function TweakAt(t: Block, j: nat): Block {
    if j == 0 then t else NextTweak(TweakAt(t, j - 1))
  }

  lemma {:induction false} TweakShift(t: Block, j: nat)
    ensures TweakAt(NextTweak(t), j) == TweakAt(t, j + 1)
  {
    hide NextTweak;
    if j > 0 { TweakShift(t, j - 1); }
  }

  lemma {:induction false} BlockAt(s: seq<bv8>, t: Block, f: Cipher, j: nat)
    requires |s| % 16 == 0 && 16 * j + 16 <= |s|
    ensures Blocks(s, t, f)[16 * j..16 * j + 16] ==
      XorBlock(f(XorBlock(s[16 * j..16 * j + 16], TweakAt(t, j))), TweakAt(t, j))
    decreases j
  {
    hide NextTweak, XorBlock;
    if j > 0 {
      BlockAt(s[16..], NextTweak(t), f, j - 1);
      TweakShift(t, j - 1);
      assert s[16..][16 * (j - 1)..16 * (j - 1) + 16] == s[16 * j..16 * j + 16];
      var r := Blocks(s[16..], NextTweak(t), f);
      assert Blocks(s, t, f)[16..] == r;
      assert Blocks(s, t, f)[16 * j..16 * j + 16] == r[16 * (j - 1)..16 * (j - 1) + 16];
    }
  }

  /** What is computed is the transformation of the standard. */
  lemma SectorImage(x: Sector, s: nat, g: Cipher, f: Cipher)
    requires s < Pow256(16)
    ensures XtsImage(x, CryptSector(x, s, g, f), s, g, f)
  {
    hide Blocks, NumberBytes, NumberOf, NextTweak, Pack, Double, Pow256, XorBlock, Masks;
    var n: Block := NumberBytes(s, 16);
    var t, y := FirstTweak(s, g), CryptSector(x, s, g, f);
    NumberThere(s, 16);
    var ts: seq<Block> := seq(32, j requires 0 <= j < 32 => TweakAt(t, j));
    TweaksMask(x, y, t, ts, f);
  }

  lemma TweaksMask(x: Sector, y: Sector, t: Block, ts: seq<Block>, f: Cipher)
    requires |ts| == 32 && (forall j :: 0 <= j < 32 ==> ts[j] == TweakAt(t, j)) && y == Blocks(x, t, f)
    ensures Masks(x, y, ts, f)
  {
    hide Blocks, NextTweak, Pack, Double;
    forall j | 0 <= j < 31 ensures Pack(ts[j + 1]) == Double(Pack(ts[j])) { NextTweakDoubles(ts[j]); }
    forall j, i | 0 <= j < 32 && 0 <= i < 16
      ensures y[16 * j + i] == f(XorBlock(x[16 * j..16 * j + 16], ts[j]))[i] ^ ts[j][i]
    {
      BlockAt(x, t, f, j);
      assert y[16 * j + i] == y[16 * j..16 * j + 16][i];
    }
  }

  /** The sector number as the first tweak's plain text. */
  method NumberInto(t: array<bv8>, s0: nat)
    requires t.Length == 16
    modifies t
    ensures t[..] == NumberBytes(s0, 16)
  {
    hide LowByte, NumberBytes;
    ghost var all := NumberBytes(s0, 16);
    var s := s0;
    for i := 0 to 16
      invariant s >= 0 && all[i..] == NumberBytes(s, 16 - i)
      invariant forall j :: 0 <= j < i ==> t[j] == all[j]
    {
      NumberStep(s, 15 - i);
      assert all[i] == all[i..][0] == LowByte(s);
      assert all[i + 1..] == all[i..][1..];
      t[i] := LowByte(s);
      s := s / 256;
    }
  }

  method PrepTweak(t: array<bv8>, k: Context, s0: nat)
    requires t.Length == 16 && k.Valid() && t as object != k.S
    modifies t, k.S
    ensures t[..] == FirstTweak(s0, Encryption(k.W))
    ensures s0 < 0x1_0000_0000_0000_0000 ==> exists n: Block :: NumberOf(n) == s0 && t[..] == CipherOf(n, k.W)
  {
    hide Encrypt, NumberBytes, NumberOf, CipherOf, Pow256;
    NumberInto(t, s0);
    ghost var n: Block := t[..];
    k.EncryptInPlace(t);
    Wide64();
    if s0 < Pow256(16) { NumberThere(s0, 16); }
  }

  function Data(w: Schedule, decrypt: bool): Cipher {
    if decrypt then Decryption(w) else Encryption(w)
  }

  lemma ImageFor(x: Sector, s: nat, w1: Schedule, w2: Schedule, decrypt: bool)
    ensures s < 0x1_0000_0000_0000_0000 ==>
      XtsImage(x, CryptSector(x, s, Encryption(w2), Data(w1, decrypt)), s, Encryption(w2),
               if decrypt then Decryption(w1) else Encryption(w1))
  {
    hide CryptSector, Encryption, Decryption, XtsImage, Pow256;
    Wide64();
    if s < 0x1_0000_0000_0000_0000 { SectorImage(x, s, Encryption(w2), Data(w1, decrypt)); }
  }

  method BlkXor(x: array<bv8>, xo: nat, a: array<bv8>, ao: nat, b: array<bv8>)
    requires xo + 16 <= x.Length && ao + 16 <= a.Length && b.Length == 16 && x != a && x != b
    modifies x
    ensures x[..xo] == old(x[..xo]) && x[xo + 16..] == old(x[xo + 16..])
    ensures x[xo..xo + 16] == XorBlock(a[ao..ao + 16], b[..])
  {
    for i := 0 to 16
      invariant forall j :: 0 <= j < i ==> x[xo + j] == a[ao + j] ^ b[j]
      invariant x[..xo] == old(x[..xo]) && x[xo + 16..] == old(x[xo + 16..])
    {
      x[xo + i] := a[ao + i] ^ b[i];
    }
  }

  /** `aesxts`: one sector from `rp` to `wp`. */
  method AesXts(k1: Context, k2: Context, rp: array<bv8>, wp: array<bv8>, s: nat, decrypt: bool)
    requires k1.Valid() && k2.Valid() && k1.S != k2.S
    requires rp.Length == 512 && wp.Length == 512 && rp != wp
    requires rp as object != k1.S && rp as object != k2.S && wp as object != k1.S && wp as object != k2.S
    modifies wp, k1.S, k2.S
    ensures wp[..] == CryptSector(rp[..], s, Encryption(k2.W), Data(k1.W, decrypt))
    ensures s < 0x1_0000_0000_0000_0000 ==>
      XtsImage(rp[..], wp[..], s, Encryption(k2.W), if decrypt then Decryption(k1.W) else Encryption(k1.W))
  {
    hide XorBlock, NextTweak, FirstTweak, Data, Encryption, Decryption, XtsImage, CipherOf;
    ImageFor(rp[..], s, k1.W, k2.W, decrypt);
    var t := new bv8[16];
    var x := new bv8[16];
    PrepTweak(t, k2, s);
    ghost var f := Data(k1.W, decrypt);
    ghost var all := Blocks(rp[..], t[..], f);
    var i := 0;
    while i < 512
      invariant 0 <= i <= 512 && i % 16 == 0
      invariant wp[..i] + Blocks(rp[i..], t[..], f) == all
    {
      OneBlock(k1, rp, wp, t, x, i, decrypt);
      i := i + 16;
    }
    assert wp[..512] + Blocks(rp[512..], t[..], f) == wp[..];
  }

  method OneBlock(k1: Context, rp: array<bv8>, wp: array<bv8>, t: array<bv8>, x: array<bv8>, i: nat, decrypt: bool)
    requires k1.Valid() && rp.Length == 512 && wp.Length == 512 && t.Length == 16 && x.Length == 16
    requires rp != wp && rp != t && rp != x && wp != t && wp != x && t != x
    requires k1.S as object !in {rp, wp, t, x}
    requires i % 16 == 0 && i < 512
    modifies wp, t, x, k1.S
    ensures wp[..i + 16] + Blocks(rp[i + 16..], t[..], Data(k1.W, decrypt))
      == old(wp[..i]) + Blocks(rp[i..], old(t[..]), Data(k1.W, decrypt))
  {
    hide XorBlock, NextTweak, Encrypt, Decrypt, Blocks, CipherOf;
    ghost var t0: Block := t[..];
    ghost var f := Data(k1.W, decrypt);
    BlkXor(x, 0, rp, i, t);
    assert x[..] == x[0..16];
    if decrypt { k1.DecryptInPlace(x); } else { k1.EncryptInPlace(x); }
    BlkXor(wp, i, x, 0, t);
    assert x[..] == x[0..16];
    NextTweakInPlace(t);
    assert wp[..i + 16] == wp[..i] + wp[i..i + 16];
    assert rp[i..][..16] == rp[i..i + 16] && rp[i..][16..] == rp[i + 16..];
    BlockDone(old(wp[..i]), rp[i..], t0, f);
  }

  lemma BlockDone(w: seq<bv8>, r: seq<bv8>, t: Block, f: Cipher)
    requires |r| % 16 == 0 && r != []
    ensures w + XorBlock(f(XorBlock(r[..16], t)), t) + Blocks(r[16..], NextTweak(t), f) == w + Blocks(r, t, f)
  {
    hide XorBlock, NextTweak;
  }

  // ------------------------------------------------- one process or n workers

  /** What the output has to be. */
  function CryptAll(input: seq<Sector>, g: Cipher, f: Cipher): (out: seq<Sector>)
    ensures |out| == |input|
    ensures forall k :: 0 <= k < |input| ==> out[k] == CryptSector(input[k], k, g, f)
  {
    seq(|input|, k requires 0 <= k < |input| => CryptSector(input[k], k, g, f))
  }

  /** The whole sectors at the front of a file. */
  function Sectors(input: seq<bv8>): (ss: seq<Sector>)
    ensures |ss| == |input| / SECTOR
    ensures forall k :: 0 <= k < |ss| ==>
      SECTOR * k + SECTOR <= |input| && ss[k] == input[SECTOR * k..SECTOR * k + SECTOR]
  {
    seq(|input| / SECTOR, k requires 0 <= k < |input| / SECTOR => input[SECTOR * k..SECTOR * k + SECTOR])
  }

  /** `pipe_data_single`: reads, crypts and writes sector after sector; what it
      fails on is a last sector that is not whole. */
  method PipeSingle(k1: Context, k2: Context, input: seq<bv8>, decrypt: bool) returns (ok: bool, out: seq<Sector>)
    requires k1.Valid() && k2.Valid() && k1.S != k2.S
    modifies k1.S, k2.S
    ensures ok <==> |input| % SECTOR == 0
    ensures out == CryptAll(Sectors(input), Encryption(k2.W), Data(k1.W, decrypt))
    ensures forall k :: 0 <= k < |out| && k < 0x1_0000_0000_0000_0000 ==>
      XtsImage(Sectors(input)[k], out[k], k, Encryption(k2.W),
               if decrypt then Decryption(k1.W) else Encryption(k1.W))
  {
    hide CryptSector, Encryption, Decryption, Data, XtsImage;
    ghost var g, f := Encryption(k2.W), Data(k1.W, decrypt);
    forall k: nat, x: Sector ensures k < 0x1_0000_0000_0000_0000 ==>
      XtsImage(x, CryptSector(x, k, g, f), k, g, if decrypt then Decryption(k1.W) else Encryption(k1.W))
    {
      ImageFor(x, k, k1.W, k2.W, decrypt);
    }
    var ibuf := new bv8[SECTOR];
    var obuf := new bv8[SECTOR];
    var s, off := 0, 0;
    out := [];
    while off < |input|
      invariant off == SECTOR * s <= |input| && |out| == s
      invariant forall k :: 0 <= k < s ==> out[k] == CryptSector(Sectors(input)[k], k, g, f)
    {
      if |input| - off < SECTOR { return false, out; }
      Fill(ibuf, input[off..off + SECTOR]);
      AesXts(k1, k2, ibuf, obuf, s, decrypt);
      out := out + [obuf[..]];
      s := s + 1;
      off := off + SECTOR;
    }
    ok := true;
  }

  /** What a read leaves in the buffer. */
  method Fill(buf: array<bv8>, data: seq<bv8>)
    requires buf.Length == |data|
    modifies buf
    ensures buf[..] == data
  {
    for i := 0 to |data|
      invariant forall k :: 0 <= k < i ==> buf[k] == data[k]
    {
      buf[i] := data[i];
    }
  }

  /** The state of n concurrent `pipe_data_child` loops: the output file, how
      often each sector was written, and each worker's offset and number. */
  datatype Pool = Pool(out: seq<Sector>, writes: seq<nat>, off: seq<nat>, num: seq<nat>)

  ghost predicate Fresh(p: Pool, n: nat, size: nat) {
    && |p.out| == |p.writes| == size && |p.off| == |p.num| == n
    && (forall k :: 0 <= k < size ==> p.writes[k] == 0)
    && (forall i :: 0 <= i < n ==> p.off[i] == SECTOR * i && p.num[i] == i)
  }

  /** Worker `i` still has work: `off < end`. */
  ghost predicate Busy(p: Pool, i: nat) {
    i < |p.off| && p.off[i] < SECTOR * |p.out|
  }

  /** One turn of the loop of worker `i`: read the sector at its offset, crypt
      it with its number, write it back at its offset, advance both. */
  ghost function Turn(p: Pool, input: seq<Sector>, i: nat, n: nat, g: Cipher, f: Cipher): Pool
    requires |input| == |p.out| == |p.writes| && |p.num| == |p.off| && Busy(p, i)
  {
    var k := p.off[i] / SECTOR;
    Pool(p.out[k := CryptSector(input[k], p.num[i], g, f)], p.writes[k := p.writes[k] + 1],
         p.off[i := p.off[i] + n * SECTOR], p.num[i := p.num[i] + n])
  }

  /** Sector `k` belongs to worker `i`. */
  ghost predicate Owns(i: nat, k: nat, n: nat) {
    i < n && exists q: nat :: k == i + q * n
  }

  ghost predicate Consistent(p: Pool, input: seq<Sector>, n: nat, g: Cipher, f: Cipher) {
    && |input| == |p.out| == |p.writes| && |p.num| == |p.off| == n
    && (forall i :: 0 <= i < n ==> p.off[i] == SECTOR * p.num[i] && Owns(i, p.num[i], n))
    && (forall i, k {:trigger Owns(i, k, n)} :: 0 <= i < n && 0 <= k < |input| && Owns(i, k, n) ==>
          (if k < p.num[i] then p.writes[k] == 1 && p.out[k] == CryptSector(input[k], k, g, f)
           else p.writes[k] == 0))
  }

  lemma FreshIsConsistent(p: Pool, input: seq<Sector>, n: nat, g: Cipher, f: Cipher)
    requires Fresh(p, n, |input|)
    ensures Consistent(p, input, n, g, f)
  {
    hide CryptSector;
    forall i | 0 <= i < n ensures Owns(i, p.num[i], n) {
      assert i == i + 0 * n;
    }
    forall i: nat, k: nat | i < n && k < |input| && Owns(i, k, n) ensures i <= k {
      var q: nat :| k == i + q * n;
      MulMono(q, 0, n);
    }
  }

  lemma OneOwner(i: nat, j: nat, k: nat, n: nat)
    requires Owns(i, k, n) && Owns(j, k, n)
    ensures i == j
  {
    var q: nat :| k == i + q * n;
    var r: nat :| k == j + r * n;
    QuotientUnique(q, i, r, j, n);
  }

  lemma EverySectorOwned(k: nat, n: nat) returns (i: nat)
    requires n > 0
    ensures Owns(i, k, n)
  {
    i := k % n;
    assert k == i + (k / n) * n;
  }

  /** The next sector of a worker is the first of its own past `k`. */
  lemma NextOwned(i: nat, k: nat, m: nat, n: nat)
    requires Owns(i, k, n) && Owns(i, m, n)
    ensures m < k + n <==> m <= k
    ensures Owns(i, k + n, n)
  {
    var q: nat :| k == i + q * n;
    var r: nat :| m == i + r * n;
    MulAdd(q, 1, n);
    assert k + n == i + (q + 1) * n;
    if m > k {
      if r <= q { MulMono(n, r, q); }
      MulMono(n, q + 1, r);
    }
  }

  /** Every turn of every worker, in any order, keeps the pool consistent: the
      sector written had not been written before. */
  lemma TurnKeeps(p: Pool, input: seq<Sector>, i: nat, n: nat, g: Cipher, f: Cipher)
    requires Consistent(p, input, n, g, f) && Busy(p, i)
    ensures p.writes[p.num[i]] == 0
    ensures Consistent(Turn(p, input, i, n, g, f), input, n, g, f)
  {
    hide CryptSector, Owns;
    var k := p.num[i];
    assert Owns(i, k, n);
    assert p.off[i] / SECTOR == k;
    var p' := Turn(p, input, i, n, g, f);
    NextOwned(i, k, k, n);
    forall j: nat, m: nat | j < n && m < |input| && Owns(j, m, n)
      ensures if m < p'.num[j] then p'.writes[m] == 1 && p'.out[m] == CryptSector(input[m], m, g, f)
              else p'.writes[m] == 0
    {
      if j == i {
        NextOwned(i, k, m, n);
      } else if m == k {
        OneOwner(i, j, k, n);
      }
    }
  }

  /** Worker turns in the order of `schedule`; a turn of a worker that is done does nothing. */
  ghost function RunPool(p: Pool, input: seq<Sector>, schedule: seq<nat>, n: nat, g: Cipher, f: Cipher): (q: Pool)
    requires Consistent(p, input, n, g, f)
    ensures Consistent(q, input, n, g, f)
    decreases |schedule|
  {
    if schedule == [] then p
    else if Busy(p, schedule[0]) then
      TurnKeeps(p, input, schedule[0], n, g, f);
      RunPool(Turn(p, input, schedule[0], n, g, f), input, schedule[1..], n, g, f)
    else RunPool(p, input, schedule[1..], n, g, f)
  }

  /** How many turns worker `i` gets. */
  ghost function Turns(schedule: seq<nat>, i: nat): nat {
    if schedule == [] then 0 else (if schedule[0] == i then 1 else 0) + Turns(schedule[1..], i)
  }

  /** A worker moves on by `n` sectors a turn until it is done. */
  lemma {:induction false} RunMoves(p: Pool, input: seq<Sector>, schedule: seq<nat>, n: nat,
                                    g: Cipher, f: Cipher, i: nat)
    requires Consistent(p, input, n, g, f) && i < n
    ensures var q := RunPool(p, input, schedule, n, g, f);
      q.num[i] <= p.num[i] + n * Turns(schedule, i) && (Busy(q, i) ==> q.num[i] == p.num[i] + n * Turns(schedule, i))
    decreases |schedule|
  {
    hide CryptSector, Consistent;
    ConsistentSizes(p, input, n, g, f);
    if schedule != [] {
      var w, more := schedule[0], schedule[1..];
      TurnsStep(schedule, i, n);
      if Busy(p, w) {
        TurnKeeps(p, input, w, n, g, f);
        RunMoves(Turn(p, input, w, n, g, f), input, more, n, g, f, i);
      } else {
        RunMoves(p, input, more, n, g, f, i);
        if w == i { RunStays(p, input, more, n, g, f, i); }
      }
    }
  }

  lemma ConsistentSizes(p: Pool, input: seq<Sector>, n: nat, g: Cipher, f: Cipher)
    requires Consistent(p, input, n, g, f)
    ensures |input| == |p.out| == |p.writes| && |p.num| == |p.off| == n
    ensures forall i :: 0 <= i < n ==> p.off[i] == SECTOR * p.num[i]
  {
    hide CryptSector, Owns;
  }

  lemma TurnsStep(schedule: seq<nat>, i: nat, n: nat)
    requires schedule != []
    ensures n * Turns(schedule, i) == (if schedule[0] == i then n else 0) + n * Turns(schedule[1..], i)
  {
    if schedule[0] == i { MulAdd(1, Turns(schedule[1..], i), n); }
  }

  /** A worker that is done stays done. */
  lemma {:induction false} RunStays(p: Pool, input: seq<Sector>, schedule: seq<nat>, n: nat,
                                    g: Cipher, f: Cipher, i: nat)
    requires Consistent(p, input, n, g, f) && i < n && !Busy(p, i)
    ensures !Busy(RunPool(p, input, schedule, n, g, f), i)
    decreases |schedule|
  {
    hide CryptSector, Consistent;
    ConsistentSizes(p, input, n, g, f);
    if schedule != [] {
      var w, more := schedule[0], schedule[1..];
      if Busy(p, w) {
        TurnKeeps(p, input, w, n, g, f);
        RunStays(Turn(p, input, w, n, g, f), input, more, n, g, f, i);
      } else {
        RunStays(p, input, more, n, g, f, i);
      }
    }
  }

  /** Every worker has had the turns its sectors need. */
  ghost predicate EnoughTurns(schedule: seq<nat>, n: nat, size: nat) {
    forall i :: 0 <= i < n ==> i + n * Turns(schedule, i) >= size
  }

  /** Any number of workers, scheduled in any way: they are all done exactly
      when each has had the turns its sectors need, and then every sector was
      written exactly once and the file is the one a single process writes. */
  lemma WorkersAgreeWithSingle(p: Pool, input: seq<Sector>, schedule: seq<nat>, n: nat, g: Cipher, f: Cipher)
    requires n > 0 && Fresh(p, n, |input|)
    ensures Consistent(p, input, n, g, f)
    ensures var q := RunPool(p, input, schedule, n, g, f);
      && (EnoughTurns(schedule, n, |input|) <==> forall i :: 0 <= i < n ==> !Busy(q, i))
      && (EnoughTurns(schedule, n, |input|) ==>
            q.out == CryptAll(input, g, f) && forall k :: 0 <= k < |input| ==> q.writes[k] == 1)
  {
    hide CryptSector, Owns, RunPool, Turns;
    FreshIsConsistent(p, input, n, g, f);
    var q := RunPool(p, input, schedule, n, g, f);
    ConsistentSizes(q, input, n, g, f);
    forall i | 0 <= i < n ensures !Busy(q, i) <==> i + n * Turns(schedule, i) >= |input| {
      RunMoves(p, input, schedule, n, g, f, i);
    }
    if forall i :: 0 <= i < n ==> !Busy(q, i) {
      forall k | 0 <= k < |input|
        ensures q.writes[k] == 1 && q.out[k] == CryptSector(input[k], k, g, f)
      {
        var i := EverySectorOwned(k, n);
        OwnerInRange(i, k, n);
        assert !Busy(q, i);
      }
    }
  }

  lemma OwnerInRange(i: nat, k: nat, n: nat)
    requires Owns(i, k, n)
    ensures i < n
  {
  }
}
