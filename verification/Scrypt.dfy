/** The memory-hard mixing of scrypt (lib/crypto/scrypt.c), sections 4 and 5 of
    RFC 7914.

    Buffers are arrays of 64-byte blocks; `salsa20_8` is an arbitrary function
    on blocks, and the byte order of the host is the one of the format. */
module Scrypt {
  import opened Arith

  type Blk = b: seq<bv32> | |b| == 16 witness seq(16, _ => 0)
  type Hash = Blk -> Blk

  function XorBlk(a: Blk, b: Blk): Blk {
    seq(16, i requires 0 <= i < 16 => a[i] ^ b[i])
  }

  function XorAll(a: seq<Blk>, b: seq<Blk>): (c: seq<Blk>)
    requires |a| == |b|
    ensures |c| == |a|
  {
    seq(|a|, i requires 0 <= i < |a| => XorBlk(a[i], b[i]))
  }

  // ------------------------------------------------------------- by definition

  /** X of scryptBlockMix after `i` steps, section 4 of RFC 7914. */
  function MixX(b: seq<Blk>, i: nat, h: Hash): Blk
    requires b != [] && i <= |b|
  {
    if i == 0 then b[|b| - 1] else h(XorBlk(MixX(b, i - 1, h), b[i - 1]))
  }

  /** The Y of step `i`. */
  function MixY(b: seq<Blk>, i: nat, h: Hash): Blk
    requires i < |b|
  {
    MixX(b, i + 1, h)
  }

  lemma MixStart(b: seq<Blk>, h: Hash)
    requires b != []
    ensures MixX(b, 0, h) == b[|b| - 1]
  {
  }

  lemma MixTwo(b: seq<Blk>, i: nat, h: Hash)
    requires i + 2 <= |b|
    ensures MixX(b, i + 1, h) == h(XorBlk(MixX(b, i, h), b[i]))
    ensures MixX(b, i + 2, h) == h(XorBlk(MixX(b, i + 1, h), b[i + 1]))
    ensures MixY(b, i, h) == MixX(b, i + 1, h) && MixY(b, i + 1, h) == MixX(b, i + 2, h)
  {
    hide XorBlk;
  }

  /** The even Y, then the odd ones. */
  function BlockMix(b: seq<Blk>, h: Hash): (c: seq<Blk>)
    requires b != [] && |b| % 2 == 0
    ensures |c| == |b|
  {
    seq(|b|, k requires 0 <= k < |b| => MixedAt(b, k, h))
  }

  function MixedAt(b: seq<Blk>, k: nat, h: Hash): Blk
    requires k < |b| && |b| % 2 == 0
  {
    var r := |b| / 2;
    if k < r then MixY(b, 2 * k, h) else MixY(b, 2 * (k - r) + 1, h)
  }

  /** V[i] of scryptROMix, section 5. */
  function Fill(b: seq<Blk>, i: nat, h: Hash): (c: seq<Blk>)
    requires b != [] && |b| % 2 == 0
    ensures |c| == |b|
  {
    if i == 0 then b else BlockMix(Fill(b, i - 1, h), h)
  }

  lemma FillStart(b: seq<Blk>, h: Hash)
    requires b != [] && |b| % 2 == 0
    ensures Fill(b, 0, h) == b
  {
  }

  lemma FillStep(b: seq<Blk>, i: nat, h: Hash)
    requires b != [] && |b| % 2 == 0
    ensures Fill(b, i + 1, h) == BlockMix(Fill(b, i, h), h)
  {
    hide BlockMix;
  }

  function Val(w: bv32): nat { w as nat }

  /** A block as a little-endian integer. */
  function LittleEndian(s: seq<bv32>): nat {
    if s == [] then 0 else Val(s[0]) + 0x1_0000_0000 * LittleEndian(s[1..])
  }

  /** Integerify: the last block as an integer, section 5. */
  function Integerify(b: seq<Blk>): nat
    requires b != []
  {
    LittleEndian(b[|b| - 1])
  }

  /** X of scryptROMix after `i` steps of the second loop. */
  function RoMixX(b: seq<Blk>, x: seq<Blk>, i: nat, n: nat, h: Hash): (c: seq<Blk>)
    requires b != [] && |b| % 2 == 0 && |x| == |b| && n > 0
    ensures |c| == |b|
  {
    if i == 0 then x
    else
      var y := RoMixX(b, x, i - 1, n, h);
      var v := Fill(b, Integerify(y) % n, h);
      BlockMix(XorAll(y, v), h)
  }

  function RoMix(b: seq<Blk>, n: nat, h: Hash): seq<Blk>
    requires b != [] && |b| % 2 == 0 && n > 0
  {
    RoMixX(b, Fill(b, n, h), n, n, h)
  }

  // --------------------------------------------------- the same, as it unfolds

  /** `c` is the bitwise sum of `a` and `b`. */
  ghost predicate IsSum(a: Blk, b: Blk, c: Blk) {
    forall k :: 0 <= k < 16 ==> c[k] == a[k] ^ b[k]
  }

  /** `c` is the mix of `b`: X starts as the last block, takes in every block and
      goes through the hash; its values from the even blocks make the first
      half of the output, those from the odd ones the second. */
  ghost predicate IsMix(b: seq<Blk>, c: seq<Blk>, h: Hash) {
    |b| % 2 == 0 && exists x: seq<Blk> :: |x| == |b| + 1 == |c| + 1 && MixTrace(b, c, x, h)
  }

  ghost predicate MixTrace(b: seq<Blk>, c: seq<Blk>, x: seq<Blk>, h: Hash)
    requires |b| % 2 == 0 && |x| == |b| + 1 == |c| + 1
  {
    && b != [] && x[0] == b[|b| - 1]
    && (forall i :: 0 <= i < |b| ==> exists t: Blk :: IsSum(x[i], b[i], t) && x[i + 1] == h(t))
    && (forall k :: 0 <= k < |b| / 2 ==> c[k] == x[2 * k + 1])
    && (forall k :: |b| / 2 <= k < |b| ==> c[k] == x[2 * (k - |b| / 2) + 2])
  }

  /** `c` is the mix of the bitwise sum of `y` and `v`. */
  ghost predicate IsMixOfSum(y: seq<Blk>, v: seq<Blk>, c: seq<Blk>, h: Hash) {
    exists t: seq<Blk> :: |t| == |y| == |v| && (forall i :: 0 <= i < |t| ==> IsSum(y[i], v[i], t[i])) && IsMix(t, c, h)
  }

  /** `out` comes from `b` as in section 5: a table of `n` successive mixes, then
      `n` steps that each take in the entry picked by the two low words of the
      last block. */
  ghost predicate IsRoMix(b: seq<Blk>, out: seq<Blk>, n: nat, h: Hash) {
    exists v: seq<seq<Blk>>, x: seq<seq<Blk>> :: |v| == |x| == n + 1 && RoMixTrace(b, out, n, v, x, h)
  }

  ghost predicate RoMixTrace(b: seq<Blk>, out: seq<Blk>, n: nat, v: seq<seq<Blk>>, x: seq<seq<Blk>>, h: Hash)
    requires |v| == |x| == n + 1
  {
    && v[0] == b && x[0] == v[n] && out == x[n]
    && (forall i :: 0 <= i < n ==> IsMix(v[i], v[i + 1], h))
    && (forall i :: 0 <= i < n ==> x[i] != [] && IsMixOfSum(x[i], v[Picked(x[i][|x[i]| - 1], n)], x[i + 1], h))
  }

  /** The low 64 bits of a block as a little-endian number, modulo `n`. */
  function Picked(last: Blk, n: nat): (j: nat)
    requires n > 0
    ensures j < n
  {
    (last[0] as nat + 0x1_0000_0000 * (last[1] as nat)) % n
  }

  lemma XorBlkIsSum(a: Blk, b: Blk)
    ensures IsSum(a, b, XorBlk(a, b))
  {
  }

  lemma MixIsMix(b: seq<Blk>, h: Hash)
    requires b != [] && |b| % 2 == 0
    ensures IsMix(b, BlockMix(b, h), h)
  {
    hide XorBlk, MixX, IsSum;
    var x := seq(|b| + 1, i requires 0 <= i <= |b| => MixX(b, i, h));
    MixStart(b, h);
    forall i | 0 <= i < |b| ensures x[i + 1] == h(XorBlk(x[i], b[i])) { MixOne(b, i, h); }
    forall k | 0 <= k < |b| ensures BlockMix(b, h)[k] == x[if k < |b| / 2 then 2 * k + 1 else 2 * (k - |b| / 2) + 2] {
      MixedIs(b, k, h);
    }
    Traced(b, BlockMix(b, h), x, h);
  }

  lemma Traced(b: seq<Blk>, c: seq<Blk>, x: seq<Blk>, h: Hash)
    requires b != [] && |b| % 2 == 0 && |x| == |b| + 1 == |c| + 1 && x[0] == b[|b| - 1]
    requires forall i :: 0 <= i < |b| ==> x[i + 1] == h(XorBlk(x[i], b[i]))
    requires forall k :: 0 <= k < |b| ==> c[k] == x[if k < |b| / 2 then 2 * k + 1 else 2 * (k - |b| / 2) + 2]
    ensures MixTrace(b, c, x, h)
  {
    hide XorBlk, IsSum;
    forall i | 0 <= i < |b| ensures exists t: Blk :: IsSum(x[i], b[i], t) && x[i + 1] == h(t) {
      XorBlkIsSum(x[i], b[i]);
    }
    forall k | 0 <= k < |b| / 2 ensures c[k] == x[2 * k + 1] { }
    forall k | |b| / 2 <= k < |b| ensures c[k] == x[2 * (k - |b| / 2) + 2] { }
  }

  lemma MixedIs(b: seq<Blk>, k: nat, h: Hash)
    requires k < |b| && |b| % 2 == 0
    ensures BlockMix(b, h)[k] == MixX(b, if k < |b| / 2 then 2 * k + 1 else 2 * (k - |b| / 2) + 2, h)
  {
    hide MixX;
  }

  lemma MixOne(b: seq<Blk>, i: nat, h: Hash)
    requires i < |b|
    ensures MixX(b, i + 1, h) == h(XorBlk(MixX(b, i, h), b[i]))
  {
    hide XorBlk;
  }

  lemma MixOfSum(y: seq<Blk>, v: seq<Blk>, h: Hash)
    requires y != [] && |y| % 2 == 0 && |v| == |y|
    ensures IsMixOfSum(y, v, BlockMix(XorAll(y, v), h), h)
  {
    hide XorBlk, IsSum, BlockMix, IsMix;
    var t := XorAll(y, v);
    forall i | 0 <= i < |t| ensures IsSum(y[i], v[i], t[i]) { XorBlkIsSum(y[i], v[i]); }
    MixIsMix(t, h);
  }

  lemma RoMixNext(b: seq<Blk>, x: seq<Blk>, i: nat, n: nat, h: Hash)
    requires b != [] && |b| % 2 == 0 && |x| == |b| && n > 0
    ensures RoMixX(b, x, 0, n, h) == x
    ensures var y := RoMixX(b, x, i, n, h);
      RoMixX(b, x, i + 1, n, h) == BlockMix(XorAll(y, Fill(b, Integerify(y) % n, h)), h)
  {
    hide BlockMix, XorAll, Fill, Integerify;
  }

  /** The two low words are enough to pick an entry. */
  lemma PickedIs(y: seq<Blk>, k: nat)
    requires y != [] && k <= 64
    ensures Picked(y[|y| - 1], Pow2(k)) == Integerify(y) % Pow2(k)
  {
    hide Pow2, And, LittleEndian;
    Low64Enough(y, k);
    AndMask(Low64(y), k);
    hide Integerify;
    LowIs(y);
  }

  lemma LowIs(y: seq<Blk>)
    requires y != []
    ensures var last := y[|y| - 1]; Low64(y) == last[0] as nat + 0x1_0000_0000 * (last[1] as nat)
  {
  }

  /** What is computed is scryptROMix. */
  lemma RoMixUnfolds(b: seq<Blk>, k: nat, h: Hash)
    requires b != [] && |b| % 2 == 0 && k <= 64
    ensures IsRoMix(b, RoMix(b, Pow2(k), h), Pow2(k), h)
  {
    hide BlockMix, XorAll, Fill, RoMixX, Integerify, Picked, IsMix, IsMixOfSum, Pow2;
    var n := Pow2(k);
    var v := seq(n + 1, i requires 0 <= i <= n => Fill(b, i, h));
    var x := seq(n + 1, i requires 0 <= i <= n => RoMixX(b, Fill(b, n, h), i, n, h));
    FillStart(b, h);
    RoMixNext(b, Fill(b, n, h), 0, n, h);
    forall i | 0 <= i < n ensures IsMix(v[i], v[i + 1], h) {
      FillStep(b, i, h);
      MixIsMix(v[i], h);
    }
    forall i | 0 <= i < n
      ensures x[i] != [] && IsMixOfSum(x[i], v[Picked(x[i][|x[i]| - 1], n)], x[i + 1], h)
    {
      RoMixNext(b, Fill(b, n, h), i, n, h);
      PickedIs(x[i], k);
      MixOfSum(x[i], v[Picked(x[i][|x[i]| - 1], n)], h);
    }
    assert RoMixTrace(b, RoMix(b, n, h), n, v, x, h);
  }

  // -------------------------------------------------------- masking is modulo

  /** Bitwise and. */
  function And(x: nat, y: nat): nat
    decreases y
  {
    if y == 0 then 0 else (x % 2) * (y % 2) + 2 * And(x / 2, y / 2)
  }

  lemma {:induction false} AndMask(x: nat, k: nat)
    ensures And(x, Pow2(k) - 1) == x % Pow2(k)
  {
    hide And;
    if k == 0 {
      AndNone(x);
      DivModOf(x, 0, 1);
    } else {
      var p := Pow2(k - 1);
      AndOdd(x, p);
      AndMask(x / 2, k - 1);
      HalfMod(x, p);
    }
  }

  lemma AndNone(x: nat)
    ensures And(x, 0) == 0
  {
  }

  lemma AndOdd(x: nat, p: nat)
    requires p > 0
    ensures And(x, 2 * p - 1) == x % 2 + 2 * And(x / 2, p - 1)
  {
    assert (2 * p - 1) % 2 == 1 && (2 * p - 1) / 2 == p - 1;
  }

  lemma HalfMod(x: nat, p: nat)
    requires p > 0
    ensures x % (2 * p) == x % 2 + 2 * ((x / 2) % p)
  {
    var q, r := (x / 2) / p, (x / 2) % p;
    assert x == 2 * (q * p + r) + x % 2;
    assert 2 * (q * p) == q * (2 * p);
    DivModOf(q, 2 * r + x % 2, 2 * p);
  }

  /** The 64-bit value the code looks at. */
  function Low64(b: seq<Blk>): nat
    requires b != []
  {
    var last := b[|b| - 1];
    0x1_0000_0000 * Val(last[1]) + Val(last[0])
  }

  /** Two words are enough: the rest is a multiple of every cost up to 2^64. */
  lemma Low64Enough(b: seq<Blk>, k: nat)
    requires b != [] && k <= 64
    ensures And(Low64(b), Pow2(k) - 1) == Integerify(b) % Pow2(k)
  {
    hide Val, And;
    var last := b[|b| - 1];
    var rest := LittleEndian(last[1..][1..]);
    assert LittleEndian(last) == Val(last[0]) + 0x1_0000_0000 * LittleEndian(last[1..]);
    assert LittleEndian(last[1..]) == Val(last[1..][0]) + 0x1_0000_0000 * rest;
    assert Integerify(b) == Low64(b) + 0x1_0000_0000_0000_0000 * rest;
    AndMask(Low64(b), k);
    hide LittleEndian, Low64, Integerify;
    assert Pow2(64) == 0x1_0000_0000_0000_0000 by { Wide(); }
    Pow2Sum(64 - k, k);
    DropMultiple(Low64(b), Pow2(64 - k), Pow2(k), rest);
  }

  lemma Wide()
    ensures Pow2(64) == 0x1_0000_0000_0000_0000
  {
    hide Pow2;
    ByteWide();
    Pow2Sum(8, 8);
    Pow2Sum(16, 16);
    Pow2Sum(32, 32);
  }

  lemma ByteWide()
    ensures Pow2(8) == 256
  {
  }

  lemma DropMultiple(x: nat, c: nat, p: nat, rest: nat)
    requires p > 0
    ensures (x + (c * p) * rest) % p == x % p
  {
    var q, r := x / p, x % p;
    var m := c * rest;
    assert (c * p) * rest == m * p by {
      MulAssoc(c, p, rest);
      MulAssoc(c, rest, p);
      assert p * rest == rest * p;
    }
    MulAdd(q, m, p);
    DivModOf(q + m, r, p);
  }

  // ------------------------------------------------------------------ blockmix

  /** `blockmix`: two steps of X per turn, one to each half of the output. */
  method BlockMixInto(bin: array<Blk>, bout: array<Blk>, r: nat, h: Hash)
    requires r > 0 && bin.Length == bout.Length == 2 * r && bin != bout
    modifies bout
    ensures bout[..] == BlockMix(bin[..], h)
  {
    hide XorBlk, MixX, MixY, BlockMix;
    ghost var b := bin[..];
    var x := bin[2 * r - 1];
    MixStart(b, h);
    var i := 0;
    while i < 2 * r
      invariant 0 <= i <= 2 * r && i % 2 == 0
      invariant bin[..] == b && x == MixX(b, i, h)
      invariant forall k :: 0 <= k < i / 2 ==> bout[k] == MixY(b, 2 * k, h)
      invariant forall k :: r <= k < r + i / 2 ==> bout[k] == MixY(b, 2 * (k - r) + 1, h)
    {
      MixTwo(b, i, h);
      var at := i / 2;
      x := XorBlk(x, bin[i]);
      x := h(x);
      bout[at] := x;
      x := XorBlk(x, bin[i + 1]);
      x := h(x);
      bout[at + r] := x;
      assert 2 * at == i;
      i := i + 2;
    }
    Halves(b, bout[..], r, h);
  }

  lemma Halves(b: seq<Blk>, c: seq<Blk>, r: nat, h: Hash)
    requires r > 0 && |b| == |c| == 2 * r
    requires forall k :: 0 <= k < r ==> c[k] == MixY(b, 2 * k, h)
    requires forall k :: r <= k < 2 * r ==> c[k] == MixY(b, 2 * (k - r) + 1, h)
    ensures c == BlockMix(b, h)
  {
    hide MixY;
  }

  method XorInto(x: array<Blk>, v: seq<Blk>)
    requires x.Length == |v|
    modifies x
    ensures x[..] == XorAll(old(x[..]), v)
  {
    hide XorBlk;
    for i := 0 to x.Length
      invariant forall k :: 0 <= k < i ==> x[k] == XorBlk(old(x[k]), v[k])
      invariant forall k :: i <= k < x.Length ==> x[k] == old(x[k])
    {
      x[i] := XorBlk(x[i], v[i]);
    }
  }

  // ------------------------------------------------------------------ salsamix

  /** First loop of `salsamix`: both buffers take turns being X. */
  method FillTable(x: array<Blk>, y: array<Blk>, v: array<seq<Blk>>, r: nat, n: nat, h: Hash)
    requires r > 0 && x.Length == y.Length == 2 * r && x != y && v.Length == n && n % 2 == 0
    modifies x, y, v
    ensures x[..] == Fill(old(x[..]), n, h)
    ensures forall i :: 0 <= i < n ==> v[i] == Fill(old(x[..]), i, h)
  {
    hide BlockMix, Fill;
    ghost var b := x[..];
    FillStart(b, h);
    var i := 0;
    while i < n
      invariant 0 <= i <= n && i % 2 == 0
      invariant x[..] == Fill(b, i, h)
      invariant forall k :: 0 <= k < i ==> v[k] == Fill(b, k, h)
    {
      FillStep(b, i, h);
      FillStep(b, i + 1, h);
      v[i] := x[..];
      BlockMixInto(x, y, r, h);
      v[i + 1] := y[..];
      BlockMixInto(y, x, r, h);
      i := i + 2;
    }
  }

  /** The table V of the first loop, as the second one reads it. */
  ghost predicate Table(v: seq<seq<Blk>>, b: seq<Blk>, h: Hash)
    requires b != [] && |b| % 2 == 0
  {
    forall j :: 0 <= j < |v| ==> v[j] == Fill(b, j, h)
  }

  /** One half-turn of the second loop. */
  method MixStep(x: array<Blk>, y: array<Blk>, v: seq<seq<Blk>>, r: nat, n: nat, h: Hash,
                 ghost b: seq<Blk>, ghost c: seq<Blk>, ghost i: nat, ghost k: nat)
    requires r > 0 && x.Length == y.Length == 2 * r && x != y && |v| == n && n == Pow2(k) && k <= 64
    requires |b| == |c| == 2 * r
    requires Table(v, b, h)
    requires x[..] == RoMixX(b, c, i, n, h)
    modifies x, y
    ensures y[..] == RoMixX(b, c, i + 1, n, h)
  {
    hide BlockMix, Fill, XorAll, And, Low64, Integerify;
    Low64Enough(x[..], k);
    ghost var m := Integerify(x[..]) % n;
    var j := And(Low64(x[..]), n - 1);
    assert v[j] == Fill(b, m, h);
    XorInto(x, v[j]);
    BlockMixInto(x, y, r, h);
  }

  /** The offsets of the code, products of `int`, do not overflow: those of the
      last table entry and of the third work area. */
  predicate Addressable(r: nat, n: nat) {
    32 * r * (n - 1) < 0x8000_0000 && 256 * r < 0x8000_0000
  }

  /** `salsamix` computes scryptROMix for every power of two from 2 on and every
      block size whose table it can address. */
  method SalsaMix(b: array<Blk>, r: nat, n: nat, v: array<seq<Blk>>, ghost k: nat, h: Hash)
    requires r > 0 && b.Length == 2 * r && v.Length == n && n == Pow2(k) && 1 <= k <= 30
    requires Addressable(r, n)
    modifies b, v
    ensures b[..] == RoMix(old(b[..]), n, h) && IsRoMix(old(b[..]), b[..], n, h)
  {
    hide BlockMix, Fill, Addressable, IsRoMix;
    ghost var s := b[..];
    RoMixUnfolds(s, k, h);
    var x := CopyOf(b);
    var y := CopyOf(b);
    FillTable(x, y, v, r, n, h);
    SecondLoop(x, y, v[..], r, n, k, h, s);
    CopyBack(x, b);
  }

  /** Second loop of `salsamix`. */
  method SecondLoop(x: array<Blk>, y: array<Blk>, v: seq<seq<Blk>>, r: nat, n: nat, ghost k: nat, h: Hash,
                    ghost s: seq<Blk>)
    requires r > 0 && x.Length == y.Length == |s| == 2 * r && x != y && |v| == n
    requires n == Pow2(k) && 1 <= k <= 30
    requires Table(v, s, h)
    modifies x, y
    ensures x[..] == RoMixX(s, old(x[..]), n, n, h)
  {
    hide *;
    ghost var half := Pow2(k - 1);
    ghost var c := x[..];
    RoMixStart(s, c, n, k, h);
    var i := 0;
    ghost var m := 0;
    while i < n
      invariant 0 <= m <= half && i == 2 * m
      invariant x[..] == RoMixX(s, c, i, n, h)
    {
      MixTwice(x, y, v, r, n, h, s, c, i, k);
      i := i + 2;
      m := m + 1;
    }
  }

  lemma RoMixStart(s: seq<Blk>, c: seq<Blk>, n: nat, k: nat, h: Hash)
    requires s != [] && |s| % 2 == 0 && |c| == |s| && n == Pow2(k) && k > 0
    ensures RoMixX(s, c, 0, n, h) == c && n == 2 * Pow2(k - 1)
  {
    hide BlockMix, Fill, XorAll, Integerify;
  }

  /** The body of the second loop: from X to Y and back. */
  method MixTwice(x: array<Blk>, y: array<Blk>, v: seq<seq<Blk>>, r: nat, n: nat, h: Hash,
                  ghost b: seq<Blk>, ghost c: seq<Blk>, ghost i: nat, ghost k: nat)
    requires r > 0 && x.Length == y.Length == 2 * r && x != y && |v| == n && n == Pow2(k) && k <= 64
    requires |b| == |c| == 2 * r && Table(v, b, h)
    requires x[..] == RoMixX(b, c, i, n, h)
    modifies x, y
    ensures x[..] == RoMixX(b, c, i + 2, n, h)
  {
    hide RoMixX, Pow2, Table;
    MixStep(x, y, v, r, n, h, b, c, i, k);
    MixStep(y, x, v, r, n, h, b, c, i + 1, k);
  }

  method CopyOf(b: array<Blk>) returns (x: array<Blk>)
    ensures fresh(x) && x[..] == b[..]
  {
    x := new Blk[b.Length](i requires 0 <= i < b.Length reads b => b[i]);
  }

  method CopyBack(x: array<Blk>, b: array<Blk>)
    requires x.Length == b.Length && x != b
    modifies b
    ensures b[..] == x[..]
  {
    for m := 0 to x.Length
      invariant forall j :: 0 <= j < m ==> b[j] == x[j]
    {
      b[m] := x[m];
    }
  }
}
