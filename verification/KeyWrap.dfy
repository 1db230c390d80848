/** AES key wrap (lib/crypto/aes128_wrap.c, lib/crypto/aes128_unwrap.c),
    RFC 3394, for an arbitrary key schedule.

    The buffer is an array of eight-byte words as they lie in memory; word 0
    is the integrity register A of the RFC. */
module KeyWrap {
  import opened Basics
  import opened Arith
  import opened Octets
  import opened Fips197
  import opened Aes128

  type Half = h: seq<bv8> | |h| == 8 witness seq(8, _ => 0)

  /** `wrapmask` as it lies in memory: the low 32 bits of the counter, most
      significant byte first, in the last four bytes. */
  function Mask(t: nat): Half {
    var n := NumberBytes(t, 4);
    [0, 0, 0, 0, n[3], n[2], n[1], n[0]]
  }

  function XorByte(a: bv8, m: bv8): bv8 { a ^ m }

  function XorHalf(a: Half, m: Half): Half {
    seq(8, i requires 0 <= i < 8 => XorByte(a[i], m[i]))
  }

  lemma XorByteTwice(a: bv8, m: bv8)
    ensures XorByte(XorByte(a, m), m) == a
  {
  }

  lemma XorHalfTwice(a: Half, m: Half)
    ensures XorHalf(XorHalf(a, m), m) == a
  {
    hide XorByte;
    forall i | 0 <= i < 8 ensures XorHalf(XorHalf(a, m), m)[i] == a[i] {
      XorByteTwice(a[i], m[i]);
    }
  }

  /** The block A | R of the RFC, and its halves. */
  function Join(x: Half, y: Half): (b: Block)
    ensures forall k :: 0 <= k < 8 ==> b[k] == x[k] && b[8 + k] == y[k]
  {
    var u: seq<bv8>, v: seq<bv8> := x, y;
    u + v
  }

  function Front(b: Block): Half { b[..8] }

  function Back(b: Block): Half { b[8..] }

  lemma Halves(x: Half, y: Half, b: Block)
    ensures Front(Join(x, y)) == x && Back(Join(x, y)) == y
    ensures Join(Front(b), Back(b)) == b
  {
  }

  /** One step of section 2.2.1 of RFC 3394: A and word `i` through the
      cipher, then the step number `t` into A. */
  function WrapStep(r: seq<Half>, i: nat, t: nat, f: Cipher): (q: seq<Half>)
    requires 0 < i < |r|
    ensures |q| == |r|
  {
    var b := f(Join(r[0], r[i]));
    r[0 := XorHalf(Front(b), Mask(t))][i := Back(b)]
  }

  /** One step of section 2.2.2. */
  function UnwrapStep(r: seq<Half>, i: nat, t: nat, f: Cipher): (q: seq<Half>)
    requires 0 < i < |r|
    ensures |q| == |r|
  {
    var b := f(Join(XorHalf(r[0], Mask(t)), r[i]));
    r[0 := Front(b)][i := Back(b)]
  }

  lemma UnwrapStepWrapStep(r: seq<Half>, i: nat, t: nat, e: Cipher, d: Cipher)
    requires 0 < i < |r| && Undoes(d, e)
    ensures UnwrapStep(WrapStep(r, i, t, e), i, t, d) == r
  {
    hide Mask, XorHalf, Join, Front, Back;
    var b := e(Join(r[0], r[i]));
    XorHalfTwice(Front(b), Mask(t));
    Halves(r[0], r[i], b);
    assert d(e(Join(r[0], r[i]))) == Join(r[0], r[i]);
  }

  lemma WrapStepUnwrapStep(r: seq<Half>, i: nat, t: nat, e: Cipher, d: Cipher)
    requires 0 < i < |r| && Undoes(e, d)
    ensures WrapStep(UnwrapStep(r, i, t, d), i, t, e) == r
  {
    hide Mask, XorHalf, Join, Front, Back;
    var a := XorHalf(r[0], Mask(t));
    var b := d(Join(a, r[i]));
    Halves(a, r[i], b);
    assert e(d(Join(a, r[i]))) == Join(a, r[i]);
    XorHalfTwice(r[0], Mask(t));
  }

  /** Step numbers go round the words 1 to n. */
  function WordOf(t: nat, n: nat): (i: nat)
    requires t > 0 && n > 0
    ensures 1 <= i <= n
  {
    if t <= n then t else WordOf(t - n, n)
  }

  /** The first `t` steps. */
  function Wrap(r: seq<Half>, t: nat, f: Cipher): (q: seq<Half>)
    requires |r| > 1
    ensures |q| == |r|
  {
    if t == 0 then r else WrapStep(Wrap(r, t - 1, f), WordOf(t, |r| - 1), t, f)
  }

  /** Steps `t` down to 1, undone. */
  function Unwrap(r: seq<Half>, t: nat, f: Cipher): (q: seq<Half>)
    requires |r| > 1
    ensures |q| == |r|
    decreases t
  {
    if t == 0 then r else Unwrap(UnwrapStep(r, WordOf(t, |r| - 1), t, f), t - 1, f)
  }

  /** Unwrapping undoes wrapping, however many steps were made. */
  lemma {:induction false} UnwrapWrap(r: seq<Half>, t: nat, e: Cipher, d: Cipher)
    requires |r| > 1 && Undoes(d, e)
    ensures Unwrap(Wrap(r, t, e), t, d) == r
  {
    hide WrapStep, UnwrapStep, WordOf;
    if t > 0 {
      UnwrapStepWrapStep(Wrap(r, t - 1, e), WordOf(t, |r| - 1), t, e, d);
      UnwrapWrap(r, t - 1, e, d);
    }
  }

  lemma {:induction false} WrapUnwrap(r: seq<Half>, t: nat, e: Cipher, d: Cipher)
    requires |r| > 1 && Undoes(e, d)
    ensures Wrap(Unwrap(r, t, d), t, e) == r
    decreases t
  {
    hide WrapStep, UnwrapStep, WordOf;
    if t > 0 {
      var q := UnwrapStep(r, WordOf(t, |r| - 1), t, d);
      WrapUnwrap(q, t - 1, e, d);
      WrapStepUnwrapStep(r, WordOf(t, |r| - 1), t, e, d);
    }
  }

  // ------------------------------------- the shift-register form of the RFC

  /** Section 2.2.1 in its first form: every step uses the first word and
      moves the rest up. */
  datatype Register = Register(a: Half, r: seq<Half>)

  function ShiftStep(s: Register, t: nat, f: Cipher): Register
    requires |s.r| > 0
  {
    var b := f(Join(s.a, s.r[0]));
    Register(XorHalf(Front(b), Mask64(t)), s.r[1..] + [Back(b)])
  }

  /** The step number as the RFC adds it: 64 bits, most significant byte first. */
  function Mask64(t: nat): Half {
    var n := NumberBytes(t, 8);
    [n[7], n[6], n[5], n[4], n[3], n[2], n[1], n[0]]
  }

  /** The number that eight bytes stand for, most significant first. */
  function BigEndian(h: Half): nat {
    NumberOf([h[7], h[6], h[5], h[4], h[3], h[2], h[1], h[0]])
  }

  lemma Widths()
    ensures Pow256(4) == WORD && Pow256(8) == WORD * WORD
  {
    assert Pow256(2) == 0x1_0000;
    hide Pow256;
    Pow256Sum(2, 2);
    Pow256Sum(4, 4);
  }

  lemma Mask64Means(t: nat)
    requires t < WORD * WORD
    ensures BigEndian(Mask64(t)) == t
  {
    hide NumberBytes, NumberOf, Pow256;
    Widths();
    NumberThere(t, 8);
    var n, h := NumberBytes(t, 8), Mask64(t);
    assert n == [h[7], h[6], h[5], h[4], h[3], h[2], h[1], h[0]];
  }

  lemma MaskMeans(t: nat)
    ensures BigEndian(Mask(t)) == t % WORD
  {
    hide NumberBytes, NumberOf, Pow256;
    Widths();
    NumberCut(t, 4);
    var n, h := NumberBytes(t, 4), Mask(t);
    assert n + [0, 0, 0, 0] == [h[7], h[6], h[5], h[4], h[3], h[2], h[1], h[0]];
    NumberPadded(n);
  }

  lemma NumberPadded(n: seq<bv8>)
    requires |n| == 4
    ensures NumberOf(n + [0, 0, 0, 0]) == NumberOf(n)
  {
    NumberAppend(n, [0, 0, 0, 0]);
    NoNumber();
  }

  lemma NoNumber()
    ensures NumberOf([0, 0, 0, 0]) == 0
  {
    assert NumberOf([0, 0, 0, 0][1..][1..][1..][1..]) == 0;
  }

  /** The counter of the code is that of the RFC as long as it has 32 bits. */
  lemma MaskAgrees(t: nat)
    requires t < WORD * WORD
    ensures Mask(t) == Mask64(t) <==> t < WORD
  {
    hide Mask, Mask64, NumberOf;
    MaskMeans(t);
    Mask64Means(t);
    if t < WORD {
      var m, n := Mask(t), Mask64(t);
      var u := [m[7], m[6], m[5], m[4], m[3], m[2], m[1], m[0]];
      var v := [n[7], n[6], n[5], n[4], n[3], n[2], n[1], n[0]];
      NumberInjective(u, v);
      assert forall i :: 0 <= i < 8 ==> m[i] == u[7 - i] && n[i] == v[7 - i];
      assert m == n;
    }
  }

  lemma XorHalfCancel(a: Half, m: Half, n: Half)
    requires XorHalf(a, m) == XorHalf(a, n)
    ensures m == n
  {
    hide XorByte;
    forall i | 0 <= i < 8 ensures m[i] == n[i] {
      assert XorHalf(a, m)[i] == XorByte(a[i], m[i]) && XorHalf(a, n)[i] == XorByte(a[i], n[i]);
      XorByteCancel(a[i], m[i], n[i]);
    }
  }

  lemma XorByteCancel(a: bv8, m: bv8, n: bv8)
    requires XorByte(a, m) == XorByte(a, n)
    ensures m == n
  {
  }

  function ShiftWrap(s: Register, t: nat, f: Cipher): (q: Register)
    requires |s.r| > 0
    ensures |q.r| == |s.r|
  {
    if t == 0 then s else ShiftStep(ShiftWrap(s, t - 1, f), t, f)
  }

  function Rotate(s: seq<Half>, k: nat): seq<Half>
    requires k <= |s|
  {
    s[k..] + s[..k]
  }

  /** How far the register has turned after `t` steps. */
  function Turn(t: nat, n: nat): (k: nat)
    requires n > 0
    ensures k < n
  {
    if t == 0 || WordOf(t, n) == n then 0 else WordOf(t, n)
  }

  lemma {:induction false} NextWord(t: nat, n: nat)
    requires n > 0
    ensures WordOf(t + 1, n) == Turn(t, n) + 1
  {
    if t > n { NextWord(t - n, n); }
  }

  lemma WrapNone(r: seq<Half>, f: Cipher)
    requires |r| > 1
    ensures Wrap(r, 0, f) == r && ShiftWrap(Register(r[0], r[1..]), 0, f) == Register(r[0], r[1..])
  {
  }

  lemma WrapNext(r: seq<Half>, t: nat, f: Cipher)
    requires |r| > 1 && t > 0
    ensures Wrap(r, t, f) == WrapStep(Wrap(r, t - 1, f), WordOf(t, |r| - 1), t, f)
  {
    hide WrapStep, WordOf;
  }

  lemma ShiftNext(s: Register, t: nat, f: Cipher)
    requires |s.r| > 0 && t > 0
    ensures ShiftWrap(s, t, f) == ShiftStep(ShiftWrap(s, t - 1, f), t, f)
  {
    hide ShiftStep;
  }

  /** Working in place is the shift register, up to a rotation, for as long as
      the step number has 32 bits. */
  lemma {:induction false} InPlaceIsShifting(r: seq<Half>, t: nat, f: Cipher)
    requires |r| > 1 && t < WORD
    ensures var s := ShiftWrap(Register(r[0], r[1..]), t, f);
      var q := Wrap(r, t, f);
      s.a == q[0] && s.r == Rotate(q[1..], Turn(t, |r| - 1))
  {
    hide Mask, Mask64, XorHalf, Join, Front, Back, Rotate, WordOf, Wrap, ShiftWrap;
    var n := |r| - 1;
    MaskAgrees(t);
    if t == 0 {
      WrapNone(r, f);
      RotateNone(r[1..]);
    } else {
      InPlaceIsShifting(r, t - 1, f);
      var q := Wrap(r, t - 1, f);
      var k := Turn(t - 1, n);
      NextWord(t - 1, n);
      var b := f(Join(q[0], q[k + 1]));
      RotateStep(q[1..], k, Back(b));
      WrapNext(r, t, f);
      ShiftNext(Register(r[0], r[1..]), t, f);
      assert WrapStep(q, k + 1, t, f)[1..] == q[1..][k := Back(b)];
    }
  }

  lemma RotateNone(u: seq<Half>)
    ensures Rotate(u, 0) == u
  {
  }

  lemma HeadTail(q: seq<Half>)
    requires q != []
    ensures [q[0]] + q[1..] == q
  {
  }

  lemma RotateStep(u: seq<Half>, k: nat, x: Half)
    requires k < |u|
    ensures Rotate(u, k) != [] && Rotate(u, k)[0] == u[k]
    ensures Rotate(u, k)[1..] + [x] == Rotate(u[k := x], if k == |u| - 1 then 0 else k + 1)
  {
  }

  /** What the code computes in six rounds with a cipher is the RFC's wrapping. */
  ghost predicate WrapsAsRfc(r: seq<Half>, f: Cipher)
    requires |r| > 1
  {
    var s := ShiftWrap(Register(r[0], r[1..]), 6 * (|r| - 1), f);
    [s.a] + s.r == Wrap(r, 6 * (|r| - 1), f)
  }

  /** After six rounds the rotation is complete: with every cipher the code
      computes the RFC's wrapping, exactly when the last step number still has
      32 bits. */
  lemma WrapIsRfc(r: seq<Half>)
    requires |r| > 1 && 6 * (|r| - 1) < WORD * WORD
    ensures (forall f: Cipher :: WrapsAsRfc(r, f)) <==> 6 * (|r| - 1) < WORD
  {
    hide WrapsAsRfc;
    if 6 * (|r| - 1) < WORD {
      forall f: Cipher ensures WrapsAsRfc(r, f) { ShortIsRfc(r, f); }
    } else {
      LongIsNot(r);
      assert !WrapsAsRfc(r, Blank());
    }
  }

  lemma ShortIsRfc(r: seq<Half>, f: Cipher)
    requires |r| > 1 && 6 * (|r| - 1) < WORD
    ensures WrapsAsRfc(r, f)
  {
    FullTurn(|r| - 1);
    InPlaceIsShifting(r, 6 * (|r| - 1), f);
    hide Turn, Wrap, ShiftWrap;
    RotateNone(Wrap(r, 6 * (|r| - 1), f)[1..]);
    HeadTail(Wrap(r, 6 * (|r| - 1), f));
  }

  /** A cipher that makes everything zero. */
  function Blank(): Cipher { b => seq(16, _ => 0) }

  lemma LongIsNot(r: seq<Half>)
    requires |r| > 1 && WORD <= 6 * (|r| - 1) < WORD * WORD
    ensures !WrapsAsRfc(r, Blank())
  {
    hide Mask, Mask64, XorHalf, Join, Front, Back, WordOf, Wrap, ShiftWrap;
    var t := 6 * (|r| - 1);
    var a := Front(Blank()(Join(r[0], r[1])));
    var q, s := Wrap(r, t - 1, Blank()), ShiftWrap(Register(r[0], r[1..]), t - 1, Blank());
    WrapNext(r, t, Blank());
    ShiftNext(Register(r[0], r[1..]), t, Blank());
    assert Wrap(r, t, Blank())[0] == XorHalf(a, Mask(t));
    assert ShiftWrap(Register(r[0], r[1..]), t, Blank()).a == XorHalf(a, Mask64(t));
    MaskAgrees(t);
    if WrapsAsRfc(r, Blank()) { XorHalfCancel(a, Mask(t), Mask64(t)); }
  }

  lemma FullTurn(n: nat)
    requires n > 0
    ensures Turn(6 * n, n) == 0
  {
    hide WordOf;
    WordAt(n, 5, n);
    assert n * 5 + n == 6 * n;
  }

  lemma {:induction false} WordAt(n: nat, j: nat, i: nat)
    requires 1 <= i <= n
    ensures n * j + i > 0 && WordOf(n * j + i, n) == i
    decreases j
  {
    if j > 0 {
      assert n * j == n * (j - 1) + n;
      WordAt(n, j - 1, i);
    }
  }

  // ------------------------------------------------------------------ the code

  method LoadPair(b: array<bv8>, x: Half, y: Half)
    requires b.Length == 16
    modifies b
    ensures b[..] == Join(x, y)
  {
    for k := 0 to 8
      invariant forall j :: 0 <= j < k ==> b[j] == x[j] && b[8 + j] == y[j]
    {
      b[k], b[8 + k] := x[k], y[k];
    }
  }

  /** The body of the loop of `aes128_wrap`. */
  method WrapWord(r: array<Half>, ae: Context, b: array<bv8>, i: int, t: nat)
    requires 0 < i < r.Length && ae.Valid() && b.Length == 16
    requires r as object != b && r as object != ae.S && b as object != ae.S
    modifies r, b, ae.S
    ensures r[..] == WrapStep(old(r[..]), i, t, Encryption(ae.W))
    ensures var x := CipherOf(Join(old(r[0]), old(r[i])), ae.W);
      && r[i] == x[8..] && forall k :: 0 <= k < 8 ==> r[0][k] == x[k] ^ Mask(t)[k]
  {
    hide Encrypt, Mask, XorHalf, Join, Front, Back, CipherOf;
    LoadPair(b, r[0], r[i]);
    ae.EncryptInPlace(b);
    var x: Block := b[..];
    assert x == Encryption(ae.W)(Join(r[0], r[i]));
    r[0] := Front(x);
    r[i] := Back(x);
    r[0] := XorHalf(r[0], Mask(t));
    MaskedIs(x, Mask(t));
  }

  lemma MaskedIs(x: Block, m: Half)
    ensures Back(x) == x[8..] && forall k :: 0 <= k < 8 ==> XorHalf(Front(x), m)[k] == x[k] ^ m[k]
  {
  }

  method UnwrapWord(r: array<Half>, ae: Context, b: array<bv8>, i: int, t: nat)
    requires 0 < i < r.Length && ae.Valid() && b.Length == 16
    requires r as object != b && r as object != ae.S && b as object != ae.S
    modifies r, b, ae.S
    ensures r[..] == UnwrapStep(old(r[..]), i, t, Decryption(ae.W))
  {
    hide Decrypt, Mask, XorHalf, Join, Front, Back, CipherOf;
    r[0] := XorHalf(r[0], Mask(t));
    LoadPair(b, r[0], r[i]);
    ae.DecryptInPlace(b);
    var x: Block := b[..];
    assert x == Decryption(ae.W)(Join(r[0], r[i]));
    r[0] := Front(x);
    r[i] := Back(x);
  }

  /** `aes128_wrap`, in place. */
  method WrapInPlace(r: array<Half>, w: Schedule)
    requires 1 < r.Length <= 0x8000_0000
    modifies r
    ensures r[..] == Wrap(old(r[..]), 6 * (r.Length - 1), Encryption(w))
  {
    hide WordOf, WrapStep, Encryption;
    var n := r.Length - 1;
    var ae := new Context(w);
    var b := new bv8[16];
    ghost var s, f := r[..], Encryption(w);
    var j := 0;
    while j <= 5
      invariant 0 <= j <= 6
      invariant r[..] == Wrap(s, n * j, f)
      invariant ae.Valid() && ae.W == w && fresh(ae.S) && fresh(b)
    {
      var i := 1;
      while i <= n
        invariant 1 <= i <= n + 1
        invariant r[..] == Wrap(s, n * j + i - 1, f)
        invariant ae.Valid() && ae.W == w && fresh(ae.S) && fresh(b)
      {
        WordAt(n, j, i);
        WrapWord(r, ae, b, i, n * j + i);
        i := i + 1;
      }
      assert n * j + n == n * (j + 1);
      j := j + 1;
    }
    assert n * 6 == 6 * n;
  }

  /** `aes128_unwrap`, in place. */
  method UnwrapInPlace(r: array<Half>, w: Schedule)
    requires 1 < r.Length <= 0x8000_0000
    modifies r
    ensures r[..] == Unwrap(old(r[..]), 6 * (r.Length - 1), Decryption(w))
  {
    hide WordOf, UnwrapStep, Decryption;
    var n := r.Length - 1;
    var ae := new Context(w);
    var b := new bv8[16];
    ghost var s, f := r[..], Decryption(w);
    assert n * 6 == 6 * n;
    var j := 5;
    while j >= 0
      invariant -1 <= j <= 5
      invariant Unwrap(r[..], n * (j + 1), f) == Unwrap(s, 6 * n, f)
      invariant ae.Valid() && ae.W == w && fresh(ae.S) && fresh(b)
    {
      assert n * (j + 1) == n * j + n;
      var i := n;
      while i >= 1
        invariant 0 <= i <= n
        invariant Unwrap(r[..], n * j + i, f) == Unwrap(s, 6 * n, f)
        invariant ae.Valid() && ae.W == w && fresh(ae.S) && fresh(b)
      {
        WordAt(n, j, i);
        UnwrapWord(r, ae, b, i, n * j + i);
        i := i - 1;
      }
      j := j - 1;
    }
  }

  /** A wrapped buffer unwraps to what it was, for every schedule and every
      buffer of at least two words. */
  method WrapThenUnwrap(r: array<Half>, w: Schedule)
    requires 1 < r.Length <= 0x8000_0000
    modifies r
    ensures r[..] == old(r[..])
  {
    hide Wrap, Unwrap;
    WrapInPlace(r, w);
    UnwrapInPlace(r, w);
    AesUndoes(w);
    UnwrapWrap(old(r[..]), 6 * (r.Length - 1), Encryption(w), Decryption(w));
  }
}
