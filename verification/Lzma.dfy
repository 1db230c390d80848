/** LZMA inflate (lib/lzma.c, lib/lzma.h).

    The bit models of `struct private` are one sequence laid out in the order
    of the structure, so a `bitmodel*` is an index.  Buffer pointers are
    offsets from `srcbuf` and `dstbuf`; a null buffer is a null array.
    Shifts and masks on 32-bit values are written as arithmetic.

    Each decoding method states two things: what holds on any input, and, if
    the input is about to show the decisions an encoder makes for a value
    (ghost arguments), that it returns this value. */
module Lzma {
  import opened Basics
  import opened Arith
  import opened LzmaCoder
  import opened LzmaPackets

  const LZMA_STREAM_END := 1
  const LZMA_NEED_INPUT := 2
  const LZMA_NEED_OUTPUT := 3
  const LZMA_OUTPUT_OVER := 4
  const LZMA_INPUT_OVER := 5
  const LZMA_INVALID_REF := 6
  const LZMA_RANGE_CHECK := 7

  const STATE_INVALID := 13
  const STATE_INITIAL := 14

  predicate IsLit(state: int) { state <= 6 }

  lemma Mod4Step(x: int)
    ensures (x % 4 + 1) % 4 == (x + 1) % 4
  {
  }

  lemma Mod4Sum(x: int, k: int)
    ensures (x % 4 + k) % 4 == (x + k) % 4
  {
  }

  /** `t` continues `s` by `n` bytes in the pattern of its last `rep + 1`. */
  ghost predicate Continues(s: seq<byte>, t: seq<byte>, rep: nat, n: int) {
    n >= 0 && rep < |s| && ExtendsPeriodically(s, t, rep + 1, n)
  }

  lemma Periodic(out: seq<byte>, rep: nat, n: nat)
    ensures rep < |out| ==> Continues(out, CopyBack(out, rep, n), rep, n)
  {
    if rep < |out| { CopyBackIsPeriodic(out, rep, n); }
  }

  /** What a copy starts from. */
  datatype Before = Before(out: seq<byte>, total: int, pos: int, error: int)

  class Inflater {
    // struct lzma: buffers and pointers, set by the caller
    var src: array?<byte>
    var srcptr: int
    var srchwm: int
    var dst: array?<byte>
    var dstptr: int
    var dsthwm: int

    // struct private
    var state: int
    var posState: int
    var error: int
    var code: int
    var range: int
    var rep: seq<u32>
    var bm: seq<int>

    // history: bytes written since creation, and the length that came with
    // the all-ones distance, if one was decoded
    ghost var total: nat
    ghost var marker: nat

    /** `lzma_create`: the private part; the caller fills in the buffers. */
    constructor ()
      ensures Invariant() && state == STATE_INITIAL && error == 0
      ensures bm == InitialModels() && (forall i :: 0 <= i < |bm| ==> bm[i] == 1024)
      ensures rep == [0, 0, 0, 0] && posState == 0
    {
      error, state, posState := 0, STATE_INITIAL, 0;
      rep := [0, 0, 0, 0];
      bm := InitialModels();
      total, marker := 0, 0;
    }

    /** Every adaptive bit model is within its bounds. */
    ghost predicate Models()
      reads this`bm
    {
      ModelsOk(bm)
    }

    /** The range decoder between two bits. */
    ghost predicate Coder()
      reads this`range, this`code
    {
      BOT <= range < TOP && 0 <= code < TOP
    }

    ghost predicate Buffers()
      reads this`src, this`srcptr, this`dst, this`dstptr
    {
      && src != null && 0 <= srcptr <= src.Length
      && dst != null && 0 <= dstptr <= dst.Length
    }

    ghost predicate Decodable()
      reads this`bm, this`range, this`code, this`src, this`srcptr, this`dst, this`dstptr
    {
      |bm| == MODELS && Models() && Coder() && Buffers()
    }

    /** What holds of the private part between any two calls of `lzma_inflate`,
        whatever the caller did to the buffer pointers. */
    ghost predicate Invariant()
      reads this`bm, this`range, this`code, this`rep, this`state, this`posState, this`error,
            this`total, this`marker
    {
      && |bm| == MODELS && Models()
      && |rep| == 4
      && posState == total % 4
      && (error == 0 ==> 0 <= state < 12 || state == STATE_INITIAL)
      && (state != STATE_INITIAL ==> Coder())
      && (error == 0 ==> marker == 0)
      && (error == LZMA_RANGE_CHECK ==> marker > 2)
      && (error == LZMA_STREAM_END ==> marker == 2)
      && error in {0, LZMA_STREAM_END, LZMA_OUTPUT_OVER, LZMA_INPUT_OVER, LZMA_INVALID_REF, LZMA_RANGE_CHECK}
    }

    /** Bytes of the output buffer written so far. */
    ghost function Out(): seq<byte>
      reads this`dst, this`dstptr, dst
    {
      if dst != null && 0 <= dstptr <= dst.Length then dst[..dstptr] else []
    }

    /** A decoding step that took at most `k` bytes of input and could fail
        only because fewer than `k` were left. */
    twostate predicate Took(k: nat)
      reads this
    {
      && Decodable()
      && old(srcptr) <= srcptr <= old(srcptr) + k
      && (error == old(error) || (error == LZMA_INPUT_OVER && old(srcptr) + k > src.Length))
    }

    method PutByte(c: byte)
      requires Buffers()
      modifies this`error, this`posState, this`dstptr, this`total, dst
      ensures Buffers()
      ensures old(dstptr) < dst.Length ==>
        && Out() == old(Out()) + [c] && error == old(error)
        && posState == (old(posState) + 1) % 4 && total == old(total) + 1
      ensures old(dstptr) == dst.Length ==>
        && Out() == old(Out()) && error == LZMA_OUTPUT_OVER
        && posState == old(posState) && total == old(total)
    {
      if dstptr >= dst.Length {
        error := LZMA_OUTPUT_OVER;
        return;
      }
      posState := (posState + 1) % 4;
      dst[dstptr] := c;
      dstptr := dstptr + 1;
      total := total + 1;
    }

    method GetByte() returns (c: byte)
      requires Buffers()
      modifies this`error, this`srcptr
      ensures Buffers()
      ensures old(srcptr) < src.Length ==>
        srcptr == old(srcptr) + 1 && c == src[old(srcptr)] && error == old(error)
      ensures old(srcptr) == src.Length ==> srcptr == old(srcptr) && c == 0 && error == LZMA_INPUT_OVER
    {
      if srcptr >= src.Length {
        error := LZMA_INPUT_OVER;
        return 0;
      }
      c := src[srcptr];
      srcptr := srcptr + 1;
    }

    method PeekBack(i: u32) returns (c: byte)
      requires Buffers()
      modifies this`error
      ensures i < dstptr ==> c == Out()[dstptr - 1 - i] && error == old(error)
      ensures i >= dstptr ==> c == 0 && error == if i == 0 then old(error) else LZMA_INVALID_REF
    {
      var at := dstptr - i - 1;
      if at < 0 || at >= dstptr {
        if i != 0 { error := LZMA_INVALID_REF; }
        return 0;
      }
      return dst[at];
    }

    /** The input from here on shows exactly the decisions `ops`. */
    ghost predicate Sees(ops: seq<Op>)
      reads this`src, this`srcptr, this`dst, this`code, this`range, this`bm, src
    {
      && src != null && src != dst && 0 <= srcptr <= src.Length
      && Follows(ops, code, range, bm, src[srcptr..])
    }

    lemma SeesApart(ops: seq<Op>)
      ensures Sees(ops) ==> src != dst
    {
    }

    method Normalize()
      requires 0x1_0000 <= range < TOP && 0 <= code < TOP && Buffers()
      modifies this`error, this`srcptr, this`range, this`code
      ensures Coder() && Buffers()
      ensures old(srcptr) <= srcptr <= old(srcptr) + 1
      ensures error == old(error) || (error == LZMA_INPUT_OVER && old(srcptr) == src.Length)
      ensures Shift(old(range)) == 0 ==>
        range == old(range) && code == old(code) && srcptr == old(srcptr) && error == old(error)
      ensures Shift(old(range)) == 1 ==> range == old(range) * 256
      ensures Shift(old(range)) == 1 && old(srcptr) < src.Length ==>
        && srcptr == old(srcptr) + 1 && error == old(error)
        && code == (old(code) * 256) % TOP + src[old(srcptr)]
      ensures Normalized(old(code), old(range))
    {
      if range > 0xFF_FFFF { return; }
      range := range * 256;
      var c := GetByte();
      code := (code * 256) % TOP + c;
    }

    /** What `normalize` makes of an interval of width `w` with the code `c` in it. */
    twostate predicate Normalized(c: int, w: int)
      requires old(Buffers())
      reads this, src
    {
      && src == old(src)
      && (w >= 0x100_0000 ==> range == w && code == c && srcptr == old(srcptr) && error == old(error))
      && (w < 0x100_0000 ==> range == 256 * w)
      && (w < 0x100_0000 && old(srcptr) < src.Length ==>
            srcptr == old(srcptr) + 1 && code == 256 * c % 0x1_0000_0000 + src[old(srcptr)] && error == old(error))
      && (w < 0x100_0000 && old(srcptr) == src.Length ==> srcptr == old(srcptr) && error == LZMA_INPUT_OVER)
    }

    /** `normalize` after a decision: whoever followed `ops` from the state
        before it follows the rest now. */
    method Renormalize(ghost ops: seq<Op>, ghost f: bool, ghost code0: int, ghost range0: int, ghost bm0: seq<int>)
      requires 0x1_0000 <= range < TOP && 0 <= code < TOP && |bm| == MODELS && Models() && Buffers()
      requires f ==> src != dst && ops != [] && Follows(ops, code0, range0, bm0, src[srcptr..])
      requires f ==> Decided(ops[0], code0, range0, bm0, code, range, bm)
      modifies this`error, this`srcptr, this`range, this`code
      ensures Took(1) && Normalized(old(code), old(range))
      ensures f ==> Sees(ops[1..]) && error == old(error)
    {
      hide Follows, OpLow, OpWidth, OpModels;
      ghost var input := src[srcptr..];
      if f { FollowStep(ops, code0, range0, bm0, input); }
      assert Pow256(0) == 1 && Pow256(1) == 256;
      ghost var w := range;
      Normalize();
      assert f ==> src[srcptr..] == input[Shift(w)..];
    }

    /** The code picked a part of the range, split in the proportion of the model. */
    twostate predicate Chose(at: nat, bit: int)
      requires old(Buffers()) && at < |old(bm)|
      reads this, src
    {
      var bound := old(range) / 2048 * old(bm)[at];
      && (bit == 0 <==> old(code) < bound)
      && (bit == 0 ==> Normalized(old(code), bound))
      && (bit == 1 ==> Normalized(old(code) - bound, old(range) - bound))
    }

    /** The model moved a 32nd of the way towards what was seen. */
    twostate predicate Adapted(at: nat, bit: int)
      requires at < |old(bm)| && at < |bm|
      reads this
    {
      var p, q := old(bm)[at], bm[at];
      && (bit == 0 ==> 32 * (q - p) <= 2048 - p < 32 * (q - p + 1))
      && (bit == 1 ==> 32 * (p - q) <= p < 32 * (p - q + 1))
    }

    /** Decodes one bit against model `at`.  The range is split in the proportion
        of the model, the code picks a part, and the model moves a 32nd of the
        way towards what it has seen. */
    method DecBit(at: nat, ghost ops: seq<Op>) returns (bit: int)
      requires Decodable() && at < |bm|
      modifies this`error, this`srcptr, this`range, this`code, this`bm
      ensures Took(1) && 0 <= bit <= 1 && OnlyModels(at, at + 1)
      ensures old(Sees(ops)) && ops != [] && ops[0].Model? && ops[0].at == at ==>
        bit == ops[0].bit && Sees(ops[1..]) && error == old(error)
      ensures Chose(at, bit) && Adapted(at, bit)
    {
      hide Follows;
      ghost var f := Sees(ops) && ops != [] && ops[0].Model? && ops[0].at == at;
      if f { FollowStep(ops, code, range, bm, src[srcptr..]); }
      ghost var code0, range0, bm0 := code, range, bm;
      var p := bm[at];
      var bound := (range / 2048) * p;
      SplitIsWide(range, p);
      ProbabilityStays(p);
      if code < bound {
        range := bound;
        bm := bm[at := p + (2048 - p) / 32];
        bit := 0;
      } else {
        range := range - bound;
        code := code - bound;
        bm := bm[at := p - p / 32];
        bit := 1;
      }
      Renormalize(ops, f, code0, range0, bm0);
    }

    twostate predicate Halved(bit: int)
      requires old(Buffers())
      reads this, src
    {
      var half := old(range) / 2;
      && (bit == 0 <==> old(code) < half)
      && (bit == 0 ==> Normalized(old(code), half))
      && (bit == 1 ==> Normalized(old(code) - half, half))
    }

    /** One round of `dec_direct`: the range is halved. */
    method DirectBit(ghost ops: seq<Op>) returns (bit: nat)
      requires Decodable()
      modifies this`error, this`srcptr, this`range, this`code
      ensures Took(1) && bit <= 1
      ensures old(Sees(ops)) && ops != [] && ops[0].Direct? ==>
        bit == ops[0].bit && Sees(ops[1..]) && error == old(error)
      ensures Halved(bit)
    {
      hide Follows;
      ghost var f := Sees(ops) && ops != [] && ops[0].Direct?;
      ghost var code0, range0 := code, range;
      if f { FollowStep(ops, code, range, bm, src[srcptr..]); }
      range := range / 2;
      bit := 0;
      if code >= range {
        code := code - range;
        bit := 1;
      }
      Renormalize(ops, f, code0, range0, bm);
    }

    method DecDirect(limit: nat, ghost v: nat, ghost rest: seq<Op>) returns (r: nat)
      requires Decodable()
      modifies this`error, this`srcptr, this`range, this`code
      ensures Took(limit) && r < Pow2(limit)
      ensures v < Pow2(limit) && old(Sees(DirectOps(limit, v) + rest)) ==>
        r == v && Sees(rest) && error == old(error)
    {
      hide Halved;
      hide Sees, High, Bit;
      ghost var f := v < Pow2(limit) && Sees(DirectOps(limit, v) + rest);
      HighEnds(v, limit);
      r := 0;
      var i := 0;
      while i < limit
        invariant i <= limit && r < Pow2(i)
        invariant Took(i)
        invariant f ==> r == High(v, limit - i)
        invariant f ==> Sees(DirectOps(limit - i, v) + rest) && error == old(error)
      {
        ghost var ops := DirectOps(limit - i, v) + rest;
        if f {
          HighStep(v, limit - i - 1);
          assert ops[1..] == DirectOps(limit - (i + 1), v) + rest;
        }
        var bit := DirectBit(ops);
        r := r * 2 + bit;
        i := i + 1;
      }
      assert f ==> DirectOps(0, v) + rest == rest;
    }

    /** Of the bit models, only those from `lo` up to `hi` may have changed. */
    twostate predicate OnlyModels(lo: int, hi: int)
      reads this
    {
      |bm| == |old(bm)| && forall k :: 0 <= k < |bm| && !(lo <= k < hi) ==> bm[k] == old(bm)[k]
    }

    /** Decoding extra bits changes the models of that slot alone, or the
        aligned ones. */
    twostate predicate ExtraModels(slot: nat)
      reads this
    {
      && |bm| == |old(bm)|
      && forall k :: 0 <= k < |bm| && bm[k] != old(bm)[k] ==>
           || (4 <= slot < 14 && k - DISPEC in SlotCells(slot))
           || (14 <= slot && ALIGN < k < ALIGN + 16)
    }

    /** Decoding a distance changes the models of one slot tree, and those of
        the decoded slot alone or the aligned ones. */
    twostate predicate DistanceModels(tree: nat, slot: nat)
      reads this
    {
      && |bm| == |old(bm)|
      && forall k :: 0 <= k < |bm| && bm[k] != old(bm)[k] ==>
           || tree < k < tree + 64
           || (4 <= slot < 14 && k - DISPEC in SlotCells(slot))
           || (14 <= slot && ALIGN < k < ALIGN + 16)
    }

    method RangeCheck(i: int, size: int) returns (r: int)
      modifies this`error
      ensures r == 0 <==> i < size
      ensures error == if i < size then old(error) else LZMA_RANGE_CHECK
    {
      if i < size { return 0; }
      error := LZMA_RANGE_CHECK;
      return -1;
    }

    /** Decodes `n` bits through a tree of models at `bma`; the check against
        `bms` fires only if the tree is larger than its array. */
    method DecTree(bma: nat, bms: nat, n: nat, ghost v: nat, ghost rest: seq<Op>) returns (r: nat)
      requires Decodable() && bma + bms <= |bm|
      modifies this`error, this`srcptr, this`range, this`code, this`bm
      ensures Decodable() && r < Pow2(n) && OnlyModels(bma + 1, bma + Pow2(n))
      ensures Pow2(n) <= bms ==> Took(n)
      ensures Pow2(n) <= bms && v < Pow2(n) && old(Sees(TreeOps(bma, n, v) + rest)) ==>
        r == v && Sees(rest) && error == old(error)
    {
      hide Chose, Adapted;
      hide Sees, Models, Pow2, Bit, TreeFrom, Node, OnPath;
      ghost var f := Pow2(n) <= bms && v < Pow2(n) && Sees(TreeOps(bma, n, v) + rest);
      PathEnds(1, n, v);
      var i := 0;
      r := 1;
      while i < n
        invariant i <= n && Node(r, i) && r >= 1
        invariant Decodable() && OnlyModels(bma + 1, bma + Pow2(n))
        invariant Pow2(n) <= bms ==> Took(i)
        invariant f ==> OnPath(r, i, n, v)
        invariant f ==> Sees(TreeFrom(bma, r, n - i, v) + rest) && error == old(error)
      {
        NodeStep(r, i, n, 0);
        var c := RangeCheck(r, bms);
        if c != 0 { return 0; }
        TreeStep(bma, r, n - i, v, rest);
        if f { PathStep(r, i, n, v); }
        var b := DecBit(bma + r, TreeFrom(bma, r, n - i, v) + rest);
        NodeStep(r, i, n, b);
        r := 2 * r + b;
        i := i + 1;
      }
      TreeEnd(bma, r, 0, v, rest);
      PathEnds(r, n, v);
      r := r - Pow2(n);
    }

    method DecRtree(bma: nat, bms: nat, n: nat, ghost v: nat, ghost rest: seq<Op>) returns (r: nat)
      requires Decodable() && bma + bms <= |bm|
      modifies this`error, this`srcptr, this`range, this`code, this`bm
      ensures Decodable() && r < Pow2(n) && OnlyModels(bma + 1, bma + Pow2(n))
      ensures Pow2(n) <= bms ==> Took(n)
      ensures Pow2(n) <= bms && v < Pow2(n) && old(Sees(ReverseFrom(bma, 1, n, v) + rest)) ==>
        r == v && Sees(rest) && error == old(error)
    {
      hide Sees, Models, High, Bit, Joined;
      ReverseIsTree(bma, 1, n, v);
      ReverseBound(v, n);
      if v < Pow2(n) { ReverseTwice(v, n); }
      var sym := DecTree(bma, bms, n, Reverse(v, n), rest);
      ReverseBound(sym, n);
      r := ReverseBits(sym, n);
    }

    /** Decodes a literal whose tree is chosen by the byte at the last distance. */
    method DecMatch(bma: nat, bms: nat, mbyte: byte, ghost v: nat, ghost rest: seq<Op>) returns (r: nat)
      requires Decodable() && bma + bms <= |bm|
      modifies this`error, this`srcptr, this`range, this`code, this`bm
      ensures Decodable() && r < 256
      ensures 0x300 <= bms ==> Took(8)
      ensures 0x300 <= bms && v < 256 && old(Sees(MatchedFrom(bma, 1, 8, mbyte, v) + rest)) ==>
        r == v && Sees(rest) && error == old(error)
    {
      hide Chose, Adapted;
      hide Sees, Models, Pow2, Bit, High, TreeFrom, MatchedFrom, Node, OnPath, Coder;
      ghost var f := 0x300 <= bms && v < 256 && Sees(MatchedFrom(bma, 1, 8, mbyte, v) + rest);
      TreeSizes();
      PathEnds(1, 8, v);
      var i := 0;
      r := 1;
      while i < 8
        invariant i <= 8 && Node(r, i)
        invariant Decodable()
        invariant 0x300 <= bms ==> Took(i)
        invariant f ==> OnPath(r, i, 8, v)
        invariant f ==> Sees(MatchedFrom(bma, r, 8 - i, mbyte, v) + rest) && error == old(error)
      {
        NodeStep(r, i, 8, 0);
        var matchbit := Bit(mbyte, 7 - i);
        var off := r + 256 * matchbit + 0x100;
        var c := RangeCheck(off, bms);
        if c != 0 { return 0; }
        MatchedStep(bma, r, 8 - i, mbyte, v, rest);
        if f { PathStep(r, i, 8, v); }
        var bit := DecBit(bma + off, MatchedFrom(bma, r, 8 - i, mbyte, v) + rest);
        NodeStep(r, i, 8, bit);
        r := 2 * r + bit;
        i := i + 1;
        if matchbit != bit {
          r := DecRest(bma, bms, r, i, v, rest);
          return;
        }
      }
      TreeEnd(bma, r, mbyte, v, rest);
      PathEnds(r, 8, v);
      r := r % 256;
    }

    /** The inner loop of `dec_match`: the rest of the bits from the plain tree. */
    method DecRest(bma: nat, bms: nat, r0: nat, ghost i0: nat, ghost v: nat, ghost rest: seq<Op>) returns (r: nat)
      requires Decodable() && bma + bms <= |bm|
      requires i0 <= 8 && Node(r0, i0)
      modifies this`error, this`srcptr, this`range, this`code, this`bm
      ensures Decodable() && r < 256
      ensures 0x300 <= bms ==> Took(8 - i0)
      ensures 0x300 <= bms && OnPath(r0, i0, 8, v) && old(Sees(TreeFrom(bma, r0, 8 - i0, v) + rest)) ==>
        r == v && Sees(rest) && error == old(error)
    {
      hide Chose, Adapted;
      hide Sees, Models, Pow2, Bit, High, TreeFrom, Node, OnPath;
      ghost var f := 0x300 <= bms && OnPath(r0, i0, 8, v) && Sees(TreeFrom(bma, r0, 8 - i0, v) + rest);
      ghost var i := i0;
      TreeSizes();
      r := r0;
      NodeAtLeast(r, i);
      while r < 0x100
        invariant i0 <= i <= 8 && Node(r, i) && (r < 0x100 ==> i < 8) && (r >= 0x100 ==> i == 8)
        invariant Decodable()
        invariant 0x300 <= bms ==> Took(i - i0)
        invariant f ==> OnPath(r, i, 8, v)
        invariant f ==> Sees(TreeFrom(bma, r, 8 - i, v) + rest) && error == old(error)
        decreases 8 - i
      {
        var c := RangeCheck(r, bms);
        if c != 0 { return 0; }
        TreeStep(bma, r, 8 - i, v, rest);
        if f { PathStep(r, i, 8, v); }
        var b := DecBit(bma + r, TreeFrom(bma, r, 8 - i, v) + rest);
        NodeStep(r, i, 8, b);
        r := 2 * r + b;
        i := i + 1;
        NodeAtLeast(r, i);
      }
      TreeEnd(bma, r, 0, v, rest);
      PathEnds(r, 8, v);
      r := r % 256;
    }

    method DecLength(lm: nat, pstate: nat, ghost v: nat, ghost rest: seq<Op>) returns (r: nat)
      requires Decodable() && lm + 322 <= |bm| && pstate < 4
      modifies this`error, this`srcptr, this`range, this`code, this`bm
      ensures Took(10) && r < 272
      ensures v < 272 && old(Sees(LengthOps(lm, pstate, v) + rest)) ==>
        r == v && Sees(rest) && error == old(error)
    {
      hide Chose, Adapted;
      hide Sees, Models, TreeFrom, Pow2, Coder, TreeOps;
      TreeSizes();
      ghost var ops := LengthOps(lm, pstate, v) + rest;
      var b := DecBit(lm, ops);
      if b == 0 {
        assert v < 8 ==> ops[1..] == TreeOps(lm + 2 + 8 * pstate, 3, v) + rest;
        r := DecTree(lm + 2 + 8 * pstate, 8, 3, v, rest);
        return;
      }
      assert 8 <= v ==> ops[1..] == LengthOps(lm, pstate, v)[1..] + rest;
      r := DecLong(lm, pstate, v, rest);
    }

    /** The second half of `dec_length`: values from 8 on. */
    method DecLong(lm: nat, pstate: nat, ghost v: nat, ghost rest: seq<Op>) returns (r: nat)
      requires Decodable() && lm + 322 <= |bm| && pstate < 4
      modifies this`error, this`srcptr, this`range, this`code, this`bm
      ensures Took(9) && r < 272
      ensures 8 <= v < 272 && old(Sees(LengthOps(lm, pstate, v)[1..] + rest)) ==>
        r == v && Sees(rest) && error == old(error)
    {
      hide Chose, Adapted;
      hide Sees, Models, TreeFrom, Pow2, Coder, TreeOps;
      TreeSizes();
      ghost var ops := LengthOps(lm, pstate, v)[1..] + rest;
      var b := DecBit(lm + 1, ops);
      if b == 0 {
        assert 8 <= v < 16 ==> ops[1..] == TreeOps(lm + 34 + 8 * pstate, 3, v - 8) + rest;
        r := DecTree(lm + 34 + 8 * pstate, 8, 3, if v < 8 then 0 else v - 8, rest);
        r := 8 + r;
      } else {
        assert 16 <= v ==> ops[1..] == TreeOps(lm + 66, 8, v - 16) + rest;
        r := DecTree(lm + 66, 256, 8, if v < 16 then 0 else v - 16, rest);
        r := 16 + r;
      }
    }

    /** The extra bits of a slot: a reverse tree of its own, or equal-odds bits
        followed by a four-bit reverse tree. */
    method DecExtra(dislot: nat, ghost extra: nat, ghost rest: seq<Op>) returns (d: nat)
      requires Decodable() && 4 <= dislot < 64
      modifies this`error, this`srcptr, this`range, this`code, this`bm
      ensures Took(30) && SlotBase(dislot) <= d < SlotBase(dislot) + Pow2(SlotBits(dislot)) && d < TOP
      ensures ExtraModels(dislot)
      ensures SlotOk(dislot, extra) && old(Sees(ExtraOps(dislot, extra) + rest)) ==>
        d == Distance(dislot, extra) && Sees(rest) && error == old(error)
    {
      hide Sees, Models, Pow2, TreeOps, ReverseFrom, DirectOps, SlotBase, Coder, SlotCells;
      ghost var f := SlotOk(dislot, extra) && Sees(ExtraOps(dislot, extra) + rest);
      SlotFits(dislot);
      var limit := dislot / 2 - 1;
      d := SlotBase(dislot);
      if dislot < 14 {
        SlotSpan(dislot);
        var off := d - dislot;
        var c := RangeCheck(off, 115);
        if c != 0 { assert false; }
        SlotCellsAre(dislot);
        var tree := DecRtree(DISPEC + off, 115 - off, limit, extra, rest);
        d := d + tree;
      } else {
        ghost var low := ReverseFrom(ALIGN, 1, 4, extra % 16);
        assert f ==> ExtraOps(dislot, extra) + rest == DirectOps(limit - 4, extra / 16) + (low + rest);
        var dbits := DecDirect(limit - 4, extra / 16, low + rest);
        var rtree := DecRtree(ALIGN, 16, 4, extra % 16, rest);
        d := d + dbits * 16 + rtree;
      }
    }

    /** Distance slot, then its extra bits. */
    method DecDistance(len: nat, ghost slot: nat, ghost extra: nat, ghost rest: seq<Op>)
      returns (d: nat, ghost at: nat)
      requires Decodable()
      modifies this`error, this`srcptr, this`range, this`code, this`bm
      ensures Took(36) && d < TOP && at < 64 && DistanceModels(DISLOT + 64 * (if len < 3 then len else 3), at)
      ensures if at < 4 then d == at else SlotBase(at) <= d < SlotBase(at) + Pow2(SlotBits(at))
      ensures SlotOk(slot, extra) && old(Sees(DistanceOps(len, slot, extra) + rest)) ==>
        d == Distance(slot, extra) && Sees(rest) && error == old(error)
    {
      hide Sees, Models, Pow2, TreeOps, ExtraOps, SlotBase, Coder, SlotCells;
      ghost var f := SlotOk(slot, extra) && Sees(DistanceOps(len, slot, extra) + rest);
      var dstate := if len < 3 then len else 3;
      ghost var more := if SlotOk(slot, extra) then ExtraOps(slot, extra) else [];
      TreeSizes();
      assert f ==> DistanceOps(len, slot, extra) + rest == TreeOps(DISLOT + 64 * dstate, 6, slot) + (more + rest);
      var dislot := DecTree(DISLOT + 64 * dstate, 64, 6, slot, more + rest);
      assert f ==> dislot == slot;
      at := dislot;
      if dislot < 4 {
        if f { NoExtra(slot, extra, rest); }
        d := dislot;
      } else {
        d := DecExtra(dislot, extra, rest);
      }
    }

    /** An operation that took at most `k` bytes of input and appended at most
        `n` bytes of output: it ran out of either only if that many were not
        there, and without an error it made progress. */
    twostate predicate Grew(k: nat, n: nat)
      reads this, dst
    {
      && old(Buffers()) && Buffers() && dst == old(dst)
      && |bm| == MODELS && Models() && Coder() && |rep| == 4
      && old(srcptr) <= srcptr <= old(srcptr) + k
      && old(dstptr) <= dstptr <= old(dstptr) + n
      && Out()[..old(dstptr)] == old(Out())
      && total - old(total) == dstptr - old(dstptr)
      && (old(posState == total % 4) ==> posState == total % 4)
      && (error == 0 ==> old(error) == 0 && dstptr > old(dstptr))
      && (error == old(error) || error == LZMA_INVALID_REF
          || (error == LZMA_INPUT_OVER && old(srcptr) + k > src.Length)
          || (error == LZMA_OUTPUT_OVER && old(dstptr) + n > dst.Length))
    }

    /** The decoder as the packets see it, in state `s`. */
    ghost function View(s: int): Lz
      reads this`dst, this`dstptr, this`posState, this`rep, dst
    {
      Lz(s, posState, rep, Out())
    }

    /** `pk` may come next and there is room for it. */
    ghost predicate Allows(s: int, pk: Packet)
      reads this`dst, this`dstptr, this`posState, this`rep, dst
    {
      LzOk(View(s)) && PacketOk(View(s), pk) && dst != null && dstptr + OutputOf(pk) <= dst.Length
    }

    /** The packet had its effect, and `rest` is what the input shows now. */
    twostate predicate Performed(s: int, pk: Packet, s': int, rest: seq<Op>)
      requires old(Allows(s, pk))
      reads this, dst, src
    {
      error == old(error) && Sees(rest) && View(s') == Apply(old(View(s)), pk)
    }

    /** A copy of `n` bytes from inside the output, with room for it, was made
        and `rest` is what the input shows now. */
    twostate predicate Copies(d: nat, n: nat, rest: seq<Op>)
      reads this, dst, src
    {
      old(Buffers()) && dst != null && d < old(dstptr) && old(dstptr) + n <= dst.Length ==>
        && error == old(error) && Sees(rest)
        && Out() == CopyBack(old(Out()), d, n)
        && posState == (old(posState) + n) % 4
    }

    ghost predicate SeesLiteral(s: int, c: byte, rest: seq<Op>)
      reads this, dst, src
    {
      Allows(s, Literal(c)) && Sees(LiteralOps(View(s), c) + rest)
    }

    /** The output as it was before a copy. */
    ghost function Snap(): Before
      reads this`dst, this`dstptr, this`total, this`posState, this`error, dst
    {
      Before(Out(), total, posState, error)
    }

    /** After `n` rounds of copying from `d` places back, cut short by the end
        of the buffer. */
    ghost predicate CopiedFrom(b: Before, d: nat, n: nat)
      reads this, dst
    {
      var ptr := |b.out|;
      && Buffers()
      && dstptr == (if ptr + n <= dst.Length then ptr + n else dst.Length) && ptr <= dstptr
      && Out() == CopyBack(b.out, d, dstptr - ptr)
      && total == b.total + (dstptr - ptr)
      && (0 <= b.pos < 4 ==> posState == (b.pos + (dstptr - ptr)) % 4)
      && (error == b.error || error == LZMA_INVALID_REF || (error == LZMA_OUTPUT_OVER && ptr + n > dst.Length))
      && (d < ptr && ptr + n <= dst.Length ==> error == b.error)
      && (n > 0 && error == 0 ==> b.error == 0 && dstptr > ptr)
      && (ptr + n > dst.Length ==> error != 0) && (n > 0 && d != 0 && d >= ptr ==> error != 0)
    }

    twostate predicate Copied(d: nat, n: nat)
      reads this, dst
    {
      old(Buffers()) && dst == old(dst) && src == old(src) && CopiedFrom(old(Snap()), d, n)
    }

    method CopyByte(d: u32)
      requires Buffers()
      modifies this`error, this`posState, this`dstptr, this`total, dst
      ensures Buffers()
      ensures old(dstptr) < dst.Length ==>
        && Out() == old(Out()) + [if d < old(dstptr) then old(Out())[old(dstptr) - 1 - d] else 0]
        && dstptr == old(dstptr) + 1 && total == old(total) + 1 && posState == (old(posState) + 1) % 4
        && error == if d == 0 || d < old(dstptr) then old(error) else LZMA_INVALID_REF
      ensures old(dstptr) == dst.Length ==>
        && Out() == old(Out()) && dstptr == old(dstptr) && total == old(total) && posState == old(posState)
        && error == LZMA_OUTPUT_OVER
    {
      var c := PeekBack(d);
      PutByte(c);
      assert |Out()| == dstptr;
    }

    /** One round of `repeat_from_dict`. */
    method CopyRound(d: u32, ghost b: Before, ghost i: nat)
      requires Buffers() && CopiedFrom(b, d, i)
      modifies this`error, this`posState, this`dstptr, this`total, dst
      ensures CopiedFrom(b, d, i + 1)
    {
      hide CopyBack, Out;
      ghost var k := dstptr - |b.out|;
      CopyBackStep(b.out, d, k);
      CopyBackLength(b.out, d, k);
      Mod4Step(b.pos + k);
      CopyByte(d);
    }

    /** `n` times, append the byte `d` places back. */
    method RepeatFromDict(s: int, d: u32, n: nat) returns (s': int)
      requires Buffers()
      modifies this`error, this`posState, this`dstptr, this`total, dst
      ensures s' == s && Copied(d, n)
    {
      hide CopyBack;
      CopyBackLength(Out(), d, 0);
      CopyBackNone(Out(), d);
      ghost var b := Snap();
      var i := 0;
      while i < n
        invariant 0 <= i <= n && dst == old(dst) && Buffers() && CopiedFrom(b, d, i)
      {
        CopyRound(d, b, i);
        i := i + 1;
      }
      s' := s;
    }

    lemma OutLength()
      requires Buffers()
      ensures |Out()| == dstptr
    {
    }

    /** What was appended repeats what lies at the last distance; without an
        error that is inside the output, or right before its very start. */
    twostate predicate Repeated()
      reads this, dst
    {
      && |rep| == 4 && old(dstptr) <= dstptr && Out() == CopyBack(old(Out()), rep[0], dstptr - old(dstptr))
      && (error == 0 ==> rep[0] < old(dstptr) || rep[0] == 0)
    }

    /** The output continues in the pattern of its last `rep[0] + 1` bytes. */
    twostate predicate Extended()
      reads this, dst
    {
      |rep| == 4 && Continues(old(Out()), Out(), rep[0], dstptr - old(dstptr))
    }

    /** A whole copy, in the terms of its callers. */
    method CopyOut(d: u32, n: nat)
      requires Decodable() && |rep| == 4 && 0 <= posState < 4 && 1 <= n
      modifies this`error, this`posState, this`dstptr, this`total, dst
      ensures Grew(0, n) && Out() == CopyBack(old(Out()), d, dstptr - old(dstptr))
      ensures error == 0 ==> dstptr == old(dstptr) + n && (d < old(dstptr) || d == 0)
      ensures d < old(dstptr) && old(dstptr) + n <= dst.Length ==>
        && error == old(error) && Out() == CopyBack(old(Out()), d, n)
        && posState == (old(posState) + n) % 4
    {
      hide Models, CopyBack, Out;
      OutLength();
      ghost var out := Out();
      var s := RepeatFromDict(0, d, n);
      ghost var k := dstptr - old(dstptr);
      CopyBackLength(out, d, k);
      Mod4Sum(old(total), k);
      assert old(posState == total % 4) ==> posState == (old(total) + k) % 4;
    }

    method InflateLiteral(s: int, ghost v: byte, ghost rest: seq<Op>) returns (s': int)
      requires Decodable() && 0 <= s < 12 && |rep| == 4 && 0 <= posState < 4
      modifies this`error, this`srcptr, this`range, this`code, this`bm,
               this`posState, this`dstptr, this`total, dst
      ensures Grew(8, 1) && 0 <= s' < 12 && IsLit(s')
      ensures old(SeesLiteral(s, v, rest)) ==> Performed(s, Literal(v), s', rest)
    {
      hide Sees, Models, Apply, Pow2, TreeFrom, MatchedFrom;
      var c := DecLiteral(s, v, rest);
      SeesApart(rest);
      PutByte(c);
      s' := if s <= 3 then 0 else if s <= 9 then s - 3 else s - 6;
      if old(SeesLiteral(s, v, rest)) { ApplyLiteral(old(View(s)), v); }
    }

    /** The decoding half of `inflate_literal`. */
    method DecLiteral(s: int, ghost v: byte, ghost rest: seq<Op>) returns (c: byte)
      requires Decodable() && 0 <= s < 12 && |rep| == 4
      modifies this`error, this`srcptr, this`range, this`code, this`bm
      ensures Decodable() && old(srcptr) <= srcptr <= old(srcptr) + 8
      ensures error == old(error) || error == LZMA_INVALID_REF
        || (error == LZMA_INPUT_OVER && old(srcptr) + 8 > src.Length)
      ensures error == 0 ==> old(error) == 0
      ensures old(SeesLiteral(s, v, rest)) ==> c == v && Sees(rest) && error == old(error)
    {
      hide Sees, Models, TreeOps, MatchedFrom, Pow2;
      TreeSizes();
      var prev := PeekBack(0);
      assert prev == LastByte(Out());
      var lstate: int := prev / 32;
      var r := RangeCheck(lstate, 8);
      if r != 0 { assert false; }
      var bma := LITERAL + 0x300 * lstate;
      if IsLit(s) {
        c := DecTree(bma, 0x300, 8, v, rest);
      } else {
        var mbyte := PeekBack(rep[0]);
        c := DecMatch(bma, 0x300, mbyte, v, rest);
      }
    }

    method InflateShortrep(s: int, ghost rest: seq<Op>) returns (s': int)
      requires Decodable() && 0 <= s < 12 && |rep| == 4 && 0 <= posState < 4
      modifies this`error, this`posState, this`dstptr, this`total, dst
      ensures Grew(0, 1) && s' == (if s <= 6 then 9 else 11) && Repeated()
      ensures old(Allows(s, ShortRep) && Sees(rest)) ==> Performed(s, ShortRep, s', rest)
    {
      hide Sees, Models, CopyBack;
      SeesApart(rest);
      s' := if IsLit(s) then 9 else 11;
      CopyOut(rep[0], 1);
    }

    method InflateLongrep(s: int, p: int, n: nat, ghost len: nat, ghost rest: seq<Op>) returns (s': int)
      requires Decodable() && 0 <= s < 12 && |rep| == 4 && 0 <= posState < 4 && p == posState && n < 4
      modifies this`error, this`srcptr, this`range, this`code, this`bm, this`rep,
               this`posState, this`dstptr, this`total, dst
      ensures Grew(10, 273) && s' == (if s <= 6 then 8 else 11)
      ensures rep == [old(rep)[n]] + old(rep)[..n] + old(rep)[n + 1..] && Repeated()
      ensures 2 <= len < 274 && old(Sees(LengthOps(REPLEN, p, len - 2) + rest)) ==>
        Copies(old(rep)[n], len, rest)
    {
      hide Sees, Models, LengthOps, CopyBack, Apply, Out, Coder;
      var d := PickRep(n);
      var l := DecLength(REPLEN, p, if len < 2 then 0 else len - 2, rest);
      SeesApart(rest);
      s' := if IsLit(s) then 8 else 11;
      CopyOut(d, 2 + l);
    }

    ghost predicate SeesMatch(p: nat, len: nat, slot: nat, extra: nat, rest: seq<Op>)
      reads this`src, this`srcptr, this`dst, this`code, this`range, this`bm, src
    {
      && 2 <= len < 274 && SlotOk(slot, extra)
      && Sees(LengthOps(MATCHLEN, p, len - 2) + (DistanceOps(len - 2, slot, extra) + rest))
    }

    /** The all-ones distance was decoded: nothing is written, and the error
        says whether it came with the length of a proper end marker. */
    twostate predicate Ended(k: nat)
      reads this, dst
    {
      && old(Buffers()) && Buffers() && dst == old(dst)
      && |bm| == MODELS && Models() && Coder() && |rep| == 4
      && old(srcptr) <= srcptr <= old(srcptr) + k
      && dstptr == old(dstptr) && Out() == old(Out()) && total == old(total) && posState == old(posState)
      && marker >= 2
      && error == if marker == 2 then LZMA_STREAM_END else LZMA_RANGE_CHECK
    }

    /** The decoding half of `inflate_match`: length, then distance. */
    method DecPair(p: nat, ghost len: nat, ghost slot: nat, ghost extra: nat, ghost rest: seq<Op>)
      returns (l: nat, d: nat)
      requires Decodable() && p < 4
      modifies this`error, this`srcptr, this`range, this`code, this`bm
      ensures Took(46) && l < 272 && d < TOP
      ensures old(SeesMatch(p, len, slot, extra, rest)) ==>
        2 + l == len && d == Distance(slot, extra) && Sees(rest) && error == old(error)
    {
      hide Sees, Models, LengthOps, DistanceOps, SlotOk, Distance;
      ghost var len' := if len < 2 then 0 else len - 2;
      ghost var more := if SlotOk(slot, extra) then DistanceOps(len', slot, extra) + rest else [];
      l := DecLength(MATCHLEN, p, len', more);
      ghost var at;
      d, at := DecDistance(l, slot, extra, rest);
    }

    method InflateMatch(s: int, p: int, ghost len: nat, ghost slot: nat, ghost extra: nat, ghost rest: seq<Op>)
      returns (s': int)
      requires Decodable() && 0 <= s < 12 && |rep| == 4 && 0 <= posState < 4 && p == posState && marker == 0
      modifies this`error, this`srcptr, this`range, this`code, this`bm, this`rep,
               this`posState, this`dstptr, this`total, this`marker, dst
      ensures marker == 0 ==> Grew(46, 273) && s' == (if s <= 6 then 7 else 10)
      ensures marker == 0 ==> Repeated() && rep[1..] == old(rep)[..3]
      ensures marker != 0 ==> Ended(46) && s' == STATE_INVALID
      ensures old(SeesMatch(p, len, slot, extra, rest)) && Distance(slot, extra) == 0xFFFF_FFFF ==> marker == len
      ensures old(SeesMatch(p, len, slot, extra, rest)) && Distance(slot, extra) < 0xFFFF_FFFF ==>
        && marker == 0
        && rep == [Distance(slot, extra), old(rep)[0], old(rep)[1], old(rep)[2]]
        && Copies(Distance(slot, extra), len, rest)
    {
      hide Sees, Models, SeesMatch, CopyBack, Apply, SlotOk, Distance, Out, Coder;
      rep := [rep[0], rep[0], rep[1], rep[2]];
      var l, d := DecPair(p, len, slot, extra, rest);
      if d == 0xFFFF_FFFF {
        marker := 2 + l;
        error := if 2 + l != 2 then LZMA_RANGE_CHECK else LZMA_STREAM_END;
        return STATE_INVALID;
      }
      SeesApart(rest);
      rep := rep[0 := d];
      s' := if IsLit(s) then 7 else 10;
      CopyOut(d, 2 + l);
    }

    /** The cascade of bit tests at the top of the main loop. */
    method DecKind(s: nat, p: nat, ghost k: nat, ghost rest: seq<Op>) returns (kind: nat)
      requires Decodable() && s < 12 && p < 4
      modifies this`error, this`srcptr, this`range, this`code, this`bm
      ensures Decodable() && kind < 7
      ensures Took(if kind == 0 then 1 else if kind == 1 then 2 else 5)
      ensures k < 7 && old(Sees(KindOps(s, p, k) + rest)) ==> kind == k && Sees(rest) && error == old(error)
    {
      hide Chose, Adapted;
      hide Sees, Models;
      hide KindOps;
      if k < 7 { KindSteps(s, p, k, rest); }
      ghost var o := KindOps(s, p, k) + rest;
      ghost var o2 := Tail(Tail(o));
      var b := DecBit(BIT1 + 4 * s + p, o);
      if b == 0 { return 0; }
      b := DecBit(BIT2 + s, Tail(o));
      if b == 0 { return 1; }
      b := DecBit(BIT3 + s, o2);
      if b == 0 {
        b := DecBit(SHRT + 4 * s + p, Tail(o2));
        return 2 + b;
      }
      b := DecBit(BIT4 + s, Tail(o2));
      if b == 0 { return 4; }
      b := DecBit(BIT5 + s, Tail(Tail(o2)));
      return 5 + b;
    }

    ghost predicate SeesPacket(pk: Packet, rest: seq<Op>)
      reads this, dst, src
    {
      Allows(state, pk) && Sees(PacketOps(View(state), pk) + rest)
    }

    ghost predicate SeesEnd(rest: seq<Op>)
      reads this, dst, src
    {
      LzOk(View(state)) && Sees(EndOps(View(state)) + rest)
    }

    /** One iteration of the main loop, on any input. */
    twostate predicate Stepped()
      reads this, dst
    {
      && Invariant() && old(Buffers()) && Buffers() && dst == old(dst) && state != STATE_INITIAL
      && old(srcptr) <= srcptr <= old(srcptr) + 48
      && old(dstptr) <= dstptr <= old(dstptr) + 273
      && Out()[..old(dstptr)] == old(Out())
      && total - old(total) == dstptr - old(dstptr)
      && (error == 0 ==> dstptr > old(dstptr))
      && (error == LZMA_INPUT_OVER ==> old(srcptr) + 48 > src.Length)
      && (error == LZMA_OUTPUT_OVER ==> old(dstptr) + 273 > dst.Length)
    }

    ghost predicate SeesBody(s: int, pk: Packet, rest: seq<Op>)
      reads this, dst, src
    {
      Allows(s, pk) && Sees(BodyOps(View(s), pk) + rest)
    }

    ghost predicate SeesEndBody(p: nat, rest: seq<Op>)
      reads this`src, this`srcptr, this`dst, this`code, this`range, this`bm, src
    {
      SeesMatch(p, 2, 63, 0x3FFF_FFFF, rest)
    }

    /** The branches of the main loop. */
    method Dispatch(kind: nat, s: int, p: int, ghost pk: Packet, ghost end: bool, ghost rest: seq<Op>)
      returns (s': int)
      requires Decodable() && kind < 7 && 0 <= s < 12 && |rep| == 4 && 0 <= posState < 4 && p == posState
      requires marker == 0
      modifies this`error, this`srcptr, this`range, this`code, this`bm, this`rep,
               this`posState, this`dstptr, this`total, this`marker, dst
      ensures marker == 0 ==> Grew(if kind == 0 then 8 else if kind == 1 then 46 else 10, 273) && 0 <= s' < 12
      ensures marker == 0 ==> (IsLit(s') <==> kind == 0) && (!IsLit(s') ==> Repeated())
      ensures kind == 0 ==> dstptr <= old(dstptr) + 1
      ensures marker != 0 ==> Ended(46) && s' == STATE_INVALID && kind == 1
      ensures !end && kind == KindOf(pk) && old(SeesBody(s, pk, rest)) ==>
        marker == 0 && Performed(s, pk, s', rest)
      ensures end && kind == 1 && old(SeesEndBody(p, rest)) ==> marker == 2
    {
      hide Sees, Models, Apply, LiteralOps, LengthOps, DistanceOps, CopyBack, Distance, SlotOk;
      if kind == 0 {
        s' := InflateLiteral(s, if pk.Literal? then pk.c else 0, rest);
      } else if kind == 1 {
        LastSlot();
        ghost var m := if end then Match(2, 63, 0x3FFF_FFFF) else if pk.Match? then pk else Match(0, 0, 0);
        MatchBody(View(s), m, rest);
        if !end && pk.Match? && Allows(s, pk) { ApplyMatch(View(s), pk.len, pk.slot, pk.extra); }
        s' := InflateMatch(s, p, m.len, m.slot, m.extra, rest);
      } else {
        s' := DispatchRep(kind, s, p, pk, rest);
      }
    }

    method DispatchRep(kind: nat, s: int, p: int, ghost pk: Packet, ghost rest: seq<Op>) returns (s': int)
      requires Decodable() && 2 <= kind < 7 && 0 <= s < 12 && |rep| == 4 && 0 <= posState < 4 && p == posState
      modifies this`error, this`srcptr, this`range, this`code, this`bm, this`rep,
               this`posState, this`dstptr, this`total, dst
      ensures Grew(10, 273) && 6 < s' < 12 && Repeated()
      ensures kind == KindOf(pk) && old(SeesBody(s, pk, rest)) ==> Performed(s, pk, s', rest)
    {
      hide Sees, Models, Apply, LiteralOps, LengthOps, CopyBack;
      if kind == 2 {
        assert [] + rest == rest;
        s' := InflateShortrep(s, rest);
      } else {
        s' := DispatchLong(kind, s, p, pk, rest);
      }
    }

    method DispatchLong(kind: nat, s: int, p: int, ghost pk: Packet, ghost rest: seq<Op>) returns (s': int)
      requires Decodable() && 3 <= kind < 7 && 0 <= s < 12 && |rep| == 4 && 0 <= posState < 4 && p == posState
      modifies this`error, this`srcptr, this`range, this`code, this`bm, this`rep,
               this`posState, this`dstptr, this`total, dst
      ensures Grew(10, 273) && 6 < s' < 12 && Repeated()
      ensures kind == KindOf(pk) && old(SeesBody(s, pk, rest)) ==> Performed(s, pk, s', rest)
    {
      hide Sees, Models, Apply, LiteralOps, LengthOps, CopyBack;
      if pk.LongRep? && Allows(s, pk) { ApplyLongRep(View(s), pk.n, pk.len); }
      s' := InflateLongrep(s, p, kind - 3, if pk.LongRep? then pk.len else 0, rest);
    }

    /** The cascade again, in terms of packets. */
    method DecHead(ghost pk: Packet, ghost end: bool, ghost rest: seq<Op>) returns (kind: nat)
      requires Decodable() && 0 <= state < 12 && 0 <= posState < 4
      modifies this`error, this`srcptr, this`range, this`code, this`bm
      ensures kind < 7 && Took(if kind == 0 then 1 else if kind == 1 then 2 else 5)
      ensures !end && old(SeesPacket(pk, rest)) ==>
        kind == KindOf(pk) && SeesBody(state, pk, rest) && error == old(error)
      ensures end && old(SeesEnd(rest)) ==>
        kind == 1 && SeesEndBody(posState, rest) && error == old(error)
    {
      hide Sees, Models, BodyOps, KindOps, LengthOps, DistanceOps, PacketOk, SlotOk, PacketOps, EndOps, Out;
      LastSlot();
      ghost var s, p := state, posState;
      ghost var k := if end then 1 else KindOf(pk);
      ghost var body :=
        if end then LengthOps(MATCHLEN, p, 0) + (DistanceOps(0, 63, 0x3FFF_FFFF) + rest)
        else if SeesPacket(pk, rest) then BodyOps(View(s), pk) + rest
        else [];
      if end && SeesEnd(rest) {
        HeadAndEnd(View(s), rest);
      }
      if !end && SeesPacket(pk, rest) {
        HeadAndBody(View(s), pk, rest);
        KindBound(View(s), pk);
      }
      kind := DecKind(state, posState, k, body);
    }

    /** The body of the main loop.  If the input shows a packet, the packet is
        performed; if it shows the end marker (`end`), the stream ends. */
    method Step(ghost pk: Packet, ghost end: bool, ghost rest: seq<Op>)
      requires Invariant() && Buffers() && error == 0 && state != STATE_INITIAL
      modifies this`error, this`srcptr, this`range, this`code, this`bm, this`rep, this`state,
               this`posState, this`dstptr, this`total, this`marker, dst
      ensures Stepped()
      ensures error == 0 && IsLit(state) ==> dstptr == old(dstptr) + 1
      ensures error == 0 && !IsLit(state) && old(dstptr) > 0 ==> Extended()
      ensures !end && old(SeesPacket(pk, rest)) ==>
        error == 0 && Sees(rest) && View(state) == Apply(old(View(state)), pk)
      ensures end && old(SeesEnd(rest)) ==> error == LZMA_STREAM_END && Out() == old(Out())
    {
      hide Sees, Models, Apply, SeesBody, SeesEndBody, SeesPacket, SeesEnd, Continues;
      var p := posState;
      var s := state;
      var r := RangeCheck(s, 12);
      if r != 0 { assert false; }
      r := RangeCheck(p, 4);
      if r != 0 { assert false; }
      s := Decode(s, p, pk, end, rest);
      state := s;
    }

    /** Head and body of one packet. */
    method Decode(s: int, p: int, ghost pk: Packet, ghost end: bool, ghost rest: seq<Op>) returns (s': int)
      requires Invariant() && Buffers() && error == 0 && s == state != STATE_INITIAL && p == posState
      modifies this`error, this`srcptr, this`range, this`code, this`bm, this`rep,
               this`posState, this`dstptr, this`total, this`marker, dst
      ensures marker == 0 ==> Grew(48, 273) && 0 <= s' < 12
      ensures marker == 0 && IsLit(s') ==> dstptr <= old(dstptr) + 1
      ensures marker == 0 && !IsLit(s') && error == 0 && old(dstptr) > 0 ==> Extended()
      ensures marker != 0 ==> Ended(48) && s' == STATE_INVALID
      ensures !end && old(SeesPacket(pk, rest)) ==> old(Allows(s, pk)) && marker == 0 && Performed(s, pk, s', rest)
      ensures end && old(SeesEnd(rest)) ==> marker == 2
    {
      hide Sees, Models, Apply, SeesBody, SeesEndBody, SeesPacket, SeesEnd, Out, Allows, View, CopyBack, Continues;
      OutLength();
      SeesPacketAllows(pk, rest);
      var kind := DecHead(pk, end, rest);
      s' := Dispatch(kind, s, p, pk, end, rest);
      if marker == 0 && !IsLit(s') && error == 0 && old(dstptr) > 0 {
        Periodic(old(Out()), rep[0], dstptr - old(dstptr));
      }
    }

    lemma SeesPacketAllows(pk: Packet, rest: seq<Op>)
      ensures SeesPacket(pk, rest) ==> Allows(state, pk)
    {
    }

    /** The input shows the packets `ps` and the end marker, and their output fits. */
    ghost predicate Carries(ps: seq<Packet>)
      reads this, dst, src
    {
      && src != null && dst != null && StreamOk(View(state), ps)
      && Sees(StreamOps(View(state), ps))
      && |ApplyAll(View(state), ps).out| <= dst.Length
    }

    /** The same before the first call, when the four bytes of `code` are still
        in the input. */
    ghost predicate StartsWith(ps: seq<Packet>)
      reads this, dst, src
    {
      && src != null && dst != null && src != dst && 0 <= srcptr <= srcptr + 4 <= src.Length
      && StreamOk(View(0), ps)
      && Follows(StreamOps(View(0), ps), Value(src[srcptr..srcptr + 4]), 0xFFFF_FFFF, bm, src[srcptr + 4..])
      && |ApplyAll(View(0), ps).out| <= dst.Length
    }

    ghost predicate Pointers()
      reads this`src, this`srcptr, this`dst, this`dstptr
    {
      (src != null ==> 0 <= srcptr <= src.Length) && (dst != null ==> 0 <= dstptr <= dst.Length)
    }

    method CheckBuffers(ghost ps: seq<Packet>)
      requires Invariant() && Pointers()
      modifies this`error, this`srcptr, this`code, this`range, this`state
      ensures Invariant() && Pointers()
      ensures error == 0 ==> Buffers() && state != STATE_INITIAL && old(error) == 0
      ensures old(state) != STATE_INITIAL && src != null && dst != null ==>
        srcptr == old(srcptr) && error == old(error) && code == old(code) && range == old(range) && state == old(state)
      ensures old(state) == STATE_INITIAL && src != null && dst != null ==>
        && state == 0 && range == 0xFFFF_FFFF
        && (old(srcptr) + 4 <= src.Length ==> code == BigEndian(src[old(srcptr)..old(srcptr) + 4]))
      ensures old(srcptr) <= srcptr <= old(srcptr) + 4
      ensures src != null && dst != null ==>
        error == old(error) || (error == LZMA_INPUT_OVER && old(srcptr) + 4 > src.Length)
      ensures error != old(error) ==> error in {LZMA_INPUT_OVER, LZMA_OUTPUT_OVER}
      ensures old(error == 0 && state == STATE_INITIAL && StartsWith(ps)) ==> error == 0 && Carries(ps)
    {
      hide Models, Follows, StreamOk, StreamOps, ApplyAll;
      if src == null {
        error := LZMA_INPUT_OVER;
        return;
      }
      if dst == null {
        error := LZMA_OUTPUT_OVER;
        return;
      }
      if state != STATE_INITIAL { return; }
      var code' := ReadCode();
      code := code';
      state := 0;
      range := 0xFFFF_FFFF;
      assert old(StartsWith(ps)) ==> src[old(srcptr) + 4..] == src[srcptr..];
    }

    /** Four bytes, most significant first. */
    method ReadCode() returns (c: int)
      requires Buffers()
      modifies this`error, this`srcptr
      ensures Buffers() && 0 <= c < TOP
      ensures old(srcptr) <= srcptr <= old(srcptr) + 4
      ensures error == old(error) || (error == LZMA_INPUT_OVER && old(srcptr) + 4 > src.Length)
      ensures old(srcptr) + 4 <= src.Length ==>
        && srcptr == old(srcptr) + 4 && error == old(error)
        && c == Value(src[old(srcptr)..srcptr]) == BigEndian(src[old(srcptr)..srcptr])
    {
      c := 0;
      var i := 0;
      while i < 4
        invariant 0 <= i <= 4 && Buffers() && 0 <= c < TOP
        invariant old(srcptr) <= srcptr <= old(srcptr) + i
        invariant error == old(error) || (error == LZMA_INPUT_OVER && old(srcptr) + 4 > src.Length)
        invariant old(srcptr) + 4 <= src.Length ==>
          srcptr == old(srcptr) + i && error == old(error)
          && c == Value(src[old(srcptr)..srcptr]) && c < Pow256(i)
      {
        ghost var s := src[old(srcptr)..srcptr];
        var b := GetByte();
        if old(srcptr) + 4 <= src.Length {
          assert src[old(srcptr)..srcptr] == s + [b];
          ValueAppend(s, b);
          assert Pow256(3) == BOT;
          Pow256Grows(i, 3);
        }
        c := (c * 256) % TOP + b;
        i := i + 1;
      }
      if old(srcptr) + 4 <= src.Length { FourByteValue(src[old(srcptr)..srcptr]); }
    }

    /** `lzma_inflate`.  On any input: it returns, keeps the invariant, and runs
        over neither buffer if the caller left 52 and 273 bytes past the
        marks.  On an encoded stream: it either finishes with the whole output
        or stops at a mark having performed a prefix of the packets, with the
        rest still to come. */
    method Inflate(ghost ps: seq<Packet>) returns (r: int, ghost done: nat)
      requires Invariant() && Pointers()
      modifies this`error, this`srcptr, this`range, this`code, this`bm, this`rep, this`state,
               this`posState, this`dstptr, this`total, this`marker, dst
      ensures Invariant() && Pointers()
      ensures r == error || r == LZMA_NEED_INPUT || r == LZMA_NEED_OUTPUT
      ensures r == LZMA_NEED_INPUT ==> src != null && srcptr > srchwm
      ensures r == LZMA_NEED_OUTPUT ==> dst != null && dstptr > dsthwm
      ensures dst != null ==> dstptr >= old(dstptr) && Out()[..old(dstptr)] == old(Out())
      ensures total - old(total) == dstptr - old(dstptr)
      ensures old(src != null && dst != null && srcptr <= srchwm && dstptr <= dsthwm
                  && srchwm + 52 <= src.Length && dsthwm + 273 <= dst.Length
                  && error != LZMA_INPUT_OVER && error != LZMA_OUTPUT_OVER) ==>
        error != LZMA_INPUT_OVER && error != LZMA_OUTPUT_OVER
      ensures old(Underway(ps)) ==> done <= |ps| && Reached(ps, done, old(ViewNow()))
      ensures old(Underway(ps)) && srchwm >= src.Length && dsthwm >= dst.Length ==> r == LZMA_STREAM_END
    {
      hide Models, Sees, Follows, StreamOk, StreamOps, ApplyAll, Apply, PacketOk;
      ghost var u, z := Underway(ps), ViewNow();
      CheckBuffers(ps);
      if u { ReachedStart(ps, z); }
      r, done := Run(ps, z, u);
    }

    /** The main loop. */
    method Run(ghost ps: seq<Packet>, ghost z: Lz, ghost u: bool) returns (r: int, ghost done: nat)
      requires Invariant() && Pointers()
      requires error == 0 ==> Buffers() && state != STATE_INITIAL
      requires u ==> src != null && dst != null && Reached(ps, 0, z)
      modifies this`error, this`srcptr, this`range, this`code, this`bm, this`rep, this`state,
               this`posState, this`dstptr, this`total, this`marker, dst
      ensures Invariant() && Pointers()
      ensures r == error || r == LZMA_NEED_INPUT || r == LZMA_NEED_OUTPUT
      ensures r == LZMA_NEED_INPUT ==> src != null && srcptr > srchwm
      ensures r == LZMA_NEED_OUTPUT ==> dst != null && dstptr > dsthwm
      ensures dst != null ==> dstptr >= old(dstptr) && Out()[..old(dstptr)] == old(Out())
      ensures total - old(total) == dstptr - old(dstptr)
      ensures old(Slack()) ==> error != LZMA_INPUT_OVER && error != LZMA_OUTPUT_OVER
      ensures u ==> done <= |ps| && Reached(ps, done, z)
      ensures u && r == error ==> r == LZMA_STREAM_END
    {
      hide Models, Sees, Follows, StreamOk, StreamOps, ApplyAll, Apply, PacketOk, Coder, Continues, SeesPacket, SeesEnd;
      done := 0;
      while error == 0
        invariant Invariant() && Pointers()
        invariant error == 0 ==> Buffers() && state != STATE_INITIAL
        invariant dst != null ==> dstptr >= old(dstptr) && Out()[..old(dstptr)] == old(Out())
        invariant total - old(total) == dstptr - old(dstptr)
        invariant old(Slack()) ==> Slack() || error in {LZMA_STREAM_END, LZMA_INVALID_REF, LZMA_RANGE_CHECK}
        invariant u ==> src != null && dst != null && done <= |ps| && Reached(ps, done, z)
        decreases if error != 0 then 0 else 1 + dst.Length - dstptr
      {
        ghost var pk, end, rest := Literal(0), false, [];
        if u { pk, end, rest := NextPacket(ps, done, z); }
        ghost var v := View(state);
        Step(pk, end, rest);
        if u {
          StepReached(ps, done, z, v);
          if !end { done := done + 1; }
        }
        if srcptr > srchwm { return LZMA_NEED_INPUT, done; }
        if dstptr > dsthwm { return LZMA_NEED_OUTPUT, done; }
      }
      r := error;
    }

    /** The pointers are at the marks or below (the first four bytes of input
        aside), and there is room for one more packet past the marks. */
    ghost predicate Slack()
      reads this
    {
      && src != null && dst != null
      && srcptr <= srchwm + 4 && dstptr <= dsthwm
      && srchwm + 52 <= src.Length && dsthwm + 273 <= dst.Length
      && error != LZMA_INPUT_OVER && error != LZMA_OUTPUT_OVER
    }

    lemma ReachedStart(ps: seq<Packet>, z: Lz)
      requires error == 0 && state != STATE_INITIAL && Carries(ps) && z == View(state)
      ensures Reached(ps, 0, z)
    {
      assert ps[..0] == [] && ps[0..] == ps;
    }

    /** What the input shows next. */
    lemma NextPacket(ps: seq<Packet>, k: nat, z: Lz) returns (pk: Packet, end: bool, rest: seq<Op>)
      requires Buffers() && k <= |ps| && Reached(ps, k, z) && error == 0
      ensures end <==> k == |ps|
      ensures end ==> SeesEnd(rest)
      ensures !end ==> pk == ps[k] && SeesPacket(pk, rest)
      ensures !end ==> StreamOk(Apply(View(state), pk), ps[k..][1..])
      ensures !end ==> rest == StreamOps(Apply(View(state), pk), ps[k..][1..])
    {
      hide Sees, Apply, PacketOk, PacketOps, EndOps;
      var qs := ps[k..];
      var v := View(state);
      end := k == |ps|;
      if end {
        pk, rest := Literal(0), [];
        assert StreamOps(v, qs) == EndOps(v) + [];
      } else {
        pk, rest := qs[0], StreamOps(Apply(v, qs[0]), qs[1..]);
        ApplyAllGrows(v, qs);
      }
    }

    /** After a packet has been performed. */
    lemma StepReached(ps: seq<Packet>, k: nat, z: Lz, v: Lz)
      requires Buffers() && k <= |ps| && StreamOk(z, ps[..k]) && v == ApplyAll(z, ps[..k])
      requires k == |ps| ==> error == LZMA_STREAM_END && Out() == v.out
      requires k < |ps| ==> error == 0 && state != STATE_INITIAL && StreamOk(v, ps[k..])
      requires k < |ps| ==> View(state) == Apply(v, ps[k]) && Sees(StreamOps(Apply(v, ps[k]), ps[k..][1..]))
      requires k < |ps| ==> |ApplyAll(v, ps[k..]).out| <= dst.Length
      ensures k == |ps| ==> Reached(ps, k, z)
      ensures k < |ps| ==> Reached(ps, k + 1, z)
    {
      hide Sees, Apply, PacketOk, StreamOps;
      if k < |ps| {
        ApplyAllStep(z, ps, k);
        assert ps[k..][1..] == ps[k + 1..];
      }
    }

    /** An encoded stream, from the start or from where the last call stopped. */
    ghost predicate Underway(ps: seq<Packet>)
      reads this, dst, src
    {
      error == 0 && if state == STATE_INITIAL then StartsWith(ps) else Carries(ps)
    }

    ghost function ViewNow(): Lz
      reads this, dst
    {
      View(if state == STATE_INITIAL then 0 else state)
    }

    /** `k` packets have been performed and the rest is still to come, or all
        have and the end marker too. */
    ghost predicate Reached(ps: seq<Packet>, k: nat, z: Lz)
      requires k <= |ps|
      reads this, dst, src
    {
      && StreamOk(z, ps[..k])
      && Out() == ApplyAll(z, ps[..k]).out
      && ((error == 0 && state != STATE_INITIAL && View(state) == ApplyAll(z, ps[..k]) && Carries(ps[k..]))
          || (error == LZMA_STREAM_END && k == |ps|))
    }

    /** Moves the `n`-th last distance to the front of the four. */
    method PickRep(n: nat) returns (d: u32)
      requires n < 4 && |rep| == 4
      modifies this`rep
      ensures d == old(rep)[n] && rep == [d] + old(rep)[..n] + old(rep)[n + 1..]
    {
      d := rep[n];
      if n > 2 { rep := rep[3 := rep[2]]; }
      if n > 1 { rep := rep[2 := rep[1]]; }
      if n > 0 { rep := rep[1 := rep[0]]; }
      rep := rep[0 := d];
    }
  }

  /** Even odds everywhere. */
  function InitialModels(): (bm: seq<int>)
    ensures |bm| == MODELS && ModelsOk(bm)
  {
    seq(MODELS, _ => 1024)
  }

  const START := Lz(0, 0, [0, 0, 0, 0], [])

  /** What an encoder may produce for the packets and the end marker, with
      anything behind it. */
  ghost predicate EncodesStream(x: seq<byte>, ps: seq<Packet>)
    requires StreamOk(START, ps)
  {
    StreamFits(START, ps);
    Encodes(x, StreamOps(START, ps), InitialModels())
  }

  lemma EveryStreamHasAnEncoding(ps: seq<Packet>) returns (x: seq<byte>)
    requires StreamOk(START, ps)
    ensures EncodesStream(x, ps)
  {
    hide StreamOps, Encode, Encodes;
    StreamFits(START, ps);
    x := Encode(StreamOps(START, ps), InitialModels());
    EncodingExists(StreamOps(START, ps), InitialModels());
  }

  /** Round trip: a fresh decoder turns any encoding of a list of packets back
      into the output those packets stand for, in one call. */
  method InflateEncoded(x: array<byte>, y: array<byte>, ghost ps: seq<Packet>) returns (r: int, n: int)
    requires x != y && StreamOk(START, ps)
    requires EncodesStream(x[..], ps) && |ApplyAll(START, ps).out| <= y.Length
    modifies y
    ensures r == LZMA_STREAM_END
    ensures 0 <= n <= y.Length && y[..n] == ApplyAll(START, ps).out
  {
    hide Follows, StreamOk, StreamOps, ApplyAll, Encodes;
    var z := new Inflater();
    z.src, z.srcptr, z.srchwm := x, 0, x.Length;
    z.dst, z.dstptr, z.dsthwm := y, 0, y.Length;
    StreamFits(START, ps);
    EncodeFollows(x[..], StreamOps(START, ps), InitialModels());
    assert z.View(0) == START;
    assert x[..][..4] == x[0..4] && x[..][4..] == x[4..];
    assert z.StartsWith(ps);
    ghost var done;
    r, done := z.Inflate(ps);
    n := z.dstptr;
    assert ps[..|ps|] == ps;
  }

  method ReverseBits(sym0: nat, n: nat) returns (r: nat)
    ensures r == Reverse(sym0, n)
  {
    hide Joined;
    var sym := sym0;
    r := 0;
    JoinedEnds(0, sym, n);
    var i := 0;
    while i < n
      invariant 0 <= i <= n
      invariant Joined(r, sym, n - i) == Reverse(sym0, n)
    {
      JoinedStep(r, sym, n - i);
      r := 2 * r + sym % 2;
      sym := sym / 2;
      i := i + 1;
    }
    JoinedEnds(r, sym, 0);
  }
}