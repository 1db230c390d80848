/** Range coding as interval narrowing, the encoder-side view of the decoder
    in lib/lzma.c:230-279.

    An encoder that emits a list of binary decisions narrows an interval; a
    byte string encodes the list exactly when it lies in the final interval.
    The decoder never sees the interval: it only keeps `code`, the distance of
    the bytes read so far from its lower end, and `range`, its width. */
module LzmaCoder {
  import opened Basics
  import opened Arith

  const BOT := 0x100_0000             // 2^24
  const TOP := 0x1_0000_0000          // 2^32

  /** One binary decision: against an adaptive model, or with equal odds. */
  datatype Op = Model(at: nat, bit: nat) | Direct(bit: nat)

  ghost predicate ModelsOk(bm: seq<int>) {
    forall i :: 0 <= i < |bm| ==> 31 <= bm[i] <= 2017
  }

  ghost predicate OpOk(op: Op, bm: seq<int>) {
    op.bit <= 1 && (op.Model? ==> op.at < |bm|)
  }

  ghost predicate OpsOk(ops: seq<Op>, models: nat) {
    forall op :: op in ops ==> op.bit <= 1 && (op.Model? ==> op.at < models)
  }

  /** The probability estimate stays away from both ends, whichever way it moves. */
  lemma ProbabilityStays(p: int)
    requires 31 <= p <= 2017
    ensures 31 <= p + (2048 - p) / 32 <= 2017
    ensures 31 <= p - p / 32 <= 2017
  {
  }

  /** Either half of a split interval is at least 31/2048 of it, so one
      8-bit normalisation brings it back to 2^24 or more. */
  lemma SplitIsWide(range: int, p: int)
    requires BOT <= range < TOP
    requires 31 <= p <= 2017
    ensures 0x1_0000 <= (range / 2048) * p < range
    ensures 0x1_0000 <= range - (range / 2048) * p < TOP
  {
    var q := range / 2048;
    MulMono(q, 31, p);
    MulMono(q, p, 2017);
  }

  /** Lower end of the part of `[0, range)` that stands for the decision. */
  function OpLow(op: Op, range: int, bm: seq<int>): int
    requires OpOk(op, bm)
  {
    if op.bit == 0 then 0
    else if op.Model? then (range / 2048) * bm[op.at]
    else range / 2
  }

  function OpWidth(op: Op, range: int, bm: seq<int>): int
    requires OpOk(op, bm)
  {
    if op.Direct? then range / 2
    else if op.bit == 0 then (range / 2048) * bm[op.at]
    else range - (range / 2048) * bm[op.at]
  }

  function OpModels(op: Op, bm: seq<int>): seq<int>
    requires OpOk(op, bm)
  {
    if op.Direct? then bm
    else
      var p := bm[op.at];
      bm[op.at := if op.bit == 0 then p + (2048 - p) / 32 else p - p / 32]
  }

  /** The parts of an interval, 0 below and 1 above: equal halves, or in the
      proportion of the model, which moves a 32nd of the way towards the bit. */
  lemma PartsOfInterval(at: nat, range: int, bm: seq<int>)
    requires BOT <= range < TOP && ModelsOk(bm) && at < |bm|
    ensures OpLow(Direct(0), range, bm) == 0 && OpLow(Direct(1), range, bm) == OpWidth(Direct(0), range, bm)
    ensures OpWidth(Direct(1), range, bm) == OpWidth(Direct(0), range, bm)
    ensures 2 * OpWidth(Direct(0), range, bm) <= range < 2 * OpWidth(Direct(0), range, bm) + 2
    ensures OpLow(Model(at, 0), range, bm) == 0
    ensures OpLow(Model(at, 1), range, bm) == OpWidth(Model(at, 0), range, bm)
    ensures OpWidth(Model(at, 0), range, bm) + OpWidth(Model(at, 1), range, bm) == range
    ensures var p, w := bm[at], OpWidth(Model(at, 0), range, bm);
      2048 * w <= range * p < 2048 * (w + p)
    ensures var p, q := bm[at], OpModels(Model(at, 0), bm)[at];
      32 * (q - p) <= 2048 - p < 32 * (q - p + 1)
    ensures var p, q := bm[at], OpModels(Model(at, 1), bm)[at];
      32 * (p - q) <= p < 32 * (p - q + 1)
  {
    var k, p := range / 2048, bm[at];
    MulMono(p, 2048 * k, range);
    MulMono(p, range + 1, 2048 * k + 2048);
    MulAssoc(2048, k, p);
    MulAdd(2048 * k, 2048, p);
    MulAdd(range, 1, p);
  }

  /** What the decoder does with the interval after a decision: bytes taken. */
  function Shift(width: int): nat {
    if width > 0xFF_FFFF then 0 else 1
  }

  lemma OpKeeps(op: Op, range: int, bm: seq<int>)
    requires BOT <= range < TOP && ModelsOk(bm) && OpOk(op, bm)
    ensures 0 <= OpLow(op, range, bm) && 0x1_0000 <= OpWidth(op, range, bm)
    ensures OpLow(op, range, bm) + OpWidth(op, range, bm) <= range
    ensures BOT <= OpWidth(op, range, bm) * Pow256(Shift(OpWidth(op, range, bm))) < TOP
    ensures ModelsOk(OpModels(op, bm)) && |OpModels(op, bm)| == |bm|
  {
    if op.Model? {
      SplitIsWide(range, bm[op.at]);
      ProbabilityStays(bm[op.at]);
    }
    assert Pow256(0) == 1 && Pow256(1) == 256;
  }

  /** `scale` more bytes put a string into `[low, low + width)`. */
  datatype Interval = Interval(low: int, width: int, scale: nat)

  ghost function Narrow(ops: seq<Op>, range: int, bm: seq<int>): (iv: Interval)
    requires BOT <= range < TOP && ModelsOk(bm) && OpsOk(ops, |bm|)
    decreases |ops|
  {
    if ops == [] then Interval(0, range, 0)
    else
      assert OpOk(ops[0], bm);
      OpKeeps(ops[0], range, bm);
      var w := OpWidth(ops[0], range, bm);
      var k := Shift(w);
      var iv := Narrow(ops[1..], w * Pow256(k), OpModels(ops[0], bm));
      Interval(OpLow(ops[0], range, bm) * Pow256(k + iv.scale) + iv.low, iv.width, k + iv.scale)
  }

  lemma {:induction false} Pow256Grows(j: nat, k: nat)
    requires j <= k
    ensures Pow256(j) <= Pow256(k)
    decreases k
  {
    if j < k { Pow256Grows(j, k - 1); }
  }

  /** The final interval lies inside the one the decisions started from. */
  lemma {:induction false} NarrowFits(ops: seq<Op>, range: int, bm: seq<int>)
    requires BOT <= range < TOP && ModelsOk(bm) && OpsOk(ops, |bm|)
    ensures var iv := Narrow(ops, range, bm);
      0 <= iv.low && 0 < iv.width && iv.low + iv.width <= range * Pow256(iv.scale)
    decreases |ops|
  {
    if ops != [] {
      OpKeeps(ops[0], range, bm);
      var l, w := OpLow(ops[0], range, bm), OpWidth(ops[0], range, bm);
      var k := Shift(w);
      NarrowFits(ops[1..], w * Pow256(k), OpModels(ops[0], bm));
      var iv := Narrow(ops[1..], w * Pow256(k), OpModels(ops[0], bm));
      Pow256Sum(k, iv.scale);
      PartFits(l, w, range, Pow256(k), Pow256(iv.scale), iv.low, iv.width);
    }
  }

  lemma PartFits(l: int, w: int, range: int, k: int, s: int, low: int, width: int)
    requires 0 <= l && l + w <= range && 0 <= k * s
    requires 0 <= low && low + width <= (w * k) * s
    ensures 0 <= l * (k * s) + low
    ensures l * (k * s) + low + width <= range * (k * s)
  {
    var t := k * s;
    MulAssoc(w, k, s);
    MulAdd(l, w, t);
    MulMono(t, 0, l);
    MulMono(t, l + w, range);
  }

  /** Big-endian value of a byte string. */
  function Value(s: seq<byte>): nat {
    if s == [] then 0 else s[0] * Pow256(|s| - 1) + Value(s[1..])
  }

  lemma {:induction false} ValueBound(s: seq<byte>)
    ensures Value(s) < Pow256(|s|)
  {
    if s != [] {
      ValueBound(s[1..]);
      var t := Pow256(|s| - 1);
      assert s[0] * t <= 255 * t by { MulMono(t, s[0], 255); }
    }
  }

  /** A decoder with `code` and `range` in front of `input` is about to see
      exactly the decisions `ops`. */
  ghost predicate Follows(ops: seq<Op>, code: int, range: int, bm: seq<int>, input: seq<byte>)
  {
    && BOT <= range < TOP && ModelsOk(bm) && OpsOk(ops, |bm|)
    && var iv := Narrow(ops, range, bm);
    && iv.scale <= |input|
    && iv.low <= code * Pow256(iv.scale) + Value(input[..iv.scale]) < iv.low + iv.width
  }

  /** The decoder's state right after a decision, before normalisation. */
  ghost predicate Decided(op: Op, code0: int, range0: int, bm0: seq<int>, code: int, range: int, bm: seq<int>) {
    && OpOk(op, bm0)
    && range == OpWidth(op, range0, bm0)
    && code == code0 - OpLow(op, range0, bm0)
    && bm == OpModels(op, bm0)
  }

  /** One decision: `code` falls into the right part of the split, and what
      is left of the input follows the rest. */
  lemma FollowStep(ops: seq<Op>, code: int, range: int, bm: seq<int>, input: seq<byte>)
    requires ops != [] && Follows(ops, code, range, bm, input)
    ensures OpOk(ops[0], bm)
    ensures var l, w := OpLow(ops[0], range, bm), OpWidth(ops[0], range, bm);
      && l <= code < l + w
      && Shift(w) <= |input|
      && Follows(ops[1..], if Shift(w) == 0 then code - l else (code - l) * 256 + input[0],
                 w * Pow256(Shift(w)), OpModels(ops[0], bm), input[Shift(w)..])
  {
    hide OpLow, OpWidth, OpModels, ModelsOk, Value, Pow256;
    OpKeeps(ops[0], range, bm);
    var l, w := OpLow(ops[0], range, bm), OpWidth(ops[0], range, bm);
    var k := Shift(w);
    NarrowFits(ops[1..], w * Pow256(k), OpModels(ops[0], bm));
    var iv := Narrow(ops[1..], w * Pow256(k), OpModels(ops[0], bm));
    FollowPart(code, l, w, k, iv.scale, iv.low, iv.width, input);
  }

  /** The arithmetic of a step, without the coder. */
  lemma FollowPart(code: int, l: int, w: int, k: nat, s: nat, low: int, width: int, input: seq<byte>)
    requires k <= 1 && k + s <= |input|
    requires 0 <= low && low + width <= (w * Pow256(k)) * Pow256(s)
    requires var t := Pow256(k + s); l * t + low <= code * t + Value(input[..k + s]) < l * t + low + width
    ensures l <= code < l + w
    ensures var code' := if k == 0 then code - l else (code - l) * 256 + input[0];
      low <= code' * Pow256(s) + Value(input[k..][..s]) < low + width
  {
    Pow256Sum(k, s);
    ValueBound(input[..k + s]);
    MulAssoc(w, Pow256(k), Pow256(s));
    CodeInPart(code, l, w, Pow256(k + s), Value(input[..k + s]), low, width);
    MulAdd(code - l, l, Pow256(k + s));
    if k == 0 {
      assert input[0..] == input;
    } else {
      TakeByte(code - l, input, s);
    }
  }

  /** Reading a byte moves it from the value of the input to the code. */
  lemma TakeByte(code: int, input: seq<byte>, s: nat)
    requires 1 + s <= |input|
    ensures code * Pow256(1 + s) + Value(input[..1 + s])
      == (code * 256 + input[0]) * Pow256(s) + Value(input[1..][..s])
  {
    var t := input[..1 + s];
    assert t[0] == input[0] && t[1..] == input[1..][..s];
    MulAdd(code * 256, input[0], Pow256(s));
    MulAssoc(code, 256, Pow256(s));
  }

  lemma CodeInPart(code: int, l: int, w: int, t: nat, v: nat, low: int, width: int)
    requires t >= 1 && v < t
    requires l * t + low <= code * t + v < l * t + low + width
    requires 0 <= low && low + width <= w * t
    ensures l <= code < l + w
  {
    MulAdd(code, 1, t);
    MulAdd(l, w, t);
    if code < l { MulMono(t, code + 1, l); }
    if code >= l + w { MulMono(t, l + w, code); }
  }

  // -------------------------------------------------- an encoding always exists

  function Bytes(v: nat, n: nat): (s: seq<byte>)
    ensures |s| == n
  {
    if n == 0 then [] else Bytes(v / 256, n - 1) + [v % 256]
  }

  lemma {:induction false} ValueAppend(s: seq<byte>, b: byte)
    ensures Value(s + [b]) == Value(s) * 256 + b
  {
    if s == [] {
      assert Value([b]) == b * Pow256(0) + Value([]);
    } else {
      ValueAppend(s[1..], b);
      var t := s + [b];
      assert t[1..] == s[1..] + [b];
      assert Pow256(|s|) == 256 * Pow256(|s| - 1);
      assert s[0] * (256 * Pow256(|s| - 1)) == (s[0] * Pow256(|s| - 1)) * 256;
    }
  }

  lemma {:induction false} ValueOfBytes(v: nat, n: nat)
    requires v < Pow256(n)
    ensures Value(Bytes(v, n)) == v
  {
    if n > 0 {
      ValueOfBytes(v / 256, n - 1);
      ValueAppend(Bytes(v / 256, n - 1), v % 256);
    }
  }

  lemma {:induction false} ValueSplit(s: seq<byte>, k: nat)
    requires k <= |s|
    ensures Value(s) == Value(s[..k]) * Pow256(|s| - k) + Value(s[k..])
  {
    if k == 0 {
      assert s[..0] == [] && s[0..] == s;
    } else {
      ValueSplit(s[1..], k - 1);
      var r := s[1..];
      assert r[..k - 1] == s[..k][1..] && r[k - 1..] == s[k..];
      Pow256Sum(k - 1, |s| - k);
      MulAssoc(s[0], Pow256(k - 1), Pow256(|s| - k));
      MulAdd(s[0] * Pow256(k - 1), Value(r[..k - 1]), Pow256(|s| - k));
    }
  }

  /** A byte string that encodes `ops`: its beginning lies in the final interval. */
  ghost predicate Encodes(x: seq<byte>, ops: seq<Op>, bm: seq<int>)
    requires ModelsOk(bm) && OpsOk(ops, |bm|)
  {
    var iv := Narrow(ops, 0xFFFF_FFFF, bm);
    4 + iv.scale <= |x| && iv.low <= Value(x[..4 + iv.scale]) < iv.low + iv.width
  }

  /** The lower end of the final interval, as a byte string. */
  ghost function Encode(ops: seq<Op>, bm: seq<int>): seq<byte>
    requires ModelsOk(bm) && OpsOk(ops, |bm|)
  {
    var iv := Narrow(ops, 0xFFFF_FFFF, bm);
    NarrowFits(ops, 0xFFFF_FFFF, bm);
    Bytes(iv.low, 4 + iv.scale)
  }

  /** Every list of decisions has an encoding. */
  lemma EncodingExists(ops: seq<Op>, bm: seq<int>)
    requires ModelsOk(bm) && OpsOk(ops, |bm|)
    ensures Encodes(Encode(ops, bm), ops, bm)
  {
    hide Narrow;
    var x := Encode(ops, bm);
    var iv := Narrow(ops, 0xFFFF_FFFF, bm);
    NarrowFits(ops, 0xFFFF_FFFF, bm);
    Pow256Sum(4, iv.scale);
    FourBytes();
    MulMono(Pow256(iv.scale), 0xFFFF_FFFF, TOP);
    ValueOfBytes(iv.low, 4 + iv.scale);
    assert x[..4 + iv.scale] == x;
  }

  function BigEndian(s: seq<byte>): nat
    requires |s| == 4
  {
    var a: int, b: int, c: int, d: int := s[0], s[1], s[2], s[3];
    0x100_0000 * a + 0x1_0000 * b + 0x100 * c + d
  }

  lemma FourByteValue(s: seq<byte>)
    requires |s| == 4
    ensures Value(s) == BigEndian(s)
  {
    assert s == [] + [s[0]] + [s[1]] + [s[2]] + [s[3]];
    assert Value([]) == 0;
    hide Value;
    ValueAppend([], s[0]);
    ValueAppend([] + [s[0]], s[1]);
    ValueAppend([] + [s[0]] + [s[1]], s[2]);
    ValueAppend([] + [s[0]] + [s[1]] + [s[2]], s[3]);
  }

  lemma FourBytes()
    ensures Pow256(4) == TOP
  {
    assert Pow256(2) == 0x1_0000;
  }

  /** A decoder that has taken the first four bytes of any encoding follows what
      was encoded, whatever comes behind it. */
  lemma EncodeFollows(x: seq<byte>, ops: seq<Op>, bm: seq<int>)
    requires ModelsOk(bm) && OpsOk(ops, |bm|) && Encodes(x, ops, bm)
    ensures |x| >= 4 && Follows(ops, Value(x[..4]), 0xFFFF_FFFF, bm, x[4..])
  {
    hide Narrow;
    var iv := Narrow(ops, 0xFFFF_FFFF, bm);
    var y := x[..4 + iv.scale];
    ValueSplit(y, 4);
    assert y[..4] == x[..4] && y[4..] == x[4..][..iv.scale];
  }
}
