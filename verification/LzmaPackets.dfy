/** What an LZMA encoder has to say for each packet, and what a packet does.

    The lists of decisions are the encoder's side of the tree, length,
    literal and distance decoders of lib/lzma.c:291-447; the effects are the
    dictionary copies and the twelve-state machine. */
module LzmaPackets {
  import opened Basics
  import opened Arith
  import opened LzmaCoder

  // Offsets of the model arrays of `struct private`, in its order.
  const BIT1 := 0                     // [12][4]
  const BIT2 := 48                    // [12]
  const BIT3 := 60
  const BIT4 := 72
  const BIT5 := 84
  const SHRT := 96                    // [12][4]
  const LITERAL := 144                // [8][0x300]
  const DISLOT := 6288                // [4][64]
  const DISPEC := 6544                // [115]
  const ALIGN := 6659                 // [16]
  const MATCHLEN := 6675              // choice1, choice2, low[4][8], mid[4][8], high[256]
  const REPLEN := 6997
  const MODELS := 7319

  // ---------------------------------------------------------------- copying

  /** What `n` rounds of "append the byte `rep` places back" do; a reference
      before the start of the buffer reads as zero. */
  ghost function CopyBack(s: seq<byte>, rep: nat, n: nat): seq<byte>
    decreases n
  {
    if n == 0 then s
    else
      var t := CopyBack(s, rep, n - 1);
      t + [if rep < |t| then t[|t| - 1 - rep] else 0]
  }

  lemma {:induction false} CopyBackLength(s: seq<byte>, rep: nat, n: nat)
    ensures |CopyBack(s, rep, n)| == |s| + n
    ensures CopyBack(s, rep, n)[..|s|] == s
  {
    if n > 0 { CopyBackLength(s, rep, n - 1); }
  }

  /** `t` is `s` followed by `n` more bytes of the pattern made by its last `d` bytes. */
  ghost predicate ExtendsPeriodically(s: seq<byte>, t: seq<byte>, d: nat, n: nat)
    requires 0 < d <= |s|
  {
    && |t| == |s| + n
    && t[..|s|] == s
    && forall i :: |s| <= i < |t| ==> t[i] == s[|s| - d + (i - |s|) % d]
  }

  /** Copying from a distance inside the buffer appends the periodic extension
      of the last `rep + 1` bytes, even when the copy runs into itself. */
  lemma {:induction false} CopyBackIsPeriodic(s: seq<byte>, rep: nat, n: nat)
    requires rep < |s|
    ensures ExtendsPeriodically(s, CopyBack(s, rep, n), rep + 1, n)
  {
    CopyBackLength(s, rep, n);
    if n > 0 {
      CopyBackIsPeriodic(s, rep, n - 1);
      PeriodicStep(s, CopyBack(s, rep, n - 1), rep + 1, n - 1);
    }
  }

  lemma PeriodicStep(s: seq<byte>, t: seq<byte>, d: nat, n: nat)
    requires 0 < d <= |s|
    requires ExtendsPeriodically(s, t, d, n)
    ensures ExtendsPeriodically(s, t + [t[|t| - d]], d, n + 1)
  {
    var j := |t| - d;
    if n < d {
      assert t[j] == t[..|s|][j];
      DivModOf(0, n, d);
    } else {
      ModLess(n, d);
      assert t[j] == s[|s| - d + (j - |s|) % d];
    }
  }

  // ----------------------------------------------------------- distance slots

  /** Number of extra bits of a distance slot from 4 on. */
  function SlotBits(slot: nat): nat
    requires slot >= 4
  {
    slot / 2 - 1
  }

  /** Smallest distance of a slot from 4 on. */
  function SlotBase(slot: nat): nat
    requires slot >= 4
  {
    (2 + slot % 2) * Pow2(SlotBits(slot))
  }

  ghost predicate InSlot(slot: nat, i: int)
    requires 4 <= slot
  {
    SlotBase(slot) - slot < i < SlotBase(slot) - slot + Pow2(SlotBits(slot))
  }

  /** Cells of `dispec` that slots 4 to 13 may touch: tree nodes 1 up to
      2^bits - 1, starting at `base - slot`. */
  ghost function SlotCells(slot: nat): (cells: set<int>)
    requires 4 <= slot < 14
  {
    set i: int | 0 <= i < 115 && InSlot(slot, i)
  }

  lemma TreeSizes()
    ensures Pow2(3) == 8 && Pow2(6) == 64 && Pow2(8) == 256
  {
  }

  lemma SmallPowers()
    ensures Pow2(1) == 2 && Pow2(2) == 4 && Pow2(3) == 8 && Pow2(4) == 16 && Pow2(5) == 32 && Pow2(6) == 64
  {
  }

  lemma LargePower()
    ensures Pow2(30) == 0x4000_0000
  {
    assert Pow2(10) == 1024;
    Pow2Sum(10, 10);
    Pow2Sum(20, 10);
  }

  /** Where the cells of a slot lie. */
  lemma SlotSpan(slot: nat)
    requires 4 <= slot < 14
    ensures SlotBase(slot) >= slot
    ensures SlotBase(slot) - slot + Pow2(SlotBits(slot)) <= 115
    ensures slot < 13 ==> SlotBase(slot + 1) - (slot + 1) + 1 == SlotBase(slot) - slot + Pow2(SlotBits(slot))
  {
    hide Pow2, SlotBase;
    SmallPowers();
    SlotHalves(slot);
    SlotHalves(slot + 1);
  }

  lemma SlotHalves(slot: nat)
    requires slot >= 4
    ensures slot % 2 == 0 ==> SlotBase(slot) == 2 * Pow2(slot / 2 - 1)
    ensures slot % 2 == 1 ==> SlotBase(slot) == 3 * Pow2(slot / 2 - 1)
  {
    hide Pow2;
  }

  lemma {:induction false} SlotSpansOrdered(s: nat, t: nat)
    requires 4 <= s < t < 14
    ensures SlotBase(s) - s + Pow2(SlotBits(s)) <= SlotBase(t) - t + 1
    decreases t - s
  {
    SlotSpan(s);
    if s + 1 < t {
      SlotSpansOrdered(s + 1, t);
      Pow2Grows(0, SlotBits(s + 1));
    }
  }

  /** The cells of a slot are those of a tree of its size. */
  lemma SlotCellsAre(slot: nat)
    requires 4 <= slot < 14
    ensures forall i {:trigger i in SlotCells(slot)} ::
      i in SlotCells(slot) <==> SlotBase(slot) - slot < i < SlotBase(slot) - slot + Pow2(SlotBits(slot))
  {
    SlotSpan(slot);
  }

  /** Different slots never share a model cell, and all cells exist. */
  lemma SlotCellsDisjoint(s: nat, t: nat)
    requires 4 <= s < 14 && 4 <= t < 14 && s != t
    ensures SlotCells(s) !! SlotCells(t)
    ensures forall i :: InSlot(s, i) ==> i in SlotCells(s)
  {
    SlotSpan(s);
    SlotSpan(t);
    if s < t { SlotSpansOrdered(s, t); } else { SlotSpansOrdered(t, s); }
  }

  /** The slots from 4 to 63 cover all distances from 4 up, without gaps or overlaps. */
  lemma SlotsTile(slot: nat)
    requires 4 <= slot
    ensures SlotBase(slot) + Pow2(SlotBits(slot)) == SlotBase(slot + 1)
    ensures SlotBase(4) == 4
  {
    SmallPowers();
    if slot % 2 == 1 { assert SlotBits(slot + 1) == SlotBits(slot) + 1; }
  }

  /** Sizes around a slot: the largest distance fits 32 bits, and from slot 14
      on the four low extra bits are the aligned ones. */
  lemma SlotFits(slot: nat)
    requires 4 <= slot < 64
    ensures SlotBase(slot) + Pow2(SlotBits(slot)) <= TOP
    ensures slot >= 14 ==> SlotBits(slot) >= 4 && Pow2(SlotBits(slot)) == 16 * Pow2(SlotBits(slot) - 4)
    ensures Pow2(4) == 16
  {
    SmallPowers();
    LargePower();
    var n := SlotBits(slot);
    Pow2Grows(n, 30);
    assert SlotBase(slot) == if slot % 2 == 0 then 2 * Pow2(n) else 3 * Pow2(n);
    if slot >= 14 { Pow2Sum(4, n - 4); }
  }

  function Distance(slot: nat, extra: nat): nat {
    if slot < 4 then slot else SlotBase(slot) + extra
  }

  ghost predicate SlotOk(slot: nat, extra: nat) {
    slot < 64 && extra < if slot < 4 then 1 else Pow2(SlotBits(slot))
  }

  lemma {:induction false} SlotOf(d: nat, slot: nat) returns (s: nat, extra: nat)
    requires 4 <= slot < 64 && SlotBase(slot) <= d < TOP
    ensures SlotOk(s, extra) && Distance(s, extra) == d
    decreases 64 - slot
  {
    SlotsTile(slot);
    if d < SlotBase(slot + 1) {
      s, extra := slot, d - SlotBase(slot);
    } else {
      LargePower();
      Pow2Sum(1, 30);
      assert SlotBase(64) == TOP;
      s, extra := SlotOf(d, slot + 1);
    }
  }

  /** Every 32-bit distance has a slot. */
  lemma EveryDistanceHasASlot(d: nat)
    requires d < TOP
    ensures exists s: nat, extra: nat :: SlotOk(s, extra) && Distance(s, extra) == d
  {
    if d < 4 {
      assert SlotOk(d, 0) && Distance(d, 0) == d;
    } else {
      SlotsTile(4);
      var s, extra := SlotOf(d, 4);
    }
  }

  // ------------------------------------------------------------ decisions

  /** All but the low `k` bits. */
  function High(v: nat, k: nat): nat {
    if k == 0 then v else High(v / 2, k - 1)
  }

  function Bit(v: nat, k: nat): (b: nat)
    ensures b <= 1
  {
    High(v, k) % 2
  }

  lemma {:induction false} HighStep(v: nat, k: nat)
    ensures High(v, k) == 2 * High(v, k + 1) + Bit(v, k)
  {
    if k > 0 { HighStep(v / 2, k - 1); }
  }

  /** Bit `k` of a number, set to `b`. */
  function At(b: nat, k: nat): nat {
    if b == 0 then 0 else Pow2(k)
  }

  lemma {:induction false} HighOfSum(b: nat, x: nat, top: nat, k: nat)
    requires k <= top
    ensures High(At(b, top) + x, k) == At(b, top - k) + High(x, k)
  {
    if k > 0 {
      assert At(b, top) == 2 * At(b, top - 1);
      HighOfSum(b, x / 2, top - 1, k - 1);
    }
  }

  lemma {:induction false} HighEnds(v: nat, n: nat)
    ensures High(v, 0) == v
    ensures v < Pow2(n) ==> High(v, n) == 0
  {
    if n > 0 { HighEnds(v / 2, n - 1); }
  }

  /** The `n` low bits of `v`, most significant first, down a tree from node `m`. */
  function TreeFrom(bma: nat, m: nat, n: nat, v: nat): seq<Op>
    decreases n
  {
    if n == 0 then []
    else
      var b := Bit(v, n - 1);
      [Model(bma + m, b)] + TreeFrom(bma, 2 * m + b, n - 1, v)
  }

  function TreeOps(bma: nat, n: nat, v: nat): seq<Op> {
    TreeFrom(bma, 1, n, v)
  }

  /** The same, least significant bit first. */
  function ReverseFrom(bma: nat, m: nat, n: nat, v: nat): seq<Op>
    decreases n
  {
    if n == 0 then []
    else [Model(bma + m, v % 2)] + ReverseFrom(bma, 2 * m + v % 2, n - 1, v / 2)
  }

  function DirectOps(n: nat, v: nat): seq<Op>
    decreases n
  {
    if n == 0 then []
    else [Direct(Bit(v, n - 1))] + DirectOps(n - 1, v)
  }

  /** A literal after a match: nodes are picked by the byte at the last
      distance until the first bit that differs from it. */
  function MatchedFrom(bma: nat, m: nat, n: nat, mbyte: nat, v: nat): seq<Op>
    decreases n
  {
    if n == 0 then []
    else
      var mb := Bit(mbyte, n - 1);
      var b := Bit(v, n - 1);
      [Model(bma + m + 0x100 * mb + 0x100, b)] +
      if mb == b then MatchedFrom(bma, 2 * m + b, n - 1, mbyte, v)
      else TreeFrom(bma, 2 * m + b, n - 1, v)
  }

  function LengthOps(lm: nat, pstate: nat, len: nat): seq<Op> {
    if len < 8 then [Model(lm, 0)] + TreeOps(lm + 2 + 8 * pstate, 3, len)
    else if len < 16 then [Model(lm, 1), Model(lm + 1, 0)] + TreeOps(lm + 34 + 8 * pstate, 3, len - 8)
    else [Model(lm, 1), Model(lm + 1, 1)] + TreeOps(lm + 66, 8, len - 16)
  }

  /** The decisions for the extra bits of a distance. */
  function ExtraOps(slot: nat, extra: nat): seq<Op>
    requires SlotOk(slot, extra)
  {
    if slot < 4 then []
    else if slot < 14 then
      SlotSpan(slot);
      ReverseFrom(DISPEC + SlotBase(slot) - slot, 1, SlotBits(slot), extra)
    else DirectOps(SlotBits(slot) - 4, extra / 16) + ReverseFrom(ALIGN, 1, 4, extra % 16)
  }

  lemma NoExtra(slot: nat, extra: nat, rest: seq<Op>)
    requires SlotOk(slot, extra) && slot < 4
    ensures ExtraOps(slot, extra) + rest == rest && Distance(slot, extra) == slot
  {
  }

  function DistanceOps(len: nat, slot: nat, extra: nat): seq<Op>
    requires SlotOk(slot, extra)
  {
    TreeOps(DISLOT + 64 * (if len < 3 then len else 3), 6, slot) + ExtraOps(slot, extra)
  }

  // ------------------------------------------------------------ bit reversal

  function Reverse(v: nat, n: nat): nat
    decreases n
  {
    if n == 0 then 0 else At(v % 2, n - 1) + Reverse(v / 2, n - 1)
  }

  lemma {:induction false} ReverseBound(v: nat, n: nat)
    ensures Reverse(v, n) < Pow2(n)
  {
    if n > 0 { ReverseBound(v / 2, n - 1); }
  }

  lemma {:induction false} ReverseTopBit(b: nat, x: nat, n: nat)
    requires b <= 1 && x < Pow2(n)
    ensures Reverse(At(b, n) + x, n + 1) == 2 * Reverse(x, n) + b
  {
    if n == 0 {
      assert Reverse(b, 1) == b;
    } else {
      var v := At(b, n) + x;
      assert v % 2 == x % 2 && v / 2 == At(b, n - 1) + x / 2;
      ReverseTopBit(b, x / 2, n - 1);
    }
  }

  lemma ReverseStep(v: nat, n: nat)
    ensures n == 0 ==> Reverse(v, n) == 0 && Pow2(n) == 1
    ensures n > 0 ==> Reverse(v, n) == At(v % 2, n - 1) + Reverse(v / 2, n - 1) && Pow2(n) == 2 * Pow2(n - 1)
  {
  }

  lemma {:induction false} ReverseTwice(v: nat, n: nat)
    requires v < Pow2(n)
    ensures Reverse(Reverse(v, n), n) == v
  {
    hide Reverse, At;
    ReverseStep(v, n);
    if n > 0 {
      ReverseTwice(v / 2, n - 1);
      ReverseBound(v / 2, n - 1);
      ReverseTopBit(v % 2, Reverse(v / 2, n - 1), n - 1);
    }
  }

  /** Only the low `n` bits of the value matter. */
  lemma {:induction false} TreeFromLow(bma: nat, m: nat, n: nat, b: nat, top: nat, v: nat)
    requires n <= top
    ensures TreeFrom(bma, m, n, At(b, top) + v) == TreeFrom(bma, m, n, v)
    decreases n
  {
    if n > 0 {
      BitLow(b, top, v, n - 1);
      TreeFromLow(bma, 2 * m + Bit(v, n - 1), n - 1, b, top, v);
    }
  }

  lemma BitLow(b: nat, top: nat, v: nat, k: nat)
    requires k < top
    ensures Bit(At(b, top) + v, k) == Bit(v, k)
  {
    HighOfSum(b, v, top, k);
    assert At(b, top - k) == 2 * At(b, top - k - 1);
  }

  /** Sending the reversed bits down a forward tree is the reverse coding. */
  lemma {:induction false} ReverseIsTree(bma: nat, m: nat, n: nat, v: nat)
    ensures ReverseFrom(bma, m, n, v) == TreeFrom(bma, m, n, Reverse(v, n))
    decreases n
  {
    hide Bit, At, High, Pow2;
    if n > 0 {
      var b, x := v % 2, Reverse(v / 2, n - 1);
      var w := At(b, n - 1) + x;
      assert Reverse(v, n) == w;
      hide Reverse;
      ReverseIsTree(bma, 2 * m + b, n - 1, v / 2);
      ReverseBound(v / 2, n - 1);
      TopBitOfSum(b, x, n - 1);
      TreeFromLow(bma, 2 * m + b, n - 1, b, n - 1, x);
      assert TreeFrom(bma, m, n, w) == [Model(bma + m, b)] + TreeFrom(bma, 2 * m + b, n - 1, w);
    }
  }

  lemma TopBitOfSum(b: nat, x: nat, k: nat)
    requires b <= 1 && x < Pow2(k)
    ensures Bit(At(b, k) + x, k) == b
  {
    HighOfSum(b, x, k, k);
    HighEnds(x, k);
  }

  /** A half-done bit reversal: `r` holds what has been moved over. */
  ghost function Joined(r: nat, sym: nat, k: nat): nat {
    r * Pow2(k) + Reverse(sym, k)
  }

  lemma JoinedStep(r: nat, sym: nat, k: nat)
    requires k > 0
    ensures Joined(r, sym, k) == Joined(2 * r + sym % 2, sym / 2, k - 1)
  {
    var h := Pow2(k - 1);
    MulAssoc(r, 2, h);
    MulAdd(2 * r, sym % 2, h);
    assert (sym % 2) * h == At(sym % 2, k - 1);
  }

  lemma JoinedEnds(r: nat, sym: nat, n: nat)
    ensures Joined(0, sym, n) == Reverse(sym, n)
    ensures Joined(r, sym, 0) == r
  {
  }

  // ------------------------------------------------------------ walking a tree

  /** `r` is a tree node at depth `i`. */
  ghost predicate Node(r: nat, i: nat) {
    Pow2(i) <= r < 2 * Pow2(i)
  }

  /** `r` is the node that the top `i` of the `n` bits of `v` lead to. */
  ghost predicate OnPath(r: nat, i: nat, n: nat, v: nat)
    requires i <= n
  {
    r == Pow2(i) + High(v, n - i)
  }

  lemma NodeStep(r: nat, i: nat, n: nat, b: nat)
    requires Node(r, i) && i < n && b <= 1
    ensures Node(2 * r + b, i + 1) && r < Pow2(n)
  {
    Pow2Grows(i + 1, n);
  }

  lemma NodeAtLeast(r: nat, i: nat)
    requires Node(r, i) && i <= 8
    ensures r >= 256 <==> i == 8
  {
    TreeSizes();
    if i < 8 { Pow2Grows(i + 1, 8); }
  }

  lemma PathStep(r: nat, i: nat, n: nat, v: nat)
    requires i < n && OnPath(r, i, n, v)
    ensures OnPath(2 * r + Bit(v, n - 1 - i), i + 1, n, v)
  {
    HighStep(v, n - 1 - i);
  }

  lemma PathEnds(r: nat, n: nat, v: nat)
    ensures Node(1, 0)
    ensures v < Pow2(n) ==> OnPath(1, 0, n, v)
    ensures Node(r, n) ==> 0 <= r - Pow2(n) < Pow2(n)
    ensures OnPath(r, n, n, v) ==> r - Pow2(n) == v
  {
    HighEnds(v, n);
  }

  lemma TreeStep(bma: nat, r: nat, k: nat, v: nat, rest: seq<Op>)
    requires k > 0
    ensures var ops := TreeFrom(bma, r, k, v) + rest;
      && ops != [] && ops[0] == Model(bma + r, Bit(v, k - 1))
      && ops[1..] == TreeFrom(bma, 2 * r + Bit(v, k - 1), k - 1, v) + rest
  {
  }

  lemma TreeEnd(bma: nat, r: nat, mbyte: nat, v: nat, rest: seq<Op>)
    ensures TreeFrom(bma, r, 0, v) + rest == rest
    ensures MatchedFrom(bma, r, 0, mbyte, v) + rest == rest
  {
  }

  lemma MatchedStep(bma: nat, r: nat, k: nat, mbyte: nat, v: nat, rest: seq<Op>)
    requires k > 0
    ensures var ops := MatchedFrom(bma, r, k, mbyte, v) + rest;
      var mb, b := Bit(mbyte, k - 1), Bit(v, k - 1);
      && ops != [] && ops[0] == Model(bma + r + 256 * mb + 256, b)
      && (mb == b ==> ops[1..] == MatchedFrom(bma, 2 * r + b, k - 1, mbyte, v) + rest)
      && (mb != b ==> ops[1..] == TreeFrom(bma, 2 * r + b, k - 1, v) + rest)
  {
    hide Bit, TreeFrom;
    var mb, b := Bit(mbyte, k - 1), Bit(v, k - 1);
    var tail := if mb == b then MatchedFrom(bma, 2 * r + b, k - 1, mbyte, v)
                else TreeFrom(bma, 2 * r + b, k - 1, v);
    var op := Model(bma + r + 256 * mb + 256, b);
    assert MatchedFrom(bma, r, k, mbyte, v) == [op] + tail;
    hide MatchedFrom;
    assert ([op] + tail + rest)[1..] == tail + rest;
  }

  // -------------------------------------------- the decisions, one by one

  lemma {:induction false} HighIs(v: nat, k: nat)
    ensures High(v, k) == v / Pow2(k)
    decreases k
  {
    if k > 0 {
      HighIs(v / 2, k - 1);
      DivTwice(v, Pow2(k - 1));
    }
  }

  lemma DivTwice(v: nat, h: nat)
    requires h > 0
    ensures v / (2 * h) == v / 2 / h
  {
    var q, r := v / 2 / h, v / 2 % h;
    MulAssoc(2, h, q);
    Recombined(v, h, q, r);
    DivModOf(q, 2 * r + v % 2, 2 * h);
  }

  lemma Recombined(v: nat, h: nat, q: nat, r: nat)
    requires v / 2 == q * h + r
    ensures v == q * (2 * h) + (2 * r + v % 2)
  {
    MulAssoc(q, 2, h);
    MulAssoc(2, q, h);
  }

  /** Down a tree from the node at depth `i` on the path to `v`. */
  lemma {:induction false} TreeFromAt(bma: nat, r: nat, i: nat, n: nat, v: nat, k: nat)
    requires i <= k < n && OnPath(r, i, n, v)
    ensures |TreeFrom(bma, r, n - i, v)| == n - i
    ensures TreeFrom(bma, r, n - i, v)[k - i] == Model(bma + Pow2(k) + High(v, n - k), Bit(v, n - 1 - k))
    decreases n - i
  {
    hide High, Bit, Pow2;
    PathStep(r, i, n, v);
    var b := Bit(v, n - 1 - i);
    assert TreeFrom(bma, r, n - i, v) == [Model(bma + r, b)] + TreeFrom(bma, 2 * r + b, n - i - 1, v);
    if i + 1 < n {
      TreeFromAt(bma, 2 * r + b, i + 1, n, v, if i < k then k else i + 1);
    } else {
      assert TreeFrom(bma, 2 * r + b, 0, v) == [];
    }
  }

  /** The `k` top ones of `n` bits, and the bit after them. */
  function TopBits(v: nat, n: nat, k: nat): nat
    requires k <= n
  {
    Quotient(v, Pow2(n - k))
  }

  function NextBit(v: nat, n: nat, k: nat): nat
    requires k < n
  {
    Quotient(v, Pow2(n - 1 - k)) % 2
  }

  function Quotient(v: nat, d: nat): nat
    requires d > 0
  {
    v / d
  }

  lemma TopIsHigh(v: nat, n: nat, k: nat)
    requires k < n
    ensures TopBits(v, n, k) == High(v, n - k) && NextBit(v, n, k) == Bit(v, n - 1 - k)
  {
    hide High, Pow2;
    HighIs(v, n - k);
    HighIs(v, n - 1 - k);
  }

  /** A value of `n` bits goes down a tree most significant bit first; the node
      is the number of its depth and of the bits above. */
  lemma TreeOpsAt(bma: nat, n: nat, v: nat, k: nat)
    requires k < n && v < Pow2(n)
    ensures |TreeOps(bma, n, v)| == n
    ensures TreeOps(bma, n, v)[k] == Model(bma + Pow2(k) + TopBits(v, n, k), NextBit(v, n, k))
  {
    hide Pow2, TopBits, NextBit, High, Bit;
    PathEnds(1, n, v);
    TreeFromAt(bma, 1, 0, n, v, k);
    TopIsHigh(v, n, k);
  }

  lemma {:induction false} ReverseHigh(v: nat, n: nat, k: nat)
    requires k < n
    ensures Bit(Reverse(v, n), n - 1 - k) == Bit(v, k)
  {
    ReverseBound(v / 2, n - 1);
    var b, x := v % 2, Reverse(v / 2, n - 1);
    if k == 0 {
      TopBitOfSum(b, x, n - 1);
    } else {
      BitLow(b, n - 1, x, n - 1 - k);
      ReverseHigh(v / 2, n - 1, k - 1);
    }
  }

  /** A reverse tree takes the least significant bit first. */
  lemma ReverseOpsAt(bma: nat, n: nat, v: nat, k: nat)
    requires k < n
    ensures |ReverseFrom(bma, 1, n, v)| == n
    ensures ReverseFrom(bma, 1, n, v)[k].bit == v / Pow2(k) % 2
    ensures ReverseFrom(bma, 1, n, v)[k].Model? && ReverseFrom(bma, 1, n, v)[0].at == bma + 1
    ensures k + 1 < n ==>
      && ReverseFrom(bma, 1, n, v)[k + 1].Model?
      && ReverseFrom(bma, 1, n, v)[k + 1].at == bma + 2 * (ReverseFrom(bma, 1, n, v)[k].at - bma) + v / Pow2(k) % 2
  {
    hide Bit, High, Pow2, Reverse;
    ReverseIsTree(bma, 1, n, v);
    ReverseBound(v, n);
    var w := Reverse(v, n);
    PathEnds(1, n, w);
    TreeFromAt(bma, 1, 0, n, w, k);
    TreeFromAt(bma, 1, 0, n, w, 0);
    ReverseHigh(v, n, k);
    HighIs(v, k);
    BitIs(v, k);
    HighEnds(w, n);
    Pow2Sum(1, k);
    OnePower();
    if k + 1 < n {
      TreeFromAt(bma, 1, 0, n, w, k + 1);
      HighStep(w, n - 1 - k);
    }
  }

  lemma BitIs(v: nat, k: nat)
    ensures Bit(v, k) == High(v, k) % 2
  {
  }

  lemma OnePower()
    ensures Pow2(0) == 1 && Pow2(1) == 2
  {
  }

  lemma {:induction false} DirectOpsAt(n: nat, v: nat, k: nat)
    requires k < n
    ensures |DirectOps(n, v)| == n && DirectOps(n, v)[k] == Direct(NextBit(v, n, k))
  {
    hide High;
    HighIs(v, n - 1);
    if k > 0 {
      DirectOpsAt(n - 1, v, k - 1);
    } else if n > 1 {
      DirectOpsAt(n - 1, v, 0);
    }
  }

  /** After a match, as long as the bits agree with those of the other byte. */
  lemma {:induction false} MatchedFromAt(bma: nat, r: nat, i: nat, n: nat, mbyte: nat, v: nat, k: nat)
    requires i <= k < n && OnPath(r, i, n, v) && High(v, n - i) == High(mbyte, n - i)
    ensures |MatchedFrom(bma, r, n - i, mbyte, v)| == n - i
    ensures MatchedFrom(bma, r, n - i, mbyte, v)[k - i] ==
      Model(bma + Pow2(k) + High(v, n - k) +
              (if High(v, n - k) == High(mbyte, n - k) then 0x100 + 0x100 * Bit(mbyte, n - 1 - k) else 0),
            Bit(v, n - 1 - k))
    decreases n - i
  {
    hide High, Bit, Pow2, TreeFrom;
    PathStep(r, i, n, v);
    BitIs(v, n - 1 - i);
    BitIs(mbyte, n - 1 - i);
    HighStep(v, n - 1 - i);
    HighStep(mbyte, n - 1 - i);
    var mb, b := Bit(mbyte, n - 1 - i), Bit(v, n - 1 - i);
    if i + 1 < n {
      var j := if i < k then k else i + 1;
      if mb == b {
        MatchedFromAt(bma, 2 * r + b, i + 1, n, mbyte, v, j);
      } else {
        TreeFromAt(bma, 2 * r + b, i + 1, n, v, j);
        Diverged(v, mbyte, n - j, n - 1 - i);
      }
    } else {
      TreeEnd(bma, 2 * r + b, mbyte, v, []);
    }
  }

  /** Numbers that differ from bit `k` up differ from any lower bit up. */
  lemma {:induction false} Diverged(v: nat, w: nat, j: nat, k: nat)
    requires j <= k && High(v, k) != High(w, k)
    ensures High(v, j) != High(w, j)
    decreases k - j
  {
    hide High, Bit;
    if j < k {
      HighStep(v, k - 1);
      HighStep(w, k - 1);
      BitIs(v, k - 1);
      BitIs(w, k - 1);
      if High(v, k - 1) != High(w, k - 1) {
        Diverged(v, w, j, k - 1);
      }
    }
  }

  /** A literal after a match, bit by bit: where the bits above agree with
      those of the other byte, its next bit chooses among two more trees. */
  lemma MatchedOpsAt(bma: nat, n: nat, mbyte: nat, v: nat, k: nat)
    requires k < n && v < Pow2(n) && mbyte < Pow2(n)
    ensures |MatchedFrom(bma, 1, n, mbyte, v)| == n
    ensures MatchedFrom(bma, 1, n, mbyte, v)[k] ==
      Model(bma + Pow2(k) + TopBits(v, n, k) +
              (if TopBits(v, n, k) == TopBits(mbyte, n, k) then 0x100 + 0x100 * NextBit(mbyte, n, k) else 0),
            NextBit(v, n, k))
  {
    hide Pow2, High, Bit, TopBits, NextBit;
    HighEnds(v, n);
    HighEnds(mbyte, n);
    PathEnds(1, n, v);
    MatchedFromAt(bma, 1, 0, n, mbyte, v, k);
    TopIsHigh(v, n, k);
    TopIsHigh(mbyte, n, k);
  }

  // ------------------------------------------------------------ packets

  datatype Packet =
    | Literal(c: byte)
    | Match(len: nat, slot: nat, extra: nat)
    | ShortRep
    | LongRep(n: nat, len: nat)

  /** What the stream depends on: automaton state, position modulo 4, the last
      four distances and the output so far. */
  datatype Lz = Lz(state: int, pos: int, rep: seq<u32>, out: seq<byte>)

  /** Next state after a literal, as tabulated in the LZMA format description. */
  const AFTER_LITERAL: seq<nat> := [0, 0, 0, 0, 1, 2, 3, 4, 5, 6, 4, 5]

  ghost predicate LzOk(z: Lz) {
    0 <= z.state < 12 && 0 <= z.pos < 4 && |z.rep| == 4
  }

  function LastByte(out: seq<byte>): byte {
    if out == [] then 0 else out[|out| - 1]
  }

  /** Packets an encoder may emit: references stay inside the output. */
  ghost predicate PacketOk(z: Lz, pk: Packet)
    requires LzOk(z)
  {
    match pk
    case Literal(c) => z.state >= 7 ==> z.rep[0] < |z.out|
    case Match(len, slot, extra) => 2 <= len < 274 && SlotOk(slot, extra) && Distance(slot, extra) < |z.out|
                                    && Distance(slot, extra) < 0xFFFF_FFFF
    case ShortRep => z.rep[0] < |z.out|
    case LongRep(n, len) => n < 4 && 2 <= len < 274 && z.rep[n] < |z.out|
  }

  function OutputOf(pk: Packet): nat {
    match pk
    case Literal(_) => 1
    case ShortRep => 1
    case Match(len, _, _) => len
    case LongRep(_, len) => len
  }

  ghost function LiteralOps(z: Lz, c: byte): seq<Op>
    requires LzOk(z) && PacketOk(z, Literal(c))
  {
    var bma := LITERAL + 0x300 * (LastByte(z.out) / 32);
    if z.state < 7 then TreeOps(bma, 8, c)
    else MatchedFrom(bma, 1, 8, z.out[|z.out| - 1 - z.rep[0]], c)
  }

  /** Which of the seven branches of the main loop a packet takes. */
  function KindOf(pk: Packet): nat {
    match pk
    case Literal(_) => 0
    case Match(_, _, _) => 1
    case ShortRep => 2
    case LongRep(n, _) => 3 + n
  }

  /** The prefix code of the branches: 0, 10, 1100, 1101, 1110, 11110, 11111. */
  function KindOps(s: nat, p: nat, kind: nat): seq<Op> {
    var older := if kind == 4 then [Model(BIT4 + s, 0)]
                 else [Model(BIT4 + s, 1), Model(BIT5 + s, if kind == 6 then 1 else 0)];
    var repeated := if kind <= 3 then [Model(BIT3 + s, 0), Model(SHRT + 4 * s + p, if kind == 3 then 1 else 0)]
                    else [Model(BIT3 + s, 1)] + older;
    var copy := if kind == 1 then [Model(BIT2 + s, 0)] else [Model(BIT2 + s, 1)] + repeated;
    if kind == 0 then [Model(BIT1 + 4 * s + p, 0)] else [Model(BIT1 + 4 * s + p, 1)] + copy
  }

  function Tail(ops: seq<Op>): seq<Op> {
    if ops == [] then [] else ops[1..]
  }

  ghost predicate Starts(ops: seq<Op>, at: nat, bit: nat) {
    ops != [] && ops[0] == Model(at, bit)
  }

  lemma KindSteps(s: nat, p: nat, k: nat, rest: seq<Op>)
    requires k < 7
    ensures var o := KindOps(s, p, k) + rest;
      var o1, o2 := Tail(o), Tail(Tail(o));
      var o3, o4 := Tail(o2), Tail(Tail(o2));
      && Starts(o, BIT1 + 4 * s + p, if k == 0 then 0 else 1)
      && (k == 0 ==> o1 == rest)
      && (k > 0 ==> Starts(o1, BIT2 + s, if k == 1 then 0 else 1))
      && (k == 1 ==> o2 == rest)
      && (k > 1 ==> Starts(o2, BIT3 + s, if k <= 3 then 0 else 1))
      && (k == 2 || k == 3 ==> Starts(o3, SHRT + 4 * s + p, k - 2) && o4 == rest)
      && (k > 3 ==> Starts(o3, BIT4 + s, if k == 4 then 0 else 1))
      && (k == 4 ==> o4 == rest)
      && (k > 4 ==> Starts(o4, BIT5 + s, k - 5) && Tail(o4) == rest)
  {
  }

  /** The decisions after the branch has been chosen. */
  ghost function BodyOps(z: Lz, pk: Packet): seq<Op>
    requires LzOk(z) && PacketOk(z, pk)
  {
    match pk
    case Literal(c) => LiteralOps(z, c)
    case Match(len, slot, extra) => LengthOps(MATCHLEN, z.pos, len - 2) + DistanceOps(len - 2, slot, extra)
    case ShortRep => []
    case LongRep(n, len) => LengthOps(REPLEN, z.pos, len - 2)
  }

  ghost function PacketOps(z: Lz, pk: Packet): seq<Op>
    requires LzOk(z) && PacketOk(z, pk)
  {
    KindOps(z.state, z.pos, KindOf(pk)) + BodyOps(z, pk)
  }

  /** The end marker: the all-ones distance with the shortest length. */
  ghost function EndOps(z: Lz): seq<Op>
    requires LzOk(z)
  {
    LastSlot();
    KindOps(z.state, z.pos, 1) + (LengthOps(MATCHLEN, z.pos, 0) + DistanceOps(0, 63, 0x3FFF_FFFF))
  }

  lemma LastSlot()
    ensures SlotOk(63, 0x3FFF_FFFF) && Distance(63, 0x3FFF_FFFF) == 0xFFFF_FFFF
  {
    LargePower();
  }

  lemma HeadAndBody(z: Lz, pk: Packet, rest: seq<Op>)
    requires LzOk(z) && PacketOk(z, pk)
    ensures PacketOps(z, pk) + rest == KindOps(z.state, z.pos, KindOf(pk)) + (BodyOps(z, pk) + rest)
  {
    hide KindOps, BodyOps;
  }

  lemma HeadAndEnd(z: Lz, rest: seq<Op>)
    requires LzOk(z) && SlotOk(63, 0x3FFF_FFFF)
    ensures EndOps(z) + rest ==
      KindOps(z.state, z.pos, 1) + (LengthOps(MATCHLEN, z.pos, 0) + (DistanceOps(0, 63, 0x3FFF_FFFF) + rest))
  {
    hide KindOps, LengthOps, DistanceOps, SlotOk;
  }

  ghost function Apply(z: Lz, pk: Packet): (z': Lz)
    requires LzOk(z) && PacketOk(z, pk)
    ensures LzOk(z')
  {
    var lit := z.state < 7;
    match pk
    case Literal(c) =>
      Lz(AFTER_LITERAL[z.state], (z.pos + 1) % 4, z.rep, z.out + [c])
    case Match(len, slot, extra) =>
      var d := Distance(slot, extra);
      Lz(if lit then 7 else 10, (z.pos + len) % 4, [d, z.rep[0], z.rep[1], z.rep[2]], CopyBack(z.out, d, len))
    case ShortRep =>
      Lz(if lit then 9 else 11, (z.pos + 1) % 4, z.rep, CopyBack(z.out, z.rep[0], 1))
    case LongRep(n, len) =>
      var d := z.rep[n];
      Lz(if lit then 8 else 11, (z.pos + len) % 4, [d] + z.rep[..n] + z.rep[n + 1..], CopyBack(z.out, d, len))
  }

  /** The arithmetic form of the table, as the code writes it. */
  lemma AfterLiteral(s: int)
    requires 0 <= s < 12
    ensures AFTER_LITERAL[s] == if s <= 3 then 0 else if s <= 9 then s - 3 else s - 6
  {
  }

  lemma ApplyLiteral(z: Lz, c: byte)
    requires LzOk(z) && PacketOk(z, Literal(c))
    ensures Apply(z, Literal(c)) ==
      Lz(if z.state <= 3 then 0 else if z.state <= 9 then z.state - 3 else z.state - 6,
         (z.pos + 1) % 4, z.rep, z.out + [c])
  {
    AfterLiteral(z.state);
  }

  lemma ApplyLongRep(z: Lz, n: nat, len: nat)
    requires LzOk(z) && PacketOk(z, LongRep(n, len))
    ensures Apply(z, LongRep(n, len)) ==
      Lz(if z.state <= 6 then 8 else 11, (z.pos + len) % 4,
         [z.rep[n]] + z.rep[..n] + z.rep[n + 1..], CopyBack(z.out, z.rep[n], len))
  {
  }

  lemma KindBound(z: Lz, pk: Packet)
    requires LzOk(z) && PacketOk(z, pk)
    ensures KindOf(pk) < 7
  {
  }

  lemma MatchBody(z: Lz, pk: Packet, rest: seq<Op>)
    requires pk.Match?
    ensures LzOk(z) && PacketOk(z, pk) ==>
      && 2 <= pk.len < 274 && SlotOk(pk.slot, pk.extra)
      && BodyOps(z, pk) + rest
         == LengthOps(MATCHLEN, z.pos, pk.len - 2) + (DistanceOps(pk.len - 2, pk.slot, pk.extra) + rest)
  {
  }

  lemma ApplyMatch(z: Lz, len: nat, slot: nat, extra: nat)
    requires LzOk(z) && PacketOk(z, Match(len, slot, extra))
    ensures SlotOk(slot, extra) && Distance(slot, extra) < 0xFFFF_FFFF && Distance(slot, extra) < |z.out|
    ensures Apply(z, Match(len, slot, extra)) ==
      Lz(if z.state <= 6 then 7 else 10, (z.pos + len) % 4,
         [Distance(slot, extra), z.rep[0], z.rep[1], z.rep[2]], CopyBack(z.out, Distance(slot, extra), len))
  {
  }

  lemma CopyBackNone(s: seq<byte>, d: nat)
    ensures CopyBack(s, d, 0) == s
  {
  }

  lemma CopyBackStep(s: seq<byte>, d: nat, n: nat)
    ensures var t := CopyBack(s, d, n);
      CopyBack(s, d, n + 1) == t + [if d < |t| then t[|t| - 1 - d] else 0]
  {
  }

  // ------------------------------------------------------------ streams

  ghost predicate StreamOk(z: Lz, ps: seq<Packet>)
    decreases |ps|
  {
    LzOk(z) && (ps != [] ==> PacketOk(z, ps[0]) && StreamOk(Apply(z, ps[0]), ps[1..]))
  }

  /** The decisions for a list of packets and the end marker. */
  ghost function StreamOps(z: Lz, ps: seq<Packet>): seq<Op>
    requires StreamOk(z, ps)
    decreases |ps|
  {
    if ps == [] then EndOps(z) else PacketOps(z, ps[0]) + StreamOps(Apply(z, ps[0]), ps[1..])
  }

  ghost function ApplyAll(z: Lz, ps: seq<Packet>): Lz
    requires StreamOk(z, ps)
    decreases |ps|
  {
    if ps == [] then z else ApplyAll(Apply(z, ps[0]), ps[1..])
  }

  /** Every packet, and the length of the output it leaves. */
  lemma ApplyGrows(z: Lz, pk: Packet)
    requires LzOk(z) && PacketOk(z, pk)
    ensures |Apply(z, pk).out| == |z.out| + OutputOf(pk)
    ensures Apply(z, pk).out[..|z.out|] == z.out
  {
    match pk
    case Literal(c) =>
    case Match(len, slot, extra) => CopyBackLength(z.out, Distance(slot, extra), len);
    case ShortRep => CopyBackLength(z.out, z.rep[0], 1);
    case LongRep(n, len) => CopyBackLength(z.out, z.rep[n], len);
  }

  lemma {:induction false} ApplyAllGrows(z: Lz, ps: seq<Packet>)
    requires StreamOk(z, ps)
    ensures z.out <= ApplyAll(z, ps).out
    ensures |z.out| + |ps| <= |ApplyAll(z, ps).out| <= |z.out| + 273 * |ps|
    ensures ps != [] ==> |z.out| + OutputOf(ps[0]) <= |ApplyAll(z, ps).out|
    decreases |ps|
  {
    if ps != [] {
      ApplyGrows(z, ps[0]);
      ApplyAllGrows(Apply(z, ps[0]), ps[1..]);
    }
  }

  lemma {:induction false} ApplyAllStep(z: Lz, ps: seq<Packet>, k: nat)
    requires k < |ps| && StreamOk(z, ps[..k]) && LzOk(ApplyAll(z, ps[..k]))
    requires PacketOk(ApplyAll(z, ps[..k]), ps[k])
    ensures StreamOk(z, ps[..k + 1])
    ensures ApplyAll(z, ps[..k + 1]) == Apply(ApplyAll(z, ps[..k]), ps[k])
    decreases |ps|
  {
    hide Apply, PacketOk;
    if k == 0 {
      assert ps[..1][0] == ps[0] && ps[..1][1..] == [] && ps[..0] == [];
      assert StreamOk(Apply(z, ps[0]), []);
    } else {
      assert ps[..k][0] == ps[0] && ps[..k][1..] == ps[1..][..k - 1];
      assert ps[..k + 1][0] == ps[0] && ps[..k + 1][1..] == ps[1..][..k];
      ApplyAllStep(Apply(z, ps[0]), ps[1..], k - 1);
    }
  }

  // ------------------------------------- every decision names an existing model

  ghost predicate Fits(ops: seq<Op>) {
    OpsOk(ops, MODELS)
  }

  ghost predicate SubtreeIn(m: nat, n: nat, size: nat) {
    (m + 1) * Pow2(n) <= 2 * size
  }

  lemma SubtreeFits(m: nat, b: nat, n: nat, size: nat)
    requires SubtreeIn(m, n, size) && n > 0 && b <= 1
    ensures SubtreeIn(2 * m + b, n - 1, size) && m < size
  {
    MulMono(Pow2(n - 1), 2 * m + b + 1, 2 * (m + 1));
    MulAssoc(m + 1, 2, Pow2(n - 1));
    MulMono(m + 1, 2, Pow2(n));
  }

  lemma {:induction false} TreeFits(bma: nat, m: nat, n: nat, v: nat, size: nat)
    requires SubtreeIn(m, n, size) && bma + size <= MODELS
    ensures Fits(TreeFrom(bma, m, n, v))
    decreases n
  {
    hide Bit, SubtreeIn;
    if n > 0 {
      var b := Bit(v, n - 1);
      SubtreeFits(m, b, n, size);
      TreeFits(bma, 2 * m + b, n - 1, v, size);
    }
  }

  lemma {:induction false} ReverseFits(bma: nat, m: nat, n: nat, v: nat, size: nat)
    requires SubtreeIn(m, n, size) && bma + size <= MODELS
    ensures Fits(ReverseFrom(bma, m, n, v))
  {
    ReverseIsTree(bma, m, n, v);
    TreeFits(bma, m, n, Reverse(v, n), size);
  }

  lemma {:induction false} DirectFits(n: nat, v: nat)
    ensures Fits(DirectOps(n, v))
  {
    hide Bit;
    if n > 0 { DirectFits(n - 1, v); }
  }

  lemma FitsCons(op: Op, ops: seq<Op>)
    requires op.bit <= 1 && (op.Model? ==> op.at < MODELS) && Fits(ops)
    ensures Fits([op] + ops)
  {
  }

  lemma {:induction false} MatchedFits(bma: nat, m: nat, n: nat, mbyte: nat, v: nat)
    requires SubtreeIn(m, n, 0x100) && bma + 0x300 <= MODELS
    ensures Fits(MatchedFrom(bma, m, n, mbyte, v))
    decreases n
  {
    hide Bit, SubtreeIn, TreeFrom;
    assert n == 0 ==> Fits(MatchedFrom(bma, m, n, mbyte, v));
    hide Fits;
    if n > 0 {
      var b := Bit(v, n - 1);
      var mb := Bit(mbyte, n - 1);
      SubtreeFits(m, b, n, 0x100);
      MatchedFits(bma, 2 * m + b, n - 1, mbyte, v);
      TreeFits(bma, 2 * m + b, n - 1, v, 0x100);
      FitsCons(Model(bma + m + 0x100 * mb + 0x100, b),
               if mb == b then MatchedFrom(bma, 2 * m + b, n - 1, mbyte, v)
               else TreeFrom(bma, 2 * m + b, n - 1, v));
    }
  }

  lemma LengthFits(lm: nat, p: nat, len: nat)
    requires lm + 322 <= MODELS && p < 4
    ensures Fits(LengthOps(lm, p, len))
  {
    hide TreeFrom, Pow2;
    TreeSizes();
    if len < 8 {
      TreeFits(lm + 2 + 8 * p, 1, 3, len, 8);
    } else if len < 16 {
      TreeFits(lm + 34 + 8 * p, 1, 3, len - 8, 8);
    } else {
      TreeFits(lm + 66, 1, 8, len - 16, 256);
    }
  }

  lemma ExtraFits(slot: nat, extra: nat)
    requires SlotOk(slot, extra)
    ensures Fits(ExtraOps(slot, extra))
  {
    hide ReverseFrom, DirectOps, Pow2, SlotBase;
    if 4 <= slot < 14 {
      SlotSpan(slot);
      ReverseFits(DISPEC + SlotBase(slot) - slot, 1, SlotBits(slot), extra, Pow2(SlotBits(slot)));
    } else if slot >= 14 {
      SlotFits(slot);
      DirectFits(SlotBits(slot) - 4, extra / 16);
      ReverseFits(ALIGN, 1, 4, extra % 16, 16);
    }
  }

  lemma DistanceFits(len: nat, slot: nat, extra: nat)
    requires SlotOk(slot, extra)
    ensures Fits(DistanceOps(len, slot, extra))
  {
    hide TreeFrom, Pow2, ExtraOps;
    TreeSizes();
    TreeFits(DISLOT + 64 * (if len < 3 then len else 3), 1, 6, slot, 64);
    ExtraFits(slot, extra);
  }

  lemma BodyFits(z: Lz, pk: Packet)
    requires LzOk(z) && PacketOk(z, pk)
    ensures Fits(BodyOps(z, pk))
  {
    hide TreeFrom, MatchedFrom, LengthOps, DistanceOps, Pow2;
    TreeSizes();
    match pk
    case Literal(c) =>
      var bma := LITERAL + 0x300 * (LastByte(z.out) / 32);
      if z.state < 7 {
        TreeFits(bma, 1, 8, c, 256);
      } else {
        MatchedFits(bma, 1, 8, z.out[|z.out| - 1 - z.rep[0]], c);
      }
    case Match(len, slot, extra) =>
      LengthFits(MATCHLEN, z.pos, len - 2);
      DistanceFits(len - 2, slot, extra);
    case ShortRep =>
    case LongRep(n, len) => LengthFits(REPLEN, z.pos, len - 2);
  }

  lemma KindFits(s: nat, p: nat, kind: nat)
    requires s < 12 && p < 4
    ensures Fits(KindOps(s, p, kind))
  {
  }

  lemma {:induction false} StreamFits(z: Lz, ps: seq<Packet>)
    requires StreamOk(z, ps)
    ensures Fits(StreamOps(z, ps))
    decreases |ps|
  {
    hide KindOps, BodyOps, LengthOps, DistanceOps, Apply, PacketOk;
    if ps == [] {
      LastSlot();
      KindFits(z.state, z.pos, 1);
      LengthFits(MATCHLEN, z.pos, 0);
      DistanceFits(0, 63, 0x3FFF_FFFF);
    } else {
      KindFits(z.state, z.pos, KindOf(ps[0]));
      BodyFits(z, ps[0]);
      StreamFits(Apply(z, ps[0]), ps[1..]);
    }
  }
}
