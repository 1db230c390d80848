/** The cipher as section 5.1 of FIPS 197 has it: the state is sixteen bytes in
    the order of the input, byte `4 * c + r` in row `r` of column `c`. */
module Fips197 {
  import opened Gf256
  import opened AesTables

  type Block = b: seq<bv8> | |b| == 16 witness seq(16, _ => 0)

  /** Eleven round keys, for any key. */
  type Schedule = w: seq<bv32> | |w| == 44 witness seq(44, _ => 0)

  /** Byte `r` of a word, the most significant first. */
  function ByteOf(w: bv32, r: nat): bv8
    requires r < 4
  {
    if r == 0 then (w >> 24) as bv8
    else if r == 1 then ((w >> 16) & 0xFF) as bv8
    else if r == 2 then ((w >> 8) & 0xFF) as bv8
    else (w & 0xFF) as bv8
  }

  function Plus(a: bv8, b: bv8): bv8 { a ^ b }

  function Plus4(a: bv8, b: bv8, c: bv8, d: bv8): bv8 { Plus(Plus(a, b), Plus(c, d)) }

  /** Section 5.1.4: a word of the schedule goes with each column. */
  function WithKey(s: Block, w: Schedule, round: nat): Block
    requires round <= 10
  {
    var t: seq<bv8> := seq(16, k requires 0 <= k < 16 => Plus(s[k], ByteOf(w[4 * round + k / 4], k % 4)));
    t
  }

  /** Section 5.1.1. */
  function Substituted(s: Block): Block {
    var t: seq<bv8> := seq(16, k requires 0 <= k < 16 => Sbox(s[k]));
    t
  }

  /** Section 5.1.2: row `r` moves `r` columns. */
  function Shifted(s: Block): Block {
    var t: seq<bv8> := seq(16, k requires 0 <= k < 16 => s[4 * ((k / 4 + k % 4) % 4) + k % 4]);
    t
  }

  /** Section 5.1.3: every column is multiplied by the matrix of rotated rows
      2, 3, 1, 1. */
  function Mixed(s: Block): Block {
    var t: seq<bv8> := seq(16, k requires 0 <= k < 16 => MixedByte(s, k / 4, k % 4));
    t
  }

  function MixedByte(s: Block, c: nat, r: nat): bv8
    requires c < 4 && r < 4
  {
    Plus4(Times(s[4 * c + r], 2), Times(s[4 * c + (r + 1) % 4], 3), s[4 * c + (r + 2) % 4], s[4 * c + (r + 3) % 4])
  }

  /** The first `n` rounds. */
  function AfterRounds(s: Block, w: Schedule, n: nat): Block
    requires n <= 10
  {
    if n == 0 then s else WithKey(Mixed(Shifted(Substituted(AfterRounds(s, w, n - 1)))), w, n)
  }

  /** Nine rounds with the mix and one without. */
  function CipherOf(b: Block, w: Schedule): Block {
    WithKey(Shifted(Substituted(AfterRounds(WithKey(b, w, 0), w, 9))), w, 10)
  }

  /** Powers of x: section 5.2. */
  function Rcon(j: nat): bv8
    requires j > 0
  {
    if j == 1 then 1 else Times(Rcon(j - 1), 2)
  }

  /** Byte `r` of what word `i` adds to the one four places before. */
  function Fresh(w: Schedule, i: nat, r: nat): bv8
    requires 4 <= i < 44 && r < 4
  {
    if i % 4 == 0 then Plus(Sbox(ByteOf(w[i - 1], (r + 1) % 4)), if r == 0 then Rcon(i / 4) else 0)
    else ByteOf(w[i - 1], r)
  }

  /** Word `i` of the expansion of a key. */
  ghost predicate Expanded(w: Schedule, key: Block, i: nat)
    requires i < 44
  {
    forall r :: 0 <= r < 4 ==>
      ByteOf(w[i], r) == if i < 4 then key[4 * i + r] else Plus(ByteOf(w[i - 4], r), Fresh(w, i, r))
  }

  /** The round keys made from a key by section 5.2. */
  ghost predicate Expansion(w: Schedule, key: Block) {
    forall i :: 0 <= i < 44 ==> Expanded(w, key, i)
  }
}
