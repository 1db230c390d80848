/** Names, paths and index entries as they stand in a .pac file
    (src/ctool/ctool.h, src/mpac/mpac.h, lib/string/strcmp.c). */
module PacIndex {
  import opened Basics
  import opened Arith

  type Name = seq<byte>
  type Path = seq<Name>

  const SLASH: byte := 47
  const NEWLINE: byte := 10
  const DOT: byte := 46
  const TAG_DIR := 128

  // -------------------------------------------------------------- name order

  function At(s: Name): byte { if s == [] then 0 else s[0] }

  /** `strcmp` on zero-terminated strings. */
  function Strcmp(a: Name, b: Name): int
    decreases |a|
  {
    if At(a) != At(b) || At(a) == 0 then At(a) as int - At(b) as int
    else Strcmp(a[1..], b[1..])
  }

  lemma {:induction false} StrcmpFlip(a: Name, b: Name)
    ensures Strcmp(b, a) == -Strcmp(a, b)
    decreases |a|
  {
    if At(a) == At(b) != 0 { StrcmpFlip(a[1..], b[1..]); }
  }

  lemma {:induction false} StrcmpTransitive(a: Name, b: Name, c: Name)
    requires Strcmp(a, b) <= 0 && Strcmp(b, c) <= 0
    ensures Strcmp(a, c) <= 0
    decreases |a|
  {
    if At(a) == At(b) == At(c) != 0 { StrcmpTransitive(a[1..], b[1..], c[1..]); }
  }

  ghost predicate ZeroFree(s: Name) { forall i :: 0 <= i < |s| ==> s[i] != 0 }

  /** Dictionary order. */
  ghost predicate Before(a: Name, b: Name) {
    if b == [] then false
    else if a == [] then true
    else if a[0] != b[0] then a[0] < b[0]
    else Before(a[1..], b[1..])
  }

  lemma {:induction false} StrcmpMeans(a: Name, b: Name)
    requires ZeroFree(a) && ZeroFree(b)
    ensures Strcmp(a, b) < 0 <==> Before(a, b)
    ensures Strcmp(a, b) == 0 <==> a == b
    decreases |a|
  {
    if a != [] && b != [] {
      if a[0] == b[0] {
        StrcmpMeans(a[1..], b[1..]);
        assert a == [a[0]] + a[1..] && b == [b[0]] + b[1..];
      }
    }
  }

  lemma {:induction false} BeforeStrict(a: Name)
    ensures !Before(a, a)
  {
    if a != [] { BeforeStrict(a[1..]); }
  }

  lemma {:induction false} BeforeTransitive(a: Name, b: Name, c: Name)
    requires Before(a, b) && Before(b, c)
    ensures Before(a, c)
    decreases |a|
  {
    if a != [] && b != [] && c != [] && a[0] == b[0] == c[0] {
      BeforeTransitive(a[1..], b[1..], c[1..]);
    }
  }

  /** The order in which a tree walk meets directories. */
  ghost predicate PathBefore(p: Path, q: Path) {
    if q == [] then false
    else if p == [] then true
    else if p[0] != q[0] then Before(p[0], q[0])
    else PathBefore(p[1..], q[1..])
  }

  lemma {:induction false} PathBeforeStrict(p: Path)
    ensures !PathBefore(p, p)
  {
    if p != [] { PathBeforeStrict(p[1..]); }
  }

  lemma {:induction false} PathBeforeTransitive(p: Path, q: Path, r: Path)
    requires PathBefore(p, q) && PathBefore(q, r)
    ensures PathBefore(p, r)
    decreases |p|
  {
    if p != [] && q != [] && r != [] {
      if p[0] == q[0] == r[0] {
        PathBeforeTransitive(p[1..], q[1..], r[1..]);
      } else if p[0] != q[0] && q[0] != r[0] {
        BeforeTransitive(p[0], q[0], r[0]);
        BeforeStrict(p[0]);
      }
    }
  }

  /** Going down, or on to a later sibling of some level, moves forward. */
  lemma {:induction false} PathForward(p: Path, l: nat, n: Name)
    requires l <= |p| && (l < |p| ==> Before(p[l], n))
    ensures PathBefore(p, p[..l] + [n])
    decreases l
  {
    var q := p[..l] + [n];
    if l > 0 {
      assert q[1..] == p[1..][..l - 1] + [n];
      PathForward(p[1..], l - 1, n);
    } else if p != [] {
      BeforeStrict(n);
    }
  }

  // -------------------------------------------------------------- path strings

  ghost predicate Plain(n: Name) {
    n != [] && forall i :: 0 <= i < |n| ==> n[i] != SLASH
  }

  ghost predicate PlainPath(p: Path) { forall n :: n in p ==> Plain(n) }

  /** The text of a path. */
  function Text(p: Path): Name {
    if p == [] then [] else if |p| == 1 then p[0] else p[0] + [SLASH] + Text(p[1..])
  }

  /** Where the first component of a text ends. */
  lemma TextFront(p: Path, q: Path)
    requires p != [] && q != [] && PlainPath(p) && PlainPath(q) && Text(p) == Text(q)
    requires |p[0]| <= |q[0]|
    ensures p[0] == q[0] && (|p| == 1 <==> |q| == 1)
    ensures |p| > 1 ==> Text(p[1..]) == Text(q[1..])
  {
    var s, m := Text(p), |p[0]|;
    assert s[..m] == p[0];
    assert q[0] == s[..|q[0]|];
    assert q[0] in q && p[0] in p;
    if |p| > 1 {
      assert s[m] == SLASH && s[m + 1..] == Text(p[1..]);
    }
    if |q| > 1 {
      assert s[|q[0]|] == SLASH && s[|q[0]| + 1..] == Text(q[1..]);
    }
  }

  /** Different paths read differently. */
  lemma {:induction false} TextInjective(p: Path, q: Path)
    requires p != [] && q != [] && PlainPath(p) && PlainPath(q) && Text(p) == Text(q)
    ensures p == q
    decreases |p|
  {
    hide Text;
    if |p[0]| <= |q[0]| { TextFront(p, q); } else { TextFront(q, p); }
    if |p| > 1 && |q| > 1 {
      TextInjective(p[1..], q[1..]);
      assert p == [p[0]] + p[1..] && q == [q[0]] + q[1..];
    } else {
      assert p == [p[0]] && q == [q[0]];
    }
  }

  // ------------------------------------------------------------------- entries

  /** An index entry: a directory with its depth, or a leaf with its size. */
  datatype Node = Node(bits: byte, size: nat, name: Name) {
    predicate IsDir() { bits >= TAG_DIR }
    function Level(): nat
      requires IsDir()
    {
      bits - TAG_DIR
    }
  }

  function Little(n: nat, v: nat): (s: seq<byte>)
    ensures |s| == n
  {
    if n == 0 then [] else [v % 256] + Little(n - 1, v / 256)
  }

  function Value(s: seq<byte>): nat {
    if s == [] then 0 else s[0] + 256 * Value(s[1..])
  }

  lemma {:induction false} LittleValue(s: seq<byte>)
    ensures Little(|s|, Value(s)) == s
  {
    if s != [] { LittleValue(s[1..]); }
  }

  lemma {:induction false} ValueBound(s: seq<byte>)
    ensures Value(s) < Pow256(|s|)
  {
    if s != [] { ValueBound(s[1..]); }
  }

  lemma {:induction false} ValueLittle(n: nat, v: nat)
    requires v < Pow256(n)
    ensures Value(Little(n, v)) == v
  {
    if n > 0 {
      ValueLittle(n - 1, v / 256);
      assert Little(n, v)[1..] == Little(n - 1, v / 256);
    }
  }

  function Shifted(c: int, unit: int): int { c * unit }

  lemma ValueShort(s: seq<byte>)
    requires 1 <= |s| <= 4
    ensures Value(s) == s[0] + (if |s| > 1 then Shifted(s[1], 0x100) else 0)
      + (if |s| > 2 then Shifted(s[2], 0x1_0000) else 0) + (if |s| > 3 then Shifted(s[3], 0x100_0000) else 0)
  {
    assert Value(s) == s[0] + 256 * Value(s[1..]);
    if |s| > 1 { assert Value(s[1..]) == s[1] + 256 * Value(s[2..]) by { assert s[1..][1..] == s[2..]; } }
    if |s| > 2 { assert Value(s[2..]) == s[2] + 256 * Value(s[3..]) by { assert s[2..][1..] == s[3..]; } }
    if |s| > 3 { assert Value(s[3..]) == s[3] + 256 * Value(s[4..]) by { assert s[3..][1..] == s[4..]; } }
  }

  function EncodeNode(nd: Node): seq<byte> {
    [nd.bits] + (if nd.IsDir() then [] else Little(nd.bits % 4 + 1, nd.size)) + nd.name + [0]
  }

  /** The number that one to four bytes stand for. */
  function Number(f: seq<byte>): int
    requires 1 <= |f| <= 4
  {
    f[0] + (if |f| > 1 then 256 * (f[1] as int) else 0) + (if |f| > 2 then 65536 * (f[2] as int) else 0)
    + (if |f| > 3 then 16777216 * (f[3] as int) else 0)
  }

  /** In bytes: a directory is 128 plus its depth; the two low bits of any other
      leading byte say how many bytes of size follow, the lowest first.  Then
      come the name and a zero. */
  lemma NodeFormat(nd: Node)
    requires !nd.IsDir() ==> nd.size < Pow256(nd.bits % 4 + 1)
    ensures nd.IsDir() <==> nd.bits >= 128
    ensures nd.IsDir() ==> nd.Level() == nd.bits - 128 && EncodeNode(nd) == [nd.bits] + nd.name + [0]
    ensures !nd.IsDir() ==> exists f: seq<byte> ::
      |f| == nd.bits % 4 + 1 && Number(f) == nd.size && EncodeNode(nd) == [nd.bits] + f + nd.name + [0]
  {
    hide Little, Value, Pow256;
    if !nd.IsDir() {
      var f := Little(nd.bits % 4 + 1, nd.size);
      ValueLittle(nd.bits % 4 + 1, nd.size);
      ValueShort(f);
      assert EncodeNode(nd) == [nd.bits] + f + nd.name + [0];
    }
  }

  function EncodeAll(ns: seq<Node>): seq<byte> {
    if ns == [] then [] else EncodeNode(ns[0]) + EncodeAll(ns[1..])
  }

  lemma {:induction false} EncodeAllAppend(ns: seq<Node>, ms: seq<Node>)
    ensures EncodeAll(ns + ms) == EncodeAll(ns) + EncodeAll(ms)
    decreases |ns|
  {
    hide EncodeNode;
    if ns == [] {
      assert ns + ms == ms;
    } else {
      assert (ns + ms)[1..] == ns[1..] + ms;
      EncodeAllAppend(ns[1..], ms);
    }
  }

  /** The current directory after walking some entries. */
  function Enter(p: Path, nd: Node): Path {
    if !nd.IsDir() then p
    else if nd.Level() <= |p| then p[..nd.Level()] + [nd.name]
    else p + [nd.name]
  }

  function Where(ns: seq<Node>): Path {
    if ns == [] then [] else Enter(Where(ns[..|ns| - 1]), ns[|ns| - 1])
  }

  /** The full path an entry stands for. */
  function PathOf(ns: seq<Node>, i: nat): (p: Path)
    requires i < |ns|
  {
    if ns[i].IsDir() then Where(ns[..i + 1]) else Where(ns[..i]) + [ns[i].name]
  }

  // --------------------------------------------------------- finding what is there

  /** The bytes at `at` begin with `s`. */
  ghost predicate Has(b: seq<byte>, at: nat, s: seq<byte>) {
    at + |s| <= |b| && b[at..at + |s|] == s
  }

  lemma HasParts(b: seq<byte>, at: nat, s: seq<byte>, t: seq<byte>)
    ensures Has(b, at, s + t) <==> Has(b, at, s) && Has(b, at + |s|, t)
  {
    if at + |s| + |t| <= |b| {
      var u := b[at..at + |s| + |t|];
      assert u[..|s|] == b[at..at + |s|] && u[|s|..] == b[at + |s|..at + |s| + |t|];
      assert u == u[..|s|] + u[|s|..];
      assert (s + t)[..|s|] == s && (s + t)[|s|..] == t;
    }
  }

  lemma NameUnique(b: seq<byte>, at: nat, x: Name, y: Name)
    requires ZeroFree(x) && ZeroFree(y) && Has(b, at, x + [0]) && Has(b, at, y + [0])
    ensures x == y
  {
    NameFound(b, at, x);
    NameFound(b, at, y);
    assert forall k :: 0 <= k < |x| ==> b[at + k] == b[at..at + |x| + 1][k] == x[k];
    assert forall k :: 0 <= k < |y| ==> b[at + k] == b[at..at + |y| + 1][k] == y[k];
  }

  /** A name that is there is found. */
  lemma NameFound(b: seq<byte>, at: nat, x: Name)
    requires Has(b, at, x + [0])
    ensures at + |x| < |b| && b[at + |x|] == 0
  {
    assert b[at..at + |x| + 1][|x|] == 0;
  }

  lemma EntryParts(b: seq<byte>, at: nat, nd: Node)
    requires Has(b, at, EncodeNode(nd))
    ensures at < |b| && b[at] == nd.bits
    ensures nd.IsDir() ==> Has(b, at + 1, nd.name + [0])
    ensures !nd.IsDir() ==>
      Has(b, at + 1, Little(nd.bits % 4 + 1, nd.size)) && Has(b, at + 1 + nd.bits % 4 + 1, nd.name + [0])
  {
    hide Little, Has;
    var l := if nd.IsDir() then [] else Little(nd.bits % 4 + 1, nd.size);
    assert EncodeNode(nd) == [nd.bits] + (l + (nd.name + [0]));
    HasParts(b, at, [nd.bits], l + (nd.name + [0]));
    HasParts(b, at + 1, l, nd.name + [0]);
    HasFirst(b, at, nd.bits);
  }

  lemma HasFirst(b: seq<byte>, at: nat, c: byte)
    requires Has(b, at, [c])
    ensures at < |b| && b[at] == c
  {
    assert b[at..at + 1][0] == c;
  }

  lemma SizeFound(b: seq<byte>, at: nat, n: nat, v: nat)
    requires v < Pow256(n) && Has(b, at, Little(n, v))
    ensures at + n <= |b| && Value(b[at..at + n]) == v
  {
    ValueLittle(n, v);
  }

  lemma EncodeOne(nd: Node)
    ensures EncodeAll([nd]) == EncodeNode(nd)
  {
    hide EncodeNode;
    assert EncodeAll([nd][1..]) == [];
  }

  lemma EncodeFront(ns: seq<Node>, k: nat)
    requires k < |ns|
    ensures Has(EncodeAll(ns), |EncodeAll(ns[..k])|, EncodeNode(ns[k]))
  {
    hide EncodeNode, EncodeAll, Has;
    var head, tail := ns[..k], ns[k + 1..];
    assert ns == head + ([ns[k]] + tail);
    EncodeAllAppend(head, [ns[k]] + tail);
    EncodeAllAppend([ns[k]], tail);
    EncodeOne(ns[k]);
    var x, y, z := EncodeAll(head), EncodeNode(ns[k]), EncodeAll(tail);
    HasAll(x + (y + z));
    HasParts(x + (y + z), 0, x, y + z);
    HasParts(x + (y + z), |x|, y, z);
  }

  lemma HasAll(s: seq<byte>)
    ensures Has(s, 0, s)
  {
  }

  /** Where reading `ns` has come to: all of it once the bytes are used up. */
  lemma EncodeShort(ns: seq<Node>, k: nat)
    requires k <= |ns| && |EncodeAll(ns[..k])| == |EncodeAll(ns)|
    ensures k == |ns|
  {
    if k < |ns| {
      EncodeFront(ns, k);
    }
  }

}
