/** The list of installed files (src/ctool/ctool_lib_flist.c): a sizing pass
    over the index, then a formatting pass into a buffer of that size. */
module CtoolList {
  import opened Basics
  import opened Arith
  import opened PacIndex
  import opened CtoolIndex

  /** The full paths of the leaves, in index order. */
  function Leaves(ns: seq<Node>): seq<Path> {
    if ns == [] then []
    else
      var ms, nd := ns[..|ns| - 1], ns[|ns| - 1];
      Leaves(ms) + (if nd.IsDir() then [] else [Where(ms) + [nd.name]])
  }

  /** One line per path. */
  function Render(ls: seq<Path>): seq<byte> {
    if ls == [] then []
    else Render(ls[..|ls| - 1]) + (Text(ls[|ls| - 1]) + [NEWLINE])
  }

  function Listing(ns: seq<Node>): seq<byte> { Render(Leaves(ns)) }

  /** A listing in bytes: the names of a path with slashes between them, and a
      line break after each path. */
  lemma LineFormat(ls: seq<Path>, p: Path, n: Name)
    ensures Render([]) == [] && Render(ls + [p + [n]]) == Render(ls) + Text(p + [n]) + [10]
    ensures Text([n]) == n && (p != [] ==> Text(p + [n]) == Text(p) + [47] + n)
  {
    hide Text;
    RenderNext(ls, p + [n]);
    TextSlashed([], n);
    assert [] + [n] == [n];
    TextSlashed(p, n);
    if p != [] {
      var q := p[..|p| - 1];
      TextSlashed(q, p[|q|]);
      assert q + [p[|q|]] == p;
    }
  }

  /** Directory names, each followed by a slash. */
  function Slashed(p: Path): seq<byte> {
    if p == [] then [] else Slashed(p[..|p| - 1]) + p[|p| - 1] + [SLASH]
  }

  lemma {:induction false} SlashedFront(p: Path)
    requires p != []
    ensures Slashed(p) == p[0] + [SLASH] + Slashed(p[1..])
  {
    if |p| > 1 {
      var q := p[..|p| - 1];
      SlashedFront(q);
      assert p[1..][..|p| - 2] == q[1..];
    } else {
      assert p[..0] == [] && p[1..] == [];
    }
  }

  lemma {:induction false} TextSlashed(p: Path, n: Name)
    ensures Text(p + [n]) == Slashed(p) + n
    decreases |p|
  {
    if p != [] {
      assert (p + [n])[1..] == p[1..] + [n];
      SlashedFront(p);
      TextSlashed(p[1..], n);
    }
  }

  lemma RenderNext(ls: seq<Path>, l: Path)
    ensures Render(ls + [l]) == Render(ls) + (Text(l) + [NEWLINE])
  {
    hide Text;
    assert (ls + [l])[..|ls|] == ls;
  }

  lemma LeavesNext(ns: seq<Node>, nd: Node)
    ensures Leaves(ns + [nd]) == Leaves(ns) + (if nd.IsDir() then [] else [Where(ns) + [nd.name]])
  {
    hide Where;
    assert (ns + [nd])[..|ns|] == ns;
  }

  lemma ListingNext(ns: seq<Node>, nd: Node)
    ensures Listing(ns + [nd]) == Listing(ns) + (if nd.IsDir() then [] else Slashed(Where(ns)) + nd.name + [NEWLINE])
  {
    hide Where, Text, Leaves, Render, Slashed;
    LeavesNext(ns, nd);
    if !nd.IsDir() {
      TextSlashed(Where(ns), nd.name);
      RenderNext(Leaves(ns), Where(ns) + [nd.name]);
    } else {
      assert Leaves(ns) + [] == Leaves(ns);
    }
  }

  lemma SlashedNext(p: Path, n: Name)
    ensures |Slashed(p + [n])| == |Slashed(p)| + |n| + 1
  {
    assert (p + [n])[..|p|] == p;
  }

  /** Nothing good comes of an entry too deep. */
  lemma ShapedPrefix(ns: seq<Node>, i: nat)
    requires i < |ns| && ns[i].IsDir() && !(ns[i].Level() <= |Where(ns[..i])| && ns[i].Level() < MAXDEPTH)
    ensures !Shaped(ns)
  {
  }

  lemma ShapedMore(ns: seq<Node>, i: nat)
    requires i < |ns| && Shaped(ns[..i])
    requires ns[i].IsDir() ==> ns[i].Level() <= |Where(ns[..i])| && ns[i].Level() < MAXDEPTH
    ensures Shaped(ns[..i + 1]) && ns[..i + 1] == ns[..i] + [ns[i]]
  {
    hide Where;
    assert ns[..i + 1] == ns[..i] + [ns[i]];
    forall k | 0 <= k < i ensures ns[..i + 1][..k] == ns[..i][..k] && ns[..i + 1][k] == ns[..i][k] { }
    assert ns[..i + 1][..i] == ns[..i];
  }

  // -------------------------------------------------------------------- sizing

  /** The recorded lengths are those of the current directories. */
  ghost predicate Lens(lens: seq<int>, p: Path) {
    |p| <= |lens| && forall i :: 0 <= i < |p| ==> lens[i] == |p[i]| + 1
  }

  lemma {:induction false} LensSum(lens: seq<int>, p: Path, k: nat)
    requires Lens(lens, p) && k <= |p|
    ensures SumTo(lens, k) == |Slashed(p[..k])|
  {
    if k > 0 {
      LensSum(lens, p, k - 1);
      assert p[..k] == p[..k - 1] + [p[k - 1]];
      SlashedNext(p[..k - 1], p[k - 1]);
    }
  }

  function SumTo(lens: seq<int>, k: nat): int
    requires k <= |lens|
  {
    if k == 0 then 0 else SumTo(lens, k - 1) + lens[k - 1]
  }

  /** `sum_path_length`. */
  method SumPathLength(lens: array<int>, lvl: nat) returns (len: int)
    requires lvl < lens.Length
    ensures len == SumTo(lens[..], lvl + 1)
  {
    len := 0;
    for i := 0 to lvl + 1
      invariant len == SumTo(lens[..], i)
    {
      len := len + lens[i];
    }
  }

  /** `file_list_size`: the length of the listing, in a 32-bit count. */
  method FileListSize(ns: seq<Node>) returns (ok: bool, total: nat)
    requires GoodNames(ns)
    ensures ok <==> Shaped(ns)
    ensures ok ==> total == |Listing(ns)| % WORD
  {
    hide Where, Shaped, Listing, Slashed, SumTo, GoodNames;
    var depth := 0;
    var lens := new int[MAXDEPTH];
    var plen := 0;
    total := 0;
    var i := 0;
    Nothing(ns);
    while i < |ns|
      invariant 0 <= i <= |ns| && Shaped(ns[..i])
      invariant depth == |Where(ns[..i])| && Lens(lens[..], Where(ns[..i]))
      invariant plen == |Slashed(Where(ns[..i]))| && total == |Listing(ns[..i])| % WORD
    {
      var nd := ns[i];
      ghost var here := Where(ns[..i]);
      var nlen := |nd.name|;
      if nd.IsDir() {
        var lvl := nd.Level();
        if lvl > depth || lvl >= MAXDEPTH {
          ShapedPrefix(ns, i);
          return false, 0;
        }
        ShapedMore(ns, i);
        ListingNext(ns[..i], nd);
        WhereNext(ns[..i], nd);
        lens[lvl] := nlen + 1;
        depth := lvl + 1;
        plen := SumPathLength(lens, lvl);
        ghost var there := Where(ns[..i + 1]);
        assert there == here[..lvl] + [nd.name];
        LensSum(lens[..], there, lvl + 1);
        assert there[..lvl + 1] == there;
      } else {
        ShapedMore(ns, i);
        ListingNext(ns[..i], nd);
        WhereNext(ns[..i], nd);
        total := (total + plen + nlen + 1) % WORD;
      }
      i := i + 1;
    }
    assert ns[..|ns|] == ns;
    ok := true;
  }

  lemma Nothing(ns: seq<Node>)
    ensures ns[..0] == [] && Where([]) == [] && Listing([]) == [] && Slashed([]) == [] && Shaped([])
  {
  }

  // ---------------------------------------------------------------- formatting

  function Clip(s: seq<byte>, n: nat): seq<byte> {
    if |s| <= n then s else s[..n]
  }

  lemma ClipTwice(s: seq<byte>, t: seq<byte>, n: nat)
    ensures Clip(Clip(s, n) + t, n) == Clip(s + t, n)
  {
  }

  class Flist {
    const buf: array<byte>
    var ptr: nat
    const path: array<Name>
    var depth: nat

    ghost predicate Valid()
      reads this
    {
      ptr <= buf.Length && path.Length == MAXDEPTH && depth <= MAXDEPTH
    }

    ghost function Written(): seq<byte>
      requires Valid()
      reads this, buf
    {
      buf[..ptr]
    }

    /** `init_file_list`. */
    constructor (size: nat)
      ensures Valid() && Written() == [] && depth == 0 && buf.Length == size && fresh(buf) && fresh(path)
    {
      buf := new byte[size];
      path := new Name[MAXDEPTH](_ => []);
      ptr, depth := 0, 0;
    }

    /** `fmtstr`: as much as there is room for. */
    method Fmtstr(s: seq<byte>, ghost all: seq<byte>)
      requires Valid() && Written() == Clip(all, buf.Length)
      modifies this`ptr, buf
      ensures Valid() && Written() == Clip(all + s, buf.Length)
    {
      ClipTwice(all, s, buf.Length);
      var i := 0;
      while i < |s| && ptr < buf.Length
        invariant 0 <= i <= |s| && Valid() && ptr == old(ptr) + i
        invariant forall k :: 0 <= k < old(ptr) ==> buf[k] == old(buf[k])
        invariant forall k :: 0 <= k < i ==> buf[old(ptr) + k] == s[k]
      {
        buf[ptr] := s[i];
        ptr := ptr + 1;
        i := i + 1;
      }
      assert buf[..ptr] == old(buf[..ptr]) + s[..i];
      assert s[..|s|] == s;
    }

    /** `append_file`. */
    method AppendFile(nd: Node, ghost all: seq<byte>)
      requires Valid() && Written() == Clip(all, buf.Length)
      modifies this`ptr, buf
      ensures Valid()
      ensures Written() == Clip(all + (Slashed(path[..depth]) + nd.name + [NEWLINE]), buf.Length)
    {
      hide Clip, Slashed;
      ghost var now := all;
      ghost var here := path[..depth];
      SlashedNone(all);
      for i := 0 to depth
        invariant Valid() && here == path[..depth]
        invariant now == all + Slashed(path[..i]) && Written() == Clip(now, buf.Length)
      {
        SlashedGrow(path[..], i);
        assert path[..][..i] == path[..i] && path[..][..i + 1] == path[..i + 1];
        Fmtstr(path[i], now);
        Fmtstr([SLASH], now + path[i]);
        now := now + path[i] + [SLASH];
        assert now == all + (Slashed(path[..i]) + path[i] + [SLASH]);
      }
      Fmtstr(nd.name, now);
      Fmtstr([NEWLINE], now + nd.name);
      assert now + nd.name + [NEWLINE] == all + (Slashed(here) + nd.name + [NEWLINE]);
    }

    /** `format_entries`. */
    method FormatEntries(ns: seq<Node>) returns (ok: bool)
      requires Valid() && Written() == [] && depth == 0
      modifies this`ptr, this`depth, buf, path
      ensures Valid() && (ok <==> Shaped(ns))
      ensures ok ==> Written() == Clip(Listing(ns), buf.Length)
    {
      hide Where, Shaped, Listing, Slashed;
      var i := 0;
      Nothing(ns);
      while i < |ns|
        invariant 0 <= i <= |ns| && Valid() && Shaped(ns[..i])
        invariant path[..depth] == Where(ns[..i]) && Written() == Clip(Listing(ns[..i]), buf.Length)
      {
        var nd := ns[i];
        ghost var here := path[..depth];
        if nd.IsDir() {
          var lvl := nd.Level();
          if lvl > depth || lvl >= MAXDEPTH {
            ShapedPrefix(ns, i);
            return false;
          }
          ShapedMore(ns, i);
          ListingNext(ns[..i], nd);
          WhereNext(ns[..i], nd);
          path[lvl] := nd.name;
          depth := lvl + 1;
          assert path[..depth] == here[..lvl] + [nd.name];
        } else {
          ShapedMore(ns, i);
          ListingNext(ns[..i], nd);
          WhereNext(ns[..i], nd);
          AppendFile(nd, Listing(ns[..i]));
        }
        i := i + 1;
      }
      assert ns[..|ns|] == ns;
      depth := 0;
      ok := true;
    }
  }

  lemma SlashedNone(all: seq<byte>)
    ensures all + Slashed([]) == all
  {
  }

  lemma SlashedGrow(p: Path, i: nat)
    requires i < |p|
    ensures Slashed(p[..i + 1]) == Slashed(p[..i]) + p[i] + [SLASH]
  {
    assert p[..i + 1][..i] == p[..i];
  }

  /** A 32-bit value taken as an `int`. */
  function AsInt(x: int): int {
    var u := x % WORD;
    if u < INT_LIMIT then u else u - WORD
  }

  /** How far `alloc_align` moves the heap pointer for a size. */
  function AllocSize(size: int): int { AsInt(AsInt(size) + 3) / 4 * 4 }

  /** That is at least the size exactly when the rounded size is an `int`. */
  lemma AllocEnough(size: nat)
    requires size < WORD
    ensures AllocSize(size) >= size <==> size + 3 < INT_LIMIT
  {
  }

  /** `init_file_list`, `write_file_list` and `write_filedb`: the list is written
      exactly when its size, rounded up for allocation, is an `int`; and then it
      is the listing, whole.  A buffer the heap has no room for ends the run. */
  method WriteFiledb(ns: seq<Node>) returns (ok: bool, list: seq<byte>)
    requires GoodNames(ns)
    ensures ok <==> Shaped(ns) && |Listing(ns)| + 4 < INT_LIMIT
    ensures ok ==> list == Listing(ns)
  {
    hide Shaped, Listing, GoodNames;
    var total;
    list := [];
    ok, total := FileListSize(ns);
    if !ok { return; }
    var size := (total + 1) % WORD;
    AllocEnough(size);
    if AllocSize(size) < size { return false, []; }
    var cct := new Flist(size);
    ok := cct.FormatEntries(ns);
    if !ok { return; }
    if cct.ptr >= cct.buf.Length { return false, []; }
    var ret := AsInt(cct.ptr);
    if ret < 0 { return false, []; }
    list := cct.buf[..cct.ptr];
  }

  // -------------------------------------------------- a list that is too long

  /** The longest name allowed. */
  function Long(): (n: Name)
    ensures |n| == PAGE - 1 && forall i :: 0 <= i < |n| ==> n[i] == 97
  {
    seq(PAGE - 1, _ => 97)
  }

  /** `k` of them. */
  function Longs(k: nat): (p: Path)
    ensures |p| == k && forall i :: 0 <= i < k ==> p[i] == Long()
  {
    seq(k, _ => Long())
  }

  function Digits(k: nat): Name { [Digit(k / 128 / 128), Digit(k / 128), Digit(k)] }

  function Digit(k: nat): byte { 64 + k % 128 }

  /** Eight nested directories of the longest names, then small files. */
  function BigNode(j: nat): Node {
    if j < 8 then Node(TAG_DIR + j, 0, Long()) else Node(4, 0, Digits(j - 8))
  }

  function Big(n: nat): (ns: seq<Node>)
    ensures |ns| == n
  {
    if n == 0 then [] else Big(n - 1) + [BigNode(n - 1)]
  }

  lemma {:induction false} BigWhere(n: nat)
    ensures Where(Big(n)) == Longs(if n < 8 then n else 8)
  {
    if n > 0 {
      BigWhere(n - 1);
      WhereNext(Big(n - 1), BigNode(n - 1));
    }
  }

  lemma TripleBefore(x: Name, y: Name)
    requires |x| == |y| == 3
    requires x[0] < y[0] || (x[0] == y[0] && (x[1] < y[1] || (x[1] == y[1] && x[2] < y[2])))
    ensures Before(x, y)
  {
    assert x[1..][0] == x[1] && y[1..][0] == y[1];
    assert x[1..][1..][0] == x[2] && y[1..][1..][0] == y[2];
  }

  /** Counting one up moves the next digit only on a carry. */
  lemma Carry(k: nat)
    ensures k % 128 < 127 ==> (k + 1) / 128 == k / 128 && Digit(k) < Digit(k + 1)
    ensures k % 128 == 127 ==> (k + 1) / 128 == k / 128 + 1
  {
  }

  lemma DigitsRise(k: nat)
    requires k + 1 < 0x20_0000
    ensures Before(Digits(k), Digits(k + 1))
  {
    hide Digit, Before;
    Carry(k);
    Carry(k / 128);
    Carry(k / 128 / 128);
    assert k / 128 / 128 < 128;
    if k / 128 / 128 == 127 && k / 128 % 128 == 127 { assert k % 128 < 127; }
    TripleBefore(Digits(k), Digits(k + 1));
  }

  lemma BigFits(n: nat)
    requires n < 0x20_0000
    ensures Fits(Big(n), BigNode(n))
  {
    hide Where, Before, Digits, Long, Longs;
    BigWhere(n);
    BigNames(n);
    Pow256One();
    if n > 8 {
      assert Big(n)[n - 1] == BigNode(n - 1);
      DigitsRise(n - 9);
    } else if n == 8 {
      assert Big(8)[7] == BigNode(7);
    }
  }

  lemma BigNames(n: nat)
    ensures GoodName(Long()) && (n >= 8 ==> GoodName(Digits(n - 8)))
  {
  }

  lemma Pow256One()
    ensures Pow256(1) == 256
  {
  }

  lemma {:induction false} BigAdmissible(n: nat)
    requires n <= 0x20_0000
    ensures Admissible(Big(n))
  {
    hide Fits, BigNode;
    if n > 0 {
      BigAdmissible(n - 1);
      BigFits(n - 1);
      AdmissibleMore(Big(n - 1), BigNode(n - 1));
    }
  }

  lemma {:induction false} LongSlashed(k: nat)
    ensures |Slashed(Longs(k))| == 4096 * k
  {
    if k > 0 {
      LongSlashed(k - 1);
      assert Longs(k) == Longs(k - 1) + [Long()];
      SlashedNext(Longs(k - 1), Long());
    }
  }

  lemma {:induction false} BigListing(n: nat)
    ensures |Listing(Big(n))| == if n < 8 then 0 else 32772 * (n - 8)
  {
    hide Where, Listing, Slashed;
    if n == 0 {
      Nothing([]);
    } else {
      BigListing(n - 1);
      ListingNext(Big(n - 1), BigNode(n - 1));
      BigWhere(n - 1);
      LongSlashed(8);
    }
  }

  lemma {:induction false} BigEncoded(n: nat)
    ensures |EncodeAll(Big(n))| == if n < 8 then 4097 * n else 4097 * 8 + 6 * (n - 8)
  {
    hide EncodeAll, EncodeNode, Big;
    if n == 0 {
      BigNone();
    } else {
      BigEncoded(n - 1);
      BigStep(n);
      EncodeAllAppend(Big(n - 1), [BigNode(n - 1)]);
      EncodeOne(BigNode(n - 1));
      NodeLength(n - 1);
    }
  }

  lemma BigNone()
    ensures Big(0) == [] && EncodeAll([]) == []
  {
  }

  lemma BigStep(n: nat)
    requires n > 0
    ensures Big(n) == Big(n - 1) + [BigNode(n - 1)]
  {
  }

  lemma NodeLength(j: nat)
    ensures |EncodeNode(BigNode(j))| == if j < 8 then 4097 else 6
  {
    hide Little;
  }

  /** An index of under half a megabyte that is admissible and whose list is too
      long to be written. */
  lemma TooLong()
    ensures var ns := Big(0x1_0008);
      Admissible(ns) && |EncodeAll(ns)| < 0x8_0000 && |Listing(ns)| + 4 >= INT_LIMIT
  {
    hide Big, Admissible, EncodeAll, Listing;
    BigAdmissible(0x1_0008);
    BigEncoded(0x1_0008);
    BigListing(0x1_0008);
  }
}
