/** Creating an archive: the index of a scanned tree, then the content in the
    same order (src/mpac/mpac_create.c). */
module PacCreate {
  import opened Basics
  import opened PacIndex
  import opened PacTree
  import opened PacScan

  // ------------------------------------------------------------------- writing

  lemma LeafBytes(e: Entry)
    requires !e.Dir?
    ensures EncodeNode(LeafNode(e)) == [Tag(e) + |SizeField(e)| - 1] + SizeField(e) + e.name + [0]
  {
    hide SizeField, Value, Little;
    FieldLength(e);
    LittleValue(SizeField(e));
  }

  function Octet(c: int): byte { c % 256 }

  /** The size field, byte by byte. */
  lemma FileField(size: nat)
    ensures var w, s := Width(Signed(size)), FileSize(size);
      && |s| == w + 1
      && (w == 0 ==> s == [Octet(size)])
      && (w == 1 ==> s == [Octet(size), Octet(size / 0x100)])
      && (w == 2 ==> s == [Octet(size), Octet(size / 0x100), Octet(size / 0x1_0000)])
      && (w == 3 ==> s == [Octet(size), Octet(size / 0x100), Octet(size / 0x1_0000), Octet(size / 0x100_0000)])
  {
    hide Little;
    LittleFour(size);
    LittlePrefix(size, Width(Signed(size)) + 1, 4);
  }

  lemma LittleFour(v: nat)
    ensures Little(4, v) == [v % 256, v / 256 % 256, v / 0x1_0000 % 256, v / 0x100_0000 % 256]
  {
    assert Little(4, v) == [v % 256] + Little(3, v / 256);
    assert Little(3, v / 256) == [v / 256 % 256] + Little(2, v / 256 / 256);
    assert Little(2, v / 256 / 256) == [v / 256 / 256 % 256] + Little(1, v / 256 / 256 / 256);
    assert Little(1, v / 256 / 256 / 256) == [v / 256 / 256 / 256 % 256] + Little(0, v / 256 / 256 / 256 / 256);
    assert v / 256 / 256 == v / 0x1_0000 && v / 0x1_0000 / 256 == v / 0x100_0000;
  }

  lemma {:induction false} LittlePrefix(v: nat, n: nat, m: nat)
    requires n <= m
    ensures Little(n, v) == Little(m, v)[..n]
  {
    if n > 0 {
      LittlePrefix(v / 256, n - 1, m - 1);
      assert Little(m, v)[..n] == [v % 256] + Little(m - 1, v / 256)[..n - 1];
    }
  }

  lemma OctetIs(c: int)
    requires 0 <= c < 256
    ensures Octet(c) == c
  {
  }

  class Packer {
    /** The index being written, then the archive. */
    var out: seq<byte>

    constructor ()
      ensures out == []
    {
      out := [];
    }

    method Put(c: int)
      modifies this
      ensures out == old(out) + [Octet(c)]
    {
      out := out + [Octet(c)];
    }

    method Append(s: seq<byte>)
      modifies this
      ensures out == old(out) + s
    {
      out := out + s;
    }

    /** The tag and size written by `put_file`. */
    method PutSize(kind: int, u: nat)
      requires 0 <= kind < 252 && u <= 0xFFFF_FFFF
      modifies this
      ensures out == old(out) + ([kind + |FileSize(u)| - 1] + FileSize(u))
    {
      hide FileSize, Little, Octet;
      FileField(u);
      OctetIs(kind);
      OctetIs(kind + 1);
      OctetIs(kind + 2);
      OctetIs(kind + 3);
      var size := Signed(u);
      if size <= 0xFF {
        Put(kind);
        Put(u);
      } else if size <= 0xFFFF {
        Put(kind + 1);
        Put(u);
        Put(u / 0x100);
      } else if size <= 0xFF_FFFF {
        Put(kind + 2);
        Put(u);
        Put(u / 0x100);
        Put(u / 0x1_0000);
      } else {
        Put(kind + 3);
        Put(u);
        Put(u / 0x100);
        Put(u / 0x1_0000);
        Put(u / 0x100_0000);
      }
    }

    /** `put_file`: one to four bytes of size, low byte first. */
    method PutFile(p: Entry)
      requires p.File? && |p.data| <= 0xFFFF_FFFF
      modifies this
      ensures out == old(out) + EncodeNode(LeafNode(p))
    {
      hide EncodeNode, LeafNode, FileSize, Value;
      LeafBytes(p);
      ghost var s := SizeField(p);
      PutSize(if p.exec then TAG_EXEC else TAG_FILE, |p.data|);
      Append(p.name + [0]);
      assert out == old(out) + ([Tag(p) + |s| - 1] + s + p.name + [0]);
    }

    /** `put_link`: the two-byte form has the high byte first. */
    method PutLink(p: Entry) returns (ok: bool)
      requires p.Link?
      modifies this
      ensures ok <==> |p.target| <= 0xFFFF
      ensures ok ==> out == old(out) + EncodeNode(LeafNode(p))
    {
      hide EncodeNode, LeafNode, Value;
      LeafBytes(p);
      var size := |p.target|;
      ghost var s := SizeField(p);
      if size <= 0xFF {
        Put(TAG_LINK);
        Put(size);
        assert s == [size % 256];
      } else if size <= 0xFFFF {
        Put(TAG_LINK + 1);
        Put(size / 0x100);
        Put(size);
        assert s == [size / 256 % 256, size % 256];
      } else {
        return false;
      }
      Append(p.name + [0]);
      assert out == old(out) + ([Tag(p) + |s| - 1] + s + p.name + [0]);
      ok := true;
    }

    /** `put_dir`: fails exactly when an index is not where an `int` can say. */
    method PutDir(p: Entry, depth: nat) returns (ok: bool)
      requires p.Dir? && Storable(p.entries) && depth < MAXDEPTH && Within(p.entries, MAXDEPTH - depth - 1)
      modifies this
      ensures ok <==> EveryOne(p, Findable)
      ensures ok ==> out == old(out) + EncodeAll(NodesOne(p, depth))
      decreases p, 0
    {
      hide EncodeNode, EncodeAll, Nodes, Storable, Within, Every;
      var size := Signed(p.at);
      Put(TAG_DIR + depth);
      Append(p.name + [0]);
      ghost var nd := Node(TAG_DIR + depth, 0, p.name);
      DirEncoded(nd);
      assert out == old(out) + EncodeNode(nd);
      if size <= 0 { return false; }
      ok := PutEntries(p.entries, depth + 1);
      EncodeAllAppend([nd], Nodes(p.entries, depth + 1));
      EncodeOne(nd);
    }

    /** `put_entries`. */
    method PutEntries(idx: seq<Entry>, depth: nat) returns (ok: bool)
      requires Storable(idx) && depth <= MAXDEPTH && Within(idx, MAXDEPTH - depth)
      modifies this
      ensures ok <==> Every(idx, Findable)
      ensures ok ==> out == old(out) + EncodeAll(Nodes(idx, depth))
      decreases idx, 1
    {
      hide EncodeNode, EncodeAll, Nodes, LeafNode;
      NothingYet(depth);
      assert idx[..0] == [] && out == out + [];
      for i := 0 to |idx|
        invariant out == old(out) + EncodeAll(Nodes(idx[..i], depth))
        invariant forall k :: 0 <= k < i ==> EveryOne(idx[k], Findable)
      {
        ghost var before := EncodeAll(Nodes(idx[..i], depth));
        NodesNext(idx, i, depth);
        var p := idx[i];
        if p.Dir? {
          ok := PutDir(p, depth);
          if !ok { return; }
        } else if p.Link? {
          ok := PutLink(p);
          EncodeOne(LeafNode(p));
        } else {
          PutFile(p);
          EncodeOne(LeafNode(p));
        }
        assert out == old(out) + (before + EncodeAll(NodesOne(p, depth)));
      }
      assert idx[..|idx|] == idx;
      ok := true;
    }

    /** `dump_symlink`: the target is read into one page. */
    method DumpSymlink(target: seq<byte>) returns (ok: bool)
      modifies this
      ensures ok <==> |target| <= PAGE
      ensures out == if ok then old(out) + target else old(out)
    {
      var ret := if |target| <= PAGE then |target| else PAGE;
      if ret != |target| { return false; }
      Append(target);
      ok := true;
    }

    /** `dump_bindata`: the count of bytes sent is an `int`. */
    method DumpBindata(data: seq<byte>) returns (ok: bool)
      requires |data| <= 0xFFFF_FFFF
      modifies this
      ensures ok <==> |data| < INT_LIMIT
      ensures out == old(out) + data
    {
      Append(data);
      var ret := Signed(|data|);
      ok := ret >= 0;
    }

    /** `dump_content` and `dump_nextdir`: the content, in index order; fails
        exactly on links over a page and files of 2^31 bytes or more. */
    method DumpContent(idx: seq<Entry>) returns (ok: bool)
      requires Storable(idx)
      modifies this
      ensures ok <==> Dumps(idx)
      ensures ok ==> out == old(out) + Data(idx)
      decreases idx
    {
      hide Data;
      DataNone();
      assert idx[..0] == [] && out == out + [];
      for i := 0 to |idx|
        invariant forall k :: 0 <= k < i ==> EveryOne(idx[k], Dumpable)
        invariant out == old(out) + Data(idx[..i])
      {
        ghost var before := Data(idx[..i]);
        DataNext(idx, i);
        var p := idx[i];
        assert SmallEnough(p);
        match p {
          case Dir(_, entries, _) => ok := DumpContent(entries);
          case Link(_, target) => ok := DumpSymlink(target);
          case File(_, _, data) => ok := DumpBindata(data);
        }
        if !ok {
          assert !EveryOne(p, Dumpable);
          return;
        }
        assert out == old(out) + (before + DataOne(p));
      }
      assert idx[..|idx|] == idx;
      ok := true;
    }
  }

  lemma DirEncoded(nd: Node)
    requires nd.IsDir()
    ensures EncodeNode(nd) == [nd.bits] + (nd.name + [0])
  {
  }

  lemma NothingYet(depth: nat)
    ensures EncodeAll(Nodes([], depth)) == []
  {
  }

  lemma DataNone()
    ensures Data([]) == []
  {
  }

  lemma {:induction false} DataAppend(s: seq<Entry>, e: Entry)
    ensures Data(s + [e]) == Data(s) + DataOne(e)
    decreases |s|
  {
    hide DataOne;
    if s == [] {
      assert s + [e] == [e] && [e][1..] == [];
      assert Data([]) == [] && Data([e]) == DataOne(e) + Data([]);
    } else {
      assert (s + [e])[1..] == s[1..] + [e];
      DataAppend(s[1..], e);
    }
  }

  lemma DataNext(idx: seq<Entry>, i: nat)
    requires i < |idx|
    ensures Data(idx[..i + 1]) == Data(idx[..i]) + DataOne(idx[i])
  {
    assert idx[..i + 1] == idx[..i] + [idx[i]];
    DataAppend(idx[..i], idx[i]);
  }

  lemma {:induction false} NodesAppend(s: seq<Entry>, e: Entry, depth: nat)
    ensures Nodes(s + [e], depth) == Nodes(s, depth) + NodesOne(e, depth)
    decreases |s|
  {
    hide NodesOne;
    if s == [] {
      assert s + [e] == [e] && [e][1..] == [];
      assert Nodes([], depth) == [] && Nodes([e], depth) == NodesOne(e, depth) + Nodes([], depth);
    } else {
      assert (s + [e])[1..] == s[1..] + [e];
      NodesAppend(s[1..], e, depth);
    }
  }

  lemma NodesNext(idx: seq<Entry>, i: nat, depth: nat)
    requires i < |idx|
    ensures EncodeAll(Nodes(idx[..i + 1], depth)) ==
      EncodeAll(Nodes(idx[..i], depth)) + EncodeAll(NodesOne(idx[i], depth))
  {
    hide Nodes, NodesOne, EncodeAll;
    assert idx[..i + 1] == idx[..i] + [idx[i]];
    NodesAppend(idx[..i], idx[i], depth);
    EncodeAllAppend(Nodes(idx[..i], depth), NodesOne(idx[i], depth));
  }

  // ---------------------------------------------------------------- index size

  /** The length of the index, whatever the order. */
  function IndexSize(es: seq<Entry>): nat
    decreases es, 0
  {
    if es == [] then 0 else SizeOne(es[0]) + IndexSize(es[1..])
  }

  function SizeOne(e: Entry): nat
    decreases e, 1
  {
    |e.name| + 2 + (if e.Dir? then IndexSize(e.entries) else |SizeField(e)|)
  }

  lemma {:induction false} NodesSize(es: seq<Entry>, depth: nat)
    ensures |EncodeAll(Nodes(es, depth))| == IndexSize(es)
    decreases es, 0
  {
    hide EncodeAll, SizeOne, NodesOne;
    if es == [] {
      NothingYet(depth);
    } else {
      EncodeAllAppend(NodesOne(es[0], depth), Nodes(es[1..], depth));
      NodesSizeOne(es[0], depth);
      NodesSize(es[1..], depth);
    }
  }

  lemma {:induction false} NodesSizeOne(e: Entry, depth: nat)
    ensures |EncodeAll(NodesOne(e, depth))| == SizeOne(e)
    decreases e, 1
  {
    hide EncodeAll, IndexSize, Nodes, LeafNode, SizeField, EncodeNode;
    if e.Dir? {
      var nd := Node(TAG_DIR + depth % 128, 0, e.name);
      EncodeAllAppend([nd], Nodes(e.entries, depth + 1));
      EncodeOne(nd);
      DirEncoded(nd);
      NodesSize(e.entries, depth + 1);
    } else {
      EncodeOne(LeafNode(e));
      LeafBytes(e);
    }
  }

  lemma {:induction false} IndexTotal(es: seq<Entry>)
    ensures IndexSize(es) == Total(es, SizeOne)
  {
    hide SizeOne;
    if es != [] { IndexTotal(es[1..]); }
  }

  /** The estimate covers the index. */
  lemma {:induction false} EstimateCovers(es: seq<Entry>)
    ensures IndexSize(es) <= Estimate(es)
  {
    hide SizeField;
    if es != [] {
      EstimateCovers(es[1..]);
      if es[0].Dir? { EstimateCovers(es[0].entries); } else { FieldLength(es[0]); }
    }
  }

  lemma {:induction false} AlignedSize(s: seq<Entry>, t: seq<Entry>)
    requires Aligned(s, t)
    ensures IndexSize(s) == IndexSize(t)
    decreases t, 0
  {
    if t != [] {
      assert Twin(s[0], t[0]);
      forall i | 0 <= i < |t[1..]| ensures Twin(s[1..][i], t[1..][i]) { assert Twin(s[i + 1], t[i + 1]); }
      AlignedSize(s[1..], t[1..]);
      if t[0].Dir? { RearrangedSize(s[0].entries, t[0].entries); }
    }
  }

  lemma {:induction false} RearrangedSize(es: seq<Entry>, ts: seq<Entry>)
    requires Rearranged(es, ts)
    ensures IndexSize(es) == IndexSize(ts)
    decreases ts, 1
  {
    hide IndexSize;
    var mid: seq<Entry> :| multiset(mid) == multiset(es) && Aligned(mid, ts);
    IndexTotal(mid);
    IndexTotal(es);
    TotalPermuted(mid, es, SizeOne);
    AlignedSize(mid, ts);
  }

  // --------------------------------------------------------------- whole archive

  const MAGIC: seq<byte> := [80, 65, 67]

  function Head(size: nat): seq<byte> { MAGIC + ([Width(size)] + Little(Width(size) + 1, size)) }

  function Archive(ts: seq<Entry>): seq<byte> {
    var index := EncodeAll(Nodes(ts, 0));
    Head(|index|) + index + Data(ts)
  }

  /** `put_file_tag`: the header, with one to four bytes of index size. */
  method PutFileTag(size: int) returns (ok: bool, tag: seq<byte>)
    requires size >= 0
    ensures ok <==> size <= 0x7FFF_FFFF
    ensures ok ==> tag == Head(size)
  {
    hide Little, Octet;
    FileField(size);
    tag := MAGIC;
    if size <= 0xFF {
      tag := tag + [0, Octet(size)];
    } else if size <= 0xFFFF {
      tag := tag + [1, Octet(size), Octet(size / 0x100)];
    } else if size <= 0xFF_FFFF {
      tag := tag + [2, Octet(size), Octet(size / 0x100), Octet(size / 0x1_0000)];
    } else if size <= 0x7FFF_FFFF {
      tag := tag + [3, Octet(size), Octet(size / 0x100), Octet(size / 0x1_0000), Octet(size / 0x100_0000)];
    } else {
      return false, [];
    }
    ok := true;
  }

  // ------------------------------------------------------------- format, in bytes

  /** A number in one to four bytes, as few as will do, the lowest first. */
  ghost predicate Sized(s: seq<byte>, v: int) {
    || (v < 0x100 && |s| == 1 && v == s[0])
    || (0x100 <= v < 0x1_0000 && |s| == 2 && v == s[0] + 256 * (s[1] as int))
    || (0x1_0000 <= v < 0x100_0000 && |s| == 3 && v == s[0] + 256 * (s[1] as int) + 65536 * (s[2] as int))
    || (0x100_0000 <= v && |s| == 4
        && v == s[0] + 256 * (s[1] as int) + 65536 * (s[2] as int) + 16777216 * (s[3] as int))
  }

  lemma FileSized(size: nat)
    requires size < 0x8000_0000
    ensures Sized(FileSize(size), size)
  {
    hide Little, FileSize;
    FileField(size);
    Octets(size);
  }

  lemma Octets(v: nat)
    requires v < 0x1_0000_0000
    ensures v == Octet(v) + 256 * (Octet(v / 0x100) as int) + 65536 * (Octet(v / 0x1_0000) as int)
      + 16777216 * (Octet(v / 0x100_0000) as int)
    ensures v < 0x100_0000 ==> Octet(v / 0x100_0000) == 0
    ensures v < 0x1_0000 ==> Octet(v / 0x1_0000) == 0
    ensures v < 0x100 ==> Octet(v / 0x100) == 0
  {
    hide *;
    var a := v / 0x100;
    var b := a / 0x100;
    OctetOf(v);
    OctetOf(a);
    OctetOf(b);
    OctetOf(b / 0x100);
    DivTwice(v);
  }

  lemma OctetOf(v: nat)
    ensures v == Octet(v) + 0x100 * (v / 0x100) && (v < 0x100 ==> Octet(v) == v)
  {
  }

  lemma DivTwice(v: nat)
    ensures v / 0x1_0000 == v / 0x100 / 0x100 && v / 0x100_0000 == v / 0x100 / 0x100 / 0x100
  {
  }

  /** A file is 4, an executable one 8, plus one less than the bytes of its size;
      a link is 12 with one byte of size, or 13 with two, the highest first. */
  ghost predicate Led(e: Entry, lead: byte, f: seq<byte>)
    requires !e.Dir?
  {
    if e.File? then lead == (if e.exec then 8 else 4) + |f| - 1 && Sized(f, |e.data|)
    else
      || (|e.target| < 256 && lead == 12 && |f| == 1 && |e.target| == f[0])
      || (256 <= |e.target| && lead == 13 && |f| == 2 && |e.target| == 256 * (f[0] as int) + f[1])
  }

  /** The entry of a leaf: that byte, the size, the name and a zero. */
  lemma LeafFormat(e: Entry)
    requires !e.Dir? && Dumpable(e)
    ensures exists lead: byte, f: seq<byte> ::
      1 <= |f| <= 4 && Led(e, lead, f) && EncodeNode(LeafNode(e)) == [lead] + f + e.name + [0]
  {
    hide EncodeNode, LeafNode, FileSize, Little, Value, Sized;
    LeafBytes(e);
    FieldLength(e);
    var f := SizeField(e);
    if e.File? { FileSized(|e.data|); }
    assert Led(e, Tag(e) + |f| - 1, f);
  }

  /** A directory is 128 plus its depth, its name and a zero. */
  lemma DirFormat(e: Entry, depth: nat)
    requires e.Dir? && depth < 128
    ensures EncodeAll(NodesOne(e, depth)) == [128 + depth] + e.name + [0] + EncodeAll(Nodes(e.entries, depth + 1))
  {
    hide EncodeAll, Nodes, EncodeNode;
    var nd := Node(TAG_DIR + depth % 128, 0, e.name);
    EncodeAllAppend([nd], Nodes(e.entries, depth + 1));
    EncodeOne(nd);
    DirEncoded(nd);
  }

  /** The letters PAC, one less than the bytes of the index size, that size, the
      index and the content. */
  lemma ArchiveFormat(ts: seq<Entry>)
    ensures var index := EncodeAll(Nodes(ts, 0));
      |index| < 0x8000_0000 ==>
        exists f: seq<byte> :: 1 <= |f| <= 4 && Sized(f, |index|)
          && Archive(ts) == [80, 65, 67, |f| - 1] + f + index + Data(ts)
  {
    hide EncodeAll, Nodes, Data, Little, Sized, FileSize;
    var n := |EncodeAll(Nodes(ts, 0))|;
    if n < 0x8000_0000 {
      FileSized(n);
      SizeIs(n);
      var f := Little(Width(n) + 1, n);
      assert Head(n) == [80, 65, 67, |f| - 1] + f;
    }
  }

  lemma SizeIs(n: nat)
    requires n < 0x8000_0000
    ensures FileSize(n) == Little(Width(n) + 1, n)
  {
  }

  /** What `cmd_create` makes an archive of: not too deep, with a header, links
      and files within their limits, and all indexes where an `int` can say. */
  ghost predicate Archivable(es: seq<Entry>) {
    Within(es, MAXDEPTH) && Estimate(es) < INT_LIMIT && Dumps(es) && Fits(es, PAGE, INT_LIMIT)
  }

  /** `cmd_create`: scan, then header, index and content. */
  method Create(es: seq<Entry>) returns (ok: bool, archive: seq<byte>, ghost ts: seq<Entry>)
    ensures Proper(es) ==> (ok <==> Archivable(es))
    ensures ok ==> Within(es, MAXDEPTH) && Estimate(es) < INT_LIMIT && Dumps(es)
    ensures ok ==> Rearranged(es, ts) && SortedTree(ts) && archive == Archive(ts)
  {
    hide Storable, Dumps, Within, SortedTree, Rearranged, IndexSize, Estimate, EncodeAll, Nodes, Data, Head;
    hide Fits, Every, Proper;
    archive := [];
    if Dumps(es) { DumpsStorable(es); }
    if Fits(es, PAGE, INT_LIMIT) { FitsWider(es, PAGE, INT_LIMIT, WORD); }
    var sc := new Scanner();
    var idx;
    ok, idx := sc.ScanDirectory(es, 0);
    ts := idx;
    if !ok { return; }
    RearrangedLimits(es, idx);
    RearrangedWithin(es, idx, MAXDEPTH);
    RearrangedSize(es, idx);
    EstimateCovers(es);
    NodesSize(idx, 0);
    var pk := new Packer();
    ok := pk.PutEntries(idx, 0);
    if !ok { return; }
    var index := pk.out;
    var tag;
    ok, tag := PutFileTag(|index|);
    if !ok { return; }
    pk.out := tag + index;
    ok := pk.DumpContent(idx);
    archive := pk.out;
  }

  // --------------------------------------------------------- small enough indexes

  /** An entry takes at most ten times as much heap as index, and at most twice
      as much of the estimate. */
  lemma {:induction false} HeapBySize(es: seq<Entry>)
    requires Proper(es)
    ensures HeapAll(es) <= 10 * IndexSize(es) && Estimate(es) <= 2 * IndexSize(es)
  {
    hide SizeField;
    if es != [] {
      ProperTail(es);
      HeapBySize(es[1..]);
      NameNotEmpty(es[0]);
      if es[0].Dir? { HeapBySize(es[0].entries); } else { FieldLength(es[0]); }
    }
  }

  lemma NameNotEmpty(e: Entry)
    requires ProperEntry(e)
    ensures |e.name| >= 1 && (e.Dir? ==> Proper(e.entries))
  {
  }

  /** An index under 16 MB is in reach. */
  lemma SmallIsArchivable(es: seq<Entry>)
    requires Proper(es) && IndexSize(es) < 0x100_0000
    ensures Archivable(es) <==> Within(es, MAXDEPTH) && Dumps(es)
  {
    hide Proper, HeapAll, Estimate, IndexSize, Fits;
    HeapBySize(es);
    FitsBelow(es, PAGE);
  }
}
