/** Extracting what was created: the same tree, exactly when the index is
    neither empty nor too large and every recorded size is the real one. */
module PacRoundTrip {
  import opened Basics
  import opened Arith
  import opened PacIndex
  import opened PacTree
  import opened PacExact
  import opened PacScan
  import opened PacCreate
  import opened PacExtract

  /** What the size of a link target must be to be read back: in one byte, or
      in two equal ones. */
  predicate LinkFits(e: Entry) {
    e.Link? ==> |e.target| <= 0xFF || |e.target| / 256 == |e.target| % 256
  }

  ghost predicate LinksFit(es: seq<Entry>) { Every(es, LinkFits) }

  lemma FitsIffFaithful(e: Entry)
    requires !e.Dir? && Dumpable(e)
    ensures LinkFits(e) <==> Faithful(e)
  {
    hide FileSize, LinkSize, Value;
    match e {
      case File(_, _, d) => FileFaithful(|d|);
      case Link(_, t) => LinkFaithful(|t|);
    }
  }

  lemma {:induction false} ExactIff(es: seq<Entry>)
    requires Dumps(es)
    ensures Exact(es) <==> LinksFit(es)
    decreases es
  {
    hide LinkFits, Faithful, Dumpable;
    forall i | 0 <= i < |es|
      ensures ExactOne(es[i]) <==> LinkFits(es[i]) && (es[i].Dir? ==> LinksFit(es[i].entries))
    {
      if es[i].Dir? {
        ExactIff(es[i].entries);
        DirFits(es[i]);
      } else {
        FitsIffFaithful(es[i]);
      }
    }
  }

  lemma DirFits(e: Entry)
    requires e.Dir?
    ensures LinkFits(e)
  {
  }

  /** The archive of a proper tree has only entries the reader accepts. */
  lemma {:induction false} NodesReadable(es: seq<Entry>, depth: nat)
    requires Proper(es)
    ensures forall i :: 0 <= i < |Nodes(es, depth)| ==> Readable(Nodes(es, depth)[i])
    decreases es, 0
  {
    hide Readable, NodesOne, ProperEntry;
    if es != [] {
      ProperTail(es);
      NodesReadableOne(es[0], depth);
      NodesReadable(es[1..], depth);
    }
  }

  lemma {:induction false} NodesReadableOne(e: Entry, depth: nat)
    requires ProperEntry(e)
    ensures forall i :: 0 <= i < |NodesOne(e, depth)| ==> Readable(NodesOne(e, depth)[i])
    decreases e, 1
  {
    hide Nodes, Value, SizeField, Pow256;
    if e.Dir? {
      NodesReadable(e.entries, depth + 1);
    } else {
      FieldLength(e);
      ValueBound(SizeField(e));
      assert LeafNode(e).bits % 4 + 1 == |SizeField(e)|;
    }
  }

  /** The file system shows this tree and nothing else. */
  ghost predicate Shows(fs: map<Path, Item>, es: seq<Entry>) {
    forall p, it :: p in fs && fs[p] == it <==> Holds(es, p, it)
  }

  lemma ShowsFlat(fs: map<Path, Item>, es: seq<Entry>, ts: seq<Entry>)
    requires Rearranged(es, ts) && Proper(ts)
    ensures Shows(fs, es) <==> fs == Flat([], ts)
  {
    hide Holds, Flat, Rearranged, Proper;
    var m := Flat([], ts);
    forall p, it ensures p in m && m[p] == it <==> Holds(es, p, it) {
      FlatHolds([], ts, p, it);
      RearrangedHolds(es, ts, p, it);
      HoldsPath(ts, p, it);
      assert p[0..] == p && p[..0] == [];
    }
    if Shows(fs, es) {
      forall p ensures p in fs <==> p in m {
        if p in fs { assert Holds(es, p, fs[p]); }
        if p in m { assert Holds(es, p, m[p]); }
      }
      forall p | p in fs ensures fs[p] == m[p] { assert Holds(es, p, fs[p]); }
    }
  }

  lemma HoldsPath(es: seq<Entry>, p: Path, it: Item)
    ensures Holds(es, p, it) ==> p != []
  {
  }

  lemma SizeAtLeast3(es: seq<Entry>)
    requires Proper(es)
    ensures es != [] <==> IndexSize(es) >= 3
    ensures es == [] ==> IndexSize(es) == 0
  {
    hide SizeField;
    if es != [] { assert es[0].name != []; }
  }

  /** A loadable archive with this index and this content. */
  ghost predicate Carries(a: seq<byte>, ns: seq<Node>, data: seq<byte>) {
    && Loadable(a) && a == a[..5 + a[3]] + EncodeAll(ns) + data && Value(a[4..5 + a[3]]) == |EncodeAll(ns)|
    && forall i :: 0 <= i < |ns| ==> Readable(ns[i])
  }

  /** `cmd_extract` into a directory that is empty. */
  method Extract(a: seq<byte>, ghost ns: seq<Node>, ghost data: seq<byte>) returns (ok: bool, fs: map<Path, Item>)
    ensures ok ==> Loadable(a)
    ensures Carries(a, ns, data) ==>
      && (ok <==> Run(State([], map[], data), ns).Some?)
      && (ok ==> fs == Run(State([], map[], data), ns).value.fs)
  {
    hide Value, Run, Readable, EncodeAll, HeadEnd;
    fs := map[];
    var index, rest;
    ok, index, rest := LoadIndex(a);
    if !ok { return; }
    if Carries(a, ns, data) {
      SameCut(a[..5 + a[3]], index, rest, EncodeAll(ns), data);
    }
    var ex := new Extractor(index, rest, map[]);
    ok := ex.UnpackData(ns);
    fs := ex.fs;
  }

  lemma SameCut(h: seq<byte>, x: seq<byte>, y: seq<byte>, u: seq<byte>, v: seq<byte>)
    requires h + x + y == h + u + v && |x| == |u|
    ensures x == u && y == v
  {
    var s := h + x + y;
    assert x == s[|h|..|h| + |x|] && u == s[|h|..|h| + |x|];
    assert y == s[|h| + |x|..] && v == s[|h| + |x|..];
  }

  lemma ArchiveCarries(ts: seq<Entry>)
    requires Proper(ts) && IndexSize(ts) <= 0x7FFF_FFFF
    ensures Loadable(Archive(ts)) <==> ts != [] && IndexSize(ts) < 0x100_0000
    ensures Loadable(Archive(ts)) ==> Carries(Archive(ts), Nodes(ts, 0), Data(ts))
  {
    hide Proper, Nodes, Data, EncodeAll, Value, Loadable, Readable, IndexSize, Head;
    var index := EncodeAll(Nodes(ts, 0));
    NodesSize(ts, 0);
    SizeAtLeast3(ts);
    NodesReadable(ts, 0);
    HeadRead(index, Data(ts));
    if Loadable(Archive(ts)) {
      LoadableSize(Archive(ts));
      assert Archive(ts)[..|Head(|index|)|] == Head(|index|);
    }
  }

  lemma LoadableSize(a: seq<byte>)
    requires Loadable(a)
    ensures |a| >= 8 && a[3] <= 2
  {
  }

  /** Create an archive and extract it into an empty directory.  Every archive
      that can be made shows the original tree again exactly when the tree is
      not empty, its index is under 16 MB and the sizes of its links fit.  So a
      tree comes back exactly when besides it is not too deep and its content can
      be dumped; the limits on heap and header never stand in the way. */
  method RoundTrip(es: seq<Entry>) returns (made: bool, ok: bool, fs: map<Path, Item>)
    requires Proper(es)
    ensures made <==> Archivable(es)
    ensures made ==> (ok && Shows(fs, es) <==> es != [] && IndexSize(es) < 0x100_0000 && LinksFit(es))
    ensures made && ok && Shows(fs, es) <==>
      Within(es, 32) && Dumps(es) && es != [] && IndexSize(es) < 0x100_0000 && LinksFit(es)
  {
    hide Proper, Storable, Dumps, Within, IndexSize, Estimate, Shows, LinksFit, Archive, Rearranged, FilesFirst;
    hide Archivable, SortedTree, Loadable, Carries, Run, Nodes, Data, Exact, Flat;
    ok, fs := false, map[];
    var archive;
    ghost var ts;
    if IndexSize(es) < 0x100_0000 { SmallIsArchivable(es); }
    made, archive, ts := Create(es);
    if !made { return; }
    SortedFilesFirst(ts);
    RearrangedProper(es, ts);
    RearrangedSize(es, ts);
    RearrangedWithin(es, ts, MAXDEPTH);
    RearrangedLimits(es, ts);
    RearrangedExact(es, ts);
    EstimateCovers(es);
    SizeAtLeast3(es);
    SizeAtLeast3(ts);
    ArchiveCarries(ts);
    ExactIff(es);
    RunIff(ts);
    ok, fs := Extract(archive, Nodes(ts, 0), Data(ts));
    ShowsFlat(fs, es, ts);
  }

  const LONG_LINK := [Link([97], seq(256, _ => 98))]

  lemma LongLinkTree()
    ensures Proper(LONG_LINK) && Within(LONG_LINK, MAXDEPTH) && Dumps(LONG_LINK)
    ensures IndexSize(LONG_LINK) < 0x100_0000 && !LinksFit(LONG_LINK)
  {
    assert !LinkFits(LONG_LINK[0]);
    FieldLength(LONG_LINK[0]);
    assert IndexSize(LONG_LINK) == SizeOne(LONG_LINK[0]) + IndexSize(LONG_LINK[1..]);
  }

  /** A link of 256 bytes is archived and does not come back. */
  method LongLink() returns (made: bool, ok: bool, fs: map<Path, Item>)
    ensures made && !(ok && Shows(fs, LONG_LINK))
  {
    hide Proper, Within, Dumps, IndexSize, LinksFit, Shows, Archivable;
    LongLinkTree();
    SmallIsArchivable(LONG_LINK);
    made, ok, fs := RoundTrip(LONG_LINK);
  }

  // ------------------------------------------------------- an index out of reach

  /** Four digits to base 128, as a name. */
  function Digits(n: nat, k: nat): (s: Name)
    ensures |s| == n && forall i :: 0 <= i < n ==> 64 <= s[i] < 192
  {
    if n == 0 then [] else [64 + k % 128] + Digits(n - 1, k / 128)
  }

  function Power128(n: nat): nat {
    if n == 0 then 1 else 128 * Power128(n - 1)
  }

  lemma {:induction false} DigitsDiffer(n: nat, j: nat, k: nat)
    requires j < Power128(n) && k < Power128(n) && Digits(n, j) == Digits(n, k)
    ensures j == k
  {
    if n > 0 {
      var s, t := Digits(n, j), Digits(n, k);
      assert s[0] == t[0] && s[1..] == Digits(n - 1, j / 128) && t[1..] == Digits(n - 1, k / 128);
      DigitsDiffer(n - 1, j / 128, k / 128);
    }
  }

  /** Empty files, as many as wanted. */
  function Many(n: nat): (es: seq<Entry>)
    ensures |es| == n && forall i :: 0 <= i < n ==> es[i] == File(Digits(4, i), false, [])
  {
    if n == 0 then [] else Many(n - 1) + [File(Digits(4, n - 1), false, [])]
  }

  const MANY: nat := 90_000_000

  lemma ManyProper()
    ensures Proper(Many(MANY)) && Within(Many(MANY), 31) && Dumps(Many(MANY))
  {
    hide Many, Digits;
    assert Power128(4) == 268_435_456 by {
      assert Power128(1) == 128 && Power128(2) == 16384 && Power128(3) == 2_097_152;
    }
    var es := Many(MANY);
    hide Power128;
    forall i, j | 0 <= i < j < MANY ensures es[i].name != es[j].name {
      if es[i].name == es[j].name { DigitsDiffer(4, i, j); }
    }
    forall i | 0 <= i < MANY ensures ProperEntry(es[i]) {
      assert |es[i].name| == 4;
    }
  }

  lemma {:induction false} ManyTotals(n: nat)
    ensures Estimate(Many(n)) == 10 * n && HeapAll(Many(n)) == 24 * n
  {
    hide Digits, Estimate, HeapAll;
    if n == 0 {
      NoEntries();
    } else {
      ManyTotals(n - 1);
      EstimateParts(Many(n - 1));
      EstimateParts(Many(n));
      HeapParts(Many(n - 1));
      HeapParts(Many(n));
      var e := File(Digits(4, n - 1), false, []);
      TotalOneMore(Many(n - 1), e, OwnEstimate);
      TotalOneMore(Many(n - 1), e, Below);
      TotalOneMore(Many(n - 1), e, Deep);
      TotalOneMore(Many(n - 1), e, EntBytes);
    }
  }

  lemma TotalOneMore(s: seq<Entry>, e: Entry, f: Entry -> nat)
    ensures Total(s + [e], f) == Total(s, f) + f(e)
  {
    TotalJoin(s, [e], f);
    TotalOne(e, f);
  }

  /** A directory `a` of very many files, then an empty directory `b`. */
  function FarTree(): seq<Entry> { [Dir([97], Many(MANY), 0), Dir([98], [], 0)] }

  lemma FarParts(a: Entry, b: Entry)
    requires FarTree() == [a, b]
    ensures OwnEstimate(a) == 3 && OwnEstimate(b) == 3
    ensures Below(a) == Estimate(Many(MANY)) && Below(b) == 0
    ensures Sooner(b)(a) == 8 + HeapAll(Many(MANY)) && Sooner(b)(b) == 0
  {
    hide Many, Estimate, HeapAll;
    NoEntries();
  }

  lemma FarProper()
    ensures var es := FarTree(); Proper(es) && Within(es, MAXDEPTH) && Dumps(es)
  {
    hide Many, Within, Proper, Every;
    var es := FarTree();
    ManyProper();
    NoEntries();
    TwoDirs(es);
  }

  /** What is asked of a tree of two directories. */
  lemma TwoDirs(es: seq<Entry>)
    requires |es| == 2 && es[0].Dir? && es[1].Dir? && es[0].name == [97] && es[1].name == [98]
    requires forall i :: 0 <= i < 2 ==>
      Proper(es[i].entries) && Within(es[i].entries, MAXDEPTH - 1) && Dumps(es[i].entries)
    ensures Proper(es) && Within(es, MAXDEPTH) && Dumps(es)
  {
    assert [97] != [98];
  }

  lemma NoEntries()
    ensures Estimate([]) == 0 && HeapAll([]) == 0 && Proper([]) && Within([], 31) && Dumps([])
  {
  }

  lemma FarReach(es: seq<Entry>)
    requires es == FarTree() && Proper(es)
    requires Total(es, Sooner(es[1])) + PAGE >= INT_LIMIT
    ensures !Archivable(es)
  {
    hide Total, Sooner, Many, Within, Dumps, Estimate, Fits;
    FitsAt(es, 1, PAGE, INT_LIMIT);
  }

  lemma FitsAt(es: seq<Entry>, i: nat, hp: nat, limit: nat)
    requires i < |es| && es[i].Dir?
    ensures Fits(es, hp, limit) ==> hp + Total(es, Sooner(es[i])) < limit
  {
    if Fits(es, hp, limit) { assert FitsOne(es[i], Entered(es, es[i], hp), limit); }
  }

  /** Everything but the place of an index is within its limits; the index of
      `b` is out of reach, and no archive is made. */
  lemma FarIndex()
    ensures var es := FarTree();
      && Proper(es) && Within(es, MAXDEPTH) && Estimate(es) < INT_LIMIT && Dumps(es) && !Archivable(es)
  {
    hide Many, Estimate, HeapAll, Within, Dumps;
    var es := FarTree();
    var a, b := es[0], es[1];
    FarParts(a, b);
    FarProper();
    ManyTotals(MANY);
    EstimateParts(es);
    TotalPair(a, b, OwnEstimate);
    TotalPair(a, b, Below);
    TotalPair(a, b, Sooner(b));
    FarReach(es);
  }

  lemma TotalPair(a: Entry, b: Entry, f: Entry -> nat)
    ensures Total([a, b], f) == f(a) + f(b)
  {
    assert [a, b] == [a] + [b];
    TotalJoin([a], [b], f);
    TotalOne(a, f);
    TotalOne(b, f);
  }
}
