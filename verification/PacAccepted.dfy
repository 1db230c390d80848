/** The two tools agree: what `mpac create` writes, `ctool` accepts, although
    one sorts by tree level and the other compares neighbours in a flat index. */
module PacAccepted {
  import opened Basics
  import opened Arith
  import opened PacIndex
  import opened PacTree
  import opened PacScan
  import opened PacCreate
  import opened PacExtract
  import PacRoundTrip
  import Qsort
  import C = CtoolIndex

  predicate GoodEntry(e: Entry) { C.GoodName(e.name) }

  /** All names are fit for a package. */
  ghost predicate GoodTree(es: seq<Entry>) { Every(es, GoodEntry) }

  lemma RearrangedGood(es: seq<Entry>, ts: seq<Entry>)
    requires Rearranged(es, ts)
    ensures GoodTree(es) <==> GoodTree(ts)
  {
    hide C.GoodName, Every, Rearranged;
    RearrangedEvery(es, ts, GoodEntry);
  }

  /** Files first, and names strictly rising among files and among directories. */
  ghost predicate Strict(es: seq<Entry>)
    decreases es
  {
    && (forall i, j :: 0 <= i < j < |es| && es[i].Dir? ==> es[j].Dir?)
    && (forall i, j :: 0 <= i < j < |es| && es[i].Dir? == es[j].Dir? ==> Before(es[i].name, es[j].name))
    && forall i :: 0 <= i < |es| && es[i].Dir? ==> Strict(es[i].entries)
  }

  lemma {:induction false} SortedStrict(es: seq<Entry>)
    requires SortedTree(es) && Proper(es)
    ensures Strict(es)
  {
    hide Qsort.Sorted, Before, Strcmp;
    forall i, j | 0 <= i < j < |es| && es[i].Dir? ensures es[j].Dir? { DirsLast(es, i, j); }
    forall i, j | 0 <= i < j < |es| && es[i].Dir? == es[j].Dir? ensures Before(es[i].name, es[j].name) {
      SortedPair(es, i, j);
      assert ProperEntry(es[i]) && ProperEntry(es[j]);
      StrcmpMeans(es[i].name, es[j].name);
    }
    forall i | 0 <= i < |es| && es[i].Dir? ensures Strict(es[i].entries) {
      assert ProperEntry(es[i]);
      SortedStrict(es[i].entries);
    }
  }

  lemma SortedPair(es: seq<Entry>, i: nat, j: nat)
    requires Qsort.Sorted(CmpEnt, es) && i < j < |es| && es[i].Dir? == es[j].Dir?
    ensures Strcmp(es[i].name, es[j].name) <= 0
  {
    hide Strcmp;
    assert Qsort.NotAfter(CmpEnt, es[i], es[j]);
  }

  /** Each of the entries may follow what is before it. */
  ghost predicate From(before: seq<Node>, ns: seq<Node>) {
    forall i :: 0 <= i < |ns| ==> C.Fits(before + ns[..i], ns[i])
  }

  lemma FromAppend(before: seq<Node>, ns: seq<Node>, ms: seq<Node>)
    requires From(before, ns) && From(before + ns, ms)
    ensures From(before, ns + ms)
  {
    hide C.Fits;
    forall i | 0 <= i < |ns + ms| ensures C.Fits(before + (ns + ms)[..i], (ns + ms)[i]) {
      if i < |ns| {
        assert (ns + ms)[..i] == ns[..i];
      } else {
        assert before + (ns + ms)[..i] == before + ns + ms[..i - |ns|];
      }
    }
  }

  lemma FromOne(before: seq<Node>, nd: Node)
    requires C.Fits(before, nd)
    ensures From(before, [nd])
  {
    assert before + [nd][..0] == before;
  }

  /** The first entry of a directory fits behind `before`, at depth `d`. */
  ghost predicate Fitting(before: seq<Node>, e: Entry, d: nat) {
    var here := Where(before);
    if e.Dir? then d <= |here| && (d < |here| ==> Before(here[d], e.name))
    else d == |here| && (C.LastLeaf(before).Some? ==> Before(C.LastLeaf(before).value, e.name))
  }

  lemma {:induction false} AdmitTree(es: seq<Entry>, before: seq<Node>, d: nat)
    requires Strict(es) && GoodTree(es) && d <= C.MAXDEPTH && Within(es, C.MAXDEPTH - d)
    requires d <= |Where(before)| && (es != [] ==> Fitting(before, es[0], d))
    ensures From(before, Nodes(es, d))
    ensures var after := Where(before + Nodes(es, d)); d <= |after| && after[..d] == Where(before)[..d]
    decreases es, 0
  {
    hide Where, From, C.Fits, C.GoodName, Before, Nodes, NodesOne, Fitting;
    if es == [] {
      AdmitNone(before, d);
    } else {
      var e, others := es[0], es[1..];
      AdmitFront(es, d);
      AdmitOne(e, before, d);
      var mid := before + NodesOne(e, d);
      if others != [] { NextFits(before, es, d); }
      AdmitTree(others, mid, d);
      FromAppend(before, NodesOne(e, d), Nodes(others, d));
      assert mid + Nodes(others, d) == before + (NodesOne(e, d) + Nodes(others, d));
    }
  }

  lemma AdmitNone(before: seq<Node>, d: nat)
    ensures From(before, Nodes([], d)) && before + Nodes([], d) == before
  {
  }

  lemma AdmitFront(es: seq<Entry>, d: nat)
    requires es != [] && Strict(es) && GoodTree(es) && Within(es, C.MAXDEPTH - d)
    ensures Strict(es[1..]) && GoodTree(es[1..]) && Within(es[1..], C.MAXDEPTH - d)
    ensures C.GoodName(es[0].name)
    ensures es[0].Dir? ==>
      && d < C.MAXDEPTH && Strict(es[0].entries) && GoodTree(es[0].entries)
      && Within(es[0].entries, C.MAXDEPTH - d - 1)
    ensures Nodes(es, d) == NodesOne(es[0], d) + Nodes(es[1..], d)
  {
    hide C.GoodName, Before, NodesOne;
    assert forall i :: 0 <= i < |es[1..]| ==> es[1..][i] == es[i + 1];
  }

  lemma {:induction false} AdmitOne(e: Entry, before: seq<Node>, d: nat)
    requires Fitting(before, e, d) && d <= C.MAXDEPTH && C.GoodName(e.name)
    requires e.Dir? ==>
      d < C.MAXDEPTH && Strict(e.entries) && GoodTree(e.entries) && Within(e.entries, C.MAXDEPTH - d - 1)
    ensures From(before, NodesOne(e, d))
    ensures var after := Where(before + NodesOne(e, d));
      d <= |after| && |Where(before)| >= d && after[..d] == Where(before)[..d]
    ensures var after := Where(before + NodesOne(e, d)); e.Dir? ==> d < |after| && after[d] == e.name
    ensures !e.Dir? ==> NodesOne(e, d) == [LeafNode(e)] && Where(before + NodesOne(e, d)) == Where(before)
    decreases e, 1
  {
    hide Where, From, C.GoodName, Before, Nodes, LeafNode, Strict, GoodTree, Within;
    if e.Dir? {
      var nd := Node(TAG_DIR + d, 0, e.name);
      FromOne(before, nd);
      C.WhereNext(before, nd);
      if e.entries != [] { FirstFits(before, nd, e.entries[0]); }
      AdmitTree(e.entries, before + [nd], d + 1);
      FromAppend(before, [nd], Nodes(e.entries, d + 1));
      var after := Where(before + [nd] + Nodes(e.entries, d + 1));
      assert before + [nd] + Nodes(e.entries, d + 1) == before + NodesOne(e, d);
      assert after[..d + 1][..d] == after[..d] && after[..d + 1][d] == after[d];
    } else {
      LeafFits(before, e);
      FromOne(before, LeafNode(e));
      C.WhereNext(before, LeafNode(e));
      assert !LeafNode(e).IsDir() by { LeafTag(e); }
    }
  }

  lemma LeafTag(e: Entry)
    requires !e.Dir?
    ensures !LeafNode(e).IsDir() && LeafNode(e).name == e.name && LeafNode(e).size < Pow256(LeafNode(e).bits % 4 + 1)
  {
    hide Value, SizeField, Pow256;
    FieldLength(e);
    ValueBound(SizeField(e));
    assert LeafNode(e).bits % 4 + 1 == |SizeField(e)|;
  }

  lemma LeafFits(before: seq<Node>, e: Entry)
    requires !e.Dir? && C.GoodName(e.name)
    requires C.LastLeaf(before).Some? ==> Before(C.LastLeaf(before).value, e.name)
    ensures C.Fits(before, LeafNode(e))
  {
    hide LeafNode, C.GoodName, Before, Pow256, Where;
    LeafTag(e);
  }

  /** The first entry inside a directory just entered. */
  lemma FirstFits(before: seq<Node>, nd: Node, e: Entry)
    requires nd.IsDir() && nd.Level() <= |Where(before)|
    ensures Fitting(before + [nd], e, nd.Level() + 1)
  {
    hide Where, Before;
    C.WhereNext(before, nd);
  }

  /** The second entry of a directory after the first. */
  lemma NextFits(before: seq<Node>, es: seq<Entry>, d: nat)
    requires |es| > 1 && Strict(es) && Fitting(before, es[0], d)
    requires var after := Where(before + NodesOne(es[0], d)); es[0].Dir? ==> d < |after| && after[d] == es[0].name
    requires !es[0].Dir? ==>
      NodesOne(es[0], d) == [LeafNode(es[0])] && Where(before + NodesOne(es[0], d)) == Where(before)
    ensures Fitting(before + NodesOne(es[0], d), es[1], d)
  {
    hide Where, NodesOne, LeafNode, Before;
    if !es[0].Dir? { LeafTag(es[0]); }
  }

  /** The index of a sorted tree of package names, at most eight deep, is one
      that `ctool` admits. */
  lemma MadeIsAdmissible(ts: seq<Entry>)
    requires SortedTree(ts) && Proper(ts) && GoodTree(ts) && Within(ts, C.MAXDEPTH)
    ensures C.Admissible(Nodes(ts, 0))
  {
    hide Proper, Nodes, SortedTree, GoodTree, Within, Where, C.Fits;
    SortedStrict(ts);
    NothingBefore();
    if ts != [] { FirstOfAll(ts[0]); }
    AdmitTree(ts, [], 0);
    var ns := Nodes(ts, 0);
    forall i | 0 <= i < |ns| ensures C.Fits(ns[..i], ns[i]) {
      assert [] + ns[..i] == ns[..i];
    }
  }

  lemma NothingBefore()
    ensures Where([]) == []
  {
  }

  lemma FirstOfAll(e: Entry)
    ensures Fitting([], e, 0)
  {
  }

  /** Make an archive and index it as a package: accepted, with the entries
      that were written. */
  method IndexCreated(es: seq<Entry>) returns (made: bool, ok: bool, nodes: seq<Node>)
    requires Proper(es)
    ensures made <==> Archivable(es)
    ensures made && es != [] && IndexSize(es) < 0x100_0000 && GoodTree(es) && Within(es, C.MAXDEPTH) ==>
      ok && exists ts :: Rearranged(es, ts) && nodes == Nodes(ts, 0)
  {
    hide Proper, Archivable, Dumps, Within, IndexSize, Estimate, Archive, Rearranged, SortedTree, GoodTree;
    hide Loadable, Nodes, Data, Value, EncodeAll, Readable;
    ok, nodes := false, [];
    var archive;
    ghost var ts;
    made, archive, ts := Create(es);
    if !made { return; }
    var index, data;
    ok, index, data := LoadIndex(archive);
    RearrangedProper(es, ts);
    RearrangedSize(es, ts);
    EstimateCovers(es);
    PacRoundTrip.SizeAtLeast3(es);
    PacRoundTrip.SizeAtLeast3(ts);
    PacRoundTrip.ArchiveCarries(ts);
    if !ok { return; }
    PacRoundTrip.LoadableSize(archive);
    PacRoundTrip.SameCut(archive[..5 + archive[3]], index, data, EncodeAll(Nodes(ts, 0)), Data(ts));
    if GoodTree(es) && Within(es, C.MAXDEPTH) {
      RearrangedGood(es, ts);
      RearrangedWithin(es, ts, C.MAXDEPTH);
      MadeIsAdmissible(ts);
    }
    HasNodes(ts);
    ok, nodes := C.IndexNodes(index, Nodes(ts, 0));
  }

  lemma HasNodes(ts: seq<Entry>)
    ensures ts != [] ==> Nodes(ts, 0) != []
  {
  }
}
