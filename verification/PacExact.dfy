/** Which trees survive: the recorded sizes must be the real ones.  A size read
    too small leaves a short file behind, and one read too large makes the
    content run out. */
module PacExact {
  import opened Basics
  import opened PacIndex
  import opened PacTree

  /** The bytes the reader will take. */
  ghost function Sum(es: seq<Entry>): nat
    decreases es, 0
  {
    if es == [] then 0 else SumOne(es[0]) + Sum(es[1..])
  }

  ghost function SumOne(e: Entry): nat
    decreases e, 1
  {
    if e.Dir? then Sum(e.entries) else Value(SizeField(e))
  }

  /** No recorded size is too small. */
  ghost predicate Enough(es: seq<Entry>)
    decreases es, 0
  {
    forall i :: 0 <= i < |es| ==> EnoughOne(es[i])
  }

  ghost predicate EnoughOne(e: Entry)
    decreases e, 1
  {
    if e.Dir? then Enough(e.entries) else Value(SizeField(e)) >= |Payload(e)|
  }

  lemma ExactSplit(es: seq<Entry>)
    requires es != []
    ensures Exact(es) <==> ExactOne(es[0]) && Exact(es[1..])
    ensures Enough(es) <==> EnoughOne(es[0]) && Enough(es[1..])
  {
    hide Faithful, EnoughOne;
    var t := es[1..];
    assert forall i :: 0 <= i < |t| ==> t[i] == es[i + 1];
    assert forall i :: 1 <= i < |es| ==> es[i] == t[i - 1];
  }

  lemma {:induction false} EnoughIsExact(es: seq<Entry>)
    requires Enough(es)
    ensures Sum(es) >= |Data(es)| && (Sum(es) == |Data(es)| <==> Exact(es))
    decreases es, 0
  {
    hide Faithful, Enough, Exact;
    if es == [] {
      NoneExact();
    } else {
      ExactSplit(es);
      EnoughIsExact(es[1..]);
      EnoughIsExactOne(es[0]);
    }
  }

  lemma NoneExact()
    ensures Exact([])
  {
  }

  lemma {:induction false} EnoughIsExactOne(e: Entry)
    requires EnoughOne(e)
    ensures SumOne(e) >= |DataOne(e)| && (SumOne(e) == |DataOne(e)| <==> ExactOne(e))
    decreases e, 1
  {
    if e.Dir? { EnoughIsExact(e.entries); }
  }

  ghost predicate SameAt(f: map<Path, Item>, g: map<Path, Item>, q: Path) {
    (q in f <==> q in g) && (q in f && q in g ==> f[q] == g[q])
  }

  ghost predicate Inside(m: map<Path, Item>, f: map<Path, Item>) {
    forall p :: p in m ==> p in f && f[p] == m[p]
  }

  /** A tree that may be replayed below `pre` from here. */
  ghost predicate Ready(es: seq<Entry>, pre: Path, st: State) {
    && Proper(es) && FilesFirst(es) && |pre| <= MAXDEPTH && Within(es, MAXDEPTH - |pre|)
    && |pre| <= |st.cwd| && st.cwd[..|pre|] == pre && (es != [] && !es[0].Dir? ==> st.cwd == pre)
  }

  ghost predicate ReadyOne(e: Entry, pre: Path, st: State) {
    && ProperEntry(e) && |pre| <= MAXDEPTH && |pre| <= |st.cwd| && st.cwd[..|pre|] == pre
    && if e.Dir? then |pre| < MAXDEPTH && FilesFirst(e.entries) && Within(e.entries, MAXDEPTH - |pre| - 1)
       else st.cwd == pre
  }

  lemma ReadySplit(es: seq<Entry>, pre: Path, st: State)
    requires es != [] && Ready(es, pre, st)
    ensures ReadyOne(es[0], pre, st) && Proper(es[1..]) && Distinct(es)
    ensures forall s: State :: |pre| <= |s.cwd| && s.cwd[..|pre|] == pre && (!es[0].Dir? ==> s.cwd == pre) ==>
      Ready(es[1..], pre, s)
  {
    hide ProperEntry;
    var t := es[1..];
    assert forall i :: 0 <= i < |t| ==> t[i] == es[i + 1];
    ProperTail(es);
  }

  /** What a run that gets through did: it took the recorded sizes, it touched
      only the paths of the tree, and no leaf is longer than its recorded size. */
  lemma {:induction false} RunTook(es: seq<Entry>, pre: Path, st: State, s: State)
    requires Ready(es, pre, st) && Run(st, Nodes(es, |pre|)) == Some(s)
    ensures |pre| <= |s.cwd| && s.cwd[..|pre|] == pre
    ensures |s.rest| + Sum(es) == |st.rest|
    ensures forall q :: q !in Flat(pre, es) ==> SameAt(st.fs, s.fs, q)
    ensures Inside(Flat(pre, es), s.fs) ==> Enough(es)
    decreases es, 0
  {
    hide Step, Run, Proper, FilesFirst, Within, FlatOne, Flat, Nodes, Ready, ReadyOne, Enough, SameAt, Inside, NodesOne;
    if es == [] {
      TookNone(pre, st, s);
    } else {
      var e, others := es[0], es[1..];
      ReadySplit(es, pre, st);
      NodesFront(es, pre);
      RunAppend(st, NodesOne(e, |pre|), Nodes(others, |pre|));
      var mid := Run(st, NodesOne(e, |pre|)).value;
      RunTookOne(e, pre, st, mid);
      RunTook(others, pre, mid, s);
      TookBoth(es, pre, st, mid, s);
      ExactSplit(es);
    }
  }

  lemma NodesFront(es: seq<Entry>, pre: Path)
    requires es != []
    ensures Nodes(es, |pre|) == NodesOne(es[0], |pre|) + Nodes(es[1..], |pre|)
    ensures Flat(pre, es) == FlatOne(pre, es[0]) + Flat(pre, es[1..])
    ensures Sum(es) == SumOne(es[0]) + Sum(es[1..])
  {
    hide FlatOne, NodesOne, SumOne;
  }

  lemma TookNone(pre: Path, st: State, s: State)
    requires Run(st, Nodes([], |pre|)) == Some(s)
    ensures s == st && Sum([]) == 0 && Enough([])
    ensures forall q :: SameAt(st.fs, s.fs, q)
    ensures Ready([], pre, st) ==> |pre| <= |s.cwd| && s.cwd[..|pre|] == pre
  {
  }

  lemma TookBoth(es: seq<Entry>, pre: Path, st: State, mid: State, s: State)
    requires es != [] && Distinct(es)
    requires forall q :: q !in FlatOne(pre, es[0]) ==> SameAt(st.fs, mid.fs, q)
    requires forall q :: q !in Flat(pre, es[1..]) ==> SameAt(mid.fs, s.fs, q)
    ensures forall q :: q !in Flat(pre, es) ==> SameAt(st.fs, s.fs, q)
    ensures Inside(Flat(pre, es), s.fs) ==> Inside(FlatOne(pre, es[0]), mid.fs) && Inside(Flat(pre, es[1..]), s.fs)
  {
    hide FlatOne, Flat;
    var one, rest := FlatOne(pre, es[0]), Flat(pre, es[1..]);
    NodesFront(es, pre);
    assert Flat(pre, es) == one + rest;
    forall q | q !in one + rest ensures SameAt(st.fs, s.fs, q) {
      assert SameAt(st.fs, mid.fs, q) && SameAt(mid.fs, s.fs, q);
    }
    if Inside(one + rest, s.fs) {
      forall p | p in one ensures p in mid.fs && mid.fs[p] == one[p] {
        FlatApart(es, pre, p);
        assert SameAt(mid.fs, s.fs, p);
        assert p in one + rest && (one + rest)[p] == one[p];
      }
      forall p | p in rest ensures p in s.fs && s.fs[p] == rest[p] {
        assert p in one + rest && (one + rest)[p] == rest[p];
      }
    }
  }

  lemma FlatApart(es: seq<Entry>, pre: Path, p: Path)
    requires es != [] && Distinct(es) && p in FlatOne(pre, es[0])
    ensures p !in Flat(pre, es[1..])
  {
    FlatOneUnder(pre, es[0], p);
    assert forall i :: 0 <= i < |es[1..]| ==> es[1..][i] == es[i + 1];
    if p in Flat(pre, es[1..]) { FlatUnder(pre, es[1..], p); }
  }

  lemma {:induction false} RunTookOne(e: Entry, pre: Path, st: State, s: State)
    requires ReadyOne(e, pre, st) && Run(st, NodesOne(e, |pre|)) == Some(s)
    ensures |pre| <= |s.cwd| && s.cwd[..|pre|] == pre && (!e.Dir? ==> s.cwd == pre)
    ensures |s.rest| + SumOne(e) == |st.rest|
    ensures forall q :: q !in FlatOne(pre, e) ==> SameAt(st.fs, s.fs, q)
    ensures Inside(FlatOne(pre, e), s.fs) ==> EnoughOne(e)
    decreases e, 1
  {
    hide Step, Run, Proper, FilesFirst, Within, Flat, Nodes, Enough, LeafNode, Value, SizeField, FsName, Inside;
    if e.Dir? {
      var p := pre + [e.name];
      var nd := Node(TAG_DIR + |pre|, 0, e.name);
      RunCons(st, nd, Nodes(e.entries, |pre| + 1));
      var inside := Step(st, nd).value;
      DirStepped(st, pre, nd);
      assert Ready(e.entries, p, inside);
      RunTook(e.entries, p, inside, s);
      assert s.cwd[..|p|][..|pre|] == s.cwd[..|pre|] && p[..|pre|] == pre;
      DirTook(e, pre, st, inside, s);
    } else {
      assert [LeafNode(e)] + [] == [LeafNode(e)];
      RunCons(st, LeafNode(e), []);
      RunStop(Step(st, LeafNode(e)).value);
      LeafTook(e, pre, st, s);
    }
  }

  lemma RunCons(st: State, nd: Node, ns: seq<Node>)
    requires Run(st, [nd] + ns).Some?
    ensures Step(st, nd).Some? && Run(st, [nd] + ns) == Run(Step(st, nd).value, ns)
  {
    hide Step;
    assert ([nd] + ns)[1..] == ns;
  }

  lemma RunStop(st: State)
    ensures Run(st, []) == Some(st)
  {
  }

  lemma DirStepped(st: State, pre: Path, nd: Node)
    requires nd.IsDir() && nd.Level() == |pre| && |pre| <= |st.cwd| && st.cwd[..|pre|] == pre && Step(st, nd).Some?
    ensures Step(st, nd).value == State(pre + [nd.name], st.fs[pre + [nd.name] := ADir], st.rest)
  {
  }

  lemma DirTook(e: Entry, pre: Path, st: State, inside: State, s: State)
    requires e.Dir? && inside.fs == st.fs[pre + [e.name] := ADir]
    requires forall q :: q !in Flat(pre + [e.name], e.entries) ==> SameAt(inside.fs, s.fs, q)
    ensures forall q :: q !in FlatOne(pre, e) ==> SameAt(st.fs, s.fs, q)
    ensures Inside(FlatOne(pre, e), s.fs) ==> Inside(Flat(pre + [e.name], e.entries), s.fs)
  {
    hide Flat;
    var p, below := pre + [e.name], Flat(pre + [e.name], e.entries);
    assert FlatOne(pre, e) == map[p := ADir] + below;
    forall q | q !in FlatOne(pre, e) ensures SameAt(st.fs, s.fs, q) {
      assert SameAt(inside.fs, s.fs, q);
    }
    if Inside(FlatOne(pre, e), s.fs) {
      forall q | q in below ensures q in s.fs && s.fs[q] == below[q] {
        assert q in FlatOne(pre, e) && FlatOne(pre, e)[q] == below[q];
      }
    }
  }

  lemma {:induction false} Until0Short(s: seq<byte>)
    ensures |Until0(s)| <= |s|
  {
    if s != [] { Until0Short(s[1..]); }
  }

  lemma LeafTook(e: Entry, pre: Path, st: State, s: State)
    requires !e.Dir? && st.cwd == pre && Step(st, LeafNode(e)) == Some(s)
    ensures s.cwd == pre && |s.rest| + Value(SizeField(e)) == |st.rest|
    ensures forall q :: q !in FlatOne(pre, e) ==> SameAt(st.fs, s.fs, q)
    ensures Inside(FlatOne(pre, e), s.fs) ==> Value(SizeField(e)) >= |Payload(e)|
  {
    hide SizeField, Value;
    FieldLength(e);
    var nd := LeafNode(e);
    var p := pre + [e.name];
    assert Kind(nd.bits) == Tag(e);
    assert FlatOne(pre, e) == map[p := ItemOf(e)] && p in FlatOne(pre, e);
    Until0Short(st.rest[..nd.size]);
  }

  /** Replaying the index of a tree over its own content, in an empty directory,
      rebuilds exactly that tree if and only if all recorded sizes are real. */
  lemma RunIff(es: seq<Entry>)
    requires Proper(es) && Dumps(es) && FilesFirst(es) && Within(es, MAXDEPTH)
    ensures var r := Run(State([], map[], Data(es)), Nodes(es, 0));
      r.Some? && r.value.fs == Flat([], es) <==> Exact(es)
  {
    hide Run, Nodes, Flat, Proper, Dumps, FilesFirst, Within, Exact, Data, Sum, Enough;
    var st := State([], map[], Data(es));
    var r := Run(st, Nodes(es, 0));
    if Exact(es) {
      assert Data(es) == Data(es) + [];
      assert VacantFor(st.fs, [], es);
      var cwd := RunTree(es, [], st, []);
      assert map[] + Flat([], es) == Flat([], es);
    }
    if r.Some? && r.value.fs == Flat([], es) {
      assert Ready(es, [], st);
      RunTook(es, [], st, r.value);
      EnoughIsExact(es);
    }
  }
}
