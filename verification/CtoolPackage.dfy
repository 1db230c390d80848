/** From a package index to the removal of its files: the three stages of
    src/ctool put together. */
module CtoolPackage {
  import opened Basics
  import opened PacIndex
  import opened PathWalk
  import opened CtoolIndex
  import opened CtoolList
  import opened CtoolRemove

  lemma {:induction false} DepthBound(ns: seq<Node>)
    requires Shaped(ns)
    ensures |Where(ns)| <= MAXDEPTH
  {
    if ns != [] {
      var ms, nd := ns[..|ns| - 1], ns[|ns| - 1];
      ShapedInit(ns);
      DepthBound(ms);
    }
  }

  lemma ShapedInit(ns: seq<Node>)
    requires Shaped(ns) && ns != []
    ensures Shaped(ns[..|ns| - 1])
    ensures ns[|ns| - 1].IsDir() ==> ns[|ns| - 1].Level() <= |Where(ns[..|ns| - 1])| && ns[|ns| - 1].Level() < MAXDEPTH
  {
    hide Where;
    var ms := ns[..|ns| - 1];
    forall i | 0 <= i < |ms| ensures ms[..i] == ns[..i] && ms[i] == ns[i] { }
  }

  /** Every line of a listing is fit for the remover. */
  lemma {:induction false} LeavesListed(ns: seq<Node>)
    requires Shaped(ns) && GoodNames(ns)
    ensures forall i :: 0 <= i < |Leaves(ns)| ==> Listed(Leaves(ns)[i])
  {
    hide GoodName, Where;
    if ns != [] {
      var ms, nd := ns[..|ns| - 1], ns[|ns| - 1];
      ShapedInit(ns);
      LeavesListed(ms);
      DepthBound(ms);
      if !nd.IsDir() {
        var l := Where(ms) + [nd.name];
        forall i | 0 <= i < |l| ensures GoodName(l[i]) {
          if i < |Where(ms)| { WhereGood(ms, i); }
        }
        assert Listed(l);
      }
    }
  }

  /** A line of the listing is the path of some leaf. */
  lemma {:induction false} LeafOf(ns: seq<Node>, m: nat) returns (i: nat)
    requires m < |Leaves(ns)|
    ensures i < |ns| && !ns[i].IsDir() && PathOf(ns, i) == Leaves(ns)[m]
    decreases |ns|
  {
    var ms, nd := ns[..|ns| - 1], ns[|ns| - 1];
    assert ns == ms + [nd];
    if m < |Leaves(ms)| {
      i := LeafOf(ms, m);
      PrefixKept(ms, nd, i);
    } else {
      i := |ms|;
      LeafPath(ms, nd);
    }
  }

  lemma LeavesInside(ns: seq<Node>)
    requires PathsInside(ns)
    ensures forall i :: 0 <= i < |Leaves(ns)| ==> StaysInside(Leaves(ns)[i])
  {
    hide StaysInside, PathOf;
    forall m | 0 <= m < |Leaves(ns)| ensures StaysInside(Leaves(ns)[m]) {
      var i := LeafOf(ns, m);
    }
  }

  lemma ApartInit(ns: seq<Node>)
    requires PathsApart(ns) && ns != []
    ensures PathsApart(ns[..|ns| - 1])
  {
    hide PathOf, Text;
    var ms, nd := ns[..|ns| - 1], ns[|ns| - 1];
    assert ns == ms + [nd];
    forall i | 0 <= i < |ms| ensures PathOf(ms, i) == PathOf(ns, i) && ms[i] == ns[i] { PrefixKept(ms, nd, i); }
  }

  lemma {:induction false} LeavesDistinct(ns: seq<Node>)
    requires PathsApart(ns)
    ensures forall i, j :: 0 <= i < j < |Leaves(ns)| ==> Leaves(ns)[i] != Leaves(ns)[j]
  {
    hide PathOf, Text, Where, PathsApart;
    if ns != [] {
      var ms, nd := ns[..|ns| - 1], ns[|ns| - 1];
      assert ns == ms + [nd];
      ApartInit(ns);
      LeavesDistinct(ms);
      if !nd.IsDir() {
        LeafPath(ms, nd);
        forall m | 0 <= m < |Leaves(ms)| ensures Leaves(ms)[m] != Where(ms) + [nd.name] {
          var i := LeafOf(ms, m);
          PrefixKept(ms, nd, i);
          ApartLeaves(ns, i, |ms|);
        }
      }
    }
  }

  lemma ApartLeaves(ns: seq<Node>, i: nat, j: nat)
    requires PathsApart(ns) && i < j < |ns| && !ns[i].IsDir() && !ns[j].IsDir()
    ensures PathOf(ns, i) != PathOf(ns, j)
  {
  }

  /** Removing distinct files that are all there removes each, in order. */
  lemma {:induction false} RemovedAll(files: set<Path>, lines: seq<Path>)
    requires forall i, j :: 0 <= i < j < |lines| ==> lines[i] != lines[j]
    requires forall i :: 0 <= i < |lines| ==> lines[i] in files
    ensures Removed(files, lines) == lines
  {
    if lines != [] {
      var init, l := lines[..|lines| - 1], lines[|lines| - 1];
      RemovedAll(files, init);
      RemainingMinus(files, init, l);
    }
  }

  lemma {:induction false} RemainingMinus(files: set<Path>, lines: seq<Path>, p: Path)
    ensures p in Remaining(files, lines) <==> p in files && p !in lines
  {
    if lines != [] {
      RemainingMinus(files, lines[..|lines| - 1], p);
      assert lines == lines[..|lines| - 1] + [lines[|lines| - 1]];
    }
  }

  /** A file in the tree never blocks another one. */
  lemma {:induction false} AncestorIsDir(fs: Fs, p: Path, k: nat)
    requires Tree(fs) && k <= |p| && (p in fs.dirs || (p in fs.files && k < |p|))
    ensures p[..k] in fs.dirs
    decreases |p|
  {
    if k == |p| {
      assert p[..k] == p;
    } else {
      AncestorIsDir(fs, Parent(p), k);
      assert Parent(p)[..k] == p[..k];
    }
  }

  lemma {:induction false} PresentClear(fs: Fs, lines: seq<Path>)
    requires Tree(fs) && forall i :: 0 <= i < |lines| ==> lines[i] in fs.files
    ensures Clear(fs, lines)
  {
    hide Tree, Turn, Blocked;
    if lines != [] {
      var init, l := lines[..|lines| - 1], lines[|lines| - 1];
      PresentClear(fs, init);
      PresentNotEmpty(fs, lines);
      TurnKeeps(fs, init, l);
      NothingBars(fs, Turn(fs, init, l), init, l);
    }
  }

  lemma PresentNotEmpty(fs: Fs, lines: seq<Path>)
    requires Tree(fs) && forall i :: 0 <= i < |lines| ==> lines[i] in fs.files
    ensures forall i :: 0 <= i < |lines| ==> lines[i] != []
  {
  }

  /** On the way to a file there are only directories, with names not too long. */
  lemma NothingBars(fs: Fs, now: Fs, before: seq<Path>, l: Path)
    requires Tree(fs) && l in fs.files && now.longest == fs.longest && now.files == Remaining(fs.files, before)
    ensures !Blocked(now, l)
  {
    hide Remaining;
    forall j | 1 <= j < |l| ensures !Bars(now, l[..j]) {
      AncestorIsDir(fs, l, j);
      RemainingMinus(fs.files, before, l[..j]);
      assert Last(l[..j]) == l[j - 1];
    }
  }

  /** Whatever an accepted package lists: when its files are all installed, the
      remover reads its list and removes exactly them, each once, in index order.
      None of their paths leads out of the directory the package is in.
      Of the directories it removes only ones on the way to a listed file, and
      below the top exactly those that are empty in the end. */
  method RemoveInstalled(index: seq<byte>, k: Kernel, ghost want: seq<Node>)
    returns (listed: bool, ok: bool, nodes: seq<Node>)
    requires k.Valid() && k.open == map[] && k.opens == k.closes
    modifies k
    ensures listed && !ok ==> exists i :: 0 <= i < |Leaves(nodes)| && Leaves(nodes)[i] !in old(k.fs.files)
    ensures listed && ok ==> k.fs.files == old(k.fs.files) - set l | l in Leaves(nodes)
    ensures listed && ok && (forall i :: 0 <= i < |Leaves(nodes)| ==> Leaves(nodes)[i] in old(k.fs.files))
      ==> k.log == old(k.log) + Leaves(nodes)
    ensures listed && ok ==> k.opens == k.closes
    ensures listed && ok ==> SweptBy(old(k.fs), k.fs, Leaves(nodes)) && Tidy(k.fs, Leaves(nodes), [])
    ensures !listed ==> k.fs == old(k.fs)
    ensures listed ==> forall i :: 0 <= i < |Leaves(nodes)| ==> StaysInside(Leaves(nodes)[i])
    ensures listed ==> nodes != [] && Admissible(nodes) && index == EncodeAll(nodes) && |Listing(nodes)| + 4 < INT_LIMIT
    ensures want != [] && Admissible(want) && index == EncodeAll(want) && |Listing(want)| + 4 < INT_LIMIT ==>
      listed && nodes == want
  {
    hide Leaves, Render, Text, Shaped, GoodNames, PathsApart, Admissible, EncodeAll, Clear, Remaining;
    hide Removed, SweptBy, Tidy, Tree, Listed, After, Popped, Turn, Cwd, Blocked;
    hide StaysInside, PathsInside;
    ok := false;
    listed, nodes := IndexNodes(index, want);
    if !listed { return; }
    var list;
    listed, list := WriteFiledb(nodes);
    if !listed { return; }
    ghost var lines := Leaves(nodes);
    var buf := new byte[|list|](i requires 0 <= i < |list| => list[i]);
    assert buf[..] == Render(lines);
    var rm := new Remover(k, buf);
    LeavesListed(nodes);
    LeavesInside(nodes);
    LeavesDistinct(nodes);
    ghost var fs0 := k.fs;
    ghost var j;
    ok, j := rm.UnlinkFiles(lines);
    if ok { assert lines[..j] == lines; }
    forall p ensures p in Remaining(fs0.files, lines) <==> p in fs0.files && p !in lines {
      RemainingMinus(fs0.files, lines, p);
    }
    if forall i :: 0 <= i < |lines| ==> lines[i] in fs0.files {
      PresentClear(fs0, lines);
      RemovedAll(fs0.files, lines);
    }
  }
}
