/** Validation of a package index (src/ctool/ctool_lib_index.c).  Each name is
    compared with one remembered neighbour only; that is enough to keep all
    full paths apart. */
module CtoolIndex {
  import opened Basics
  import opened Arith
  import opened PacIndex
  import opened PathWalk

  const MAXDEPTH := 8

  datatype Status = More | Done | Fail

  predicate GoodChars(n: Name) {
    forall i :: 0 <= i < |n| ==> n[i] >= 0x20 && n[i] != SLASH
  }

  predicate GoodName(n: Name) {
    n != [] && |n| < PAGE && n[0] != DOT && GoodChars(n)
  }

  /** Directories are at most one level below the current one, and not too deep. */
  ghost predicate Shaped(ns: seq<Node>) {
    forall i :: 0 <= i < |ns| && ns[i].IsDir() ==>
      ns[i].Level() <= |Where(ns[..i])| && ns[i].Level() < MAXDEPTH
  }

  ghost predicate GoodNames(ns: seq<Node>) {
    forall i :: 0 <= i < |ns| ==> GoodName(ns[i].name)
  }

  /** Later directories come later in tree order. */
  ghost predicate DirsRise(ns: seq<Node>) {
    forall i, j :: 0 <= i < j < |ns| && ns[i].IsDir() && ns[j].IsDir() ==>
      PathBefore(PathOf(ns, i), PathOf(ns, j))
  }

  ghost predicate LeavesApart(ns: seq<Node>) {
    forall i, j :: 0 <= i < j < |ns| && !ns[i].IsDir() && !ns[j].IsDir() ==>
      PathOf(ns, i) != PathOf(ns, j)
  }

  /** Everything so far lies before the current directory, or in it and not
      past the last leaf. */
  ghost predicate Behind(ns: seq<Node>, i: nat, last: Option<Name>)
    requires i < |ns|
  {
    var here := Where(ns);
    if ns[i].IsDir() then
      PathOf(ns, i) == here || PathBefore(PathOf(ns, i), here)
    else
      || PathBefore(Where(ns[..i]), here)
      || (Where(ns[..i]) == here && last.Some? && (ns[i].name == last.value || Before(ns[i].name, last.value)))
  }

  ghost predicate Ordered(ns: seq<Node>, last: Option<Name>) {
    && DirsRise(ns) && LeavesApart(ns)
    && forall i :: 0 <= i < |ns| ==> Behind(ns, i, last)
  }

  lemma PrefixKept(ns: seq<Node>, nd: Node, i: nat)
    requires i < |ns|
    ensures (ns + [nd])[..i] == ns[..i] && (ns + [nd])[..i + 1] == ns[..i + 1]
    ensures PathOf(ns + [nd], i) == PathOf(ns, i)
  {
    assert (ns + [nd])[..i] == ns[..i] && (ns + [nd])[..i + 1] == ns[..i + 1];
  }

  lemma WhereNext(ns: seq<Node>, nd: Node)
    ensures Where(ns + [nd]) == Enter(Where(ns), nd)
    ensures (ns + [nd])[..|ns|] == ns && (ns + [nd])[..|ns| + 1] == ns + [nd]
  {
    assert (ns + [nd])[..|ns|] == ns && (ns + [nd])[..|ns| + 1] == ns + [nd];
  }

  lemma LeafApart(ns: seq<Node>, i: nat, last: Option<Name>, nd: Node)
    requires i < |ns| && !ns[i].IsDir() && Behind(ns, i, last)
    requires last.Some? ==> Before(last.value, nd.name)
    ensures PathOf(ns, i) != Where(ns) + [nd.name]
    ensures PathBefore(Where(ns[..i]), Where(ns)) || (Where(ns[..i]) == Where(ns) && Before(ns[i].name, nd.name))
  {
    var p, here := Where(ns[..i]), Where(ns);
    if p == here {
      PathBeforeStrict(here);
      if ns[i].name != last.value { BeforeTransitive(ns[i].name, last.value, nd.name); }
      BeforeStrict(nd.name);
      assert (p + [ns[i].name])[|p|] != (here + [nd.name])[|p|];
    } else {
      assert (p + [ns[i].name])[..|p + [ns[i].name]| - 1] == p;
      assert (here + [nd.name])[..|here + [nd.name]| - 1] == here;
    }
  }

  /** A leaf after the last one. */
  lemma AddLeaf(ns: seq<Node>, last: Option<Name>, nd: Node)
    requires Ordered(ns, last) && !nd.IsDir()
    requires last.Some? ==> Before(last.value, nd.name)
    ensures Ordered(ns + [nd], Some(nd.name))
  {
    hide Where, PathOf, PathBefore, Before, Behind;
    var ms := ns + [nd];
    WhereNext(ns, nd);
    forall i | 0 <= i < |ns| ensures PathOf(ms, i) == PathOf(ns, i) { PrefixKept(ns, nd, i); }
    LeafPath(ns, nd);
    forall i | 0 <= i < |ns| && !ns[i].IsDir() ensures PathOf(ns, i) != PathOf(ms, |ns|) {
      LeafApart(ns, i, last, nd);
    }
    forall i | 0 <= i < |ms| ensures Behind(ms, i, Some(nd.name)) {
      if i < |ns| { LeafBehind(ns, i, last, nd); } else { LeafBehindItself(ns, nd); }
    }
  }

  lemma LeafPath(ns: seq<Node>, nd: Node)
    requires !nd.IsDir()
    ensures PathOf(ns + [nd], |ns|) == Where(ns) + [nd.name]
  {
    hide Where;
    WhereNext(ns, nd);
  }

  lemma LeafBehind(ns: seq<Node>, i: nat, last: Option<Name>, nd: Node)
    requires i < |ns| && Behind(ns, i, last) && !nd.IsDir()
    requires last.Some? ==> Before(last.value, nd.name)
    ensures Behind(ns + [nd], i, Some(nd.name))
  {
    hide Where, PathBefore, Before;
    WhereNext(ns, nd);
    PrefixKept(ns, nd, i);
    if !ns[i].IsDir() { LeafApart(ns, i, last, nd); }
  }

  lemma LeafBehindItself(ns: seq<Node>, nd: Node)
    requires !nd.IsDir()
    ensures Behind(ns + [nd], |ns|, Some(nd.name))
  {
    hide Where, PathBefore, Before;
    WhereNext(ns, nd);
  }

  /** A directory inside the current one, or after one of its ancestors or itself. */
  lemma AddDir(ns: seq<Node>, last: Option<Name>, nd: Node)
    requires Ordered(ns, last) && nd.IsDir() && nd.Level() <= |Where(ns)|
    requires nd.Level() < |Where(ns)| ==> Before(Where(ns)[nd.Level()], nd.name)
    ensures Ordered(ns + [nd], None)
  {
    hide Where, PathOf, PathBefore, Before, Behind;
    var ms := ns + [nd];
    WhereNext(ns, nd);
    var here, there := Where(ns), Where(ms);
    PathForward(here, nd.Level(), nd.name);
    DirPath(ns, nd);
    forall i | 0 <= i < |ns| ensures PathOf(ms, i) == PathOf(ns, i) { PrefixKept(ns, nd, i); }
    forall i | 0 <= i < |ns| && ns[i].IsDir() ensures PathBefore(PathOf(ns, i), there) {
      DirForward(ns, i, last, there);
    }
    forall i | 0 <= i < |ms| ensures Behind(ms, i, None) {
      if i < |ns| { DirBehind(ns, i, last, nd); } else { DirBehindItself(ns, nd); }
    }
  }

  lemma DirPath(ns: seq<Node>, nd: Node)
    requires nd.IsDir()
    ensures PathOf(ns + [nd], |ns|) == Where(ns + [nd])
  {
    hide Where;
    WhereNext(ns, nd);
  }

  lemma DirForward(ns: seq<Node>, i: nat, last: Option<Name>, there: Path)
    requires i < |ns| && Behind(ns, i, last) && PathBefore(Where(ns), there)
    ensures PathBefore(if ns[i].IsDir() then PathOf(ns, i) else Where(ns[..i]), there)
  {
    hide Where, PathOf, PathBefore;
    var p := if ns[i].IsDir() then PathOf(ns, i) else Where(ns[..i]);
    if PathBefore(p, Where(ns)) { PathBeforeTransitive(p, Where(ns), there); }
  }

  lemma DirBehind(ns: seq<Node>, i: nat, last: Option<Name>, nd: Node)
    requires i < |ns| && Behind(ns, i, last) && PathBefore(Where(ns), Where(ns + [nd]))
    ensures Behind(ns + [nd], i, None)
  {
    hide Where, PathOf, PathBefore, Before;
    DirForward(ns, i, last, Where(ns + [nd]));
    PrefixKept(ns, nd, i);
  }

  lemma DirBehindItself(ns: seq<Node>, nd: Node)
    requires nd.IsDir()
    ensures Behind(ns + [nd], |ns|, None)
  {
    hide Where, PathBefore;
    DirPath(ns, nd);
  }

  // ------------------------------------------------------------------ one entry

  /** The leaf just before, if there is one in the same directory. */
  ghost function LastLeaf(ns: seq<Node>): Option<Name> {
    if ns == [] || ns[|ns| - 1].IsDir() then None else Some(ns[|ns| - 1].name)
  }

  /** An entry that may come after `ns`. */
  ghost predicate Fits(ns: seq<Node>, nd: Node) {
    && GoodName(nd.name)
    && (nd.IsDir() ==>
          && nd.size == 0 && nd.Level() <= |Where(ns)| && nd.Level() < MAXDEPTH
          && (nd.Level() < |Where(ns)| ==> Before(Where(ns)[nd.Level()], nd.name)))
    && (!nd.IsDir() ==>
          && nd.size < Pow256(nd.bits % 4 + 1)
          && (LastLeaf(ns).Some? ==> Before(LastLeaf(ns).value, nd.name)))
  }

  ghost predicate Admissible(ns: seq<Node>) {
    forall i :: 0 <= i < |ns| ==> Fits(ns[..i], ns[i])
  }

  lemma AdmissibleMore(ns: seq<Node>, nd: Node)
    requires Admissible(ns) && Fits(ns, nd)
    ensures Admissible(ns + [nd])
  {
    hide Fits;
    forall i | 0 <= i < |ns + [nd]| ensures Fits((ns + [nd])[..i], (ns + [nd])[i]) {
      if i < |ns| { PrefixKept(ns, nd, i); } else { WhereNext(ns, nd); }
    }
  }

  lemma GoodIsPlain(n: Name)
    requires GoodChars(n)
    ensures ZeroFree(n) && (n != [] ==> Plain(n))
  {
  }

  class Indexer {
    const b: seq<byte>
    var p: nat
    var last: Option<Name>
    const prev: array<Name>
    const path: array<Name>
    var depth: nat
    var indirs: bool
    var nodes: seq<Node>

    /** Between two entries. */
    ghost predicate Valid()
      reads this, prev, path
    {
      p <= |b| && b[..p] == EncodeAll(nodes) && Stacked()
    }

    /** The stacks hold the current path. */
    ghost predicate Stacked()
      reads this, prev, path
    {
      && Stacks() && !indirs
      && path[..depth] == Where(nodes) && prev[..depth] == Where(nodes)
      && Shaped(nodes) && GoodNames(nodes) && Ordered(nodes, last) && Admissible(nodes)
      && (last.Some? ==> GoodName(last.value)) && last == LastLeaf(nodes)
    }

    ghost predicate Stacks()
      reads this
    {
      prev.Length == MAXDEPTH && path.Length == MAXDEPTH && prev != path && depth <= MAXDEPTH
    }

    /** `init_treeidx`. */
    constructor (b: seq<byte>)
      ensures Valid() && this.b == b && nodes == [] && fresh(prev) && fresh(path)
    {
      this.b := b;
      p, last, depth, indirs, nodes := 0, None, 0, false, [];
      prev := new Name[MAXDEPTH](_ => []);
      path := new Name[MAXDEPTH](_ => []);
    }

    /** `parse_size`: one to four bytes, low byte first. */
    method ParseSize(bits: byte) returns (ok: bool, size: nat)
      requires p <= |b|
      modifies this`p
      ensures ok <==> old(p) + bits % 4 + 1 <= |b|
      ensures ok ==> p == old(p) + bits % 4 + 1 && size == Value(b[old(p)..p])
    {
      var n: nat := bits % 4;
      if p + n + 1 > |b| { return false, 0; }
      ghost var s := b[p..p + n + 1];
      size := b[p];
      if n > 0 { size := size + Shifted(b[p + 1], 0x100); }
      if n > 1 { size := size + Shifted(b[p + 2], 0x1_0000); }
      if n > 2 { size := size + Shifted(b[p + 3], 0x100_0000); }
      assert size == Value(s) by { ValueShort(s); }
      p := p + n + 1;
      ok := true;
    }

    /** `parse_name`: up to the zero, within a page. */
    method ParseName() returns (ok: bool, name: Name)
      requires p <= |b|
      modifies this`p
      ensures ok ==> old(p) < p <= |b| && b[old(p)..p] == name + [0] && |name| < PAGE && ZeroFree(name)
      ensures !ok ==> forall k :: old(p) <= k < |b| && k < old(p) + PAGE ==> b[k] != 0
    {
      var start := p;
      var e := if |b| > p + PAGE then p + PAGE else |b|;
      var q := p;
      while q < e && b[q] != 0
        invariant start <= q <= e
        invariant forall k :: start <= k < q ==> b[k] != 0
      {
        q := q + 1;
      }
      if q >= e { return false, []; }
      name := b[start..q];
      p := q + 1;
      ok := true;
    }

    /** `validate_name`: remembers the name if it is fit and in order. */
    method ValidateName(name: Name) returns (ok: bool)
      requires |name| < PAGE && ZeroFree(name) && (last.Some? ==> ZeroFree(last.value))
      modifies this`last
      ensures ok <==> GoodName(name) && (old(last).Some? ==> Before(old(last).value, name))
      ensures ok ==> last == Some(name) && name[0] != 46 && forall i :: 0 <= i < |name| ==> name[i] != 47
    {
      if name == [] { return false; }
      if name[0] == DOT { return false; }
      var i := 0;
      while i < |name| && name[i] >= 0x20 && name[i] != SLASH
        invariant 0 <= i <= |name|
        invariant forall k :: 0 <= k < i ==> name[k] >= 0x20 && name[k] != SLASH
      {
        i := i + 1;
      }
      if i < |name| { return false; }
      if last.Some? {
        StrcmpMeans(last.value, name);
        if Strcmp(last.value, name) >= 0 { return false; }
      }
      last := Some(name);
      ok := true;
    }

    /** `rewind_path`: back to a directory of the path, whose last child is
        then the neighbour to compare with. */
    method RewindPath(todepth: nat) returns (ok: bool)
      requires Stacked()
      modifies this`last, this`indirs, this`depth
      ensures ok <==> todepth <= old(depth)
      ensures ok ==> depth == todepth && last == if todepth == old(depth) then None else Some(Where(nodes)[todepth])
    {
      if !indirs {
        last := None;
        indirs := true;
      }
      if todepth > depth { return false; }
      if todepth == depth { return true; }
      depth := todepth;
      last := Some(prev[todepth]);
      assert prev[todepth] == prev[..old(depth)][todepth];
      ok := true;
    }

    /** `enter_dir`. */
    method EnterDir(name: Name) returns (ok: bool)
      requires Stacks()
      modifies this`depth, this`last, this`indirs, prev, path
      ensures ok <==> old(depth) < MAXDEPTH
      ensures ok ==> depth == old(depth) + 1 && last == None && !indirs
      ensures ok ==> path[..depth] == old(path[..depth]) + [name] && prev[..depth] == old(prev[..depth]) + [name]
    {
      if depth >= MAXDEPTH { return false; }
      path[depth] := name;
      prev[depth] := name;
      depth := depth + 1;
      last := None;
      indirs := false;
      ok := true;
    }

    /** The rest of `take_node` for a leaf. */
    method TakeLeaf(ghost start: nat, lead: byte, ghost want: Node) returns (r: Status)
      requires Stacked() && start < |b| && p == start + 1 && b[start] == lead && lead < TAG_DIR
      requires b[..start] == EncodeAll(nodes)
      modifies this`p, this`last, this`nodes
      ensures r != Fail ==> Valid()
      ensures r != Done && (r == More ==> start < p)
      ensures Has(b, start, EncodeNode(want)) && Fits(old(nodes), want) ==> r == More && nodes == old(nodes) + [want]
    {
      hide Where, Shaped, GoodNames, Admissible, Ordered, EncodeAll, EncodeNode, GoodChars;
      hide Before, Little, Value, Has, ZeroFree, Pow256;
      ghost var wanted := Has(b, start, EncodeNode(want)) && Fits(nodes, want);
      if wanted {
        EntryParts(b, start, want);
        if want.bits == lead { SizeFound(b, p, lead % 4 + 1, want.size); }
      }
      var ok, size, name;
      ok, size := ParseSize(lead);
      if !ok { return Fail; }
      ghost var mid := p;
      if wanted { NameFound(b, p, want.name); }
      ok, name := ParseName();
      if !ok { return Fail; }
      NameRead(b, mid, p, name);
      if wanted {
        GoodIsPlain(want.name);
        NameUnique(b, mid, name, want.name);
      }
      ghost var before := last;
      if last.Some? { GoodIsPlain(last.value); }
      ok := ValidateName(name);
      if !ok { return Fail; }
      ghost var nd := Node(lead, size, name);
      LittleValue(b[start + 1..mid]);
      ValueBound(b[start + 1..mid]);
      LeafBytes(b, start, mid, p, nd);
      Appended(b, start, p, nodes, nd);
      AdmissibleMore(nodes, nd);
      AddLeaf(nodes, before, nd);
      WhereNext(nodes, nd);
      nodes := nodes + [Node(lead, size, name)];
      return More;
    }

    /** The rest of `take_node` for a directory, after the rewind. */
    method TakeDir(ghost start: nat, lead: byte, ghost before: Option<Name>, ghost here: Path, ghost want: Node)
      returns (r: Status)
      requires Stacks() && start < |b| && p == start + 1 && b[start] == lead && lead >= TAG_DIR
      requires b[..start] == EncodeAll(nodes)
      requires Shaped(nodes) && GoodNames(nodes) && Ordered(nodes, before) && Admissible(nodes) && here == Where(nodes)
      requires depth == lead - TAG_DIR <= |here| && path[..depth] == here[..depth] && prev[..depth] == here[..depth]
      requires last == if depth == |here| then None else Some(here[depth])
      modifies this`p, this`last, this`indirs, this`depth, this`nodes, prev, path
      ensures r != Fail ==> Valid()
      ensures r != Done && (r == More ==> start < p)
      ensures Has(b, start, EncodeNode(want)) && Fits(old(nodes), want) ==> r == More && nodes == old(nodes) + [want]
    {
      hide Where, Shaped, GoodNames, Admissible, Ordered, EncodeAll, EncodeNode, GoodChars;
      hide Before, Little, Has, ZeroFree;
      ghost var wanted := Has(b, start, EncodeNode(want)) && Fits(nodes, want);
      if wanted {
        EntryParts(b, start, want);
        NameFound(b, p, want.name);
      }
      var ok, name;
      ok, name := ParseName();
      if !ok { return Fail; }
      NameRead(b, start + 1, p, name);
      if wanted {
        GoodIsPlain(want.name);
        NameUnique(b, start + 1, name, want.name);
      }
      if last.Some? {
        WhereGood(nodes, depth);
        GoodIsPlain(last.value);
      }
      ok := ValidateName(name);
      if !ok { return Fail; }
      ok := EnterDir(name);
      if !ok { return Fail; }
      ghost var nd := Node(lead, 0, name);
      DirBytes(b, start, p, nd);
      Appended(b, start, p, nodes, nd);
      AdmissibleMore(nodes, nd);
      AddDir(nodes, before, nd);
      WhereNext(nodes, nd);
      nodes := nodes + [Node(lead, 0, name)];
      return More;
    }

    /** `take_node`. */
    method TakeNode(ghost want: Node) returns (r: Status)
      requires Valid()
      modifies this`p, this`last, this`indirs, this`depth, this`nodes, prev, path
      ensures r != Fail ==> Valid()
      ensures r == Done <==> old(p) >= |b|
      ensures r == Done ==> nodes == old(nodes)
      ensures r == More ==> old(p) < p
      ensures Has(b, old(p), EncodeNode(want)) && Fits(old(nodes), want) ==> r == More && nodes == old(nodes) + [want]
    {
      hide Has, EncodeNode, Where, Shaped, GoodNames, Ordered, EncodeAll, GoodName, Before, Little;
      if Has(b, p, EncodeNode(want)) { EntryParts(b, p, want); }
      if p >= |b| { return Done; }
      var start := p;
      var lead := b[p];
      p := p + 1;
      if lead >= TAG_DIR {
        var level: nat := lead - TAG_DIR;
        var ok := RewindPath(level);
        if !ok { return Fail; }
        r := TakeDir(start, lead, old(last), path[..old(depth)], want);
      } else {
        r := TakeLeaf(start, lead, want);
      }
    }
  }

  lemma {:induction false} WhereGood(ns: seq<Node>, k: nat)
    requires GoodNames(ns) && k < |Where(ns)|
    ensures GoodName(Where(ns)[k])
    decreases |ns|
  {
    hide GoodName;
    var ms, nd := ns[..|ns| - 1], ns[|ns| - 1];
    if k < |Where(ms)| { WhereGood(ms, k); }
  }

  lemma NameRead(b: seq<byte>, at: nat, p: nat, name: Name)
    requires at < p <= |b| && b[at..p] == name + [0]
    ensures Has(b, at, name + [0])
  {
    assert |b[at..p]| == p - at == |name| + 1;
  }

  lemma LeafBytes(b: seq<byte>, start: nat, mid: nat, p: nat, nd: Node)
    requires start < mid <= p <= |b| && !nd.IsDir() && b[start] == nd.bits
    requires b[start + 1..mid] == Little(nd.bits % 4 + 1, nd.size) && b[mid..p] == nd.name + [0]
    ensures b[start..p] == EncodeNode(nd)
  {
    hide Little;
    assert b[start..p] == [b[start]] + b[start + 1..mid] + b[mid..p];
  }

  lemma DirBytes(b: seq<byte>, start: nat, p: nat, nd: Node)
    requires start < p <= |b| && nd.IsDir() && b[start] == nd.bits && b[start + 1..p] == nd.name + [0]
    ensures b[start..p] == EncodeNode(nd)
  {
    assert b[start..p] == [b[start]] + b[start + 1..p];
  }

  lemma Appended(b: seq<byte>, start: nat, p: nat, ns: seq<Node>, nd: Node)
    requires start <= p <= |b| && b[..start] == EncodeAll(ns) && b[start..p] == EncodeNode(nd)
    requires Shaped(ns) && GoodNames(ns) && GoodName(nd.name)
    requires nd.IsDir() ==> nd.Level() <= |Where(ns)| && nd.Level() < MAXDEPTH
    ensures b[..p] == EncodeAll(ns + [nd]) && Shaped(ns + [nd]) && GoodNames(ns + [nd])
  {
    hide Where, EncodeNode, GoodName;
    EncodeAllAppend(ns, [nd]);
    EncodeOne(nd);
    assert b[..p] == b[..start] + b[start..p];
    forall i | 0 <= i < |ns + [nd]| && (ns + [nd])[i].IsDir()
      ensures (ns + [nd])[i].Level() <= |Where((ns + [nd])[..i])| && (ns + [nd])[i].Level() < MAXDEPTH
    {
      if i < |ns| { PrefixKept(ns, nd, i); } else { WhereNext(ns, nd); }
    }
  }

  // ----------------------------------------------------------------- whole index

  /** The texts of all directories differ, and so do those of all leaves. */
  ghost predicate PathsApart(ns: seq<Node>) {
    forall i, j :: 0 <= i < j < |ns| && ns[i].IsDir() == ns[j].IsDir() ==>
      PathOf(ns, i) != [] && PathOf(ns, j) != [] && Text(PathOf(ns, i)) != Text(PathOf(ns, j))
  }

  lemma PathOfGood(ns: seq<Node>, i: nat)
    requires GoodNames(ns) && Shaped(ns) && i < |ns|
    ensures PathOf(ns, i) != [] && forall k :: 0 <= k < |PathOf(ns, i)| ==> GoodName(PathOf(ns, i)[k])
  {
    hide GoodName, Where;
    var p := PathOf(ns, i);
    var j := if ns[i].IsDir() then i + 1 else i;
    var ms := ns[..j];
    if ns[i].IsDir() {
      WhereNext(ns[..i], ns[i]);
      assert ms == ns[..i] + [ns[i]];
    }
    forall k | 0 <= k < |p| ensures GoodName(p[k]) {
      if k < |Where(ms)| { WhereGood(ms, k); }
    }
  }

  lemma PathOfPlain(ns: seq<Node>, i: nat)
    requires GoodNames(ns) && Shaped(ns) && i < |ns|
    ensures PathOf(ns, i) != [] && PlainPath(PathOf(ns, i))
  {
    hide GoodName, PathOf, GoodNames, Shaped;
    PathOfGood(ns, i);
    var p := PathOf(ns, i);
    forall n | n in p ensures Plain(n) {
      var k :| 0 <= k < |p| && p[k] == n;
      GoodNamePlain(p[k]);
    }
  }

  lemma GoodNamePlain(n: Name)
    requires GoodName(n)
    ensures Plain(n)
  {
  }

  /** Not empty, under 4096 bytes, no dot in front, no slash and no control
      character. */
  lemma GoodNameMeans(n: Name)
    ensures GoodName(n) <==>
      0 < |n| < 4096 && n[0] != 46 && forall i :: 0 <= i < |n| ==> n[i] != 47 && n[i] >= 32
  {
  }

  /** Whatever directory a package is unpacked into, no path of it leads out. */
  ghost predicate PathsInside(ns: seq<Node>) {
    forall i :: 0 <= i < |ns| ==> ns[i].name != [] && ns[i].name[0] != 46 && StaysInside(PathOf(ns, i))
  }

  lemma GoodInside(ns: seq<Node>)
    requires GoodNames(ns) && Shaped(ns)
    ensures PathsInside(ns)
  {
    hide GoodName, PathOf, StaysInside, Shaped;
    forall i | 0 <= i < |ns| ensures ns[i].name != [] && ns[i].name[0] != 46 && StaysInside(PathOf(ns, i)) {
      assert GoodName(ns[i].name);
      GoodNameMeans(ns[i].name);
      PathOfGood(ns, i);
      GoodPathStays(PathOf(ns, i));
    }
  }

  lemma GoodPathStays(p: Path)
    requires p != [] && forall k :: 0 <= k < |p| ==> GoodName(p[k])
    ensures StaysInside(p)
  {
    hide StaysInside, GoodName;
    forall k | 0 <= k < |p| ensures Straight(p[k]) { GoodNameMeans(p[k]); }
    StraightStays(p);
  }

  lemma OrderedApart(ns: seq<Node>, last: Option<Name>)
    requires GoodNames(ns) && Shaped(ns) && Ordered(ns, last)
    ensures PathsApart(ns)
  {
    hide GoodNames, Shaped, PathOf, Behind, PathBefore, Text, PlainPath;
    forall i, j | 0 <= i < j < |ns| && ns[i].IsDir() == ns[j].IsDir()
      ensures PathOf(ns, i) != [] && PathOf(ns, j) != [] && Text(PathOf(ns, i)) != Text(PathOf(ns, j))
    {
      PathOfPlain(ns, i);
      PathOfPlain(ns, j);
      var p, q := PathOf(ns, i), PathOf(ns, j);
      PathBeforeStrict(p);
      assert p != q;
      if Text(p) == Text(q) { TextInjective(p, q); }
    }
  }

  lemma NotDeep(ns: seq<Node>)
    requires Shaped(ns)
    ensures forall i :: 0 <= i < |ns| && ns[i].bits >= 128 ==> ns[i].bits - 128 < 8
  {
    hide Where;
  }

  /** `index_nodes`: exactly the encodings of admissible lists are accepted,
      no two directories and no two leaves of an accepted one have the same full
      path, and no path of it leads out of where it is unpacked. */
  method IndexNodes(b: seq<byte>, ghost want: seq<Node>) returns (ok: bool, nodes: seq<Node>)
    ensures ok ==> nodes != [] && EncodeAll(nodes) == b
    ensures ok ==> Shaped(nodes) && GoodNames(nodes) && Admissible(nodes)
    ensures ok ==> PathsApart(nodes) && PathsInside(nodes)
    ensures ok ==> forall i :: 0 <= i < |nodes| && nodes[i].bits >= 128 ==> nodes[i].bits - 128 < 8
    ensures want != [] && Admissible(want) && b == EncodeAll(want) ==> ok && nodes == want
  {
    hide Shaped, GoodNames, PathsApart, PathsInside, Ordered, EncodeAll, EncodeNode, Where, Fits, Has;
    var ix := new Indexer(b);
    var r := More;
    ghost var wanted := want != [] && Admissible(want) && b == EncodeAll(want);
    while r == More
      invariant fresh(ix) && fresh(ix.prev) && fresh(ix.path) && ix.b == b
      invariant r != Fail ==> ix.Valid()
      invariant r == Done ==> ix.p == |b|
      invariant wanted ==> r != Fail && |ix.nodes| <= |want| && ix.nodes == want[..|ix.nodes|]
      decreases r == More, |b| - ix.p
    {
      ghost var k := |ix.nodes|;
      ghost var next := if k < |want| then want[k] else Node(0, 0, []);
      assert b[..ix.p] == EncodeAll(ix.nodes);
      if wanted && k < |want| {
        EncodeFront(want, k);
        assert want[..k] + [want[k]] == want[..k + 1];
      } else if wanted {
        assert want[..k] == want;
      }
      r := ix.TakeNode(next);
    }
    nodes := ix.nodes;
    assert r == Done ==> b[..|b|] == b;
    if wanted {
      EncodeShort(want, |nodes|);
      assert want[..|nodes|] == want;
    }
    if r == Fail || nodes == [] { return false, nodes; }
    OrderedApart(nodes, ix.last);
    GoodInside(nodes);
    NotDeep(nodes);
    ok := true;
  }
}
