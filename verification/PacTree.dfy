/** What an archive stands for: a directory tree, its index entries and its
    content, and what the entries rebuild when replayed in order
    (src/mpac/mpac_create.c, src/mpac/mpac_extract.c). */
module PacTree {
  import opened Basics
  import opened Arith
  import opened PacIndex
  import opened PathWalk

  const MAXDEPTH := 32
  const TAG_FILE := 4
  const TAG_EXEC := 8
  const TAG_LINK := 12

  /** An entry of a directory; `at` is where the scan put the index of a
      directory, and says nothing about the tree. */
  datatype Entry =
    | File(name: Name, exec: bool, data: seq<byte>)
    | Link(name: Name, target: seq<byte>)
    | Dir(name: Name, entries: seq<Entry>, at: u32)

  /** What a path can be found to be. */
  datatype Item = AFile(exec: bool, data: seq<byte>) | ALink(target: seq<byte>) | ADir

  function ItemOf(e: Entry): Item {
    match e
    case File(_, x, d) => AFile(x, d)
    case Link(_, t) => ALink(t)
    case Dir(_, _, _) => ADir
  }

  // --------------------------------------------------------------------- trees

  predicate DotDdot(n: Name) { n == [DOT] || n == [DOT, DOT] }

  /** A name as the kernel allows it. */
  ghost predicate FsName(n: Name) {
    n != [] && ZeroFree(n) && !DotDdot(n) && forall i :: 0 <= i < |n| ==> n[i] != SLASH
  }

  lemma FsNameMeans(n: Name)
    ensures FsName(n) <==> Straight(n) && 0 !in n
  {
  }

  ghost predicate Distinct(es: seq<Entry>) {
    forall i, j :: 0 <= i < j < |es| ==> es[i].name != es[j].name
  }

  /** A tree as it can stand in a file system. */
  ghost predicate Proper(es: seq<Entry>)
    decreases es
  {
    && Distinct(es)
    && forall i :: 0 <= i < |es| ==> ProperEntry(es[i])
  }

  ghost predicate ProperEntry(e: Entry)
    decreases e
  {
    && FsName(e.name)
    && (e.Link? ==> e.target != [] && ZeroFree(e.target))
    && (e.Dir? ==> Proper(e.entries))
  }

  /** Directories nested at most `h` deep. */
  ghost predicate Within(es: seq<Entry>, h: int)
    decreases es
  {
    forall i :: 0 <= i < |es| && es[i].Dir? ==> h > 0 && Within(es[i].entries, h - 1)
  }

  /** Every entry at every depth is `ok`. */
  ghost predicate Every(es: seq<Entry>, ok: Entry -> bool)
    decreases es
  {
    forall i :: 0 <= i < |es| ==> ok(es[i]) && (es[i].Dir? ==> Every(es[i].entries, ok))
  }

  /** `p` leads to `it`, whatever the order of the entries. */
  ghost predicate Holds(es: seq<Entry>, p: Path, it: Item)
    decreases |p|
  {
    && p != []
    && exists e :: e in es && e.name == p[0] &&
         if |p| == 1 then it == ItemOf(e) else e.Dir? && Holds(e.entries, p[1..], it)
  }

  /** The tree spread out below `pre`. */
  ghost function Flat(pre: Path, es: seq<Entry>): map<Path, Item>
    decreases es
  {
    if es == [] then map[] else FlatOne(pre, es[0]) + Flat(pre, es[1..])
  }

  ghost function FlatOne(pre: Path, e: Entry): map<Path, Item>
    decreases e
  {
    map[pre + [e.name] := ItemOf(e)] + (if e.Dir? then Flat(pre + [e.name], e.entries) else map[])
  }

  ghost predicate Under(pre: Path, p: Path) { |pre| < |p| && p[..|pre|] == pre }

  lemma {:induction false} FlatUnder(pre: Path, es: seq<Entry>, p: Path)
    requires p in Flat(pre, es)
    ensures Under(pre, p) && exists i :: 0 <= i < |es| && es[i].name == p[|pre|]
    decreases es
  {
    if p in Flat(pre, es[1..]) {
      FlatUnder(pre, es[1..], p);
      var i :| 0 <= i < |es[1..]| && es[1..][i].name == p[|pre|];
      assert es[i + 1].name == p[|pre|];
    } else {
      FlatOneUnder(pre, es[0], p);
    }
  }

  lemma {:induction false} FlatOneUnder(pre: Path, e: Entry, p: Path)
    requires p in FlatOne(pre, e)
    ensures Under(pre, p) && p[|pre|] == e.name
    decreases e
  {
    var q := pre + [e.name];
    if p != q {
      FlatUnder(q, e.entries, p);
      assert p[..|q|][..|pre|] == p[..|pre|] && q[..|pre|] == pre;
      assert p[..|q|][|pre|] == p[|pre|];
    }
  }

  /** Spreading out loses nothing and adds nothing. */
  lemma {:induction false} FlatHolds(pre: Path, es: seq<Entry>, p: Path, it: Item)
    requires Proper(es)
    ensures p in Flat(pre, es) && Flat(pre, es)[p] == it <==> Under(pre, p) && Holds(es, p[|pre|..], it)
    decreases es
  {
    hide FsName, Holds;
    if es == [] {
      if Under(pre, p) { HoldsNone(p[|pre|..], it); }
    } else {
      var e, tail := es[0], es[1..];
      ProperTail(es);
      FlatHolds(pre, tail, p, it);
      FlatOneHolds(pre, e, p, it);
      if p in Flat(pre, tail) {
        FlatUnder(pre, tail, p);
        var i :| 0 <= i < |tail| && tail[i].name == p[|pre|];
        assert es[i + 1] == tail[i];
        if p in FlatOne(pre, e) { FlatOneUnder(pre, e, p); }
      }
      if Under(pre, p) { HoldsSplit(es, p[|pre|..], it); }
    }
  }

  lemma ProperTail(es: seq<Entry>)
    requires Proper(es) && es != []
    ensures Proper(es[1..]) && ProperEntry(es[0])
  {
    hide ProperEntry;
    var tail := es[1..];
    forall i | 0 <= i < |tail| ensures tail[i] == es[i + 1] { }
  }

  lemma HoldsNone(p: Path, it: Item)
    ensures !Holds([], p, it)
  {
  }

  lemma HoldsSplit(es: seq<Entry>, p: Path, it: Item)
    requires es != [] && p != []
    ensures Holds(es, p, it) <==> Holds([es[0]], p, it) || Holds(es[1..], p, it)
  {
    assert es == [es[0]] + es[1..];
  }

  lemma {:induction false} FlatOneHolds(pre: Path, e: Entry, p: Path, it: Item)
    requires ProperEntry(e)
    ensures p in FlatOne(pre, e) && FlatOne(pre, e)[p] == it <==> Under(pre, p) && Holds([e], p[|pre|..], it)
    decreases e
  {
    var q := pre + [e.name];
    if p == q {
      assert p[|pre|..] == [e.name];
      if e.Dir? && p in Flat(q, e.entries) { FlatUnder(q, e.entries, p); }
    } else if e.Dir? {
      FlatHolds(q, e.entries, p, it);
      if Under(pre, p) && p[|pre|] == e.name {
        assert p[..|q|] == q;
        assert p[|pre|..][1..] == p[|q|..];
      }
      if Under(q, p) {
        assert p[..|q|][..|pre|] == p[..|pre|] && q[..|pre|] == pre;
        assert p[..|q|][|pre|] == p[|pre|];
      }
    }
  }

  // ------------------------------------------------------------ entries and sizes

  /** An unsigned 32-bit size taken as a signed one, as `put_file` does. */
  function Signed(size: int): int { if size < 0x8000_0000 then size else size - 0x1_0000_0000 }

  function Width(s: int): (w: nat)
    ensures w < 4
  {
    if s <= 0xFF then 0 else if s <= 0xFFFF then 1 else if s <= 0xFF_FFFF then 2 else 3
  }

  /** The size field of a file, and of a link: the two-byte form of the latter
      has the high byte first. */
  function FileSize(size: nat): seq<byte> { Little(Width(Signed(size)) + 1, size) }

  function LinkSize(size: nat): seq<byte> {
    if size <= 0xFF then [size % 256] else [size / 256 % 256, size % 256]
  }

  function Payload(e: Entry): seq<byte>
    requires !e.Dir?
  {
    match e
    case File(_, _, d) => d
    case Link(_, t) => t
  }

  function SizeField(e: Entry): seq<byte>
    requires !e.Dir?
  {
    if e.Link? then LinkSize(|e.target|) else FileSize(|e.data|)
  }

  function Tag(e: Entry): (t: int)
    requires !e.Dir?
    ensures t == 4 || t == 8 || t == 12
  {
    match e
    case File(_, x, _) => if x then TAG_EXEC else TAG_FILE
    case Link(_, _) => TAG_LINK
  }

  lemma FieldLength(e: Entry)
    requires !e.Dir?
    ensures 1 <= |SizeField(e)| <= 4
  {
  }

  /** The entry a reader finds for a leaf. */
  function LeafNode(e: Entry): Node
    requires !e.Dir?
  {
    var s := SizeField(e);
    FieldLength(e);
    Node(Tag(e) + |s| - 1, Value(s), e.name)
  }

  /** The index of a tree: each directory is followed by all that is in it. */
  function Nodes(es: seq<Entry>, depth: nat): seq<Node>
    decreases es, 0
  {
    if es == [] then [] else NodesOne(es[0], depth) + Nodes(es[1..], depth)
  }

  function NodesOne(e: Entry, depth: nat): seq<Node>
    decreases e, 1
  {
    if e.Dir? then [Node(TAG_DIR + depth % 128, 0, e.name)] + Nodes(e.entries, depth + 1) else [LeafNode(e)]
  }

  /** The content that follows the index, in the same order. */
  function Data(es: seq<Entry>): seq<byte>
    decreases es, 0
  {
    if es == [] then [] else DataOne(es[0]) + Data(es[1..])
  }

  function DataOne(e: Entry): seq<byte>
    decreases e, 1
  {
    if e.Dir? then Data(e.entries) else Payload(e)
  }

  /** The recorded size is the real one. */
  predicate Faithful(e: Entry)
    requires !e.Dir?
  {
    Value(SizeField(e)) == |Payload(e)|
  }

  lemma FileFaithful(size: nat)
    requires size <= 0xFFFF_FFFF
    ensures Value(FileSize(size)) == size <==> size < 0x8000_0000
  {
    var w := Width(Signed(size));
    if size < 0x8000_0000 {
      Powers();
      ValueLittle(w + 1, size);
    } else {
      assert Little(1, size) == [size % 256] + Little(0, size / 256);
      ValueOne(size % 256);
    }
  }

  lemma Powers()
    ensures Pow256(1) == 0x100 && Pow256(2) == 0x1_0000 && Pow256(3) == 0x100_0000 && Pow256(4) == 0x1_0000_0000
  {
    assert Pow256(0) == 1;
    assert Pow256(1) == 256 * Pow256(0);
    assert Pow256(2) == 256 * Pow256(1);
    assert Pow256(3) == 256 * Pow256(2);
    assert Pow256(4) == 256 * Pow256(3);
  }

  lemma ValueOne(c: byte)
    ensures Value([c]) == c
  {
    assert [c][1..] == [];
  }

  lemma ValueTwo(c: byte, d: byte)
    ensures Value([c, d]) == c + Times256(d)
  {
    assert [c, d][1..] == [d];
    ValueOne(d);
  }

  function Times256(c: int): int { 256 * c }

  /** A link's size survives exactly when it fits one byte or its two bytes
      are equal. */
  lemma LinkFaithful(size: nat)
    requires size <= 0xFFFF
    ensures Value(LinkSize(size)) == size <==> size <= 0xFF || size / 256 == size % 256
  {
    if size <= 0xFF { ValueOne(size % 256); } else { ValueTwo(size / 256 % 256, size % 256); }
  }

  /** All recorded sizes are real. */
  ghost predicate Exact(es: seq<Entry>)
    decreases es
  {
    forall i :: 0 <= i < |es| ==> if es[i].Dir? then Exact(es[i].entries) else Faithful(es[i])
  }

  ghost predicate ExactOne(e: Entry) {
    if e.Dir? then Exact(e.entries) else Faithful(e)
  }

  /** What the content writer gets through: the count of a copied file is an
      `int`, and a link target is read into one page. */
  predicate Dumpable(e: Entry) {
    match e
    case File(_, _, d) => |d| < INT_LIMIT
    case Link(_, t) => |t| <= PAGE
    case Dir(_, _, _) => true
  }

  ghost predicate Dumps(es: seq<Entry>) { Every(es, Dumpable) }

  /** In every directory, files come before directories. */
  ghost predicate FilesFirst(es: seq<Entry>)
    decreases es
  {
    && (forall i, j :: 0 <= i < j < |es| && es[i].Dir? ==> es[j].Dir?)
    && forall i :: 0 <= i < |es| && es[i].Dir? ==> FilesFirst(es[i].entries)
  }

  // ------------------------------------------------------------------ replaying

  /** Where the reader stands: current directory, file system, content left. */
  datatype State = State(cwd: Path, fs: map<Path, Item>, rest: seq<byte>)

  function Until0(s: seq<byte>): seq<byte> {
    if s == [] || s[0] == 0 then [] else [s[0]] + Until0(s[1..])
  }

  /** Symbolic links take a C string, and not an empty one. */
  function LeafItem(kind: int, bytes: seq<byte>): Option<Item> {
    if kind != TAG_LINK then Some(AFile(kind == TAG_EXEC, bytes))
    else if Until0(bytes) == [] then None
    else Some(ALink(Until0(bytes)))
  }

  function Kind(bits: byte): int { bits / 4 % 4 * 4 }

  /** The reader counts content in an `int`, and a link with the zero behind it. */
  predicate Countable(kind: int, size: nat) {
    (if kind == TAG_LINK then size + 1 else size) < INT_LIMIT
  }

  /** One entry replayed; failure stops the run.  An entry of no known kind
      takes no content. */
  function Step(st: State, nd: Node): Option<State> {
    if nd.IsDir() then
      if nd.Level() > |st.cwd| || nd.Level() >= MAXDEPTH then None
      else
        var p := st.cwd[..nd.Level()] + [nd.name];
        if p in st.fs && !st.fs[p].ADir? then None
        else Some(State(p, st.fs[p := ADir], st.rest))
    else if Kind(nd.bits) == 0 then Some(st)
    else
      var p := st.cwd + [nd.name];
      if !Countable(Kind(nd.bits), nd.size) || nd.size > |st.rest| || (p in st.fs && st.fs[p].ADir?) then None
      else
        match LeafItem(Kind(nd.bits), st.rest[..nd.size])
        case None => None
        case Some(it) => Some(State(st.cwd, st.fs[p := it], st.rest[nd.size..]))
  }

  function Run(st: State, ns: seq<Node>): Option<State>
    decreases |ns|
  {
    if ns == [] then Some(st)
    else
      match Step(st, ns[0])
      case None => None
      case Some(s) => Run(s, ns[1..])
  }

  lemma {:induction false} RunAppend(st: State, ns: seq<Node>, ms: seq<Node>)
    ensures Run(st, ns + ms) == (match Run(st, ns) case None => None case Some(s) => Run(s, ms))
    decreases |ns|
  {
    hide Step;
    if ns == [] {
      assert ns + ms == ms;
    } else {
      assert (ns + ms)[0] == ns[0] && (ns + ms)[1..] == ns[1..] + ms;
      match Step(st, ns[0]) {
        case None =>
        case Some(s) => RunAppend(s, ns[1..], ms);
      }
    }
  }

  /** Nothing lies at or below `p`. */
  ghost predicate Vacant(fs: map<Path, Item>, p: Path) {
    forall q :: q in fs ==> q != p && !Under(p, q)
  }

  ghost predicate VacantFor(fs: map<Path, Item>, pre: Path, es: seq<Entry>) {
    forall i :: 0 <= i < |es| ==> Vacant(fs, pre + [es[i].name])
  }

  lemma {:induction false} Until0All(s: seq<byte>)
    requires ZeroFree(s)
    ensures Until0(s) == s
  {
    if s != [] { Until0All(s[1..]); }
  }

  lemma LeafStep(st: State, e: Entry, tail: seq<byte>)
    requires !e.Dir? && ProperEntry(e) && Faithful(e) && Dumpable(e) && st.rest == Payload(e) + tail
    requires Vacant(st.fs, st.cwd + [e.name])
    ensures Step(st, LeafNode(e)) == Some(State(st.cwd, st.fs + FlatOne(st.cwd, e), tail))
  {
    hide SizeField, Value, FsName;
    FieldLength(e);
    var nd := LeafNode(e);
    var n := |Payload(e)|;
    assert st.rest[..n] == Payload(e) && st.rest[n..] == tail;
    assert Kind(nd.bits) == Tag(e);
    if e.Link? { Until0All(e.target); }
    var p := st.cwd + [e.name];
    assert FlatOne(st.cwd, e) == map[p := ItemOf(e)];
    assert st.fs[p := ItemOf(e)] == st.fs + map[p := ItemOf(e)];
  }

  lemma UnderDeep(p: Path, n: Name, q: Path)
    ensures Under(p + [n], q) ==> Under(p, q) && q[|p|] == n
  {
    var r := p + [n];
    if Under(r, q) {
      assert q[..|r|][..|p|] == q[..|p|] && r[..|p|] == p;
      assert q[..|r|][|p|] == q[|p|];
    }
  }

  /** Adding one entry leaves room for the others. */
  lemma StillVacant(fs: map<Path, Item>, pre: Path, es: seq<Entry>)
    requires es != [] && Distinct(es) && VacantFor(fs, pre, es)
    ensures VacantFor(fs + FlatOne(pre, es[0]), pre, es[1..])
  {
    var m := fs + FlatOne(pre, es[0]);
    forall i | 0 <= i < |es[1..]| ensures Vacant(m, pre + [es[1..][i].name]) {
      var p := pre + [es[i + 1].name];
      assert Vacant(fs, p);
      forall q | q in m ensures q != p && !Under(p, q) {
        if q in FlatOne(pre, es[0]) {
          FlatOneUnder(pre, es[0], q);
          UnderDeep(pre, es[i + 1].name, q);
        }
      }
    }
  }

  lemma VacantInside(fs: map<Path, Item>, p: Path, es: seq<Entry>)
    requires Vacant(fs, p)
    ensures VacantFor(fs[p := ADir], p, es)
  {
    forall i | 0 <= i < |es| ensures Vacant(fs[p := ADir], p + [es[i].name]) {
      var r := p + [es[i].name];
      forall q | q in fs[p := ADir] ensures q != r && !Under(r, q) {
        UnderDeep(p, es[i].name, q);
      }
    }
  }

  /** The iterative reader, replaying the index of a tree in which files come
      first, rebuilds that tree below `pre` and uses up its content.  Leaves need
      the current directory to be `pre` itself; directories only need to be
      below it. */
  lemma {:induction false} RunTree(es: seq<Entry>, pre: Path, st: State, tail: seq<byte>) returns (cwd: Path)
    requires Proper(es) && Exact(es) && Dumps(es) && FilesFirst(es) && Within(es, MAXDEPTH - |pre|)
    requires |pre| <= |st.cwd| && st.cwd[..|pre|] == pre && (es != [] && !es[0].Dir? ==> st.cwd == pre)
    requires st.rest == Data(es) + tail && VacantFor(st.fs, pre, es) && |pre| <= MAXDEPTH
    ensures |pre| <= |cwd| && cwd[..|pre|] == pre
    ensures Run(st, Nodes(es, |pre|)) == Some(State(cwd, st.fs + Flat(pre, es), tail))
    decreases es, 0
  {
    hide Step, ProperEntry, FlatOne, Data, Nodes, Flat, Vacant, Run;
    if es == [] {
      cwd := st.cwd;
      TreeNone(pre, st, tail);
    } else {
      var e, others := es[0], es[1..];
      TreeFront(es, pre);
      assert st.rest == DataOne(e) + (Data(others) + tail);
      StillVacant(st.fs, pre, es);
      var mid := RunOne(e, pre, st, Data(others) + tail);
      var next := State(mid, st.fs + FlatOne(pre, e), Data(others) + tail);
      assert others != [] && !others[0].Dir? ==> !es[1].Dir? && !e.Dir?;
      cwd := RunTree(others, pre, next, tail);
      RunAppend(st, NodesOne(e, |pre|), Nodes(others, |pre|));
      Overlay(st.fs, FlatOne(pre, e), Flat(pre, others));
    }
  }

  lemma Overlay(f: map<Path, Item>, g: map<Path, Item>, h: map<Path, Item>)
    ensures (f + g) + h == f + (g + h)
  {
  }

  lemma TreeNone(pre: Path, st: State, tail: seq<byte>)
    requires st.rest == Data([]) + tail
    ensures Run(st, Nodes([], |pre|)) == Some(State(st.cwd, st.fs + Flat(pre, []), tail))
  {
    assert st.fs + map[] == st.fs && [] + tail == tail;
  }

  lemma TreeFront(es: seq<Entry>, pre: Path)
    requires es != [] && Proper(es) && Exact(es) && Dumps(es) && FilesFirst(es) && Within(es, MAXDEPTH - |pre|)
    ensures Proper(es[1..]) && Exact(es[1..]) && Dumps(es[1..]) && FilesFirst(es[1..])
    ensures Within(es[1..], MAXDEPTH - |pre|)
    ensures ProperEntry(es[0])
    ensures if es[0].Dir? then Exact(es[0].entries) && Dumps(es[0].entries) && FilesFirst(es[0].entries)
              && MAXDEPTH > |pre| && Within(es[0].entries, MAXDEPTH - |pre| - 1)
            else Faithful(es[0]) && Dumpable(es[0])
    ensures Data(es) == DataOne(es[0]) + Data(es[1..])
    ensures Nodes(es, |pre|) == NodesOne(es[0], |pre|) + Nodes(es[1..], |pre|)
    ensures Flat(pre, es) == FlatOne(pre, es[0]) + Flat(pre, es[1..])
  {
    hide FlatOne, ProperEntry, Faithful, Dumpable, NodesOne, DataOne, Data, Nodes, Flat, Exact, FilesFirst;
    hide Within, Every;
    ProperTail(es);
    ExactFront(es);
    ShapeFront(es, MAXDEPTH - |pre|);
    PartsFront(es, pre);
  }

  lemma ExactFront(es: seq<Entry>)
    requires es != [] && Exact(es) && Dumps(es)
    ensures Exact(es[1..]) && Dumps(es[1..])
    ensures if es[0].Dir? then Exact(es[0].entries) && Dumps(es[0].entries) else Faithful(es[0]) && Dumpable(es[0])
  {
    hide Faithful, Dumpable;
    var t := es[1..];
    assert forall i :: 0 <= i < |t| ==> t[i] == es[i + 1];
  }

  lemma ShapeFront(es: seq<Entry>, h: int)
    requires es != [] && FilesFirst(es) && Within(es, h)
    ensures FilesFirst(es[1..]) && Within(es[1..], h)
    ensures es[0].Dir? ==> FilesFirst(es[0].entries) && h > 0 && Within(es[0].entries, h - 1)
  {
    var t := es[1..];
    assert forall i :: 0 <= i < |t| ==> t[i] == es[i + 1];
  }

  lemma PartsFront(es: seq<Entry>, pre: Path)
    requires es != []
    ensures Data(es) == DataOne(es[0]) + Data(es[1..])
    ensures Nodes(es, |pre|) == NodesOne(es[0], |pre|) + Nodes(es[1..], |pre|)
    ensures Flat(pre, es) == FlatOne(pre, es[0]) + Flat(pre, es[1..])
  {
    hide FlatOne, NodesOne, DataOne;
  }

  /** The same for one entry. */
  lemma {:induction false} RunOne(e: Entry, pre: Path, st: State, tail: seq<byte>) returns (cwd: Path)
    requires ProperEntry(e) && |pre| <= MAXDEPTH
    requires if e.Dir? then Exact(e.entries) && Dumps(e.entries) && FilesFirst(e.entries)
               && MAXDEPTH > |pre| && Within(e.entries, MAXDEPTH - |pre| - 1)
             else Faithful(e) && Dumpable(e)
    requires |pre| <= |st.cwd| && st.cwd[..|pre|] == pre && (!e.Dir? ==> st.cwd == pre)
    requires st.rest == DataOne(e) + tail && Vacant(st.fs, pre + [e.name])
    ensures |pre| <= |cwd| && cwd[..|pre|] == pre && (!e.Dir? ==> cwd == pre)
    ensures Run(st, NodesOne(e, |pre|)) == Some(State(cwd, st.fs + FlatOne(pre, e), tail))
    decreases e, 1
  {
    hide Step, Data, Nodes, Flat, Vacant, VacantFor, Exact, Dumps, Dumpable, FilesFirst, Within, Proper;
    hide Faithful, LeafNode;
    if e.Dir? {
      var p := pre + [e.name];
      var nd := Node(TAG_DIR + |pre|, 0, e.name);
      var inside := State(p, st.fs[p := ADir], st.rest);
      DirStep(st, pre, nd);
      VacantInside(st.fs, p, e.entries);
      cwd := RunTree(e.entries, p, inside, tail);
      assert cwd[..|p|][..|pre|] == cwd[..|pre|] && p[..|pre|] == pre;
      assert ([nd] + Nodes(e.entries, |pre| + 1))[1..] == Nodes(e.entries, |p|);
      assert st.fs[p := ADir] == st.fs + map[p := ADir];
      Overlay(st.fs, map[p := ADir], Flat(p, e.entries));
    } else {
      cwd := st.cwd;
      LeafStep(st, e, tail);
      assert [LeafNode(e)][1..] == [];
    }
  }

  lemma DirStep(st: State, pre: Path, nd: Node)
    requires nd.IsDir() && nd.Level() == |pre| < MAXDEPTH && |pre| <= |st.cwd| && st.cwd[..|pre|] == pre
    requires Vacant(st.fs, pre + [nd.name])
    ensures Step(st, nd) == Some(State(pre + [nd.name], st.fs[pre + [nd.name] := ADir], st.rest))
  {
  }
}
