/** Extracting an archive: an iterative reader with a stack of directories
    (src/mpac/mpac_common.c, src/mpac/mpac_extract.c).  A directory descriptor
    is modelled by the path of the directory it refers to. */
module PacExtract {
  import opened Basics
  import opened Arith
  import opened PacIndex
  import opened PathWalk
  import opened PacTree
  import opened PacCreate

  // -------------------------------------------------------------------- header

  function HeadEnd(a: seq<byte>): nat
    requires |a| >= 8 && a[3] <= 2
  {
    5 + a[3] + Value(a[4..5 + a[3]])
  }

  /** An index size of up to three bytes, and an index that reaches past the
      eight bytes read at first. */
  predicate Loadable(a: seq<byte>) {
    |a| >= 8 && a[..3] == MAGIC && a[3] <= 2 && 8 <= HeadEnd(a) <= |a|
  }

  /** `parse_header_size`. */
  method ParseHeaderSize(tag: seq<byte>) returns (ok: bool, hoff: nat, hlen: nat)
    requires |tag| == 8
    ensures ok <==> tag[..3] == MAGIC && tag[3] <= 2
    ensures ok ==> hoff == 5 + tag[3] && hlen == Value(tag[4..hoff])
  {
    hide Value;
    ok, hoff, hlen := false, 0, 0;
    if tag[..3] != MAGIC { return; }
    var n: nat := tag[3];
    if n > 3 { return; }
    hlen := tag[4];
    if n > 0 { hlen := hlen + Shifted(tag[5], 0x100); }
    if n > 1 { hlen := hlen + Shifted(tag[6], 0x1_0000); }
    if n > 2 { return; }
    hoff := 4 + n + 1;
    ValueShort(tag[4..hoff]);
    ok := true;
  }

  /** `load_index`: the index and what follows it. */
  method LoadIndex(a: seq<byte>) returns (ok: bool, index: seq<byte>, data: seq<byte>)
    ensures ok <==> Loadable(a)
    ensures ok ==> a == a[..5 + a[3]] + index + data && |index| == Value(a[4..5 + a[3]])
  {
    hide Value;
    ok, index, data := false, [], [];
    if |a| < 8 { return; }
    var tag := a[..8];
    var hoff, hlen;
    ok, hoff, hlen := ParseHeaderSize(tag);
    assert tag[..3] == a[..3];
    if !ok { return; }
    assert tag[4..hoff] == a[4..hoff];
    if hoff > 8 || hoff + hlen < 8 { return false, [], []; }
    var got := 8 - hoff;
    var need := hlen - got;
    if |a| - 8 < need { return false, [], []; }
    index := a[hoff..hoff + hlen];
    data := a[hoff + hlen..];
  }

  /** What the writer put in front is what the reader finds. */
  lemma HeadRead(index: seq<byte>, data: seq<byte>)
    requires |index| <= 0x7FFF_FFFF
    ensures var a := Head(|index|) + index + data;
      && (Loadable(a) <==> 3 <= |index| < 0x100_0000)
      && (Loadable(a) ==> 5 + a[3] == |Head(|index|)| && Value(a[4..5 + a[3]]) == |index|)
  {
    hide Value, Little, Pow256;
    var n, w := |index|, Width(|index|);
    var a, l := Head(n) + index + data, Little(w + 1, n);
    assert Head(n) == MAGIC + [w] + l;
    Powers();
    ValueLittle(w + 1, n);
    assert a[..3] == MAGIC && a[3] == w;
    assert a[4..5 + w] == l;
  }

  // ------------------------------------------------------------------- entries

  /** A name the reader accepts. */
  predicate Safe(n: Name) { !DotDdot(n) && forall i :: 0 <= i < |n| ==> n[i] != SLASH }

  /** Looked up from any directory, such a name is at most that of an entry of it. */
  lemma SafeStays(n: Name, d: Path)
    requires Safe(n)
    ensures Walk(d, n) == if n == [] then [d] else [d + [n]]
  {
    if n == [] {
      assert n[..0] == [];
    } else {
      LastStep(d, n);
    }
  }

  ghost predicate Readable(nd: Node) {
    && ZeroFree(nd.name) && Safe(nd.name)
    && (if nd.IsDir() then nd.size == 0 else nd.size < Pow256(nd.bits % 4 + 1))
  }

  datatype Status = Got | End | Fail

  class Extractor {
    const index: seq<byte>
    var iptr: nat
    var name: Name
    var size: nat
    var at: Path
    var depth: nat
    var path: seq<Name>
    var pfds: seq<Path>
    var rest: seq<byte>
    var fs: map<Path, Item>

    ghost predicate Valid()
      reads this
    {
      && iptr <= |index| && |path| == MAXDEPTH && |pfds| == MAXDEPTH && depth <= MAXDEPTH
      && at == path[..depth] && forall i :: 0 <= i < depth ==> pfds[i] == path[..i]
    }

    ghost function Now(): State
      requires Valid()
      reads this
    {
      State(path[..depth], fs, rest)
    }

    constructor (index: seq<byte>, data: seq<byte>, fs: map<Path, Item>)
      ensures Valid() && this.index == index && iptr == 0 && Now() == State([], fs, data)
    {
      this.index := index;
      this.fs := fs;
      iptr, name, size, at, depth, rest := 0, [], 0, [], 0, data;
      path, pfds := seq(MAXDEPTH, _ => []), seq(MAXDEPTH, _ => []);
    }

    /** `parse_size`. */
    method ParseSize(lead: byte) returns (ok: bool)
      requires iptr <= |index|
      modifies this`iptr, this`size
      ensures ok <==> old(iptr) + lead % 4 + 1 <= |index|
      ensures !ok ==> iptr == old(iptr)
      ensures ok ==> iptr == old(iptr) + lead % 4 + 1 && size == Value(index[old(iptr)..iptr])
    {
      var n: nat := lead % 4;
      if iptr + n + 1 > |index| { return false; }
      ghost var s := index[iptr..iptr + n + 1];
      size := index[iptr];
      if n > 0 { size := size + Shifted(index[iptr + 1], 0x100); }
      if n > 1 { size := size + Shifted(index[iptr + 2], 0x1_0000); }
      if n > 2 { size := size + Shifted(index[iptr + 3], 0x100_0000); }
      ValueShort(s);
      iptr := iptr + n + 1;
      ok := true;
    }

    /** `parse_name`: up to the zero; neither dots nor slashes. */
    method ParseName() returns (ok: bool)
      requires iptr <= |index|
      modifies this`iptr, this`name
      ensures ok ==> old(iptr) < iptr <= |index| && Has(index, old(iptr), name + [0])
      ensures ok ==> |name| + 1 == iptr - old(iptr) && ZeroFree(name) && Safe(name)
      ensures ok ==> forall d :: Walk(d, name) == if name == [] then [d] else [d + [name]]
      ensures !ok ==> iptr == old(iptr)
      ensures !ok ==> forall n :: Has(index, old(iptr), n + [0]) && ZeroFree(n) ==> !Safe(n)
    {
      hide Safe, Walk;
      var start, p := iptr, iptr;
      while p < |index| && index[p] != 0
        invariant start <= p <= |index| && forall k :: start <= k < p ==> index[k] != 0
      {
        p := p + 1;
      }
      ghost var found := index[start..p];
      forall n | Has(index, start, n + [0]) && ZeroFree(n) ensures p < |index| && n == found {
        NameFound(index, start, n);
        assert Has(index, start, found + [0]);
        NameUnique(index, start, found, n);
      }
      if p >= |index| { return false; }
      var tmp := index[start..p];
      if !Safe(tmp) { return false; }
      assert Has(index, start, tmp + [0]);
      forall d ensures Walk(d, tmp) == if tmp == [] then [d] else [d + [tmp]] { SafeStays(tmp, d); }
      name := tmp;
      iptr := p + 1;
      ok := true;
    }

    /** `next_entry`: an entry that is there is read as it is. */
    method NextEntry(ghost want: Node) returns (r: Status, lead: byte)
      requires Valid()
      modifies this`iptr, this`name, this`size
      ensures Valid() && (r == End <==> old(iptr) >= |index|)
      ensures r == Got ==> old(iptr) < iptr && ZeroFree(name) && Safe(name)
      ensures Has(index, old(iptr), EncodeNode(want)) && Readable(want) ==>
        && r == Got && lead == want.bits && name == want.name && size == want.size
        && iptr == old(iptr) + |EncodeNode(want)|
    {
      hide Has, EncodeNode, Safe, ZeroFree, Pow256, Value, Little;
      lead := 0;
      ghost var wanted := Has(index, iptr, EncodeNode(want)) && Readable(want);
      if wanted {
        EntryParts(index, iptr, want);
        EntryLength(want);
      }
      if iptr >= |index| { return End, lead; }
      lead := index[iptr];
      iptr := iptr + 1;
      name, size := [], 0;
      if lead < TAG_DIR {
        if wanted { SizeFound(index, iptr, lead % 4 + 1, want.size); }
        var ok := ParseSize(lead);
        if !ok { return Fail, lead; }
      }
      ghost var start := iptr;
      var ok := ParseName();
      if !ok { return Fail, lead; }
      if wanted { NameUnique(index, start, name, want.name); }
      r := Got;
    }

    /** `rewind_path`: back up to `todepth`, closing directories. */
    method RewindPath(todepth: nat) returns (ok: bool)
      requires Valid()
      modifies this`at, this`depth
      ensures ok <==> todepth <= old(depth)
      ensures ok ==> Valid() && depth == todepth
    {
      if todepth > depth { return false; }
      var d := depth;
      while d > todepth
        invariant todepth <= d <= depth && at == path[..d]
      {
        d := d - 1;
        at := pfds[d];
      }
      depth := d;
      ok := true;
    }

    /** `unpack_dir`: make the directory, or use the one that is there, and
        go in. */
    method UnpackDir(lead: byte) returns (ok: bool)
      requires Valid() && lead >= TAG_DIR
      modifies this`at, this`depth, this`path, this`pfds, this`fs
      ensures ok <==> Step(old(Now()), Node(lead, 0, name)).Some?
      ensures ok ==> Valid() && Now() == Step(old(Now()), Node(lead, 0, name)).value
      ensures ok <==> lead - 128 <= old(depth) && lead - 128 < 32 && var p := old(path[..lead - 128]) + [name];
        p in old(fs) ==> old(fs)[p] == ADir
      ensures ok ==> depth == lead - 127 && at == old(path)[..lead - 128] + [name]
      ensures ok ==> fs == old(fs)[at := ADir] && rest == old(rest)
    {
      var level: nat := lead - TAG_DIR;
      ok := RewindPath(level);
      if !ok { return; }
      assert path[..level] == old(path[..depth])[..level];
      if depth >= MAXDEPTH { return false; }
      var p := at + [name];
      if p !in fs {
        fs := fs[p := ADir];
      }
      if fs[p] != ADir { return false; }
      assert fs == old(fs)[p := ADir];
      Descend();
    }

    /** Push the directory just opened. */
    method Descend()
      requires Valid() && depth < MAXDEPTH
      modifies this`at, this`depth, this`path, this`pfds
      ensures Valid() && path[..depth] == old(path[..depth]) + [name]
    {
      var p := at + [name];
      path := path[depth := name];
      pfds := pfds[depth := at];
      at := p;
      depth := depth + 1;
      assert path[..depth] == p;
      forall i | 0 <= i < depth ensures pfds[i] == path[..i] {
        assert path[..i] == old(path)[..i];
      }
    }

    /** `unpack_link` and `unpack_file`: take the content, replacing what is
        not a directory. */
    method UnpackLeaf(lead: byte) returns (ok: bool)
      requires Valid() && lead < TAG_DIR && Kind(lead) != 0
      modifies this`rest, this`fs
      ensures ok <==> Step(old(Now()), Node(lead, size, name)).Some?
      ensures ok ==> Valid() && Now() == Step(old(Now()), Node(lead, size, name)).value
      ensures var p, link := at + [name], lead / 4 % 4 == 3;
        ok <==>
          && size <= |old(rest)| && size + (if link then 1 else 0) < 0x8000_0000
          && (p in old(fs) ==> !old(fs)[p].ADir?) && (link ==> size > 0 && old(rest)[0] != 0)
      ensures ok ==> at + [name] in fs && fs == old(fs)[at + [name] := fs[at + [name]]] && rest == old(rest)[size..]
      ensures ok && lead / 4 % 4 != 3 ==> fs[at + [name]] == AFile(lead / 4 % 4 == 2, old(rest)[..size])
      ensures ok && lead / 4 % 4 == 3 ==> exists k :: CutAtZero(old(rest)[..size], k, fs[at + [name]])
    {
      TypeIs(lead);
      if size <= |rest| { CutThere(rest[..size]); }
      if !Countable(Kind(lead), size) || size > |rest| { return false; }
      var it := LeafItem(Kind(lead), rest[..size]);
      if it == None { return false; }
      var p := at + [name];
      if p in fs && fs[p] == ADir { return false; }
      fs := fs[p := it.value];
      rest := rest[size..];
      ok := true;
    }

    /** `unpack_data`: on the encoding of any list of readable entries, the
        reader does what replaying the list does. */
    method UnpackData(ghost ns: seq<Node>) returns (ok: bool)
      requires Valid() && iptr == 0
      modifies this
      ensures (forall i :: 0 <= i < |ns| ==> Readable(ns[i])) && index == EncodeAll(ns) ==>
        && (ok <==> Run(old(Now()), ns).Some?)
        && (ok ==> fs == Run(old(Now()), ns).value.fs)
    {
      hide Step, Run, Readable, EncodeAll, EncodeNode, Safe, ZeroFree, Kind;
      ghost var wanted := (forall i :: 0 <= i < |ns| ==> Readable(ns[i])) && index == EncodeAll(ns);
      ghost var j := 0;
      ghost var start := Now();
      var r := Got;
      Begin(ns);
      while r == Got
        invariant Valid() && r != Fail
        invariant wanted ==> j <= |ns| && iptr == |EncodeAll(ns[..j])| && Run(start, ns) == Run(Now(), ns[j..])
        invariant r == End ==> iptr >= |index|
        decreases r == Got, |index| - iptr
      {
        ghost var want := if wanted && j < |ns| then ns[j] else Node(0, 0, []);
        ghost var st := Now();
        if wanted { Upcoming(ns, j, st); }
        var lead;
        r, lead := NextEntry(want);
        if r == Fail { return false; }
        if r == End { break; }
        ok := TakeEntry(lead);
        if !ok { return; }
        j := j + 1;
      }
      if wanted { Finished(ns, j, Now()); }
      ghost var last := fs;
      ok := RewindPath(0);
    }

    /** The body of the loop in `unpack_data`. */
    method TakeEntry(lead: byte) returns (ok: bool)
      requires Valid()
      modifies this`at, this`depth, this`path, this`pfds, this`fs, this`rest
      ensures ok <==> Step(old(Now()), Node(lead, size, name)).Some?
      ensures ok ==> Valid() && Now() == Step(old(Now()), Node(lead, size, name)).value
    {
      ok := true;
      if lead >= TAG_DIR {
        ok := UnpackDir(lead);
      } else if Kind(lead) != 0 {
        ok := UnpackLeaf(lead);
      }
    }
  }

  /** A link to what stands in front of the first zero, if there is one. */
  ghost predicate CutAtZero(s: seq<byte>, k: nat, it: Item) {
    k <= |s| && it == ALink(s[..k]) && (forall i :: 0 <= i < k ==> s[i] != 0) && (k == |s| || s[k] == 0)
  }

  lemma {:induction false} CutThere(s: seq<byte>)
    ensures CutAtZero(s, |Until0(s)|, ALink(Until0(s))) && (Until0(s) == [] <==> s == [] || s[0] == 0)
  {
    if s != [] && s[0] != 0 {
      CutThere(s[1..]);
      var k := |Until0(s[1..])|;
      assert s[..k + 1] == [s[0]] + s[1..][..k];
      forall i | 0 <= i < k + 1 ensures s[i] != 0 {
        if i > 0 { assert s[i] == s[1..][i - 1]; }
      }
    }
  }

  lemma TypeIs(lead: byte)
    ensures (Kind(lead) == TAG_LINK <==> lead / 4 % 4 == 3) && (Kind(lead) == TAG_EXEC <==> lead / 4 % 4 == 2)
  {
  }

  lemma Begin(ns: seq<Node>)
    ensures ns[..0] == [] && EncodeAll([]) == [] && ns[0..] == ns
  {
  }

  /** The next entry is there, and replaying goes on with it. */
  lemma Upcoming(ns: seq<Node>, j: nat, st: State)
    requires j <= |ns|
    ensures j < |ns| ==> Has(EncodeAll(ns), |EncodeAll(ns[..j])|, EncodeNode(ns[j]))
    ensures j < |ns| ==> |EncodeAll(ns[..j + 1])| == |EncodeAll(ns[..j])| + |EncodeNode(ns[j])|
    ensures j < |ns| ==> Run(st, ns[j..]) == match Step(st, ns[j]) case None => None case Some(s) => Run(s, ns[j + 1..])
    ensures j == |ns| ==> ns[..j] == ns
  {
    hide Step, EncodeNode, EncodeAll;
    if j < |ns| {
      EncodeFront(ns, j);
      assert ns[..j + 1] == ns[..j] + [ns[j]];
      EncodeAllAppend(ns[..j], [ns[j]]);
      EncodeOne(ns[j]);
      assert ns[j..][1..] == ns[j + 1..];
    } else {
      assert ns[..j] == ns;
    }
  }

  lemma NotFinished(ns: seq<Node>, j: nat)
    requires j < |ns|
    ensures |EncodeAll(ns[..j])| < |EncodeAll(ns)|
  {
    hide EncodeAll, EncodeNode;
    EncodeFront(ns, j);
    EntryLength(ns[j]);
  }

  lemma Finished(ns: seq<Node>, j: nat, st: State)
    requires j <= |ns| && |EncodeAll(ns[..j])| >= |EncodeAll(ns)|
    ensures j == |ns| && Run(st, ns[j..]) == Some(st)
  {
    hide EncodeAll;
    if j < |ns| {
      NotFinished(ns, j);
    } else {
      assert ns[j..] == [];
    }
  }

  lemma EntryLength(nd: Node)
    ensures |EncodeNode(nd)| == 1 + (if nd.IsDir() then 0 else nd.bits % 4 + 1) + |nd.name| + 1
  {
    hide Little;
  }
}
