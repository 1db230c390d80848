/** Removal of the listed files with a stack of open directories
    (src/ctool/ctool_remove.c), against one `rm` per line. */
module CtoolRemove {
  import opened Basics
  import opened PacIndex
  import opened CtoolIndex
  import opened CtoolList

  const AT_FDCWD := -100
  const AT_SKIP := 0
  const ENOENT := 2
  const ENOTDIR := 20
  const EISDIR := 21
  const ENAMETOOLONG := 36
  const ENOTEMPTY := 39

  // ---------------------------------------------------------------- file system

  /** Its directories, its files, and how long a name it takes. */
  datatype Fs = Fs(dirs: set<Path>, files: set<Path>, longest: nat)

  function Parent(p: Path): Path
    requires p != []
  {
    p[..|p| - 1]
  }

  function Last(p: Path): Name
    requires p != []
  {
    p[|p| - 1]
  }

  ghost predicate Short(p: Path, longest: nat) {
    forall i :: 0 <= i < |p| ==> |p[i]| <= longest
  }

  /** Everything is in a directory, nothing is both, and no name is too long. */
  ghost predicate Tree(fs: Fs) {
    && [] in fs.dirs && fs.dirs !! fs.files
    && (forall p :: p in fs.dirs || p in fs.files ==> Short(p, fs.longest))
    && (forall p :: p in fs.dirs && p != [] ==> Parent(p) in fs.dirs)
    && (forall p :: p in fs.files ==> p != [] && Parent(p) in fs.dirs)
  }

  predicate Empty(fs: Fs, d: Path) {
    && (forall p :: p in fs.dirs && p != [] ==> Parent(p) != d)
    && (forall p :: p in fs.files && p != [] ==> Parent(p) != d)
  }

  lemma NameTooLong(fs: Fs, d: Path, name: Name)
    requires Tree(fs) && |name| > fs.longest
    ensures d + [name] !in fs.dirs && d + [name] !in fs.files
  {
    var p := d + [name];
    assert p[|d|] == name;
  }

  class Kernel {
    var fs: Fs
    /** Open descriptors and the directories they stand for. */
    var open: map<int, Path>
    var next: int
    var opens: nat
    var closes: nat
    /** Files removed, in order. */
    var log: seq<Path>

    ghost predicate Valid()
      reads this
    {
      Tree(fs) && next > 0 && forall fd :: fd in open ==> 0 < fd < next
    }

    constructor (fs: Fs)
      requires Tree(fs)
      ensures Valid() && this.fs == fs && open == map[] && opens == closes == 0 && log == []
    {
      this.fs := fs;
      open, next, opens, closes, log := map[], 3, 0, 0, [];
    }

    predicate Known(at: int)
      reads this
    {
      at == AT_FDCWD || at in open
    }

    function Dir(at: int): Path
      requires Known(at)
      reads this
    {
      if at in open then open[at] else []
    }

    method OpenAt(at: int, name: Name) returns (ret: int)
      requires Valid() && Known(at)
      modifies this`open, this`next, this`opens
      ensures Valid()
      ensures var p := old(Dir(at)) + [name];
        && (p in fs.dirs ==> ret > 0 && ret !in old(open) && open == old(open)[ret := p] && opens == old(opens) + 1)
        && (p !in fs.dirs ==>
              && open == old(open) && opens == old(opens)
              && ret == if |name| > fs.longest then -ENAMETOOLONG else if p in fs.files then -ENOTDIR else -ENOENT)
    {
      var p := Dir(at) + [name];
      if |name| > fs.longest {
        NameTooLong(fs, Dir(at), name);
        ret := -ENAMETOOLONG;
      } else if p in fs.dirs {
        ret := next;
        open := open[ret := p];
        next := next + 1;
        opens := opens + 1;
      } else if p in fs.files {
        ret := -ENOTDIR;
      } else {
        ret := -ENOENT;
      }
    }

    method Close(fd: int)
      requires Valid() && fd in open
      modifies this`open, this`closes
      ensures Valid() && open == old(open) - {fd} && closes == old(closes) + 1
    {
      open := open - {fd};
      closes := closes + 1;
    }

    method Unlink(at: int, name: Name) returns (ret: int)
      requires Valid() && Known(at)
      modifies this`fs, this`log
      ensures Valid() && fs.dirs == old(fs.dirs)
      ensures var p := Dir(at) + [name];
        && fs.files == old(fs.files) - {p}
        && log == (if p in old(fs.files) then old(log) + [p] else old(log))
        && fs.longest == old(fs.longest)
        && ret == if p in old(fs.files) then 0
                  else if |name| > fs.longest then -ENAMETOOLONG
                  else if p in fs.dirs then -EISDIR else -ENOENT
    {
      var p := Dir(at) + [name];
      if |name| > fs.longest {
        NameTooLong(fs, Dir(at), name);
        ret := -ENAMETOOLONG;
      } else if p in fs.files {
        fs := fs.(files := fs.files - {p});
        log := log + [p];
        ret := 0;
      } else {
        ret := if p in fs.dirs then -EISDIR else -ENOENT;
      }
    }

    method Rmdir(at: int, name: Name) returns (ret: int)
      requires Valid() && Known(at)
      modifies this`fs
      ensures Valid() && fs.files == old(fs.files) && fs.longest == old(fs.longest)
      ensures var p := Dir(at) + [name];
        fs.dirs == if p in old(fs.dirs) && Empty(old(fs), p) then old(fs.dirs) - {p} else old(fs.dirs)
    {
      var p := Dir(at) + [name];
      if |name| > fs.longest {
        NameTooLong(fs, Dir(at), name);
        return -ENAMETOOLONG;
      }
      if p !in fs.dirs {
        return if p in fs.files then -ENOTDIR else -ENOENT;
      }
      if !Empty(fs, p) { return -ENOTEMPTY; }
      fs := fs.(dirs := fs.dirs - {p});
      ret := 0;
    }
  }

  // ------------------------------------------------------------ directory stack

  /** Where no directory can be entered or skipped: at a file, and at a name
      that is too long for the directory it is looked up in. */
  ghost predicate Bars(fs: Fs, p: Path) {
    p in fs.files || (p != [] && |Last(p)| > fs.longest && Parent(p) in fs.dirs)
  }

  /** A descriptor stands for its directory; the skip mark for a missing one. */
  ghost predicate Level(fd: int, p: Path, open: map<int, Path>, fs: Fs) {
    if fd == AT_SKIP then p !in fs.dirs && !Bars(fs, p)
    else
      && p in fs.dirs
      && (if p == [] then fd == AT_FDCWD else fd in open && open[fd] == p)
  }

  ghost predicate Stacked(fds: seq<int>, names: Path, open: map<int, Path>, fs: Fs) {
    && |fds| == |names| + 1
    && forall i :: 0 <= i < |fds| ==> Level(fds[i], names[..i], open, fs)
  }

  /** Levels with an open descriptor of their own. */
  ghost function Live(fds: seq<int>): nat {
    if |fds| <= 1 then 0
    else Live(fds[..|fds| - 1]) + (if fds[|fds| - 1] == AT_SKIP then 0 else 1)
  }

  lemma LivePush(fds: seq<int>, fd: int)
    requires fds != []
    ensures Live(fds + [fd]) == Live(fds) + (if fd == AT_SKIP then 0 else 1)
  {
    assert (fds + [fd])[..|fds|] == fds;
  }

  lemma StackPush(fds: seq<int>, names: Path, open: map<int, Path>, fs: Fs, fd: int, n: Name, open': map<int, Path>)
    requires Stacked(fds, names, open, fs) && Level(fd, names + [n], open', fs)
    requires forall f :: f in open ==> f in open' && open'[f] == open[f]
    ensures Stacked(fds + [fd], names + [n], open', fs)
  {
    var m := names + [n];
    forall i | 0 <= i < |fds + [fd]| ensures Level((fds + [fd])[i], m[..i], open', fs) {
      if i < |fds| {
        assert m[..i] == names[..i];
        assert Level(fds[i], names[..i], open, fs);
      } else {
        assert m[..i] == m;
      }
    }
  }

  /** Leaving a directory: its descriptor closes, and it may go. */
  lemma StackPop(fds: seq<int>, names: Path, open: map<int, Path>, fs: Fs, open': map<int, Path>, fs': Fs)
    requires Stacked(fds, names, open, fs) && names != []
    requires open' == open - {fds[|names|]} && fs'.files == fs.files && fs'.longest == fs.longest
    requires fs'.dirs == fs.dirs || fs'.dirs == fs.dirs - {names}
    requires forall f :: f in open ==> f > 0
    ensures Stacked(fds[..|names|], Parent(names), open', fs')
  {
    var top := fds[|names|];
    assert Level(top, names[..|names|], open, fs);
    assert names[..|names|] == names;
    forall i | 0 <= i < |names| ensures Level(fds[i], Parent(names)[..i], open', fs') {
      assert Parent(names)[..i] == names[..i];
      assert Level(fds[i], names[..i], open, fs);
      assert |names[..i]| != |names|;
    }
  }

  /** What removing a file leaves of the stack. */
  lemma StackKept(fds: seq<int>, names: Path, open: map<int, Path>, fs: Fs, fs': Fs)
    requires Stacked(fds, names, open, fs) && fs'.dirs == fs.dirs && fs'.files <= fs.files && fs'.longest == fs.longest
    ensures Stacked(fds, names, open, fs')
  {
    forall i | 0 <= i < |fds| ensures Level(fds[i], names[..i], open, fs') {
      assert Level(fds[i], names[..i], open, fs);
    }
  }

  /** A zero-terminated name in the buffer. */
  ghost predicate CString(s: seq<byte>, pos: int, n: Name) {
    0 <= pos && pos + |n| < |s| && s[pos..pos + |n|] == n && s[pos + |n|] == 0 && ZeroFree(n)
  }

  lemma CStringKept(s: seq<byte>, t: seq<byte>, pos: int, n: Name)
    requires CString(s, pos, n) && s <= t
    ensures CString(t, pos, n)
  {
    assert t[pos..pos + |n|] == s[pos..pos + |n|];
  }

  /** Directories gone between two states. */
  ghost predicate Swept(before: Fs, after: Fs, names: Path) {
    && after.dirs <= before.dirs
    && forall d :: d in before.dirs && d !in after.dirs ==> |d| >= 2 && d <= names
  }

  /** A line of the list: not too deep, with fit names. */
  ghost predicate Listed(line: Path) {
    line != [] && |line| <= MAXDEPTH + 1 && forall i :: 0 <= i < |line| ==> GoodName(line[i])
  }

  /** The first component ends at the first slash. */
  lemma CutAt(b: seq<byte>, p: nat, q: nat, e: nat, rest: Path)
    requires p <= q <= e <= |b| && b[p..e] == Text(rest) && rest != []
    requires forall i :: 0 <= i < |rest| ==> GoodName(rest[i])
    requires forall i :: p <= i < q ==> b[i] != SLASH
    requires q < e ==> b[q] == SLASH
    ensures b[p..q] == rest[0] && (q < e <==> |rest| > 1)
    ensures q < e ==> b[q + 1..e] == Text(rest[1..])
  {
    hide GoodName, Text;
    SliceParts(b, p, q, e);
    CutText(b[p..e], q - p, rest);
  }

  lemma SliceParts(b: seq<byte>, p: nat, q: nat, e: nat)
    requires p <= q <= e <= |b|
    requires forall i :: p <= i < q ==> b[i] != SLASH
    ensures forall i :: 0 <= i < q - p ==> b[p..e][i] != SLASH
    ensures b[p..e][..q - p] == b[p..q]
    ensures q < e ==> b[p..e][q - p] == b[q] && b[p..e][q - p + 1..] == b[q + 1..e]
  {
  }

  lemma CutText(s: seq<byte>, m: nat, rest: Path)
    requires rest != [] && GoodName(rest[0]) && s == Text(rest)
    requires m <= |s| && (m < |s| ==> s[m] == SLASH)
    requires forall i :: 0 <= i < m ==> s[i] != SLASH
    ensures s[..m] == rest[0] && (m < |s| <==> |rest| > 1)
    ensures m < |s| ==> s[m + 1..] == Text(rest[1..])
  {
    var n := rest[0];
    TextStep(rest);
    hide Text;
    GoodIsPlain(n);
    if |rest| > 1 {
      var t := Text(rest[1..]);
      assert s[|n|] == SLASH;
      assert forall i :: 0 <= i < |n| ==> s[i] == n[i];
      assert m == |n|;
      assert s[..m] == n && s[m + 1..] == t;
    }
  }

  lemma TextStep(p: Path)
    requires p != []
    ensures Text(p) == if |p| == 1 then p[0] else p[0] + [SLASH] + Text(p[1..])
  {
  }

  lemma TextNotEmpty(rest: Path)
    requires rest != [] && GoodName(rest[0])
    ensures Text(rest) != []
  {
  }

  lemma ListedTail(line: Path, j: nat)
    requires Listed(line) && j < |line|
    ensures forall i :: 0 <= i < |line[j..]| ==> GoodName(line[j..][i])
    ensures Text(line[j..]) != [] && ZeroFree(line[j]) && line[j..][0] == line[j]
  {
    GoodIsPlain(line[j]);
    TextNotEmpty(line[j..]);
  }

  /** The two topmost descriptors. */
  lemma StackFds(fds: seq<int>, names: Path, open: map<int, Path>, fs: Fs, i: nat)
    requires Stacked(fds, names, open, fs) && |names| == i + 1
    requires forall f :: f in open ==> f > 0
    ensures fds[i + 1] != AT_SKIP ==> fds[i + 1] in open
    ensures i > 0 && fds[i] != AT_SKIP ==> fds[i] in open && open[fds[i]] == names[..i] && fds[i] != fds[i + 1]
  {
    assert Level(fds[i + 1], names[..i + 1], open, fs);
    assert Level(fds[i], names[..i], open, fs);
    assert |names[..i]| != |names[..i + 1]|;
  }

  lemma NoSkipOpen(open: map<int, Path>, fd: int)
    requires forall f :: f in open ==> f > 0
    ensures fd == AT_SKIP ==> open - {fd} == open
  {
  }

  class Remover {
    const k: Kernel
    const buf: array<byte>
    var at: int
    var depth: nat
    var path: seq<int>
    var pfds: seq<int>
    /** The names on the stack. */
    ghost var names: Path

    /** The stack is `d` levels deep, its names lie before `limit`. */
    ghost predicate Held(d: nat, limit: nat)
      reads this, k, buf
    {
      && |path| == MAXDEPTH && |pfds| == MAXDEPTH && d == |names| <= MAXDEPTH && limit <= buf.Length
      && k.Valid() && Stacked(pfds[..d] + [at], names, k.open, k.fs)
      && k.opens - k.closes == Live(pfds[..d] + [at])
      && forall i :: 0 <= i < d ==> CString(buf[..limit], path[i], names[i])
    }

    ghost predicate Valid(limit: nat)
      reads this, k, buf
    {
      Held(depth, limit)
    }

    constructor (k: Kernel, buf: array<byte>)
      requires k.Valid() && k.open == map[] && k.opens == k.closes
      ensures Valid(0) && names == [] && this.k == k && this.buf == buf
    {
      this.k := k;
      this.buf := buf;
      at, depth, names := AT_FDCWD, 0, [];
      path, pfds := seq(MAXDEPTH, _ => 0), seq(MAXDEPTH, _ => 0);
      new;
      assert names[..0] == [];
    }

    /** The C string at `pos`. */
    method ReadStr(pos: int, ghost n: Name, ghost limit: nat) returns (s: Name)
      requires limit <= buf.Length && CString(buf[..limit], pos, n)
      ensures s == n
    {
      var q := pos;
      ghost var b := buf[..limit];
      assert forall j :: 0 <= j < |n| ==> b[pos + j] == b[pos..pos + |n|][j] == n[j];
      while buf[q] != 0
        invariant pos <= q <= pos + |n|
        decreases pos + |n| - q
      {
        q := q + 1;
      }
      s := buf[pos..q];
      assert s == b[pos..pos + |n|];
    }

    /** The system calls of one turn of the loop in `backtrack_path`. */
    method CloseTop(i: nat, ghost limit: nat)
      requires Held(i + 1, limit)
      modifies k
      ensures k.Valid() && k.open == old(k.open) - {at} && k.log == old(k.log)
      ensures k.opens == old(k.opens) && k.closes == old(k.closes) + (if at == AT_SKIP then 0 else 1)
      ensures k.fs == Left(old(k.fs), names)
    {
      hide Live, Tree, Stacked, Level, CString, Empty;
      ghost var fds := pfds[..i + 1] + [at];
      StackFds(fds, names, k.open, k.fs, i);
      NoneBelow(fds, names, k.open, k.fs, i);
      NoSkipOpen(k.open, at);
      if at != AT_SKIP {
        k.Close(at);
      }
      var up := pfds[i];
      assert up == fds[i];
      var name := ReadStr(path[i], names[i], limit);
      if i == 0 || up == AT_SKIP {
      } else {
        var ret := k.Rmdir(up, name);
        assert names[..i] + [names[i]] == names;
      }
    }

    /** One turn of the loop in `backtrack_path`. */
    method PopLevel(i: nat, ghost limit: nat)
      requires Held(i + 1, limit)
      modifies this`at, this`names, k
      ensures Held(i, limit) && names == old(names)[..i]
      ensures k.fs == Left(old(k.fs), old(names)) && k.log == old(k.log)
    {
      hide Live, Tree, Stacked, Level, CString, Empty;
      ghost var fds := pfds[..i + 1] + [at];
      ghost var open0, fs0, names0 := k.open, k.fs, names;
      CloseTop(i, limit);
      StackPop(fds, names0, open0, fs0, k.open, k.fs);
      LivePush(pfds[..i + 1], at);
      assert fds[..i + 1] == pfds[..i + 1];
      at := pfds[i];
      names := names[..i];
      assert pfds[..i] + [at] == pfds[..i + 1];
    }

    /** `backtrack_path`: close, and remove if possible, down to `lvl` levels. */
    method BacktrackPath(lvl: nat, ghost limit: nat)
      requires Valid(limit) && lvl <= depth
      modifies this`at, this`names, this`depth, k
      ensures Valid(limit) && names == old(names)[..lvl]
      ensures k.fs == Popped(old(k.fs), old(names), lvl) && k.log == old(k.log)
    {
      hide Live, Tree, Stacked, CString, Left;
      var i := depth;
      assert old(names)[..depth] == old(names);
      while i > lvl
        invariant lvl <= i <= depth == old(depth) && Held(i, limit) && names == old(names)[..i]
        invariant Popped(k.fs, names, lvl) == Popped(old(k.fs), old(names), lvl) && k.log == old(k.log)
      {
        i := i - 1;
        PopLevel(i, limit);
        assert old(names)[..i + 1][..i] == old(names)[..i];
      }
      depth := lvl;
    }

    /** `strecbrk`. */
    method Strecbrk(p: nat, e: nat, c: byte) returns (q: nat)
      requires p <= e <= buf.Length
      ensures p <= q <= e && (q < e ==> buf[q] == c) && forall i :: p <= i < q ==> buf[i] != c
    {
      q := p;
      while q < e && buf[q] != c
        invariant p <= q <= e && forall i :: p <= i < q ==> buf[i] != c
      {
        q := q + 1;
      }
    }

    /** `strnlen` and `memcmp` of a stack name with a component. */
    method Matches(pos: int, ds: nat, de: nat, ghost n: Name, ghost limit: nat) returns (same: bool)
      requires limit <= buf.Length && CString(buf[..limit], pos, n) && ds <= de <= buf.Length
      requires forall i :: ds <= i < de ==> buf[i] != 0
      ensures same <==> n == buf[ds..de]
    {
      var dl := de - ds;
      ghost var b := buf[..limit];
      assert forall j :: 0 <= j < |n| ==> b[pos + j] == b[pos..pos + |n|][j] == n[j];
      var pl := 0;
      while pl < dl + 1 && buf[pos + pl] != 0
        invariant 0 <= pl <= dl + 1 && pl <= |n|
        decreases dl + 1 - pl
      {
        pl := pl + 1;
      }
      assert pl == |n| || pl == dl + 1;
      if pl != dl {
        assert |n| != dl == |buf[ds..de]|;
        return false;
      }
      var i := 0;
      while i < dl
        invariant 0 <= i <= dl && forall j :: 0 <= j < i ==> n[j] == buf[ds + j]
      {
        if buf[pos + i] != buf[ds + i] {
          assert n[i] != buf[ds..de][i];
          return false;
        }
        i := i + 1;
      }
      assert n == buf[ds..de];
      same := true;
    }

    /** The loop of `skip_open_dirs`: how many levels the stack and the line
        have in common. */
    method MatchDirs(p0: nat, e: nat, ghost line: Path) returns (p: nat, lvl: nat)
      requires Valid(p0) && p0 <= e <= buf.Length && Listed(line) && buf[p0..e] == Text(line)
      modifies buf
      ensures p0 <= p <= e && Valid(p0) && lvl < |line| && lvl <= |names| && names[..lvl] == line[..lvl]
      ensures buf[p..e] == Text(line[lvl..]) && buf[e..] == old(buf[e..])
      ensures lvl < |names| && lvl + 1 < |line| ==> names[lvl] != line[lvl]
    {
      hide Live, Tree, Stacked, Level, CString, Empty, Text, Listed, ZeroFree, GoodName;
      p := p0;
      lvl := 0;
      assert line[0..] == line;
      ListedDeep(line);
      while p < e && lvl < depth
        invariant p0 <= p <= e && Valid(p0) && lvl <= depth
        invariant lvl < |line| && names[..lvl] == line[..lvl]
        invariant buf[p..e] == Text(line[lvl..]) && buf[e..] == old(buf[e..]) && buf[..p0] == old(buf[..p0])
        decreases |line| - lvl
      {
        var de := Strecbrk(p, e, SLASH);
        ListedTail(line, lvl);
        CutAt(buf[..], p, de, e, line[lvl..]);
        if de >= e { break; }
        Nonzero(buf[..], p, de, line[lvl]);
        var same := Matches(path[lvl], p, de, names[lvl], p0);
        if !same { break; }
        assert line[lvl..][1..] == line[lvl + 1..];
        assert names[..lvl + 1] == names[..lvl] + [names[lvl]] && line[..lvl + 1] == line[..lvl] + [line[lvl]];
        ghost var rest := buf[de + 1..e];
        buf[de] := 0;
        assert buf[de + 1..e] == rest;
        p := de + 1;
        lvl := lvl + 1;
      }
      ListedTail(line, lvl);
    }

    /** `skip_open_dirs`: the common beginning of the stack and the line stays,
        the rest of the stack is closed. */
    method SkipOpenDirs(p0: nat, e: nat, ghost line: Path) returns (p: nat, ghost lvl: nat)
      requires Valid(p0) && p0 <= e <= buf.Length && Listed(line) && buf[p0..e] == Text(line)
      modifies this`at, this`names, this`depth, k, buf
      ensures p0 <= p <= e && Valid(p) && lvl < |line| && names == line[..lvl]
      ensures buf[p..e] == Text(line[lvl..]) && buf[e..] == old(buf[e..])
      ensures line != [] && k.fs == Back(old(k.fs), old(names), line) && k.log == old(k.log)
    {
      hide Live, Tree, Stacked, Level, CString, Popped, Empty, Text, Listed;
      ListedDeep(line);
      var l;
      p, l := MatchDirs(p0, e, line);
      CommonIs(names, Parent(line), l);
      BacktrackPath(l, p0);
      lvl := l;
      HeldLater(p0, p);
    }

    /** Names before an earlier limit are before a later one. */
    lemma HeldLater(limit: nat, later: nat)
      requires Held(depth, limit) && limit <= later <= buf.Length
      ensures Held(depth, later)
    {
      hide Live, Tree, Stacked, Level, CString;
      forall i | 0 <= i < depth ensures CString(buf[..later], path[i], names[i]) {
        assert buf[..limit] <= buf[..later];
        CStringKept(buf[..limit], buf[..later], path[i], names[i]);
      }
    }

    /** `openat` as `enter_new_dirs` does it. */
    method OpenNext(n: Name) returns (ok: bool, fd: int)
      requires k.Valid() && (at != AT_SKIP ==> k.Known(at) && k.Dir(at) == names)
      requires names in k.fs.dirs <==> at != AT_SKIP
      modifies k
      ensures k.Valid() && k.fs == old(k.fs) && k.log == old(k.log) && k.closes == old(k.closes)
      ensures ok <==> !Bars(k.fs, names + [n])
      ensures ok ==> Level(fd, names + [n], k.open, k.fs)
      ensures forall f :: f in old(k.open) ==> f in k.open && k.open[f] == old(k.open)[f]
      ensures ok ==> k.opens == old(k.opens) + (if fd == AT_SKIP then 0 else 1)
      ensures !ok ==> k.open == old(k.open) && k.opens == old(k.opens)
    {
      assert Parent(names + [n]) == names && Last(names + [n]) == n;
      if at == AT_SKIP {
        return true, at;
      }
      fd := k.OpenAt(at, n);
      if fd < 0 {
        if fd != -ENOENT { return false, fd; }
        fd := AT_SKIP;
      }
      ok := true;
    }

    /** One turn of the loop in `enter_new_dirs`: the slash is overwritten and
        the directory pushed. */
    method PushLevel(p: nat, nend: nat, ghost n: Name) returns (ok: bool)
      requires Valid(p) && p <= nend < buf.Length && buf[p..nend] == n && ZeroFree(n)
      modifies this`at, this`names, this`depth, this`path, this`pfds, k, buf
      ensures ok <==> old(depth) < MAXDEPTH && !Bars(old(k.fs), old(names) + [n])
      ensures ok ==> Valid(nend + 1) && names == old(names) + [n]
      ensures !ok ==> Valid(p) && names == old(names)
      ensures k.fs == old(k.fs) && k.log == old(k.log) && buf[nend + 1..] == old(buf[nend + 1..])
    {
      hide Live, Tree, Stacked, Level, CString, Empty, ZeroFree, Bars;
      ghost var fds := pfds[..depth] + [at];
      StackTop(fds, names, k.open, k.fs);
      assert fds[|names|] == at;
      buf[nend] := 0;
      assert buf[..p] == old(buf[..p]);
      var name := buf[p..nend];
      assert name == n;
      var lvl := depth;
      if lvl >= MAXDEPTH { return false; }
      ghost var open0 := k.open;
      var fd;
      ok, fd := OpenNext(name);
      if !ok { return; }
      Push(lvl, fd, p, nend, n, open0);
    }

    /** The new level goes on the stack. */
    method Push(lvl: nat, fd: int, p: nat, ghost nend: nat, ghost n: Name, ghost open0: map<int, Path>)
      requires lvl == depth < MAXDEPTH && |path| == MAXDEPTH && |pfds| == MAXDEPTH && lvl == |names|
      requires k.Valid() && Stacked(pfds[..lvl] + [at], names, open0, k.fs) && Level(fd, names + [n], k.open, k.fs)
      requires k.opens - k.closes == Live(pfds[..lvl] + [at]) + (if fd == AT_SKIP then 0 else 1)
      requires forall f :: f in open0 ==> f in k.open && k.open[f] == open0[f]
      requires p <= nend < buf.Length && buf[p..nend] == n && buf[nend] == 0 && ZeroFree(n)
      requires forall i :: 0 <= i < lvl ==> CString(buf[..p], path[i], names[i])
      modifies this`at, this`names, this`depth, this`path, this`pfds
      ensures Valid(nend + 1) && names == old(names) + [n]
    {
      hide Live, Tree, Stacked, Level, CString, Empty, ZeroFree;
      ghost var fds := pfds[..lvl] + [at];
      StackPush(fds, names, open0, k.fs, fd, n, k.open);
      LivePush(fds, fd);
      pfds := pfds[lvl := at];
      assert pfds[..lvl + 1] == fds;
      at := fd;
      path := path[lvl := p];
      depth := lvl + 1;
      names := names + [n];
      StringsKept(p, nend, n, lvl);
    }

    lemma StringsKept(p: nat, nend: nat, n: Name, lvl: nat)
      requires |path| == MAXDEPTH && lvl < MAXDEPTH && |names| == lvl + 1 && p <= nend < buf.Length
      requires forall i :: 0 <= i < lvl ==> CString(buf[..p], path[i], names[i])
      requires path[lvl] == p && names[lvl] == n && buf[p..nend] == n && buf[nend] == 0 && ZeroFree(n)
      ensures forall i :: 0 <= i <= lvl ==> CString(buf[..nend + 1], path[i], names[i])
    {
      hide ZeroFree;
      forall i | 0 <= i <= lvl ensures CString(buf[..nend + 1], path[i], names[i]) {
        if i < lvl {
          assert buf[..p] <= buf[..nend + 1];
          CStringKept(buf[..p], buf[..nend + 1], path[i], names[i]);
        } else {
          assert buf[..nend + 1][p..p + |n|] == buf[p..nend];
        }
      }
    }

    /** Going into directory `j` of the line. */
    method EnterOne(p: nat, nend: nat, e: nat, ghost line: Path, ghost j: nat) returns (ok: bool)
      requires Valid(p) && p <= nend < e <= buf.Length && j + 1 < |line| <= MAXDEPTH + 1 && names == line[..j]
      requires buf[p..nend] == line[j] && ZeroFree(line[j]) && buf[nend + 1..e] == Text(line[j + 1..])
      requires ClearTo(k.fs, line, j)
      modifies this`at, this`names, this`depth, this`path, this`pfds, k, buf
      ensures ok ==> Valid(nend + 1) && names == line[..j + 1] && ClearTo(k.fs, line, j + 1)
      ensures !ok ==> Blocked(k.fs, line) && Valid(p) && names == old(names)
      ensures buf[nend + 1..e] == Text(line[j + 1..]) && buf[e..] == old(buf[e..])
      ensures k.fs == old(k.fs) && k.log == old(k.log)
    {
      hide Live, Tree, Stacked, Level, CString, Empty, Text, ZeroFree, Blocked, Bars;
      assert line[..j] + [line[j]] == line[..j + 1];
      ghost var was := buf[..];
      assert was[nend + 1..e] == buf[nend + 1..e] && was[e..] == buf[e..];
      ok := PushLevel(p, nend, line[j]);
      assert buf[nend + 1..] == buf[..][nend + 1..] && was[nend + 1..] == old(buf[nend + 1..]);
      TailKept(was, buf[..], nend + 1, e);
      if !ok {
        BlockedHere(k.fs, line, j + 1);
      }
    }

    /** `enter_new_dirs`: the stack becomes the directory part of the line,
        unless a file stands in the way. */
    method EnterNewDirs(p0: nat, e: nat, ghost line: Path, ghost lvl: nat) returns (ok: bool, p: nat)
      requires Valid(p0) && p0 <= e <= buf.Length && Listed(line) && lvl < |line|
      requires names == line[..lvl] && buf[p0..e] == Text(line[lvl..])
      modifies this`at, this`names, this`depth, this`path, this`pfds, k, buf
      ensures ok <==> !Blocked(k.fs, line)
      ensures p0 <= p <= e && Valid(p) && names <= Parent(line)
      ensures ok ==> names == Parent(line) && buf[p..e] == line[|line| - 1]
      ensures k.fs == old(k.fs) && k.log == old(k.log) && buf[e..] == old(buf[e..])
    {
      hide Live, Tree, Stacked, Level, CString, Empty, Text, Listed, ZeroFree, GoodName, Blocked, Bars;
      p := p0;
      ListedDeep(line);
      NotBlocked(pfds[..depth] + [at], names, k.open, k.fs, line);
      ghost var j := lvl;
      while p < e
        invariant p0 <= p <= e && Valid(p) && j < |line| && names == line[..j]
        invariant buf[p..e] == Text(line[j..]) && buf[e..] == old(buf[e..])
        invariant k.fs == old(k.fs) && k.log == old(k.log) && ClearTo(k.fs, line, j)
        decreases |line| - j
      {
        var nend := Strecbrk(p, e, SLASH);
        ListedTail(line, j);
        CutAt(buf[..], p, nend, e, line[j..]);
        if nend >= e { break; }
        assert line[j..][1..] == line[j + 1..];
        ok := EnterOne(p, nend, e, line, j);
        if !ok { return; }
        p := nend + 1;
        j := j + 1;
      }
      ListedTail(line, j);
      assert line[..|line| - 1] == Parent(line);
      ClearAll(k.fs, line, j);
      ok := true;
    }

    /** `unlink_tail`: the file goes, if its directory is there. */
    method UnlinkTail(p: nat, e: nat, ghost line: Path)
      requires Valid(p) && p <= e <= buf.Length && line == names + [buf[p..e]]
      modifies k
      ensures Valid(p) && k.fs == Without(old(k.fs), line)
      ensures k.log == if line in old(k.fs.files) then old(k.log) + [line] else old(k.log)
    {
      hide Live, Stacked, Level, CString, Empty;
      ghost var fds := pfds[..depth] + [at];
      StackTop(fds, names, k.open, k.fs);
      assert fds[|names|] == at;
      if at == AT_SKIP {
        assert Parent(line) == names;
        return;
      }
      ghost var fs0 := k.fs;
      var ret := k.Unlink(at, buf[p..e]);
      StackKept(fds, names, k.open, fs0, k.fs);
    }

    /** `enter_skip_dir` and `unlink_tail`: afterwards the stack is the
        directory part of the line, and its file is gone. */
    method RemoveLine(p: nat, e: nat, ghost line: Path) returns (ok: bool)
      requires Valid(p) && p <= e <= buf.Length && Listed(line) && buf[p..e] == Text(line)
      modifies this`at, this`names, this`depth, this`path, this`pfds, k, buf
      ensures line != [] && Valid(e) && names <= Parent(line) && buf[e..] == old(buf[e..])
      ensures var fs := Back(old(k.fs), old(names), line);
        && (ok <==> !Blocked(fs, line))
        && k.fs == (if ok then Without(fs, line) else fs)
      ensures ok ==> names == Parent(line)
      ensures k.log == if ok && line in old(k.fs.files) then old(k.log) + [line] else old(k.log)
    {
      hide Live, Tree, Stacked, Level, CString, Empty, Text, Listed, Blocked, Popped;
      ListedDeep(line);
      BackKeeps(k.fs, names, line);
      var q;
      ghost var lvl;
      q, lvl := SkipOpenDirs(p, e, line);
      ok, q := EnterNewDirs(q, e, line, lvl);
      if !ok {
        HeldLater(q, e);
        return;
      }
      assert line == Parent(line) + [line[|line| - 1]];
      UnlinkTail(q, e, line);
      HeldLater(q, e);
    }

    /** `unlink_files`: the first `j` lines are removed as with one `rm` per line:
        exactly the files among them that are there, in order.  It goes through
        the whole list, and leaves no descriptor open, unless line `j` needs a
        directory where a plain file stands, or one whose name is too long to
        be looked up; there it stops, with a beginning of that line on the
        stack.  Directories go when they are left, if they are empty then. */
    method UnlinkFiles(ghost lines: seq<Path>) returns (ok: bool, ghost j: nat)
      requires Valid(0) && names == [] && forall i :: 0 <= i < |lines| ==> Listed(lines[i])
      requires buf[..] == Render(lines)
      modifies this, k, buf
      ensures ok <==> Clear(old(k.fs), lines)
      ensures j <= |lines| && (ok <==> j == |lines|) && Clear(old(k.fs), lines[..j])
      ensures k.fs.files == Remaining(old(k.fs.files), lines[..j])
      ensures k.log == old(k.log) + Removed(old(k.fs.files), lines[..j])
      ensures SweptBy(old(k.fs), k.fs, lines[..j])
      ensures ok ==> k.fs == Popped(After(old(k.fs), lines), Cwd(lines), 0) && k.opens == k.closes
      ensures ok ==> Tidy(k.fs, lines, [])
      ensures !ok ==> lines[j] != [] && k.fs == Turn(old(k.fs), lines[..j], lines[j]) && Blocked(k.fs, lines[j])
      ensures !ok ==> names < lines[j] && |names| <= MAXDEPTH == |pfds|
      ensures !ok ==> k.opens - k.closes == Live(pfds[..|names|] + [at])
    {
      hide Live, Tree, Stacked, Level, CString, Empty, Text, Listed, Blocked, SweptBy, After, Popped, Turn, Tidy;
      hide Render, Clear, Remaining, Removed;
      ghost var fs0, log0 := k.fs, k.log;
      var p: nat, e := 0, buf.Length;
      j := 0;
      Start(fs0, lines);
      NoneEmpty(lines);
      while p < e
        invariant 0 <= j <= |lines| && Upto(p, lines, j, fs0, log0)
        decreases |lines| - j
      {
        LineThere(lines, j);
        ok, p := TakeLine(p, e, lines, j, fs0, log0);
        if !ok {
          TurnKeeps(fs0, lines[..j], lines[j]);
          return;
        }
        j := j + 1;
      }
      AllDone(lines, j);
      assert lines[..|lines|] == lines;
      BacktrackPath(0, p);
      EndKeeps(fs0, lines);
      EndTidy(fs0, lines);
      NoLive(pfds[..depth] + [at]);
      ok := true;
    }

    /** After `j` lines: the rest of the text is untouched, the stack is where
        the last line left it, and the file system is as after `j` removals. */
    ghost predicate Upto(p: nat, lines: seq<Path>, j: nat, fs0: Fs, log0: seq<Path>)
      reads this, k, buf
    {
      && j <= |lines| && p == |Render(lines[..j])| <= buf.Length == |Render(lines)| && Valid(p)
      && names == Cwd(lines[..j]) && buf[p..] == Render(lines)[p..]
      && k.fs == After(fs0, lines[..j]) && Clear(fs0, lines[..j])
      && k.log == log0 + Removed(fs0.files, lines[..j])
    }

    /** Line `j` is blocked: all is as the lines before it left it. */
    ghost predicate Stopped(lines: seq<Path>, j: nat, fs0: Fs, log0: seq<Path>)
      reads this, k, buf
    {
      && j < |lines| && lines[j] != [] && Valid(buf.Length) && names <= Parent(lines[j])
      && k.fs == Turn(fs0, lines[..j], lines[j]) && Blocked(k.fs, lines[j])
      && k.log == log0 + Removed(fs0.files, lines[..j])
    }

    /** One turn of the loop in `unlink_files`. */
    method TakeLine(p0: nat, e: nat, ghost lines: seq<Path>, ghost j: nat, ghost fs0: Fs, ghost log0: seq<Path>)
      returns (ok: bool, p: nat)
      requires j < |lines| && p0 <= e == buf.Length && (forall i :: 0 <= i < |lines| ==> Listed(lines[i]))
      requires Upto(p0, lines, j, fs0, log0)
      modifies this`at, this`names, this`depth, this`path, this`pfds, k, buf
      ensures ok ==> Upto(p, lines, j + 1, fs0, log0)
      ensures !ok ==> !Clear(fs0, lines) && Clear(fs0, lines[..j]) && Stopped(lines, j, fs0, log0)
    {
      hide Live, Tree, Stacked, Level, CString, Empty, Text, Listed, Blocked, Back, After;
      hide Render, Clear, Remaining, Removed, Held;
      var le := Strecbrk(p0, e, NEWLINE);
      p := le + 1;
      LineAt(lines, j, buf[..], p0, le);
      ListedDeep(lines[j]);
      NoneEmpty(lines);
      StepOver(fs0, lines, j);
      AfterFiles(fs0, lines[..j]);
      ghost var was, text := buf[..], Render(lines);
      TailKept(was, text, p0, le);
      ok := RemoveLine(p0, le, lines[j]);
      if !ok {
        NotClear(fs0, lines, j);
        HeldLater(le, buf.Length);
        return;
      }
      assert buf[le..] == buf[..][le..] && was[le..] == text[le..];
      TailKept(buf[..], text, le, le + 1);
      HeldLater(le, le + 1);
    }
  }

  // ---------------------------------------------------------- leaving directories

  /** Leaving a directory: it goes if it is empty, unless it is at the top. */
  ghost function Left(fs: Fs, d: Path): Fs {
    if |d| >= 2 && d in fs.dirs && Empty(fs, d) then fs.(dirs := fs.dirs - {d}) else fs
  }

  /** Leaving `d` and the directories above it, down to `lvl` names. */
  ghost function Popped(fs: Fs, d: Path, lvl: nat): Fs
    decreases |d|
  {
    if |d| <= lvl then fs else Popped(Left(fs, d), Parent(d), lvl)
  }

  /** How many names two paths have in common. */
  function Common(a: Path, b: Path): nat {
    if a == [] || b == [] || a[0] != b[0] then 0 else 1 + Common(a[1..], b[1..])
  }

  /** From directory `cwd` back to one above `line`. */
  ghost function Back(fs: Fs, cwd: Path, line: Path): Fs
    requires line != []
  {
    Popped(fs, cwd, Common(cwd, Parent(line)))
  }

  function Without(fs: Fs, p: Path): Fs { fs.(files := fs.files - {p}) }

  lemma {:induction false} CommonIs(a: Path, b: Path, n: nat)
    requires n <= |a| && n <= |b| && a[..n] == b[..n] && (n < |a| && n < |b| ==> a[n] != b[n])
    ensures Common(a, b) == n
    decreases n
  {
    if n > 0 {
      assert a[0] == a[..n][0] == b[..n][0] == b[0];
      assert a[1..][..n - 1] == a[..n][1..] && b[1..][..n - 1] == b[..n][1..];
      CommonIs(a[1..], b[1..], n - 1);
    }
  }

  lemma {:induction false} PoppedKeeps(fs: Fs, d: Path, lvl: nat)
    ensures var f := Popped(fs, d, lvl);
      f.files == fs.files && f.longest == fs.longest && Swept(fs, f, d)
    decreases |d|
  {
    hide Empty;
    if |d| > lvl { PoppedKeeps(Left(fs, d), Parent(d), lvl); }
  }

  lemma BackKeeps(fs: Fs, cwd: Path, line: Path)
    requires line != []
    ensures var f := Back(fs, cwd, line);
      f.files == fs.files && f.longest == fs.longest && Swept(fs, f, cwd)
  {
    hide Popped, Swept;
    PoppedKeeps(fs, cwd, Common(cwd, Parent(line)));
  }

  /** With nothing below a missing directory, leaving it changes nothing. */
  lemma NoneBelow(fds: seq<int>, names: Path, open: map<int, Path>, fs: Fs, i: nat)
    requires Stacked(fds, names, open, fs) && Tree(fs) && |names| == i + 1
    ensures fds[i] == AT_SKIP ==> names !in fs.dirs
    ensures i == 0 || fds[i] == AT_SKIP ==> Left(fs, names) == fs
  {
    hide Empty;
    assert Level(fds[i], names[..i], open, fs);
    assert Parent(names) == names[..i];
  }

  // ------------------------------------------------------ one `rm` for each line

  /** The directory the last line was in. */
  function Cwd(lines: seq<Path>): Path {
    if lines == [] || lines[|lines| - 1] == [] then [] else Parent(lines[|lines| - 1])
  }

  /** When `line` takes its turn after `before`. */
  ghost function Turn(fs: Fs, before: seq<Path>, line: Path): Fs
    requires line != []
    decreases |before|, 1
  {
    Back(After(fs, before), Cwd(before), line)
  }

  /** The file system after removing the lines, in the last one's directory. */
  ghost function After(fs: Fs, lines: seq<Path>): Fs
    decreases |lines|, 0
  {
    if lines == [] then fs
    else
      var init, l := lines[..|lines| - 1], lines[|lines| - 1];
      if l == [] then After(fs, init) else Without(Turn(fs, init, l), l)
  }

  /** The files left after removing the lines one by one. */
  ghost function Remaining(files: set<Path>, lines: seq<Path>): set<Path> {
    if lines == [] then files
    else Remaining(files, lines[..|lines| - 1]) - {lines[|lines| - 1]}
  }

  /** The removals that find their file. */
  ghost function Removed(files: set<Path>, lines: seq<Path>): seq<Path> {
    if lines == [] then []
    else
      var init, l := lines[..|lines| - 1], lines[|lines| - 1];
      Removed(files, init) + (if l in Remaining(files, init) then [l] else [])
  }

  /** No line, at its turn, has a file or too long a name on its way. */
  ghost predicate Clear(fs: Fs, lines: seq<Path>) {
    lines == [] ||
    var init, l := lines[..|lines| - 1], lines[|lines| - 1];
    Clear(fs, init) && l != [] && !Blocked(Turn(fs, init, l), l)
  }

  /** Only directories on the way to listed files are gone, none at the top. */
  ghost predicate SweptBy(before: Fs, after: Fs, lines: seq<Path>) {
    && after.dirs <= before.dirs
    && forall d :: d in before.dirs && d !in after.dirs ==> |d| >= 2 && Above(d, lines)
  }

  ghost predicate Above(d: Path, lines: seq<Path>) {
    exists i :: 0 <= i < |lines| && |d| < |lines[i]| && d <= lines[i]
  }

  /** Of the directories on the way to a line, those left behind from `cwd` are
      not empty, except at the top. */
  ghost predicate Tidy(fs: Fs, lines: seq<Path>, cwd: Path) {
    forall d :: d in fs.dirs && |d| >= 2 && Above(d, lines) && !(d <= cwd) ==> !Empty(fs, d)
  }

  lemma LeftTidy(fs: Fs, lines: seq<Path>, d: Path)
    requires Tidy(fs, lines, d) && d != []
    ensures Tidy(Left(fs, d), lines, Parent(d))
  {
    hide Above;
    var f := Left(fs, d);
    forall x | x in f.dirs && |x| >= 2 && Above(x, lines) && !(x <= Parent(d)) ensures !Empty(f, x) {
      if x <= d { assert x == d; } else { LeftBelow(fs, d, x); }
    }
  }

  /** Only the directory above sees one go. */
  lemma LeftBelow(fs: Fs, d: Path, x: Path)
    requires !Empty(fs, x) && d != [] && x != Parent(d)
    ensures !Empty(Left(fs, d), x)
  {
  }

  lemma {:induction false} PoppedTidy(fs: Fs, lines: seq<Path>, d: Path, lvl: nat)
    requires Tidy(fs, lines, d) && lvl <= |d|
    ensures Tidy(Popped(fs, d, lvl), lines, d[..lvl])
    decreases |d|
  {
    hide Tidy, Left;
    if |d| > lvl {
      LeftTidy(fs, lines, d);
      PoppedTidy(Left(fs, d), lines, Parent(d), lvl);
      assert Parent(d)[..lvl] == d[..lvl];
    } else {
      assert d[..lvl] == d;
    }
  }

  lemma {:induction false} CommonPart(a: Path, b: Path)
    ensures Common(a, b) <= |a| && Common(a, b) <= |b| && a[..Common(a, b)] == b[..Common(a, b)]
  {
    if a != [] && b != [] && a[0] == b[0] {
      CommonPart(a[1..], b[1..]);
      var n := Common(a, b);
      assert a[..n] == [a[0]] + a[1..][..n - 1] && b[..n] == [b[0]] + b[1..][..n - 1];
    }
  }

  lemma LineTidy(fs: Fs, lines: seq<Path>, l: Path, c: Path)
    requires l != [] && c <= Parent(l) && Tidy(fs, lines, c)
    ensures Tidy(Without(fs, l), lines + [l], Parent(l))
  {
    hide Above;
    var f := Without(fs, l);
    forall d | d in f.dirs && |d| >= 2 && Above(d, lines + [l]) && !(d <= Parent(l)) ensures !Empty(f, d) {
      AboveWhich(d, lines, l, c);
      assert !Empty(fs, d);
    }
  }

  lemma AboveWhich(d: Path, lines: seq<Path>, l: Path, c: Path)
    requires Above(d, lines + [l]) && l != [] && c <= Parent(l)
    ensures Above(d, lines) || d <= Parent(l)
    ensures d <= c ==> d <= Parent(l)
  {
    var i :| 0 <= i < |lines + [l]| && |d| < |(lines + [l])[i]| && d <= (lines + [l])[i];
    if i < |lines| { assert (lines + [l])[i] == lines[i]; }
  }

  /** At any time, directories left behind are not empty. */
  lemma {:induction false} AfterTidy(fs: Fs, lines: seq<Path>)
    requires forall i :: 0 <= i < |lines| ==> lines[i] != []
    ensures Tidy(After(fs, lines), lines, Cwd(lines))
  {
    hide Tidy, Popped, Common;
    if lines == [] {
      NoLines(fs);
    } else {
      var init, l := lines[..|lines| - 1], lines[|lines| - 1];
      var cwd := Cwd(init);
      AfterTidy(fs, init);
      CommonPart(cwd, Parent(l));
      var c := Common(cwd, Parent(l));
      PoppedTidy(After(fs, init), init, cwd, c);
      LineTidy(Turn(fs, init, l), init, l, cwd[..c]);
      assert init + [l] == lines;
    }
  }

  lemma NoLines(fs: Fs)
    ensures Tidy(fs, [], [])
  {
  }

  /** In the end no directory on the way to a listed file is left empty,
      except at the top. */
  lemma EndTidy(fs: Fs, lines: seq<Path>)
    requires forall i :: 0 <= i < |lines| ==> lines[i] != []
    ensures Tidy(Popped(After(fs, lines), Cwd(lines), 0), lines, [])
  {
    hide Tidy, Popped, After;
    AfterTidy(fs, lines);
    PoppedTidy(After(fs, lines), lines, Cwd(lines), 0);
  }

  lemma Start(fs: Fs, lines: seq<Path>)
    ensures lines[..0] == [] && Render([]) == [] && After(fs, []) == fs && Cwd([]) == []
    ensures Removed(fs.files, []) == [] && Clear(fs, [])
  {
  }

  lemma StepOver(fs: Fs, lines: seq<Path>, j: nat)
    requires j < |lines| && lines[j] != []
    ensures var now, l := Turn(fs, lines[..j], lines[j]), lines[j];
      && now == Back(After(fs, lines[..j]), Cwd(lines[..j]), l)
      && After(fs, lines[..j + 1]) == Without(now, l) && Cwd(lines[..j + 1]) == Parent(l)
      && Removed(fs.files, lines[..j + 1]) == Removed(fs.files, lines[..j]) +
            (if l in Remaining(fs.files, lines[..j]) then [l] else [])
      && (Clear(fs, lines[..j + 1]) <==> Clear(fs, lines[..j]) && !Blocked(now, l))
  {
    hide Blocked, Back;
    assert lines[..j + 1][..j] == lines[..j];
  }

  lemma {:induction false} ClearPrefix(fs: Fs, lines: seq<Path>, j: nat)
    requires j <= |lines| && Clear(fs, lines)
    ensures Clear(fs, lines[..j])
    decreases |lines|
  {
    hide Blocked, Turn;
    if j == |lines| {
      assert lines[..j] == lines;
    } else {
      ClearPrefix(fs, lines[..|lines| - 1], j);
      assert lines[..|lines| - 1][..j] == lines[..j];
    }
  }

  lemma NotClear(fs: Fs, lines: seq<Path>, j: nat)
    requires j < |lines| && !Clear(fs, lines[..j + 1])
    ensures !Clear(fs, lines)
  {
    if Clear(fs, lines) { ClearPrefix(fs, lines, j + 1); }
  }

  /** Of the files, what one `rm` for each line leaves. */
  lemma {:induction false} AfterFiles(fs: Fs, lines: seq<Path>)
    requires forall i :: 0 <= i < |lines| ==> lines[i] != []
    ensures After(fs, lines).files == Remaining(fs.files, lines) && After(fs, lines).longest == fs.longest
  {
    hide Back;
    if lines != [] {
      var init, l := lines[..|lines| - 1], lines[|lines| - 1];
      AfterFiles(fs, init);
      BackKeeps(After(fs, init), Cwd(init), l);
    }
  }

  /** Of the directories, only some on the way to a line are gone. */
  lemma {:induction false} AfterSwept(fs: Fs, lines: seq<Path>)
    requires forall i :: 0 <= i < |lines| ==> lines[i] != []
    ensures SweptBy(fs, After(fs, lines), lines)
  {
    hide Back, SweptBy, Swept;
    if lines == [] {
      Start(fs, lines);
      SweptNone(fs);
    } else {
      var init, l := lines[..|lines| - 1], lines[|lines| - 1];
      AfterSwept(fs, init);
      BackKeeps(After(fs, init), Cwd(init), l);
      SweptMore(fs, After(fs, init), Back(After(fs, init), Cwd(init), l), init);
      SweptWider(fs, After(fs, lines), init, l);
      assert init + [l] == lines;
    }
  }

  lemma SweptNone(fs: Fs)
    ensures SweptBy(fs, fs, [])
  {
  }

  lemma SweptMore(before: Fs, mid: Fs, after: Fs, lines: seq<Path>)
    requires SweptBy(before, mid, lines) && Swept(mid, after, Cwd(lines))
    ensures SweptBy(before, after, lines)
  {
    forall d | d in before.dirs && d !in after.dirs ensures |d| >= 2 && Above(d, lines) {
      if d in mid.dirs { assert d <= lines[|lines| - 1]; }
    }
  }

  lemma SweptWider(before: Fs, after: Fs, lines: seq<Path>, l: Path)
    ensures forall fs: Fs :: fs.dirs == after.dirs && SweptBy(before, fs, lines) ==> SweptBy(before, after, lines + [l])
  {
    forall fs: Fs, d | fs.dirs == after.dirs && SweptBy(before, fs, lines) && d in before.dirs && d !in after.dirs
      ensures |d| >= 2 && Above(d, lines + [l])
    {
      var i :| 0 <= i < |lines| && |d| < |lines[i]| && d <= lines[i];
      assert (lines + [l])[i] == lines[i];
    }
  }

  lemma TurnKeeps(fs: Fs, before: seq<Path>, line: Path)
    requires line != [] && forall i :: 0 <= i < |before| ==> before[i] != []
    ensures var f := Turn(fs, before, line);
      f.files == Remaining(fs.files, before) && f.longest == fs.longest && SweptBy(fs, f, before)
  {
    hide After, Back, SweptBy, Swept;
    AfterFiles(fs, before);
    AfterSwept(fs, before);
    BackKeeps(After(fs, before), Cwd(before), line);
    SweptMore(fs, After(fs, before), Turn(fs, before, line), before);
  }

  lemma EndKeeps(fs: Fs, lines: seq<Path>)
    requires forall i :: 0 <= i < |lines| ==> lines[i] != []
    ensures var f := Popped(After(fs, lines), Cwd(lines), 0);
      f.files == Remaining(fs.files, lines) && SweptBy(fs, f, lines)
  {
    hide After, Popped, SweptBy, Swept;
    AfterFiles(fs, lines);
    AfterSwept(fs, lines);
    PoppedKeeps(After(fs, lines), Cwd(lines), 0);
    SweptMore(fs, After(fs, lines), Popped(After(fs, lines), Cwd(lines), 0), lines);
  }

  lemma NoLive(fds: seq<int>)
    requires |fds| == 1
    ensures Live(fds) == 0
  {
  }

  lemma {:induction false} RenderPrefix(lines: seq<Path>, j: nat)
    requires j <= |lines|
    ensures Render(lines[..j]) <= Render(lines)
    decreases |lines|
  {
    hide Text;
    if j == |lines| {
      assert lines[..j] == lines;
    } else {
      RenderPrefix(lines[..|lines| - 1], j);
      assert lines[..|lines| - 1][..j] == lines[..j];
    }
  }

  lemma RenderLine(lines: seq<Path>, j: nat)
    requires j < |lines|
    ensures var p := |Render(lines[..j])|;
      Has(Render(lines), p, Text(lines[j]) + [NEWLINE]) && |Render(lines[..j + 1])| == p + |Text(lines[j])| + 1
  {
    hide Text, Render;
    assert lines[..j + 1] == lines[..j] + [lines[j]];
    RenderNext(lines[..j], lines[j]);
    RenderPrefix(lines, j + 1);
    var a, b, s := Render(lines[..j]), Render(lines[..j + 1]), Render(lines);
    assert s[..|b|] == b;
    assert s[|a|..|b|] == b[|a|..];
  }

  lemma LineThere(lines: seq<Path>, j: nat)
    requires j <= |lines| && |Render(lines[..j])| < |Render(lines)|
    ensures j < |lines|
  {
    assert lines[..|lines|] == lines;
  }

  lemma AllDone(lines: seq<Path>, j: nat)
    requires j <= |lines| && |Render(lines[..j])| >= |Render(lines)|
    ensures j == |lines|
  {
    hide Text, Render;
    if j < |lines| { RenderLine(lines, j); }
  }

  lemma {:induction false} TextOneLine(p: Path)
    requires forall i :: 0 <= i < |p| ==> GoodName(p[i])
    ensures forall i :: 0 <= i < |Text(p)| ==> Text(p)[i] != NEWLINE
  {
    if |p| > 1 {
      TextOneLine(p[1..]);
      assert Text(p) == p[0] + [SLASH] + Text(p[1..]);
    }
  }

  /** The line found is the next one. */
  lemma LineAt(lines: seq<Path>, j: nat, b: seq<byte>, p: nat, le: nat)
    requires j < |lines| && Listed(lines[j]) && p == |Render(lines[..j])| <= le <= |b| == |Render(lines)|
    requires b[p..] == Render(lines)[p..]
    requires forall i :: p <= i < le ==> b[i] != NEWLINE
    requires le < |b| ==> b[le] == NEWLINE
    ensures b[p..le] == Text(lines[j]) && le < |b| && le + 1 == |Render(lines[..j + 1])|
  {
    hide Text, Render;
    RenderLine(lines, j);
    TextOneLine(lines[j]);
    var s, t, n := Render(lines), Text(lines[j]), |Text(lines[j])|;
    var u := s[p..p + n + 1];
    assert u == t + [NEWLINE];
    assert b[p..p + n + 1] == b[p..][..n + 1] && u == s[p..][..n + 1];
    FirstBreak(b, p, le, t);
  }

  lemma FirstBreak(b: seq<byte>, p: nat, le: nat, t: seq<byte>)
    requires p <= le <= |b| && p + |t| + 1 <= |b| && b[p..p + |t| + 1] == t + [NEWLINE]
    requires forall i :: p <= i < le ==> b[i] != NEWLINE
    requires forall i :: 0 <= i < |t| ==> t[i] != NEWLINE
    requires le < |b| ==> b[le] == NEWLINE
    ensures le == p + |t| && b[p..le] == t
  {
    var u := b[p..p + |t| + 1];
    assert b[p + |t|] == u[|t|] == NEWLINE;
    assert forall i :: 0 <= i < |t| ==> b[p + i] == u[i] == t[i];
    assert u[..|t|] == t;
  }

  lemma TailKept(b: seq<byte>, c: seq<byte>, m: nat, e: nat)
    requires m <= e <= |b| == |c| && b[m..] == c[m..]
    ensures b[m..e] == c[m..e] && b[e..] == c[e..]
  {
    assert b[m..][..e - m] == b[m..e] && c[m..][..e - m] == c[m..e];
    assert b[m..][e - m..] == b[e..] && c[m..][e - m..] == c[e..];
  }

  /** A plain file, or too long a name, where the line needs a directory. */
  ghost predicate Blocked(fs: Fs, line: Path) {
    exists j :: 1 <= j < |line| && Bars(fs, line[..j])
  }

  ghost predicate ClearTo(fs: Fs, line: Path, j: nat) {
    j <= |line| && forall i :: 1 <= i <= j ==> !Bars(fs, line[..i])
  }

  lemma BlockedHere(fs: Fs, line: Path, j: nat)
    requires 1 <= j < |line| && Bars(fs, line[..j])
    ensures Blocked(fs, line)
  {
  }

  lemma ClearAll(fs: Fs, line: Path, j: nat)
    requires ClearTo(fs, line, j) && j == |line| - 1
    ensures !Blocked(fs, line)
  {
  }

  /** Nothing bars the directories on the stack. */
  lemma NotBlocked(fds: seq<int>, names: Path, open: map<int, Path>, fs: Fs, line: Path)
    requires Stacked(fds, names, open, fs) && Tree(fs) && names <= line
    ensures ClearTo(fs, line, |names|)
  {
    forall i | 1 <= i <= |names| ensures !Bars(fs, line[..i]) {
      assert line[..i] == names[..i];
      assert Level(fds[i], names[..i], open, fs);
    }
  }

  /** The topmost descriptor. */
  lemma StackTop(fds: seq<int>, names: Path, open: map<int, Path>, fs: Fs)
    requires Stacked(fds, names, open, fs)
    ensures var fd := fds[|names|];
      && (fd == AT_SKIP <==> names !in fs.dirs)
      && (fd != AT_SKIP ==> if names == [] then fd == AT_FDCWD else fd in open && open[fd] == names)
  {
    assert Level(fds[|names|], names[..|names|], open, fs);
    assert names[..|names|] == names;
  }

  lemma ListedDeep(line: Path)
    requires Listed(line)
    ensures 0 < |line| <= MAXDEPTH + 1
  {
  }

  lemma NoneEmpty(lines: seq<Path>)
    requires forall i :: 0 <= i < |lines| ==> Listed(lines[i])
    ensures forall i :: 0 <= i < |lines| ==> lines[i] != []
  {
  }

  lemma Nonzero(b: seq<byte>, p: nat, q: nat, n: Name)
    requires p <= q <= |b| && b[p..q] == n && ZeroFree(n)
    ensures forall i :: p <= i < q ==> b[i] != 0
  {
    forall i | p <= i < q ensures b[i] != 0 { assert b[i] == b[p..q][i - p]; }
  }

  // ------------------------------------------------- where `rm` would go on

  /** A file where the first line needs a directory: the second line is not
      reached, though `rm` would have removed its file. */
  method Stuck() returns (ok: bool, files: set<Path>)
    ensures var lines: seq<Path> := [[[97], [98]], [[99]]];
      !ok && [[99]] in files && [[99]] !in Remaining({[[97]], [[99]]}, lines)
  {
    hide Clear, Removed, SweptBy, Live, CString, Stacked, Popped, After, Turn, Blocked, Tree;
    var a: Path, c: Path := [[97]], [[99]];
    ghost var lines: seq<Path> := [[[97], [98]], c];
    var fs := Fs({[]}, {a, c}, 255);
    StuckTree(fs, a, c);
    var k := new Kernel(fs);
    var text: seq<byte> := [97, SLASH, 98, NEWLINE, 99, NEWLINE];
    var buf := new byte[6](i requires 0 <= i < 6 => text[i]);
    assert buf[..] == text;
    StuckText(lines, text);
    var rm := new Remover(k, buf);
    ghost var j;
    ok, j := rm.UnlinkFiles(lines);
    StuckLines(lines, fs, a, c, j);
    files := k.fs.files;
  }

  /** A directory name longer than the file system takes stops the removal. */
  lemma LongStops(fs: Fs, line: Path)
    requires Tree(fs) && |line| > 1 && |line[0]| > fs.longest
    ensures !Clear(fs, [line])
  {
    hide Bars, Common;
    var lines := [line];
    assert lines[..|lines| - 1] == [] && lines[|lines| - 1] == line;
    assert Turn(fs, [], line) == Popped(fs, [], Common([], Parent(line))) == fs;
    FirstBars(fs, line);
  }

  lemma FirstBars(fs: Fs, line: Path)
    requires Tree(fs) && |line| > 1 && |line[0]| > fs.longest
    ensures Bars(fs, line[..1])
  {
    assert Last(line[..1]) == line[0] && Parent(line[..1]) == [];
  }

  lemma StuckTree(fs: Fs, a: Path, c: Path)
    requires a == [[97]] && c == [[99]] && fs == Fs({[]}, {a, c}, 255)
    ensures Tree(fs)
  {
    assert Parent(a) == [] && Parent(c) == [];
  }

  lemma StuckText(lines: seq<Path>, text: seq<byte>)
    requires lines == [[[97], [98]], [[99]]] && text == [97, SLASH, 98, NEWLINE, 99, NEWLINE]
    ensures Render(lines) == text && forall i :: 0 <= i < |lines| ==> Listed(lines[i])
  {
    hide Text, Render, Listed;
    RenderNone();
    RenderNext([], lines[0]);
    RenderNext([lines[0]], lines[1]);
    assert [] + [lines[0]] == [lines[0]] && [lines[0]] + [lines[1]] == lines;
    StuckNames();
    assert [] + ([97, SLASH, 98] + [NEWLINE]) + ([99] + [NEWLINE]) == text;
  }

  lemma RenderNone()
    ensures Render([]) == []
  {
  }

  lemma StuckNames()
    ensures Text([[97], [98]]) == [97, SLASH, 98] && Text([[99]]) == [99]
    ensures Listed([[97], [98]]) && Listed([[99]])
  {
    assert [[97], [98]][1..] == [[98]];
  }

  lemma StuckLines(lines: seq<Path>, fs: Fs, a: Path, c: Path, j: nat)
    requires a == [[97]] && c == [[99]] && fs == Fs({[]}, {a, c}, 255)
    requires lines == [[[97], [98]], c] && j <= 2 && Clear(fs, lines[..j])
    ensures !Clear(fs, lines) && c !in Remaining(fs.files, lines)
    ensures j == 0 && Remaining(fs.files, lines[..0]) == fs.files
  {
    hide Popped;
    assert lines[..1][..0] == [] && lines[..1][0] == lines[0];
    assert lines[0][..1] == a;
    BackKeeps(fs, [], lines[0]);
    assert Bars(Turn(fs, [], lines[0]), lines[0][..1]);
    assert !Clear(fs, lines[..1]);
    assert lines[..2] == lines && lines[..|lines| - 1] == lines[..1];
  }
}
