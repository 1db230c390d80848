/** Module index and dependency lists (src/kmod/depmod.c). */
module Depmod {
  import opened Basics
  import Qsort

  type Name = seq<byte>

  const SLASH: byte := 47
  const DOT: byte := 46
  const COMMA: byte := 44
  const COLON: byte := 58
  const SPACE: byte := 32
  const NEWLINE: byte := 10
  const SLOTS := 50

  /** A module file, with the "depends" entry once it has been read. */
  datatype Mod = Mod(dir: Name, file: Name, deps: Option<Name>)

  function Path(md: Mod): Name { md.dir + [SLASH] + md.file }

  function Stem(file: Name): Name {
    if file == [] || file[0] == DOT then [] else [file[0]] + Stem(file[1..])
  }

  // ---------------------------------------------------------- comparing names

  /** Underscores count as dashes. */
  function Eq(c: byte): byte { if c == 95 then 45 else c }

  function Folded(s: Name): (r: Name)
    ensures |r| == |s|
  {
    if s == [] then [] else [Eq(s[0])] + Folded(s[1..])
  }

  function EqCmp(a: Name, b: Name): int {
    if a == [] && b == [] then 0
    else if a == [] then -1
    else if b == [] then 1
    else if Eq(a[0]) != Eq(b[0]) then Eq(a[0]) as int - Eq(b[0]) as int
    else EqCmp(a[1..], b[1..])
  }

  /** `eqstrnncmp`. */
  method Eqstrnncmp(a: Name, b: Name) returns (r: int)
    ensures r == EqCmp(a, b)
  {
    var n := if |a| < |b| then |a| else |b|;
    var i := 0;
    assert a[0..] == a && b[0..] == b;
    while i < n
      invariant 0 <= i <= n && EqCmp(a, b) == EqCmp(a[i..], b[i..])
    {
      var d := Eq(a[i]) as int - Eq(b[i]) as int;
      if d != 0 { return d; }
      assert a[i..][1..] == a[i + 1..] && b[i..][1..] == b[i + 1..];
      i := i + 1;
    }
    if |a| < |b| { return -1; }
    if |a| > |b| { return 1; }
    return 0;
  }

  lemma {:induction false} EqCmpZero(a: Name, b: Name)
    ensures EqCmp(a, b) == 0 <==> Folded(a) == Folded(b)
    decreases |a|
  {
    if a != [] && b != [] {
      EqCmpZero(a[1..], b[1..]);
      assert Folded(a)[0] == Eq(a[0]) && Folded(b)[0] == Eq(b[0]);
      assert Folded(a)[1..] == Folded(a[1..]) && Folded(b)[1..] == Folded(b[1..]);
    } else if a != [] || b != [] {
      assert |Folded(a)| != |Folded(b)|;
    }
  }

  lemma {:induction false} EqCmpFlip(a: Name, b: Name)
    ensures EqCmp(b, a) == -EqCmp(a, b)
    decreases |a|
  {
    if a != [] && b != [] { EqCmpFlip(a[1..], b[1..]); }
  }

  lemma {:induction false} EqCmpTransitive(a: Name, b: Name, c: Name)
    requires EqCmp(a, b) <= 0 && EqCmp(b, c) <= 0
    ensures EqCmp(a, c) <= 0
    ensures EqCmp(a, c) == 0 ==> EqCmp(a, b) == 0 && EqCmp(b, c) == 0
    decreases |a|
  {
    if a != [] && b != [] && c != [] && Eq(a[0]) == Eq(b[0]) == Eq(c[0]) {
      EqCmpTransitive(a[1..], b[1..], c[1..]);
    }
  }

  function ByName(a: Mod, b: Mod): int { EqCmp(Stem(a.file), Stem(b.file)) }

  lemma ByNameOrder()
    ensures Qsort.TotalPreorder(ByName)
  {
    hide EqCmp, Stem;
    forall x, y ensures Qsort.NotAfter(ByName, x, y) <==> ByName(y, x) >= 0 {
      EqCmpFlip(Stem(x.file), Stem(y.file));
    }
    forall x, y, z | Qsort.NotAfter(ByName, x, y) && Qsort.NotAfter(ByName, y, z)
      ensures Qsort.NotAfter(ByName, x, z)
    {
      EqCmpTransitive(Stem(x.file), Stem(y.file), Stem(z.file));
    }
  }

  // ------------------------------------------------------------ binary search

  /** `md` goes by the name, up to '_' and '-'. */
  predicate Called(md: Mod, name: Name) {
    Folded(Stem(md.file)) == Folded(name)
  }

  function FindIn(idx: seq<Mod>, name: Name, l: nat, r: nat): Option<Mod>
    requires l <= r <= |idx|
    decreases r - l
  {
    if l >= r then None
    else
      var m := l + (r - l) / 2;
      var rel := EqCmp(Stem(idx[m].file), name);
      if rel == 0 then Some(idx[m])
      else if rel > 0 then FindIn(idx, name, l, m)
      else if l == m then None
      else FindIn(idx, name, m, r)
  }

  function Find(idx: seq<Mod>, name: Name): Option<Mod> {
    FindIn(idx, name, 0, |idx|)
  }

  ghost predicate Indexed(idx: seq<Mod>) { Qsort.Sorted(ByName, idx) }

  lemma Below(idx: seq<Mod>, i: nat, j: nat, name: Name)
    requires Indexed(idx) && i <= j < |idx| && EqCmp(Stem(idx[j].file), name) < 0
    ensures EqCmp(Stem(idx[i].file), name) < 0
  {
    hide EqCmp, Stem;
    if i < j {
      assert Qsort.NotAfter(ByName, idx[i], idx[j]);
      EqCmpTransitive(Stem(idx[i].file), Stem(idx[j].file), name);
    }
  }

  lemma Above(idx: seq<Mod>, i: nat, j: nat, name: Name)
    requires Indexed(idx) && i <= j < |idx| && EqCmp(Stem(idx[i].file), name) > 0
    ensures EqCmp(Stem(idx[j].file), name) > 0
  {
    hide EqCmp, Stem;
    if i < j {
      assert Qsort.NotAfter(ByName, idx[i], idx[j]);
      var x, y := Stem(idx[i].file), Stem(idx[j].file);
      EqCmpFlip(x, name);
      EqCmpFlip(y, name);
      if EqCmp(y, name) <= 0 {
        EqCmpTransitive(x, y, name);
      }
    }
  }

  /** The search finds a module of that name exactly when there is one. */
  lemma {:induction false} FindInIff(idx: seq<Mod>, name: Name, l: nat, r: nat)
    requires Indexed(idx) && l <= r <= |idx|
    requires l > 0 ==> l < r && EqCmp(Stem(idx[l].file), name) < 0
    requires r < |idx| ==> EqCmp(Stem(idx[r].file), name) > 0
    ensures var f := FindIn(idx, name, l, r);
      && (f.Some? ==> f.value in idx && Called(f.value, name))
      && (f.None? ==> forall md :: md in idx ==> !Called(md, name))
    decreases r - l
  {
    hide EqCmp, Stem, Folded, Qsort.Sorted;
    if l >= r {
      forall md | md in idx ensures !Called(md, name) {
        var i :| 0 <= i < |idx| && idx[i] == md;
        Above(idx, r, i, name);
        EqCmpZero(Stem(md.file), name);
      }
    } else {
      var m := l + (r - l) / 2;
      var rel := EqCmp(Stem(idx[m].file), name);
      EqCmpZero(Stem(idx[m].file), name);
      if rel == 0 {
      } else if rel > 0 {
        if l == m && l > 0 {
          assert false;
        } else {
          FindInIff(idx, name, l, m);
        }
      } else if l == m {
        forall md | md in idx ensures !Called(md, name) {
          var i :| 0 <= i < |idx| && idx[i] == md;
          if i <= m { Below(idx, i, m, name); } else { Above(idx, r, i, name); }
          EqCmpZero(Stem(md.file), name);
        }
      } else {
        FindInIff(idx, name, m, r);
      }
    }
  }

  /** The name is what stands in front of the first dot of the file name, or all
      of it, where dashes and underscores are alike. */
  ghost predicate Answers(md: Mod, name: Name) {
    exists k :: 0 <= k <= |md.file| && Matches(md.file, k, name)
  }

  ghost predicate Matches(file: Name, k: nat, name: Name)
    requires k <= |file|
  {
    && (forall i :: 0 <= i < k ==> file[i] != 46) && (k == |file| || file[k] == 46)
    && |name| == k && forall i :: 0 <= i < k ==> file[i] == name[i] || (file[i] in {45, 95} && name[i] in {45, 95})
  }

  lemma {:induction false} StemIs(file: Name)
    ensures var k := |Stem(file)|;
      && k <= |file| && Stem(file) == file[..k]
      && (forall i :: 0 <= i < k ==> file[i] != 46) && (k == |file| || file[k] == 46)
  {
    if file != [] && file[0] != DOT {
      StemIs(file[1..]);
      var k := |Stem(file[1..])|;
      assert file[..k + 1] == [file[0]] + file[1..][..k];
      forall i | 0 <= i < k + 1 ensures file[i] != 46 {
        if i > 0 { assert file[i] == file[1..][i - 1]; }
      }
    }
  }

  /** `stem_length`. */
  method StemLength(file: Name) returns (k: nat)
    ensures k <= |file| && (forall i :: 0 <= i < k ==> file[i] != 46) && (k == |file| || file[k] == 46)
    ensures file[..k] == Stem(file)
  {
    StemIs(file);
    k := 0;
    while k < |file| && file[k] != DOT
      invariant k <= |file| && forall i :: 0 <= i < k ==> file[i] != 46
    {
      k := k + 1;
    }
  }

  lemma {:induction false} FoldedAlike(a: Name, b: Name)
    ensures Folded(a) == Folded(b) <==>
      |a| == |b| && forall i :: 0 <= i < |a| ==> a[i] == b[i] || (a[i] in {45, 95} && b[i] in {45, 95})
    decreases |a|
  {
    if |a| != |b| {
      assert |Folded(a)| != |Folded(b)|;
    } else if a != [] {
      FoldedAlike(a[1..], b[1..]);
      assert Folded(a) == [Eq(a[0])] + Folded(a[1..]) && Folded(b) == [Eq(b[0])] + Folded(b[1..]);
      assert Folded(a)[0] == Eq(a[0]) && Folded(a)[1..] == Folded(a[1..]);
      assert Folded(b)[0] == Eq(b[0]) && Folded(b)[1..] == Folded(b[1..]);
      assert forall i :: 1 <= i < |a| ==> a[i] == a[1..][i - 1] && b[i] == b[1..][i - 1];
    }
  }

  lemma CalledMeans(md: Mod, name: Name)
    ensures Called(md, name) <==> Answers(md, name)
  {
    hide Stem, Folded;
    var f, k := md.file, |Stem(md.file)|;
    StemIs(f);
    FoldedAlike(f[..k], name);
    if Called(md, name) { assert Matches(f, k, name); }
    if Answers(md, name) {
      var l :| 0 <= l <= |f| && Matches(f, l, name);
      assert l == k;
    }
  }

  lemma FindIff(idx: seq<Mod>, name: Name)
    requires Indexed(idx)
    ensures var f := Find(idx, name);
      && (f.Some? ==> f.value in idx && Answers(f.value, name))
      && (f.Some? <==> exists md :: md in idx && Answers(md, name))
  {
    hide Called, Answers, Indexed;
    FindInIff(idx, name, 0, |idx|);
    forall md: Mod ensures Called(md, name) <==> Answers(md, name) { CalledMeans(md, name); }
  }

  // -------------------------------------------------------- dependency closure

  /** `strecbrk` for a comma. */
  function Cut(s: Name): (q: nat)
    ensures q <= |s| && (q < |s| ==> s[q] == COMMA)
    ensures forall i :: 0 <= i < q ==> s[i] != COMMA
  {
    if s == [] || s[0] == COMMA then 0 else 1 + Cut(s[1..])
  }

  /** The entries of a comma-separated list; a trailing comma adds none. */
  function Names(s: Name): seq<Name>
    decreases |s|
  {
    if s == [] then []
    else
      var q := Cut(s);
      [s[..q]] + (if q < |s| then Names(s[q + 1..]) else [])
  }

  function Joined(ns: seq<Name>): Name {
    if ns == [] then [] else if |ns| == 1 then ns[0] else ns[0] + [44] + Joined(ns[1..])
  }

  lemma JoinedMore(n: Name, ns: seq<Name>)
    ensures Joined([n] + ns) == if ns == [] then n else n + [44] + Joined(ns)
  {
    assert ([n] + ns)[1..] == ns;
  }

  lemma NamesCut(s: Name, q: nat)
    requires s != [] && q == Cut(s)
    ensures Names(s) == [s[..q]] + if q < |s| then Names(s[q + 1..]) else []
  {
    hide Cut;
  }

  lemma CutParts(s: Name, q: nat)
    requires q < |s| && s[q] == 44
    ensures s == s[..q] + [44] + s[q + 1..]
  {
  }

  /** The entries of a list have commas between them, and one may be behind. */
  lemma {:induction false} NamesMeaning(s: Name)
    ensures s == [] <==> Names(s) == []
    ensures forall n :: n in Names(s) ==> 44 !in n
    ensures s == Joined(Names(s)) + if s != [] && s[|s| - 1] == 44 then [44] else []
    decreases |s|
  {
    hide Names, Joined;
    if s == [] {
      NoNames();
    } else {
      var q := Cut(s);
      NamesCut(s, q);
      if q < |s| {
        var t := s[q + 1..];
        CutParts(s, q);
        NamesMeaning(t);
        JoinedMore(s[..q], Names(t));
      } else {
        assert s[..q] == s;
        JoinedMore(s, []);
      }
    }
  }

  lemma NoNames()
    ensures Names([]) == [] && Joined([]) == []
  {
  }

  function DepsOf(md: Mod): seq<Name> {
    match md.deps
    case None => []
    case Some(s) => Names(s)
  }

  function Next(idx: seq<Mod>, n: Name): seq<Name> {
    match Find(idx, n)
    case None => []
    case Some(d) => DepsOf(d)
  }

  /** A chain of dependency names from `root` to `n`. */
  ghost predicate Trail(idx: seq<Mod>, root: Mod, p: seq<Name>, n: Name) {
    && |p| > 0 && p[0] in DepsOf(root) && p[|p| - 1] == n
    && forall i :: 1 <= i < |p| ==> p[i] in Next(idx, p[i - 1])
  }

  ghost predicate Reachable(idx: seq<Mod>, root: Mod, n: Name) {
    exists p :: Trail(idx, root, p, n)
  }

  lemma ReachableFirst(idx: seq<Mod>, root: Mod, n: Name)
    requires n in DepsOf(root)
    ensures Reachable(idx, root, n)
  {
    assert Trail(idx, root, [n], n);
  }

  lemma ReachableNext(idx: seq<Mod>, root: Mod, n: Name, k: Name)
    requires Reachable(idx, root, n) && k in Next(idx, n)
    ensures Reachable(idx, root, k)
  {
    var p :| Trail(idx, root, p, n);
    assert Trail(idx, root, p + [k], k);
  }

  /** Nothing escapes a list that holds the first names and is closed. */
  lemma {:induction false} TrailInside(idx: seq<Mod>, root: Mod, p: seq<Name>, n: Name, s: seq<Name>)
    requires Trail(idx, root, p, n)
    requires forall k :: k in DepsOf(root) ==> k in s
    requires forall m, k :: m in s && k in Next(idx, m) ==> k in s
    ensures n in s
    decreases |p|
  {
    if |p| > 1 {
      var q := p[..|p| - 1];
      assert Trail(idx, root, q, q[|q| - 1]);
      TrailInside(idx, root, q, q[|q| - 1], s);
    }
  }

  ghost predicate Distinct(s: seq<Name>) {
    forall i, j :: 0 <= i < j < |s| ==> s[i] != s[j]
  }

  lemma {:induction false} DistinctFits(s: seq<Name>, r: set<Name>)
    requires Distinct(s) && forall n :: n in s ==> n in r
    ensures |s| <= |r|
  {
    if s != [] {
      var t, x := s[..|s| - 1], s[|s| - 1];
      assert forall n :: n in t ==> n in r - {x};
      DistinctFits(t, r - {x});
    }
  }

  /** What a resolution leaves behind: the line so far, whether a dependency
      has been found yet, and the names complained about. */
  datatype Log = Log(out: seq<byte>, transitive: bool, missing: seq<Name>)

  function Note(idx: seq<Mod>, builtin: Name -> bool, g: Log, n: Name): Log {
    match Find(idx, n)
    case None => if g.transitive || builtin(n) then g else g.(missing := g.missing + [n])
    case Some(d) => Log(g.out + [SPACE] + Path(d), true, g.missing)
  }

  ghost function NoteAll(idx: seq<Mod>, builtin: Name -> bool, g: Log, ns: seq<Name>): Log
    decreases |ns|
  {
    if ns == [] then g else NoteAll(idx, builtin, Note(idx, builtin, g, ns[0]), ns[1..])
  }

  /** One path for each name that some module goes by. */
  function Printed(idx: seq<Mod>, ns: seq<Name>): seq<byte> {
    if ns == [] then []
    else
      (match Find(idx, ns[0])
       case None => []
       case Some(d) => [32] + (d.dir + [47] + d.file)) + Printed(idx, ns[1..])
  }

  /** The names without a module that come before the first one that has one,
      built-in ones aside. */
  function Missing(idx: seq<Mod>, builtin: Name -> bool, ns: seq<Name>): seq<Name> {
    if ns == [] || Find(idx, ns[0]).Some? then []
    else (if builtin(ns[0]) then [] else [ns[0]]) + Missing(idx, builtin, ns[1..])
  }

  lemma {:induction false} NoteAllMeans(idx: seq<Mod>, builtin: Name -> bool, g: Log, ns: seq<Name>)
    ensures var h := NoteAll(idx, builtin, g, ns);
      && h.out == g.out + Printed(idx, ns)
      && h.missing == g.missing + (if g.transitive then [] else Missing(idx, builtin, ns))
    decreases |ns|
  {
    hide Find, Path;
    if ns != [] {
      if Find(idx, ns[0]).Some? { PathIs(Find(idx, ns[0]).value); }
      NoteAllMeans(idx, builtin, Note(idx, builtin, g, ns[0]), ns[1..]);
    }
  }

  lemma {:induction false} NoteAllNext(idx: seq<Mod>, builtin: Name -> bool, g: Log, ns: seq<Name>, n: Name)
    ensures NoteAll(idx, builtin, g, ns + [n]) == Note(idx, builtin, NoteAll(idx, builtin, g, ns), n)
    decreases |ns|
  {
    hide Note;
    if ns == [] {
      assert [n][1..] == [];
      assert NoteAll(idx, builtin, Note(idx, builtin, g, n), []) == Note(idx, builtin, g, n);
    } else {
      assert (ns + [n])[1..] == ns[1..] + [n];
      NoteAllNext(idx, builtin, Note(idx, builtin, g, ns[0]), ns[1..], n);
    }
  }

  // ------------------------------------------------- visiting names, depth first

  /** The table of names seen, all names taken up so far, and whether the calls
      have had stack enough. */
  datatype Visit = Visit(seen: seq<Name>, ns: seq<Name>, ok: bool)

  /** A name taken up, and recorded while there is room. */
  function Taken(v: Visit, n: Name): Visit {
    Visit(if |v.seen| < SLOTS then v.seen + [n] else v.seen, v.ns + [n], v.ok)
  }

  /** `try_resolve_name`, where `fuel` more calls may be nested. */
  function VisitName(idx: seq<Mod>, v: Visit, n: Name, fuel: nat): Visit
    decreases fuel, 0
  {
    if n in v.seen then v
    else
      match Find(idx, n)
      case None => Taken(v, n)
      case Some(d) =>
        if fuel == 0 then Taken(v, n).(ok := false)
        else VisitNames(idx, Taken(v, n), DepsOf(d), fuel - 1)
  }

  /** `try_resolve_deps`; a run out of stack ends. */
  function VisitNames(idx: seq<Mod>, v: Visit, names: seq<Name>, fuel: nat): Visit
    decreases fuel, 1 + |names|
  {
    if names == [] || !v.ok then v
    else VisitNames(idx, VisitName(idx, v, names[0], fuel), names[1..], fuel)
  }

  /** What every visit keeps, on any index: all names are reachable, those in
      the table are distinct and were taken up once, and none is missing from
      the table before it is full. */
  ghost predicate Kept(idx: seq<Mod>, root: Mod, v: Visit) {
    && |v.seen| <= SLOTS && Distinct(v.seen)
    && (forall n :: n in v.seen ==> n in v.ns)
    && (forall n :: n in v.ns ==> Reachable(idx, root, n))
    && (forall i, j :: 0 <= i < j < |v.ns| && v.ns[i] == v.ns[j] ==> v.ns[j] !in v.seen)
    && (|v.seen| < SLOTS ==> forall n :: n in v.ns ==> n in v.seen)
  }

  lemma TakenKeeps(idx: seq<Mod>, root: Mod, v: Visit, n: Name)
    requires Kept(idx, root, v) && n !in v.seen && Reachable(idx, root, n)
    ensures Kept(idx, root, Taken(v, n))
  {
    hide Reachable;
    var w := Taken(v, n);
    assert forall k :: k in w.ns <==> k in v.ns || k == n;
    assert forall k :: k in w.seen ==> k in v.seen || k == n;
    forall i, j | 0 <= i < j < |w.ns| && w.ns[i] == w.ns[j] ensures w.ns[j] !in w.seen {
      if j < |v.ns| { assert v.ns[i] in v.ns; } else { assert v.ns[i] == n && v.ns[i] in v.ns; }
    }
  }

  ghost predicate Follows(v: Visit, w: Visit) { v.seen <= w.seen && v.ns <= w.ns }

  lemma {:induction false} VisitNameKeeps(idx: seq<Mod>, root: Mod, v: Visit, n: Name, fuel: nat)
    requires Kept(idx, root, v) && Reachable(idx, root, n)
    ensures Kept(idx, root, VisitName(idx, v, n, fuel)) && Follows(v, VisitName(idx, v, n, fuel))
    decreases fuel, 0
  {
    hide Kept, Reachable, Find, VisitNames;
    if n !in v.seen {
      TakenKeeps(idx, root, v, n);
      if Find(idx, n).Some? && fuel > 0 {
        forall k | k in Next(idx, n) ensures Reachable(idx, root, k) { ReachableNext(idx, root, n, k); }
        VisitNamesKeeps(idx, root, Taken(v, n), Next(idx, n), fuel - 1);
      } else {
        KeptAnyway(idx, root, Taken(v, n));
      }
    }
  }

  lemma KeptAnyway(idx: seq<Mod>, root: Mod, v: Visit)
    requires Kept(idx, root, v)
    ensures Kept(idx, root, v.(ok := false))
  {
    hide Reachable;
  }

  /** On any index, with any stack. */
  lemma {:induction false} VisitNamesKeeps(idx: seq<Mod>, root: Mod, v: Visit, names: seq<Name>, fuel: nat)
    requires Kept(idx, root, v) && forall n :: n in names ==> Reachable(idx, root, n)
    ensures Kept(idx, root, VisitNames(idx, v, names, fuel)) && Follows(v, VisitNames(idx, v, names, fuel))
    decreases fuel, 1 + |names|
  {
    hide Kept, Reachable, VisitName;
    if names != [] && v.ok {
      VisitNameKeeps(idx, root, v, names[0], fuel);
      VisitNamesKeeps(idx, root, VisitName(idx, v, names[0], fuel), names[1..], fuel);
    }
  }

  /** The names taken up since `v` lead nowhere outside. */
  ghost predicate Shut(idx: seq<Mod>, v: Visit, w: Visit) {
    |v.ns| <= |w.ns| && forall n, k :: n in w.ns[|v.ns|..] && k in Next(idx, n) ==> k in w.ns
  }

  lemma ShutTwice(idx: seq<Mod>, u: Visit, v: Visit, w: Visit)
    requires Follows(u, v) && Follows(v, w) && Shut(idx, u, v) && Shut(idx, v, w)
    ensures Shut(idx, u, w)
  {
    hide Next;
    assert w.ns[|u.ns|..] == v.ns[|u.ns|..] + w.ns[|v.ns|..];
    forall n, k | n in w.ns[|u.ns|..] && k in Next(idx, n) ensures k in w.ns {
      if n in v.ns[|u.ns|..] { assert k in v.ns; }
    }
  }

  lemma ShutFrom(idx: seq<Mod>, v: Visit, n: Name, w: Visit)
    requires Follows(Taken(v, n), w) && Shut(idx, Taken(v, n), w) && forall k :: k in Next(idx, n) ==> k in w.ns
    ensures Shut(idx, v, w)
  {
    hide Next;
    assert w.ns[|v.ns|..] == [n] + w.ns[|v.ns| + 1..];
  }

  /** With stack enough, everything a name leads to has been taken up. */
  lemma {:induction false} VisitNameShuts(idx: seq<Mod>, root: Mod, v: Visit, n: Name, fuel: nat)
    requires Kept(idx, root, v) && Reachable(idx, root, n) && v.ok && VisitName(idx, v, n, fuel).ok
    ensures Shut(idx, v, VisitName(idx, v, n, fuel)) && n in VisitName(idx, v, n, fuel).ns
    decreases fuel, 0
  {
    hide Reachable, Find, VisitNames;
    if n !in v.seen {
      var t := Taken(v, n);
      TakenKeeps(idx, root, v, n);
      if Find(idx, n).Some? {
        forall k | k in Next(idx, n) ensures Reachable(idx, root, k) { ReachableNext(idx, root, n, k); }
        VisitNamesKeeps(idx, root, t, Next(idx, n), fuel - 1);
        VisitNamesShut(idx, root, t, Next(idx, n), fuel - 1);
        ShutFrom(idx, v, n, VisitName(idx, v, n, fuel));
        assert t.ns[|v.ns|] == n;
      }
    }
  }

  lemma {:induction false} VisitNamesShut(idx: seq<Mod>, root: Mod, v: Visit, names: seq<Name>, fuel: nat)
    requires Kept(idx, root, v) && v.ok && VisitNames(idx, v, names, fuel).ok
    requires forall n :: n in names ==> Reachable(idx, root, n)
    ensures Shut(idx, v, VisitNames(idx, v, names, fuel))
    ensures forall n :: n in names ==> n in VisitNames(idx, v, names, fuel).ns
    decreases fuel, 1 + |names|
  {
    hide Kept, Reachable, VisitName;
    if names != [] {
      var mid := VisitName(idx, v, names[0], fuel);
      VisitNameKeeps(idx, root, v, names[0], fuel);
      if !mid.ok { assert false; }
      VisitNameShuts(idx, root, v, names[0], fuel);
      VisitNamesKeeps(idx, root, mid, names[1..], fuel);
      VisitNamesShut(idx, root, mid, names[1..], fuel);
      ShutTwice(idx, v, mid, VisitNames(idx, mid, names[1..], fuel));
    }
  }

  /** All reachable names fit the table, and so far all are in it. */
  ghost predicate Roomy(idx: seq<Mod>, root: Mod, all: set<Name>, v: Visit) {
    && |all| <= SLOTS && (forall n :: Reachable(idx, root, n) ==> n in all)
    && Kept(idx, root, v) && v.ok && (forall n :: n in v.ns ==> n in v.seen)
  }

  lemma RoomyTaken(idx: seq<Mod>, root: Mod, all: set<Name>, v: Visit, n: Name)
    requires Roomy(idx, root, all, v) && n !in v.seen && Reachable(idx, root, n)
    ensures Roomy(idx, root, all, Taken(v, n)) && |v.seen| < |all|
  {
    hide Reachable;
    TakenKeeps(idx, root, v, n);
    var t := v.seen + [n];
    assert forall k :: k in t ==> k in v.seen || k == n;
    assert forall k :: k in v.seen ==> k in v.ns;
    DistinctFits(t, all);
  }

  /** Then the nesting is bounded by what the table still lacks. */
  lemma {:induction false} VisitNameEnds(idx: seq<Mod>, root: Mod, all: set<Name>, v: Visit, n: Name, fuel: nat)
    requires Roomy(idx, root, all, v) && Reachable(idx, root, n) && fuel + |v.seen| >= |all|
    ensures Roomy(idx, root, all, VisitName(idx, v, n, fuel)) && Follows(v, VisitName(idx, v, n, fuel))
    decreases fuel, 0
  {
    hide Roomy, Reachable, Find, VisitNames;
    if n !in v.seen {
      RoomyTaken(idx, root, all, v, n);
      RoomyFits(idx, root, all, v);
      if Find(idx, n).Some? {
        forall k | k in Next(idx, n) ensures Reachable(idx, root, k) { ReachableNext(idx, root, n, k); }
        VisitNamesEnd(idx, root, all, Taken(v, n), Next(idx, n), fuel - 1);
      }
    }
  }

  lemma RoomyFits(idx: seq<Mod>, root: Mod, all: set<Name>, v: Visit)
    requires Roomy(idx, root, all, v)
    ensures |all| <= SLOTS && v.ok
  {
  }

  lemma {:induction false} VisitNamesEnd(idx: seq<Mod>, root: Mod, all: set<Name>, v: Visit,
                                         names: seq<Name>, fuel: nat)
    requires Roomy(idx, root, all, v) && fuel + |v.seen| >= |all|
    requires forall n :: n in names ==> Reachable(idx, root, n)
    ensures Roomy(idx, root, all, VisitNames(idx, v, names, fuel)) && Follows(v, VisitNames(idx, v, names, fuel))
    decreases fuel, 1 + |names|
  {
    hide Roomy, Reachable, VisitName;
    if names != [] && v.ok {
      VisitNameEnds(idx, root, all, v, names[0], fuel);
      VisitNamesEnd(idx, root, all, VisitName(idx, v, names[0], fuel), names[1..], fuel);
    }
  }

  // ------------------------------------------------------- dependencies in order

  /** No chain of dependencies comes back to a name. */
  ghost predicate Acyclic(idx: seq<Mod>, root: Mod) {
    forall p, n :: Trail(idx, root, p, n) ==> Distinct(p)
  }

  /** All chains of dependencies are at most `h` long. */
  ghost predicate Deepest(idx: seq<Mod>, root: Mod, h: nat) {
    forall p, n :: Trail(idx, root, p, n) ==> |p| <= h
  }

  /** All names that the modules and `root` depend on. */
  function DepNames(idx: seq<Mod>, root: Mod): set<Name> {
    (set n | n in DepsOf(root)) + (set md, n | md in idx && n in DepsOf(md) :: n)
  }

  lemma {:induction false} FoundIsThere(idx: seq<Mod>, name: Name, l: nat, r: nat)
    requires l <= r <= |idx|
    ensures FindIn(idx, name, l, r).Some? ==> FindIn(idx, name, l, r).value in idx
    decreases r - l
  {
    hide EqCmp, Stem;
    if l < r {
      var m := l + (r - l) / 2;
      FoundIsThere(idx, name, l, m);
      if l < m { FoundIsThere(idx, name, m, r); }
    }
  }

  lemma TrailNamed(idx: seq<Mod>, root: Mod, p: seq<Name>, n: Name, i: nat)
    requires Trail(idx, root, p, n) && i < |p|
    ensures p[i] in DepNames(idx, root)
  {
    hide FindIn, DepsOf;
    if i > 0 {
      FoundIsThere(idx, p[i - 1], 0, |idx|);
      assert p[i] in Next(idx, p[i - 1]);
    }
  }

  /** Chains are bounded exactly when none comes back to a name, and then by the
      number of names. */
  lemma ChainsEnd(idx: seq<Mod>, root: Mod)
    ensures Acyclic(idx, root) <==> Deepest(idx, root, |DepNames(idx, root)|)
    ensures Acyclic(idx, root) <==> exists h :: Deepest(idx, root, h)
  {
    hide DepNames, Trail, Distinct;
    if Acyclic(idx, root) {
      forall p, n | Trail(idx, root, p, n) ensures |p| <= |DepNames(idx, root)| {
        forall i | 0 <= i < |p| ensures p[i] in DepNames(idx, root) { TrailNamed(idx, root, p, n, i); }
        DistinctFits(p, DepNames(idx, root));
      }
    }
    if h :| Deepest(idx, root, h) {
      forall p, n | Trail(idx, root, p, n) ensures Distinct(p) {
        if !Distinct(p) { GoesRound(idx, root, p, n, h); }
      }
    }
  }

  /** Once round the loop more. */
  lemma Round(idx: seq<Mod>, root: Mod, p: seq<Name>, n: Name, i: nat, j: nat) returns (q: seq<Name>)
    requires Trail(idx, root, p, n) && i < j < |p| && p[i] == p[j]
    ensures Trail(idx, root, q, n) && |q| > |p| && !Distinct(q)
  {
    hide Next;
    q := p[..j + 1] + p[i + 1..];
    forall k | 1 <= k < |q| ensures q[k] in Next(idx, q[k - 1]) {
      if k == j + 1 {
        assert q[k] == p[i + 1] && q[k - 1] == p[i];
      } else if k > j {
        assert q[k] == p[k - j + i] && q[k - 1] == p[k - j + i - 1];
      }
    }
    assert q[|q| - 1] == p[|p| - 1];
    assert q[i] == q[j];
  }

  lemma {:induction false} GoesRound(idx: seq<Mod>, root: Mod, p: seq<Name>, n: Name, h: nat)
    requires Trail(idx, root, p, n) && !Distinct(p)
    ensures exists q :: Trail(idx, root, q, n) && |q| > h
    decreases h - |p|
  {
    hide Trail;
    if |p| <= h {
      var i, j :| 0 <= i < j < |p| && p[i] == p[j];
      var q := Round(idx, root, p, n, i, j);
      GoesRound(idx, root, q, n, h);
    }
  }

  lemma TrailGoesOn(idx: seq<Mod>, root: Mod, p: seq<Name>, n: Name)
    requires Trail(idx, root, p, n)
    ensures forall k :: k in Next(idx, n) ==> Trail(idx, root, p + [k], k)
  {
    hide Next;
  }

  /** A stack for the longest chain is enough, however many names there are. */
  lemma {:induction false} VisitNameShort(idx: seq<Mod>, root: Mod, v: Visit, p: seq<Name>, n: Name,
                                          fuel: nat, h: nat)
    requires Deepest(idx, root, h) && Trail(idx, root, p, n) && v.ok && fuel + |p| > h
    ensures VisitName(idx, v, n, fuel).ok
    decreases fuel, 0
  {
    hide Trail, Find, VisitNames;
    if n !in v.seen && Find(idx, n).Some? {
      TrailGoesOn(idx, root, p, n);
      forall k | k in Next(idx, n) ensures Trail(idx, root, p + [k], k) {}
      VisitNamesShort(idx, root, Taken(v, n), p, Next(idx, n), fuel - 1, h);
    }
  }

  lemma {:induction false} VisitNamesShort(idx: seq<Mod>, root: Mod, v: Visit, p: seq<Name>, names: seq<Name>,
                                           fuel: nat, h: nat)
    requires Deepest(idx, root, h) && v.ok && fuel + |p| >= h
    requires forall n :: n in names ==> Trail(idx, root, p + [n], n)
    ensures VisitNames(idx, v, names, fuel).ok
    decreases fuel, 1 + |names|
  {
    hide Deepest, Trail, VisitName;
    if names != [] {
      VisitNameShort(idx, root, v, p + [names[0]], names[0], fuel, h);
      VisitNamesShort(idx, root, VisitName(idx, v, names[0], fuel), p, names[1..], fuel, h);
    }
  }

  // ------------------------------------------------------------ beyond the table

  /** A name that is not recorded and depends on itself is taken up again and
      again, until the stack runs out. */
  lemma {:induction false} Endless(idx: seq<Mod>, v: Visit, x: Name, fuel: nat)
    requires v.ok && |v.seen| == SLOTS && x !in v.seen && Find(idx, x).Some? && Next(idx, x) == [x]
    ensures var w := VisitName(idx, v, x, fuel);
      !w.ok && w.ns == v.ns + seq(fuel + 1, _ => x)
    decreases fuel
  {
    hide Find;
    if fuel > 0 {
      var t := Taken(v, x);
      Endless(idx, t, x, fuel - 1);
      assert VisitNames(idx, t, [x], fuel - 1) == VisitNames(idx, VisitName(idx, t, x, fuel - 1), [], fuel - 1);
      assert v.ns + [x] + seq(fuel, _ => x) == v.ns + seq(fuel + 1, _ => x);
    } else {
      assert [x] == seq(1, _ => x);
    }
  }

  const X: byte := 120

  /** Fifty names that no module goes by, then one that depends on itself. */
  function Fifty(k: nat): Name
    requires k <= SLOTS
    decreases SLOTS - k
  {
    if k == SLOTS then [X] else [60 + k, COMMA] + Fifty(k + 1)
  }

  function FiftyNames(k: nat): (ns: seq<Name>)
    requires k <= SLOTS
    decreases SLOTS - k
  {
    if k == SLOTS then [[X]] else [[60 + k]] + FiftyNames(k + 1)
  }

  function FirstNames(k: nat): (ns: seq<Name>)
    requires k <= SLOTS
    ensures |ns| == k && forall i :: 0 <= i < k ==> ns[i] == [60 + i]
  {
    seq(k, i requires 0 <= i < k => [60 + i])
  }

  lemma {:induction false} FiftySplit(k: nat)
    requires k <= SLOTS
    ensures Names(Fifty(k)) == FiftyNames(k)
    decreases SLOTS - k
  {
    var s := Fifty(k);
    if k < SLOTS {
      FiftySplit(k + 1);
      assert s[0] == 60 + k && s[1] == COMMA && s[2..] == Fifty(k + 1);
      assert Cut(s) == 1 + Cut(s[1..]) == 1;
      assert s[..1] == [60 + k];
    } else {
      assert Cut(s) == 1 + Cut(s[1..]) == 1;
      assert s[..1] == [X];
    }
  }

  lemma LoneModule(idx: seq<Mod>, k: nat)
    requires |idx| == 1 && idx[0].file == [X] && idx[0].deps == Some([X]) && k < SLOTS
    ensures Find(idx, [60 + k]) == None && Find(idx, [X]) == Some(idx[0]) && Next(idx, [X]) == [[X]]
  {
    assert Stem([X]) == [X] + Stem([X][1..]);
    assert EqCmp([X], [60 + k]) > 0;
    assert EqCmp([X], [X]) == EqCmp([X][1..], [X][1..]) == 0;
    assert FindIn(idx, [60 + k], 0, 1) == FindIn(idx, [60 + k], 0, 0);
    assert Cut([X]) == 1 + Cut([X][1..]) == 1;
    assert [X][..1] == [X];
    assert Names([X]) == [[X]];
  }

  lemma {:induction false} FillUp(idx: seq<Mod>, k: nat, fuel: nat)
    requires |idx| == 1 && idx[0].file == [X] && idx[0].deps == Some([X]) && k <= SLOTS
    ensures var w := VisitNames(idx, Visit(FirstNames(k), FirstNames(k), true), FiftyNames(k), fuel);
      !w.ok && w.ns == FirstNames(SLOTS) + seq(fuel + 1, _ => [X])
    decreases SLOTS - k
  {
    hide Find, Next;
    var v := Visit(FirstNames(k), FirstNames(k), true);
    LoneModule(idx, if k < SLOTS then k else 0);
    if k < SLOTS {
      FillUp(idx, k + 1, fuel);
      assert [60 + k] !in v.seen;
      assert FirstNames(k) + [[60 + k]] == FirstNames(k + 1);
      assert FiftyNames(k)[0] == [60 + k] && FiftyNames(k)[1..] == FiftyNames(k + 1);
    } else {
      Endless(idx, v, [X], fuel);
      assert FiftyNames(k)[1..] == [];
    }
  }

  /** With 51 reachable names there is an index on which no stack is enough: the
      path of one module is printed once more for every call it has room for. */
  lemma NeverEnds(fuel: nat)
    ensures var idx := [Mod([], [X], Some([X]))];
      var root := Mod([], [114], Some(Fifty(0)));
      var w := VisitNames(idx, Visit([], [], true), DepsOf(root), fuel);
      Indexed(idx) && !w.ok && w.ns == FirstNames(SLOTS) + seq(fuel + 1, _ => [X])
  {
    hide VisitNames, Fifty, FiftyNames;
    FiftySplit(0);
    assert FirstNames(0) == [];
    FillUp([Mod([], [X], Some([X]))], 0, fuel);
  }

  // ------------------------------------------------------------------- the program

  class Top {
    var nidx: seq<Mod>
    const seen: array<Name>
    var sptr: nat
    var transitive: bool
    var mdep: seq<byte>
    var missing: seq<Name>
    const builtin: Name -> bool

    /** The names taken up for the current module, and the log before them. */
    ghost var visited: seq<Name>
    ghost var start: Log

    ghost predicate Valid()
      reads this
    {
      && seen.Length == SLOTS && sptr <= SLOTS
      && Logged() == NoteAll(nidx, builtin, start, visited)
    }

    ghost function Now(): Visit
      requires Valid()
      reads this, seen
    {
      Visit(seen[..sptr], visited, true)
    }

    ghost function Logged(): Log
      reads this
    {
      Log(mdep, transitive, missing)
    }

    constructor (builtin: Name -> bool)
      ensures Valid() && nidx == [] && mdep == [] && missing == [] && this.builtin == builtin && fresh(seen)
    {
      nidx, sptr, transitive, mdep, missing := [], 0, false, [], [];
      seen := new Name[SLOTS](_ => []);
      this.builtin := builtin;
      visited, start := [], Log([], false, []);
    }

    /** `index_modules`: the index by name is a sorted permutation. */
    method IndexModules(mods: seq<Mod>)
      requires Valid()
      modifies this`nidx, this`visited, this`start
      ensures Valid() && Indexed(nidx) && multiset(nidx) == multiset(mods)
    {
      var a := new Mod[|mods|](i requires 0 <= i < |mods| => mods[i]);
      assert a[..] == mods && a[..a.Length] == mods;
      ByNameOrder();
      Qsort.Qsortx(a, a.Length, ByName);
      assert a[..a.Length] == a[..];
      nidx := a[..];
      visited, start := [], Logged();
    }

    /** `find_indexed_module`. */
    method FindIndexedModule(name: Name) returns (md: Option<Mod>)
      ensures md == Find(nidx, name)
      ensures Indexed(nidx) ==> (md.Some? <==> exists x :: x in nidx && Answers(x, name))
      ensures Indexed(nidx) && md.Some? ==> md.value in nidx && Answers(md.value, name)
    {
      hide EqCmp, Stem, Indexed, Answers;
      if Indexed(nidx) { FindIff(nidx, name); }
      var l, r := 0, |nidx|;
      while l < r
        invariant 0 <= l <= r <= |nidx| && FindIn(nidx, name, l, r) == Find(nidx, name)
        decreases r - l
      {
        var m := l + (r - l) / 2;
        var rel := Eqstrnncmp(Stem(nidx[m].file), name);
        if rel == 0 { return Some(nidx[m]); }
        if rel > 0 {
          r := m;
        } else if l == m {
          break;
        } else {
          l := m;
        }
      }
      return None;
    }

    /** `seen_this_module`: adds a name it has not met, while there is room. */
    method SeenThisModule(name: Name) returns (yes: bool)
      requires seen.Length == SLOTS && sptr <= SLOTS
      modifies this`sptr, seen
      ensures sptr <= SLOTS && yes == (name in old(seen[..sptr]))
      ensures seen[..sptr] == if yes || old(sptr) == SLOTS then old(seen[..sptr]) else old(seen[..sptr]) + [name]
    {
      var i, n := 0, sptr;
      while i < n
        invariant 0 <= i <= n && name !in seen[..i]
      {
        if seen[i] == name { return true; }
        assert seen[..i + 1] == seen[..i] + [seen[i]];
        i := i + 1;
      }
      if n < SLOTS {
        seen[n] := name;
        sptr := sptr + 1;
      }
      return false;
    }

    /** Looking a new name up and printing its path, or complaining. */
    method LookUp(name: Name) returns (dd: Option<Mod>)
      requires Valid()
      modifies this`transitive, this`mdep, this`missing, this`visited
      ensures Valid() && dd == Find(nidx, name) && visited == old(visited) + [name]
    {
      hide NoteAll, Find;
      NoteAllNext(nidx, builtin, start, visited, name);
      visited := visited + [name];
      dd := FindIndexedModule(name);
      if dd == None {
        if !transitive && !builtin(name) {
          missing := missing + [name];
        }
      } else {
        mdep := mdep + [SPACE] + Path(dd.value);
        transitive := true;
      }
    }

    /** `try_resolve_name`, with stack for `fuel` more nested calls. */
    method TryResolveName(name: Name, fuel: nat) returns (ok: bool)
      requires Valid()
      modifies this`sptr, this`transitive, this`mdep, this`missing, this`visited, seen
      ensures Valid() && Now().(ok := ok) == VisitName(nidx, old(Now()), name, fuel)
      decreases fuel, 0
    {
      hide NoteAll, Find, VisitNames;
      var yes := SeenThisModule(name);
      if yes { return true; }
      var dd := LookUp(name);
      assert Now() == Taken(old(Now()), name);
      if dd == None { return true; }
      if fuel == 0 { return false; }
      ok := TryResolveDeps(dd.value, fuel - 1);
    }

    /** `try_resolve_deps`. */
    method TryResolveDeps(md: Mod, fuel: nat) returns (ok: bool)
      requires Valid()
      modifies this`sptr, this`transitive, this`mdep, this`missing, this`visited, seen
      ensures Valid() && Now().(ok := ok) == VisitNames(nidx, old(Now()), DepsOf(md), fuel)
      decreases fuel, 1
    {
      hide NoteAll, Find, Names, VisitName;
      ok := true;
      if md.deps == None { return; }
      var deps := md.deps.value;
      ghost var all := VisitNames(nidx, Now(), DepsOf(md), fuel);
      var p := 0;
      assert deps[0..] == deps;
      NamesNone();
      while p < |deps|
        invariant 0 <= p && Valid() && ok
        invariant all == if p < |deps| then VisitNames(nidx, Now(), Names(deps[p..]), fuel) else Now()
        decreases |deps| - p
      {
        var q := p + Cut(deps[p..]);
        NamesStep(deps, p, q);
        ghost var v := Now();
        ok := TryResolveName(deps[p..q], fuel);
        VisitStep(nidx, v, deps[p..q], if q + 1 < |deps| then Names(deps[q + 1..]) else [], fuel);
        if !ok { return; }
        p := q + 1;
      }
    }

    /** `resolve_module`.  On any index the line has only paths of modules that
        go by a reachable name, and repeats none whose name is in the table.
        If the stack is enough, it has every one of them.  It always is, and
        nothing is repeated, when the table can hold all reachable names; and
        however many there are, it is when no chain of dependencies is longer. */
    method ResolveModule(md: Mod, fuel: nat, ghost all: set<Name>) returns (ok: bool, ghost ns: seq<Name>)
      requires Valid()
      modifies this`sptr, this`transitive, this`mdep, this`missing, this`visited, this`start, seen
      ensures Valid() && forall n :: n in ns ==> Reachable(nidx, md, n)
      ensures forall i, j :: 0 <= i < j < |ns| && ns[i] == ns[j] ==> ns[j] !in seen[..sptr]
      ensures ok ==> forall n :: Reachable(nidx, md, n) ==> n in ns
      ensures |all| <= 50 && |all| <= fuel && (forall n :: Reachable(nidx, md, n) ==> n in all) ==>
        ok && Distinct(ns)
      ensures Deepest(nidx, md, fuel) ==> ok
      ensures mdep == old(mdep) + Heading(md) + Printed(nidx, ns) + (if ok then [10] else [])
      ensures missing == old(missing) + Missing(nidx, builtin, ns)
    {
      hide Reachable, NoteAll, Find, Names, Path, Printed, Missing, VisitNames, Distinct, Kept, Shut, Roomy;
      hide Deepest, Heading;
      mdep := mdep + Path(md) + [COLON];
      HeadingIs(old(mdep), md);
      sptr := 0;
      transitive := false;
      visited, start := [], Logged();
      NoteAllNone(nidx, builtin, start);
      ghost var v := Now();
      forall k | k in DepsOf(md) ensures Reachable(nidx, md, k) { ReachableFirst(nidx, md, k); }
      ok := TryResolveDeps(md, fuel);
      ns := visited;
      ghost var w := VisitNames(nidx, v, DepsOf(md), fuel);
      Resolved(nidx, md, all, v, fuel);
      NoteAllMeans(nidx, builtin, start, ns);
      if ok {
        mdep := mdep + [NEWLINE];
        visited, start := [], Logged();
        NoteAllNone(nidx, builtin, start);
      }
    }
  }

  /** What a line begins with. */
  function Heading(md: Mod): Name { md.dir + [47] + md.file + [58] }

  lemma HeadingIs(s: seq<byte>, md: Mod)
    ensures s + Path(md) + [COLON] == s + Heading(md) && NEWLINE == 10
  {
  }

  lemma PathIs(md: Mod)
    ensures Path(md) == md.dir + [47] + md.file && COLON == 58 && NEWLINE == 10 && SPACE == 32
  {
  }

  lemma NoteAllNone(idx: seq<Mod>, builtin: Name -> bool, g: Log)
    ensures NoteAll(idx, builtin, g, []) == g
  {
  }

  lemma VisitStep(idx: seq<Mod>, v: Visit, n: Name, names: seq<Name>, fuel: nat)
    requires v.ok
    ensures var w := VisitName(idx, v, n, fuel);
      VisitNames(idx, v, [n] + names, fuel) == if w.ok then VisitNames(idx, w, names, fuel) else w
    ensures VisitNames(idx, VisitName(idx, v, n, fuel), [], fuel) == VisitName(idx, v, n, fuel)
  {
    hide VisitName;
    assert ([n] + names)[1..] == names;
  }

  /** What the visits from the dependencies of `md` come to. */
  lemma Resolved(idx: seq<Mod>, md: Mod, all: set<Name>, v: Visit, fuel: nat)
    requires v == Visit([], [], true)
    ensures var w := VisitNames(idx, v, DepsOf(md), fuel);
      && (forall n :: n in w.ns ==> Reachable(idx, md, n))
      && (forall i, j :: 0 <= i < j < |w.ns| && w.ns[i] == w.ns[j] ==> w.ns[j] !in w.seen)
      && (w.ok ==> forall n :: Reachable(idx, md, n) ==> n in w.ns)
      && (|all| <= SLOTS && |all| <= fuel && (forall n :: Reachable(idx, md, n) ==> n in all) ==>
            w.ok && Distinct(w.ns))
      && (Deepest(idx, md, fuel) ==> w.ok)
  {
    hide Reachable, VisitNames, Next, DepsOf, Deepest;
    var w := VisitNames(idx, v, DepsOf(md), fuel);
    forall k | k in DepsOf(md) ensures Reachable(idx, md, k) { ReachableFirst(idx, md, k); }
    assert Kept(idx, md, v);
    VisitNamesKeeps(idx, md, v, DepsOf(md), fuel);
    if Deepest(idx, md, fuel) {
      forall n | n in DepsOf(md) ensures Trail(idx, md, [] + [n], n) {}
      VisitNamesShort(idx, md, v, [], DepsOf(md), fuel, fuel);
    }
    if w.ok {
      VisitNamesShut(idx, md, v, DepsOf(md), fuel);
      assert w.ns[0..] == w.ns;
      EverythingSeen(idx, md, w.ns);
    }
    if |all| <= SLOTS && |all| <= fuel && forall n :: Reachable(idx, md, n) ==> n in all {
      VisitNamesEnd(idx, md, all, v, DepsOf(md), fuel);
      assert forall j :: 0 <= j < |w.ns| ==> w.ns[j] in w.ns;
    }
  }

  lemma NamesNone()
    ensures Names([]) == []
  {
  }

  lemma NamesStep(deps: Name, p: nat, q: nat)
    requires p < |deps| && q == p + Cut(deps[p..])
    ensures p <= q <= |deps|
    ensures Names(deps[p..]) == [deps[p..q]] + (if q + 1 < |deps| then Names(deps[q + 1..]) else [])
  {
    var s := deps[p..];
    assert s[..q - p] == deps[p..q];
    if q < |deps| { assert s[q - p + 1..] == deps[q + 1..]; }
  }

  lemma EverythingSeen(idx: seq<Mod>, root: Mod, s: seq<Name>)
    requires forall k :: k in DepsOf(root) ==> k in s
    requires forall m, k :: m in s && k in Next(idx, m) ==> k in s
    ensures forall n :: Reachable(idx, root, n) ==> n in s
  {
    forall n | Reachable(idx, root, n) ensures n in s {
      var p :| Trail(idx, root, p, n);
      TrailInside(idx, root, p, n, s);
    }
  }
}
