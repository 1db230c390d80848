/** How the kernel finds its way along the text of a path. */
module PathWalk {
  import opened Basics
  import opened PacIndex

  /** From directory `d`, all paths being from the root: a dot stays, two dots go
      to the directory above, any other name goes down. */
  function StepTo(d: Path, n: Name): Path {
    if n == [] || n == [46] then d
    else if n == [46, 46] then if d == [] then [] else d[..|d| - 1]
    else d + [n]
  }

  /** Where the first component ends. */
  function FirstSlash(s: Name): (q: nat)
    ensures q <= |s| && (q < |s| ==> s[q] == 47) && forall i :: 0 <= i < q ==> s[i] != 47
  {
    if s == [] || s[0] == 47 then 0 else 1 + FirstSlash(s[1..])
  }

  /** The directories met along `s`, after each component. */
  function WalkFrom(d: Path, s: Name): (w: seq<Path>)
    ensures w != []
    decreases |s|
  {
    var q := FirstSlash(s);
    var e := StepTo(d, s[..q]);
    if q == |s| then [e] else [e] + WalkFrom(e, s[q + 1..])
  }

  /** A leading slash starts at the root. */
  function Walk(d: Path, s: Name): (w: seq<Path>)
    ensures w != []
  {
    if s != [] && s[0] == 47 then WalkFrom([], s[1..]) else WalkFrom(d, s)
  }

  /** From any directory, the text of `p` leads to `p` below it, and never
      out of that directory on the way. */
  ghost predicate StaysInside(p: Path) {
    forall d :: var w := Walk(d, Text(p));
      w[|w| - 1] == d + p && forall e :: e in w ==> d <= e
  }

  /** Neither a dot nor two, nor a slash in it. */
  ghost predicate Straight(n: Name) {
    n != [] && n != [46] && n != [46, 46] && forall i :: 0 <= i < |n| ==> n[i] != 47
  }

  lemma SlashAfter(n: Name, t: Name)
    requires forall i :: 0 <= i < |n| ==> n[i] != 47
    ensures FirstSlash(n) == |n| && FirstSlash(n + [47] + t) == |n|
  {
    var s := n + [47] + t;
    assert s[|n|] == 47;
    assert forall i :: 0 <= i < |n| ==> s[i] == n[i];
  }

  lemma LastStep(d: Path, n: Name)
    requires Straight(n)
    ensures WalkFrom(d, n) == [d + [n]] && n != [] && n[0] != 47
  {
    hide FirstSlash;
    SlashAfter(n, []);
    assert n[..|n|] == n;
  }

  lemma FirstStep(d: Path, n: Name, t: Name)
    requires Straight(n)
    ensures WalkFrom(d, n + [47] + t) == [d + [n]] + WalkFrom(d + [n], t) && (n + [47] + t)[0] != 47
  {
    hide FirstSlash;
    SlashAfter(n, t);
    var s := n + [47] + t;
    assert s[..|n|] == n && s[|n| + 1..] == t;
  }

  lemma {:induction false} StraightInside(d: Path, p: Path)
    requires p != [] && forall i :: 0 <= i < |p| ==> Straight(p[i])
    ensures var w := WalkFrom(d, Text(p));
      w[|w| - 1] == d + p && forall e :: e in w ==> d <= e
    ensures Text(p) != [] && Text(p)[0] != 47
    decreases |p|
  {
    hide WalkFrom, Straight;
    var n := p[0];
    if |p| == 1 {
      LastStep(d, n);
      assert p == [n];
    } else {
      var t := Text(p[1..]);
      StraightInside(d + [n], p[1..]);
      FirstStep(d, n, t);
      assert Text(p) == n + [47] + t;
      hide Text;
      assert d + [n] + p[1..] == d + p;
      StillBelow(d, n, WalkFrom(d + [n], t));
    }
  }

  lemma StillBelow(d: Path, n: Name, w: seq<Path>)
    requires forall e :: e in w ==> d + [n] <= e
    ensures forall e :: e in [d + [n]] + w ==> d <= e
  {
    forall e | e in w ensures d <= e { assert d + [n] <= e; }
  }

  lemma StraightStays(p: Path)
    requires p != [] && forall i :: 0 <= i < |p| ==> Straight(p[i])
    ensures StaysInside(p)
  {
    hide WalkFrom, Text, Straight;
    forall d ensures var w := Walk(d, Text(p)); w[|w| - 1] == d + p && forall e :: e in w ==> d <= e {
      StraightInside(d, p);
    }
  }
}
