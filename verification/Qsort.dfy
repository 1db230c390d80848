/** Three-way quicksort over an array of pointers (lib/util/qsort.c).

    Pointers into the array are indices; the comparator is an arbitrary
    function whose signs form a total preorder, so pivot-equal elements
    need not be identical. */
module Qsort {

  ghost predicate NotAfter<T>(cmp: (T, T) -> int, x: T, y: T) {
    cmp(x, y) <= 0
  }

  /** What the sort needs from `cmp`: swapping the arguments flips the sign,
      and "not after" is transitive. */
  ghost predicate TotalPreorder<T(!new)>(cmp: (T, T) -> int) {
    && (forall x, y :: NotAfter(cmp, x, y) <==> cmp(y, x) >= 0)
    && (forall x, y, z :: NotAfter(cmp, x, y) && NotAfter(cmp, y, z) ==> NotAfter(cmp, x, z))
  }

  ghost predicate Sorted<T>(cmp: (T, T) -> int, s: seq<T>) {
    forall i, j :: 0 <= i < j < |s| ==> NotAfter(cmp, s[i], s[j])
  }

  /** `t` is `s` with the cells of `[lo, hi)` permuted. */
  ghost predicate Permuted<T>(s: seq<T>, t: seq<T>, lo: int, hi: int)
  {
    && 0 <= lo <= hi <= |s| == |t|
    && multiset(t[lo..hi]) == multiset(s[lo..hi])
    && (forall k :: 0 <= k < lo || hi <= k < |s| ==> t[k] == s[k])
  }

  ghost function Swap<T>(s: seq<T>, i: int, j: int): seq<T>
    requires 0 <= i < |s| && 0 <= j < |s|
  {
    s[i := s[j]][j := s[i]]
  }

  lemma SwapPermutes<T>(s: seq<T>, t: seq<T>, lo: int, hi: int, i: int, j: int)
    requires Permuted(s, t, lo, hi)
    requires lo <= i < hi && lo <= j < hi
    ensures Permuted(s, Swap(t, i, j), lo, hi)
  {
    var r := t[lo..hi];
    assert Swap(t, i, j)[lo..hi] == Swap(r, i - lo, j - lo);
  }

  method Exch<T>(a: array<T>, i: int, j: int, ghost s: seq<T>, ghost lo: int, ghost hi: int)
    requires Permuted(s, a[..], lo, hi)
    requires lo <= i < hi && lo <= j < hi
    modifies a
    ensures a[..] == Swap(old(a[..]), i, j)
    ensures Permuted(s, a[..], lo, hi)
  {
    SwapPermutes(s, a[..], lo, hi, i, j);
    a[i], a[j] := a[j], a[i];
    assert a[..] == Swap(old(a[..]), i, j);
  }

  /** The picture in the comments of `sort` while it scans:
      eq.. lt.. ?? ..?? gt.. eq.. pivot */
  ghost predicate Layout<T>(cmp: (T, T) -> int, s: seq<T>, lo: int, hi: int,
                            le: int, lp: int, rp: int, re: int)
  {
    && 0 <= lo <= le <= lp <= rp <= re < hi - 1 < |s|
    && (forall k :: lo <= k < le ==> cmp(s[k], s[hi - 1]) == 0)
    && (forall k :: le <= k < lp ==> cmp(s[k], s[hi - 1]) < 0)
    && (forall k :: rp < k <= re ==> cmp(s[k], s[hi - 1]) > 0)
    && (forall k :: re < k < hi - 1 ==> cmp(s[k], s[hi - 1]) == 0)
  }

  method ScanLeft<T>(a: array<T>, lo: int, hi: int, cmp: (T, T) -> int,
                     le0: int, lp0: int, rp: int, ghost re: int, ghost s: seq<T>)
    returns (le: int, lp: int)
    requires Layout(cmp, a[..], lo, hi, le0, lp0, rp, re)
    requires Permuted(s, a[..], lo, hi)
    modifies a
    ensures Layout(cmp, a[..], lo, hi, le, lp, rp, re)
    ensures Permuted(s, a[..], lo, hi)
    ensures lp0 <= lp && (lp < rp ==> cmp(a[lp], a[hi - 1]) > 0)
  {
    hide Permuted;
    le, lp := le0, lp0;
    while lp < rp && cmp(a[lp], a[hi - 1]) <= 0
      invariant lp0 <= lp
      invariant Layout(cmp, a[..], lo, hi, le, lp, rp, re)
      invariant Permuted(s, a[..], lo, hi)
    {
      if cmp(a[lp], a[hi - 1]) == 0 {
        Exch(a, le, lp, s, lo, hi);
        le := le + 1;
      }
      lp := lp + 1;
    }
  }

  method ScanRight<T>(a: array<T>, lo: int, hi: int, cmp: (T, T) -> int,
                      ghost le: int, lp: int, rp0: int, re0: int, ghost s: seq<T>)
    returns (rp: int, re: int)
    requires Layout(cmp, a[..], lo, hi, le, lp, rp0, re0)
    requires Permuted(s, a[..], lo, hi)
    modifies a
    ensures Layout(cmp, a[..], lo, hi, le, lp, rp, re)
    ensures Permuted(s, a[..], lo, hi)
    ensures a[hi - 1] == old(a[hi - 1]) && (lp < rp ==> a[lp] == old(a[lp]))
    ensures rp <= rp0 && (lp < rp ==> cmp(a[rp], a[hi - 1]) < 0)
  {
    hide Permuted;
    rp, re := rp0, re0;
    while rp > lp && cmp(a[rp], a[hi - 1]) >= 0
      invariant rp <= rp0
      invariant Layout(cmp, a[..], lo, hi, le, lp, rp, re)
      invariant Permuted(s, a[..], lo, hi)
      invariant a[hi - 1] == old(a[hi - 1]) && (lp < rp ==> a[lp] == old(a[lp]))
    {
      if cmp(a[rp], a[hi - 1]) == 0 {
        Exch(a, re, rp, s, lo, hi);
        re := re - 1;
      }
      rp := rp - 1;
    }
  }

  lemma LayoutAfterExchange<T>(cmp: (T, T) -> int, s: seq<T>, lo: int, hi: int,
                               le: int, lp: int, rp: int, re: int)
    requires Layout(cmp, s, lo, hi, le, lp, rp, re) && lp < rp
    requires cmp(s[lp], s[hi - 1]) > 0 && cmp(s[rp], s[hi - 1]) < 0
    ensures Layout(cmp, Swap(s, lp, rp), lo, hi, le, lp + 1, if rp > lp + 1 then rp - 1 else rp, re)
  {
  }

  /** The scanning part of `sort`: the scans meet at `m`. */
  method Scan<T>(a: array<T>, lo: int, hi: int, cmp: (T, T) -> int)
    returns (le: int, m: int, re: int)
    requires 0 <= lo <= hi <= a.Length && hi - lo >= 2
    modifies a
    ensures Layout(cmp, a[..], lo, hi, le, m, m, re)
    ensures Permuted(old(a[..]), a[..], lo, hi)
  {
    ghost var s := a[..];
    var pv := lo + (hi - lo) / 2;
    Exch(a, hi - 1, pv, s, lo, hi);
    le, re := lo, hi - 2;
    var lp, rp := le, re;
    while true
      invariant Layout(cmp, a[..], lo, hi, le, lp, rp, re)
      invariant Permuted(s, a[..], lo, hi)
      decreases rp - lp
    {
      le, lp := ScanLeft(a, lo, hi, cmp, le, lp, rp, re, s);
      rp, re := ScanRight(a, lo, hi, cmp, le, lp, rp, re, s);
      if lp == rp { break; }
      LayoutAfterExchange(cmp, a[..], lo, hi, le, lp, rp, re);
      Exch(a, lp, rp, s, lo, hi);
      lp := lp + 1;
      if rp > lp { rp := rp - 1; }
    }
    m := lp;
  }

  /** Where the element at position `x` of `[lo, hi)` comes from after `i`
      exchanges: its mirror image if exactly one of the two walkers passed it. */
  ghost function FoldIndex(x: int, lo: int, hi: int, i: int): int {
    if (x - lo < i) != (hi - 1 - x < i) then lo + hi - 1 - x else x
  }

  /** `t` is `s` after `k` inward-walking exchanges of the outermost cells of `[lo, hi)`. */
  ghost predicate FoldOf<T>(s: seq<T>, t: seq<T>, lo: int, hi: int, k: int)
  {
    && 0 <= lo <= hi <= |s| == |t|
    && (forall x :: 0 <= x < |s| && !(lo <= x < hi) ==> t[x] == s[x])
    && (forall x :: lo <= x < hi ==> t[x] == s[FoldIndex(x, lo, hi, k)])
  }

  /** The centring loops of `sort`.  A pair met twice is exchanged back, which
      is what makes them right when the equal run is the longer one. */
  method Fold<T>(a: array<T>, lo: int, hi: int, k: nat, ghost s: seq<T>, ghost from: int, ghost to: int)
    requires from <= lo <= hi <= to
    requires k <= hi - lo
    requires Permuted(s, a[..], from, to)
    modifies a
    ensures Permuted(s, a[..], from, to)
    ensures FoldOf(old(a[..]), a[..], lo, hi, k)
  {
    hide FoldOf, Permuted;
    ghost var t := a[..];
    assert FoldOf(t, t, lo, hi, 0) by { FoldNone(s, t, lo, hi, from, to); }
    var i := 0;
    while i < k
      invariant 0 <= i <= k
      invariant Permuted(s, a[..], from, to)
      invariant FoldOf(t, a[..], lo, hi, i)
    {
      FoldStep(t, a[..], lo, hi, i);
      Exch(a, lo + i, hi - 1 - i, s, from, to);
      i := i + 1;
    }
  }

  lemma FoldNone<T>(s: seq<T>, t: seq<T>, lo: int, hi: int, from: int, to: int)
    requires Permuted(s, t, from, to) && from <= lo <= hi <= to
    ensures FoldOf(t, t, lo, hi, 0)
  {
  }

  lemma FoldStep<T>(s: seq<T>, t: seq<T>, lo: int, hi: int, i: int)
    requires FoldOf(s, t, lo, hi, i)
    requires 0 <= i < hi - lo
    ensures FoldOf(s, Swap(t, lo + i, hi - 1 - i), lo, hi, i + 1)
  {
    var u := Swap(t, lo + i, hi - 1 - i);
    forall x | lo <= x < hi
      ensures u[x] == s[FoldIndex(x, lo, hi, i + 1)]
    {
      var y := if x == lo + i || x == hi - 1 - i then lo + hi - 1 - x else x;
      assert u[x] == t[y];
      assert t[y] == s[FoldIndex(y, lo, hi, i)];
    }
  }

  lemma FoldOutside<T>(s: seq<T>, t: seq<T>, lo: int, hi: int, k: int)
    requires FoldOf(s, t, lo, hi, k)
    ensures |t| == |s|
    ensures forall x :: 0 <= x < |s| && !(lo <= x < hi) ==> t[x] == s[x]
  {
  }

  /** A run of `k` pivot-equal cells at the left end of `[lo, hi)` is moved to its right end. */
  lemma LeftCentred<T>(cmp: (T, T) -> int, s: seq<T>, t: seq<T>, lo: int, hi: int, k: int, p: T)
    requires FoldOf(s, t, lo, hi, k) && 0 <= k <= hi - lo
    requires forall x :: lo <= x < lo + k ==> cmp(s[x], p) == 0
    requires forall x :: lo + k <= x < hi ==> cmp(s[x], p) <= 0
    ensures forall x :: lo <= x < hi - k ==> cmp(t[x], p) <= 0
    ensures forall x :: hi - k <= x < hi ==> cmp(t[x], p) == 0
  {
  }

  lemma RightCentred<T>(cmp: (T, T) -> int, s: seq<T>, t: seq<T>, lo: int, hi: int, k: int, p: T)
    requires FoldOf(s, t, lo, hi, k) && 0 <= k <= hi - lo
    requires forall x :: lo <= x < hi - k ==> cmp(s[x], p) >= 0
    requires forall x :: hi - k <= x < hi ==> cmp(s[x], p) == 0
    ensures forall x :: lo <= x < lo + k ==> cmp(t[x], p) == 0
    ensures forall x :: lo + k <= x < hi ==> cmp(t[x], p) >= 0
  {
  }

  /** The outcome of a partition: `s[lo..i]` not after the pivot, `s[i..j]`
      equal to it and `s[j..hi]` not before it. */
  ghost predicate Parted<T>(cmp: (T, T) -> int, s: seq<T>, lo: int, i: int, j: int, hi: int, p: T)
  {
    && 0 <= lo <= i <= j <= hi <= |s|
    && (forall k :: lo <= k < i ==> cmp(s[k], p) <= 0)
    && (forall k :: i <= k < j ==> cmp(s[k], p) == 0)
    && (forall k :: j <= k < hi ==> cmp(s[k], p) >= 0)
  }

  lemma Reflexive<T(!new)>(cmp: (T, T) -> int, p: T)
    requires TotalPreorder(cmp)
    ensures cmp(p, p) == 0
  {
    assert NotAfter(cmp, p, p) <==> cmp(p, p) >= 0;
  }

  lemma MeetingStaysEqual<T>(cmp: (T, T) -> int, s: seq<T>, t: seq<T>, lo: int, le: int, m: int, p: T)
    requires FoldOf(s, t, lo, m + 1, le - lo) && lo <= le <= m
    requires forall x :: lo <= x < le ==> cmp(s[x], p) == 0
    requires cmp(s[m], p) == 0
    ensures cmp(t[m], p) == 0
  {
    assert t[m] == s[FoldIndex(m, lo, m + 1, le - lo)];
  }

  lemma RightUntouched<T>(cmp: (T, T) -> int, s: seq<T>, t: seq<T>,
                          lo: int, le: int, m: int, re: int, hi: int, lp: int, rp: int)
    requires Layout(cmp, s, lo, hi, le, m, m, re)
    requires cmp(s[hi - 1], s[hi - 1]) == 0
    requires lp == if cmp(s[m], s[hi - 1]) > 0 then m - 1 else m
    requires rp == if cmp(s[m], s[hi - 1]) < 0 then m + 1 else m
    requires |t| == |s| && forall x :: lp < x < |s| ==> t[x] == s[x]
    requires cmp(s[m], s[hi - 1]) == 0 ==> cmp(t[m], s[hi - 1]) == 0
    ensures forall x :: rp <= x <= re ==> cmp(t[x], s[hi - 1]) >= 0
    ensures forall x :: re < x < hi ==> cmp(t[x], s[hi - 1]) == 0
  {
  }

  /** From the met scans to a partition, on values. */
  lemma Centred<T>(cmp: (T, T) -> int, s: seq<T>, t: seq<T>, u: seq<T>,
                   lo: int, le: int, m: int, re: int, hi: int, lp: int, rp: int)
    requires Layout(cmp, s, lo, hi, le, m, m, re)
    requires cmp(s[hi - 1], s[hi - 1]) == 0
    requires lp == if cmp(s[m], s[hi - 1]) > 0 then m - 1 else m
    requires rp == if cmp(s[m], s[hi - 1]) < 0 then m + 1 else m
    requires FoldOf(s, t, lo, lp + 1, le - lo)
    requires FoldOf(t, u, rp, hi, hi - 1 - re)
    ensures Parted(cmp, u, lo, lp + 1 - (le - lo), rp + (hi - 1 - re), hi, s[hi - 1])
  {
    hide FoldOf, FoldIndex;
    var p := s[hi - 1];
    FoldOutside(s, t, lo, lp + 1, le - lo);
    FoldOutside(t, u, rp, hi, hi - 1 - re);
    LeftCentred(cmp, s, t, lo, lp + 1, le - lo, p);
    if cmp(s[m], p) == 0 { MeetingStaysEqual(cmp, s, t, lo, le, m, p); }
    RightUntouched(cmp, s, t, lo, le, m, re, hi, lp, rp);
    assert lo <= le <= m <= re < hi - 1;
    hide Layout;
    RightCentred(cmp, t, u, rp, hi, hi - 1 - re, p);
  }

  /** The part of `sort` after the scans have met at `m`. */
  method Centre<T(!new)>(a: array<T>, lo: int, hi: int, cmp: (T, T) -> int,
                         le: int, m: int, re: int, ghost s: seq<T>)
    returns (lp: int, rp: int)
    requires TotalPreorder(cmp)
    requires Layout(cmp, a[..], lo, hi, le, m, m, re)
    requires Permuted(s, a[..], lo, hi)
    modifies a
    ensures lo - 1 <= lp < hi - 1 && lo < rp <= hi
    ensures Parted(cmp, a[..], lo, lp + 1, rp, hi, old(a[hi - 1]))
    ensures Permuted(s, a[..], lo, hi)
  {
    hide TotalPreorder, Permuted, FoldOf, Parted;
    lp, rp := m, m;
    if cmp(a[lp], a[hi - 1]) > 0 { lp := lp - 1; }
    if cmp(a[rp], a[hi - 1]) < 0 { rp := rp + 1; }
    Fold(a, lo, lp + 1, le - lo, s, lo, hi);
    ghost var t := a[..];
    Fold(a, rp, hi, hi - 1 - re, s, lo, hi);
    Reflexive(cmp, old(a[hi - 1]));
    Centred(cmp, old(a[..]), t, a[..], lo, le, m, re, hi, lp, rp);
    lp := lp - (le - lo);
    rp := rp + (hi - 1 - re);
  }

  /** Bentley-McIlroy partition.  Both outer parts come out strictly shorter
      than the range, also when the scans meet on a pivot-equal element and
      neither pointer moves off it. */
  method Partition<T(!new)>(a: array<T>, lo: int, hi: int, cmp: (T, T) -> int)
    returns (lp: int, rp: int, ghost p: T)
    requires 0 <= lo <= hi <= a.Length && hi - lo >= 2
    requires TotalPreorder(cmp)
    modifies a
    ensures lo - 1 <= lp < hi - 1 && lo < rp <= hi
    ensures Parted(cmp, a[..], lo, lp + 1, rp, hi, p)
    ensures Permuted(old(a[..]), a[..], lo, hi)
  {
    var le, m, re := Scan(a, lo, hi, cmp);
    p := a[hi - 1];
    lp, rp := Centre(a, lo, hi, cmp, le, m, re, old(a[..]));
  }

  method Sort2<T(!new)>(a: array<T>, lo: int, hi: int, cmp: (T, T) -> int)
    requires 0 <= lo < hi <= a.Length && hi - lo == 2
    requires TotalPreorder(cmp)
    modifies a
    ensures Permuted(old(a[..]), a[..], lo, hi)
    ensures Sorted(cmp, a[lo..hi])
  {
    ghost var s := a[..];
    if cmp(a[lo], a[lo + 1]) > 0 { Exch(a, lo, lo + 1, s, lo, hi); }
    assert NotAfter(cmp, a[lo], a[lo + 1]);
  }

  method Sort3<T(!new)>(a: array<T>, lo: int, hi: int, cmp: (T, T) -> int)
    requires 0 <= lo < hi <= a.Length && hi - lo == 3
    requires TotalPreorder(cmp)
    modifies a
    ensures Permuted(old(a[..]), a[..], lo, hi)
    ensures Sorted(cmp, a[lo..hi])
  {
    ghost var s := a[..];
    if cmp(a[lo], a[lo + 1]) > 0 { Exch(a, lo, lo + 1, s, lo, hi); }
    ghost var t := a[..];
    if cmp(a[lo + 1], a[lo + 2]) > 0 { Exch(a, lo + 1, lo + 2, s, lo, hi); }
    ghost var u := a[..];
    if cmp(a[lo], a[lo + 1]) > 0 { Exch(a, lo, lo + 1, s, lo, hi); }
    Network3(cmp, s, t, u, a[..], lo);
  }

  ghost function OrderPair<T>(cmp: (T, T) -> int, s: seq<T>, i: int): seq<T>
    requires 0 <= i < |s| - 1
  {
    if cmp(s[i], s[i + 1]) > 0 then Swap(s, i, i + 1) else s
  }

  lemma Network3<T(!new)>(cmp: (T, T) -> int, s: seq<T>, t: seq<T>, u: seq<T>, v: seq<T>, lo: int)
    requires TotalPreorder(cmp)
    requires 0 <= lo <= |s| - 3
    requires t == OrderPair(cmp, s, lo)
    requires |t| == |s| && u == OrderPair(cmp, t, lo + 1)
    requires |u| == |s| && v == OrderPair(cmp, u, lo)
    ensures |v| == |s| && Sorted(cmp, v[lo..lo + 3])
  {
    var x, y, z := s[lo], s[lo + 1], s[lo + 2];
    assert NotAfter(cmp, t[lo], t[lo + 1]);
    assert NotAfter(cmp, u[lo + 1], u[lo + 2]) && NotAfter(cmp, u[lo], u[lo + 2]) by {
      assert NotAfter(cmp, t[lo + 1], t[lo + 2]) || NotAfter(cmp, t[lo + 2], t[lo + 1]);
    }
    assert NotAfter(cmp, v[lo], v[lo + 1]);
    assert NotAfter(cmp, v[lo + 1], v[lo + 2]) && NotAfter(cmp, v[lo], v[lo + 2]);
  }

  /** Sorted outer parts around a run equal to the pivot make a sorted whole. */
  lemma SortedAroundPivot<T(!new)>(cmp: (T, T) -> int, s: seq<T>, i: int, j: int, p: T)
    requires TotalPreorder(cmp)
    requires Parted(cmp, s, 0, i, j, |s|, p)
    requires Sorted(cmp, s[..i]) && Sorted(cmp, s[j..])
    ensures Sorted(cmp, s)
  {
    forall x, y | 0 <= x < y < |s| ensures NotAfter(cmp, s[x], s[y]) {
      if y < i {
        assert NotAfter(cmp, s[..i][x], s[..i][y]);
      } else if j <= x {
        assert NotAfter(cmp, s[j..][x - j], s[j..][y - j]);
      } else {
        assert NotAfter(cmp, s[x], p);
        assert NotAfter(cmp, p, s[y]);
      }
    }
  }

  lemma WidenPermuted<T>(s: seq<T>, t: seq<T>, lo: int, l: int, h: int, hi: int)
    requires Permuted(s, t, l, h)
    requires 0 <= lo <= l <= h <= hi <= |s|
    ensures Permuted(s, t, lo, hi)
  {
    assert s[lo..hi] == s[lo..l] + s[l..h] + s[h..hi];
    assert t[lo..hi] == t[lo..l] + t[l..h] + t[h..hi];
    assert s[lo..l] == t[lo..l] && s[h..hi] == t[h..hi];
  }

  lemma PermutedElement<T>(s: seq<T>, t: seq<T>, l: int, h: int, k: int) returns (k': int)
    requires Permuted(s, t, l, h)
    requires l <= k < h
    ensures l <= k' < h && t[k] == s[k']
  {
    assert t[k] == t[l..h][k - l];
    assert t[k] in multiset(t[l..h]);
    assert t[k] in s[l..h];
    k' :| l <= k' < h && s[k'] == t[k];
  }

  /** Permuting one of the outer parts keeps a partition a partition. */
  lemma PartedIsAboutContents<T>(cmp: (T, T) -> int, s: seq<T>, t: seq<T>, l: int, h: int,
                                 lo: int, i: int, j: int, hi: int, p: T)
    requires Parted(cmp, s, lo, i, j, hi, p)
    requires Permuted(s, t, l, h)
    requires (l == lo && h == i) || (l == j && h == hi)
    ensures Parted(cmp, t, lo, i, j, hi, p)
  {
    forall k | l <= k < h ensures exists k' :: l <= k' < h && t[k] == s[k'] {
      var k' := PermutedElement(s, t, l, h, k);
    }
  }

  lemma PermutedTwice<T>(s: seq<T>, t: seq<T>, u: seq<T>, lo: int, hi: int)
    requires Permuted(s, t, lo, hi) && Permuted(t, u, lo, hi)
    ensures Permuted(s, u, lo, hi)
  {
  }

  method Sort<T(!new)>(a: array<T>, lo: int, hi: int, cmp: (T, T) -> int)
    requires 0 <= lo <= hi <= a.Length && hi - lo > 3
    requires TotalPreorder(cmp)
    modifies a
    ensures Permuted(old(a[..]), a[..], lo, hi)
    ensures Sorted(cmp, a[lo..hi])
    decreases hi - lo, 0
  {
    hide Permuted, Sorted, TotalPreorder;
    var lp, rp, p := Partition(a, lo, hi, cmp);
    ghost var s := a[..];
    if lp > lo { Srec(a, lo, lp + 1, cmp); }
    ghost var t := a[..];
    if rp < hi - 1 { Srec(a, rp, hi, cmp); }
    SortedParts(cmp, s, t, a[..], lo, lp + 1, rp, hi, p);
    PermutedTwice(old(a[..]), s, a[..], lo, hi);
  }

  /** What the two recursive calls leave behind. */
  lemma SortedParts<T(!new)>(cmp: (T, T) -> int, s: seq<T>, t: seq<T>, u: seq<T>,
                             lo: int, i: int, j: int, hi: int, p: T)
    requires TotalPreorder(cmp)
    requires Parted(cmp, s, lo, i, j, hi, p)
    requires Permuted(s, t, lo, i) && Permuted(t, u, j, hi)
    requires Sorted(cmp, t[lo..i]) && Sorted(cmp, u[j..hi])
    ensures Permuted(s, u, lo, hi)
    ensures Sorted(cmp, u[lo..hi])
  {
    PartedIsAboutContents(cmp, s, t, lo, i, lo, i, j, hi, p);
    PartedIsAboutContents(cmp, t, u, j, hi, lo, i, j, hi, p);
    WidenPermuted(s, t, lo, lo, i, hi);
    WidenPermuted(t, u, lo, j, hi, hi);
    PermutedTwice(s, t, u, lo, hi);
    var v := u[lo..hi];
    assert v[..i - lo] == t[lo..i] && v[j - lo..] == u[j..hi];
    SortedAroundPivot(cmp, v, i - lo, j - lo, p);
  }

  method Srec<T(!new)>(a: array<T>, lo: int, hi: int, cmp: (T, T) -> int)
    requires 0 <= lo <= hi <= a.Length
    requires TotalPreorder(cmp)
    modifies a
    ensures Permuted(old(a[..]), a[..], lo, hi)
    ensures Sorted(cmp, a[lo..hi])
    decreases hi - lo, 1
  {
    if hi - lo <= 1 { return; }
    if hi - lo == 2 {
      Sort2(a, lo, hi, cmp);
    } else if hi - lo == 3 {
      Sort3(a, lo, hi, cmp);
    } else {
      Sort(a, lo, hi, cmp);
    }
  }

  /** `qsortx` and `qsortp`: the first `n` cells end up sorted and are a
      permutation of what was there; later cells keep their contents. */
  method Qsortx<T(!new)>(a: array<T>, n: nat, cmp: (T, T) -> int)
    requires n <= a.Length
    requires TotalPreorder(cmp)
    modifies a
    ensures Sorted(cmp, a[..n])
    ensures multiset(a[..n]) == old(multiset(a[..n]))
    ensures a[n..] == old(a[n..])
  {
    Srec(a, 0, n, cmp);
    assert a[..][0..n] == a[..n] && old(a[..])[0..n] == old(a[..n]);
  }
}
