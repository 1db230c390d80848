/** Scanning a directory tree into sorted indexes on the heap, for an archive
    (src/mpac/mpac_create.c). */
module PacScan {
  import opened Basics
  import opened PacIndex
  import opened PacTree
  import Qsort

  // ------------------------------------------------------------------- sorting

  /** `cmp_ent`: directories last, then by name. */
  function CmpEnt(a: Entry, b: Entry): int {
    if !a.Dir? && b.Dir? then -1
    else if a.Dir? && !b.Dir? then 1
    else Strcmp(a.name, b.name)
  }

  lemma CmpEntOrder()
    ensures Qsort.TotalPreorder(CmpEnt)
  {
    hide Strcmp;
    forall x, y ensures Qsort.NotAfter(CmpEnt, x, y) <==> CmpEnt(y, x) >= 0 {
      StrcmpFlip(x.name, y.name);
    }
    forall x, y, z | Qsort.NotAfter(CmpEnt, x, y) && Qsort.NotAfter(CmpEnt, y, z)
      ensures Qsort.NotAfter(CmpEnt, x, z)
    {
      if x.Dir? == y.Dir? == z.Dir? { StrcmpTransitive(x.name, y.name, z.name); }
    }
  }

  // ------------------------------------------------------------ the same tree

  /** The same entry, its directory contents possibly rearranged. */
  ghost predicate Twin(a: Entry, b: Entry)
    decreases b, 0
  {
    match b
    case Dir(n, ts, _) => a.Dir? && a.name == n && Rearranged(a.entries, ts)
    case _ => a == b
  }

  ghost predicate Aligned(es: seq<Entry>, ts: seq<Entry>)
    decreases ts, 0
  {
    |es| == |ts| && forall i :: 0 <= i < |ts| ==> Twin(es[i], ts[i])
  }

  ghost predicate Rearranged(es: seq<Entry>, ts: seq<Entry>)
    decreases ts, 1
  {
    exists mid: seq<Entry> :: multiset(mid) == multiset(es) && Aligned(mid, ts)
  }

  lemma SameMembers(s: seq<Entry>, t: seq<Entry>)
    requires multiset(s) == multiset(t)
    ensures forall e :: e in s <==> e in t
  {
    assert forall e :: e in s <==> e in multiset(s);
    assert forall e :: e in t <==> e in multiset(t);
  }

  /** Order is no part of what a tree holds. */
  lemma {:induction false} RearrangedHolds(es: seq<Entry>, ts: seq<Entry>, p: Path, it: Item)
    requires Rearranged(es, ts)
    ensures Holds(es, p, it) <==> Holds(ts, p, it)
    decreases |p|
  {
    if p != [] {
      var mid: seq<Entry> :| multiset(mid) == multiset(es) && Aligned(mid, ts);
      SameMembers(mid, es);
      forall i | 0 <= i < |ts| ensures Leads(mid[i], p, it) <==> Leads(ts[i], p, it) {
        assert Twin(mid[i], ts[i]);
        if ts[i].Dir? { RearrangedHolds(mid[i].entries, ts[i].entries, p[1..], it); }
      }
      HoldsLeads(es, p, it);
      HoldsLeads(ts, p, it);
      if e :| e in es && Leads(e, p, it) {
        var i :| 0 <= i < |mid| && mid[i] == e;
        assert Leads(ts[i], p, it) && ts[i] in ts;
      }
      if e :| e in ts && Leads(e, p, it) {
        var i :| 0 <= i < |ts| && ts[i] == e;
        assert Leads(mid[i], p, it) && mid[i] in mid;
      }
    }
  }

  ghost predicate Leads(e: Entry, p: Path, it: Item)
    requires p != []
  {
    e.name == p[0] && if |p| == 1 then it == ItemOf(e) else e.Dir? && Holds(e.entries, p[1..], it)
  }

  lemma HoldsLeads(es: seq<Entry>, p: Path, it: Item)
    requires p != []
    ensures Holds(es, p, it) <==> exists e :: e in es && Leads(e, p, it)
  {
  }

  lemma CountTwo(t: seq<Entry>, i: nat, j: nat)
    requires i < j < |t| && t[i] == t[j]
    ensures multiset(t)[t[i]] >= 2
  {
    assert t == t[..j] + t[j..];
    assert t[i] == t[..j][i] && t[j] == t[j..][0];
  }

  lemma {:induction false} CountOnce(s: seq<Entry>, x: Entry)
    requires Distinct(s)
    ensures multiset(s)[x] <= 1
  {
    if s != [] {
      var t := s[..|s| - 1];
      CountOnce(t, x);
      assert s == t + [s[|s| - 1]];
      assert x == s[|s| - 1] ==> x !in t;
    }
  }

  lemma DistinctPermuted(s: seq<Entry>, t: seq<Entry>)
    requires multiset(s) == multiset(t) && Distinct(s)
    ensures Distinct(t)
  {
    SameMembers(s, t);
    forall i, j | 0 <= i < j < |t| ensures t[i].name != t[j].name {
      CountOnce(s, t[i]);
      if t[i] == t[j] { CountTwo(t, i, j); }
      assert t[i] in t && t[j] in t;
      var k :| 0 <= k < |s| && s[k] == t[i];
      var l :| 0 <= l < |s| && s[l] == t[j];
      assert k != l;
    }
  }

  lemma {:induction false} RearrangedProper(es: seq<Entry>, ts: seq<Entry>)
    requires Rearranged(es, ts) && Proper(es)
    ensures Proper(ts)
    decreases ts
  {
    hide FsName;
    var mid: seq<Entry> :| multiset(mid) == multiset(es) && Aligned(mid, ts);
    SameMembers(es, mid);
    DistinctPermuted(es, mid);
    forall i | 0 <= i < |ts| ensures ProperEntry(ts[i]) && ts[i].name == mid[i].name {
      assert Twin(mid[i], ts[i]) && mid[i] in es;
      if ts[i].Dir? { RearrangedProper(mid[i].entries, ts[i].entries); }
    }
  }

  lemma {:induction false} RearrangedWithin(es: seq<Entry>, ts: seq<Entry>, h: int)
    requires Rearranged(es, ts) && Within(es, h)
    ensures Within(ts, h)
    decreases ts
  {
    var mid: seq<Entry> :| multiset(mid) == multiset(es) && Aligned(mid, ts);
    SameMembers(es, mid);
    forall i | 0 <= i < |ts| && ts[i].Dir? ensures h > 0 && Within(ts[i].entries, h - 1) {
      assert Twin(mid[i], ts[i]) && mid[i] in es;
      RearrangedWithin(mid[i].entries, ts[i].entries, h - 1);
    }
  }

  lemma {:induction false} RearrangedExact(es: seq<Entry>, ts: seq<Entry>)
    requires Rearranged(es, ts)
    ensures Exact(es) <==> Exact(ts)
    decreases ts
  {
    hide Faithful;
    var mid: seq<Entry> :| multiset(mid) == multiset(es) && Aligned(mid, ts);
    SameMembers(es, mid);
    forall i | 0 <= i < |ts| ensures ExactOne(mid[i]) <==> ExactOne(ts[i]) {
      assert Twin(mid[i], ts[i]);
      if ts[i].Dir? { RearrangedExact(mid[i].entries, ts[i].entries); }
    }
    ExactMembers(es);
    ExactMembers(ts);
    if Exact(es) {
      forall i | 0 <= i < |ts| ensures ExactOne(ts[i]) { assert mid[i] in es; }
    }
    if Exact(ts) {
      forall e | e in es ensures ExactOne(e) {
        assert e in mid;
        var i :| 0 <= i < |mid| && mid[i] == e;
        assert ts[i] in ts;
      }
    }
  }

  lemma ExactMembers(es: seq<Entry>)
    ensures Exact(es) <==> forall e :: e in es ==> ExactOne(e)
  {
    hide Faithful;
    if forall e :: e in es ==> ExactOne(e) {
      forall i | 0 <= i < |es| ensures ExactOne(es[i]) { assert es[i] in es; }
    }
  }

  // ------------------------------------------------------------------ scanning

  /** What `check_dent` lets through. */
  predicate SmallEnough(e: Entry) {
    match e
    case File(_, _, d) => |d| <= 0xFFFF_FFFF
    case Link(_, t) => |t| <= 0xFFFF
    case Dir(_, _, _) => true
  }

  ghost predicate Storable(es: seq<Entry>) { Every(es, SmallEnough) }

  /** What `update_header_size` adds for an entry. */
  function OwnEstimate(e: Entry): nat { |e.name| + 2 + (if e.Dir? then 0 else 4) }

  /** The estimate for a whole tree. */
  function Estimate(es: seq<Entry>): nat
    decreases es, 0
  {
    if es == [] then 0 else OwnEstimate(es[0]) + Below(es[0]) + Estimate(es[1..])
  }

  function Below(e: Entry): nat
    decreases e, 1
  {
    if e.Dir? then Estimate(e.entries) else 0
  }

  ghost function Total(es: seq<Entry>, f: Entry -> nat): nat {
    if es == [] then 0 else f(es[0]) + Total(es[1..], f)
  }

  lemma {:induction false} TotalJoin(s: seq<Entry>, t: seq<Entry>, f: Entry -> nat)
    ensures Total(s + t, f) == Total(s, f) + Total(t, f)
    decreases |s|
  {
    if s == [] {
      assert s + t == t;
    } else {
      assert (s + t)[1..] == s[1..] + t;
      TotalJoin(s[1..], t, f);
    }
  }

  lemma TotalOne(e: Entry, f: Entry -> nat)
    ensures Total([e], f) == f(e)
  {
    assert Total([e][1..], f) == 0;
  }

  lemma TotalNext(s: seq<Entry>, i: nat, f: Entry -> nat)
    requires i < |s|
    ensures Total(s[..i + 1], f) == Total(s[..i], f) + f(s[i]) <= Total(s, f)
  {
    hide Total;
    assert s[..i + 1] == s[..i] + [s[i]] && s == s[..i + 1] + s[i + 1..];
    TotalJoin(s[..i], [s[i]], f);
    TotalOne(s[i], f);
    TotalJoin(s[..i + 1], s[i + 1..], f);
  }

  /** The first entry of one order, taken out of another. */
  lemma TakenOut(s: seq<Entry>, t: seq<Entry>) returns (k: nat)
    requires multiset(s) == multiset(t) && s != []
    ensures k < |t| && t[k] == s[0] && multiset(s[1..]) == multiset(t[..k] + t[k + 1..])
  {
    SameMembers(s, t);
    assert s[0] in t;
    k :| 0 <= k < |t| && t[k] == s[0];
    assert t == t[..k] + ([t[k]] + t[k + 1..]);
    assert s == [s[0]] + s[1..];
    assert multiset(t) == multiset(t[..k]) + (multiset{t[k]} + multiset(t[k + 1..]));
    assert multiset(s[1..]) == multiset(s) - multiset{s[0]};
  }

  lemma TotalWithout(t: seq<Entry>, k: nat, f: Entry -> nat)
    requires k < |t|
    ensures Total(t, f) == f(t[k]) + Total(t[..k] + t[k + 1..], f)
  {
    hide Total;
    assert t == t[..k] + ([t[k]] + t[k + 1..]);
    TotalJoin(t[..k], [t[k]] + t[k + 1..], f);
    TotalJoin([t[k]], t[k + 1..], f);
    TotalOne(t[k], f);
    TotalJoin(t[..k], t[k + 1..], f);
  }

  /** Order does not matter to a total. */
  lemma {:induction false} TotalPermuted(s: seq<Entry>, t: seq<Entry>, f: Entry -> nat)
    requires multiset(s) == multiset(t)
    ensures Total(s, f) == Total(t, f)
    decreases |s|
  {
    SameLength(s, t);
    if s != [] {
      var k := TakenOut(s, t);
      TotalPermuted(s[1..], t[..k] + t[k + 1..], f);
      TotalWithout(t, k, f);
    }
  }

  lemma {:induction false} EstimateParts(es: seq<Entry>)
    ensures Estimate(es) == Total(es, OwnEstimate) + Total(es, Below)
  {
    hide OwnEstimate, Below;
    if es != [] { EstimateParts(es[1..]); }
  }

  lemma TotalNone(es: seq<Entry>, f: Entry -> nat)
    ensures es[..0] == [] && Total([], f) == 0
  {
  }

  lemma DirsLast(s: seq<Entry>, i: nat, j: nat)
    requires Qsort.Sorted(CmpEnt, s) && i < j < |s| && s[i].Dir?
    ensures s[j].Dir?
  {
    assert Qsort.NotAfter(CmpEnt, s[i], s[j]);
  }

  lemma SameLength(s: seq<Entry>, t: seq<Entry>)
    requires multiset(s) == multiset(t)
    ensures |s| == |t|
  {
    assert |multiset(s)| == |s| && |multiset(t)| == |t|;
  }

  /** Every directory in the order of `cmp_ent`. */
  ghost predicate SortedTree(es: seq<Entry>)
    decreases es
  {
    && Qsort.Sorted(CmpEnt, es)
    && forall i :: 0 <= i < |es| && es[i].Dir? ==> SortedTree(es[i].entries)
  }

  lemma {:induction false} SortedFilesFirst(es: seq<Entry>)
    requires SortedTree(es)
    ensures FilesFirst(es)
  {
    hide CmpEnt, Qsort.Sorted;
    forall i, j | 0 <= i < j < |es| && es[i].Dir? ensures es[j].Dir? { DirsLast(es, i, j); }
    forall i | 0 <= i < |es| && es[i].Dir? ensures FilesFirst(es[i].entries) { SortedFilesFirst(es[i].entries); }
  }

  // ---------------------------------------------------------------------- heap

  /** Heap taken by the record of an entry, and by the pointers to `n` of them. */
  function EntBytes(e: Entry): nat { (9 + |e.name| + 3) / 4 * 4 }

  function Slots(n: nat): nat { 8 * (n + 1) }

  /** Heap taken by the entries of a directory, their slots and all below. */
  function HeapAll(es: seq<Entry>): nat
    decreases es, 0
  {
    if es == [] then 0 else EntBytes(es[0]) + 8 + Deep(es[0]) + HeapAll(es[1..])
  }

  /** Heap taken by what is in a directory. */
  function Deep(e: Entry): nat
    decreases e, 1
  {
    if e.Dir? then 8 + HeapAll(e.entries) else 0
  }

  lemma {:induction false} HeapParts(es: seq<Entry>)
    ensures 8 + HeapAll(es) == Total(es, EntBytes) + Slots(|es|) + Total(es, Deep)
  {
    hide EntBytes, Deep;
    if es != [] { HeapParts(es[1..]); }
  }

  /** Directories scanned before `e`. */
  function Sooner(e: Entry): Entry -> nat {
    (f: Entry) => if f.Dir? && Strcmp(f.name, e.name) < 0 then Deep(f) else 0
  }

  /** Where the heap stands when directory `e` is entered, if it stood at `hp`
      for the directory it is in. */
  ghost function Entered(es: seq<Entry>, e: Entry, hp: nat): nat {
    hp + Total(es, EntBytes) + Slots(|es|) + Total(es, Sooner(e))
  }

  /** From `hp` on, the indexes of all subdirectories lie below `limit`, and the
      sizes of all indexes are an `int`. */
  ghost predicate Fits(es: seq<Entry>, hp: nat, limit: nat)
    decreases es, 1
  {
    Slots(|es|) < INT_LIMIT && forall i :: 0 <= i < |es| && es[i].Dir? ==> FitsOne(es[i], Entered(es, es[i], hp), limit)
  }

  ghost predicate FitsOne(e: Entry, at: nat, limit: nat)
    requires e.Dir?
    decreases e, 0
  {
    at + Total(e.entries, EntBytes) < limit && Fits(e.entries, at, limit)
  }

  lemma {:induction false} FitsWider(es: seq<Entry>, hp: nat, limit: nat, more: nat)
    requires Fits(es, hp, limit) && limit <= more
    ensures Fits(es, hp, more)
  {
    hide Entered, Total;
    forall i | 0 <= i < |es| && es[i].Dir? ensures FitsOne(es[i], Entered(es, es[i], hp), more) {
      FitsWider(es[i].entries, Entered(es, es[i], hp), limit, more);
    }
  }

  lemma {:induction false} TotalAtMost(s: seq<Entry>, f: Entry -> nat, g: Entry -> nat)
    requires forall e :: e in s ==> f(e) <= g(e)
    ensures Total(s, f) <= Total(s, g)
  {
    if s != [] {
      assert s[0] in s;
      TotalAtMost(s[1..], f, g);
    }
  }

  /** A directory and those before it are a part of the whole. */
  lemma {:induction false} SoonerAndOne(s: seq<Entry>, e: Entry)
    requires e in s && e.Dir?
    ensures Total(s, Sooner(e)) + Deep(e) <= Total(s, Deep)
  {
    hide Deep, Strcmp;
    StrcmpFlip(e.name, e.name);
    if s[0] == e {
      TotalAtMost(s[1..], Sooner(e), Deep);
    } else {
      SoonerAndOne(s[1..], e);
    }
  }

  /** If all of it lies below a limit, every index does. */
  lemma {:induction false} FitsBelow(es: seq<Entry>, hp: nat)
    requires hp + 8 + HeapAll(es) < INT_LIMIT
    ensures Fits(es, hp, INT_LIMIT)
  {
    hide Total, HeapAll, EntBytes, Sooner;
    HeapParts(es);
    forall i | 0 <= i < |es| && es[i].Dir? ensures FitsOne(es[i], Entered(es, es[i], hp), INT_LIMIT) {
      var e := es[i];
      SoonerAndOne(es, e);
      HeapParts(e.entries);
      FitsBelow(e.entries, Entered(es, e, hp));
    }
  }

  /** In a sorted directory the ones scanned before `i` are those in front. */
  lemma InFront(s: seq<Entry>, i: nat)
    requires Qsort.Sorted(CmpEnt, s) && Proper(s) && i < |s| && s[i].Dir?
    ensures Total(s[..i], Deep) == Total(s, Sooner(s[i]))
  {
    hide Deep, Total, Strcmp, FsName;
    var f := Sooner(s[i]);
    forall k | 0 <= k < i ensures Deep(s[k]) == f(s[k]) {
      DeepLeaf(s[k]);
      assert Qsort.NotAfter(CmpEnt, s[k], s[i]);
      assert ProperEntry(s[k]) && ProperEntry(s[i]);
      if s[k].Dir? { DifferentNames(s[k].name, s[i].name); }
    }
    forall k | i <= k < |s| ensures f(s[k]) == 0 {
      StrcmpFlip(s[i].name, s[k].name);
      if k > i { assert Qsort.NotAfter(CmpEnt, s[i], s[k]); }
    }
    TotalSame(s[..i], Deep, f);
    TotalZero(s[i..], f);
    assert s == s[..i] + s[i..];
    TotalJoin(s[..i], s[i..], f);
  }

  lemma DeepLeaf(e: Entry)
    ensures !e.Dir? ==> Deep(e) == 0
  {
  }

  lemma DifferentNames(a: Name, b: Name)
    requires FsName(a) && FsName(b) && a != b
    ensures Strcmp(a, b) != 0
  {
    StrcmpMeans(a, b);
  }

  lemma {:induction false} TotalSame(s: seq<Entry>, f: Entry -> nat, g: Entry -> nat)
    requires forall i :: 0 <= i < |s| ==> f(s[i]) == g(s[i])
    ensures Total(s, f) == Total(s, g)
  {
    if s != [] { TotalSame(s[1..], f, g); }
  }

  lemma {:induction false} TotalZero(s: seq<Entry>, f: Entry -> nat)
    requires forall i :: 0 <= i < |s| ==> f(s[i]) == 0
    ensures Total(s, f) == 0
  {
    if s != [] { TotalZero(s[1..], f); }
  }

  // ------------------------------------------------------------------- the scan

  /** `put_dir` finds the index of a directory: its place, kept in 32 bits, is
      taken as an `int`. */
  predicate Findable(e: Entry) { e.Dir? ==> 0 < e.at < INT_LIMIT }

  class Scanner {
    /** The estimate of the header size, the heap pointer and the last index,
        as offsets into the heap. */
    var hsize: nat
    var ptr: nat
    var idx: nat

    /** `cmd_create` up to `scan_files`: one page is taken for a buffer. */
    constructor ()
      ensures hsize == 0 && ptr == PAGE
    {
      hsize, ptr, idx := 0, PAGE, 0;
    }

    /** The loop over directory entries in `scan_directory`: `check_dent` with
        `update_header_size`, whose sum is an `int`. */
    method CheckDents(es: seq<Entry>) returns (ok: bool)
      requires hsize < INT_LIMIT
      modifies this
      ensures ok <==>
        (forall i :: 0 <= i < |es| ==> SmallEnough(es[i])) && old(hsize) + Total(es, OwnEstimate) < INT_LIMIT
      ensures ok ==> hsize == old(hsize) + Total(es, OwnEstimate) && ptr == old(ptr) + Total(es, EntBytes)
    {
      hide SmallEnough, OwnEstimate, EntBytes, Total;
      TotalNone(es, OwnEstimate);
      TotalNone(es, EntBytes);
      for i := 0 to |es|
        invariant forall k :: 0 <= k < i ==> SmallEnough(es[k])
        invariant hsize == old(hsize) + Total(es[..i], OwnEstimate) < INT_LIMIT
        invariant ptr == old(ptr) + Total(es[..i], EntBytes)
      {
        TotalNext(es, i, OwnEstimate);
        TotalNext(es, i, EntBytes);
        if !SmallEnough(es[i]) { return false; }
        ptr := ptr + EntBytes(es[i]);
        hsize := hsize + OwnEstimate(es[i]);
        if hsize >= INT_LIMIT { return false; }
      }
      assert es[..|es|] == es;
      ok := true;
    }

    /** `index_dir`: a sorted permutation, hence files before directories; its
        size is an `int`. */
    method IndexDir(es: seq<Entry>) returns (ok: bool, a: array<Entry>, at: nat)
      modifies this`ptr
      ensures ok <==> Slots(|es|) < INT_LIMIT
      ensures ok ==> at == old(ptr) && ptr == old(ptr) + Slots(|es|)
      ensures fresh(a) && multiset(a[..]) == multiset(es) && Qsort.Sorted(CmpEnt, a[..])
    {
      a := new Entry[|es|](i requires 0 <= i < |es| => es[i]);
      assert a[..] == es && a[..a.Length] == es;
      CmpEntOrder();
      Qsort.Qsortx(a, a.Length, CmpEnt);
      assert a[..a.Length] == a[..];
      var size := 8 * (a.Length + 1);
      assert multiset(es) == multiset(a[..]);
      SameLength(es, a[..]);
      if size >= INT_LIMIT { return false, a, 0; }
      at := ptr;
      ptr := ptr + size;
      ok := true;
    }

    /** `enter_dir` and the record `process_dir` makes of it: one directory is
        scanned, and the place of its index kept in 32 bits. */
    method EnterDir(d: Entry, depth: nat) returns (ok: bool, b: Entry)
      requires d.Dir? && depth <= MAXDEPTH && hsize < INT_LIMIT && ptr > 0
      modifies this
      ensures ok ==> Goes(d, depth) && b.Dir? && Twin(d, b) && SortedTree(b.entries)
      ensures ok ==> hsize == old(hsize) + Below(d) < INT_LIMIT && ptr == old(ptr) + Deep(d)
      ensures Proper(d.entries) && Goes(d, depth) && old(hsize) + Below(d) < INT_LIMIT && FitsOne(d, old(ptr), WORD)
        ==> ok
      ensures Proper(d.entries) && ok ==>
        FitsOne(d, old(ptr), WORD) && (EveryOne(b, Findable) <==> FitsOne(d, old(ptr), INT_LIMIT))
      decreases d
    {
      hide Storable, Within, SortedTree, Rearranged, Total, Estimate, Fits, HeapAll, Proper, Every, EntBytes;
      b := d;
      GoesIs(d, depth);
      if depth >= MAXDEPTH { return false, b; }
      var sub;
      ok, sub := ScanDirectory(d.entries, depth + 1);
      if !ok { return; }
      if idx >= WORD { return false, b; }
      b := Dir(d.name, sub, idx);
    }

    /** `scan_directory` and `process_dir`: the whole tree comes out rearranged
        with every directory sorted.  On a proper tree what it fails on is
        exactly: oversized entries, directories nested too deep, a header
        estimated at 2^31 bytes or more, an index whose size is no `int`, and
        one at a place that is no 32-bit number. */
    method ScanDirectory(es: seq<Entry>, depth: nat) returns (ok: bool, ts: seq<Entry>)
      requires depth <= MAXDEPTH && hsize < INT_LIMIT && ptr > 0
      modifies this
      ensures ok ==> Storable(es) && Within(es, MAXDEPTH - depth) && old(hsize) + Estimate(es) < INT_LIMIT
      ensures ok ==> Rearranged(es, ts) && SortedTree(ts) && hsize == old(hsize) + Estimate(es)
      ensures ok ==> ptr == old(ptr) + 8 + HeapAll(es) && idx == old(ptr) + Total(es, EntBytes)
      ensures Proper(es) && Scans(es, depth, old(hsize), old(ptr)) ==> ok
      ensures Proper(es) && ok ==> Fits(es, old(ptr), WORD)
      ensures Proper(es) && ok ==> (Every(ts, Findable) <==> Fits(es, old(ptr), INT_LIMIT))
      decreases es, 2
    {
      hide SmallEnough, CmpEnt, Qsort.Sorted, Storable, Within, SortedTree, Rearranged, Total, Estimate, Goes;
      hide Fits, FitsOne, HeapAll, Proper, Every, Deep, EntBytes, EveryOne, Below, Scans, Entered, Twin;
      ghost var hp, proper, scans := ptr, Proper(es), Scans(es, depth, hsize, ptr);
      ScanParts(es, depth, hsize, hp);
      ts := [];
      ok := CheckDents(es);
      if !ok { return; }
      var a, at;
      ok, a, at := IndexDir(es);
      if !ok { return; }
      EnteredFrom(es, hp);
      ghost var mid := a[..];
      TotalPermuted(es, mid, Below);
      TotalPermuted(es, mid, Deep);
      ok := ProcessDir(a, depth, es, scans, old(hsize), hp);
      if !ok { return; }
      idx := at;
      ts := a[..];
      SameMembers(es, mid);
      SameLength(mid, es);
      AllGo(es, mid, ts, depth);
      if proper { AllStamped(es, mid, ts, hp); }
    }

    /** The loop of `process_dir` over the sorted entries of `es`. */
    method ProcessDir(a: array<Entry>, depth: nat, ghost es: seq<Entry>, ghost scans: bool, ghost hsize0: nat,
        ghost hp: nat) returns (ok: bool)
      requires depth <= MAXDEPTH && hsize < INT_LIMIT && ptr > 0
      requires multiset(a[..]) == multiset(es) && Qsort.Sorted(CmpEnt, a[..])
      requires scans ==> Scans(es, depth, hsize0, hp) && hsize + Total(es, Below) < INT_LIMIT
      requires forall e :: Entered(es, e, hp) == ptr + Total(es, Sooner(e))
      modifies this, a
      ensures ok ==> Aligned(old(a[..]), a[..])
      ensures ok ==> forall k :: 0 <= k < a.Length && a[k].Dir? ==> SortedTree(a[k].entries) && Goes(old(a[k]), depth)
      ensures ok ==> hsize == old(hsize) + Total(es, Below) < INT_LIMIT && ptr == old(ptr) + Total(es, Deep)
      ensures Proper(es) && scans ==> ok
      ensures Proper(es) && ok ==>
        forall k :: 0 <= k < a.Length && old(a[k]).Dir? ==> Stamped(es, old(a[k]), a[k], hp)
      decreases es, 1
    {
      hide SmallEnough, CmpEnt, Qsort.Sorted, Storable, Within, SortedTree, Rearranged, Total, Estimate, Goes;
      hide Fits, FitsOne, HeapAll, Proper, Every, Deep, EntBytes, EveryOne, Below, Scans, Entered, Twin;
      ghost var mid, own, base, proper := a[..], hsize, ptr, Proper(es);
      SameMembers(es, mid);
      TotalPermuted(es, mid, Below);
      TotalPermuted(es, mid, Deep);
      TotalNone(mid, Below);
      TotalNone(mid, Deep);
      if proper { ProperPermuted(es, mid); }
      var i := 0;
      while i < a.Length
        invariant 0 <= i <= a.Length
        invariant forall k :: 0 <= k < i ==> Twin(mid[k], a[k])
        invariant forall k :: 0 <= k < i && a[k].Dir? ==> SortedTree(a[k].entries) && Goes(mid[k], depth)
        invariant forall k :: i <= k < a.Length ==> a[k] == mid[k]
        invariant hsize == own + Total(mid[..i], Below) < INT_LIMIT
        invariant ptr == base + Total(mid[..i], Deep) > 0
        invariant proper ==> forall k :: 0 <= k < i && mid[k].Dir? ==> Stamped(es, mid[k], a[k], hp)
      {
        TotalNext(mid, i, Below);
        TotalNext(mid, i, Deep);
        if a[i].Dir? {
          ghost var j := IndexOf(es, mid[i]);
          if proper {
            InFront(mid, i);
            TotalPermuted(es, mid, Sooner(mid[i]));
            Inside(es, mid[i], depth, hsize0, hp);
          }
          var b;
          ok, b := EnterDir(a[i], depth);
          if !ok { return; }
          a[i] := b;
        } else {
          LeafParts(a[i]);
        }
        i := i + 1;
      }
      assert mid[..|mid|] == mid;
      ok := true;
    }
  }

  lemma IndexOf(es: seq<Entry>, e: Entry) returns (j: nat)
    requires e in es
    ensures j < |es| && es[j] == e
  {
    j :| 0 <= j < |es| && es[j] == e;
  }

  /** What scanning a proper tree gets through. */
  ghost predicate Scans(es: seq<Entry>, depth: nat, hsize: nat, hp: nat) {
    Storable(es) && Within(es, MAXDEPTH - depth) && hsize + Estimate(es) < INT_LIMIT && Fits(es, hp, WORD)
  }

  lemma ScanParts(es: seq<Entry>, depth: nat, hsize: nat, hp: nat)
    ensures Estimate(es) == Total(es, OwnEstimate) + Total(es, Below)
    ensures 8 + HeapAll(es) == Total(es, EntBytes) + Slots(|es|) + Total(es, Deep)
    ensures Scans(es, depth, hsize, hp) ==>
      && hsize + Estimate(es) < INT_LIMIT && Slots(|es|) < INT_LIMIT
      && forall i :: 0 <= i < |es| ==> SmallEnough(es[i])
  {
    hide Total, Estimate, HeapAll, SmallEnough;
    EstimateParts(es);
    HeapParts(es);
  }

  lemma EnteredFrom(es: seq<Entry>, hp: nat)
    ensures forall e :: Entered(es, e, hp) == hp + Total(es, EntBytes) + Slots(|es|) + Total(es, Sooner(e))
  {
    hide Total, Sooner;
  }

  lemma LeafParts(e: Entry)
    requires !e.Dir?
    ensures Below(e) == 0 && Deep(e) == 0 && Twin(e, e)
  {
  }

  /** What scanning demands of a directory in the tree. */
  lemma Inside(es: seq<Entry>, e: Entry, depth: nat, hsize: nat, hp: nat)
    requires e in es && e.Dir? && Proper(es)
    ensures Proper(e.entries)
    ensures Scans(es, depth, hsize, hp) ==> Goes(e, depth) && FitsOne(e, Entered(es, e, hp), WORD)
  {
    hide Estimate, Entered, Total, SmallEnough, FitsOne;
    var j :| 0 <= j < |es| && es[j] == e;
    assert ProperEntry(es[j]);
  }

  lemma ProperPermuted(es: seq<Entry>, mid: seq<Entry>)
    requires Proper(es) && multiset(es) == multiset(mid)
    ensures Proper(mid)
  {
    hide ProperEntry;
    SameMembers(es, mid);
    DistinctPermuted(es, mid);
    forall i | 0 <= i < |mid| ensures ProperEntry(mid[i]) { assert mid[i] in es; }
  }

  /** Directory `e`, entered in its turn, has been indexed as `b`. */
  ghost predicate Stamped(es: seq<Entry>, e: Entry, b: Entry, hp: nat)
    requires e.Dir?
  {
    && FitsOne(e, Entered(es, e, hp), WORD)
    && (EveryOne(b, Findable) <==> FitsOne(e, Entered(es, e, hp), INT_LIMIT))
  }

  lemma AllStamped(es: seq<Entry>, mid: seq<Entry>, ts: seq<Entry>, hp: nat)
    requires multiset(mid) == multiset(es) && Aligned(mid, ts) && Slots(|es|) < INT_LIMIT
    requires forall k :: 0 <= k < |mid| && mid[k].Dir? ==> Stamped(es, mid[k], ts[k], hp)
    ensures Fits(es, hp, WORD) && (Every(ts, Findable) <==> Fits(es, hp, INT_LIMIT))
  {
    hide Entered, FitsOne;
    SameMembers(es, mid);
    forall k | 0 <= k < |mid| ensures mid[k].Dir? <==> ts[k].Dir? { assert Twin(mid[k], ts[k]); }
    forall i | 0 <= i < |es| && es[i].Dir?
      ensures FitsOne(es[i], Entered(es, es[i], hp), WORD)
      ensures Every(ts, Findable) ==> FitsOne(es[i], Entered(es, es[i], hp), INT_LIMIT)
    {
      assert es[i] in mid;
      var k :| 0 <= k < |mid| && mid[k] == es[i];
      assert Stamped(es, mid[k], ts[k], hp);
    }
    if Fits(es, hp, INT_LIMIT) {
      forall k | 0 <= k < |ts| ensures EveryOne(ts[k], Findable) {
        if mid[k].Dir? {
          assert mid[k] in es;
          var i :| 0 <= i < |es| && es[i] == mid[k];
          assert Stamped(es, mid[k], ts[k], hp);
        }
      }
    }
  }

  /** A directory that scanning gets through. */
  ghost predicate Goes(e: Entry, depth: nat) {
    e.Dir? && depth < MAXDEPTH && Storable(e.entries) && Within(e.entries, MAXDEPTH - depth - 1)
  }

  lemma GoesIs(e: Entry, depth: nat)
    ensures Goes(e, depth) <==>
      e.Dir? && depth < MAXDEPTH && Storable(e.entries) && Within(e.entries, MAXDEPTH - depth - 1)
    ensures e.Dir? ==> Below(e) == Estimate(e.entries) && Deep(e) == 8 + HeapAll(e.entries)
  {
  }

  lemma TwinsSorted(mid: seq<Entry>, ts: seq<Entry>)
    requires Qsort.Sorted(CmpEnt, mid) && Aligned(mid, ts)
    ensures Qsort.Sorted(CmpEnt, ts)
  {
    hide Strcmp;
    forall i, j | 0 <= i < j < |ts| ensures Qsort.NotAfter(CmpEnt, ts[i], ts[j]) {
      assert Twin(mid[i], ts[i]) && Twin(mid[j], ts[j]);
      assert Qsort.NotAfter(CmpEnt, mid[i], mid[j]);
    }
  }

  lemma AllGo(es: seq<Entry>, mid: seq<Entry>, ts: seq<Entry>, depth: nat)
    requires multiset(mid) == multiset(es) && Qsort.Sorted(CmpEnt, mid) && Aligned(mid, ts)
    requires forall i :: 0 <= i < |es| ==> SmallEnough(es[i])
    requires forall k :: 0 <= k < |ts| && ts[k].Dir? ==> SortedTree(ts[k].entries) && Goes(mid[k], depth)
    ensures Storable(es) && Within(es, MAXDEPTH - depth) && Rearranged(es, ts) && SortedTree(ts)
  {
    hide SmallEnough, CmpEnt, Qsort.Sorted;
    SameMembers(es, mid);
    TwinsSorted(mid, ts);
    forall i | 0 <= i < |es| && es[i].Dir? ensures Goes(es[i], depth) {
      assert es[i] in mid;
      var k :| 0 <= k < |mid| && mid[k] == es[i];
      assert Twin(mid[k], ts[k]);
    }
  }

  /** A condition that sees no directory contents. */
  ghost predicate Shallow(ok: Entry -> bool) {
    forall a: Entry, b: Entry :: a.Dir? && b.Dir? && a.name == b.name && ok(a) ==> ok(b)
  }

  /** Rearranging keeps what holds of every entry. */
  lemma {:induction false} RearrangedEvery(es: seq<Entry>, ts: seq<Entry>, ok: Entry -> bool)
    requires Rearranged(es, ts) && Shallow(ok)
    ensures Every(es, ok) <==> Every(ts, ok)
    decreases ts
  {
    var mid: seq<Entry> :| multiset(mid) == multiset(es) && Aligned(mid, ts);
    SameMembers(es, mid);
    forall i | 0 <= i < |ts| ensures EveryOne(mid[i], ok) <==> EveryOne(ts[i], ok) {
      assert Twin(mid[i], ts[i]);
      if ts[i].Dir? { RearrangedEvery(mid[i].entries, ts[i].entries, ok); }
    }
    EveryMembers(es, ok);
    EveryMembers(ts, ok);
    if Every(es, ok) {
      forall i | 0 <= i < |ts| ensures EveryOne(ts[i], ok) { assert mid[i] in es; }
    }
    if Every(ts, ok) {
      forall e | e in es ensures EveryOne(e, ok) {
        assert e in mid;
        var i :| 0 <= i < |mid| && mid[i] == e;
        assert ts[i] in ts;
      }
    }
  }

  ghost predicate EveryOne(e: Entry, ok: Entry -> bool) {
    ok(e) && (e.Dir? ==> Every(e.entries, ok))
  }

  lemma EveryMembers(es: seq<Entry>, ok: Entry -> bool)
    ensures Every(es, ok) <==> forall e :: e in es ==> EveryOne(e, ok)
  {
    if forall e :: e in es ==> EveryOne(e, ok) {
      forall i | 0 <= i < |es| ensures EveryOne(es[i], ok) { assert es[i] in es; }
    }
  }

  lemma {:induction false} EveryWeaker(es: seq<Entry>, p: Entry -> bool, q: Entry -> bool)
    requires Every(es, p) && forall e :: p(e) ==> q(e)
    ensures Every(es, q)
  {
    forall i | 0 <= i < |es| && es[i].Dir? ensures Every(es[i].entries, q) { EveryWeaker(es[i].entries, p, q); }
  }

  lemma DumpsStorable(es: seq<Entry>)
    requires Dumps(es)
    ensures Storable(es)
  {
    EveryWeaker(es, Dumpable, SmallEnough);
  }

  lemma RearrangedLimits(es: seq<Entry>, ts: seq<Entry>)
    requires Rearranged(es, ts)
    ensures Storable(es) <==> Storable(ts)
    ensures Dumps(es) <==> Dumps(ts)
  {
    hide Every, Rearranged;
    RearrangedEvery(es, ts, SmallEnough);
    RearrangedEvery(es, ts, Dumpable);
  }
}
