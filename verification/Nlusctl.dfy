/** Messages of nested attributes (lib/nlusctl): packing into a buffer that may
    overflow, sending, receiving and walking. */
module Nlusctl {
  import opened Basics

  type word = x: int | 0 <= x < 0x1_0000

  const HEADER := 4
  const LIMIT := 0xFFFF
  const ENOBUFS := 105

  /** What the packing calls of a client describe. */
  datatype Attr = Leaf(key: word, payload: seq<byte>) | Nest(key: word, attrs: seq<Attr>)

  function Low(w: int): byte { w % 256 }
  function High(w: int): byte { w / 256 % 256 }
  function Join(l: byte, h: byte): word { l + 256 * h }
  function Half(w: int): seq<byte> { [Low(w), High(w)] }

  function Align(n: int): (r: int)
    ensures n <= r < n + 4 && r % 4 == 0
  {
    (n + 3) / 4 * 4
  }

  function Zeros(n: nat): seq<byte> { seq(n, _ => 0) }

  lemma JoinSplit(w: word)
    ensures Join(Low(w), High(w)) == w
  {
  }

  // ------------------------------------------------------------------- format

  function Size(a: Attr): (n: nat)
    ensures n >= HEADER && n % 4 == 0
    decreases a, 0
  {
    match a
    case Leaf(_, p) => HEADER + Align(|p|)
    case Nest(_, attrs) => HEADER + SizeAll(attrs)
  }

  function SizeAll(attrs: seq<Attr>): (n: nat)
    ensures n % 4 == 0
    decreases attrs
  {
    if attrs == [] then 0 else Size(attrs[0]) + SizeAll(attrs[1..])
  }

  ghost function Bytes(a: Attr): (s: seq<byte>)
    ensures |s| == Size(a)
    decreases a, 0
  {
    match a
    case Leaf(k, p) => Half(HEADER + |p|) + Half(k) + (p + Zeros(Align(|p|) - |p|))
    case Nest(k, attrs) => Half(Size(a)) + Half(k) + BytesAll(attrs)
  }

  ghost function BytesAll(attrs: seq<Attr>): (s: seq<byte>)
    ensures |s| == SizeAll(attrs)
    decreases attrs
  {
    if attrs == [] then [] else Bytes(attrs[0]) + BytesAll(attrs[1..])
  }

  lemma {:induction false} AllAppend(s: seq<Attr>, a: Attr)
    ensures SizeAll(s + [a]) == SizeAll(s) + Size(a)
    ensures BytesAll(s + [a]) == BytesAll(s) + Bytes(a)
  {
    hide Size, Bytes;
    if s == [] {
      assert s + [a] == [a] && [a][1..] == [];
    } else {
      assert (s + [a])[1..] == s[1..] + [a];
      AllAppend(s[1..], a);
    }
  }

  /** Sixteen bits at `at`, the low byte first. */
  ghost predicate Short(s: seq<byte>, at: nat, w: int) {
    at + 2 <= |s| && s[at] == w % 256 && s[at + 1] == w / 256 % 256
  }

  /** On the wire: length and key, sixteen bits each, then the payload padded
      with zeros to a multiple of four that the length leaves out, or the
      attributes inside one after the other. */
  lemma WireFormat(a: Attr)
    ensures var s := Bytes(a);
      && |s| % 4 == 0 && Short(s, 2, a.key)
      && (a.Leaf? ==>
            && Short(s, 0, 4 + |a.payload|) && 4 + |a.payload| <= |s| < 8 + |a.payload|
            && s[4..4 + |a.payload|] == a.payload
            && forall i :: 4 + |a.payload| <= i < |s| ==> s[i] == 0)
      && (a.Nest? ==> Short(s, 0, |s|) && |s| >= 4 && s[4..] == BytesAll(a.attrs))
  {
    hide SizeAll, BytesAll, Align;
    match a
    case Leaf(k, p) => assert Half(HEADER + |p|) + Half(k) + (p + Zeros(Align(|p|) - |p|)) == Bytes(a);
    case Nest(k, attrs) => assert Half(Size(a)) + Half(k) + BytesAll(attrs) == Bytes(a);
  }

  // ------------------------------------------------------------------ packing

  /** The message length after adding `n` bytes: zero, once it has overflowed,
      for good. */
  function Grown(len: int, n: int, cap: int): int {
    if len == 0 || len + n > cap || len + n > LIMIT then 0 else len + n
  }

  class UcBuf {
    const buf: array<byte>

    ghost predicate Valid()
      reads buf
    {
      && buf.Length >= HEADER
      && (Len() == 0 || HEADER <= Len() <= buf.Length)
    }

    /** The length field of the message. */
    ghost function Len(): word
      requires buf.Length >= HEADER
      reads buf
    {
      Join(buf[0], buf[1])
    }

    /** Everything that will be sent: the message without its length. */
    ghost function Body(): seq<byte>
      requires Valid() && Len() != 0
      reads buf
    {
      buf[2..Len()]
    }

    /** `uc_buf_set`. */
    constructor (buf: array<byte>)
      ensures this.buf == buf
    {
      this.buf := buf;
    }

    method Put16(at: nat, w: int)
      requires at + 2 <= buf.Length
      modifies buf
      ensures buf[at] == Low(w) && buf[at + 1] == High(w)
      ensures forall k :: 0 <= k < buf.Length && k != at && k != at + 1 ==> buf[k] == old(buf[k])
    {
      buf[at] := Low(w);
      buf[at + 1] := High(w);
    }

    /** `uc_put_hdr`. */
    method PutHdr(cmd: int)
      requires buf.Length >= HEADER
      modifies buf
      ensures Valid() && Len() == HEADER && Body() == Half(cmd)
    {
      hide Low, High, Join;
      JoinSplit(HEADER);
      Put16(2, cmd);
      Put16(0, HEADER);
      assert buf[2..4] == [buf[2], buf[3]];
    }

    /** `uc_put`: an attribute header followed by `alloc` bytes of room.  When
        that does not fit, the message is marked as overflowed. */
    method Put(key: int, len: int, alloc: int) returns (at: Option<nat>)
      requires Valid() && alloc >= 0
      modifies buf
      ensures Valid() && Len() == Grown(old(Len()), HEADER + alloc, buf.Length)
      ensures at == if Len() == 0 then None else Some(old(Len()))
      ensures Len() != 0 ==>
        buf[2..old(Len()) + HEADER] == old(Body()) + (Half(HEADER + len) + Half(key))
      ensures old(Len()) == 0 ==> buf[..] == old(buf[..])
      ensures Len() == 0 ==> buf[2..] == old(buf[2..])
    {
      hide Low, High, Join, Half;
      JoinSplit(0);
      var full := HEADER + alloc;
      var ptr: int := Join(buf[0], buf[1]);
      var now := ptr + full;
      if ptr == 0 {
        return None;
      }
      if full > buf.Length || now <= 0 || now > LIMIT || now > buf.Length {
        Put16(0, 0);
        return None;
      }
      JoinSplit(now);
      Put16(0, now);
      Put16(ptr + 2, key);
      Put16(ptr, len + HEADER);
      HeaderWritten(old(buf[..]), buf[..], ptr, HEADER + len, key);
      assert buf[2..ptr + HEADER] == buf[..][2..ptr + HEADER];
      assert old(buf[..])[2..ptr] == old(buf[2..ptr]);
      return Some(ptr);
    }

    /** `uc_put_bin`: a padded payload. */
    method PutBin(key: word, src: seq<byte>)
      requires Valid()
      modifies buf
      ensures Valid() && Len() == Grown(old(Len()), Size(Leaf(key, src)), buf.Length)
      ensures Len() != 0 ==> Body() == old(Body()) + Bytes(Leaf(key, src))
      ensures old(Len()) == 0 ==> buf[..] == old(buf[..])
    {
      hide Low, High, Join, Half, Align;
      var len := |src|;
      var alloc := Align(len);
      ghost var a := Leaf(key, src);
      var at := Put(key, len, alloc);
      if at == None {
        return;
      }
      var dst := at.value + HEADER;
      ghost var before := buf[..];
      CopyPadded(dst, src, alloc);
      assert before[2..dst] == old(Body()) + (Half(HEADER + len) + Half(key));
      assert Bytes(a) == Half(HEADER + len) + Half(key) + (src + Zeros(alloc - len));
      assert Len() == dst + alloc;
    }

    /** The padding word is cleared first, then the payload copied. */
    method CopyPadded(dst: nat, src: seq<byte>, alloc: nat)
      requires HEADER <= dst && dst + alloc <= buf.Length
      requires |src| <= alloc < |src| + 4 && alloc % 4 == 0
      modifies buf
      ensures forall k :: 0 <= k < dst ==> buf[k] == old(buf[k])
      ensures buf[2..dst + alloc] == old(buf[2..dst]) + (src + Zeros(alloc - |src|))
    {
      var len := |src|;
      ghost var before := buf[..];
      if alloc > len {
        var i := alloc - 4;
        assert i <= len;
        while i < alloc
          invariant alloc - 4 <= i <= alloc
          invariant forall k :: 0 <= k < buf.Length ==>
            buf[k] == if dst + alloc - 4 <= k < dst + i then 0 else before[k]
        {
          buf[dst + i] := 0;
          i := i + 1;
        }
      }
      ghost var padded := buf[..];
      var j := 0;
      while j < len
        invariant 0 <= j <= len
        invariant forall k :: 0 <= k < buf.Length ==>
          buf[k] == if dst <= k < dst + j then src[k - dst] else padded[k]
      {
        buf[dst + j] := src[j];
        j := j + 1;
      }
      LeafWritten(before, buf[..], dst, src, alloc);
      assert buf[2..dst + alloc] == buf[..][2..dst + alloc] && before[2..dst] == old(buf[2..dst]);
    }

    /** `uc_put_nest`. */
    method PutNest(key: word) returns (at: Option<nat>)
      requires Valid()
      modifies buf
      ensures Valid() && Len() == Grown(old(Len()), HEADER, buf.Length)
      ensures at == if Len() == 0 then None else Some(old(Len()))
      ensures Len() != 0 ==> Body() == old(Body()) + (Half(HEADER) + Half(key))
      ensures old(Len()) == 0 ==> buf[..] == old(buf[..])
    {
      at := Put(key, 0, 0);
    }

    /** `uc_end_nest`: everything put since belongs to the nest. */
    method EndNest(at: Option<nat>)
      requires Valid() && (at.Some? ==> HEADER <= at.value && at.value + HEADER <= buf.Length)
      modifies buf
      ensures Valid() && Len() == old(Len())
      ensures at.None? || at.value >= Len() ==> buf[..] == old(buf[..])
      ensures at.Some? && at.value < Len() ==>
        buf[..] == old(buf[..at.value] + Half(Len() - at.value) + buf[at.value + 2..])
    {
      hide Low, High, Join;
      if at == None || at.value >= buf.Length { return; }
      var ptr := Join(buf[0], buf[1]);
      var off := at.value;
      if off >= ptr { return; }
      Put16(off, ptr - off);
    }
  }

  lemma HeaderWritten(b: seq<byte>, c: seq<byte>, at: nat, len: int, key: int)
    requires |b| == |c| && 2 <= at && at + HEADER <= |b|
    requires forall k :: 2 <= k < at ==> c[k] == b[k]
    requires c[at] == Low(len) && c[at + 1] == High(len)
    requires c[at + 2] == Low(key) && c[at + 3] == High(key)
    ensures c[2..at + HEADER] == b[2..at] + (Half(len) + Half(key))
  {
  }

  lemma LeafWritten(b: seq<byte>, c: seq<byte>, dst: nat, src: seq<byte>, alloc: nat)
    requires |b| == |c| && 2 <= dst && |src| <= alloc && dst + alloc <= |b|
    requires forall k :: 0 <= k < dst ==> c[k] == b[k]
    requires forall k :: dst <= k < dst + |src| ==> c[k] == src[k - dst]
    requires forall k :: dst + |src| <= k < dst + alloc ==> c[k] == 0
    ensures c[2..dst + alloc] == b[2..dst] + (src + Zeros(alloc - |src|))
  {
  }

  lemma AllNone()
    ensures SizeAll([]) == 0 && BytesAll([]) == []
  {
  }

  lemma GrownTwice(len: nat, m: nat, n: nat, cap: int)
    ensures Grown(Grown(len, m, cap), n, cap) == Grown(len, m + n, cap)
    ensures 0 <= len <= cap && len <= LIMIT ==> Grown(len, 0, cap) == len
  {
  }

  /** Patching the length of a nest in place. */
  lemma Patched(b: seq<byte>, c: seq<byte>, at: nat, len: nat, pre: seq<byte>, key: word, inner: seq<byte>, w: int)
    requires 2 <= at && |pre| == at - 2 && at + HEADER <= len <= |b|
    requires b[2..len] == pre + (Half(HEADER) + Half(key)) + inner
    requires c == b[..at] + Half(w) + b[at + 2..]
    ensures c[2..len] == pre + (Half(w) + Half(key) + inner)
  {
    hide Half, Low, High;
    HalfSize(HEADER);
    HalfSize(key);
    HalfSize(w);
    Cut(b, 2, pre + (Half(HEADER) + Half(key)), inner);
    Cut(b, 2, pre, Half(HEADER) + Half(key));
    Cut(b, at, Half(HEADER), Half(key));
    assert c[2..at] == pre;
    assert c[at..at + 2] == Half(w);
    assert c[at + 2..at + 4] == b[at + 2..at + 4];
    assert c[at + 4..len] == b[at + 4..len];
    assert c[2..len] == c[2..at] + c[at..at + 2] + c[at + 2..at + 4] + c[at + 4..len];
  }

  lemma HalfSize(w: int)
    ensures |Half(w)| == 2
  {
  }

  /** A client packing one attribute, nested ones between `uc_put_nest` and
      `uc_end_nest`. */
  method PutAttr(uc: UcBuf, a: Attr)
    requires uc.Valid()
    modifies uc.buf
    ensures uc.Valid() && uc.Len() == Grown(old(uc.Len()), Size(a), uc.buf.Length)
    ensures uc.Len() != 0 ==> uc.Body() == old(uc.Body()) + Bytes(a)
    ensures old(uc.Len()) == 0 ==> uc.buf[..] == old(uc.buf[..])
    decreases a, 0
  {
    hide Join, Half, Align;
    match a {
      case Leaf(key, payload) => uc.PutBin(key, payload);
      case Nest(key, attrs) =>
        var at := uc.PutNest(key);
        ghost var mid := uc.Len();
        PutAttrs(uc, attrs);
        GrownTwice(old(uc.Len()), HEADER, SizeAll(attrs), uc.buf.Length);
        ghost var b, len := uc.buf[..], uc.Len();
        uc.EndNest(at);
        if len != 0 {
          ghost var off := at.value;
          ghost var pre := b[..off][2..];
          assert b[2..len] == old(uc.Body()) + (Half(HEADER) + Half(key)) + BytesAll(attrs);
          Patched(b, uc.buf[..], off, len, old(uc.Body()), key, BytesAll(attrs), Size(a));
        }
    }
  }

  method PutAttrs(uc: UcBuf, attrs: seq<Attr>)
    requires uc.Valid()
    modifies uc.buf
    ensures uc.Valid() && uc.Len() == Grown(old(uc.Len()), SizeAll(attrs), uc.buf.Length)
    ensures uc.Len() != 0 ==> uc.Body() == old(uc.Body()) + BytesAll(attrs)
    ensures old(uc.Len()) == 0 ==> uc.buf[..] == old(uc.buf[..])
    decreases attrs
  {
    hide Size, Bytes, SizeAll, BytesAll, Join, Half;
    AllNone();
    GrownTwice(uc.Len(), 0, 0, uc.buf.Length);
    for i := 0 to |attrs|
      invariant uc.Valid() && uc.Len() == Grown(old(uc.Len()), SizeAll(attrs[..i]), uc.buf.Length)
      invariant uc.Len() != 0 ==> uc.Body() == old(uc.Body()) + BytesAll(attrs[..i])
      invariant old(uc.Len()) == 0 ==> uc.buf[..] == old(uc.buf[..])
    {
      assert attrs[..i + 1] == attrs[..i] + [attrs[i]];
      AllAppend(attrs[..i], attrs[i]);
      GrownTwice(old(uc.Len()), SizeAll(attrs[..i]), Size(attrs[i]), uc.buf.Length);
      PutAttr(uc, attrs[i]);
    }
    assert attrs[..|attrs|] == attrs;
  }

  /** `uc_iov_hdr`: what goes out, or -ENOBUFS for an overflowed message. */
  method IovHdr(uc: UcBuf) returns (ret: int, base: int, len: int)
    ensures ret == 0 || ret == -ENOBUFS
    ensures ret == 0 <==> uc.buf.Length >= HEADER && uc.Len() >= HEADER
    ensures ret == 0 ==> base == 2 && base + len == uc.Len()
  {
    base, len := 0, 0;
    if uc.buf.Length < HEADER { return -ENOBUFS, base, len; }
    var l := Join(uc.buf[0], uc.buf[1]);
    if l < HEADER { return -ENOBUFS, base, len; }
    return 0, 2, l - 2;
  }

  // ------------------------------------------------------------------ reading

  function LenAt(b: seq<byte>, at: nat): word
    requires at + 2 <= |b|
  {
    Join(b[at], b[at + 1])
  }

  function KeyAt(b: seq<byte>, at: nat): word
    requires at + HEADER <= |b|
  {
    Join(b[at + 2], b[at + 3])
  }

  /** An attribute whose stated extent lies inside the buffer. */
  predicate Inside(b: seq<byte>, at: nat) {
    at + HEADER <= |b| && at + LenAt(b, at) <= |b|
  }

  /** `attr_in`: the attribute at `p`, if it ends by `end`. */
  function AttrIn(b: seq<byte>, p: nat, end: nat): (r: Option<nat>)
    requires end <= |b|
    ensures r.Some? ==> r.value == p && Inside(b, p) && p + HEADER <= end && p + LenAt(b, p) <= end
  {
    if p + HEADER > end then None
    else if p + LenAt(b, p) > end then None
    else Some(p)
  }

  /** `uc_get_0`. */
  function GetFirst(b: seq<byte>, msg: nat): (r: Option<nat>)
    requires Inside(b, msg)
    ensures r.Some? ==> Inside(b, r.value) && msg + HEADER <= r.value
  {
    AttrIn(b, msg + HEADER, msg + LenAt(b, msg))
  }

  /** `uc_get_n`: moves on by at least a header's length. */
  function GetNext(b: seq<byte>, msg: nat, at: nat): (r: Option<nat>)
    requires Inside(b, msg) && Inside(b, at)
    ensures r.Some? ==> Inside(b, r.value) && at + HEADER <= r.value
  {
    var len := LenAt(b, at);
    if len <= 0 then None
    else AttrIn(b, at + Align(len), msg + LenAt(b, msg))
  }

  /** All attributes from `at` on, as a loop over `uc_get_n` meets them. */
  ghost function WalkFrom(b: seq<byte>, msg: nat, at: Option<nat>): (ps: seq<nat>)
    requires Inside(b, msg) && (at.Some? ==> Inside(b, at.value))
    ensures forall i :: 0 <= i < |ps| ==> Inside(b, ps[i])
    ensures at.Some? ==> |ps| > 0 && ps[0] == at.value
    ensures forall i, j :: 0 <= i < j < |ps| ==> ps[i] + HEADER <= ps[j]
    decreases if at.Some? then |b| - at.value + 1 else 0
  {
    match at
    case None => []
    case Some(p) => [p] + WalkFrom(b, msg, GetNext(b, msg, p))
  }

  ghost function Walk(b: seq<byte>, msg: nat): (ps: seq<nat>)
    requires Inside(b, msg)
    ensures forall i :: 0 <= i < |ps| ==> Inside(b, ps[i])
  {
    WalkFrom(b, msg, GetFirst(b, msg))
  }

  ghost predicate FirstWith(b: seq<byte>, ps: seq<nat>, key: int, at: nat)
  {
    exists i ::
      && 0 <= i < |ps| && ps[i] == at && Inside(b, at) && KeyAt(b, at) == key
      && forall j :: 0 <= j < i ==> Inside(b, ps[j]) && KeyAt(b, ps[j]) != key
  }

  /** `uc_get`: terminates on any bytes, with the first attribute of that key. */
  method Get(b: seq<byte>, msg: nat, key: int) returns (r: Option<nat>)
    requires Inside(b, msg)
    ensures r.None? ==> forall p :: p in Walk(b, msg) ==> KeyAt(b, p) != key
    ensures r.Some? ==> FirstWith(b, Walk(b, msg), key, r.value)
  {
    hide Join, LenAt, KeyAt;
    var at := GetFirst(b, msg);
    ghost var ps := Walk(b, msg);
    ghost var i := 0;
    while at.Some?
      invariant at.Some? ==> Inside(b, at.value)
      invariant 0 <= i <= |ps| && ps[i..] == WalkFrom(b, msg, at)
      invariant forall j :: 0 <= j < i ==> KeyAt(b, ps[j]) != key
      decreases |ps| - i
    {
      assert ps[i..][0] == at.value == ps[i];
      if KeyAt(b, at.value) == key {
        return at;
      }
      assert ps[i + 1..] == ps[i..][1..];
      at := GetNext(b, msg, at.value);
      i := i + 1;
    }
    return None;
  }

  /** A reader that knows which keys are nests finds exactly `a` at `at`. */
  ghost predicate Shows(b: seq<byte>, at: nat, a: Attr)
    decreases a
  {
    && Inside(b, at)
    && KeyAt(b, at) == a.key
    && match a
       case Leaf(_, p) => LenAt(b, at) == HEADER + |p| && b[at + HEADER..at + LenAt(b, at)] == p
       case Nest(_, attrs) =>
         var ps := Walk(b, at);
         |ps| == |attrs| && forall i :: 0 <= i < |attrs| ==> Shows(b, ps[i], attrs[i])
  }

  ghost predicate SameShape(a: Attr, c: Attr)
    decreases a
  {
    match (a, c)
    case (Leaf(_, _), Leaf(_, _)) => true
    case (Nest(_, s), Nest(_, t)) => |s| == |t| ==> forall i :: 0 <= i < |s| ==> SameShape(s[i], t[i])
    case _ => false
  }

  /** What a reader finds is determined by the bytes. */
  lemma {:induction false} ShowsOne(b: seq<byte>, at: nat, a: Attr, c: Attr)
    requires Shows(b, at, a) && Shows(b, at, c) && SameShape(a, c)
    ensures a == c
    decreases a
  {
    hide Join, LenAt, KeyAt, Walk, Inside;
    match a {
      case Leaf(_, _) =>
      case Nest(_, s) =>
        forall i | 0 <= i < |s| ensures s[i] == c.attrs[i] {
          ShowsOne(b, Walk(b, at)[i], s[i], c.attrs[i]);
        }
    }
  }

  /** Where the attributes of a nest start. */
  ghost function Starts(at: nat, attrs: seq<Attr>): (ps: seq<nat>)
    ensures |ps| == |attrs|
    decreases |attrs|
  {
    if attrs == [] then [] else [at] + Starts(at + Size(attrs[0]), attrs[1..])
  }

  /** The bytes of `a` lie at `at`. */
  ghost predicate Holds(b: seq<byte>, at: nat, a: Attr) {
    at + Size(a) <= |b| && b[at..at + Size(a)] == Bytes(a) && Size(a) <= LIMIT
  }

  ghost predicate HoldsAll(b: seq<byte>, at: nat, attrs: seq<Attr>) {
    at + SizeAll(attrs) <= |b| && b[at..at + SizeAll(attrs)] == BytesAll(attrs) && SizeAll(attrs) <= LIMIT
  }

  lemma HoldsFront(b: seq<byte>, at: nat, attrs: seq<Attr>)
    requires HoldsAll(b, at, attrs) && attrs != []
    ensures Holds(b, at, attrs[0])
    ensures HoldsAll(b, at + Size(attrs[0]), attrs[1..])
    ensures SizeAll(attrs) == Size(attrs[0]) + SizeAll(attrs[1..])
  {
    hide *;
    AllFront(attrs);
    HoldsAllIs(b, at, attrs);
    HoldsAllIs(b, at + Size(attrs[0]), attrs[1..]);
    Cut(b, at, Bytes(attrs[0]), BytesAll(attrs[1..]));
    HoldsIs(b, at, attrs[0]);
  }

  lemma AllFront(attrs: seq<Attr>)
    requires attrs != []
    ensures SizeAll(attrs) == Size(attrs[0]) + SizeAll(attrs[1..])
    ensures BytesAll(attrs) == Bytes(attrs[0]) + BytesAll(attrs[1..])
  {
    hide Size, Bytes;
  }

  lemma HoldsIs(b: seq<byte>, at: nat, a: Attr)
    ensures Holds(b, at, a) <==>
      at + |Bytes(a)| <= |b| && b[at..at + |Bytes(a)|] == Bytes(a) && |Bytes(a)| <= LIMIT
  {
    hide Size, Bytes;
  }

  lemma HoldsAllIs(b: seq<byte>, at: nat, attrs: seq<Attr>)
    ensures HoldsAll(b, at, attrs) <==>
      at + |BytesAll(attrs)| <= |b| && b[at..at + |BytesAll(attrs)|] == BytesAll(attrs) && |BytesAll(attrs)| <= LIMIT
  {
    hide SizeAll, BytesAll;
  }

  lemma Cut(b: seq<byte>, at: nat, x: seq<byte>, y: seq<byte>)
    requires at + |x| + |y| <= |b| && b[at..at + |x| + |y|] == x + y
    ensures b[at..at + |x|] == x && b[at + |x|..at + |x| + |y|] == y
  {
    var s := b[at..at + |x| + |y|];
    assert s[..|x|] == x && s[|x|..] == y;
  }

  /** The header of an attribute held at `at` gives its key and extent. */
  lemma HeaderHeld(b: seq<byte>, at: nat, a: Attr)
    requires Holds(b, at, a)
    ensures Inside(b, at) && KeyAt(b, at) == a.key
    ensures LenAt(b, at) == (match a case Leaf(_, p) => HEADER + |p| case Nest(_, _) => Size(a))
    ensures 0 < LenAt(b, at) && Align(LenAt(b, at)) == Size(a)
    ensures a.Leaf? ==> b[at + HEADER..at + HEADER + |a.payload|] == a.payload
    ensures a.Nest? ==> HoldsAll(b, at + HEADER, a.attrs)
  {
    hide SizeAll, BytesAll, Low, High, Join, LenAt, KeyAt, Half, Align;
    match a {
      case Leaf(k, p) =>
        var rest := p + Zeros(Align(|p|) - |p|);
        HeaderBytes(b, at, HEADER + |p|, k, rest);
        Cut(b, at + HEADER, p, Zeros(Align(|p|) - |p|));
        AlignPast(|p|);
      case Nest(k, attrs) =>
        HeaderBytes(b, at, Size(a), k, BytesAll(attrs));
        AlignExact(Size(a));
    }
  }

  lemma HeaderBytes(b: seq<byte>, at: nat, len: word, key: word, rest: seq<byte>)
    requires at + HEADER + |rest| <= |b|
    requires b[at..at + HEADER + |rest|] == Half(len) + Half(key) + rest
    ensures LenAt(b, at) == len && KeyAt(b, at) == key
    ensures b[at + HEADER..at + HEADER + |rest|] == rest
  {
    hide Low, High, Join;
    JoinSplit(len);
    JoinSplit(key);
    Cut(b, at, Half(len) + Half(key), rest);
    Cut(b, at, Half(len), Half(key));
    assert b[at] == b[at..at + 2][0] && b[at + 1] == b[at..at + 2][1];
    assert b[at + 2] == b[at + 2..at + 4][0] && b[at + 3] == b[at + 2..at + 4][1];
  }

  lemma AlignPast(n: int)
    ensures Align(HEADER + n) == HEADER + Align(n)
  {
  }

  lemma AlignExact(n: int)
    requires n % 4 == 0
    ensures Align(n) == n
  {
  }

  /** Walking over packed attributes meets each of them. */
  lemma {:induction false} WalkHeld(b: seq<byte>, msg: nat, at: nat, attrs: seq<Attr>)
    requires Inside(b, msg) && msg + LenAt(b, msg) == at + SizeAll(attrs)
    requires HoldsAll(b, at, attrs)
    ensures WalkFrom(b, msg, AttrIn(b, at, msg + LenAt(b, msg))) == Starts(at, attrs)
    ensures forall i :: 0 <= i < |attrs| ==> Holds(b, Starts(at, attrs)[i], attrs[i])
    decreases |attrs|
  {
    hide Size, SizeAll, Holds, HoldsAll, LenAt, Join, Align;
    var end := msg + LenAt(b, msg);
    if attrs == [] {
      AllNone();
      assert AttrIn(b, at, end) == None;
    } else {
      HoldsFront(b, at, attrs);
      HeaderHeld(b, at, attrs[0]);
      var next := at + Size(attrs[0]);
      assert AttrIn(b, at, end) == Some(at) by { AlignUp(LenAt(b, at)); }
      assert GetNext(b, msg, at) == AttrIn(b, next, end);
      WalkHeld(b, msg, next, attrs[1..]);
      assert WalkFrom(b, msg, Some(at)) == [at] + WalkFrom(b, msg, GetNext(b, msg, at));
    }
  }

  lemma AlignUp(n: int)
    ensures n <= Align(n)
  {
  }

  /** Anything packed is read back as it was. */
  lemma {:induction false} HeldShows(b: seq<byte>, at: nat, a: Attr)
    requires Holds(b, at, a)
    ensures Shows(b, at, a)
    decreases a
  {
    hide Size, Holds, HoldsAll, LenAt, KeyAt, Join, Align, Starts;
    HeaderHeld(b, at, a);
    match a {
      case Leaf(_, _) =>
      case Nest(_, attrs) =>
        NestSize(a);
        WalkHeld(b, at, at + HEADER, attrs);
        forall i | 0 <= i < |attrs| ensures Shows(b, Walk(b, at)[i], attrs[i]) {
          HeldShows(b, Starts(at + HEADER, attrs)[i], attrs[i]);
        }
    }
  }

  lemma NestSize(a: Attr)
    requires a.Nest?
    ensures Size(a) == HEADER + SizeAll(a.attrs)
  {
  }

  // -------------------------------------------------------- there and back again

  /** `uc_recv` and `uc_msg`: the datagram lands behind the first two bytes,
      cut off at the end of the buffer; the length is put back in front. */
  method Receive(rb: array<byte>, sent: seq<byte>) returns (ok: bool)
    requires rb.Length >= 2
    modifies rb
    ensures ok == (rb.Length >= HEADER && |sent| >= 2)
    ensures ok && |sent| + 2 <= rb.Length ==> rb[..|sent| + 2] == Half(|sent| + 2) + sent
  {
    var ret := if |sent| <= rb.Length - 2 then |sent| else rb.Length - 2;
    for i := 0 to ret
      invariant forall k :: 0 <= k < i ==> rb[k + 2] == sent[k]
    {
      rb[i + 2] := sent[i];
    }
    var full := 2 + ret;
    if full < HEADER { return false; }
    rb[0] := Low(full);
    rb[1] := High(full);
    return true;
  }

  /** A whole exchange.  Sending succeeds exactly when everything fits; the
      receiver, given room, then reads back the tree that was packed. */
  method Exchange(buf: array<byte>, cmd: word, attrs: seq<Attr>, rb: array<byte>) returns (ok: bool)
    requires buf.Length >= HEADER && rb.Length >= HEADER && buf != rb
    modifies buf, rb
    ensures ok <==> Size(Nest(cmd, attrs)) <= buf.Length && Size(Nest(cmd, attrs)) <= 0xFFFF
    ensures ok && rb.Length >= Size(Nest(cmd, attrs)) ==> Shows(rb[..], 0, Nest(cmd, attrs))
  {
    hide Low, High, Join, Align, Shows, SizeAll, BytesAll;
    ghost var msg := Nest(cmd, attrs);
    NestSize(msg);
    var uc := new UcBuf(buf);
    uc.PutHdr(cmd);
    PutAttrs(uc, attrs);
    var ret, base, len := IovHdr(uc);
    if ret < 0 { return false; }
    var sent := buf[base..base + len];
    assert sent == Half(cmd) + BytesAll(attrs);
    ok := Receive(rb, sent);
    if rb.Length >= Size(msg) {
      assert rb[..][0..0 + Size(msg)] == rb[..Size(msg)];
      assert Half(Size(msg)) + (Half(cmd) + BytesAll(attrs)) == Bytes(msg);
      HeldShows(rb[..], 0, msg);
    }
  }

  /** Once a put has overflowed, nothing further changes the buffer, and the
      message cannot be sent. */
  method PutAfterOverflow(uc: UcBuf, attrs: seq<Attr>) returns (ret: int)
    requires uc.Valid() && uc.Len() == 0
    modifies uc.buf
    ensures uc.buf[..] == old(uc.buf[..]) && ret == -ENOBUFS
  {
    PutAttrs(uc, attrs);
    var base, len;
    ret, base, len := IovHdr(uc);
  }
}
