/** Shift buffer for incoming netlink messages (lib/netlink/recv.c,
    lib/netlink/cast_msg.c). */
module NetlinkRecv {
  import opened Basics

  const HEADER := 16
  const ENOBUFS := 105

  function Word(a: int, b: int, c: int, d: int): int {
    a + 0x100 * b + 0x1_0000 * c + 0x100_0000 * d
  }

  /** The length field at the head of a message. */
  function Len(m: seq<byte>): nat
    requires |m| >= 4
  {
    Word(m[0], m[1], m[2], m[3])
  }

  /** `nl_msg`: whether a complete message starts here. */
  predicate Complete(p: seq<byte>) {
    |p| >= HEADER && |p| >= Len(p)
  }

  /** A message as the kernel sends it, to a buffer of `cap` bytes. */
  ghost predicate WellFormed(m: seq<byte>, cap: nat) {
    HEADER <= |m| <= cap && Len(m) == |m|
  }

  ghost function Concat(ms: seq<seq<byte>>): seq<byte> {
    if ms == [] then [] else ms[0] + Concat(ms[1..])
  }

  class NrBuf {
    const buf: array<byte>
    var msg: int
    var ptr: int

    ghost predicate Valid()
      reads this
    {
      && 0 <= msg <= ptr <= buf.Length < 0x8000_0000
      && (msg == ptr ==> msg == 0)
    }

    /** Bytes received and not yet returned. */
    ghost function Pending(): seq<byte>
      requires Valid()
      reads this, buf
    {
      buf[msg..ptr]
    }

    /** `nr_buf_set`. */
    constructor (buf: array<byte>)
      requires buf.Length < 0x8000_0000
      ensures Valid() && this.buf == buf && Pending() == []
    {
      this.buf := buf;
      msg, ptr := 0, 0;
    }

    /** `nr_recv`: one receive into the tail; `data` is what the socket gives
        for a request of the room left, `err` is negative when it fails. */
    method Recv(err: int, data: seq<byte>) returns (ret: int)
      requires Valid() && (ptr < buf.Length ==> |data| <= buf.Length - ptr)
      modifies this`ptr, buf
      ensures Valid()
      ensures ret == if old(ptr) >= buf.Length then -ENOBUFS else if err < 0 then err else |data|
      ensures ret < 0 ==> Pending() == old(Pending())
      ensures ret >= 0 ==> Pending() == old(Pending()) + data
    {
      if ptr < 0 || ptr >= buf.Length { return -ENOBUFS; }
      if err < 0 { return err; }
      ghost var was := buf[..];
      CopyTail(data);
      Appended(was, buf[..], msg, ptr, data);
      assert was[msg..ptr] == old(buf[msg..ptr]);
      ptr := ptr + |data|;
      assert buf[msg..ptr] == buf[..][msg..ptr];
      return |data|;
    }

    /** The received bytes land behind the pending ones. */
    method CopyTail(data: seq<byte>)
      requires 0 <= ptr && ptr + |data| <= buf.Length
      modifies buf
      ensures forall k :: 0 <= k < ptr ==> buf[k] == old(buf[k])
      ensures forall k :: 0 <= k < |data| ==> buf[ptr + k] == data[k]
    {
      var i := 0;
      while i < |data|
        invariant 0 <= i <= |data|
        invariant forall k :: 0 <= k < ptr ==> buf[k] == old(buf[k])
        invariant forall k :: 0 <= k < i ==> buf[ptr + k] == data[k]
      {
        buf[ptr + i] := data[i];
        i := i + 1;
      }
    }

    /** `nr_next`: the message at the front if it is all there; otherwise the
        pending bytes move to the start of the buffer. */
    method Next() returns (found: bool, m: seq<byte>)
      requires Valid()
      modifies this`msg, this`ptr, buf
      ensures Valid()
      ensures found == old(Complete(Pending()))
      ensures found ==> var p := old(Pending()); m == p[..Len(p)] && Pending() == p[Len(p)..]
      ensures var p := old(Pending());
        found <==> |p| >= 16 && |p| >= p[0] + 256 * (p[1] as int) + 65536 * (p[2] as int) + 16777216 * (p[3] as int)
      ensures found ==> var p := old(Pending());
        |m| == p[0] + 256 * (p[1] as int) + 65536 * (p[2] as int) + 16777216 * (p[3] as int)
      ensures !found ==> Pending() == old(Pending()) && msg == 0
    {
      if msg < 0 || msg >= buf.Length {
        return false, [];
      }
      var len := ptr - msg;
      ghost var p := buf[msg..ptr];
      if len >= HEADER {
        var l := Word(buf[msg], buf[msg + 1], buf[msg + 2], buf[msg + 3]);
        assert l == Len(p);
        if len >= l {
          m := buf[msg..msg + l];
          assert p[..l] == m;
          msg := msg + l;
          if msg >= ptr {
            msg, ptr := 0, 0;
          }
          return true, m;
        }
      }
      if msg > 0 {
        Shift(len);
      }
      return false, [];
    }

    /** memmove of the pending bytes to the start. */
    method Shift(len: int)
      requires Valid() && len == ptr - msg && 0 < msg
      modifies this`msg, this`ptr, buf
      ensures Valid() && Pending() == old(Pending()) && msg == 0
    {
      var from, to := msg, ptr;
      var i := 0;
      while i < len
        invariant 0 <= i <= len && msg == from && ptr == to
        invariant forall k :: 0 <= k < i ==> buf[k] == old(buf[from + k])
        invariant forall k :: from + i <= k < to ==> buf[k] == old(buf[k])
      {
        buf[i] := buf[from + i];
        i := i + 1;
      }
      ptr := len;
      msg := 0;
    }
  }

  lemma Appended(was: seq<byte>, now: seq<byte>, msg: nat, ptr: nat, data: seq<byte>)
    requires |was| == |now| && msg <= ptr && ptr + |data| <= |now|
    requires forall k :: 0 <= k < ptr ==> now[k] == was[k]
    requires forall k :: 0 <= k < |data| ==> now[ptr + k] == data[k]
    ensures now[msg..ptr + |data|] == was[msg..ptr] + data
  {
    assert now[msg..ptr + |data|] == now[msg..ptr] + now[ptr..ptr + |data|];
    assert now[ptr..ptr + |data|] == data;
  }

  // ------------------------------------------------------------- whole streams

  lemma {:induction false} ConcatAppend(ms: seq<seq<byte>>, m: seq<byte>)
    ensures Concat(ms + [m]) == Concat(ms) + m
  {
    if ms == [] {
      assert Concat([m]) == m + Concat([]);
    } else {
      assert (ms + [m])[1..] == ms[1..] + [m];
      ConcatAppend(ms[1..], m);
    }
  }

  lemma {:induction false} ConcatSplit(ms: seq<seq<byte>>, j: nat)
    requires j <= |ms|
    ensures Concat(ms) == Concat(ms[..j]) + Concat(ms[j..])
  {
    if j == 0 {
      assert ms[..0] == [] && ms[0..] == ms;
    } else {
      ConcatSplit(ms[1..], j - 1);
      assert ms[..j][1..] == ms[1..][..j - 1] && ms[j..] == ms[1..][j - 1..];
    }
  }

  /** `p` is a beginning of what the messages from `j` on say. */
  ghost predicate Ahead(p: seq<byte>, ms: seq<seq<byte>>, j: nat)
    requires j <= |ms|
  {
    p <= Concat(ms[j..])
  }

  /** The pending bytes hold a complete message exactly when they hold all of
      the next one, and then it is the next one. */
  lemma FrontMessage(p: seq<byte>, ms: seq<seq<byte>>, j: nat, cap: nat)
    requires j <= |ms| && Ahead(p, ms, j)
    requires forall m :: m in ms ==> WellFormed(m, cap)
    ensures j == |ms| ==> p == []
    ensures j < |ms| ==> (Complete(p) <==> |ms[j]| <= |p|)
    ensures j < |ms| && Complete(p) ==> Len(p) == |ms[j]| && p[..Len(p)] == ms[j] && Ahead(p[Len(p)..], ms, j + 1)
    ensures Complete(p) ==> j < |ms| && Len(p) > 0
    ensures j < |ms| && !Complete(p) ==> |p| < cap
  {
    if j < |ms| {
      var m, rest := ms[j], Concat(ms[j + 1..]);
      assert ms[j..][1..] == ms[j + 1..];
      assert Concat(ms[j..]) == m + rest;
      assert m in ms;
      assert |p| >= 4 ==> Len(p) == Len(m) by {
        if |p| >= 4 {
          assert p[0] == (m + rest)[0] && p[1] == (m + rest)[1] && p[2] == (m + rest)[2] && p[3] == (m + rest)[3];
        }
      }
      if |m| <= |p| {
        assert p[..|m|] == (m + rest)[..|m|] == m;
        assert p[|m|..] <= rest;
      }
    } else {
      assert ms[j..] == [];
    }
  }

  /** `nr_next` until it has nothing: exactly the messages that have fully
      arrived come out. */
  method DrainAll(nr: NrBuf, ghost ms: seq<seq<byte>>, before: seq<seq<byte>>) returns (got: seq<seq<byte>>)
    requires nr.Valid() && |before| <= |ms| && before == ms[..|before|]
    requires Ahead(nr.Pending(), ms, |before|)
    requires forall m :: m in ms ==> WellFormed(m, nr.buf.Length)
    modifies nr, nr.buf
    ensures nr.Valid() && nr.msg == 0
    ensures |got| <= |ms| && got == ms[..|got|]
    ensures |Concat(got)| + |nr.Pending()| == |Concat(before)| + |old(nr.Pending())|
    ensures Ahead(nr.Pending(), ms, |got|) && !Complete(nr.Pending())
  {
    hide Complete, Concat, Len;
    got := before;
    var more := true;
    while more
      invariant nr.Valid()
      invariant |got| <= |ms| && got == ms[..|got|]
      invariant |Concat(got)| + |nr.Pending()| == |Concat(before)| + |old(nr.Pending())|
      invariant Ahead(nr.Pending(), ms, |got|)
      invariant !more ==> nr.msg == 0 && !Complete(nr.Pending())
      decreases more, |ms| - |got|
    {
      FrontMessage(nr.Pending(), ms, |got|, nr.buf.Length);
      var m;
      more, m := nr.Next();
      if more {
        ConcatAppend(got, m);
        assert ms[..|got| + 1] == ms[..|got|] + [ms[|got|]];
        got := got + [m];
      }
    }
  }

  /** What a receive gives: up to what is asked for and what is there. */
  function Receive(stream: seq<byte>, read: nat, take: nat, left: nat): (data: seq<byte>)
    requires read <= |stream|
    ensures read + |data| <= |stream| && data == stream[read..read + |data|]
    ensures |data| <= left
  {
    var n := if take < left then take else left;
    if n <= |stream| - read then stream[read..read + n] else stream[read..]
  }

  /** The receive loop: `nr_recv`, then `nr_next` until nothing is complete.
      The socket hands over the stream in pieces of at most the sizes in
      `takes`.  However they chop it, the buffer never fills up, and exactly
      the messages that have fully arrived have been returned, in order. */
  method ReceiveAll(nr: NrBuf, ghost ms: seq<seq<byte>>, stream: seq<byte>, takes: seq<nat>)
    returns (got: seq<seq<byte>>, read: nat, full: bool)
    requires nr.Valid() && nr.Pending() == [] && nr.buf.Length > 0
    requires forall m :: m in ms ==> WellFormed(m, nr.buf.Length)
    requires stream == Concat(ms)
    modifies nr, nr.buf
    ensures !full
    ensures |got| <= |ms| && got == ms[..|got|]
    ensures |Concat(got)| <= read <= |stream|
    ensures |got| < |ms| ==> read < |Concat(got)| + |ms[|got|]|
    ensures read == |stream| ==> got == ms
  {
    hide Complete, Concat, Len;
    got, read, full := [], 0, false;
    assert ms[..0] == [] && ms[0..] == ms;
    EmptyStart(nr.Pending());
    for t := 0 to |takes|
      invariant nr.Valid() && nr.msg == 0 && !full
      invariant |got| <= |ms| && got == ms[..|got|]
      invariant read == |Concat(got)| + |nr.Pending()| <= |stream|
      invariant Ahead(nr.Pending(), ms, |got|) && !Complete(nr.Pending())
    {
      ghost var p := nr.Pending();
      FrontMessage(p, ms, |got|, nr.buf.Length);
      var data := Receive(stream, read, takes[t], nr.buf.Length - nr.ptr);
      NextBytes(ms, |got|, p, data, stream);
      assert nr.ptr < nr.buf.Length;
      var ret := nr.Recv(0, data);
      if ret < 0 { full := true; }
      read := read + |data|;
      got := DrainAll(nr, ms, got);
    }
    LastCount(ms, |got|, nr.Pending(), nr.buf.Length);
  }

  lemma EmptyStart(p: seq<byte>)
    requires p == []
    ensures !Complete(p) && Concat([]) == []
  {
  }

  /** What is read next continues the pending bytes. */
  lemma NextBytes(ms: seq<seq<byte>>, j: nat, p: seq<byte>, data: seq<byte>, stream: seq<byte>)
    requires j <= |ms| && Ahead(p, ms, j) && stream == Concat(ms)
    requires var read := |Concat(ms[..j])| + |p|;
      read + |data| <= |stream| && data == stream[read..read + |data|]
    ensures Ahead(p + data, ms, j)
  {
    hide Concat;
    ConcatSplit(ms, j);
    var head, tail := Concat(ms[..j]), Concat(ms[j..]);
    assert stream == head + tail;
    assert data == tail[|p|..|p| + |data|];
    assert p + data == tail[..|p| + |data|];
  }

  lemma LastCount(ms: seq<seq<byte>>, j: nat, p: seq<byte>, cap: nat)
    requires j <= |ms| && Ahead(p, ms, j) && !Complete(p)
    requires forall m :: m in ms ==> WellFormed(m, cap)
    ensures j < |ms| ==> |p| < |ms[j]|
    ensures |Concat(ms[..j])| + |p| == |Concat(ms)| ==> ms[..j] == ms
  {
    hide Complete, Concat, Len;
    FrontMessage(p, ms, j, cap);
    if j < |ms| {
      ConcatSplit(ms, j);
      ConcatFront(ms, j);
    }
  }

  lemma ConcatFront(ms: seq<seq<byte>>, j: nat)
    requires j < |ms|
    ensures |Concat(ms[j..])| >= |ms[j]|
  {
  }
}
