/** The output ring of a supervised process (src/apphub/apphub_proc.c:18-67,
    src/apphub/apphub_ctrl.c:289-338): what the pipe delivered since the last
    flush, against what a fetch returns. */
module ApphubRing {
  import opened Basics

  const RING_SIZE := 8192

  /** The last `n` bytes of a stream, or all of it. */
  function Last(s: seq<byte>, n: nat): seq<byte> {
    if |s| <= n then s else s[|s| - n..]
  }

  /** The stored pointer after `t` bytes: exact at first, then folded. */
  function Pointer(t: nat): int {
    if t < RING_SIZE then t else RING_SIZE + t % RING_SIZE
  }

  /** The ring holds the last stretch of the stream, byte k at k modulo its size. */
  ghost predicate Holds(b: seq<byte>, s: seq<byte>)
    requires |b| == RING_SIZE
  {
    forall k :: 0 <= k < |s| && |s| - RING_SIZE <= k ==> b[k % RING_SIZE] == s[k]
  }

  /** How many bytes a read starting at `off` puts before position `p`. */
  function Behind(p: int, off: int): int {
    if p >= off then p - off else p - off + RING_SIZE
  }

  lemma PointerFolds(t: nat, n: nat)
    requires n <= RING_SIZE
    ensures Pointer(t) % RING_SIZE == t % RING_SIZE
    ensures Pointer(t) < 2 * RING_SIZE
    ensures var q := Pointer(t) + n; Pointer(t + n) == if q > RING_SIZE then RING_SIZE + q % RING_SIZE else q
  {
  }

  lemma BehindMod(t: int, k: int)
    requires 0 <= t && 0 <= k && -RING_SIZE <= k - t < RING_SIZE
    ensures Behind(k % RING_SIZE, t % RING_SIZE) == if k >= t then k - t else k - t + RING_SIZE
  {
  }

  /** `c` is `b` with `data` written from `off` on, wrapping round. */
  ghost predicate Written(b: seq<byte>, c: seq<byte>, off: int, data: seq<byte>)
    requires |b| == |c| == RING_SIZE && 0 <= off < RING_SIZE
  {
    forall p :: 0 <= p < RING_SIZE ==>
      c[p] == if Behind(p, off) < |data| then data[Behind(p, off)] else b[p]
  }

  lemma HoldsMore(b: seq<byte>, c: seq<byte>, s: seq<byte>, data: seq<byte>)
    requires |b| == |c| == RING_SIZE && |data| <= RING_SIZE
    requires Holds(b, s) && Written(b, c, |s| % RING_SIZE, data)
    ensures Holds(c, s + data)
  {
    var t := |s|;
    forall k | 0 <= k < |s + data| && |s + data| - RING_SIZE <= k
      ensures c[k % RING_SIZE] == (s + data)[k]
    {
      BehindMod(t, k);
      var p := k % RING_SIZE;
      assert c[p] == if Behind(p, t % RING_SIZE) < |data| then data[Behind(p, t % RING_SIZE)] else b[p];
    }
  }

  /** `readv` over the two stretches: from `off` to the end, then from the start. */
  method ReadInto(b: array<byte>, off: int, data: seq<byte>)
    requires b.Length == RING_SIZE && 0 <= off < RING_SIZE && |data| <= RING_SIZE
    modifies b
    ensures Written(old(b[..]), b[..], off, data)
  {
    var first := if |data| <= RING_SIZE - off then |data| else RING_SIZE - off;
    var i := 0;
    while i < first
      invariant 0 <= i <= first
      invariant forall p :: 0 <= p < RING_SIZE ==>
        b[p] == if off <= p < off + i then data[p - off] else old(b[p])
    {
      b[off + i] := data[i];
      i := i + 1;
    }
    while i < |data|
      invariant first <= i <= |data| && (i > first ==> first == RING_SIZE - off)
      invariant forall p :: 0 <= p < RING_SIZE ==>
        b[p] == if off <= p < off + first then data[p - off]
                else if p < i - first then data[first + p] else old(b[p])
    {
      b[i - first] := data[i];
      i := i + 1;
    }
  }

  class Proc {
    var buf: array?<byte>
    var ptr: int

    /** Everything read since the ring was last mapped. */
    ghost var stream: seq<byte>

    ghost predicate Valid()
      reads this, buf
    {
      && (buf == null ==> ptr == 0 && stream == [])
      && (buf != null ==>
            && buf.Length == RING_SIZE
            && ptr == Pointer(|stream|)
            && Holds(buf[..], stream))
    }

    constructor ()
      ensures Valid() && stream == [] && buf == null
    {
      buf, ptr, stream := null, 0, [];
    }

    /** `prep_pipe_buf`: map the ring on first use; `mapped` is the outcome of mmap. */
    method PrepPipeBuf(mapped: bool) returns (ok: bool)
      requires Valid()
      modifies this`buf, this`ptr
      ensures Valid() && ok == (buf != null) && stream == old(stream)
      ensures old(buf) != null ==> buf == old(buf) && ptr == old(ptr)
      ensures old(buf) == null ==> ok == mapped && (ok ==> fresh(buf))
    {
      if buf != null { return true; }
      if !mapped { return false; }
      buf := new byte[RING_SIZE];
      ptr := 0;
      return true;
    }

    /** `handle_pipe`: one read of up to a ring's worth of bytes into the two
        free stretches.  A failed mapping or read changes nothing. */
    method HandlePipe(mapped: bool, failed: bool, data: seq<byte>)
      requires Valid() && |data| <= RING_SIZE
      modifies this, buf
      ensures Valid()
      ensures buf != null <==> old(buf) != null || mapped
      ensures old(buf) != null ==> buf == old(buf)
      ensures old(buf) == null && buf != null ==> fresh(buf)
      ensures stream == if buf == null || failed then old(stream) else old(stream) + data
    {
      var ok := PrepPipeBuf(mapped);
      if !ok { return; }
      var off := ptr % RING_SIZE;
      if failed { return; }
      PointerFolds(|stream|, |data|);
      ghost var b := buf[..];
      ReadInto(buf, off, data);
      HoldsMore(b, buf[..], stream, data);
      ptr := ptr + |data|;
      if ptr > RING_SIZE {
        ptr := RING_SIZE + ptr % RING_SIZE;
      }
      stream := stream + data;
    }

    /** `unmap_pipe`: a flush; `done` is the outcome of munmap. */
    method UnmapPipe(done: bool)
      requires Valid()
      modifies this
      ensures Valid()
      ensures done || old(buf) == null ==> stream == [] && buf == null && ptr == 0
      ensures !done ==> stream == old(stream) && buf == old(buf) && ptr == old(ptr)
    {
      if buf == null { return; }
      if !done { return; }
      buf, ptr, stream := null, 0, [];
    }

    /** `cmd_fetch` and `reply_ring`: exactly the last 8192 bytes that came out
        of the pipe, in order, or all of them if there were fewer. */
    method Fetch() returns (found: bool, reply: seq<byte>)
      requires Valid()
      ensures found == (buf != null)
      ensures found ==> reply == Last(stream, RING_SIZE)
      ensures ptr < 2 * RING_SIZE
    {
      PointerFolds(|stream|, 0);
      if buf == null { return false, []; }
      found := true;
      var off := ptr % RING_SIZE;
      if ptr <= RING_SIZE {
        reply := buf[..ptr];
      } else {
        reply := buf[off..] + buf[..off];
      }
      RingIsLast(buf[..], stream, reply);
    }
  }

  lemma RingIsLast(b: seq<byte>, s: seq<byte>, reply: seq<byte>)
    requires |b| == RING_SIZE && Holds(b, s)
    requires var ptr := Pointer(|s|);
      reply == if ptr <= RING_SIZE then b[..ptr] else b[ptr % RING_SIZE..] + b[..ptr % RING_SIZE]
    ensures reply == Last(s, RING_SIZE)
  {
    PointerFolds(|s|, 0);
    var t, off := |s|, |s| % RING_SIZE;
    if t > RING_SIZE {
      forall j | 0 <= j < RING_SIZE ensures reply[j] == s[t - RING_SIZE + j] {
        var k := t - RING_SIZE + j;
        assert b[k % RING_SIZE] == s[k];
        assert k % RING_SIZE == if off + j < RING_SIZE then off + j else off + j - RING_SIZE;
      }
    } else {
      forall j | 0 <= j < t ensures reply[j] == s[j] {
        assert b[j % RING_SIZE] == s[j];
      }
    }
  }

  // ---------------------------------------------------------------- whole runs

  /** What happens to a process between its start and now. */
  datatype Event = Read(mapped: bool, failed: bool, data: seq<byte>) | Flush(done: bool)

  /** The bytes delivered since the last flush that took effect. */
  function Delivered(es: seq<Event>): (r: (bool, seq<byte>))
    ensures !r.0 ==> r.1 == []
  {
    if es == [] then (false, [])
    else
      var (open, s) := Delivered(es[..|es| - 1]);
      match es[|es| - 1]
      case Read(mapped, failed, data) =>
        if !open && !mapped then (false, [])
        else (true, if failed then s else s + data)
      case Flush(done) => if done then (false, []) else (open, s)
  }

  /** Any run of reads and flushes, then a fetch. */
  method RunAndFetch(es: seq<Event>) returns (found: bool, reply: seq<byte>)
    requires forall e :: e in es && e.Read? ==> |e.data| <= RING_SIZE
    ensures found == Delivered(es).0
    ensures found ==> reply == Last(Delivered(es).1, RING_SIZE)
    ensures found ==> var s := Delivered(es).1;
      && |reply| == (if |s| < 8192 then |s| else 8192)
      && forall i :: 0 <= i < |reply| ==> reply[i] == s[|s| - |reply| + i]
  {
    var pc := new Proc();
    for i := 0 to |es|
      invariant pc.Valid() && fresh(pc) && (pc.buf != null ==> fresh(pc.buf))
      invariant Delivered(es[..i]) == (pc.buf != null, pc.stream)
    {
      assert es[..i + 1][..i] == es[..i];
      match es[i] {
        case Read(mapped, failed, data) => pc.HandlePipe(mapped, failed, data);
        case Flush(done) => pc.UnmapPipe(done);
      }
    }
    assert es[..|es|] == es;
    found, reply := pc.Fetch();
  }
}
