/** The relay's 64 KiB ring: a circular array that refines a first-in first-out byte queue. */
module Ring {
  import opened Bytes

  /** RBUF_SIZE. */
  const RBUF_SIZE: nat := 65536

  /** The queue that `len` bytes from `tail` on stand for, wrapping at the end of the array. */
  function Stored(b: seq<byte>, tail: nat, len: nat): (q: seq<byte>)
    requires tail < |b| && len <= |b|
    ensures |q| == len
  {
    if tail + len <= |b| then b[tail..tail + len] else b[tail..] + b[..tail + len - |b|]
  }

  /** The slot `n` places after `i`. */
  function After(i: nat, n: nat, size: nat): (k: nat)
    requires i < size && n <= size
    ensures k < size
  {
    if i + n < size then i + n else i + n - size
  }

  /** The code's remainder finds that slot. */
  lemma RemainderIsAfter(i: nat, n: nat)
    requires i < RBUF_SIZE && n <= RBUF_SIZE
    ensures (i + n) % RBUF_SIZE == After(i, n, RBUF_SIZE)
  {
  }

  /** Writing at the head, without crossing the end of the array, appends to the queue. */
  lemma WriteAppends(b: seq<byte>, c: seq<byte>, tail: nat, len: nat, s: seq<byte>)
    requires tail < |b| == |c| && len + |s| <= |b|
    requires var head := After(tail, len, |b|);
             head + |s| <= |b| && c == b[..head] + s + b[head + |s|..]
    ensures Stored(c, tail, len + |s|) == Stored(b, tail, len) + s
    ensures After(tail, len + |s|, |b|) == After(After(tail, len, |b|), |s|, |b|)
  {
    var q, r := Stored(c, tail, len + |s|), Stored(b, tail, len) + s;
    assert forall k :: 0 <= k < |q| ==> q[k] == r[k];
  }

  /** Moving the tail removes from the front, and leaves the head where it was. */
  lemma ConsumeDrops(b: seq<byte>, tail: nat, len: nat, n: nat)
    requires tail < |b| && n <= len <= |b|
    ensures Stored(b, After(tail, n, |b|), len - n) == Stored(b, tail, len)[n..]
    ensures After(After(tail, n, |b|), len - n, |b|) == After(tail, len, |b|)
  {
    var q, r := Stored(b, After(tail, n, |b|), len - n), Stored(b, tail, len)[n..];
    assert forall k :: 0 <= k < |q| ==> q[k] == r[k];
  }

  /** `ring_t`. */
  class Buffer {
    const buf: array<byte>
    var head: nat
    var tail: nat
    var len: nat

    ghost predicate Valid()
      reads this, buf
    {
      buf.Length == RBUF_SIZE && head < RBUF_SIZE && tail < RBUF_SIZE && len <= RBUF_SIZE
      && head == After(tail, len, RBUF_SIZE)
    }

    /** The bytes waiting, oldest first. */
    ghost function Contents(): (q: seq<byte>)
      reads this, buf
      requires Valid()
    {
      Stored(buf[..], tail, len)
    }

    /** `rb_init`. */
    constructor ()
      ensures Valid() && Contents() == [] && fresh(this) && fresh(buf)
    {
      buf := new byte[RBUF_SIZE](_ => 0);
      head, tail, len := 0, 0, 0;
    }

    /** `rb_space`. */
    function Space(): (n: nat)
      reads this, buf
      requires Valid()
      ensures n == RBUF_SIZE - |Contents()|
    {
      RBUF_SIZE - len
    }

    /** `rb_size`. */
    function Size(): (n: nat)
      reads this, buf
      requires Valid()
      ensures n == |Contents()|
    {
      len
    }

    /** `rb_write`: at most two chunks, the second from the start of the array. */
    method Write(src: seq<byte>) returns (written: nat)
      requires Valid()
      modifies this, buf
      ensures Valid()
      ensures written == Min(|src|, old(Space()))
      ensures Contents() == old(Contents()) + src[..written]
    {
      hide Stored, After;
      var n := Min(|src|, Space());
      written := 0;
      while written < n
        invariant 0 <= written <= n && Valid() && len == old(len) + written
        invariant Contents() == old(Contents()) + src[..written]
      {
        var chunk := Min(RBUF_SIZE - head, n - written);
        var piece := src[written..written + chunk];
        ghost var was, h := buf[..], head;
        Copy(piece, buf, head);
        assert buf[..] == was[..h] + piece + was[h + |piece|..];
        WriteAppends(was, buf[..], tail, len, piece);
        RemainderIsAfter(head, chunk);
        head := (head + chunk) % RBUF_SIZE;
        len := len + chunk;
        written := written + chunk;
        assert src[..written] == src[..written - chunk] + piece;
        assert old(Contents()) + src[..written] == (old(Contents()) + src[..written - chunk]) + piece;
      }
    }

    /** `rb_peek`: where the oldest bytes lie and how many can be handed out in one piece. */
    method Peek() returns (at: nat, chunk: nat)
      requires Valid()
      ensures at + chunk <= RBUF_SIZE && chunk <= |Contents()|
      ensures chunk == 0 <==> Contents() == []
      ensures buf[at..at + chunk] == Contents()[..chunk]
    {
      if len == 0 {
        return 0, 0;
      }
      at, chunk := tail, Min(RBUF_SIZE - tail, len);
    }

    /** `rb_consume`. */
    method Consume(n0: nat)
      requires Valid()
      modifies this
      ensures Valid()
      ensures Contents() == old(Contents())[Min(n0, |old(Contents())|)..]
    {
      hide After;
      var n := Min(n0, len);
      ConsumeDrops(buf[..], tail, len, n);
      RemainderIsAfter(tail, n);
      tail := (tail + n) % RBUF_SIZE;
      len := len - n;
    }
  }
}
