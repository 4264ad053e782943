/** Bytes, 16-byte blocks and the few operations on them that every cipher file shares. */
module Bytes {
  type byte = bv8

  /** A cipher block: the `unsigned char[16]` of the C interfaces. */
  type Block = s: seq<byte> | |s| == 16 witness seq(16, _ => 0)

  lemma Regroup(a: seq<byte>, b: seq<byte>, c: seq<byte>)
    ensures a + (b + c) == (a + b) + c
  {
  }

  /** A keyed block function, such as AES under one key. */
  type BlockFn = Block -> Block

  function ZeroBlock(): Block {
    Zeros(16)
  }

  function Min(a: nat, b: nat): nat {
    if a < b then a else b
  }

  function Zeros(n: nat): seq<byte> {
    seq(n, _ => 0)
  }

  /** XOR of two bytes, which is also addition in GF(2^8). */
  function Add(a: byte, b: byte): byte {
    a ^ b
  }

  lemma AddCancels(a: byte, b: byte)
    ensures Add(Add(a, b), b) == a
  {
  }

  function Xor(a: seq<byte>, b: seq<byte>): (r: seq<byte>)
    requires |a| == |b|
    ensures |r| == |a|
  {
    seq(|a|, i requires 0 <= i < |a| => Add(a[i], b[i]))
  }

  lemma XorCancel(a: seq<byte>, b: seq<byte>)
    requires |a| == |b|
    ensures Xor(Xor(a, b), b) == a
  {
    hide Add;
    forall i | 0 <= i < |a|
      ensures Add(Add(a[i], b[i]), b[i]) == a[i]
    {
      AddCancels(a[i], b[i]);
    }
  }

  /** Number of 16-byte blocks that `n` bytes occupy. */
  function Blocks(n: nat): nat {
    (n + 15) / 16
  }

  /** `n` rounded up to a multiple of 16. */
  function Round16(n: nat): nat {
    16 * Blocks(n)
  }

  /** `s` followed by zeros up to a block boundary. */
  function Pad16(s: seq<byte>): (r: seq<byte>)
    ensures |r| == Round16(|s|) && s <= r
  {
    s + Zeros(Round16(|s|) - |s|)
  }

  function Pow256(k: nat): (p: nat)
    ensures p > 0
  {
    if k == 0 then 1 else 256 * Pow256(k - 1)
  }

  /** The byte with a given value. */
  function ByteOf(n: nat): byte
    requires n < 256
  {
    n as byte
  }

  /** The value of a byte. */
  function NumberOf(b: byte): nat {
    b as int
  }

  lemma ByteRemainder(n: nat)
    requires n < 256
    ensures NumberOf(ByteOf(n)) == n % 256
  {
  }

  lemma ByteOfNumber(n: nat)
    requires n < 256
    ensures NumberOf(ByteOf(n)) == n
  {
    hide ByteOf, NumberOf;
    ByteRemainder(n);
  }

  lemma NumberOfByte(b: byte)
    ensures NumberOf(b) < 256 && ByteOf(NumberOf(b)) == b
  {
  }

  /** The low `k` bytes of `v`, most significant first: what the shift-and-mask stores write. */
  function BigEndian(v: nat, k: nat): (b: seq<byte>)
    ensures |b| == k
  {
    if k == 0 then [] else BigEndian(v / 256, k - 1) + [ByteOf(v % 256)]
  }

  /** The number that a big-endian byte string denotes. */
  function Value(b: seq<byte>): nat {
    if b == [] then 0 else 256 * Value(b[..|b| - 1]) + NumberOf(b[|b| - 1])
  }

  lemma DigitAndRest(q: nat, r: nat)
    requires r < 256
    ensures (256 * q + r) / 256 == q && (256 * q + r) % 256 == r
  {
  }

  lemma BigEndianStep(q: nat, r: nat, k: nat)
    requires r < 256 && k > 0
    ensures BigEndian(256 * q + r, k) == BigEndian(q, k - 1) + [ByteOf(r)]
  {
    hide ByteOf;
    DigitAndRest(q, r);
  }

  lemma ValueStep(b: seq<byte>, r: nat)
    requires r < 256
    ensures Value(b + [ByteOf(r)]) == 256 * Value(b) + r
  {
    hide ByteOf, NumberOf;
    assert (b + [ByteOf(r)])[..|b|] == b;
    ByteOfNumber(r);
  }

  lemma {:induction false} ValueOfBigEndian(v: nat, k: nat)
    requires v < Pow256(k)
    ensures Value(BigEndian(v, k)) == v
  {
    hide BigEndian, Value, ByteOf, NumberOf;
    if k == 0 {
      NoBytes();
    } else {
      var q, r := v / 256, v % 256;
      assert v == 256 * q + r;
      ValueOfBigEndian(q, k - 1);
      BigEndianStep(q, r, k);
      ValueStep(BigEndian(q, k - 1), r);
    }
  }

  lemma NoBytes()
    ensures forall v: nat :: BigEndian(v, 0) == []
    ensures Value([]) == 0
  {
  }

  lemma {:induction false} BigEndianOfValue(b: seq<byte>)
    ensures Value(b) < Pow256(|b|)
    ensures BigEndian(Value(b), |b|) == b
  {
    hide BigEndian, Value, ByteOf, NumberOf;
    NoBytes();
    if b != [] {
      var head, last := b[..|b| - 1], NumberOf(b[|b| - 1]);
      BigEndianOfValue(head);
      NumberOfByte(b[|b| - 1]);
      assert b == head + [ByteOf(last)];
      BigEndianStep(Value(head), last, |b|);
      ValueStep(head, last);
    }
  }

  /** Two numbers that fit have different encodings. */
  lemma BigEndianInjective(v: nat, w: nat, k: nat)
    requires v < Pow256(k) && w < Pow256(k)
    requires BigEndian(v, k) == BigEndian(w, k)
    ensures v == w
  {
    ValueOfBigEndian(v, k);
    ValueOfBigEndian(w, k);
  }

  /** `memcpy(dst + at, src, |src|)`. */
  method Copy(src: seq<byte>, dst: array<byte>, at: nat)
    requires at + |src| <= dst.Length
    modifies dst
    ensures dst[..] == old(dst[..at]) + src + old(dst[at + |src|..])
    ensures forall k :: 0 <= k < dst.Length ==> dst[k] == if at <= k < at + |src| then src[k - at] else old(dst[k])
  {
    var i := 0;
    while i < |src|
      invariant 0 <= i <= |src|
      invariant dst[..at] == old(dst[..at])
      invariant dst[at..at + i] == src[..i]
      invariant dst[at + i..] == old(dst[at + i..])
    {
      dst[at + i] := src[i];
      i := i + 1;
    }
  }

  /** `memcpy` over a whole buffer. */
  method Fill(dst: array<byte>, src: seq<byte>)
    requires dst.Length == |src|
    modifies dst
    ensures dst[..] == src
  {
    Copy(src, dst, 0);
  }

  /** Writes one block into a larger buffer. */
  method PutBlock(dst: array<byte>, at: nat, block: Block)
    requires at + 16 <= dst.Length
    modifies dst
    ensures forall k :: 0 <= k < dst.Length ==> dst[k] == if at <= k < at + 16 then block[k - at] else old(dst[k])
  {
    Copy(block, dst, at);
  }

  /** `output[i] = input[i] ^ ks[i]`, in place or between buffers. */
  method XorInto(output: array<byte>, input: array<byte>, ks: array<byte>, length: nat)
    requires length <= input.Length && length <= output.Length && length <= ks.Length && ks != output && ks != input
    modifies output
    ensures output[..length] == Xor(old(input[..length]), ks[..length])
    ensures output[length..] == old(output[length..])
  {
    hide Add;
    ghost var x := input[..length];
    var i := 0;
    while i < length
      invariant 0 <= i <= length
      invariant forall k :: 0 <= k < i ==> output[k] == Add(x[k], ks[k])
      invariant forall k :: i <= k < output.Length ==> output[k] == old(output[k])
      invariant forall k :: i <= k < length ==> input[k] == x[k]
    {
      output[i] := Add(input[i], ks[i]);
      i := i + 1;
    }
  }

  /** The comparison that accumulates all differences before it answers. */
  method SameBytes(a: seq<byte>, b: seq<byte>, n: nat) returns (same: bool)
    requires n <= |a| && n <= |b|
    ensures same <==> a[..n] == b[..n]
  {
    var diff: byte := 0;
    var i := 0;
    while i < n
      invariant 0 <= i <= n
      invariant diff == 0 <==> a[..i] == b[..i]
    {
      Accumulates(diff, a[i], b[i]);
      assert a[..i + 1] == a[..i] + [a[i]] && b[..i + 1] == b[..i] + [b[i]];
      diff := diff | (a[i] ^ b[i]);
      i := i + 1;
    }
    same := diff == 0;
  }

  lemma Accumulates(diff: byte, x: byte, y: byte)
    ensures diff | (x ^ y) == 0 <==> diff == 0 && x == y
  {
  }

  // ---- what the building blocks are, byte by byte ----

  lemma XorAt(a: seq<byte>, b: seq<byte>, i: nat)
    requires |a| == |b| && i < |a|
    ensures Xor(a, b)[i] == a[i] ^ b[i]
  {
  }

  /** Byte `i` of a big-endian number counts 256 to the power of the bytes behind it. */
  lemma {:induction false} BigEndianAt(v: nat, k: nat, i: nat)
    requires i < k
    ensures NumberOf(BigEndian(v, k)[i]) == v / Pow256(k - 1 - i) % 256
    decreases k
  {
    hide ByteOf, NumberOf;
    ByteOfNumber(v % 256);
    if i < k - 1 {
      BigEndianAt(v / 256, k - 1, i);
      DivideTwice(v, Pow256(k - 2 - i));
    }
  }

  lemma DivideTwice(v: nat, p: nat)
    requires p > 0
    ensures v / 256 / p == v / (256 * p)
  {
    var a := v / 256;
    var b := a / p;
    var r := a % p;
    assert a == p * b + r;
    assert v == 256 * (p * b + r) + v % 256;
    assert 256 * (p * b) == (256 * p) * b by { ThreeFactors(256, p, b); }
    QuotientIs(v, 256 * p, b, 256 * r + v % 256);
  }

  lemma ThreeFactors(x: nat, y: nat, z: nat)
    ensures x * (y * z) == (x * y) * z
  {
  }

  lemma QuotientIs(v: nat, m: nat, q: nat, r: nat)
    requires v == m * q + r && r < m
    ensures v / m == q
  {
    var k := v / m;
    assert v == m * k + v % m;
    if k < q {
      MoreIsMore(m, k, q);
    } else if k > q {
      MoreIsMore(m, q, k);
    }
  }

  lemma MoreIsMore(m: nat, a: nat, b: nat)
    requires a < b
    ensures m * b >= m * a + m
  {
    assert m * b == m * a + m * (b - a);
    assert m * (b - a) == m + m * (b - a - 1);
  }

  lemma PaddedAt(s: seq<byte>, i: nat)
    requires i < Round16(|s|)
    ensures |s| <= Round16(|s|) < |s| + 16 && Pad16(s)[i] == if i < |s| then s[i] else 0
  {
  }
}
