/** GCM as SP 800-38D defines it (sections 6.2, 6.5, 7.1 and 7.2), over an abstract block function. */
module Gcm {
  import opened Bytes
  import opened Gf128
  import opened GhashTables
  import opened Ghash
  import opened GhashSum
  import opened BlockModes

  const WORD: nat := 0x1_0000_0000

  /** The counter in the last four bytes. */
  function CounterOf(j: Block): nat {
    Value(j[12..])
  }

  /** A block with the fixed part of `j` and counter `c`. */
  function WithCounter(j: Block, c: nat): Block {
    j[..12] + BigEndian(c, 4)
  }

  /** inc_32 of section 6.2. */
  function Inc32(j: Block): Block {
    WithCounter(j, (CounterOf(j) + 1) % WORD)
  }

  /** GCTR of section 6.5. */
  function Gctr(e: BlockFn, icb: Block, x: seq<byte>): (y: seq<byte>)
    ensures |y| == |x|
    decreases |x|
  {
    if x == [] then []
    else
      var k := Min(16, |x|);
      Xor(x[..k], e(icb)[..k]) + Gctr(e, Inc32(icb), x[k..])
  }

  /** The hash subkey. */
  function Subkey(e: BlockFn): Element {
    Pack(e(ZeroBlock()))
  }

  function Lengths(a: nat, c: nat): Block {
    BigEndian(8 * a, 8) + BigEndian(8 * c, 8)
  }

  /** What is hashed: two strings padded to block boundaries and the lengths in bits. */
  function HashInput(a: seq<byte>, c: seq<byte>, lengths: Block): (s: seq<byte>)
    ensures |s| % 16 == 0
  {
    Pad16(a) + Pad16(c) + lengths
  }

  /** J_0: section 7.1, step 2. */
  function PreCounter(e: BlockFn, iv: seq<byte>): Block {
    if |iv| == 12 then iv + BigEndian(1, 4)
    else Hash(Subkey(e), ZeroBlock(), HashInput(iv, [], Lengths(0, |iv|)))
  }

  /** The full 16-byte tag: section 7.1, steps 4 to 6. */
  function Tag(e: BlockFn, iv: seq<byte>, a: seq<byte>, c: seq<byte>): Block {
    Xor(Hash(Subkey(e), ZeroBlock(), HashInput(a, c, Lengths(|a|, |c|))), e(PreCounter(e, iv)))
  }

  /** Encryption and decryption of the text: the counter starts after J_0. */
  function Crypt(e: BlockFn, iv: seq<byte>, x: seq<byte>): (y: seq<byte>)
    ensures |y| == |x|
  {
    Gctr(e, Inc32(PreCounter(e, iv)), x)
  }

  // ---- the counter stream as the code builds it ----

  /** Counter blocks `j`+1 to `j`+`n`, in one buffer. */
  function CounterBlocks(j: Block, n: nat): (b: seq<byte>)
    ensures |b| == 16 * n
    decreases n
  {
    if n == 0 then [] else Inc32(j) + CounterBlocks(Inc32(j), n - 1)
  }

  /** XOR with the enciphered counter blocks is GCTR. */
  lemma {:induction false} KeystreamIsGctr(e: BlockFn, j: Block, x: seq<byte>)
    ensures Gctr(e, Inc32(j), x) == Xor(x, Ecb(e, CounterBlocks(j, Blocks(|x|)), Blocks(|x|))[..|x|])
    decreases |x|
  {
    hide Inc32, Add;
    if x == [] {
    } else {
      var k := Min(16, |x|);
      var icb := Inc32(j);
      var n := Blocks(|x|);
      KeystreamIsGctr(e, icb, x[k..]);
      BlocksStep(|x|);
      var ctr := CounterBlocks(j, n);
      assert ctr[..16] == icb && ctr[16..] == CounterBlocks(icb, n - 1);
      var rest := Ecb(e, CounterBlocks(icb, n - 1), n - 1);
      assert Ecb(e, ctr, n) == e(icb) + rest;
      Shorten(e(icb), rest, |x|);
      XorOfParts(x[..k], x[k..], e(icb)[..k], rest[..|x| - k]);
      assert x == x[..k] + x[k..];
    }
  }

  lemma Shorten(a: Block, b: seq<byte>, n: nat)
    requires n <= 16 + |b|
    ensures var k := Min(16, n); (a + b)[..n] == a[..k] + b[..n - k]
  {
  }

  lemma BlocksStep(n: nat)
    requires n > 0
    ensures Blocks(n) == 1 + Blocks(n - Min(16, n))
  {
  }

  /** The text function is its own inverse. */
  lemma {:induction false} GctrInverts(e: BlockFn, icb: Block, x: seq<byte>)
    ensures Gctr(e, icb, Gctr(e, icb, x)) == x
    decreases |x|
  {
    hide Inc32, Xor;
    if x != [] {
      var k := Min(16, |x|);
      var y := Gctr(e, icb, x);
      XorCancel(x[..k], e(icb)[..k]);
      GctrInverts(e, Inc32(icb), x[k..]);
      assert y[..k] == Xor(x[..k], e(icb)[..k]) && y[k..] == Gctr(e, Inc32(icb), x[k..]);
      assert x == x[..k] + x[k..];
    }
  }

  // ---- counters never repeat ----

  lemma WordSize()
    ensures Pow256(4) == WORD
  {
  }

  lemma CounterInRange(j: Block)
    ensures CounterOf(j) < WORD
    ensures WithCounter(j, CounterOf(j)) == j
  {
    WordSize();
    BigEndianOfValue(j[12..]);
  }

  lemma CounterReadBack(j: Block, c: nat)
    requires c < WORD
    ensures CounterOf(WithCounter(j, c)) == c
    ensures Inc32(WithCounter(j, c)) == WithCounter(j, (c + 1) % WORD)
  {
    hide BigEndian, Value;
    WordSize();
    ValueOfBigEndian(c, 4);
    var b := WithCounter(j, c);
    assert b[12..] == BigEndian(c, 4) && b[..12] == j[..12];
  }

  /** Block `i` of the stream keeps the first twelve bytes of J_0 and counts modulo 2^32. */
  lemma {:induction false} CounterBlockAt(j: Block, c: nat, n: nat, i: nat)
    requires c < WORD && i < n
    ensures CounterBlocks(WithCounter(j, c), n)[16 * i..16 * i + 16] == WithCounter(j, (c + i + 1) % WORD)
    decreases n
  {
    hide Inc32, WithCounter;
    var b := WithCounter(j, c);
    CounterReadBack(j, c);
    var rest := CounterBlocks(Inc32(b), n - 1);
    assert CounterBlocks(b, n) == Inc32(b) + rest;
    if i > 0 {
      var k := 16 * (i - 1);
      CounterBlockAt(j, (c + 1) % WORD, n - 1, i - 1);
      WrapTwice(c + 1, i);
      assert k + 16 == 16 * i;
      assert (Inc32(b) + rest)[k + 16..k + 32] == rest[k..k + 16];
    }
  }

  lemma WrapTwice(c: nat, i: nat)
    ensures (c % WORD + i) % WORD == (c + i) % WORD
  {
  }

  /** J_0 and all counter blocks of one call are pairwise distinct, even where the 32-bit counter wraps. */
  lemma CountersDistinct(j: Block, n: nat, i: nat, k: nat)
    requires n < WORD && i < k <= n
    ensures var ctr := j + CounterBlocks(j, n);
            ctr[16 * i..16 * i + 16] != ctr[16 * k..16 * k + 16]
  {
    hide CounterBlocks, WithCounter, CounterOf;
    var c := CounterOf(j);
    CounterInRange(j);
    CounterBlockAt(j, c, n, k - 1);
    CounterReadBack(j, (c + k) % WORD);
    var s := CounterBlocks(j, n);
    assert (j + s)[16 * k..16 * k + 16] == s[16 * (k - 1)..16 * (k - 1) + 16];
    if i == 0 {
      assert (j + s)[..16] == j;
      WrapsApart(c, 0, k);
    } else {
      CounterBlockAt(j, c, n, i - 1);
      CounterReadBack(j, (c + i) % WORD);
      assert (j + s)[16 * i..16 * i + 16] == s[16 * (i - 1)..16 * (i - 1) + 16];
      WrapsApart(c, i, k);
    }
  }

  lemma WrapsApart(c: nat, i: nat, k: nat)
    requires i < k < i + WORD
    ensures (c + i) % WORD != (c + k) % WORD
  {
  }

  // ---- text, tag and first counter, byte by byte ----

  lemma GctrFirst(e: BlockFn, icb: Block, x: seq<byte>, r: nat)
    requires r < 16 && r < |x|
    ensures Gctr(e, icb, x)[r] == x[r] ^ e(icb)[r]
  {
    hide Xor, Inc32;
    var k := Min(16, |x|);
    XorAt(x[..k], e(icb)[..k], r);
  }

  lemma GctrLater(e: BlockFn, icb: Block, x: seq<byte>, j: nat)
    requires 16 <= j < |x|
    ensures Gctr(e, icb, x)[j] == Gctr(e, Inc32(icb), x[16..])[j - 16] && x[j] == x[16..][j - 16]
  {
    hide Xor, Inc32;
  }

  lemma {:induction false} GctrAt(e: BlockFn, icb: Block, x: seq<byte>, i: nat, r: nat)
    requires r < 16 && 16 * i + r < |x|
    ensures Gctr(e, icb, x)[16 * i + r] == x[16 * i + r] ^ e(WithCounter(icb, (CounterOf(icb) + i) % WORD))[r]
    decreases i
  {
    hide Gctr, WithCounter, CounterOf;
    var c := CounterOf(icb);
    CounterInRange(icb);
    if i == 0 {
      GctrFirst(e, icb, x, r);
    } else {
      GctrLater(e, icb, x, 16 * i + r);
      CounterReadBack(icb, c);
      SameFixedPart(icb, (c + 1) % WORD, ((c + 1) % WORD + (i - 1)) % WORD);
      GctrAt(e, Inc32(icb), x[16..], i - 1, r);
      WrapTwice(c + 1, i - 1);
    }
  }

  lemma SameFixedPart(j: Block, c: nat, d: nat)
    requires c < WORD
    ensures CounterOf(WithCounter(j, c)) == c && WithCounter(WithCounter(j, c), d) == WithCounter(j, d)
  {
    CounterReadBack(j, c);
  }

  /** A counter block keeps the first twelve bytes and ends in the four bytes of the number. */
  lemma CounterBytes(j: Block, c: nat, i: nat)
    requires i < 16
    ensures i < 12 ==> WithCounter(j, c)[i] == j[i]
    ensures i >= 12 ==> NumberOf(WithCounter(j, c)[i]) == c / Pow256(15 - i) % 256
  {
    hide BigEndian, NumberOf;
    if i >= 12 {
      BigEndianAt(c, 4, i - 12);
    }
  }

  /** Both lengths are counted in bits. */
  lemma LengthsAreBits(a: nat, c: nat)
    requires a < Pow256(7) && c < Pow256(7)
    ensures Value(Lengths(a, c)[..8]) == 8 * a && Value(Lengths(a, c)[8..]) == 8 * c
  {
    hide BigEndian, Value;
    assert Lengths(a, c)[..8] == BigEndian(8 * a, 8) && Lengths(a, c)[8..] == BigEndian(8 * c, 8);
    assert Pow256(8) == 256 * Pow256(7);
    ValueOfBigEndian(8 * a, 8);
    ValueOfBigEndian(8 * c, 8);
  }

  /** A twelve-byte IV is followed by the number one. */
  lemma ShortPreCounter(e: BlockFn, iv: seq<byte>)
    requires |iv| == 12
    ensures PreCounter(e, iv) == iv + [0, 0, 0, 1]
  {
    hide BigEndian;
    OneInFourBytes();
  }

  lemma OneInFourBytes()
    ensures BigEndian(1, 4) == [0, 0, 0, 1]
  {
    hide ByteOf;
    ZeroAndOne();
  }

  lemma ZeroAndOne()
    ensures ByteOf(0) == 0 && ByteOf(1) == 1
  {
  }

  /** Any other IV is hashed with its padding, eight zero bytes and its length in bits. */
  lemma LongPreCounter(e: BlockFn, iv: seq<byte>)
    requires |iv| != 12
    ensures var pad := iv + Zeros(16 * Blocks(|iv|) - |iv|);
            var data := pad + Zeros(8) + BigEndian(8 * |iv|, 8);
            && |data| == 16 * (Blocks(|iv|) + 1)
            && PreCounter(e, iv) == Unpack(Terms(Pack(e(Zeros(16))), data, Blocks(|iv|) + 1))
  {
    hide BigEndian, Hash, Terms, Unpack, Pack;
    ZeroInEightBytes();
    var data := Pad16(iv) + Zeros(8) + BigEndian(8 * |iv|, 8);
    assert Pad16([]) == [];
    assert HashInput(iv, [], Lengths(0, |iv|)) == data;
    HashIsSum(Pack(e(ZeroBlock())), data, Blocks(|iv|) + 1);
  }

  lemma ZeroInEightBytes()
    ensures BigEndian(0, 8) == Zeros(8)
  {
  }

  /**
   The tag: the polynomial over the padded strings and their lengths in bits, at the point E(0), plus the enciphered
   first counter.
   */
  lemma TagIsSum(e: BlockFn, iv: seq<byte>, a: seq<byte>, c: seq<byte>)
    ensures var n := Blocks(|a|) + Blocks(|c|) + 1;
            var data := a + Zeros(16 * Blocks(|a|) - |a|) + (c + Zeros(16 * Blocks(|c|) - |c|))
                        + (BigEndian(8 * |a|, 8) + BigEndian(8 * |c|, 8));
            && |data| == 16 * n
            && Xor(Tag(e, iv, a, c), e(PreCounter(e, iv))) == Unpack(Terms(Pack(e(Zeros(16))), data, n))
  {
    hide BigEndian, Hash, Terms, Unpack, Pack, Xor, PreCounter;
    var n := Blocks(|a|) + Blocks(|c|) + 1;
    var data := Pad16(a) + Pad16(c) + Lengths(|a|, |c|);
    assert data == HashInput(a, c, Lengths(|a|, |c|));
    HashIsSum(Subkey(e), data, n);
    XorCancel(Hash(Subkey(e), ZeroBlock(), data), e(PreCounter(e, iv)));
  }

  /** Byte `j` of the text is under the counter block that lies `j / 16 + 1` after J_0. */
  lemma CryptAt(e: BlockFn, iv: seq<byte>, x: seq<byte>, j: nat)
    requires j < |x|
    ensures var j0 := PreCounter(e, iv);
            Crypt(e, iv, x)[j] == x[j] ^ e(WithCounter(j0, (CounterOf(j0) + 1 + j / 16) % WORD))[j % 16]
  {
    hide WithCounter, CounterOf, PreCounter, Gctr;
    var j0 := PreCounter(e, iv);
    var c := (CounterOf(j0) + 1) % WORD;
    SameFixedPart(j0, c, (c + j / 16) % WORD);
    GctrAt(e, Inc32(j0), x, j / 16, j % 16);
    WrapTwice(CounterOf(j0) + 1, j / 16);
  }
}
