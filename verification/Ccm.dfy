/** CCM as RFC 3610 defines it (sections 2.2 to 2.6), over an abstract block function. */
module Ccm {
  import opened Bytes
  import opened BlockModes
  import opened CcmFormat
  import Gf8

  /** A_i of section 2.3: the counter block number `i`. */
  function CounterBlock(nonce: seq<byte>, i: nat): Block
    requires 7 <= |nonce| <= 13
  {
    [ByteOf(Q(nonce) - 1)] + nonce + BigEndian(i, Q(nonce))
  }

  /** Counter blocks `from` to `from + n - 1`. */
  function CounterBlocks(nonce: seq<byte>, from: nat, n: nat): (b: seq<byte>)
    requires 7 <= |nonce| <= 13
    ensures |b| == 16 * n
    decreases n
  {
    if n == 0 then [] else CounterBlock(nonce, from) + CounterBlocks(nonce, from + 1, n - 1)
  }

  /** CBC-MAC: the chain Y_(i+1) = E(Y_i + X_i) over `n` blocks. */
  function CbcMac(e: BlockFn, y: Block, x: seq<byte>, n: nat): Block
    requires |x| == 16 * n
    decreases n
  {
    if n == 0 then y else CbcMac(e, e(Xor(y, x[..16])), x[16..], n - 1)
  }

  /** The text under the key stream S_1, S_2, ... */
  function Crypt(e: BlockFn, nonce: seq<byte>, x: seq<byte>): (y: seq<byte>)
    requires 7 <= |nonce| <= 13
    ensures |y| == |x|
  {
    var n := Blocks(|x|);
    Xor(x, Ecb(e, CounterBlocks(nonce, 1, n), n)[..|x|])
  }

  /** The CBC-MAC over the formatted message, before it is cut and masked. */
  function Mac(e: BlockFn, m: Message): Block
    requires Accepted(m)
  {
    MacInputBlocks(m);
    CbcMac(e, ZeroBlock(), MacInput(m), |MacInput(m)| / 16)
  }

  /** T of section 2.2 under S_0, cut to the tag length. */
  function Tag(e: BlockFn, m: Message): (t: seq<byte>)
    requires Accepted(m)
    ensures |t| == m.tagLen
  {
    Xor(Mac(e, m), e(CounterBlock(m.nonce, 0)))[..m.tagLen]
  }

  lemma MacInputBlocks(m: Message)
    requires Accepted(m)
    ensures |MacInput(m)| == 16 * (|MacInput(m)| / 16)
    ensures |MacInput(m)| == 16 + (if m.ad == [] then 0 else Round16(2 + |m.ad|)) + Round16(|m.text|)
  {
    hide Flags, BigEndian;
  }

  /** Encryption and decryption of the text are the same operation. */
  lemma CryptInverts(e: BlockFn, nonce: seq<byte>, x: seq<byte>)
    requires 7 <= |nonce| <= 13
    ensures Crypt(e, nonce, Crypt(e, nonce, x)) == x
  {
    hide Xor, CounterBlocks, Ecb;
    var n := Blocks(|x|);
    XorCancel(x, Ecb(e, CounterBlocks(nonce, 1, n), n)[..|x|]);
  }

  /** The last block of CBC encryption is the CBC-MAC. */
  lemma {:induction false} CbcMacIsLastBlock(e: BlockFn, y: Block, x: seq<byte>, n: nat)
    requires |x| == 16 * n
    ensures CbcMac(e, y, x, n) == LastBlock(y, CbcEncrypt(e, y, x))
    decreases n
  {
    hide Xor, LastBlock;
    if n == 0 {
      LastOfNothing(y);
    } else {
      XorCommutes(y, x[..16]);
      var c := e(Xor(x[..16], y));
      CbcMacIsLastBlock(e, c, x[16..], n - 1);
      LastBlockSkips(y, c, CbcEncrypt(e, c, x[16..]));
    }
  }

  lemma XorCommutes(a: seq<byte>, b: seq<byte>)
    requires |a| == |b|
    ensures Xor(a, b) == Xor(b, a)
  {
    hide Add;
    forall i | 0 <= i < |a|
      ensures Add(a[i], b[i]) == Add(b[i], a[i])
    {
      Gf8.AddCommutes(a[i], b[i]);
    }
  }

  // ---- B_0 and the counter blocks never coincide ----

  /** Counter blocks 0 to n of one message are pairwise distinct. */
  lemma CountersDistinct(nonce: seq<byte>, n: nat, i: nat, j: nat)
    requires 7 <= |nonce| <= 13 && n <= Blocks(SCRATCH_SIZE) && i < j <= n
    ensures CounterBlock(nonce, i) != CounterBlock(nonce, j)
  {
    hide BigEndian;
    var q := Q(nonce);
    PowersGrow(2, q);
    PowersOfTwoBytes();
    if CounterBlock(nonce, i) == CounterBlock(nonce, j) {
      var k := 1 + |nonce|;
      assert CounterBlock(nonce, i)[k..] == BigEndian(i, q) && CounterBlock(nonce, j)[k..] == BigEndian(j, q);
      BigEndianInjective(i, j, q);
    }
  }

  /** B_0 differs from every counter block of every nonce: its tag-length bits are never zero. */
  lemma FirstBlockIsNoCounter(m: Message, nonce: seq<byte>, i: nat)
    requires Accepted(m) && 7 <= |nonce| <= 13
    ensures B0(m) != CounterBlock(nonce, i)
  {
    hide FlagBits, BigEndian;
    var t, l := (m.tagLen - 2) / 2, Q(m.nonce) - 1;
    SmallBytes(t, 0);
    SmallBytes(l, 0);
    FlagBitsDecode(m.ad != [], ByteOf(t), ByteOf(l));
    var c := Q(nonce) - 1;
    SmallBytes(c, 0);
    SmallIsLow(ByteOf(c));
    assert B0(m)[0] == Flags(m) && CounterBlock(nonce, i)[0] == ByteOf(c);
  }

  lemma SmallIsLow(c: byte)
    requires c < 8
    ensures (c >> 3) & 7 == 0
  {
  }

  // ---- text, tag and blocks, byte by byte ----

  lemma {:induction false} CounterBlocksAt(nonce: seq<byte>, from: nat, n: nat, i: nat)
    requires 7 <= |nonce| <= 13 && i < n
    ensures CounterBlocks(nonce, from, n)[16 * i..16 * i + 16] == CounterBlock(nonce, from + i)
    decreases n
  {
    hide CounterBlock;
    if i > 0 {
      CounterBlocksAt(nonce, from + 1, n - 1, i - 1);
      NextSlice(CounterBlock(nonce, from), CounterBlocks(nonce, from + 1, n - 1), i - 1);
    }
  }

  /** Byte `j` of the text is under block number `j / 16 + 1` of the key stream. */
  lemma CryptAt(e: BlockFn, nonce: seq<byte>, x: seq<byte>, j: nat)
    requires 7 <= |nonce| <= 13 && j < |x|
    ensures Crypt(e, nonce, x)[j] == x[j] ^ e(CounterBlock(nonce, j / 16 + 1))[j % 16]
  {
    hide Xor, Ecb, CounterBlocks, CounterBlock;
    var n, i := Blocks(|x|), j / 16;
    var ctr := CounterBlocks(nonce, 1, n);
    var ks := Ecb(e, ctr, n);
    XorAt(x, ks[..|x|], j);
    assert i < n;
    EcbAt(e, ctr, n, i);
    CounterBlocksAt(nonce, 1, n, i);
    assert ks[j] == ks[16 * i..16 * i + 16][j % 16];
  }

  /** A counter block: the length of the counter less one, the nonce, and the counter, most significant byte first. */
  lemma CounterBlockBytes(nonce: seq<byte>, c: nat, i: nat)
    requires 7 <= |nonce| <= 13 && i < 16
    ensures var b := CounterBlock(nonce, c);
            NumberOf(b[i]) == if i == 0 then 14 - |nonce|
                              else if i <= |nonce| then NumberOf(nonce[i - 1])
                              else c / Pow256(15 - i) % 256
  {
    hide BigEndian, NumberOf, ByteOf;
    ByteOfNumber(14 - |nonce|);
    if i > |nonce| {
      BigEndianAt(c, Q(nonce), i - 1 - |nonce|);
    }
  }

  lemma FlagNumber(adata: bool, t: byte, l: byte)
    requires t < 8 && l < 8
    ensures FlagBits(adata, t, l) == (if adata then 64 else 0) + 8 * t + l
  {
  }

  /** The first byte of B_0 as a number. */
  lemma FlagsAre(m: Message)
    requires Accepted(m)
    ensures NumberOf(B0(m)[0]) == (if m.ad == [] then 0 else 64) + 8 * ((m.tagLen - 2) / 2) + (14 - |m.nonce|)
  {
    hide FlagBits, BigEndian, NumberOf, ByteOf;
    var t, l := (m.tagLen - 2) / 2, 14 - |m.nonce|;
    SmallBytes(t, l);
    FlagNumber(m.ad != [], ByteOf(t), ByteOf(l));
    SumOfBytes(m.ad != [], t, l);
    assert B0(m)[0] == FlagBits(m.ad != [], ByteOf(t), ByteOf(l));
  }

  lemma SumOfBytes(adata: bool, t: nat, l: nat)
    requires t < 8 && l < 8 && ByteOf(t) < 8 && ByteOf(l) < 8
    ensures NumberOf((if adata then 64 else 0) + 8 * ByteOf(t) + ByteOf(l)) == (if adata then 64 else 0) + 8 * t + l
  {
  }

  /** The other bytes of B_0: the nonce and the text length, most significant byte first. */
  lemma FirstBlockBytes(m: Message, i: nat)
    requires Accepted(m) && 0 < i < 16
    ensures NumberOf(B0(m)[i]) == if i <= |m.nonce| then NumberOf(m.nonce[i - 1]) else |m.text| / Pow256(15 - i) % 256
  {
    hide BigEndian, NumberOf, FlagBits;
    if i > |m.nonce| {
      BigEndianAt(|m.text|, Q(m.nonce), i - 1 - |m.nonce|);
    }
  }

  /** What is authenticated: B_0, the associated data behind their length in two bytes, and the text, both padded. */
  lemma MacInputIs(m: Message)
    requires Accepted(m)
    ensures var ad := if m.ad == [] then [] else BigEndian(|m.ad|, 2) + m.ad;
            MacInput(m) == B0(m) + (ad + Zeros(16 * Blocks(|ad|) - |ad|))
                           + (m.text + Zeros(16 * Blocks(|m.text|) - |m.text|))
  {
    hide B0, BigEndian;
  }

  /** The tag under the enciphered counter block 0 is the last block of the CBC encryption of that input. */
  lemma TagIsMaskedMac(e: BlockFn, m: Message)
    requires Accepted(m)
    ensures |MacInput(m)| % 16 == 0
    ensures Xor(Tag(e, m), e(CounterBlock(m.nonce, 0))[..m.tagLen])
         == LastBlock(Zeros(16), CbcEncrypt(e, Zeros(16), MacInput(m)))[..m.tagLen]
  {
    hide Xor, CounterBlock, MacInput, CbcMac, CbcEncrypt, LastBlock;
    MacInputBlocks(m);
    var n := |MacInput(m)| / 16;
    CbcMacIsLastBlock(e, ZeroBlock(), MacInput(m), n);
    var mac, s0 := CbcMac(e, ZeroBlock(), MacInput(m), n), e(CounterBlock(m.nonce, 0));
    XorFront(mac, s0, m.tagLen);
    XorCancel(mac[..m.tagLen], s0[..m.tagLen]);
  }

  lemma XorFront(a: Block, b: Block, k: nat)
    requires k <= 16
    ensures Xor(a, b)[..k] == Xor(a[..k], b[..k])
  {
  }
}
