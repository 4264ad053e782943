/** GHASH (section 6.4 of SP 800-38D): composition, linearity, and `ghash_update`. */
module Ghash {
  import opened Bytes
  import opened Gf128
  import opened GhashTables
  import Gf8

  /** One block multiplied by H. */
  function MulH(h: Element, x: Block): Block {
    Unpack(Product(x, h))
  }

  /** The chain Y_i = (Y_(i-1) + X_i) . H over whole blocks. */
  function Hash(h: Element, y: Block, data: seq<byte>): Block
    requires |data| % 16 == 0
    decreases |data|
  {
    if data == [] then y else Hash(h, MulH(h, Xor(y, data[..16])), data[16..])
  }

  /** Two updates that meet at a block boundary are one. */
  lemma {:induction false} HashAppends(h: Element, y: Block, a: seq<byte>, b: seq<byte>)
    requires |a| % 16 == 0 && |b| % 16 == 0
    ensures Hash(h, y, a + b) == Hash(h, Hash(h, y, a), b)
    decreases |a|
  {
    hide MulH, Xor;
    if a == [] {
      assert a + b == b;
    } else {
      assert (a + b)[..16] == a[..16] && (a + b)[16..] == a[16..] + b;
      HashAppends(h, MulH(h, Xor(y, a[..16])), a[16..], b);
    }
  }

  // ---- linearity ----

  lemma BitOfXor(x: Block, y: Block, i: nat)
    requires i < 128
    ensures Bit(Xor(x, y), i) == (Bit(x, i) != Bit(y, i))
  {
    hide TestBit, Add;
    XorOfBit(x[i / 8], y[i / 8], i % 8);
  }

  lemma XorOfBit(a: byte, b: byte, k: nat)
    requires k < 8
    ensures TestBit(Add(a, b), k) == (TestBit(a, k) != TestBit(b, k))
  {
    hide Add, Masked;
    XorUnderMasks(a, b);
  }

  lemma XorUnderMasks(a: byte, b: byte)
    ensures Masked(Add(a, b), 0x80) == (Masked(a, 0x80) != Masked(b, 0x80))
    ensures Masked(Add(a, b), 0x40) == (Masked(a, 0x40) != Masked(b, 0x40))
    ensures Masked(Add(a, b), 0x20) == (Masked(a, 0x20) != Masked(b, 0x20))
    ensures Masked(Add(a, b), 0x10) == (Masked(a, 0x10) != Masked(b, 0x10))
    ensures Masked(Add(a, b), 0x08) == (Masked(a, 0x08) != Masked(b, 0x08))
    ensures Masked(Add(a, b), 0x04) == (Masked(a, 0x04) != Masked(b, 0x04))
    ensures Masked(Add(a, b), 0x02) == (Masked(a, 0x02) != Masked(b, 0x02))
    ensures Masked(Add(a, b), 0x01) == (Masked(a, 0x01) != Masked(b, 0x01))
  {
  }

  /** The product is linear in the block. */
  lemma {:induction false} ProductDistributes(x: Block, y: Block, v: Element, i: nat)
    requires i <= 128
    ensures ProductFrom(Xor(x, y), v, i) == Sum(ProductFrom(x, v, i), ProductFrom(y, v, i))
    decreases 128 - i
  {
    hide Bit, Xor, TimesX, Sum;
    if i == 128 {
      SumWithZero(0);
    } else {
      BitOfXor(x, y, i);
      ProductDistributes(x, y, TimesX(v), i + 1);
      var p, q := ProductFrom(x, TimesX(v), i + 1), ProductFrom(y, TimesX(v), i + 1);
      var a, b := if Bit(x, i) then v else 0, if Bit(y, i) then v else 0;
      SumSwaps(a, b, p, q);
      SumLaws(v, v, v);
      SumWithZero(v);
      SumWithZero(0);
    }
  }

  lemma HalvesOfSum(a: Element, b: Element)
    ensures HighHalf(Sum(a, b)) == Xor64(HighHalf(a), HighHalf(b))
    ensures LowHalf(Sum(a, b)) == Xor64(LowHalf(a), LowHalf(b))
  {
  }

  lemma BytesOfXor(a: bv64, b: bv64)
    ensures Store64(Xor64(a, b)) == Xor(Store64(a), Store64(b))
  {
    hide ByteAt, Add, Xor64, Xor;
    ByteOfXor(a, b);
    XorOfLists(ByteAt(a, 56), ByteAt(a, 48), ByteAt(a, 40), ByteAt(a, 32),
               ByteAt(a, 24), ByteAt(a, 16), ByteAt(a, 8), ByteAt(a, 0),
               ByteAt(b, 56), ByteAt(b, 48), ByteAt(b, 40), ByteAt(b, 32),
               ByteAt(b, 24), ByteAt(b, 16), ByteAt(b, 8), ByteAt(b, 0));
  }

  lemma XorOfLists(a0: byte, a1: byte, a2: byte, a3: byte, a4: byte, a5: byte, a6: byte, a7: byte,
                   b0: byte, b1: byte, b2: byte, b3: byte, b4: byte, b5: byte, b6: byte, b7: byte)
    ensures Xor([a0, a1, a2, a3, a4, a5, a6, a7], [b0, b1, b2, b3, b4, b5, b6, b7])
         == [Add(a0, b0), Add(a1, b1), Add(a2, b2), Add(a3, b3), Add(a4, b4), Add(a5, b5), Add(a6, b6), Add(a7, b7)]
  {
    hide Add;
  }

  lemma ByteOfXor(a: bv64, b: bv64)
    ensures ByteAt(Xor64(a, b), 56) == Add(ByteAt(a, 56), ByteAt(b, 56))
    ensures ByteAt(Xor64(a, b), 48) == Add(ByteAt(a, 48), ByteAt(b, 48))
    ensures ByteAt(Xor64(a, b), 40) == Add(ByteAt(a, 40), ByteAt(b, 40))
    ensures ByteAt(Xor64(a, b), 32) == Add(ByteAt(a, 32), ByteAt(b, 32))
    ensures ByteAt(Xor64(a, b), 24) == Add(ByteAt(a, 24), ByteAt(b, 24))
    ensures ByteAt(Xor64(a, b), 16) == Add(ByteAt(a, 16), ByteAt(b, 16))
    ensures ByteAt(Xor64(a, b), 8) == Add(ByteAt(a, 8), ByteAt(b, 8))
    ensures ByteAt(Xor64(a, b), 0) == Add(ByteAt(a, 0), ByteAt(b, 0))
  {
    hide ByteAt;
    RawByteOfXor(a, b);
  }

  lemma RawByteOfXor(a: bv64, b: bv64)
    ensures ByteAt(a ^ b, 56) == ByteAt(a, 56) ^ ByteAt(b, 56)
    ensures ByteAt(a ^ b, 48) == ByteAt(a, 48) ^ ByteAt(b, 48)
    ensures ByteAt(a ^ b, 40) == ByteAt(a, 40) ^ ByteAt(b, 40)
    ensures ByteAt(a ^ b, 32) == ByteAt(a, 32) ^ ByteAt(b, 32)
    ensures ByteAt(a ^ b, 24) == ByteAt(a, 24) ^ ByteAt(b, 24)
    ensures ByteAt(a ^ b, 16) == ByteAt(a, 16) ^ ByteAt(b, 16)
    ensures ByteAt(a ^ b, 8) == ByteAt(a, 8) ^ ByteAt(b, 8)
    ensures ByteAt(a ^ b, 0) == ByteAt(a, 0) ^ ByteAt(b, 0)
  {
  }

  lemma XorOfParts(a: seq<byte>, b: seq<byte>, a': seq<byte>, b': seq<byte>)
    requires |a| == |a'| && |b| == |b'|
    ensures Xor(a + b, a' + b') == Xor(a, a') + Xor(b, b')
  {
    hide Add;
  }

  lemma UnpackDistributes(a: Element, b: Element)
    ensures Unpack(Sum(a, b)) == Xor(Unpack(a), Unpack(b))
  {
    hide Sum, Xor, Store64, HighHalf, LowHalf, Xor64;
    HalvesOfSum(a, b);
    BytesOfXor(HighHalf(a), HighHalf(b));
    BytesOfXor(LowHalf(a), LowHalf(b));
    XorOfParts(Store64(HighHalf(a)), Store64(LowHalf(a)), Store64(HighHalf(b)), Store64(LowHalf(b)));
  }

  /** Multiplication by H is linear on blocks. */
  lemma MulHDistributes(h: Element, x: Block, y: Block)
    ensures MulH(h, Xor(x, y)) == Xor(MulH(h, x), MulH(h, y))
  {
    hide Sum, Xor, ProductFrom, Unpack;
    ProductDistributes(x, y, h, 0);
    UnpackDistributes(Product(x, h), Product(y, h));
  }

  lemma XorSwaps(a: seq<byte>, b: seq<byte>, c: seq<byte>, d: seq<byte>)
    requires |a| == |b| == |c| == |d|
    ensures Xor(Xor(a, b), Xor(c, d)) == Xor(Xor(a, c), Xor(b, d))
  {
    hide Add;
    forall i | 0 <= i < |a|
      ensures Add(Add(a[i], b[i]), Add(c[i], d[i])) == Add(Add(a[i], c[i]), Add(b[i], d[i]))
    {
      Gf8.AddSwaps(a[i], b[i], c[i], d[i]);
    }
  }

  /** GHASH is linear: the hash of a XOR is the XOR of the hashes. */
  lemma {:induction false} HashDistributes(h: Element, y: Block, z: Block, a: seq<byte>, b: seq<byte>)
    requires |a| == |b| && |a| % 16 == 0
    ensures Hash(h, Xor(y, z), Xor(a, b)) == Xor(Hash(h, y, a), Hash(h, z, b))
    decreases |a|
  {
    hide MulH, Xor;
    if a != [] {
      var p, q: Block := Xor(y, a[..16]), Xor(z, b[..16]);
      XorOfParts(a[..16], a[16..], b[..16], b[16..]);
      assert a == a[..16] + a[16..] && b == b[..16] + b[16..];
      XorSwaps(y, z, a[..16], b[..16]);
      MulHDistributes(h, p, q);
      HashDistributes(h, MulH(h, p), MulH(h, q), a[16..], b[16..]);
    }
  }

  lemma PadOfXor(a: seq<byte>, b: seq<byte>)
    requires |a| == |b|
    ensures Pad16(Xor(a, b)) == Xor(Pad16(a), Pad16(b))
  {
    var n := Round16(|a|) - |a|;
    XorOfParts(a, Zeros(n), b, Zeros(n));
    XorOfZeros(n);
  }

  lemma XorOfZeros(n: nat)
    ensures Xor(Zeros(n), Zeros(n)) == Zeros(n)
  {
  }

  /** Linearity for messages of any length, through the zero padding. */
  lemma PaddedHashDistributes(h: Element, a: seq<byte>, b: seq<byte>)
    requires |a| == |b|
    ensures Hash(h, ZeroBlock(), Pad16(Xor(a, b)))
         == Xor(Hash(h, ZeroBlock(), Pad16(a)), Hash(h, ZeroBlock(), Pad16(b)))
  {
    hide MulH, Hash, Pad16, Xor;
    PadOfXor(a, b);
    XorOfZeros(16);
    assert ZeroBlock() == Zeros(16);
    HashDistributes(h, ZeroBlock(), ZeroBlock(), Pad16(a), Pad16(b));
  }

  // ---- the code ----

  /** `Y[j] ^= block[j]` for a whole block, then one multiplication. */
  method Absorb(hl: array<bv64>, hh: array<bv64>, ghost h: Element, y: array<byte>, block: Block)
    requires Tables(hl, hh, h) && y.Length == 16
    modifies y
    ensures y[..] == MulH(h, Xor(old(y[..]), block))
  {
    hide Product, Unpack, Add, Tables;
    var j := 0;
    while j < 16
      invariant 0 <= j <= 16
      invariant forall k :: 0 <= k < j ==> y[k] == Add(old(y[k]), block[k])
      invariant forall k :: j <= k < 16 ==> y[k] == old(y[k])
    {
      y[j] := Add(y[j], block[j]);
      j := j + 1;
    }
    assert y[..] == Xor(old(y[..]), block);
    var out := Mult(hl, hh, h, y[..]);
    Fill(y, out);
  }

  /** `ghash_update`: whole blocks, then a zero-padded rest. */
  method Update(hl: array<bv64>, hh: array<bv64>, ghost h: Element, y: array<byte>, data: seq<byte>)
    requires Tables(hl, hh, h) && y.Length == 16
    modifies y
    ensures y[..] == Hash(h, old(y[..]), Pad16(data))
  {
    hide MulH, Xor, Tables, Pad16, Hash;
    var off := 0;
    ghost var rest := data;
    ghost var goal := Hash(h, y[..], Pad16(data));
    while off + 16 <= |data|
      invariant 0 <= off <= |data| && rest == data[off..]
      invariant Hash(h, y[..], Pad16(rest)) == goal
    {
      var block := data[off..off + 16];
      assert rest == block + rest[16..];
      PaddedStep(h, y[..], block, rest[16..]);
      Absorb(hl, hh, h, y, block);
      rest := rest[16..];
      off := off + 16;
    }
    if off < |data| {
      var tail := data[off..];
      PaddedRest(h, y[..], tail);
      Absorb(hl, hh, h, y, tail + Zeros(16 - |tail|));
    } else {
      PaddedNothing(h, y[..]);
    }
  }

  lemma PaddedStep(h: Element, y: Block, block: Block, rest: seq<byte>)
    ensures Hash(h, y, Pad16(block + rest)) == Hash(h, MulH(h, Xor(y, block)), Pad16(rest))
  {
    hide MulH, Xor;
    assert Pad16(block + rest) == block + Pad16(rest);
    assert Pad16(block + rest)[..16] == block;
    assert Pad16(block + rest)[16..] == Pad16(rest);
  }

  lemma PaddedRest(h: Element, y: Block, data: seq<byte>)
    requires 0 < |data| < 16
    ensures Hash(h, y, Pad16(data)) == MulH(h, Xor(y, data + Zeros(16 - |data|)))
  {
    hide MulH, Xor;
    var p := Pad16(data);
    assert p == data + Zeros(16 - |data|);
    assert p[..16] == p && p[16..] == [];
  }

  lemma PaddedNothing(h: Element, y: Block)
    ensures Hash(h, y, Pad16([])) == y
  {
  }
}
