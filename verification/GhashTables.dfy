/** `gcm_gen_table` and `gcm_mult`: the 4-bit tables on 64-bit halves, proved equal to the bit-serial product. */
module GhashTables {
  import opened Bytes
  import opened Gf128

  function Join(hi: bv64, lo: bv64): Element {
    ((hi as bv128) << 64) | (lo as bv128)
  }

  /** `gcm_last4[r]`: what the four bits that fall off the low end contribute to the top 16 bits. */
  function Last4(r: bv64): bv64 {
    match r
    case 0 => 0x0000 case 1 => 0x1c20 case 2 => 0x3840 case 3 => 0x2460
    case 4 => 0x7080 case 5 => 0x6ca0 case 6 => 0x48c0 case 7 => 0x54e0
    case 8 => 0xe100 case 9 => 0xfd20 case 10 => 0xd940 case 11 => 0xc560
    case 12 => 0x9180 case 13 => 0x8da0 case 14 => 0xa9c0 case _ => 0xb5e0
  }

  /** The shift by one position on two halves, as the table generator does it. */
  lemma TimesXOnHalves(hi: bv64, lo: bv64)
    ensures TimesX(Join(hi, lo)) == Join(HighOfX(hi, lo), LowOfX(hi, lo))
  {
    hide TimesX, Join;
    TimesXInWords(hi, lo);
  }

  lemma TimesXInWords(hi: bv64, lo: bv64)
    ensures TimesX(Join(hi, lo)) == Join((hi >> 1) ^ (((lo & 1) * 0xe1000000) << 32), (hi << 63) | (lo >> 1))
  {
  }

  function Digit(v: Element): Element {
    v & 15
  }

  function Rest(v: Element): Element {
    v ^ (v & 15)
  }

  function Down4(v: Element): Element {
    v >> 4
  }

  function Spread(f: bv64): Element {
    (f as bv128) << 112
  }

  function Fold(v: Element): Element {
    Spread(Last4((v & 15) as bv64))
  }

  lemma NothingToFold(v: Element)
    ensures TimesX4(Rest(v)) == Down4(v)
  {
  }

  /** The table is right for each of the sixteen digits. */
  lemma FoldOfDigit(v: Element)
    ensures TimesX4(Digit(v)) == Fold(v)
  {
  }

  lemma RestAndDigit(v: Element)
    ensures Sum(Rest(v), Digit(v)) == v
  {
  }

  lemma TimesX4Distributes(a: Element, b: Element)
    ensures TimesX4(Sum(a, b)) == Sum(TimesX4(a), TimesX4(b))
  {
    hide TimesX, Sum;
    TimesXDistributes(a, b);
    TimesXDistributes(TimesX(a), TimesX(b));
    TimesXDistributes(TimesX(TimesX(a)), TimesX(TimesX(b)));
    TimesXDistributes(TimesX(TimesX(TimesX(a))), TimesX(TimesX(TimesX(b))));
  }

  /** The four bits that a shift by four loses, folded back through the table. */
  lemma TimesX4Folds(v: Element)
    ensures TimesX4(v) == Sum(Down4(v), Fold(v))
  {
    hide TimesX4, Sum, Rest, Digit, Down4, Fold;
    RestAndDigit(v);
    NothingToFold(v);
    FoldOfDigit(v);
    TimesX4Distributes(Rest(v), Digit(v));
  }

  lemma FoldOnHalves(hi: bv64, lo: bv64)
    ensures Sum(Down4(Join(hi, lo)), Fold(Join(hi, lo))) == Join(HighOfX4(hi, lo), LowOfX4(hi, lo))
  {
    hide Last4, Sum, Down4, Spread, Join;
    DigitOnHalves(hi, lo);
    FoldedHalves(hi, lo, Last4(lo & 15));
  }

  lemma DigitOnHalves(hi: bv64, lo: bv64)
    ensures (Join(hi, lo) & 15) as bv64 == lo & 15
  {
  }

  lemma FoldedHalves(hi: bv64, lo: bv64, f: bv64)
    ensures Sum(Down4(Join(hi, lo)), Spread(f)) == Join((hi >> 4) ^ (f << 48), (hi << 60) | (lo >> 4))
  {
  }

  /** The shift by four positions on two halves, with the table folding the lost bits back in. */
  lemma TimesX4OnHalves(hi: bv64, lo: bv64)
    ensures TimesX4(Join(hi, lo)) == Join(HighOfX4(hi, lo), LowOfX4(hi, lo))
  {
    hide TimesX4, Join, Last4, Fold, Down4, Sum;
    TimesX4Folds(Join(hi, lo));
    FoldOnHalves(hi, lo);
  }

  lemma SumOnHalves(hi: bv64, lo: bv64, hi': bv64, lo': bv64)
    ensures Sum(Join(hi, lo), Join(hi', lo')) == Join(Xor64(hi, hi'), Xor64(lo, lo'))
  {
  }

  // ---- blocks as field elements ----

  /** `load64_be`. */
  function Load64(b0: byte, b1: byte, b2: byte, b3: byte, b4: byte, b5: byte, b6: byte, b7: byte): bv64 {
    ((b0 as bv64) << 56) | ((b1 as bv64) << 48) | ((b2 as bv64) << 40) | ((b3 as bv64) << 32)
    | ((b4 as bv64) << 24) | ((b5 as bv64) << 16) | ((b6 as bv64) << 8) | (b7 as bv64)
  }

  function ByteAt(v: bv64, shift: nat): byte
    requires shift <= 56
  {
    ((v >> shift) & 0xff) as byte
  }

  /** `store64_be`. */
  function Store64(v: bv64): (b: seq<byte>)
    ensures |b| == 8
  {
    [ByteAt(v, 56), ByteAt(v, 48), ByteAt(v, 40), ByteAt(v, 32),
     ByteAt(v, 24), ByteAt(v, 16), ByteAt(v, 8), ByteAt(v, 0)]
  }

  function Store(hi: bv64, lo: bv64): Block {
    Store64(hi) + Store64(lo)
  }

  function LoadHigh(x: Block): bv64 {
    Load64(x[0], x[1], x[2], x[3], x[4], x[5], x[6], x[7])
  }

  function LoadLow(x: Block): bv64 {
    Load64(x[8], x[9], x[10], x[11], x[12], x[13], x[14], x[15])
  }

  /** The field element of a block. */
  function Pack(x: Block): Element {
    Join(LoadHigh(x), LoadLow(x))
  }

  function HighHalf(v: Element): bv64 {
    (v >> 64) as bv64
  }

  function LowHalf(v: Element): bv64 {
    (v & 0xffffffff_ffffffff) as bv64
  }

  function Unpack(v: Element): Block {
    Store(HighHalf(v), LowHalf(v))
  }

  lemma HalvesOfJoin(hi: bv64, lo: bv64)
    ensures HighHalf(Join(hi, lo)) == hi && LowHalf(Join(hi, lo)) == lo
  {
  }

  lemma JoinOfHalves(v: Element)
    ensures Join(HighHalf(v), LowHalf(v)) == v
  {
  }

  lemma Load64Inverts(v: bv64)
    ensures Load64(ByteAt(v, 56), ByteAt(v, 48), ByteAt(v, 40), ByteAt(v, 32),
                   ByteAt(v, 24), ByteAt(v, 16), ByteAt(v, 8), ByteAt(v, 0)) == v
  {
  }

  lemma PackUnpack(v: Element)
    ensures Pack(Unpack(v)) == v
  {
    hide Load64, ByteAt, Join, HighHalf, LowHalf;
    Load64Inverts(HighHalf(v));
    Load64Inverts(LowHalf(v));
    JoinOfHalves(v);
  }

  lemma ByteAtInverts(b0: byte, b1: byte, b2: byte, b3: byte, b4: byte, b5: byte, b6: byte, b7: byte)
    ensures var v := Load64(b0, b1, b2, b3, b4, b5, b6, b7);
            && ByteAt(v, 56) == b0 && ByteAt(v, 48) == b1 && ByteAt(v, 40) == b2 && ByteAt(v, 32) == b3
            && ByteAt(v, 24) == b4 && ByteAt(v, 16) == b5 && ByteAt(v, 8) == b6 && ByteAt(v, 0) == b7
  {
  }

  lemma StoreOfLoad(x: seq<byte>)
    requires |x| == 8
    ensures Store64(Load64(x[0], x[1], x[2], x[3], x[4], x[5], x[6], x[7])) == x
  {
    hide Load64, ByteAt;
    ByteAtInverts(x[0], x[1], x[2], x[3], x[4], x[5], x[6], x[7]);
  }

  lemma UnpackPack(x: Block)
    ensures Unpack(Pack(x)) == x
  {
    hide Load64, Store64, Join, HighHalf, LowHalf;
    HalvesOfJoin(LoadHigh(x), LoadLow(x));
    StoreOfLoad(x[..8]);
    StoreOfLoad(x[8..]);
    assert x == x[..8] + x[8..];
  }

  // ---- the tables ----

  function HighOfX(hi: bv64, lo: bv64): bv64 {
    (hi >> 1) ^ (((lo & 1) * 0xe1000000) << 32)
  }

  function LowOfX(hi: bv64, lo: bv64): bv64 {
    (hi << 63) | (lo >> 1)
  }

  function HighOfX4(hi: bv64, lo: bv64): bv64 {
    (hi >> 4) ^ (Last4(lo & 15) << 48)
  }

  function LowOfX4(hi: bv64, lo: bv64): bv64 {
    (hi << 60) | (lo >> 4)
  }

  function Xor64(a: bv64, b: bv64): bv64 {
    a ^ b
  }

  /** Entry `n` of the two arrays is `n` times H. */
  ghost predicate Entry(hl: array<bv64>, hh: array<bv64>, h: Element, n: nat)
    requires n < 16 && hl.Length == 16 && hh.Length == 16
    reads hl, hh
  {
    Join(hh[n], hl[n]) == Multiple(h, n)
  }

  ghost predicate Tables(hl: array<bv64>, hh: array<bv64>, h: Element)
    reads hl, hh
  {
    hl.Length == 16 && hh.Length == 16 && forall n :: 0 <= n < 16 ==> Join(hh[n], hl[n]) == Multiple(h, n)
  }

  /** The entries at the four powers of two come from one another by multiplication by x. */
  lemma PowerEntries(h: Element)
    ensures Multiple(h, 0) == 0 && Multiple(h, 8) == h
    ensures TimesX(Multiple(h, 8)) == Multiple(h, 4)
    ensures TimesX(Multiple(h, 4)) == Multiple(h, 2)
    ensures TimesX(Multiple(h, 2)) == Multiple(h, 1)
  {
    hide TimesX, Sum;
    SumWithZero(h);
    SumWithZero(TimesX(h));
    SumWithZero(TimesX(TimesX(h)));
  }

  /** All other entries are sums of a power entry and a smaller one. */
  lemma SumEntries(h: Element, i: nat, j: nat)
    requires (i == 2 || i == 4 || i == 8) && 0 < j < i
    ensures Multiple(h, i + j) == Sum(Multiple(h, i), Multiple(h, j))
  {
    hide TimesX, Sum;
    SumWithZero(h);
    SumWithZero(TimesX(h));
    SumWithZero(TimesX(TimesX(h)));
    if i == 8 {
      assert Multiple(h, 8) == h;
    } else if i == 4 {
      assert Multiple(h, 4) == TimesX(h);
    } else {
      assert Multiple(h, 2) == TimesX(TimesX(h));
    }
  }

  /** The first loop of `gcm_gen_table`: entries 0, 8, 4, 2 and 1. */
  method GenPowers(x: Block, hl: array<bv64>, hh: array<bv64>)
    requires hl.Length == 16 && hh.Length == 16 && hl != hh
    modifies hl, hh
    ensures Entry(hl, hh, Pack(x), 0) && Entry(hl, hh, Pack(x), 1) && Entry(hl, hh, Pack(x), 2)
    ensures Entry(hl, hh, Pack(x), 4) && Entry(hl, hh, Pack(x), 8)
  {
    hide Load64, Join, TimesX, Multiple, HighOfX, LowOfX;
    ghost var h := Pack(x);
    var vh, vl := LoadHigh(x), LoadLow(x);
    PowerEntries(h);
    JoinOfZero();
    hl[0], hh[0] := 0, 0;
    hl[8], hh[8] := vl, vh;
    var i := 4;
    while i > 0
      invariant i == 4 || i == 2 || i == 1 || i == 0
      invariant Join(vh, vl) == Multiple(h, if i == 0 then 1 else 2 * i)
      invariant Entry(hl, hh, h, 0) && Entry(hl, hh, h, 8)
      invariant i < 4 ==> Entry(hl, hh, h, 4)
      invariant i < 2 ==> Entry(hl, hh, h, 2)
      invariant i < 1 ==> Entry(hl, hh, h, 1)
    {
      TimesXOnHalves(vh, vl);
      vh, vl := HighOfX(vh, vl), LowOfX(vh, vl);
      hl[i] := vl;
      hh[i] := vh;
      i := i / 2;
    }
  }

  lemma JoinOfZero()
    ensures Join(0, 0) == 0
  {
  }

  /** Sets entry `i + j` to the sum of entries `i` and `j`. */
  method SetSum(hl: array<bv64>, hh: array<bv64>, ghost h: Element, i: nat, j: nat)
    requires hl.Length == 16 && hh.Length == 16 && hl != hh
    requires (i == 2 || i == 4 || i == 8) && 0 < j < i && Entry(hl, hh, h, i) && Entry(hl, hh, h, j)
    modifies hl, hh
    ensures Entry(hl, hh, h, i + j)
    ensures forall n :: 0 <= n < 16 && n != i + j ==> hl[n] == old(hl[n]) && hh[n] == old(hh[n])
  {
    hide Join, Multiple, Xor64, Sum;
    SumEntries(h, i, j);
    SumOnHalves(hh[i], hl[i], hh[j], hl[j]);
    hl[i + j] := Xor64(hl[i], hl[j]);
    hh[i + j] := Xor64(hh[i], hh[j]);
  }

  /** `gcm_gen_table`. */
  method GenTable(x: Block, hl: array<bv64>, hh: array<bv64>)
    requires hl.Length == 16 && hh.Length == 16 && hl != hh
    modifies hl, hh
    ensures Tables(hl, hh, Pack(x))
  {
    hide Pack, Join, Multiple, Xor64;
    ghost var h := Pack(x);
    GenPowers(x, hl, hh);
    var i := 2;
    while i <= 8
      invariant i == 2 || i == 4 || i == 8 || i == 16
      invariant forall n :: 0 <= n < i ==> Join(hh[n], hl[n]) == Multiple(h, n)
      invariant i <= 8 ==> Entry(hl, hh, h, 8)
      invariant i <= 4 ==> Entry(hl, hh, h, 4)
      invariant i <= 2 ==> Entry(hl, hh, h, 2)
      decreases 16 - i
    {
      var j := 1;
      while j < i
        invariant 1 <= j <= i
        invariant forall n :: 0 <= n < i + j ==> Join(hh[n], hl[n]) == Multiple(h, n)
        invariant i <= 4 ==> Entry(hl, hh, h, 8)
        invariant i <= 2 ==> Entry(hl, hh, h, 4)
      {
        SetSum(hl, hh, h, i, j);
        j := j + 1;
      }
      i := 2 * i;
    }
  }

  /** One digit of `gcm_mult`: shift the running value by four positions and add a table entry. */
  method AddDigit(hl: array<bv64>, hh: array<bv64>, ghost h: Element, zh: bv64, zl: bv64, n: nat)
    returns (zh': bv64, zl': bv64)
    requires Tables(hl, hh, h) && n < 16
    ensures Join(zh', zl') == Sum(Multiple(h, n), TimesX4(Join(zh, zl)))
  {
    hide Join, Multiple, Xor64, Sum, TimesX4, HighOfX4, LowOfX4;
    TimesX4OnHalves(zh, zl);
    var sh, sl := HighOfX4(zh, zl), LowOfX4(zh, zl);
    SumOnHalves(sh, sl, hh[n], hl[n]);
    SumLaws(Join(sh, sl), Multiple(h, n), 0);
    zh', zl' := Xor64(sh, hh[n]), Xor64(sl, hl[n]);
  }

  /** The product from digit `k` + 1 on becomes the product from digit `k` on. */
  method AddDigitOf(hl: array<bv64>, hh: array<bv64>, ghost h: Element, x: Block, k: nat, zh: bv64, zl: bv64)
    returns (zh': bv64, zl': bv64)
    requires Tables(hl, hh, h) && k < 32 && Join(zh, zl) == ProductFrom(x, h, 4 * k + 4)
    ensures Join(zh', zl') == ProductFrom(x, h, 4 * k)
  {
    hide Join, Multiple, Sum, TimesX4, Nibble, ProductFrom, Tables;
    HornerNibble(x, h, k);
    zh', zl' := AddDigit(hl, hh, h, zh, zl, Nibble(x, k));
  }

  /** `gcm_mult`: the digits from the last to the first. */
  method Mult(hl: array<bv64>, hh: array<bv64>, ghost h: Element, x: Block) returns (out: Block)
    requires Tables(hl, hh, h)
    ensures out == Unpack(Product(x, h))
  {
    hide Join, Multiple, Sum, TimesX4, Nibble, ProductFrom, Store, HighHalf, LowHalf;
    var lo := Nibble(x, 31);
    var zh, zl := hh[lo], hl[lo];
    LastDigit(x, h);
    var i := 15;
    while i >= 0
      invariant -1 <= i <= 15
      invariant Join(zh, zl) == ProductFrom(x, h, if i == 15 then 124 else 8 * (i + 1))
    {
      if i != 15 {
        zh, zl := AddDigitOf(hl, hh, h, x, 2 * i + 1, zh, zl);
      }
      zh, zl := AddDigitOf(hl, hh, h, x, 2 * i, zh, zl);
      i := i - 1;
    }
    HalvesOfJoin(zh, zl);
    out := Store(zh, zl);
  }

  lemma LastDigit(x: Block, h: Element)
    ensures ProductFrom(x, h, 124) == Multiple(h, Nibble(x, 31))
  {
    hide TimesX, Sum, Multiple, Nibble, Bit;
    HornerNibble(x, h, 31);
    TimesXOfZero();
    SumWithZero(Multiple(h, Nibble(x, 31)));
    assert ProductFrom(x, h, 128) == 0;
  }
}
