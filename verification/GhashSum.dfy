/** GHASH as a polynomial (section 6.4 of SP 800-38D), and the laws of the product that this takes. */
module GhashSum {
  import opened Bytes
  import opened Gf128
  import opened GhashTables
  import opened Ghash

  // ---- one is neutral ----

  /** The element with bit 0 alone. */
  const ONE: Element := 0x80000000_00000000_00000000_00000000

  /** Horner's rule for one bit of value `v`, where no bit falls off the end. */
  function Shift(v: Element, p: Element): Element {
    v ^ (p >> 1)
  }

  /** The last `z` bits are zero. */
  predicate Zero(p: Element, z: nat)
    requires z <= 8
  {
    match z
    case 0 => true
    case 1 => p & 0x01 == 0
    case 2 => p & 0x03 == 0
    case 3 => p & 0x07 == 0
    case 4 => p & 0x0f == 0
    case 5 => p & 0x1f == 0
    case 6 => p & 0x3f == 0
    case 7 => p & 0x7f == 0
    case _ => p & 0xff == 0
  }

  predicate Even(p: Element) {
    p & 1 == 0
  }

  lemma EvenStep(v: Element, p: Element)
    requires Even(p)
    ensures Sum(v, TimesX(p)) == Shift(v, p)
  {
  }

  lemma ZeroIsEven(p: Element, z: nat)
    requires 0 < z <= 8 && Zero(p, z)
    ensures Even(p)
  {
  }

  lemma OneZeroLess(p: Element)
    ensures p & 0x03 == 0 ==> (p >> 1) & 0x01 == 0
    ensures p & 0x07 == 0 ==> (p >> 1) & 0x03 == 0
    ensures p & 0x0f == 0 ==> (p >> 1) & 0x07 == 0
    ensures p & 0x1f == 0 ==> (p >> 1) & 0x0f == 0
    ensures p & 0x3f == 0 ==> (p >> 1) & 0x1f == 0
    ensures p & 0x7f == 0 ==> (p >> 1) & 0x3f == 0
    ensures p & 0xff == 0 ==> (p >> 1) & 0x7f == 0
  {
  }

  function Halved(p: Element): Element {
    p >> 1
  }

  lemma HalvedZero(p: Element, z: nat)
    requires 0 < z <= 8 && Zero(p, z)
    ensures Zero(Halved(p), z - 1)
  {
    OneZeroLess(p);
  }

  lemma OneHasZeros(q: Element, z: nat)
    requires z < 8 && Zero(q, z)
    ensures Zero(ONE ^ q, z) && Zero(0 ^ q, z)
  {
  }

  /** The value of a bit: one or zero. */
  function Value1(b: bool): Element {
    if b then ONE else 0
  }

  lemma ShiftIsHalved(b: bool, p: Element)
    ensures Shift(Value1(b), p) == if b then ONE ^ Halved(p) else 0 ^ Halved(p)
  {
  }

  lemma ShiftStep(b: bool, p: Element, z: nat)
    requires 0 < z <= 8 && Zero(p, z)
    ensures Sum(Value1(b), TimesX(p)) == Shift(Value1(b), p) && Zero(Shift(Value1(b), p), z - 1)
  {
    hide Zero, Sum, TimesX, Even, Shift, Value1, Halved;
    ZeroIsEven(p, z);
    EvenStep(Value1(b), p);
    HalvedZero(p, z);
    OneHasZeros(Halved(p), z - 1);
    ShiftIsHalved(b, p);
  }

  lemma HornerShift(x: Block, i: nat, z: nat)
    requires i < 128 && 0 < z <= 8 && Zero(ProductFrom(x, ONE, i + 1), z)
    ensures var p := ProductFrom(x, ONE, i);
            p == Shift(Value1(Bit(x, i)), ProductFrom(x, ONE, i + 1)) && Zero(p, z - 1)
  {
    hide TimesX, Sum, Bit, ProductFrom, Shift, Zero;
    HornerBit(x, ONE, i);
    ShiftStep(Bit(x, i), ProductFrom(x, ONE, i + 1), z);
  }

  /** A byte in front of an element that ends in eight zeros. */
  function Front(c: byte, p: Element): Element {
    ((c as bv128) << 120) ^ (p >> 8)
  }

  /** Two such steps at once. */
  function Shift2(v0: Element, v1: Element, p: Element): Element {
    v0 ^ (v1 >> 1) ^ (p >> 2)
  }

  lemma TwoSteps(v0: Element, v1: Element, p: Element)
    ensures Shift(v0, Shift(v1, p)) == Shift2(v0, v1, p)
  {
  }

  function BitValue(c: byte, m: byte): Element {
    if Masked(c, m) then ONE else 0
  }

  function EightSteps(v0: Element, v1: Element, v2: Element, v3: Element, v4: Element, v5: Element, v6: Element,
                      v7: Element, p: Element): Element
  {
    Shift2(v0, v1, Shift2(v2, v3, Shift2(v4, v5, Shift2(v6, v7, p))))
  }

  lemma FrontOfBits(c: byte, p: Element)
    ensures EightSteps(BitValue(c, 0x80), BitValue(c, 0x40), BitValue(c, 0x20), BitValue(c, 0x10),
                       BitValue(c, 0x08), BitValue(c, 0x04), BitValue(c, 0x02), BitValue(c, 0x01), p) == Front(c, p)
  {
  }

  lemma ValueOfBit(x: Block, k: nat, j: nat, m: byte)
    requires k < 16 && j < 8 && TestBit(x[k], j) == Masked(x[k], m)
    ensures Value1(Bit(x, 8 * k + j)) == BitValue(x[k], m)
  {
    hide TestBit, Masked;
    assert (8 * k + j) / 8 == k && (8 * k + j) % 8 == j;
  }

  lemma BitsOfByte(x: Block, k: nat)
    requires k < 16
    ensures var c, i := x[k], 8 * k;
            && Value1(Bit(x, i)) == BitValue(c, 0x80) && Value1(Bit(x, i + 1)) == BitValue(c, 0x40)
            && Value1(Bit(x, i + 2)) == BitValue(c, 0x20) && Value1(Bit(x, i + 3)) == BitValue(c, 0x10)
            && Value1(Bit(x, i + 4)) == BitValue(c, 0x08) && Value1(Bit(x, i + 5)) == BitValue(c, 0x04)
            && Value1(Bit(x, i + 6)) == BitValue(c, 0x02) && Value1(Bit(x, i + 7)) == BitValue(c, 0x01)
  {
    hide Masked, Bit, Value1, BitValue;
    ValueOfBit(x, k, 0, 0x80);
    ValueOfBit(x, k, 1, 0x40);
    ValueOfBit(x, k, 2, 0x20);
    ValueOfBit(x, k, 3, 0x10);
    ValueOfBit(x, k, 4, 0x08);
    ValueOfBit(x, k, 5, 0x04);
    ValueOfBit(x, k, 6, 0x02);
    ValueOfBit(x, k, 7, 0x01);
  }

  lemma HornerTwo(x: Block, i: nat, z: nat)
    requires i + 1 < 128 && 1 < z <= 8 && Zero(ProductFrom(x, ONE, i + 2), z)
    ensures var p := ProductFrom(x, ONE, i);
            && p == Shift2(Value1(Bit(x, i)), Value1(Bit(x, i + 1)), ProductFrom(x, ONE, i + 2))
            && Zero(p, z - 2)
  {
    hide Bit, ProductFrom, Shift, Shift2, Zero, Value1;
    HornerShift(x, i + 1, z);
    HornerShift(x, i, z - 1);
    TwoSteps(Value1(Bit(x, i)), Value1(Bit(x, i + 1)), ProductFrom(x, ONE, i + 2));
  }

  lemma HornerEight(x: Block, i: nat)
    requires i + 8 <= 128 && Zero(ProductFrom(x, ONE, i + 8), 8)
    ensures ProductFrom(x, ONE, i)
         == EightSteps(Value1(Bit(x, i)), Value1(Bit(x, i + 1)), Value1(Bit(x, i + 2)), Value1(Bit(x, i + 3)),
                       Value1(Bit(x, i + 4)), Value1(Bit(x, i + 5)), Value1(Bit(x, i + 6)), Value1(Bit(x, i + 7)),
                       ProductFrom(x, ONE, i + 8))
  {
    hide Bit, ProductFrom, Shift2, Zero, Value1;
    HornerTwo(x, i + 6, 8);
    HornerTwo(x, i + 4, 6);
    HornerTwo(x, i + 2, 4);
    HornerTwo(x, i, 2);
  }

  lemma HornerByte(x: Block, k: nat)
    requires k < 16 && Zero(ProductFrom(x, ONE, 8 * k + 8), 8)
    ensures ProductFrom(x, ONE, 8 * k) == Front(x[k], ProductFrom(x, ONE, 8 * k + 8))
  {
    hide Bit, BitValue, Value1, ProductFrom, Front, EightSteps, Zero;
    HornerEight(x, 8 * k);
    BitsOfByte(x, k);
    FrontOfBits(x[k], ProductFrom(x, ONE, 8 * k + 8));
  }

  lemma FrontOfLoads(c: byte, b0: byte, b1: byte, b2: byte, b3: byte, b4: byte, b5: byte, b6: byte, b7: byte,
                     b8: byte, b9: byte, b10: byte, b11: byte, b12: byte, b13: byte, b14: byte)
    ensures var p := Join(Load64(b0, b1, b2, b3, b4, b5, b6, b7), Load64(b8, b9, b10, b11, b12, b13, b14, 0));
            && Zero(p, 8)
            && Join(Load64(c, b0, b1, b2, b3, b4, b5, b6), Load64(b7, b8, b9, b10, b11, b12, b13, b14)) == Front(c, p)
  {
  }

  /** A block moved back by one byte. */
  lemma PackFront(x: Block, y: Block)
    requires y[15] == 0 && forall i | 0 <= i < 15 :: x[i + 1] == y[i]
    ensures Zero(Pack(y), 8) && Pack(x) == Front(x[0], Pack(y))
  {
    hide Join, Load64, Front, Zero;
    FrontOfLoads(x[0], y[0], y[1], y[2], y[3], y[4], y[5], y[6], y[7],
                 y[8], y[9], y[10], y[11], y[12], y[13], y[14]);
    assert x[1] == y[0] && x[2] == y[1] && x[3] == y[2] && x[4] == y[3] && x[5] == y[4] && x[6] == y[5];
    assert x[7] == y[6] && x[8] == y[7] && x[9] == y[8] && x[10] == y[9] && x[11] == y[10] && x[12] == y[11];
    assert x[13] == y[12] && x[14] == y[13] && x[15] == y[14];
  }

  /** The bytes of a block from byte `k` on, moved to its front. */
  function Tail(x: Block, k: nat): Block
    requires k <= 16
  {
    x[k..] + Zeros(k)
  }

  lemma {:induction false} TailIsProduct(x: Block, k: nat)
    requires k <= 16
    ensures ProductFrom(x, ONE, 8 * k) == Pack(Tail(x, k))
    decreases 16 - k
  {
    hide ProductFrom, Pack, Front, Zero;
    if k == 16 {
      NothingLeft(x);
    } else {
      TailIsProduct(x, k + 1);
      PackFront(Tail(x, k), Tail(x, k + 1));
      HornerByte(x, k);
    }
  }

  lemma NothingLeft(x: Block)
    ensures ProductFrom(x, ONE, 128) == 0 == Pack(Tail(x, 16))
  {
    assert Tail(x, 16) == Zeros(16);
  }

  /** One is neutral on the right. */
  lemma TimesOne(x: Block)
    ensures Product(x, ONE) == Pack(x)
  {
    hide Pack, ProductFrom;
    TailIsProduct(x, 0);
    assert Tail(x, 0) == x;
  }

  // ---- the product is commutative and associative ----

  lemma {:induction false} SumUnderProduct(x: Block, v: Element, w: Element, i: nat)
    requires i <= 128
    ensures ProductFrom(x, Sum(v, w), i) == Sum(ProductFrom(x, v, i), ProductFrom(x, w, i))
    decreases 128 - i
  {
    hide TimesX, Sum, Bit;
    if i == 128 {
      SumWithZero(0);
    } else {
      TimesXDistributes(v, w);
      SumUnderProduct(x, TimesX(v), TimesX(w), i + 1);
      var p, q := ProductFrom(x, TimesX(v), i + 1), ProductFrom(x, TimesX(w), i + 1);
      SumSwaps(if Bit(x, i) then v else 0, if Bit(x, i) then w else 0, p, q);
      SumWithZero(0);
    }
  }

  lemma {:induction false} ZeroUnderProduct(x: Block, i: nat)
    requires i <= 128
    ensures ProductFrom(x, 0, i) == 0
    decreases 128 - i
  {
    hide TimesX, Sum, Bit;
    TimesXOfZero();
    SumWithZero(0);
    if i < 128 {
      ZeroUnderProduct(x, i + 1);
    }
  }

  lemma ProductOfZero(y: Block)
    ensures Product(y, 0) == 0
  {
    ZeroUnderProduct(y, 0);
  }

  lemma ProductOfStepped(y: Block, v: Element)
    ensures Product(y, TimesX(v)) == TimesX(Product(y, v))
  {
    hide TimesX, ProductFrom;
    ProductOfStep(y, v, 0);
  }

  lemma ProductOfSum(y: Block, v: Element, w: Element)
    ensures Product(y, Sum(v, w)) == Sum(Product(y, v), Product(y, w))
  {
    hide Sum, ProductFrom;
    SumUnderProduct(y, v, w, 0);
  }

  /** Multiplications by two blocks can be made in either order. */
  lemma {:induction false} BlocksSwap(x: Block, y: Block, v: Element, i: nat)
    requires i <= 128
    ensures Product(y, ProductFrom(x, v, i)) == ProductFrom(x, Product(y, v), i)
    decreases 128 - i
  {
    hide TimesX, Sum, Bit, Product;
    ProductOfZero(y);
    if i < 128 {
      BlocksSwap(x, y, TimesX(v), i + 1);
      ProductOfStepped(y, v);
      ProductOfSum(y, if Bit(x, i) then v else 0, ProductFrom(x, TimesX(v), i + 1));
    }
  }

  lemma ProductCommutes(x: Block, y: Block)
    ensures Product(x, Pack(y)) == Product(y, Pack(x))
  {
    hide Pack, ProductFrom;
    TimesOne(x);
    TimesOne(y);
    BlocksSwap(x, y, ONE, 0);
  }

  lemma ProductAssociates(x: Block, h: Element, p: Element)
    ensures Product(Unpack(Product(x, h)), p) == Product(x, Product(Unpack(p), h))
  {
    hide Pack, Unpack, ProductFrom;
    var q := Product(x, h);
    PackUnpack(q);
    PackUnpack(p);
    ProductCommutes(Unpack(q), Unpack(p));
    BlocksSwap(x, Unpack(p), h, 0);
  }

  // ---- the closed form ----

  /** H to the power of `k`, the product taken bit by bit. */
  function Power(h: Element, k: nat): Element
    requires k > 0
  {
    if k == 1 then h else Product(Unpack(Power(h, k - 1)), h)
  }

  /** The sum of X_i . H^(n-i+1) over the `n` blocks X_1 to X_n. */
  function Terms(h: Element, data: seq<byte>, n: nat): Element
    requires |data| == 16 * n
  {
    if n == 0 then 0 else Sum(Product(data[..16], Power(h, n)), Terms(h, data[16..], n - 1))
  }

  lemma ProductOfXor(x: Block, y: Block, p: Element)
    ensures Product(Xor(x, y), p) == Sum(Product(x, p), Product(y, p))
  {
    hide ProductFrom, Xor;
    ProductDistributes(x, y, p, 0);
  }

  /** A block that was multiplied by H once and waits for `k` more factors. */
  lemma OneFactorMore(h: Element, z: Block, k: nat)
    requires k > 0
    ensures Product(Unpack(Product(z, h)), Power(h, k)) == Product(z, Power(h, k + 1))
  {
    hide Product, Unpack;
    ProductAssociates(z, h, Power(h, k));
  }

  /** GHASH from any starting value: that value times H^n plus the terms of the blocks. */
  lemma {:induction false} HashFrom(h: Element, y: Block, data: seq<byte>, n: nat)
    requires |data| == 16 * n && n > 0
    ensures Hash(h, y, data) == Unpack(Sum(Product(y, Power(h, n)), Terms(h, data, n)))
    decreases n
  {
    hide Product, Unpack, Sum, Xor;
    var x, rest := data[..16], data[16..];
    var z := Xor(y, x);
    ProductOfXor(y, x, Power(h, n));
    if n == 1 {
      assert rest == [] && Terms(h, rest, 0) == 0;
      SumWithZero(Product(x, h));
      assert Power(h, 1) == h;
    } else {
      HashFrom(h, Unpack(Product(z, h)), rest, n - 1);
      OneFactorMore(h, z, n - 1);
      SumLaws(Product(y, Power(h, n)), Product(x, Power(h, n)), Terms(h, rest, n - 1));
    }
  }

  lemma {:induction false} ZeroTimes(p: Element, i: nat)
    requires i <= 128
    ensures ProductFrom(ZeroBlock(), p, i) == 0
    decreases 128 - i
  {
    hide TimesX, Sum;
    if i < 128 {
      ZeroTimes(TimesX(p), i + 1);
      SumWithZero(0);
      assert !Bit(ZeroBlock(), i) by { ZeroBit(i); }
    }
  }

  lemma ZeroBit(i: nat)
    requires i < 128
    ensures !Bit(ZeroBlock(), i)
  {
  }

  /** GHASH of section 6.4 of SP 800-38D: the sum of X_i . H^(n-i+1). */
  lemma HashIsSum(h: Element, data: seq<byte>, n: nat)
    requires |data| == 16 * n && n > 0
    ensures Hash(h, ZeroBlock(), data) == Unpack(Terms(h, data, n))
  {
    hide Unpack, Sum, ProductFrom;
    HashFrom(h, ZeroBlock(), data, n);
    ZeroTimes(Power(h, n), 0);
    SumWithZero(Terms(h, data, n));
  }

  /** One block: one product. */
  lemma HashOfBlock(h: Element, y: Block, x: Block)
    ensures Hash(h, y, x) == Unpack(Product(Xor(y, x), h))
  {
    hide Product, Unpack, Xor;
    assert x[..16] == x && x[16..] == [];
  }

  /** The element of a block has the first byte on top. */
  lemma PackBytes(x: Block)
    ensures Pack(x) ==
            ((x[0] as bv128) << 120) | ((x[1] as bv128) << 112) | ((x[2] as bv128) << 104) | ((x[3] as bv128) << 96)
            | ((x[4] as bv128) << 88) | ((x[5] as bv128) << 80) | ((x[6] as bv128) << 72) | ((x[7] as bv128) << 64)
            | ((x[8] as bv128) << 56) | ((x[9] as bv128) << 48) | ((x[10] as bv128) << 40) | ((x[11] as bv128) << 32)
            | ((x[12] as bv128) << 24) | ((x[13] as bv128) << 16) | ((x[14] as bv128) << 8) | (x[15] as bv128)
  {
  }
}
