/** The field of GHASH: section 6.3 of SP 800-38D. Bit 0 of a block is the leftmost bit of its first byte. */
module Gf128 {
  import opened Bytes

  type Element = bv128

  const R: Element := 0xe1000000_00000000_00000000_00000000

  function Sum(a: Element, b: Element): Element {
    a ^ b
  }

  /** The step from V_i to V_(i+1): one position to the right, with reduction. */
  function TimesX(v: Element): Element {
    if v & 1 == 0 then v >> 1 else (v >> 1) ^ R
  }

  predicate Masked(b: byte, m: byte) {
    b & m != 0
  }

  /** Bit `k` of a byte, the leftmost one being bit 0. */
  predicate TestBit(b: byte, k: nat)
    requires k < 8
  {
    match k
    case 0 => Masked(b, 0x80)
    case 1 => Masked(b, 0x40)
    case 2 => Masked(b, 0x20)
    case 3 => Masked(b, 0x10)
    case 4 => Masked(b, 0x08)
    case 5 => Masked(b, 0x04)
    case 6 => Masked(b, 0x02)
    case _ => Masked(b, 0x01)
  }

  /** Bit `i` of a block. */
  predicate Bit(x: Block, i: nat)
    requires i < 128
  {
    TestBit(x[i / 8], i % 8)
  }

  /** The sum of the V_j whose bit is set, for j from `i` on, when V_i is `v`. */
  function ProductFrom(x: Block, v: Element, i: nat): Element
    requires i <= 128
    decreases 128 - i
  {
    if i == 128 then 0
    else Sum(if Bit(x, i) then v else 0, ProductFrom(x, TimesX(v), i + 1))
  }

  /** The product X . H of section 6.3, computed bit by bit. */
  function Product(x: Block, h: Element): Element {
    ProductFrom(x, h, 0)
  }

  lemma SumLaws(a: Element, b: Element, c: Element)
    ensures Sum(a, Sum(b, c)) == Sum(Sum(a, b), c)
    ensures Sum(a, b) == Sum(b, a)
    ensures Sum(0, a) == a
    ensures Sum(a, a) == 0
  {
  }

  lemma SumSwaps(a: Element, b: Element, c: Element, d: Element)
    ensures Sum(Sum(a, b), Sum(c, d)) == Sum(Sum(a, c), Sum(b, d))
  {
    hide Sum;
    SumLaws(a, b, Sum(c, d));
    SumLaws(b, c, d);
    SumLaws(c, b, d);
    SumLaws(a, c, Sum(b, d));
  }

  /** The same step written with shifts only: the low bit goes to positions 127, 126, 125 and 120. */
  function StepByShifts(v: Element): Element {
    (v >> 1) ^ (v << 127) ^ ((v << 127) >> 1) ^ ((v << 127) >> 2) ^ ((v << 127) >> 7)
  }

  lemma TimesXByShifts(v: Element)
    ensures TimesX(v) == StepByShifts(v)
  {
  }

  lemma ShiftsDistribute(a: Element, b: Element)
    ensures StepByShifts(a ^ b) == StepByShifts(a) ^ StepByShifts(b)
  {
  }

  /** Multiplication by x is linear. */
  lemma TimesXDistributes(a: Element, b: Element)
    ensures TimesX(Sum(a, b)) == Sum(TimesX(a), TimesX(b))
  {
    hide TimesX, StepByShifts;
    TimesXByShifts(a);
    TimesXByShifts(b);
    TimesXByShifts(Sum(a, b));
    ShiftsDistribute(a, b);
  }

  lemma TimesXOfZero()
    ensures TimesX(0) == 0
  {
  }

  /** Starting one step later multiplies the whole product by x. */
  lemma {:induction false} ProductOfStep(x: Block, v: Element, i: nat)
    requires i <= 128
    ensures ProductFrom(x, TimesX(v), i) == TimesX(ProductFrom(x, v, i))
    decreases 128 - i
  {
    hide TimesX, Sum, Bit;
    TimesXOfZero();
    if i < 128 {
      ProductOfStep(x, TimesX(v), i + 1);
      TimesXDistributes(if Bit(x, i) then v else 0, ProductFrom(x, TimesX(v), i + 1));
    }
  }

  /** Horner's rule, one bit. */
  lemma HornerBit(x: Block, v: Element, i: nat)
    requires i < 128
    ensures ProductFrom(x, v, i) == Sum(if Bit(x, i) then v else 0, TimesX(ProductFrom(x, v, i + 1)))
  {
    hide TimesX, Sum, Bit;
    ProductOfStep(x, v, i + 1);
  }

  // ---- four bits at a time ----

  function TimesX4(v: Element): Element {
    TimesX(TimesX(TimesX(TimesX(v))))
  }

  /** `n` times H for a 4-bit `n` whose highest bit is the leftmost one: the content of the 16-entry table. */
  function Multiple(h: Element, n: nat): Element
    requires n < 16
  {
    if n >= 8 then Sum(h, Multiple(h, n - 8))
    else if n >= 4 then Sum(TimesX(h), Multiple(h, n - 4))
    else if n >= 2 then Sum(TimesX(TimesX(h)), Multiple(h, n - 2))
    else if n == 1 then TimesX(TimesX(TimesX(h)))
    else 0
  }

  /** The 4-bit digits of a block, two to the byte, high half first. */
  function Nibble(x: Block, k: nat): (n: nat)
    requires k < 32
    ensures n < 16
  {
    if k % 2 == 0 then (x[k / 2] >> 4) as int else (x[k / 2] & 0x0f) as int
  }

  lemma NibbleOfBits(x: Block, k: nat)
    requires k < 32
    ensures Nibble(x, k) == (if Bit(x, 4 * k) then 8 else 0) + (if Bit(x, 4 * k + 1) then 4 else 0)
                            + (if Bit(x, 4 * k + 2) then 2 else 0) + (if Bit(x, 4 * k + 3) then 1 else 0)
  {
  }

  function Choose(b: bool, v: Element): Element {
    if b then v else 0
  }

  /** A table entry is the sum of the multiples that the digit's bits select. */
  lemma MultipleByBits(h: Element, b0: bool, b1: bool, b2: bool, b3: bool)
    ensures Multiple(h, (if b0 then 8 else 0) + (if b1 then 4 else 0) + (if b2 then 2 else 0) + (if b3 then 1 else 0))
         == Sum(Choose(b0, h),
                Sum(Choose(b1, TimesX(h)),
                    Sum(Choose(b2, TimesX(TimesX(h))), Choose(b3, TimesX(TimesX(TimesX(h)))))))
  {
    hide TimesX, Sum;
    var x1 := TimesX(h);
    var x2 := TimesX(x1);
    var x3 := TimesX(x2);
    SumWithZero(0);
    SumWithZero(x1);
    SumWithZero(x2);
    SumWithZero(x3);
    var r := Choose(b3, x3);
    SumWithZero(r);
    var q := Sum(Choose(b2, x2), r);
    SumWithZero(q);
    SumWithZero(Sum(Choose(b1, x1), q));
    assert Multiple(h, if b3 then 1 else 0) == r;
    assert Multiple(h, (if b2 then 2 else 0) + (if b3 then 1 else 0)) == q;
  }

  lemma SumWithZero(a: Element)
    ensures Sum(0, a) == a == Sum(a, 0)
  {
  }

  /** One step of Horner's rule with the running value inside. */
  lemma HornerInside(b: bool, v: Element, p: Element)
    ensures TimesX(Sum(Choose(b, v), p)) == Sum(Choose(b, TimesX(v)), TimesX(p))
  {
    hide TimesX, Sum;
    TimesXDistributes(Choose(b, v), p);
    TimesXOfZero();
  }

  /** Horner's rule, four bits: shift the running value by four positions and add a table entry. */
  lemma HornerNibble(x: Block, h: Element, k: nat)
    requires k < 32
    ensures ProductFrom(x, h, 4 * k) == Sum(Multiple(h, Nibble(x, k)), TimesX4(ProductFrom(x, h, 4 * k + 4)))
  {
    hide TimesX, Sum, Bit, Nibble, ProductFrom;
    var i := 4 * k;
    var b0, b1, b2, b3 := Bit(x, i), Bit(x, i + 1), Bit(x, i + 2), Bit(x, i + 3);
    var p := ProductFrom(x, h, i + 4);
    var x1 := TimesX(h);
    var x2 := TimesX(x1);
    HornerBit(x, h, i);
    HornerBit(x, h, i + 1);
    HornerBit(x, h, i + 2);
    HornerBit(x, h, i + 3);
    var q1 := Sum(Choose(b3, h), TimesX(p));
    var q2 := Sum(Choose(b2, h), TimesX(q1));
    var q3 := Sum(Choose(b1, h), TimesX(q2));
    HornerInside(b3, h, TimesX(p));
    HornerInside(b2, h, TimesX(q1));
    HornerInside(b3, x1, TimesX(TimesX(p)));
    HornerInside(b1, h, TimesX(q2));
    HornerInside(b2, x1, TimesX(TimesX(q1)));
    HornerInside(b3, x2, TimesX(TimesX(TimesX(p))));
    NibbleOfBits(x, k);
    MultipleByBits(h, b0, b1, b2, b3);
    Reassociate(Choose(b0, h), Choose(b1, x1), Choose(b2, x2), Choose(b3, TimesX(x2)), TimesX4(p));
  }

  lemma Reassociate(a: Element, b: Element, c: Element, d: Element, e: Element)
    ensures Sum(a, Sum(b, Sum(c, Sum(d, e)))) == Sum(Sum(a, Sum(b, Sum(c, d))), e)
  {
    hide Sum;
    SumLaws(c, d, e);
    SumLaws(b, Sum(c, d), e);
    SumLaws(a, Sum(b, Sum(c, d)), e);
  }
}
