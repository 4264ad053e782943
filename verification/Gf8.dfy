/** Arithmetic of GF(2^8) as `xtime` and `gmul` compute it. */
module Gf8 {
  import opened Bytes

  /** Multiplication by {02}: section 4.2.1 of FIPS 197. */
  function XTime(x: byte): byte {
    (x << 1) ^ (((x >> 7) & 1) * 0x1b)
  }

  predicate Odd(b: byte) {
    b & 1 == 1
  }

  function Half(b: byte): byte {
    b >> 1
  }

  /** Section 4.2 of FIPS 197: the sum of the multiples of `a` that the low `n` bits of `b` select. */
  function Product(a: byte, b: byte, n: nat): byte
    decreases n
  {
    if n == 0 then 0
    else Add(if Odd(b) then a else 0, Product(XTime(a), Half(b), n - 1))
  }

  function Mul(a: byte, b: byte): byte {
    Product(a, b, 8)
  }

  /** `gmul`: shift-and-add over `bits` bits (eight in the source), reducing on the fly. */
  method GMul(a: byte, b: byte, bits: nat := 8) returns (p: byte)
    ensures p == Product(a, b, bits)
  {
    p := 0;
    var x, y := a, b;
    AddLaws(0, 0, Product(a, b, bits));
    var i := 0;
    while i < bits
      invariant 0 <= i <= bits
      invariant Add(p, Product(x, y, bits - i)) == Product(a, b, bits)
    {
      hide Add, XTime, Odd, Half;
      AddLaws(p, x, Product(XTime(x), Half(y), bits - i - 1));
      StepLaws(p, x, y);
      if y & 1 != 0 {
        p := p ^ x;
      }
      var hi := x & 0x80;
      x := x << 1;
      if hi != 0 {
        x := x ^ 0x1b;
      }
      y := y >> 1;
      i := i + 1;
    }
    AddLaws(0, 0, p);
  }

  lemma AddLaws(a: byte, b: byte, c: byte)
    ensures Add(a, Add(b, c)) == Add(Add(a, b), c)
    ensures Add(a, Add(0, c)) == Add(a, c)
    ensures Add(0, c) == c == Add(c, 0)
  {
  }

  lemma StepLaws(p: byte, x: byte, y: byte)
    ensures p ^ x == Add(p, x)
    ensures Odd(y) == (y & 1 != 0)
    ensures Half(y) == y >> 1
    ensures XTime(x) == if x & 0x80 != 0 then (x << 1) ^ 0x1b else x << 1
  {
  }

  lemma {:induction false} ProductByZero(a: byte, n: nat)
    decreases n
    ensures Product(a, 0, n) == 0
  {
    if n > 0 {
      ProductByZero(XTime(a), n - 1);
    }
  }

  /** The constants of MixColumns and of InvMixColumns in terms of `xtime`. */
  lemma MulByConstants(a: byte)
    ensures var x1 := XTime(a); var x2 := XTime(x1); var x3 := XTime(x2);
            && Mul(a, 2) == x1
            && Mul(a, 3) == Add(a, x1)
            && Mul(a, 9) == Add(a, x3)
            && Mul(a, 11) == Add(a, Add(x1, x3))
            && Mul(a, 13) == Add(a, Add(x2, x3))
            && Mul(a, 14) == Add(x1, Add(x2, x3))
  {
    hide XTime, Add;
    var x1 := XTime(a);
    var x2 := XTime(x1);
    var x3 := XTime(x2);
    AddLaws(0, 0, x3);
    assert forall b: byte :: Add(b, 0) == b by {
      forall b: byte ensures Add(b, 0) == b { AddLaws(0, 0, b); }
    }
    assert forall b: byte :: Add(0, b) == b by {
      forall b: byte ensures Add(0, b) == b { AddLaws(0, 0, b); }
    }
    ProductByZero(XTime(x3), 4);
    ProductByZero(x2, 6);
    assert Product(x1, 1, 7) == x1;
    assert Product(x3, 1, 5) == x3;
    assert Product(x2, 2, 6) == x3;
    assert Product(x2, 3, 6) == Add(x2, x3);
    assert Product(x1, 4, 7) == x3;
    assert Product(x1, 5, 7) == Add(x1, x3);
    assert Product(x1, 6, 7) == Add(x2, x3);
    assert Product(x1, 7, 7) == Add(x1, Add(x2, x3));
  }

  lemma AddSwaps(a: byte, b: byte, c: byte, d: byte)
    ensures Add(Add(a, b), Add(c, d)) == Add(Add(a, c), Add(b, d))
  {
    hide Add;
    AddLaws(a, b, Add(c, d));
    AddLaws(b, c, d);
    AddCommutes(b, c);
    AddLaws(c, b, d);
    AddLaws(a, c, Add(b, d));
  }

  lemma AddCommutes(a: byte, b: byte)
    ensures Add(a, b) == Add(b, a)
  {
  }

  lemma XTimeDistributes(a: byte, b: byte)
    ensures XTime(Add(a, b)) == Add(XTime(a), XTime(b))
  {
    hide XTime;
    XTimeOfXor(a, b);
  }

  lemma XTimeOfXor(a: byte, b: byte)
    ensures XTime(a ^ b) == XTime(a) ^ XTime(b)
  {
  }

  /** Multiplication distributes over addition. */
  lemma {:induction false} ProductDistributes(a: byte, b: byte, k: byte, n: nat)
    decreases n
    ensures Product(Add(a, b), k, n) == Add(Product(a, k, n), Product(b, k, n))
  {
    hide Add, XTime, Odd, Half;
    if n == 0 {
      AddLaws(0, 0, 0);
    } else {
      XTimeDistributes(a, b);
      ProductDistributes(XTime(a), XTime(b), Half(k), n - 1);
      var x, y := Product(XTime(a), Half(k), n - 1), Product(XTime(b), Half(k), n - 1);
      AddSwaps(if Odd(k) then a else 0, if Odd(k) then b else 0, x, y);
      AddLaws(0, 0, 0);
    }
  }

  function Sum4(a: byte, b: byte, c: byte, d: byte): byte {
    Add(Add(a, b), Add(c, d))
  }

  lemma MulDistributes(a: byte, b: byte, c: byte, d: byte, k: byte)
    ensures Mul(Sum4(a, b, c, d), k) == Sum4(Mul(a, k), Mul(b, k), Mul(c, k), Mul(d, k))
  {
    hide Add, Product;
    ProductDistributes(a, b, k, 8);
    ProductDistributes(c, d, k, 8);
    ProductDistributes(Add(a, b), Add(c, d), k, 8);
  }

  lemma SumsAdd(a: byte, b: byte, c: byte, d: byte, a': byte, b': byte, c': byte, d': byte)
    ensures Add(Sum4(a, b, c, d), Sum4(a', b', c', d')) == Sum4(Add(a, a'), Add(b, b'), Add(c, c'), Add(d, d'))
  {
    hide Add;
    AddSwaps(Add(a, b), Add(c, d), Add(a', b'), Add(c', d'));
    AddSwaps(a, b, a', b');
    AddSwaps(c, d, c', d');
  }

  /** A 4-by-4 table summed row by row equals the same table summed column by column. */
  lemma SumsTranspose(a0: byte, b0: byte, c0: byte, d0: byte, a1: byte, b1: byte, c1: byte, d1: byte,
                      a2: byte, b2: byte, c2: byte, d2: byte, a3: byte, b3: byte, c3: byte, d3: byte)
    ensures Sum4(Sum4(a0, b0, c0, d0), Sum4(a1, b1, c1, d1), Sum4(a2, b2, c2, d2), Sum4(a3, b3, c3, d3))
         == Sum4(Sum4(a0, a1, a2, a3), Sum4(b0, b1, b2, b3), Sum4(c0, c1, c2, c3), Sum4(d0, d1, d2, d3))
  {
    hide Add;
    SumsAdd(a0, b0, c0, d0, a1, b1, c1, d1);
    SumsAdd(a2, b2, c2, d2, a3, b3, c3, d3);
    SumsAdd(Add(a0, a1), Add(b0, b1), Add(c0, c1), Add(d0, d1), Add(a2, a3), Add(b2, b3), Add(c2, c3), Add(d2, d3));
  }

  lemma SumRotates(a: byte, b: byte, c: byte, d: byte)
    ensures Sum4(a, b, c, d) == Sum4(b, c, d, a)
  {
    hide Add;
    AddCommutes(a, b);
    AddSwaps(b, a, c, d);
    AddCommutes(a, d);
  }

  // ---- inverses ----

  lemma XTimeOfZero()
    ensures XTime(0) == 0
  {
  }

  lemma {:induction false} XTimePasses(a: byte, b: byte, n: nat)
    ensures Product(XTime(a), b, n) == XTime(Product(a, b, n))
    decreases n
  {
    hide Add, XTime, Odd, Half;
    XTimeOfZero();
    if n > 0 {
      XTimePasses(XTime(a), Half(b), n - 1);
      XTimeDistributes(if Odd(b) then a else 0, Product(XTime(a), Half(b), n - 1));
    }
  }

  lemma {:induction false} ZeroTimes(b: byte, n: nat)
    ensures Product(0, b, n) == 0
    decreases n
  {
    hide Add, XTime, Odd, Half;
    XTimeOfZero();
    if n > 0 {
      ZeroTimes(Half(b), n - 1);
      AddLaws(0, 0, 0);
    }
  }

  /** Two factors can be multiplied in either order. */
  lemma {:induction false} FactorsSwap(a: byte, b: byte, n: nat, c: byte)
    ensures Mul(Product(a, b, n), c) == Product(Mul(a, c), b, n)
    decreases n
  {
    hide Add, XTime, Odd, Half;
    ZeroTimes(c, 8);
    if n > 0 {
      var rest := Product(XTime(a), Half(b), n - 1);
      ProductDistributes(if Odd(b) then a else 0, rest, c, 8);
      FactorsSwap(XTime(a), Half(b), n - 1, c);
      XTimePasses(a, c, 8);
    }
  }

  lemma OneTimesLow(a: byte)
    requires a < 0x80
    ensures Mul(1, a) == a
  {
  }

  lemma OneTimesHigh(a: byte)
    requires a >= 0x80
    ensures Mul(1, a) == a
  {
  }

  lemma OneTimes(a: byte)
    ensures Mul(1, a) == a
  {
    hide Mul;
    if a < 0x80 {
      OneTimesLow(a);
    } else {
      OneTimesHigh(a);
    }
  }

  lemma InverseIsUnique(x: byte, y: byte, z: byte)
    requires Mul(x, y) == 1 && Mul(x, z) == 1
    ensures y == z
  {
    hide Product;
    FactorsSwap(x, y, 8, z);
    OneTimes(y);
    OneTimes(z);
  }
}
