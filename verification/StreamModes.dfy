/** The byte-at-a-time modes CTR, OFB and CFB128 as state machines, and what they mean block by block. */
module StreamModes {
  import opened Bytes

  type Offset = n: nat | n < 16

  /** OFB and CFB keep their keystream, or ciphertext, in the IV block itself. */
  datatype Register = Register(n: Offset, iv: Block)

  /** CTR keeps the counter and the current keystream block apart. */
  datatype Counter = Counter(n: Offset, nonce: Block, stream: Block)

  /** A mode under one key: consumes a byte, produces a byte. */
  type Step<!S> = (S, byte) -> (S, byte)

  /** `n & 15` for a position that has moved by at most one block. */
  function Wrap(n: nat): Offset
    requires n <= 16
  {
    if n == 16 then 0 else n
  }

  function Next(n: Offset): Offset {
    Wrap(n + 1)
  }

  function Refill(e: BlockFn, s: Register): Block {
    if s.n == 0 then e(s.iv) else s.iv
  }

  function OfbByte(e: BlockFn, s: Register, b: byte): (Register, byte) {
    var v := Refill(e, s);
    (Register(Next(s.n), v), Add(b, v[s.n]))
  }

  /** CFB128 encryption of one byte: the ciphertext replaces the register byte it used. */
  function CfbByte(e: BlockFn, s: Register, b: byte): (Register, byte) {
    var v := Refill(e, s);
    var c := Add(b, v[s.n]);
    (Register(Next(s.n), v[s.n := c]), c)
  }

  function UncfbByte(e: BlockFn, s: Register, c: byte): (Register, byte) {
    var v := Refill(e, s);
    (Register(Next(s.n), v[s.n := c]), Add(c, v[s.n]))
  }

  /** The counter block plus one: a carry runs from the last byte as far as it has to. */
  function Increment(b: seq<byte>): (r: seq<byte>)
    ensures |r| == |b|
  {
    if b == [] then []
    else if b[|b| - 1] == 0xff then Increment(b[..|b| - 1]) + [0]
    else b[..|b| - 1] + [b[|b| - 1] + 1]
  }

  function CtrByte(e: BlockFn, s: Counter, b: byte): (Counter, byte) {
    if s.n == 0 then (Counter(1, Increment(s.nonce), e(s.nonce)), Add(b, e(s.nonce)[0]))
    else (Counter(Next(s.n), s.nonce, s.stream), Add(b, s.stream[s.n]))
  }

  function Ofb(e: BlockFn): Step<Register> {
    (s: Register, b: byte) => OfbByte(e, s, b)
  }

  function CfbEncrypt(e: BlockFn): Step<Register> {
    (s: Register, b: byte) => CfbByte(e, s, b)
  }

  function CfbDecrypt(e: BlockFn): Step<Register> {
    (s: Register, c: byte) => UncfbByte(e, s, c)
  }

  function Ctr(e: BlockFn): Step<Counter> {
    (s: Counter, b: byte) => CtrByte(e, s, b)
  }

  /** A whole call: the final state and the output. */
  function Run<S>(f: Step<S>, s: S, x: seq<byte>): (r: (S, seq<byte>))
    ensures |r.1| == |x|
  {
    if x == [] then (s, [])
    else
      var (s', b) := f(s, x[0]);
      var (t, y) := Run(f, s', x[1..]);
      (t, [b] + y)
  }

  lemma RunUnfolds<S>(f: Step<S>, s: S, x: seq<byte>, s': S, b: byte, t: S, y: seq<byte>)
    requires x != [] && f(s, x[0]) == (s', b) && Run(f, s', x[1..]) == (t, y)
    ensures Run(f, s, x) == (t, [b] + y)
  {
  }

  /** However the input is cut, two calls that carry the state produce the output and state of one call. */
  lemma {:induction false} RunSplits<S>(f: Step<S>, s: S, a: seq<byte>, b: seq<byte>)
    ensures var (t, y) := Run(f, s, a);
            var (u, z) := Run(f, t, b);
            Run(f, s, a + b) == (u, y + z)
  {
    if a == [] {
      assert a + b == b;
      assert [] + Run(f, s, b).1 == Run(f, s, b).1;
    } else {
      assert (a + b)[0] == a[0] && (a + b)[1..] == a[1..] + b;
      var (s', out) := f(s, a[0]);
      RunSplits(f, s', a[1..], b);
      var (t, y) := Run(f, s', a[1..]);
      var z := Run(f, t, b).1;
      assert [out] + (y + z) == ([out] + y) + z;
    }
  }

  /** The counter's carry loop adds one modulo 2^(8k), for `k` counter bytes. */
  lemma {:induction false} IncrementAddsOne(b: seq<byte>)
    ensures Value(b) < Pow256(|b|)
    ensures Value(Increment(b)) == if Value(b) + 1 == Pow256(|b|) then 0 else Value(b) + 1
  {
    if b != [] {
      var head, last := b[..|b| - 1], b[|b| - 1];
      IncrementAddsOne(head);
      var r := Increment(b);
      assert r[..|r| - 1] == if last == 0xff then Increment(head) else head;
      LastByteSteps(last);
    }
  }

  lemma LastByteSteps(x: byte)
    ensures 0 <= x as int < 256
    ensures x == 0xff <==> x as int == 255
    ensures x != 0xff ==> (x + 1) as int == x as int + 1
  {
  }

  // ---- decryption ----

  /** CFB128 decryption undoes CFB128 encryption from any state, and leaves the same state. */
  lemma {:induction false} CfbInverts(e: BlockFn, s: Register, x: seq<byte>)
    ensures var (t, y) := Run(CfbEncrypt(e), s, x);
            Run(CfbDecrypt(e), s, y) == (t, x)
    decreases |x|
  {
    hide Add;
    if x != [] {
      var (s', c) := CfbEncrypt(e)(s, x[0]);
      AddCancels(x[0], Refill(e, s)[s.n]);
      CfbInverts(e, s', x[1..]);
      var y := Run(CfbEncrypt(e), s, x).1;
      assert y[0] == c && y[1..] == Run(CfbEncrypt(e), s', x[1..]).1;
      assert CfbDecrypt(e)(s, c) == (s', x[0]);
      assert x == [x[0]] + x[1..];
    }
  }

  /** OFB applied twice from the same state gives the input back. */
  lemma {:induction false} OfbInverts(e: BlockFn, s: Register, x: seq<byte>)
    ensures var (t, y) := Run(Ofb(e), s, x);
            Run(Ofb(e), s, y) == (t, x)
    decreases |x|
  {
    hide Add;
    if x != [] {
      var (s', c) := Ofb(e)(s, x[0]);
      AddCancels(x[0], Refill(e, s)[s.n]);
      OfbInverts(e, s', x[1..]);
      var y := Run(Ofb(e), s, x).1;
      assert y[0] == c && y[1..] == Run(Ofb(e), s', x[1..]).1;
      assert Ofb(e)(s, c) == (s', x[0]);
      assert x == [x[0]] + x[1..];
    }
  }

  /** CTR applied twice from the same state gives the input back. */
  lemma {:induction false} CtrInverts(e: BlockFn, s: Counter, x: seq<byte>)
    ensures var (t, y) := Run(Ctr(e), s, x);
            Run(Ctr(e), s, y) == (t, x)
    decreases |x|
  {
    hide Add, Increment;
    if x != [] {
      var (s', c) := Ctr(e)(s, x[0]);
      AddCancels(x[0], s'.stream[s.n]);
      CtrInverts(e, s', x[1..]);
      var y := Run(Ctr(e), s, x).1;
      assert y[0] == c && y[1..] == Run(Ctr(e), s', x[1..]).1;
      assert Ctr(e)(s, c) == (s', x[0]);
      assert x == [x[0]] + x[1..];
    }
  }

  // ---- the block-wise definitions of SP 800-38A, sections 6.3 to 6.5 ----

  function OfbBlocks(e: BlockFn, iv: Block, x: seq<byte>): (y: seq<byte>)
    ensures |y| == |x|
    decreases |x|
  {
    if x == [] then []
    else
      var k := Min(16, |x|);
      Xor(x[..k], e(iv)[..k]) + OfbBlocks(e, e(iv), x[k..])
  }

  function CfbBlocks(e: BlockFn, iv: Block, x: seq<byte>): (y: seq<byte>)
    ensures |y| == |x|
    decreases |x|
  {
    if |x| <= 16 then Xor(x, e(iv)[..|x|])
    else
      var c := Xor(x[..16], e(iv));
      c + CfbBlocks(e, c, x[16..])
  }

  function CtrBlocks(e: BlockFn, nonce: Block, x: seq<byte>): (y: seq<byte>)
    ensures |y| == |x|
    decreases |x|
  {
    if x == [] then []
    else
      var k := Min(16, |x|);
      Xor(x[..k], e(nonce)[..k]) + CtrBlocks(e, Increment(nonce), x[k..])
  }

  /** `x` under the keystream bytes of `v` from position `n` on. */
  function Mask(x: seq<byte>, v: Block, n: nat): (y: seq<byte>)
    requires n + |x| <= 16
    ensures |y| == |x|
  {
    Xor(x, v[n..n + |x|])
  }

  /** `v` with the bytes from position `n` on replaced by `y`. */
  function Overwrite(v: Block, n: nat, y: seq<byte>): Block
    requires n + |y| <= 16
  {
    v[..n] + y + v[n + |y|..]
  }

  lemma MaskSteps(x: seq<byte>, v: Block, n: nat)
    requires x != [] && n + |x| <= 16
    ensures Mask(x, v, n) == [Add(x[0], v[n])] + Mask(x[1..], v, n + 1)
  {
    hide Add;
  }

  lemma MaskLooksAhead(x: seq<byte>, v: Block, n: nat, c: byte)
    requires n + 1 + |x| <= 16
    ensures Mask(x, v[n := c], n + 1) == Mask(x, v, n + 1)
  {
    hide Add;
    assert v[n := c][n + 1..n + 1 + |x|] == v[n + 1..n + 1 + |x|];
  }

  lemma MaskWhole(x: seq<byte>, v: Block)
    requires |x| <= 16
    ensures Mask(x, v, 0) == Xor(x, v[..|x|])
  {
  }

  lemma OverwriteSteps(v: Block, n: nat, c: byte, z: seq<byte>)
    requires n + 1 + |z| <= 16
    ensures Overwrite(v[n := c], n + 1, z) == Overwrite(v, n, [c] + z)
  {
  }

  lemma OverwriteEnds(v: Block, n: nat, y: seq<byte>)
    requires n <= 16
    ensures Overwrite(v, n, []) == v
    ensures |y| == 16 ==> Overwrite(v, 0, y) == y
  {
  }

  /** Inside a block OFB consumes the keystream block `v` from position `n` on. */
  lemma {:induction false} OfbWithin(e: BlockFn, n: nat, v: Block, x: seq<byte>)
    requires 0 < n && n + |x| <= 16
    ensures Run(Ofb(e), Register(Wrap(n), v), x) == (Register(Wrap(n + |x|), v), Mask(x, v, n))
    decreases |x|
  {
    hide Add, Mask;
    if x == [] {
      assert Mask(x, v, n) == [];
    } else {
      MaskSteps(x, v, n);
      OfbWithin(e, n + 1, v, x[1..]);
    }
  }

  /** Inside a block CFB does the same and puts the ciphertext where the keystream was. */
  lemma {:induction false} CfbWithin(e: BlockFn, n: nat, v: Block, x: seq<byte>)
    requires 0 < n && n + |x| <= 16
    ensures var y := Mask(x, v, n);
            Run(CfbEncrypt(e), Register(Wrap(n), v), x) == (Register(Wrap(n + |x|), Overwrite(v, n, y)), y)
    decreases |x|
  {
    hide Add, Mask, Overwrite;
    if x == [] {
      assert Mask(x, v, n) == [];
      OverwriteEnds(v, n, []);
    } else {
      var c := Add(x[0], v[n]);
      MaskSteps(x, v, n);
      MaskLooksAhead(x[1..], v, n, c);
      CfbWithin(e, n + 1, v[n := c], x[1..]);
      OverwriteSteps(v, n, c, Mask(x[1..], v, n + 1));
    }
  }

  lemma {:induction false} CtrWithin(e: BlockFn, n: nat, nonce: Block, v: Block, x: seq<byte>)
    requires 0 < n && n + |x| <= 16
    ensures Run(Ctr(e), Counter(Wrap(n), nonce, v), x) == (Counter(Wrap(n + |x|), nonce, v), Mask(x, v, n))
    decreases |x|
  {
    hide Add, Increment, Mask;
    if x == [] {
      assert Mask(x, v, n) == [];
    } else {
      MaskSteps(x, v, n);
      CtrWithin(e, n + 1, nonce, v, x[1..]);
    }
  }

  /** The first byte of a block draws a new keystream block. */
  lemma FirstOfb(e: BlockFn, iv: Block, b: byte)
    ensures Ofb(e)(Register(0, iv), b) == (Register(1, e(iv)), Add(b, e(iv)[0]))
  {
    hide Add;
  }

  lemma FirstCfb(e: BlockFn, iv: Block, b: byte)
    ensures var c := Add(b, e(iv)[0]);
            CfbEncrypt(e)(Register(0, iv), b) == (Register(1, e(iv)[0 := c]), c)
  {
    hide Add;
  }

  lemma FirstCtr(e: BlockFn, nonce: Block, stream: Block, b: byte)
    ensures Ctr(e)(Counter(0, nonce, stream), b) == (Counter(1, Increment(nonce), e(nonce)), Add(b, e(nonce)[0]))
  {
    hide Add;
  }

  /** One block, or the last part of one, from a block boundary. */
  lemma OfbBlock(e: BlockFn, iv: Block, x: seq<byte>)
    requires 0 < |x| <= 16
    ensures Run(Ofb(e), Register(0, iv), x) == (Register(Wrap(|x|), e(iv)), Mask(x, e(iv), 0))
  {
    hide Add, Run, Ofb, Mask;
    var v := e(iv);
    FirstOfb(e, iv, x[0]);
    OfbWithin(e, 1, v, x[1..]);
    MaskSteps(x, v, 0);
    RunUnfolds(Ofb(e), Register(0, iv), x, Register(1, v), Add(x[0], v[0]), Register(Wrap(|x|), v), Mask(x[1..], v, 1));
  }

  lemma CfbBlock(e: BlockFn, iv: Block, x: seq<byte>, y: seq<byte>)
    requires 0 < |x| <= 16 && y == Mask(x, e(iv), 0)
    ensures Run(CfbEncrypt(e), Register(0, iv), x) == (Register(Wrap(|x|), Overwrite(e(iv), 0, y)), y)
  {
    hide Add, Run, CfbEncrypt, Mask, Overwrite, Wrap;
    MaskSteps(x, e(iv), 0);
    CfbFrom(e, iv, e(iv), x[0], x[1..], y);
    assert x == [x[0]] + x[1..];
  }

  lemma CfbFrom(e: BlockFn, iv: Block, v: Block, b: byte, x: seq<byte>, y: seq<byte>)
    requires |x| < 16 && v == e(iv) && y == [Add(b, v[0])] + Mask(x, v, 1)
    ensures Run(CfbEncrypt(e), Register(0, iv), [b] + x) == (Register(Wrap(1 + |x|), Overwrite(v, 0, y)), y)
  {
    hide Add, Run, CfbEncrypt, Mask, Overwrite, Wrap;
    var c, s := Add(b, v[0]), [b] + x;
    FirstCfb(e, iv, b);
    CfbRest(e, v, c, x);
    assert s[1..] == x && s[0] == b;
    RunUnfolds(CfbEncrypt(e), Register(0, iv), s, Register(1, v[0 := c]), c,
               Register(Wrap(1 + |x|), Overwrite(v, 0, y)), Mask(x, v, 1));
  }

  /** The rest of a block whose first ciphertext byte is `c`. */
  lemma CfbRest(e: BlockFn, v: Block, c: byte, x: seq<byte>)
    requires |x| < 16
    ensures Run(CfbEncrypt(e), Register(1, v[0 := c]), x)
         == (Register(Wrap(1 + |x|), Overwrite(v, 0, [c] + Mask(x, v, 1))), Mask(x, v, 1))
  {
    hide Add, Run, CfbEncrypt, Mask, Overwrite;
    MaskLooksAhead(x, v, 0, c);
    CfbWithin(e, 1, v[0 := c], x);
    OverwriteSteps(v, 0, c, Mask(x, v, 1));
  }

  lemma CtrBlock(e: BlockFn, nonce: Block, stream: Block, x: seq<byte>)
    requires 0 < |x| <= 16
    ensures Run(Ctr(e), Counter(0, nonce, stream), x)
         == (Counter(Wrap(|x|), Increment(nonce), e(nonce)), Mask(x, e(nonce), 0))
  {
    hide Add, Increment, Run, Ctr, Mask;
    var v := e(nonce);
    FirstCtr(e, nonce, stream, x[0]);
    CtrWithin(e, 1, Increment(nonce), v, x[1..]);
    MaskSteps(x, v, 0);
    RunUnfolds(Ctr(e), Counter(0, nonce, stream), x, Counter(1, Increment(nonce), v), Add(x[0], v[0]),
               Counter(Wrap(|x|), Increment(nonce), v), Mask(x[1..], v, 1));
  }

  /** OFB from a fresh register is the block-wise mode, whatever the length. */
  lemma {:induction false} OfbIsBlockwise(e: BlockFn, iv: Block, x: seq<byte>)
    ensures Run(Ofb(e), Register(0, iv), x).1 == OfbBlocks(e, iv, x)
    decreases |x|
  {
    hide Xor, Mask;
    if x != [] {
      var k := Min(16, |x|);
      OfbBlock(e, iv, x[..k]);
      MaskWhole(x[..k], e(iv));
      OfbIsBlockwise(e, e(iv), x[k..]);
      RunSplits(Ofb(e), Register(0, iv), x[..k], x[k..]);
      assert x == x[..k] + x[k..];
    }
  }

  /** So is CFB128 encryption. */
  lemma {:induction false} CfbIsBlockwise(e: BlockFn, iv: Block, x: seq<byte>)
    ensures Run(CfbEncrypt(e), Register(0, iv), x).1 == CfbBlocks(e, iv, x)
    decreases |x|
  {
    hide Xor, Mask, Overwrite;
    if x == [] {
      assert Xor(x, e(iv)[..|x|]) == [];
    } else if |x| <= 16 {
      CfbBlock(e, iv, x, Mask(x, e(iv), 0));
      MaskWhole(x, e(iv));
    } else {
      CfbBlock(e, iv, x[..16], Mask(x[..16], e(iv), 0));
      MaskWhole(x[..16], e(iv));
      assert e(iv)[..16] == e(iv);
      var c := Xor(x[..16], e(iv));
      OverwriteEnds(e(iv), 0, c);
      CfbIsBlockwise(e, c, x[16..]);
      RunSplits(CfbEncrypt(e), Register(0, iv), x[..16], x[16..]);
      assert x == x[..16] + x[16..];
    }
  }

  /** So is CTR. */
  lemma {:induction false} CtrIsBlockwise(e: BlockFn, nonce: Block, stream: Block, x: seq<byte>)
    ensures Run(Ctr(e), Counter(0, nonce, stream), x).1 == CtrBlocks(e, nonce, x)
    decreases |x|
  {
    hide Xor, Increment, Mask;
    if x != [] {
      var k := Min(16, |x|);
      CtrBlock(e, nonce, stream, x[..k]);
      MaskWhole(x[..k], e(nonce));
      CtrIsBlockwise(e, Increment(nonce), e(nonce), x[k..]);
      RunSplits(Ctr(e), Counter(0, nonce, stream), x[..k], x[k..]);
      assert x == x[..k] + x[k..];
    }
  }

  // ---- the modes byte by byte, from a block boundary ----

  /** `e` applied `k` times. */
  function Iterate(e: BlockFn, v: Block, k: nat): Block
    decreases k
  {
    if k == 0 then v else Iterate(e, e(v), k - 1)
  }

  /** The nonce after `k` increments. */
  function CountUp(nonce: Block, k: nat): Block
    decreases k
  {
    if k == 0 then nonce else CountUp(Increment(nonce), k - 1)
  }

  /** Counting up adds to the counter block as one big-endian number, modulo 2^128. */
  lemma {:induction false} CountUpAdds(nonce: Block, k: nat)
    ensures Value(CountUp(nonce, k)) == (Value(nonce) + k) % Pow256(16)
    decreases k
  {
    hide Increment, Value, Pow256;
    IncrementAddsOne(nonce);
    if k == 0 {
      SmallRemainder(Value(nonce), Pow256(16));
    } else {
      CountUpAdds(Increment(nonce), k - 1);
      WrapsOnce(Value(nonce), Value(Increment(nonce)), k, Pow256(16));
    }
  }

  lemma WrapsOnce(v: nat, next: nat, k: nat, m: nat)
    requires 0 < k && v < m && next == if v + 1 == m then 0 else v + 1
    ensures (next + (k - 1)) % m == (v + k) % m
  {
    if next == 0 {
      WholeRemainder(k - 1, m);
      assert v + k == m + (k - 1);
    }
  }

  lemma SmallRemainder(v: nat, m: nat)
    requires v < m
    ensures v % m == v
  {
  }

  lemma WholeRemainder(v: nat, m: nat)
    requires m > 0
    ensures (m + v) % m == v % m
  {
    QuotientIs(m + v, m, 1 + v / m, v % m);
    assert m * (1 + v / m) == m + m * (v / m);
    assert (m + v) == m * ((m + v) / m) + (m + v) % m;
  }

  lemma {:induction false} OfbBlocksAt(e: BlockFn, iv: Block, x: seq<byte>, i: nat, r: nat)
    requires r < 16 && 16 * i + r < |x|
    ensures OfbBlocks(e, iv, x)[16 * i + r] == x[16 * i + r] ^ Iterate(e, iv, i + 1)[r]
    decreases i
  {
    hide Xor;
    var k := Min(16, |x|);
    if i == 0 {
      XorAt(x[..k], e(iv)[..k], r);
      assert Iterate(e, iv, 1) == e(iv);
    } else {
      OfbBlocksAt(e, e(iv), x[k..], i - 1, r);
    }
  }

  lemma {:induction false} CtrBlocksAt(e: BlockFn, nonce: Block, x: seq<byte>, i: nat, r: nat)
    requires r < 16 && 16 * i + r < |x|
    ensures CtrBlocks(e, nonce, x)[16 * i + r] == x[16 * i + r] ^ e(CountUp(nonce, i))[r]
    decreases i
  {
    hide Xor, Increment;
    var k := Min(16, |x|);
    if i == 0 {
      XorAt(x[..k], e(nonce)[..k], r);
    } else {
      CtrBlocksAt(e, Increment(nonce), x[k..], i - 1, r);
    }
  }

  /** The block of `y` before block `i`, or the IV. */
  function BlockBefore(iv: Block, y: seq<byte>, i: nat): Block
    requires 16 * i <= |y|
  {
    if i == 0 then iv else y[16 * i - 16..16 * i]
  }

  lemma {:induction false} CfbBlocksAt(e: BlockFn, iv: Block, x: seq<byte>, i: nat, r: nat)
    requires r < 16 && 16 * i + r < |x|
    ensures var y := CfbBlocks(e, iv, x);
            y[16 * i + r] == x[16 * i + r] ^ e(BlockBefore(iv, y, i))[r]
    decreases i
  {
    hide Xor, BlockBefore;
    NoneBefore(iv, CfbBlocks(e, iv, x));
    if |x| <= 16 {
      XorAt(x, e(iv)[..|x|], r);
    } else {
      var c := Xor(x[..16], e(iv));
      var rest := CfbBlocks(e, c, x[16..]);
      assert CfbBlocks(e, iv, x) == c + rest;
      if i == 0 {
        XorAt(x[..16], e(iv), r);
      } else {
        CfbBlocksAt(e, c, x[16..], i - 1, r);
        BeforeMoves(iv, c, rest, i);
      }
    }
  }

  lemma NoneBefore(iv: Block, y: seq<byte>)
    ensures BlockBefore(iv, y, 0) == iv
  {
  }

  lemma BeforeMoves(iv: Block, c: Block, rest: seq<byte>, i: nat)
    requires 0 < i && 16 * i <= 16 + |rest|
    ensures BlockBefore(iv, c + rest, i) == BlockBefore(c, rest, i - 1)
  {
  }

  /** OFB: byte `j` under the IV enciphered once more for every block. */
  lemma OfbAt(e: BlockFn, iv: Block, x: seq<byte>, j: nat)
    requires j < |x|
    ensures Run(Ofb(e), Register(0, iv), x).1[j] == x[j] ^ Iterate(e, iv, j / 16 + 1)[j % 16]
  {
    hide Run, OfbBlocks;
    OfbIsBlockwise(e, iv, x);
    OfbBlocksAt(e, iv, x, j / 16, j % 16);
  }

  /** CFB128: byte `j` under the enciphered ciphertext block before its own. */
  lemma CfbAt(e: BlockFn, iv: Block, x: seq<byte>, j: nat)
    requires j < |x|
    ensures var y := Run(CfbEncrypt(e), Register(0, iv), x).1;
            y[j] == x[j] ^ e(BlockBefore(iv, y, j / 16))[j % 16]
  {
    hide Run, CfbBlocks, BlockBefore;
    CfbIsBlockwise(e, iv, x);
    CfbBlocksAt(e, iv, x, j / 16, j % 16);
  }

  /** CTR: byte `j` under the enciphered counter, which counts from the nonce. */
  lemma CtrAt(e: BlockFn, nonce: Block, stream: Block, x: seq<byte>, j: nat)
    requires j < |x|
    ensures Run(Ctr(e), Counter(0, nonce, stream), x).1[j] == x[j] ^ e(CountUp(nonce, j / 16))[j % 16]
  {
    hide Run, CtrBlocks;
    CtrIsBlockwise(e, nonce, stream, x);
    CtrBlocksAt(e, nonce, x, j / 16, j % 16);
  }
}
