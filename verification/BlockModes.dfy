/** ECB and CBC over an abstract block function (SP 800-38A, sections 6.1 and 6.2). */
module BlockModes {
  import opened Bytes
  import opened AesContext

  /** ECB over `n` blocks. */
  function Ecb(e: BlockFn, x: seq<byte>, n: nat): (y: seq<byte>)
    requires |x| == 16 * n
    ensures |y| == 16 * n
    decreases n
  {
    if n == 0 then [] else e(x[..16]) + Ecb(e, x[16..], n - 1)
  }

  function CbcEncrypt(e: BlockFn, iv: Block, x: seq<byte>): (y: seq<byte>)
    requires |x| % 16 == 0
    ensures |y| == |x|
    decreases |x|
  {
    if x == [] then []
    else
      var c := e(Xor(x[..16], iv));
      c + CbcEncrypt(e, c, x[16..])
  }

  function CbcDecrypt(d: BlockFn, iv: Block, y: seq<byte>): (x: seq<byte>)
    requires |y| % 16 == 0
    ensures |x| == |y|
    decreases |y|
  {
    if y == [] then []
    else Xor(d(y[..16]), iv) + CbcDecrypt(d, y[..16], y[16..])
  }

  /** The chaining value after ciphertext `y`. */
  function LastBlock(iv: Block, y: seq<byte>): Block
    requires |y| % 16 == 0
  {
    if y == [] then iv else y[|y| - 16..]
  }

  /** CBC decryption undoes CBC encryption, whatever the block function. */
  lemma {:induction false} CbcInverts(e: BlockFn, d: BlockFn, iv: Block, x: seq<byte>)
    requires |x| % 16 == 0 && Inverses(e, d)
    ensures CbcDecrypt(d, iv, CbcEncrypt(e, iv, x)) == x
    decreases |x|
  {
    if x != [] {
      var m: Block := Xor(x[..16], iv);
      var c := e(m);
      CbcInverts(e, d, c, x[16..]);
      var y := CbcEncrypt(e, iv, x);
      assert y[..16] == c && y[16..] == CbcEncrypt(e, c, x[16..]);
      assert d(c) == m;
      XorCancel(x[..16], iv);
      assert x == x[..16] + x[16..];
    }
  }

  /** CBC encryption undoes CBC decryption too. */
  lemma {:induction false} CbcRestores(e: BlockFn, d: BlockFn, iv: Block, y: seq<byte>)
    requires |y| % 16 == 0 && Inverses(e, d)
    ensures CbcEncrypt(e, iv, CbcDecrypt(d, iv, y)) == y
    decreases |y|
  {
    if y != [] {
      var c: Block := y[..16];
      var p := Xor(d(c), iv);
      CbcRestores(e, d, c, y[16..]);
      var x := CbcDecrypt(d, iv, y);
      assert x[..16] == p && x[16..] == CbcDecrypt(d, c, y[16..]);
      XorCancel(d(c), iv);
      assert e(d(c)) == c;
      assert y == c + y[16..];
    }
  }

  lemma LastBlockSkips(iv: Block, c: Block, y: seq<byte>)
    requires |y| % 16 == 0
    ensures LastBlock(iv, c + y) == LastBlock(c, y)
  {
  }

  /** Two encryption calls that carry the IV equal one call. */
  lemma {:induction false} CbcEncryptSplits(e: BlockFn, iv: Block, a: seq<byte>, b: seq<byte>)
    requires |a| % 16 == 0 && |b| % 16 == 0
    ensures var first := CbcEncrypt(e, iv, a);
            CbcEncrypt(e, iv, a + b) == first + CbcEncrypt(e, LastBlock(iv, first), b)
    decreases |a|
  {
    hide Xor, LastBlock;
    if a == [] {
      assert a + b == b;
      assert LastBlock(iv, []) == iv by { LastOfNothing(iv); }
    } else {
      var c := e(Xor(a[..16], iv));
      var rest := CbcEncrypt(e, c, a[16..]);
      assert (a + b)[..16] == a[..16] && (a + b)[16..] == a[16..] + b;
      CbcEncryptSplits(e, c, a[16..], b);
      LastBlockSkips(iv, c, rest);
      Regroup(c, rest, CbcEncrypt(e, LastBlock(c, rest), b));
    }
  }

  lemma LastOfNothing(iv: Block)
    ensures LastBlock(iv, []) == iv
  {
  }

  /** Two decryption calls that carry the IV equal one call. */
  lemma {:induction false} CbcDecryptSplits(d: BlockFn, iv: Block, a: seq<byte>, b: seq<byte>)
    requires |a| % 16 == 0 && |b| % 16 == 0
    ensures CbcDecrypt(d, iv, a + b) == CbcDecrypt(d, iv, a) + CbcDecrypt(d, LastBlock(iv, a), b)
    decreases |a|
  {
    hide Xor, LastBlock;
    if a == [] {
      assert a + b == b;
      LastOfNothing(iv);
    } else {
      assert (a + b)[..16] == a[..16] && (a + b)[16..] == a[16..] + b;
      CbcDecryptSplits(d, a[..16], a[16..], b);
      assert a == a[..16] + a[16..];
      LastBlockSkips(iv, a[..16], a[16..]);
      Regroup(Xor(d(a[..16]), iv), CbcDecrypt(d, a[..16], a[16..]), CbcDecrypt(d, LastBlock(iv, a), b));
    }
  }

  /** The IV left by two calls is the IV left by one. */
  lemma LastBlockSplits(iv: Block, a: seq<byte>, b: seq<byte>)
    requires |a| % 16 == 0 && |b| % 16 == 0
    ensures LastBlock(iv, a + b) == LastBlock(LastBlock(iv, a), b)
  {
  }

  // ---- the modes block by block ----

  lemma NextSlice(a: Block, b: seq<byte>, i: nat)
    requires 16 * i + 16 <= |b|
    ensures (a + b)[16 * (i + 1)..16 * (i + 1) + 16] == b[16 * i..16 * i + 16]
  {
  }

  lemma {:induction false} EcbAt(e: BlockFn, x: seq<byte>, n: nat, i: nat)
    requires |x| == 16 * n && i < n
    ensures Ecb(e, x, n)[16 * i..16 * i + 16] == e(x[16 * i..16 * i + 16])
    decreases n
  {
    if i > 0 {
      EcbAt(e, x[16..], n - 1, i - 1);
      NextSlice(e(x[..16]), Ecb(e, x[16..], n - 1), i - 1);
      assert x == x[..16] + x[16..];
      NextSlice(x[..16], x[16..], i - 1);
    }
  }

  /** The block before block `i`: the IV or the ciphertext block. */
  function Before(iv: Block, y: seq<byte>, i: nat): Block
    requires 16 * i <= |y|
  {
    if i == 0 then iv else y[16 * i - 16..16 * i]
  }

  lemma BeforeNext(iv: Block, c: Block, y: seq<byte>, i: nat)
    requires 16 * i <= |y|
    ensures Before(iv, c + y, i + 1) == Before(c, y, i)
  {
  }

  /** Ciphertext block `i` is the enciphered sum of its plaintext block and the ciphertext block before it. */
  lemma {:induction false} CbcEncryptAt(e: BlockFn, iv: Block, x: seq<byte>, i: nat)
    requires |x| % 16 == 0 && 16 * i + 16 <= |x|
    ensures var y := CbcEncrypt(e, iv, x);
            y[16 * i..16 * i + 16] == e(Xor(x[16 * i..16 * i + 16], Before(iv, y, i)))
    decreases |x|
  {
    hide Xor, Before;
    var c := e(Xor(x[..16], iv));
    var rest := CbcEncrypt(e, c, x[16..]);
    var y := CbcEncrypt(e, iv, x);
    assert y == c + rest && x == x[..16] + x[16..];
    if i == 0 {
      FirstBefore(iv, y);
    } else {
      CbcEncryptAt(e, c, x[16..], i - 1);
      NextSlice(c, rest, i - 1);
      NextSlice(x[..16], x[16..], i - 1);
      BeforeNext(iv, c, rest, i - 1);
    }
  }

  lemma FirstBefore(iv: Block, y: seq<byte>)
    ensures Before(iv, y, 0) == iv
  {
  }

  /** Plaintext block `i` is the sum of its deciphered ciphertext block and the ciphertext block before it. */
  lemma {:induction false} CbcDecryptAt(d: BlockFn, iv: Block, y: seq<byte>, i: nat)
    requires |y| % 16 == 0 && 16 * i + 16 <= |y|
    ensures CbcDecrypt(d, iv, y)[16 * i..16 * i + 16] == Xor(d(y[16 * i..16 * i + 16]), Before(iv, y, i))
    decreases |y|
  {
    hide Xor, Before;
    var rest := CbcDecrypt(d, y[..16], y[16..]);
    assert y == y[..16] + y[16..];
    if i == 0 {
      FirstBefore(iv, y);
    } else {
      CbcDecryptAt(d, y[..16], y[16..], i - 1);
      NextSlice(Xor(d(y[..16]), iv), rest, i - 1);
      NextSlice(y[..16], y[16..], i - 1);
      BeforeNext(iv, y[..16], y[16..], i - 1);
    }
  }
}
