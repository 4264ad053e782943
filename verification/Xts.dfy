/** XTS with ciphertext stealing (IEEE 1619) over an abstract block function, and the code's in-place variant. */
module Xts {
  import opened Bytes
  import opened AesContext

  function TopBit(b: byte): byte {
    b >> 7
  }

  function ShiftIn(b: byte, low: byte): byte {
    (b << 1) | low
  }

  /** Multiplication of a tweak by x: every byte shifts left, a bit that falls off the top comes back as 0x87. */
  function Double(t: Block): Block {
    seq(16, j requires 0 <= j < 16 =>
      if j == 0 then Reduce(ShiftIn(t[0], 0), TopBit(t[15])) else ShiftIn(t[j], TopBit(t[j - 1])))
  }

  function Reduce(b: byte, carry: byte): byte {
    if carry != 0 then Add(b, 0x87) else b
  }

  function TweakBlock(f: BlockFn, t: Block, x: Block): Block {
    Xor(f(Xor(x, t)), t)
  }

  /** Lengths that can be left when the loop is at a block boundary: none, or enough for a block. */
  ghost predicate Remaining(n: nat) {
    n == 0 || n >= 16
  }

  function Encrypt(e: BlockFn, t: Block, x: seq<byte>): (y: seq<byte>)
    requires Remaining(|x|)
    ensures |y| == |x|
    decreases |x|
  {
    if |x| == 0 then []
    else
      var c := TweakBlock(e, t, x[..16]);
      if 16 < |x| < 32 then
        var b := |x| - 16;
        TweakBlock(e, Double(t), x[16..] + c[b..]) + c[..b]
      else c + Encrypt(e, Double(t), x[16..])
  }

  /** The last two pieces use their tweaks in the opposite order. */
  function Decrypt(d: BlockFn, t: Block, y: seq<byte>): (x: seq<byte>)
    requires Remaining(|y|)
    ensures |x| == |y|
    decreases |y|
  {
    if |y| == 0 then []
    else if 16 < |y| < 32 then
      var b := |y| - 16;
      var p := TweakBlock(d, Double(t), y[..16]);
      TweakBlock(d, t, y[16..] + p[b..]) + p[..b]
    else TweakBlock(d, t, y[..16]) + Decrypt(d, Double(t), y[16..])
  }

  /**
   What the code computes when input and output are one buffer: the stolen bytes overwrite the tail before it is
   read.
   */
  function EncryptInPlace(e: BlockFn, t: Block, x: seq<byte>): (y: seq<byte>)
    requires Remaining(|x|)
    ensures |y| == |x|
    decreases |x|
  {
    if |x| == 0 then []
    else
      var c := TweakBlock(e, t, x[..16]);
      if 16 < |x| < 32 then TweakBlock(e, Double(t), c) + c[..|x| - 16]
      else c + EncryptInPlace(e, Double(t), x[16..])
  }

  function DecryptInPlace(d: BlockFn, t: Block, y: seq<byte>): (x: seq<byte>)
    requires Remaining(|y|)
    ensures |x| == |y|
    decreases |y|
  {
    if |y| == 0 then []
    else if 16 < |y| < 32 then
      var p := TweakBlock(d, Double(t), y[..16]);
      TweakBlock(d, t, p) + p[..|y| - 16]
    else TweakBlock(d, t, y[..16]) + DecryptInPlace(d, Double(t), y[16..])
  }

  lemma TweakBlockInverts(e: BlockFn, d: BlockFn, t: Block, x: Block)
    requires Inverses(e, d)
    ensures TweakBlock(d, t, TweakBlock(e, t, x)) == x
  {
    hide Xor;
    var m: Block := Xor(x, t);
    XorCancel(x, t);
    XorCancel(e(m), t);
    assert d(e(m)) == m;
  }

  /** Decryption undoes encryption for every length of at least one block, stolen ciphertext included. */
  lemma {:induction false} XtsInverts(e: BlockFn, d: BlockFn, t: Block, x: seq<byte>)
    requires Inverses(e, d) && Remaining(|x|)
    ensures Decrypt(d, t, Encrypt(e, t, x)) == x
    decreases |x|
  {
    hide TweakBlock, Double;
    if |x| > 0 {
      var c := TweakBlock(e, t, x[..16]);
      TweakBlockInverts(e, d, t, x[..16]);
      var y := Encrypt(e, t, x);
      if 16 < |x| < 32 {
        var pp: Block := x[16..] + c[|x| - 16..];
        TweakBlockInverts(e, d, Double(t), pp);
        StolenBytes(x, c, pp, y, TweakBlock(e, Double(t), pp));
      } else {
        XtsInverts(e, d, Double(t), x[16..]);
        assert y[..16] == c && y[16..] == Encrypt(e, Double(t), x[16..]);
        assert x == x[..16] + x[16..];
      }
    }
  }

  /** How the pieces of a stolen last block fit back together. */
  lemma StolenBytes(x: seq<byte>, c: Block, pp: Block, y: seq<byte>, last: Block)
    requires 16 < |x| < 32
    requires var b := |x| - 16; pp == x[16..] + c[b..] && y == last + c[..b]
    ensures var b := |x| - 16;
            && y[..16] == last && y[16..] + pp[b..] == c && pp[..b] == x[16..]
            && x[..16] + x[16..] == x
  {
    var b := |x| - 16;
    assert pp[b..] == c[b..];
    assert y[16..] == c[..b];
  }

  /** In place, a whole number of blocks comes out right. */
  lemma {:induction false} InPlaceWholeBlocks(f: BlockFn, t: Block, x: seq<byte>)
    requires |x| % 16 == 0
    ensures EncryptInPlace(f, t, x) == Encrypt(f, t, x)
    ensures DecryptInPlace(f, t, x) == Decrypt(f, t, x)
    decreases |x|
  {
    hide TweakBlock, Double;
    if |x| > 0 {
      InPlaceWholeBlocks(f, Double(t), x[16..]);
    }
  }

  /** In place, the bytes after the last whole block never reach the output. */
  lemma {:induction false} InPlaceForgetsTail(e: BlockFn, t: Block, x: seq<byte>, x': seq<byte>)
    requires |x| == |x'| > 16 && |x| % 16 != 0
    requires x[..|x| / 16 * 16] == x'[..|x| / 16 * 16]
    ensures EncryptInPlace(e, t, x) == EncryptInPlace(e, t, x')
    decreases |x|
  {
    hide TweakBlock, Double;
    var n := |x| / 16 * 16;
    assert x[..16] == x[..n][..16] == x'[..n][..16] == x'[..16];
    if |x| >= 32 {
      assert x[16..][..n - 16] == x[..n][16..] == x'[..n][16..] == x'[16..][..n - 16];
      InPlaceForgetsTail(e, Double(t), x[16..], x'[16..]);
    }
  }

  /**
   For one length, decryption recovers every in-place encryption exactly if the length is a whole number of blocks.
   */
  lemma InPlaceRoundTrip(e: BlockFn, d: BlockFn, t: Block, n: nat)
    requires Inverses(e, d) && n >= 16
    ensures (forall x: seq<byte> :: |x| == n ==> Decrypt(d, t, EncryptInPlace(e, t, x)) == x) <==> n % 16 == 0
  {
    hide TweakBlock, Double, Encrypt, Decrypt, EncryptInPlace, DecryptInPlace;
    if n % 16 == 0 {
      forall x: seq<byte> | |x| == n
        ensures Decrypt(d, t, EncryptInPlace(e, t, x)) == x
      {
        InPlaceWholeBlocks(e, t, x);
        XtsInverts(e, d, t, x);
      }
    } else {
      var x := Zeros(n);
      var x' := x[n - 1 := 1];
      InPlaceForgetsTail(e, t, x, x');
      assert x[n - 1] != x'[n - 1];
      assert EncryptInPlace(e, t, x) == EncryptInPlace(e, t, x');
    }
  }

  /** Encryption undoes decryption as well. */
  lemma {:induction false} XtsRestores(e: BlockFn, d: BlockFn, t: Block, y: seq<byte>)
    requires Inverses(e, d) && Remaining(|y|)
    ensures Encrypt(e, t, Decrypt(d, t, y)) == y
    decreases |y|
  {
    hide TweakBlock, Double;
    if |y| > 0 {
      var x := Decrypt(d, t, y);
      if 16 < |y| < 32 {
        var p := TweakBlock(d, Double(t), y[..16]);
        var cc: Block := y[16..] + p[|y| - 16..];
        TweakBlockInverts(d, e, t, cc);
        TweakBlockInverts(d, e, Double(t), y[..16]);
        StolenBytes(y, p, cc, x, TweakBlock(d, t, cc));
      } else {
        var p := TweakBlock(d, t, y[..16]);
        TweakBlockInverts(d, e, t, y[..16]);
        XtsRestores(e, d, Double(t), y[16..]);
        assert x[..16] == p && x[16..] == Decrypt(d, Double(t), y[16..]);
        assert y == y[..16] + y[16..];
      }
    }
  }

  lemma {:induction false} InPlaceDecryptForgetsTail(d: BlockFn, t: Block, y: seq<byte>, y': seq<byte>)
    requires |y| == |y'| > 16 && |y| % 16 != 0
    requires y[..|y| / 16 * 16] == y'[..|y| / 16 * 16]
    ensures DecryptInPlace(d, t, y) == DecryptInPlace(d, t, y')
    decreases |y|
  {
    hide TweakBlock, Double;
    var n := |y| / 16 * 16;
    assert y[..16] == y[..n][..16] == y'[..n][..16] == y'[..16];
    if |y| >= 32 {
      assert y[16..][..n - 16] == y[..n][16..] == y'[..n][16..] == y'[16..][..n - 16];
      InPlaceDecryptForgetsTail(d, Double(t), y[16..], y'[16..]);
    }
  }

  /** In-place decryption recovers every encryption of one length exactly if the length is a whole number of blocks. */
  lemma InPlaceDecryptRoundTrip(e: BlockFn, d: BlockFn, t: Block, n: nat)
    requires Inverses(e, d) && n >= 16
    ensures (forall x: seq<byte> :: |x| == n ==> DecryptInPlace(d, t, Encrypt(e, t, x)) == x) <==> n % 16 == 0
  {
    hide TweakBlock, Double, Encrypt, Decrypt, EncryptInPlace, DecryptInPlace;
    if n % 16 == 0 {
      forall x: seq<byte> | |x| == n
        ensures DecryptInPlace(d, t, Encrypt(e, t, x)) == x
      {
        InPlaceWholeBlocks(d, t, Encrypt(e, t, x));
        XtsInverts(e, d, t, x);
      }
    } else {
      var y := Zeros(n);
      var y' := y[n - 1 := 1];
      InPlaceDecryptForgetsTail(d, t, y, y');
      XtsRestores(e, d, t, y);
      XtsRestores(e, d, t, y');
      var x, x' := Decrypt(d, t, y), Decrypt(d, t, y');
      assert y[n - 1] != y'[n - 1];
      assert DecryptInPlace(d, t, Encrypt(e, t, x)) == DecryptInPlace(d, t, Encrypt(e, t, x'));
    }
  }

  // ---- tweaks as elements of GF(2^128) ----

  /** The field element of a tweak: byte 0 holds the lowest coefficients. */
  function Load(t: Block): bv128 {
    (t[0] as bv128) | ((t[1] as bv128) << 8) | ((t[2] as bv128) << 16) | ((t[3] as bv128) << 24)
    | ((t[4] as bv128) << 32) | ((t[5] as bv128) << 40) | ((t[6] as bv128) << 48) | ((t[7] as bv128) << 56)
    | ((t[8] as bv128) << 64) | ((t[9] as bv128) << 72) | ((t[10] as bv128) << 80) | ((t[11] as bv128) << 88)
    | ((t[12] as bv128) << 96) | ((t[13] as bv128) << 104) | ((t[14] as bv128) << 112) | ((t[15] as bv128) << 120)
  }

  /** Multiplication by x modulo x^128 + x^7 + x^2 + x + 1. */
  function TimesX(v: bv128): bv128 {
    (v << 1) ^ (if v >> 127 != 0 then 0x87 else 0)
  }

  lemma DoubleIsTimesX(t: Block)
    ensures Load(Double(t)) == TimesX(Load(t))
  {
    var u := Double(t);
    assert u[0] == Reduce(ShiftIn(t[0], 0), TopBit(t[15]));
  }

  /** The tweak of block `i`. */
  function Tweak(t: Block, i: nat): Block
    decreases i
  {
    if i == 0 then t else Tweak(Double(t), i - 1)
  }

  function TimesXPower(v: bv128, i: nat): bv128
    decreases i
  {
    if i == 0 then v else TimesXPower(TimesX(v), i - 1)
  }

  /** The tweak of block `i` is the encrypted data unit times x^i. */
  lemma {:induction false} TweakIsPower(t: Block, i: nat)
    ensures Load(Tweak(t, i)) == TimesXPower(Load(t), i)
    decreases i
  {
    hide Load, Double, TimesX;
    if i > 0 {
      DoubleIsTimesX(t);
      TweakIsPower(Double(t), i - 1);
    }
  }

  lemma FirstBlock(e: BlockFn, t: Block, x: seq<byte>)
    requires Remaining(|x|) && |x| >= 16 && !(16 < |x| < 32)
    ensures Encrypt(e, t, x)[..16] == TweakBlock(e, t, x[..16])
    ensures Encrypt(e, t, x)[16..] == Encrypt(e, Double(t), x[16..])
  {
    hide Double, TweakBlock;
  }

  lemma SliceOfRest(x: seq<byte>, k: nat)
    requires k + 32 <= |x|
    ensures x[16..][k..k + 16] == x[k + 16..k + 32]
  {
  }

  /** Every block that takes no part in stealing is enciphered under its own tweak. */
  lemma {:induction false} BlockUnderTweak(e: BlockFn, t: Block, x: seq<byte>, i: nat)
    requires 16 * (i + 1) + (if |x| % 16 == 0 then 0 else 16) <= |x|
    ensures Encrypt(e, t, x)[16 * i..16 * i + 16] == TweakBlock(e, Tweak(t, i), x[16 * i..16 * i + 16])
    decreases i
  {
    hide Double, TweakBlock, Encrypt;
    FirstBlock(e, t, x);
    if i > 0 {
      var k := 16 * (i - 1);
      assert k + 16 == 16 * i;
      BlockUnderTweak(e, Double(t), x[16..], i - 1);
      SliceOfRest(x, k);
      SliceOfRest(Encrypt(e, t, x), k);
    }
  }
}
