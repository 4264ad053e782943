/** XTS piece by piece: every block and both stolen pieces as equations over the block cipher and the tweak. */
module XtsBlocks {
  import opened Bytes
  import opened AesContext
  import opened Xts

  /** `y` is `x` through `f` with `t` added on both sides. */
  predicate Under(f: BlockFn, t: Block, x: Block, y: Block) {
    Xor(y, t) == f(Xor(x, t))
  }

  lemma TweakBlockIsUnder(f: BlockFn, t: Block, x: Block)
    ensures Under(f, t, x, TweakBlock(f, t, x))
  {
    hide Xor;
    XorCancel(f(Xor(x, t)), t);
  }

  lemma TweakNext(t: Block, i: nat)
    ensures Tweak(t, i + 1) == Tweak(Double(t), i)
  {
    hide Double;
  }

  /** Ciphertext block `i` outside ciphertext stealing: the tweak is the start times x^i, and is added on both sides. */
  lemma EncryptedBlock(e: BlockFn, t: Block, x: seq<byte>, i: nat)
    requires 16 * (i + 1) + (if |x| % 16 == 0 then 0 else 16) <= |x|
    ensures Load(Tweak(t, i)) == TimesXPower(Load(t), i)
    ensures Under(e, Tweak(t, i), x[16 * i..16 * i + 16], Encrypt(e, t, x)[16 * i..16 * i + 16])
  {
    hide Xor, Double, TweakBlock, Encrypt, Under, Load;
    TweakIsPower(t, i);
    BlockUnderTweak(e, t, x, i);
    TweakBlockIsUnder(e, Tweak(t, i), x[16 * i..16 * i + 16]);
  }

  lemma FirstDecrypted(d: BlockFn, t: Block, y: seq<byte>)
    requires |y| >= 16 && !(16 < |y| < 32)
    ensures Decrypt(d, t, y)[..16] == TweakBlock(d, t, y[..16])
    ensures Decrypt(d, t, y)[16..] == Decrypt(d, Double(t), y[16..])
  {
    hide Double, TweakBlock;
  }

  /** Plaintext block `i`, in the same way. */
  lemma {:induction false} DecryptedBlock(d: BlockFn, t: Block, y: seq<byte>, i: nat)
    requires 16 * (i + 1) + (if |y| % 16 == 0 then 0 else 16) <= |y|
    ensures Load(Tweak(t, i)) == TimesXPower(Load(t), i)
    ensures Under(d, Tweak(t, i), y[16 * i..16 * i + 16], Decrypt(d, t, y)[16 * i..16 * i + 16])
    decreases i
  {
    hide Xor, Double, TweakBlock, Decrypt, Under, Load;
    TweakIsPower(t, i);
    FirstDecrypted(d, t, y);
    if i == 0 {
      TweakBlockIsUnder(d, t, y[..16]);
    } else {
      var k := 16 * (i - 1);
      assert k + 16 == 16 * i;
      DecryptedBlock(d, Double(t), y[16..], i - 1);
      TweakNext(t, i - 1);
      SliceOfRest(y, k);
      SliceOfRest(Decrypt(d, t, y), k);
    }
  }

  lemma SliceToEnd(x: seq<byte>, k: nat)
    requires k + 16 <= |x|
    ensures x[16..][k..] == x[k + 16..]
  {
  }

  /**
   Ciphertext stealing with `m` whole blocks and a rest: the last whole plaintext block gives a block `c` under its own
   tweak; the rest of the output is the front of `c`, and the last whole ciphertext block is the rest of the input and
   the tail of `c` under the next tweak.
   */
  lemma {:induction false} EncryptedTail(e: BlockFn, t: Block, x: seq<byte>, m: nat) returns (c: Block)
    requires 0 < m && 16 * m < |x| < 16 * m + 16
    ensures var y, k := Encrypt(e, t, x), 16 * (m - 1);
            && Under(e, Tweak(t, m - 1), x[k..k + 16], c)
            && y[k + 16..] == c[..|x| - 16 * m]
            && Under(e, Tweak(t, m), x[k + 16..] + c[|x| - 16 * m..], y[k..k + 16])
    decreases m
  {
    hide Xor, Double, TweakBlock, Under;
    if m == 1 {
      var b := |x| - 16;
      c := TweakBlock(e, t, x[..16]);
      TweakBlockIsUnder(e, t, x[..16]);
      TweakBlockIsUnder(e, Double(t), x[16..] + c[b..]);
      TweakNext(t, 0);
      StolenSlices(e, t, x, c);
    } else {
      c := EncryptedTail(e, Double(t), x[16..], m - 1);
      FirstBlock(e, t, x);
      var k := 16 * (m - 2);
      assert k + 16 == 16 * (m - 1);
      TweakNext(t, m - 2);
      TweakNext(t, m - 1);
      SliceOfRest(x, k);
      SliceToEnd(x, k + 16);
      SliceOfRest(Encrypt(e, t, x), k);
      SliceToEnd(Encrypt(e, t, x), k + 16);
    }
  }

  lemma StolenSlices(e: BlockFn, t: Block, x: seq<byte>, c: Block)
    requires 16 < |x| < 32 && c == TweakBlock(e, t, x[..16])
    ensures var y := Encrypt(e, t, x);
            y[..16] == TweakBlock(e, Double(t), x[16..] + c[|x| - 16..]) && y[16..] == c[..|x| - 16]
  {
    hide Double, TweakBlock;
  }

  /** The same for decryption, which uses the two tweaks in the opposite order. */
  lemma {:induction false} DecryptedTail(d: BlockFn, t: Block, y: seq<byte>, m: nat) returns (p: Block)
    requires 0 < m && 16 * m < |y| < 16 * m + 16
    ensures var x, k := Decrypt(d, t, y), 16 * (m - 1);
            && Under(d, Tweak(t, m), y[k..k + 16], p)
            && x[k + 16..] == p[..|y| - 16 * m]
            && Under(d, Tweak(t, m - 1), y[k + 16..] + p[|y| - 16 * m..], x[k..k + 16])
    decreases m
  {
    hide Xor, Double, TweakBlock, Under;
    if m == 1 {
      var b := |y| - 16;
      p := TweakBlock(d, Double(t), y[..16]);
      TweakBlockIsUnder(d, Double(t), y[..16]);
      TweakBlockIsUnder(d, t, y[16..] + p[b..]);
      TweakNext(t, 0);
      UnstolenSlices(d, t, y, p);
    } else {
      p := DecryptedTail(d, Double(t), y[16..], m - 1);
      FirstDecrypted(d, t, y);
      var k := 16 * (m - 2);
      assert k + 16 == 16 * (m - 1);
      TweakNext(t, m - 2);
      TweakNext(t, m - 1);
      SliceOfRest(y, k);
      SliceToEnd(y, k + 16);
      SliceOfRest(Decrypt(d, t, y), k);
      SliceToEnd(Decrypt(d, t, y), k + 16);
    }
  }

  lemma UnstolenSlices(d: BlockFn, t: Block, y: seq<byte>, p: Block)
    requires 16 < |y| < 32 && p == TweakBlock(d, Double(t), y[..16])
    ensures var x := Decrypt(d, t, y);
            x[..16] == TweakBlock(d, t, y[16..] + p[|y| - 16..]) && x[16..] == p[..|y| - 16]
  {
    hide Double, TweakBlock;
  }

  /** The bit that doubling pushes out at the top comes back as 0x87. */
  lemma TopBitFolds()
    ensures Double(Zeros(15) + [0x80]) == [0x87] + Zeros(15)
  {
  }
}
