/** `mbedtls_aes_crypt_xts` and its tweak update. */
module XtsCode {
  import opened Bytes
  import opened AesContext
  import opened AesKey
  import opened Xts

  /** `xts_mul_tweak`: the byte-carry loop. */
  method MulTweak(tweak: array<byte>)
    requires tweak.Length == 16
    modifies tweak
    ensures tweak[..] == Double(old(tweak[..]))
  {
    hide TopBit, ShiftIn, Reduce;
    var cin: byte := 0;
    var j := 0;
    while j < 16
      invariant 0 <= j <= 16
      invariant cin == if j == 0 then 0 else TopBit(old(tweak[j - 1]))
      invariant forall k :: 0 <= k < j ==>
                  tweak[k] == ShiftIn(old(tweak[k]), if k == 0 then 0 else TopBit(old(tweak[k - 1])))
      invariant forall k :: j <= k < 16 ==> tweak[k] == old(tweak[k])
    {
      var cout := TopBit(tweak[j]);
      tweak[j] := ShiftIn(tweak[j], cin);
      cin := cout;
      j := j + 1;
    }
    tweak[0] := Reduce(tweak[0], cin);
  }

  /** XOR with the tweak, AES, XOR with the tweak: the body that every block shares. */
  method CryptBlock(ctx: Context, mode: Mode, t: Block, x: Block) returns (y: Block)
    requires ctx.Keyed()
    ensures y == TweakBlock(Direction(mode, ctx.key), t, x)
  {
    hide Cipher, Decipher, Xor;
    var tmp := ctx.CryptEcb(mode, Xor(x, t));
    y := Xor(tmp, t);
  }

  /** What a call leaves in the output: IEEE 1619, or, for one shared buffer, the in-place variant. */
  function Result(mode: Mode, shared: bool, f: BlockFn, t: Block, x: seq<byte>): (y: seq<byte>)
    requires Remaining(|x|)
    ensures |y| == |x|
  {
    match mode
    case EncryptMode => if shared then EncryptInPlace(f, t, x) else Encrypt(f, t, x)
    case DecryptMode => if shared then DecryptInPlace(f, t, x) else Decrypt(f, t, x)
  }

  /** Between separate buffers, AES-XTS decryption undoes encryption for every length from one block up. */
  lemma AesXtsInverts(key: Key, t: Block, x: seq<byte>)
    requires |x| >= 16
    ensures Result(DecryptMode, false, Direction(DecryptMode, key), t,
                   Result(EncryptMode, false, Direction(EncryptMode, key), t, x)) == x
  {
    hide Cipher, Decipher, Encrypt, Decrypt;
    CipherInverts(key);
    XtsInverts(Cipher(key), Decipher(key), t, x);
  }

  lemma ResultStep(mode: Mode, shared: bool, f: BlockFn, t: Block, x: seq<byte>)
    requires |x| >= 16 && !(16 < |x| < 32)
    ensures Result(mode, shared, f, t, x) == TweakBlock(f, t, x[..16]) + Result(mode, shared, f, Double(t), x[16..])
  {
    hide TweakBlock, Double;
  }

  function FirstTweak(mode: Mode, t: Block): Block {
    if mode == EncryptMode then t else Double(t)
  }

  function SecondTweak(mode: Mode, t: Block): Block {
    if mode == EncryptMode then Double(t) else t
  }

  /** Ciphertext stealing, with both directions and both buffer layouts in one formula. */
  lemma ResultOfStealing(mode: Mode, shared: bool, f: BlockFn, t: Block, x: seq<byte>, c: Block, prev: Block)
    requires 16 < |x| < 32
    requires c == TweakBlock(f, FirstTweak(mode, t), x[..16])
    requires prev == (if shared then c[..|x| - 16] else x[16..]) + c[|x| - 16..]
    ensures Result(mode, shared, f, t, x) == TweakBlock(f, SecondTweak(mode, t), prev) + c[..|x| - 16]
  {
    hide TweakBlock, Double;
    var b := |x| - 16;
    assert c[..b] + c[b..] == c;
  }

  /** The ciphertext-stealing tail; the bytes behind the block are read after the stolen ones were written there. */
  method Steal(ctx: Context, mode: Mode, tweak: Block, left: nat, off: nat, input: array<byte>, output: array<byte>)
    requires ctx.Keyed() && 0 < left < 16
    requires off + 16 + left <= input.Length && off + 16 + left <= output.Length
    modifies output
    ensures forall k :: 0 <= k < off || off + 16 + left <= k < output.Length ==> output[k] == old(output[k])
    ensures output[off..off + 16 + left]
         == Result(mode, input == output, Direction(mode, ctx.key), tweak, old(input[off..off + 16 + left]))
  {
    hide Direction, TweakBlock, Result, FirstTweak, SecondTweak;
    ghost var x := input[off..off + 16 + left];
    ghost var f := Direction(mode, ctx.key);
    var first := input[off..off + 16];
    assert first == x[..16];
    var c := CryptBlock(ctx, mode, FirstTweak(mode, tweak), first);
    Copy(c[..left], output, off + 16);
    var behind := input[off + 16..off + 16 + left];
    assert behind == if input == output then c[..left] else x[16..];
    var prev := behind + c[left..];
    var last := CryptBlock(ctx, mode, SecondTweak(mode, tweak), prev);
    Copy(last, output, off);
    ResultOfStealing(mode, input == output, f, tweak, x, c, prev);
    assert output[off..off + 16] == last && output[off + 16..off + 16 + left] == c[..left];
    assert output[off..off + 16 + left] == output[off..off + 16] + output[off + 16..off + 16 + left];
  }

  /** One whole block of the main loop. */
  method CryptOne(ctx: Context, mode: Mode, tweak: array<byte>, off: nat, input: array<byte>, output: array<byte>)
    returns (ghost y: Block)
    requires ctx.Keyed() && tweak.Length == 16 && tweak != input && tweak != output
    requires off + 16 <= input.Length && off + 16 <= output.Length
    modifies tweak, output
    ensures y == TweakBlock(Direction(mode, ctx.key), old(tweak[..]), old(input[off..off + 16]))
    ensures tweak[..] == Double(old(tweak[..]))
    ensures forall k :: 0 <= k < output.Length ==>
              output[k] == if off <= k < off + 16 then y[k - off] else old(output[k])
  {
    hide Direction, TweakBlock, Double;
    var block := CryptBlock(ctx, mode, tweak[..], input[off..off + 16]);
    PutBlock(output, off, block);
    MulTweak(tweak);
    y := block;
  }

  /** The main loop: `blocks` whole blocks, after which `tweak` is the one for what is left. */
  method CryptWhole(ctx: Context, mode: Mode, blocks: nat, tweak: array<byte>, length: nat, input: array<byte>,
                    output: array<byte>)
    requires ctx.Keyed() && tweak.Length == 16 && tweak != input && tweak != output
    requires length <= input.Length && length <= output.Length
    requires 16 * blocks <= length && (16 * blocks == length || length - 16 * blocks > 16)
    modifies tweak, output
    ensures forall k :: 16 * blocks <= k < output.Length ==> output[k] == old(output[k])
    ensures output[..16 * blocks]
            + Result(mode, input == output, Direction(mode, ctx.key), tweak[..], old(input[16 * blocks..length]))
         == Result(mode, input == output, Direction(mode, ctx.key), old(tweak[..]), old(input[..length]))
  {
    hide Direction, TweakBlock, Double, Result;
    ghost var f := Direction(mode, ctx.key);
    ghost var shared := input == output;
    ghost var rest := input[..length];
    ghost var y := Result(mode, shared, f, tweak[..], rest);
    ghost var done: seq<byte> := [];
    var i, off := 0, 0;
    while i < blocks
      invariant 0 <= i <= blocks && off == 16 * i && |done| == off && rest == old(input[off..length])
      invariant done + Result(mode, shared, f, tweak[..], rest) == y
      invariant forall k :: 0 <= k < off ==> output[k] == done[k]
      invariant forall k :: off <= k < output.Length ==> output[k] == old(output[k])
      invariant forall k :: off <= k < length ==> input[k] == rest[k - off]
    {
      ResultStep(mode, shared, f, tweak[..], rest);
      assert input[off..off + 16] == rest[..16];
      ghost var block := CryptOne(ctx, mode, tweak, off, input, output);
      Regroup(done, block, Result(mode, shared, f, tweak[..], rest[16..]));
      done, rest := done + block, rest[16..];
      i, off := i + 1, off + 16;
    }
    assert output[..16 * blocks] == done;
  }

  lemma NothingLeft(mode: Mode, shared: bool, f: BlockFn, t: Block)
    ensures Result(mode, shared, f, t, []) == []
  {
  }

  /** `mbedtls_aes_crypt_xts`. */
  method CryptXts(ctx: Context, tweakCtx: Context, mode: Mode, length: nat, dataUnit: Block,
                  input: array<byte>, output: array<byte>) returns (status: Status)
    requires ctx.Keyed() && tweakCtx.Keyed()
    requires length <= input.Length && length <= output.Length
    modifies output
    ensures status == if length < 16 then InvalidInputLength else Ok
    ensures status != Ok ==> output[..] == old(output[..])
    ensures status == Ok ==>
              && output[..length]
              == Result(mode, input == output, Direction(mode, ctx.key), Cipher(tweakCtx.key)(dataUnit),
                                            old(input[..length]))
              && output[length..] == old(output[length..])
  {
    hide Direction, Cipher, TweakBlock, Double, Result;
    if length < 16 {
      return InvalidInputLength;
    }
    var t0 := tweakCtx.CryptEcb(EncryptMode, dataUnit);
    var tweak := new byte[16];
    Fill(tweak, t0);
    var blocks, leftover := length / 16, length % 16;
    if leftover != 0 {
      blocks := blocks - 1;
    }
    CryptWhole(ctx, mode, blocks, tweak, length, input, output);
    var off := 16 * blocks;
    ghost var done := output[..off];
    if leftover != 0 {
      assert input[off..length] == old(input[off..length]);
      Steal(ctx, mode, tweak[..], leftover, off, input, output);
      assert output[..off] == done;
      assert output[..length] == output[..off] + output[off..length];
    } else {
      NothingLeft(mode, input == output, Direction(mode, ctx.key), tweak[..]);
    }
    return Ok;
  }
}
