/** `mbedtls_aes_crypt_cbc`: threshold dispatch between the engine and the software loops. */
module CbcCode {
  import opened Bytes
  import opened AesKey
  import opened AesContext
  import opened BlockModes
  import Engine

  /** The chaining value that a CBC call leaves behind: the last ciphertext block. */
  function NextIv(mode: Mode, key: Key, iv: Block, x: seq<byte>): Block
    requires |x| % 16 == 0
  {
    LastBlock(iv, if mode == EncryptMode then CbcEncrypt(Cipher(key), iv, x) else x)
  }

  /** What AES-CBC encrypts it decrypts, whatever the key, the IV and the number of blocks. */
  lemma AesCbcInverts(key: Key, iv: Block, x: seq<byte>)
    requires |x| % 16 == 0
    ensures Engine.Cbc(DecryptMode, key, iv, Engine.Cbc(EncryptMode, key, iv, x)) == x
  {
    hide Cipher, Decipher;
    CipherInverts(key);
    CbcInverts(Cipher(key), Decipher(key), iv, x);
  }

  /** In either direction, two calls that carry the IV produce the output and the IV of one call. */
  lemma CallsCompose(mode: Mode, key: Key, iv: Block, a: seq<byte>, b: seq<byte>)
    requires |a| % 16 == 0 && |b| % 16 == 0
    ensures var next := NextIv(mode, key, iv, a);
            && Engine.Cbc(mode, key, iv, a + b) == Engine.Cbc(mode, key, iv, a) + Engine.Cbc(mode, key, next, b)
            && NextIv(mode, key, iv, a + b) == NextIv(mode, key, next, b)
  {
    hide Cipher, Decipher, CbcEncrypt, CbcDecrypt, LastBlock;
    match mode
    case EncryptMode =>
      var first := CbcEncrypt(Cipher(key), iv, a);
      CbcEncryptSplits(Cipher(key), iv, a, b);
      LastBlockSplits(iv, first, CbcEncrypt(Cipher(key), LastBlock(iv, first), b));
    case DecryptMode =>
      CbcDecryptSplits(Decipher(key), iv, a, b);
      LastBlockSplits(iv, a, b);
  }

  /** What the software finds in the input: in place, an engine that stopped early has written over it. */
  function Seen(dev: Engine.Device, hasHw: bool, shared: bool, x: seq<byte>): (s: seq<byte>)
    ensures |s| == |x|
  {
    if shared && hasHw && |x| >= 32 && dev.available && dev.cbc.Stopped? then Engine.Torn(x, dev.cbc.written) else x
  }

  /** CBC tells all inputs apart, in either direction. */
  lemma CbcIsInjective(mode: Mode, key: Key, iv: Block, x: seq<byte>, y: seq<byte>)
    requires |x| % 16 == 0 && |y| % 16 == 0
    ensures Engine.Cbc(mode, key, iv, x) == Engine.Cbc(mode, key, iv, y) <==> x == y
  {
    hide Cipher, Decipher;
    CipherInverts(key);
    match mode
    case EncryptMode =>
      CbcInverts(Cipher(key), Decipher(key), iv, x);
      CbcInverts(Cipher(key), Decipher(key), iv, y);
    case DecryptMode =>
      CbcRestores(Cipher(key), Decipher(key), iv, x);
      CbcRestores(Cipher(key), Decipher(key), iv, y);
  }

  /**
   The fall-back to software gives the right result exactly if the engine did not write other bytes over the input.
   */
  lemma FallbackIsExact(dev: Engine.Device, hasHw: bool, shared: bool, mode: Mode, key: Key, iv: Block, x: seq<byte>)
    requires |x| % 16 == 0
    ensures Engine.Cbc(mode, key, iv, Seen(dev, hasHw, shared, x)) == Engine.Cbc(mode, key, iv, x)
       <==> (shared && hasHw && |x| >= 32 && dev.available && dev.cbc.Stopped? ==>
               dev.cbc.written[..Min(|dev.cbc.written|, |x|)] <= x)
  {
    hide Engine.Cbc;
    CbcIsInjective(mode, key, iv, Seen(dev, hasHw, shared, x), x);
    if dev.cbc.Stopped? {
      TornIsWhole(x, dev.cbc.written);
    }
  }

  /** It can be wrong: two zero blocks in place, of which the engine overwrote one byte before it stopped. */
  lemma FallbackCanFail(mode: Mode, key: Key, iv: Block)
    ensures var dev := Engine.Device(true, Engine.Served, Engine.Stopped([1]));
            Engine.Cbc(mode, key, iv, Seen(dev, true, true, Zeros(32))) != Engine.Cbc(mode, key, iv, Zeros(32))
  {
    hide Engine.Cbc;
    var dev := Engine.Device(true, Engine.Served, Engine.Stopped([1]));
    FallbackIsExact(dev, true, true, mode, key, iv, Zeros(32));
    assert dev.cbc.written[..1][0] == 1 && Zeros(32)[0] == 0;
  }

  lemma TornIsWhole(x: seq<byte>, written: seq<byte>)
    ensures Engine.Torn(x, written) == x <==> written[..Min(|written|, |x|)] <= x
  {
    var n := Min(|written|, |x|);
    assert x == x[..n] + x[n..];
    assert Engine.Torn(x, written)[..n] == written[..n];
  }

  /** `hw_cbc`: on success it reloads the IV from the buffers as they are after the transfer. */
  method HwCbc(dev: Engine.Device, key: Key, iv: array<byte>, mode: Mode, length: nat, input: array<byte>,
               output: array<byte>)
    returns (done: bool)
    requires iv.Length == 16 && iv != input && iv != output
    requires 16 <= length && length % 16 == 0 && length <= input.Length && length <= output.Length
    modifies iv, output
    ensures done <==> dev.available && dev.cbc.Served?
    ensures !done ==> iv[..] == old(iv[..]) && output[length..] == old(output[length..])
    ensures !done && !dev.available ==> output[..] == old(output[..])
    ensures !done && dev.available ==> output[..length] == Engine.Torn(old(output[..length]), dev.cbc.written)
    ensures done ==>
              && output[..] == Engine.Cbc(mode, key, old(iv[..]), old(input[..length])) + old(output[length..])
              && iv[..] == if mode == EncryptMode then output[length - 16..length] else input[length - 16..length]
  {
    hide Engine.Cbc;
    if !dev.available {
      return false;
    }
    done := Engine.RequestCbc(dev.cbc, key, iv[..], mode, length, input, output);
    if done {
      Copy(if mode == EncryptMode then output[length - 16..length] else input[length - 16..length], iv, 0);
    }
  }

  /** One step of the software encryption loop's bookkeeping. */
  lemma EncryptStep(e: BlockFn, iv: Block, x: seq<byte>)
    requires |x| % 16 == 0 && x != []
    ensures var c := e(Xor(x[..16], iv));
            && CbcEncrypt(e, iv, x) == c + CbcEncrypt(e, c, x[16..])
            && LastBlock(iv, CbcEncrypt(e, iv, x)) == LastBlock(c, CbcEncrypt(e, c, x[16..]))
  {
    hide Xor;
    var c := e(Xor(x[..16], iv));
    LastBlockSkips(iv, c, CbcEncrypt(e, c, x[16..]));
  }

  lemma DecryptStep(d: BlockFn, iv: Block, y: seq<byte>)
    requires |y| % 16 == 0 && y != []
    ensures CbcDecrypt(d, iv, y) == Xor(d(y[..16]), iv) + CbcDecrypt(d, y[..16], y[16..])
    ensures LastBlock(iv, y) == LastBlock(y[..16], y[16..])
  {
    hide Xor;
    assert y == y[..16] + y[16..];
    LastBlockSkips(iv, y[..16], y[16..]);
  }

  lemma LastOf(iv: Block, y: seq<byte>)
    requires |y| % 16 == 0 && y != []
    ensures LastBlock(iv, y) == y[|y| - 16..]
  {
  }

  lemma NothingLeft(f: BlockFn, iv: Block)
    ensures CbcEncrypt(f, iv, []) == [] == CbcDecrypt(f, iv, [])
    ensures LastBlock(iv, []) == iv
  {
  }

  /** One block of the encryption loop. */
  method EncryptOne(ctx: Context, off: nat, iv: array<byte>, input: array<byte>, output: array<byte>)
    requires ctx.Keyed() && iv.Length == 16 && iv != input && iv != output
    requires off + 16 <= input.Length && off + 16 <= output.Length
    modifies iv, output
    ensures iv[..] == Cipher(ctx.key)(Xor(old(input[off..off + 16]), old(iv[..])))
    ensures forall k :: 0 <= k < output.Length ==>
              output[k] == if off <= k < off + 16 then iv[k - off] else old(output[k])
  {
    hide Cipher, Xor;
    var block := ctx.CryptEcb(EncryptMode, Xor(input[off..off + 16], iv[..]));
    PutBlock(output, off, block);
    Fill(iv, block);
  }

  /**
   One block of the decryption loop: the ciphertext is saved before the output, perhaps the same buffer, is written.
   */
  method DecryptOne(ctx: Context, off: nat, iv: array<byte>, input: array<byte>, output: array<byte>)
    returns (ghost block: seq<byte>)
    requires ctx.Keyed() && iv.Length == 16 && iv != input && iv != output
    requires off + 16 <= input.Length && off + 16 <= output.Length
    modifies iv, output
    ensures iv[..] == old(input[off..off + 16])
    ensures block == Xor(Decipher(ctx.key)(old(input[off..off + 16])), old(iv[..]))
    ensures forall k :: 0 <= k < output.Length ==>
              output[k] == if off <= k < off + 16 then block[k - off] else old(output[k])
  {
    hide Decipher, Xor;
    var tmp := input[off..off + 16];
    var plain := ctx.CryptEcb(DecryptMode, tmp);
    block := Xor(plain, iv[..]);
    PutBlock(output, off, Xor(plain, iv[..]));
    Fill(iv, tmp);
  }

  method SwCbcEncrypt(ctx: Context, length: nat, iv: array<byte>, input: array<byte>, output: array<byte>)
    requires ctx.Keyed() && iv.Length == 16 && iv != input && iv != output
    requires length % 16 == 0 && length <= input.Length && length <= output.Length
    modifies iv, output
    ensures output[..] == CbcEncrypt(Cipher(ctx.key), old(iv[..]), old(input[..length])) + old(output[length..])
    ensures iv[..] == LastBlock(old(iv[..]), CbcEncrypt(Cipher(ctx.key), old(iv[..]), old(input[..length])))
  {
    hide Cipher, Xor, CbcEncrypt, LastBlock;
    ghost var e := Cipher(ctx.key);
    ghost var v: Block := iv[..];
    ghost var rest := input[..length];
    ghost var y := CbcEncrypt(e, v, rest);
    ghost var last := LastBlock(v, y);
    ghost var done: seq<byte> := [];
    var off := 0;
    while off < length
      invariant 0 <= off <= length && off % 16 == 0 && |done| == off && |rest| == length - off
      invariant iv[..] == v
      invariant done + CbcEncrypt(e, v, rest) == y && LastBlock(v, CbcEncrypt(e, v, rest)) == last
      invariant forall k :: 0 <= k < off ==> output[k] == done[k]
      invariant forall k :: off <= k < output.Length ==> output[k] == old(output[k])
      invariant forall k :: off <= k < length ==> input[k] == rest[k - off]
    {
      EncryptStep(e, v, rest);
      assert input[off..off + 16] == rest[..16];
      EncryptOne(ctx, off, iv, input, output);
      v := iv[..];
      Regroup(done, v, CbcEncrypt(e, v, rest[16..]));
      done, rest := done + v, rest[16..];
      off := off + 16;
    }
    NothingLeft(e, v);
  }

  method SwCbcDecrypt(ctx: Context, length: nat, iv: array<byte>, input: array<byte>, output: array<byte>)
    requires ctx.Keyed() && iv.Length == 16 && iv != input && iv != output
    requires length % 16 == 0 && length <= input.Length && length <= output.Length
    modifies iv, output
    ensures output[..] == CbcDecrypt(Decipher(ctx.key), old(iv[..]), old(input[..length])) + old(output[length..])
    ensures iv[..] == LastBlock(old(iv[..]), old(input[..length]))
  {
    hide Decipher, Xor, CbcDecrypt, LastBlock;
    ghost var d := Decipher(ctx.key);
    ghost var v: Block := iv[..];
    ghost var rest := input[..length];
    ghost var x := CbcDecrypt(d, v, rest);
    ghost var last := LastBlock(v, rest);
    ghost var done: seq<byte> := [];
    var off := 0;
    while off < length
      invariant 0 <= off <= length && off % 16 == 0 && |done| == off && |rest| == length - off
      invariant iv[..] == v
      invariant done + CbcDecrypt(d, v, rest) == x && LastBlock(v, rest) == last
      invariant forall k :: 0 <= k < off ==> output[k] == done[k]
      invariant forall k :: off <= k < output.Length ==> output[k] == old(output[k])
      invariant forall k :: off <= k < length ==> input[k] == rest[k - off]
    {
      DecryptStep(d, v, rest);
      assert input[off..off + 16] == rest[..16];
      ghost var block := DecryptOne(ctx, off, iv, input, output);
      v := iv[..];
      Regroup(done, block, CbcDecrypt(d, v, rest[16..]));
      done, rest := done + block, rest[16..];
      off := off + 16;
    }
    NothingLeft(d, v);
  }

  /**
   `mbedtls_aes_crypt_cbc`. Whether the engine served the request, stopped or was never asked, the output and the IV
   are the same, in place too unless the engine wrote to the buffer before it stopped.
   */
  method CryptCbc(dev: Engine.Device, ctx: Context, mode: Mode, length: nat, iv: array<byte>, input: array<byte>,
                  output: array<byte>)
    returns (status: Status)
    requires ctx.Keyed() && iv.Length == 16 && iv != input && iv != output
    requires length <= input.Length && length <= output.Length
    modifies iv, output
    ensures status == if length % 16 == 0 then Ok else InvalidInputLength
    ensures status != Ok ==> output[..] == old(output[..]) && iv[..] == old(iv[..])
    ensures status == Ok ==>
              var x := Seen(dev, ctx.hasHw, input == output, old(input[..length]));
              && output[..] == Engine.Cbc(mode, ctx.key, old(iv[..]), x) + old(output[length..])
              && iv[..] == NextIv(mode, ctx.key, old(iv[..]), x)
  {
    hide Cipher, Decipher, CbcEncrypt, CbcDecrypt, LastBlock;
    if length % 16 != 0 {
      return InvalidInputLength;
    }
    if length == 0 {
      NothingLeft(Cipher(ctx.key), iv[..]);
      NothingLeft(Decipher(ctx.key), iv[..]);
      return Ok;
    }
    if ctx.hasHw && length >= 32 {
      var savedIv := input[length - 16..length];
      LastOf(iv[..], input[..length]);
      LastOf(iv[..], CbcEncrypt(Cipher(ctx.key), iv[..], input[..length]));
      var done := HwCbc(dev, ctx.hwKey, iv, mode, length, input, output);
      if done {
        if mode == DecryptMode {
          Fill(iv, savedIv);
        }
        return Ok;
      }
    }
    if mode == EncryptMode {
      SwCbcEncrypt(ctx, length, iv, input, output);
    } else {
      SwCbcDecrypt(ctx, length, iv, input, output);
    }
    return Ok;
  }
}
