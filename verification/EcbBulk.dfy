/** The bulk ECB pass that GCM and CCM share: `sw_ecb_bulk`, `hw_ecb_bulk` and the choice between them. */
module EcbBulk {
  import opened Bytes
  import opened AesKey
  import opened AesContext
  import opened BlockModes
  import Engine

  lemma EcbStep(e: BlockFn, x: seq<byte>, n: nat, done: seq<byte>)
    requires |x| == 16 * n && n > 0
    ensures done + Ecb(e, x, n) == (done + e(x[..16])) + Ecb(e, x[16..], n - 1)
  {
  }

  lemma EcbOfNothing(e: BlockFn)
    ensures Ecb(e, [], 0) == []
  {
  }

  /** One block of the bulk pass. */
  method EncipherOne(aes: Context, at: nat, input: array<byte>, output: array<byte>) returns (ghost y: Block)
    requires aes.Keyed() && at + 16 <= input.Length && at + 16 <= output.Length && input != output
    modifies output
    ensures y == Cipher(aes.key)(input[at..at + 16])
    ensures forall k :: 0 <= k < output.Length ==> output[k] == if at <= k < at + 16 then y[k - at] else old(output[k])
  {
    hide Cipher;
    var block := aes.CryptEcb(EncryptMode, input[at..at + 16]);
    PutBlock(output, at, block);
    y := block;
  }

  lemma NextBlock(x: seq<byte>, i: nat, n: nat)
    requires i < n && 16 * n <= |x|
    ensures x[16 * i..16 * n][..16] == x[16 * i..16 * i + 16]
    ensures x[16 * i..16 * n][16..] == x[16 * (i + 1)..16 * n]
  {
  }

  /** `sw_ecb_bulk`. */
  method SwEcbBulk(aes: Context, input: array<byte>, n: nat, output: array<byte>)
    requires aes.Keyed() && 16 * n <= input.Length && 16 * n <= output.Length && input != output
    modifies output
    ensures output[..16 * n] == Ecb(Cipher(aes.key), input[..16 * n], n)
  {
    hide Cipher, Ecb;
    ghost var e := Cipher(aes.key);
    ghost var rest := input[..16 * n];
    ghost var goal := Ecb(e, rest, n);
    ghost var done: seq<byte> := [];
    var i := 0;
    while i < n
      invariant 0 <= i <= n && |done| == 16 * i && rest == input[..][16 * i..16 * n]
      invariant done + Ecb(e, rest, n - i) == goal
      invariant forall k :: 0 <= k < 16 * i ==> output[k] == done[k]
    {
      EcbStep(e, rest, n - i, done);
      NextBlock(input[..], i, n);
      ghost var y := EncipherOne(aes, 16 * i, input, output);
      done, rest := done + y, rest[16..];
      i := i + 1;
    }
    EcbOfNothing(e);
  }

  /** Enciphers `n` blocks, by the engine or in software, which cannot fail. */
  method EncipherBlocks(answer: Engine.Answer, aes: Context, hwKey: seq<bv32>, useHw: bool, input: array<byte>,
                        n: nat, output: array<byte>)
    returns (done: bool)
    requires aes.Keyed() && hwKey == aes.key
    requires 16 * n <= input.Length && 16 * n <= output.Length && input != output
    modifies output
    ensures done <==> !useHw || n == 0 || answer.Served?
    ensures done ==> output[..16 * n] == Ecb(Cipher(aes.key), input[..16 * n], n)
  {
    hide Cipher, Ecb;
    if useHw && n == 0 {
      EcbOfNothing(Cipher(aes.key));
      done := true;
    } else if useHw {
      done := Engine.RequestEcb(answer, hwKey, input[..16 * n], n, output);
    } else {
      SwEcbBulk(aes, input, n, output);
      done := true;
    }
  }
}
