/** The byte loops of `mbedtls_aes_crypt_ctr`, `_ofb` and `_cfb128`, in place or between two buffers. */
module StreamCode {
  import opened Bytes
  import opened AesContext
  import opened StreamModes

  /** The carry loop of `mbedtls_aes_crypt_ctr`; it runs through all sixteen bytes, not only the last four. */
  method IncrementInPlace(nonce: array<byte>)
    modifies nonce
    ensures nonce[..] == Increment(old(nonce[..]))
  {
    hide Increment;
    ghost var head := nonce[..];
    ghost var tail: seq<byte> := [];
    ghost var r := Increment(head);
    var i := nonce.Length - 1;
    while i >= 0
      invariant -1 <= i < nonce.Length && |head| == i + 1 && |tail| == nonce.Length - 1 - i
      invariant r == Increment(head) + tail
      invariant forall k :: 0 <= k <= i ==> nonce[k] == head[k]
      invariant forall k :: i < k < nonce.Length ==> nonce[k] == tail[k - i - 1]
    {
      IncrementStep(head, tail);
      nonce[i] := nonce[i] + 1;
      if nonce[i] != 0 {
        return;
      }
      head, tail := head[..i], [0] + tail;
      i := i - 1;
    }
    assert Increment([]) == [];
  }

  lemma IncrementStep(b: seq<byte>, tail: seq<byte>)
    requires b != []
    ensures var last := b[|b| - 1];
            Increment(b) + tail
            == if last + 1 == 0 then Increment(b[..|b| - 1]) + ([0] + tail) else b[..|b| - 1] + ([last + 1] + tail)
  {
    var last := b[|b| - 1];
    assert last + 1 == 0 <==> last == 0xff;
    if last + 1 == 0 {
      Regroup(Increment(b[..|b| - 1]), [0], tail);
    } else {
      Regroup(b[..|b| - 1], [last + 1], tail);
    }
  }

  /** What is left of a run after its first byte. */
  lemma RunStep<S>(f: Step<S>, s: S, x: seq<byte>, done: seq<byte>)
    requires x != []
    ensures var (s', b) := f(s, x[0]);
            && Run(f, s, x).0 == Run(f, s', x[1..]).0
            && done + Run(f, s, x).1 == (done + [b]) + Run(f, s', x[1..]).1
  {
    var (s', b) := f(s, x[0]);
    assert done + ([b] + Run(f, s', x[1..]).1) == (done + [b]) + Run(f, s', x[1..]).1;
  }

  lemma RunOfNothing<S>(f: Step<S>, s: S)
    ensures Run(f, s, []) == (s, [])
  {
  }

  /** Refills the register at a block boundary. */
  method RefillInPlace(ctx: Context, n: Offset, iv: array<byte>)
    requires ctx.Keyed() && iv.Length == 16
    modifies iv
    ensures iv[..] == Refill(Cipher(ctx.key), Register(n, old(iv[..])))
  {
    hide Cipher;
    if n == 0 {
      var block := ctx.CryptEcb(EncryptMode, iv[..]);
      Fill(iv, block);
    }
  }

  /** One turn of the OFB loop. */
  method OfbOne(ctx: Context, n: Offset, iv: array<byte>, b: byte) returns (out: byte)
    requires ctx.Keyed() && iv.Length == 16
    modifies iv
    ensures Ofb(Cipher(ctx.key))(Register(n, old(iv[..])), b) == (Register(Wrap(n + 1), iv[..]), out)
  {
    hide Cipher, Add, Refill;
    RefillInPlace(ctx, n, iv);
    out := Add(b, iv[n]);
  }

  method CryptOfb(ctx: Context, length: nat, n0: Offset, iv: array<byte>, input: array<byte>, output: array<byte>)
    returns (n: Offset)
    requires ctx.Keyed() && iv.Length == 16 && iv != input && iv != output
    requires length <= input.Length && length <= output.Length
    modifies iv, output
    ensures var (t, y) := Run(Ofb(Cipher(ctx.key)), Register(n0, old(iv[..])), old(input[..length]));
            && output[..] == y + old(output[length..])
            && Register(n, iv[..]) == t
  {
    hide Cipher, Ofb, Run;
    ghost var f := Ofb(Cipher(ctx.key));
    ghost var s := Register(n0, iv[..]);
    ghost var rest := input[..length];
    ghost var r := Run(f, s, rest);
    ghost var done: seq<byte> := [];
    n := n0;
    var i := 0;
    while i < length
      invariant 0 <= i <= length && |done| == i && |rest| == length - i
      invariant s == Register(n, iv[..])
      invariant Run(f, s, rest).0 == r.0 && done + Run(f, s, rest).1 == r.1
      invariant forall k :: 0 <= k < i ==> output[k] == done[k]
      invariant forall k :: i <= k < output.Length ==> output[k] == old(output[k])
      invariant forall k :: i <= k < length ==> input[k] == rest[k - i]
    {
      RunStep(f, s, rest, done);
      var out := OfbOne(ctx, n, iv, input[i]);
      output[i] := out;
      n := Wrap(n + 1);
      s := Register(n, iv[..]);
      done, rest := done + [out], rest[1..];
      i := i + 1;
    }
    RunOfNothing(f, s);
  }

  function Cfb(mode: Mode, e: BlockFn): Step<Register> {
    if mode == EncryptMode then CfbEncrypt(e) else CfbDecrypt(e)
  }

  /** One turn of either CFB128 loop: the ciphertext byte replaces the register byte it used. */
  method CfbOne(ctx: Context, mode: Mode, n: Offset, iv: array<byte>, b: byte) returns (out: byte)
    requires ctx.Keyed() && iv.Length == 16
    modifies iv
    ensures Cfb(mode, Cipher(ctx.key))(Register(n, old(iv[..])), b) == (Register(Wrap(n + 1), iv[..]), out)
  {
    hide Cipher, Add, Refill;
    RefillInPlace(ctx, n, iv);
    ghost var v := iv[..];
    out := Add(b, iv[n]);
    iv[n] := if mode == DecryptMode then b else out;
    assert iv[..] == v[n := if mode == DecryptMode then b else out];
  }

  method CryptCfb128(ctx: Context, mode: Mode, length: nat, n0: Offset, iv: array<byte>, input: array<byte>,
                     output: array<byte>)
    returns (n: Offset)
    requires ctx.Keyed() && iv.Length == 16 && iv != input && iv != output
    requires length <= input.Length && length <= output.Length
    modifies iv, output
    ensures var (t, y) := Run(Cfb(mode, Cipher(ctx.key)), Register(n0, old(iv[..])), old(input[..length]));
            && output[..] == y + old(output[length..])
            && Register(n, iv[..]) == t
  {
    hide Cipher, Cfb, Run;
    ghost var f := Cfb(mode, Cipher(ctx.key));
    ghost var s := Register(n0, iv[..]);
    ghost var rest := input[..length];
    ghost var r := Run(f, s, rest);
    ghost var done: seq<byte> := [];
    n := n0;
    var i := 0;
    while i < length
      invariant 0 <= i <= length && |done| == i && |rest| == length - i
      invariant s == Register(n, iv[..])
      invariant Run(f, s, rest).0 == r.0 && done + Run(f, s, rest).1 == r.1
      invariant forall k :: 0 <= k < i ==> output[k] == done[k]
      invariant forall k :: i <= k < output.Length ==> output[k] == old(output[k])
      invariant forall k :: i <= k < length ==> input[k] == rest[k - i]
    {
      RunStep(f, s, rest, done);
      var out := CfbOne(ctx, mode, n, iv, input[i]);
      output[i] := out;
      n := Wrap(n + 1);
      s := Register(n, iv[..]);
      done, rest := done + [out], rest[1..];
      i := i + 1;
    }
    RunOfNothing(f, s);
  }

  /** One turn of the CTR loop. */
  method CtrOne(ctx: Context, n: Offset, nonce: array<byte>, stream: array<byte>, b: byte) returns (out: byte)
    requires ctx.Keyed() && nonce.Length == 16 && stream.Length == 16 && nonce != stream
    modifies nonce, stream
    ensures Ctr(Cipher(ctx.key))(Counter(n, old(nonce[..]), old(stream[..])), b)
         == (Counter(Wrap(n + 1), nonce[..], stream[..]), out)
  {
    hide Cipher, Add, Increment;
    if n == 0 {
      var block := ctx.CryptEcb(EncryptMode, nonce[..]);
      Fill(stream, block);
      IncrementInPlace(nonce);
    }
    out := Add(b, stream[n]);
  }

  method CryptCtr(ctx: Context, length: nat, n0: Offset, nonce: array<byte>, stream: array<byte>, input: array<byte>,
                  output: array<byte>)
    returns (n: Offset)
    requires ctx.Keyed() && nonce.Length == 16 && stream.Length == 16 && nonce != stream
    requires nonce != input && nonce != output && stream != input && stream != output
    requires length <= input.Length && length <= output.Length
    modifies nonce, stream, output
    ensures var (t, y) := Run(Ctr(Cipher(ctx.key)), Counter(n0, old(nonce[..]), old(stream[..])), old(input[..length]));
            && output[..] == y + old(output[length..])
            && Counter(n, nonce[..], stream[..]) == t
  {
    hide Cipher, Ctr, Run;
    ghost var f := Ctr(Cipher(ctx.key));
    ghost var s := Counter(n0, nonce[..], stream[..]);
    ghost var rest := input[..length];
    ghost var r := Run(f, s, rest);
    ghost var done: seq<byte> := [];
    n := n0;
    var i := 0;
    while i < length
      invariant 0 <= i <= length && |done| == i && |rest| == length - i
      invariant s == Counter(n, nonce[..], stream[..])
      invariant Run(f, s, rest).0 == r.0 && done + Run(f, s, rest).1 == r.1
      invariant forall k :: 0 <= k < i ==> output[k] == done[k]
      invariant forall k :: i <= k < output.Length ==> output[k] == old(output[k])
      invariant forall k :: i <= k < length ==> input[k] == rest[k - i]
    {
      RunStep(f, s, rest, done);
      var out := CtrOne(ctx, n, nonce, stream, input[i]);
      output[i] := out;
      n := Wrap(n + 1);
      s := Counter(n, nonce[..], stream[..]);
      done, rest := done + [out], rest[1..];
      i := i + 1;
    }
    RunOfNothing(f, s);
  }
}
