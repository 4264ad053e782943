/** gcm_alt.c: key set-up, counter blocks, tag computation, and the one-shot encrypt and decrypt calls. */
module GcmCode {
  import opened Bytes
  import opened AesKey
  import opened AesContext
  import opened BlockModes
  import opened Gf128
  import opened GhashTables
  import opened Ghash
  import opened Gcm
  import opened EcbBulk
  import Engine

  /** MBEDTLS_GCM_ALT_SCRATCH_SIZE. */
  const SCRATCH_SIZE: nat := 16448

  /** GCM_ALT_HW_MIN_SIZE: shorter records never reach the engine. */
  const HW_MIN_SIZE: nat := 512

  datatype Status =
    | Done
    | BadInput
    | AuthFailed

  /** Whether the key stream for a text of this length can be had: the scratch buffers hold it, and no engine stops. */
  predicate Works(dev: Engine.Device, length: nat) {
    length <= SCRATCH_SIZE && (length < HW_MIN_SIZE || !dev.available || dev.ecb.Served?)
  }

  /** `build_ctr_blocks`: a 32-bit unsigned counter that wraps. */
  method BuildCtrBlocks(ctr: array<byte>, j0: Block, n: nat)
    requires 16 * n <= ctr.Length
    modifies ctr
    ensures ctr[..16 * n] == CounterBlocks(j0, n)
  {
    hide Inc32, WithCounter, CounterOf, CounterBlocks;
    var c: nat := CounterOf(j0);
    CounterInRange(j0);
    ghost var goal := CounterBlocks(j0, n);
    ghost var done: seq<byte> := [];
    var i := 0;
    while i < n
      invariant 0 <= i <= n && |done| == 16 * i && c < WORD
      invariant done + CounterBlocks(WithCounter(j0, c), n - i) == goal
      invariant forall k :: 0 <= k < 16 * i ==> ctr[k] == done[k]
    {
      CounterReadBack(j0, c);
      NextCounter(WithCounter(j0, c), n - i, done);
      c := (c + 1) % WORD;
      PutBlock(ctr, 16 * i, WithCounter(j0, c));
      done := done + WithCounter(j0, c);
      i := i + 1;
    }
    NoCounters(WithCounter(j0, c));
  }

  lemma NextCounter(j: Block, n: nat, done: seq<byte>)
    requires n > 0
    ensures done + CounterBlocks(j, n) == (done + Inc32(j)) + CounterBlocks(Inc32(j), n - 1)
  {
    hide Inc32;
  }

  lemma NoCounters(j: Block)
    ensures CounterBlocks(j, 0) == []
  {
  }

  /** `mbedtls_gcm_context`. */
  class GcmContext {
    const aes: Context
    var hwKey: seq<bv32>
    var keybits: nat
    var haveKey: bool
    var h: Block
    const hl: array<bv64>
    const hh: array<bv64>
    const scratchCtr: array<byte>
    const scratchKs: array<byte>

    /** The parts that key set-up writes. */
    ghost const keyState: set<object>

    ghost predicate Shape()
      reads this
    {
      && aes.rk.Length == 68
      && hl.Length == 16 && hh.Length == 16 && hl != hh
      && scratchCtr.Length == SCRATCH_SIZE && scratchKs.Length == SCRATCH_SIZE && scratchCtr != scratchKs
      && keyState == {this, aes, aes.rk, hl, hh}
    }

    /** With a key set, the software schedule, the engine's words, the subkey and the tables all belong to that key. */
    ghost predicate Valid()
      reads this, aes, aes.rk, hl, hh
    {
      && Shape()
      && (haveKey ==>
            && aes.Keyed()
            && hwKey == aes.key
            && h == Cipher(aes.key)(ZeroBlock())
            && Tables(hl, hh, Pack(h)))
    }

    /** AES under the current key. */
    ghost function E(): BlockFn
      reads this, aes
    {
      Cipher(aes.key)
    }

    constructor ()
      ensures Valid() && !haveKey
      ensures fresh(keyState) && fresh(scratchCtr) && fresh(scratchKs)
    {
      haveKey := false;
      hwKey, keybits, h := [], 0, ZeroBlock();
      var a := new Context();
      aes := a;
      var l, u := new bv64[16](_ => 0), new bv64[16](_ => 0);
      hl, hh := l, u;
      scratchCtr := new byte[SCRATCH_SIZE](_ => 0);
      scratchKs := new byte[SCRATCH_SIZE](_ => 0);
      keyState := {this, a, a.rk, l, u};
    }

    /** `mbedtls_gcm_setkey` for the AES cipher; the scratch buffers exist from construction. */
    method SetKey(k: seq<byte>, bits: nat) returns (status: Status)
      requires Valid() && |k| >= bits / 8
      modifies keyState
      ensures Valid()
      ensures status == if bits == 128 || bits == 192 || bits == 256 then Done else BadInput
      ensures status == Done ==> haveKey && keybits == bits && aes.key == LoadKey(k, bits / 32)
      ensures status != Done ==>
                && haveKey == old(haveKey) && keybits == old(keybits) && hwKey == old(hwKey) && h == old(h)
                && aes.key == old(aes.key) && aes.rk[..] == old(aes.rk[..])
                && hl[..] == old(hl[..]) && hh[..] == old(hh[..])
    {
      hide Cipher, Tables, LoadWord;
      if bits != 128 && bits != 192 && bits != 256 {
        return BadInput;
      }
      hwKey := LoadKey(k, bits / 32);
      var r := aes.SetKey(k, bits);
      h := aes.CryptEcb(EncryptMode, ZeroBlock());
      GenTable(h, hl, hh);
      keybits := bits;
      haveKey := true;
      return Done;
    }

    /** `gcm_derive_j0`. */
    method DeriveJ0(iv: seq<byte>) returns (j0: Block)
      requires Valid() && haveKey
      ensures j0 == PreCounter(E(), iv)
    {
      hide Cipher, Hash, Tables, Pad16, BigEndian;
      if |iv| == 12 {
        j0 := iv + BigEndian(1, 4);
      } else {
        var y := new byte[16](_ => 0);
        assert y[..] == ZeroBlock();
        Update(hl, hh, Pack(h), y, iv);
        Update(hl, hh, Pack(h), y, Lengths(0, |iv|));
        HashOfParts(Pack(h), iv, [], Lengths(0, |iv|));
        HashOfNothing(Pack(h), Hash(Pack(h), ZeroBlock(), Pad16(iv)));
        j0 := y[..];
      }
    }

    /** `gcm_compute_tag`. */
    method ComputeTag(iv: seq<byte>, a: seq<byte>, c: seq<byte>) returns (tag: Block)
      requires Valid() && haveKey
      ensures tag == Tag(E(), iv, a, c)
    {
      hide Cipher, Hash, Tables, Pad16, BigEndian, Xor, PreCounter, Lengths;
      var j0 := DeriveJ0(iv);
      var s := new byte[16](_ => 0);
      assert s[..] == ZeroBlock();
      Update(hl, hh, Pack(h), s, a);
      Update(hl, hh, Pack(h), s, c);
      Update(hl, hh, Pack(h), s, Lengths(|a|, |c|));
      HashOfParts(Pack(h), a, c, Lengths(|a|, |c|));
      var ek := aes.CryptEcb(EncryptMode, j0);
      tag := Xor(s[..], ek);
    }

    /** `gcm_crypt_internal`: false stands for its error return. */
    method CryptInternal(dev: Engine.Device, length: nat, iv: seq<byte>, input: array<byte>, output: array<byte>)
      returns (ok: bool)
      requires Valid() && haveKey && length <= input.Length && length <= output.Length
      requires scratchCtr != input && scratchCtr != output && scratchKs != input && scratchKs != output
      modifies scratchCtr, scratchKs, output
      ensures ok <==> Works(dev, length)
      ensures ok ==> output[..length] == Crypt(E(), iv, old(input[..length]))
      ensures ok ==> output[length..] == old(output[length..])
      ensures !ok ==> output[..] == old(output[..])
    {
      hide Cipher, Tables, PreCounter, Inc32, Xor, Gctr;
      if length == 0 {
        NothingToCrypt(E(), iv);
        return true;
      }
      if length > SCRATCH_SIZE {
        return false;
      }
      var j0 := DeriveJ0(iv);
      var useHw := length >= HW_MIN_SIZE && dev.available;
      var n := Blocks(length);
      BuildCtrBlocks(scratchCtr, j0, n);
      ok := EncipherBlocks(dev.ecb, aes, hwKey, useHw, scratchCtr, n, scratchKs);
      if ok {
        KeystreamIsGctr(E(), j0, input[..length]);
        assert scratchKs[..length] == scratchKs[..16 * n][..length];
        XorInto(output, input, scratchKs, length);
      }
    }

    /** `mbedtls_gcm_crypt_and_tag`, encryption and decryption. */
    method CryptAndTag(dev: Engine.Device, mode: Mode, length: nat, iv: seq<byte>, add: seq<byte>,
                       input: array<byte>, output: array<byte>, tagLen: nat, tag: array<byte>) returns (status: Status)
      requires Valid() && length <= input.Length && length <= output.Length && tagLen <= tag.Length
      requires scratchCtr != input && scratchCtr != output && scratchKs != input && scratchKs != output
      requires tag != input && tag != output && tag != scratchCtr && tag != scratchKs
      modifies scratchCtr, scratchKs, output, tag
      ensures status == if haveKey && iv != [] && 0 < tagLen <= 16 && Works(dev, length) then Done else BadInput
      ensures status == BadInput ==> output[..] == old(output[..]) && tag[..] == old(tag[..])
      ensures status == Done ==>
                var c := if mode == EncryptMode then output[..length] else old(input[..length]);
                && output[..length] == Crypt(E(), iv, old(input[..length]))
                && tag[..tagLen] == Tag(E(), iv, add, c)[..tagLen]
                && output[length..] == old(output[length..]) && tag[tagLen..] == old(tag[tagLen..])
    {
      hide Cipher, Tables, Crypt, Tag;
      if !haveKey || iv == [] || tagLen > 16 || tagLen == 0 {
        return BadInput;
      }
      var fullTag;
      if mode == EncryptMode {
        var ok := CryptInternal(dev, length, iv, input, output);
        if !ok {
          return BadInput;
        }
        fullTag := ComputeTag(iv, add, output[..length]);
      } else {
        fullTag := ComputeTag(iv, add, input[..length]);
        var ok := CryptInternal(dev, length, iv, input, output);
        if !ok {
          return BadInput;
        }
      }
      Copy(fullTag[..tagLen], tag, 0);
      return Done;
    }

    /** `mbedtls_gcm_auth_decrypt`. An empty IV is not refused here, unlike in `mbedtls_gcm_crypt_and_tag`. */
    method AuthDecrypt(dev: Engine.Device, length: nat, iv: seq<byte>, add: seq<byte>, tag: seq<byte>, tagLen: nat,
                       input: array<byte>, output: array<byte>) returns (status: Status)
      requires Valid() && length <= input.Length && length <= output.Length && tagLen <= |tag|
      requires scratchCtr != input && scratchCtr != output && scratchKs != input && scratchKs != output
      modifies scratchCtr, scratchKs, output
      ensures status ==
                if !haveKey || tagLen == 0 || tagLen > 16 then BadInput
                else if tag[..tagLen] != Tag(E(), iv, add, old(input[..length]))[..tagLen] then AuthFailed
                else if Works(dev, length) then Done
                else BadInput
      ensures status == AuthFailed ==> output[..length] == Zeros(length)
      ensures status == Done ==> output[..length] == Crypt(E(), iv, old(input[..length]))
      ensures status == BadInput ==> output[..] == old(output[..])
      ensures output[length..] == old(output[length..])
    {
      hide Cipher, Tables, Crypt, Tag;
      if !haveKey || tagLen > 16 || tagLen == 0 {
        return BadInput;
      }
      var expected := ComputeTag(iv, add, input[..length]);
      var same := SameBytes(expected, tag, tagLen);
      if !same {
        Copy(Zeros(length), output, 0);
        return AuthFailed;
      }
      var ok := CryptInternal(dev, length, iv, input, output);
      return if ok then Done else BadInput;
    }
  }

  lemma HashOfNothing(h: Element, y: Block)
    ensures Hash(h, y, Pad16([])) == y
  {
    assert Pad16([]) == [];
  }

  lemma PadOfBlock(b: Block)
    ensures Pad16(b) == b
  {
  }

  /** Three successive updates equal one hash of the padded concatenation. */
  lemma HashOfParts(h: Element, a: seq<byte>, c: seq<byte>, lengths: Block)
    ensures var afterA := Hash(h, ZeroBlock(), Pad16(a));
            var afterC := Hash(h, afterA, Pad16(c));
            Hash(h, ZeroBlock(), HashInput(a, c, lengths)) == Hash(h, afterC, Pad16(lengths))
  {
    hide Hash, Pad16;
    PadOfBlock(lengths);
    HashAppends(h, ZeroBlock(), Pad16(a) + Pad16(c), lengths);
    HashAppends(h, ZeroBlock(), Pad16(a), Pad16(c));
  }

  lemma NothingToCrypt(e: BlockFn, iv: seq<byte>)
    ensures Crypt(e, iv, []) == []
  {
  }

  lemma CryptInverts(e: BlockFn, iv: seq<byte>, p: seq<byte>)
    ensures Crypt(e, iv, Crypt(e, iv, p)) == p
  {
    hide Inc32, PreCounter, Gctr;
    GctrInverts(e, Inc32(PreCounter(e, iv)), p);
  }

  /**
   What one side seals the other side opens, for every IV length; `record` may be the input, and `plain` the record or
   the input. Either side may take either path; a step fails exactly if its engine is asked and stops, or its
   arguments are refused.
   */
  method SealThenOpen(devS: Engine.Device, devR: Engine.Device, sender: GcmContext, receiver: GcmContext,
                      length: nat, iv: seq<byte>, add: seq<byte>, input: array<byte>, record: array<byte>,
                      plain: array<byte>, tagLen: nat, tag: array<byte>)
    returns (sealed: Status, unsealed: Status)
    requires sender.Valid() && receiver.Valid() && sender.haveKey && receiver.haveKey
    requires sender.aes.key == receiver.aes.key
    requires length <= input.Length && length <= record.Length && length <= plain.Length && tagLen <= tag.Length
    requires {sender.scratchCtr, sender.scratchKs} !! {input, record, plain, tag}
    requires {receiver.scratchCtr, receiver.scratchKs} !! {input, record, plain, tag}
    requires tag != input && tag != record && tag != plain
    modifies sender.scratchCtr, sender.scratchKs, record, tag
    modifies receiver.scratchCtr, receiver.scratchKs, plain
    ensures sealed == if iv != [] && 0 < tagLen <= 16 && Works(devS, length) then Done else BadInput
    ensures sealed == Done ==> unsealed == if Works(devR, length) then Done else BadInput
    ensures sealed == Done && unsealed == Done ==> plain[..length] == old(input[..length])
  {
    hide Cipher, Crypt, Tag, Tables, Works;
    ghost var text := input[..length];
    sealed := sender.CryptAndTag(devS, EncryptMode, length, iv, add, input, record, tagLen, tag);
    unsealed := sealed;
    if sealed == Done {
      CryptInverts(sender.E(), iv, text);
      assert tag[..tagLen] == Tag(sender.E(), iv, add, record[..length])[..tagLen];
      unsealed := receiver.AuthDecrypt(devR, length, iv, add, tag[..tagLen], tagLen, record, plain);
    }
  }
}
