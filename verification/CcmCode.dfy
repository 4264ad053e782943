/** ccm_alt.c: MAC input and counter blocks, the two CBC-MAC paths, and the one-shot encrypt and decrypt calls. */
module CcmCode {
  import opened Bytes
  import opened AesKey
  import opened AesContext
  import opened BlockModes
  import opened CcmFormat
  import opened Ccm
  import opened EcbBulk
  import Engine

  /** CCM_ALT_HW_MIN_SIZE: shorter records never reach the engine. */
  const HW_MIN_SIZE: nat := 512

  datatype Status =
    | Done
    | BadInput
    | HwFailed
    | AuthFailed

  /** Whether the MAC of a text of this length can be had: short records and hosts without an engine use software. */
  predicate MacWorks(dev: Engine.Device, length: nat) {
    length < HW_MIN_SIZE || !dev.available || dev.cbc.Served?
  }

  /** The same for the counter stream. */
  predicate TextWorks(dev: Engine.Device, length: nat) {
    length < HW_MIN_SIZE || !dev.available || dev.ecb.Served?
  }

  /** The `memset` before staging and the staged input must fit the scratch buffer. */
  predicate StagingFits(adLen: nat, length: nat) {
    32 + Round16(2 + adLen) + Round16(length) <= SCRATCH_SIZE
  }

  /** Exactly how many blocks the staging buffer holds beside its margin. */
  lemma StagingFitsExactly(adLen: nat, length: nat)
    ensures StagingFits(adLen, length) <==> Blocks(2 + adLen) + Blocks(length) <= 1026
  {
  }

  /**
   The length guard does not keep staged input within the buffer: every accepted text beyond 16400 bytes misses it.
   */
  lemma AcceptedMayNotFit(m: Message)
    requires Accepted(m) && |m.text| > 16400
    ensures !StagingFits(|m.ad|, |m.text|)
  {
  }

  /** TLS records of every size fit with any associated data of up to 14 bytes, and the largest one with no more. */
  lemma TlsRecordsFit(adLen: nat, length: nat)
    ensures length <= 16385 && adLen <= 14 ==> StagingFits(adLen, length)
    ensures length == 16385 && adLen > 14 ==> !StagingFits(adLen, length)
  {
  }

  /** The loop that stores `v` in `q` bytes, most significant first. */
  method PutBigEndian(buf: array<byte>, at: nat, v: nat, q: nat)
    requires at + q <= buf.Length
    modifies buf
    ensures buf[at..at + q] == BigEndian(v, q)
    ensures forall k :: 0 <= k < at || at + q <= k < buf.Length ==> buf[k] == old(buf[k])
  {
    hide BigEndian;
    var shifted := v;
    ghost var tail: seq<byte> := [];
    var i := 0;
    while i < q
      invariant 0 <= i <= q && |tail| == i
      invariant BigEndian(shifted, q - i) + tail == BigEndian(v, q)
      invariant forall k :: 0 <= k < at || at + q <= k < buf.Length ==> buf[k] == old(buf[k])
      invariant forall k :: at + q - i <= k < at + q ==> buf[k] == tail[k - (at + q - i)]
    {
      LowByte(shifted, q - i, tail);
      buf[at + q - 1 - i] := ByteOf(shifted % 256);
      tail := [ByteOf(shifted % 256)] + tail;
      shifted := shifted / 256;
      i := i + 1;
    }
    NoBytes();
    assert buf[at..at + q] == tail;
  }

  lemma LowByte(v: nat, k: nat, tail: seq<byte>)
    requires k > 0
    ensures BigEndian(v, k) + tail == BigEndian(v / 256, k - 1) + ([ByteOf(v % 256)] + tail)
  {
  }

  /** `while (off % 16) buf[off++] = 0`. */
  method PadZeros(buf: array<byte>, off0: nat) returns (off: nat)
    requires Round16(off0) <= buf.Length
    modifies buf
    ensures off == Round16(off0)
    ensures forall k :: off0 <= k < off ==> buf[k] == 0
    ensures forall k :: 0 <= k < off0 || off <= k < buf.Length ==> buf[k] == old(buf[k])
  {
    off := off0;
    while off % 16 != 0
      invariant off0 <= off <= Round16(off0)
      invariant forall k :: off0 <= k < off ==> buf[k] == 0
      invariant forall k :: 0 <= k < off0 || off <= k < buf.Length ==> buf[k] == old(buf[k])
      decreases Round16(off0) - off
    {
      buf[off] := 0;
      off := off + 1;
    }
  }

  lemma RoundAfterBlocks(a: nat, n: nat)
    ensures Round16(16 * a + n) == 16 * a + Round16(n)
  {
  }

  /** The three fields make up B_0. */
  lemma FirstBlockFields(buf: seq<byte>, flags: byte, nonce: seq<byte>, length: seq<byte>)
    requires 1 + |nonce| + |length| == 16 <= |buf|
    requires buf[0] == flags && (forall i | 0 <= i < |nonce| :: buf[1 + i] == nonce[i])
    requires buf[1 + |nonce|..1 + |nonce| + |length|] == length
    ensures buf[..16] == [flags] + nonce + length
  {
    assert buf[1..1 + |nonce|] == nonce;
    assert buf[..16] == [buf[0]] + buf[1..1 + |nonce|] + buf[1 + |nonce|..16];
  }

  /** The B_0 part of `build_mac_input`. */
  method PutFirstBlock(buf: array<byte>, m: Message)
    requires Accepted(m) && 16 <= buf.Length
    modifies buf
    ensures buf[..16] == B0(m)
  {
    hide FlagBits, BigEndian, Flags;
    var q := Q(m.nonce);
    buf[0] := FlagBits(|m.ad| > 0, ByteOf((m.tagLen - 2) / 2), ByteOf(q - 1));
    FlagsOf(m);
    Copy(m.nonce, buf, 1);
    PutBigEndian(buf, 1 + |m.nonce|, |m.text|, q);
    FirstBlockFields(buf[..], Flags(m), m.nonce, BigEndian(|m.text|, q));
  }

  lemma FlagsOf(m: Message)
    requires Accepted(m)
    ensures Flags(m) == FlagBits(|m.ad| > 0, ByteOf((m.tagLen - 2) / 2), ByteOf(Q(m.nonce) - 1))
  {
    hide FlagBits;
  }

  /** A string and the zeros after it, from a block boundary on. */
  method PutPadded(buf: array<byte>, blocks: nat, s: seq<byte>) returns (off: nat)
    requires 16 * blocks + Round16(|s|) <= buf.Length
    modifies buf
    ensures off == 16 * blocks + Round16(|s|)
    ensures buf[16 * blocks..off] == Pad16(s)
    ensures forall k :: 0 <= k < 16 * blocks ==> buf[k] == old(buf[k])
  {
    var at := 16 * blocks;
    RoundAfterBlocks(blocks, |s|);
    Copy(s, buf, at);
    off := PadZeros(buf, at + |s|);
    assert buf[at..at + |s|] == s;
    assert buf[at + |s|..off] == Zeros(off - at - |s|);
    assert buf[at..off] == buf[at..at + |s|] + buf[at + |s|..off];
  }

  /** `build_mac_input`: fills the buffer and returns how much of it is used. */
  method BuildMacInput(buf: array<byte>, m: Message) returns (off: nat)
    requires Accepted(m) && 16 + Round16(2 + |m.ad|) + Round16(|m.text|) <= buf.Length
    modifies buf
    ensures off == |MacInput(m)| && off <= buf.Length
    ensures buf[..off] == MacInput(m)
  {
    hide B0, Pad16, BigEndian;
    PutFirstBlock(buf, m);
    var blocks := 1;
    off := 16;
    if |m.ad| > 0 {
      off := PutPadded(buf, 1, BigEndian(|m.ad|, 2) + m.ad);
      blocks := 1 + Blocks(2 + |m.ad|);
    }
    assert buf[..off] == B0(m) + AdPart(m.ad);
    if |m.text| > 0 {
      ghost var head := buf[..off];
      off := PutPadded(buf, blocks, m.text);
      assert buf[..16 * blocks] == head;
      assert buf[..off] == buf[..16 * blocks] + buf[16 * blocks..off];
    } else {
      NothingPadded();
    }
  }

  lemma NothingPadded()
    ensures Pad16([]) == []
  {
  }

  /** `build_ctr_blocks`: counter blocks 1 to n. */
  method BuildCtrBlocks(ctr: array<byte>, nonce: seq<byte>, n: nat)
    requires 7 <= |nonce| <= 13 && 16 * n <= ctr.Length
    modifies ctr
    ensures ctr[..16 * n] == Ccm.CounterBlocks(nonce, 1, n)
  {
    hide CounterBlock, Ccm.CounterBlocks;
    ghost var goal := Ccm.CounterBlocks(nonce, 1, n);
    ghost var done: seq<byte> := [];
    var i := 0;
    while i < n
      invariant 0 <= i <= n && |done| == 16 * i
      invariant done + Ccm.CounterBlocks(nonce, i + 1, n - i) == goal
      invariant forall k :: 0 <= k < 16 * i ==> ctr[k] == done[k]
    {
      NextCounter(nonce, i + 1, n - i, done);
      PutCounter(ctr, 16 * i, nonce, i + 1);
      done := done + CounterBlock(nonce, i + 1);
      i := i + 1;
    }
    NoCounters(nonce, n + 1);
  }

  /** One counter block: flags, nonce, counter. */
  method PutCounter(ctr: array<byte>, at: nat, nonce: seq<byte>, counter: nat)
    requires 7 <= |nonce| <= 13 && at + 16 <= ctr.Length
    modifies ctr
    ensures forall k :: 0 <= k < ctr.Length ==>
              ctr[k] == if at <= k < at + 16 then CounterBlock(nonce, counter)[k - at] else old(ctr[k])
  {
    hide BigEndian;
    var q := Q(nonce);
    ctr[at] := ByteOf(q - 1);
    Copy(nonce, ctr, at + 1);
    PutBigEndian(ctr, at + 1 + |nonce|, counter, q);
    var k := at + 1 + |nonce|;
    assert ctr[at + 1..k] == nonce;
    assert ctr[at..at + 16] == [ctr[at]] + ctr[at + 1..k] + ctr[k..k + q];
    assert forall i :: at <= i < at + 16 ==> ctr[i] == ctr[at..at + 16][i - at];
  }

  lemma NextCounter(nonce: seq<byte>, from: nat, n: nat, done: seq<byte>)
    requires 7 <= |nonce| <= 13 && n > 0
    ensures done + Ccm.CounterBlocks(nonce, from, n)
         == (done + CounterBlock(nonce, from)) + Ccm.CounterBlocks(nonce, from + 1, n - 1)
  {
    hide CounterBlock;
  }

  lemma NoCounters(nonce: seq<byte>, from: nat)
    requires 7 <= |nonce| <= 13
    ensures Ccm.CounterBlocks(nonce, from, 0) == []
  {
  }

  lemma MacStep(e: BlockFn, y: Block, x: seq<byte>, n: nat)
    requires |x| == 16 * n && n > 0
    ensures CbcMac(e, y, x, n) == CbcMac(e, e(Xor(y, x[..16])), x[16..], n - 1)
  {
  }

  lemma NoMac(e: BlockFn, y: Block)
    ensures CbcMac(e, y, [], 0) == y
  {
  }

  /** `mbedtls_ccm_context`. */
  class CcmContext {
    const aes: Context
    var hwKey: seq<bv32>
    var keybits: nat
    var haveKey: bool
    const scratchMac: array<byte>
    const scratchCtr: array<byte>
    const scratchKs: array<byte>

    /** With a key set, the software schedule and the engine's words belong to the same key. */
    ghost predicate Valid()
      reads this, aes, aes.rk
    {
      && aes.rk.Length == 68
      && scratchMac.Length == SCRATCH_SIZE && scratchCtr.Length == SCRATCH_SIZE && scratchKs.Length == SCRATCH_SIZE
      && scratchMac != scratchCtr && scratchMac != scratchKs && scratchCtr != scratchKs
      && (haveKey ==> aes.Keyed() && hwKey == aes.key)
    }

    /** AES under the current key. */
    ghost function E(): BlockFn
      reads this, aes
    {
      Cipher(aes.key)
    }

    constructor ()
      ensures Valid() && !haveKey
      ensures fresh(aes) && fresh(aes.rk) && fresh(scratchMac) && fresh(scratchCtr) && fresh(scratchKs)
    {
      haveKey := false;
      hwKey, keybits := [], 0;
      aes := new Context();
      scratchMac := new byte[SCRATCH_SIZE](_ => 0);
      scratchCtr := new byte[SCRATCH_SIZE](_ => 0);
      scratchKs := new byte[SCRATCH_SIZE](_ => 0);
    }

    /** `mbedtls_ccm_setkey` for the AES cipher; the scratch buffers exist from construction. */
    method SetKey(k: seq<byte>, bits: nat) returns (status: Status)
      requires Valid() && |k| >= bits / 8
      modifies this, aes, aes.rk
      ensures Valid()
      ensures status == if bits == 128 || bits == 192 || bits == 256 then Done else BadInput
      ensures status == Done ==> haveKey && keybits == bits && aes.key == LoadKey(k, bits / 32)
      ensures status != Done ==>
                && haveKey == old(haveKey) && keybits == old(keybits) && hwKey == old(hwKey)
                && aes.key == old(aes.key) && aes.rk[..] == old(aes.rk[..])
    {
      hide LoadWord;
      if bits != 128 && bits != 192 && bits != 256 {
        return BadInput;
      }
      hwKey := LoadKey(k, bits / 32);
      var r := aes.SetKey(k, bits);
      keybits := bits;
      haveKey := true;
      return Done;
    }

    /** `sw_cbc_mac`. */
    method SwCbcMac(n: nat) returns (mac: Block)
      requires Valid() && haveKey && 16 * n <= SCRATCH_SIZE
      ensures mac == CbcMac(E(), ZeroBlock(), scratchMac[..16 * n], n)
    {
      hide Cipher, CbcMac, Xor;
      ghost var e := E();
      ghost var rest := scratchMac[..16 * n];
      mac := ZeroBlock();
      var i := 0;
      while i < n
        invariant 0 <= i <= n && rest == scratchMac[16 * i..16 * n]
        invariant CbcMac(e, mac, rest, n - i) == CbcMac(e, ZeroBlock(), scratchMac[..16 * n], n)
      {
        MacStep(e, mac, rest, n - i);
        var block := scratchMac[16 * i..16 * i + 16];
        assert block == rest[..16];
        mac := aes.CryptEcb(EncryptMode, Xor(mac, block));
        rest := rest[16..];
        i := i + 1;
      }
      NoMac(e, mac);
    }

    /** `hw_cbc_mac`: CBC encryption with a zero IV into a temporary buffer, of which the last block is the MAC. */
    method HwCbcMac(answer: Engine.Answer, n: nat) returns (done: bool, mac: Block)
      requires Valid() && haveKey && 0 < 16 * n <= SCRATCH_SIZE
      ensures done == answer.Served?
      ensures done ==> mac == CbcMac(E(), ZeroBlock(), scratchMac[..16 * n], n)
    {
      hide Cipher, CbcMac, CbcEncrypt;
      var tmp := new byte[16 * n];
      done := Engine.RequestCbc(answer, hwKey, ZeroBlock(), EncryptMode, 16 * n, scratchMac, tmp);
      mac := ZeroBlock();
      if done {
        CbcMacIsLastBlock(E(), ZeroBlock(), scratchMac[..16 * n], n);
        mac := tmp[16 * n - 16..16 * n];
      }
    }

    /** The MAC over a staged message, by the engine or in software. */
    method Mac(answer: Engine.Answer, useHw: bool, m: Message) returns (done: bool, mac: Block)
      requires Valid() && haveKey && Accepted(m) && StagingFits(|m.ad|, |m.text|)
      modifies scratchMac
      ensures done <==> !useHw || answer.Served?
      ensures done ==> mac == Ccm.Mac(E(), m)
    {
      hide Cipher, CbcMac, MacInput;
      Copy(Zeros(32 + Round16(2 + |m.ad|) + Round16(|m.text|)), scratchMac, 0);
      var off := BuildMacInput(scratchMac, m);
      MacInputBlocks(m);
      var n := off / 16;
      if useHw {
        done, mac := HwCbcMac(answer, n);
      } else {
        mac := SwCbcMac(n);
        done := true;
      }
    }

    /** The MAC under S_0; always software. */
    method Seal(m: Message, mac: Block) returns (t: seq<byte>)
      requires Valid() && haveKey && Accepted(m)
      requires mac == Ccm.Mac(E(), m)
      ensures t == Tag(E(), m)
    {
      hide Cipher, Ccm.Mac, Xor, BigEndian;
      var s0 := aes.CryptEcb(EncryptMode, CounterBlock(m.nonce, 0));
      t := Xor(mac, s0)[..m.tagLen];
    }

    /** The counter stream over the text, in place or between buffers. */
    method CryptText(answer: Engine.Answer, useHw: bool, nonce: seq<byte>, length: nat, input: array<byte>,
                     output: array<byte>)
      returns (done: bool)
      requires Valid() && haveKey && 7 <= |nonce| <= 13
      requires length <= SCRATCH_SIZE && length <= input.Length && length <= output.Length
      requires {scratchMac, scratchCtr, scratchKs} !! {input, output}
      modifies scratchCtr, scratchKs, output
      ensures done <==> !useHw || length == 0 || answer.Served?
      ensures done ==> output[..length] == Crypt(E(), nonce, old(input[..length]))
      ensures !done ==> output[..length] == old(output[..length])
      ensures output[length..] == old(output[length..])
    {
      hide Cipher, Xor, Ecb, CounterBlock, Ccm.CounterBlocks;
      var n := Blocks(length);
      if n == 0 {
        NoText(E(), nonce);
        return true;
      }
      BuildCtrBlocks(scratchCtr, nonce, n);
      done := EncipherBlocks(answer, aes, hwKey, useHw, scratchCtr, n, scratchKs);
      if done {
        assert scratchKs[..length] == scratchKs[..16 * n][..length];
        XorInto(output, input, scratchKs, length);
      }
    }

    /** The checks at the head of both one-shot calls. */
    predicate Refuses(nonce: seq<byte>, ad: seq<byte>, length: nat, tagLen: nat)
      reads this
    {
      || !haveKey
      || |nonce| < 7 || |nonce| > 13
      || tagLen < 4 || tagLen > 16 || tagLen % 2 != 0
      || |ad| >= 0xff00
      || length > SCRATCH_SIZE
    }

    /** `mbedtls_ccm_encrypt_and_tag`. */
    method EncryptAndTag(dev: Engine.Device, length: nat, nonce: seq<byte>, ad: seq<byte>, input: array<byte>,
                         output: array<byte>, tag: array<byte>, tagLen: nat) returns (status: Status)
      requires Valid() && length <= input.Length && length <= output.Length && tagLen <= tag.Length
      requires Refuses(nonce, ad, length, tagLen) || StagingFits(|ad|, length)
      requires {scratchMac, scratchCtr, scratchKs} !! {input, output, tag} && tag != input && tag != output
      modifies scratchMac, scratchCtr, scratchKs, output, tag
      ensures status ==
                if Refuses(nonce, ad, length, tagLen) then BadInput
                else if MacWorks(dev, length) && TextWorks(dev, length) then Done
                else HwFailed
      ensures status != Done ==> output[..] == old(output[..]) && tag[..] == old(tag[..])
      ensures status == Done ==>
                && output[..length] == Crypt(E(), nonce, old(input[..length]))
                && tag[..tagLen] == Tag(E(), Message(nonce, ad, old(input[..length]), tagLen))
                && output[length..] == old(output[length..]) && tag[tagLen..] == old(tag[tagLen..])
    {
      hide Cipher, Crypt, Tag, MacInput, CbcMac, StagingFits;
      if Refuses(nonce, ad, length, tagLen) {
        return BadInput;
      }
      var useHw := length >= HW_MIN_SIZE && dev.available;
      var m := Message(nonce, ad, input[..length], tagLen);
      var ok, mac := Mac(dev.cbc, useHw, m);
      if !ok {
        return HwFailed;
      }
      ok := CryptText(dev.ecb, useHw, nonce, length, input, output);
      if !ok {
        assert output[..] == output[..length] + output[length..];
        return HwFailed;
      }
      var t := Seal(m, mac);
      Copy(t, tag, 0);
      return Done;
    }

    /**
     `mbedtls_ccm_auth_decrypt`. The text is decrypted before it is authenticated: if the engine serves the counters
     and stops on the MAC, the decrypted text stays in the output, while a wrong tag leaves zeros.
     */
    method AuthDecrypt(dev: Engine.Device, length: nat, nonce: seq<byte>, ad: seq<byte>, input: array<byte>,
                       output: array<byte>, tag: seq<byte>, tagLen: nat) returns (status: Status)
      requires Valid() && length <= input.Length && length <= output.Length && tagLen <= |tag|
      requires Refuses(nonce, ad, length, tagLen) || StagingFits(|ad|, length)
      requires {scratchMac, scratchCtr, scratchKs} !! {input, output}
      modifies scratchMac, scratchCtr, scratchKs, output
      ensures status == BadInput <==> Refuses(nonce, ad, length, tagLen)
      ensures status != BadInput ==>
                (status == HwFailed <==> !TextWorks(dev, length) || !MacWorks(dev, length))
      ensures status == BadInput || (status == HwFailed && !TextWorks(dev, length)) ==> output[..] == old(output[..])
      ensures status == HwFailed && TextWorks(dev, length) ==>
                output[..length] == Crypt(E(), nonce, old(input[..length]))
      ensures status == Done || status == AuthFailed ==>
                var p := Crypt(E(), nonce, old(input[..length]));
                && (status == Done <==> tag[..tagLen] == Tag(E(), Message(nonce, ad, p, tagLen)))
                && output[..length] == if status == Done then p else Zeros(length)
      ensures output[length..] == old(output[length..])
    {
      hide Cipher, Crypt, Tag, MacInput, CbcMac, StagingFits;
      if Refuses(nonce, ad, length, tagLen) {
        return BadInput;
      }
      var useHw := length >= HW_MIN_SIZE && dev.available;
      var ok := CryptText(dev.ecb, useHw, nonce, length, input, output);
      if !ok {
        return HwFailed;
      }
      var m := Message(nonce, ad, output[..length], tagLen);
      var mac;
      ok, mac := Mac(dev.cbc, useHw, m);
      if !ok {
        return HwFailed;
      }
      var expected := Seal(m, mac);
      var same := SameBytes(expected, tag, tagLen);
      if !same {
        Copy(Zeros(length), output, 0);
        return AuthFailed;
      }
      return Done;
    }
  }

  /** Exactly what is accepted, in numbers. */
  lemma RefusesExactly(c: CcmContext, nonce: seq<byte>, ad: seq<byte>, text: seq<byte>, tagLen: nat)
    ensures !c.Refuses(nonce, ad, |text|, tagLen)
       <==> c.haveKey && 7 <= |nonce| <= 13 && tagLen in [4, 6, 8, 10, 12, 14, 16] && |ad| < 65280 && |text| <= 16448
    ensures !c.Refuses(nonce, ad, |text|, tagLen) <==> c.haveKey && Accepted(Message(nonce, ad, text, tagLen))
  {
    EvenTags(tagLen);
  }

  lemma EvenTags(tagLen: nat)
    ensures tagLen in [4, 6, 8, 10, 12, 14, 16] <==> 4 <= tagLen <= 16 && tagLen % 2 == 0
  {
  }

  lemma NoText(e: BlockFn, nonce: seq<byte>)
    requires 7 <= |nonce| <= 13
    ensures Crypt(e, nonce, []) == []
  {
  }

  /**
   What one side seals the other side opens; `record` may be the input, and `plain` the record or the input. Either
   side may take either path; a step fails exactly if its engine is asked and stops.
   */
  method SealThenOpen(devS: Engine.Device, devR: Engine.Device, sender: CcmContext, receiver: CcmContext,
                      length: nat, nonce: seq<byte>, ad: seq<byte>, input: array<byte>, record: array<byte>,
                      plain: array<byte>, tag: array<byte>, tagLen: nat)
    returns (sealed: Status, unsealed: Status)
    requires sender.Valid() && receiver.Valid() && sender.haveKey && receiver.haveKey
    requires sender.aes.key == receiver.aes.key
    requires length <= input.Length && length <= record.Length && length <= plain.Length && tagLen <= tag.Length
    requires !sender.Refuses(nonce, ad, length, tagLen) && StagingFits(|ad|, length)
    requires {sender.scratchMac, sender.scratchCtr, sender.scratchKs} !! {input, record, plain, tag}
    requires {receiver.scratchMac, receiver.scratchCtr, receiver.scratchKs} !! {input, record, plain, tag}
    requires tag != input && tag != record && tag != plain
    modifies sender.scratchMac, sender.scratchCtr, sender.scratchKs, record, tag
    modifies receiver.scratchMac, receiver.scratchCtr, receiver.scratchKs, plain
    ensures sealed == if MacWorks(devS, length) && TextWorks(devS, length) then Done else HwFailed
    ensures sealed == Done ==> unsealed == if MacWorks(devR, length) && TextWorks(devR, length) then Done else HwFailed
    ensures sealed == Done && unsealed == Done ==> plain[..length] == old(input[..length])
  {
    hide Cipher, Crypt, Tag, StagingFits, MacWorks, TextWorks;
    ghost var text := input[..length];
    sealed := sender.EncryptAndTag(devS, length, nonce, ad, input, record, tag, tagLen);
    unsealed := sealed;
    if sealed == Done {
      CryptInverts(sender.E(), nonce, text);
      unsealed := receiver.AuthDecrypt(devR, length, nonce, ad, record, plain, tag[..tagLen], tagLen);
    }
  }
}
