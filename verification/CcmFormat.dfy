/** The CBC-MAC input of CCM (section 2.2 of RFC 3610): what it contains and why it is uniquely decodable. */
module CcmFormat {
  import opened Bytes

  /** MBEDTLS_CCM_ALT_SCRATCH_SIZE. */
  const SCRATCH_SIZE: nat := 16448

  /** Everything that the MAC covers. */
  datatype Message = Message(nonce: seq<byte>, ad: seq<byte>, text: seq<byte>, tagLen: nat)

  /** What `mbedtls_ccm_encrypt_and_tag` and `mbedtls_ccm_auth_decrypt` accept. */
  predicate Accepted(m: Message) {
    && 7 <= |m.nonce| <= 13
    && 4 <= m.tagLen <= 16 && m.tagLen % 2 == 0
    && |m.ad| < 0xff00
    && |m.text| <= SCRATCH_SIZE
  }

  /** Number of bytes of the length and counter fields. */
  function Q(nonce: seq<byte>): nat
    requires |nonce| <= 13
  {
    15 - |nonce|
  }

  function FlagBits(adata: bool, t: byte, l: byte): byte {
    (if adata then 0x40 else 0) | (t << 3) | l
  }

  function Flags(m: Message): byte
    requires Accepted(m)
  {
    FlagBits(m.ad != [], ByteOf((m.tagLen - 2) / 2), ByteOf(Q(m.nonce) - 1))
  }

  function B0(m: Message): Block
    requires Accepted(m)
  {
    [Flags(m)] + m.nonce + BigEndian(|m.text|, Q(m.nonce))
  }

  function AdPart(ad: seq<byte>): seq<byte> {
    if ad == [] then [] else Pad16(BigEndian(|ad|, 2) + ad)
  }

  function MacInput(m: Message): seq<byte>
    requires Accepted(m)
  {
    B0(m) + AdPart(m.ad) + Pad16(m.text)
  }

  // ---- unique decoding ----

  lemma FlagBitsDecode(a: bool, t: byte, l: byte)
    requires t < 8 && l < 8
    ensures var f := FlagBits(a, t, l); (f & 0x40 != 0) == a && (f >> 3) & 7 == t && f & 7 == l
  {
  }

  lemma FlagBitsInjective(a: bool, t: byte, l: byte, a': bool, t': byte, l': byte)
    requires t < 8 && l < 8 && t' < 8 && l' < 8 && FlagBits(a, t, l) == FlagBits(a', t', l')
    ensures a == a' && t == t' && l == l'
  {
    FlagBitsDecode(a, t, l);
    FlagBitsDecode(a', t', l');
  }

  lemma SmallBytes(n: nat, k: nat)
    requires n < 8 && k < 8
    ensures ByteOf(n) < 8 && ByteOf(k) < 8 && (ByteOf(n) == ByteOf(k) ==> n == k)
  {
    assert NumberOf(ByteOf(n)) == n && NumberOf(ByteOf(k)) == k;
  }

  /** The first byte tells the nonce length, the tag length and whether there is associated data. */
  lemma FlagsDecode(m: Message, m': Message)
    requires Accepted(m) && Accepted(m') && Flags(m) == Flags(m')
    ensures |m.nonce| == |m'.nonce| && m.tagLen == m'.tagLen && (m.ad == [] <==> m'.ad == [])
  {
    hide FlagBits, ByteOf;
    var t, t' := (m.tagLen - 2) / 2, (m'.tagLen - 2) / 2;
    var l, l' := Q(m.nonce) - 1, Q(m'.nonce) - 1;
    SmallBytes(t, t');
    SmallBytes(l, l');
    FlagBitsInjective(m.ad != [], ByteOf(t), ByteOf(l), m'.ad != [], ByteOf(t'), ByteOf(l'));
    assert m.tagLen == 2 * t + 2 && m'.tagLen == 2 * t' + 2;
  }

  lemma LengthsFit(m: Message)
    requires Accepted(m)
    ensures |m.text| < Pow256(Q(m.nonce)) && |m.ad| < Pow256(2)
  {
    PowersGrow(2, Q(m.nonce));
  }

  lemma {:induction false} PowersGrow(a: nat, b: nat)
    requires a <= b
    ensures Pow256(a) <= Pow256(b)
  {
    if a < b {
      PowersGrow(a, b - 1);
    }
  }

  lemma PrefixParts(a: seq<byte>, b: seq<byte>, a': seq<byte>, b': seq<byte>)
    requires |a| == |a'| && a + b <= a' + b'
    ensures a == a' && b <= b'
  {
    assert (a + b)[..|a|] == a;
    assert (a' + b')[..|a|] == a';
    assert (a + b)[|a|..] == b;
    assert (a' + b')[|a|..|a| + |b|] == b'[..|b|];
  }

  lemma PadInjective(a: seq<byte>, b: seq<byte>)
    requires |a| == |b| && Pad16(a) == Pad16(b)
    ensures a == b
  {
    assert Pad16(a)[..|a|] == a && Pad16(b)[..|a|] == b;
  }

  /** B_0 determines the nonce, the tag length, the text length and whether there is associated data. */
  lemma FirstBlockDecodes(m: Message, m': Message)
    requires Accepted(m) && Accepted(m') && B0(m) == B0(m')
    ensures m.nonce == m'.nonce && m.tagLen == m'.tagLen && |m.text| == |m'.text| && (m.ad == [] <==> m'.ad == [])
  {
    hide Flags, BigEndian;
    var b, b' := B0(m), B0(m');
    assert b[0] == Flags(m) && b'[0] == Flags(m');
    FlagsDecode(m, m');
    var k := 1 + |m.nonce|;
    assert b[1..k] == m.nonce && b'[1..k] == m'.nonce;
    assert b[k..] == BigEndian(|m.text|, Q(m.nonce)) && b'[k..] == BigEndian(|m'.text|, Q(m'.nonce));
    LengthsFit(m);
    LengthsFit(m');
    BigEndianInjective(|m.text|, |m'.text|, Q(m.nonce));
  }

  /** The length bytes in front of the associated data tell where it ends. */
  lemma AdDecodes(a: seq<byte>, r: seq<byte>, a': seq<byte>, r': seq<byte>)
    requires |a| < 0xff00 && |a'| < 0xff00 && (a == [] <==> a' == [])
    requires AdPart(a) + r <= AdPart(a') + r'
    ensures a == a' && r <= r'
  {
    hide BigEndian, Pad16;
    if a == [] {
      assert AdPart(a) + r == r && AdPart(a') + r' == r';
    } else {
      var s, s' := BigEndian(|a|, 2) + a, BigEndian(|a'|, 2) + a';
      var x, x' := AdPart(a) + r, AdPart(a') + r';
      assert s <= Pad16(s) && s' <= Pad16(s');
      assert x[..2] == s[..2] == BigEndian(|a|, 2);
      assert x'[..2] == s'[..2] == BigEndian(|a'|, 2);
      assert x[..2] == x'[..2];
      PowersOfTwoBytes();
      BigEndianInjective(|a|, |a'|, 2);
      PrefixParts(Pad16(s), r, Pad16(s'), r');
      PadInjective(s, s');
      assert s[2..] == a && s'[2..] == a';
    }
  }

  lemma PowersOfTwoBytes()
    ensures Pow256(2) == 0x10000
  {
  }

  /**
   If one formatted input is a prefix of another, they are the same message in every respect: no two accepted
   messages, however their parameters differ, have MAC inputs where one starts with the other.
   */
  lemma MacInputPrefixFree(m: Message, m': Message)
    requires Accepted(m) && Accepted(m') && MacInput(m) <= MacInput(m')
    ensures m == m'
  {
    hide B0, AdPart, Pad16;
    var rest, rest' := AdPart(m.ad) + Pad16(m.text), AdPart(m'.ad) + Pad16(m'.text);
    assert MacInput(m) == B0(m) + rest && MacInput(m') == B0(m') + rest';
    PrefixParts(B0(m), rest, B0(m'), rest');
    FirstBlockDecodes(m, m');
    AdDecodes(m.ad, Pad16(m.text), m'.ad, Pad16(m'.text));
    assert Pad16(m.text) == Pad16(m'.text);
    PadInjective(m.text, m'.text);
  }
}
