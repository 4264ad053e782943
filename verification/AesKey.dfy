/** Key expansion of aes_alt.c. */
module AesKey {
  import opened Bytes
  import opened Gf8
  import opened SBoxes
  import opened Aes

  /** The key sizes that `mbedtls_aes_setkey_enc` accepts, in 32-bit words. */
  ghost predicate KeyWords(nk: nat) {
    nk == 4 || nk == 6 || nk == 8
  }

  /** A key as the big-endian words that `pack_key` makes of it. */
  type Key = k: seq<bv32> | KeyWords(|k|) witness [0, 0, 0, 0]

  function Word(a: byte, b: byte, c: byte, d: byte): bv32 {
    ((a as bv32) << 24) | ((b as bv32) << 16) | ((c as bv32) << 8) | (d as bv32)
  }

  /** `load32_be` at word `i` of a byte string. */
  function LoadWord(key: seq<byte>, i: nat): bv32
    requires 4 * i + 4 <= |key|
  {
    Word(key[4 * i], key[4 * i + 1], key[4 * i + 2], key[4 * i + 3])
  }

  function LoadKey(key: seq<byte>, nk: nat): Key
    requires KeyWords(nk) && |key| >= 4 * nk
  {
    seq(nk, i requires 0 <= i < nk => LoadWord(key, i))
  }

  function SubWord(w: bv32): bv32 {
    Word(SBox(WordByte(w, 0)), SBox(WordByte(w, 1)), SBox(WordByte(w, 2)), SBox(WordByte(w, 3)))
  }

  function XorWords(a: bv32, b: bv32): bv32 {
    a ^ b
  }

  function RotWord(w: bv32): bv32 {
    (w << 8) | (w >> 24)
  }

  /** The round constants of section 5.2 of FIPS 197: the powers of {02}. */
  function RoundConstant(i: nat): byte
    requires i > 0
  {
    if i == 1 then 1 else XTime(RoundConstant(i - 1))
  }

  const RCON: seq<byte> := [0x00, 0x01, 0x02, 0x04, 0x08, 0x10, 0x20, 0x40, 0x80, 0x1b, 0x36]

  /** The table holds the powers of {02}. */
  lemma {:induction false} TableOfConstants(i: nat)
    requires 0 < i < |RCON|
    ensures RCON[i] == RoundConstant(i)
  {
    if i > 1 {
      TableOfConstants(i - 1);
    }
  }

  /** What section 5.2 of FIPS 197 does to the previous word before adding it in. */
  function Twist(tmp: bv32, nk: nat, i: nat): bv32
    requires KeyWords(nk) && i >= nk
  {
    if i % nk == 0 then XorWords(SubWord(RotWord(tmp)), Word(RoundConstant(i / nk), 0, 0, 0))
    else if nk > 6 && i % nk == 4 then SubWord(tmp)
    else tmp
  }

  /** Word `i` of the key schedule: section 5.2 of FIPS 197. */
  function ExpandedWord(key: Key, i: nat): bv32 {
    if i < |key| then key[i]
    else XorWords(ExpandedWord(key, i - |key|), Twist(ExpandedWord(key, i - 1), |key|, i))
  }

  /** The whole schedule of a key. */
  function Expand(key: Key): (w: Schedule)
    ensures Usable(w, |key| + 6)
  {
    seq(4 * (|key| + 7), i requires 0 <= i < 4 * (|key| + 7) => ExpandedWord(key, i))
  }

  lemma ConstantInTable(nk: nat, i: nat)
    requires KeyWords(nk) && nk <= i < 4 * (nk + 7)
    ensures 0 < i / nk < |RCON|
  {
  }

  /** The branches of the expansion loop, with the round constant looked up in the table. */
  method TwistByTable(prev: bv32, nk: nat, i: nat) returns (tmp: bv32)
    requires KeyWords(nk) && nk <= i < 4 * (nk + 7)
    ensures tmp == Twist(prev, nk, i)
  {
    hide SubWord, RotWord, RoundConstant, XorWords, Word;
    tmp := prev;
    if i % nk == 0 {
      ConstantInTable(nk, i);
      TableOfConstants(i / nk);
      tmp := XorWords(SubWord(RotWord(tmp)), Word(RCON[i / nk], 0, 0, 0));
    } else if nk > 6 && i % nk == 4 {
      tmp := SubWord(tmp);
    }
  }

  lemma FirstWords(k: Key)
    ensures forall j :: 0 <= j < |k| ==> ExpandedWord(k, j) == k[j]
  {
  }

  lemma NextWord(k: Key, i: nat)
    requires i >= |k|
    ensures ExpandedWord(k, i) == XorWords(ExpandedWord(k, i - |k|), Twist(ExpandedWord(k, i - 1), |k|, i))
  {
    hide Twist, XorWords;
  }

  /** `sw_key_expand`, for `nk` key words. */
  method SwKeyExpand(rk: array<bv32>, key: seq<byte>, nk: nat)
    requires KeyWords(nk) && |key| >= 4 * nk && rk.Length >= 4 * (nk + 7)
    modifies rk
    ensures rk[..4 * (nk + 7)] == Expand(LoadKey(key, nk))
  {
    hide LoadWord, Twist, XorWords, ExpandedWord;
    ghost var k := LoadKey(key, nk);
    FirstWords(k);
    var total := 4 * (nk + 7);
    var i := 0;
    while i < nk
      invariant 0 <= i <= nk
      invariant forall j :: 0 <= j < i ==> rk[j] == ExpandedWord(k, j)
    {
      rk[i] := LoadWord(key, i);
      i := i + 1;
    }
    while i < total
      invariant nk <= i <= total
      invariant forall j :: 0 <= j < i ==> rk[j] == ExpandedWord(k, j)
    {
      NextWord(k, i);
      var tmp := TwistByTable(rk[i - 1], nk, i);
      rk[i] := XorWords(rk[i - nk], tmp);
      i := i + 1;
    }
  }

  // ---- the schedule byte by byte ----


  function ShiftedByte(w: bv32, shift: nat): byte
    requires shift <= 24
  {
    ((w >> shift) & 0xff) as byte
  }

  lemma ByteByShift(w: bv32, k: nat)
    requires k < 4
    ensures WordByte(w, k) == ShiftedByte(w, 24 - 8 * k)
  {
  }

  lemma WordOfShifts(w: bv32)
    ensures Word(ShiftedByte(w, 24), ShiftedByte(w, 16), ShiftedByte(w, 8), ShiftedByte(w, 0)) == w
  {
  }

  lemma ShiftsOfWord(a: byte, b: byte, c: byte, d: byte)
    ensures var w := Word(a, b, c, d);
            && ShiftedByte(w, 24) == a && ShiftedByte(w, 16) == b && ShiftedByte(w, 8) == c && ShiftedByte(w, 0) == d
  {
  }

  lemma BytesOfWord(a: byte, b: byte, c: byte, d: byte)
    ensures var w := Word(a, b, c, d);
            WordByte(w, 0) == a && WordByte(w, 1) == b && WordByte(w, 2) == c && WordByte(w, 3) == d
  {
    hide ShiftedByte, WordByte, Word;
    var w := Word(a, b, c, d);
    ByteByShift(w, 0);
    ByteByShift(w, 1);
    ByteByShift(w, 2);
    ByteByShift(w, 3);
    ShiftsOfWord(a, b, c, d);
  }

  lemma WordOfItsBytes(w: bv32)
    ensures Word(WordByte(w, 0), WordByte(w, 1), WordByte(w, 2), WordByte(w, 3)) == w
  {
    hide ShiftedByte, WordByte, Word;
    ByteByShift(w, 0);
    ByteByShift(w, 1);
    ByteByShift(w, 2);
    ByteByShift(w, 3);
    WordOfShifts(w);
  }

  lemma RotationOfBytes(a: byte, b: byte, c: byte, d: byte)
    ensures RotWord(Word(a, b, c, d)) == Word(b, c, d, a)
  {
  }

  lemma SumOfBytes(a: byte, b: byte, c: byte, d: byte, a': byte, b': byte, c': byte, d': byte)
    ensures XorWords(Word(a, b, c, d), Word(a', b', c', d')) == Word(Add(a, a'), Add(b, b'), Add(c, c'), Add(d, d'))
  {
  }

  lemma BytesOfRotation(w: bv32, k: nat)
    requires k < 4
    ensures WordByte(RotWord(w), k) == WordByte(w, (k + 1) % 4)
  {
    hide RotWord, WordByte, Word;
    var a, b, c, d := WordByte(w, 0), WordByte(w, 1), WordByte(w, 2), WordByte(w, 3);
    WordOfItsBytes(w);
    RotationOfBytes(a, b, c, d);
    BytesOfWord(b, c, d, a);
  }

  lemma ByteOfSum(v: bv32, w: bv32, k: nat)
    requires k < 4
    ensures WordByte(XorWords(v, w), k) == Add(WordByte(v, k), WordByte(w, k))
  {
    hide XorWords, WordByte, Word, Add;
    var a, b, c, d := WordByte(v, 0), WordByte(v, 1), WordByte(v, 2), WordByte(v, 3);
    var a', b', c', d' := WordByte(w, 0), WordByte(w, 1), WordByte(w, 2), WordByte(w, 3);
    WordOfItsBytes(v);
    WordOfItsBytes(w);
    SumOfBytes(a, b, c, d, a', b', c', d');
    BytesOfWord(Add(a, a'), Add(b, b'), Add(c, c'), Add(d, d'));
  }

  lemma BytesOfSubstitution(w: bv32, k: nat)
    requires k < 4
    ensures WordByte(SubWord(w), k) == SBox(WordByte(w, k))
  {
    hide SBox, WordByte, Word;
    BytesOfWord(SBox(WordByte(w, 0)), SBox(WordByte(w, 1)), SBox(WordByte(w, 2)), SBox(WordByte(w, 3)));
  }

  /**
   What byte `k` of word `i` adds to the word `nk` places back: where a round key of `nk` words begins, the S-box of the
   next byte of the previous word and, for the first byte, the power of x; in the middle of eight words, the S-box of
   the same byte; and otherwise that byte itself.
   */
  function AddedByte(prev: bv32, nk: nat, i: nat, k: nat): byte
    requires KeyWords(nk) && i >= nk && k < 4
  {
    if i % nk == 0 then Add(SBox(WordByte(prev, (k + 1) % 4)), if k == 0 then RoundConstant(i / nk) else 0)
    else if nk == 8 && i % 8 == 4 then SBox(WordByte(prev, k))
    else WordByte(prev, k)
  }

  lemma BytesOfTwist(prev: bv32, nk: nat, i: nat, k: nat)
    requires KeyWords(nk) && i >= nk && k < 4
    ensures WordByte(Twist(prev, nk, i), k) == AddedByte(prev, nk, i, k)
  {
    hide SBox, WordByte, Word, SubWord, RotWord, XorWords, RoundConstant, Add;
    if i % nk == 0 {
      BytesOfRotation(prev, k);
      var r := RotWord(prev);
      BytesOfSubstitution(r, k);
      var c := RoundConstant(i / nk);
      ByteOfSum(SubWord(r), Word(c, 0, 0, 0), k);
      BytesOfWord(c, 0, 0, 0);
    } else {
      BytesOfSubstitution(prev, k);
    }
  }

  /** Every byte of the schedule after the key is the byte `nk` words back plus what the previous word contributes. */
  lemma ScheduleBytes(key: Key, i: nat, k: nat)
    requires |key| <= i < 4 * (|key| + 7) && k < 4
    ensures var w := Expand(key);
            WordByte(w[i], k) == Add(WordByte(w[i - |key|], k), AddedByte(w[i - 1], |key|, i, k))
  {
    hide AddedByte, WordByte, XorWords, Twist, ExpandedWord, Add;
    NextWord(key, i);
    var prev := ExpandedWord(key, i - 1);
    ByteOfSum(ExpandedWord(key, i - |key|), Twist(prev, |key|, i), k);
    BytesOfTwist(prev, |key|, i, k);
  }

  lemma QuotientOfSixteen(i: nat)
    ensures 4 * (i / 16) + i % 16 / 4 == i / 4 && i % 16 % 4 == i % 4
  {
  }

  /** The first round keys are the key itself, byte for byte. */
  lemma FirstRoundKeys(key: seq<byte>, nk: nat, i: nat)
    requires KeyWords(nk) && |key| >= 4 * nk && i < 4 * nk
    ensures KeyByte(Expand(LoadKey(key, nk)), i / 16, i % 16) == key[i]
  {
    hide WordByte, ExpandedWord, Word;
    FirstWords(LoadKey(key, nk));
    QuotientOfSixteen(i);
    var j := i / 4;
    BytesOfWord(key[4 * j], key[4 * j + 1], key[4 * j + 2], key[4 * j + 3]);
    assert i == 4 * j + i % 4;
  }

  lemma SampleEntries()
    ensures SBox(0xcf) == 0x8a && SBox(0x4f) == 0x84 && SBox(0x3c) == 0xeb && SBox(0x09) == 0x01
  {
  }

  lemma SampleBytes()
    ensures WordByte(0x2b7e1516, 0) == 0x2b && WordByte(0x2b7e1516, 1) == 0x7e
    ensures WordByte(0x2b7e1516, 2) == 0x15 && WordByte(0x2b7e1516, 3) == 0x16
    ensures WordByte(0x09cf4f3c, 0) == 0x09 && WordByte(0x09cf4f3c, 1) == 0xcf
    ensures WordByte(0x09cf4f3c, 2) == 0x4f && WordByte(0x09cf4f3c, 3) == 0x3c
  {
  }

  lemma SampleWord()
    ensures Word(0xa0, 0xfa, 0xfe, 0x17) == 0xa0fafe17
  {
  }

  /** The first word that the expansion of the key in appendix A.1 of FIPS 197 computes. */
  lemma SampleSchedule()
    ensures Expand([0x2b7e1516, 0x28aed2a6, 0xabf71588, 0x09cf4f3c])[4] == 0xa0fafe17
  {
    hide SBox, WordByte, ExpandedWord;
    var key: Key := [0x2b7e1516, 0x28aed2a6, 0xabf71588, 0x09cf4f3c];
    FirstWords(key);
    SampleEntries();
    SampleBytes();
    ScheduleBytes(key, 4, 0);
    ScheduleBytes(key, 4, 1);
    ScheduleBytes(key, 4, 2);
    ScheduleBytes(key, 4, 3);
    WordOfItsBytes(Expand(key)[4]);
    SampleWord();
  }
}
