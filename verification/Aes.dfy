/** The AES block cipher of aes_alt.c: the rounds of FIPS 197 and the in-place code that runs them. */
module Aes {
  import opened Bytes
  import opened Gf8
  import opened SBoxes

  /** Expanded key words, most significant byte first, as `rk[]` stores them. */
  type Schedule = seq<bv32>

  /** `rk` holds a round key for every round from 0 to `nr`. */
  ghost predicate Usable(w: Schedule, nr: nat) {
    nr >= 1 && |w| >= 4 * (nr + 1)
  }

  // ---- the transformations of sections 5.1 and 5.3 of FIPS 197, on states stored column by column ----

  function SubBytes(s: Block): Block {
    seq(16, i requires 0 <= i < 16 => SBox(s[i]))
  }

  function InvSubBytes(s: Block): Block {
    seq(16, i requires 0 <= i < 16 => InvSBox(s[i]))
  }

  /** Row `i % 4` moves left by its own number; one row step is four bytes. */
  function ShiftRows(s: Block): Block {
    [s[0], s[5], s[10], s[15], s[4], s[9], s[14], s[3],
     s[8], s[13], s[2], s[7], s[12], s[1], s[6], s[11]]
  }

  function InvShiftRows(s: Block): Block {
    [s[0], s[13], s[10], s[7], s[4], s[1], s[14], s[11],
     s[8], s[5], s[2], s[15], s[12], s[9], s[6], s[3]]
  }

  /** The byte `k` rows below byte `i`, wrapping inside the same column. */
  function Below(i: nat, k: nat): (r: nat)
    requires i < 16 && k < 4
    ensures r < 16
  {
    if i % 4 + k < 4 then i + k else i + k - 4
  }

  /** One output byte of MixColumns: {02}a + {03}b + c + d. */
  function MixByte(a: byte, b: byte, c: byte, d: byte): byte {
    Sum4(XTime(a), Add(XTime(b), b), c, d)
  }

  /** One output byte of InvMixColumns: {0e}a + {0b}b + {0d}c + {09}d. */
  function InvMixByte(a: byte, b: byte, c: byte, d: byte): byte {
    Sum4(Mul(a, 14), Mul(b, 11), Mul(c, 13), Mul(d, 9))
  }

  function MixColumns(s: Block): Block {
    seq(16, i requires 0 <= i < 16 => MixByte(s[i], s[Below(i, 1)], s[Below(i, 2)], s[Below(i, 3)]))
  }

  function InvMixColumns(s: Block): Block {
    seq(16, i requires 0 <= i < 16 => InvMixByte(s[i], s[Below(i, 1)], s[Below(i, 2)], s[Below(i, 3)]))
  }

  /** Byte `k` of a big-endian word. */
  function WordByte(w: bv32, k: nat): byte
    requires k < 4
  {
    ((w >> (24 - 8 * k)) & 0xff) as byte
  }

  function KeyByte(w: Schedule, round: nat, i: nat): byte
    requires |w| >= 4 * (round + 1) && i < 16
  {
    WordByte(w[4 * round + i / 4], i % 4)
  }

  function AddRoundKey(s: Block, w: Schedule, round: nat): Block
    requires |w| >= 4 * (round + 1)
  {
    seq(16, i requires 0 <= i < 16 => Add(s[i], KeyByte(w, round, i)))
  }

  // ---- whole ciphers ----

  /** The state after round `r` of the forward cipher; the last of the `nr` rounds mixes no columns. */
  function EncryptRounds(w: Schedule, nr: nat, x: Block, r: nat): Block
    requires Usable(w, nr) && r <= nr
  {
    if r == 0 then AddRoundKey(x, w, 0)
    else
      var s := ShiftRows(SubBytes(EncryptRounds(w, nr, x, r - 1)));
      AddRoundKey(if r < nr then MixColumns(s) else s, w, r)
  }

  /** The state after `k` rounds of the inverse cipher, which walks the round keys backwards. */
  function DecryptRounds(w: Schedule, nr: nat, y: Block, k: nat): Block
    requires Usable(w, nr) && k <= nr
  {
    if k == 0 then AddRoundKey(y, w, nr)
    else
      var s := AddRoundKey(InvSubBytes(InvShiftRows(DecryptRounds(w, nr, y, k - 1))), w, nr - k);
      if k < nr then InvMixColumns(s) else s
  }

  function Encrypt(w: Schedule, nr: nat, x: Block): Block
    requires Usable(w, nr)
  {
    EncryptRounds(w, nr, x, nr)
  }

  function Decrypt(w: Schedule, nr: nat, y: Block): Block
    requires Usable(w, nr)
  {
    DecryptRounds(w, nr, y, nr)
  }

  // ---- each transformation is undone by its inverse ----

  lemma SubBytesInverts(s: Block)
    ensures InvSubBytes(SubBytes(s)) == s
    ensures SubBytes(InvSubBytes(s)) == s
  {
    hide SBox, InvSBox;
    forall i | 0 <= i < 16
      ensures InvSBox(SBox(s[i])) == s[i] && SBox(InvSBox(s[i])) == s[i]
    {
      SBoxesInvert(s[i]);
    }
  }

  lemma ShiftRowsInverts(s: Block)
    ensures InvShiftRows(ShiftRows(s)) == s
    ensures ShiftRows(InvShiftRows(s)) == s
  {
  }

  lemma AddRoundKeyInverts(s: Block, w: Schedule, round: nat)
    requires |w| >= 4 * (round + 1)
    ensures AddRoundKey(AddRoundKey(s, w, round), w, round) == s
  {
    hide KeyByte;
    forall i | 0 <= i < 16
      ensures (Add(s[i], KeyByte(w, round, i))) ^ KeyByte(w, round, i) == s[i]
    {
    }
  }

  // ---- MixColumns: linear in each byte, so it is enough to follow one byte of the column at a time ----

  /** In InvMixColumns after MixColumns a byte's own contribution survives and the other three cancel. */
  lemma Contributions(a: byte)
    ensures var x2, x3 := XTime(a), Add(XTime(a), a);
            && Sum4(Mul(x2, 14), Mul(a, 11), Mul(a, 13), Mul(x3, 9)) == a
            && Sum4(Mul(x3, 14), Mul(x2, 11), Mul(a, 13), Mul(a, 9)) == 0
            && Sum4(Mul(a, 14), Mul(x3, 11), Mul(x2, 13), Mul(a, 9)) == 0
            && Sum4(Mul(a, 14), Mul(a, 11), Mul(x3, 13), Mul(x2, 9)) == 0
  {
    hide Mul;
    MulByConstants(a);
    MulByConstants(XTime(a));
    MulByConstants(Add(XTime(a), a));
  }

  lemma InvMixAfterMix(a: byte, b: byte, c: byte, d: byte)
    ensures InvMixByte(MixByte(a, b, c, d), MixByte(b, c, d, a), MixByte(c, d, a, b), MixByte(d, a, b, c)) == a
  {
    hide Mul, XTime, Add, Sum4;
    var a2, b2, c2, d2 := XTime(a), XTime(b), XTime(c), XTime(d);
    var a3, b3, c3, d3 := Add(a2, a), Add(b2, b), Add(c2, c), Add(d2, d);
    MulDistributes(a2, b3, c, d, 14);
    MulDistributes(b2, c3, d, a, 11);
    MulDistributes(c2, d3, a, b, 13);
    MulDistributes(d2, a3, b, c, 9);
    SumRotates(Mul(a, 11), Mul(b2, 11), Mul(c3, 11), Mul(d, 11));
    SumRotates(Mul(a, 13), Mul(b, 13), Mul(c2, 13), Mul(d3, 13));
    SumRotates(Mul(b, 13), Mul(c2, 13), Mul(d3, 13), Mul(a, 13));
    SumRotates(Mul(d2, 9), Mul(a3, 9), Mul(b, 9), Mul(c, 9));
    SumsTranspose(Mul(a2, 14), Mul(b3, 14), Mul(c, 14), Mul(d, 14),
                  Mul(a, 11), Mul(b2, 11), Mul(c3, 11), Mul(d, 11),
                  Mul(a, 13), Mul(b, 13), Mul(c2, 13), Mul(d3, 13),
                  Mul(a3, 9), Mul(b, 9), Mul(c, 9), Mul(d2, 9));
    Contributions(a);
    Contributions(b);
    Contributions(c);
    Contributions(d);
    SumOfOne(a);
  }

  lemma SumOfOne(a: byte)
    ensures Sum4(a, 0, 0, 0) == a
  {
  }

  /** The same count for MixColumns after InvMixColumns. */
  lemma ContributionsBack(a: byte)
    ensures var p, q, r, s := Mul(a, 14), Mul(a, 9), Mul(a, 13), Mul(a, 11);
            && MixByte(p, q, r, s) == a
            && MixByte(s, p, q, r) == 0
            && MixByte(r, s, p, q) == 0
            && MixByte(q, r, s, p) == 0
  {
    hide Mul;
    MulByConstants(a);
  }

  lemma MixLinear(a: byte, b: byte, c: byte, d: byte, a': byte, b': byte, c': byte, d': byte)
    ensures MixByte(Add(a, a'), Add(b, b'), Add(c, c'), Add(d, d')) == Add(MixByte(a, b, c, d), MixByte(a', b', c', d'))
  {
    hide XTime, Add, Sum4;
    XTimeDistributes(a, a');
    XTimeDistributes(b, b');
    AddSwaps(XTime(b), XTime(b'), b, b');
    SumsAdd(XTime(a), Add(XTime(b), b), c, d, XTime(a'), Add(XTime(b'), b'), c', d');
  }

  lemma MixLinear4(a0: byte, b0: byte, c0: byte, d0: byte, a1: byte, b1: byte, c1: byte, d1: byte,
                   a2: byte, b2: byte, c2: byte, d2: byte, a3: byte, b3: byte, c3: byte, d3: byte)
    ensures MixByte(Sum4(a0, a1, a2, a3), Sum4(b0, b1, b2, b3), Sum4(c0, c1, c2, c3), Sum4(d0, d1, d2, d3))
         == Sum4(MixByte(a0, b0, c0, d0), MixByte(a1, b1, c1, d1), MixByte(a2, b2, c2, d2), MixByte(a3, b3, c3, d3))
  {
    hide Add, MixByte;
    MixLinear(a0, b0, c0, d0, a1, b1, c1, d1);
    MixLinear(a2, b2, c2, d2, a3, b3, c3, d3);
    MixLinear(Add(a0, a1), Add(b0, b1), Add(c0, c1), Add(d0, d1), Add(a2, a3), Add(b2, b3), Add(c2, c3), Add(d2, d3));
  }

  lemma MixAfterInvMix(a: byte, b: byte, c: byte, d: byte)
    ensures MixByte(InvMixByte(a, b, c, d), InvMixByte(b, c, d, a), InvMixByte(c, d, a, b), InvMixByte(d, a, b, c)) == a
  {
    hide Mul, Add, Sum4, MixByte;
    SumRotates(Mul(a, 9), Mul(b, 14), Mul(c, 11), Mul(d, 13));
    SumRotates(Mul(a, 13), Mul(b, 9), Mul(c, 14), Mul(d, 11));
    SumRotates(Mul(b, 9), Mul(c, 14), Mul(d, 11), Mul(a, 13));
    SumRotates(Mul(d, 14), Mul(a, 11), Mul(b, 13), Mul(c, 9));
    MixLinear4(Mul(a, 14), Mul(a, 9), Mul(a, 13), Mul(a, 11),
               Mul(b, 11), Mul(b, 14), Mul(b, 9), Mul(b, 13),
               Mul(c, 13), Mul(c, 11), Mul(c, 14), Mul(c, 9),
               Mul(d, 9), Mul(d, 13), Mul(d, 11), Mul(d, 14));
    ContributionsBack(a);
    ContributionsBack(b);
    ContributionsBack(c);
    ContributionsBack(d);
    SumOfOne(a);
  }

  lemma MixColumnsInverts(s: Block)
    ensures InvMixColumns(MixColumns(s)) == s
    ensures MixColumns(InvMixColumns(s)) == s
  {
    hide MixByte, InvMixByte;
    forall i | 0 <= i < 16
      ensures InvMixColumns(MixColumns(s))[i] == s[i] && MixColumns(InvMixColumns(s))[i] == s[i]
    {
      var b, c, d := Below(i, 1), Below(i, 2), Below(i, 3);
      BelowCycles(i);
      InvMixAfterMix(s[i], s[b], s[c], s[d]);
      MixAfterInvMix(s[i], s[b], s[c], s[d]);
    }
  }

  /** Four steps down the column return to the start. */
  lemma BelowCycles(i: nat)
    requires i < 16
    ensures var b, c, d := Below(i, 1), Below(i, 2), Below(i, 3);
            && Below(b, 1) == c && Below(b, 2) == d && Below(b, 3) == i
            && Below(c, 1) == d && Below(c, 2) == i && Below(c, 3) == b
            && Below(d, 1) == i && Below(d, 2) == b && Below(d, 3) == c
  {
  }

  // ---- the block theorem ----

  /** Walking the rounds backwards meets, one round earlier, the state the forward cipher had there. */
  lemma {:induction false} DecryptionRetraces(w: Schedule, nr: nat, x: Block, k: nat)
    requires Usable(w, nr) && k < nr
    ensures DecryptRounds(w, nr, Encrypt(w, nr, x), k) == ShiftRows(SubBytes(EncryptRounds(w, nr, x, nr - k - 1)))
  {
    hide ShiftRows, SubBytes, MixColumns, InvShiftRows, InvSubBytes, InvMixColumns, AddRoundKey;
    var r := nr - k;
    var before := ShiftRows(SubBytes(EncryptRounds(w, nr, x, r - 1)));
    if k == 0 {
      AddRoundKeyInverts(before, w, nr);
    } else {
      DecryptionRetraces(w, nr, x, k - 1);
      var e := EncryptRounds(w, nr, x, r);
      ShiftRowsInverts(SubBytes(e));
      SubBytesInverts(e);
      AddRoundKeyInverts(MixColumns(before), w, r);
      MixColumnsInverts(before);
    }
  }

  /** Decryption undoes encryption, for any round keys and any number of rounds. */
  lemma DecryptUndoesEncrypt(w: Schedule, nr: nat, x: Block)
    requires Usable(w, nr)
    ensures Decrypt(w, nr, Encrypt(w, nr, x)) == x
  {
    hide ShiftRows, SubBytes, MixColumns, InvShiftRows, InvSubBytes, InvMixColumns, AddRoundKey;
    DecryptionRetraces(w, nr, x, nr - 1);
    var e := EncryptRounds(w, nr, x, 0);
    ShiftRowsInverts(SubBytes(e));
    SubBytesInverts(e);
    AddRoundKeyInverts(x, w, 0);
  }

  lemma {:induction false} EncryptionRetraces(w: Schedule, nr: nat, y: Block, r: nat)
    requires Usable(w, nr) && r < nr
    ensures EncryptRounds(w, nr, Decrypt(w, nr, y), r) == InvSubBytes(InvShiftRows(DecryptRounds(w, nr, y, nr - r - 1)))
  {
    hide ShiftRows, SubBytes, MixColumns, InvShiftRows, InvSubBytes, InvMixColumns, AddRoundKey;
    var d := DecryptRounds(w, nr, y, nr - r - 1);
    var after := InvSubBytes(InvShiftRows(d));
    if r == 0 {
      AddRoundKeyInverts(after, w, 0);
    } else {
      EncryptionRetraces(w, nr, y, r - 1);
      var earlier := DecryptRounds(w, nr, y, nr - r);
      SubBytesInverts(InvShiftRows(earlier));
      ShiftRowsInverts(earlier);
      MixColumnsInverts(AddRoundKey(after, w, r));
      AddRoundKeyInverts(after, w, r);
    }
  }

  /** Encryption undoes decryption. */
  lemma EncryptUndoesDecrypt(w: Schedule, nr: nat, y: Block)
    requires Usable(w, nr)
    ensures Encrypt(w, nr, Decrypt(w, nr, y)) == y
  {
    hide ShiftRows, SubBytes, MixColumns, InvShiftRows, InvSubBytes, InvMixColumns, AddRoundKey;
    EncryptionRetraces(w, nr, y, nr - 1);
    var d := DecryptRounds(w, nr, y, 0);
    SubBytesInverts(InvShiftRows(d));
    ShiftRowsInverts(d);
    AddRoundKeyInverts(y, w, nr);
  }

  // ---- the cipher byte by byte ----

  /** Where the byte comes from that ShiftRows puts into row `row` of column `c`. */
  function From(c: nat, row: nat): (i: nat)
    requires c < 4 && row < 4
    ensures i < 16
  {
    4 * ((c + row) % 4) + row
  }

  /** The same index as a plain list, column by column. */
  const SHIFTED: seq<nat> := [0, 5, 10, 15, 4, 9, 14, 3, 8, 13, 2, 7, 12, 1, 6, 11]

  lemma FromTable(c: nat, row: nat)
    requires c < 4 && row < 4
    ensures From(c, row) == SHIFTED[4 * c + row]
  {
  }

  lemma ShiftedByteFrom(s: Block, c: nat, row: nat)
    requires c < 4 && row < 4
    ensures ShiftRows(SubBytes(s))[4 * c + row] == SBox(s[From(c, row)])
  {
    hide SBox, From, SubBytes;
    var t := SubBytes(s);
    FromTable(c, row);
    ShiftedAt(t, 4 * c + row);
    SubBytesAt(s, From(c, row));
  }

  lemma SubBytesAt(s: Block, i: nat)
    requires i < 16
    ensures SubBytes(s)[i] == SBox(s[i])
  {
    hide SBox;
  }

  lemma ShiftedAt(t: Block, i: nat)
    requires i < 16
    ensures SHIFTED[i] < 16 && ShiftRows(t)[i] == t[SHIFTED[i]]
  {
  }

  lemma MixedByteFrom(s: Block, c: nat, row: nat)
    requires c < 4 && row < 4
    ensures MixColumns(s)[4 * c + row]
         == Sum4(Mul(s[4 * c + row], 2), Mul(s[4 * c + (row + 1) % 4], 3),
                 s[4 * c + (row + 2) % 4], s[4 * c + (row + 3) % 4])
  {
    hide Mul, XTime, Add, Sum4;
    MulByConstants(s[4 * c + row]);
    MulByConstants(s[4 * c + (row + 1) % 4]);
    AddCommutes(s[4 * c + (row + 1) % 4], XTime(s[4 * c + (row + 1) % 4]));
  }

  /** One byte of a round before the last, from four bytes of the state before it. */
  predicate RoundByte(w: Schedule, before: Block, after: Block, round: nat, c: nat, row: nat)
    requires |w| >= 4 * (round + 1) && c < 4 && row < 4
  {
    after[4 * c + row]
    == Add(Sum4(Mul(SBox(before[From(c, row)]), 2), Mul(SBox(before[From(c, (row + 1) % 4)]), 3),
                SBox(before[From(c, (row + 2) % 4)]), SBox(before[From(c, (row + 3) % 4)])),
           KeyByte(w, round, 4 * c + row))
  }

  /** One byte of the last round. */
  predicate LastRoundByte(w: Schedule, before: Block, after: Block, round: nat, c: nat, row: nat)
    requires |w| >= 4 * (round + 1) && c < 4 && row < 4
  {
    after[4 * c + row] == Add(SBox(before[From(c, row)]), KeyByte(w, round, 4 * c + row))
  }

  /** All bytes of a round. */
  predicate Round(w: Schedule, before: Block, after: Block, round: nat)
    requires |w| >= 4 * (round + 1)
  {
    forall c, row | 0 <= c < 4 && 0 <= row < 4 :: RoundByte(w, before, after, round, c, row)
  }

  predicate LastRound(w: Schedule, before: Block, after: Block, round: nat)
    requires |w| >= 4 * (round + 1)
  {
    forall c, row | 0 <= c < 4 && 0 <= row < 4 :: LastRoundByte(w, before, after, round, c, row)
  }

  lemma RoundBytes(w: Schedule, before: Block, round: nat)
    requires |w| >= 4 * (round + 1)
    ensures var s := ShiftRows(SubBytes(before));
            && Round(w, before, AddRoundKey(MixColumns(s), w, round), round)
            && LastRound(w, before, AddRoundKey(s, w, round), round)
  {
    hide SBox, Mul, Add, Sum4, KeyByte, MixColumns, ShiftRows, SubBytes, From;
    var s := ShiftRows(SubBytes(before));
    forall c, row | 0 <= c < 4 && 0 <= row < 4
      ensures RoundByte(w, before, AddRoundKey(MixColumns(s), w, round), round, c, row)
      ensures LastRoundByte(w, before, AddRoundKey(s, w, round), round, c, row)
    {
      ShiftedByteFrom(before, c, row);
      ShiftedByteFrom(before, c, (row + 1) % 4);
      ShiftedByteFrom(before, c, (row + 2) % 4);
      ShiftedByteFrom(before, c, (row + 3) % 4);
      MixedByteFrom(s, c, row);
    }
  }

  /**
   Encryption as FIPS 197 describes it, byte by byte: a state for every round, the first of which is the plaintext plus
   the first round key and the last of which is the ciphertext.
   */
  lemma EncryptionByBytes(w: Schedule, nr: nat, x: Block) returns (states: seq<Block>)
    requires Usable(w, nr)
    ensures |states| == nr + 1 && states[nr] == Encrypt(w, nr, x)
    ensures forall i | 0 <= i < 16 :: states[0][i] == Add(x[i], KeyByte(w, 0, i))
    ensures forall r | 0 < r < nr :: Round(w, states[r - 1], states[r], r)
    ensures var before := states[nr - 1]; LastRound(w, before, states[nr], nr)
  {
    hide Round, LastRound, Add, KeyByte, MixColumns, ShiftRows, SubBytes;
    states := seq(nr + 1, r requires 0 <= r < nr + 1 => EncryptRounds(w, nr, x, r));
    forall r | 0 < r < nr ensures Round(w, states[r - 1], states[r], r) {
      RoundBytes(w, states[r - 1], r);
    }
    RoundBytes(w, states[nr - 1], nr);
  }
}
