/** The in-place block code of aes_alt.c, proved to compute the cipher that module Aes defines. */
module AesBlock {
  import opened Bytes
  import opened Gf8
  import opened SBoxes
  import opened Aes

  /** XORs the four bytes of round-key word `k` into column `c` of the state. */
  method XorWord(state: array<byte>, c: nat, k: bv32)
    requires state.Length == 16 && c < 4
    modifies state
    ensures forall j :: 0 <= j < 16 ==>
              state[j] == if j / 4 == c then Add(old(state[j]), WordByte(k, j % 4)) else old(state[j])
  {
    hide WordByte, Add;
    state[4 * c] := Add(state[4 * c], WordByte(k, 0));
    state[4 * c + 1] := Add(state[4 * c + 1], WordByte(k, 1));
    state[4 * c + 2] := Add(state[4 * c + 2], WordByte(k, 2));
    state[4 * c + 3] := Add(state[4 * c + 3], WordByte(k, 3));
  }

  method AddRoundKeyInPlace(state: array<byte>, rk: Schedule, round: nat)
    requires state.Length == 16 && |rk| >= 4 * (round + 1)
    modifies state
    ensures state[..] == AddRoundKey(old(state[..]), rk, round)
  {
    hide WordByte, Add;
    var i := 0;
    while i < 4
      invariant 0 <= i <= 4
      invariant forall j :: 0 <= j < 16 ==>
              state[j] == if j / 4 < i then Add(old(state[j]), KeyByte(rk, round, j)) else old(state[j])
    {
      XorWord(state, i, rk[round * 4 + i]);
      i := i + 1;
    }
  }

  /** SubBytes into a scratch block, then ShiftRows back into the state. */
  method SubAndShift(state: array<byte>)
    requires state.Length == 16
    modifies state
    ensures state[..] == ShiftRows(SubBytes(old(state[..])))
  {
    hide SBox;
    var tmp := new byte[16];
    var i := 0;
    while i < 16
      invariant 0 <= i <= 16
      invariant forall j :: 0 <= j < i ==> tmp[j] == SBox(state[j])
      invariant state[..] == old(state[..])
    {
      tmp[i] := SBox(state[i]);
      i := i + 1;
    }
    assert tmp[..] == SubBytes(old(state[..]));
    var t := tmp[..];
    Fill(state, [t[0], t[5], t[10], t[15], t[4], t[9], t[14], t[3],
                 t[8], t[13], t[2], t[7], t[12], t[1], t[6], t[11]]);
  }

  /** InvShiftRows into a scratch block, then InvSubBytes back into the state. */
  method UnshiftAndUnsub(state: array<byte>)
    requires state.Length == 16
    modifies state
    ensures state[..] == InvSubBytes(InvShiftRows(old(state[..])))
  {
    hide InvSBox;
    var s := state[..];
    var tmp := [s[0], s[13], s[10], s[7], s[4], s[1], s[14], s[11],
                s[8], s[5], s[2], s[15], s[12], s[9], s[6], s[3]];
    var i := 0;
    while i < 16
      invariant 0 <= i <= 16
      invariant forall j :: 0 <= j < i ==> state[j] == InvSBox(tmp[j])
    {
      state[i] := InvSBox(tmp[i]);
      i := i + 1;
    }
  }

  /** The four output bytes of one column, summed in the source's order. */
  lemma ColumnBytes(a: byte, b: byte, c: byte, d: byte)
    ensures Sum4(a, XTime(b), Add(XTime(c), c), d) == MixByte(b, c, d, a)
    ensures Sum4(a, b, XTime(c), Add(XTime(d), d)) == MixByte(c, d, a, b)
    ensures Sum4(Add(XTime(a), a), b, c, XTime(d)) == MixByte(d, a, b, c)
  {
    hide XTime, Add, Sum4;
    SumRotates(a, XTime(b), Add(XTime(c), c), d);
    SumRotates(a, b, XTime(c), Add(XTime(d), d));
    SumRotates(b, XTime(c), Add(XTime(d), d), a);
    SumRotates(XTime(d), Add(XTime(a), a), b, c);
  }

  /** Where in column `j` the byte `k` rows below row `r` is. */
  lemma RowsOfColumn(j: nat, r: nat, k: nat)
    requires j < 4 && r < 4 && k < 4
    ensures Below(4 * j + r, k) == 4 * j + if r + k < 4 then r + k else r + k - 4
  {
    assert (4 * j + r) % 4 == r;
  }

  lemma RowsBelow(j: nat, r: nat)
    requires j < 4 && r < 4
    ensures Below(4 * j + r, 1) == 4 * j + if r < 3 then r + 1 else r - 3
    ensures Below(4 * j + r, 2) == 4 * j + if r < 2 then r + 2 else r - 2
    ensures Below(4 * j + r, 3) == 4 * j + if r < 1 then r + 3 else r - 1
  {
    RowsOfColumn(j, r, 1);
    RowsOfColumn(j, r, 2);
    RowsOfColumn(j, r, 3);
  }

  function MixedBytes(a: byte, b: byte, c: byte, d: byte): seq<byte> {
    [MixByte(a, b, c, d), MixByte(b, c, d, a), MixByte(c, d, a, b), MixByte(d, a, b, c)]
  }

  function UnmixedBytes(a: byte, b: byte, c: byte, d: byte): seq<byte> {
    [InvMixByte(a, b, c, d), InvMixByte(b, c, d, a), InvMixByte(c, d, a, b), InvMixByte(d, a, b, c)]
  }

  lemma MixedByte(s: Block, i: nat)
    requires i < 16
    ensures MixColumns(s)[i] == MixByte(s[i], s[Below(i, 1)], s[Below(i, 2)], s[Below(i, 3)])
  {
    hide MixByte, Below;
  }

  lemma MixedRows(s: Block, j: nat)
    requires j < 4
    ensures var a, b, c, d, m := s[4 * j], s[4 * j + 1], s[4 * j + 2], s[4 * j + 3], MixColumns(s);
            && m[4 * j] == MixByte(a, b, c, d) && m[4 * j + 1] == MixByte(b, c, d, a)
            && m[4 * j + 2] == MixByte(c, d, a, b) && m[4 * j + 3] == MixByte(d, a, b, c)
  {
    hide MixColumns, MixByte, Below;
    MixedByte(s, 4 * j);
    RowsBelow(j, 0);
    MixedByte(s, 4 * j + 1);
    RowsBelow(j, 1);
    MixedByte(s, 4 * j + 2);
    RowsBelow(j, 2);
    MixedByte(s, 4 * j + 3);
    RowsBelow(j, 3);
  }

  /** One column of MixColumns, byte by byte. */
  lemma MixedColumn(s: Block, j: nat)
    requires j < 4
    ensures MixColumns(s)[4 * j..4 * j + 4] == MixedBytes(s[4 * j], s[4 * j + 1], s[4 * j + 2], s[4 * j + 3])
  {
    hide MixByte, MixColumns;
    MixedRows(s, j);
    var m := MixColumns(s)[4 * j..4 * j + 4];
    assert m == [m[0], m[1], m[2], m[3]];
  }

  lemma UnmixedByte(s: Block, i: nat)
    requires i < 16
    ensures InvMixColumns(s)[i] == InvMixByte(s[i], s[Below(i, 1)], s[Below(i, 2)], s[Below(i, 3)])
  {
    hide InvMixByte, Below;
  }

  lemma UnmixedRows(s: Block, j: nat)
    requires j < 4
    ensures var a, b, c, d, m := s[4 * j], s[4 * j + 1], s[4 * j + 2], s[4 * j + 3], InvMixColumns(s);
            && m[4 * j] == InvMixByte(a, b, c, d) && m[4 * j + 1] == InvMixByte(b, c, d, a)
            && m[4 * j + 2] == InvMixByte(c, d, a, b) && m[4 * j + 3] == InvMixByte(d, a, b, c)
  {
    hide InvMixColumns, InvMixByte, Below;
    UnmixedByte(s, 4 * j);
    RowsBelow(j, 0);
    UnmixedByte(s, 4 * j + 1);
    RowsBelow(j, 1);
    UnmixedByte(s, 4 * j + 2);
    RowsBelow(j, 2);
    UnmixedByte(s, 4 * j + 3);
    RowsBelow(j, 3);
  }

  /** One column of InvMixColumns, byte by byte. */
  lemma UnmixedColumn(s: Block, j: nat)
    requires j < 4
    ensures InvMixColumns(s)[4 * j..4 * j + 4] == UnmixedBytes(s[4 * j], s[4 * j + 1], s[4 * j + 2], s[4 * j + 3])
  {
    hide InvMixByte, InvMixColumns;
    UnmixedRows(s, j);
    var m := InvMixColumns(s)[4 * j..4 * j + 4];
    assert m == [m[0], m[1], m[2], m[3]];
  }

  /** MixColumns on column `j`, in place. */
  method MixColumn(state: array<byte>, j: nat)
    requires state.Length == 16 && j < 4
    modifies state
    ensures state[..] == old(state[..4 * j])
                         + MixedBytes(old(state[4 * j]), old(state[4 * j + 1]),
                                      old(state[4 * j + 2]), old(state[4 * j + 3]))
                         + old(state[4 * j + 4..])
  {
    hide MixByte, XTime, Add, Sum4;
    var a, b, c, d := state[4 * j], state[4 * j + 1], state[4 * j + 2], state[4 * j + 3];
    ColumnBytes(a, b, c, d);
    Copy([MixByte(a, b, c, d), Sum4(a, XTime(b), Add(XTime(c), c), d),
          Sum4(a, b, XTime(c), Add(XTime(d), d)), Sum4(Add(XTime(a), a), b, c, XTime(d))], state, 4 * j);
  }

  method MixColumnsInPlace(state: array<byte>)
    requires state.Length == 16
    modifies state
    ensures state[..] == MixColumns(old(state[..]))
  {
    hide MixColumns, MixedBytes;
    ghost var s: Block := state[..];
    var j := 0;
    while j < 4
      invariant 0 <= j <= 4
      invariant state[..4 * j] == MixColumns(s)[..4 * j]
      invariant state[4 * j..] == s[4 * j..]
    {
      MixedColumn(s, j);
      MixColumn(state, j);
      j := j + 1;
    }
  }

  /** The four output bytes of InvMixColumns in the source's order. */
  lemma InverseColumnBytes(a: byte, b: byte, c: byte, d: byte)
    ensures Sum4(Mul(a, 9), Mul(b, 14), Mul(c, 11), Mul(d, 13)) == InvMixByte(b, c, d, a)
    ensures Sum4(Mul(a, 13), Mul(b, 9), Mul(c, 14), Mul(d, 11)) == InvMixByte(c, d, a, b)
    ensures Sum4(Mul(a, 11), Mul(b, 13), Mul(c, 9), Mul(d, 14)) == InvMixByte(d, a, b, c)
  {
    hide Mul, Add, Sum4;
    SumRotates(Mul(a, 9), Mul(b, 14), Mul(c, 11), Mul(d, 13));
    SumRotates(Mul(a, 13), Mul(b, 9), Mul(c, 14), Mul(d, 11));
    SumRotates(Mul(b, 9), Mul(c, 14), Mul(d, 11), Mul(a, 13));
    SumRotates(Mul(d, 14), Mul(a, 11), Mul(b, 13), Mul(c, 9));
  }

  /** The products of one byte with the constants 9, 11, 13 and 14. */
  method Products(x: byte) returns (x9: byte, x11: byte, x13: byte, x14: byte)
    ensures x9 == Mul(x, 9) && x11 == Mul(x, 11) && x13 == Mul(x, 13) && x14 == Mul(x, 14)
  {
    hide Product;
    x9 := GMul(x, 9);
    x11 := GMul(x, 11);
    x13 := GMul(x, 13);
    x14 := GMul(x, 14);
  }

  /** InvMixColumns on column `j`, in place. */
  method UnmixColumn(state: array<byte>, j: nat)
    requires state.Length == 16 && j < 4
    modifies state
    ensures state[..] == old(state[..4 * j])
                         + UnmixedBytes(old(state[4 * j]), old(state[4 * j + 1]),
                                        old(state[4 * j + 2]), old(state[4 * j + 3]))
                         + old(state[4 * j + 4..])
  {
    hide Mul, Add, Sum4;
    var a, b, c, d := state[4 * j], state[4 * j + 1], state[4 * j + 2], state[4 * j + 3];
    InverseColumnBytes(a, b, c, d);
    var a9, a11, a13, a14 := Products(a);
    var b9, b11, b13, b14 := Products(b);
    var c9, c11, c13, c14 := Products(c);
    var d9, d11, d13, d14 := Products(d);
    Copy([Sum4(a14, b11, c13, d9), Sum4(a9, b14, c11, d13), Sum4(a13, b9, c14, d11), Sum4(a11, b13, c9, d14)],
         state, 4 * j);
  }

  method UnmixColumnsInPlace(state: array<byte>)
    requires state.Length == 16
    modifies state
    ensures state[..] == InvMixColumns(old(state[..]))
  {
    hide InvMixColumns, UnmixedBytes;
    ghost var s: Block := state[..];
    var j := 0;
    while j < 4
      invariant 0 <= j <= 4
      invariant state[..4 * j] == InvMixColumns(s)[..4 * j]
      invariant state[4 * j..] == s[4 * j..]
    {
      UnmixedColumn(s, j);
      UnmixColumn(state, j);
      j := j + 1;
    }
  }

  /** `sw_encrypt_block`: the whole output block is a function of the input block, so in-place calls are safe. */
  method SwEncryptBlock(rk: Schedule, nr: nat, input: Block) returns (output: Block)
    requires Usable(rk, nr)
    ensures output == Encrypt(rk, nr, input)
  {
    hide AddRoundKey, ShiftRows, SubBytes, MixColumns;
    var state := new byte[16];
    Fill(state, input);
    AddRoundKeyInPlace(state, rk, 0);
    var round := 1;
    while round <= nr
      invariant 1 <= round <= nr + 1
      invariant state[..] == EncryptRounds(rk, nr, input, round - 1)
    {
      SubAndShift(state);
      if round < nr {
        MixColumnsInPlace(state);
      }
      AddRoundKeyInPlace(state, rk, round);
      round := round + 1;
    }
    output := state[..];
  }

  /** `sw_decrypt_block`. */
  method SwDecryptBlock(rk: Schedule, nr: nat, input: Block) returns (output: Block)
    requires Usable(rk, nr)
    ensures output == Decrypt(rk, nr, input)
  {
    hide AddRoundKey, InvShiftRows, InvSubBytes, InvMixColumns;
    var state := new byte[16];
    Fill(state, input);
    AddRoundKeyInPlace(state, rk, nr);
    var round := nr - 1;
    while round >= 0
      invariant -1 <= round < nr
      invariant state[..] == DecryptRounds(rk, nr, input, nr - 1 - round)
    {
      UnshiftAndUnsub(state);
      AddRoundKeyInPlace(state, rk, round);
      if round > 0 {
        UnmixColumnsInPlace(state);
      }
      round := round - 1;
    }
    output := state[..];
  }
}
