/** The two substitution tables, one 16-byte row per constant as the source lays them out. */
module SBoxes {
  import opened Bytes
  import opened Gf8

  /** Row `r` of `sbox`. */
  function SBoxRow(r: byte): bv128 {
    match r
    case 0 => 0x637c777b_f26b6fc5_3001672b_fed7ab76
    case 1 => 0xca82c97d_fa5947f0_add4a2af_9ca472c0
    case 2 => 0xb7fd9326_363ff7cc_34a5e5f1_71d83115
    case 3 => 0x04c723c3_1896059a_071280e2_eb27b275
    case 4 => 0x09832c1a_1b6e5aa0_523bd6b3_29e32f84
    case 5 => 0x53d100ed_20fcb15b_6acbbe39_4a4c58cf
    case 6 => 0xd0efaafb_434d3385_45f9027f_503c9fa8
    case 7 => 0x51a3408f_929d38f5_bcb6da21_10fff3d2
    case 8 => 0xcd0c13ec_5f974417_c4a77e3d_645d1973
    case 9 => 0x60814fdc_222a9088_46eeb814_de5e0bdb
    case 10 => 0xe0323a0a_4906245c_c2d3ac62_9195e479
    case 11 => 0xe7c8376d_8dd54ea9_6c56f4ea_657aae08
    case 12 => 0xba78252e_1ca6b4c6_e8dd741f_4bbd8b8a
    case 13 => 0x703eb566_4803f60e_613557b9_86c11d9e
    case 14 => 0xe1f89811_69d98e94_9b1e87e9_ce5528df
    case _ => 0x8ca1890d_bfe64268_41992d0f_b054bb16
  }

  /** `sbox[x]`: byte `x & 15` of row `x >> 4`. */
  function SBox(x: byte): byte {
    ((SBoxRow(x >> 4) >> (((x & 15) ^ 15) << 3)) & 0xff) as byte
  }

  /** Row `r` of `rsbox`. */
  function InvSBoxRow(r: byte): bv128 {
    match r
    case 0 => 0x52096ad5_3036a538_bf40a39e_81f3d7fb
    case 1 => 0x7ce33982_9b2fff87_348e4344_c4dee9cb
    case 2 => 0x547b9432_a6c2233d_ee4c950b_42fac34e
    case 3 => 0x082ea166_28d924b2_765ba249_6d8bd125
    case 4 => 0x72f8f664_86689816_d4a45ccc_5d65b692
    case 5 => 0x6c704850_fdedb9da_5e154657_a78d9d84
    case 6 => 0x90d8ab00_8cbcd30a_f7e45805_b8b34506
    case 7 => 0xd02c1e8f_ca3f0f02_c1afbd03_01138a6b
    case 8 => 0x3a911141_4f67dcea_97f2cfce_f0b4e673
    case 9 => 0x96ac7422_e7ad3585_e2f937e8_1c75df6e
    case 10 => 0x47f11a71_1d29c589_6fb7620e_aa18be1b
    case 11 => 0xfc563e4b_c6d27920_9adbc0fe_78cd5af4
    case 12 => 0x1fdda833_8807c731_b1121059_2780ec5f
    case 13 => 0x60517fa9_19b54a0d_2de57a9f_93c99cef
    case 14 => 0xa0e03b4d_ae2af5b0_c8ebbb3c_83539961
    case _ => 0x172b047e_ba77d626_e1691463_55210c7d
  }

  /** `rsbox[x]`: byte `x & 15` of row `x >> 4`. */
  function InvSBox(x: byte): byte {
    ((InvSBoxRow(x >> 4) >> (((x & 15) ^ 15) << 3)) & 0xff) as byte
  }

  /** `rsbox` undoes `sbox`, and the other way round. */
  lemma SBoxesInvert(x: byte)
    ensures InvSBox(SBox(x)) == x
    ensures SBox(InvSBox(x)) == x
  {
    if x < 0x80 {
      InvertLowHalf(x);
      InvertLowHalfBack(x);
    } else {
      InvertHighHalf(x);
      InvertHighHalfBack(x);
    }
  }

  lemma InvertLowHalf(x: byte)
    requires x < 0x80
    ensures InvSBox(SBox(x)) == x
  {
  }

  lemma InvertHighHalf(x: byte)
    requires x >= 0x80
    ensures InvSBox(SBox(x)) == x
  {
  }

  lemma InvertLowHalfBack(x: byte)
    requires x < 0x80
    ensures SBox(InvSBox(x)) == x
  {
  }

  lemma InvertHighHalfBack(x: byte)
    requires x >= 0x80
    ensures SBox(InvSBox(x)) == x
  {
  }

  // ---- the definition in section 5.1.1 of FIPS 197 ----

  function Rotate(b: byte, k: nat): byte
    requires k <= 8
  {
    (b << k) | (b >> (8 - k))
  }

  /** Bit i of the result is the sum of bits i, i+4, i+5, i+6 and i+7 of `y` and of bit i of 0x63. */
  function Affine(y: byte): byte {
    y ^ Rotate(y, 1) ^ Rotate(y, 2) ^ Rotate(y, 3) ^ Rotate(y, 4) ^ 0x63
  }

  /** The inverse of the affine map. */
  function Unaffine(s: byte): byte {
    Rotate(s, 1) ^ Rotate(s, 3) ^ Rotate(s, 6) ^ 0x05
  }

  /** The multiplicative inverse that stands behind an entry of the table. */
  function Inverse(x: byte): byte {
    Unaffine(SBox(x))
  }

  predicate Matches(x: byte) {
    SBox(x) == Affine(Inverse(x)) && Mul(x, Inverse(x)) == (if x == 0 then 0 else 1) && (x == 0 ==> Inverse(x) == 0)
  }

  lemma MatchesFirstQuarter(x: byte)
    requires x < 0x40
    ensures Matches(x)
  {
  }

  lemma MatchesSecondQuarter(x: byte)
    requires 0x40 <= x < 0x80
    ensures Matches(x)
  {
  }

  lemma MatchesThirdQuarter(x: byte)
    requires 0x80 <= x < 0xc0
    ensures Matches(x)
  {
  }

  lemma MatchesLastQuarter(x: byte)
    requires 0xc0 <= x
    ensures Matches(x)
  {
  }

  lemma AllMatch(x: byte)
    ensures Matches(x)
  {
    hide Matches;
    if x < 0x40 {
      MatchesFirstQuarter(x);
    } else if x < 0x80 {
      MatchesSecondQuarter(x);
    } else if x < 0xc0 {
      MatchesThirdQuarter(x);
    } else {
      MatchesLastQuarter(x);
    }
  }

  /** Every byte but zero has an inverse. */
  lemma InverseExists(x: byte)
    ensures x != 0 ==> Mul(x, Inverse(x)) == 1
  {
    hide Inverse, Mul, Affine, SBox;
    AllMatch(x);
  }

  /** `sbox[x]` is the affine map of the inverse of `x`, where zero stands for its own inverse. */
  lemma SBoxIsAffineOfInverse(x: byte, y: byte)
    requires if x == 0 then y == 0 else Mul(x, y) == 1
    ensures SBox(x) == Affine(y)
  {
    hide Inverse, Mul, Affine, SBox;
    AllMatch(x);
    if x != 0 {
      InverseIsUnique(x, y, Inverse(x));
    }
  }
}
