/**
 Values of the Jenkins hash, computed word by word: its starting words, shifts and packing of
 characters are those of datastructures/uthash.h and no others.
 */
module JenkinsValues {
  import opened Jenkins

  /** A block of 12 characters and a rest of 11, some of them above 127. */
  function FirstBlock(): Chunk {
    [0x61, 0x62, 0x63, 0x64, 0x65, 0x66, 0x67, 0x68, 0x69, 0x6a, 0x6b, 0xFF]
  }

  function Rest(): seq<bv8> {
    [0x01, 0x82, 0x03, 0x84, 0x05, 0x86, 0x07, 0x88, 0x09, 0x8a, 0x0b]
  }

  lemma EmptyKeyMixedFirst()
    ensures Round(Triple(0x9e37_79b9, 0x9e37_79b9, 0xfeed_beef), 13, 8, 13) == Triple(0x0115_b67c, 0x8b82_784e, 0x7251_cc36)
  {}

  lemma EmptyKeyMixedSecond()
    ensures Round(Triple(0x0115_b67c, 0x8b82_784e, 0x7251_cc36), 12, 16, 5) == Triple(0x0346_54e4, 0x410e_5734, 0x2ff5_52a7)
  {}

  lemma EmptyKeyMixedThird()
    ensures Round(Triple(0x0346_54e4, 0x410e_5734, 0x2ff5_52a7), 3, 10, 15) == Triple(0x97bc_015d, 0x8958_7730, 0x0ee1_c8aa)
  {}

  lemma EmptyKeyMixed()
    ensures Mix(Triple(0x9e37_79b9, 0x9e37_79b9, 0xfeed_beef)) == Triple(0x97bc_015d, 0x8958_7730, 0x0ee1_c8aa)
  {
    EmptyKeyMixedFirst();
    EmptyKeyMixedSecond();
    EmptyKeyMixedThird();
    hide Round;
  }

  lemma ZeroWords(signed: bool)
    ensures WordAt(Pad([]), 0, signed) == WordAt(Pad([]), 4, signed) == WordAt(Pad([]), 8, signed) == 0
  {
    assert Pad([]) == [0, 0, 0, 0, 0, 0, 0, 0, 0, 0, 0, 0];
    assert Word(0, 0, 0, 0, signed) == 0;
    hide Pad, Word;
  }

  lemma EmptyKeyAbsorbed(signed: bool)
    ensures Absorb(Triple(0x9e37_79b9, 0x9e37_79b9, 0xfeed_beef), Pad([]), signed)
         == Triple(0x9e37_79b9, 0x9e37_79b9, 0xfeed_beef)
  {
    ZeroWords(signed);
    AddNothing(0x9e37_79b9);
    AddNothing(0xfeed_beef);
    hide WordAt, Plus, Pad;
  }

  /** The hash of the empty key. */
  lemma EmptyKeyHash(signed: bool)
    ensures JenState(START, [], 0, signed).h == 0x0ee1_c8aa
  {
    AddNothing(0xfeed_beef);
    EmptyKeyAbsorbed(signed);
    EmptyKeyMixed();
    hide Absorb, Mix, Plus, Pad;
  }

  lemma FirstBlockWords()
    ensures WordAt(FirstBlock(), 0, true) == 0x6463_6261
    ensures WordAt(FirstBlock(), 4, true) == 0x6867_6665
    ensures WordAt(FirstBlock(), 8, true) == 0xff6b_6a69
  {}

  lemma FirstBlockAbsorbed()
    ensures Absorb(START, FirstBlock(), true) == Triple(0x029a_dc1a, 0x069e_e01e, 0xfe59_2958)
  {
    FirstBlockWords();
    assert Plus(0x9e37_79b9, 0x6463_6261) == 0x029a_dc1a;
    assert Plus(0x9e37_79b9, 0x6867_6665) == 0x069e_e01e;
    assert Plus(0xfeed_beef, 0xff6b_6a69) == 0xfe59_2958;
    hide WordAt, Plus, FirstBlock;
  }

  lemma FirstBlockWordsUnsigned()
    ensures WordAt(FirstBlock(), 0, false) == 0x6463_6261
    ensures WordAt(FirstBlock(), 4, false) == 0x6867_6665
    ensures WordAt(FirstBlock(), 8, false) == 0xff6b_6a69
  {}

  lemma FirstBlockAbsorbedUnsigned()
    ensures Absorb(START, FirstBlock(), false) == Triple(0x029a_dc1a, 0x069e_e01e, 0xfe59_2958)
  {
    FirstBlockWordsUnsigned();
    assert Plus(0x9e37_79b9, 0x6463_6261) == 0x029a_dc1a;
    assert Plus(0x9e37_79b9, 0x6867_6665) == 0x069e_e01e;
    assert Plus(0xfeed_beef, 0xff6b_6a69) == 0xfe59_2958;
    hide WordAt, Plus, FirstBlock;
  }

  lemma FirstBlockMixedFirst()
    ensures Round(Triple(0x029a_dc1a, 0x069e_e01e, 0xfe59_2958), 13, 8, 13) == Triple(0xfda5_206d, 0xaf80_fb59, 0x5136_7195)
  {}

  lemma FirstBlockMixedSecond()
    ensures Round(Triple(0xfda5_206d, 0xaf80_fb59, 0x5136_7195), 12, 16, 5) == Triple(0xfce8_a018, 0xc179_e9ac, 0x94d8_289c)
  {}

  lemma FirstBlockMixedThird()
    ensures Round(Triple(0xfce8_a018, 0xc179_e9ac, 0x94d8_289c), 3, 10, 15) == Triple(0xb40d_88c3, 0x4eb7_344d, 0x9213_f6e2)
  {}

  lemma FirstBlockMixed()
    ensures Mix(Triple(0x029a_dc1a, 0x069e_e01e, 0xfe59_2958)) == Triple(0xb40d_88c3, 0x4eb7_344d, 0x9213_f6e2)
  {
    FirstBlockMixedFirst();
    FirstBlockMixedSecond();
    FirstBlockMixedThird();
    hide Round;
  }

  lemma RestPadded()
    ensures |Rest()| == 11
    ensures Pad(Rest()) == [0x01, 0x82, 0x03, 0x84, 0x05, 0x86, 0x07, 0x88, 0, 0x09, 0x8a, 0x0b]
  {}

  lemma RestWords()
    ensures WordAt(Pad(Rest()), 0, true) == 0x8402_8201
    ensures WordAt(Pad(Rest()), 4, true) == 0x8806_8605
    ensures WordAt(Pad(Rest()), 8, true) == 0x0a8a_0900
  {
    RestPadded();
    hide Pad, Rest;
  }

  lemma RestAbsorbed()
    ensures Absorb(Triple(0xb40d_88c3, 0x4eb7_344d, 0x9213_f6f9), Pad(Rest()), true) == Triple(0x3810_0ac4, 0xd6bd_ba52, 0x9c9d_fff9)
  {
    RestWords();
    assert Plus(0xb40d_88c3, 0x8402_8201) == 0x3810_0ac4;
    assert Plus(0x4eb7_344d, 0x8806_8605) == 0xd6bd_ba52;
    assert Plus(0x9213_f6f9, 0x0a8a_0900) == 0x9c9d_fff9;
    hide WordAt, Plus, Pad, Rest;
  }

  lemma RestWordsUnsigned()
    ensures WordAt(Pad(Rest()), 0, false) == 0x8403_8201
    ensures WordAt(Pad(Rest()), 4, false) == 0x8807_8605
    ensures WordAt(Pad(Rest()), 8, false) == 0x0b8a_0900
  {
    RestPadded();
    hide Pad, Rest;
  }

  lemma RestAbsorbedUnsigned()
    ensures Absorb(Triple(0xb40d_88c3, 0x4eb7_344d, 0x9213_f6f9), Pad(Rest()), false) == Triple(0x3811_0ac4, 0xd6be_ba52, 0x9d9d_fff9)
  {
    RestWordsUnsigned();
    assert Plus(0xb40d_88c3, 0x8403_8201) == 0x3811_0ac4;
    assert Plus(0x4eb7_344d, 0x8807_8605) == 0xd6be_ba52;
    assert Plus(0x9213_f6f9, 0x0b8a_0900) == 0x9d9d_fff9;
    hide WordAt, Plus, Pad, Rest;
  }

  lemma RestMixedFirst()
    ensures Round(Triple(0x3810_0ac4, 0xd6bd_ba52, 0x9c9d_fff9), 13, 8, 13) == Triple(0xc4b0_b496, 0xc5db_93c3, 0x1217_997c)
  {}

  lemma RestMixedSecond()
    ensures Round(Triple(0xc4b0_b496, 0xc5db_93c3, 0x1217_997c), 12, 16, 5) == Triple(0xecbc_a62e, 0x6129_5419, 0xc738_d595)
  {}

  lemma RestMixedThird()
    ensures Round(Triple(0xecbc_a62e, 0x6129_5419, 0xc738_d595), 3, 10, 15) == Triple(0xdcbd_6632, 0x48ab_d052, 0xa1cf_0e46)
  {}

  lemma RestMixed()
    ensures Mix(Triple(0x3810_0ac4, 0xd6bd_ba52, 0x9c9d_fff9)) == Triple(0xdcbd_6632, 0x48ab_d052, 0xa1cf_0e46)
  {
    RestMixedFirst();
    RestMixedSecond();
    RestMixedThird();
    hide Round;
  }

  lemma RestMixedUnsignedFirst()
    ensures Round(Triple(0x3811_0ac4, 0xd6be_ba52, 0x9d9d_fff9), 13, 8, 13) == Triple(0xc3b0_bc96, 0xc5d3_6bc3, 0x141f_f93b)
  {}

  lemma RestMixedUnsignedSecond()
    ensures Round(Triple(0xc3b0_bc96, 0xc5d3_6bc3, 0x141f_f93b), 12, 16, 5) == Triple(0xe9bc_1667, 0xd190_5c21, 0x5e5f_0452)
  {}

  lemma RestMixedUnsignedThird()
    ensures Round(Triple(0xe9bc_1667, 0xd190_5c21, 0x5e5f_0452), 3, 10, 15) == Triple(0xb207_557e, 0xdc7f_fa51, 0xcfd6_0c7c)
  {}

  lemma RestMixedUnsigned()
    ensures Mix(Triple(0x3811_0ac4, 0xd6be_ba52, 0x9d9d_fff9)) == Triple(0xb207_557e, 0xdc7f_fa51, 0xcfd6_0c7c)
  {
    RestMixedUnsignedFirst();
    RestMixedUnsignedSecond();
    RestMixedUnsignedThird();
    hide Round;
  }

  lemma KeyParts()
    ensures var key := FirstBlock() + Rest();
      |key| == 23 && key[..12] == FirstBlock() && key[12..] == Rest()
  {
    RestPadded();
    hide FirstBlock, Rest, Pad;
  }

  lemma LengthAdded()
    ensures Plus(0x9213_f6e2, 23) == 0x9213_f6f9
  {}

  /** The hash of a key of 23 characters, some above 127, with signed and with unsigned chars. */
  lemma SampleKeyHash()
    ensures JenState(START, FirstBlock() + Rest(), 23, true).h == 0xa1cf_0e46
    ensures JenState(START, FirstBlock() + Rest(), 23, false).h == 0xcfd6_0c7c
  {
    KeyParts();
    RestPadded();
    FirstBlockAbsorbed();
    FirstBlockAbsorbedUnsigned();
    FirstBlockMixed();
    LengthAdded();
    RestAbsorbed();
    RestAbsorbedUnsigned();
    RestMixed();
    RestMixedUnsigned();
    hide Absorb, Mix, Plus, Pad, FirstBlock, Rest, START;
  }
}
