/** Example C.3 of FIPS 197: one block under AES-256, worked out from the specification round by round. */
module AesVector {
  import opened CryptoWords
  import opened AesSpec
  import opened AesKeys
  import AesCbc

  /** The key 000102...1f. */
  function Key(): (k: seq<Column>)
    ensures |k| == 8
  {
    [Column(0x00, 0x01, 0x02, 0x03), Column(0x04, 0x05, 0x06, 0x07),
     Column(0x08, 0x09, 0x0a, 0x0b), Column(0x0c, 0x0d, 0x0e, 0x0f),
     Column(0x10, 0x11, 0x12, 0x13), Column(0x14, 0x15, 0x16, 0x17),
     Column(0x18, 0x19, 0x1a, 0x1b), Column(0x1c, 0x1d, 0x1e, 0x1f)]
  }

  const PLAIN: seq<Byte> := [
    0x00, 0x11, 0x22, 0x33, 0x44, 0x55, 0x66, 0x77, 0x88, 0x99, 0xaa, 0xbb, 0xcc, 0xdd, 0xee, 0xff]

  /** The plaintext 00112233...ff. */
  function Plain(): State {
    State(Column(0x00, 0x11, 0x22, 0x33), Column(0x44, 0x55, 0x66, 0x77),
      Column(0x88, 0x99, 0xaa, 0xbb), Column(0xcc, 0xdd, 0xee, 0xff))
  }

  // ---- in which row of the S-box a byte stands

  lemma In0(lo: Byte)
    requires lo < 16
    ensures SBox(0x00 + lo) == Row0(lo)
  {
    hide Row0, Row1, Row2, Row3, Row4, Row5, Row6, Row7, Row8, Row9, RowA, RowB, RowC, RowD, RowE, RowF;
  }

  lemma In1(lo: Byte)
    requires lo < 16
    ensures SBox(0x10 + lo) == Row1(lo)
  {
    hide Row0, Row1, Row2, Row3, Row4, Row5, Row6, Row7, Row8, Row9, RowA, RowB, RowC, RowD, RowE, RowF;
  }

  lemma In2(lo: Byte)
    requires lo < 16
    ensures SBox(0x20 + lo) == Row2(lo)
  {
    hide Row0, Row1, Row2, Row3, Row4, Row5, Row6, Row7, Row8, Row9, RowA, RowB, RowC, RowD, RowE, RowF;
  }

  lemma In3(lo: Byte)
    requires lo < 16
    ensures SBox(0x30 + lo) == Row3(lo)
  {
    hide Row0, Row1, Row2, Row3, Row4, Row5, Row6, Row7, Row8, Row9, RowA, RowB, RowC, RowD, RowE, RowF;
  }

  lemma In4(lo: Byte)
    requires lo < 16
    ensures SBox(0x40 + lo) == Row4(lo)
  {
    hide Row0, Row1, Row2, Row3, Row4, Row5, Row6, Row7, Row8, Row9, RowA, RowB, RowC, RowD, RowE, RowF;
  }

  lemma In5(lo: Byte)
    requires lo < 16
    ensures SBox(0x50 + lo) == Row5(lo)
  {
    hide Row0, Row1, Row2, Row3, Row4, Row5, Row6, Row7, Row8, Row9, RowA, RowB, RowC, RowD, RowE, RowF;
  }

  lemma In6(lo: Byte)
    requires lo < 16
    ensures SBox(0x60 + lo) == Row6(lo)
  {
    hide Row0, Row1, Row2, Row3, Row4, Row5, Row6, Row7, Row8, Row9, RowA, RowB, RowC, RowD, RowE, RowF;
  }

  lemma In7(lo: Byte)
    requires lo < 16
    ensures SBox(0x70 + lo) == Row7(lo)
  {
    hide Row0, Row1, Row2, Row3, Row4, Row5, Row6, Row7, Row8, Row9, RowA, RowB, RowC, RowD, RowE, RowF;
  }

  lemma In8(lo: Byte)
    requires lo < 16
    ensures SBox(0x80 + lo) == Row8(lo)
  {
    hide Row0, Row1, Row2, Row3, Row4, Row5, Row6, Row7, Row8, Row9, RowA, RowB, RowC, RowD, RowE, RowF;
  }

  lemma In9(lo: Byte)
    requires lo < 16
    ensures SBox(0x90 + lo) == Row9(lo)
  {
    hide Row0, Row1, Row2, Row3, Row4, Row5, Row6, Row7, Row8, Row9, RowA, RowB, RowC, RowD, RowE, RowF;
  }

  lemma InA(lo: Byte)
    requires lo < 16
    ensures SBox(0xa0 + lo) == RowA(lo)
  {
    hide Row0, Row1, Row2, Row3, Row4, Row5, Row6, Row7, Row8, Row9, RowA, RowB, RowC, RowD, RowE, RowF;
  }

  lemma InB(lo: Byte)
    requires lo < 16
    ensures SBox(0xb0 + lo) == RowB(lo)
  {
    hide Row0, Row1, Row2, Row3, Row4, Row5, Row6, Row7, Row8, Row9, RowA, RowB, RowC, RowD, RowE, RowF;
  }

  lemma InC(lo: Byte)
    requires lo < 16
    ensures SBox(0xc0 + lo) == RowC(lo)
  {
    hide Row0, Row1, Row2, Row3, Row4, Row5, Row6, Row7, Row8, Row9, RowA, RowB, RowC, RowD, RowE, RowF;
  }

  lemma InD(lo: Byte)
    requires lo < 16
    ensures SBox(0xd0 + lo) == RowD(lo)
  {
    hide Row0, Row1, Row2, Row3, Row4, Row5, Row6, Row7, Row8, Row9, RowA, RowB, RowC, RowD, RowE, RowF;
  }

  lemma InE(lo: Byte)
    requires lo < 16
    ensures SBox(0xe0 + lo) == RowE(lo)
  {
    hide Row0, Row1, Row2, Row3, Row4, Row5, Row6, Row7, Row8, Row9, RowA, RowB, RowC, RowD, RowE, RowF;
  }

  lemma InF(lo: Byte)
    requires lo < 16
    ensures SBox(0xf0 + lo) == RowF(lo)
  {
    hide Row0, Row1, Row2, Row3, Row4, Row5, Row6, Row7, Row8, Row9, RowA, RowB, RowC, RowD, RowE, RowF;
  }

  // ---- the words of the key schedule

  lemma Constants()
    ensures RconByte(1) == 0x01
    ensures RconByte(2) == 0x02
    ensures RconByte(3) == 0x04
    ensures RconByte(4) == 0x08
    ensures RconByte(5) == 0x10
    ensures RconByte(6) == 0x20
    ensures RconByte(7) == 0x40
  {
  }

  lemma Words0()
    ensures KeyWord(Key(), 0) == Column(0x00, 0x01, 0x02, 0x03)
    ensures KeyWord(Key(), 1) == Column(0x04, 0x05, 0x06, 0x07)
    ensures KeyWord(Key(), 2) == Column(0x08, 0x09, 0x0a, 0x0b)
    ensures KeyWord(Key(), 3) == Column(0x0c, 0x0d, 0x0e, 0x0f)
    ensures KeyWord(Key(), 4) == Column(0x10, 0x11, 0x12, 0x13)
    ensures KeyWord(Key(), 5) == Column(0x14, 0x15, 0x16, 0x17)
    ensures KeyWord(Key(), 6) == Column(0x18, 0x19, 0x1a, 0x1b)
    ensures KeyWord(Key(), 7) == Column(0x1c, 0x1d, 0x1e, 0x1f)
  {
  }

  lemma Words1()
    ensures KeyWord(Key(), 8) == Column(0xa5, 0x73, 0xc2, 0x9f)
    ensures KeyWord(Key(), 9) == Column(0xa1, 0x76, 0xc4, 0x98)
    ensures KeyWord(Key(), 10) == Column(0xa9, 0x7f, 0xce, 0x93)
    ensures KeyWord(Key(), 11) == Column(0xa5, 0x72, 0xc0, 0x9c)
    ensures KeyWord(Key(), 12) == Column(0x16, 0x51, 0xa8, 0xcd)
    ensures KeyWord(Key(), 13) == Column(0x02, 0x44, 0xbe, 0xda)
    ensures KeyWord(Key(), 14) == Column(0x1a, 0x5d, 0xa4, 0xc1)
    ensures KeyWord(Key(), 15) == Column(0x06, 0x40, 0xba, 0xde)
  {
    hide KeyWord, SBox, RconByte;
    Constants();
    Words0();
    KeyWordStarts(Key(), 0);
    KeyWordFollows(Key(), 9); KeyWordFollows(Key(), 10); KeyWordFollows(Key(), 11);
    KeyWordFollows(Key(), 13); KeyWordFollows(Key(), 14); KeyWordFollows(Key(), 15);
    In1(0xc); In1(0xd); In1(0xe); In1(0xf);
    InA(0x5); In7(0x2); InC(0x0); In9(0xc);
  }

  lemma Words2()
    ensures KeyWord(Key(), 16) == Column(0xae, 0x87, 0xdf, 0xf0)
    ensures KeyWord(Key(), 17) == Column(0x0f, 0xf1, 0x1b, 0x68)
    ensures KeyWord(Key(), 18) == Column(0xa6, 0x8e, 0xd5, 0xfb)
    ensures KeyWord(Key(), 19) == Column(0x03, 0xfc, 0x15, 0x67)
    ensures KeyWord(Key(), 20) == Column(0x6d, 0xe1, 0xf1, 0x48)
    ensures KeyWord(Key(), 21) == Column(0x6f, 0xa5, 0x4f, 0x92)
    ensures KeyWord(Key(), 22) == Column(0x75, 0xf8, 0xeb, 0x53)
    ensures KeyWord(Key(), 23) == Column(0x73, 0xb8, 0x51, 0x8d)
  {
    hide KeyWord, SBox, RconByte;
    Constants();
    Words1();
    KeyWordStarts(Key(), 1);
    KeyWordFollows(Key(), 17); KeyWordFollows(Key(), 18); KeyWordFollows(Key(), 19);
    KeyWordFollows(Key(), 21); KeyWordFollows(Key(), 22); KeyWordFollows(Key(), 23);
    In0(0x6); In4(0x0); InB(0xa); InD(0xe);
    In0(0x3); InF(0xc); In1(0x5); In6(0x7);
  }

  lemma Words3()
    ensures KeyWord(Key(), 24) == Column(0xc6, 0x56, 0x82, 0x7f)
    ensures KeyWord(Key(), 25) == Column(0xc9, 0xa7, 0x99, 0x17)
    ensures KeyWord(Key(), 26) == Column(0x6f, 0x29, 0x4c, 0xec)
    ensures KeyWord(Key(), 27) == Column(0x6c, 0xd5, 0x59, 0x8b)
    ensures KeyWord(Key(), 28) == Column(0x3d, 0xe2, 0x3a, 0x75)
    ensures KeyWord(Key(), 29) == Column(0x52, 0x47, 0x75, 0xe7)
    ensures KeyWord(Key(), 30) == Column(0x27, 0xbf, 0x9e, 0xb4)
    ensures KeyWord(Key(), 31) == Column(0x54, 0x07, 0xcf, 0x39)
  {
    hide KeyWord, SBox, RconByte;
    Constants();
    Words2();
    KeyWordStarts(Key(), 2);
    KeyWordFollows(Key(), 25); KeyWordFollows(Key(), 26); KeyWordFollows(Key(), 27);
    KeyWordFollows(Key(), 29); KeyWordFollows(Key(), 30); KeyWordFollows(Key(), 31);
    In7(0x3); InB(0x8); In5(0x1); In8(0xd);
    In6(0xc); InD(0x5); In5(0x9); In8(0xb);
  }

  lemma Words4()
    ensures KeyWord(Key(), 32) == Column(0x0b, 0xdc, 0x90, 0x5f)
    ensures KeyWord(Key(), 33) == Column(0xc2, 0x7b, 0x09, 0x48)
    ensures KeyWord(Key(), 34) == Column(0xad, 0x52, 0x45, 0xa4)
    ensures KeyWord(Key(), 35) == Column(0xc1, 0x87, 0x1c, 0x2f)
    ensures KeyWord(Key(), 36) == Column(0x45, 0xf5, 0xa6, 0x60)
    ensures KeyWord(Key(), 37) == Column(0x17, 0xb2, 0xd3, 0x87)
    ensures KeyWord(Key(), 38) == Column(0x30, 0x0d, 0x4d, 0x33)
    ensures KeyWord(Key(), 39) == Column(0x64, 0x0a, 0x82, 0x0a)
  {
    hide KeyWord, SBox, RconByte;
    Constants();
    Words3();
    KeyWordStarts(Key(), 3);
    KeyWordFollows(Key(), 33); KeyWordFollows(Key(), 34); KeyWordFollows(Key(), 35);
    KeyWordFollows(Key(), 37); KeyWordFollows(Key(), 38); KeyWordFollows(Key(), 39);
    In5(0x4); In0(0x7); InC(0xf); In3(0x9);
    InC(0x1); In8(0x7); In1(0xc); In2(0xf);
  }

  lemma Words5()
    ensures KeyWord(Key(), 40) == Column(0x7c, 0xcf, 0xf7, 0x1c)
    ensures KeyWord(Key(), 41) == Column(0xbe, 0xb4, 0xfe, 0x54)
    ensures KeyWord(Key(), 42) == Column(0x13, 0xe6, 0xbb, 0xf0)
    ensures KeyWord(Key(), 43) == Column(0xd2, 0x61, 0xa7, 0xdf)
    ensures KeyWord(Key(), 44) == Column(0xf0, 0x1a, 0xfa, 0xfe)
    ensures KeyWord(Key(), 45) == Column(0xe7, 0xa8, 0x29, 0x79)
    ensures KeyWord(Key(), 46) == Column(0xd7, 0xa5, 0x64, 0x4a)
    ensures KeyWord(Key(), 47) == Column(0xb3, 0xaf, 0xe6, 0x40)
  {
    hide KeyWord, SBox, RconByte;
    Constants();
    Words4();
    KeyWordStarts(Key(), 4);
    KeyWordFollows(Key(), 41); KeyWordFollows(Key(), 42); KeyWordFollows(Key(), 43);
    KeyWordFollows(Key(), 45); KeyWordFollows(Key(), 46); KeyWordFollows(Key(), 47);
    In6(0x4); In0(0xa); In8(0x2); In0(0xa);
    InD(0x2); In6(0x1); InA(0x7); InD(0xf);
  }

  lemma Words6()
    ensures KeyWord(Key(), 48) == Column(0x25, 0x41, 0xfe, 0x71)
    ensures KeyWord(Key(), 49) == Column(0x9b, 0xf5, 0x00, 0x25)
    ensures KeyWord(Key(), 50) == Column(0x88, 0x13, 0xbb, 0xd5)
    ensures KeyWord(Key(), 51) == Column(0x5a, 0x72, 0x1c, 0x0a)
    ensures KeyWord(Key(), 52) == Column(0x4e, 0x5a, 0x66, 0x99)
    ensures KeyWord(Key(), 53) == Column(0xa9, 0xf2, 0x4f, 0xe0)
    ensures KeyWord(Key(), 54) == Column(0x7e, 0x57, 0x2b, 0xaa)
    ensures KeyWord(Key(), 55) == Column(0xcd, 0xf8, 0xcd, 0xea)
  {
    hide KeyWord, SBox, RconByte;
    Constants();
    Words5();
    KeyWordStarts(Key(), 5);
    KeyWordFollows(Key(), 49); KeyWordFollows(Key(), 50); KeyWordFollows(Key(), 51);
    KeyWordFollows(Key(), 53); KeyWordFollows(Key(), 54); KeyWordFollows(Key(), 55);
    InB(0x3); InA(0xf); InE(0x6); In4(0x0);
    In5(0xa); In7(0x2); In1(0xc); In0(0xa);
  }

  lemma Words7()
    ensures KeyWord(Key(), 56) == Column(0x24, 0xfc, 0x79, 0xcc)
    ensures KeyWord(Key(), 57) == Column(0xbf, 0x09, 0x79, 0xe9)
    ensures KeyWord(Key(), 58) == Column(0x37, 0x1a, 0xc2, 0x3c)
    ensures KeyWord(Key(), 59) == Column(0x6d, 0x68, 0xde, 0x36)
  {
    hide KeyWord, SBox, RconByte;
    Constants();
    Words6();
    KeyWordStarts(Key(), 6);
    KeyWordFollows(Key(), 57); KeyWordFollows(Key(), 58); KeyWordFollows(Key(), 59);
    InC(0xd); InF(0x8); InC(0xd); InE(0xa);
  }

  // ---- the state after each round

  function S0(): State {
    State(Column(0x00, 0x10, 0x20, 0x30), Column(0x40, 0x50, 0x60, 0x70),
      Column(0x80, 0x90, 0xa0, 0xb0), Column(0xc0, 0xd0, 0xe0, 0xf0))
  }

  function S1(): State {
    State(Column(0x4f, 0x63, 0x76, 0x06), Column(0x43, 0xe0, 0xaa, 0x85),
      Column(0xef, 0xa7, 0x21, 0x32), Column(0x01, 0xa4, 0xe7, 0x05))
  }

  lemma Round1()
    ensures FullRound(S0(), RoundKeys(Key())(1)) == S1()
  {
    hide KeyWord, SBox;
    Words0();
    In0(0x0); In1(0x0); In2(0x0); In3(0x0);
    In4(0x0); In5(0x0); In6(0x0); In7(0x0);
    In8(0x0); In9(0x0); InA(0x0); InB(0x0);
    InC(0x0); InD(0x0); InE(0x0); InF(0x0);
  }

  function S2(): State {
    State(Column(0x18, 0x59, 0xfb, 0xc2), Column(0x8a, 0x1c, 0x00, 0xa0),
      Column(0x78, 0xed, 0x8a, 0xad), Column(0xc4, 0x2f, 0x61, 0x09))
  }

  lemma Round2()
    ensures FullRound(S1(), RoundKeys(Key())(2)) == S2()
  {
    hide KeyWord, SBox;
    Words1();
    In4(0xf); In6(0x3); In7(0x6); In0(0x6);
    In4(0x3); InE(0x0); InA(0xa); In8(0x5);
    InE(0xf); InA(0x7); In2(0x1); In3(0x2);
    In0(0x1); InA(0x4); InE(0x7); In0(0x5);
  }

  function S3(): State {
    State(Column(0x97, 0x5c, 0x66, 0xc1), Column(0xcb, 0x9f, 0x3f, 0xa8),
      Column(0xa9, 0x3a, 0x28, 0xdf), Column(0x8e, 0xe1, 0x0f, 0x63))
  }

  lemma Round3()
    ensures FullRound(S2(), RoundKeys(Key())(3)) == S3()
  {
    hide KeyWord, SBox;
    Words1();
    In1(0x8); In5(0x9); InF(0xb); InC(0x2);
    In8(0xa); In1(0xc); In0(0x0); InA(0x0);
    In7(0x8); InE(0xd); In8(0xa); InA(0xd);
    InC(0x4); In2(0xf); In6(0x1); In0(0x9);
  }

  function S4(): State {
    State(Column(0x1c, 0x05, 0xf2, 0x71), Column(0xa4, 0x17, 0xe0, 0x4f),
      Column(0xf9, 0x21, 0xc5, 0xc1), Column(0x04, 0x70, 0x15, 0x54))
  }

  lemma Round4()
    ensures FullRound(S3(), RoundKeys(Key())(4)) == S4()
  {
    hide KeyWord, SBox;
    Words2();
    In9(0x7); In5(0xc); In6(0x6); InC(0x1);
    InC(0xb); In9(0xf); In3(0xf); InA(0x8);
    InA(0x9); In3(0xa); In2(0x8); InD(0xf);
    In8(0xe); InE(0x1); In0(0xf); In6(0x3);
  }

  function S5(): State {
    State(Column(0xc3, 0x57, 0xaa, 0xe1), Column(0x1b, 0x45, 0xb7, 0xb0),
      Column(0xa2, 0xc7, 0xbd, 0x28), Column(0xa8, 0xdc, 0x99, 0xfa))
  }

  lemma Round5()
    ensures FullRound(S4(), RoundKeys(Key())(5)) == S5()
  {
    hide KeyWord, SBox;
    Words2();
    In1(0xc); In0(0x5); InF(0x2); In7(0x1);
    InA(0x4); In1(0x7); InE(0x0); In4(0xf);
    InF(0x9); In2(0x1); InC(0x5); InC(0x1);
    In0(0x4); In7(0x0); In1(0x5); In5(0x4);
  }

  function S6(): State {
    State(Column(0x7f, 0x07, 0x41, 0x43), Column(0xcb, 0x4e, 0x24, 0x3e),
      Column(0xc1, 0x0c, 0x81, 0x5d), Column(0x83, 0x75, 0xd5, 0x4c))
  }

  lemma Round6()
    ensures FullRound(S5(), RoundKeys(Key())(6)) == S6()
  {
    hide KeyWord, SBox;
    Words3();
    InC(0x3); In5(0x7); InA(0xa); InE(0x1);
    In1(0xb); In4(0x5); InB(0x7); InB(0x0);
    InA(0x2); InC(0x7); InB(0xd); In2(0x8);
    InA(0x8); InD(0xc); In9(0x9); InF(0xa);
  }

  function S7(): State {
    State(Column(0xd6, 0x53, 0xa4, 0x69), Column(0x6c, 0xa0, 0xbc, 0x0f),
      Column(0x5a, 0xca, 0xab, 0x5d), Column(0xb9, 0x6c, 0x5e, 0x7d))
  }

  lemma Round7()
    ensures FullRound(S6(), RoundKeys(Key())(7)) == S7()
  {
    hide KeyWord, SBox;
    Words3();
    In7(0xf); In0(0x7); In4(0x1); In4(0x3);
    InC(0xb); In4(0xe); In2(0x4); In3(0xe);
    InC(0x1); In0(0xc); In8(0x1); In5(0xd);
    In8(0x3); In7(0x5); InD(0x5); In4(0xc);
  }

  function S8(): State {
    State(Column(0x5a, 0xa8, 0x58, 0x39), Column(0x5f, 0xd2, 0x8d, 0x7d),
      Column(0x05, 0xe1, 0xa3, 0x88), Column(0x68, 0xf3, 0xb9, 0xc5))
  }

  lemma Round8()
    ensures FullRound(S7(), RoundKeys(Key())(8)) == S8()
  {
    hide KeyWord, SBox;
    Words4();
    InD(0x6); In5(0x3); InA(0x4); In6(0x9);
    In6(0xc); InA(0x0); InB(0xc); In0(0xf);
    In5(0xa); InC(0xa); InA(0xb); In5(0xd);
    InB(0x9); In6(0xc); In5(0xe); In7(0xd);
  }

  function S9(): State {
    State(Column(0x4a, 0x82, 0x48, 0x51), Column(0xc5, 0x7e, 0x7e, 0x47),
      Column(0x64, 0x3d, 0xe5, 0x0c), Column(0x2a, 0xf3, 0xe8, 0xc9))
  }

  lemma Round9()
    ensures FullRound(S8(), RoundKeys(Key())(9)) == S9()
  {
    hide KeyWord, SBox;
    Words4();
    In5(0xa); InA(0x8); In5(0x8); In3(0x9);
    In5(0xf); InD(0x2); In8(0xd); In7(0xd);
    In0(0x5); InE(0x1); InA(0x3); In8(0x8);
    In6(0x8); InF(0x3); InB(0x9); InC(0x5);
  }

  function S10(): State {
    State(Column(0xc1, 0x49, 0x07, 0xf6), Column(0xca, 0x3b, 0x3a, 0xa0),
      Column(0x70, 0xe9, 0xaa, 0x31), Column(0x3b, 0x52, 0xb5, 0xec))
  }

  lemma Round10()
    ensures FullRound(S9(), RoundKeys(Key())(10)) == S10()
  {
    hide KeyWord, SBox;
    Words5();
    In4(0xa); In8(0x2); In4(0x8); In5(0x1);
    InC(0x5); In7(0xe); In7(0xe); In4(0x7);
    In6(0x4); In3(0xd); InE(0x5); In0(0xc);
    In2(0xa); InF(0x3); InE(0x8); InC(0x9);
  }

  function S11(): State {
    State(Column(0x5f, 0x9c, 0x6a, 0xbf), Column(0xba, 0xc6, 0x34, 0xaa),
      Column(0x50, 0x40, 0x9f, 0xa7), Column(0x66, 0x67, 0x76, 0x53))
  }

  lemma Round11()
    ensures FullRound(S10(), RoundKeys(Key())(11)) == S11()
  {
    hide KeyWord, SBox;
    Words5();
    InC(0x1); In4(0x9); In0(0x7); InF(0x6);
    InC(0xa); In3(0xb); In3(0xa); InA(0x0);
    In7(0x0); InE(0x9); InA(0xa); In3(0x1);
    In3(0xb); In5(0x2); InB(0x5); InE(0xc);
  }

  function S12(): State {
    State(Column(0x51, 0x66, 0x04, 0x95), Column(0x43, 0x53, 0x95, 0x03),
      Column(0x14, 0xfb, 0x86, 0xe4), Column(0x01, 0x92, 0x25, 0x21))
  }

  lemma Round12()
    ensures FullRound(S11(), RoundKeys(Key())(12)) == S12()
  {
    hide KeyWord, SBox;
    Words6();
    In5(0xf); In9(0xc); In6(0xa); InB(0xf);
    InB(0xa); InC(0x6); In3(0x4); InA(0xa);
    In5(0x0); In4(0x0); In9(0xf); InA(0x7);
    In6(0x6); In6(0x7); In7(0x6); In5(0x3);
  }

  function S13(): State {
    State(Column(0x62, 0x7b, 0xce, 0xb9), Column(0x99, 0x9d, 0x5a, 0xaa),
      Column(0xc9, 0x45, 0xec, 0xf4), Column(0x23, 0xf5, 0x6d, 0xa5))
  }

  lemma Round13()
    ensures FullRound(S12(), RoundKeys(Key())(13)) == S13()
  {
    hide KeyWord, SBox;
    Words6();
    In5(0x1); In6(0x6); In0(0x4); In9(0x5);
    In4(0x3); In5(0x3); In9(0x5); In0(0x3);
    In1(0x4); InF(0xb); In8(0x6); InE(0x4);
    In0(0x1); In9(0x2); In2(0x5); In2(0x1);
  }

  lemma Onward(n: nat, s: State, t: State)
    requires n > 0 && FullRounds(Plain(), RoundKeys(Key()), n - 1) == s && FullRound(s, RoundKeys(Key())(n)) == t
    ensures FullRounds(Plain(), RoundKeys(Key()), n) == t
  {
    hide FullRound, RoundKeys, KeyWord;
  }

  lemma Started()
    ensures FullRounds(Plain(), RoundKeys(Key()), 0) == S0()
  {
    Words0();
    hide KeyWord;
  }

  lemma AllRounds()
    ensures FullRounds(Plain(), RoundKeys(Key()), 13) == S13()
  {
    hide FullRounds, FullRound, RoundKeys, KeyWord;
    Started();
    Round1();
    Onward(1, S0(), S1());
    Round2();
    Onward(2, S1(), S2());
    Round3();
    Onward(3, S2(), S3());
    Round4();
    Onward(4, S3(), S4());
    Round5();
    Onward(5, S4(), S5());
    Round6();
    Onward(6, S5(), S6());
    Round7();
    Onward(7, S6(), S7());
    Round8();
    Onward(8, S7(), S8());
    Round9();
    Onward(9, S8(), S9());
    Round10();
    Onward(10, S9(), S10());
    Round11();
    Onward(11, S10(), S11());
    Round12();
    Onward(12, S11(), S12());
    Round13();
    Onward(13, S12(), S13());
  }

  lemma Enciphered()
    ensures Cipher(Plain(), RoundKeys(Key())) ==
      State(Column(0x8e, 0xa2, 0xb7, 0xca), Column(0x51, 0x67, 0x45, 0xbf),
        Column(0xea, 0xfc, 0x49, 0x90), Column(0x4b, 0x49, 0x60, 0x89))
  {
    hide KeyWord, FullRounds, SBox;
    Words7();
    AllRounds();
    In6(0x2); In7(0xb); InC(0xe); InB(0x9);
    In9(0x9); In9(0xd); In5(0xa); InA(0xa);
    InC(0x9); In4(0x5); InE(0xc); InF(0x4);
    In2(0x3); InF(0x5); In6(0xd); InA(0x5);
  }

  lemma KeyRead(key: seq<Byte>)
    requires |key| == 32 && forall i :: 0 <= i < 32 ==> key[i] == i as Byte
    ensures KeyColumns(key) == Key()
  {
  }

  lemma PlainRead(p: seq<Byte>)
    requires p == PLAIN
    ensures StateOf(p) == Plain()
  {
  }

  /** The key 000102...1f turns 00112233...ff into 8ea2b7ca516745bfeafc49904b496089. */
  lemma Example(key: seq<Byte>, p: seq<Byte>)
    requires |key| == 32 && forall i :: 0 <= i < 32 ==> key[i] == i as Byte
    requires p == PLAIN
    ensures AesCbc.EncBlock(RoundKeys(KeyColumns(key)), p) == [
      0x8e, 0xa2, 0xb7, 0xca, 0x51, 0x67, 0x45, 0xbf,
      0xea, 0xfc, 0x49, 0x90, 0x4b, 0x49, 0x60, 0x89]
  {
    hide Cipher, RoundKeys, KeyColumns, StateOf;
    KeyRead(key);
    PlainRead(p);
    Enciphered();
  }
}
