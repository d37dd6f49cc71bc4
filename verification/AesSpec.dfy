/** AES-256 as FIPS 197 defines it. */
module AesSpec {
  import opened CryptoWords

  /** One of sixteen values. */
  function Pick(lo: Byte, v0: Byte, v1: Byte, v2: Byte, v3: Byte, v4: Byte, v5: Byte, v6: Byte, v7: Byte,
      v8: Byte, v9: Byte, va: Byte, vb: Byte, vc: Byte, vd: Byte, ve: Byte, vf: Byte): Byte
  {
    if lo < 8 then
      if lo < 4 then if lo < 2 then if lo < 1 then v0 else v1 else if lo < 3 then v2 else v3
      else if lo < 6 then if lo < 5 then v4 else v5 else if lo < 7 then v6 else v7
    else
      if lo < 12 then if lo < 10 then if lo < 9 then v8 else v9 else if lo < 11 then va else vb
      else if lo < 14 then if lo < 13 then vc else vd else if lo < 15 then ve else vf
  }

  // SBOX(), section 5.1.1, which is also every byte of Te[4] (aes.c:300-365), row by row.

  function Row0(lo: Byte): Byte {
    Pick(lo, 0x63, 0x7c, 0x77, 0x7b, 0xf2, 0x6b, 0x6f, 0xc5, 0x30, 0x01, 0x67, 0x2b, 0xfe, 0xd7, 0xab, 0x76)
  }

  function Row1(lo: Byte): Byte {
    Pick(lo, 0xca, 0x82, 0xc9, 0x7d, 0xfa, 0x59, 0x47, 0xf0, 0xad, 0xd4, 0xa2, 0xaf, 0x9c, 0xa4, 0x72, 0xc0)
  }

  function Row2(lo: Byte): Byte {
    Pick(lo, 0xb7, 0xfd, 0x93, 0x26, 0x36, 0x3f, 0xf7, 0xcc, 0x34, 0xa5, 0xe5, 0xf1, 0x71, 0xd8, 0x31, 0x15)
  }

  function Row3(lo: Byte): Byte {
    Pick(lo, 0x04, 0xc7, 0x23, 0xc3, 0x18, 0x96, 0x05, 0x9a, 0x07, 0x12, 0x80, 0xe2, 0xeb, 0x27, 0xb2, 0x75)
  }

  function Row4(lo: Byte): Byte {
    Pick(lo, 0x09, 0x83, 0x2c, 0x1a, 0x1b, 0x6e, 0x5a, 0xa0, 0x52, 0x3b, 0xd6, 0xb3, 0x29, 0xe3, 0x2f, 0x84)
  }

  function Row5(lo: Byte): Byte {
    Pick(lo, 0x53, 0xd1, 0x00, 0xed, 0x20, 0xfc, 0xb1, 0x5b, 0x6a, 0xcb, 0xbe, 0x39, 0x4a, 0x4c, 0x58, 0xcf)
  }

  function Row6(lo: Byte): Byte {
    Pick(lo, 0xd0, 0xef, 0xaa, 0xfb, 0x43, 0x4d, 0x33, 0x85, 0x45, 0xf9, 0x02, 0x7f, 0x50, 0x3c, 0x9f, 0xa8)
  }

  function Row7(lo: Byte): Byte {
    Pick(lo, 0x51, 0xa3, 0x40, 0x8f, 0x92, 0x9d, 0x38, 0xf5, 0xbc, 0xb6, 0xda, 0x21, 0x10, 0xff, 0xf3, 0xd2)
  }

  function Row8(lo: Byte): Byte {
    Pick(lo, 0xcd, 0x0c, 0x13, 0xec, 0x5f, 0x97, 0x44, 0x17, 0xc4, 0xa7, 0x7e, 0x3d, 0x64, 0x5d, 0x19, 0x73)
  }

  function Row9(lo: Byte): Byte {
    Pick(lo, 0x60, 0x81, 0x4f, 0xdc, 0x22, 0x2a, 0x90, 0x88, 0x46, 0xee, 0xb8, 0x14, 0xde, 0x5e, 0x0b, 0xdb)
  }

  function RowA(lo: Byte): Byte {
    Pick(lo, 0xe0, 0x32, 0x3a, 0x0a, 0x49, 0x06, 0x24, 0x5c, 0xc2, 0xd3, 0xac, 0x62, 0x91, 0x95, 0xe4, 0x79)
  }

  function RowB(lo: Byte): Byte {
    Pick(lo, 0xe7, 0xc8, 0x37, 0x6d, 0x8d, 0xd5, 0x4e, 0xa9, 0x6c, 0x56, 0xf4, 0xea, 0x65, 0x7a, 0xae, 0x08)
  }

  function RowC(lo: Byte): Byte {
    Pick(lo, 0xba, 0x78, 0x25, 0x2e, 0x1c, 0xa6, 0xb4, 0xc6, 0xe8, 0xdd, 0x74, 0x1f, 0x4b, 0xbd, 0x8b, 0x8a)
  }

  function RowD(lo: Byte): Byte {
    Pick(lo, 0x70, 0x3e, 0xb5, 0x66, 0x48, 0x03, 0xf6, 0x0e, 0x61, 0x35, 0x57, 0xb9, 0x86, 0xc1, 0x1d, 0x9e)
  }

  function RowE(lo: Byte): Byte {
    Pick(lo, 0xe1, 0xf8, 0x98, 0x11, 0x69, 0xd9, 0x8e, 0x94, 0x9b, 0x1e, 0x87, 0xe9, 0xce, 0x55, 0x28, 0xdf)
  }

  function RowF(lo: Byte): Byte {
    Pick(lo, 0x8c, 0xa1, 0x89, 0x0d, 0xbf, 0xe6, 0x42, 0x68, 0x41, 0x99, 0x2d, 0x0f, 0xb0, 0x54, 0xbb, 0x16)
  }

  function SBox(b: Byte): Byte {
    var hi, lo := b >> 4, b & 15;
    if hi == 0 then Row0(lo)
    else if hi == 1 then Row1(lo)
    else if hi == 2 then Row2(lo)
    else if hi == 3 then Row3(lo)
    else if hi == 4 then Row4(lo)
    else if hi == 5 then Row5(lo)
    else if hi == 6 then Row6(lo)
    else if hi == 7 then Row7(lo)
    else if hi == 8 then Row8(lo)
    else if hi == 9 then Row9(lo)
    else if hi == 10 then RowA(lo)
    else if hi == 11 then RowB(lo)
    else if hi == 12 then RowC(lo)
    else if hi == 13 then RowD(lo)
    else if hi == 14 then RowE(lo)
    else RowF(lo)
  }

  /** INVSBOX(), section 5.3.2, which is also every byte of Td[4] (aes.c:634-699). */
  function InvSBox(b: Byte): Byte {
    var hi, lo := b >> 4, b & 15;
    if hi == 0 then Pick(lo, 0x52, 0x09, 0x6a, 0xd5, 0x30, 0x36, 0xa5, 0x38, 0xbf, 0x40, 0xa3, 0x9e, 0x81, 0xf3, 0xd7, 0xfb)
    else if hi == 1 then Pick(lo, 0x7c, 0xe3, 0x39, 0x82, 0x9b, 0x2f, 0xff, 0x87, 0x34, 0x8e, 0x43, 0x44, 0xc4, 0xde, 0xe9, 0xcb)
    else if hi == 2 then Pick(lo, 0x54, 0x7b, 0x94, 0x32, 0xa6, 0xc2, 0x23, 0x3d, 0xee, 0x4c, 0x95, 0x0b, 0x42, 0xfa, 0xc3, 0x4e)
    else if hi == 3 then Pick(lo, 0x08, 0x2e, 0xa1, 0x66, 0x28, 0xd9, 0x24, 0xb2, 0x76, 0x5b, 0xa2, 0x49, 0x6d, 0x8b, 0xd1, 0x25)
    else if hi == 4 then Pick(lo, 0x72, 0xf8, 0xf6, 0x64, 0x86, 0x68, 0x98, 0x16, 0xd4, 0xa4, 0x5c, 0xcc, 0x5d, 0x65, 0xb6, 0x92)
    else if hi == 5 then Pick(lo, 0x6c, 0x70, 0x48, 0x50, 0xfd, 0xed, 0xb9, 0xda, 0x5e, 0x15, 0x46, 0x57, 0xa7, 0x8d, 0x9d, 0x84)
    else if hi == 6 then Pick(lo, 0x90, 0xd8, 0xab, 0x00, 0x8c, 0xbc, 0xd3, 0x0a, 0xf7, 0xe4, 0x58, 0x05, 0xb8, 0xb3, 0x45, 0x06)
    else if hi == 7 then Pick(lo, 0xd0, 0x2c, 0x1e, 0x8f, 0xca, 0x3f, 0x0f, 0x02, 0xc1, 0xaf, 0xbd, 0x03, 0x01, 0x13, 0x8a, 0x6b)
    else if hi == 8 then Pick(lo, 0x3a, 0x91, 0x11, 0x41, 0x4f, 0x67, 0xdc, 0xea, 0x97, 0xf2, 0xcf, 0xce, 0xf0, 0xb4, 0xe6, 0x73)
    else if hi == 9 then Pick(lo, 0x96, 0xac, 0x74, 0x22, 0xe7, 0xad, 0x35, 0x85, 0xe2, 0xf9, 0x37, 0xe8, 0x1c, 0x75, 0xdf, 0x6e)
    else if hi == 10 then Pick(lo, 0x47, 0xf1, 0x1a, 0x71, 0x1d, 0x29, 0xc5, 0x89, 0x6f, 0xb7, 0x62, 0x0e, 0xaa, 0x18, 0xbe, 0x1b)
    else if hi == 11 then Pick(lo, 0xfc, 0x56, 0x3e, 0x4b, 0xc6, 0xd2, 0x79, 0x20, 0x9a, 0xdb, 0xc0, 0xfe, 0x78, 0xcd, 0x5a, 0xf4)
    else if hi == 12 then Pick(lo, 0x1f, 0xdd, 0xa8, 0x33, 0x88, 0x07, 0xc7, 0x31, 0xb1, 0x12, 0x10, 0x59, 0x27, 0x80, 0xec, 0x5f)
    else if hi == 13 then Pick(lo, 0x60, 0x51, 0x7f, 0xa9, 0x19, 0xb5, 0x4a, 0x0d, 0x2d, 0xe5, 0x7a, 0x9f, 0x93, 0xc9, 0x9c, 0xef)
    else if hi == 14 then Pick(lo, 0xa0, 0xe0, 0x3b, 0x4d, 0xae, 0x2a, 0xf5, 0xb0, 0xc8, 0xeb, 0xbb, 0x3c, 0x83, 0x53, 0x99, 0x61)
    else Pick(lo, 0x17, 0x2b, 0x04, 0x7e, 0xba, 0x77, 0xd6, 0x26, 0xe1, 0x69, 0x14, 0x63, 0x55, 0x21, 0x0c, 0x7d)
  }

  // the two boxes are inverse to each other, a row at a time

  lemma Row0Back(lo: Byte)
    requires lo < 16
    ensures InvSBox(Row0(lo)) == 0x00 + lo
  {
  }

  lemma Row1Back(lo: Byte)
    requires lo < 16
    ensures InvSBox(Row1(lo)) == 0x10 + lo
  {
  }

  lemma Row2Back(lo: Byte)
    requires lo < 16
    ensures InvSBox(Row2(lo)) == 0x20 + lo
  {
  }

  lemma Row3Back(lo: Byte)
    requires lo < 16
    ensures InvSBox(Row3(lo)) == 0x30 + lo
  {
  }

  lemma Row4Back(lo: Byte)
    requires lo < 16
    ensures InvSBox(Row4(lo)) == 0x40 + lo
  {
  }

  lemma Row5Back(lo: Byte)
    requires lo < 16
    ensures InvSBox(Row5(lo)) == 0x50 + lo
  {
  }

  lemma Row6Back(lo: Byte)
    requires lo < 16
    ensures InvSBox(Row6(lo)) == 0x60 + lo
  {
  }

  lemma Row7Back(lo: Byte)
    requires lo < 16
    ensures InvSBox(Row7(lo)) == 0x70 + lo
  {
  }

  lemma Row8Back(lo: Byte)
    requires lo < 16
    ensures InvSBox(Row8(lo)) == 0x80 + lo
  {
  }

  lemma Row9Back(lo: Byte)
    requires lo < 16
    ensures InvSBox(Row9(lo)) == 0x90 + lo
  {
  }

  lemma RowABack(lo: Byte)
    requires lo < 16
    ensures InvSBox(RowA(lo)) == 0xa0 + lo
  {
  }

  lemma RowBBack(lo: Byte)
    requires lo < 16
    ensures InvSBox(RowB(lo)) == 0xb0 + lo
  {
  }

  lemma RowCBack(lo: Byte)
    requires lo < 16
    ensures InvSBox(RowC(lo)) == 0xc0 + lo
  {
  }

  lemma RowDBack(lo: Byte)
    requires lo < 16
    ensures InvSBox(RowD(lo)) == 0xd0 + lo
  {
  }

  lemma RowEBack(lo: Byte)
    requires lo < 16
    ensures InvSBox(RowE(lo)) == 0xe0 + lo
  {
  }

  lemma RowFBack(lo: Byte)
    requires lo < 16
    ensures InvSBox(RowF(lo)) == 0xf0 + lo
  {
  }

  lemma InvSBoxUndoes(b: Byte)
    ensures InvSBox(SBox(b)) == b
  {
    hide InvSBox, Row0, Row1, Row2, Row3, Row4, Row5, Row6, Row7, Row8, Row9, RowA, RowB, RowC, RowD, RowE, RowF;
    var hi, lo := b >> 4, b & 15;
    assert b == (hi << 4) + lo && lo < 16 && hi < 16;
    if hi == 0 { Row0Back(lo); }
    else if hi == 1 { Row1Back(lo); }
    else if hi == 2 { Row2Back(lo); }
    else if hi == 3 { Row3Back(lo); }
    else if hi == 4 { Row4Back(lo); }
    else if hi == 5 { Row5Back(lo); }
    else if hi == 6 { Row6Back(lo); }
    else if hi == 7 { Row7Back(lo); }
    else if hi == 8 { Row8Back(lo); }
    else if hi == 9 { Row9Back(lo); }
    else if hi == 10 { RowABack(lo); }
    else if hi == 11 { RowBBack(lo); }
    else if hi == 12 { RowCBack(lo); }
    else if hi == 13 { RowDBack(lo); }
    else if hi == 14 { RowEBack(lo); }
    else { RowFBack(lo); }
  }

  /** Addition in the field. */
  function X(a: Byte, b: Byte): Byte { a ^ b }

  /** Multiplication by x, section 4.2.1. */
  function XTime(b: Byte): Byte {
    if b & 0x80 == 0 then b << 1 else (b << 1) ^ 0x1b
  }

  /** Multiplication by the constants of sections 5.1.3 and 5.3.3. */
  function Mul3(b: Byte): Byte { X(XTime(b), b) }

  function Mul9(b: Byte): Byte { X(XTime(XTime(XTime(b))), b) }

  function MulB(b: Byte): Byte { X(Mul9(b), XTime(b)) }

  function MulD(b: Byte): Byte { X(Mul9(b), XTime(XTime(b))) }

  function MulE(b: Byte): Byte { X(X(XTime(XTime(XTime(b))), XTime(XTime(b))), XTime(b)) }

  /** A column of the state, or a word of the key schedule. */
  datatype Column = Column(r0: Byte, r1: Byte, r2: Byte, r3: Byte)

  datatype State = State(c0: Column, c1: Column, c2: Column, c3: Column)

  function Plus(a: Column, b: Column): Column {
    Column(X(a.r0, b.r0), X(a.r1, b.r1), X(a.r2, b.r2), X(a.r3, b.r3))
  }

  function X4(a: Byte, b: Byte, c: Byte, d: Byte): Byte { X(X(X(a, b), c), d) }

  function MixColumn(c: Column): Column {
    Column(
      X4(XTime(c.r0), Mul3(c.r1), c.r2, c.r3),
      X4(c.r0, XTime(c.r1), Mul3(c.r2), c.r3),
      X4(c.r0, c.r1, XTime(c.r2), Mul3(c.r3)),
      X4(Mul3(c.r0), c.r1, c.r2, XTime(c.r3)))
  }

  function InvMixColumn(c: Column): Column {
    Column(
      X4(MulE(c.r0), MulB(c.r1), MulD(c.r2), Mul9(c.r3)),
      X4(Mul9(c.r0), MulE(c.r1), MulB(c.r2), MulD(c.r3)),
      X4(MulD(c.r0), Mul9(c.r1), MulE(c.r2), MulB(c.r3)),
      X4(MulB(c.r0), MulD(c.r1), Mul9(c.r2), MulE(c.r3)))
  }

  function SubColumn(c: Column): Column {
    Column(SBox(c.r0), SBox(c.r1), SBox(c.r2), SBox(c.r3))
  }

  function InvSubColumn(c: Column): Column {
    Column(InvSBox(c.r0), InvSBox(c.r1), InvSBox(c.r2), InvSBox(c.r3))
  }

  function MixColumns(s: State): State {
    State(MixColumn(s.c0), MixColumn(s.c1), MixColumn(s.c2), MixColumn(s.c3))
  }

  function InvMixColumns(s: State): State {
    State(InvMixColumn(s.c0), InvMixColumn(s.c1), InvMixColumn(s.c2), InvMixColumn(s.c3))
  }

  function SubBytes(s: State): State {
    State(SubColumn(s.c0), SubColumn(s.c1), SubColumn(s.c2), SubColumn(s.c3))
  }

  function InvSubBytes(s: State): State {
    State(InvSubColumn(s.c0), InvSubColumn(s.c1), InvSubColumn(s.c2), InvSubColumn(s.c3))
  }

  /** Row r moves r places to the left. */
  function ShiftRows(s: State): State {
    State(
      Column(s.c0.r0, s.c1.r1, s.c2.r2, s.c3.r3),
      Column(s.c1.r0, s.c2.r1, s.c3.r2, s.c0.r3),
      Column(s.c2.r0, s.c3.r1, s.c0.r2, s.c1.r3),
      Column(s.c3.r0, s.c0.r1, s.c1.r2, s.c2.r3))
  }

  /** Row r moves r places to the right. */
  function InvShiftRows(s: State): State {
    State(
      Column(s.c0.r0, s.c3.r1, s.c2.r2, s.c1.r3),
      Column(s.c1.r0, s.c0.r1, s.c3.r2, s.c2.r3),
      Column(s.c2.r0, s.c1.r1, s.c0.r2, s.c3.r3),
      Column(s.c3.r0, s.c2.r1, s.c1.r2, s.c0.r3))
  }

  function AddRoundKey(s: State, k: State): State {
    State(Plus(s.c0, k.c0), Plus(s.c1, k.c1), Plus(s.c2, k.c2), Plus(s.c3, k.c3))
  }

  const ROUNDS: nat := 14

  /** The round keys: fifteen times four words. */
  type Keys = nat -> State

  function FullRound(s: State, k: State): State {
    AddRoundKey(MixColumns(ShiftRows(SubBytes(s))), k)
  }

  /** CIPHER(), section 5.1, after the given number of full rounds. */
  function FullRounds(s: State, k: Keys, n: nat): State {
    if n == 0 then AddRoundKey(s, k(0))
    else FullRound(FullRounds(s, k, n - 1), k(n))
  }

  function Cipher(s: State, k: Keys): State {
    AddRoundKey(ShiftRows(SubBytes(FullRounds(s, k, ROUNDS - 1))), k(ROUNDS))
  }

  function InvRound(s: State, k: State): State {
    InvMixColumns(AddRoundKey(InvSubBytes(InvShiftRows(s)), k))
  }

  /** INVCIPHER(), section 5.3, after so many of its rounds, which count down from 13. */
  function InvRounds(s: State, k: Keys, n: nat): State
    requires n < ROUNDS
  {
    if n == 0 then AddRoundKey(s, k(ROUNDS))
    else InvRound(InvRounds(s, k, n - 1), k(ROUNDS - n))
  }

  function InvCipher(s: State, k: Keys): State {
    AddRoundKey(InvSubBytes(InvShiftRows(InvRounds(s, k, ROUNDS - 1))), k(0))
  }

  function EqInvRound(s: State, d: State): State {
    AddRoundKey(InvMixColumns(InvShiftRows(InvSubBytes(s))), d)
  }

  /** EQINVCIPHER(), section 5.3.5, with its own round keys. */
  function EqInvRounds(s: State, d: Keys, n: nat): State
    requires n < ROUNDS
  {
    if n == 0 then AddRoundKey(s, d(ROUNDS))
    else EqInvRound(EqInvRounds(s, d, n - 1), d(ROUNDS - n))
  }

  function EqInvCipher(s: State, d: Keys): State {
    AddRoundKey(InvShiftRows(InvSubBytes(EqInvRounds(s, d, ROUNDS - 1))), d(0))
  }

  /** The round keys of the equivalent inverse cipher. */
  function EqKeys(k: Keys): Keys {
    (i: nat) => if 0 < i < ROUNDS then InvMixColumns(k(i)) else k(i)
  }

  // ---- key expansion, section 5.2, for 256-bit keys

  function RotColumn(c: Column): Column { Column(c.r1, c.r2, c.r3, c.r0) }

  function RconByte(j: nat): Byte { if j <= 1 then 1 else XTime(RconByte(j - 1)) }

  function Rcon(j: nat): Column { Column(RconByte(j), 0, 0, 0) }

  /** KEYEXPANSION(): word i, from the eight words of the key. */
  function KeyWord(key: seq<Column>, i: nat): Column
    requires |key| == 8
  {
    if i < 8 then key[i]
    else
      var temp := KeyWord(key, i - 1);
      if i % 8 == 0 then Plus(KeyWord(key, i - 8), Plus(SubColumn(RotColumn(temp)), Rcon(i / 8)))
      else if i % 8 == 4 then Plus(KeyWord(key, i - 8), SubColumn(temp))
      else Plus(KeyWord(key, i - 8), temp)
  }

  function RoundKeys(key: seq<Column>): Keys
    requires |key| == 8
  {
    (i: nat) => State(KeyWord(key, 4 * i), KeyWord(key, 4 * i + 1), KeyWord(key, 4 * i + 2), KeyWord(key, 4 * i + 3))
  }

  // ---- bytes

  /** Column i of some bytes. */
  function ColumnAt(b: seq<Byte>, i: nat): Column
    requires 4 * i + 4 <= |b|
  {
    Column(b[4 * i], b[4 * i + 1], b[4 * i + 2], b[4 * i + 3])
  }

  function StateOf(b: seq<Byte>): State
    requires |b| == 16
  {
    State(ColumnAt(b, 0), ColumnAt(b, 1), ColumnAt(b, 2), ColumnAt(b, 3))
  }

  function ColumnBytes(c: Column): (b: seq<Byte>)
    ensures |b| == 4
  {
    [c.r0, c.r1, c.r2, c.r3]
  }

  function StateBytes(s: State): (b: seq<Byte>)
    ensures |b| == 16 && StateOf(b) == s
  {
    ColumnBytes(s.c0) + ColumnBytes(s.c1) + ColumnBytes(s.c2) + ColumnBytes(s.c3)
  }

  lemma StateBytesOf(b: seq<Byte>)
    requires |b| == 16
    ensures StateBytes(StateOf(b)) == b
  {
  }

  function KeyColumns(key: seq<Byte>): (c: seq<Column>)
    requires |key| == 32
    ensures |c| == 8
  {
    seq(8, i requires 0 <= i < 8 => ColumnAt(key, i))
  }
}
