/**
 * The S-box as section 5.1.1 of FIPS 197 constructs it: the inverse in the field, and then
 * an affine map. Multiplication is that of section 4.2, by repeated use of XTime.
 */
module AesField {
  import opened CryptoWords
  import opened AesProofs
  import opened AesSpec

  /** a, if this bit of b is set. */
  function Part(a: Byte, b: Byte, bit: Byte): Byte { if b & bit == 0 then 0 else a }

  /** Multiplication in the field. */
  function Mul(a: Byte, b: Byte): Byte {
    var a1 := XTime(a);
    var a2 := XTime(a1);
    var a3 := XTime(a2);
    var a4 := XTime(a3);
    var a5 := XTime(a4);
    var a6 := XTime(a5);
    var a7 := XTime(a6);
    X(X4(Part(a, b, 0x01), Part(a1, b, 0x02), Part(a2, b, 0x04), Part(a3, b, 0x08)),
      X4(Part(a4, b, 0x10), Part(a5, b, 0x20), Part(a6, b, 0x40), Part(a7, b, 0x80)))
  }

  /** A product in which only some parts are left. */
  lemma MulParts(a: Byte, b: Byte)
    requires b < 0x10
    ensures var a1 := XTime(a); var a2 := XTime(a1); var a3 := XTime(a2);
      Mul(a, b) == X4(Part(a, b, 0x01), Part(a1, b, 0x02), Part(a2, b, 0x04), Part(a3, b, 0x08))
  {
    hide XTime;
    assert b & 0x10 == 0 && b & 0x20 == 0 && b & 0x40 == 0 && b & 0x80 == 0;
  }

  lemma Last(a: Byte, b: Byte, d: Byte)
    ensures X(X(a, b), d) == X(X(d, a), b)
  {
    XAssociates(d, a, b);
    XCommutes(X(a, b), d);
    hide X;
  }

  lemma Sums(a: Byte, b: Byte, c: Byte, d: Byte)
    ensures X4(0, b, 0, 0) == b && X4(a, b, 0, 0) == X(b, a) && X4(a, 0, 0, d) == X(d, a)
    ensures X4(a, b, 0, d) == X(X(d, a), b) && X4(a, 0, c, d) == X(X(d, a), c) && X4(0, b, c, d) == X(X(d, c), b)
  {
    hide X;
    XZero(a);
    XZero(b);
    XZero(X(a, b));
    XCommutes(a, b);
    XCommutes(a, d);
    XCommutes(b, c);
    Last(a, b, d);
    Last(a, c, d);
    Last(c, b, d);
  }

  /** The constants of MixColumns and InvMixColumns, sections 5.1.3 and 5.3.3. */
  lemma MulConstants(b: Byte)
    ensures Mul(b, 0x02) == XTime(b) && Mul(b, 0x03) == Mul3(b)
    ensures Mul(b, 0x09) == Mul9(b) && Mul(b, 0x0b) == MulB(b)
    ensures Mul(b, 0x0d) == MulD(b) && Mul(b, 0x0e) == MulE(b)
  {
    hide XTime, Mul, X, X4;
    var b1 := XTime(b);
    var b2 := XTime(b1);
    Sums(b, b1, b2, XTime(b2));
    MulParts(b, 0x02);
    MulParts(b, 0x03);
    MulParts(b, 0x09);
    MulParts(b, 0x0b);
    MulParts(b, 0x0d);
    MulParts(b, 0x0e);
  }

  /** A byte rotated left by some of its bits. */
  function RotL1(b: Byte): Byte { (b << 1) | (b >> 7) }

  function RotL2(b: Byte): Byte { RotL1(RotL1(b)) }

  /** The affine map: a byte, its rotations by one to four, and a constant. */
  function Affine(b: Byte): Byte {
    X(X4(b, RotL1(b), RotL2(b), RotL1(RotL2(b))), X(RotL2(RotL2(b)), 0x63))
  }

  /** The affine map backwards: the rotations by one, three and six, and a constant. */
  function InvAffine(b: Byte): Byte {
    X4(RotL1(b), RotL1(RotL2(b)), RotL2(RotL2(RotL2(b))), 0x05)
  }

  lemma AffineUndoes(b: Byte)
    ensures Affine(InvAffine(b)) == b
  {
  }

  // the preimage of each value of the S-box is the inverse of its argument, a row at a time

  lemma Row0Inverts(lo: Byte)
    requires 0 < lo < 16
    ensures Mul(0x00 + lo, InvAffine(Row0(lo))) == 1
  {
  }

  lemma Row1Inverts(lo: Byte)
    requires lo < 16
    ensures Mul(0x10 + lo, InvAffine(Row1(lo))) == 1
  {
  }

  lemma Row2Inverts(lo: Byte)
    requires lo < 16
    ensures Mul(0x20 + lo, InvAffine(Row2(lo))) == 1
  {
  }

  lemma Row3Inverts(lo: Byte)
    requires lo < 16
    ensures Mul(0x30 + lo, InvAffine(Row3(lo))) == 1
  {
  }

  lemma Row4Inverts(lo: Byte)
    requires lo < 16
    ensures Mul(0x40 + lo, InvAffine(Row4(lo))) == 1
  {
  }

  lemma Row5Inverts(lo: Byte)
    requires lo < 16
    ensures Mul(0x50 + lo, InvAffine(Row5(lo))) == 1
  {
  }

  lemma Row6Inverts(lo: Byte)
    requires lo < 16
    ensures Mul(0x60 + lo, InvAffine(Row6(lo))) == 1
  {
  }

  lemma Row7Inverts(lo: Byte)
    requires lo < 16
    ensures Mul(0x70 + lo, InvAffine(Row7(lo))) == 1
  {
  }

  lemma Row8Inverts(lo: Byte)
    requires lo < 16
    ensures Mul(0x80 + lo, InvAffine(Row8(lo))) == 1
  {
  }

  lemma Row9Inverts(lo: Byte)
    requires lo < 16
    ensures Mul(0x90 + lo, InvAffine(Row9(lo))) == 1
  {
  }

  lemma RowAInverts(lo: Byte)
    requires lo < 16
    ensures Mul(0xa0 + lo, InvAffine(RowA(lo))) == 1
  {
  }

  lemma RowBInverts(lo: Byte)
    requires lo < 16
    ensures Mul(0xb0 + lo, InvAffine(RowB(lo))) == 1
  {
  }

  lemma RowCInverts(lo: Byte)
    requires lo < 16
    ensures Mul(0xc0 + lo, InvAffine(RowC(lo))) == 1
  {
  }

  lemma RowDInverts(lo: Byte)
    requires lo < 16
    ensures Mul(0xd0 + lo, InvAffine(RowD(lo))) == 1
  {
  }

  lemma RowEInverts(lo: Byte)
    requires lo < 16
    ensures Mul(0xe0 + lo, InvAffine(RowE(lo))) == 1
  {
  }

  lemma RowFInverts(lo: Byte)
    requires lo < 16
    ensures Mul(0xf0 + lo, InvAffine(RowF(lo))) == 1
  {
  }

  /** SBOX of any byte but 0 is the affine map of its inverse; 0 has none and stands for itself. */
  lemma SBoxIsInverse(b: Byte)
    ensures SBox(0) == Affine(0) == 0x63
    ensures b != 0 ==> exists v :: Mul(b, v) == 1 && SBox(b) == Affine(v)
  {
    hide Mul, InvAffine, Row1, Row2, Row3, Row4, Row5, Row6, Row7, Row8, Row9, RowA, RowB, RowC, RowD, RowE, RowF;
    var hi, lo := b >> 4, b & 15;
    assert b == (hi << 4) + lo && lo < 16 && hi < 16;
    if hi == 0 { if lo != 0 { Row0Inverts(lo); } }
    else if hi == 1 { Row1Inverts(lo); }
    else if hi == 2 { Row2Inverts(lo); }
    else if hi == 3 { Row3Inverts(lo); }
    else if hi == 4 { Row4Inverts(lo); }
    else if hi == 5 { Row5Inverts(lo); }
    else if hi == 6 { Row6Inverts(lo); }
    else if hi == 7 { Row7Inverts(lo); }
    else if hi == 8 { Row8Inverts(lo); }
    else if hi == 9 { Row9Inverts(lo); }
    else if hi == 10 { RowAInverts(lo); }
    else if hi == 11 { RowBInverts(lo); }
    else if hi == 12 { RowCInverts(lo); }
    else if hi == 13 { RowDInverts(lo); }
    else if hi == 14 { RowEInverts(lo); }
    else { RowFInverts(lo); }
    AffineUndoes(SBox(b));
    assert b != 0 ==> Mul(b, InvAffine(SBox(b))) == 1;
  }
}
