/** What the byte operations of the cipher do to sums, stated on the operators alone. */
module FieldFacts {
  lemma NoCarry(a: bv8, b: bv8)
    requires a & 0x80 == 0 && b & 0x80 == 0
    ensures (a ^ b) & 0x80 == 0 && (a ^ b) << 1 == (a << 1) ^ (b << 1)
  {
  }

  lemma OneCarry(a: bv8, b: bv8)
    requires a & 0x80 == 0 && b & 0x80 != 0
    ensures (a ^ b) & 0x80 != 0 && ((a ^ b) << 1) ^ 0x1b == (a << 1) ^ ((b << 1) ^ 0x1b)
    ensures (b ^ a) & 0x80 != 0 && ((b ^ a) << 1) ^ 0x1b == ((b << 1) ^ 0x1b) ^ (a << 1)
  {
  }

  lemma TwoCarries(a: bv8, b: bv8)
    requires a & 0x80 != 0 && b & 0x80 != 0
    ensures (a ^ b) & 0x80 == 0 && (a ^ b) << 1 == ((a << 1) ^ 0x1b) ^ ((b << 1) ^ 0x1b)
  {
  }
}

/** The inverse cipher of FIPS 197 undoes the cipher, in both of its forms. */
module AesProofs {
  import opened CryptoWords
  import opened AesSpec
  import FieldFacts

  lemma Low(a: Byte)
    requires a & 0x80 == 0
    ensures XTime(a) == a << 1
  {
  }

  lemma High(a: Byte)
    requires a & 0x80 != 0
    ensures XTime(a) == (a << 1) ^ 0x1b
  {
  }

  lemma XTimeAdds(a: Byte, b: Byte)
    ensures XTime(X(a, b)) == X(XTime(a), XTime(b))
  {
    hide XTime;
    var sum := X(a, b);
    if a & 0x80 == 0 {
      Low(a);
      if b & 0x80 == 0 {
        FieldFacts.NoCarry(a, b);
        Low(b);
        Low(sum);
      } else {
        FieldFacts.OneCarry(a, b);
        High(b);
        High(sum);
      }
    } else {
      High(a);
      if b & 0x80 == 0 {
        FieldFacts.OneCarry(b, a);
        Low(b);
        High(sum);
      } else {
        FieldFacts.TwoCarries(a, b);
        High(b);
        Low(sum);
      }
    }
  }

  lemma XCommutes(a: Byte, b: Byte)
    ensures X(a, b) == X(b, a)
  {
  }

  lemma XAssociates(a: Byte, b: Byte, c: Byte)
    ensures X(X(a, b), c) == X(a, X(b, c))
  {
  }

  lemma XCancels(a: Byte, b: Byte)
    ensures X(X(a, b), b) == a
  {
  }

  lemma Swap(a: Byte, b: Byte, c: Byte, d: Byte)
    ensures X(X(a, b), X(c, d)) == X(X(a, c), X(b, d))
  {
    XAssociates(a, b, X(c, d));
    XAssociates(b, c, d);
    XCommutes(b, c);
    XAssociates(c, b, d);
    XAssociates(a, c, X(b, d));
  }

  lemma MulsAdd(a: Byte, b: Byte)
    ensures XTime(X(a, b)) == X(XTime(a), XTime(b))
    ensures Mul3(X(a, b)) == X(Mul3(a), Mul3(b))
    ensures Mul9(X(a, b)) == X(Mul9(a), Mul9(b))
    ensures MulB(X(a, b)) == X(MulB(a), MulB(b))
    ensures MulD(X(a, b)) == X(MulD(a), MulD(b))
    ensures MulE(X(a, b)) == X(MulE(a), MulE(b))
  {
    var a2, b2 := XTime(a), XTime(b);
    var a4, b4 := XTime(a2), XTime(b2);
    var a8, b8 := XTime(a4), XTime(b4);
    XTimeAdds(a, b);
    XTimeAdds(a2, b2);
    XTimeAdds(a4, b4);
    Swap(a2, b2, a, b);
    Swap(a8, b8, a, b);
    Swap(X(a8, a), X(b8, b), a2, b2);
    Swap(X(a8, a), X(b8, b), a4, b4);
    Swap(a8, b8, a4, b4);
    Swap(X(a8, a4), X(b8, b4), a2, b2);
  }

  lemma X4Adds(a: Byte, b: Byte, c: Byte, d: Byte, p: Byte, q: Byte, r: Byte, s: Byte)
    ensures X4(X(a, p), X(b, q), X(c, r), X(d, s)) == X(X4(a, b, c, d), X4(p, q, r, s))
  {
    Swap(a, p, b, q);
    Swap(X(a, b), X(p, q), c, r);
    Swap(X(X(a, b), c), X(X(p, q), r), d, s);
  }

  /** Both mixing steps are linear. */
  lemma MixAdds(c: Column, d: Column)
    ensures MixColumn(Plus(c, d)) == Plus(MixColumn(c), MixColumn(d))
  {
    MulsAdd(c.r0, d.r0);
    MulsAdd(c.r1, d.r1);
    MulsAdd(c.r2, d.r2);
    MulsAdd(c.r3, d.r3);
    X4Adds(XTime(c.r0), Mul3(c.r1), c.r2, c.r3, XTime(d.r0), Mul3(d.r1), d.r2, d.r3);
    X4Adds(c.r0, XTime(c.r1), Mul3(c.r2), c.r3, d.r0, XTime(d.r1), Mul3(d.r2), d.r3);
    X4Adds(c.r0, c.r1, XTime(c.r2), Mul3(c.r3), d.r0, d.r1, XTime(d.r2), Mul3(d.r3));
    X4Adds(Mul3(c.r0), c.r1, c.r2, XTime(c.r3), Mul3(d.r0), d.r1, d.r2, XTime(d.r3));
  }

  lemma InvMixAdds(c: Column, d: Column)
    ensures InvMixColumn(Plus(c, d)) == Plus(InvMixColumn(c), InvMixColumn(d))
  {
    MulsAdd(c.r0, d.r0);
    MulsAdd(c.r1, d.r1);
    MulsAdd(c.r2, d.r2);
    MulsAdd(c.r3, d.r3);
    X4Adds(MulE(c.r0), MulB(c.r1), MulD(c.r2), Mul9(c.r3), MulE(d.r0), MulB(d.r1), MulD(d.r2), Mul9(d.r3));
    X4Adds(Mul9(c.r0), MulE(c.r1), MulB(c.r2), MulD(c.r3), Mul9(d.r0), MulE(d.r1), MulB(d.r2), MulD(d.r3));
    X4Adds(MulD(c.r0), Mul9(c.r1), MulE(c.r2), MulB(c.r3), MulD(d.r0), Mul9(d.r1), MulE(d.r2), MulB(d.r3));
    X4Adds(MulB(c.r0), MulD(c.r1), Mul9(c.r2), MulE(c.r3), MulB(d.r0), MulD(d.r1), Mul9(d.r2), MulE(d.r3));
  }

  function Turned(c: Column): Column { Column(c.r3, c.r0, c.r1, c.r2) }

  lemma X4Turns(a: Byte, b: Byte, c: Byte, d: Byte)
    ensures X4(a, b, c, d) == X4(d, a, b, c)
  {
    XCommutes(X(X(a, b), c), d);
    XAssociates(d, X(a, b), c);
    XAssociates(d, a, b);
  }

  /** Both mixing steps treat all rows alike. */
  lemma MixTurns(c: Column)
    ensures MixColumn(Turned(c)) == Turned(MixColumn(c))
  {
    X4Turns(XTime(c.r0), Mul3(c.r1), c.r2, c.r3);
    X4Turns(c.r0, XTime(c.r1), Mul3(c.r2), c.r3);
    X4Turns(c.r0, c.r1, XTime(c.r2), Mul3(c.r3));
    X4Turns(Mul3(c.r0), c.r1, c.r2, XTime(c.r3));
  }

  lemma InvMixTurns(c: Column)
    ensures InvMixColumn(Turned(c)) == Turned(InvMixColumn(c))
  {
    X4Turns(MulE(c.r0), MulB(c.r1), MulD(c.r2), Mul9(c.r3));
    X4Turns(Mul9(c.r0), MulE(c.r1), MulB(c.r2), MulD(c.r3));
    X4Turns(MulD(c.r0), Mul9(c.r1), MulE(c.r2), MulB(c.r3));
    X4Turns(MulB(c.r0), MulD(c.r1), Mul9(c.r2), MulE(c.r3));
  }

  lemma BackTurns(c: Column)
    requires InvMixColumn(MixColumn(c)) == c
    ensures InvMixColumn(MixColumn(Turned(c))) == Turned(c)
  {
    hide MixColumn, InvMixColumn;
    MixTurns(c);
    InvMixTurns(MixColumn(c));
  }

  lemma OnlyOneRow(x: Byte)
    ensures InvMixColumn(MixColumn(Column(x, 0, 0, 0))) == Column(x, 0, 0, 0)
  {
  }

  lemma XZero(x: Byte)
    ensures X(x, 0) == x && X(0, x) == x
  {
  }

  lemma OneRowBack(x: Byte)
    ensures forall c :: c in {Column(x, 0, 0, 0), Column(0, x, 0, 0), Column(0, 0, x, 0), Column(0, 0, 0, x)} ==>
      InvMixColumn(MixColumn(c)) == c
  {
    hide MixColumn, InvMixColumn;
    OnlyOneRow(x);
    BackTurns(Column(x, 0, 0, 0));
    BackTurns(Column(0, x, 0, 0));
    BackTurns(Column(0, 0, x, 0));
  }

  lemma MixAndBack(c: Column, d: Column)
    requires InvMixColumn(MixColumn(c)) == c && InvMixColumn(MixColumn(d)) == d
    ensures InvMixColumn(MixColumn(Plus(c, d))) == Plus(c, d)
  {
    hide MixColumn, InvMixColumn;
    MixAdds(c, d);
    InvMixAdds(MixColumn(c), MixColumn(d));
  }

  /** INVMIXCOLUMNS() is the inverse of MIXCOLUMNS(). */
  lemma InvMixUndoes(c: Column)
    ensures InvMixColumn(MixColumn(c)) == c
  {
    hide MixColumn, InvMixColumn;
    var a, b := Column(c.r0, 0, 0, 0), Column(0, c.r1, 0, 0);
    var d, e := Column(0, 0, c.r2, 0), Column(0, 0, 0, c.r3);
    OneRowBack(c.r0);
    OneRowBack(c.r1);
    OneRowBack(c.r2);
    OneRowBack(c.r3);
    MixAndBack(a, b);
    MixAndBack(Plus(a, b), d);
    MixAndBack(Plus(Plus(a, b), d), e);
    XZero(0);
    XZero(c.r0);
    XZero(c.r1);
    XZero(c.r2);
    XZero(c.r3);
  }

  lemma PlusCancels(a: Column, b: Column)
    ensures Plus(Plus(a, b), b) == a
  {
    XCancels(a.r0, b.r0);
    XCancels(a.r1, b.r1);
    XCancels(a.r2, b.r2);
    XCancels(a.r3, b.r3);
  }

  lemma KeyCancels(s: State, k: State)
    ensures AddRoundKey(AddRoundKey(s, k), k) == s
  {
    PlusCancels(s.c0, k.c0);
    PlusCancels(s.c1, k.c1);
    PlusCancels(s.c2, k.c2);
    PlusCancels(s.c3, k.c3);
  }

  lemma InvMixColumnsUndoes(s: State)
    ensures InvMixColumns(MixColumns(s)) == s
  {
    InvMixUndoes(s.c0);
    InvMixUndoes(s.c1);
    InvMixUndoes(s.c2);
    InvMixUndoes(s.c3);
  }

  lemma InvMixColumnsAdds(s: State, k: State)
    ensures InvMixColumns(AddRoundKey(s, k)) == AddRoundKey(InvMixColumns(s), InvMixColumns(k))
  {
    InvMixAdds(s.c0, k.c0);
    InvMixAdds(s.c1, k.c1);
    InvMixAdds(s.c2, k.c2);
    InvMixAdds(s.c3, k.c3);
  }

  lemma InvSubUndoes(c: Column)
    ensures InvSubColumn(SubColumn(c)) == c
  {
    InvSBoxUndoes(c.r0);
    InvSBoxUndoes(c.r1);
    InvSBoxUndoes(c.r2);
    InvSBoxUndoes(c.r3);
  }

  lemma InvSubBytesUndoes(s: State)
    ensures InvSubBytes(SubBytes(s)) == s
  {
    InvSubUndoes(s.c0);
    InvSubUndoes(s.c1);
    InvSubUndoes(s.c2);
    InvSubUndoes(s.c3);
  }

  lemma InvShiftRowsUndoes(s: State)
    ensures InvShiftRows(ShiftRows(s)) == s && InvSubBytes(InvShiftRows(s)) == InvShiftRows(InvSubBytes(s))
  {
  }

  /** A round of the inverse cipher takes back a round of the cipher. */
  lemma InvRoundUndoes(t: State, k: State)
    ensures InvRound(ShiftRows(SubBytes(FullRound(t, k))), k) == ShiftRows(SubBytes(t))
  {
    var u := ShiftRows(SubBytes(t));
    var f := FullRound(t, k);
    InvShiftRowsUndoes(SubBytes(f));
    InvSubBytesUndoes(f);
    KeyCancels(MixColumns(u), k);
    InvMixColumnsUndoes(u);
  }

  /** So do several, one after the other. */
  lemma {:induction false} InvRoundsUndo(s: State, k: Keys, n: nat)
    requires n < ROUNDS
    ensures InvRounds(Cipher(s, k), k, n) == ShiftRows(SubBytes(FullRounds(s, k, ROUNDS - 1 - n)))
  {
    hide FullRound, InvRound, ShiftRows, SubBytes, AddRoundKey;
    if n == 0 {
      KeyCancels(ShiftRows(SubBytes(FullRounds(s, k, ROUNDS - 1))), k(ROUNDS));
    } else {
      InvRoundsUndo(s, k, n - 1);
      InvRoundUndoes(FullRounds(s, k, ROUNDS - 1 - n), k(ROUNDS - n));
    }
  }

  /** INVCIPHER() undoes CIPHER() for any round keys. */
  lemma InvCipherUndoes(s: State, k: Keys)
    ensures InvCipher(Cipher(s, k), k) == s
  {
    InvRoundsUndo(s, k, ROUNDS - 1);
    var t := FullRounds(s, k, 0);
    InvShiftRowsUndoes(SubBytes(t));
    InvSubBytesUndoes(t);
    KeyCancels(s, k(0));
  }

  /** One round in either order of its steps. */
  lemma EitherOrder(t: State, k: State)
    ensures EqInvRound(t, InvMixColumns(k)) == InvRound(t, k)
  {
    InvShiftRowsUndoes(t);
    InvMixColumnsAdds(InvSubBytes(InvShiftRows(t)), k);
  }

  /** Section 5.3.5: with the modified round keys, the other order of the steps is the same. */
  lemma {:induction false} EqInvRoundsAgree(s: State, k: Keys, n: nat)
    requires n < ROUNDS
    ensures EqInvRounds(s, EqKeys(k), n) == InvRounds(s, k, n)
  {
    hide EqInvRound, InvRound, AddRoundKey;
    if n > 0 {
      EqInvRoundsAgree(s, k, n - 1);
      var i := ROUNDS - n;
      assert EqKeys(k)(i) == InvMixColumns(k(i));
      EitherOrder(InvRounds(s, k, n - 1), k(i));
    }
  }

  lemma EqInvCipherAgrees(s: State, k: Keys)
    ensures EqInvCipher(s, EqKeys(k)) == InvCipher(s, k)
  {
    EqInvRoundsAgree(s, k, ROUNDS - 1);
    InvShiftRowsUndoes(EqInvRounds(s, EqKeys(k), ROUNDS - 1));
  }
}
