/** The words and tables of kernel/crypto/aes.c, and what they mean for columns. */
module AesTables {
  import opened CryptoWords
  import opened AesSpec
  import AesProofs
  import WordFacts
  import MaskFacts

  /** GETBYTE */
  function GetByte(x: Word, k: nat): Byte
    requires k < 4
  {
    ByteAt(x, k)
  }

  /** The column a word stands for: its most significant byte is row 0. */
  function Split(w: Word): Column {
    Column(ByteAt(w, 3), ByteAt(w, 2), ByteAt(w, 1), ByteAt(w, 0))
  }

  /** a ^ b on words. */
  function XorW(a: Word, b: Word): Word { a ^ b }

  lemma ByteXor(a: Word, b: Word, k: nat)
    requires k < 4
    ensures ByteAt(a ^ b, k) == ByteAt(a, k) ^ ByteAt(b, k)
  {
    if k == 0 { WordFacts.Xor0Fact(a, b); }
    else if k == 1 { WordFacts.Xor1Fact(a, b); }
    else if k == 2 { WordFacts.Xor2Fact(a, b); }
    else { WordFacts.Xor3Fact(a, b); }
  }

  lemma ByteXorW(a: Word, b: Word, k: nat)
    requires k < 4
    ensures ByteAt(XorW(a, b), k) == X(ByteAt(a, k), ByteAt(b, k))
  {
    hide ByteAt;
    ByteXor(a, b, k);
  }

  lemma SplitXor(a: Word, b: Word)
    ensures Split(XorW(a, b)) == Plus(Split(a), Split(b))
  {
    hide ByteAt, X, XorW;
    ByteXorW(a, b, 0);
    ByteXorW(a, b, 1);
    ByteXorW(a, b, 2);
    ByteXorW(a, b, 3);
  }

  lemma SplitWordOf(a: Byte, b: Byte, c: Byte, d: Byte)
    ensures Split(WordOf(a, b, c, d)) == Column(a, b, c, d)
  {
    MaskFacts.WordFacts(a, b, c, d);
  }

  /** Te[0] to Te[3], rotations of one column; every byte of Te[4] is the S-box. */
  function Te0(x: Byte): Word { var s := SBox(x); WordOf(XTime(s), s, s, Mul3(s)) }

  function Te1(x: Byte): Word { var s := SBox(x); WordOf(Mul3(s), XTime(s), s, s) }

  function Te2(x: Byte): Word { var s := SBox(x); WordOf(s, Mul3(s), XTime(s), s) }

  function Te3(x: Byte): Word { var s := SBox(x); WordOf(s, s, Mul3(s), XTime(s)) }

  function Te4(x: Byte): Word { var s := SBox(x); WordOf(s, s, s, s) }

  /** Td[0] to Td[3] and Td[4] in the same way, with the inverse S-box. */
  function Td0(x: Byte): Word { var s := InvSBox(x); WordOf(MulE(s), Mul9(s), MulD(s), MulB(s)) }

  function Td1(x: Byte): Word { var s := InvSBox(x); WordOf(MulB(s), MulE(s), Mul9(s), MulD(s)) }

  function Td2(x: Byte): Word { var s := InvSBox(x); WordOf(MulD(s), MulB(s), MulE(s), Mul9(s)) }

  function Td3(x: Byte): Word { var s := InvSBox(x); WordOf(Mul9(s), MulD(s), MulB(s), MulE(s)) }

  function Td4(x: Byte): Word { var s := InvSBox(x); WordOf(s, s, s, s) }

  /** w & 0xff000000 and so on, for byte k of the word. */
  function Keep(w: Word, k: nat): Word
    requires k < 4
  {
    if k == 0 then w & 0x000000ff else if k == 1 then w & 0x0000ff00
    else if k == 2 then w & 0x00ff0000 else w & 0xff000000
  }

  lemma SplitKeep(a: Byte)
    ensures Split(Keep(WordOf(a, a, a, a), 3)) == Column(a, 0, 0, 0)
    ensures Split(Keep(WordOf(a, a, a, a), 2)) == Column(0, a, 0, 0)
    ensures Split(Keep(WordOf(a, a, a, a), 1)) == Column(0, 0, a, 0)
    ensures Split(Keep(WordOf(a, a, a, a), 0)) == Column(0, 0, 0, a)
  {
    MaskFacts.KeepFacts(a);
  }

  /** Four tables and a round key: one column of a full round. */
  function MixWord(a: Byte, b: Byte, c: Byte, d: Byte, key: Word): (w: Word)
    ensures Split(w) == Plus(MixColumn(SubColumn(Column(a, b, c, d))), Split(key))
  {
    SumOfFour(Te0(a), Te1(b), Te2(c), Te3(d), key);
    TeColumns(a, b, c, d);
    XorW(XorW(XorW(XorW(Te0(a), Te1(b)), Te2(c)), Te3(d)), key)
  }

  lemma SumOfFour(a: Word, b: Word, c: Word, d: Word, key: Word)
    ensures Split(XorW(XorW(XorW(XorW(a, b), c), d), key))
      == Plus(Plus(Plus(Plus(Split(a), Split(b)), Split(c)), Split(d)), Split(key))
  {
    hide Split, XorW;
    SplitXor(a, b);
    SplitXor(XorW(a, b), c);
    SplitXor(XorW(XorW(a, b), c), d);
    SplitXor(XorW(XorW(XorW(a, b), c), d), key);
  }

  lemma TeColumns(a: Byte, b: Byte, c: Byte, d: Byte)
    ensures Plus(Plus(Plus(Split(Te0(a)), Split(Te1(b))), Split(Te2(c))), Split(Te3(d)))
      == MixColumn(SubColumn(Column(a, b, c, d)))
  {
    hide Split, WordOf, X, SBox, XTime, Mul3;
    var p, q, r, s := SBox(a), SBox(b), SBox(c), SBox(d);
    SplitWordOf(XTime(p), p, p, Mul3(p));
    SplitWordOf(Mul3(q), XTime(q), q, q);
    SplitWordOf(r, Mul3(r), XTime(r), r);
    SplitWordOf(s, s, Mul3(s), XTime(s));
  }

  /** The same with the tables of the inverse cipher. */
  function InvMixWord(a: Byte, b: Byte, c: Byte, d: Byte, key: Word): (w: Word)
    ensures Split(w) == Plus(InvMixColumn(InvSubColumn(Column(a, b, c, d))), Split(key))
  {
    SumOfFour(Td0(a), Td1(b), Td2(c), Td3(d), key);
    TdColumns(a, b, c, d);
    XorW(XorW(XorW(XorW(Td0(a), Td1(b)), Td2(c)), Td3(d)), key)
  }

  lemma TdColumns(a: Byte, b: Byte, c: Byte, d: Byte)
    ensures Plus(Plus(Plus(Split(Td0(a)), Split(Td1(b))), Split(Td2(c))), Split(Td3(d)))
      == InvMixColumn(InvSubColumn(Column(a, b, c, d)))
  {
    hide Split, WordOf, X, InvSBox, Mul9, MulB, MulD, MulE;
    var p, q, r, s := InvSBox(a), InvSBox(b), InvSBox(c), InvSBox(d);
    SplitWordOf(MulE(p), Mul9(p), MulD(p), MulB(p));
    SplitWordOf(MulB(q), MulE(q), Mul9(q), MulD(q));
    SplitWordOf(MulD(r), MulB(r), MulE(r), Mul9(r));
    SplitWordOf(Mul9(s), MulD(s), MulB(s), MulE(s));
  }

  lemma Assemble(a: Byte, b: Byte, c: Byte, d: Byte)
    ensures Plus(Plus(Plus(Column(a, 0, 0, 0), Column(0, b, 0, 0)), Column(0, 0, c, 0)), Column(0, 0, 0, d))
      == Column(a, b, c, d)
  {
    hide X;
    AesProofs.XZero(0);
    AesProofs.XZero(a);
    AesProofs.XZero(b);
    AesProofs.XZero(c);
    AesProofs.XZero(d);
  }

  /** One column of the last round. */
  function LastWord(a: Byte, b: Byte, c: Byte, d: Byte, key: Word): (w: Word)
    ensures Split(w) == Plus(SubColumn(Column(a, b, c, d)), Split(key))
  {
    SumOfFour(Keep(Te4(a), 3), Keep(Te4(b), 2), Keep(Te4(c), 1), Keep(Te4(d), 0), key);
    KeptColumns(SBox(a), SBox(b), SBox(c), SBox(d));
    XorW(XorW(XorW(XorW(Keep(Te4(a), 3), Keep(Te4(b), 2)), Keep(Te4(c), 1)), Keep(Te4(d), 0)), key)
  }

  lemma KeptColumns(a: Byte, b: Byte, c: Byte, d: Byte)
    ensures Plus(Plus(Plus(Split(Keep(WordOf(a, a, a, a), 3)), Split(Keep(WordOf(b, b, b, b), 2))),
        Split(Keep(WordOf(c, c, c, c), 1))), Split(Keep(WordOf(d, d, d, d), 0)))
      == Column(a, b, c, d)
  {
    hide Split, WordOf, Keep, X, Plus;
    SplitKeep(a);
    SplitKeep(b);
    SplitKeep(c);
    SplitKeep(d);
    Assemble(a, b, c, d);
  }

  function InvLastWord(a: Byte, b: Byte, c: Byte, d: Byte, key: Word): (w: Word)
    ensures Split(w) == Plus(InvSubColumn(Column(a, b, c, d)), Split(key))
  {
    SumOfFour(Keep(Td4(a), 3), Keep(Td4(b), 2), Keep(Td4(c), 1), Keep(Td4(d), 0), key);
    KeptColumns(InvSBox(a), InvSBox(b), InvSBox(c), InvSBox(d));
    XorW(XorW(XorW(XorW(Keep(Td4(a), 3), Keep(Td4(b), 2)), Keep(Td4(c), 1)), Keep(Td4(d), 0)), key)
  }
}

/** What masks and shifts do to words put together from bytes, stated on the operators alone. */
module MaskFacts {
  lemma WordFacts(a: bv8, b: bv8, c: bv8, d: bv8)
    ensures var w := ((a as bv32) << 24) | ((b as bv32) << 16) | ((c as bv32) << 8) | (d as bv32);
      && ((w >> 24) & 0xff) as bv8 == a && ((w >> 16) & 0xff) as bv8 == b
      && ((w >> 8) & 0xff) as bv8 == c && (w & 0xff) as bv8 == d
  {
  }

  lemma KeepFacts(a: bv8)
    ensures var w := ((a as bv32) << 24) | ((a as bv32) << 16) | ((a as bv32) << 8) | (a as bv32);
      && w & 0x000000ff == a as bv32 && w & 0x0000ff00 == (a as bv32) << 8
      && w & 0x00ff0000 == (a as bv32) << 16 && w & 0xff000000 == (a as bv32) << 24
  {
  }
}
