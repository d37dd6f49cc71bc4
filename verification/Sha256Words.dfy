/** What the operations of sha256.c rest on, stated on the operators alone. */
module RotationFacts {
  lemma ChFact(x: bv32, y: bv32, z: bv32)
    ensures z ^ (x & (y ^ z)) == (x & y) ^ (!x & z)
  {
  }

  lemma MajFact(x: bv32, y: bv32, z: bv32)
    ensures ((x | y) & z) | (x & y) == (x & y) ^ (x & z) ^ (y & z)
  {
  }

  /** Rotations by the amounts that sha256.c uses. */
  lemma Rotations(x: bv32)
    ensures (x >> 2) | (x << 30) == x.RotateRight(2)
    ensures (x >> 6) | (x << 26) == x.RotateRight(6)
    ensures (x >> 7) | (x << 25) == x.RotateRight(7)
    ensures (x >> 11) | (x << 21) == x.RotateRight(11)
    ensures (x >> 13) | (x << 19) == x.RotateRight(13)
    ensures (x >> 17) | (x << 15) == x.RotateRight(17)
    ensures (x >> 18) | (x << 14) == x.RotateRight(18)
    ensures (x >> 19) | (x << 13) == x.RotateRight(19)
    ensures (x >> 22) | (x << 10) == x.RotateRight(22)
    ensures (x >> 25) | (x << 7) == x.RotateRight(25)
  {
  }

}

/** The word operations of kernel/crypto/sha256.c as the code writes them. */
module Sha256Words {
  import opened CryptoWords
  import opened Sha256Spec
  import RotationFacts

  lemma RotrRotates(x: Word)
    ensures RotrFixed(x, 2) == x.RotateRight(2)
    ensures RotrFixed(x, 6) == x.RotateRight(6)
    ensures RotrFixed(x, 7) == x.RotateRight(7)
    ensures RotrFixed(x, 11) == x.RotateRight(11)
    ensures RotrFixed(x, 13) == x.RotateRight(13)
    ensures RotrFixed(x, 17) == x.RotateRight(17)
    ensures RotrFixed(x, 18) == x.RotateRight(18)
    ensures RotrFixed(x, 19) == x.RotateRight(19)
    ensures RotrFixed(x, 22) == x.RotateRight(22)
    ensures RotrFixed(x, 25) == x.RotateRight(25)
  {
    RotationFacts.Rotations(x);
  }

  /** The macros Sigma0 to Gamma1 of sha256.c:49-55. */
  function BigSigma0Code(x: Word): (r: Word)
    ensures r == BigSigma0(x)
  {
    RotrRotates(x);
    Xor(RotrFixed(x, 2), RotrFixed(x, 13), RotrFixed(x, 22))
  }

  function BigSigma1Code(x: Word): (r: Word)
    ensures r == BigSigma1(x)
  {
    RotrRotates(x);
    Xor(RotrFixed(x, 6), RotrFixed(x, 11), RotrFixed(x, 25))
  }

  function SmallSigma0Code(x: Word): (r: Word)
    ensures r == SmallSigma0(x)
  {
    RotrRotates(x);
    Xor(RotrFixed(x, 7), RotrFixed(x, 18), x >> 3)
  }

  function SmallSigma1Code(x: Word): (r: Word)
    ensures r == SmallSigma1(x)
  {
    RotrRotates(x);
    Xor(RotrFixed(x, 17), RotrFixed(x, 19), x >> 10)
  }

  /** The Ch and Maj of sha256.c:47-48 save an operation each. */
  function ChCode(x: Word, y: Word, z: Word): (r: Word)
    ensures r == Ch(x, y, z)
  {
    RotationFacts.ChFact(x, y, z);
    z ^ (x & (y ^ z))
  }

  function MajCode(x: Word, y: Word, z: Word): (r: Word)
    ensures r == Maj(x, y, z)
  {
    RotationFacts.MajFact(x, y, z);
    ((x | y) & z) | (x & y)
  }

  /** A reversed block is the block as the standard reads it. */
  lemma ReversedIsParsed(ws: seq<Word>)
    requires |ws| == 16
    ensures Reversed(ws) == Parse(Local(ws))
  {
    forall i | 0 <= i < 16 ensures Reversed(ws)[i] == Parse(Local(ws))[i] {
      ReadWord(ws, i);
    }
  }

  /** A reversed digest lies in memory as the standard puts it out. */
  lemma {:induction false} ReversedIsOutput(ws: seq<Word>)
    ensures Local(Reversed(ws)) == OutputBytes(ws)
  {
    if ws != [] {
      var n := |ws| - 1;
      ReversedIsOutput(ws[..n]);
      ByteReverseWrites(ws[n]);
      LocalSnoc(Reversed(ws[..n]), ByteReverse(ws[n]));
      assert Reversed(ws) == Reversed(ws[..n]) + [ByteReverse(ws[n])];
    }
  }
}
