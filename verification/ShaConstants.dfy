/** Where the constants of FIPS 180-4 come from (sections 4.2.2 and 5.3.3). */
module ShaConstants {
  import opened Machine
  import opened CryptoWords
  import opened Sha256Spec

  /** The first sixty-four prime numbers, eight to a row. */
  function Primes(row: nat): (p: seq<nat>)
    requires row < 8
    ensures |p| == 8 && forall i :: 0 <= i < 8 ==> 0 < p[i] < 343
  {
    if row == 0 then [2, 3, 5, 7, 11, 13, 17, 19]
    else if row == 1 then [23, 29, 31, 37, 41, 43, 47, 53]
    else if row == 2 then [59, 61, 67, 71, 73, 79, 83, 89]
    else if row == 3 then [97, 101, 103, 107, 109, 113, 127, 131]
    else if row == 4 then [137, 139, 149, 151, 157, 163, 167, 173]
    else if row == 5 then [179, 181, 191, 193, 197, 199, 211, 223]
    else if row == 6 then [227, 229, 233, 239, 241, 251, 257, 263]
    else [269, 271, 277, 281, 283, 293, 307, 311]
  }

  function Prime(n: nat): (p: nat)
    requires n < 64
    ensures 0 < p < 343
  {
    Primes(n / 8)[n % 8]
  }

  function Square(x: nat): nat { x * x }

  function Cube(x: nat): nat { x * x * x }

  /** f are the first 32 bits behind the point of the square root of p, which is w.f. */
  predicate SquareRoot(p: nat, w: nat, f: Word) {
    var r := w * WORD + f as nat;
    Square(r) <= p * Square(WORD) < Square(r + 1)
  }

  /** f are the first 32 bits behind the point of the cube root of p, which is w.f. */
  predicate CubeRoot(p: nat, w: nat, f: Word) {
    var r := w * WORD + f as nat;
    Cube(r) <= p * Cube(WORD) < Cube(r + 1)
  }

  /** The number in front of the point. */
  function WholeCubeRoot(p: nat): (w: nat)
    requires 0 < p < 343
    ensures Cube(w) <= p < Cube(w + 1)
  {
    if p < 8 then 1 else if p < 27 then 2 else if p < 64 then 3 else if p < 125 then 4 else if p < 216 then 5 else 6
  }

  /** The words in Initial are the fractional parts of the square roots of the first eight primes. */
  lemma InitialIsRoots()
    ensures SquareRoot(Prime(0), 1, Initial()[0])
    ensures SquareRoot(Prime(1), 1, Initial()[1])
    ensures SquareRoot(Prime(2), 2, Initial()[2])
    ensures SquareRoot(Prime(3), 2, Initial()[3])
    ensures SquareRoot(Prime(4), 3, Initial()[4])
    ensures SquareRoot(Prime(5), 3, Initial()[5])
    ensures SquareRoot(Prime(6), 4, Initial()[6])
    ensures SquareRoot(Prime(7), 4, Initial()[7])
  {
  }

  lemma Row0()
    ensures CubeRoot(Primes(0)[0], WholeCubeRoot(Primes(0)[0]), Constants(0)[0])
    ensures CubeRoot(Primes(0)[1], WholeCubeRoot(Primes(0)[1]), Constants(0)[1])
    ensures CubeRoot(Primes(0)[2], WholeCubeRoot(Primes(0)[2]), Constants(0)[2])
    ensures CubeRoot(Primes(0)[3], WholeCubeRoot(Primes(0)[3]), Constants(0)[3])
    ensures CubeRoot(Primes(0)[4], WholeCubeRoot(Primes(0)[4]), Constants(0)[4])
    ensures CubeRoot(Primes(0)[5], WholeCubeRoot(Primes(0)[5]), Constants(0)[5])
    ensures CubeRoot(Primes(0)[6], WholeCubeRoot(Primes(0)[6]), Constants(0)[6])
    ensures CubeRoot(Primes(0)[7], WholeCubeRoot(Primes(0)[7]), Constants(0)[7])
  {
  }

  lemma Row1()
    ensures CubeRoot(Primes(1)[0], WholeCubeRoot(Primes(1)[0]), Constants(1)[0])
    ensures CubeRoot(Primes(1)[1], WholeCubeRoot(Primes(1)[1]), Constants(1)[1])
    ensures CubeRoot(Primes(1)[2], WholeCubeRoot(Primes(1)[2]), Constants(1)[2])
    ensures CubeRoot(Primes(1)[3], WholeCubeRoot(Primes(1)[3]), Constants(1)[3])
    ensures CubeRoot(Primes(1)[4], WholeCubeRoot(Primes(1)[4]), Constants(1)[4])
    ensures CubeRoot(Primes(1)[5], WholeCubeRoot(Primes(1)[5]), Constants(1)[5])
    ensures CubeRoot(Primes(1)[6], WholeCubeRoot(Primes(1)[6]), Constants(1)[6])
    ensures CubeRoot(Primes(1)[7], WholeCubeRoot(Primes(1)[7]), Constants(1)[7])
  {
  }

  lemma Row2()
    ensures CubeRoot(Primes(2)[0], WholeCubeRoot(Primes(2)[0]), Constants(2)[0])
    ensures CubeRoot(Primes(2)[1], WholeCubeRoot(Primes(2)[1]), Constants(2)[1])
    ensures CubeRoot(Primes(2)[2], WholeCubeRoot(Primes(2)[2]), Constants(2)[2])
    ensures CubeRoot(Primes(2)[3], WholeCubeRoot(Primes(2)[3]), Constants(2)[3])
    ensures CubeRoot(Primes(2)[4], WholeCubeRoot(Primes(2)[4]), Constants(2)[4])
    ensures CubeRoot(Primes(2)[5], WholeCubeRoot(Primes(2)[5]), Constants(2)[5])
    ensures CubeRoot(Primes(2)[6], WholeCubeRoot(Primes(2)[6]), Constants(2)[6])
    ensures CubeRoot(Primes(2)[7], WholeCubeRoot(Primes(2)[7]), Constants(2)[7])
  {
  }

  lemma Row3()
    ensures CubeRoot(Primes(3)[0], WholeCubeRoot(Primes(3)[0]), Constants(3)[0])
    ensures CubeRoot(Primes(3)[1], WholeCubeRoot(Primes(3)[1]), Constants(3)[1])
    ensures CubeRoot(Primes(3)[2], WholeCubeRoot(Primes(3)[2]), Constants(3)[2])
    ensures CubeRoot(Primes(3)[3], WholeCubeRoot(Primes(3)[3]), Constants(3)[3])
    ensures CubeRoot(Primes(3)[4], WholeCubeRoot(Primes(3)[4]), Constants(3)[4])
    ensures CubeRoot(Primes(3)[5], WholeCubeRoot(Primes(3)[5]), Constants(3)[5])
    ensures CubeRoot(Primes(3)[6], WholeCubeRoot(Primes(3)[6]), Constants(3)[6])
    ensures CubeRoot(Primes(3)[7], WholeCubeRoot(Primes(3)[7]), Constants(3)[7])
  {
  }

  lemma Row4()
    ensures CubeRoot(Primes(4)[0], WholeCubeRoot(Primes(4)[0]), Constants(4)[0])
    ensures CubeRoot(Primes(4)[1], WholeCubeRoot(Primes(4)[1]), Constants(4)[1])
    ensures CubeRoot(Primes(4)[2], WholeCubeRoot(Primes(4)[2]), Constants(4)[2])
    ensures CubeRoot(Primes(4)[3], WholeCubeRoot(Primes(4)[3]), Constants(4)[3])
    ensures CubeRoot(Primes(4)[4], WholeCubeRoot(Primes(4)[4]), Constants(4)[4])
    ensures CubeRoot(Primes(4)[5], WholeCubeRoot(Primes(4)[5]), Constants(4)[5])
    ensures CubeRoot(Primes(4)[6], WholeCubeRoot(Primes(4)[6]), Constants(4)[6])
    ensures CubeRoot(Primes(4)[7], WholeCubeRoot(Primes(4)[7]), Constants(4)[7])
  {
  }

  lemma Row5()
    ensures CubeRoot(Primes(5)[0], WholeCubeRoot(Primes(5)[0]), Constants(5)[0])
    ensures CubeRoot(Primes(5)[1], WholeCubeRoot(Primes(5)[1]), Constants(5)[1])
    ensures CubeRoot(Primes(5)[2], WholeCubeRoot(Primes(5)[2]), Constants(5)[2])
    ensures CubeRoot(Primes(5)[3], WholeCubeRoot(Primes(5)[3]), Constants(5)[3])
    ensures CubeRoot(Primes(5)[4], WholeCubeRoot(Primes(5)[4]), Constants(5)[4])
    ensures CubeRoot(Primes(5)[5], WholeCubeRoot(Primes(5)[5]), Constants(5)[5])
    ensures CubeRoot(Primes(5)[6], WholeCubeRoot(Primes(5)[6]), Constants(5)[6])
    ensures CubeRoot(Primes(5)[7], WholeCubeRoot(Primes(5)[7]), Constants(5)[7])
  {
  }

  lemma Row6()
    ensures CubeRoot(Primes(6)[0], WholeCubeRoot(Primes(6)[0]), Constants(6)[0])
    ensures CubeRoot(Primes(6)[1], WholeCubeRoot(Primes(6)[1]), Constants(6)[1])
    ensures CubeRoot(Primes(6)[2], WholeCubeRoot(Primes(6)[2]), Constants(6)[2])
    ensures CubeRoot(Primes(6)[3], WholeCubeRoot(Primes(6)[3]), Constants(6)[3])
    ensures CubeRoot(Primes(6)[4], WholeCubeRoot(Primes(6)[4]), Constants(6)[4])
    ensures CubeRoot(Primes(6)[5], WholeCubeRoot(Primes(6)[5]), Constants(6)[5])
    ensures CubeRoot(Primes(6)[6], WholeCubeRoot(Primes(6)[6]), Constants(6)[6])
    ensures CubeRoot(Primes(6)[7], WholeCubeRoot(Primes(6)[7]), Constants(6)[7])
  {
  }

  lemma Row7()
    ensures CubeRoot(Primes(7)[0], WholeCubeRoot(Primes(7)[0]), Constants(7)[0])
    ensures CubeRoot(Primes(7)[1], WholeCubeRoot(Primes(7)[1]), Constants(7)[1])
    ensures CubeRoot(Primes(7)[2], WholeCubeRoot(Primes(7)[2]), Constants(7)[2])
    ensures CubeRoot(Primes(7)[3], WholeCubeRoot(Primes(7)[3]), Constants(7)[3])
    ensures CubeRoot(Primes(7)[4], WholeCubeRoot(Primes(7)[4]), Constants(7)[4])
    ensures CubeRoot(Primes(7)[5], WholeCubeRoot(Primes(7)[5]), Constants(7)[5])
    ensures CubeRoot(Primes(7)[6], WholeCubeRoot(Primes(7)[6]), Constants(7)[6])
    ensures CubeRoot(Primes(7)[7], WholeCubeRoot(Primes(7)[7]), Constants(7)[7])
  {
  }

  /** The constants K are the fractional parts of the cube roots of the first sixty-four primes. */
  lemma ConstantsAreRoots(t: nat)
    requires t < 64
    ensures CubeRoot(Prime(t), WholeCubeRoot(Prime(t)), K(t))
  {
    var row, i := t / 8, t % 8;
    if row == 0 { Row0(); }
    else if row == 1 { Row1(); }
    else if row == 2 { Row2(); }
    else if row == 3 { Row3(); }
    else if row == 4 { Row4(); }
    else if row == 5 { Row5(); }
    else if row == 6 { Row6(); }
    else { Row7(); }
    hide CubeRoot, Cube, Primes, Constants, WholeCubeRoot;
  }
}
