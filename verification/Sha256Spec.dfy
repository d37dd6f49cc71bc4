/** SHA-256 as FIPS 180-4 defines it (sections 2.2.2, 3.2, 4.1.2, 4.2.2, 5.1.1, 5.3.3 and 6.2). */
module Sha256Spec {
  import opened Machine
  import opened CryptoWords

  function K(t: nat): Word
    requires t < 64
  {
    Constants(t / 8)[t % 8]
  }

  /** The constants of section 4.2.2, eight to a row. */
  function Constants(row: nat): (k: seq<Word>)
    requires row < 8
    ensures |k| == 8
  {
    if row == 0 then [0x428a2f98, 0x71374491, 0xb5c0fbcf, 0xe9b5dba5, 0x3956c25b, 0x59f111f1, 0x923f82a4, 0xab1c5ed5]
    else if row == 1 then [0xd807aa98, 0x12835b01, 0x243185be, 0x550c7dc3, 0x72be5d74, 0x80deb1fe, 0x9bdc06a7, 0xc19bf174]
    else if row == 2 then [0xe49b69c1, 0xefbe4786, 0x0fc19dc6, 0x240ca1cc, 0x2de92c6f, 0x4a7484aa, 0x5cb0a9dc, 0x76f988da]
    else if row == 3 then [0x983e5152, 0xa831c66d, 0xb00327c8, 0xbf597fc7, 0xc6e00bf3, 0xd5a79147, 0x06ca6351, 0x14292967]
    else if row == 4 then [0x27b70a85, 0x2e1b2138, 0x4d2c6dfc, 0x53380d13, 0x650a7354, 0x766a0abb, 0x81c2c92e, 0x92722c85]
    else if row == 5 then [0xa2bfe8a1, 0xa81a664b, 0xc24b8b70, 0xc76c51a3, 0xd192e819, 0xd6990624, 0xf40e3585, 0x106aa070]
    else if row == 6 then [0x19a4c116, 0x1e376c08, 0x2748774c, 0x34b0bcb5, 0x391c0cb3, 0x4ed8aa4a, 0x5b9cca4f, 0x682e6ff3]
    else [0x748f82ee, 0x78a5636f, 0x84c87814, 0x8cc70208, 0x90befffa, 0xa4506ceb, 0xbef9a3f7, 0xc67178f2]
  }

  function Initial(): (h: seq<Word>)
    ensures |h| == 8
  {
    [0x6a09e667, 0xbb67ae85, 0x3c6ef372, 0xa54ff53a, 0x510e527f, 0x9b05688c, 0x1f83d9ab, 0x5be0cd19]
  }

  function Ch(x: Word, y: Word, z: Word): Word { (x & y) ^ (!x & z) }

  function Maj(x: Word, y: Word, z: Word): Word { (x & y) ^ (x & z) ^ (y & z) }

  function Xor(x: Word, y: Word, z: Word): Word { x ^ y ^ z }

  function BigSigma0(x: Word): Word { Xor(x.RotateRight(2), x.RotateRight(13), x.RotateRight(22)) }

  function BigSigma1(x: Word): Word { Xor(x.RotateRight(6), x.RotateRight(11), x.RotateRight(25)) }

  function SmallSigma0(x: Word): Word { Xor(x.RotateRight(7), x.RotateRight(18), x >> 3) }

  function SmallSigma1(x: Word): Word { Xor(x.RotateRight(17), x.RotateRight(19), x >> 10) }

  /** Addition modulo 2^32. */
  function Add(x: Word, y: Word): Word { x + y }

  function Next(w2: Word, w7: Word, w15: Word, w16: Word): Word {
    Add(Add(Add(SmallSigma1(w2), w7), SmallSigma0(w15)), w16)
  }

  /** The message schedule. */
  function Schedule(m: seq<Word>, t: nat): Word
    requires |m| == 16
  {
    if t < 16 then m[t]
    else Next(Schedule(m, t - 2), Schedule(m, t - 7), Schedule(m, t - 15), Schedule(m, t - 16))
  }

  /** The eight working variables. */
  datatype Working = Working(a: Word, b: Word, c: Word, d: Word, e: Word, f: Word, g: Word, h: Word)

  function Round(s: Working, k: Word, w: Word): Working {
    var t1 := Add(Add(Add(Add(s.h, BigSigma1(s.e)), Ch(s.e, s.f, s.g)), k), w);
    var t2 := Add(BigSigma0(s.a), Maj(s.a, s.b, s.c));
    Working(Add(t1, t2), s.a, s.b, s.c, Add(s.d, t1), s.e, s.f, s.g)
  }

  function Rounds(s: Working, m: seq<Word>, t: nat): Working
    requires |m| == 16 && t <= 64
  {
    if t == 0 then s else Round(Rounds(s, m, t - 1), K(t - 1), Schedule(m, t - 1))
  }

  function WorkingOf(h: seq<Word>): Working
    requires |h| == 8
  {
    Working(h[0], h[1], h[2], h[3], h[4], h[5], h[6], h[7])
  }

  function AddTo(s: Working, h: seq<Word>): (r: seq<Word>)
    requires |h| == 8
    ensures |r| == 8
  {
    [Add(s.a, h[0]), Add(s.b, h[1]), Add(s.c, h[2]), Add(s.d, h[3]),
     Add(s.e, h[4]), Add(s.f, h[5]), Add(s.g, h[6]), Add(s.h, h[7])]
  }

  function Compress(h: seq<Word>, m: seq<Word>): (r: seq<Word>)
    requires |h| == 8 && |m| == 16
    ensures |r| == 8
  {
    AddTo(Rounds(WorkingOf(h), m, 64), h)
  }

  function Parse(block: seq<Byte>): (m: seq<Word>)
    requires |block| == 64
    ensures |m| == 16
  {
    seq(16, i requires 0 <= i < 16 => WordOf(block[4 * i], block[4 * i + 1], block[4 * i + 2], block[4 * i + 3]))
  }

  /** The hash value after the blocks of a padded message. */
  function HashBlocks(m: seq<Byte>): (h: seq<Word>)
    requires |m| % 64 == 0
    ensures |h| == 8
  {
    if m == [] then Initial() else Compress(HashBlocks(m[..|m| - 64]), Parse(m[|m| - 64..]))
  }

  function Zeros(n: nat): (z: seq<Byte>)
    ensures |z| == n
  {
    seq(n, _ => 0)
  }

  /** The number of zero bytes in the padding of n bytes. */
  function ZeroCount(n: nat): (k: nat)
    ensures k < 64 && (n + 1 + k) % 64 == 56
  {
    (119 - n % 64) % 64
  }

  /** The length in bits as a 64-bit number, high word first. */
  function LengthWords(n: nat): (l: seq<Word>)
    ensures |l| == 2
  {
    [((8 * n / WORD) % WORD) as Word, ((8 * n) % WORD) as Word]
  }

  lemma Fills(n: nat)
    requires n % 64 == 56
    ensures (n + 8) % 64 == 0
  {
  }

  function PadFront(m: seq<Byte>): (p: seq<Byte>)
    ensures |p| % 64 == 56
  {
    m + [0x80] + Zeros(ZeroCount(|m|))
  }

  function Pad(m: seq<Byte>): (p: seq<Byte>)
    ensures |p| % 64 == 0
  {
    var l := LengthWords(|m|);
    Fills(|PadFront(m)|);
    PadFront(m) + (BytesOf(l[0]) + BytesOf(l[1]))
  }

  function OutputBytes(h: seq<Word>): (b: seq<Byte>)
    ensures |b| == 4 * |h|
  {
    if h == [] then [] else OutputBytes(h[..|h| - 1]) + BytesOf(h[|h| - 1])
  }

  function Digest(m: seq<Byte>): (d: seq<Byte>)
    ensures |d| == 32
  {
    OutputBytes(HashBlocks(Pad(m)))
  }
}
