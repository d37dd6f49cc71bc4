/** What the byte operations rest on, stated on the operators alone. */
module WordFacts {
  lemma Xor0Fact(x: bv32, y: bv32)
    ensures ((x ^ y) & 0xff) as bv8 == (x & 0xff) as bv8 ^ (y & 0xff) as bv8
  {
  }

  lemma Xor1Fact(x: bv32, y: bv32)
    ensures (((x ^ y) >> 8) & 0xff) as bv8 == ((x >> 8) & 0xff) as bv8 ^ ((y >> 8) & 0xff) as bv8
  {
  }

  lemma Xor2Fact(x: bv32, y: bv32)
    ensures (((x ^ y) >> 16) & 0xff) as bv8 == ((x >> 16) & 0xff) as bv8 ^ ((y >> 16) & 0xff) as bv8
  {
  }

  lemma Xor3Fact(x: bv32, y: bv32)
    ensures (((x ^ y) >> 24) & 0xff) as bv8 == ((x >> 24) & 0xff) as bv8 ^ ((y >> 24) & 0xff) as bv8
  {
  }

  lemma Byte0Facts(w: bv32, b: bv8)
    ensures (((w & 0xffffff00) | ((b as bv32))) & 0xff) == b as bv32
    ensures ((((w & 0xffffff00) | ((b as bv32))) >> 8) & 0xff) == ((w >> 8) & 0xff)
    ensures ((((w & 0xffffff00) | ((b as bv32))) >> 16) & 0xff) == ((w >> 16) & 0xff)
    ensures ((((w & 0xffffff00) | ((b as bv32))) >> 24) & 0xff) == ((w >> 24) & 0xff)
  {
  }

  lemma Byte1Facts(w: bv32, b: bv8)
    ensures (((w & 0xffff00ff) | ((b as bv32) << 8)) & 0xff) == (w & 0xff)
    ensures ((((w & 0xffff00ff) | ((b as bv32) << 8)) >> 8) & 0xff) == b as bv32
    ensures ((((w & 0xffff00ff) | ((b as bv32) << 8)) >> 16) & 0xff) == ((w >> 16) & 0xff)
    ensures ((((w & 0xffff00ff) | ((b as bv32) << 8)) >> 24) & 0xff) == ((w >> 24) & 0xff)
  {
  }

  lemma Byte2Facts(w: bv32, b: bv8)
    ensures (((w & 0xff00ffff) | ((b as bv32) << 16)) & 0xff) == (w & 0xff)
    ensures ((((w & 0xff00ffff) | ((b as bv32) << 16)) >> 8) & 0xff) == ((w >> 8) & 0xff)
    ensures ((((w & 0xff00ffff) | ((b as bv32) << 16)) >> 16) & 0xff) == b as bv32
    ensures ((((w & 0xff00ffff) | ((b as bv32) << 16)) >> 24) & 0xff) == ((w >> 24) & 0xff)
  {
  }

  lemma Byte3Facts(w: bv32, b: bv8)
    ensures (((w & 0x00ffffff) | ((b as bv32) << 24)) & 0xff) == (w & 0xff)
    ensures ((((w & 0x00ffffff) | ((b as bv32) << 24)) >> 8) & 0xff) == ((w >> 8) & 0xff)
    ensures ((((w & 0x00ffffff) | ((b as bv32) << 24)) >> 16) & 0xff) == ((w >> 16) & 0xff)
    ensures ((((w & 0x00ffffff) | ((b as bv32) << 24)) >> 24) & 0xff) == b as bv32
  {
  }
}

/** Words in memory and the word operations of kernel/crypto/misc.c. */
module CryptoWords {
  import WordFacts

  type Word = bv32
  type Byte = bv8

  /** Bytes make up words with the most significant byte first. */
  function WordOf(a: Byte, b: Byte, c: Byte, d: Byte): Word {
    ((a as Word) << 24) | ((b as Word) << 16) | ((c as Word) << 8) | (d as Word)
  }

  function BytesOf(w: Word): (b: seq<Byte>)
    ensures |b| == 4
  {
    [((w >> 24) & 0xff) as Byte, ((w >> 16) & 0xff) as Byte, ((w >> 8) & 0xff) as Byte, (w & 0xff) as Byte]
  }

  lemma WordOfBytes(w: Word)
    ensures var b := BytesOf(w); WordOf(b[0], b[1], b[2], b[3]) == w
  {
  }

  /** rotrFixed */
  function RotrFixed(x: Word, y: Word): Word
    requires 0 < y < 32
  {
    (x >> y) | (x << (32 - y))
  }

  function RotlFixed(x: Word, y: Word): Word
    requires 0 < y < 32
  {
    (x << y) | (x >> (32 - y))
  }

  /** ByteReverseWord32 */
  function ByteReverse(value: Word): Word {
    var v := ((value & 0xFF00FF00) >> 8) | ((value & 0x00FF00FF) << 8);
    RotlFixed(v, 16)
  }

  /** Byte k of a word in memory: the machine puts the least significant byte first. */
  function ByteAt(w: Word, k: nat): Byte
    requires k < 4
  {
    if k == 0 then (w & 0xff) as Byte
    else if k == 1 then ((w >> 8) & 0xff) as Byte
    else if k == 2 then ((w >> 16) & 0xff) as Byte
    else ((w >> 24) & 0xff) as Byte
  }

  function SetByte(w: Word, k: nat, b: Byte): Word
    requires k < 4
  {
    if k == 0 then (w & 0xffffff00) | (b as Word)
    else if k == 1 then (w & 0xffff00ff) | ((b as Word) << 8)
    else if k == 2 then (w & 0xff00ffff) | ((b as Word) << 16)
    else (w & 0x00ffffff) | ((b as Word) << 24)
  }

  lemma SetByteAt(w: Word, k: nat, b: Byte, i: nat)
    requires k < 4 && i < 4
    ensures ByteAt(SetByte(w, k, b), i) == if i == k then b else ByteAt(w, i)
  {
    if k == 0 { WordFacts.Byte0Facts(w, b); }
    else if k == 1 { WordFacts.Byte1Facts(w, b); }
    else if k == 2 { WordFacts.Byte2Facts(w, b); }
    else { WordFacts.Byte3Facts(w, b); }
  }

  /** Reversing the bytes of a word turns it into what the standard reads from memory. */
  lemma ByteReverseReads(w: Word)
    ensures ByteReverse(w) == WordOf(ByteAt(w, 0), ByteAt(w, 1), ByteAt(w, 2), ByteAt(w, 3))
    ensures ByteReverse(ByteReverse(w)) == w
  {
  }

  /** Reversed and put into memory, a word is written as the standard wants it. */
  lemma ByteReverseWrites(w: Word)
    ensures var v := ByteReverse(w); [ByteAt(v, 0), ByteAt(v, 1), ByteAt(v, 2), ByteAt(v, 3)] == BytesOf(w)
  {
  }

  /** The byte view of words in memory. */
  ghost function Local(ws: seq<Word>): (b: seq<Byte>)
    ensures |b| == 4 * |ws|
  {
    seq(4 * |ws|, k requires 0 <= k < 4 * |ws| => ByteAt(ws[k / 4], k % 4))
  }

  function PutByte(ws: seq<Word>, k: nat, b: Byte): (r: seq<Word>)
    requires k < 4 * |ws|
    ensures |r| == |ws|
  {
    ws[k / 4 := SetByte(ws[k / 4], k % 4, b)]
  }

  /** Writing a byte changes that byte only. */
  lemma PutByteLocal(ws: seq<Word>, k: nat, b: Byte)
    requires k < 4 * |ws|
    ensures Local(PutByte(ws, k, b)) == Local(ws)[k := b]
  {
    var r := PutByte(ws, k, b);
    forall i | 0 <= i < 4 * |ws| ensures Local(r)[i] == Local(ws)[k := b][i] {
      if i / 4 == k / 4 {
        SetByteAt(ws[k / 4], k % 4, b, i % 4);
        assert i == 4 * (i / 4) + i % 4 && k == 4 * (k / 4) + k % 4;
      }
    }
  }

  ghost function Reversed(ws: seq<Word>): (r: seq<Word>)
    ensures |r| == |ws|
  {
    seq(|ws|, i requires 0 <= i < |ws| => ByteReverse(ws[i]))
  }

  lemma LocalAt(ws: seq<Word>, i: nat, k: nat)
    requires i < |ws| && k < 4
    ensures Local(ws)[4 * i + k] == ByteAt(ws[i], k)
  {
    assert (4 * i + k) / 4 == i && (4 * i + k) % 4 == k;
  }

  lemma ReadWord(ws: seq<Word>, i: nat)
    requires i < |ws|
    ensures var b := Local(ws); WordOf(b[4 * i], b[4 * i + 1], b[4 * i + 2], b[4 * i + 3]) == ByteReverse(ws[i])
  {
    ByteReverseReads(ws[i]);
    LocalAt(ws, i, 0);
    LocalAt(ws, i, 1);
    LocalAt(ws, i, 2);
    LocalAt(ws, i, 3);
  }

  lemma LocalSnoc(ws: seq<Word>, w: Word)
    ensures Local(ws + [w]) == Local(ws) + [ByteAt(w, 0), ByteAt(w, 1), ByteAt(w, 2), ByteAt(w, 3)]
  {
    var n := |ws|;
    LocalAt(ws + [w], n, 0);
    LocalAt(ws + [w], n, 1);
    LocalAt(ws + [w], n, 2);
    LocalAt(ws + [w], n, 3);
  }

  /** ByteReverseWords with the same words in and out. */
  method ByteReverseWords(words: array<Word>, byteCount: nat)
    requires byteCount <= 4 * words.Length
    modifies words
    ensures var count := byteCount / 4;
      words[..] == Reversed(old(words[..])[..count]) + old(words[..])[count..]
  {
    var count := byteCount / 4;
    for i := 0 to count
      invariant forall k :: 0 <= k < i ==> words[k] == ByteReverse(old(words[k]))
      invariant forall k :: i <= k < words.Length ==> words[k] == old(words[k])
    {
      words[i] := ByteReverse(words[i]);
    }
  }

  method StoreByte(words: array<Word>, k: nat, b: Byte)
    requires k < 4 * words.Length
    modifies words
    ensures Local(words[..]) == old(Local(words[..]))[k := b]
  {
    PutByteLocal(words[..], k, b);
    ghost var before := words[..];
    words[k / 4] := SetByte(words[k / 4], k % 4, b);
    assert words[..] == PutByte(before, k, b);
  }

  lemma StoreStep(was: seq<Byte>, at: nat, data: seq<Byte>, i: nat)
    requires at + |data| <= |was| && i < |data|
    ensures (was[..at] + data[..i] + was[at + i..])[at + i := data[i]] == was[..at] + data[..i + 1] + was[at + i + 1..]
  {
  }

  /** XMEMCPY and XMEMSET into the byte view of words, from byte at on. */
  method StoreBytes(words: array<Word>, at: nat, data: seq<Byte>)
    requires at + |data| <= 4 * words.Length
    modifies words
    ensures Local(words[..]) == old(Local(words[..]))[..at] + data + old(Local(words[..]))[at + |data|..]
  {
    hide Local;
    ghost var was := Local(words[..]);
    for i := 0 to |data|
      invariant Local(words[..]) == was[..at] + data[..i] + was[at + i..]
    {
      StoreByte(words, at + i, data[i]);
      StoreStep(was, at, data, i);
    }
    assert data[..|data|] == data;
  }
}
