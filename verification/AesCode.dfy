/** kernel/crypto/aes.c: the key schedule, the block functions, and cipher block chaining. */
module AesCode {
  import opened CryptoWords
  import opened AesSpec
  import opened AesTables

  /** Four words as a state. */
  function Words(s0: Word, s1: Word, s2: Word, s3: Word): State {
    State(Split(s0), Split(s1), Split(s2), Split(s3))
  }

  function KeysIn(key: seq<Word>): Keys
    requires |key| == 60
  {
    (i: nat) =>
      if i < 15 then Words(key[4 * i], key[4 * i + 1], key[4 * i + 2], key[4 * i + 3])
      else Words(0, 0, 0, 0)
  }

  /** Four words from the bytes of a block: XMEMCPY and ByteReverseWord32. */
  function LoadWord(b: seq<Byte>, i: nat): (w: Word)
    requires |b| == 16 && i < 4
    ensures Split(w) == ColumnAt(b, i)
  {
    var v := WordOf(b[4 * i + 3], b[4 * i + 2], b[4 * i + 1], b[4 * i]);
    Loaded(b[4 * i], b[4 * i + 1], b[4 * i + 2], b[4 * i + 3]);
    ByteReverse(v)
  }

  lemma Loaded(a: Byte, b: Byte, c: Byte, d: Byte)
    ensures Split(ByteReverse(WordOf(d, c, b, a))) == Column(a, b, c, d)
  {
    hide ByteReverse, WordOf, ByteAt;
    var v := WordOf(d, c, b, a);
    SplitWordOf(d, c, b, a);
    ByteReverseReads(v);
    SplitWordOf(a, b, c, d);
  }

  /** The bytes of a word after ByteReverseWord32. */
  function StoreWord(w: Word): (b: seq<Byte>)
    ensures b == ColumnBytes(Split(w))
  {
    Stored(w);
    var v := ByteReverse(w);
    [ByteAt(v, 0), ByteAt(v, 1), ByteAt(v, 2), ByteAt(v, 3)]
  }

  lemma Stored(w: Word)
    ensures var v := ByteReverse(w); [ByteAt(v, 0), ByteAt(v, 1), ByteAt(v, 2), ByteAt(v, 3)] == ColumnBytes(Split(w))
  {
    ByteReverseWrites(w);
  }

  function StoreBlock(s0: Word, s1: Word, s2: Word, s3: Word): (b: seq<Byte>)
    ensures b == StateBytes(Words(s0, s1, s2, s3))
  {
    StoreWord(s0) + StoreWord(s1) + StoreWord(s2) + StoreWord(s3)
  }

  /** A full round on four words with round key words k0 to k3. */
  method MixRound(s0: Word, s1: Word, s2: Word, s3: Word, k0: Word, k1: Word, k2: Word, k3: Word)
    returns (t0: Word, t1: Word, t2: Word, t3: Word)
    ensures Words(t0, t1, t2, t3) == FullRound(Words(s0, s1, s2, s3), Words(k0, k1, k2, k3))
  {
    hide MixWord, MixColumn, ByteAt, SBox, Plus;
    t0 := MixWord(GetByte(s0, 3), GetByte(s1, 2), GetByte(s2, 1), GetByte(s3, 0), k0);
    t1 := MixWord(GetByte(s1, 3), GetByte(s2, 2), GetByte(s3, 1), GetByte(s0, 0), k1);
    t2 := MixWord(GetByte(s2, 3), GetByte(s3, 2), GetByte(s0, 1), GetByte(s1, 0), k2);
    t3 := MixWord(GetByte(s3, 3), GetByte(s0, 2), GetByte(s1, 1), GetByte(s2, 0), k3);
  }

  method InvMixRound(s0: Word, s1: Word, s2: Word, s3: Word, k0: Word, k1: Word, k2: Word, k3: Word)
    returns (t0: Word, t1: Word, t2: Word, t3: Word)
    ensures Words(t0, t1, t2, t3) == EqInvRound(Words(s0, s1, s2, s3), Words(k0, k1, k2, k3))
  {
    hide InvMixWord, InvMixColumn, ByteAt, InvSBox, Plus;
    t0 := InvMixWord(GetByte(s0, 3), GetByte(s3, 2), GetByte(s2, 1), GetByte(s1, 0), k0);
    t1 := InvMixWord(GetByte(s1, 3), GetByte(s0, 2), GetByte(s3, 1), GetByte(s2, 0), k1);
    t2 := InvMixWord(GetByte(s2, 3), GetByte(s1, 2), GetByte(s0, 1), GetByte(s3, 0), k2);
    t3 := InvMixWord(GetByte(s3, 3), GetByte(s2, 2), GetByte(s1, 1), GetByte(s0, 0), k3);
  }

  /** wc_AesEncrypt with a key that has been set up. */
  method EncryptBlock(key: seq<Word>, rounds: nat, inBlock: seq<Byte>) returns (outBlock: seq<Byte>)
    requires |key| == 60 && rounds == ROUNDS && |inBlock| == 16
    ensures |outBlock| == 16 && StateOf(outBlock) == Cipher(StateOf(inBlock), KeysIn(key))
  {
    hide Words, FullRound, AddRoundKey, ShiftRows, SubBytes, StateOf, KeysIn, Split;
    ghost var x, k := StateOf(inBlock), KeysIn(key);
    var s0, s1, s2, s3 := FirstKey(key, inBlock);
    var t0, t1, t2, t3;
    var r := rounds / 2;
    var o := 0;
    while true
      invariant 1 <= r <= 7 && o == 8 * (7 - r)
      invariant Words(s0, s1, s2, s3) == FullRounds(x, k, 2 * (7 - r))
      decreases r
    {
      KeysAt(key, 2 * (7 - r) + 1);
      t0, t1, t2, t3 := MixRound(s0, s1, s2, s3, key[o + 4], key[o + 5], key[o + 6], key[o + 7]);
      o := o + 8;
      r := r - 1;
      if r == 0 { break; }
      KeysAt(key, 2 * (7 - r));
      s0, s1, s2, s3 := MixRound(t0, t1, t2, t3, key[o], key[o + 1], key[o + 2], key[o + 3]);
    }
    KeysAt(key, ROUNDS);
    s0, s1, s2, s3 := LastRound(t0, t1, t2, t3, key[o], key[o + 1], key[o + 2], key[o + 3]);
    outBlock := StoreBlock(s0, s1, s2, s3);
  }

  lemma KeysAt(key: seq<Word>, i: nat)
    requires |key| == 60 && i < 15
    ensures KeysIn(key)(i) == Words(key[4 * i], key[4 * i + 1], key[4 * i + 2], key[4 * i + 3])
  {
  }

  /** The block is read and the first round key is added. */
  method FirstKey(key: seq<Word>, inBlock: seq<Byte>) returns (s0: Word, s1: Word, s2: Word, s3: Word)
    requires |key| == 60 && |inBlock| == 16
    ensures Words(s0, s1, s2, s3) == AddRoundKey(StateOf(inBlock), KeysIn(key)(0))
  {
    hide LoadWord, XorW, Split, ColumnAt, Plus;
    s0, s1, s2, s3 := LoadWord(inBlock, 0), LoadWord(inBlock, 1), LoadWord(inBlock, 2), LoadWord(inBlock, 3);
    SplitXor(s0, key[0]);
    SplitXor(s1, key[1]);
    SplitXor(s2, key[2]);
    SplitXor(s3, key[3]);
    s0, s1, s2, s3 := XorW(s0, key[0]), XorW(s1, key[1]), XorW(s2, key[2]), XorW(s3, key[3]);
  }

  method LastRound(s0: Word, s1: Word, s2: Word, s3: Word, k0: Word, k1: Word, k2: Word, k3: Word)
    returns (t0: Word, t1: Word, t2: Word, t3: Word)
    ensures Words(t0, t1, t2, t3)
      == AddRoundKey(ShiftRows(SubBytes(Words(s0, s1, s2, s3))), Words(k0, k1, k2, k3))
  {
    hide LastWord, ByteAt, SBox, Plus;
    t0 := LastWord(GetByte(s0, 3), GetByte(s1, 2), GetByte(s2, 1), GetByte(s3, 0), k0);
    t1 := LastWord(GetByte(s1, 3), GetByte(s2, 2), GetByte(s3, 1), GetByte(s0, 0), k1);
    t2 := LastWord(GetByte(s2, 3), GetByte(s3, 2), GetByte(s0, 1), GetByte(s1, 0), k2);
    t3 := LastWord(GetByte(s3, 3), GetByte(s0, 2), GetByte(s1, 1), GetByte(s2, 0), k3);
  }

  method InvLastRound(s0: Word, s1: Word, s2: Word, s3: Word, k0: Word, k1: Word, k2: Word, k3: Word)
    returns (t0: Word, t1: Word, t2: Word, t3: Word)
    ensures Words(t0, t1, t2, t3)
      == AddRoundKey(InvShiftRows(InvSubBytes(Words(s0, s1, s2, s3))), Words(k0, k1, k2, k3))
  {
    hide InvLastWord, ByteAt, InvSBox, Plus;
    t0 := InvLastWord(GetByte(s0, 3), GetByte(s3, 2), GetByte(s2, 1), GetByte(s1, 0), k0);
    t1 := InvLastWord(GetByte(s1, 3), GetByte(s0, 2), GetByte(s3, 1), GetByte(s2, 0), k1);
    t2 := InvLastWord(GetByte(s2, 3), GetByte(s1, 2), GetByte(s0, 1), GetByte(s3, 0), k2);
    t3 := InvLastWord(GetByte(s3, 3), GetByte(s2, 2), GetByte(s1, 1), GetByte(s0, 0), k3);
  }

  /** Round keys in the order in which decryption uses them. */
  function Backwards(k: Keys): Keys {
    (i: nat) => if i <= ROUNDS then k(ROUNDS - i) else k(i)
  }

  /** wc_AesDecrypt with a key that has been set up for decryption. */
  method DecryptBlock(key: seq<Word>, rounds: nat, inBlock: seq<Byte>) returns (outBlock: seq<Byte>)
    requires |key| == 60 && rounds == ROUNDS && |inBlock| == 16
    ensures |outBlock| == 16 && StateOf(outBlock) == EqInvCipher(StateOf(inBlock), Backwards(KeysIn(key)))
  {
    hide Words, EqInvRound, AddRoundKey, InvShiftRows, InvSubBytes, StateOf, KeysIn, Split;
    ghost var x, d := StateOf(inBlock), Backwards(KeysIn(key));
    var s0, s1, s2, s3 := FirstKey(key, inBlock);
    var t0, t1, t2, t3;
    var r := rounds / 2;
    var o := 0;
    while true
      invariant 1 <= r <= 7 && o == 8 * (7 - r)
      invariant Words(s0, s1, s2, s3) == EqInvRounds(x, d, 2 * (7 - r))
      decreases r
    {
      KeysAt(key, 2 * (7 - r) + 1);
      t0, t1, t2, t3 := InvMixRound(s0, s1, s2, s3, key[o + 4], key[o + 5], key[o + 6], key[o + 7]);
      o := o + 8;
      r := r - 1;
      if r == 0 { break; }
      KeysAt(key, 2 * (7 - r));
      s0, s1, s2, s3 := InvMixRound(t0, t1, t2, t3, key[o], key[o + 1], key[o + 2], key[o + 3]);
    }
    KeysAt(key, ROUNDS);
    s0, s1, s2, s3 := InvLastRound(t0, t1, t2, t3, key[o], key[o + 1], key[o + 2], key[o + 3]);
    outBlock := StoreBlock(s0, s1, s2, s3);
  }
}
