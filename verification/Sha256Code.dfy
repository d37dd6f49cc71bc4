/**
 * kernel/crypto/sha256.c: the hash as it is computed, piece by piece.
 */
module Sha256Code {
  import opened Machine
  import opened Sequences
  import opened CryptoWords
  import opened Sha256Spec
  import opened Sha256Words

  /** The working variables where round r of eight finds them: S[-r], S[1-r], ... */
  ghost function Regs(s: array<Word>, a: nat, b: nat, c: nat, d: nat, e: nat, f: nat, g: nat, h: nat): Working
    requires s.Length == 8 && a < 8 && b < 8 && c < 8 && d < 8 && e < 8 && f < 8 && g < 8 && h < 8
    reads s
  {
    Working(s[a], s[b], s[c], s[d], s[e], s[f], s[g], s[h])
  }

  /** The macro RND: one round, which leaves six of the variables where they are. */
  method Rnd(s: array<Word>, w: Word, k: Word, a: nat, b: nat, c: nat, d: nat, e: nat, f: nat, g: nat, h: nat)
    requires s.Length == 8 && a < 8 && b < 8 && c < 8 && d < 8 && e < 8 && f < 8 && g < 8 && h < 8
    requires d != a && d != b && d != c && d != e && d != f && d != g && d != h
    requires h != a && h != b && h != c && h != e && h != f && h != g
    modifies s
    ensures Regs(s, h, a, b, c, d, e, f, g) == Round(old(Regs(s, a, b, c, d, e, f, g, h)), k, w)
  {
    var t0 := Add(Add(Add(Add(s[h], BigSigma1Code(s[e])), ChCode(s[e], s[f], s[g])), k), w);
    var t1 := Add(BigSigma0Code(s[a]), MajCode(s[a], s[b], s[c]));
    s[d] := Add(s[d], t0);
    s[h] := Add(t0, t1);
  }

  /** sha256.c:78-82 */
  method Expand(w: array<Word>, m: array<Word>)
    requires w.Length == 64 && m.Length == 16 && w != m
    modifies w
    ensures forall t :: 0 <= t < 64 ==> w[t] == Schedule(m[..], t)
  {
    for i := 0 to 16
      invariant forall t :: 0 <= t < i ==> w[t] == m[t]
    {
      w[i] := m[i];
    }
    for i := 16 to 64
      invariant forall t :: 0 <= t < i ==> w[t] == Schedule(m[..], t)
    {
      w[i] := Add(Add(Add(SmallSigma1Code(w[i - 2]), w[i - 7]), SmallSigma0Code(w[i - 15])), w[i - 16]);
    }
  }

  method EightRounds(s: array<Word>, w: array<Word>, ghost m: seq<Word>, i: nat, ghost start: Working)
    requires s.Length == 8 && w.Length == 64 && |m| == 16 && i + 8 <= 64 && s != w
    requires forall t :: 0 <= t < 64 ==> w[t] == Schedule(m, t)
    requires Regs(s, 0, 1, 2, 3, 4, 5, 6, 7) == Rounds(start, m, i)
    modifies s
    ensures Regs(s, 0, 1, 2, 3, 4, 5, 6, 7) == Rounds(start, m, i + 8)
  {
    hide K, Schedule;
    Rnd(s, w[i], K(i), 0, 1, 2, 3, 4, 5, 6, 7);
    assert Regs(s, 7, 0, 1, 2, 3, 4, 5, 6) == Rounds(start, m, i + 1);
    Rnd(s, w[i + 1], K(i + 1), 7, 0, 1, 2, 3, 4, 5, 6);
    assert Regs(s, 6, 7, 0, 1, 2, 3, 4, 5) == Rounds(start, m, i + 2);
    Rnd(s, w[i + 2], K(i + 2), 6, 7, 0, 1, 2, 3, 4, 5);
    assert Regs(s, 5, 6, 7, 0, 1, 2, 3, 4) == Rounds(start, m, i + 3);
    Rnd(s, w[i + 3], K(i + 3), 5, 6, 7, 0, 1, 2, 3, 4);
    assert Regs(s, 4, 5, 6, 7, 0, 1, 2, 3) == Rounds(start, m, i + 4);
    Rnd(s, w[i + 4], K(i + 4), 4, 5, 6, 7, 0, 1, 2, 3);
    assert Regs(s, 3, 4, 5, 6, 7, 0, 1, 2) == Rounds(start, m, i + 5);
    Rnd(s, w[i + 5], K(i + 5), 3, 4, 5, 6, 7, 0, 1, 2);
    assert Regs(s, 2, 3, 4, 5, 6, 7, 0, 1) == Rounds(start, m, i + 6);
    Rnd(s, w[i + 6], K(i + 6), 2, 3, 4, 5, 6, 7, 0, 1);
    assert Regs(s, 1, 2, 3, 4, 5, 6, 7, 0) == Rounds(start, m, i + 7);
    Rnd(s, w[i + 7], K(i + 7), 1, 2, 3, 4, 5, 6, 7, 0);
  }

  /** sha256.c:84-93 */
  method AllRounds(s: array<Word>, w: array<Word>, ghost m: seq<Word>, ghost start: Working)
    requires s.Length == 8 && w.Length == 64 && |m| == 16 && s != w
    requires forall t :: 0 <= t < 64 ==> w[t] == Schedule(m, t)
    requires Regs(s, 0, 1, 2, 3, 4, 5, 6, 7) == start
    modifies s
    ensures Regs(s, 0, 1, 2, 3, 4, 5, 6, 7) == Rounds(start, m, 64)
  {
    hide K, Schedule;
    var i := 0;
    ghost var n := 0;
    while i < 64
      invariant i == 8 * n && n <= 8
      invariant Regs(s, 0, 1, 2, 3, 4, 5, 6, 7) == Rounds(start, m, i)
    {
      EightRounds(s, w, m, i, start);
      i, n := i + 8, n + 1;
    }
  }

  const TWO64: nat := 0x1_0000_0000_0000_0000

  class Sha256 {
    var buffLen: nat
    var loLen: nat
    var hiLen: nat
    const digest: array<Word>
    const buffer: array<Word>

    ghost predicate Valid()
      reads this
    {
      digest.Length == 8 && buffer.Length == 16 && digest != buffer && loLen < WORD && hiLen < WORD
    }

    /** The last n bytes of m are in the buffer, all before them are in the digest. */
    ghost predicate Holds(m: seq<Byte>, n: nat)
      reads this, digest, buffer
    {
      && Valid() && n <= 64 && n <= |m| && (|m| - n) % 64 == 0
      && digest[..] == HashBlocks(m[..|m| - n]) && Local(buffer[..])[..n] == m[|m| - n..]
    }

    /** The last block of m is in the buffer as words, all before it is in the digest: Transform has failed. */
    ghost predicate Stalled(m: seq<Byte>)
      reads this, digest, buffer
    {
      && Valid() && |m| >= 64 && |m| % 64 == 0
      && digest[..] == HashBlocks(m[..|m| - 64]) && buffer[..] == Parse(m[|m| - 64..])
    }

    /** The length counts so many bytes, modulo 2^64. */
    ghost predicate Counts(n: nat)
      reads this
    {
      hiLen * WORD + loLen == n % TWO64
    }

    /** The bytes m have been hashed so far. */
    ghost predicate Absorbed(m: seq<Byte>)
      reads this, digest, buffer
    {
      buffLen < 64 && Holds(m, buffLen) && Counts(|m| - buffLen)
    }

    constructor ()
      ensures Valid() && fresh(digest) && fresh(buffer)
    {
      digest := new Word[8];
      buffer := new Word[16];
      buffLen, loLen, hiLen := 0, 0, 0;
    }

    /** Transform, where kalloc may fail. */
    method Transform() returns (ret: int)
      requires Valid()
      modifies digest
      ensures ret == 0 ==> digest[..] == Compress(old(digest[..]), buffer[..])
      ensures ret != 0 ==> ret == -1 && digest[..] == old(digest[..])
    {
      if * {
        return -1;
      }
      var w := new Word[64];
      var s := new Word[8];
      for i := 0 to 8
        invariant digest[..] == old(digest[..])
        invariant forall k :: 0 <= k < i ==> s[k] == digest[k]
      {
        s[i] := digest[i];
      }
      Expand(w, buffer);
      AllRounds(s, w, buffer[..], WorkingOf(digest[..]));
      assert Regs(s, 0, 1, 2, 3, 4, 5, 6, 7) == Rounds(WorkingOf(old(digest[..])), buffer[..], 64);
      AddUp(s);
      return 0;
    }

    /** sha256.c:95-98 */
    method AddUp(s: array<Word>)
      requires Valid() && s.Length == 8 && s != digest
      modifies digest
      ensures digest[..] == AddTo(Regs(s, 0, 1, 2, 3, 4, 5, 6, 7), old(digest[..]))
    {
      for i := 0 to 8
        invariant forall k :: 0 <= k < i ==> digest[k] == Add(s[k], old(digest[k]))
        invariant forall k :: i <= k < 8 ==> digest[k] == old(digest[k])
      {
        digest[i] := Add(s[i], digest[i]);
      }
    }

    method AddLength(len: nat)
      requires Valid() && len < WORD
      modifies this`loLen, this`hiLen
      ensures Valid() && hiLen * WORD + loLen == (old(hiLen) * WORD + old(loLen) + len) % TWO64
    {
      var tmp := loLen;
      loLen := (loLen + len) % WORD;
      if loLen < tmp {
        hiLen := (hiLen + 1) % WORD;
      }
    }

    /** wc_InitSha256 */
    method Init() returns (ret: int)
      requires Valid()
      modifies this, digest
      ensures ret == 0 && Absorbed([])
    {
      digest[0] := 0x6A09E667;
      digest[1] := 0xBB67AE85;
      digest[2] := 0x3C6EF372;
      digest[3] := 0xA54FF53A;
      digest[4] := 0x510E527F;
      digest[5] := 0x9B05688C;
      digest[6] := 0x1F83D9AB;
      digest[7] := 0x5BE0CD19;
      buffLen, loLen, hiLen := 0, 0, 0;
      assert digest[..] == Initial();
      ret := 0;
    }

    /** A full buffer is turned into words and hashed: sha256.c:149-153, 177-181. */
    method Flush(ghost m: seq<Byte>) returns (ret: int)
      requires Holds(m, 64)
      modifies digest, buffer
      ensures ret == 0 || ret == -1
      ensures if ret == 0 then Holds(m, 0) else Stalled(m)
    {
      ghost var ws := buffer[..];
      assert Local(ws) == m[|m| - 64..] && ws[..16] == ws && ws[16..] == [];
      ReversedIsParsed(ws);
      ByteReverseWords(buffer, 64);
      assert buffer[..] == Reversed(ws);
      ret := Transform();
      if ret == 0 {
        assert digest[..] == HashBlocks(m);
        assert m[..|m| - 0] == m;
      }
    }

    /** Bytes go behind the first n, which the buffer holds. */
    method Place(bytes: seq<Byte>, n: nat, ghost m: seq<Byte>)
      requires Holds(m, n) && n + |bytes| <= 64
      modifies buffer
      ensures Holds(m + bytes, n + |bytes|)
    {
      StoreBytes(buffer, n, bytes);
      ghost var all := m + bytes;
      assert all[..|all| - (n + |bytes|)] == m[..|m| - n];
      assert all[|all| - (n + |bytes|)..] == m[|m| - n..] + bytes;
    }

    /** Bytes go behind all that the buffer holds. */
    method Fill(bytes: seq<Byte>, ghost m: seq<Byte>)
      requires Holds(m, buffLen) && buffLen + |bytes| <= 64
      modifies this`buffLen, buffer
      ensures Holds(m + bytes, buffLen) && buffLen == old(buffLen) + |bytes|
    {
      Place(bytes, buffLen, m);
      buffLen := buffLen + |bytes|;
    }

    /** sha256.c:140-157: what fits into the buffer; a full buffer is hashed. */
    method Absorb(bytes: seq<Byte>, ghost m: seq<Byte>) returns (ret: int)
      requires Absorbed(m) && buffLen + |bytes| <= 64
      modifies this, digest, buffer
      ensures ret == 0 || ret == -1
      ensures if ret == 0 then Absorbed(m + bytes)
        else buffLen == 64 && Stalled(m + bytes) && Counts(|m + bytes| - 64)
    {
      hide HashBlocks, Local;
      Fill(bytes, m);
      if buffLen == 64 {
        ret := Flush(m + bytes);
        if ret != 0 {
          return;
        }
        MoreCounted(hiLen * WORD + loLen, |m| - old(buffLen), 64);
        AddLength(64);
        assert Counts(|m + bytes|);
        buffLen := 0;
      } else {
        assert |m + bytes| - buffLen == |m| - old(buffLen);
      }
      return 0;
    }

    static lemma MoreCounted(count: nat, n: nat, k: nat)
      requires count == n % TWO64
      ensures (count + k) % TWO64 == (n + k) % TWO64
    {
      var q := n / TWO64;
      assert n + k == q * TWO64 + (count + k);
    }

    /** wc_Sha256Update; if a block fails, it stays in the buffer as words and is not counted. */
    method Update(data: seq<Byte>, ghost m: seq<Byte>) returns (ret: int)
      requires Absorbed(m)
      modifies this, digest, buffer
      ensures ret == 0 || ret == -1
      ensures ret == 0 ==> Absorbed(m + data)
      ensures ret != 0 ==>
        buffLen == 64 && exists n :: 0 < n <= |data| && Stalled(m + data[..n]) && Counts(|m| + n - 64)
    {
      var at := 0;
      var len := |data|;
      hide HashBlocks, Local;
      ghost var all := m;
      while len > 0
        invariant 0 <= at && 0 <= len && at + len == |data|
        invariant all == m + data[..at] && Absorbed(all)
        decreases len
      {
        var add := if len > 64 - buffLen then 64 - buffLen else len;
        Longer(m, data, at, add);
        ret := Absorb(data[at..at + add], all);
        if ret != 0 {
          assert Stalled(m + data[..at + add]) && Counts(|m| + (at + add) - 64);
          return;
        }
        all := all + data[at..at + add];
        at := at + add;
        len := len - add;
      }
      assert all == m + data;
      return 0;
    }

    static lemma Longer(m: seq<Byte>, data: seq<Byte>, at: nat, add: nat)
      requires at + add <= |data|
      ensures m + data[..at] + data[at..at + add] == m + data[..at + add]
    {
    }

    /** sha256.c:188-190: the length in bits, from the length in bytes. */
    method ShiftLength(ghost n: nat)
      requires Valid() && Counts(n)
      modifies this`hiLen, this`loLen
      ensures Valid() && hiLen == (8 * n / WORD) % WORD && loLen == (8 * n) % WORD
    {
      ShiftFacts(hiLen, loLen, n);
      hiLen := (loLen / 0x2000_0000 + (8 * hiLen) % WORD) % WORD;
      loLen := (8 * loLen) % WORD;
    }

    static lemma ShiftFacts(hi: nat, lo: nat, n: nat)
      requires hi < WORD && lo < WORD && hi * WORD + lo == n % TWO64
      ensures (lo / 0x2000_0000 + (8 * hi) % WORD) % WORD == (8 * n / WORD) % WORD
      ensures (8 * lo) % WORD == (8 * n) % WORD
    {
      var q, a, b := n / TWO64, lo / 0x2000_0000, lo % 0x2000_0000;
      assert n == q * TWO64 + hi * WORD + lo;
      assert 8 * n == (8 * q * WORD + 8 * hi + a) * WORD + 8 * b;
      assert 8 * lo == a * WORD + 8 * b;
      assert 8 * n / WORD == 8 * q * WORD + 8 * hi + a;
      assert (8 * q * WORD + 8 * hi + a) % WORD == (8 * hi + a) % WORD;
      var p, r := 8 * hi / WORD, 8 * hi % WORD;
      assert 8 * hi + a == p * WORD + (r + a);
    }

    static lemma PadFrontIs(m: seq<Byte>, b: nat)
      requires b == |m| % 64 + 1
      ensures b <= 56 ==> m + [0x80] + Zeros(56 - b) == PadFront(m)
      ensures b > 56 ==> m + [0x80] + Zeros(64 - b) + Zeros(56) == PadFront(m)
    {
      if b <= 56 {
        assert ZeroCount(|m|) == 56 - b;
      } else {
        assert ZeroCount(|m|) == 120 - b;
        MoreZeros(m + [0x80], 64 - b, 56);
      }
    }

    static lemma MoreZeros(p: seq<Byte>, i: nat, j: nat)
      ensures p + Zeros(i) + Zeros(j) == p + Zeros(i + j)
    {
    }

    /** What is hashed before the length when there is no room for that behind the one bit. */
    static function FirstPadBlock(m: seq<Byte>): seq<Byte> { m + [0x80] + Zeros(63 - |m| % 64) }

    /** sha256.c:170-184: the one bit, and zeros if there is no room for the length behind it. */
    method PadBlock(ghost m: seq<Byte>) returns (ret: int, ghost p: seq<Byte>)
      requires Holds(m, buffLen) && buffLen < 64
      modifies this`buffLen, digest, buffer
      ensures ret == 0 || ret == -1
      ensures ret == 0 ==> buffLen <= 56 && Holds(p, buffLen) && p + Zeros(56 - buffLen) == PadFront(m)
      ensures ret == 0 ==> buffLen == if |m| % 64 < 56 then |m| % 64 + 1 else 0
      ensures ret != 0 ==> buffLen == 64 && |m| % 64 >= 56 && Stalled(FirstPadBlock(m))
    {
      hide HashBlocks, Local, Zeros, PadFront;
      Residue(m);
      PadFrontIs(m, buffLen + 1);
      Place([0x80], buffLen, m);
      buffLen := buffLen + 1;
      p := m + [0x80];
      if buffLen > 56 {
        ghost var q := p + Zeros(64 - buffLen);
        ret := FillBlock(p);
        if ret != 0 {
          return;
        }
        p := q;
      }
      return 0, p;
    }

    /** sha256.c:174-183 */
    method FillBlock(ghost p: seq<Byte>) returns (ret: int)
      requires Holds(p, buffLen) && buffLen <= 64
      modifies this`buffLen, digest, buffer
      ensures ret == 0 || ret == -1
      ensures var q := p + Zeros(64 - old(buffLen));
        if ret == 0 then buffLen == 0 && Holds(q, 0) else buffLen == 64 && Stalled(q)
    {
      hide HashBlocks, Local, Zeros;
      ghost var q := p + Zeros(64 - buffLen);
      Place(Zeros(64 - buffLen), buffLen, p);
      buffLen := 64;
      ret := Flush(q);
      if ret == 0 {
        buffLen := 0;
      }
    }

    /** sha256.c:170-185: after the one bit and the zeros, room for the length is left. */
    method PadZeros(ghost m: seq<Byte>) returns (ret: int)
      requires Holds(m, buffLen) && buffLen < 64
      modifies this`buffLen, digest, buffer
      ensures ret == 0 || ret == -1
      ensures ret == 0 ==> Holds(PadFront(m), 56) && buffLen == if |m| % 64 < 56 then |m| % 64 + 1 else 0
      ensures ret != 0 ==> buffLen == 64 && |m| % 64 >= 56 && Stalled(FirstPadBlock(m))
    {
      ghost var p;
      ret, p := PadBlock(m);
      if ret == 0 {
        Place(Zeros(56 - buffLen), buffLen, p);
      }
    }

    lemma Residue(m: seq<Byte>)
      requires Holds(m, buffLen) && buffLen < 64
      ensures buffLen == |m| % 64
    {
    }

    /** sha256.c:193-199: the words of the last block, with the length in the last two. */
    method StoreLength(ghost m: seq<Byte>)
      requires Holds(PadFront(m), 56) && hiLen == (8 * |m| / WORD) % WORD && loLen == (8 * |m|) % WORD
      modifies buffer
      ensures Compress(digest[..], buffer[..]) == HashBlocks(Pad(m)) && Stalled(Pad(m))
    {
      hide Local, Reversed, PadFront, Pad, Compress, HashBlocks, Parse;
      ghost var l := LengthWords(|m|);
      PadSplits(m);
      LastCompress(PadFront(m), digest[..], buffer[..], l[0], l[1]);
      PutLength();
    }

    method PutLength()
      requires Valid()
      modifies buffer
      ensures buffer[..] == Reversed(old(buffer[..]))[14 := hiLen as Word][15 := loLen as Word]
    {
      ghost var ws := buffer[..];
      assert ws[..16] == ws && ws[16..] == [];
      ByteReverseWords(buffer, 64);
      assert buffer[..] == Reversed(ws);
      hide Reversed;
      buffer[14] := hiLen as Word;
      buffer[15] := loLen as Word;
    }

    static lemma LastCompress(p: seq<Byte>, h: seq<Word>, ws: seq<Word>, hi: Word, lo: Word)
      requires |p| >= 56 && (|p| - 56) % 64 == 0 && (|p| + 8) % 64 == 0
      requires |ws| == 16 && h == HashBlocks(p[..|p| - 56]) && Local(ws)[..56] == p[|p| - 56..]
      ensures |h| == 8
      ensures var all, words := p + (BytesOf(hi) + BytesOf(lo)), Reversed(ws)[14 := hi][15 := lo];
        && h == HashBlocks(all[..|all| - 64]) && words == Parse(all[|all| - 64..])
        && Compress(h, words) == HashBlocks(all)
    {
      hide Local, Parse, Reversed, BytesOf, Compress;
      var tail, last := p[|p| - 56..], BytesOf(hi) + BytesOf(lo);
      var block := tail + last;
      assert block[..56] == tail;
      assert block[56..60] == BytesOf(hi) && block[60..] == BytesOf(lo);
      LastBlock(ws, block, hi, lo);
      CutLast(p, last);
    }

    static lemma PadSplits(m: seq<Byte>)
      ensures var p, l := PadFront(m), LengthWords(|m|);
        && |p| >= 56 && (|p| - 56) % 64 == 0 && (|p| + 8) % 64 == 0
        && Pad(m) == p + (BytesOf(l[0]) + BytesOf(l[1]))
    {
      Fills(|PadFront(m)|);
    }

    static lemma CutLast(p: seq<Byte>, last: seq<Byte>)
      requires |p| >= 56 && |last| == 8
      ensures var all := p + last; all[..|all| - 64] == p[..|p| - 56] && all[|all| - 64..] == p[|p| - 56..] + last
    {
    }

    static lemma LastBlock(ws: seq<Word>, block: seq<Byte>, hi: Word, lo: Word)
      requires |ws| == 16 && |block| == 64 && block[..56] == Local(ws)[..56]
      requires block[56..60] == BytesOf(hi) && block[60..] == BytesOf(lo)
      ensures Parse(block) == Reversed(ws)[14 := hi][15 := lo]
    {
      forall i | 0 <= i < 14 ensures Parse(block)[i] == Reversed(ws)[i] {
        ReadWord(ws, i);
        assert forall k :: 0 <= k < 56 ==> block[k] == Local(ws)[k];
      }
      WordOfBytes(hi);
      WordOfBytes(lo);
    }

    /** sha256.c:204-205 */
    method PutOut(hash: array<Byte>, ghost h: seq<Word>)
      requires Valid() && hash.Length >= 32 && digest[..] == h
      modifies digest, hash
      ensures hash[..32] == OutputBytes(h)
    {
      ReversedIsOutput(h);
      ByteReverseWords(digest, 32);
      for i := 0 to 32
        invariant Local(digest[..]) == OutputBytes(h)
        invariant hash[..i] == OutputBytes(h)[..i]
      {
        hash[i] := ByteAt(digest[i / 4], i % 4);
      }
    }

    ghost predicate FirstFailed(m: seq<Byte>)
      reads this, digest, buffer
    {
      |m| % 64 >= 56 && buffLen == 64 && Stalled(FirstPadBlock(m)) && Counts(|m|)
    }

    ghost predicate LastFailed(m: seq<Byte>)
      reads this, digest, buffer
    {
      && buffLen == (if |m| % 64 < 56 then |m| % 64 + 1 else 0) && Stalled(Pad(m))
      && hiLen == (8 * |m| / WORD) % WORD && loLen == (8 * |m|) % WORD
    }

    /**
     * wc_Sha256Final. If the first of two blocks of padding fails, it stays in the buffer and
     * the length counts bytes; if the last block fails, that stays and the length counts bits.
     */
    method Final(hash: array<Byte>, ghost m: seq<Byte>) returns (ret: int)
      requires Absorbed(m) && hash.Length >= 32
      modifies this, digest, buffer, hash
      ensures ret == 0 || ret == -1
      ensures ret == 0 ==> hash[..32] == Digest(m) && Absorbed([])
      ensures ret != 0 ==> hash[..] == old(hash[..]) && (FirstFailed(m) || LastFailed(m))
    {
      hide Pad, PadFront, HashBlocks, OutputBytes, Compress, Local;
      MoreCounted(hiLen * WORD + loLen, |m| - buffLen, buffLen);
      AddLength(buffLen);
      assert Counts(|m|);
      ret := PadZeros(m);
      if ret != 0 {
        return;
      }
      ShiftLength(|m|);
      StoreLength(m);
      ret := Transform();
      if ret != 0 {
        return;
      }
      ghost var h := HashBlocks(Pad(m));
      PutOut(hash, h);
      ret := Init();
      assert OutputBytes(h) == Digest(m);
    }
  }

  lemma {:induction false} ConcatMore(chunks: seq<seq<Byte>>, i: nat)
    requires i < |chunks|
    ensures Concat(chunks[..i + 1]) == Concat(chunks[..i]) + chunks[i]
  {
    if i > 0 {
      ConcatMore(chunks[1..], i - 1);
      assert chunks[..i + 1][1..] == chunks[1..][..i] && chunks[..i][1..] == chunks[1..][..i - 1];
    }
  }

  /** Any calls of wc_Sha256Update between the other two: the hash is that of all the bytes in order. */
  method HashChunks(s: Sha256, chunks: seq<seq<Byte>>, hash: array<Byte>) returns (ret: int)
    requires s.Valid() && hash.Length >= 32
    modifies s, s.digest, s.buffer, hash
    ensures ret == 0 || ret == -1
    ensures ret == 0 ==> hash[..32] == Digest(Concat(chunks))
  {
    hide Digest;
    ret := s.Init();
    for i := 0 to |chunks|
      invariant s.Absorbed(Concat(chunks[..i]))
    {
      ret := s.Update(chunks[i], Concat(chunks[..i]));
      if ret != 0 {
        return;
      }
      ConcatMore(chunks, i);
    }
    assert chunks[..|chunks|] == chunks;
    ret := s.Final(hash, Concat(chunks));
  }
}
