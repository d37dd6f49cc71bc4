/** wc_AesSetKeyLocal (kernel/crypto/aes.c:715-799): the round keys, in place in one array. */
module AesKeys {
  import opened CryptoWords
  import opened AesSpec
  import opened AesTables
  import opened AesCode
  import AesProofs

  /** The words j to k of the array are those of the key schedule. */
  ghost predicate Expanded(key: array<Word>, k8: seq<Column>, n: nat)
    requires key.Length == 60 && |k8| == 8 && n <= 60
    reads key
  {
    forall j :: 0 <= j < n ==> Split(key[j]) == KeyWord(k8, j)
  }

  lemma PlusAssociates(a: Column, b: Column, c: Column)
    ensures Plus(Plus(a, b), c) == Plus(a, Plus(b, c))
  {
    hide X;
    AesProofs.XAssociates(a.r0, b.r0, c.r0);
    AesProofs.XAssociates(a.r1, b.r1, c.r1);
    AesProofs.XAssociates(a.r2, b.r2, c.r2);
    AesProofs.XAssociates(a.r3, b.r3, c.r3);
  }

  /** An earlier word, and the S-box on each byte of another: aes.c:730-734 */
  function SubXor(k: Word, a: Byte, b: Byte, c: Byte, d: Byte): (w: Word)
    ensures Split(w) == Plus(Split(k), SubColumn(Column(a, b, c, d)))
  {
    var p, q, r, s := Keep(Te4(a), 3), Keep(Te4(b), 2), Keep(Te4(c), 1), Keep(Te4(d), 0);
    SubXorSplits(k, a, b, c, d);
    XorW(XorW(XorW(XorW(k, p), q), r), s)
  }

  lemma SubXorSplits(k: Word, a: Byte, b: Byte, c: Byte, d: Byte)
    ensures Split(XorW(XorW(XorW(XorW(k, Keep(Te4(a), 3)), Keep(Te4(b), 2)), Keep(Te4(c), 1)), Keep(Te4(d), 0)))
      == Plus(Split(k), SubColumn(Column(a, b, c, d)))
  {
    hide Split, XorW, Keep, Plus, SBox, WordOf;
    var p, q, r, s := Keep(Te4(a), 3), Keep(Te4(b), 2), Keep(Te4(c), 1), Keep(Te4(d), 0);
    SumOfFour(k, p, q, r, s);
    PlusAssociates(Split(k), Split(p), Split(q));
    PlusAssociates(Split(k), Plus(Split(p), Split(q)), Split(r));
    PlusAssociates(Split(k), Plus(Plus(Split(p), Split(q)), Split(r)), Split(s));
    KeptColumns(SBox(a), SBox(b), SBox(c), SBox(d));
  }

  /** rcon[i] */
  function RconWord(i: nat): Word
    requires i < 7
  {
    if i == 0 then 0x01000000 else if i == 1 then 0x02000000 else if i == 2 then 0x04000000
    else if i == 3 then 0x08000000 else if i == 4 then 0x10000000 else if i == 5 then 0x20000000
    else 0x40000000
  }

  lemma RconBytes()
    ensures RconByte(1) == 1 && RconByte(2) == 2 && RconByte(3) == 4 && RconByte(4) == 8
    ensures RconByte(5) == 0x10 && RconByte(6) == 0x20 && RconByte(7) == 0x40
  {
    assert RconByte(3) == XTime(RconByte(2));
    assert RconByte(5) == XTime(RconByte(4));
  }

  lemma RconSplits(i: nat)
    requires i < 7
    ensures Split(RconWord(i)) == Rcon(i + 1)
  {
    RconBytes();
  }

  /** aes.c:729-738: four words from the eight before them, the first through rotation and S-box. */
  method FirstHalf(key: array<Word>, i: nat, ghost k8: seq<Column>)
    requires key.Length == 60 && |k8| == 8 && i < 7 && Expanded(key, k8, 8 * i + 8)
    modifies key
    ensures Expanded(key, k8, 8 * i + 12)
  {
    hide Split, XorW, SubXor, Plus, SubColumn, RconWord, RconByte, KeyWord;
    KeyWordStarts(k8, i);
    var o := 8 * i;
    var temp := key[o + 7];
    var sub := SubXor(key[o], GetByte(temp, 2), GetByte(temp, 1), GetByte(temp, 0), GetByte(temp, 3));
    SplitXor(sub, RconWord(i));
    RconSplits(i);
    RotatedBytes(temp);
    PlusAssociates(Split(key[o]), SubColumn(RotColumn(Split(temp))), Rcon(i + 1));
    key[o + 8] := XorW(sub, RconWord(i));
    FollowOn(key, o + 8, k8);
  }

  lemma RotatedBytes(w: Word)
    ensures Column(GetByte(w, 2), GetByte(w, 1), GetByte(w, 0), GetByte(w, 3)) == RotColumn(Split(w))
    ensures Column(GetByte(w, 3), GetByte(w, 2), GetByte(w, 1), GetByte(w, 0)) == Split(w)
  {
  }

  lemma KeyWordFollows(k8: seq<Column>, j: nat)
    requires |k8| == 8 && j >= 8 && j % 4 != 0
    ensures KeyWord(k8, j) == Plus(KeyWord(k8, j - 8), KeyWord(k8, j - 1))
  {
    hide Plus, SubColumn, RotColumn, Rcon;
    assert j % 8 != 0 && j % 8 != 4;
  }

  lemma KeyWordStarts(k8: seq<Column>, i: nat)
    requires |k8| == 8
    ensures KeyWord(k8, 8 * i + 8)
      == Plus(KeyWord(k8, 8 * i), Plus(SubColumn(RotColumn(KeyWord(k8, 8 * i + 7))), Rcon(i + 1)))
    ensures KeyWord(k8, 8 * i + 12) == Plus(KeyWord(k8, 8 * i + 4), SubColumn(KeyWord(k8, 8 * i + 11)))
  {
    hide Plus, SubColumn, RotColumn, Rcon;
    assert (8 * i + 8) % 8 == 0 && (8 * i + 8) / 8 == i + 1 && (8 * i + 12) % 8 == 4;
  }

  /** Three more words, each from its predecessor and the word eight back. */
  method FollowOn(key: array<Word>, o: nat, ghost k8: seq<Column>)
    requires key.Length == 60 && |k8| == 8 && 8 <= o && o + 4 <= 60 && o % 4 == 0 && Expanded(key, k8, o + 1)
    modifies key
    ensures Expanded(key, k8, o + 4)
  {
    hide Split, XorW, Plus, SubColumn, KeyWord;
    KeyWordFollows(k8, o + 1);
    KeyWordFollows(k8, o + 2);
    KeyWordFollows(k8, o + 3);
    SplitXor(key[o - 7], key[o]);
    key[o + 1] := XorW(key[o - 7], key[o]);
    SplitXor(key[o - 6], key[o + 1]);
    key[o + 2] := XorW(key[o - 6], key[o + 1]);
    SplitXor(key[o - 5], key[o + 2]);
    key[o + 3] := XorW(key[o - 5], key[o + 2]);
  }

  /** aes.c:741-749: four more, the first through the S-box only. */
  method SecondHalf(key: array<Word>, i: nat, ghost k8: seq<Column>)
    requires key.Length == 60 && |k8| == 8 && i < 6 && Expanded(key, k8, 8 * i + 12)
    modifies key
    ensures Expanded(key, k8, 8 * i + 16)
  {
    hide Split, XorW, SubXor, Plus, SubColumn, KeyWord;
    KeyWordStarts(k8, i);
    var o := 8 * i;
    var temp := key[o + 11];
    RotatedBytes(temp);
    key[o + 12] := SubXor(key[o + 4], GetByte(temp, 3), GetByte(temp, 2), GetByte(temp, 1), GetByte(temp, 0));
    FollowOn(key, o + 12, k8);
  }

  /** aes.c:728-752 */
  method Expand(key: array<Word>, ghost k8: seq<Column>)
    requires key.Length == 60 && |k8| == 8 && Expanded(key, k8, 8)
    modifies key
    ensures Expanded(key, k8, 60)
  {
    hide Expanded;
    var i := 0;
    while true
      invariant i < 7 && Expanded(key, k8, 8 * i + 8)
      decreases 7 - i
    {
      FirstHalf(key, i, k8);
      i := i + 1;
      if i == 7 { break; }
      SecondHalf(key, i - 1, k8);
    }
  }

  datatype Four = Four(w0: Word, w1: Word, w2: Word, w3: Word)

  /** The four words of one round key. */
  ghost function Group(key: array<Word>, g: nat): Four
    requires key.Length == 60 && g <= ROUNDS
    reads key
  {
    Four(key[4 * g], key[4 * g + 1], key[4 * g + 2], key[4 * g + 3])
  }

  /** aes.c:765-768 */
  method SwapGroups(key: array<Word>, i: nat, j: nat, ghost n: nat)
    requires key.Length == 60 && n < 7 && i == 4 * n && j == 4 * (ROUNDS - n)
    modifies key
    ensures Group(key, n) == old(Group(key, ROUNDS - n)) && Group(key, ROUNDS - n) == old(Group(key, n))
    ensures forall g :: 0 <= g <= ROUNDS && g != n && g != ROUNDS - n ==> Group(key, g) == old(Group(key, g))
  {
    Swap(key, i, j);
    Swap(key, i + 1, j + 1);
    Swap(key, i + 2, j + 2);
    Swap(key, i + 3, j + 3);
    forall g | 0 <= g <= ROUNDS && g != n && g != ROUNDS - n ensures Group(key, g) == old(Group(key, g)) {
      assert 4 * g + 4 <= i || i + 4 <= 4 * g;
      assert 4 * g + 4 <= j || j + 4 <= 4 * g;
    }
  }

  method Swap(key: array<Word>, i: nat, j: nat)
    requires i < key.Length && j < key.Length
    modifies key
    ensures key[i] == old(key[j]) && key[j] == old(key[i])
    ensures forall k :: 0 <= k < key.Length && k != i && k != j ==> key[k] == old(key[k])
  {
    var temp := key[i];
    key[i] := key[j];
    key[j] := temp;
  }

  /** aes.c:764-769: the round keys change their order. */
  method Reverse(key: array<Word>)
    requires key.Length == 60
    modifies key
    ensures forall g :: 0 <= g <= ROUNDS ==> Group(key, g) == old(Group(key, ROUNDS - g))
  {
    hide Group;
    var i, j := 0, 4 * ROUNDS;
    ghost var n := 0;
    while i < j
      invariant i == 4 * n && j == 4 * (ROUNDS - n) && n <= 7
      invariant forall g :: 0 <= g <= ROUNDS ==>
        Group(key, g) == if n <= g <= ROUNDS - n then old(Group(key, g)) else old(Group(key, ROUNDS - g))
      decreases j - i
    {
      SwapGroups(key, i, j, n);
      i, j, n := i + 4, j - 4, n + 1;
    }
  }

  /** aes.c:775-794: the S-box in Te[4] undoes the inverse S-box in the other tables. */
  function InvMixKey(w: Word): (r: Word)
    ensures Split(r) == InvMixColumn(Split(w))
  {
    var a, b := GetByte(Te4(GetByte(w, 3)), 0), GetByte(Te4(GetByte(w, 2)), 0);
    var c, d := GetByte(Te4(GetByte(w, 1)), 0), GetByte(Te4(GetByte(w, 0)), 0);
    InvMixKeySplits(w);
    XorW(XorW(XorW(Td0(a), Td1(b)), Td2(c)), Td3(d))
  }

  lemma LowByte(x: Byte)
    ensures GetByte(Te4(x), 0) == SBox(x)
  {
    hide SBox, WordOf, ByteAt;
    var s := SBox(x);
    SplitWordOf(s, s, s, s);
  }

  lemma InvMixKeySplits(w: Word)
    ensures var a, b := GetByte(Te4(GetByte(w, 3)), 0), GetByte(Te4(GetByte(w, 2)), 0);
      var c, d := GetByte(Te4(GetByte(w, 1)), 0), GetByte(Te4(GetByte(w, 0)), 0);
      Split(XorW(XorW(XorW(Td0(a), Td1(b)), Td2(c)), Td3(d))) == InvMixColumn(Split(w))
  {
    hide ByteAt, SBox, InvSBox, XorW, WordOf, MulE, MulB, MulD, Mul9, X, Te4, Td0, Td1, Td2, Td3, Plus, InvMixColumn, X4;
    var p, q, r, s := GetByte(w, 3), GetByte(w, 2), GetByte(w, 1), GetByte(w, 0);
    LowByte(p);
    LowByte(q);
    LowByte(r);
    LowByte(s);
    var a, b, c, d := SBox(p), SBox(q), SBox(r), SBox(s);
    SplitXor(Td0(a), Td1(b));
    SplitXor(XorW(Td0(a), Td1(b)), Td2(c));
    SplitXor(XorW(XorW(Td0(a), Td1(b)), Td2(c)), Td3(d));
    TdColumns(a, b, c, d);
    InvSBoxUndoes(p);
    InvSBoxUndoes(q);
    InvSBoxUndoes(r);
    InvSBoxUndoes(s);
  }

  function RoundKey(f: Four): State { Words(f.w0, f.w1, f.w2, f.w3) }

  /** aes.c:774-794: one round key. */
  method MixGroup(key: array<Word>, o: nat, ghost g: nat)
    requires key.Length == 60 && g <= ROUNDS && o == 4 * g
    modifies key
    ensures RoundKey(Group(key, g)) == InvMixColumns(RoundKey(old(Group(key, g))))
    ensures forall h :: 0 <= h <= ROUNDS && h != g ==> Group(key, h) == old(Group(key, h))
  {
    hide Split, InvMixColumn, InvMixKey;
    ghost var was := key[..];
    key[o] := InvMixKey(key[o]);
    key[o + 1] := InvMixKey(key[o + 1]);
    key[o + 2] := InvMixKey(key[o + 2]);
    key[o + 3] := InvMixKey(key[o + 3]);
    forall h | 0 <= h <= ROUNDS && h != g ensures Group(key, h) == old(Group(key, h)) {
      assert 4 * h + 4 <= o || o + 4 <= 4 * h;
    }
  }

  /** The loop at aes.c:773-795: all round keys but the first and the last. */
  method MixKeys(key: array<Word>)
    requires key.Length == 60
    modifies key
    ensures forall g :: 0 <= g <= ROUNDS ==>
      RoundKey(Group(key, g)) ==
        if 0 < g < ROUNDS then InvMixColumns(RoundKey(old(Group(key, g)))) else RoundKey(old(Group(key, g)))
  {
    hide Group, RoundKey, InvMixColumns;
    var o := 0;
    for i := 1 to ROUNDS
      invariant o == 4 * (i - 1)
      invariant forall g :: i <= g <= ROUNDS || g == 0 ==> Group(key, g) == old(Group(key, g))
      invariant forall g :: 0 < g < i ==> RoundKey(Group(key, g)) == InvMixColumns(RoundKey(old(Group(key, g))))
    {
      o := o + 4;
      MixGroup(key, o, i);
    }
  }

  lemma GroupKeys(key: array<Word>, g: nat)
    requires key.Length == 60 && g <= ROUNDS
    ensures KeysIn(key[..])(g) == RoundKey(Group(key, g))
  {
    KeysAt(key[..], g);
  }

  /** The words of the schedule are the round keys. */
  lemma ExpandedKeys(key: array<Word>, k8: seq<Column>)
    requires key.Length == 60 && |k8| == 8 && Expanded(key, k8, 60)
    ensures forall g :: 0 <= g <= ROUNDS ==> RoundKey(Group(key, g)) == RoundKeys(k8)(g)
  {
    hide Split, KeyWord;
  }

  /** aes.c:759-796: the round keys of the equivalent inverse cipher, last one first. */
  method Invert(key: array<Word>, ghost k8: seq<Column>)
    requires key.Length == 60 && |k8| == 8 && Expanded(key, k8, 60)
    modifies key
    ensures forall g :: 0 <= g <= ROUNDS ==> RoundKey(Group(key, g)) == EqKeys(RoundKeys(k8))(ROUNDS - g)
  {
    hide Group, RoundKey, InvMixColumns, RoundKeys, Expanded;
    ExpandedKeys(key, k8);
    Reverse(key);
    MixKeys(key);
  }
}
