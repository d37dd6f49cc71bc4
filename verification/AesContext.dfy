/** struct Aes and the functions of kernel/crypto/aes.c that work on it. */
module AesContext {
  import opened CryptoWords
  import opened AesSpec
  import opened AesTables
  import opened AesCode
  import opened AesKeys
  import opened AesCbc
  import opened AesProofs

  /** Only the round keys 0 to 14 matter. */
  ghost predicate SameKeys(a: Keys, b: Keys) {
    forall i: nat :: i <= ROUNDS ==> a(i) == b(i)
  }

  lemma {:induction false} CipherSameKeys(s: State, a: Keys, b: Keys, n: nat)
    requires SameKeys(a, b) && n < ROUNDS
    ensures FullRounds(s, a, n) == FullRounds(s, b, n)
    ensures n == ROUNDS - 1 ==> Cipher(s, a) == Cipher(s, b)
  {
    hide FullRound, AddRoundKey;
    if n > 0 { CipherSameKeys(s, a, b, n - 1); }
  }

  lemma {:induction false} EqInvSameKeys(s: State, a: Keys, b: Keys, n: nat)
    requires SameKeys(a, b) && n < ROUNDS
    ensures EqInvRounds(s, a, n) == EqInvRounds(s, b, n)
    ensures n == ROUNDS - 1 ==> EqInvCipher(s, a) == EqInvCipher(s, b)
  {
    hide EqInvRound, AddRoundKey;
    if n > 0 { EqInvSameKeys(s, a, b, n - 1); }
  }

  lemma DecryptionKeys(s: State, d: Keys, k: Keys)
    requires SameKeys(d, EqKeys(k))
    ensures EqInvCipher(s, d) == InvCipher(s, k)
  {
    hide EqInvCipher, InvCipher;
    EqInvSameKeys(s, d, EqKeys(k), ROUNDS - 1);
    EqInvCipherAgrees(s, k);
  }

  /** xorbuf: by words if all is aligned, else by bytes. */
  method Xorbuf(buf: array<Byte>, at: nat, mask: seq<Byte>, aligned: bool)
    requires at + |mask| <= buf.Length && |mask| % 4 == 0
    modifies buf
    ensures buf[at..at + |mask|] == XorBytes(old(buf[at..at + |mask|]), mask)
    ensures buf[..at] == old(buf[..at]) && buf[at + |mask|..] == old(buf[at + |mask|..])
  {
    hide X;
    if aligned {
      for i := 0 to |mask| / 4
        invariant forall j :: 0 <= j < buf.Length ==>
          buf[j] == if at <= j < at + 4 * i then X(old(buf[j]), mask[j - at]) else old(buf[j])
      {
        XorWord(buf, at + 4 * i, mask[4 * i..4 * i + 4]);
      }
    } else {
      for i := 0 to |mask|
        invariant forall j :: 0 <= j < buf.Length ==>
          buf[j] == if at <= j < at + i then X(old(buf[j]), mask[j - at]) else old(buf[j])
      {
        buf[at + i] := X(buf[at + i], mask[i]);
      }
    }
  }

  /** r[i] ^= a[i] of XorWords, on words in memory. */
  method XorWord(buf: array<Byte>, at: nat, mask: seq<Byte>)
    requires at + 4 <= buf.Length && |mask| == 4
    modifies buf
    ensures forall j :: 0 <= j < buf.Length ==>
      buf[j] == if at <= j < at + 4 then X(old(buf[j]), mask[j - at]) else old(buf[j])
  {
    hide X, XorW, WordOf, ByteAt;
    var r := WordOf(buf[at + 3], buf[at + 2], buf[at + 1], buf[at]);
    var a := WordOf(mask[3], mask[2], mask[1], mask[0]);
    XorWordBytes(buf[at], buf[at + 1], buf[at + 2], buf[at + 3], mask);
    r := XorW(r, a);
    buf[at] := ByteAt(r, 0);
    buf[at + 1] := ByteAt(r, 1);
    buf[at + 2] := ByteAt(r, 2);
    buf[at + 3] := ByteAt(r, 3);
  }

  lemma XorWordBytes(b0: Byte, b1: Byte, b2: Byte, b3: Byte, mask: seq<Byte>)
    requires |mask| == 4
    ensures var r := XorW(WordOf(b3, b2, b1, b0), WordOf(mask[3], mask[2], mask[1], mask[0]));
      ByteAt(r, 0) == X(b0, mask[0]) && ByteAt(r, 1) == X(b1, mask[1]) &&
      ByteAt(r, 2) == X(b2, mask[2]) && ByteAt(r, 3) == X(b3, mask[3])
  {
    hide X, XorW, WordOf, ByteAt;
    var r, a := WordOf(b3, b2, b1, b0), WordOf(mask[3], mask[2], mask[1], mask[0]);
    SplitWordOf(b3, b2, b1, b0);
    SplitWordOf(mask[3], mask[2], mask[1], mask[0]);
    SplitXor(r, a);
  }

  class Aes {
    const key: array<Word>
    var rounds: nat
    const reg: array<Byte>
    const tmp: array<Byte>

    ghost predicate Valid()
      reads this
    {
      key.Length == 60 && reg.Length == 16 && tmp.Length == 16 && reg != tmp && (rounds == 0 || rounds == ROUNDS)
    }

    constructor ()
      ensures Valid() && rounds == 0 && fresh(key) && fresh(reg) && fresh(tmp)
    {
      key := new Word[60];
      reg, tmp := new Byte[16], new Byte[16];
      rounds := 0;
    }

    /** Set up to encrypt with these round keys. */
    ghost predicate Encrypts(k: Keys)
      reads this, key
    {
      Valid() && rounds == ROUNDS && SameKeys(KeysIn(key[..]), k)
    }

    /** Set up to decrypt what is encrypted with these round keys. */
    ghost predicate Decrypts(k: Keys)
      reads this, key
    {
      Valid() && rounds == ROUNDS && SameKeys(Backwards(KeysIn(key[..])), EqKeys(k))
    }

    /** wc_AesSetIV; an empty sequence stands for NULL. */
    method SetIV(iv: seq<Byte>)
      requires Valid() && (|iv| == 16 || iv == [])
      modifies reg
      ensures reg[..] == if iv == [] then seq(16, _ => 0) else iv
    {
      for i := 0 to 16
        invariant forall j :: 0 <= j < i ==> reg[j] == if iv == [] then 0 else iv[j]
      {
        reg[i] := if iv == [] then 0 else iv[i];
      }
    }

    /** wc_AesSetKey and wc_AesSetKeyLocal: only 256-bit keys are taken. */
    method SetKey(userKey: seq<Byte>, iv: seq<Byte>, decryption: bool) returns (ret: int)
      requires Valid() && (|iv| == 16 || iv == [])
      modifies this, key, reg
      ensures |userKey| != 32 ==> ret == -1 && rounds == old(rounds) && key[..] == old(key[..]) && reg[..] == old(reg[..])
      ensures |userKey| == 32 ==>
        var k := RoundKeys(KeyColumns(userKey));
        && ret == 0 && (if decryption then Decrypts(k) else Encrypts(k))
        && reg[..] == if iv == [] then seq(16, _ => 0) else iv
    {
      hide KeysIn, RoundKeys, RoundKey, Group, Expanded;
      if |userKey| != 32 {
        return -1;
      }
      ghost var k8 := KeyColumns(userKey);
      rounds := |userKey| / 4 + 6;
      LoadKey(userKey);
      Expand(key, k8);
      if decryption {
        Invert(key, k8);
      } else {
        ExpandedKeys(key, k8);
      }
      forall g | 0 <= g <= ROUNDS ensures KeysIn(key[..])(g) == RoundKey(Group(key, g)) {
        GroupKeys(key, g);
      }
      SetIV(iv);
      return 0;
    }

    /** XMEMCPY of the key and ByteReverseWords. */
    method LoadKey(userKey: seq<Byte>)
      requires Valid() && |userKey| == 32
      modifies key
      ensures Expanded(key, KeyColumns(userKey), 8)
    {
      StoreBytes(key, 0, userKey);
      ghost var ws := key[..];
      ByteReverseWords(key, 32);
      forall j | 0 <= j < 8 ensures Split(key[j]) == KeyColumns(userKey)[j] {
        ReadWord(ws, j);
        var b := Local(ws);
        assert b[..32] == userKey;
        assert b[4 * j] == userKey[4 * j] && b[4 * j + 1] == userKey[4 * j + 1];
        assert b[4 * j + 2] == userKey[4 * j + 2] && b[4 * j + 3] == userKey[4 * j + 3];
        SplitWordOf(userKey[4 * j], userKey[4 * j + 1], userKey[4 * j + 2], userKey[4 * j + 3]);
      }
    }

    /** wc_AesEncrypt: what is at the output afterwards; without a key that is what was there before. */
    method EncryptAt(inBlock: seq<Byte>, before: seq<Byte>, ghost k: Keys) returns (outBlock: seq<Byte>)
      requires Valid() && (rounds != 0 ==> Encrypts(k)) && |inBlock| == 16 == |before|
      ensures |outBlock| == 16 && outBlock == if rounds == 0 then before else EncBlock(k, inBlock)
    {
      hide KeysIn, Cipher, StateOf, StateBytes, SameKeys;
      var r := rounds / 2;
      if r > 7 || r == 0 { return before; }
      outBlock := EncryptBlock(key[..], rounds, inBlock);
      CipherSameKeys(StateOf(inBlock), KeysIn(key[..]), k, ROUNDS - 1);
      StateBytesOf(outBlock);
    }

    /** wc_AesDecrypt */
    method DecryptAt(inBlock: seq<Byte>, before: seq<Byte>, ghost k: Keys) returns (outBlock: seq<Byte>)
      requires Valid() && (rounds != 0 ==> Decrypts(k)) && |inBlock| == 16 == |before|
      ensures |outBlock| == 16 && outBlock == if rounds == 0 then before else DecBlock(k, inBlock)
    {
      hide KeysIn, InvCipher, EqInvCipher, StateOf, StateBytes, SameKeys, EqKeys, Backwards;
      var r := rounds / 2;
      if r > 7 || r == 0 { return before; }
      outBlock := DecryptBlock(key[..], rounds, inBlock);
      DecryptionKeys(StateOf(inBlock), Backwards(KeysIn(key[..])), k);
      StateBytesOf(outBlock);
    }

    /** aes.c:1087-1092 */
    method EncryptOne(out: array<Byte>, input: array<Byte>, at: nat, aligned: bool, ghost k: Keys)
      requires Encrypts(k) && at + 16 <= out.Length && at + 16 <= input.Length && out != reg && input != reg
      modifies reg, out
      ensures reg[..] == EncBlock(k, XorBytes(old(reg[..]), old(input[at..at + 16])))
      ensures out[..] == old(out[..at]) + reg[..] + old(out[at + 16..])
    {
      hide EncBlock, XorBytes, SameKeys, KeysIn;
      ghost var r := reg[..];
      Xorbuf(reg, 0, input[at..at + 16], aligned);
      assert reg[0..16] == reg[..] && r[0..16] == r;
      var c := EncryptAt(reg[..], reg[..], k);
      CopyBlock(reg, 0, c);
      CopyBlock(out, at, c);
    }

    /** wc_AesCbcEncrypt; out and input may be the same array. */
    method CbcEncrypt(out: array<Byte>, input: array<Byte>, sz: nat, aligned: bool, ghost k: Keys) returns (ret: int)
      requires Encrypts(k) && sz <= out.Length && sz <= input.Length
      requires out != reg && input != reg
      modifies reg, out
      ensures ret == 0 && Encrypts(k)
      ensures var n, p, iv := sz / 16, old(input[..sz / 16 * 16]), old(reg[..]);
        && out[..16 * n] == CbcEnc(k, iv, p, n) && out[16 * n..] == old(out[16 * n..])
        && reg[..] == Register(iv, CbcEnc(k, iv, p, n), n)
    {
      hide EncBlock, XorBytes, KeysIn, SameKeys, CbcEnc, Register;
      var blocks := sz / 16;
      ghost var iv, src, n := reg[..], input[..], blocks;
      ghost var i := 0;
      var at := 0;
      CbcEmpty(k, iv);
      while blocks > 0
        invariant 0 <= i && 0 <= blocks && i + blocks == n && at == 16 * i && at + 16 * blocks <= sz
        invariant out[..at] == CbcEnc(k, iv, src[..at], i) && out[at..] == old(out[at..])
        invariant input[at..] == src[at..]
        invariant reg[..] == Register(iv, out[..at], i)
      {
        blocks := blocks - 1;
        ghost var p, r := src[at..at + 16], reg[..];
        assert input[at..at + 16] == p && src[..at] + p == src[..at + 16];
        CbcEncSplits(k, iv, src[..at], i, p, 1);
        CbcEncOne(k, r, p);
        ghost var sofar := out[..at];
        EncryptOne(out, input, at, aligned, k);
        RegisterIsLast(iv, sofar, reg[..], i);
        assert out[..at + 16] == sofar + reg[..] && out[at + 16..] == old(out[at + 16..]);
        at := at + 16;
        i := i + 1;
      }
      return 0;
    }

    /** aes.c:1103-1109 */
    method DecryptOne(out: array<Byte>, input: array<Byte>, at: nat, aligned: bool, ghost k: Keys)
      requires Decrypts(k) && at + 16 <= out.Length && at + 16 <= input.Length
      requires out != reg && input != reg && out != tmp && input != tmp
      modifies reg, tmp, out
      ensures reg[..] == old(input[at..at + 16])
      ensures out[..] == old(out[..at]) + XorBytes(DecBlock(k, reg[..]), old(reg[..])) + old(out[at + 16..])
    {
      hide DecBlock, XorBytes, SameKeys, KeysIn;
      CopyBlock(tmp, 0, input[at..at + 16]);
      assert tmp[..] == old(input[at..at + 16]);
      var p := DecryptAt(tmp[..], out[at..at + 16], k);
      CopyBlock(out, at, p);
      assert out[at..at + 16] == p;
      Xorbuf(out, at, reg[..], aligned);
      assert out[..] == out[..at] + out[at..at + 16] + out[at + 16..];
      CopyBlock(reg, 0, tmp[..]);
    }

    /** wc_AesCbcDecrypt; out and input may be the same array. */
    method CbcDecrypt(out: array<Byte>, input: array<Byte>, sz: nat, aligned: bool, ghost k: Keys) returns (ret: int)
      requires Decrypts(k) && sz <= out.Length && sz <= input.Length
      requires out != reg && input != reg && out != tmp && input != tmp
      modifies reg, tmp, out
      ensures ret == 0 && Decrypts(k)
      ensures var n, c, iv := sz / 16, old(input[..sz / 16 * 16]), old(reg[..]);
        && out[..16 * n] == CbcDec(k, iv, c, n) && out[16 * n..] == old(out[16 * n..])
        && reg[..] == Register(iv, c, n)
    {
      hide DecBlock, XorBytes, KeysIn, SameKeys, Backwards, EqKeys, CbcDec, Register;
      var blocks := sz / 16;
      ghost var iv, src, n := reg[..], input[..], blocks;
      ghost var i := 0;
      var at := 0;
      CbcEmpty(k, iv);
      while blocks > 0
        invariant 0 <= i && 0 <= blocks && i + blocks == n && at == 16 * i && at + 16 * blocks <= sz
        invariant out[..at] == CbcDec(k, iv, src[..at], i) && out[at..] == old(out[at..])
        invariant input[at..] == src[at..]
        invariant reg[..] == Register(iv, src[..at], i)
      {
        blocks := blocks - 1;
        ghost var c, r := src[at..at + 16], reg[..];
        assert input[at..at + 16] == c && src[..at] + c == src[..at + 16];
        CbcDecSplits(k, iv, src[..at], i, c, 1);
        CbcDecOne(k, r, c);
        ghost var sofar := out[..at];
        DecryptOne(out, input, at, aligned, k);
        RegisterIsLast(iv, src[..at], c, i);
        assert out[..at + 16] == sofar + XorBytes(DecBlock(k, c), r) && out[at + 16..] == old(out[at + 16..]);
        at := at + 16;
        i := i + 1;
      }
      return 0;
    }
  }

  /** XMEMCPY of a block. */
  method CopyBlock(a: array<Byte>, at: nat, b: seq<Byte>)
    requires |b| == 16 && at + 16 <= a.Length
    modifies a
    ensures a[..] == old(a[..at]) + b + old(a[at + 16..])
  {
    forall k | 0 <= k < 16 {
      a[at + k] := b[k];
    }
  }

  /** Two contexts with one key and one initial vector: what the first encrypts in place, the second decrypts. */
  method ThereAndBack(userKey: seq<Byte>, iv: seq<Byte>, buf: array<Byte>, aligned: bool)
    requires |userKey| == 32 && (|iv| == 16 || iv == [])
    modifies buf
    ensures buf[..] == old(buf[..])
  {
    hide CbcEnc, CbcDec, RoundKeys, KeyColumns;
    ghost var k := RoundKeys(KeyColumns(userKey));
    var there := new Aes();
    var back := new Aes();
    var ret := there.SetKey(userKey, iv, false);
    ret := back.SetKey(userKey, iv, true);
    ghost var n := buf.Length / 16;
    ghost var r, p := there.reg[..], buf[..16 * n];
    ret := there.CbcEncrypt(buf, buf, buf.Length, aligned, k);
    ret := back.CbcDecrypt(buf, buf, buf.Length, aligned, k);
    CbcUndoes(k, r, p, n);
    assert buf[..] == buf[..16 * n] + buf[16 * n..] && old(buf[..]) == p + old(buf[16 * n..]);
  }
}
