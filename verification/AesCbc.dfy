/**
 * Cipher block chaining (section 6.2 of NIST SP 800-38A) over AES-256, and the code of
 * kernel/crypto/aes.c that does it with one chaining register.
 */
module AesCbc {
  import opened Sequences
  import opened CryptoWords
  import opened AesSpec
  import AesProofs

  // ---- blocks of bytes

  function XorBytes(a: seq<Byte>, b: seq<Byte>): (c: seq<Byte>)
    requires |a| == |b|
    ensures |c| == |a|
  {
    seq(|a|, i requires 0 <= i < |a| => X(a[i], b[i]))
  }

  function EncBlock(k: Keys, b: seq<Byte>): (c: seq<Byte>)
    requires |b| == 16
    ensures |c| == 16
  {
    StateBytes(Cipher(StateOf(b), k))
  }

  function DecBlock(k: Keys, b: seq<Byte>): (c: seq<Byte>)
    requires |b| == 16
    ensures |c| == 16
  {
    StateBytes(InvCipher(StateOf(b), k))
  }

  /** Decryption undoes encryption, for every key and every block. */
  lemma DecBlockUndoes(k: Keys, b: seq<Byte>)
    requires |b| == 16
    ensures DecBlock(k, EncBlock(k, b)) == b
  {
    hide Cipher, InvCipher, StateBytes, StateOf;
    AesProofs.InvCipherUndoes(StateOf(b), k);
    StateBytesOf(b);
  }

  // ---- the mode

  /** n blocks of plaintext. */
  function CbcEnc(k: Keys, iv: seq<Byte>, p: seq<Byte>, n: nat): (c: seq<Byte>)
    requires |iv| == 16 && |p| == 16 * n
    ensures |c| == |p|
    decreases n
  {
    if n == 0 then []
    else
      var first := EncBlock(k, XorBytes(iv, p[..16]));
      first + CbcEnc(k, first, p[16..], n - 1)
  }

  /** n blocks of ciphertext. */
  function CbcDec(k: Keys, iv: seq<Byte>, c: seq<Byte>, n: nat): (p: seq<Byte>)
    requires |iv| == 16 && |c| == 16 * n
    ensures |p| == |c|
    decreases n
  {
    if n == 0 then []
    else XorBytes(DecBlock(k, c[..16]), iv) + CbcDec(k, c[..16], c[16..], n - 1)
  }

  /** Block i of some text. */
  function Block(t: seq<Byte>, i: nat): (b: seq<Byte>)
    requires 16 * i + 16 <= |t|
    ensures |b| == 16
  {
    t[16 * i..16 * i + 16]
  }

  /** Each block is encrypted together with the ciphertext of the one before it. */
  lemma {:induction false} CbcEncBlock(k: Keys, iv: seq<Byte>, p: seq<Byte>, n: nat, i: nat)
    requires |iv| == 16 && |p| == 16 * n && i < n
    ensures var c := CbcEnc(k, iv, p, n);
      Block(c, i) == EncBlock(k, XorBytes(if i == 0 then iv else Block(c, i - 1), Block(p, i)))
    decreases n
  {
    hide EncBlock, XorBytes;
    var c := CbcEnc(k, iv, p, n);
    assert c[16..] == CbcEnc(k, c[..16], p[16..], n - 1);
    if i > 0 {
      CbcEncBlock(k, c[..16], p[16..], n - 1, i - 1);
      Later(c, i);
      Later(p, i);
      if i > 1 { Later(c, i - 1); }
    }
  }

  lemma {:induction false} CbcDecBlock(k: Keys, iv: seq<Byte>, c: seq<Byte>, n: nat, i: nat)
    requires |iv| == 16 && |c| == 16 * n && i < n
    ensures Block(CbcDec(k, iv, c, n), i) == XorBytes(DecBlock(k, Block(c, i)), if i == 0 then iv else Block(c, i - 1))
    decreases n
  {
    hide DecBlock, XorBytes;
    var p := CbcDec(k, iv, c, n);
    assert p[16..] == CbcDec(k, c[..16], c[16..], n - 1);
    if i > 0 {
      CbcDecBlock(k, c[..16], c[16..], n - 1, i - 1);
      Later(p, i);
      Later(c, i);
      if i > 1 { Later(c, i - 1); }
    }
  }

  lemma Later(t: seq<Byte>, i: nat)
    requires i > 0 && 16 * i + 16 <= |t|
    ensures Block(t, i) == Block(t[16..], i - 1)
  {
  }

  lemma XorTwice(a: seq<Byte>, b: seq<Byte>)
    requires |a| == |b|
    ensures XorBytes(XorBytes(a, b), a) == b
  {
    hide X;
    forall i | 0 <= i < |a| ensures X(X(a[i], b[i]), a[i]) == b[i] {
      AesProofs.XCommutes(a[i], b[i]);
      AesProofs.XCancels(b[i], a[i]);
    }
  }

  /** Decrypting what was encrypted gives it back: any key, any register, any number of blocks. */
  lemma {:induction false} CbcUndoes(k: Keys, iv: seq<Byte>, p: seq<Byte>, n: nat)
    requires |iv| == 16 && |p| == 16 * n
    ensures CbcDec(k, iv, CbcEnc(k, iv, p, n), n) == p
    decreases n
  {
    hide EncBlock, DecBlock, XorBytes;
    if n > 0 {
      var x := XorBytes(iv, p[..16]);
      var first := EncBlock(k, x);
      var rest := CbcEnc(k, first, p[16..], n - 1);
      assert (first + rest)[..16] == first && (first + rest)[16..] == rest;
      CbcUndoes(k, first, p[16..], n - 1);
      DecBlockUndoes(k, x);
      XorTwice(iv, p[..16]);
    }
  }

  /** The register after n blocks of ciphertext have passed. */
  function Register(iv: seq<Byte>, c: seq<Byte>, n: nat): (r: seq<Byte>)
    requires |iv| == 16 && |c| == 16 * n
    ensures |r| == 16
  {
    if n == 0 then iv else c[16 * (n - 1)..]
  }

  lemma RegisterIsLast(iv: seq<Byte>, c: seq<Byte>, b: seq<Byte>, n: nat)
    requires |iv| == 16 && |c| == 16 * n && |b| == 16
    ensures Register(iv, c + b, n + 1) == b
  {
  }

  /** Two calls, the second with the register the first left, do what one call does on all of it. */
  lemma {:induction false} CbcEncSplits(k: Keys, iv: seq<Byte>, a: seq<Byte>, m: nat, b: seq<Byte>, n: nat)
    requires |iv| == 16 && |a| == 16 * m && |b| == 16 * n
    ensures var c := CbcEnc(k, iv, a, m);
      CbcEnc(k, iv, a + b, m + n) == c + CbcEnc(k, Register(iv, c, m), b, n)
    decreases m
  {
    hide EncBlock, XorBytes;
    if m == 0 {
      assert a + b == b;
    } else {
      var first := EncBlock(k, XorBytes(iv, a[..16]));
      var rest := CbcEnc(k, first, a[16..], m - 1);
      assert (a + b)[..16] == a[..16] && (a + b)[16..] == a[16..] + b;
      CbcEncSplits(k, first, a[16..], m - 1, b, n);
      RegisterOfMore(iv, first, rest, m - 1);
    }
  }

  lemma CbcEmpty(k: Keys, iv: seq<Byte>)
    requires |iv| == 16
    ensures CbcEnc(k, iv, [], 0) == [] && CbcDec(k, iv, [], 0) == [] && Register(iv, [], 0) == iv
  {
  }

  lemma CbcEncOne(k: Keys, iv: seq<Byte>, p: seq<Byte>)
    requires |iv| == 16 && |p| == 16
    ensures CbcEnc(k, iv, p, 1) == EncBlock(k, XorBytes(iv, p))
  {
    hide EncBlock, XorBytes;
    assert p[..16] == p;
    assert CbcEnc(k, EncBlock(k, XorBytes(iv, p)), p[16..], 0) == [];
  }

  lemma CbcDecOne(k: Keys, iv: seq<Byte>, c: seq<Byte>)
    requires |iv| == 16 && |c| == 16
    ensures CbcDec(k, iv, c, 1) == XorBytes(DecBlock(k, c), iv)
  {
    hide DecBlock, XorBytes;
    assert c[..16] == c;
    assert CbcDec(k, c, c[16..], 0) == [];
  }

  lemma RegisterOfMore(iv: seq<Byte>, first: seq<Byte>, rest: seq<Byte>, n: nat)
    requires |iv| == 16 && |first| == 16 && |rest| == 16 * n
    ensures Register(iv, first + rest, n + 1) == Register(first, rest, n)
  {
  }

  lemma {:induction false} CbcDecSplits(k: Keys, iv: seq<Byte>, a: seq<Byte>, m: nat, b: seq<Byte>, n: nat)
    requires |iv| == 16 && |a| == 16 * m && |b| == 16 * n
    ensures CbcDec(k, iv, a + b, m + n) == CbcDec(k, iv, a, m) + CbcDec(k, Register(iv, a, m), b, n)
    decreases m
  {
    hide DecBlock, XorBytes;
    if m == 0 {
      assert a + b == b;
    } else {
      assert (a + b)[..16] == a[..16] && (a + b)[16..] == a[16..] + b && a == a[..16] + a[16..];
      CbcDecSplits(k, a[..16], a[16..], m - 1, b, n);
      RegisterOfMore(iv, a[..16], a[16..], m - 1);
    }
  }

  // ---- any sequence of calls

  function BlocksIn(a: seq<Byte>): (n: nat)
    requires |a| % 16 == 0
    ensures |a| == 16 * n
  {
    |a| / 16
  }

  predicate WholeBlocks(calls: seq<seq<Byte>>) {
    forall i :: 0 <= i < |calls| ==> |calls[i]| % 16 == 0
  }

  lemma {:induction false} ConcatBlocks(calls: seq<seq<Byte>>)
    requires WholeBlocks(calls)
    ensures |Concat(calls)| % 16 == 0
  {
    if calls != [] { ConcatBlocks(calls[1..]); }
  }

  /** What the calls of wc_AesCbcEncrypt put out, each going on with the register of the one before. */
  function EncCalls(k: Keys, iv: seq<Byte>, calls: seq<seq<Byte>>): seq<Byte>
    requires |iv| == 16 && WholeBlocks(calls)
    decreases |calls|
  {
    if calls == [] then []
    else
      var n := BlocksIn(calls[0]);
      var c := CbcEnc(k, iv, calls[0], n);
      c + EncCalls(k, Register(iv, c, n), calls[1..])
  }

  function DecCalls(k: Keys, iv: seq<Byte>, calls: seq<seq<Byte>>): seq<Byte>
    requires |iv| == 16 && WholeBlocks(calls)
    decreases |calls|
  {
    if calls == [] then []
    else
      var n := BlocksIn(calls[0]);
      CbcDec(k, iv, calls[0], n) + DecCalls(k, Register(iv, calls[0], n), calls[1..])
  }

  lemma {:induction false} EncCallsAreOne(k: Keys, iv: seq<Byte>, calls: seq<seq<Byte>>, n: nat)
    requires |iv| == 16 && WholeBlocks(calls) && |Concat(calls)| == 16 * n
    ensures EncCalls(k, iv, calls) == CbcEnc(k, iv, Concat(calls), n)
    decreases |calls|
  {
    hide CbcEnc, Register;
    if calls == [] {
      CbcEmpty(k, iv);
    } else {
      var a, m := calls[0], BlocksIn(calls[0]);
      var c := CbcEnc(k, iv, a, m);
      CbcEncSplits(k, iv, a, m, Concat(calls[1..]), n - m);
      EncCallsAreOne(k, Register(iv, c, m), calls[1..], n - m);
    }
  }

  lemma {:induction false} DecCallsAreOne(k: Keys, iv: seq<Byte>, calls: seq<seq<Byte>>, n: nat)
    requires |iv| == 16 && WholeBlocks(calls) && |Concat(calls)| == 16 * n
    ensures DecCalls(k, iv, calls) == CbcDec(k, iv, Concat(calls), n)
    decreases |calls|
  {
    hide CbcDec, Register;
    if calls == [] {
      CbcEmpty(k, iv);
    } else {
      var a, m := calls[0], BlocksIn(calls[0]);
      CbcDecSplits(k, iv, a, m, Concat(calls[1..]), n - m);
      DecCallsAreOne(k, Register(iv, a, m), calls[1..], n - m);
    }
  }

  /** However the plaintext and however the ciphertext are cut into calls, the plaintext comes back. */
  lemma AnyCallsUndo(k: Keys, iv: seq<Byte>, calls: seq<seq<Byte>>, others: seq<seq<Byte>>)
    requires |iv| == 16 && WholeBlocks(calls) && WholeBlocks(others)
    requires Concat(others) == EncCalls(k, iv, calls)
    ensures DecCalls(k, iv, others) == Concat(calls)
  {
    hide CbcEnc, CbcDec, EncCalls, DecCalls;
    ConcatBlocks(calls);
    var n := |Concat(calls)| / 16;
    EncCallsAreOne(k, iv, calls, n);
    DecCallsAreOne(k, iv, others, n);
    CbcUndoes(k, iv, Concat(calls), n);
  }
}
