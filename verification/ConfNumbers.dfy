/**
 * Which strings are accepted as numbers (kconfig/symbol.c:552-593): exactly the numerals of
 * the integers, and for hex those of the natural numbers.
 */
module ConfNumbers {
  import opened ConfText

  predicate Base(b: nat) { b == 10 || b == 16 }

  function DigitChar(k: nat): char
    requires k < 16
  {
    if k < 10 then '0' + k as char else 'a' + (k - 10) as char
  }

  predicate IsDigit(c: char, b: nat) { '0' <= c <= '9' || (b == 16 && 'a' <= c <= 'f') }

  function DigitValue(c: char, b: nat): (k: nat)
    requires IsDigit(c, b) && Base(b)
    ensures k < b && DigitChar(k) == c
  {
    if c <= '9' then (c - '0') as nat else (c - 'a') as nat + 10
  }

  /** A number in base ten or sixteen, without leading zeros. */
  function Numeral(n: nat, b: nat): (s: string)
    requires Base(b)
    ensures s != []
    decreases n
  {
    if n < b then [DigitChar(n)] else Numeral(n / b, b) + [DigitChar(n % b)]
  }

  predicate AllDigits(s: string, b: nat) { forall i :: 0 <= i < |s| ==> IsDigit(s[i], b) }

  predicate Plain(s: string, b: nat) { s != [] && AllDigits(s, b) && (s[0] == '0' ==> |s| == 1) }

  lemma {:induction false} NumeralIsPlain(n: nat, b: nat)
    requires Base(b)
    ensures Plain(Numeral(n, b), b) && (n > 0 ==> Numeral(n, b)[0] != '0')
    decreases n
  {
    if n >= b { NumeralIsPlain(n / b, b); }
  }

  function Number(s: string, b: nat): nat
    requires AllDigits(s, b) && Base(b)
  {
    if s == [] then 0 else b * Number(s[..|s| - 1], b) + DigitValue(s[|s| - 1], b)
  }

  lemma OneMore(n: nat, k: nat, b: nat)
    requires Base(b) && k < b && n > 0
    ensures b * n + k >= b && (b * n + k) / b == n && (b * n + k) % b == k
  {
    if b == 10 { assert (10 * n + k) / 10 == n; } else { assert (16 * n + k) / 16 == n; }
  }

  lemma {:induction false} PlainIsNumeral(s: string, b: nat)
    requires Base(b) && Plain(s, b)
    ensures Numeral(Number(s, b), b) == s && (s[0] != '0' ==> Number(s, b) > 0)
  {
    var last := DigitValue(s[|s| - 1], b);
    if |s| == 1 {
      assert s[..0] == [];
    } else {
      PlainIsNumeral(s[..|s| - 1], b);
      OneMore(Number(s[..|s| - 1], b), last, b);
    }
  }

  // ---- integers

  function Decimal(n: int): string { if n < 0 then "-" + Numeral(-n, 10) else Numeral(n, 10) }

  /** A valid int is an integer in decimal, or -0. */
  lemma IntValidExact(s: string)
    ensures IntValid(s) <==> s == "-0" || exists n :: s == Decimal(n)
  {
    var d := Unsigned(s);
    if IntValid(s) {
      assert Plain(d, 10);
      PlainIsNumeral(d, 10);
      var n: int := Number(d, 10);
      if d == s { assert s == Decimal(n); } else { assert s == "-" + d && (n > 0 ==> s == Decimal(-n)); }
    }
    forall n | s == Decimal(n) ensures IntValid(s) { DecimalValid(n); }
  }

  lemma DecimalValid(n: int)
    ensures IntValid(Decimal(n))
  {
    var d := Numeral(if n < 0 then -n else n, 10);
    NumeralIsPlain(if n < 0 then -n else n, 10);
    assert IsDigit(d[0], 10);
    assert Unsigned(Decimal(n)) == d;
    hide Numeral;
  }

  // ---- hex

  function Lower(c: char): char { if 'A' <= c <= 'F' || c == 'X' then c + 32 as char else c }

  function LowerAll(s: string): (t: string)
    ensures |t| == |s| && forall i :: 0 <= i < |s| ==> t[i] == Lower(s[i])
  {
    seq(|s|, i requires 0 <= i < |s| => Lower(s[i]))
  }

  function Zeros(z: nat): string { seq(z, _ => '0') }

  /** Leading zeros and a number in hex. */
  ghost predicate Padded(s: string) { exists z: nat, n: nat :: s == Zeros(z) + Numeral(n, 16) }

  lemma {:induction false} DigitsArePadded(s: string)
    requires s != [] && AllDigits(s, 16)
    ensures Padded(s)
  {
    if s[0] == '0' && |s| > 1 {
      DigitsArePadded(s[1..]);
      var z: nat, n: nat :| s[1..] == Zeros(z) + Numeral(n, 16);
      assert Zeros(z + 1) == "0" + Zeros(z);
      assert s == "0" + s[1..];
      assert s == Zeros(z + 1) + Numeral(n, 16);
    } else {
      PlainIsNumeral(s, 16);
      assert s == Zeros(0) + Numeral(Number(s, 16), 16);
    }
  }

  lemma PaddedAreDigits(s: string)
    requires Padded(s)
    ensures s != [] && AllDigits(s, 16)
  {
    var z: nat, n: nat :| s == Zeros(z) + Numeral(n, 16);
    NumeralIsPlain(n, 16);
  }

  /** A valid hex value is a natural number in hex, with 0x before it or not, in letters of either case. */
  lemma HexValidExact(s: string)
    ensures var t := LowerAll(s); HexValid(s) <==> Padded(t) || (StartsWith(t, "0x") && Padded(t[2..]))
  {
    var t, d := LowerAll(s), Unprefixed(s);
    assert StartsWith(t, "0x") <==> d != s by {
      if |s| >= 2 { assert t[..2] == [t[0], t[1]]; }
    }
    assert forall c :: HexDigit(c) <==> IsDigit(Lower(c), 16);
    var u := if d == s then t else t[2..];
    assert HexValid(s) <==> u != [] && AllDigits(u, 16);
    if HexValid(s) {
      DigitsArePadded(u);
    }
    if Padded(t) { PaddedAreDigits(t); }
    if StartsWith(t, "0x") && Padded(t[2..]) { PaddedAreDigits(t[2..]); }
  }
}
