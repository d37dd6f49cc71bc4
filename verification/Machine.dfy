/** The target: 32-bit words, and strings that end in a zero. */
module Machine {

  const WORD: int := 0x1_0000_0000

  const NUL: char := '\0'

  /** The string at a place in a buffer. */
  ghost predicate HoldsAt(a: array<char>, at: nat, s: string)
    reads a
  {
    at + |s| < a.Length && a[at..at + |s|] == s && a[at + |s|] == NUL && NUL !in s
  }

  /** strlen */
  method StrLen(a: array<char>, at: nat, ghost s: string) returns (n: nat)
    requires HoldsAt(a, at, s)
    ensures n == |s|
  {
    assert forall i :: at <= i < at + |s| ==> a[i] == s[i - at] && s[i - at] in s;
    n := 0;
    while a[at + n] != NUL
      invariant n <= |s|
      decreases |s| - n
    {
      n := n + 1;
    }
  }
}
