/**
 * The two loops that put the backslashes on and take them off, on character buffers
 * that end in a zero (kconfig/symbol.c:915-956, kconfig/confdata.c:155-170).
 */
module ConfBuffer {
  import opened ConfText
  import opened Machine
  import opened Sequences

  /** strcat and strncat */
  method StrCat(a: array<char>, more: string, ghost s: string)
    requires HoldsAt(a, 0, s) && NUL !in more && |s| + |more| < a.Length
    modifies a
    ensures HoldsAt(a, 0, s + more)
  {
    var n := StrLen(a, 0, s);
    for i := 0 to |more|
      invariant a[..n] == s && a[n..n + i] == more[..i]
    {
      a[n + i] := more[i];
    }
    a[n + |more|] := NUL;
    assert a[..n] == s && a[n..n + |more|] == more[..|more|] == more;
    assert a[0..|s + more|] == a[..n] + a[n..n + |more|];
  }

  function Specials(s: string): nat {
    if s == [] then 0 else (if Special(s[0]) then 1 else 0) + Specials(s[1..])
  }

  lemma {:induction false} EscapeParts(s: string, i: nat)
    requires i <= |s|
    ensures Escape(s) == Escape(s[..i]) + Escape(s[i..]) && Specials(s) == Specials(s[..i]) + Specials(s[i..])
  {
    if i == 0 {
      assert s[..0] == [] && s[0..] == s;
    } else {
      EscapeParts(s[1..], i - 1);
      assert s[..i][1..] == s[1..][..i - 1] && s[1..][i - 1..] == s[i..];
    }
  }

  lemma {:induction false} EscapePlain(s: string)
    requires forall i :: 0 <= i < |s| ==> !Special(s[i])
    ensures Escape(s) == s && Specials(s) == 0
  {
    if s != [] {
      EscapePlain(s[1..]);
      assert s == [s[0]] + s[1..];
    }
  }

  lemma {:induction false} EscapeLength(s: string)
    ensures |Escape(s)| == |s| + Specials(s) && (NUL !in s ==> NUL !in Escape(s))
  {
    if s != [] { EscapeLength(s[1..]); }
  }

  /** strcspn(p, "\"\\") */
  method StrCSpn(s: string, p: nat) returns (l: nat)
    requires p <= |s|
    ensures p + l <= |s| && (p + l < |s| ==> Special(s[p + l]))
    ensures forall i :: p <= i < p + l ==> !Special(s[i])
  {
    l := 0;
    while p + l < |s| && !Special(s[p + l])
      invariant p + l <= |s| && forall i :: p <= i < p + l ==> !Special(s[i])
    {
      l := l + 1;
    }
  }

  /** A plain stretch, and one special character behind it. */
  lemma NextSpecial(s: string, p: nat, l: nat)
    requires p + l < |s| && Special(s[p + l]) && forall i :: p <= i < p + l ==> !Special(s[i])
    ensures Escape(s[..p + l + 1]) == Escape(s[..p]) + s[p..p + l] + "\\" + [s[p + l]]
    ensures Specials(s[..p + l + 1]) == Specials(s[..p]) + 1
  {
    var t := s[..p + l + 1];
    EscapeParts(t, p);
    assert t[..p] == s[..p];
    var u := t[p..];
    EscapeParts(u, l);
    EscapePlain(u[..l]);
    assert u[..l] == s[p..p + l] && u[l..] == [s[p + l]];
    assert Escape([s[p + l]]) == ['\\', s[p + l]] + Escape([]);
  }

  lemma LastStretch(s: string, p: nat)
    requires p <= |s| && forall i :: p <= i < |s| ==> !Special(s[i])
    ensures Escape(s) == Escape(s[..p]) + s[p..] && Specials(s) == Specials(s[..p])
  {
    EscapeParts(s, p);
    EscapePlain(s[p..]);
  }

  /** The first loop of sym_escape_string_value: the size of the result. */
  method EscapedSize(input: string) returns (reslen: nat)
    ensures reslen == |Quote(input)| + 1
  {
    reslen := |input| + 2 + 1;
    var p := 0;
    while true
      invariant p <= |input| && reslen == |input| + 3 + Specials(input[..p])
      decreases |input| - p
    {
      var l := StrCSpn(input, p);
      if p + l == |input| {
        LastStretch(input, p);
        break;
      }
      NextSpecial(input, p, l);
      p := p + l;
      reslen := reslen + 1;
      p := p + 1;
    }
    EscapeLength(input);
  }

  /** sym_escape_string_value: the buffer is exactly large enough. */
  method EscapeStringValue(input: string) returns (res: array<char>)
    requires NUL !in input
    ensures fresh(res) && res.Length == |Quote(input)| + 1 && HoldsAt(res, 0, Quote(input))
  {
    hide HoldsAt, Escape, Specials;
    var reslen := EscapedSize(input);
    res := StartString(reslen);
    StrCat(res, "\"", "");
    EscapeLength(input);
    var p := 0;
    EscapeNothing(input);
    ghost var s := "\"";
    while true
      invariant p <= |input| && s == "\"" + Escape(input[..p]) && HoldsAt(res, 0, s)
      decreases |input| - p
    {
      var l := StrCSpn(input, p);
      EscapeBound(input, p);
      if p + l == |input| {
        LastStretch(input, p);
        assert input[p..p + l] == input[p..];
        StrCat(res, input[p..p + l], s);
        s := "\"" + Escape(input);
        assert s == "\"" + Escape(input[..p]) + input[p..];
        break;
      }
      NextSpecial(input, p, l);
      EscapeBound(input, p + l + 1);
      assert "\"" + (Escape(input[..p]) + input[p..p + l] + "\\" + [input[p + l]])
        == s + input[p..p + l] + "\\" + [input[p + l]];
      PutEscaped(res, input[p..p + l], input[p + l], s);
      s := s + input[p..p + l] + "\\" + [input[p + l]];
      p := p + l + 1;
    }
    StrCat(res, "\"", s);
  }

  /** symbol.c:945-952 */
  method PutEscaped(res: array<char>, plain: string, c: char, ghost s: string)
    requires HoldsAt(res, 0, s) && NUL !in plain && c != NUL && |s| + |plain| + 2 < res.Length
    modifies res
    ensures HoldsAt(res, 0, s + plain + "\\" + [c])
  {
    hide HoldsAt;
    StrCat(res, plain, s);
    StrCat(res, "\\", s + plain);
    StrCat(res, [c], s + plain + "\\");
  }

  lemma EscapeNothing(s: string)
    ensures Escape(s[..0]) == []
  {
  }

  lemma EscapeBound(s: string, p: nat)
    requires p <= |s|
    ensures |Escape(s[..p])| <= |Escape(s)|
  {
    EscapeParts(s, p);
  }

  method StartString(size: nat) returns (res: array<char>)
    requires size > 0
    ensures fresh(res) && res.Length == size && HoldsAt(res, 0, "")
  {
    res := new char[size];
    res[0] := NUL;
  }

  /** strpbrk(p2, "\"\\"), as an index into the buffer. */
  method StrPBrk(a: array<char>, at: nat, ghost s: string) returns (found: bool, i: nat)
    requires HoldsAt(a, at, s)
    ensures found ==> at <= i < at + |s| && Special(a[i]) && forall k :: at <= k < i ==> !Special(a[k])
    ensures !found ==> forall k :: at <= k < at + |s| ==> !Special(a[k])
  {
    assert forall k :: at <= k < at + |s| ==> a[k] == s[k - at] && s[k - at] in s;
    i := at;
    while a[i] != NUL && !Special(a[i])
      invariant at <= i <= at + |s| && forall k :: at <= k < i ==> !Special(a[k])
      decreases at + |s| - i
    {
      i := i + 1;
    }
    found := a[i] != NUL;
  }

  /** memmove(p2, p2 + 1, strlen(p2)): the first character of the string goes. */
  method DropFirst(a: array<char>, at: nat, ghost s: string)
    requires HoldsAt(a, at, s) && s != []
    modifies a
    ensures a[..at] == old(a[..at]) && HoldsAt(a, at, s[1..]) && a[at + |s|] == NUL
  {
    var n := StrLen(a, at, s);
    ghost var was := a[..];
    assert was[at..at + |s|] == s;
    for i := 0 to n
      invariant a[..at] == was[..at] && a[at..at + i] == was[at + 1..at + 1 + i] && a[at + i..] == was[at + i..]
    {
      assert a[at + i..][1] == was[at + i..][1];
      a[at + i] := a[at + i + 1];
      assert a[at..at + i + 1] == a[at..at + i] + [a[at + i]];
      assert was[at + 1..at + 2 + i] == was[at + 1..at + 1 + i] + [was[at + 1 + i]];
    }
    assert was[at + 1..at + n] == s[1..];
    assert a[at..at + n][..n - 1] == a[at..at + n - 1];
    assert was[at + 1..at + 1 + n][..n - 1] == was[at + 1..at + n];
  }

  lemma {:induction false} UnquoteSkips(x: string, t: string)
    requires forall i :: 0 <= i < |x| ==> !Special(x[i])
    ensures var r := Unquote(t); Unquote(x + t) == if r.None? then None else Some(x + r.value)
  {
    var r := Unquote(t);
    if x == [] {
      assert x + t == t && (r.Some? ==> x + r.value == r.value);
    } else {
      UnquoteSkips(x[1..], t);
      assert (x + t)[1..] == x[1..] + t && (x + t)[0] == x[0];
      if r.Some? { assert x + r.value == [x[0]] + (x[1..] + r.value); }
    }
  }

  lemma {:induction false} UnquotePlain(x: string)
    requires forall i :: 0 <= i < |x| ==> !Special(x[i])
    ensures Unquote(x) == None
  {
    if x != [] { UnquotePlain(x[1..]); }
  }

  /** What the loop has done so far: done is kept, rest is still to be read. */
  ghost predicate Progress(t: string, done: string, rest: string) {
    var r := Unquote(rest);
    Unquote(t) == if r.None? then None else Some(done + r.value)
  }

  lemma Quoted(t: string, done: string, rest: string, l: nat)
    requires Progress(t, done, rest) && l < |rest| && rest[l] == '"'
    requires forall i :: 0 <= i < l ==> !Special(rest[i])
    ensures Unquote(t) == Some(done + rest[..l])
  {
    assert rest == rest[..l] + rest[l..];
    UnquoteSkips(rest[..l], rest[l..]);
    assert done + (rest[..l] + []) == done + rest[..l];
  }

  lemma Escaped(t: string, done: string, rest: string, l: nat)
    requires Progress(t, done, rest) && l < |rest| && rest[l] == '\\'
    requires forall i :: 0 <= i < l ==> !Special(rest[i])
    ensures if l + 1 < |rest| then Progress(t, done + rest[..l] + [rest[l + 1]], rest[l + 2..]) else Unquote(t) == None
  {
    var x, u := rest[..l], rest[l..];
    assert rest == x + u;
    UnquoteSkips(x, u);
    if l + 1 < |rest| {
      assert u[2..] == rest[l + 2..];
      var r := Unquote(u[2..]);
      if r.Some? {
        assert done + (x + ([u[1]] + r.value)) == (done + x + [u[1]]) + r.value;
      }
    }
  }

  lemma Shift(a: array<char>, at: nat, s: string, l: nat)
    requires HoldsAt(a, at, s) && l <= |s|
    ensures HoldsAt(a, at + l, s[l..]) && a[at..at + l] == s[..l]
  {
    assert a[at + l..at + |s|] == a[at..at + |s|][l..];
    assert a[at..at + l] == a[at..at + |s|][..l];
  }

  lemma Join(a: array<char>, at: nat, x: string, y: string)
    requires at + |x| <= a.Length && a[at..at + |x|] == x && NUL !in x && HoldsAt(a, at + |x|, y)
    ensures HoldsAt(a, at, x + y)
  {
    assert a[at..at + |x + y|] == a[at..at + |x|] + a[at + |x|..at + |x| + |y|];
  }

  /** One character of a string goes. */
  method DropAt(a: array<char>, at: nat, k: nat, ghost s: string)
    requires HoldsAt(a, at, s) && k < |s|
    modifies a
    ensures HoldsAt(a, at, s[..k] + s[k + 1..]) && a[at + |s|] == NUL
  {
    Shift(a, at, s, k);
    assert a[..at + k][at..] == s[..k];
    DropFirst(a, at + k, s[k..]);
    assert a[at..at + k] == a[..at + k][at..];
    assert s[k..][1..] == s[k + 1..];
    Join(a, at, s[..k], s[k + 1..]);
  }

  /** A string ends where a zero is put. */
  method CutAt(a: array<char>, at: nat, k: nat, ghost s: string)
    requires HoldsAt(a, at, s) && k <= |s|
    modifies a
    ensures HoldsAt(a, at, s[..k])
  {
    Shift(a, at, s, k);
    a[at + k] := NUL;
  }

  /**
   * The loop at confdata.c:158-169, on the text t behind the opening quote: false when
   * there is no closing quote, and otherwise the string is left where the text was.
   * After a backslash at the very end the loop stands on the zero that was there before.
   */
  method UnquoteInPlace(a: array<char>, at: nat, ghost t: string) returns (ok: bool)
    requires HoldsAt(a, at, t)
    modifies a
    ensures ok <==> Unquote(t).Some?
    ensures ok ==> HoldsAt(a, at, Unquote(t).value)
  {
    hide HoldsAt, Progress, Unquote;
    var p2: nat := at;
    ghost var done, rest, over := "", t, false;
    StartProgress(t);
    while true
      invariant if over then rest == "" && Unquote(t) == None && HoldsAt(a, p2, "")
        else p2 == at + |done| && HoldsAt(a, at, done + rest) && Progress(t, done, rest)
      decreases !over, |rest|
    {
      if !over { Behind(a, at, done, rest); }
      var found, i := StrPBrk(a, p2, rest);
      Between(a, p2, rest);
      if !found {
        if !over { NothingLeft(t, done, rest); }
        return false;
      }
      ghost var l := i - p2;
      if a[i] == '"' {
        Quoted(t, done, rest, l);
        CutAt(a, at, i - at, done + rest);
        FrontOf(done, rest, l);
        return true;
      }
      Escaped(t, done, rest, l);
      DropAt(a, at, i - at, done + rest);
      p2 := i + 1;
      if l + 1 < |rest| {
        WithoutOne(done, rest, l);
        done, rest := done + rest[..l] + [rest[l + 1]], rest[l + 2..];
      } else {
        Ends(a, p2);
        over, rest := true, "";
      }
    }
  }

  lemma NothingLeft(t: string, done: string, rest: string)
    requires Progress(t, done, rest) && forall i :: 0 <= i < |rest| ==> !Special(rest[i])
    ensures Unquote(t) == None
  {
    UnquotePlain(rest);
  }

  lemma FrontOf(done: string, rest: string, l: nat)
    requires l <= |rest|
    ensures (done + rest)[..|done| + l] == done + rest[..l]
  {
  }

  lemma WithoutOne(done: string, rest: string, l: nat)
    requires l + 1 < |rest|
    ensures (done + rest)[..|done| + l] + (done + rest)[|done| + l + 1..] == (done + rest[..l] + [rest[l + 1]]) + rest[l + 2..]
  {
  }

  lemma Ends(a: array<char>, at: nat)
    requires at < a.Length && a[at] == NUL
    ensures HoldsAt(a, at, "")
  {
  }

  lemma StartProgress(t: string)
    ensures Progress(t, "", t) && "" + t == t
  {
    assert "" + t == t;
    var r := Unquote(t);
    if r.Some? { assert "" + r.value == r.value; }
  }

  lemma Behind(a: array<char>, at: nat, done: string, rest: string)
    requires HoldsAt(a, at, done + rest)
    ensures HoldsAt(a, at + |done|, rest)
  {
    Shift(a, at, done + rest, |done|);
    assert (done + rest)[|done|..] == rest;
  }

  lemma Between(a: array<char>, at: nat, s: string)
    requires HoldsAt(a, at, s)
    ensures at + |s| < a.Length && forall k :: at <= k < at + |s| ==> a[k] == s[k - at]
    ensures forall k :: 0 <= k < |s| ==> a[at + k] == s[k]
  {
    assert forall k :: 0 <= k < |s| ==> a[at..at + |s|][k] == s[k];
  }

  /** The case of a string in conf_set_sym_val: the value lies behind the quote. */
  method SetString(a: array<char>, at: nat, ghost p: string) returns (ok: bool)
    requires HoldsAt(a, at, p)
    modifies a
    ensures ok <==> SetSymVal(Str, p).Some?
    ensures ok ==> HoldsAt(a, at + 1, SetSymVal(Str, p).value.s)
  {
    Between(a, at, p);
    if a[at] != '"' {
      return false;
    }
    Shift(a, at, p, 1);
    ok := UnquoteInPlace(a, at + 1, p[1..]);
  }

  /** Through both buffers: the string comes back, whatever characters it has. */
  method ThereAndBack(input: string) returns (res: array<char>)
    requires NUL !in input
    ensures fresh(res) && HoldsAt(res, 1, input)
  {
    res := EscapeStringValue(input);
    UnquoteUndoes(input, "");
    var p := Quote(input);
    assert p[1..] == Escape(input) + "\"" && Escape(input) + "\"" + "" == p[1..];
    var ok := SetString(res, 0, p);
  }
}
