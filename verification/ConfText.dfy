/**
 * The text of a configuration file: what kconfig_print_symbol writes
 * (kconfig/confdata.c:481-502, 623-642) and what conf_read_simple makes of it
 * (kconfig/confdata.c:120-188, 307-377), for symbols that are no choices.
 */
module ConfText {
  import opened Sequences

  datatype Kind = Boolean | Tristate | Int | Hex | Str

  /** def[S_DEF_USER] of a symbol: the tristate as its letter, or the string. */
  datatype Setting = Letter(c: char) | Text(s: string)

  const CONFIG: string := "CONFIG_"

  // ---- strings in quotes

  predicate Special(c: char) { c == '"' || c == '\\' }

  /** Between the quotes, the two special characters get a backslash before them. */
  function Escape(s: string): string {
    if s == [] then []
    else if Special(s[0]) then ['\\', s[0]] + Escape(s[1..])
    else [s[0]] + Escape(s[1..])
  }

  /** sym_escape_string_value */
  function Quote(s: string): string { "\"" + Escape(s) + "\"" }

  /**
   * The loop of conf_set_sym_val on the text behind the opening quote: up to the first
   * quote without a backslash before it, and with one backslash taken off each pair.
   */
  function Unquote(t: string): Option<string> {
    if t == [] then None
    else if t[0] == '"' then Some([])
    else if t[0] == '\\' then
      if |t| == 1 then None
      else
        var r := Unquote(t[2..]);
        if r.None? then None else Some([t[1]] + r.value)
    else
      var r := Unquote(t[1..]);
      if r.None? then None else Some([t[0]] + r.value)
  }

  /** Taking off what was put on gives the string back, whatever stands behind the quote. */
  lemma {:induction false} UnquoteUndoes(s: string, rest: string)
    ensures Unquote(Escape(s) + "\"" + rest) == Some(s)
  {
    var t := Escape(s) + "\"" + rest;
    if s == [] {
      assert t == "\"" + rest;
    } else {
      UnquoteUndoes(s[1..], rest);
      var u := Escape(s[1..]) + "\"" + rest;
      if Special(s[0]) {
        assert t == ['\\', s[0]] + u && t[2..] == u;
      } else {
        assert t == [s[0]] + u && t[1..] == u;
      }
      assert s == [s[0]] + s[1..];
    }
  }

  // ---- numbers

  predicate Digit(c: char) { '0' <= c <= '9' }

  predicate HexDigit(c: char) { Digit(c) || 'a' <= c <= 'f' || 'A' <= c <= 'F' }

  function Unsigned(s: string): string { if s != [] && s[0] == '-' then s[1..] else s }

  function Unprefixed(s: string): string {
    if |s| >= 2 && s[0] == '0' && (s[1] == 'x' || s[1] == 'X') then s[2..] else s
  }

  /** sym_string_valid for int: a decimal number without leading zeros. */
  predicate IntValid(s: string) {
    var d := Unsigned(s);
    d != [] && Digit(d[0]) && (d[0] == '0' ==> |d| == 1) && forall i :: 0 <= i < |d| ==> Digit(d[i])
  }

  /** sym_string_valid for hex */
  predicate HexValid(s: string) {
    var d := Unprefixed(s);
    d != [] && forall i :: 0 <= i < |d| ==> HexDigit(d[i])
  }

  predicate StringValid(k: Kind, s: string) {
    match k
    case Str => true
    case Int => IntValid(s)
    case Hex => HexValid(s)
    case _ => s != [] && s[0] in "yYmMnN"
  }

  // ---- writing

  /** conf_write_symbol with kconfig_print_symbol, where nothing is skipped. */
  function WriteSymbol(name: string, k: Kind, value: string): string {
    if (k == Boolean || k == Tristate) && value != [] && value[0] == 'n' then
      "# " + CONFIG + name + " is not set\n"
    else
      CONFIG + name + "=" + (if k == Str then Quote(value) else value) + "\n"
  }

  /** sym_get_string_value of what is set. */
  function ValueText(s: Setting): string {
    match s
    case Letter(c) => [c]
    case Text(t) => t
  }

  // ---- reading

  function Find(s: string, c: char): (i: nat)
    ensures i <= |s| && (i < |s| ==> s[i] == c) && forall j :: 0 <= j < i ==> s[j] != c
  {
    if s == [] || s[0] == c then 0 else 1 + Find(s[1..], c)
  }

  predicate StartsWith(s: string, p: string) { |p| <= |s| && s[..|p|] == p }

  /** conf_set_sym_val: the new setting, or None if there is none. */
  function SetSymVal(k: Kind, p: string): Option<Setting> {
    match k
    case Tristate =>
      if p != [] && p[0] == 'm' then Some(Letter('m'))
      else if p != [] && p[0] == 'y' then Some(Letter('y'))
      else if p != [] && p[0] == 'n' then Some(Letter('n'))
      else None
    case Boolean =>
      if p != [] && p[0] == 'y' then Some(Letter('y'))
      else if p != [] && p[0] == 'n' then Some(Letter('n'))
      else None
    case Str =>
      if p == [] || p[0] != '"' then None
      else
        var r := Unquote(p[1..]);
        if r.None? then None else Some(Text(r.value))
    case _ => if StringValid(k, p) then Some(Text(p)) else None
  }

  /** The settings that are known, and the symbols there are. */
  type Settings = map<string, Setting>

  type Symbols = map<string, Kind>

  /** A comment line: "is not set" behind the name of a boolean or tristate symbol means n. */
  function ReadComment(line: string, syms: Symbols, st: Settings): Settings {
    if |line| < 2 || !StartsWith(line[2..], CONFIG) then st
    else
      var rest := line[2 + |CONFIG|..];
      var sp := Find(rest, ' ');
      if sp == |rest| || !StartsWith(rest[sp + 1..], "is not set") then st
      else
        var name := rest[..sp];
        if name in syms && (syms[name] == Boolean || syms[name] == Tristate) then st[name := Letter('n')] else st
  }

  /** The end of the line and a carriage return before it do not belong to the value. */
  function Trim(p: string): string {
    var nl := Find(p, '\n');
    if nl == |p| then p
    else if nl > 0 && p[nl - 1] == '\r' then p[..nl - 1]
    else p[..nl]
  }

  function ReadAssignment(line: string, syms: Symbols, st: Settings): Settings {
    var rest := line[if |CONFIG| <= |line| then |CONFIG| else |line|..];
    var eq := Find(rest, '=');
    if eq == |rest| then st
    else
      var name := rest[..eq];
      if name !in syms then st
      else
        var v := SetSymVal(syms[name], Trim(rest[eq + 1..]));
        if v.None? then st else st[name := v.value]
  }

  /** The body of the loop of conf_read_simple for S_DEF_USER; line still has its newline. */
  function ReadLine(line: string, syms: Symbols, st: Settings): Settings {
    if line != [] && line[0] == '#' then ReadComment(line, syms, st)
    else if StartsWith(line, CONFIG) then ReadAssignment(line, syms, st)
    else st
  }

  /** All lines, as compat_getline delivers them. */
  function ReadText(text: string, syms: Symbols, st: Settings): Settings
    decreases |text|
  {
    if text == [] then st
    else
      var nl := Find(text, '\n');
      if nl == |text| then ReadLine(text, syms, st)
      else ReadText(text[nl + 1..], syms, ReadLine(text[..nl + 1], syms, st))
  }

  // ---- writing and reading back

  /** Names as the Kconfig language has them. */
  predicate Name(s: string) {
    forall i :: 0 <= i < |s| ==> s[i] != '=' && s[i] != ' ' && s[i] != '\n'
  }

  /** What a symbol of that kind can be set to and still be written on one line. */
  predicate Fits(k: Kind, v: Setting) {
    match v
    case Letter(c) => c == 'y' || c == 'n' || (c == 'm' && k == Tristate)
    case Text(s) => (k == Int || k == Hex || k == Str) && StringValid(k, s) && '\n' !in s
  }

  predicate KindMatches(k: Kind, v: Setting) {
    v.Letter? <==> k == Boolean || k == Tristate
  }

  lemma FindIn(a: string, c: char, b: string)
    requires c !in a
    ensures Find(a + [c] + b, c) == |a|
  {
    var s := a + [c] + b;
    assert s[|a|] == c;
    assert forall k :: 0 <= k < |a| ==> s[k] == a[k] && a[k] in a;
  }

  lemma {:induction false} EscapeNoNewline(s: string)
    requires '\n' !in s
    ensures '\n' !in Escape(s)
  {
    if s != [] { EscapeNoNewline(s[1..]); }
  }

  lemma TrimNewline(p: string)
    requires '\n' !in p && (p != [] ==> p[|p| - 1] != '\r')
    ensures Trim(p + "\n") == p
  {
    hide Find;
    var t := p + ['\n'] + "";
    assert t == p + "\n";
    FindIn(p, '\n', "");
    assert t[..|p|] == p && (p != [] ==> t[|p| - 1] == p[|p| - 1]);
  }

  lemma AssignmentParts(name: string, tail: string)
    ensures var line := CONFIG + name + "=" + tail;
      StartsWith(line, CONFIG) && line[0] != '#' && line[|CONFIG|..] == name + ['='] + tail
  {
    var line := CONFIG + name + "=" + tail;
    assert line == CONFIG + (name + "=" + tail);
    assert line[..|CONFIG|] == CONFIG;
  }

  /** The line of a symbol that is not set to n, taken apart again. */
  lemma ReadAssigned(name: string, p: string, syms: Symbols, st: Settings)
    requires Name(name) && name in syms && '\n' !in p && (p != [] ==> p[|p| - 1] != '\r')
    ensures ReadLine(CONFIG + name + "=" + p + "\n", syms, st)
      == var v := SetSymVal(syms[name], p); if v.None? then st else st[name := v.value]
  {
    hide Find, Trim, SetSymVal, StartsWith;
    var tail := p + "\n";
    var line := CONFIG + name + "=" + tail;
    assert line == CONFIG + name + "=" + p + "\n";
    AssignmentParts(name, tail);
    var rest := name + ['='] + tail;
    FindIn(name, '=', tail);
    assert rest[..|name|] == name && rest[|name| + 1..] == tail;
    TrimNewline(p);
    assert ReadLine(line, syms, st) == ReadAssignment(line, syms, st);
  }

  lemma ReadUnset(name: string, syms: Symbols, st: Settings)
    requires Name(name) && name in syms && (syms[name] == Boolean || syms[name] == Tristate)
    ensures ReadLine("# " + CONFIG + name + " is not set\n", syms, st) == st[name := Letter('n')]
  {
    var line := "# " + CONFIG + name + " is not set\n";
    var tail := "is not set\n";
    assert line[2..] == CONFIG + (name + " is not set\n");
    assert StartsWith(line[2..], CONFIG);
    var rest := line[2 + |CONFIG|..];
    assert rest == name + [' '] + tail;
    FindIn(name, ' ', tail);
    assert rest[..|name|] == name && rest[|name| + 1..] == tail;
    assert tail[..10] == "is not set";
  }

  lemma NumberEnds(k: Kind, s: string)
    requires (k == Int && IntValid(s)) || (k == Hex && HexValid(s))
    ensures s != [] && HexDigit(s[|s| - 1])
  {
    var d := if k == Int then Unsigned(s) else Unprefixed(s);
    assert d[|d| - 1] == s[|s| - 1];
  }

  /** What is written for a symbol restores it, and changes nothing else. */
  lemma WrittenLineRestores(name: string, v: Setting, syms: Symbols, st: Settings)
    requires Name(name) && name in syms && KindMatches(syms[name], v) && Fits(syms[name], v)
    ensures ReadLine(WriteSymbol(name, syms[name], ValueText(v)), syms, st) == st[name := v]
  {
    var k := syms[name];
    match v {
      case Letter(c) =>
        if c == 'n' {
          ReadUnset(name, syms, st);
        } else {
          ReadAssigned(name, [c], syms, st);
        }
      case Text(s) =>
        if k == Str {
          EscapeNoNewline(s);
          UnquoteUndoes(s, "");
          assert Quote(s)[1..] == Escape(s) + "\"" + "";
          ReadAssigned(name, Quote(s), syms, st);
        } else {
          NumberEnds(k, s);
          ReadAssigned(name, s, syms, st);
        }
    }
  }

  // ---- whole files

  /** What conf_write writes: symbols, and titles of menus. */
  datatype Item = Symbol(name: string, value: Setting) | Title(text: string)

  predicate Writable(it: Item, syms: Symbols) {
    match it
    case Symbol(name, v) => Name(name) && name in syms && KindMatches(syms[name], v) && Fits(syms[name], v)
    case Title(t) => '\n' !in t
  }

  function ItemText(it: Item, syms: Symbols): string
    requires Writable(it, syms)
  {
    match it
    case Symbol(name, v) => WriteSymbol(name, syms[name], ValueText(v))
    case Title(t) => "\n" + ("#\n" + (("# " + t + "\n") + "#\n"))
  }

  function FileText(items: seq<Item>, syms: Symbols): string
    requires forall i :: 0 <= i < |items| ==> Writable(items[i], syms)
  {
    if items == [] then [] else ItemText(items[0], syms) + FileText(items[1..], syms)
  }

  /** The settings that the items stand for. */
  function SettingsOf(items: seq<Item>, st: Settings): Settings {
    if items == [] then st
    else SettingsOf(items[1..], if items[0].Symbol? then st[items[0].name := items[0].value] else st)
  }

  /** One line, which ends where its newline is. */
  predicate OneLine(line: string) {
    line != [] && line[|line| - 1] == '\n' && '\n' !in line[..|line| - 1]
  }

  lemma ReadOneLine(line: string, rest: string, syms: Symbols, st: Settings)
    requires OneLine(line)
    ensures ReadText(line + rest, syms, st) == ReadText(rest, syms, ReadLine(line, syms, st))
  {
    hide Find, ReadLine;
    var text, n := line + rest, |line| - 1;
    assert text == line[..n] + ['\n'] + rest;
    FindIn(line[..n], '\n', rest);
    assert text[..n + 1] == line && text[n + 1..] == rest;
  }

  lemma WrittenIsOneLine(name: string, k: Kind, v: Setting)
    requires Name(name) && KindMatches(k, v) && Fits(k, v)
    ensures OneLine(WriteSymbol(name, k, ValueText(v)))
  {
    var value := ValueText(v);
    var line := WriteSymbol(name, k, value);
    if k == Str { EscapeNoNewline(value); }
    var body := if v == Letter('n') then "# " + CONFIG + name + " is not set"
      else CONFIG + name + "=" + (if k == Str then Quote(value) else value);
    assert line == body + "\n" && line[..|line| - 1] == body;
  }

  /** The title begins as the line does that is written for this symbol when it is n. */
  predicate ReadsLike(t: string, name: string, syms: Symbols) {
    StartsWith(t, CONFIG + name + " is not set") && ' ' !in name &&
    name in syms && (syms[name] == Boolean || syms[name] == Tristate)
  }

  /** The title reads like a symbol that is not set to n. */
  ghost predicate Taken(t: string, syms: Symbols, st: Settings) {
    exists name :: ReadsLike(t, name, syms) && !(name in st && st[name] == Letter('n'))
  }

  lemma StartsLine(t: string, p: string)
    requires '\n' !in p
    ensures StartsWith(t + "\n", p) <==> StartsWith(t, p)
  {
    var u := t + "\n";
    if |p| <= |t| {
      assert u[..|p|] == t[..|p|];
    } else if |p| == |u| {
      assert u[..|p|] == u && u[|t|] == '\n' && p[|t|] in p;
    }
  }

  /** The first space is behind the name, and the rest of the text behind it. */
  lemma ReadsLikeParts(t: string, name: string, syms: Symbols)
    requires ReadsLike(t, name, syms)
    ensures StartsWith(t, CONFIG)
    ensures var u := t[|CONFIG|..];
      Find(u + "\n", ' ') == |name| < |u| && u[..|name|] == name && StartsWith(u[|name| + 1..], "is not set")
  {
    hide Find;
    var p := CONFIG + name + " is not set";
    var u, tail := t[|CONFIG|..], t[|p|..];
    assert t == p + tail;
    assert t[..|CONFIG|] == CONFIG;
    assert u == name + [' '] + ("is not set" + tail);
    assert u + "\n" == name + [' '] + ("is not set" + tail + "\n");
    FindIn(name, ' ', "is not set" + tail + "\n");
  }

  /** And a name in front of the first space is what the title reads like. */
  lemma PartsReadLike(t: string, sp: nat, syms: Symbols)
    requires StartsWith(t, CONFIG) && Find(t[|CONFIG|..] + "\n", ' ') == sp < |t| - |CONFIG|
    requires StartsWith(t[|CONFIG| + sp + 1..], "is not set")
    ensures var name := t[|CONFIG|..][..sp];
      ReadsLike(t, name, syms) <==> name in syms && (syms[name] == Boolean || syms[name] == Tristate)
  {
    hide Find;
    var u := t[|CONFIG|..];
    var name, v := u[..sp], u[sp + 1..];
    assert forall k :: 0 <= k < sp ==> (u + "\n")[k] == u[k] == name[k];
    assert (u + "\n")[sp] == u[sp] == ' ';
    assert v == t[|CONFIG| + sp + 1..];
    var tail := v[10..];
    assert v == "is not set" + tail;
    assert u == name + " " + v;
    assert t == CONFIG + u;
    var p := CONFIG + name + " is not set";
    assert t == p + tail;
    assert t[..|p|] == p;
  }

  /** The name in front of the first space of a title that can be taken for a setting. */
  function TitleName(t: string): Option<string> {
    if |t| < |CONFIG| || !StartsWith(t, CONFIG) then None
    else
      var u := t[|CONFIG|..];
      var sp := Find(u + "\n", ' ');
      if sp < |u| && StartsWith(u[sp + 1..], "is not set") then Some(u[..sp]) else None
  }

  lemma TitleComment(t: string, syms: Symbols, st: Settings)
    requires '\n' !in t
    ensures var name := TitleName(t);
      ReadLine("# " + t + "\n", syms, st) ==
        if name.Some? && name.value in syms && (syms[name.value] == Boolean || syms[name.value] == Tristate)
        then st[name.value := Letter('n')] else st
  {
    hide Find, StartsWith;
    var line := "# " + t + "\n";
    assert line[2..] == t + "\n" && line[0] == '#';
    StartsLine(t, CONFIG);
    if StartsWith(t, CONFIG) {
      StartsLong(t, CONFIG);
      var u := t[|CONFIG|..];
      var rest := u + "\n";
      assert line[2 + |CONFIG|..] == rest;
      var sp := Find(rest, ' ');
      if sp < |rest| {
        assert rest[|u|] == '\n' && sp < |u|;
        assert rest[sp + 1..] == u[sp + 1..] + "\n" && rest[..sp] == u[..sp];
        StartsLine(u[sp + 1..], "is not set");
      }
    }
  }

  lemma TitleNameRead(t: string, name: string, syms: Symbols)
    ensures ReadsLike(t, name, syms) <==>
      TitleName(t) == Some(name) && name in syms && (syms[name] == Boolean || syms[name] == Tristate)
  {
    hide Find, StartsWith, ReadsLike;
    if ReadsLike(t, name, syms) {
      ReadsLikeParts(t, name, syms);
      StartsLong(t, CONFIG);
      NamedLike(t, name, syms);
    }
    if TitleName(t) == Some(name) {
      var u := t[|CONFIG|..];
      var sp := Find(u + "\n", ' ');
      assert u[sp + 1..] == t[|CONFIG| + sp + 1..];
      PartsReadLike(t, sp, syms);
    }
  }

  lemma NamedLike(t: string, name: string, syms: Symbols)
    requires ReadsLike(t, name, syms)
    ensures name in syms && (syms[name] == Boolean || syms[name] == Tristate)
  {
  }

  lemma StartsLong(s: string, p: string)
    requires StartsWith(s, p)
    ensures |p| <= |s|
  {
  }

  /** The title of a menu changes the settings exactly if it reads like a symbol that is not n yet; that one becomes n. */
  lemma TitleTaken(t: string, syms: Symbols, st: Settings)
    requires '\n' !in t
    ensures ReadLine("# " + t + "\n", syms, st) != st <==> Taken(t, syms, st)
    ensures forall name :: ReadsLike(t, name, syms) ==> ReadLine("# " + t + "\n", syms, st) == st[name := Letter('n')]
  {
    hide ReadLine, ReadsLike, TitleName;
    TitleComment(t, syms, st);
    forall name ensures ReadsLike(t, name, syms) <==>
      TitleName(t) == Some(name) && name in syms && (syms[name] == Boolean || syms[name] == Tristate)
    {
      TitleNameRead(t, name, syms);
    }
    if TitleName(t).Some? {
      var name := TitleName(t).value;
      var r := st[name := Letter('n')];
      assert name in r && r[name] == Letter('n');
      assert name in st && st[name] == Letter('n') ==> r == st;
    }
  }

  lemma TitleReads(t: string, rest: string, syms: Symbols, st: Settings)
    requires Writable(Title(t), syms)
    ensures ReadText(ItemText(Title(t), syms) + rest, syms, st)
      == ReadText(rest, syms, ReadLine("# " + t + "\n", syms, st))
  {
    hide ReadText, ReadLine, StartsWith;
    var line := "# " + t + "\n";
    assert line[..|line| - 1] == "# " + t;
    var r1 := "#\n" + rest;
    var r2 := line + r1;
    var r3 := "#\n" + r2;
    assert ItemText(Title(t), syms) + rest == "\n" + r3;
    ReadEmptyLine(r3, syms, st);
    ReadRule(r2, syms, st);
    ReadOneLine(line, r1, syms, st);
    ReadRule(rest, syms, ReadLine(line, syms, st));
  }

  lemma ReadEmptyLine(rest: string, syms: Symbols, st: Settings)
    ensures ReadText("\n" + rest, syms, st) == ReadText(rest, syms, st)
  {
    hide ReadText;
    ReadOneLine("\n", rest, syms, st);
  }

  lemma ReadRule(rest: string, syms: Symbols, st: Settings)
    ensures ReadText("#\n" + rest, syms, st) == ReadText(rest, syms, st)
  {
    hide ReadText;
    ReadOneLine("#\n", rest, syms, st);
    assert |"#\n"[2..]| < |CONFIG|;
  }

  /** Everything can be written, and no title reads like a symbol that is not n at that point. */
  ghost predicate Restorable(items: seq<Item>, syms: Symbols, st: Settings) {
    items == [] ||
    (Writable(items[0], syms) &&
     match items[0]
     case Symbol(name, v) => Restorable(items[1..], syms, st[name := v])
     case Title(t) => !Taken(t, syms, st) && Restorable(items[1..], syms, st))
  }

  lemma {:induction false} RestorableWritable(items: seq<Item>, syms: Symbols, st: Settings)
    requires Restorable(items, syms, st)
    ensures forall i :: 0 <= i < |items| ==> Writable(items[i], syms)
  {
    if items != [] {
      RestorableWritable(items[1..], syms, if items[0].Symbol? then st[items[0].name := items[0].value] else st);
      assert forall i :: 1 <= i < |items| ==> items[i] == items[1..][i - 1];
    }
  }

  /** Reading a written file sets every symbol to what was written, and nothing else. */
  lemma {:induction false} FileRestores(items: seq<Item>, syms: Symbols, st: Settings)
    requires Restorable(items, syms, st)
    ensures forall i :: 0 <= i < |items| ==> Writable(items[i], syms)
    ensures ReadText(FileText(items, syms), syms, st) == SettingsOf(items, st)
  {
    hide ReadText, ReadLine, Taken, Writable;
    RestorableWritable(items, syms, st);
    if items == [] {
      ReadNothing(syms, st);
    } else {
      var rest := FileText(items[1..], syms);
      match items[0] {
        case Title(t) =>
          TitleReads(t, rest, syms, st);
          TitleKeeps(t, syms, st);
          FileRestores(items[1..], syms, st);
        case Symbol(name, v) =>
          SymbolReads(name, v, rest, syms, st);
          FileRestores(items[1..], syms, st[name := v]);
      }
    }
  }

  lemma TitleKeeps(t: string, syms: Symbols, st: Settings)
    requires Writable(Title(t), syms) && !Taken(t, syms, st)
    ensures ReadLine("# " + t + "\n", syms, st) == st
  {
    TitleTaken(t, syms, st);
  }

  lemma SymbolReads(name: string, v: Setting, rest: string, syms: Symbols, st: Settings)
    requires Writable(Symbol(name, v), syms)
    ensures ReadText(ItemText(Symbol(name, v), syms) + rest, syms, st) == ReadText(rest, syms, st[name := v])
  {
    hide ReadText, ReadLine;
    WrittenIsOneLine(name, syms[name], v);
    ReadOneLine(WriteSymbol(name, syms[name], ValueText(v)), rest, syms, st);
    WrittenLineRestores(name, v, syms, st);
  }

  lemma ReadNothing(syms: Symbols, st: Settings)
    ensures ReadText([], syms, st) == st
  {
  }

  /** A symbol that is written once has the value that was written. */
  lemma {:induction false} SettingsOfSymbol(items: seq<Item>, i: nat, st: Settings)
    requires i < |items| && items[i].Symbol?
    requires forall j :: i < j < |items| && items[j].Symbol? ==> items[j].name != items[i].name
    ensures items[i].name in SettingsOf(items, st) && SettingsOf(items, st)[items[i].name] == items[i].value
  {
    var now := if items[0].Symbol? then st[items[0].name := items[0].value] else st;
    if i == 0 {
      SettingsOfOther(items[1..], items[0].name, now);
    } else {
      SettingsOfSymbol(items[1..], i - 1, now);
    }
  }

  lemma {:induction false} SettingsOfOther(items: seq<Item>, name: string, st: Settings)
    requires forall j :: 0 <= j < |items| && items[j].Symbol? ==> items[j].name != name
    ensures name in SettingsOf(items, st) <==> name in st
    ensures name in st ==> SettingsOf(items, st)[name] == st[name]
  {
    if items != [] {
      SettingsOfOther(items[1..], name, if items[0].Symbol? then st[items[0].name := items[0].value] else st);
    }
  }

  // ---- the form of the lines, and which values are taken

  /** The two forms of a line. */
  lemma WrittenForm(name: string, k: Kind, value: string)
    ensures k in {Boolean, Tristate} && value != [] && value[0] == 'n' ==>
      WriteSymbol(name, k, value) == "# CONFIG_" + name + " is not set\n"
    ensures k in {Boolean, Tristate} && value != [] && value[0] != 'n' ==>
      WriteSymbol(name, k, value) == "CONFIG_" + name + "=" + value + "\n"
    ensures k in {Int, Hex} ==> WriteSymbol(name, k, value) == "CONFIG_" + name + "=" + value + "\n"
    ensures k == Str && (forall i :: 0 <= i < |value| ==> !Special(value[i])) ==>
      WriteSymbol(name, k, value) == "CONFIG_" + name + "=\"" + value + "\"\n"
  {
    assert "# " + CONFIG == "# CONFIG_";
    if k == Str && forall i :: 0 <= i < |value| ==> !Special(value[i]) {
      EscapePlain(value);
      assert CONFIG + name + "=" + Quote(value) == CONFIG + name + "=\"" + value + "\"";
    }
  }

  lemma {:induction false} EscapePlain(s: string)
    requires forall i :: 0 <= i < |s| ==> !Special(s[i])
    ensures Escape(s) == s
  {
    if s != [] { EscapePlain(s[1..]); }
  }

  /** A switch is set by its first letter, m only for a tristate symbol, and a number by a valid numeral. */
  lemma SettingTaken(k: Kind, p: string)
    ensures k == Boolean ==> SetSymVal(k, p) == if p != [] && p[0] in {'y', 'n'} then Some(Letter(p[0])) else None
    ensures k == Tristate ==> SetSymVal(k, p) == if p != [] && p[0] in {'y', 'm', 'n'} then Some(Letter(p[0])) else None
    ensures k == Int ==> SetSymVal(k, p) == if IntValid(p) then Some(Text(p)) else None
    ensures k == Hex ==> SetSymVal(k, p) == if HexValid(p) then Some(Text(p)) else None
  {
  }

  /** A string is taken if there is one in quotes at the front. */
  lemma StringTaken(p: string)
    ensures SetSymVal(Str, p).Some? <==> exists s, rest :: p == "\"" + s + "\"" + rest && Closed(s)
  {
    hide Unquote, Closed;
    if p != [] && p[0] == '"' { UnquoteExact(p[1..]); }
    forall s: string, rest | p == "\"" + s + "\"" + rest && Closed(s) ensures SetSymVal(Str, p).Some? {
      assert p[1..] == s + "\"" + rest;
    }
    if SetSymVal(Str, p).Some? {
      var s, rest :| p[1..] == s + "\"" + rest && Closed(s);
      assert p == "\"" + p[1..];
      assert p == "\"" + s + "\"" + rest;
    }
  }

  /** Every quote in it stands behind a backslash, and every backslash has a character behind it. */
  predicate Closed(s: string) {
    s == [] ||
    if s[0] == '\\' then |s| > 1 && Closed(s[2..]) else s[0] != '"' && Closed(s[1..])
  }

  /** There is a string exactly if a quote that ends it follows. */
  lemma {:induction false} UnquoteExact(t: string)
    ensures Unquote(t).Some? <==> exists s, rest :: t == s + "\"" + rest && Closed(s)
  {
    if Unquote(t).Some? {
      var s, rest := UnquoteParts(t);
      assert t == s + "\"" + rest && Closed(s);
    }
    forall s: string, rest: string | t == s + "\"" + rest && Closed(s) ensures Unquote(t).Some? {
      ClosedUnquotes(s, rest);
    }
  }

  lemma {:induction false} UnquoteParts(t: string) returns (s: string, rest: string)
    requires Unquote(t).Some?
    ensures t == s + "\"" + rest && Closed(s)
  {
    if t[0] == '"' {
      s, rest := [], t[1..];
    } else if t[0] == '\\' {
      s, rest := UnquoteParts(t[2..]);
      var more := s;
      s := [t[0], t[1]] + more;
      assert s[2..] == more && t == [t[0], t[1]] + t[2..];
    } else {
      s, rest := UnquoteParts(t[1..]);
      var more := s;
      s := [t[0]] + more;
      assert s[1..] == more && t == [t[0]] + t[1..];
    }
  }

  lemma {:induction false} ClosedUnquotes(s: string, rest: string)
    requires Closed(s)
    ensures Unquote(s + "\"" + rest).Some?
  {
    var t := s + "\"" + rest;
    if s != [] {
      if s[0] == '\\' {
        ClosedUnquotes(s[2..], rest);
        assert t[2..] == s[2..] + "\"" + rest;
      } else {
        ClosedUnquotes(s[1..], rest);
        assert t[1..] == s[1..] + "\"" + rest;
      }
    }
  }
}
