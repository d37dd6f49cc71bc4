/**
 * Paths in the file system tree: path_walk, path_check and _fno_search
 * (kernel/vfs.c:227-346) on names, without following links.
 */
module VfsPath {

  /** A directory entry, what is below it, and the entries after it in the same directory. */
  datatype Dir<T> = Empty | Entry(node: T, name: string, link: bool, children: Dir<T>, next: Dir<T>)

  /** Reached is also said of a link on the way: what then happens is not modelled here. */
  datatype Found<T> = Missing | Found(node: T) | Reached(link: T)

  datatype Check = No | Below | Here

  /** path_check, by the name at the front of the path. */
  function PathCheck(path: string, dirname: string): Check {
    if !StartsWith(path, dirname) then No
    else if |path| == |dirname| then Here
    else if path[|dirname|] == '/' then Below
    else if dirname != [] && dirname[|dirname| - 1] == '/' then Below
    else No
  }

  predicate StartsWith(s: string, p: string) { |p| <= |s| && s[..|p|] == p }

  function SkipSlashes(path: string): string {
    if path != [] && path[0] == '/' then SkipSlashes(path[1..]) else path
  }

  function SkipName(path: string): string {
    if path != [] && path[0] != '/' then SkipName(path[1..]) else path
  }

  /** path_walk; an empty rest stands for NULL when a name was skipped. */
  function PathWalk(path: string): string {
    if path != [] && path[0] == '/' then SkipSlashes(path)
    else
      var p := SkipName(path);
      if p == [] then [] else p[1..]
  }

  /** _fno_search, up to the first link. */
  function Search<T>(path: string, dir: Dir<T>): Found<T>
    decreases dir
  {
    if dir.Empty? then Missing
    else
      match PathCheck(path, dir.name)
      case No => Search(path, dir.next)
      case Here => if dir.link then Reached(dir.node) else Found(dir.node)
      case Below => if dir.link then Reached(dir.node) else Search(PathWalk(path), dir.children)
  }

  /** Names of entries below the root. */
  predicate Name(s: string) { s != [] && '/' !in s }

  /** Below the root, names have no slash and are different within a directory. */
  predicate WellNamed<T>(dir: Dir<T>) {
    dir.Entry? ==>
      && Name(dir.name) && !NameIn(dir.name, dir.next)
      && WellNamed(dir.children) && WellNamed(dir.next)
  }

  predicate NameIn<T>(name: string, dir: Dir<T>) {
    dir.Entry? && (dir.name == name || NameIn(name, dir.next))
  }

  /** The entries with these names, one below the other, lead to f; none is a link. */
  predicate Leads<T(==)>(dir: Dir<T>, names: seq<string>, f: T) {
    && names != [] && dir.Entry?
    && if dir.name == names[0] then !dir.link && (if |names| == 1 then dir.node == f else Leads(dir.children, names[1..], f))
       else Leads(dir.next, names, f)
  }

  /** The names with slashes between them. */
  function Joined(names: seq<string>): string {
    if names == [] then []
    else if |names| == 1 then names[0]
    else names[0] + "/" + Joined(names[1..])
  }

  lemma {:induction false} LeadsNames<T>(dir: Dir<T>, names: seq<string>, f: T)
    requires WellNamed(dir) && Leads(dir, names, f)
    ensures NameIn(names[0], dir) && forall i :: 0 <= i < |names| ==> Name(names[i])
  {
    if dir.name == names[0] {
      if |names| > 1 {
        LeadsNames(dir.children, names[1..], f);
        forall i | 0 < i < |names| ensures Name(names[i]) { assert names[i] == names[1..][i - 1]; }
      }
    } else {
      LeadsNames(dir.next, names, f);
    }
  }

  /** A path whose first name is another one does not match an entry. */
  lemma CheckOther(name: string, names: seq<string>)
    requires Name(name) && names != [] && Name(names[0]) && names[0] != name
    ensures PathCheck(Joined(names), name) == No
  {
    var first, path := names[0], Joined(names);
    assert path[..|first|] == first;
    assert forall k :: 0 <= k < |first| ==> path[k] == path[..|first|][k] && first[k] in first;
    assert forall k :: 0 <= k < |name| ==> name[k] in name;
    assert |names| > 1 ==> path[|first|] == '/';
    PrefixAt(path, name);
  }

  lemma PrefixAt(s: string, p: string)
    ensures StartsWith(s, p) ==> forall k :: 0 <= k < |p| ==> p[k] == s[k]
    ensures StartsWith(s, p) && |s| == |p| ==> s == p
  {
    if StartsWith(s, p) {
      assert forall k :: 0 <= k < |p| ==> s[..|p|][k] == s[k];
      assert |s| == |p| ==> s[..|p|] == s;
    }
  }

  lemma CheckFirst(first: string, rest: string)
    requires Name(first) && rest != [] && rest[0] == '/'
    ensures PathCheck(first + rest, first) == Below && PathWalk(first + rest) == rest[1..]
  {
    hide SkipName;
    var path := first + rest;
    assert path[..|first|] == first && path[|first|] == '/';
    assert path[0] == first[0] && first[0] in first;
    SkipOwnName(first, rest);
  }

  lemma CheckOwn(names: seq<string>)
    requires names != [] && Name(names[0])
    ensures PathCheck(Joined(names), names[0]) == if |names| == 1 then Here else Below
    ensures |names| > 1 ==> PathWalk(Joined(names)) == Joined(names[1..])
  {
    hide PathWalk, SkipName;
    var first := names[0];
    if |names| > 1 {
      var more := Joined(names[1..]);
      var rest := "/" + more;
      assert rest[1..] == more && Joined(names) == first + rest;
      CheckFirst(first, rest);
    } else {
      assert first[..|first|] == first;
    }
  }

  lemma {:induction false} SkipOwnName(name: string, rest: string)
    requires '/' !in name && rest != [] && rest[0] == '/'
    ensures SkipName(name + rest) == rest
  {
    if name == [] {
      assert name + rest == rest;
    } else {
      assert (name + rest)[1..] == name[1..] + rest && name[0] in name;
      SkipOwnName(name[1..], rest);
    }
  }

  /** Searching for the names that lead to an entry finds it. */
  lemma {:induction false} SearchFinds<T>(dir: Dir<T>, names: seq<string>, f: T)
    requires WellNamed(dir) && Leads(dir, names, f)
    ensures Search(Joined(names), dir) == Found(f)
  {
    LeadsNames(dir, names, f);
    if dir.name == names[0] {
      CheckOwn(names);
      if |names| > 1 { SearchFinds(dir.children, names[1..], f); }
    } else {
      CheckOther(dir.name, names);
      SearchFinds(dir.next, names, f);
    }
  }

  /** The path of an entry below the root, or of the root itself. */
  function PathOf(names: seq<string>): string { "/" + Joined(names) }

  /** The tree with its root, which is called "/". */
  predicate Rooted<T>(root: Dir<T>) {
    root.Entry? && root.name == "/" && !root.link && root.next.Empty? && WellNamed(root.children)
  }

  /** fno_search without the trailing slashes it takes off. */
  function StripSlashes(path: string): string {
    if |path| > 1 && path[|path| - 1] == '/' then StripSlashes(path[..|path| - 1]) else path
  }

  function FnoSearch<T>(path: string, root: Dir<T>): Found<T> {
    if path == [] then Missing else Search(StripSlashes(path), root)
  }

  /** The path of the root leads to the root, and that of every other entry to that entry. */
  lemma PathFinds<T>(root: Dir<T>, names: seq<string>, f: T)
    requires Rooted(root)
    requires if names == [] then f == root.node else Leads(root.children, names, f)
    ensures FnoSearch(PathOf(names), root) == Found(f)
  {
    var path := PathOf(names);
    if names != [] {
      LeadsNames(root.children, names, f);
      JoinedEnds(names);
      assert path[..1] == "/" && path[1..] == Joined(names);
      assert SkipSlashes(path) == Joined(names);
      assert PathWalk(path) == Joined(names);
      SearchFinds(root.children, names, f);
    }
  }

  lemma {:induction false} JoinedEnds(names: seq<string>)
    requires names != [] && forall i :: 0 <= i < |names| ==> Name(names[i])
    ensures var p := Joined(names); p != [] && p[0] != '/' && p[|p| - 1] != '/'
  {
    assert names[0][0] in names[0] && names[0][|names[0]| - 1] in names[0];
    if |names| > 1 { JoinedEnds(names[1..]); }
  }
}
