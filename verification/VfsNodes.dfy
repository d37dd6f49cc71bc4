/**
 * kernel/vfs.c on the nodes themselves: searching a path (227-346), and writing the path
 * of a node into a buffer (70-118).
 */
module VfsNodes {
  import opened Machine
  import opened VfsPath

  class Fnode {
    var fname: string
    var link: bool
    var parent: Fnode?
    var children: Fnode?
    var next: Fnode?
  }

  ghost function Nodes(t: Dir<Fnode>): set<Fnode> {
    if t.Empty? then {} else {t.node} + Nodes(t.children) + Nodes(t.next)
  }

  /** The entries of a directory start at first and have parent above them. */
  ghost predicate Linked(t: Dir<Fnode>, first: Fnode?, parent: Fnode?)
    reads Nodes(t)
  {
    if t.Empty? then first == null
    else
      && first == t.node && t.node.fname == t.name && t.node.link == t.link && t.node.parent == parent
      && Linked(t.children, t.node.children, t.node) && Linked(t.next, t.node.next, parent)
  }

  /** The loop of path_check. */
  method CheckPath(path: string, dirname: string) returns (check: Check)
    ensures check == PathCheck(path, dirname)
  {
    var i := 0;
    while i < |dirname|
      invariant i <= |dirname| && i <= |path| && path[..i] == dirname[..i]
    {
      if i == |path| || path[i] != dirname[i] {
        assert |path| >= |dirname| ==> path[..|dirname|][i] != dirname[i];
        return No;
      }
      i := i + 1;
    }
    assert dirname[..i] == dirname;
    if i == |path| {
      return Here;
    }
    if path[i] == '/' {
      return Below;
    }
    if i > 0 && path[i - 1] == '/' && dirname[i - 1] == '/' {
      return Below;
    }
    assert i > 0 ==> path[i - 1] == path[..i][i - 1];
    return No;
  }

  /** The loops of path_walk, as the place where the rest of the path begins. */
  method WalkPath(path: string) returns (rest: string)
    ensures rest == PathWalk(path)
  {
    var p := 0;
    assert path[0..] == path;
    if path != [] && path[0] == '/' {
      while p < |path| && path[p] == '/'
        invariant p <= |path| && SkipSlashes(path[p..]) == SkipSlashes(path)
      {
        p := p + 1;
      }
      return path[p..];
    }
    while p < |path| && path[p] != '/'
      invariant p <= |path| && SkipName(path[p..]) == SkipName(path)
    {
      p := p + 1;
    }
    if p < |path| {
      p := p + 1;
      assert path[p - 1..][1..] == path[p..];
    }
    return path[p..];
  }

  /** _fno_search */
  method SearchNodes(path: string, dir: Fnode?, ghost t: Dir<Fnode>, ghost parent: Fnode?, ghost all: set<Fnode>)
    returns (r: Found<Fnode>)
    requires Linked(t, dir, parent) && Nodes(t) <= all
    ensures r == Search(path, t)
    decreases t
  {
    if dir == null {
      return Missing;
    }
    assert t.Entry? && Linked(t.children, dir.children, dir) && Linked(t.next, dir.next, parent);
    var check := CheckPath(path, dir.fname);
    if check == No {
      r := SearchNodes(path, dir.next, t.next, parent, all);
    } else if dir.link {
      r := Reached(dir);
    } else if check == Here {
      r := Found(dir);
    } else {
      var rest := WalkPath(path);
      r := SearchNodes(rest, dir.children, t.children, dir, all);
    }
  }

  /** fno_search */
  method SearchFrom(path: string, root: Fnode, ghost t: Dir<Fnode>, ghost above: Fnode?, ghost all: set<Fnode>)
    returns (r: Found<Fnode>)
    requires Linked(t, root, above) && Nodes(t) <= all
    ensures r == FnoSearch(path, t)
  {
    if path == [] {
      return Missing;
    }
    var n := |path|;
    assert path[..n] == path;
    while n > 1 && path[n - 1] == '/'
      invariant 1 <= n <= |path| && StripSlashes(path[..n]) == StripSlashes(path)
    {
      assert path[..n][..n - 1] == path[..n - 1];
      n := n - 1;
    }
    r := SearchNodes(path[..n], root, t, above, all);
  }

  // ---- fno_fullpath

  /** What the cursor has passed after these names: each is followed by a slash. */
  function Written(names: seq<string>): (s: string)
    ensures s != []
  {
    if names == [] then "/" else Written(names[..|names| - 1]) + names[|names| - 1] + "/"
  }

  /** The names that fit, when one that does not is passed over without notice. */
  function Kept(names: seq<string>, len: int): seq<string> {
    if names == [] then []
    else
      var k := Kept(names[..|names| - 1], len);
      if |names[|names| - 1]| + |Written(k)| > len - 1 then k else k + [names[|names| - 1]]
  }

  /** The nodes from the one below the root to the last, each the parent of the next. */
  ghost predicate Chain(ns: seq<Fnode>, root: Fnode)
    reads ns
  {
    && (forall i :: 0 <= i < |ns| ==> ns[i] != root && !ns[i].link)
    && (ns != [] ==> ns[0].parent == root)
    && (forall i, j :: 0 <= i && j == i + 1 && j < |ns| ==> ns[j].parent == ns[i])
  }

  ghost function NamesOf(ns: seq<Fnode>): (names: seq<string>)
    reads ns
    ensures |names| == |ns|
  {
    seq(|ns|, i requires 0 <= i < |ns| reads ns => ns[i].fname)
  }

  lemma {:induction false} JoinedMore(k: seq<string>, last: string)
    ensures Joined(k + [last]) == if k == [] then last else Joined(k) + "/" + last
  {
    if |k| > 1 {
      JoinedMore(k[1..], last);
      assert (k + [last])[1..] == k[1..] + [last];
      assert k[0] + "/" + (Joined(k[1..]) + "/" + last) == k[0] + "/" + Joined(k[1..]) + "/" + last;
    } else if |k| == 1 {
      assert (k + [last])[1..] == [last];
    }
  }

  lemma {:induction false} WrittenIsPath(k: seq<string>)
    requires k != []
    ensures Written(k) == PathOf(k) + "/"
  {
    var n := |k| - 1;
    var front, last := k[..n], k[n];
    assert k == front + [last];
    JoinedMore(front, last);
    if front == [] {
      assert "/" + last + "/" == "/" + Joined(k) + "/";
    } else {
      WrittenIsPath(front);
      assert Written(k) == "/" + Joined(front) + "/" + last + "/";
      assert "/" + (Joined(front) + "/" + last) == "/" + Joined(front) + "/" + last;
    }
  }

  /** Nothing is passed over exactly when the whole path fits. */
  lemma {:induction false} KeptAll(names: seq<string>, len: int)
    requires names != []
    ensures Kept(names, len) == names <==> |PathOf(names)| <= len - 1
  {
    var n := |names| - 1;
    var front, last := names[..n], names[n];
    assert names == front + [last];
    KeptLength(front, len);
    WrittenIsPath(names);
    if n > 0 {
      KeptAll(front, len);
      WrittenIsPath(front);
      if Kept(front, len) == front {
        assert |PathOf(names)| == |Written(front)| + |last|;
      }
    }
  }

  lemma {:induction false} KeptLength(names: seq<string>, len: int)
    ensures |Kept(names, len)| <= |names|
  {
    if names != [] { KeptLength(names[..|names| - 1], len); }
  }

  /** The last name fits behind what was written before it: only then is there a result. */
  predicate LastFits(names: seq<string>, len: int) {
    names == [] || |names[|names| - 1]| + |Written(Kept(names[..|names| - 1], len))| <= len - 1
  }

  /** vfs.c:92-96: a name and a slash, and a zero that leaves one byte between. */
  method AppendName(dst: array<char>, p: nat, name: string)
    requires p + |name| + 2 < dst.Length
    modifies dst
    ensures dst[..p + |name| + 1] == old(dst[..p]) + name + "/"
    ensures forall j :: p + |name| + 1 <= j < dst.Length ==>
      dst[j] == if j == p + |name| + 2 then NUL else old(dst[j])
  {
    var n := |name|;
    ghost var was := dst[..];
    for i := 0 to n
      invariant dst[..p] == was[..p] && dst[p..p + i] == name[..i]
      invariant forall j :: p + i <= j < dst.Length ==> dst[j] == was[j]
    {
      dst[p + i] := name[i];
    }
    dst[p + n] := '/';
    dst[p + n + 2] := NUL;
    assert dst[..p + n + 1] == dst[..p] + dst[p..p + n] + [dst[p + n]];
  }

  lemma ChainFront(ns: seq<Fnode>, root: Fnode, n: nat)
    requires Chain(ns, root) && |ns| == n + 1
    ensures Chain(ns[..n], root) && NamesOf(ns)[..n] == NamesOf(ns[..n]) && NamesOf(ns)[n] == ns[n].fname
    ensures ns[n] != root && !ns[n].link && ns[n].parent == if n == 0 then root else ns[n - 1]
    ensures forall i :: 0 <= i < n ==> ns[..n][i] == ns[i]
  {
    assert forall i :: 0 <= i < n ==> ns[..n][i] == ns[i] && NamesOf(ns)[..n][i] == NamesOf(ns[..n])[i];
  }

  lemma KeptStep(names: seq<string>, len: int, n: nat)
    requires |names| == n + 1
    ensures var k, last := Kept(names[..n], len), names[n];
      && LastFits(names, len) == (|last| + |Written(k)| <= len - 1)
      && Kept(names, len) == (if LastFits(names, len) then k + [last] else k)
      && Written(k + [last]) == Written(k) + last + "/"
  {
    var k, last := Kept(names[..n], len), names[n];
    var more := k + [last];
    assert more[..|more| - 1] == k && more[|more| - 1] == last && |more| - 1 == |k|;
    assert |names| - 1 == n && names != [];
  }

  /** What stands in the buffer after these names, and which bytes behind the cursor are not as before. */
  ghost predicate Filled(now: seq<char>, before: seq<char>, k: seq<string>, p: nat) {
    && |now| == |before| && p == |Written(k)| && p < |now| && now[..p] == Written(k)
    && (if k == [] then now[1] == NUL else p + 1 < |now| && now[p + 1] == NUL)
    && forall j :: (if k == [] then 2 else p) <= j < |now| && j != p + 1 ==> now[j] == before[j]
  }

  lemma FilledStep(was: seq<char>, now: seq<char>, before: seq<char>, k: seq<string>, p: nat, name: string)
    requires Filled(was, before, k, p) && name != [] && p + |name| + 2 < |was| == |now|
    requires now[..p + |name| + 1] == was[..p] + name + "/"
    requires forall j :: p + |name| + 1 <= j < |now| ==> now[j] == if j == p + |name| + 2 then NUL else was[j]
    ensures Filled(now, before, k + [name], p + |name| + 1)
  {
    hide Written;
    WrittenMore(k, name);
  }

  lemma FilledCursor(now: seq<char>, before: seq<char>, k: seq<string>, p: nat)
    requires Filled(now, before, k, p)
    ensures p == |Written(k)| && |now| == |before|
  {
  }

  lemma WrittenMore(k: seq<string>, last: string)
    ensures Written(k + [last]) == Written(k) + last + "/"
  {
    var more := k + [last];
    assert more[..|more| - 1] == k && more[|more| - 1] == last;
  }

  lemma NoNames(ns: seq<Fnode>, root: Fnode, len: int)
    requires Chain(ns, root) && (ns == [] || ns[|ns| - 1] == root)
    ensures ns == [] && Kept(NamesOf(ns), len) == [] && LastFits(NamesOf(ns), len)
  {
    assert ns == [];
    assert NamesOf(ns) == [];
  }

  /** vfs.c:78-81 */
  method PutRoot(dst: array<char>)
    requires dst.Length >= 2
    modifies dst
    ensures Filled(dst[..], old(dst[..]), [], 1)
  {
    dst[0] := '/';
    dst[1] := NUL;
  }

  /** _fno_fullpath: what has been written, and where the cursor stands. */
  method FullPathInto(f: Fnode, dst: array<char>, len: nat, root: Fnode, ghost ns: seq<Fnode>)
    returns (p: nat, ret: int)
    requires Chain(ns, root) && f == (if ns == [] then root else ns[|ns| - 1])
    requires len + 2 <= dst.Length && forall i :: 0 <= i < |ns| ==> Name(ns[i].fname)
    modifies dst
    ensures Filled(dst[..], old(dst[..]), Kept(NamesOf(ns), len), p)
    ensures ret == if LastFits(NamesOf(ns), len) then 0 else -36
    decreases |ns|
  {
    hide NamesOf, Chain, Kept, Written, LastFits, Filled;
    if f == root {
      NoNames(ns, root, len);
      PutRoot(dst);
      return 1, 0;
    }
    ghost var n, names := |ns| - 1, NamesOf(ns);
    ChainFront(ns, root, n);
    KeptStep(names, len, n);
    p, ret := FullPathInto(f.parent, dst, len, root, ns[..n]);
    var nlen := |f.fname|;
    FilledCursor(dst[..], old(dst[..]), Kept(names[..n], len), p);
    if nlen + p > len - 1 {
      return p, -36;
    }
    ghost var was := dst[..];
    AppendName(dst, p, f.fname);
    FilledStep(was, dst[..], old(dst[..]), Kept(names[..n], len), p, f.fname);
    p := p + nlen + 1;
    ret := 0;
  }

  /** vfs.c:108-113: the last character goes, and slashes before it. */
  method TakeOffSlash(dst: array<char>, n: nat, ghost path: string, ghost p: nat) returns (nlen: nat)
    requires p == |path| + 1 && p + 1 < dst.Length && dst[..p] == path + "/" && dst[p + 1] == NUL
    requires n == if dst[p] == NUL then p else p + 1
    requires |path| > 1 && path[|path| - 1] != '/'
    modifies dst
    ensures nlen == |path| && dst[..nlen] == path && dst[nlen] == NUL
  {
    assert forall i :: 0 <= i < |path| ==> dst[i] == (path + "/")[i];
    assert dst[p - 1] == (path + "/")[p - 1];
    nlen := n - 1;
    dst[nlen] := NUL;
    while dst[nlen - 1] == '/'
      invariant |path| <= nlen <= p && dst[nlen] == NUL
      invariant forall i :: 0 <= i < |path| ==> dst[i] == path[i]
      invariant nlen == p ==> dst[p - 1] == '/'
      decreases nlen
    {
      dst[nlen - 1] := NUL;
      nlen := nlen - 1;
    }
  }

  lemma {:induction false} KeptAmong(names: seq<string>, len: int)
    requires forall i :: 0 <= i < |names| ==> Name(names[i]) && NUL !in names[i]
    ensures forall i :: 0 <= i < |Kept(names, len)| ==> Name(Kept(names, len)[i]) && NUL !in Kept(names, len)[i]
    ensures LastFits(names, len) && names != [] ==> Kept(names, len) != []
  {
    if names != [] { KeptAmong(names[..|names| - 1], len); }
  }

  lemma {:induction false} WrittenPlain(k: seq<string>)
    requires forall i :: 0 <= i < |k| ==> Name(k[i]) && NUL !in k[i]
    ensures NUL !in Written(k)
    ensures k != [] ==> var path := PathOf(k); |path| > 1 && path[|path| - 1] != '/'
  {
    if k != [] {
      var n := |k| - 1;
      WrittenPlain(k[..n]);
      JoinedMore(k[..n], k[n]);
      assert k == k[..n] + [k[n]];
      var path := PathOf(k);
      assert k[n][|k[n]| - 1] in k[n];
      assert path[|path| - 1] == k[n][|k[n]| - 1];
    }
  }

  /**
   * fno_fullpath: a path, or an error. The buffer may hold anything before, and must have
   * two bytes more than the caller says.
   */
  method FullPath(f: Fnode, dst: array<char>, len: nat, root: Fnode, ghost ns: seq<Fnode>) returns (r: int)
    requires Chain(ns, root) && f == (if ns == [] then root else ns[|ns| - 1])
    requires len + 2 <= dst.Length && forall i :: 0 <= i < |ns| ==> Name(ns[i].fname) && NUL !in ns[i].fname
    modifies dst
    ensures var path := PathOf(Kept(NamesOf(ns), len));
      if LastFits(NamesOf(ns), len) then r == |path| && r < dst.Length && dst[..r] == path && dst[r] == NUL
      else r == -2
  {
    ghost var names := NamesOf(ns);
    ghost var k := Kept(names, len);
    KeptAmong(names, len);
    WrittenPlain(k);
    var p, ret := FullPathInto(f, dst, len, root, ns);
    hide NamesOf, Kept, Chain, LastFits, Joined;
    if ret != 0 {
      return -2;
    }
    r := LengthOf(dst, k, p);
    if r > 1 {
      WrittenIsPath(k);
      r := TakeOffSlash(dst, r, PathOf(k), p);
    }
  }

  /** strlen(dst), which may count the byte that was left between. */
  method LengthOf(dst: array<char>, ghost k: seq<string>, ghost p: nat) returns (nlen: nat)
    requires p == |Written(k)| && p < dst.Length && dst[..p] == Written(k) && NUL !in Written(k)
    requires if k == [] then dst[1] == NUL else p + 1 < dst.Length && dst[p + 1] == NUL
    ensures nlen == if k == [] || dst[p] == NUL then p else p + 1
    ensures nlen > 1 <==> k != []
  {
    ghost var s := if k == [] || dst[p] == NUL then Written(k) else Written(k) + [dst[p]];
    assert dst[..p + 1] == dst[..p] + [dst[p]];
    nlen := StrLen(dst, 0, s);
  }

  /** The nodes on the way to an entry are its parents, and their names lead to it. */
  ghost predicate OnTheWay(t: Dir<Fnode>, ns: seq<Fnode>) {
    && t.Entry? && ns != []
    && if t.node == ns[0] then !t.link && (|ns| == 1 || OnTheWay(t.children, ns[1..])) else OnTheWay(t.next, ns)
  }

  lemma {:induction false} WayIsChain(t: Dir<Fnode>, first: Fnode?, parent: Fnode?, ns: seq<Fnode>)
    requires Linked(t, first, parent) && OnTheWay(t, ns) && WellNamed(t)
    ensures ns[0].parent == parent && NameIn(ns[0].fname, t) && Leads(t, NamesOf(ns), ns[|ns| - 1])
    ensures forall i :: 0 <= i < |ns| ==> ns[i] in Nodes(t) && !ns[i].link && Name(ns[i].fname)
    ensures forall i, j :: 0 <= i && j == i + 1 && j < |ns| ==> ns[j].parent == ns[i]
  {
    if t.node == ns[0] {
      if |ns| > 1 {
        WayIsChain(t.children, t.node.children, t.node, ns[1..]);
        assert NamesOf(ns)[1..] == NamesOf(ns[1..]);
        forall i | 0 <= i < |ns| ensures ns[i] in Nodes(t) && !ns[i].link && Name(ns[i].fname) {
          if i > 0 { assert ns[i] == ns[1..][i - 1]; }
        }
        forall i, j | 0 <= i && j == i + 1 && j < |ns| ensures ns[j].parent == ns[i] {
          assert ns[j] == ns[1..][j - 1];
          if i > 0 { assert ns[i] == ns[1..][i - 1]; }
        }
      }
    } else {
      WayIsChain(t.next, t.node.next, parent, ns);
    }
  }

  /**
   * Searching for the path that fno_fullpath gives finds the node again, for every node
   * below nodes that are no links, whose path fits the buffer.
   */
  method ThereAndBack(root: Fnode, ghost t: Dir<Fnode>, ghost ns: seq<Fnode>, f: Fnode, dst: array<char>, len: nat,
      ghost all: set<Fnode>) returns (r: Found<Fnode>)
    requires Rooted(t) && Linked(t, root, root) && Nodes(t) <= all && root !in Nodes(t.children)
    requires ns == [] || OnTheWay(t.children, ns)
    requires f == (if ns == [] then root else ns[|ns| - 1])
    requires forall i :: 0 <= i < |ns| ==> NUL !in ns[i].fname
    requires len + 2 <= dst.Length && |PathOf(NamesOf(ns))| <= len - 1
    modifies dst
    ensures r == Found(f)
  {
    ghost var names := NamesOf(ns);
    if ns != [] { WayIsChain(t.children, root.children, root, ns); }
    if names != [] { KeptAll(names, len); }
    LastFitsAll(names, len);
    PathFinds(t, names, f);
    var n := FullPath(f, dst, len, root, ns);
    r := SearchFrom(dst[..n], root, t, root, all);
  }

  lemma LastFitsAll(names: seq<string>, len: int)
    requires Kept(names, len) == names
    ensures LastFits(names, len)
  {
    if names != [] {
      KeptLength(names[..|names| - 1], len);
    }
  }

  /** A name in the middle that does not fit is left out, and the result is the path of something else. */
  lemma AncestorPassedOver()
    ensures var names := ["abcdef", "x"];
      LastFits(names, 6) && PathOf(Kept(names, 6)) == "/x" && PathOf(names) == "/abcdef/x"
  {
    var names := ["abcdef", "x"];
    assert names[..1] == ["abcdef"] && names[..1][..0] == [];
    assert Kept([], 6) == [];
    assert Kept(["abcdef"], 6) == [];
    assert Kept(names, 6) == ["x"];
  }
}
