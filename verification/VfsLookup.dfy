/**
 * What a search finds and what it does not (kernel/vfs.c:278-346): exactly the entry the
 * names lead to. Slashes at both ends of a path do not matter, doubled ones inside do.
 */
module VfsLookup {
  import opened VfsPath

  /** The names come to a link, at their end or on the way. */
  predicate LeadsToLink<T(==)>(dir: Dir<T>, names: seq<string>, l: T) {
    && names != [] && dir.Entry?
    && if dir.name != names[0] then LeadsToLink(dir.next, names, l)
       else if dir.link then dir.node == l
       else LeadsToLink(dir.children, names[1..], l)
  }

  predicate AllNames(names: seq<string>) { forall i :: 0 <= i < |names| ==> Name(names[i]) }

  /** Which entry the names lead to is settled: one entry, one link, or none. */
  lemma {:induction false} SearchExact<T>(dir: Dir<T>, names: seq<string>)
    requires WellNamed(dir) && names != [] && AllNames(names)
    ensures forall f :: Search(Joined(names), dir) == Found(f) <==> Leads(dir, names, f)
    ensures forall l :: Search(Joined(names), dir) == Reached(l) <==> LeadsToLink(dir, names, l)
  {
    if dir.Empty? {
    } else if dir.name == names[0] {
      CheckOwn(names);
      hide PathCheck, PathWalk, Joined;
      if |names| > 1 {
        SearchExact(dir.children, names[1..]);
      } else {
        assert names[1..] == [];
      }
    } else {
      CheckOther(dir.name, names);
      hide PathCheck, PathWalk, Joined;
      SearchExact(dir.next, names);
    }
  }

  /** So a search comes back with nothing exactly if the names lead nowhere. */
  lemma MissingExact<T(!new)>(dir: Dir<T>, names: seq<string>)
    requires WellNamed(dir) && names != [] && AllNames(names)
    ensures Search(Joined(names), dir) == Missing <==>
      (forall f :: !Leads(dir, names, f)) && (forall l :: !LeadsToLink(dir, names, l))
  {
    SearchExact(dir, names);
    match Search(Joined(names), dir)
    case Missing =>
      forall f ensures !Leads(dir, names, f) && !LeadsToLink(dir, names, f) {
        assert Search(Joined(names), dir) != Found(f) && Search(Joined(names), dir) != Reached(f);
      }
    case Found(f) => LeadsSomewhere(dir, names, f);
    case Reached(l) => LeadsSomewhere(dir, names, l);
  }

  lemma LeadsSomewhere<T(!new)>(dir: Dir<T>, names: seq<string>, f: T)
    ensures Leads(dir, names, f) ==> exists f' :: Leads(dir, names, f')
    ensures LeadsToLink(dir, names, f) ==> exists l :: LeadsToLink(dir, names, l)
  {
  }

  // ---- paths from the root

  function Slashes(n: nat): string { seq(n, _ => '/') }

  lemma {:induction false} LeadingSkipped(n: nat, path: string)
    requires path != [] && path[0] != '/'
    ensures SkipSlashes(Slashes(n) + path) == path
  {
    if n > 0 {
      assert (Slashes(n) + path)[1..] == Slashes(n - 1) + path;
      LeadingSkipped(n - 1, path);
    } else {
      assert Slashes(n) + path == path;
    }
  }

  lemma {:induction false} TrailingStripped(path: string, n: nat)
    requires path != [] && path[|path| - 1] != '/'
    ensures StripSlashes(path + Slashes(n)) == path
  {
    if n > 0 {
      var p := path + Slashes(n);
      assert p[..|p| - 1] == path + Slashes(n - 1);
      TrailingStripped(path, n - 1);
    } else {
      assert path + Slashes(n) == path;
    }
  }

  /** From the root, with any number of slashes in front and behind, a path finds what its names lead to. */
  lemma PathExact<T(!new)>(root: Dir<T>, front: nat, names: seq<string>, back: nat)
    requires Rooted(root) && front > 0 && names != [] && AllNames(names)
    ensures var r := FnoSearch(Slashes(front) + Joined(names) + Slashes(back), root);
      && (forall f :: r == Found(f) <==> Leads(root.children, names, f))
      && (forall l :: r == Reached(l) <==> LeadsToLink(root.children, names, l))
  {
    JoinedEnds(names);
    var path := Slashes(front) + Joined(names);
    TrailingStripped(path, back);
    LeadingSkipped(front, Joined(names));
    FromRoot(root, front, Joined(names));
    SearchExact(root.children, names);
  }

  lemma FromRoot<T>(root: Dir<T>, front: nat, rest: string)
    requires Rooted(root) && front > 0 && rest != [] && SkipSlashes(Slashes(front) + rest) == rest
    ensures Search(Slashes(front) + rest, root) == Search(rest, root.children)
  {
    var path := Slashes(front) + rest;
    assert path[0] == '/' && path[..1] == "/";
    assert PathCheck(path, "/") == Below;
  }

  /** No entry below the root matches a path that begins with a slash. */
  lemma {:induction false} SlashMisses<T>(dir: Dir<T>, path: string)
    requires WellNamed(dir) && path != [] && path[0] == '/'
    ensures Search(path, dir) == Missing
  {
    if dir.Entry? {
      PrefixAt(path, dir.name);
      assert dir.name[0] in dir.name;
      SlashMisses(dir.next, path);
    }
  }

  /** So two slashes in a row inside a path are never passed. */
  lemma {:induction false} DoubledSlashMisses<T>(dir: Dir<T>, name: string, rest: string)
    requires WellNamed(dir) && Name(name)
    ensures !Search(name + ("//" + rest), dir).Found?
  {
    if dir.Entry? {
      var path := name + ("//" + rest);
      if dir.name == name {
        CheckFirst(name, "//" + rest);
        SlashMisses(dir.children, ("//" + rest)[1..]);
      } else {
        OtherName(dir.name, name, "//" + rest);
        DoubledSlashMisses(dir.next, name, rest);
      }
    }
  }

  lemma OtherName(name: string, first: string, rest: string)
    requires Name(name) && Name(first) && name != first && rest != [] && rest[0] == '/'
    ensures PathCheck(first + rest, name) == No
  {
    var path := first + rest;
    assert path[..|first|] == first && path[|first|] == '/';
    assert forall k :: 0 <= k < |first| ==> path[k] == first[k] && first[k] in first;
    assert forall k :: 0 <= k < |name| ==> name[k] in name;
    PrefixAt(path, name);
  }

  /** A path without a slash in front finds nothing. */
  lemma RelativeMisses<T>(root: Dir<T>, path: string)
    requires Rooted(root) && path != [] && path[0] != '/'
    ensures FnoSearch(path, root) == Missing
  {
    StripKeepsFirst(path);
    PrefixAt(StripSlashes(path), "/");
    assert "/"[0] == '/';
    assert PathCheck(StripSlashes(path), root.name) == No && Search(StripSlashes(path), root.next) == Missing;
  }

  lemma {:induction false} StripKeepsFirst(path: string)
    requires path != []
    ensures StripSlashes(path) != [] && StripSlashes(path)[0] == path[0]
  {
    if |path| > 1 && path[|path| - 1] == '/' { StripKeepsFirst(path[..|path| - 1]); }
  }
}
