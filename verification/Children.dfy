/** The children of a synthetic directory, and how listing them agrees with looking them up. */
module Children {
  import opened Basics
  import opened Inodes
  import opened Text
  import opened Namespace

  /** The distinct next components below parent, in the order of the seeds that first show them. */
  function ChildNames(seeds: seq<string>, parent: string): seq<string> {
    if seeds == [] then []
    else
      var before := ChildNames(seeds[..|seeds| - 1], parent);
      match NextComponent(seeds[|seeds| - 1], parent)
      case None => before
      case Some(c) => if c in before then before else before + [c]
  }

  predicate Shows(seeds: seq<string>, parent: string, name: string) {
    exists i :: 0 <= i < |seeds| && NextComponent(seeds[i], parent) == Some(name)
  }

  predicate Distinct(names: seq<string>) {
    forall i, j :: 0 <= i < j < |names| ==> names[i] != names[j]
  }

  lemma ShowsSnoc(seeds: seq<string>, parent: string, name: string)
    requires seeds != []
    ensures
      var last := |seeds| - 1;
      Shows(seeds, parent, name) <==>
        Shows(seeds[..last], parent, name) || NextComponent(seeds[last], parent) == Some(name)
  {
    hide NextComponent;
    var last := |seeds| - 1;
    var init := seeds[..last];
    assert forall i :: 0 <= i < last ==> init[i] == seeds[i];
    if Shows(seeds, parent, name) {
      var i :| 0 <= i < |seeds| && NextComponent(seeds[i], parent) == Some(name);
      assert i < last ==> NextComponent(init[i], parent) == Some(name);
    }
    if Shows(init, parent, name) {
      var i :| 0 <= i < |init| && NextComponent(init[i], parent) == Some(name);
      assert NextComponent(seeds[i], parent) == Some(name);
    }
  }

  /** The listing has each shown name once and nothing else. */
  lemma {:induction false} ChildNamesAreShown(seeds: seq<string>, parent: string, name: string)
    ensures Distinct(ChildNames(seeds, parent))
    ensures name in ChildNames(seeds, parent) <==> Shows(seeds, parent, name)
  {
    if seeds != [] {
      hide NextComponent;
      ChildNamesAreShown(seeds[..|seeds| - 1], parent, name);
      ShowsSnoc(seeds, parent, name);
    }
  }

  /** A longer seed list only adds names at the end. */
  lemma {:induction false} ChildNamesGrow(seeds: seq<string>, parent: string, i: nat)
    requires i <= |seeds|
    ensures ChildNames(seeds[..i], parent) <= ChildNames(seeds, parent)
    decreases |seeds|
  {
    hide NextComponent;
    if i == |seeds| {
      assert seeds[..i] == seeds;
    } else {
      var init := seeds[..|seeds| - 1];
      assert init[..i] == seeds[..i];
      ChildNamesGrow(init, parent, i);
    }
  }

  /** The order of the listing is the order in which the seeds first show the names. */
  lemma ChildNamesInSeedOrder(seeds: seq<string>, parent: string, i: nat, a: string, b: string)
    requires i <= |seeds| && Shows(seeds[..i], parent, a) && !Shows(seeds[..i], parent, b) && Shows(seeds, parent, b)
    ensures
      var names := ChildNames(seeds, parent);
      exists j, k :: 0 <= j < k < |names| && names[j] == a && names[k] == b
  {
    hide NextComponent;
    var early, names := ChildNames(seeds[..i], parent), ChildNames(seeds, parent);
    ChildNamesGrow(seeds, parent, i);
    ChildNamesAreShown(seeds[..i], parent, a);
    ChildNamesAreShown(seeds[..i], parent, b);
    ChildNamesAreShown(seeds, parent, b);
    var j :| 0 <= j < |early| && early[j] == a;
    var k :| 0 <= k < |names| && names[k] == b;
    assert names[j] == a;
    assert forall x :: 0 <= x < |early| ==> names[x] == early[x] && early[x] != b;
  }

  // ---------------------------------------------------------------------
  // Listing against lookup
  // ---------------------------------------------------------------------

  predicate IsNamespaceDir(dir: Inode) {
    (dir.kind == Root && dir.path == []) || (dir.kind == NamespaceDir && dir.path != [])
  }

  /** A name that lookup resolves to a synthetic directory. */
  predicate Resolves(seeds: seq<string>, dir: Inode, name: string) {
    IsName(name) && Lookup(seeds, dir, name).Some? && Lookup(seeds, dir, name).value.kind == NamespaceDir
  }

  lemma SeedOrParentTail(s: string, c: string)
    requires s != [] && |c| > 1
    ensures SeedOrParent(s, c) <==> s[0] == c[0] && SeedOrParent(s[1..], c[1..])
  {
    if |c| < |s| {
      assert s[..|c|] == [s[0]] + s[1..][..|c| - 1] && s[1..][|c| - 1] == s[|c|];
    }
    assert c == [c[0]] + c[1..] && s == [s[0]] + s[1..];
  }

  lemma {:induction false} UpToSlashIsFirst(s: string, c: string)
    requires IsComponent(c)
    ensures UpToSlash(s) == c <==> SeedOrParent(s, c)
    ensures '/' !in UpToSlash(s)
    ensures UpToSlash(s) == [] <==> s == [] || s[0] == '/'
  {
    if s == [] || s[0] == '/' {
    } else if |c| == 1 {
      assert UpToSlash(s)[1..] == UpToSlash(s[1..]);
      NoSlashUpTo(s[1..]);
    } else {
      UpToSlashIsFirst(s[1..], c[1..]);
      hide SeedOrParent;
      assert UpToSlash(s)[1..] == UpToSlash(s[1..]);
      assert c == [c[0]] + c[1..];
      SeedOrParentTail(s, c);
    }
  }

  lemma {:induction false} NoSlashUpTo(s: string)
    ensures '/' !in UpToSlash(s)
    ensures UpToSlash(s) == [] <==> s == [] || s[0] == '/'
  {
    if s != [] && s[0] != '/' {
      NoSlashUpTo(s[1..]);
    }
  }

  /** Cutting out the next component and testing the child's path see the same seeds. */
  lemma NextComponentIsChildTest(seed: string, parent: string, c: string)
    requires IsComponent(c)
    ensures NextComponent(seed, parent) == Some(c) <==> SeedOrParent(seed, ChildPath(parent, c))
  {
    if parent == [] {
      UpToSlashIsFirst(seed, c);
    } else {
      var child := ChildPath(parent, c);
      if Below(seed, parent) {
        var rest := seed[|parent| + 1..];
        UpToSlashIsFirst(rest, c);
        assert seed == parent + ['/'] + rest;
        assert SeedOrParent(seed, child) <==> SeedOrParent(rest, c) by {
          assert |seed| > |child| ==> seed[..|child|] == parent + ['/'] + rest[..|c|];
          assert child[|parent| + 1..] == c;
        }
      }
      if SeedOrParent(seed, child) {
        ChildTestGoesBelow(seed, parent, c);
      }
    }
  }

  lemma ChildTestGoesBelow(seed: string, parent: string, c: string)
    requires parent != [] && SeedOrParent(seed, ChildPath(parent, c))
    ensures Below(seed, parent)
  {
    var child := ChildPath(parent, c);
    assert seed[..|child|] == child;
    assert seed[..|parent|] == seed[..|child|][..|parent|];
  }

  /** The seed has an empty component right below the directory. */
  predicate EmptyComponent(seed: string, parent: string) {
    if parent == [] then seed != [] && seed[0] == '/'
    else Below(seed, parent) && |parent| + 1 < |seed| && seed[|parent| + 1] == '/'
  }

  /** The seed has a dot or two dots right below the directory. */
  predicate DotComponent(seed: string, parent: string) {
    SeedOrParent(seed, ChildPath(parent, ".")) || SeedOrParent(seed, ChildPath(parent, ".."))
  }

  /** The seeds that make the listing of a directory show something lookup does not resolve. */
  predicate Unlisted(seed: string, dir: Inode) {
    || EmptyComponent(seed, dir.path)
    || DotComponent(seed, dir.path)
    || (dir.kind == Root && SeedOrParent(seed, CONTROL_NAME))
  }

  lemma ResolvesExactly(seeds: seq<string>, dir: Inode, name: string)
    requires IsNamespaceDir(dir) && IsName(name)
    ensures Resolves(seeds, dir, name) <==>
            Shows(seeds, dir.path, name) && !(dir.kind == Root && name == CONTROL_NAME)
    ensures Resolves(seeds, dir, name) ==>
            var child := ChildPath(dir.path, name);
            Lookup(seeds, dir, name).value == Inode(NamespaceDir, child, NamespaceIno(child))
  {
    hide NextComponent, NamespaceIno, SeedOrParent;
    forall i | 0 <= i < |seeds|
      ensures NextComponent(seeds[i], dir.path) == Some(name) <==> SeedOrParent(seeds[i], ChildPath(dir.path, name))
    {
      NextComponentIsChildTest(seeds[i], dir.path, name);
    }
    if dir.path != [] {
      ControlNameHasNoSlash(dir.path, name);
    }
  }

  lemma ShownNames(seed: string, parent: string)
    ensures NextComponent(seed, parent).Some? ==>
      var c := NextComponent(seed, parent).value;
      && (c == [] <==> EmptyComponent(seed, parent))
      && (c == "." || c == ".." <==> DotComponent(seed, parent))
      && '/' !in c
    ensures EmptyComponent(seed, parent) ==> NextComponent(seed, parent) == Some([])
    ensures DotComponent(seed, parent) ==>
      NextComponent(seed, parent) == Some(".") || NextComponent(seed, parent) == Some("..")
  {
    var start := if parent == [] then seed else if Below(seed, parent) then seed[|parent| + 1..] else [];
    NoSlashUpTo(start);
    NextComponentIsChildTest(seed, parent, ".");
    NextComponentIsChildTest(seed, parent, "..");
    hide SeedOrParent;
  }

  /** The child such a seed shows, which lookup does not resolve. */
  lemma UnlistedShows(seed: string, dir: Inode) returns (name: string)
    requires IsNamespaceDir(dir) && Unlisted(seed, dir)
    ensures NextComponent(seed, dir.path) == Some(name)
    ensures IsName(name) ==> dir.kind == Root && name == CONTROL_NAME
  {
    hide EmptyComponent, DotComponent, NextComponent;
    ShownNames(seed, dir.path);
    NextComponentIsChildTest(seed, dir.path, CONTROL_NAME);
    name := NextComponent(seed, dir.path).value;
  }

  /**
   * In the root or any synthetic directory, the seed children listed are the
   * names that lookup resolves to a synthetic directory, if and only if no
   * seed has an empty component or a dot there and, in the root, no seed is or
   * lies under the control directory.
   */
  lemma ListingAgreesWithLookup(seeds: seq<string>, dir: Inode)
    requires IsNamespaceDir(dir)
    ensures (forall name :: name in ChildNames(seeds, dir.path) <==> Resolves(seeds, dir, name)) <==>
            (forall i :: 0 <= i < |seeds| ==> !Unlisted(seeds[i], dir))
  {
    hide NextComponent, ChildNames, Lookup, Unlisted;
    if i :| 0 <= i < |seeds| && Unlisted(seeds[i], dir) {
      var name := UnlistedShows(seeds[i], dir);
      assert Shows(seeds, dir.path, name);
      ChildNamesAreShown(seeds, dir.path, name);
      if IsName(name) {
        ResolvesExactly(seeds, dir, name);
      }
      assert !Resolves(seeds, dir, name);
    } else {
      forall name ensures name in ChildNames(seeds, dir.path) <==> Resolves(seeds, dir, name) {
        AgreesOn(seeds, dir, name);
      }
    }
  }

  lemma AgreesOn(seeds: seq<string>, dir: Inode, name: string)
    requires IsNamespaceDir(dir) && forall i :: 0 <= i < |seeds| ==> !Unlisted(seeds[i], dir)
    ensures name in ChildNames(seeds, dir.path) <==> Resolves(seeds, dir, name)
  {
    hide NextComponent, ChildNames, Lookup, EmptyComponent, DotComponent, SeedOrParent;
    ChildNamesAreShown(seeds, dir.path, name);
    if Shows(seeds, dir.path, name) {
      var i :| 0 <= i < |seeds| && NextComponent(seeds[i], dir.path) == Some(name);
      assert !Unlisted(seeds[i], dir);
      ShownNames(seeds[i], dir.path);
      assert IsName(name);
      NextComponentIsChildTest(seeds[i], dir.path, name);
      ResolvesExactly(seeds, dir, name);
    } else if IsName(name) {
      ResolvesExactly(seeds, dir, name);
    }
  }
}
