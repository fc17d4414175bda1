/** What the seed_paths option means for the whole synthetic tree. */
module SeedTree {
  import opened Basics
  import opened Inodes
  import opened Text
  import opened SeedOptions
  import opened Namespace
  import opened Children
  import Listing

  /** A synthetic directory some path walk reaches. */
  ghost predicate Reached(seeds: seq<string>, dir: Inode) {
    IsNamespaceDir(dir) && exists names :: AreNames(names) && Walk(seeds, ROOT_INODE, names) == Some(dir)
  }

  ghost predicate Agrees(seeds: seq<string>, dir: Inode) {
    forall name :: name in ChildNames(seeds, dir.path) <==> Resolves(seeds, dir, name)
  }

  /** An empty component, a component that is a dot or two dots, or the control directory as first component. */
  predicate Troublesome(seed: string) {
    !AreNames(Split(seed, '/')) || SeedOrParent(seed, CONTROL_NAME)
  }

  /** The first component no walk looks up. */
  lemma FirstBad(parts: seq<string>) returns (k: nat)
    requires !AreNames(parts)
    ensures k < |parts| && !IsName(parts[k]) && AreNames(parts[..k])
  {
    k := 0;
    while IsName(parts[k])
      invariant k < |parts| && AreNames(parts[..k])
      decreases |parts| - k
    {
      k := k + 1;
    }
  }

  /** Joined components that start with an empty one start with a slash. */
  lemma JoinOfEmptyFirst(parts: seq<string>)
    requires |parts| > 1 && parts[0] == []
    ensures Join(parts, '/') != [] && Join(parts, '/')[0] == '/'
  {
    assert parts[0] + ['/'] == ['/'];
  }

  /** An empty component shows up below the directory named by the components before it. */
  lemma EmptyPartIsEmptyComponent(seed: string, names: seq<string>)
    requires names != [] && AreNames(names)
    requires names + [[]] < Split(seed, '/')
    ensures EmptyComponent(seed, Join(names, '/'))
  {
    hide Join, Split;
    var parts, k := Split(seed, '/'), |names|;
    var path, rest := Join(names, '/'), parts[k..];
    NamesSplit(names);
    assert parts[..k + 1] == names + [[]];
    assert rest[0] == parts[k] == (names + [[]])[k] == [];
    assert parts == names + rest;
    JoinOfSplit(seed, '/');
    JoinAppend(names, rest, '/');
    JoinOfEmptyFirst(rest);
  }

  lemma EmptyComponentIsEmptyPart(seed: string, path: string)
    requires path != [] && EmptyComponent(seed, path)
    ensures [] in Split(seed, '/')
  {
    var rest := seed[|path| + 1..];
    assert seed == path + ['/'] + rest;
    SplitAtSeparator(path, '/', rest);
    assert Split(rest, '/')[0] == [];
    assert Split(seed, '/')[|Split(path, '/')|] == [];
  }

  /** A component right below a directory is one of the seed's components. */
  lemma ChildIsPart(seed: string, path: string, c: string)
    requires IsComponent(c) && SeedOrParent(seed, ChildPath(path, c))
    ensures c in Split(seed, '/')
  {
    assert Join([c], '/') == c && AreComponents([c]);
    if path == [] {
      PrefixTestIsComponentPrefix(seed, [c]);
      assert Split(seed, '/')[0] == c;
    } else {
      ChildTestGoesBelow(seed, path, c);
      NextComponentIsChildTest(seed, path, c);
      var rest := seed[|path| + 1..];
      UpToSlashIsFirst(rest, c);
      PrefixTestIsComponentPrefix(rest, [c]);
      assert seed == path + ['/'] + rest;
      SplitAtSeparator(path, '/', rest);
      assert Split(seed, '/')[|Split(path, '/')|] == c;
    }
  }

  /** A seed that spoils the listing of some directory is troublesome. */
  lemma UnlistedIsTroublesome(seed: string, dir: Inode)
    requires GoodSeed(seed) && IsNamespaceDir(dir) && Unlisted(seed, dir)
    ensures Troublesome(seed)
  {
    hide Split, SeedOrParent;
    if EmptyComponent(seed, dir.path) {
      EmptyComponentIsEmptyPart(seed, dir.path);
    } else if SeedOrParent(seed, ChildPath(dir.path, ".")) {
      ChildIsPart(seed, dir.path, ".");
    } else if SeedOrParent(seed, ChildPath(dir.path, "..")) {
      ChildIsPart(seed, dir.path, "..");
    }
  }

  /** A good seed's first and last components are not empty. */
  lemma EndsAreNotEmpty(seed: string)
    requires GoodSeed(seed)
    ensures var parts := Split(seed, '/'); parts[0] != [] && parts[|parts| - 1] != []
  {
    var parts := Split(seed, '/');
    JoinOfSplit(seed, '/');
    if |parts| > 1 {
      var init, last := parts[..|parts| - 1], parts[|parts| - 1];
      assert parts == init + [last];
      JoinSnoc(init, last, '/');
    }
  }

  /** A dot among the components shows up below the directory named by the components before it. */
  lemma DotPartIsDotComponent(seed: string, names: seq<string>, dot: string)
    requires AreNames(names) && (dot == "." || dot == "..") && names + [dot] <= Split(seed, '/')
    ensures DotComponent(seed, Join(names, '/'))
  {
    hide Split, SeedOrParent;
    PrefixTestIsComponentPrefix(seed, names + [dot]);
    JoinSnoc(names, dot, '/');
    if names != [] {
      NamesSplit(names);
    }
  }

  /** The names before the first bad component of a good seed, whose directory then lists that component. */
  lemma NamesBeforeBad(seed: string) returns (names: seq<string>)
    requires GoodSeed(seed) && !AreNames(Split(seed, '/'))
    ensures AreNames(names) && names <= Split(seed, '/')
    ensures EmptyComponent(seed, Join(names, '/')) || DotComponent(seed, Join(names, '/'))
  {
    hide Join, EmptyComponent, DotComponent;
    var parts := Split(seed, '/');
    var k := FirstBad(parts);
    EndsAreNotEmpty(seed);
    JoinOfSplit(seed, '/');
    names := parts[..k];
    assert names + [parts[k]] == parts[..k + 1];
    if parts[k] == [] {
      EmptyPartIsEmptyComponent(seed, names);
    } else {
      DotPartIsDotComponent(seed, names, parts[k]);
    }
  }

  /** A seed whose components go on after the given ones puts their directory within reach. */
  lemma PrefixIsReached(seeds: seq<string>, i: nat, names: seq<string>)
    requires i < |seeds| && names != [] && AreNames(names) && names <= Split(seeds[i], '/')
    requires names[0] != CONTROL_NAME
    ensures Reached(seeds, Inode(NamespaceDir, Join(names, '/'), NamespaceIno(Join(names, '/'))))
  {
    hide NamespaceIno, Join, Split, Walk;
    assert ComponentPrefix(seeds, names);
    WalkReachesComponentPrefixes(seeds, names);
    NamesSplit(names);
  }

  lemma RootIsReached(seeds: seq<string>)
    ensures Reached(seeds, ROOT_INODE)
  {
    assert AreNames([]) && Walk(seeds, ROOT_INODE, []) == Some(ROOT_INODE);
  }

  /** A troublesome seed breaks the agreement in a directory that a walk reaches. */
  lemma TroubleIsReached(seeds: seq<string>, i: nat) returns (dir: Inode)
    requires GoodSeeds(seeds) && i < |seeds| && Troublesome(seeds[i])
    ensures Reached(seeds, dir) && Unlisted(seeds[i], dir)
  {
    hide NamespaceIno, Split, AreNames, Walk, Reached, EmptyComponent, DotComponent, SeedOrParent;
    dir := ROOT_INODE;
    RootIsReached(seeds);
    if !SeedOrParent(seeds[i], CONTROL_NAME) {
      assert GoodSeed(seeds[i]);
      var names := NamesBeforeBad(seeds[i]);
      if names != [] {
        NotUnderControl(seeds[i], names);
        dir := Inode(NamespaceDir, Join(names, '/'), NamespaceIno(Join(names, '/')));
        PrefixIsReached(seeds, i, names);
      }
    }
  }

  lemma NotUnderControl(seed: string, names: seq<string>)
    requires names != [] && names <= Split(seed, '/') && !SeedOrParent(seed, CONTROL_NAME)
    ensures names[0] != CONTROL_NAME
  {
    hide Split;
    PrefixTestIsComponentPrefix(seed, [CONTROL_NAME]);
    assert Join([CONTROL_NAME], '/') == CONTROL_NAME;
  }

  /**
   * For every value of the option: listing and lookup agree in every directory
   * that can be reached, if and only if no seed has an empty component, a dot
   * or two dots as a component, or the control directory as its first one.
   */
  lemma WholeTreeAgrees(value: string)
    ensures
      var seeds := Parse(value);
      (forall dir :: Reached(seeds, dir) ==> Agrees(seeds, dir)) <==>
      (forall i :: 0 <= i < |seeds| ==> !Troublesome(seeds[i]))
  {
    var seeds := Parse(value);
    ParsedSeedsAreGood(value);
    hide Parse, ChildNames, Resolves, Walk, Unlisted, Troublesome;
    if i :| 0 <= i < |seeds| && Troublesome(seeds[i]) {
      var dir := TroubleIsReached(seeds, i);
      ListingAgreesWithLookup(seeds, dir);
      assert !Agrees(seeds, dir);
    } else {
      forall dir | Reached(seeds, dir) ensures Agrees(seeds, dir) {
        forall i | 0 <= i < |seeds| ensures !Unlisted(seeds[i], dir) {
          assert GoodSeed(seeds[i]) && !Troublesome(seeds[i]);
          if Unlisted(seeds[i], dir) {
            UnlistedIsTroublesome(seeds[i], dir);
          }
        }
        ListingAgreesWithLookup(seeds, dir);
      }
    }
  }

  // ---------------------------------------------------------------------
  // Names listed twice
  // ---------------------------------------------------------------------

  /** A dot or two dots as a component with only proper names before it, or the control directory as first component. */
  predicate Doubling(seed: string) {
    var parts := Split(seed, '/');
    || SeedOrParent(seed, CONTROL_NAME)
    || exists k :: 0 <= k < |parts| && (parts[k] == "." || parts[k] == "..") && AreNames(parts[..k])
  }

  /** A walk that starts in the control directory never gets back to a synthetic one. */
  lemma {:induction false} ControlIsApart(seeds: seq<string>, inode: Inode, names: seq<string>)
    requires inode.kind == ControlDir || inode.kind == StatusFile || inode.kind == SeedsFile
    ensures Walk(seeds, inode, names).Some? ==> !IsNamespaceDir(Walk(seeds, inode, names).value)
    decreases names
  {
    if names != [] && Lookup(seeds, inode, names[0]).Some? {
      ControlIsApart(seeds, Lookup(seeds, inode, names[0]).value, names[1..]);
    }
  }

  /** A reached directory is the root or the directory of some names. */
  lemma ReachedByNames(seeds: seq<string>, dir: Inode) returns (names: seq<string>)
    requires Reached(seeds, dir)
    ensures AreNames(names) && dir.path == Join(names, '/') && (dir.kind == Root <==> names == [])
  {
    names :| AreNames(names) && Walk(seeds, ROOT_INODE, names) == Some(dir);
    if names != [] {
      if names[0] == CONTROL_NAME {
        ControlIsApart(seeds, Lookup(seeds, ROOT_INODE, names[0]).value, names[1..]);
      } else {
        hide NamespaceIno, ComponentPrefix, Lookup, Join;
        WalkReachesComponentPrefixes(seeds, names);
      }
    }
  }

  /** A dot right below a reached directory comes after proper names only. */
  lemma DotBelowNames(seed: string, names: seq<string>, dot: string)
    requires AreNames(names) && (dot == "." || dot == "..")
    requires SeedOrParent(seed, ChildPath(Join(names, '/'), dot))
    ensures Doubling(seed)
  {
    hide Split, SeedOrParent;
    var all := names + [dot];
    JoinSnoc(names, dot, '/');
    if names != [] {
      NamesSplit(names);
    }
    PrefixTestIsComponentPrefix(seed, all);
    var parts := Split(seed, '/');
    assert parts[|names|] == all[|names|] && parts[..|names|] == all[..|names|] == names;
  }

  lemma RepeatsIsDoubling(seeds: seq<string>, i: nat, dir: Inode)
    requires i < |seeds| && Reached(seeds, dir) && Listing.Repeats(seeds[i], dir)
    ensures Doubling(seeds[i])
  {
    var names := ReachedByNames(seeds, dir);
    hide Split, SeedOrParent, Join;
    if SeedOrParent(seeds[i], ChildPath(dir.path, ".")) {
      DotBelowNames(seeds[i], names, ".");
    } else if SeedOrParent(seeds[i], ChildPath(dir.path, "..")) {
      DotBelowNames(seeds[i], names, "..");
    }
  }

  lemma DoublingIsReached(seeds: seq<string>, i: nat) returns (dir: Inode)
    requires i < |seeds| && Doubling(seeds[i])
    ensures Reached(seeds, dir) && Listing.Repeats(seeds[i], dir)
  {
    hide NamespaceIno, Split, AreNames, Walk, Reached, DotComponent, SeedOrParent;
    dir := ROOT_INODE;
    RootIsReached(seeds);
    var parts := Split(seeds[i], '/');
    if !SeedOrParent(seeds[i], CONTROL_NAME) {
      var k :| 0 <= k < |parts| && (parts[k] == "." || parts[k] == "..") && AreNames(parts[..k]);
      var names := parts[..k];
      assert names + [parts[k]] == parts[..k + 1];
      DotPartIsDotComponent(seeds[i], names, parts[k]);
      if names != [] {
        NotUnderControl(seeds[i], names);
        dir := Inode(NamespaceDir, Join(names, '/'), NamespaceIno(Join(names, '/')));
        PrefixIsReached(seeds, i, names);
      }
    }
  }

  /**
   * For every value of the option: no listing of a directory that can be
   * reached names anything twice, if and only if no seed has a dot or two dots
   * with only proper names before it, or the control directory as first
   * component.
   */
  lemma WholeTreeListsNamesOnce(value: string, dotdot: bv64)
    ensures
      var seeds := Parse(value);
      (forall dir :: Reached(seeds, dir) ==> Distinct(Listing.NamesOf(Listing.Full(seeds, dir, dotdot)))) <==>
      (forall i :: 0 <= i < |seeds| ==> !Doubling(seeds[i]))
  {
    var seeds := Parse(value);
    hide Parse, Walk, Doubling, Listing.Repeats, Listing.Full, Listing.NamesOf, Distinct;
    if i :| 0 <= i < |seeds| && Doubling(seeds[i]) {
      var dir := DoublingIsReached(seeds, i);
      Listing.EachNameListedOnce(seeds, dir, dotdot);
    } else {
      forall dir | Reached(seeds, dir) ensures Distinct(Listing.NamesOf(Listing.Full(seeds, dir, dotdot))) {
        forall i | 0 <= i < |seeds| ensures !Listing.Repeats(seeds[i], dir) {
          if Listing.Repeats(seeds[i], dir) {
            RepeatsIsDoubling(seeds, i, dir);
          }
        }
        Listing.EachNameListedOnce(seeds, dir, dotdot);
      }
    }
  }
}
