/**
 * The synthetic name space: a flat list of seed paths shown as a directory
 * tree while no server is connected.  Lookup tests string prefixes, listing
 * cuts components out of strings; neither ever builds a tree.
 */
module Namespace {
  import opened Basics
  import opened Inodes
  import opened Text

  datatype Inode = Inode(kind: Kind, path: string, ino: bv64)

  const ROOT_INO: bv64 := 1
  const CONTROL_INO: bv64 := 2
  const STATUS_INO: bv64 := 3
  const SEEDS_INO: bv64 := 4

  const ROOT_INODE := Inode(Root, "", ROOT_INO)

  const CONTROL_NAME: string := ".monofs"

  // ---------------------------------------------------------------------
  // Paths and inode numbers
  // ---------------------------------------------------------------------

  function HashByte(hash: bv64, c: char): bv64 {
    (hash ^ (((c as int) % 0x100) as bv64)) * 1099511628211
  }

  function HashFrom(hash: bv64, path: string): bv64
    decreases path
  {
    if path == [] then hash else HashFrom(HashByte(hash, path[0]), path[1..])
  }

  const HASH_BASIS: bv64 := 1469598103934665603

  function FoldHash(hash: bv64): bv64 {
    0x100000000 | (hash & 0x7fffffff)
  }

  function NamespaceIno(path: string): bv64 {
    FoldHash(HashFrom(HASH_BASIS, path))
  }

  lemma {:induction false} HashOneMore(hash: bv64, path: string, c: char)
    ensures HashFrom(hash, path + [c]) == HashByte(HashFrom(hash, path), c)
    decreases path
  {
    hide HashByte;
    if path == [] {
      assert ([] + [c])[1..] == [];
    } else {
      HashOneMore(HashByte(hash, path[0]), path[1..], c);
      assert (path + [c])[1..] == path[1..] + [c] && (path + [c])[0] == path[0];
    }
  }

  /** Hashing one more character is one more turn of exclusive-or and multiplication. */
  lemma HashSnoc(hash: bv64, path: string, c: char)
    ensures HashFrom(hash, path + [c]) == (HashFrom(hash, path) ^ (((c as int) % 0x100) as bv64)) * 0x100_0000_01b3
  {
    HashOneMore(hash, path, c);
    hide HashFrom;
  }

  /** The number of a path: the folded hash, started from the basis. */
  lemma NamespaceInoOfNothing()
    ensures NamespaceIno("") == 0x1_0000_0000 | (0x14650fb0739d0383 & 0x7fff_ffff)
    ensures forall path :: NamespaceIno(path) == 0x1_0000_0000 | (HashFrom(0x14650fb0739d0383, path) & 0x7fff_ffff)
  {
    hide HashByte;
  }

  /** The number is never one of the fixed ones: bit 32 is set and only 31 bits vary. */
  method ComputeNamespaceIno(path: string) returns (ino: bv64)
    ensures ino == NamespaceIno(path)
    ensures 0x1_0000_0000 <= ino < 0x1_8000_0000
  {
    var hash, i := HASH_BASIS, 0;
    while i < |path|
      invariant 0 <= i <= |path|
      invariant HashFrom(hash, path[i..]) == HashFrom(HASH_BASIS, path)
    {
      assert path[i..][1..] == path[i + 1..];
      hash := HashByte(hash, path[i]);
      i := i + 1;
    }
    ino := FoldHash(hash);
  }

  function ChildPath(parent: string, name: string): string {
    if parent == [] then name else parent + ['/'] + name
  }

  // ---------------------------------------------------------------------
  // The two string tests
  // ---------------------------------------------------------------------

  /** The prefix test: seed goes on below path with a slash. */
  predicate Below(seed: string, path: string) {
    |path| < |seed| && seed[..|path|] == path && seed[|path|] == '/'
  }

  predicate SeedOrParent(seed: string, candidate: string) {
    seed == candidate || (candidate != [] && Below(seed, candidate))
  }

  predicate IsSeedOrParent(seeds: seq<string>, candidate: string) {
    exists i :: 0 <= i < |seeds| && SeedOrParent(seeds[i], candidate)
  }

  method TestSeedOrParent(seeds: seq<string>, candidate: string) returns (yes: bool)
    ensures yes == IsSeedOrParent(seeds, candidate)
  {
    for i := 0 to |seeds|
      invariant forall j :: 0 <= j < i ==> !SeedOrParent(seeds[j], candidate)
    {
      if SeedOrParent(seeds[i], candidate) {
        return true;
      }
    }
    return false;
  }

  /** The characters before the first slash. */
  function UpToSlash(s: string): string {
    if s == [] || s[0] == '/' then [] else [s[0]] + UpToSlash(s[1..])
  }

  /** The next component of seed below parent, if seed goes on below it. */
  function NextComponent(seed: string, parent: string): Option<string> {
    if parent != [] && !Below(seed, parent) then None
    else
      var start := if parent == [] then seed else seed[|parent| + 1..];
      if start == [] then None else Some(UpToSlash(start))
  }

  // ---------------------------------------------------------------------
  // Lookup
  // ---------------------------------------------------------------------

  function FindChild(kind: Kind, name: string): Option<Inode> {
    if kind == Root && name == CONTROL_NAME then Some(Inode(ControlDir, CONTROL_NAME, CONTROL_INO))
    else if kind == ControlDir && name == "status" then Some(Inode(StatusFile, name, STATUS_INO))
    else if kind == ControlDir && name == "seeds" then Some(Inode(SeedsFile, name, SEEDS_INO))
    else None
  }

  /** Lookup without a connection; None is a negative entry. */
  function Lookup(seeds: seq<string>, dir: Inode, name: string): Option<Inode> {
    if FindChild(dir.kind, name).Some? then FindChild(dir.kind, name)
    else if dir.kind != Root && dir.kind != NamespaceDir then None
    else
      var candidate := ChildPath(dir.path, name);
      if candidate == CONTROL_NAME then Some(Inode(ControlDir, candidate, CONTROL_INO))
      else if !IsSeedOrParent(seeds, candidate) then None
      else Some(Inode(NamespaceDir, candidate, NamespaceIno(candidate)))
  }

  /** Repeated lookup, as a path walk does it. */
  function Walk(seeds: seq<string>, dir: Inode, names: seq<string>): Option<Inode>
    decreases names
  {
    if names == [] then Some(dir)
    else
      match Lookup(seeds, dir, names[0])
      case None => None
      case Some(child) => Walk(seeds, child, names[1..])
  }

  predicate IsComponent(name: string) {
    name != [] && '/' !in name
  }

  /** A path walk looks up every component but the dots, which it follows by itself. */
  predicate IsName(name: string) {
    IsComponent(name) && name != "." && name != ".."
  }

  predicate AreComponents(names: seq<string>) {
    forall i :: 0 <= i < |names| ==> IsComponent(names[i])
  }

  predicate AreNames(names: seq<string>) {
    forall i :: 0 <= i < |names| ==> IsName(names[i])
  }

  /** The names are the first components of some seed. */
  predicate ComponentPrefix(seeds: seq<string>, names: seq<string>) {
    exists i :: 0 <= i < |seeds| && names <= Split(seeds[i], '/')
  }

  lemma NamesSplit(names: seq<string>)
    requires names != [] && AreComponents(names)
    ensures Split(Join(names, '/'), '/') == names && Join(names, '/') != []
  {
    assert Without(names, '/');
    SplitOfJoin(names, '/');
    assert names[0] != [];
    var whole := Join(names, '/');
    assert |whole| >= |names[0]|;
  }

  /** The string test sees exactly the component prefixes. */
  lemma PrefixTestIsComponentPrefix(seed: string, names: seq<string>)
    requires names != [] && AreComponents(names)
    ensures SeedOrParent(seed, Join(names, '/')) <==> names <= Split(seed, '/')
  {
    var path := Join(names, '/');
    NamesSplit(names);
    if Below(seed, path) {
      var rest := seed[|path| + 1..];
      assert seed == path + ['/'] + rest;
      SplitAtSeparator(path, '/', rest);
    }
    if names <= Split(seed, '/') {
      var more := Split(seed, '/')[|names|..];
      assert Split(seed, '/') == names + more;
      JoinOfSplit(seed, '/');
      JoinAppend(names, more, '/');
    }
  }

  lemma SeedTestIsComponentPrefix(seeds: seq<string>, names: seq<string>)
    requires names != [] && AreComponents(names)
    ensures IsSeedOrParent(seeds, Join(names, '/')) <==> ComponentPrefix(seeds, names)
  {
    forall i | 0 <= i < |seeds|
      ensures SeedOrParent(seeds[i], Join(names, '/')) <==> names <= Split(seeds[i], '/')
    {
      PrefixTestIsComponentPrefix(seeds[i], names);
    }
  }

  lemma PrefixesAreClosed(seeds: seq<string>, a: seq<string>, b: seq<string>)
    requires ComponentPrefix(seeds, b) && a <= b
    ensures ComponentPrefix(seeds, a)
  {
    var i :| 0 <= i < |seeds| && b <= Split(seeds[i], '/');
    assert a <= Split(seeds[i], '/');
  }

  lemma ControlNameHasNoSlash(path: string, name: string)
    requires path != []
    ensures ChildPath(path, name) != CONTROL_NAME
  {
    assert ChildPath(path, name)[|path|] == '/';
    assert '/' !in CONTROL_NAME;
  }

  /** Looking up one more name below the directory of the names so far. */
  lemma LookupBelow(seeds: seq<string>, done: seq<string>, name: string)
    requires done != [] && AreNames(done) && IsName(name)
    ensures
      var dir := Inode(NamespaceDir, Join(done, '/'), NamespaceIno(Join(done, '/')));
      var path := Join(done + [name], '/');
      Lookup(seeds, dir, name) ==
        if ComponentPrefix(seeds, done + [name]) then Some(Inode(NamespaceDir, path, NamespaceIno(path))) else None
  {
    hide NamespaceIno, IsSeedOrParent, ComponentPrefix, Split;
    JoinSnoc(done, name, '/');
    NamesSplit(done);
    hide Join;
    ControlNameHasNoSlash(Join(done, '/'), name);
    SeedTestIsComponentPrefix(seeds, done + [name]);
  }

  lemma {:induction false} WalkFrom(seeds: seq<string>, done: seq<string>, rest: seq<string>)
    requires done != [] && AreNames(done) && AreNames(rest)
    ensures
      var dir := Inode(NamespaceDir, Join(done, '/'), NamespaceIno(Join(done, '/')));
      var path := Join(done + rest, '/');
      Walk(seeds, dir, rest) ==
        if rest == [] || ComponentPrefix(seeds, done + rest)
        then Some(Inode(NamespaceDir, path, NamespaceIno(path)))
        else None
    decreases rest
  {
    hide NamespaceIno, Lookup, ComponentPrefix, Join;
    if rest == [] {
      assert done + rest == done;
    } else {
      var next := done + [rest[0]];
      LookupBelow(seeds, done, rest[0]);
      assert next + rest[1..] == done + rest;
      WalkFrom(seeds, next, rest[1..]);
      if ComponentPrefix(seeds, done + rest) {
        PrefixesAreClosed(seeds, next, done + rest);
      } else if rest[1..] == [] {
        assert next == done + rest;
      }
    }
  }

  /**
   * From the root, a walk along any names that do not start with the control
   * directory reaches an inode exactly when the names are the first components
   * of some seed, and that inode is the directory for the joined names.
   */
  lemma WalkReachesComponentPrefixes(seeds: seq<string>, names: seq<string>)
    requires names != [] && AreNames(names) && names[0] != CONTROL_NAME
    ensures
      var path := Join(names, '/');
      Walk(seeds, ROOT_INODE, names) ==
        if ComponentPrefix(seeds, names) then Some(Inode(NamespaceDir, path, NamespaceIno(path))) else None
  {
    hide NamespaceIno, IsSeedOrParent, ComponentPrefix, Split;
    var first := [names[0]];
    assert names == first + names[1..];
    assert Join(first, '/') == names[0];
    SeedTestIsComponentPrefix(seeds, first);
    WalkFrom(seeds, first, names[1..]);
    if ComponentPrefix(seeds, names) {
      PrefixesAreClosed(seeds, first, names);
    } else if names[1..] == [] {
      assert names == first;
    }
  }
}
