/** The seed_paths mount option: its parser, which works in the option's own buffer, and its printer. */
module SeedOptions {
  import opened Basics
  import opened Text

  /** One comma-separated item: whitespace off both ends, then slashes off both ends. */
  function Clean(item: string): string {
    DropBack(DropFront(DropFront(DropBack(item, Space), Space), Slash), Slash)
  }

  function Seeds(items: seq<string>): seq<string> {
    if items == [] then []
    else (if Clean(items[0]) == [] then [] else [Clean(items[0])]) + Seeds(items[1..])
  }

  /** What a seed_paths value means. */
  function Parse(value: string): seq<string> {
    Seeds(Split(value, ','))
  }

  predicate GoodSeed(s: string) {
    s != [] && ',' !in s && s[0] != '/' && s[|s| - 1] != '/'
  }

  predicate GoodSeeds(seeds: seq<string>) {
    forall i :: 0 <= i < |seeds| ==> GoodSeed(seeds[i])
  }

  predicate AllIn(s: string, k: Class) {
    forall i :: 0 <= i < |s| ==> In(s[i], k)
  }

  /**
   * Cleaning takes whitespace and then slashes off the front, and whitespace
   * and then slashes off the back, as much of each as there is, and nothing else.
   */
  lemma CleanCutsTheEnds(item: string) returns (a: string, b: string, c: string, d: string)
    ensures item == a + (b + Clean(item) + c) + d
    ensures AllIn(a, Space) && AllIn(b, Slash) && AllIn(c, Slash) && AllIn(d, Space)
    ensures var middle := b + Clean(item) + c; middle != [] ==> !IsSpace(middle[0]) && !IsSpace(middle[|middle| - 1])
    ensures Clean(item) != [] ==> Clean(item)[0] != '/' && Clean(item)[|Clean(item)| - 1] != '/'
  {
    var x := DropBack(item, Space);
    var y := DropFront(x, Space);
    var z := DropFront(y, Slash);
    d := DropBackTakes(item, Space);
    a := DropFrontTakes(x, Space);
    b := DropFrontTakes(y, Slash);
    c := DropBackTakes(z, Slash);
    DropBackIsPrefix(item, Space);
    DropFrontIsSuffix(x, Space);
    DropFrontIsSuffix(y, Slash);
    DropBackIsPrefix(z, Slash);
    hide DropBack, DropFront, IsSpace;
    Reassociate(b, Clean(item), c);
    assert y == b + Clean(item) + c;
    assert item == x + d && x == a + y;
  }

  lemma {:induction false} DropFrontTakes(s: string, k: Class) returns (front: string)
    ensures s == front + DropFront(s, k) && AllIn(front, k)
  {
    front := [];
    if s != [] && In(s[0], k) {
      var rest := DropFrontTakes(s[1..], k);
      front := [s[0]] + rest;
      assert s == [s[0]] + s[1..];
    }
  }

  lemma {:induction false} DropBackTakes(s: string, k: Class) returns (back: string)
    ensures s == DropBack(s, k) + back && AllIn(back, k)
  {
    back := [];
    if s != [] && In(s[|s| - 1], k) {
      var n := |s| - 1;
      var rest := DropBackTakes(s[..n], k);
      back := rest + [s[n]];
      assert s == s[..n] + [s[n]];
    }
  }

  lemma CleanIsGood(item: string)
    requires ',' !in item
    ensures Clean(item) != [] ==> GoodSeed(Clean(item))
  {
    hide DropFront, DropBack;
    var a := DropBack(item, Space);
    var b := DropFront(a, Space);
    var c := DropFront(b, Slash);
    DropBackIsPrefix(item, Space);
    DropFrontIsSuffix(a, Space);
    DropFrontIsSuffix(b, Slash);
    DropBackIsPrefix(c, Slash);
  }

  lemma {:induction false} SeedsAreGood(items: seq<string>)
    requires Without(items, ',')
    ensures GoodSeeds(Seeds(items))
  {
    hide Clean, GoodSeed;
    if items != [] {
      CleanIsGood(items[0]);
      SeedsAreGood(items[1..]);
    }
  }

  /** Every stored seed is non-empty, has no comma, and neither starts nor ends with a slash. */
  lemma ParsedSeedsAreGood(value: string)
    ensures GoodSeeds(Parse(value))
  {
    JoinOfSplit(value, ',');
    SeedsAreGood(Split(value, ','));
  }

  lemma {:induction false} SeedsAppend(a: seq<string>, b: seq<string>)
    ensures Seeds(a + b) == Seeds(a) + Seeds(b)
  {
    hide Clean;
    if a == [] {
      assert a + b == b;
    } else {
      assert (a + b)[1..] == a[1..] + b && (a + b)[0] == a[0];
      SeedsAppend(a[1..], b);
      var first := if Clean(a[0]) == [] then [] else [Clean(a[0])];
      Reassociate(first, Seeds(a[1..]), Seeds(b));
    }
  }

  /** Giving the option twice is the same as giving the two values joined by a comma. */
  lemma ParseTwice(a: string, b: string)
    ensures Parse(a + "," + b) == Parse(a) + Parse(b)
  {
    SplitAtSeparator(a, ',', b);
    SeedsAppend(Split(a, ','), Split(b, ','));
  }

  // ---------------------------------------------------------------------
  // Printing and parsing again
  // ---------------------------------------------------------------------

  predicate NoEdgeSpace(s: string) {
    s != [] && !IsSpace(s[0]) && !IsSpace(s[|s| - 1])
  }

  /** A stored seed survives cleaning exactly when whitespace touches neither end. */
  lemma CleanKeeps(s: string)
    requires GoodSeed(s)
    ensures Clean(s) == s <==> NoEdgeSpace(s)
    ensures Clean(s) != s ==> |Clean(s)| < |s|
  {
    hide DropFront, DropBack;
    var a := DropBack(s, Space);
    var b := DropFront(a, Space);
    var c := DropFront(b, Slash);
    DropBackKeeps(s, Space);
    DropFrontKeeps(a, Space);
    DropFrontKeeps(b, Slash);
    DropBackKeeps(c, Slash);
  }

  predicate AllNoEdgeSpace(seeds: seq<string>) {
    forall i :: 0 <= i < |seeds| ==> NoEdgeSpace(seeds[i])
  }

  function Total(seeds: seq<string>): nat {
    if seeds == [] then 0 else |seeds[0]| + Total(seeds[1..])
  }

  lemma {:induction false} SeedsShrink(items: seq<string>)
    requires GoodSeeds(items)
    ensures Total(Seeds(items)) <= Total(items)
    ensures AllNoEdgeSpace(items) ==> Seeds(items) == items
    ensures !AllNoEdgeSpace(items) ==> Total(Seeds(items)) < Total(items)
  {
    hide Clean, NoEdgeSpace;
    if items != [] {
      var first, rest := items[0], items[1..];
      CleanKeeps(first);
      SeedsShrink(rest);
      assert items == [first] + rest;
      assert AllNoEdgeSpace(items) <==> NoEdgeSpace(first) && AllNoEdgeSpace(rest) by {
        assert forall i :: 0 <= i < |rest| ==> rest[i] == items[i + 1];
      }
      if Clean(first) == [] {
        assert Seeds(items) == Seeds(rest);
      } else {
        TotalCons(Clean(first), Seeds(rest));
      }
    }
  }

  lemma TotalCons(s: string, rest: seq<string>)
    ensures Total([s] + rest) == |s| + Total(rest)
  {
    assert ([s] + rest)[1..] == rest;
  }

  /**
   * Parsing the printed list gives back the seeds exactly when no seed has
   * whitespace at an end.  Slashes are taken off after whitespace, so a seed
   * such as " a", from the item "/ a", does not survive.
   */
  lemma ReparsePrinted(value: string)
    ensures
      var seeds := Parse(value);
      Parse(Join(seeds, ',')) == seeds <==> AllNoEdgeSpace(seeds)
  {
    ParsedSeedsAreGood(value);
    ParseNothing();
    hide Clean, NoEdgeSpace, Seeds;
    var seeds := Parse(value);
    if seeds != [] {
      SplitOfJoin(seeds, ',');
      SeedsShrink(seeds);
    }
  }

  predicate SpaceFree(s: string) {
    forall i :: 0 <= i < |s| ==> !IsSpace(s[i])
  }

  lemma CleanIsSpaceFree(item: string)
    requires SpaceFree(item)
    ensures SpaceFree(Clean(item))
  {
    hide DropFront, DropBack, IsSpace;
    var a := DropBack(item, Space);
    var b := DropFront(a, Space);
    var c := DropFront(b, Slash);
    DropBackIsPrefix(item, Space);
    DropFrontIsSuffix(a, Space);
    DropFrontIsSuffix(b, Slash);
    DropBackIsPrefix(c, Slash);
    forall i | 0 <= i < |Clean(item)| ensures !IsSpace(Clean(item)[i]) {
      assert Clean(item)[i] in Clean(item);
      var j :| 0 <= j < |item| && item[j] == Clean(item)[i];
    }
  }

  lemma {:induction false} SeedsAreSpaceFree(items: seq<string>)
    requires forall i :: 0 <= i < |items| ==> SpaceFree(items[i])
    ensures forall i :: 0 <= i < |Seeds(items)| ==> SpaceFree(Seeds(items)[i])
  {
    hide Clean, SpaceFree;
    if items != [] {
      CleanIsSpaceFree(items[0]);
      SeedsAreSpaceFree(items[1..]);
    }
  }

  lemma {:induction false} SplitIsSpaceFree(s: string, c: char)
    requires SpaceFree(s)
    ensures forall i :: 0 <= i < |Split(s, c)| ==> SpaceFree(Split(s, c)[i])
  {
    hide IsSpace;
    if s != [] {
      SplitIsSpaceFree(s[1..], c);
    }
  }

  /** An option value without whitespace survives printing and parsing. */
  lemma SpaceFreeReparses(value: string)
    requires SpaceFree(value)
    ensures Parse(Join(Parse(value), ',')) == Parse(value)
  {
    ReparsePrinted(value);
    ParsedSeedsAreGood(value);
    SplitIsSpaceFree(value, ',');
    SeedsAreSpaceFree(Split(value, ','));
    hide Seeds, Split;
    forall i | 0 <= i < |Parse(value)| ensures NoEdgeSpace(Parse(value)[i]) {
      assert GoodSeed(Parse(value)[i]) && SpaceFree(Parse(value)[i]);
    }
  }

  lemma CleanNothing(s: string)
    requires s == []
    ensures Clean(s) == []
  {
  }

  lemma ParseNothing()
    ensures Parse([]) == []
  {
    var nothing: string := [];
    CleanNothing(nothing);
    hide Clean;
    assert Split(nothing, ',') == [nothing];
    assert Seeds([nothing]) == Seeds([nothing][1..]);
  }

  lemma SlashBeforeSpaceIsLost()
    ensures Parse("/ a") == [" a"] && Parse(Join(Parse("/ a"), ',')) == ["a"]
  {
    SplitPlain("/ a", ',');
    SplitPlain(" a", ',');
    CleanSlashSpace();
    hide Clean;
    assert Seeds(["/ a"]) == [" a"] + Seeds(["/ a"][1..]);
    assert Seeds([" a"]) == ["a"] + Seeds([" a"][1..]);
  }

  lemma CleanSlashSpace()
    ensures Clean("/ a") == " a" && Clean(" a") == "a"
  {
    assert DropBack("/ a", Space) == "/ a" && DropFront("/ a", Space) == "/ a";
    assert "/ a"[1..] == " a";
    assert DropFront("/ a", Slash) == " a" && DropBack(" a", Slash) == " a";
    assert " a"[1..] == "a";
    assert DropBack(" a", Space) == " a" && DropFront(" a", Space) == "a";
    assert DropFront("a", Slash) == "a" && DropBack("a", Slash) == "a";
  }
}
