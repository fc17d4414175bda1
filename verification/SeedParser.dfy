/**
 * The in-place parser of the seed_paths option.  It walks a zero-terminated
 * buffer, turns commas, trailing whitespace and trailing slashes into
 * terminators, and appends what is left of each item to the mount options.
 */
module SeedParser {
  import opened Basics
  import opened Errno
  import opened Text
  import opened SeedOptions

  /** The seeds of a mount: an array that is reallocated one longer for every seed. */
  class MountOpts {
    var seedPaths: array<string>
    var seedPathCount: nat

    ghost predicate Valid()
      reads this
    {
      seedPathCount == seedPaths.Length
    }

    ghost function Stored(): seq<string>
      reads this, seedPaths
    {
      seedPaths[..]
    }

    constructor ()
      ensures Valid() && Stored() == []
    {
      seedPaths, seedPathCount := new string[0], 0;
    }

    /** Stores one more seed after the others, or nothing at all when either allocation fails. */
    method AppendSeedPath(path: string, copied: bool, grown: bool) returns (ret: nat)
      requires Valid()
      modifies this
      ensures Valid()
      ensures ret == if copied && grown then 0 else ENOMEM
      ensures Stored() == old(Stored()) + if ret == 0 then [path] else []
    {
      if !copied || !grown {
        return ENOMEM;
      }
      var bigger := new string[seedPathCount + 1];
      forall i | 0 <= i < seedPathCount {
        bigger[i] := seedPaths[i];
      }
      var index := seedPathCount;
      bigger[index] := path;
      seedPaths, seedPathCount := bigger, seedPathCount + 1;
      return 0;
    }
  }

  /** A C string of n characters starts at i. */
  ghost predicate StringAt(buf: array<char>, i: nat, n: nat)
    reads buf
  {
    i + n < buf.Length && buf[i + n] == NUL && NUL !in buf[i..i + n]
  }

  /** Nothing outside [lo, hi) differs. */
  twostate predicate OnlyWithin(buf: array<char>, lo: nat, hi: nat)
    reads buf
  {
    forall j :: 0 <= j < buf.Length && !(lo <= j < hi) ==> buf[j] == old(buf[j])
  }

  /** Ends the item at the next comma, if there is one. */
  method Strsep(buf: array<char>, cursor: nat) returns (n: nat, more: bool)
    requires cursor < buf.Length && StringAt(buf, cursor, buf.Length - 1 - cursor)
    modifies buf
    ensures StringAt(buf, cursor, n) && ',' !in buf[cursor..cursor + n]
    ensures more ==> cursor + n + 1 < buf.Length && StringAt(buf, cursor + n + 1, buf.Length - 1 - (cursor + n + 1))
    ensures more ==>
      old(buf[cursor..buf.Length - 1]) == buf[cursor..cursor + n] + [','] + buf[cursor + n + 1..buf.Length - 1]
    ensures !more ==> old(buf[cursor..buf.Length - 1]) == buf[cursor..cursor + n]
  {
    n := 0;
    ghost var text := buf[cursor..buf.Length - 1];
    while buf[cursor + n] != ',' && buf[cursor + n] != NUL
      invariant cursor + n < buf.Length && ',' !in buf[cursor..cursor + n]
      invariant buf[..] == old(buf[..])
      decreases buf.Length - n
    {
      assert cursor + n < buf.Length - 1;
      assert buf[cursor..cursor + n + 1] == buf[cursor..cursor + n] + [buf[cursor + n]];
      n := n + 1;
    }
    more := buf[cursor + n] == ',';
    assert n < |text| ==> text[n] == buf[cursor + n] && text[n] != NUL;
    if more {
      assert cursor + n < buf.Length - 1;
      assert text == text[..n] + [','] + text[n + 1..];
      assert NUL !in text[..n] && NUL !in text[n + 1..];
      buf[cursor + n] := NUL;
      assert buf[cursor..cursor + n] == text[..n];
      assert buf[cursor + n + 1..buf.Length - 1] == text[n + 1..];
    }
  }

  /** Steps over leading characters of one kind; the terminator is of no kind. */
  method SkipFront(buf: array<char>, i: nat, n: nat, k: Class) returns (start: nat)
    requires StringAt(buf, i, n)
    ensures i <= start <= i + n && buf[start..i + n] == DropFront(buf[i..i + n], k)
  {
    hide DropFront;
    ghost var text := buf[i..i + n];
    start := i;
    assert text[0..] == text;
    while In(buf[start], k)
      invariant i <= start <= i + n
      invariant DropFront(text, k) == DropFront(text[start - i..], k)
      decreases i + n - start
    {
      assert text[start - i] == buf[start];
      DropFrontAt(text, start - i, k);
      start := start + 1;
    }
    assert start < i + n ==> text[start - i] == buf[start];
    DropFrontAt(text, start - i, k);
    assert text[start - i..] == buf[start..i + n];
  }

  /** Finds the end of the string without its trailing whitespace. */
  method SpacesEnd(buf: array<char>, i: nat, n: nat) returns (end: nat)
    requires StringAt(buf, i, n)
    ensures end <= n && buf[i..i + end] == DropBack(buf[i..i + n], Space)
  {
    hide DropBack;
    ghost var text := buf[i..i + n];
    end := n;
    assert text[..end] == text;
    while end > 0 && IsSpace(buf[i + end - 1])
      invariant 0 <= end <= n
      invariant DropBack(text, Space) == DropBack(text[..end], Space)
    {
      assert text[end - 1] == buf[i + end - 1];
      DropBackAt(text, end, Space);
      end := end - 1;
    }
    assert end > 0 ==> text[end - 1] == buf[i + end - 1];
    DropBackAt(text, end, Space);
    assert text[..end] == buf[i..i + end];
  }

  /** Cuts trailing whitespace off the string and steps over leading whitespace. */
  method Strim(buf: array<char>, i: nat, n: nat) returns (start: nat, len: nat)
    requires StringAt(buf, i, n)
    modifies buf
    ensures i <= start && start + len <= i + n && StringAt(buf, start, len)
    ensures buf[start..start + len] == DropFront(DropBack(old(buf[i..i + n]), Space), Space)
    ensures OnlyWithin(buf, i, i + n + 1)
  {
    hide DropFront, DropBack;
    var end := SpacesEnd(buf, i, n);
    ghost var text, cut := buf[i..i + n], buf[i..i + end];
    assert cut == text[..end];
    buf[i + end] := NUL;
    assert buf[i..i + end] == cut;
    start := SkipFront(buf, i, end, Space);
    len := i + end - start;
    assert buf[start..i + end] == cut[start - i..];
  }

  /** Overwrites trailing slashes with terminators. */
  method CutSlashes(buf: array<char>, i: nat, n: nat) returns (len: nat)
    requires StringAt(buf, i, n)
    modifies buf
    ensures len <= n && StringAt(buf, i, len)
    ensures buf[i..i + len] == DropBack(old(buf[i..i + n]), Slash)
    ensures OnlyWithin(buf, i, i + n + 1)
  {
    hide DropBack;
    ghost var text := buf[i..i + n];
    len := n;
    assert text[..len] == text;
    while len > 0 && buf[i + len - 1] == '/'
      invariant 0 <= len <= n && buf[i..i + len] == text[..len] && buf[i + len] == NUL
      invariant DropBack(text, Slash) == DropBack(text[..len], Slash)
      invariant OnlyWithin(buf, i, i + n + 1)
    {
      assert text[..len][len - 1] == buf[i..i + len][len - 1] == '/';
      DropBackAt(text, len, Slash);
      buf[i + len - 1] := NUL;
      len := len - 1;
      assert buf[i..i + len] == text[..len];
    }
    assert len > 0 ==> text[..len][len - 1] == buf[i..i + len][len - 1];
    DropBackAt(text, len, Slash);
    assert NUL !in text[..len];
  }

  /** Trims and strips one item where it stands. */
  method CleanItem(buf: array<char>, i: nat, n: nat) returns (start: nat, len: nat)
    requires StringAt(buf, i, n)
    modifies buf
    ensures start + len < buf.Length && buf[start..start + len] == Clean(old(buf[i..i + n]))
    ensures OnlyWithin(buf, i, i + n + 1)
  {
    hide DropFront, DropBack;
    start, len := Strim(buf, i, n);
    var first := SkipFront(buf, start, len, Slash);
    start, len := first, start + len - first;
    len := CutSlashes(buf, start, len);
  }

  /** The first stored of the seeds have been added to the list, and the others are those of the text still ahead. */
  predicate Parsing(list: seq<string>, before: seq<string>, seeds: seq<string>, stored: nat, text: string, more: bool) {
    && stored <= |seeds|
    && seeds[stored..] == (if more then Parse(text) else [])
    && list == before + seeds[..stored]
  }

  lemma ParsingStarts(list: seq<string>, text: string)
    ensures Parsing(list, list, Parse(text), 0, text, true)
  {
    hide Parse;
  }

  /** What the next piece adds: its cleaned form, unless nothing is left of it. */
  lemma ParsingMore(list: seq<string>, before: seq<string>, seeds: seq<string>, stored: nat,
                    text: string, piece: string, rest: string, more: bool)
    requires ',' !in piece && text == if more then piece + [','] + rest else piece
    requires Parsing(list, before, seeds, stored, text, true)
    ensures Clean(piece) == [] ==> Parsing(list, before, seeds, stored, rest, more)
    ensures Clean(piece) != [] ==>
      stored < |seeds| && Parsing(list + [Clean(piece)], before, seeds, stored + 1, rest, more)
  {
    ParsePiece(piece, rest, more);
    hide Parse, Clean, Seeds;
    if Clean(piece) != [] {
      OneMoreStored(seeds, stored, Clean(piece), if more then Parse(rest) else []);
      Reassociate(before, seeds[..stored], [Clean(piece)]);
    }
  }

  lemma ParsingEnds(list: seq<string>, before: seq<string>, seeds: seq<string>, stored: nat, text: string)
    requires Parsing(list, before, seeds, stored, text, false)
    ensures stored == |seeds| && list == before + seeds[..stored]
  {
  }

  /** Cuts the next item off, cleans it, and leaves what follows it alone. */
  method NextItem(buf: array<char>, cursor: nat)
    returns (path: string, next: nat, more: bool, ghost piece: string)
    requires cursor < buf.Length && StringAt(buf, cursor, buf.Length - 1 - cursor)
    modifies buf
    ensures ',' !in piece && path == Clean(piece)
    ensures !more ==> old(buf[cursor..buf.Length - 1]) == piece
    ensures more ==>
      && cursor < next < buf.Length && StringAt(buf, next, buf.Length - 1 - next)
      && old(buf[cursor..buf.Length - 1]) == piece + [','] + buf[next..buf.Length - 1]
  {
    hide Clean;
    var n: nat;
    n, more := Strsep(buf, cursor);
    next := cursor + n + 1;
    piece := buf[cursor..cursor + n];
    ghost var rest := if more then buf[next..buf.Length - 1] else [];
    var start, len := CleanItem(buf, cursor, n);
    assert more ==> buf[next..buf.Length - 1] == rest && buf[buf.Length - 1] == NUL;
    path := buf[start..start + len];
  }

  /** One turn of the parser: the next item is cut off, cleaned and, unless nothing is left of it, stored. */
  method ParseItem(opts: MountOpts, buf: array<char>, cursor: nat, stored: nat, room: nat,
                   ghost before: seq<string>, ghost seeds: seq<string>)
    returns (ret: nat, next: nat, more: bool, stored': nat)
    requires opts.Valid() && cursor < buf.Length && StringAt(buf, cursor, buf.Length - 1 - cursor)
    requires stored <= room && Parsing(opts.Stored(), before, seeds, stored, buf[cursor..buf.Length - 1], true)
    modifies opts, buf
    ensures opts.Valid() && stored' <= room
    ensures more ==> cursor < next < buf.Length && StringAt(buf, next, buf.Length - 1 - next)
    ensures ret == 0 ==>
      Parsing(opts.Stored(), before, seeds, stored', if more then buf[next..buf.Length - 1] else [], more)
    ensures ret != 0 ==> ret == ENOMEM && room < |seeds| && opts.Stored() == before + seeds[..room]
  {
    ghost var text, list := buf[cursor..buf.Length - 1], opts.Stored();
    assert stored == room ==> list == before + seeds[..room];
    hide Clean, Parse, Parsing, StringAt;
    ret, stored' := 0, stored;
    ghost var piece: string;
    var path: string;
    path, next, more, piece := NextItem(buf, cursor);
    ghost var rest := if more then buf[next..buf.Length - 1] else [];
    ParsingMore(list, before, seeds, stored, text, piece, rest, more);
    if path != [] {
      ret := opts.AppendSeedPath(path, stored < room, true);
      if ret == 0 {
        stored' := stored + 1;
      }
    }
  }

  /**
   * Appends exactly the seeds the option value means, in order.  When only room
   * many of them find memory, those are stored and the rest is not.
   */
  method ParseSeedPaths(opts: MountOpts, buf: array<char>, room: nat) returns (ret: nat)
    requires opts.Valid() && buf.Length > 0 && StringAt(buf, 0, buf.Length - 1)
    modifies opts, buf
    ensures opts.Valid()
    ensures
      var seeds := Parse(old(buf[..buf.Length - 1]));
      && ret == (if |seeds| <= room then 0 else ENOMEM)
      && opts.Stored() == old(opts.Stored()) + seeds[..Min(room, |seeds|)]
  {
    hide Parse, Parsing, StringAt, MountOpts.Stored;
    var cursor, stored: nat := 0, 0;
    var more := true;
    ghost var end, before := buf.Length - 1, opts.Stored();
    ghost var seeds := Parse(buf[..end]);
    ParsingStarts(before, buf[..end]);
    assert buf[0..end] == buf[..end];
    while more
      invariant opts.Valid() && stored <= room
      invariant more ==> cursor <= end && StringAt(buf, cursor, end - cursor)
      invariant Parsing(opts.Stored(), before, seeds, stored, if more then buf[cursor..end] else [], more)
      decreases if more then 1 + end - cursor else 0
    {
      ret, cursor, more, stored := ParseItem(opts, buf, cursor, stored, room, before, seeds);
      if ret != 0 {
        return;
      }
    }
    ParsingEnds(opts.Stored(), before, seeds, stored, []);
    ret := 0;
  }

  lemma OneMoreStored(seeds: seq<string>, stored: nat, path: string, rest: seq<string>)
    requires stored <= |seeds| && seeds[stored..] == [path] + rest
    ensures stored < |seeds| && seeds[stored + 1..] == rest && seeds[..stored + 1] == seeds[..stored] + [path]
  {
    assert seeds[stored] == seeds[stored..][0];
    assert seeds[stored + 1..] == seeds[stored..][1..];
  }

  lemma ParsePiece(piece: string, rest: string, more: bool)
    requires ',' !in piece
    ensures Seeds([piece]) == if Clean(piece) == [] then [] else [Clean(piece)]
    ensures Parse(piece) == Seeds([piece])
    ensures more ==> Parse(piece + [','] + rest) == Seeds([piece]) + Parse(rest)
  {
    hide Clean;
    SplitPlain(piece, ',');
    assert [piece][1..] == [];
    if more {
      SplitAtSeparator(piece, ',', rest);
      SeedsAppend([piece], Split(rest, ','));
    }
  }

  /** The list show_options writes after ",seed_paths=". */
  method PrintSeeds(seeds: seq<string>) returns (out: string)
    ensures out == Join(seeds, ',')
  {
    out := [];
    var i := 0;
    while i < |seeds|
      invariant 0 <= i <= |seeds|
      invariant out == Join(seeds[..i], ',')
    {
      if i > 0 {
        out := out + [','];
      }
      out := out + seeds[i];
      assert seeds[..i + 1] == seeds[..i] + [seeds[i]];
      JoinSnoc(seeds[..i], seeds[i], ',');
      i := i + 1;
    }
    assert seeds[..|seeds|] == seeds;
  }
}
