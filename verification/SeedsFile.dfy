/** The control file that lists the seeds, one to a line. */
module SeedsFile {
  import opened Basics
  import opened Text

  function Lines(seeds: seq<string>): string {
    if seeds == [] then [] else seeds[0] + ['\n'] + Lines(seeds[1..])
  }

  /** Bounded formatted print: at most size - 1 characters and a terminator; the count excludes the terminator. */
  method Scnprintf(buf: array<char>, off: nat, size: nat, text: string) returns (n: nat)
    requires off + size == buf.Length
    modifies buf
    ensures n == if size == 0 then 0 else Min(|text|, size - 1)
    ensures buf[..off] == old(buf[..off]) && buf[off..off + n] == text[..n]
    ensures size > 0 ==> buf[off + n] == NUL
  {
    if size == 0 {
      return 0;
    }
    n := Min(|text|, size - 1);
    forall j | 0 <= j < n {
      buf[off + j] := text[j];
    }
    buf[off + n] := NUL;
    assert buf[off..off + n] == text[..n];
  }

  lemma {:induction false} LinesSnoc(seeds: seq<string>, s: string)
    ensures Lines(seeds + [s]) == Lines(seeds) + s + ['\n']
  {
    if seeds == [] {
      assert ([] + [s])[1..] == [];
    } else {
      LinesSnoc(seeds[1..], s);
      assert (seeds + [s])[1..] == seeds[1..] + [s];
    }
  }

  lemma {:induction false} LinesAppend(a: seq<string>, b: seq<string>)
    ensures Lines(a + b) == Lines(a) + Lines(b)
  {
    if a == [] {
      assert a + b == b;
    } else {
      LinesAppend(a[1..], b);
      assert (a + b)[1..] == a[1..] + b;
    }
  }

  /** The first pass: room for every line and the terminator. */
  method TotalLength(seeds: seq<string>) returns (total: nat)
    ensures total == 1 + |Lines(seeds)|
  {
    total := 1;
    for i := 0 to |seeds|
      invariant total == 1 + |Lines(seeds[..i])|
    {
      assert seeds[..i + 1] == seeds[..i] + [seeds[i]];
      LinesSnoc(seeds[..i], seeds[i]);
      total := total + |seeds[i]| + 1;
    }
    assert seeds[..|seeds|] == seeds;
  }

  /** The next line ends before the terminator's place. */
  lemma NextLineFits(seeds: seq<string>, i: nat)
    requires i < |seeds|
    ensures Lines(seeds[..i + 1]) == Lines(seeds[..i]) + (seeds[i] + ['\n'])
    ensures |Lines(seeds[..i + 1])| <= |Lines(seeds)|
  {
    assert seeds[..i + 1] == seeds[..i] + [seeds[i]];
    LinesSnoc(seeds[..i], seeds[i]);
    LinesAppend(seeds[..i + 1], seeds[i + 1..]);
    assert seeds == seeds[..i + 1] + seeds[i + 1..];
  }

  /**
   * Sizes the buffer in a first pass and prints into it in a second.  No line
   * is truncated, and the text ends one short of the buffer, where its
   * terminator is.
   */
  method SeedsContent(seeds: seq<string>) returns (content: array<char>, offset: nat)
    ensures seeds == [] ==> content[..] == "<none>\n" + [NUL] && offset == 7
    ensures seeds != [] ==> content[..] == Lines(seeds) + [NUL] && offset == |Lines(seeds)|
    ensures offset == content.Length - 1
  {
    if seeds == [] {
      var none := "<none>\n";
      content := new char[8](i requires 0 <= i < 8 => if i < 7 then none[i] else NUL);
      assert content[..] == none + [NUL];
      return content, 7;
    }
    var total := TotalLength(seeds);
    content := new char[total](_ => NUL);
    offset := 0;
    assert Lines(seeds[..0]) == [];
    hide Lines;
    for i := 0 to |seeds|
      invariant offset == |Lines(seeds[..i])| && offset < total
      invariant content[..offset] == Lines(seeds[..i]) && content[offset] == NUL
    {
      var line := seeds[i] + ['\n'];
      NextLineFits(seeds, i);
      var n := Scnprintf(content, offset, total - offset, line);
      assert n == |line| && line[..n] == line;
      assert content[..offset + n] == content[..offset] + content[offset..offset + n];
      offset := offset + n;
    }
    assert seeds[..|seeds|] == seeds;
  }

  /** Reading the file line by line: the pieces between newlines, without the empty one after the last. */
  function ReadLines(content: string): seq<string> {
    var parts := Split(content, '\n');
    parts[..|parts| - 1]
  }

  lemma {:induction false} LinesAreJoined(seeds: seq<string>)
    ensures Lines(seeds) == Join(seeds + [[]], '\n')
  {
    if seeds == [] {
    } else {
      LinesAreJoined(seeds[1..]);
      assert (seeds + [[]])[1..] == seeds[1..] + [[]];
    }
  }

  /** The lines are the seeds exactly when no seed contains a newline. */
  lemma LinesRecoverSeeds(seeds: seq<string>)
    ensures ReadLines(Lines(seeds)) == seeds <==> Without(seeds, '\n')
  {
    LinesAreJoined(seeds);
    var parts := Split(Lines(seeds), '\n');
    JoinOfSplit(Lines(seeds), '\n');
    if Without(seeds, '\n') {
      SplitOfJoin(seeds + [[]], '\n');
      assert (seeds + [[]])[..|seeds|] == seeds;
    }
  }
}
