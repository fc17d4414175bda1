/** Splitting and joining strings at a separator, and dropping characters from their ends. */
module Text {
  import opened Basics

  function Split(s: string, c: char): (parts: seq<string>)
    ensures parts != []
  {
    if s == [] then [[]]
    else
      var rest := Split(s[1..], c);
      if s[0] == c then [[]] + rest else [[s[0]] + rest[0]] + rest[1..]
  }

  function Join(parts: seq<string>, c: char): string {
    if parts == [] then []
    else if |parts| == 1 then parts[0]
    else parts[0] + [c] + Join(parts[1..], c)
  }

  predicate Without(parts: seq<string>, c: char) {
    forall i :: 0 <= i < |parts| ==> c !in parts[i]
  }

  lemma {:induction false} SplitPlain(s: string, c: char)
    requires c !in s
    ensures Split(s, c) == [s]
  {
    if s != [] {
      SplitPlain(s[1..], c);
      assert s == [s[0]] + s[1..];
    }
  }

  /** A separator splits the pieces of what is before it from the pieces of what is after it. */
  lemma {:induction false} SplitAtSeparator(a: string, c: char, b: string)
    ensures Split(a + [c] + b, c) == Split(a, c) + Split(b, c)
  {
    var s := a + [c] + b;
    if a == [] {
      assert s[1..] == b;
    } else {
      assert s[1..] == a[1..] + [c] + b;
      SplitAtSeparator(a[1..], c, b);
    }
  }

  lemma {:induction false} SplitOfJoin(parts: seq<string>, c: char)
    requires parts != [] && Without(parts, c)
    ensures Split(Join(parts, c), c) == parts
  {
    if |parts| == 1 {
      SplitPlain(parts[0], c);
    } else {
      SplitAtSeparator(parts[0], c, Join(parts[1..], c));
      SplitPlain(parts[0], c);
      SplitOfJoin(parts[1..], c);
    }
  }

  lemma {:induction false} JoinOfSplit(s: string, c: char)
    ensures Join(Split(s, c), c) == s && Without(Split(s, c), c)
  {
    if s != [] {
      JoinOfSplit(s[1..], c);
      var rest := Split(s[1..], c);
      assert s == [s[0]] + s[1..];
      if s[0] == c {
        assert ([[]] + rest)[1..] == rest;
      } else {
        var all := [[s[0]] + rest[0]] + rest[1..];
        assert all[1..] == rest[1..];
      }
    }
  }

  lemma {:induction false} JoinSnoc(parts: seq<string>, last: string, c: char)
    ensures Join(parts + [last], c) == if parts == [] then last else Join(parts, c) + [c] + last
  {
    if |parts| > 1 {
      JoinSnoc(parts[1..], last, c);
      assert (parts + [last])[1..] == parts[1..] + [last];
    }
  }

  lemma {:induction false} JoinAppend(a: seq<string>, b: seq<string>, c: char)
    requires a != []
    ensures Join(a + b, c) == if b == [] then Join(a, c) else Join(a, c) + [c] + Join(b, c)
  {
    if b == [] {
      assert a + b == a;
    } else if |a| > 1 {
      JoinAppend(a[1..], b, c);
      assert (a + b)[1..] == a[1..] + b && (a + b)[0] == a[0];
      Reassociate(a[0] + [c], Join(a[1..], c) + [c], Join(b, c));
      Reassociate(a[0] + [c], Join(a[1..], c), [c]);
    } else {
      assert (a + b)[1..] == b && (a + b)[0] == a[0];
    }
  }

  /** The kinds of characters that are trimmed. */
  datatype Class = Space | Slash

  /** The kernel's isspace: tab to carriage return, space, and the Latin-1 no-break space. */
  predicate IsSpace(c: char) {
    '\t' <= c <= '\r' || c == ' ' || c as int == 0xA0
  }

  lemma SpacesAre(c: char)
    ensures IsSpace(c) <==> c as int in {9, 10, 11, 12, 13, 32, 160}
  {
    assert '\t' as int == 9 && '\r' as int == 13 && ' ' as int == 32;
  }

  predicate In(c: char, k: Class) {
    match k
    case Space => IsSpace(c)
    case Slash => c == '/'
  }

  function DropFront(s: string, k: Class): (r: string)
    ensures |r| <= |s|
  {
    if s != [] && In(s[0], k) then DropFront(s[1..], k) else s
  }

  function DropBack(s: string, k: Class): (r: string)
    ensures |r| <= |s|
  {
    if s != [] && In(s[|s| - 1], k) then DropBack(s[..|s| - 1], k) else s
  }

  lemma DropFrontKeeps(s: string, k: Class)
    ensures DropFront(s, k) == s <==> s == [] || !In(s[0], k)
    ensures DropFront(s, k) != s ==> |DropFront(s, k)| < |s|
  {
    if s != [] && In(s[0], k) {
      assert |DropFront(s[1..], k)| < |s|;
    }
  }

  lemma DropBackKeeps(s: string, k: Class)
    ensures DropBack(s, k) == s <==> s == [] || !In(s[|s| - 1], k)
    ensures DropBack(s, k) != s ==> |DropBack(s, k)| < |s|
  {
    if s != [] && In(s[|s| - 1], k) {
      assert |DropBack(s[..|s| - 1], k)| < |s|;
    }
  }

  /** Dropping from position j on: one more character goes, or the rest stays. */
  lemma DropFrontAt(s: string, j: nat, k: Class)
    requires j <= |s|
    ensures j < |s| && In(s[j], k) ==> DropFront(s[j..], k) == DropFront(s[j + 1..], k)
    ensures j == |s| || !In(s[j], k) ==> DropFront(s[j..], k) == s[j..]
  {
    if j < |s| {
      assert s[j..][1..] == s[j + 1..];
    }
  }

  /** Dropping before position j: one more character goes, or the rest stays. */
  lemma DropBackAt(s: string, j: nat, k: Class)
    requires j <= |s|
    ensures j > 0 && In(s[j - 1], k) ==> DropBack(s[..j], k) == DropBack(s[..j - 1], k)
    ensures j == 0 || !In(s[j - 1], k) ==> DropBack(s[..j], k) == s[..j]
  {
    if j > 0 {
      assert s[..j][..j - 1] == s[..j - 1];
    }
  }

  /** What is left is the end of the string, and starts with something else. */
  lemma {:induction false} DropFrontIsSuffix(s: string, k: Class)
    ensures
      var r := DropFront(s, k);
      (r != [] ==> !In(r[0], k) && r[|r| - 1] == s[|s| - 1]) && forall c :: c in r ==> c in s
  {
    if s != [] && In(s[0], k) {
      DropFrontIsSuffix(s[1..], k);
    }
  }

  /** What is left is the start of the string, and ends with something else. */
  lemma {:induction false} DropBackIsPrefix(s: string, k: Class)
    ensures
      var r := DropBack(s, k);
      (r != [] ==> !In(r[|r| - 1], k) && r[0] == s[0]) && forall c :: c in r ==> c in s
  {
    if s != [] && In(s[|s| - 1], k) {
      DropBackIsPrefix(s[..|s| - 1], k);
    }
  }
}
