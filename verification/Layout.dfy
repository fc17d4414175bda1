/**
 * The field grammar shared by every native message: little-endian integers,
 * raw byte runs, and strings with a 32-bit length prefix.  A message body is a
 * list of values laid out by a list of shapes.
 */
module Layout {
  import opened Basics
  import opened Bytes

  datatype Shape = Int(width: nat) | Blob(size: nat) | Text

  datatype Value = N(n: nat) | B(bytes: seq<byte>)

  datatype Parsed = Malformed | Parsed(values: seq<Value>, rest: seq<byte>)

  /** A value the shape can carry without loss. */
  predicate Fits(shape: Shape, v: Value) {
    match shape
    case Int(w) => v.N? && v.n < Capacity(w)
    case Blob(n) => v.B? && |v.bytes| == n
    case Text => v.B? && |v.bytes| < U32_LIMIT
  }

  /** A value of the right kind for the shape, whatever its size. */
  predicate Typed(shape: Shape, v: Value) {
    match shape
    case Int(w) => v.N?
    case Blob(n) => v.B? && |v.bytes| == n
    case Text => v.B?
  }

  predicate AllFit(shapes: seq<Shape>, vs: seq<Value>) {
    |shapes| == |vs| && forall i :: 0 <= i < |vs| ==> Fits(shapes[i], vs[i])
  }

  predicate AllTyped(shapes: seq<Shape>, vs: seq<Value>) {
    |shapes| == |vs| && forall i :: 0 <= i < |vs| ==> Typed(shapes[i], vs[i])
  }

  lemma IntAt(shapes: seq<Shape>, vs: seq<Value>, i: nat, width: nat)
    requires AllFit(shapes, vs) && i < |shapes| && shapes[i] == Int(width)
    ensures vs[i].N? && vs[i].n < Capacity(width)
    ensures width == 2 ==> vs[i].n < 0x1_0000
    ensures width == 4 ==> vs[i].n < U32_LIMIT
    ensures width == 8 ==> vs[i].n < U64_LIMIT
  {
    CapacityValues();
    assert Fits(shapes[i], vs[i]);
  }

  /** The length prefix of a string is its length cut to 32 bits. */
  function EncodeOne(shape: Shape, v: Value): seq<byte>
    requires Typed(shape, v)
  {
    match shape
    case Int(w) => Le(v.n, w)
    case Blob(n) => v.bytes
    case Text => Le(|v.bytes| % U32_LIMIT, 4) + v.bytes
  }

  function Encode(shapes: seq<Shape>, vs: seq<Value>): seq<byte>
    requires AllTyped(shapes, vs)
  {
    if vs == [] then [] else EncodeOne(shapes[0], vs[0]) + Encode(shapes[1..], vs[1..])
  }

  function DecodeOne(shape: Shape, b: seq<byte>): Parsed {
    match shape
    case Int(w) =>
      if |b| < w then Malformed else Parsed([N(UnLe(b[..w]))], b[w..])
    case Blob(n) =>
      if |b| < n then Malformed else Parsed([B(b[..n])], b[n..])
    case Text =>
      if |b| < 4 then Malformed
      else
        var n := UnLe(b[..4]);
        if |b| - 4 < n then Malformed else Parsed([B(b[4..4 + n])], b[4 + n..])
  }

  /** The text shape is a length and then that many bytes. */
  lemma TextIsLengthAndBytes(b: seq<byte>)
    ensures DecodeOne(Text, b) ==
      match DecodeOne(Int(4), b) {
        case Malformed => Malformed
        case Parsed(v, rest) => DecodeOne(Blob(v[0].n), rest)
      }
  {
    if |b| >= 4 {
      var n := UnLe(b[..4]);
      if n <= |b| - 4 {
        assert b[4..][..n] == b[4..4 + n] && b[4..][n..] == b[4 + n..];
      }
    }
  }

  function Decode(shapes: seq<Shape>, b: seq<byte>): Parsed {
    if shapes == [] then Parsed([], b)
    else
      match DecodeOne(shapes[0], b)
      case Malformed => Malformed
      case Parsed(v, rest) =>
        match Decode(shapes[1..], rest)
        case Malformed => Malformed
        case Parsed(vs, rest') => Parsed(v + vs, rest')
  }

  lemma DecodeOneOfEncodeOne(shape: Shape, v: Value, rest: seq<byte>)
    requires Fits(shape, v)
    ensures DecodeOne(shape, EncodeOne(shape, v) + rest) == Parsed([v], rest)
  {
    CapacityValues();
    hide Le, UnLe, Capacity;
    var b := EncodeOne(shape, v) + rest;
    match shape
    case Int(w) =>
      UnLeOfLe(v.n, w);
      assert b[..w] == Le(v.n, w) && b[w..] == rest;
    case Blob(n) =>
      assert b[..n] == v.bytes && b[n..] == rest;
    case Text =>
      var n := |v.bytes|;
      UnLeOfLe(n, 4);
      assert b[..4] == Le(n, 4);
      assert b[4..4 + n] == v.bytes && b[4 + n..] == rest;
  }

  /** Four bytes and as many bytes as they count are the encoding of a string. */
  lemma EncodeText(prefix: seq<byte>, text: seq<byte>)
    requires |prefix| == 4 && UnLe(prefix) == |text|
    ensures |text| < U32_LIMIT && EncodeOne(Text, B(text)) == prefix + text
  {
    CapacityValues();
    LeOfUnLe(prefix);
    hide Le, UnLe, Capacity;
  }

  lemma EncodeOneOfDecodeOne(shape: Shape, b: seq<byte>)
    requires DecodeOne(shape, b).Parsed?
    ensures
      var p := DecodeOne(shape, b);
      && |p.values| == 1
      && Fits(shape, p.values[0])
      && b == EncodeOne(shape, p.values[0]) + p.rest
  {
    CapacityValues();
    hide Le, UnLe, Capacity;
    match shape
    case Int(w) =>
      LeOfUnLe(b[..w]);
      assert b == b[..w] + b[w..];
    case Blob(n) =>
      assert b == b[..n] + b[n..];
    case Text =>
      var n := UnLe(b[..4]);
      EncodeText(b[..4], b[4..4 + n]);
      assert b == b[..4] + b[4..4 + n] + b[4 + n..];
  }

  /** Reading a layout back returns the values written, whatever follows them. */
  lemma {:induction false} DecodeOfEncode(shapes: seq<Shape>, vs: seq<Value>, rest: seq<byte>)
    requires AllFit(shapes, vs)
    ensures Decode(shapes, Encode(shapes, vs) + rest) == Parsed(vs, rest)
  {
    if vs == [] {
      assert Encode(shapes, vs) + rest == rest;
    } else {
      var v, ws := vs[0], vs[1..];
      var tail := Encode(shapes[1..], ws);
      Reassociate(EncodeOne(shapes[0], v), tail, rest);
      DecodeOneOfEncodeOne(shapes[0], v, tail + rest);
      DecodeOfEncode(shapes[1..], ws, rest);
      hide EncodeOne, DecodeOne, Fits, AllTyped;
      assert Decode(shapes, Encode(shapes, vs) + rest) == Parsed([v] + ws, rest);
      assert vs == [v] + ws;
    }
  }

  /** A successful read means the bytes begin with the encoding of what was read. */
  lemma {:induction false} EncodeOfDecode(shapes: seq<Shape>, b: seq<byte>)
    requires Decode(shapes, b).Parsed?
    ensures AllFit(shapes, Decode(shapes, b).values)
    ensures b == Encode(shapes, Decode(shapes, b).values) + Decode(shapes, b).rest
  {
    if shapes == [] {
    } else {
      var one := DecodeOne(shapes[0], b);
      EncodeOneOfDecodeOne(shapes[0], b);
      EncodeOfDecode(shapes[1..], one.rest);
      var tail := Decode(shapes[1..], one.rest);
      var v, vs, rest := one.values[0], tail.values, tail.rest;
      assert one.values == [v];
      assert Decode(shapes, b) == Parsed([v] + vs, rest);
      FitCons(shapes, v, vs);
      Reassociate(EncodeOne(shapes[0], v), Encode(shapes[1..], vs), rest);
    }
  }

  lemma FitCons(shapes: seq<Shape>, v: Value, vs: seq<Value>)
    requires shapes != [] && Fits(shapes[0], v) && AllFit(shapes[1..], vs)
    ensures AllFit(shapes, [v] + vs)
    ensures Encode(shapes, [v] + vs) == EncodeOne(shapes[0], v) + Encode(shapes[1..], vs)
  {
    var all := [v] + vs;
    forall i | 0 <= i < |all| ensures Fits(shapes[i], all[i]) {
      if i > 0 {
        assert shapes[i] == shapes[1..][i - 1];
      }
    }
    assert all[1..] == vs;
  }

  lemma {:induction false} EncodeAppend(s1: seq<Shape>, v1: seq<Value>, s2: seq<Shape>, v2: seq<Value>)
    requires AllTyped(s1, v1) && AllTyped(s2, v2)
    ensures AllTyped(s1 + s2, v1 + v2)
    ensures Encode(s1 + s2, v1 + v2) == Encode(s1, v1) + Encode(s2, v2)
  {
    forall i | 0 <= i < |v1 + v2| ensures Typed((s1 + s2)[i], (v1 + v2)[i]) {
    }
    if v1 == [] {
      assert s1 + s2 == s2 && v1 + v2 == v2;
    } else {
      assert (s1 + s2)[1..] == s1[1..] + s2 && (v1 + v2)[1..] == v1[1..] + v2;
      assert (s1 + s2)[0] == s1[0] && (v1 + v2)[0] == v1[0];
      EncodeAppend(s1[1..], v1[1..], s2, v2);
    }
  }

  lemma EncodeSnoc(shapes: seq<Shape>, vs: seq<Value>, s: Shape, v: Value)
    requires AllTyped(shapes, vs) && Typed(s, v)
    ensures AllTyped(shapes + [s], vs + [v])
    ensures Encode(shapes + [s], vs + [v]) == Encode(shapes, vs) + EncodeOne(s, v)
  {
    EncodeAppend(shapes, vs, [s], [v]);
    assert Encode([s], [v]) == EncodeOne(s, v);
  }

  lemma {:induction false} DecodeAppend(s1: seq<Shape>, s2: seq<Shape>, b: seq<byte>)
    ensures Decode(s1 + s2, b) ==
      match Decode(s1, b) {
        case Malformed => Malformed
        case Parsed(vs, rest) =>
          match Decode(s2, rest)
          case Malformed => Malformed
          case Parsed(ws, rest') => Parsed(vs + ws, rest')
      }
  {
    if s1 == [] {
      assert s1 + s2 == s2;
    } else {
      hide DecodeOne;
      assert (s1 + s2)[1..] == s1[1..] + s2 && (s1 + s2)[0] == s1[0];
      var one := DecodeOne(s1[0], b);
      if one.Parsed? {
        DecodeAppend(s1[1..], s2, one.rest);
        var first := Decode(s1[1..], one.rest);
        if first.Parsed? && Decode(s2, first.rest).Parsed? {
          Reassociate(one.values, first.values, Decode(s2, first.rest).values);
        }
      }
    }
  }

  lemma DecodeSnoc(shapes: seq<Shape>, s: Shape, b: seq<byte>)
    ensures Decode(shapes + [s], b) ==
      match Decode(shapes, b) {
        case Malformed => Malformed
        case Parsed(vs, rest) =>
          match DecodeOne(s, rest)
          case Malformed => Malformed
          case Parsed(w, rest') => Parsed(vs + w, rest')
      }
  {
    DecodeAppend(shapes, [s], b);
    match Decode(shapes, b)
    case Malformed =>
    case Parsed(_, rest) =>
      assert [s][1..] == [];
      if DecodeOne(s, rest).Parsed? {
        assert DecodeOne(s, rest).values + [] == DecodeOne(s, rest).values;
      }
  }

  /** The least number of bytes a list of shapes occupies. */
  function MinSize(shapes: seq<Shape>): nat {
    if shapes == [] then 0
    else (match shapes[0] case Int(w) => w case Blob(n) => n case Text => 4) + MinSize(shapes[1..])
  }

  lemma {:induction false} MinSizeAppend(s1: seq<Shape>, s2: seq<Shape>)
    ensures MinSize(s1 + s2) == MinSize(s1) + MinSize(s2)
  {
    if s1 == [] {
      assert s1 + s2 == s2;
    } else {
      assert (s1 + s2)[1..] == s1[1..] + s2;
      MinSizeAppend(s1[1..], s2);
    }
  }

  predicate Fixed(shapes: seq<Shape>) {
    forall i :: 0 <= i < |shapes| ==> !shapes[i].Text?
  }

  lemma {:induction false} EncodeSize(shapes: seq<Shape>, vs: seq<Value>)
    requires AllTyped(shapes, vs)
    ensures MinSize(shapes) <= |Encode(shapes, vs)|
    ensures Fixed(shapes) ==> |Encode(shapes, vs)| == MinSize(shapes)
  {
    if vs != [] {
      EncodeSize(shapes[1..], vs[1..]);
    }
  }

  lemma {:induction false} DecodeFixed(shapes: seq<Shape>, b: seq<byte>)
    requires Fixed(shapes)
    ensures Decode(shapes, b).Parsed? <==> MinSize(shapes) <= |b|
  {
    if shapes != [] {
      var one := DecodeOne(shapes[0], b);
      if one.Parsed? {
        DecodeFixed(shapes[1..], one.rest);
      }
    }
  }

  // ---------------------------------------------------------------------
  // Runs of integers
  // ---------------------------------------------------------------------

  /** The integers of the given widths that stand one after the other from an offset on, as far as they are there. */
  function IntsAt(content: seq<byte>, off: nat, widths: seq<nat>): seq<nat>
    decreases widths
  {
    if widths == [] || off + widths[0] > |content| then []
    else [UnLe(content[off..off + widths[0]])] + IntsAt(content, off + widths[0], widths[1..])
  }

  function Ints(widths: seq<nat>): seq<Shape> {
    seq(|widths|, i requires 0 <= i < |widths| => Int(widths[i]))
  }

  function Numbers(ns: seq<nat>): seq<Value> {
    seq(|ns|, i requires 0 <= i < |ns| => N(ns[i]))
  }

  predicate NumbersFit(widths: seq<nat>, ns: seq<nat>) {
    |ns| == |widths| && forall i :: 0 <= i < |ns| ==> ns[i] < Capacity(widths[i])
  }

  lemma EncodeIntsCons(widths: seq<nat>, ns: seq<nat>)
    requires NumbersFit(widths, ns) && widths != []
    ensures NumbersFit(widths[1..], ns[1..])
    ensures AllFit(Ints(widths), Numbers(ns)) && AllFit(Ints(widths[1..]), Numbers(ns[1..]))
    ensures Encode(Ints(widths), Numbers(ns)) == Le(ns[0], widths[0]) + Encode(Ints(widths[1..]), Numbers(ns[1..]))
  {
    hide Le, Capacity;
    assert Ints(widths)[1..] == Ints(widths[1..]) && Numbers(ns)[1..] == Numbers(ns[1..]);
  }

  lemma IntsAtCons(before: seq<byte>, first: seq<byte>, after: seq<byte>, widths: seq<nat>)
    requires widths != [] && |first| == widths[0]
    ensures IntsAt(before + first + after, |before|, widths) ==
      [UnLe(first)] + IntsAt(before + first + after, |before + first|, widths[1..])
  {
    var content := before + first + after;
    assert content[|before|..|before| + widths[0]] == first;
    hide UnLe;
  }

  /** Wherever they stand, encoded integers are found again at their places. */
  lemma {:induction false} IntsOfEncode(before: seq<byte>, widths: seq<nat>, ns: seq<nat>, rest: seq<byte>)
    requires NumbersFit(widths, ns)
    ensures AllFit(Ints(widths), Numbers(ns))
    ensures IntsAt(before + Encode(Ints(widths), Numbers(ns)) + rest, |before|, widths) == ns
    decreases widths
  {
    if widths != [] {
      EncodeIntsCons(widths, ns);
      var first, tail := Le(ns[0], widths[0]), Encode(Ints(widths[1..]), Numbers(ns[1..]));
      IntsOfEncode(before + first, widths[1..], ns[1..], rest);
      UnLeOfLe(ns[0], widths[0]);
      hide Le, UnLe, Capacity, Encode, IntsAt, Ints, Numbers;
      IntsAtCons(before, first, tail + rest, widths);
      Reassociate(before, first, tail);
      Reassociate(before + first, tail, rest);
      assert ns == [ns[0]] + ns[1..];
    }
  }
}
