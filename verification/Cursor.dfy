/** The bounded cursor every request body is written with and every reply body is read with. */
module Cursors {
  import opened Basics
  import opened Bytes
  import opened Layout
  import opened Errno

  /** No kernel buffer reaches half the address space. */
  const BUFFER_LIMIT: nat := 0x8000_0000_0000_0000

  /** The offset is inside the buffer and the bytes before it encode the fields passed so far. */
  predicate Passed(content: seq<byte>, off: nat, shapes: seq<Shape>, values: seq<Value>) {
    && off <= |content| < BUFFER_LIMIT
    && AllTyped(shapes, values)
    && Encode(shapes, values) == content[..off]
  }

  lemma PassedIsEncoded(content: seq<byte>, off: nat, shapes: seq<Shape>, values: seq<Value>)
    requires Passed(content, off, shapes, values)
    ensures AllTyped(shapes, values) && off <= |content| && content[..off] == Encode(shapes, values)
  {
  }

  /** Passing one more field. */
  lemma PassField(content: seq<byte>, off: nat, shapes: seq<Shape>, values: seq<Value>, s: Shape, v: Value)
    requires Passed(content, off, shapes, values) && Typed(s, v)
    requires off + |EncodeOne(s, v)| <= |content| && content[off..off + |EncodeOne(s, v)|] == EncodeOne(s, v)
    ensures Passed(content, off + |EncodeOne(s, v)|, shapes + [s], values + [v])
  {
    EncodeSnoc(shapes, values, s, v);
    hide Encode, AllTyped, EncodeOne;
    var n := |EncodeOne(s, v)|;
    assert content[..off + n] == content[..off] + content[off..off + n];
  }

  /** Overwriting at or after the offset keeps what was passed. */
  lemma PassedPrefix(old': seq<byte>, new': seq<byte>, off: nat, shapes: seq<Shape>, values: seq<Value>)
    requires Passed(old', off, shapes, values) && |new'| == |old'| && new'[..off] == old'[..off]
    ensures Passed(new', off, shapes, values)
  {
  }

  lemma IntAhead(content: seq<byte>, off: nat, width: nat)
    requires off <= |content|
    ensures DecodeOne(Int(width), content[off..]).Parsed? <==> off + width <= |content|
    ensures off + width <= |content| ==>
      var value := UnLe(content[off..off + width]);
      && value < Capacity(width)
      && EncodeOne(Int(width), N(value)) == content[off..off + width]
      && DecodeOne(Int(width), content[off..]) == Parsed([N(value)], content[off + width..])
  {
    hide UnLe, Le, Capacity;
    if off + width <= |content| {
      assert content[off..][..width] == content[off..off + width];
      LeOfUnLe(content[off..off + width]);
    }
  }

  lemma BytesAhead(content: seq<byte>, off: nat, n: nat)
    requires off <= |content|
    ensures DecodeOne(Blob(n), content[off..]).Parsed? <==> off + n <= |content|
    ensures off + n <= |content| ==>
      DecodeOne(Blob(n), content[off..]) == Parsed([B(content[off..off + n])], content[off + n..])
  {
    if off + n <= |content| {
      assert content[off..][..n] == content[off..off + n];
    }
  }

  /** A string is its 32-bit length and then that many bytes. */
  lemma TextDecodes(content: seq<byte>, off: nat, len: nat)
    requires off + 4 <= |content| && UnLe(content[off..off + 4]) == len
    ensures DecodeOne(Text, content[off..]).Parsed? <==> off + 4 + len <= |content|
    ensures off + 4 + len <= |content| ==>
      DecodeOne(Text, content[off..]) == Parsed([B(content[off + 4..off + 4 + len])], content[off + 4 + len..])
  {
    hide UnLe, Capacity, DecodeOne, EncodeOne;
    IntAhead(content, off, 4);
    BytesAhead(content, off + 4, len);
    TextIsLengthAndBytes(content[off..]);
  }

  lemma TextEncodes(content: seq<byte>, off: nat, len: nat)
    requires off + 4 + len <= |content| && UnLe(content[off..off + 4]) == len
    ensures len < U32_LIMIT
    ensures EncodeOne(Text, B(content[off + 4..off + 4 + len])) == content[off..off + 4 + len]
  {
    EncodeText(content[off..off + 4], content[off + 4..off + 4 + len]);
    hide EncodeOne, UnLe;
    SliceSplit(content, off, off + 4, off + 4 + len);
  }

  /** Overwrites a run of bytes. */
  method CopyInto(data: array<byte>, off: nat, bytes: seq<byte>)
    requires off + |bytes| <= data.Length
    modifies data
    ensures data[..][..off] == old(data[..][..off])
    ensures data[..][off..off + |bytes|] == bytes
  {
    forall i | 0 <= i < |bytes| {
      data[off + i] := bytes[i];
    }
    assert forall i :: 0 <= i < |bytes| ==> data[..][off + i] == bytes[i];
  }

  /** From start to off the integers ns have been read, and those of the widths in rest are to come. */
  predicate ReadOf(content: seq<byte>, start: nat, widths: seq<nat>, off: nat, ns: seq<nat>, rest: seq<nat>) {
    && off <= |content|
    && off + Sum(rest) == start + Sum(widths)
    && ns + IntsAt(content, off, rest) == IntsAt(content, start, widths)
  }

  lemma ReadNothing(content: seq<byte>, start: nat, widths: seq<nat>)
    requires start <= |content|
    ensures ReadOf(content, start, widths, start, [], widths)
  {
  }

  lemma ReadOneMore(content: seq<byte>, start: nat, widths: seq<nat>, off: nat, ns: seq<nat>, rest: seq<nat>)
    requires ReadOf(content, start, widths, off, ns, rest) && rest != [] && off + rest[0] <= |content|
    ensures ReadOf(content, start, widths, off + rest[0], ns + [UnLe(content[off..off + rest[0]])], rest[1..])
  {
    hide UnLe;
    Reassociate(ns, [UnLe(content[off..off + rest[0]])], IntsAt(content, off + rest[0], rest[1..]));
  }

  lemma ReadNoMore(content: seq<byte>, start: nat, widths: seq<nat>, off: nat, ns: seq<nat>, rest: seq<nat>)
    requires ReadOf(content, start, widths, off, ns, rest) && rest != [] && off + rest[0] > |content|
    ensures start + Sum(widths) > |content| && ns == IntsAt(content, start, widths)
  {
  }

  lemma ReadAll(content: seq<byte>, start: nat, widths: seq<nat>, off: nat, ns: seq<nat>)
    requires ReadOf(content, start, widths, off, ns, [])
    ensures off == start + Sum(widths) <= |content| && ns == IntsAt(content, start, widths)
  {
  }

  class Cursor {
    const data: array<byte>
    var off: nat
    /** The fields passed so far: the bytes before the offset are their encoding. */
    ghost var shapes: seq<Shape>
    ghost var values: seq<Value>

    ghost predicate Valid()
      reads this, data
    {
      Passed(data[..], off, shapes, values)
    }

    ghost function Rest(): seq<byte>
      requires Valid()
      reads this, data
    {
      data[..][off..]
    }

    constructor (data: array<byte>)
      requires data.Length < BUFFER_LIMIT
      ensures Valid() && this.data == data && off == 0 && shapes == [] && values == []
    {
      this.data := data;
      off := 0;
      shapes, values := [], [];
    }

    /** The sum is taken in 64-bit arithmetic; it does not wrap for any field this protocol has. */
    method Require(needed: u64) returns (ret: nat)
      requires Valid()
      ensures ret == 0 || ret == EIO
      ensures off <= data.Length < BUFFER_LIMIT
      ensures needed < BUFFER_LIMIT ==> (ret == 0 <==> off + needed <= data.Length)
    {
      if (off + needed) % U64_LIMIT > data.Length {
        return EIO;
      }
      return 0;
    }

    /** put_u16, put_u32, put_u64 and put_bytes all copy a run of bytes. */
    method Put(bytes: seq<byte>, ghost s: Shape, ghost v: Value) returns (ret: nat)
      requires Valid() && |bytes| < BUFFER_LIMIT && Typed(s, v) && EncodeOne(s, v) == bytes
      modifies this, data
      ensures Valid()
      ensures ret == 0 <==> old(off) + |bytes| <= data.Length
      ensures ret == 0 ==> off == old(off) + |bytes| && shapes == old(shapes) + [s] && values == old(values) + [v]
      ensures ret != 0 ==> ret == EIO && off == old(off) && data[..] == old(data[..])
      ensures ret != 0 ==> shapes == old(shapes) && values == old(values)
    {
      hide Passed, EncodeOne;
      ret := Require(|bytes|);
      if ret != 0 {
        return;
      }
      ghost var before := data[..];
      CopyInto(data, off, bytes);
      PassedPrefix(before, data[..], off, shapes, values);
      PassField(data[..], off, shapes, values, s, v);
      off, shapes, values := off + |bytes|, shapes + [s], values + [v];
    }

    method PutBytes(bytes: seq<byte>) returns (ret: nat)
      requires Valid() && |bytes| < BUFFER_LIMIT
      modifies this, data
      ensures Valid()
      ensures ret == 0 <==> old(off) + |bytes| <= data.Length
      ensures ret == 0 ==> off == old(off) + |bytes|
      ensures ret == 0 ==> shapes == old(shapes) + [Blob(|bytes|)] && values == old(values) + [B(bytes)]
      ensures ret != 0 ==> ret == EIO && off == old(off) && data[..] == old(data[..])
      ensures ret != 0 ==> shapes == old(shapes) && values == old(values)
    {
      hide Passed;
      ret := Put(bytes, Blob(|bytes|), B(bytes));
    }

    method PutInt(width: nat, value: nat) returns (ret: nat)
      requires Valid() && width <= 8 && value < Capacity(width)
      modifies this, data
      ensures Valid()
      ensures ret == 0 <==> old(off) + width <= data.Length
      ensures ret == 0 ==> off == old(off) + width
      ensures ret == 0 ==> shapes == old(shapes) + [Int(width)] && values == old(values) + [N(value)]
      ensures ret != 0 ==> ret == EIO && off == old(off) && data[..] == old(data[..])
      ensures ret != 0 ==> shapes == old(shapes) && values == old(values)
    {
      hide Passed;
      ret := Put(Le(value, width), Int(width), N(value));
    }

    /** When the bytes do not fit, the length prefix has already been written. */
    method PutText(value: seq<byte>) returns (ret: nat)
      requires Valid() && |value| < BUFFER_LIMIT
      modifies this, data
      ensures Valid()
      ensures ret == 0 <==> old(off) + 4 + |value| <= data.Length
      ensures ret == 0 ==> off == old(off) + 4 + |value|
      ensures ret == 0 ==> shapes == old(shapes) + [Text] && values == old(values) + [B(value)]
      ensures ret != 0 ==> ret == EIO
      ensures ret != 0 && old(off) + 4 > data.Length ==> off == old(off) && data[..] == old(data[..])
      ensures ret != 0 && old(off) + 4 <= data.Length ==>
        && off == old(off) + 4
        && shapes == old(shapes) + [Int(4)] && values == old(values) + [N(|value| % U32_LIMIT)]
    {
      CapacityValues();
      hide Passed, Capacity;
      ghost var s, v := shapes, values;
      ret := PutInt(4, |value| % U32_LIMIT);
      if ret != 0 {
        return;
      }
      ret := PutBytes(value);
      if ret == 0 {
        MergeText(data[..], off, s, v, value);
        shapes, values := s + [Text], v + [B(value)];
      }
    }

    /** get_u8, get_u32 and get_u64 differ only in the width. */
    method GetInt(width: nat) returns (ret: nat, value: nat)
      requires Valid() && width <= 8
      modifies this
      ensures Valid()
      ensures ret == 0 || ret == EIO
      ensures ret == 0 <==> DecodeOne(Int(width), old(Rest())).Parsed?
      ensures ret == 0 ==> DecodeOne(Int(width), old(Rest())) == Parsed([N(value)], Rest())
      ensures ret == 0 <==> old(off) + width <= data.Length
      ensures ret == 0 ==> off == old(off) + width && value == UnLe(data[old(off)..off])
      ensures ret == 0 ==> shapes == old(shapes) + [Int(width)] && values == old(values) + [N(value)]
      ensures ret != 0 ==> off == old(off) && shapes == old(shapes) && values == old(values)
      ensures value < Capacity(width)
    {
      hide Passed, UnLe, DecodeOne, Capacity, EncodeOne;
      value := 0;
      ret := Require(width);
      IntAhead(data[..], off, width);
      if ret != 0 {
        return;
      }
      value := UnLe(data[off..off + width]);
      assert data[..][off..off + width] == data[off..off + width];
      PassInt(data[..], off, shapes, values, width);
      off, shapes, values := off + width, shapes + [Int(width)], values + [N(value)];
    }

    /** One turn of reading a run of integers. */
    method GetNextInt(ghost start: nat, ghost widths: seq<nat>, ns: seq<nat>, rest: seq<nat>)
      returns (ret: nat, ns': seq<nat>)
      requires Valid() && rest != [] && rest[0] <= 8 && ReadOf(data[..], start, widths, off, ns, rest)
      modifies this
      ensures Valid()
      ensures ret == 0 ==> ReadOf(data[..], start, widths, off, ns', rest[1..])
      ensures ret != 0 ==>
        ret == EIO && start + Sum(widths) > data.Length && ns' == IntsAt(data[..], start, widths)
    {
      hide Passed, DecodeOne, EncodeOne, Capacity, UnLe, Sum, ReadOf, IntsAt, Rest;
      var value: nat;
      ghost var before := off;
      ns' := ns;
      ret, value := GetInt(rest[0]);
      if ret == 0 {
        assert data[..][before..off] == data[before..off];
        ReadOneMore(data[..], start, widths, before, ns, rest);
        ns' := ns + [value];
      } else {
        ReadNoMore(data[..], start, widths, before, ns, rest);
      }
    }

    /** A run of integers, each read and checked in turn; a failure has read those before it. */
    method GetInts(widths: seq<nat>) returns (ret: nat, ns: seq<nat>)
      requires Valid() && forall i :: 0 <= i < |widths| ==> widths[i] <= 8
      modifies this
      ensures Valid()
      ensures ret == 0 || ret == EIO
      ensures ret == 0 <==> old(off) + Sum(widths) <= data.Length
      ensures ret == 0 ==> off == old(off) + Sum(widths)
      ensures ns == IntsAt(data[..], old(off), widths)
    {
      assert off <= data.Length;
      hide Passed, DecodeOne, EncodeOne, Capacity, UnLe, Sum, ReadOf, IntsAt;
      ghost var content, start := data[..], off;
      ReadNothing(content, start, widths);
      ret, ns := 0, [];
      var rest := widths;
      while rest != []
        invariant Valid() && ret == 0 && data[..] == content
        invariant ReadOf(content, start, widths, off, ns, rest) && forall i :: 0 <= i < |rest| ==> rest[i] <= 8
        decreases |rest|
      {
        ret, ns := GetNextInt(start, widths, ns, rest);
        if ret != 0 {
          return;
        }
        rest := rest[1..];
      }
      ReadAll(content, start, widths, off, ns);
    }

    method GetBytes(n: nat) returns (ret: nat, bytes: seq<byte>)
      requires Valid() && n < BUFFER_LIMIT
      modifies this
      ensures Valid()
      ensures ret == 0 || ret == EIO
      ensures ret == 0 <==> DecodeOne(Blob(n), old(Rest())).Parsed?
      ensures ret == 0 ==> DecodeOne(Blob(n), old(Rest())) == Parsed([B(bytes)], Rest())
      ensures ret == 0 <==> old(off) + n <= data.Length
      ensures ret == 0 ==> off == old(off) + n && bytes == data[old(off)..off]
      ensures ret == 0 ==> shapes == old(shapes) + [Blob(n)] && values == old(values) + [B(bytes)]
      ensures ret != 0 ==> off == old(off) && shapes == old(shapes) && values == old(values)
    {
      hide Passed, DecodeOne;
      bytes := [];
      ret := Require(n);
      BytesAhead(data[..], off, n);
      if ret != 0 {
        return;
      }
      bytes := data[off..off + n];
      assert data[..][off..off + n] == bytes;
      PassField(data[..], off, shapes, values, Blob(n), B(bytes));
      off, shapes, values := off + n, shapes + [Blob(n)], values + [B(bytes)];
    }

    /** A length prefix and that many bytes; when the bytes are not there, the prefix has already been consumed. */
    method GetTextBytes() returns (ret: nat, bytes: seq<byte>)
      requires Valid() && data.Length < U32_LIMIT
      modifies this
      ensures Valid()
      ensures ret == 0 || ret == EIO
      ensures ret == 0 <==> DecodeOne(Text, old(Rest())).Parsed?
      ensures ret == 0 ==> DecodeOne(Text, old(Rest())) == Parsed([B(bytes)], Rest())
      ensures ret == 0 ==> shapes == old(shapes) + [Text] && values == old(values) + [B(bytes)]
      ensures ret == 0 ==> |bytes| + 4 <= data.Length
      ensures ret != 0 ==> off == if old(off) + 4 <= data.Length then old(off) + 4 else old(off)
    {
      ghost var s, v, start, content := shapes, values, off, data[..];
      TextNeedsLength(content[start..]);
      hide Passed, UnLe, DecodeOne, Capacity, EncodeOne;
      bytes := [];
      var len: nat;
      ret, len := GetInt(4);
      if ret != 0 {
        return;
      }
      assert content[start..start + 4] == data[start..start + 4];
      TextDecodes(content, start, len);
      ret, bytes := GetBytes(len);
      if ret == 0 {
        assert bytes == content[start + 4..start + 4 + len];
        PassText(content, start, s, v, len);
        shapes, values := s + [Text], v + [B(bytes)];
      }
    }

    /**
     * Reads a length prefix and copies that many bytes.  The prefix took four
     * bytes of a buffer shorter than 2^32, so its value plus one does not wrap.
     */
    method GetText() returns (ret: nat, text: array<byte>)
      requires Valid() && data.Length < U32_LIMIT
      modifies this
      ensures Valid()
      ensures ret == 0 || ret == EIO
      ensures ret == 0 <==> DecodeOne(Text, old(Rest())).Parsed?
      ensures ret == 0 ==> 0 < text.Length < U32_LIMIT && text[text.Length - 1] == 0
      ensures ret == 0 ==> DecodeOne(Text, old(Rest())) == Parsed([B(text[..text.Length - 1])], Rest())
      ensures ret == 0 ==>
        shapes == old(shapes) + [Text] && values == old(values) + [B(text[..text.Length - 1])]
      ensures ret != 0 ==> off == if old(off) + 4 <= data.Length then old(off) + 4 else old(off)
      ensures fresh(text)
    {
      hide Passed, DecodeOne;
      text := new byte[0];
      var bytes: seq<byte>;
      ret, bytes := GetTextBytes();
      if ret == 0 {
        text := Terminated(bytes);
        assert text[..text.Length - 1] == bytes;
      }
    }
  }

  lemma TextNeedsLength(rest: seq<byte>)
    ensures DecodeOne(Int(4), rest).Malformed? ==> DecodeOne(Text, rest).Malformed?
  {
  }

  lemma PassInt(content: seq<byte>, off: nat, shapes: seq<Shape>, values: seq<Value>, width: nat)
    requires Passed(content, off, shapes, values) && off + width <= |content|
    ensures Passed(content, off + width, shapes + [Int(width)], values + [N(UnLe(content[off..off + width]))])
  {
    IntAhead(content, off, width);
    PassField(content, off, shapes, values, Int(width), N(UnLe(content[off..off + width])));
  }

  lemma PassText(content: seq<byte>, off: nat, shapes: seq<Shape>, values: seq<Value>, len: nat)
    requires Passed(content, off, shapes, values)
    requires off + 4 + len <= |content| && UnLe(content[off..off + 4]) == len
    ensures Passed(content, off + 4 + len, shapes + [Text], values + [B(content[off + 4..off + 4 + len])])
  {
    TextEncodes(content, off, len);
    hide UnLe, EncodeOne;
    PassField(content, off, shapes, values, Text, B(content[off + 4..off + 4 + len]));
  }

  /** A length and a run of that many bytes are one string field. */
  lemma MergeText(content: seq<byte>, off: nat, s: seq<Shape>, v: seq<Value>, text: seq<byte>)
    requires Passed(content, off, s + [Int(4)] + [Blob(|text|)], v + [N(|text| % U32_LIMIT)] + [B(text)])
    ensures Passed(content, off, s + [Text], v + [B(text)])
  {
    var n := N(|text| % U32_LIMIT);
    var shapes, values := s + [Int(4)] + [Blob(|text|)], v + [n] + [B(text)];
    forall i | 0 <= i < |v| ensures Typed(s[i], v[i]) {
      assert Typed(shapes[i], values[i]);
    }
    EncodeSnoc(s, v, Int(4), n);
    EncodeSnoc(s + [Int(4)], v + [n], Blob(|text|), B(text));
    EncodeSnoc(s, v, Text, B(text));
    hide Encode, AllTyped;
    Reassociate(Encode(s, v), Le(|text| % U32_LIMIT, 4), text);
  }

  /**
   * A zero-terminated copy.  The allocation size is a 32-bit sum: it does not
   * wrap here, or the stores below would be out of bounds.
   */
  method Terminated(bytes: seq<byte>) returns (text: array<byte>)
    requires |bytes| + 1 < U32_LIMIT
    ensures fresh(text) && text.Length == |bytes| + 1 && text[|bytes|] == 0 && text[..|bytes|] == bytes
  {
    var size: u32 := (|bytes| + 1) % U32_LIMIT;
    text := new byte[size];
    forall i | 0 <= i < |bytes| {
      text[i] := bytes[i];
    }
    text[|bytes|] := 0;
  }

  /** A cursor at the start of a received body. */
  method OpenBody(body: seq<byte>) returns (c: Cursor)
    requires |body| < BUFFER_LIMIT
    ensures fresh(c) && fresh(c.data) && c.Valid() && c.off == 0
    ensures c.data[..] == body && c.data.Length == |body| && c.Rest() == body
  {
    var buffer := new byte[|body|](i requires 0 <= i < |body| => body[i]);
    c := new Cursor(buffer);
    assert buffer[..] == body;
  }
}
