/** Filling a page from a READ reply, and what reading pages in order yields. */
module Folio {
  import opened Basics
  import opened Bytes
  import opened Layout
  import opened Errno
  import opened Cursors

  /** End-of-file flag, then the payload with its length. */
  const READ_REPLY: seq<Shape> := [Int(1), Text]

  datatype Payload = Refused | Payload(eof: bool, bytes: seq<byte>)

  /** What a READ reply to a request for length bytes delivers. */
  function PayloadOf(body: seq<byte>, length: nat): Payload {
    match Decode(READ_REPLY, body)
    case Malformed => Refused
    case Parsed(vs, _) =>
      EncodeOfDecode(READ_REPLY, body);
      assert Fits(READ_REPLY[0], vs[0]) && Fits(READ_REPLY[1], vs[1]);
      if |vs[1].bytes| > length then Refused else Payload(vs[0].n != 0, vs[1].bytes)
  }

  function Zeros(n: nat): seq<byte> {
    seq(n, i => 0)
  }

  lemma DecodeReadReply(body: seq<byte>)
    ensures Decode(READ_REPLY, body) ==
      match DecodeOne(Int(1), body) {
        case Malformed => Malformed
        case Parsed(v, rest) =>
          match DecodeOne(Text, rest)
          case Malformed => Malformed
          case Parsed(w, rest') => Parsed(v + w, rest')
      }
  {
    hide DecodeOne;
    DecodeSnoc([Int(1)], Text, body);
    DecodeSnoc([], Int(1), body);
    assert [Int(1)] == [] + [Int(1)];
    assert READ_REPLY == [Int(1)] + [Text];
    if DecodeOne(Int(1), body).Parsed? {
      assert [] + DecodeOne(Int(1), body).values == DecodeOne(Int(1), body).values;
    }
  }

  /** The payload field by field: a flag, a length, and that many bytes if they are not too many. */
  lemma PayloadFields(body: seq<byte>, length: nat)
    ensures PayloadOf(body, length) ==
      match DecodeOne(Int(1), body) {
        case Malformed => Refused
        case Parsed(eof, rest) =>
          match DecodeOne(Int(4), rest)
          case Malformed => Refused
          case Parsed(len, rest') =>
            match DecodeOne(Blob(len[0].n), rest')
            case Malformed => Refused
            case Parsed(bytes, _) =>
              if len[0].n > length then Refused else Payload(eof[0].n != 0, bytes[0].bytes)
      }
  {
    DecodeReadReply(body);
    if DecodeOne(Int(1), body).Parsed? {
      var rest := DecodeOne(Int(1), body).rest;
      TextIsLengthAndBytes(rest);
      if DecodeOne(Int(4), rest).Parsed? {
        BlobField(DecodeOne(Int(4), rest).values[0].n, DecodeOne(Int(4), rest).rest);
      }
    }
    IntField(1, body);
    hide Decode, DecodeOne;
  }

  lemma BlobField(n: nat, b: seq<byte>)
    ensures DecodeOne(Blob(n), b).Parsed? ==>
      && |DecodeOne(Blob(n), b).values| == 1 && DecodeOne(Blob(n), b).values[0].B?
      && |DecodeOne(Blob(n), b).values[0].bytes| == n
  {
  }

  lemma IntField(width: nat, b: seq<byte>)
    ensures DecodeOne(Int(width), b).Parsed? ==>
      |DecodeOne(Int(width), b).values| == 1 && DecodeOne(Int(width), b).values[0].N?
  {
  }

  /** Reads the payload; one longer than was asked for is refused. */
  method ReadPayload(body: seq<byte>, length: nat) returns (ret: nat, bytes: seq<byte>)
    requires |body| < U32_LIMIT
    ensures ret == 0 <==> PayloadOf(body, length).Payload?
    ensures ret == 0 ==> bytes == PayloadOf(body, length).bytes && |bytes| <= length
    ensures ret != 0 ==> ret == EIO
  {
    CapacityValues();
    PayloadFields(body, length);
    hide PayloadOf, Decode, DecodeOne, EncodeOne, Encode, AllTyped, Capacity, Passed, UnLe;
    bytes := [];
    var response := OpenBody(body);
    var eof: nat, len: nat;
    ret, eof := response.GetInt(1);
    if ret != 0 {
      return;
    }
    ret, len := response.GetInt(4);
    if ret != 0 {
      return;
    }
    if len > length {
      return EIO, [];
    }
    ret, bytes := response.GetBytes(len);
  }

  /** Copies the payload into the page; a payload longer than the page is refused before anything is copied. */
  method CopyPayload(body: seq<byte>, data: array<byte>) returns (ret: nat, bytesRead: nat)
    requires |body| < U32_LIMIT && data.Length < U32_LIMIT
    modifies data
    ensures ret == 0 <==> PayloadOf(body, data.Length).Payload?
    ensures ret == 0 ==>
      var bytes := PayloadOf(body, data.Length).bytes;
      bytesRead == |bytes| <= data.Length && data[..bytesRead] == bytes
    ensures ret != 0 ==> ret == EIO && data[..] == old(data[..])
  {
    hide PayloadOf;
    bytesRead := 0;
    var bytes: seq<byte>;
    ret, bytes := ReadPayload(body, data.Length);
    if ret == 0 {
      forall i | 0 <= i < |bytes| {
        data[i] := bytes[i];
      }
      bytesRead := |bytes|;
    }
  }

  /** A page is filled completely: the payload, then zeros. */
  method FillFolio(body: seq<byte>, kaddr: array<byte>) returns (ret: nat)
    requires |body| < U32_LIMIT && kaddr.Length < U32_LIMIT
    modifies kaddr
    ensures ret == 0 <==> PayloadOf(body, kaddr.Length).Payload?
    ensures ret == 0 ==>
      var bytes := PayloadOf(body, kaddr.Length).bytes;
      |bytes| <= kaddr.Length && kaddr[..] == bytes + Zeros(kaddr.Length - |bytes|)
    ensures ret != 0 ==> kaddr[..] == old(kaddr[..])
  {
    hide PayloadOf;
    var n: nat;
    ret, n := CopyPayload(body, kaddr);
    if ret == 0 {
      ghost var bytes := kaddr[..n];
      forall i | n <= i < kaddr.Length {
        kaddr[i] := 0;
      }
      assert kaddr[..n] == bytes;
      assert kaddr[..] == kaddr[..n] + Zeros(kaddr.Length - n);
    }
  }

  // ---------------------------------------------------------------------
  // Reading a file page by page
  // ---------------------------------------------------------------------

  /** What an exact server sends for a range: the part of it that exists. */
  function Slice(file: seq<byte>, offset: nat, length: nat): seq<byte> {
    file[Min(offset, |file|)..Min(offset + length, |file|)]
  }

  function Page(file: seq<byte>, offset: nat, size: nat): seq<byte> {
    var s := Slice(file, offset, size);
    s + Zeros(size - |s|)
  }

  /** Pages of the given sizes, one after the other. */
  function Pages(file: seq<byte>, offset: nat, sizes: seq<nat>): seq<byte>
    decreases sizes
  {
    if sizes == [] then [] else Page(file, offset, sizes[0]) + Pages(file, offset + sizes[0], sizes[1..])
  }

  lemma PagesJoin(file: seq<byte>, offset: nat, a: nat, b: nat)
    ensures Page(file, offset, a) + Page(file, offset + a, b) == Page(file, offset, a + b)
  {
    var left, right, both := Page(file, offset, a), Page(file, offset + a, b), Page(file, offset, a + b);
    forall i | 0 <= i < a + b ensures (left + right)[i] == both[i] {
    }
  }

  lemma {:induction false} PagesAreOnePage(file: seq<byte>, offset: nat, sizes: seq<nat>)
    ensures Pages(file, offset, sizes) == Page(file, offset, Sum(sizes))
    decreases sizes
  {
    if sizes == [] {
    } else {
      PagesAreOnePage(file, offset + sizes[0], sizes[1..]);
      PagesJoin(file, offset, sizes[0], Sum(sizes[1..]));
    }
  }

  /** Reading enough pages in order yields the file followed only by zeros. */
  lemma ReadingYieldsTheFile(file: seq<byte>, sizes: seq<nat>)
    requires Sum(sizes) >= |file|
    ensures Pages(file, 0, sizes) == file + Zeros(Sum(sizes) - |file|)
  {
    PagesAreOnePage(file, 0, sizes);
    assert Slice(file, 0, Sum(sizes)) == file;
  }

  /** The READ reply an exact server sends for a range delivers exactly that part of the file. */
  lemma ExactReplyFillsPage(file: seq<byte>, offset: nat, size: nat, eof: byte)
    requires size < U32_LIMIT
    ensures
      var bytes := Slice(file, offset, size);
      && AllFit(READ_REPLY, [N(eof), B(bytes)])
      && PayloadOf(Encode(READ_REPLY, [N(eof), B(bytes)]), size) == Payload(eof != 0, bytes)
      && |Encode(READ_REPLY, [N(eof), B(bytes)])| == 5 + |bytes|
  {
    CapacityValues();
    var vs := [N(eof), B(Slice(file, offset, size))];
    assert AllFit(READ_REPLY, vs);
    DecodeOfEncode(READ_REPLY, vs, []);
    assert Encode(READ_REPLY, vs) + [] == Encode(READ_REPLY, vs);
    EncodeSnoc([], [], Int(1), vs[0]);
    EncodeSnoc([Int(1)], [vs[0]], Text, vs[1]);
    assert [] + [Int(1)] == [Int(1)] && [] + [vs[0]] == [vs[0]];
    assert READ_REPLY == [Int(1)] + [Text] && vs == [vs[0]] + [vs[1]];
  }

  /** A reply is delivered whole when it is no longer than was asked for, and refused otherwise. */
  lemma PayloadOfReply(eof: byte, bytes: seq<byte>, rest: seq<byte>, length: nat)
    requires |bytes| < U32_LIMIT
    ensures PayloadOf(ReadReply(eof, bytes) + rest, length) ==
      if |bytes| <= length then Payload(eof != 0, bytes) else Refused
  {
    CapacityValues();
    var vs := [N(eof), B(bytes)];
    assert AllFit(READ_REPLY, vs);
    DecodeOfEncode(READ_REPLY, vs, rest);
    hide Encode, Decode, Capacity;
  }

  /** Whatever is delivered stands at the front of the body as a READ reply. */
  lemma DeliveredWasSent(body: seq<byte>, length: nat)
    requires PayloadOf(body, length).Payload?
    ensures
      var p := PayloadOf(body, length);
      |p.bytes| <= length && |p.bytes| < U32_LIMIT &&
      exists eof: byte, rest :: body == ReadReply(eof, p.bytes) + rest && p.eof == (eof != 0)
  {
    CapacityValues();
    EncodeOfDecode(READ_REPLY, body);
    var d := Decode(READ_REPLY, body);
    assert Fits(READ_REPLY[0], d.values[0]) && Fits(READ_REPLY[1], d.values[1]);
    assert d.values == [N(d.values[0].n), B(d.values[1].bytes)];
    hide Encode, Decode, Capacity;
    assert body == ReadReply(d.values[0].n, d.values[1].bytes) + d.rest;
  }

  /** The body of a READ reply. */
  function ReadReply(eof: byte, bytes: seq<byte>): seq<byte>
    requires |bytes| < U32_LIMIT
  {
    CapacityValues();
    Encode(READ_REPLY, [N(eof), B(bytes)])
  }

  /** Fills one page from the reply of a server that returns exact slices. */
  method FillFromExactServer(file: seq<byte>, offset: nat, size: nat, eof: byte) returns (ret: nat, page: seq<byte>)
    requires 5 + size < U32_LIMIT
    ensures ret == 0 && page == Page(file, offset, size)
  {
    hide PayloadOf, Encode;
    ExactReplyFillsPage(file, offset, size, eof);
    var folio := new byte[size];
    ret := FillFolio(ReadReply(eof, Slice(file, offset, size)), folio);
    page := folio[..];
  }

  /**
   * Pages filled in order from a server that returns exact slices, with any
   * end-of-file flags: together they are the file followed only by zeros.
   */
  method ReadFile(file: seq<byte>, sizes: seq<nat>, eofs: seq<byte>) returns (ret: nat, content: seq<byte>)
    requires |eofs| == |sizes| && forall i :: 0 <= i < |sizes| ==> 5 + sizes[i] < U32_LIMIT
    ensures ret == 0 && content == Page(file, 0, Sum(sizes))
    ensures Sum(sizes) >= |file| ==> content == file + Zeros(Sum(sizes) - |file|)
  {
    PagesAreOnePage(file, 0, sizes);
    if Sum(sizes) >= |file| {
      ReadingYieldsTheFile(file, sizes);
    }
    ret, content := 0, [];
    var offset := 0;
    hide Page;
    for i := 0 to |sizes|
      invariant ret == 0 && content + Pages(file, offset, sizes[i..]) == Pages(file, 0, sizes)
    {
      var page: seq<byte>;
      ret, page := FillFromExactServer(file, offset, sizes[i], eofs[i]);
      assert sizes[i..][1..] == sizes[i + 1..];
      Reassociate(content, page, Pages(file, offset + sizes[i], sizes[i + 1..]));
      content, offset := content + page, offset + sizes[i];
    }
  }
}
