/**
 * The request bodies.  Every builder allocates a buffer of a precomputed size
 * and writes the fields one by one; the puts are checked, and the check never
 * fires because the size is exact.
 */
module Requests {
  import opened Bytes
  import opened Layout
  import opened Frames
  import opened Cursors

  const OBJECT_ID_LEN: nat := 16

  const HELLO: seq<Shape> := [Int(2), Int(2), Int(8), Text, Text, Text]
  const MOUNT: seq<Shape> := [Int(4), Text, Text, Text]
  const LOOKUP: seq<Shape> := [Blob(OBJECT_ID_LEN), Text]
  const READDIR: seq<Shape> := [Blob(OBJECT_ID_LEN), Int(8), Int(4), Int(4)]
  const OPEN: seq<Shape> := [Blob(OBJECT_ID_LEN)]
  const READ: seq<Shape> := [Int(8), Int(8), Int(4)]
  const CLOSE: seq<Shape> := [Int(8)]

  const CLIENT_KIND: seq<byte> := Ascii("kmod")
  const CLIENT_VERSION: seq<byte> := Ascii("scaffold")
  const MOUNT_NAME: seq<byte> := Ascii("monofs-kmod")

  function HelloValues(): seq<Value> {
    [N(VERSION), N(VERSION), N(0), B(CLIENT_KIND), B(CLIENT_VERSION), B([])]
  }

  lemma HelloFits()
    ensures AllFit(HELLO, HelloValues())
  {
    CapacityValues();
  }

  const FLAG_READONLY: u32 := 1
  const FLAG_OVERLAY_WRITES: u32 := 2
  const FLAG_DEBUG: u32 := 4

  /** Read-only is always asked for; the other two bits follow the options. */
  function MountFlags(overlayWrites: bool, debug: bool): (flags: u32)
    ensures flags % 2 == 1
    ensures flags / 2 % 2 == 1 <==> overlayWrites
    ensures flags / 4 == if debug then 1 else 0
  {
    FLAG_READONLY + (if overlayWrites then FLAG_OVERLAY_WRITES else 0) + (if debug then FLAG_DEBUG else 0)
  }

  function MountValues(flags: u32, token: seq<byte>): seq<Value> {
    [N(flags), B(MOUNT_NAME), B([]), B(token)]
  }

  method BuildHello() returns (ret: nat, body: seq<byte>)
    ensures ret == 0 && |body| == 36
    ensures AllFit(HELLO, HelloValues()) && body == Encode(HELLO, HelloValues())
    ensures HelloValues() == [N(1), N(1), N(0), B(Ascii("kmod")), B(Ascii("scaffold")), B([])]
  {
    CapacityValues();
    HelloFits();
    hide Encode, AllTyped, AllFit, Capacity, Passed;
    var buffer := new byte[2 + 2 + 8 + 4 + |CLIENT_KIND| + 4 + |CLIENT_VERSION| + 4];
    var cursor := new Cursor(buffer);
    ret := PutHelloNumbers(cursor);
    if ret == 0 {
      ret := cursor.PutText(CLIENT_KIND);
    }
    if ret == 0 {
      ret := cursor.PutText(CLIENT_VERSION);
    }
    if ret == 0 {
      ret := cursor.PutText([]);
    }
    assert cursor.shapes == HELLO && cursor.values == HelloValues();
    PassedIsEncoded(buffer[..], cursor.off, cursor.shapes, cursor.values);
    body := buffer[..cursor.off];
    assert buffer[..][..cursor.off] == body;
  }

  /** The version range and the empty capability word. */
  method PutHelloNumbers(cursor: Cursor) returns (ret: nat)
    requires cursor.Valid() && cursor.off + 12 <= cursor.data.Length
    modifies cursor, cursor.data
    ensures ret == 0 && cursor.Valid() && cursor.off == old(cursor.off) + 12
    ensures cursor.shapes == old(cursor.shapes) + [Int(2), Int(2), Int(8)]
    ensures cursor.values == old(cursor.values) + [N(VERSION), N(VERSION), N(0)]
  {
    CapacityValues();
    hide Capacity, Passed;
    ret := cursor.PutInt(2, VERSION);
    if ret == 0 {
      ret := cursor.PutInt(2, VERSION);
    }
    if ret == 0 {
      ret := cursor.PutInt(8, 0);
    }
  }

  method BuildMount(flags: u32, token: seq<byte>) returns (ret: nat, body: seq<byte>)
    requires 27 + |token| < BUFFER_LIMIT
    ensures ret == 0 && |body| == 27 + |token|
    ensures AllTyped(MOUNT, MountValues(flags, token))
    ensures body == Encode(MOUNT, MountValues(flags, token))
    ensures MountValues(flags, token) == [N(flags), B(Ascii("monofs-kmod")), B([]), B(token)]
  {
    CapacityValues();
    hide Encode, Capacity;
    var buffer := new byte[4 + 4 + |MOUNT_NAME| + 4 + 4 + |token|];
    var cursor := new Cursor(buffer);
    ret := cursor.PutInt(4, flags);
    if ret == 0 {
      ret := cursor.PutText(MOUNT_NAME);
    }
    if ret == 0 {
      ret := cursor.PutText([]);
    }
    if ret == 0 {
      ret := cursor.PutText(token);
    }
    assert cursor.shapes == MOUNT && cursor.values == MountValues(flags, token);
    body := buffer[..cursor.off];
  }

  method BuildLookup(parent: seq<byte>, name: seq<byte>) returns (ret: nat, body: seq<byte>)
    requires |parent| == OBJECT_ID_LEN && OBJECT_ID_LEN + 4 + |name| < BUFFER_LIMIT
    ensures ret == 0 && |body| == OBJECT_ID_LEN + 4 + |name|
    ensures body == Encode(LOOKUP, [B(parent), B(name)])
  {
    hide Encode;
    var buffer := new byte[OBJECT_ID_LEN + 4 + |name|];
    var cursor := new Cursor(buffer);
    ret := cursor.PutBytes(parent);
    if ret == 0 {
      ret := cursor.PutText(name);
    }
    assert cursor.shapes == LOOKUP && cursor.values == [B(parent), B(name)];
    body := buffer[..cursor.off];
  }

  method BuildReaddir(dir: seq<byte>, cookie: u64, maxEntries: u32) returns (ret: nat, body: seq<byte>)
    requires |dir| == OBJECT_ID_LEN
    ensures ret == 0 && |body| == OBJECT_ID_LEN + 16
    ensures body == Encode(READDIR, [B(dir), N(cookie), N(maxEntries), N(0)])
  {
    CapacityValues();
    hide Encode, Capacity;
    var buffer := new byte[OBJECT_ID_LEN + 8 + 4 + 4];
    var cursor := new Cursor(buffer);
    ret := cursor.PutBytes(dir);
    if ret == 0 {
      ret := cursor.PutInt(8, cookie);
    }
    if ret == 0 {
      ret := cursor.PutInt(4, maxEntries);
    }
    if ret == 0 {
      ret := cursor.PutInt(4, 0);
    }
    assert cursor.shapes == READDIR && cursor.values == [B(dir), N(cookie), N(maxEntries), N(0)];
    body := buffer[..cursor.off];
  }

  method BuildOpen(objectId: seq<byte>) returns (ret: nat, body: seq<byte>)
    requires |objectId| == OBJECT_ID_LEN
    ensures ret == 0 && |body| == OBJECT_ID_LEN && body == Encode(OPEN, [B(objectId)])
  {
    hide Encode;
    var buffer := new byte[OBJECT_ID_LEN];
    var cursor := new Cursor(buffer);
    ret := cursor.PutBytes(objectId);
    assert cursor.shapes == OPEN && cursor.values == [B(objectId)];
    body := buffer[..cursor.off];
  }

  method BuildRead(handle: u64, offset: u64, length: u32) returns (ret: nat, body: seq<byte>)
    ensures ret == 0 && |body| == 20 && body == Encode(READ, [N(handle), N(offset), N(length)])
  {
    CapacityValues();
    hide Encode, Capacity;
    var buffer := new byte[8 + 8 + 4];
    var cursor := new Cursor(buffer);
    ret := cursor.PutInt(8, handle);
    if ret == 0 {
      ret := cursor.PutInt(8, offset);
    }
    if ret == 0 {
      ret := cursor.PutInt(4, length);
    }
    assert cursor.shapes == READ && cursor.values == [N(handle), N(offset), N(length)];
    body := buffer[..cursor.off];
  }

  method BuildClose(handle: u64) returns (ret: nat, body: seq<byte>)
    ensures ret == 0 && |body| == 8 && body == Encode(CLOSE, [N(handle)])
  {
    CapacityValues();
    hide Encode, Capacity;
    var buffer := new byte[8];
    var cursor := new Cursor(buffer);
    ret := cursor.PutInt(8, handle);
    assert cursor.shapes == CLOSE && cursor.values == [N(handle)];
    body := buffer[..cursor.off];
  }

  /**
   * Reading a request by its own layout gives back what was put in and uses
   * every byte.  The only lossy put is the length prefix of a string, so for a
   * layout that ends in a string this holds exactly for strings below 2^32.
   * No kernel allocation holds a longer one.
   */
  lemma RequestReadsBack(shapes: seq<Shape>, vs: seq<Value>, text: seq<byte>)
    requires AllFit(shapes, vs)
    ensures AllTyped(shapes + [Text], vs + [B(text)])
    ensures Decode(shapes, Encode(shapes, vs)) == Parsed(vs, [])
    ensures Decode(shapes + [Text], Encode(shapes + [Text], vs + [B(text)])) == Parsed(vs + [B(text)], [])
            <==> |text| < U32_LIMIT
  {
    EncodeSnoc(shapes, vs, Text, B(text));
    hide Encode, Decode, AllTyped;
    var head, tail := Encode(shapes, vs), EncodeOne(Text, B(text));
    DecodeOfEncode(shapes, vs, []);
    DecodeOfEncode(shapes, vs, tail);
    assert head + [] == head;
    DecodeSnoc(shapes, Text, head + tail);
    LongTextIsCut(text);
    var one := DecodeOne(Text, tail);
    if one.Parsed? {
      assert (vs + one.values)[|vs|..] == one.values;
      assert (vs + [B(text)])[|vs|..] == [B(text)];
    }
  }

  lemma LongTextIsCut(text: seq<byte>)
    ensures DecodeOne(Text, EncodeOne(Text, B(text))) == Parsed([B(text)], []) <==> |text| < U32_LIMIT
  {
    CapacityValues();
    var b := EncodeOne(Text, B(text));
    var n := |text| % U32_LIMIT;
    assert b[..4] == Le(n, 4);
    UnLeOfLe(n, 4);
    if |text| < U32_LIMIT {
      assert b[4..4 + n] == text;
    } else {
      assert DecodeOne(Text, b).Parsed? && |DecodeOne(Text, b).rest| == |text| - n;
    }
  }

  /** The same for the MOUNT request and its token. */
  lemma MountReadsBack(flags: u32, token: seq<byte>)
    ensures AllTyped(MOUNT, MountValues(flags, token))
    ensures Decode(MOUNT, Encode(MOUNT, MountValues(flags, token))) == Parsed(MountValues(flags, token), [])
            <==> |token| < U32_LIMIT
  {
    CapacityValues();
    hide Encode, Decode, Capacity;
    var shapes, vs := [Int(4), Text, Text], [N(flags), B(MOUNT_NAME), B([])];
    assert MOUNT == shapes + [Text] && MountValues(flags, token) == vs + [B(token)];
    RequestReadsBack(shapes, vs, token);
  }

  /** The same for the LOOKUP request and its name. */
  lemma LookupReadsBack(parent: seq<byte>, name: seq<byte>)
    requires |parent| == OBJECT_ID_LEN
    ensures Decode(LOOKUP, Encode(LOOKUP, [B(parent), B(name)])) == Parsed([B(parent), B(name)], [])
            <==> |name| < U32_LIMIT
  {
    hide Encode, Decode;
    assert LOOKUP == [Blob(OBJECT_ID_LEN)] + [Text] && [B(parent), B(name)] == [B(parent)] + [B(name)];
    RequestReadsBack([Blob(OBJECT_ID_LEN)], [B(parent)], name);
  }

  /** All values fit their fields, and reading the encoding returns them and leaves nothing over. */
  predicate ReadsBack(shapes: seq<Shape>, vs: seq<Value>) {
    AllFit(shapes, vs) && Decode(shapes, Encode(shapes, vs)) == Parsed(vs, [])
  }

  /** The requests without a caller's string always read back. */
  lemma FixedRequestsReadBack(objectId: seq<byte>, a: u64, b: u64, n: u32)
    requires |objectId| == OBJECT_ID_LEN
    ensures ReadsBack(HELLO, HelloValues())
    ensures ReadsBack(READDIR, [B(objectId), N(a), N(n), N(0)])
    ensures ReadsBack(OPEN, [B(objectId)])
    ensures ReadsBack(READ, [N(a), N(b), N(n)])
    ensures ReadsBack(CLOSE, [N(a)])
  {
    CapacityValues();
    HelloFits();
    hide Encode, Decode, Capacity, HelloValues, ReadsBack;
    FittingReadsBack(HELLO, HelloValues());
    FittingReadsBack(READDIR, [B(objectId), N(a), N(n), N(0)]);
    FittingReadsBack(OPEN, [B(objectId)]);
    FittingReadsBack(READ, [N(a), N(b), N(n)]);
    FittingReadsBack(CLOSE, [N(a)]);
  }

  lemma FittingReadsBack(shapes: seq<Shape>, vs: seq<Value>)
    requires AllFit(shapes, vs)
    ensures ReadsBack(shapes, vs)
  {
    hide Encode, Decode;
    DecodeOfEncode(shapes, vs, []);
    assert Encode(shapes, vs) + [] == Encode(shapes, vs);
  }
}
