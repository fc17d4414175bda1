/** The 52-byte header that precedes every request and every reply. */
module Frames {
  import opened Bytes
  import opened Layout
  import opened Errno

  const MAGIC: u32 := 0x53464e4d
  const VERSION: u16 := 1
  const HEADER_LEN: u32 := 52

  const OP_HELLO: u16 := 0x01
  const OP_MOUNT: u16 := 0x02

  datatype Frame = Frame(
    magic: u32,
    version: u16,
    opcode: u16,
    flags: u32,
    headerLen: u32,
    bodyLen: u32,
    requestId: u64,
    sessionId: u64,
    status: u32,
    reserved: u32,
    generation: u64)

  /** Magic, version, opcode; flags, header and body length; ids and status; reserved word and generation. */
  const FRAME_A: seq<Shape> := [Int(4), Int(2), Int(2)]
  const FRAME_B: seq<Shape> := [Int(4), Int(4), Int(4)]
  const FRAME_C: seq<Shape> := [Int(8), Int(8), Int(4)]
  const FRAME_D: seq<Shape> := [Int(4), Int(8)]

  const FRAME: seq<Shape> := FRAME_A + FRAME_B + (FRAME_C + FRAME_D)

  function FrameValues(f: Frame): seq<Value> {
    [N(f.magic), N(f.version), N(f.opcode), N(f.flags), N(f.headerLen), N(f.bodyLen),
     N(f.requestId), N(f.sessionId), N(f.status), N(f.reserved), N(f.generation)]
  }

  lemma FrameFits(f: Frame)
    ensures AllFit(FRAME, FrameValues(f))
  {
    CapacityValues();
  }

  lemma FrameSize()
    ensures Fixed(FRAME) && MinSize(FRAME) == HEADER_LEN
  {
    ThreeInts(4, 2, 2);
    ThreeInts(4, 4, 4);
    ThreeInts(8, 8, 4);
    MinSizeCons(4, [Int(8)]);
    MinSizeCons(8, []);
    EmptySize();
    hide MinSize;
    MinSizeAppend(FRAME_A, FRAME_B);
    MinSizeAppend(FRAME_C, FRAME_D);
    MinSizeAppend(FRAME_A + FRAME_B, FRAME_C + FRAME_D);
    assert [Int(4)] + [Int(8)] == FRAME_D && [Int(8)] + [] == [Int(8)];
  }

  lemma MinSizeCons(width: nat, rest: seq<Shape>)
    ensures MinSize([Int(width)] + rest) == width + MinSize(rest)
  {
    assert ([Int(width)] + rest)[1..] == rest;
  }

  lemma ThreeInts(a: nat, b: nat, c: nat)
    ensures MinSize([Int(a), Int(b), Int(c)]) == a + b + c
  {
    MinSizeCons(a, [Int(b), Int(c)]);
    MinSizeCons(b, [Int(c)]);
    MinSizeCons(c, []);
    hide MinSize;
    assert [Int(a)] + [Int(b), Int(c)] == [Int(a), Int(b), Int(c)];
    assert [Int(b)] + [Int(c)] == [Int(b), Int(c)];
    assert [Int(c)] + [] == [Int(c)];
    assert MinSize([]) == 0 by {
      EmptySize();
    }
  }

  lemma EmptySize()
    ensures MinSize([]) == 0
  {
  }

  function EncodeFrame(f: Frame): (b: seq<byte>)
    ensures |b| == HEADER_LEN
  {
    FrameSize();
    FrameFits(f);
    EncodeSize(FRAME, FrameValues(f));
    Encode(FRAME, FrameValues(f))
  }

  lemma LeadingFields(v: seq<Value>)
    requires AllFit(FRAME, v)
    ensures forall i :: 0 <= i < 6 ==> v[i].N? && v[i].n < U32_LIMIT
    ensures v[1].n < 0x1_0000 && v[2].n < 0x1_0000
  {
    IntAt(FRAME, v, 0, 4); IntAt(FRAME, v, 1, 2); IntAt(FRAME, v, 2, 2);
    IntAt(FRAME, v, 3, 4); IntAt(FRAME, v, 4, 4); IntAt(FRAME, v, 5, 4);
  }

  lemma TrailingFields(v: seq<Value>)
    requires AllFit(FRAME, v)
    ensures forall i :: 6 <= i < 11 ==> v[i].N? && v[i].n < U64_LIMIT
    ensures v[8].n < U32_LIMIT && v[9].n < U32_LIMIT
  {
    IntAt(FRAME, v, 6, 8); IntAt(FRAME, v, 7, 8); IntAt(FRAME, v, 8, 4);
    IntAt(FRAME, v, 9, 4); IntAt(FRAME, v, 10, 8);
  }

  function FrameOf(v: seq<Value>): Frame
    requires AllFit(FRAME, v)
  {
    LeadingFields(v);
    TrailingFields(v);
    Frame(v[0].n, v[1].n, v[2].n, v[3].n, v[4].n, v[5].n, v[6].n, v[7].n, v[8].n, v[9].n, v[10].n)
  }

  lemma FrameValuesOf(v: seq<Value>)
    requires AllFit(FRAME, v)
    ensures FrameValues(FrameOf(v)) == v
  {
    forall i | 0 <= i < 11 ensures v[i] == N(v[i].n) {
      assert Fits(FRAME[i], v[i]);
    }
  }

  /** Every 52 bytes are the encoding of exactly one header. */
  function DecodeFrame(b: seq<byte>): (f: Frame)
    requires |b| == HEADER_LEN
    ensures EncodeFrame(f) == b
  {
    FrameSize();
    DecodeFixed(FRAME, b);
    EncodeOfDecode(FRAME, b);
    var v := Decode(FRAME, b).values;
    EncodeSize(FRAME, v);
    FrameValuesOf(v);
    FrameOf(v)
  }

  lemma DecodeOfEncodeFrame(f: Frame)
    ensures DecodeFrame(EncodeFrame(f)) == f
  {
    FrameFits(f);
    DecodeOfEncode(FRAME, FrameValues(f), []);
    assert EncodeFrame(f) + [] == EncodeFrame(f);
    assert FrameOf(FrameValues(f)) == f;
  }

  /** The fields of a header, lowest byte first, in the order and widths of the wire. */
  lemma HeaderFields(f: Frame)
    ensures IntsAt(EncodeFrame(f), 0, [4, 2, 2, 4, 4, 4, 8, 8, 4, 4, 8]) ==
      [f.magic, f.version, f.opcode, f.flags, f.headerLen, f.bodyLen,
       f.requestId, f.sessionId, f.status, f.reserved, f.generation]
  {
    var widths := [4, 2, 2, 4, 4, 4, 8, 8, 4, 4, 8];
    var ns: seq<nat> := [f.magic, f.version, f.opcode, f.flags, f.headerLen, f.bodyLen,
                         f.requestId, f.sessionId, f.status, f.reserved, f.generation];
    CapacityValues();
    hide Capacity, Encode, IntsAt;
    assert FRAME == Ints(widths) && FrameValues(f) == Numbers(ns);
    assert NumbersFit(widths, ns);
    IntsOfEncode([], widths, ns, []);
    assert [] + EncodeFrame(f) + [] == EncodeFrame(f);
  }

  /** The reply header check made before anything of the reply is believed. */
  predicate Acceptable(f: Frame) {
    f.magic == MAGIC && f.version == VERSION && f.headerLen == HEADER_LEN
  }

  /** The statuses that have an error number of their own. */
  const STATUS_TABLE: map<u32, nat> :=
    map[0 := 0, 1 := EINVAL, 2 := EACCES, 3 := ENOENT, 4 := ENOTDIR, 5 := EISDIR, 6 := ESTALE, 7 := ESTALE,
        10 := EINTR, 11 := EOPNOTSUPP]

  /** Only success maps to zero, only the two stale statuses share a number, and every other status is an I/O error. */
  lemma StatusesAreTold(a: u32, b: u32)
    ensures StatusToErrno(a) == if a in STATUS_TABLE then STATUS_TABLE[a] else EIO
    ensures StatusToErrno(a) == StatusToErrno(b) <==>
      a == b || {a, b} == {6, 7} || (a !in STATUS_TABLE && b !in STATUS_TABLE)
  {
  }

  function StatusToErrno(status: u32): (e: nat)
    ensures e == 0 <==> status == 0
  {
    match status
    case 0 => 0
    case 1 => EINVAL
    case 2 => EACCES
    case 3 => ENOENT
    case 4 => ENOTDIR
    case 5 => EISDIR
    case 6 => ESTALE
    case 7 => ESTALE
    case 10 => EINTR
    case 11 => EOPNOTSUPP
    case _ => EIO
  }

  /** A header and the bytes it announces. */
  datatype Message = Message(header: Frame, body: seq<byte>)

  predicate WellFramed(m: Message) {
    |m.body| == m.header.bodyLen
  }

  function Serialize(m: Message): seq<byte> {
    EncodeFrame(m.header) + m.body
  }

  /** What a reader that only sees bytes can tell: a whole message has arrived. */
  predicate Complete(b: seq<byte>) {
    |b| >= HEADER_LEN && |b| >= HEADER_LEN + DecodeFrame(b[..HEADER_LEN]).bodyLen
  }

  function FirstMessage(b: seq<byte>): Message
    requires Complete(b)
  {
    var h := DecodeFrame(b[..HEADER_LEN]);
    Message(h, b[HEADER_LEN..HEADER_LEN + h.bodyLen])
  }

  function AfterFirst(b: seq<byte>): seq<byte>
    requires Complete(b)
  {
    b[HEADER_LEN + DecodeFrame(b[..HEADER_LEN]).bodyLen..]
  }

  lemma SerializeIsComplete(m: Message, rest: seq<byte>)
    requires WellFramed(m)
    ensures Complete(Serialize(m) + rest)
    ensures FirstMessage(Serialize(m) + rest) == m
    ensures AfterFirst(Serialize(m) + rest) == rest
  {
    var b := Serialize(m) + rest;
    assert b[..HEADER_LEN] == EncodeFrame(m.header);
    DecodeOfEncodeFrame(m.header);
    assert b[HEADER_LEN..HEADER_LEN + m.header.bodyLen] == m.body;
  }

  lemma HeaderAloneIsIncomplete(m: Message)
    requires WellFramed(m) && m.body != []
    ensures !Complete(EncodeFrame(m.header))
  {
    var b := EncodeFrame(m.header);
    assert b[..HEADER_LEN] == b;
    DecodeOfEncodeFrame(m.header);
  }

  /** Once a header's worth of a message has been read, it is that message's header. */
  lemma HeaderBytes(got: seq<byte>, rest: seq<byte>, reply: Message)
    requires |got| == HEADER_LEN && got + rest == Serialize(reply)
    ensures DecodeFrame(got) == reply.header && rest == reply.body
  {
    assert got == (got + rest)[..HEADER_LEN] == EncodeFrame(reply.header);
    assert rest == (got + rest)[HEADER_LEN..] == reply.body;
    DecodeOfEncodeFrame(reply.header);
  }
}
