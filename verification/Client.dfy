/** The mounted file system's connection: the object whose fields every native call updates. */
module Client {
  import opened Basics
  import opened Bytes
  import opened Layout
  import opened Errno
  import opened Frames
  import opened Cursors
  import opened Transport
  import opened Requests
  import opened Sessions

  /** Whether the request buffer and the reply buffer can be allocated. */
  datatype Memory = Memory(request: bool, reply: bool)

  class FsInfo {
    var sock: Socket?
    var connected: bool
    var sessionId: u64
    var nextRequestId: u64
    var generation: u64
    var clusterVersion: u64
    var rootObjectId: seq<byte>
    var rootAttr: seq<nat>
    var ttls: seq<nat>
    ghost var log: seq<Event>

    ghost predicate Valid()
      reads this
    {
      connected ==> sock != null
    }

    ghost function Abs(): Session
      reads this
    {
      Session(sock != null, connected, sessionId, nextRequestId, generation, log)
    }

    constructor ()
      ensures Valid() && Abs() == FRESH
    {
      sock, connected := null, false;
      sessionId, nextRequestId, generation, clusterVersion := 0, 0, 0, 0;
      rootObjectId, rootAttr, ttls, log := [], ZEROS_9, ZEROS_4, [];
    }

    /** Receive and check a reply on a request already sent; memory says whether the body can be allocated. */
    method ReceiveReply(s: Socket, memory: bool) returns (o: Outcome)
      modifies s, this`generation, this`log
      ensures o.HeaderLost? || o.BadHeader? || o.BodyLost? || o.Replied?
      ensures s.outgoing == old(s.outgoing)
      ensures s.sends == old(s.sends) && (Reliable(old(s.receives)) ==> Reliable(s.receives))
      ensures o.BodyLost? || o.Replied? ==> generation == o.header.generation && log == old(log) + [Learned(generation)]
      ensures o.HeaderLost? || o.BadHeader? ==> generation == old(generation) && log == old(log)
      ensures o.Replied? ==>
        && Complete(old(s.incoming)) && Acceptable(o.header)
        && FirstMessage(old(s.incoming)) == Message(o.header, o.body)
        && s.incoming == AfterFirst(old(s.incoming))
      ensures Reliable(old(s.receives)) && memory && Complete(old(s.incoming)) ==>
        (o.Replied? <==> Acceptable(FirstMessage(old(s.incoming)).header))
    {
      hide EncodeFrame;
      ghost var stream := s.incoming;
      var header := new byte[HEADER_LEN];
      var ret := s.RecvAll(header);
      if ret != 0 {
        return HeaderLost(ret);
      }
      var h := DecodeFrame(header[..]);
      assert stream[..HEADER_LEN] == header[..];
      if !Acceptable(h) {
        return BadHeader(h);
      }
      generation := h.generation;
      log := log + [Learned(generation)];
      if h.bodyLen == 0 {
        return Replied(h, []);
      }
      if !memory {
        return BodyLost(h, ENOMEM);
      }
      ghost var rest := s.incoming;
      var body := new byte[h.bodyLen];
      ret := s.RecvAll(body);
      if ret != 0 {
        return BodyLost(h, ret);
      }
      assert rest == stream[HEADER_LEN..];
      assert body[..] == rest[..h.bodyLen] == stream[HEADER_LEN..HEADER_LEN + h.bodyLen];
      return Replied(h, body[..]);
    }

    /**
     * One request and its reply.  The request id moves before the socket is
     * checked; a reply is believed only as far as its header allows.
     */
    method Roundtrip(opcode: u16, body: seq<byte>, memory: bool) returns (o: Outcome, ghost sent: seq<byte>)
      requires Valid()
      modifies this`nextRequestId, this`generation, this`log, sock
      ensures Valid() && Abs() == AfterRoundtrip(old(Abs()), opcode, |body|, o)
      ensures o.NotConnected? <==> sock == null
      ensures sock != null ==> exists k :: 0 <= k <= |sent| && sock.outgoing == old(sock.outgoing) + sent[..k]
      ensures o.Replied? ==>
        && sock.outgoing == old(sock.outgoing) + sent
        && sent == Serialize(RequestMessage(old(Abs()), opcode, body))
        && (|body| < U32_LIMIT ==> Carries(sent, opcode, body))
        && Complete(old(sock.incoming)) && Acceptable(o.header)
        && FirstMessage(old(sock.incoming)) == Message(o.header, o.body)
        && sock.incoming == AfterFirst(old(sock.incoming))
      ensures sock != null && old(sock.sends) == [] && Reliable(old(sock.receives)) ==>
        sock.sends == [] && Reliable(sock.receives)
      ensures sock != null && old(sock.sends) == [] && Reliable(old(sock.receives)) && memory &&
              Complete(old(sock.incoming)) ==>
        (o.Replied? <==> Acceptable(FirstMessage(old(sock.incoming)).header))
    {
      hide EncodeFrame, DecodeFrame;
      sent := Serialize(RequestMessage(Abs(), opcode, body));
      RequestIsAMessage(Abs(), opcode, body);
      nextRequestId := (nextRequestId + 1) % U64_LIMIT;
      var request := Frame(MAGIC, VERSION, opcode, 0, HEADER_LEN, |body| % U32_LIMIT,
                           nextRequestId, sessionId, 0, 0, generation);
      if sock == null {
        o := NotConnected;
        return;
      }
      ghost var before := sock.outgoing;
      log := log + [Sent(request)];
      var ret := sock.SendAll(EncodeFrame(request));
      if ret != 0 {
        assert before + [] == before && [] + EncodeFrame(request) + body == sent;
        SentPart(before, sock.outgoing, [], EncodeFrame(request), body);
        o := SendLost(ret);
        return;
      }
      if |body| > 0 {
        ret := sock.SendAll(body);
        if ret != 0 {
          SentPart(before, sock.outgoing, EncodeFrame(request), body, []);
          assert EncodeFrame(request) + body + [] == sent;
          o := SendLost(ret);
          return;
        }
      }
      Reassociate(before, EncodeFrame(request), body);
      assert sock.outgoing == before + sent && sent[..|sent|] == sent;
      o := ReceiveReply(sock, memory);
    }

    /**
     * The root attributes and the lifetimes stand at the end of a MOUNT reply,
     * one integer after the other; each one that is there replaces an old one.
     */
    twostate predicate AttributesTaken(body: seq<byte>)
      reads this
    {
      && rootAttr == (if |body| < 33 then old(rootAttr) else Overlay(old(rootAttr), IntsAt(body, 33, ATTR_WIDTHS)))
      && ttls == (if |body| < 89 then old(ttls) else Overlay(old(ttls), IntsAt(body, 89, TTL_WIDTHS)))
    }

    /** The first four fields of a MOUNT reply, each stored as soon as it is read. */
    method ReadMountHead(reply: Cursor, ghost body: seq<byte>) returns (ret: nat)
      requires reply.Valid() && reply.off == 0 && reply.data[..] == body && |body| < U32_LIMIT
      modifies reply, this`clusterVersion, this`generation, this`rootObjectId, this`log
      ensures reply.Valid() && (ret == 0 ==> reply.off == 33)
      ensures ret == 0 <==> |body| >= 33
      ensures ret == 0 || ret == EIO
      ensures clusterVersion == if |body| < 8 then old(clusterVersion) else U64At(body, 0)
      ensures |body| < 16 ==> generation == old(generation) && log == old(log)
      ensures |body| >= 16 ==> generation == U64At(body, 8) && log == old(log) + [Learned(generation)]
      ensures rootObjectId == if |body| < 33 then old(rootObjectId) else body[17..33]
    {
      CapacityValues();
      hide Encode, AllTyped, Capacity, UnLe, Le, DecodeOne, Cursor.Valid, Cursor.Rest;
      var value: nat;
      ret, value := reply.GetInt(8);
      if ret != 0 {
        return;
      }
      clusterVersion := value;
      ret, value := reply.GetInt(8);
      if ret != 0 {
        return;
      }
      generation := value;
      log := log + [Learned(generation)];
      ret, value := reply.GetInt(1);
      if ret != 0 {
        return;
      }
      var id: seq<byte>;
      ret, id := reply.GetBytes(OBJECT_ID_LEN);
      if ret == 0 {
        rootObjectId := id;
      }
    }

    /** The fields of a MOUNT reply; what was read before a missing field stays stored. */
    method ReadMountReply(body: seq<byte>) returns (ret: nat)
      requires |body| < U32_LIMIT
      modifies this`clusterVersion, this`generation, this`rootObjectId, this`rootAttr, this`ttls, this`log
      ensures ret == 0 <==> |body| >= MOUNT_REPLY_LEN
      ensures ret == 0 || ret == EIO
      ensures clusterVersion == if |body| < 8 then old(clusterVersion) else U64At(body, 0)
      ensures |body| < 16 ==> generation == old(generation) && log == old(log)
      ensures |body| >= 16 ==> generation == U64At(body, 8) && log == old(log) + [Learned(generation)]
      ensures rootObjectId == if |body| < 33 then old(rootObjectId) else body[17..33]
      ensures AttributesTaken(body)
    {
      AttrAndTtlSizes();
      hide U64At, IntsAt, Sum, Cursor.Valid, Cursor.Rest, Overlay;
      var reply := OpenBody(body);
      ret := ReadMountHead(reply, body);
      if ret != 0 {
        return;
      }
      var ns: seq<nat>;
      ret, ns := reply.GetInts(ATTR_WIDTHS);
      rootAttr := Overlay(rootAttr, ns);
      if ret != 0 {
        return;
      }
      ret, ns := reply.GetInts(TTL_WIDTHS);
      ttls := Overlay(ttls, ns);
    }

    method SendHello(memory: Memory) returns (a: Attempt, ghost sent: seq<byte>)
      requires Valid() && sock != null
      modifies this`nextRequestId, this`generation, this`log, sock
      ensures Valid() && Abs() == AfterAttempt(old(Abs()), OP_HELLO, HELLO_LEN, a)
      ensures a.Tried? <==> memory.request
      ensures a.Tried? ==> !a.outcome.NotConnected?
      ensures Answers(a, old(sock.incoming), sock.incoming)
      ensures Answered(a) ==>
        && sock.outgoing == old(sock.outgoing) + sent
        && AllFit(HELLO, HelloValues()) && Carries(sent, OP_HELLO, Encode(HELLO, HelloValues()))
      ensures Sound(old(sock.sends), old(sock.receives)) ==> Sound(sock.sends, sock.receives)
      ensures Sound(old(sock.sends), old(sock.receives)) && memory == Memory(true, true) && Welcome(old(sock.incoming)) ==>
        Answered(a)
    {
      hide AfterRoundtrip, EncodeFrame, Encode, Carries, RequestMessage, HelloValues, AllFit;
      sent := [];
      a := NoMemory;
      if memory.request {
        var ret, body := BuildHello();
        var o: Outcome;
        o, sent := Roundtrip(OP_HELLO, body, memory.reply);
        a := Tried(o);
      }
    }

    method SendMount(overlayWrites: bool, debug: bool, token: seq<byte>, memory: Memory)
      returns (a: Attempt, ghost sent: seq<byte>)
      requires Valid() && sock != null && MOUNT_LEN + |token| < BUFFER_LIMIT
      modifies this`nextRequestId, this`generation, this`log, sock
      ensures Valid() && Abs() == AfterAttempt(old(Abs()), OP_MOUNT, MOUNT_LEN + |token|, a)
      ensures a.Tried? <==> memory.request
      ensures a.Tried? ==> !a.outcome.NotConnected?
      ensures Answers(a, old(sock.incoming), sock.incoming)
      ensures a.Tried? && a.outcome.Replied? ==> |a.outcome.body| < U32_LIMIT
      ensures Answered(a) ==>
        && sock.outgoing == old(sock.outgoing) + sent
        && (MOUNT_LEN + |token| < U32_LIMIT ==> CarriesMount(sent, MountFlags(overlayWrites, debug), token))
      ensures Sound(old(sock.sends), old(sock.receives)) && memory == Memory(true, true) && Welcome(old(sock.incoming)) ==>
        Answered(a)
    {
      hide AfterRoundtrip, EncodeFrame, Encode, Carries, RequestMessage, MountValues, AllTyped;
      sent := [];
      a := NoMemory;
      if memory.request {
        var ret, body := BuildMount(MountFlags(overlayWrites, debug), token);
        var o: Outcome;
        o, sent := Roundtrip(OP_MOUNT, body, memory.reply);
        a := Tried(o);
      }
    }

    /** Every failing exit after the socket exists releases it and clears the connection. */
    method Release(errno: nat) returns (ret: nat)
      modifies this`sock, this`connected
      ensures Valid() && Abs() == Drop(old(Abs())) && ret == errno
    {
      sock, connected := null, false;
      ret := errno;
    }

    /**
     * Dial, say HELLO, ask for the MOUNT and read its reply.  The mount returns
     * zero if and only if both were answered with success and the MOUNT reply is
     * complete; the file system is then connected, and has put exactly those two
     * messages on the stream.  Otherwise it returns the first error.
     */
    method Mount(dial: Dial, peer: Socket, overlayWrites: bool, debug: bool, token: seq<byte>,
                 forHello: Memory, forMount: Memory)
      returns (ret: nat, hello: Attempt, mount: Attempt, ghost sentHello: seq<byte>, ghost sentMount: seq<byte>)
      requires Valid() && sock == null && MOUNT_LEN + |token| < BUFFER_LIMIT
      modifies this, peer
      ensures Valid() && Abs() == AfterMount(old(Abs()), dial, |token|, hello, mount)
      ensures ret == 0 <==> dial.Dialled? && Answered(hello) && Answered(mount) && |mount.outcome.body| >= 105
      ensures ret == 0 <==> connected
      ensures ret == 0 ==>
        && sock == peer && sessionId == mount.outcome.header.sessionId
        && peer.outgoing == old(peer.outgoing) + sentHello + sentMount
        && AllFit(HELLO, HelloValues()) && Carries(sentHello, OP_HELLO, Encode(HELLO, HelloValues()))
        && (MOUNT_LEN + |token| < U32_LIMIT ==> CarriesMount(sentMount, MountFlags(overlayWrites, debug), token))
      ensures ret != 0 ==>
        && sock == null
        && ret == (if !dial.Dialled? then dial.errno
                   else if !Answered(hello) then AttemptErrno(hello)
                   else if !Answered(mount) then AttemptErrno(mount)
                   else EIO)
      ensures dial.Dialled? && Sound(old(peer.sends), old(peer.receives)) && Welcome(old(peer.incoming)) &&
              Welcome(AfterFirst(old(peer.incoming))) && forHello == forMount == Memory(true, true) ==>
        (ret == 0 <==> |FirstMessage(AfterFirst(old(peer.incoming))).body| >= 105)
    {
      hide AfterAttempt, ErrnoOf, AfterRoundtrip, AfterHello, Carries, CarriesMount, Encode, HelloValues;
      hide AllFit, MountFlags, StatusToErrno, Welcome, Sound;
      hello, mount, sentHello, sentMount := NoMemory, NoMemory, [], [];
      match dial
      case BadGateway(e) =>
        ret := e;
        return;
      case NoSocket(e) =>
        ret := e;
        return;
      case Refused(e) =>
        ret := Release(e);
        return;
      case Dialled =>
      sock, nextRequestId, sessionId := peer, 0, 0;
      hello, sentHello := SendHello(forHello);
      ErrnoTells(hello);
      if AttemptErrno(hello) != 0 {
        ret := Release(AttemptErrno(hello));
        return;
      }
      ret, mount, sentMount := FinishMount(overlayWrites, debug, token, forMount);
    }

    /** The part of the mount after HELLO: ask for the MOUNT and read its reply. */
    method FinishMount(overlayWrites: bool, debug: bool, token: seq<byte>, memory: Memory)
      returns (ret: nat, mount: Attempt, ghost sent: seq<byte>)
      requires Valid() && sock != null && !connected && MOUNT_LEN + |token| < BUFFER_LIMIT
      modifies this, sock
      ensures Valid() && Abs() == AfterHello(old(Abs()), |token|, mount)
      ensures ret == 0 <==> Answered(mount) && |mount.outcome.body| >= 105
      ensures ret == 0 <==> connected
      ensures ret == 0 ==>
        && sock == old(sock) && sessionId == mount.outcome.header.sessionId
        && sock.outgoing == old(sock.outgoing) + sent
        && (MOUNT_LEN + |token| < U32_LIMIT ==> CarriesMount(sent, MountFlags(overlayWrites, debug), token))
      ensures ret != 0 ==> sock == null && ret == if !Answered(mount) then AttemptErrno(mount) else EIO
      ensures Sound(old(sock.sends), old(sock.receives)) && Welcome(old(sock.incoming)) && memory == Memory(true, true) ==>
        Complete(old(sock.incoming)) && (ret == 0 <==> |FirstMessage(old(sock.incoming)).body| >= 105)
    {
      hide AfterAttempt, ErrnoOf, AfterRoundtrip, U64At, AttributesTaken, CarriesMount, Encode, MountFlags, StatusToErrno;
      mount, sent := SendMount(overlayWrites, debug, token, memory);
      ErrnoTells(mount);
      if AttemptErrno(mount) != 0 {
        ret := Release(AttemptErrno(mount));
        return;
      }
      var o := mount.outcome;
      ret := ReadMountReply(o.body);
      if ret != 0 {
        ret := Release(ret);
        return;
      }
      sessionId, connected := o.header.sessionId, true;
    }

    method Disconnect()
      modifies this`sock, this`connected, this`sessionId
      ensures Abs() == AfterDisconnect(old(Abs()))
    {
      if sock == null {
        return;
      }
      sock, connected, sessionId := null, false, 0;
    }
  }

  /** When a piece in the middle is cut short, what was sent is the front of the whole. */
  lemma SentPart(before: seq<byte>, after: seq<byte>, done: seq<byte>, piece: seq<byte>, rest: seq<byte>)
    requires exists k :: 0 <= k <= |piece| && after == before + done + piece[..k]
    ensures
      var whole := done + piece + rest;
      exists k :: 0 <= k <= |whole| && after == before + whole[..k]
  {
    var k :| 0 <= k <= |piece| && after == before + done + piece[..k];
    var whole := done + piece + rest;
    assert whole[..|done| + k] == done + piece[..k];
    Reassociate(before, done, piece[..k]);
    assert after == before + whole[..|done| + k];
  }

  /** A transport that sends what it is given and does not fail a receive. */
  predicate Sound(sends: seq<Behaviour>, receives: seq<Behaviour>) {
    sends == [] && Reliable(receives)
  }

  /** The next message of the stream is whole, acceptable and reports success. */
  predicate Welcome(incoming: seq<byte>) {
    && Complete(incoming) && Acceptable(FirstMessage(incoming).header)
    && FirstMessage(incoming).header.status == 0
  }

  /** A reply that was received is the next message of the stream, and only that was consumed. */
  predicate Answers(a: Attempt, before: seq<byte>, after: seq<byte>) {
    a.Tried? && a.outcome.Replied? ==>
      Complete(before) && FirstMessage(before) == Message(a.outcome.header, a.outcome.body) && after == AfterFirst(before)
  }

  predicate CarriesMount(bytes: seq<byte>, flags: u32, token: seq<byte>) {
    AllTyped(MOUNT, MountValues(flags, token)) && Carries(bytes, OP_MOUNT, Encode(MOUNT, MountValues(flags, token)))
  }

  /** An attempt reports no error exactly when it was answered with success. */
  lemma ErrnoTells(a: Attempt)
    ensures AttemptErrno(a) == 0 <==> Answered(a)
    ensures AttemptErrno(a) ==
      if a.NoMemory? then 12
      else if a.outcome.NotConnected? then 107
      else if a.outcome.BadHeader? then 71
      else if a.outcome.Replied? then StatusToErrno(a.outcome.header.status)
      else a.outcome.errno
  {
  }

  const ZEROS_9: seq<nat> := [0, 0, 0, 0, 0, 0, 0, 0, 0]
  const ZEROS_4: seq<nat> := [0, 0, 0, 0]

  /** The new values over the first of the old ones. */
  function Overlay(old': seq<nat>, new': seq<nat>): (r: seq<nat>)
    ensures |new'| <= |old'| ==>
      |r| == |old'| && forall i :: 0 <= i < |r| ==> r[i] == if i < |new'| then new'[i] else old'[i]
  {
    new' + if |new'| <= |old'| then old'[|new'|..] else []
  }

  /** Inode, mode, size, three times, link count and two owners. */
  const ATTR_WIDTHS: seq<nat> := [8, 4, 8, 8, 8, 8, 4, 4, 4]
  /** Entry, attribute, directory and route lifetimes. */
  const TTL_WIDTHS: seq<nat> := [4, 4, 4, 4]

  lemma AttrAndTtlSizes()
    ensures Sum(ATTR_WIDTHS) == 56 && Sum(TTL_WIDTHS) == 16
  {
    var w := ATTR_WIDTHS;
    assert w[1..][1..] == [8, 8, 8, 8, 4, 4, 4];
    assert [8, 8, 8, 8, 4, 4, 4][1..][1..] == [8, 8, 4, 4, 4];
    assert [8, 8, 4, 4, 4][1..][1..] == [4, 4, 4];
    assert [4, 4, 4][1..][1..] == [4];
    assert TTL_WIDTHS[1..][1..] == [4, 4];
  }
}
