/**
 * What the client remembers about its connection, as values: the fields the
 * round trip, the mount and the disconnect update, and the history of headers
 * handed to the socket and generations learned from it.
 */
module Sessions {
  import opened Bytes
  import opened Errno
  import opened Frames

  datatype Event = Sent(frame: Frame) | Learned(generation: u64)

  datatype Session = Session(
    sock: bool,
    connected: bool,
    sessionId: u64,
    nextRequestId: u64,
    generation: u64,
    log: seq<Event>)

  const FRESH := Session(false, false, 0, 0, 0, [])

  /** How one round trip ended. */
  datatype Outcome =
    | NotConnected
    | SendLost(errno: Failure)
    | HeaderLost(errno: Failure)
    | BadHeader(header: Frame)
    | BodyLost(header: Frame, errno: Failure)
    | Replied(header: Frame, body: seq<byte>)

  function ErrnoOf(o: Outcome): nat {
    match o
    case NotConnected => ENOTCONN
    case SendLost(e) => e
    case HeaderLost(e) => e
    case BadHeader(_) => EPROTO
    case BodyLost(_, e) => e
    case Replied(h, _) => StatusToErrno(h.status)
  }

  function RequestFrame(s: Session, opcode: u16, len: nat): Frame {
    Frame(MAGIC, VERSION, opcode, 0, HEADER_LEN, len % U32_LIMIT,
          (s.nextRequestId + 1) % U64_LIMIT, s.sessionId, 0, 0, s.generation)
  }

  /** The message a round trip puts on the stream. */
  function RequestMessage(s: Session, opcode: u16, body: seq<byte>): Message {
    Message(RequestFrame(s, opcode, |body|), body)
  }

  /** The bytes are one whole message with this opcode and this body, and nothing else. */
  predicate Carries(bytes: seq<byte>, opcode: u16, body: seq<byte>) {
    && Complete(bytes) && AfterFirst(bytes) == []
    && FirstMessage(bytes).header.opcode == opcode && FirstMessage(bytes).body == body
    && Acceptable(FirstMessage(bytes).header)
  }

  /**
   * What the client sends is a message the peer can cut off the stream again,
   * exactly when the body is short enough for the 32-bit length field.
   */
  lemma RequestIsAMessage(s: Session, opcode: u16, body: seq<byte>)
    ensures WellFramed(RequestMessage(s, opcode, body)) <==> |body| < U32_LIMIT
    ensures |body| < U32_LIMIT ==> Carries(Serialize(RequestMessage(s, opcode, body)), opcode, body)
  {
    hide EncodeFrame, DecodeFrame;
    var m := RequestMessage(s, opcode, body);
    if |body| < U32_LIMIT {
      SerializeIsComplete(m, []);
      assert Serialize(m) + [] == Serialize(m);
    }
  }

  /** A header is accepted exactly when its magic, version and header length are those the client sends itself. */
  lemma AcceptsWhatItSends(f: Frame, s: Session, opcode: u16, len: nat)
    ensures
      var own := RequestFrame(s, opcode, len);
      && (Acceptable(f) <==> f.magic == own.magic && f.version == own.version && f.headerLen == own.headerLen)
      && own.headerLen == |EncodeFrame(own)|
      && own.flags == 0 && own.status == 0 && own.reserved == 0
  {
    hide EncodeFrame;
  }

  function Learn(s: Session, g: u64): Session {
    s.(generation := g, log := s.log + [Learned(g)])
  }

  /** The request id moves even when there is no socket; a header teaches its generation once accepted. */
  function AfterRoundtrip(s: Session, opcode: u16, len: nat, o: Outcome): Session {
    var s' := s.(nextRequestId := (s.nextRequestId + 1) % U64_LIMIT);
    if !s.sock then s'
    else
      var s'' := s'.(log := s.log + [Sent(RequestFrame(s, opcode, len))]);
      if o.BodyLost? || o.Replied? then Learn(s'', o.header.generation) else s''
  }

  // ---------------------------------------------------------------------
  // Mounting and disconnecting
  // ---------------------------------------------------------------------

  const HELLO_LEN: nat := 36
  const MOUNT_LEN: nat := 27
  /** Cluster version, generation, visibility byte, root object id, root attributes, four lifetimes. */
  const MOUNT_REPLY_LEN: nat := 8 + 8 + 1 + 16 + 56 + 16

  datatype Dial = BadGateway(errno: Failure) | NoSocket(errno: Failure) | Refused(errno: Failure) | Dialled

  datatype Attempt = NoMemory | Tried(outcome: Outcome)

  function AttemptErrno(a: Attempt): nat {
    if a.NoMemory? then ENOMEM else ErrnoOf(a.outcome)
  }

  function Drop(s: Session): Session {
    s.(sock := false, connected := false)
  }

  function Opened(s: Session): Session {
    s.(sock := true, nextRequestId := 0, sessionId := 0)
  }

  function AfterAttempt(s: Session, opcode: u16, len: nat, a: Attempt): Session {
    if a.NoMemory? then s else AfterRoundtrip(s, opcode, len, a.outcome)
  }

  function U64At(b: seq<byte>, i: nat): u64
    requires i + 8 <= |b|
  {
    LeOfUnLe(b[i..i + 8]);
    CapacityValues();
    UnLe(b[i..i + 8])
  }

  /** The MOUNT reply is read field by field; a short one may already have taught a generation. */
  function AfterMountReply(s: Session, header: Frame, body: seq<byte>): Session {
    var s' := if |body| < 16 then s else Learn(s, U64At(body, 8));
    if |body| < MOUNT_REPLY_LEN then Drop(s')
    else s'.(sessionId := header.sessionId, connected := true)
  }

  function AfterHello(s: Session, tokenLen: nat, mount: Attempt): Session {
    var s' := AfterAttempt(s, OP_MOUNT, MOUNT_LEN + tokenLen, mount);
    if AttemptErrno(mount) != 0 || !mount.outcome.Replied? then Drop(s')
    else AfterMountReply(s', mount.outcome.header, mount.outcome.body)
  }

  function AfterDial(s: Session, tokenLen: nat, hello: Attempt, mount: Attempt): Session {
    var s' := AfterAttempt(s, OP_HELLO, HELLO_LEN, hello);
    if AttemptErrno(hello) != 0 then Drop(s') else AfterHello(s', tokenLen, mount)
  }

  function AfterMount(s: Session, dial: Dial, tokenLen: nat, hello: Attempt, mount: Attempt): Session {
    match dial
    case BadGateway(_) => s
    case NoSocket(_) => s
    case Refused(_) => Drop(s)
    case Dialled => AfterDial(Opened(s), tokenLen, hello, mount)
  }

  function AfterDisconnect(s: Session): Session {
    if !s.sock then s else s.(sock := false, connected := false, sessionId := 0)
  }

  // ---------------------------------------------------------------------
  // Whole runs: one mount, then any calls and disconnects
  // ---------------------------------------------------------------------

  datatype Op = Call(opcode: u16, len: nat, outcome: Outcome) | Disconnect

  function After(s: Session, op: Op): Session {
    match op
    case Call(opcode, len, o) => AfterRoundtrip(s, opcode, len, o)
    case Disconnect => AfterDisconnect(s)
  }

  function Run(s: Session, ops: seq<Op>): Session
    decreases ops
  {
    if ops == [] then s else Run(After(s, ops[0]), ops[1..])
  }

  function FramesOf(log: seq<Event>): seq<Frame> {
    if log == [] then []
    else
      var rest := FramesOf(log[..|log| - 1]);
      match log[|log| - 1]
      case Sent(f) => rest + [f]
      case Learned(_) => rest
  }

  /** The generation most recently learned; a fresh mount starts at zero. */
  function LastLearned(log: seq<Event>): u64 {
    if log == [] then 0
    else
      match log[|log| - 1]
      case Sent(_) => LastLearned(log[..|log| - 1])
      case Learned(g) => g
  }

  predicate SentCurrent(log: seq<Event>) {
    forall i :: 0 <= i < |log| && log[i].Sent? ==> log[i].frame.generation == LastLearned(log[..i])
  }

  predicate NumberedInOrder(fs: seq<Frame>) {
    forall i :: 0 <= i < |fs| ==> fs[i].requestId == (i + 1) % U64_LIMIT
  }

  predicate OpeningFrames(fs: seq<Frame>) {
    && (|fs| >= 1 ==> fs[0].opcode == OP_HELLO && fs[0].sessionId == 0)
    && (|fs| >= 2 ==> fs[1].opcode == OP_MOUNT && fs[1].sessionId == 0)
  }

  predicate InSession(fs: seq<Frame>, id: u64) {
    forall i :: 2 <= i < |fs| ==> fs[i].sessionId == id
  }

  /** What every reachable state keeps, before and after the session id is known. */
  predicate Keeps(s: Session) {
    && SentCurrent(s.log)
    && s.generation == LastLearned(s.log)
    && NumberedInOrder(FramesOf(s.log))
    && (s.sock ==> s.nextRequestId == |FramesOf(s.log)| % U64_LIMIT)
    && (s.connected ==> s.sock)
  }

  predicate Established(s: Session, id: u64) {
    && Keeps(s)
    && OpeningFrames(FramesOf(s.log)) && InSession(FramesOf(s.log), id)
    && (s.sock ==> |FramesOf(s.log)| >= 2 && s.sessionId == id)
  }

  lemma LogSnoc(log: seq<Event>, e: Event)
    ensures FramesOf(log + [e]) == FramesOf(log) + (if e.Sent? then [e.frame] else [])
    ensures LastLearned(log + [e]) == if e.Sent? then LastLearned(log) else e.generation
    ensures SentCurrent(log) && (e.Sent? ==> e.frame.generation == LastLearned(log)) ==> SentCurrent(log + [e])
  {
    var all := log + [e];
    assert all[..|all| - 1] == log;
    assert FramesOf(log) + [] == FramesOf(log);
    if SentCurrent(log) && (e.Sent? ==> e.frame.generation == LastLearned(log)) {
      forall i | 0 <= i < |all| && all[i].Sent? ensures all[i].frame.generation == LastLearned(all[..i]) {
        assert i < |log| ==> all[..i] == log[..i];
      }
    }
  }

  lemma LearnKeeps(s: Session, g: u64)
    requires Keeps(s)
    ensures Keeps(Learn(s, g)) && FramesOf(Learn(s, g).log) == FramesOf(s.log)
  {
    LogSnoc(s.log, Learned(g));
  }

  function AfterSend(s: Session, f: Frame): Session {
    s.(nextRequestId := f.requestId, log := s.log + [Sent(f)])
  }

  lemma SendKeeps(s: Session, f: Frame)
    requires Keeps(s) && s.sock
    requires f.generation == s.generation && f.requestId == (s.nextRequestId + 1) % U64_LIMIT
    ensures Keeps(AfterSend(s, f)) && FramesOf(AfterSend(s, f).log) == FramesOf(s.log) + [f]
  {
    hide SentCurrent, LastLearned, FramesOf;
    LogSnoc(s.log, Sent(f));
    NextNumber(|FramesOf(s.log)|);
  }

  lemma NextNumber(n: nat)
    ensures (n % U64_LIMIT + 1) % U64_LIMIT == (n + 1) % U64_LIMIT
  {
  }

  lemma RoundtripKeeps(s: Session, opcode: u16, len: nat, o: Outcome)
    requires Keeps(s)
    ensures
      var s' := AfterRoundtrip(s, opcode, len, o);
      && Keeps(s')
      && s'.sock == s.sock && s'.sessionId == s.sessionId && s'.connected == s.connected
      && s'.nextRequestId == (s.nextRequestId + 1) % U64_LIMIT
      && FramesOf(s'.log) == FramesOf(s.log) + (if s.sock then [RequestFrame(s, opcode, len)] else [])
  {
    hide SentCurrent, LastLearned, FramesOf;
    if s.sock {
      SendKeeps(s, RequestFrame(s, opcode, len));
      if o.BodyLost? || o.Replied? {
        LearnKeeps(AfterSend(s, RequestFrame(s, opcode, len)), o.header.generation);
      }
    } else {
      assert FramesOf(s.log) + [] == FramesOf(s.log);
    }
  }

  /** Mounting has sent at most HELLO, and then at most MOUNT, under session zero. */
  predicate Opening(s: Session, sent: nat) {
    && Keeps(s) && s.sock && !s.connected && s.sessionId == 0
    && |FramesOf(s.log)| == sent <= 2
    && OpeningFrames(FramesOf(s.log))
  }

  lemma OpeningCall(s: Session, opcode: u16, len: nat, o: Outcome)
    requires (Opening(s, 0) && opcode == OP_HELLO) || (Opening(s, 1) && opcode == OP_MOUNT)
    ensures Opening(AfterRoundtrip(s, opcode, len, o), |FramesOf(s.log)| + 1)
  {
    hide SentCurrent, LastLearned, FramesOf;
    RoundtripKeeps(s, opcode, len, o);
  }

  /** Where a mount stops: connected with a socket, or with neither. */
  predicate Settled(s: Session, id: u64) {
    s.sock == s.connected && |FramesOf(s.log)| <= 2 && Established(s, id)
  }

  lemma OpeningDropped(s: Session, sent: nat, id: u64)
    requires Opening(s, sent)
    ensures Settled(Drop(s), id) && !Drop(s).connected
  {
    hide SentCurrent, LastLearned, FramesOf;
  }

  lemma OpeningReply(s: Session, header: Frame, body: seq<byte>)
    requires Opening(s, 2)
    ensures Settled(AfterMountReply(s, header, body), header.sessionId)
  {
    hide SentCurrent, LastLearned, FramesOf;
    if |body| >= 16 {
      LearnKeeps(s, U64At(body, 8));
    }
  }

  function SessionOf(mount: Attempt): u64 {
    if mount.Tried? && mount.outcome.Replied? then mount.outcome.header.sessionId else 0
  }

  lemma HelloSettles(s: Session, tokenLen: nat, mount: Attempt)
    requires Opening(s, 1)
    ensures Settled(AfterHello(s, tokenLen, mount), SessionOf(mount))
    ensures AfterHello(s, tokenLen, mount).connected ==> mount.Tried? && mount.outcome.Replied?
  {
    hide Settled, Opening, Drop, AfterRoundtrip, AfterMountReply;
    if mount.Tried? {
      var s' := AfterRoundtrip(s, OP_MOUNT, MOUNT_LEN + tokenLen, mount.outcome);
      assert Opening(s', 2) by {
        OpeningCall(s, OP_MOUNT, MOUNT_LEN + tokenLen, mount.outcome);
        OpeningCounts(s, 1);
      }
      OpeningDropped(s', 2, SessionOf(mount));
      if mount.outcome.Replied? {
        OpeningReply(s', mount.outcome.header, mount.outcome.body);
      }
    } else {
      OpeningDropped(s, 1, SessionOf(mount));
    }
  }

  lemma OpeningCounts(s: Session, sent: nat)
    requires Opening(s, sent)
    ensures |FramesOf(s.log)| == sent
  {
  }

  lemma DialSettles(s: Session, tokenLen: nat, hello: Attempt, mount: Attempt)
    requires Opening(s, 0)
    ensures Settled(AfterDial(s, tokenLen, hello, mount), SessionOf(mount))
    ensures AfterDial(s, tokenLen, hello, mount).connected ==> mount.Tried? && mount.outcome.Replied?
  {
    hide Settled, Opening, Drop, AfterRoundtrip, AfterHello;
    if hello.Tried? {
      var s' := AfterRoundtrip(s, OP_HELLO, HELLO_LEN, hello.outcome);
      assert Opening(s', 1) by {
        OpeningCall(s, OP_HELLO, HELLO_LEN, hello.outcome);
        OpeningCounts(s, 0);
      }
      OpeningDropped(s', 1, SessionOf(mount));
      HelloSettles(s', tokenLen, mount);
    } else {
      OpeningDropped(s, 0, SessionOf(mount));
    }
  }

  /** What a mount leaves behind on each of its exits. */
  lemma MountEstablishes(dial: Dial, tokenLen: nat, hello: Attempt, mount: Attempt)
    ensures
      var s := AfterMount(FRESH, dial, tokenLen, hello, mount);
      Settled(s, SessionOf(mount)) && (s.connected ==> mount.Tried? && mount.outcome.Replied?)
  {
    hide AfterDial;
    assert Opening(Opened(FRESH), 0) && Settled(FRESH, SessionOf(mount));
    DialSettles(Opened(FRESH), tokenLen, hello, mount);
  }

  /** The server answered, and with success. */
  predicate Answered(a: Attempt) {
    a.Tried? && a.outcome.Replied? && a.outcome.header.status == 0
  }

  /**
   * A mount succeeds if and only if the peer was dialled, HELLO and MOUNT were
   * both answered with success, and the MOUNT reply has all of its 105 bytes.
   * It then carries the session id of that reply and the generation in its
   * body, and has used the request ids 1 and 2.
   */
  lemma MountSucceedsExactlyWhen(s0: Session, dial: Dial, tokenLen: nat, hello: Attempt, mount: Attempt)
    requires !s0.sock && !s0.connected
    ensures
      var s := AfterMount(s0, dial, tokenLen, hello, mount);
      && (s.connected <==> dial.Dialled? && Answered(hello) && Answered(mount) && |mount.outcome.body| >= 105)
      && (s.connected ==>
            && s.sock && s.sessionId == mount.outcome.header.sessionId
            && s.generation == U64At(mount.outcome.body, 8) && s.nextRequestId == 2)
      && (!s.connected ==> !s.sock)
  {
    hide StatusToErrno, U64At;
  }

  /** After a disconnect there is no socket, and nothing more is ever sent. */
  lemma DisconnectEndsTheSession(s: Session, ops: seq<Op>)
    requires s.connected ==> s.sock
    ensures
      var s' := AfterDisconnect(s);
      && !s'.sock && !s'.connected && (s.sock ==> s'.sessionId == 0)
      && AfterDisconnect(s') == s'
      && Run(s', ops).log == s.log
  {
    RunWithoutSocket(AfterDisconnect(s), ops);
  }

  /** The generation of the last reply whose header was accepted, if there was one. */
  function LastHeard(g: u64, ops: seq<Op>): u64
    decreases ops
  {
    if ops == [] then g
    else
      var op := ops[0];
      LastHeard(if op.Call? && (op.outcome.Replied? || op.outcome.BodyLost?) then op.outcome.header.generation else g,
                ops[1..])
  }

  /** While connected, the client's generation is that of the last reply it accepted, whatever its status. */
  lemma {:induction false} GenerationIsLastHeard(s: Session, ops: seq<Op>)
    requires s.sock && Disconnect !in ops
    ensures Run(s, ops).generation == LastHeard(s.generation, ops) && Run(s, ops).sock
    decreases ops
  {
    if ops != [] {
      GenerationIsLastHeard(After(s, ops[0]), ops[1..]);
    }
  }

  lemma StepEstablished(s: Session, op: Op, id: u64)
    requires Established(s, id)
    ensures Established(After(s, op), id)
  {
    if op.Call? {
      RoundtripKeeps(s, op.opcode, op.len, op.outcome);
    }
  }

  lemma {:induction false} RunEstablished(s: Session, ops: seq<Op>, id: u64)
    requires Established(s, id)
    ensures Established(Run(s, ops), id)
    decreases ops
  {
    if ops == [] {
    } else {
      StepEstablished(s, ops[0], id);
      RunEstablished(After(s, ops[0]), ops[1..], id);
    }
  }

  /**
   * In every run: HELLO then MOUNT open the connection under session zero,
   * every later header carries the session id of the MOUNT reply, the n-th
   * header carries request id n, each header carries the last generation
   * learned before it, and a connected mount holds a socket.
   */
  lemma SessionDiscipline(dial: Dial, tokenLen: nat, hello: Attempt, mount: Attempt, ops: seq<Op>)
    ensures
      var e := Run(AfterMount(FRESH, dial, tokenLen, hello, mount), ops);
      var fs := FramesOf(e.log);
      && OpeningFrames(fs)
      && (|fs| > 2 ==> mount.Tried? && mount.outcome.Replied? && InSession(fs, mount.outcome.header.sessionId))
      && NumberedInOrder(fs)
      && SentCurrent(e.log)
      && (e.connected ==> e.sock)
  {
    MountEstablishes(dial, tokenLen, hello, mount);
    var s := AfterMount(FRESH, dial, tokenLen, hello, mount);
    RunEstablished(s, ops, SessionOf(mount));
    if !s.sock {
      RunWithoutSocket(s, ops);
    }
  }

  lemma {:induction false} RunWithoutSocket(s: Session, ops: seq<Op>)
    requires !s.sock
    ensures Run(s, ops).log == s.log
    decreases ops
  {
    if ops != [] {
      RunWithoutSocket(After(s, ops[0]), ops[1..]);
    }
  }
}
