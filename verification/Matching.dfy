/**
 * Any number of callers share one connection.  A reply carries its request id
 * back, but the client never looks at it: a caller takes whatever the stream
 * holds next.  This module runs the round trip as a machine of byte-level
 * steps, lets the callers, the server and the transport interleave freely, and
 * shows when every caller nevertheless gets the reply to its own request.
 */
module Matching {
  import opened Basics
  import opened Bytes
  import opened Errno
  import opened Frames

  /** Where a caller is inside the round trip. */
  datatype Phase =
    | Idle
    | Waiting(request: Message)
    | Sending(request: Message)
    | SendingBody(request: Message)
    | ReceivingHeader(request: Message, got: seq<byte>)
    | ReceivingBody(request: Message, header: Frame, got: seq<byte>)

  /** One request the server has read off the stream, and what it answered. */
  datatype Served = Served(request: Message, reply: Message)

  /** One round trip that ran to the end of a reply, as its caller saw it. */
  datatype Finished = Finished(caller: nat, request: Message, reply: Message, errno: nat)

  datatype State = State(
    callers: seq<Phase>,
    holder: Option<nat>,
    toServer: seq<byte>,
    toClient: seq<byte>,
    served: seq<Served>,
    finished: seq<Finished>,
    desynced: bool)

  datatype Step =
    | Begin(t: nat, request: Message)
    | Acquire(t: nat)
    | SendHeader(t: nat, sent: nat)
    | SendBody(t: nat, sent: nat)
    | Receive(t: nat, n: nat)
    | ReceiveError(t: nat)
    | AllocationError(t: nat)
    | Serve(reply: Message)

  predicate Initial(s: State) {
    && (forall t :: 0 <= t < |s.callers| ==> s.callers[t] == Idle)
    && s.holder == None
    && s.toServer == [] && s.toClient == []
    && s.served == [] && s.finished == []
    && !s.desynced
  }

  predicate Holds(s: State, t: nat) {
    t < |s.callers| && s.holder == Some(t)
  }

  predicate Receiving(p: Phase) {
    p.ReceivingHeader? || p.ReceivingBody?
  }

  /** Bytes the receive loop still asks for. */
  function Missing(p: Phase): int
    requires Receiving(p)
  {
    if p.ReceivingHeader? then HEADER_LEN - |p.got| else p.header.bodyLen - |p.got|
  }

  predicate Enabled(s: State, step: Step) {
    match step
    case Begin(t, r) => t < |s.callers| && s.callers[t].Idle? && WellFramed(r)
    case Acquire(t) => t < |s.callers| && s.callers[t].Waiting? && s.holder == None
    case SendHeader(t, sent) => Holds(s, t) && s.callers[t].Sending? && sent <= HEADER_LEN
    case SendBody(t, sent) => Holds(s, t) && s.callers[t].SendingBody? && sent <= |s.callers[t].request.body|
    case Receive(t, n) => Holds(s, t) && Receiving(s.callers[t]) && 0 < n <= Missing(s.callers[t]) && n <= |s.toClient|
    case ReceiveError(t) => Holds(s, t) && Receiving(s.callers[t])
    case AllocationError(t) => Holds(s, t) && s.callers[t].ReceivingBody? && s.callers[t].got == []
    case Serve(reply) => Complete(s.toServer) && WellFramed(reply)
  }

  function Enter(s: State, t: nat, p: Phase): State
    requires t < |s.callers|
  {
    s.(callers := s.callers[t := p])
  }

  /** Leave the round trip and unlock; lost says that bytes stay behind on a stream. */
  function Leave(s: State, t: nat, lost: bool): State
    requires t < |s.callers|
  {
    s.(callers := s.callers[t := Idle], holder := None, desynced := s.desynced || lost)
  }

  /** The reply is drained before its status is looked at. */
  function Finish(s: State, t: nat, request: Message, reply: Message): State
    requires t < |s.callers|
  {
    var errno := if Acceptable(reply.header) then StatusToErrno(reply.header.status) else EPROTO;
    Leave(s.(finished := s.finished + [Finished(t, request, reply, errno)]), t, false)
  }

  /** A whole header is in: check it, then stop or go on to the body. */
  function HeaderDone(s: State, t: nat, request: Message, header: Frame): State
    requires t < |s.callers|
  {
    if header.bodyLen == 0 then Finish(s, t, request, Message(header, []))
    else if !Acceptable(header) then Leave(s, t, true)
    else Enter(s, t, ReceivingBody(request, header, []))
  }

  function AfterReceive(s: State, t: nat, n: nat): State
    requires Enabled(s, Receive(t, n))
  {
    var p := s.callers[t];
    var got := p.got + s.toClient[..n];
    var s' := s.(toClient := s.toClient[n..]);
    if p.ReceivingHeader? then
      if |got| < HEADER_LEN then Enter(s', t, ReceivingHeader(p.request, got))
      else HeaderDone(s', t, p.request, DecodeFrame(got))
    else
      if |got| < p.header.bodyLen then Enter(s', t, ReceivingBody(p.request, p.header, got))
      else Finish(s', t, p.request, Message(p.header, got))
  }

  function Next(s: State, step: Step): State
    requires Enabled(s, step)
  {
    match step
    case Begin(t, r) => Enter(s, t, Waiting(r))
    case Acquire(t) => Enter(s, t, Sending(s.callers[t].request)).(holder := Some(t))
    case SendHeader(t, sent) =>
      var r := s.callers[t].request;
      var s' := s.(toServer := s.toServer + EncodeFrame(r.header)[..sent]);
      if sent < HEADER_LEN then Leave(s', t, sent > 0)
      else Enter(s', t, if |r.body| > 0 then SendingBody(r) else ReceivingHeader(r, []))
    case SendBody(t, sent) =>
      var r := s.callers[t].request;
      var s' := s.(toServer := s.toServer + r.body[..sent]);
      if sent < |r.body| then Leave(s', t, true)
      else Enter(s', t, ReceivingHeader(r, []))
    case Receive(t, n) => AfterReceive(s, t, n)
    case ReceiveError(t) => Leave(s, t, true)
    case AllocationError(t) => Leave(s, t, true)
    case Serve(reply) =>
      s.(toServer := AfterFirst(s.toServer),
         toClient := s.toClient + Serialize(reply),
         served := s.served + [Served(FirstMessage(s.toServer), reply)])
  }

  predicate Runs(s: State, steps: seq<Step>)
    decreases steps
  {
    steps == [] || (Enabled(s, steps[0]) && Runs(Next(s, steps[0]), steps[1..]))
  }

  function Run(s: State, steps: seq<Step>): State
    requires Runs(s, steps)
    decreases steps
  {
    if steps == [] then s else Run(Next(s, steps[0]), steps[1..])
  }

  // ---------------------------------------------------------------------
  // The invariant
  // ---------------------------------------------------------------------

  predicate Outside(p: Phase) {
    p.Idle? || (p.Waiting? && WellFramed(p.request))
  }

  /** Whoever does not hold the lock is not touching the streams. */
  predicate OnlyHolderInside(s: State) {
    && (s.holder.Some? ==> s.holder.value < |s.callers| && !Outside(s.callers[s.holder.value]))
    && forall t :: 0 <= t < |s.callers| && s.holder != Some(t) ==> Outside(s.callers[t])
  }

  /** The client's account of the first exchanges is the server's account. */
  predicate Agrees(served: seq<Served>, finished: seq<Finished>) {
    && |finished| <= |served|
    && forall i :: 0 <= i < |finished| ==>
         served[i].request == finished[i].request && served[i].reply == finished[i].reply
  }

  predicate Quiet(s: State) {
    s.toServer == [] && s.toClient == [] && |s.served| == |s.finished|
  }

  /** The one exchange the server has answered and the holder has not finished. */
  predicate InFlight(s: State, request: Message) {
    && s.toServer == []
    && |s.served| == |s.finished| + 1
    && s.served[|s.finished|].request == request
    && WellFramed(s.served[|s.finished|].reply)
  }

  predicate HolderAligned(s: State, p: Phase) {
    match p
    case Idle => false
    case Waiting(_) => false
    case Sending(r) => WellFramed(r) && Quiet(s)
    case SendingBody(r) =>
      WellFramed(r) && r.body != [] && s.toServer == EncodeFrame(r.header) && s.toClient == [] && |s.served| == |s.finished|
    case ReceivingHeader(r, got) =>
      && WellFramed(r)
      && |got| < HEADER_LEN
      && (|| (s.toServer == Serialize(r) && s.toClient == [] && got == [] && |s.served| == |s.finished|)
          || (InFlight(s, r) && got + s.toClient == Serialize(s.served[|s.finished|].reply)))
    case ReceivingBody(r, h, got) =>
      && InFlight(s, r)
      && s.served[|s.finished|].reply.header == h
      && |got| < h.bodyLen
      && got + s.toClient == s.served[|s.finished|].reply.body
  }

  predicate Aligned(s: State) {
    && Agrees(s.served, s.finished)
    && (s.holder == None ==> Quiet(s))
    && (s.holder.Some? && s.holder.value < |s.callers| ==> HolderAligned(s, s.callers[s.holder.value]))
  }

  predicate Invariant(s: State) {
    OnlyHolderInside(s) && (!s.desynced ==> Aligned(s))
  }

  lemma InitialInvariant(s: State)
    requires Initial(s)
    ensures Invariant(s)
  {
  }

  lemma ReceiveAligned(s: State, t: nat, n: nat)
    requires OnlyHolderInside(s) && !s.desynced && Aligned(s) && Enabled(s, Receive(t, n))
    ensures
      var s' := AfterReceive(s, t, n);
      && (!s'.desynced ==> Aligned(s'))
      && (s'.holder == None ==> (s'.desynced <==> s'.toClient != []) && s'.toServer == [])
  {
    hide EncodeFrame, DecodeFrame;
    var p := s.callers[t];
    assert InFlight(s, p.request);
    var reply := s.served[|s.finished|].reply;
    var got, rest := p.got + s.toClient[..n], s.toClient[n..];
    assert got + rest == p.got + s.toClient;
    if p.ReceivingHeader? {
      if |got| == HEADER_LEN {
        HeaderBytes(got, rest, reply);
        assert [] + rest == rest;
      }
    } else if |got| == p.header.bodyLen {
      assert got == (got + rest)[..|got|];
      assert reply.body == got;
      assert rest == [];
    }
  }

  lemma ReceiveKeepsInvariant(s: State, t: nat, n: nat)
    requires Invariant(s) && Enabled(s, Receive(t, n))
    ensures Invariant(AfterReceive(s, t, n))
  {
    hide EncodeFrame, DecodeFrame;
    if !s.desynced {
      ReceiveAligned(s, t, n);
    }
  }

  lemma ServeKeepsInvariant(s: State, reply: Message)
    requires Invariant(s) && Enabled(s, Serve(reply))
    ensures Invariant(Next(s, Serve(reply)))
  {
    if !s.desynced {
      assert s.holder.Some?;
      var p := s.callers[s.holder.value];
      if p.SendingBody? {
        HeaderAloneIsIncomplete(p.request);
      } else {
        assert Serialize(p.request) + [] == Serialize(p.request);
        SerializeIsComplete(p.request, []);
        assert [] + Serialize(reply) == Serialize(reply);
      }
    }
  }

  lemma SendHeaderKeepsInvariant(s: State, t: nat, sent: nat)
    requires Invariant(s) && Enabled(s, SendHeader(t, sent))
    ensures Invariant(Next(s, SendHeader(t, sent)))
  {
    hide EncodeFrame;
    var r := s.callers[t].request;
    assert sent == HEADER_LEN ==> [] + EncodeFrame(r.header)[..sent] == EncodeFrame(r.header);
    assert r.body == [] ==> Serialize(r) == EncodeFrame(r.header);
  }

  lemma SendBodyKeepsInvariant(s: State, t: nat, sent: nat)
    requires Invariant(s) && Enabled(s, SendBody(t, sent))
    ensures Invariant(Next(s, SendBody(t, sent)))
  {
    hide EncodeFrame;
    var r := s.callers[t].request;
    assert sent == |r.body| ==> r.body[..sent] == r.body;
  }

  /** Beginning, taking the lock, and giving up after bytes were lost. */
  lemma OtherStepKeepsInvariant(s: State, step: Step)
    requires Invariant(s) && Enabled(s, step)
    requires step.Begin? || step.Acquire? || step.ReceiveError? || step.AllocationError?
    ensures Invariant(Next(s, step))
  {
    hide EncodeFrame, Serialize, Agrees;
  }

  lemma StepKeepsInvariant(s: State, step: Step)
    requires Invariant(s) && Enabled(s, step)
    ensures Invariant(Next(s, step))
  {
    hide Invariant;
    match step
    case Receive(t, n) => ReceiveKeepsInvariant(s, t, n);
    case Serve(reply) => ServeKeepsInvariant(s, reply);
    case SendHeader(t, sent) => SendHeaderKeepsInvariant(s, t, sent);
    case SendBody(t, sent) => SendBodyKeepsInvariant(s, t, sent);
    case _ => OtherStepKeepsInvariant(s, step);
  }

  lemma {:induction false} RunKeepsInvariant(s: State, steps: seq<Step>)
    requires Invariant(s) && Runs(s, steps)
    ensures Invariant(Run(s, steps))
    decreases steps
  {
    if steps == [] {
    } else {
      StepKeepsInvariant(s, steps[0]);
      RunKeepsInvariant(Next(s, steps[0]), steps[1..]);
    }
  }

  // ---------------------------------------------------------------------
  // Which failures matter
  // ---------------------------------------------------------------------

  /** These bytes complete the header of a caller that still waits for one. */
  predicate CompletesHeader(p: Phase, n: nat) {
    p.ReceivingHeader? && n == HEADER_LEN - |p.got|
  }

  /**
   * The round trip fails after it has touched a stream and before the whole
   * reply is read: a send cut short, a receive error, a body that cannot be
   * allocated, or a rejected header that announces a body.
   */
  predicate Spoils(s: State, step: Step)
    requires Enabled(s, step)
  {
    match step
    case SendHeader(_, sent) => 0 < sent < HEADER_LEN
    case SendBody(t, sent) => sent < |s.callers[t].request.body|
    case Receive(t, n) =>
      CompletesHeader(s.callers[t], n) &&
      (assert |s.callers[t].got + s.toClient[..n]| == HEADER_LEN;
       var header := DecodeFrame(s.callers[t].got + s.toClient[..n]);
       !Acceptable(header) && header.bodyLen > 0)
    case ReceiveError(_) => true
    case AllocationError(_) => true
    case Begin(_, _) => false
    case Acquire(_) => false
    case Serve(_) => false
  }

  /** Some round trip of the run failed that way. */
  predicate SomeStepSpoils(s: State, steps: seq<Step>)
    requires Runs(s, steps)
    decreases steps
  {
    steps != [] && (Spoils(s, steps[0]) || SomeStepSpoils(Next(s, steps[0]), steps[1..]))
  }

  lemma StepSpoils(s: State, step: Step)
    requires Enabled(s, step)
    ensures Next(s, step).desynced <==> s.desynced || Spoils(s, step)
  {
    hide EncodeFrame, DecodeFrame;
  }

  /** The state remembers exactly whether some step of the run spoiled the stream. */
  lemma {:induction false} DesyncedExactlyWhenSpoiled(s: State, steps: seq<Step>)
    requires Runs(s, steps)
    ensures Run(s, steps).desynced <==> s.desynced || SomeStepSpoils(s, steps)
    decreases steps
  {
    if steps != [] {
      StepSpoils(s, steps[0]);
      DesyncedExactlyWhenSpoiled(Next(s, steps[0]), steps[1..]);
    }
  }

  // ---------------------------------------------------------------------
  // Whose request it is
  // ---------------------------------------------------------------------

  /** The request of the last round trip the caller has begun. */
  function LastBegin(steps: seq<Step>, t: nat): Option<Message> {
    if steps == [] then None
    else
      var last := steps[|steps| - 1];
      if last.Begin? && last.t == t then Some(last.request) else LastBegin(steps[..|steps| - 1], t)
  }

  lemma RunsSnoc(s: State, steps: seq<Step>)
    requires Runs(s, steps) && steps != []
    ensures
      var init, last := steps[..|steps| - 1], steps[|steps| - 1];
      Runs(s, init) && Enabled(Run(s, init), last) && Run(s, steps) == Next(Run(s, init), last)
    decreases steps
  {
    if |steps| > 1 {
      RunsSnoc(Next(s, steps[0]), steps[1..]);
      hide Enabled, Next;
      var init := steps[..|steps| - 1];
      assert init[1..] == steps[1..][..|steps| - 2] && init[0] == steps[0];
    }
  }

  /** A caller inside a round trip stays with its request until it leaves. */
  lemma StepKeepsRequests(s: State, step: Step, t: nat)
    requires OnlyHolderInside(s) && Enabled(s, step) && t < |s.callers|
    ensures
      && |Next(s, step).callers| == |s.callers|
      && var p, p' := s.callers[t], Next(s, step).callers[t];
      p'.Idle? ||
      (if p.Idle? then step == Begin(t, p'.request) else p'.request == p.request && !(step.Begin? && step.t == t))
  {
    hide EncodeFrame, DecodeFrame;
  }

  /** A rejected header is a protocol error; otherwise the status decides, and zero means success. */
  predicate ErrnoFits(f: Finished) {
    && f.errno == (if Acceptable(f.reply.header) then StatusToErrno(f.reply.header.status) else 71)
    && (f.errno == 0 <==> Acceptable(f.reply.header) && f.reply.header.status == 0)
  }

  /** A step finishes at most one round trip, that of the lock's holder, with the holder's own request. */
  lemma StepFinishes(s: State, step: Step)
    requires OnlyHolderInside(s) && Enabled(s, step)
    ensures
      var s' := Next(s, step);
      s'.finished == s.finished ||
      (&& |s'.finished| == |s.finished| + 1 && s'.finished[..|s.finished|] == s.finished
       && var f := s'.finished[|s.finished|];
          && f.caller < |s.callers| && s.holder == Some(f.caller)
          && !s.callers[f.caller].Idle? && f.request == s.callers[f.caller].request
          && ErrnoFits(f))
  {
    hide EncodeFrame, DecodeFrame;
  }

  lemma {:induction false} CallersKeepTheirRequests(s: State, steps: seq<Step>)
    requires Initial(s) && Runs(s, steps)
    ensures
      var e := Run(s, steps);
      forall t :: 0 <= t < |e.callers| && !e.callers[t].Idle? ==> LastBegin(steps, t) == Some(e.callers[t].request)
  {
    if steps != [] {
      RunsSnoc(s, steps);
      var init, last := steps[..|steps| - 1], steps[|steps| - 1];
      CallersKeepTheirRequests(s, init);
      InitialInvariant(s);
      RunKeepsInvariant(s, init);
      var m := Run(s, init);
      hide Enabled, Next, Run, Runs, Initial;
      CallersStay(m, last);
      forall t | 0 <= t < |m.callers| && !Next(m, last).callers[t].Idle?
        ensures LastBegin(steps, t) == Some(Next(m, last).callers[t].request)
      {
        StepKeepsRequests(m, last, t);
      }
    }
  }

  lemma CallersStay(s: State, step: Step)
    requires Enabled(s, step)
    ensures |Next(s, step).callers| == |s.callers|
  {
    hide EncodeFrame, DecodeFrame;
  }

  /** For every round trip finished in the run, the request its caller had begun last when it finished. */
  function Asked(s: State, steps: seq<Step>): seq<Option<Message>>
    requires Runs(s, steps)
  {
    if steps == [] then []
    else
      RunsSnoc(s, steps);
      var init := steps[..|steps| - 1];
      var before, after := Run(s, init).finished, Run(s, steps).finished;
      if |after| > |before| then Asked(s, init) + [LastBegin(init, after[|before|].caller)] else Asked(s, init)
  }

  /** What the finished round trips of a run have asked and what they returned. */
  predicate FinishedAsAsked(asked: seq<Option<Message>>, finished: seq<Finished>) {
    && |asked| == |finished|
    && forall i :: 0 <= i < |finished| ==>
         && asked[i] == Some(finished[i].request)
         && ErrnoFits(finished[i])
  }

  /** What the last step of a run finished, if it finished anything. */
  lemma NewlyFinished(s: State, steps: seq<Step>)
    requires Initial(s) && Runs(s, steps) && steps != []
    ensures
      var init := steps[..|steps| - 1];
      && Runs(s, init)
      && var before, after := Run(s, init).finished, Run(s, steps).finished;
         after == before ||
         (|after| == |before| + 1 && after == before + [after[|before|]] && ErrnoFits(after[|before|]) &&
          LastBegin(init, after[|before|].caller) == Some(after[|before|].request))
  {
    RunsSnoc(s, steps);
    var init, last := steps[..|steps| - 1], steps[|steps| - 1];
    CallersKeepTheirRequests(s, init);
    InitialInvariant(s);
    RunKeepsInvariant(s, init);
    StepFinishes(Run(s, init), last);
    hide Enabled, Next, Run, Runs, ErrnoFits, LastBegin, Initial;
  }

  lemma {:induction false} FinishedWhatWasAsked(s: State, steps: seq<Step>)
    requires Initial(s) && Runs(s, steps)
    ensures FinishedAsAsked(Asked(s, steps), Run(s, steps).finished)
  {
    if steps != [] {
      NewlyFinished(s, steps);
      AskedSnoc(s, steps);
      var init := steps[..|steps| - 1];
      FinishedWhatWasAsked(s, init);
      var before, after := Run(s, init).finished, Run(s, steps).finished;
      hide *;
      if |after| > |before| {
        OneMoreFinished(Asked(s, init), before, after[|before|]);
      } else {
        assert Asked(s, init) + [] == Asked(s, init);
      }
    }
  }

  lemma AskedSnoc(s: State, steps: seq<Step>)
    requires Runs(s, steps) && steps != []
    ensures
      var init := steps[..|steps| - 1];
      && Runs(s, init)
      && var before, after := Run(s, init).finished, Run(s, steps).finished;
         Asked(s, steps) ==
           Asked(s, init) + if |after| > |before| then [LastBegin(init, after[|before|].caller)] else []
  {
    RunsSnoc(s, steps);
    hide Enabled, Next, Run, Runs, LastBegin;
  }

  lemma OneMoreFinished(asked: seq<Option<Message>>, finished: seq<Finished>, f: Finished)
    requires FinishedAsAsked(asked, finished)
    requires ErrnoFits(f)
    ensures FinishedAsAsked(asked + [Some(f.request)], finished + [f])
  {
    hide ErrnoFits;
  }

  /**
   * However the callers, the server and the transport interleave: as long as no
   * round trip was cut short, had its reply cut short, could not allocate its
   * body, or rejected a header with a body, both streams are at a message
   * boundary whenever the lock is free, and the i-th finished round trip handed
   * its caller the server's answer to the request that caller had begun last.
   * Round trips that ended in an error status count as finished.
   */
  lemma EveryCallerGetsItsOwnReply(s: State, steps: seq<Step>)
    requires Initial(s) && Runs(s, steps) && !SomeStepSpoils(s, steps)
    ensures
      var e := Run(s, steps);
      && FinishedAsAsked(Asked(s, steps), e.finished)
      && Agrees(e.served, e.finished)
      && (e.holder == None ==> e.toServer == [] && e.toClient == [] && |e.served| == |e.finished|)
  {
    InitialInvariant(s);
    RunKeepsInvariant(s, steps);
    DesyncedExactlyWhenSpoiled(s, steps);
    FinishedWhatWasAsked(s, steps);
  }

  /**
   * None of these failures is listed in vain: the step that ends the next round
   * trip spoils the stream if and only if it leaves bytes behind.  An error
   * status, a rejected header without a body and a send that moved nothing are
   * all harmless.
   */
  lemma DesyncedExactlyWhenBytesStay(s: State, steps: seq<Step>, step: Step)
    requires Initial(s) && Runs(s, steps) && !SomeStepSpoils(s, steps)
    requires Run(s, steps).holder.Some?
    requires Enabled(Run(s, steps), step) && Next(Run(s, steps), step).holder == None
    ensures
      var e := Next(Run(s, steps), step);
      && (Spoils(Run(s, steps), step) <==> e.toServer != [] || e.toClient != [])
      && (e.desynced <==> e.toServer != [] || e.toClient != [])
  {
    InitialInvariant(s);
    RunKeepsInvariant(s, steps);
    DesyncedExactlyWhenSpoiled(s, steps);
    var m := Run(s, steps);
    StepSpoils(m, step);
    var p := m.callers[m.holder.value];
    match step
    case Receive(t, n) =>
      ReceiveAligned(m, t, n);
    case SendHeader(t, sent) =>
    case SendBody(t, sent) =>
    case ReceiveError(t) =>
      if p.ReceivingHeader? && InFlight(m, p.request) {
        assert |p.got + m.toClient| >= HEADER_LEN;
      }
    case AllocationError(t) =>
    case Begin(t, r) =>
    case Acquire(t) =>
    case Serve(r) =>
  }

  // ---------------------------------------------------------------------
  // What a failed body allocation does to the next caller
  // ---------------------------------------------------------------------

  lemma RunsCons(s: State, step: Step, steps: seq<Step>)
    requires Enabled(s, step) && Runs(Next(s, step), steps)
    ensures Runs(s, [step] + steps)
    ensures Run(s, [step] + steps) == Run(Next(s, step), steps)
  {
    assert ([step] + steps)[1..] == steps;
  }

  /** The steps that put a request on the stream. */
  function Requesting(t: nat, r: Message): seq<Step> {
    [Begin(t, r)] + ([Acquire(t)] + ([SendHeader(t, HEADER_LEN)] +
    (if r.body == [] then [] else [SendBody(t, |r.body|)])))
  }

  /** The steps that answer it and take the answer off the stream. */
  function Answering(t: nat, reply: Message): seq<Step> {
    [Serve(reply)] + ([Receive(t, HEADER_LEN)] + (if reply.body == [] then [] else [Receive(t, |reply.body|)]))
  }

  /** Nobody is inside a round trip, and nothing is on the streams. */
  predicate AtRest(s: State, t: nat) {
    t < |s.callers| && s.callers[t].Idle? && s.holder == None && s.toServer == [] && s.toClient == []
  }

  function RequestOut(s: State, t: nat, r: Message): State
    requires t < |s.callers|
  {
    s.(callers := s.callers[t := ReceivingHeader(r, [])], holder := Some(t), toServer := Serialize(r))
  }

  /** Caller 0 reads the header of its reply, then cannot allocate the body. */
  function AbandonedReply(r: Message, reply: Message): seq<Step> {
    [Begin(0, r)] + ([Acquire(0)] + ([SendHeader(0, HEADER_LEN)] + ([Serve(reply)] +
    ([Receive(0, HEADER_LEN)] + [AllocationError(0)]))))
  }

  /** Caller 1 then sends a request and reads one header. */
  function NextCaller(r: Message): seq<Step> {
    [Begin(1, r)] + ([Acquire(1)] + ([SendHeader(1, HEADER_LEN)] + [Receive(1, HEADER_LEN)]))
  }

  lemma RequestGoesOut(s: State, t: nat, r: Message)
    requires AtRest(s, t) && WellFramed(r)
    ensures Runs(s, Requesting(t, r)) && Run(s, Requesting(t, r)) == RequestOut(s, t, r)
  {
    hide EncodeFrame, DecodeFrame;
    var s1 := Next(s, Begin(t, r));
    var s2 := Next(s1, Acquire(t));
    var s3 := Next(s2, SendHeader(t, HEADER_LEN));
    assert [] + EncodeFrame(r.header)[..HEADER_LEN] == EncodeFrame(r.header);
    var rest: seq<Step> := if r.body == [] then [] else [SendBody(t, |r.body|)];
    if r.body == [] {
      assert Serialize(r) == EncodeFrame(r.header);
      assert s3 == RequestOut(s, t, r);
    } else {
      assert r.body[..|r.body|] == r.body;
      assert Next(s3, rest[0]) == RequestOut(s, t, r);
      assert rest[1..] == [];
    }
    assert Runs(s3, rest) && Run(s3, rest) == RequestOut(s, t, r);
    hide Next, Enabled, Run, Runs;
    RunsCons(s2, SendHeader(t, HEADER_LEN), rest);
    RunsCons(s1, Acquire(t), [SendHeader(t, HEADER_LEN)] + rest);
    RunsCons(s, Begin(t, r), [Acquire(t)] + ([SendHeader(t, HEADER_LEN)] + rest));
  }

  function Exchanged(s: State, t: nat, r: Message, reply: Message): State {
    s.(served := s.served + [Served(r, reply)],
       finished := s.finished + [Finished(t, r, reply, StatusToErrno(reply.header.status))])
  }

  function ReplyIn(s: State, t: nat, r: Message, reply: Message): State
    requires t < |s.callers|
  {
    s.(callers := s.callers[t := ReceivingHeader(r, [])], holder := Some(t), toClient := Serialize(reply),
       served := s.served + [Served(r, reply)])
  }

  function BodyIn(s: State, t: nat, r: Message, reply: Message): State
    requires t < |s.callers|
  {
    s.(callers := s.callers[t := ReceivingBody(r, reply.header, [])], holder := Some(t), toClient := reply.body,
       served := s.served + [Served(r, reply)])
  }

  lemma ReplyArrives(s: State, t: nat, r: Message, reply: Message)
    requires AtRest(s, t) && WellFramed(r) && WellFramed(reply)
    ensures Enabled(RequestOut(s, t, r), Serve(reply))
    ensures Next(RequestOut(s, t, r), Serve(reply)) == ReplyIn(s, t, r, reply)
  {
    hide EncodeFrame, DecodeFrame, Serialize;
    assert Serialize(r) + [] == Serialize(r) && [] + Serialize(reply) == Serialize(reply);
    SerializeIsComplete(r, []);
  }

  lemma HeaderArrives(s: State, t: nat, r: Message, reply: Message)
    requires AtRest(s, t) && WellFramed(reply) && Acceptable(reply.header)
    ensures Enabled(ReplyIn(s, t, r, reply), Receive(t, HEADER_LEN))
    ensures Next(ReplyIn(s, t, r, reply), Receive(t, HEADER_LEN)) ==
      if reply.body == [] then Exchanged(s, t, r, reply) else BodyIn(s, t, r, reply)
  {
    hide EncodeFrame, DecodeFrame, StatusToErrno;
    var whole := Serialize(reply);
    var got, body := [] + whole[..HEADER_LEN], whole[HEADER_LEN..];
    assert got + body == whole;
    HeaderBytes(got, body, reply);
    assert s.callers[t := ReceivingHeader(r, [])][t := Idle] == s.callers;
    assert s.callers[t := ReceivingHeader(r, [])][t := ReceivingBody(r, reply.header, [])] ==
           s.callers[t := ReceivingBody(r, reply.header, [])];
  }

  lemma BodyArrives(s: State, t: nat, r: Message, reply: Message)
    requires AtRest(s, t) && WellFramed(reply) && Acceptable(reply.header) && reply.body != []
    ensures Enabled(BodyIn(s, t, r, reply), Receive(t, |reply.body|))
    ensures Next(BodyIn(s, t, r, reply), Receive(t, |reply.body|)) == Exchanged(s, t, r, reply)
  {
    hide EncodeFrame, DecodeFrame, StatusToErrno;
    assert [] + reply.body[..|reply.body|] == reply.body && reply.body[|reply.body|..] == [];
    assert s.callers[t := ReceivingBody(r, reply.header, [])][t := Idle] == s.callers;
  }

  lemma AnswerComesBack(s: State, t: nat, r: Message, reply: Message)
    requires AtRest(s, t) && WellFramed(r) && WellFramed(reply) && Acceptable(reply.header)
    ensures Runs(RequestOut(s, t, r), Answering(t, reply))
    ensures Run(RequestOut(s, t, r), Answering(t, reply)) == Exchanged(s, t, r, reply)
  {
    hide Next, Enabled, RequestOut, ReplyIn, BodyIn, Exchanged;
    ReplyArrives(s, t, r, reply);
    HeaderArrives(s, t, r, reply);
    var s1, s2 := ReplyIn(s, t, r, reply), Next(ReplyIn(s, t, r, reply), Receive(t, HEADER_LEN));
    var rest: seq<Step> := if reply.body == [] then [] else [Receive(t, |reply.body|)];
    if reply.body != [] {
      BodyArrives(s, t, r, reply);
      assert rest[1..] == [];
    }
    assert Runs(s2, rest) && Run(s2, rest) == Exchanged(s, t, r, reply);
    hide Run, Runs;
    RunsCons(s1, Receive(t, HEADER_LEN), rest);
    RunsCons(RequestOut(s, t, r), Serve(reply), [Receive(t, HEADER_LEN)] + rest);
  }

  /**
   * A round trip that is not disturbed completes: whatever the request and
   * whatever acceptable reply the server gives, the caller ends up with that
   * reply and the errno of its status, and both streams are empty again.
   */
  lemma UndisturbedRoundTrip(s: State, t: nat, r: Message, reply: Message)
    requires AtRest(s, t) && WellFramed(r) && WellFramed(reply) && Acceptable(reply.header)
    ensures Runs(s, Requesting(t, r)) && Runs(Run(s, Requesting(t, r)), Answering(t, reply))
    ensures
      var e := Run(Run(s, Requesting(t, r)), Answering(t, reply));
      && AtRest(e, t)
      && e.finished == s.finished + [Finished(t, r, reply, StatusToErrno(reply.header.status))]
      && e.served == s.served + [Served(r, reply)]
  {
    hide Next, Enabled, Run, Runs;
    RequestGoesOut(s, t, r);
    AnswerComesBack(s, t, r, reply);
  }

  const TWO_IDLE := State([Idle, Idle], None, [], [], [], [], false)

  function Left(reply: Message, r: Message): State {
    State([Idle, Idle], None, [], reply.body, [Served(r, reply)], [], true)
  }

  function OnTheWire(r: Message): State {
    State([ReceivingHeader(r, []), Idle], Some(0), EncodeFrame(r.header), [], [], [], false)
  }

  lemma RequestReachesTheWire(r: Message, steps: seq<Step>)
    requires WellFramed(r) && r.body == []
    requires Runs(OnTheWire(r), steps)
    ensures
      var all := [Begin(0, r)] + ([Acquire(0)] + ([SendHeader(0, HEADER_LEN)] + steps));
      Runs(TWO_IDLE, all) && Run(TWO_IDLE, all) == Run(OnTheWire(r), steps)
  {
    hide EncodeFrame, DecodeFrame;
    var s1 := Next(TWO_IDLE, Begin(0, r));
    var s2 := Next(s1, Acquire(0));
    assert Next(s2, SendHeader(0, HEADER_LEN)) == OnTheWire(r);
    RunsCons(s2, SendHeader(0, HEADER_LEN), steps);
    RunsCons(s1, Acquire(0), [SendHeader(0, HEADER_LEN)] + steps);
    RunsCons(TWO_IDLE, Begin(0, r), [Acquire(0)] + ([SendHeader(0, HEADER_LEN)] + steps));
  }

  lemma ReplyIsAbandoned(r: Message, reply: Message)
    requires WellFramed(r) && r.body == []
    requires WellFramed(reply) && reply.body != [] && Acceptable(reply.header)
    ensures
      var steps := [Serve(reply)] + ([Receive(0, HEADER_LEN)] + [AllocationError(0)]);
      Runs(OnTheWire(r), steps) && Run(OnTheWire(r), steps) == Left(reply, r)
  {
    hide EncodeFrame, DecodeFrame;
    var s0 := OnTheWire(r);
    assert s0.toServer == Serialize(r) + [];
    SerializeIsComplete(r, []);
    var s1 := Next(s0, Serve(reply));
    var got, rest := [] + s1.toClient[..HEADER_LEN], s1.toClient[HEADER_LEN..];
    assert got + rest == Serialize(reply);
    HeaderBytes(got, rest, reply);
    var s2 := Next(s1, Receive(0, HEADER_LEN));
    var s3 := Next(s2, AllocationError(0));
    assert s3 == Left(reply, r);
    assert [AllocationError(0)][1..] == [];
    assert Runs(s2, [AllocationError(0)]) && Run(s2, [AllocationError(0)]) == s3;
    RunsCons(s1, Receive(0, HEADER_LEN), [AllocationError(0)]);
    RunsCons(s0, Serve(reply), [Receive(0, HEADER_LEN)] + [AllocationError(0)]);
  }

  lemma AbandonedReplyStays(r: Message, reply: Message)
    requires WellFramed(r) && r.body == []
    requires WellFramed(reply) && reply.body != [] && Acceptable(reply.header)
    ensures Runs(TWO_IDLE, AbandonedReply(r, reply))
    ensures Run(TWO_IDLE, AbandonedReply(r, reply)) == Left(reply, r)
  {
    hide Runs, Run;
    ReplyIsAbandoned(r, reply);
    RequestReachesTheWire(r, [Serve(reply)] + ([Receive(0, HEADER_LEN)] + [AllocationError(0)]));
  }

  /**
   * The condition is needed.  If the body left behind happens to look like a
   * header, the next caller accepts it as the reply to its request, which the
   * server has not even read.
   */
  lemma AbandonedBodyAnswersNextCaller(r0: Message, r1: Message, header: Frame, stray: Frame)
    requires WellFramed(r0) && r0.body == [] && WellFramed(r1) && r1.body == []
    requires Acceptable(header) && header.bodyLen == HEADER_LEN
    requires Acceptable(stray) && stray.bodyLen == 0
    ensures
      var reply := Message(header, EncodeFrame(stray));
      && Initial(TWO_IDLE)
      && Runs(TWO_IDLE, AbandonedReply(r0, reply))
      && Runs(Run(TWO_IDLE, AbandonedReply(r0, reply)), NextCaller(r1))
      && var e := Run(Run(TWO_IDLE, AbandonedReply(r0, reply)), NextCaller(r1));
         && e.served == [Served(r0, reply)]
         && e.finished == [Finished(1, r1, Message(stray, []), StatusToErrno(stray.status))]
  {
    hide EncodeFrame, DecodeFrame;
    var reply := Message(header, EncodeFrame(stray));
    AbandonedReplyStays(r0, reply);
    var s0 := Left(reply, r0);
    var s1 := Next(s0, Begin(1, r1));
    var s2 := Next(s1, Acquire(1));
    var s3 := Next(s2, SendHeader(1, HEADER_LEN));
    assert s3.callers == [Idle, ReceivingHeader(r1, [])];
    var got := [] + s3.toClient[..HEADER_LEN];
    assert got == EncodeFrame(stray);
    DecodeOfEncodeFrame(stray);
    var s4 := Next(s3, Receive(1, HEADER_LEN));
    assert [Receive(1, HEADER_LEN)][1..] == [];
    var tail := [Receive(1, HEADER_LEN)];
    assert Runs(s3, tail) && Run(s3, tail) == s4;
    RunsCons(s2, SendHeader(1, HEADER_LEN), tail);
    RunsCons(s1, Acquire(1), [SendHeader(1, HEADER_LEN)] + tail);
    RunsCons(s0, Begin(1, r1), [Acquire(1)] + ([SendHeader(1, HEADER_LEN)] + tail));
  }
}
