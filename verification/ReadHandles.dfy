/**
 * One inode's read handle under concurrency: any number of threads refresh the
 * inode and read pages, and a final eviction ends its life.  The steps are the
 * statements that touch the handle, the lock or the server.
 */
module ReadHandles {
  import opened Basics
  import opened Bytes

  /** What the server is asked to do, in order. */
  datatype Event = Opened(handle: u64) | Closed(handle: u64) | ReadFrom(handle: u64)

  datatype Phase =
    | Idle
    | RefreshWaiting(seen: u64)
    | RefreshLocked(seen: u64)
    | RefreshClosed(seen: u64)
    | ReadWaiting
    | ReadLocked
    | ReadOpened
    | ReadReady

  datatype State = State(
    threads: seq<Phase>,
    lock: Option<nat>,
    generation: u64,
    hasHandle: bool,
    handle: u64,
    evicted: bool,
    log: seq<Event>)

  datatype Step =
    | Pinged(t: nat, generation: u64)
    | StartRead(t: nat)
    | Lock(t: nat)
    | CloseOld(t: nat)
    | ClearAndUnlock(t: nat)
    | OpenSucceeds(t: nat, handle: u64)
    | OpenFails(t: nat, scribbled: u64)
    | AdoptHandle(t: nat, learned: u64)
    | UseHandle(t: nat)
    | ReadAndUnlock(t: nat)
    | Evict

  predicate Initial(s: State) {
    && (forall t :: 0 <= t < |s.threads| ==> s.threads[t] == Idle)
    && s.lock == None && !s.hasHandle && !s.evicted && s.log == []
  }

  // ---------------------------------------------------------------------
  // The server's view of a log
  // ---------------------------------------------------------------------

  function Live(log: seq<Event>): set<u64> {
    if log == [] then {}
    else
      var before := Live(log[..|log| - 1]);
      match log[|log| - 1]
      case Opened(h) => before + {h}
      case Closed(h) => before - {h}
      case ReadFrom(_) => before
  }

  function EverOpened(log: seq<Event>): set<u64> {
    set i | 0 <= i < |log| && log[i].Opened? :: log[i].handle
  }

  predicate At(s: State, t: nat, p: Phase) {
    !s.evicted && t < |s.threads| && s.threads[t] == p
  }

  predicate HoldsAt(s: State, t: nat, p: Phase) {
    At(s, t, p) && s.lock == Some(t)
  }

  /** The server never hands out a handle it has handed out before. */
  predicate Enabled(s: State, step: Step) {
    match step
    case Pinged(t, _) => At(s, t, Idle)
    case StartRead(t) => At(s, t, Idle)
    case Lock(t) =>
      !s.evicted && t < |s.threads| && (s.threads[t].RefreshWaiting? || s.threads[t].ReadWaiting?) && s.lock == None
    case CloseOld(t) => !s.evicted && t < |s.threads| && s.threads[t].RefreshLocked? && s.lock == Some(t)
    case ClearAndUnlock(t) => !s.evicted && t < |s.threads| && s.threads[t].RefreshClosed? && s.lock == Some(t)
    case OpenSucceeds(t, h) => HoldsAt(s, t, ReadLocked) && !s.hasHandle && h !in EverOpened(s.log)
    case OpenFails(t, _) => HoldsAt(s, t, ReadLocked) && !s.hasHandle
    case AdoptHandle(t, _) => HoldsAt(s, t, ReadOpened)
    case UseHandle(t) => HoldsAt(s, t, ReadLocked) && s.hasHandle
    case ReadAndUnlock(t) => HoldsAt(s, t, ReadReady)
    case Evict => !s.evicted && s.lock == None && forall t :: 0 <= t < |s.threads| ==> s.threads[t] == Idle
  }

  function Enter(s: State, t: nat, p: Phase): State
    requires t < |s.threads|
  {
    s.(threads := s.threads[t := p])
  }

  function Next(s: State, step: Step): State
    requires Enabled(s, step)
  {
    match step
    case Pinged(t, g) => if g == s.generation then s else Enter(s, t, RefreshWaiting(g))
    case StartRead(t) => Enter(s, t, ReadWaiting)
    case Lock(t) =>
      Enter(s, t, if s.threads[t].ReadWaiting? then ReadLocked else RefreshLocked(s.threads[t].seen)).(lock := Some(t))
    case CloseOld(t) =>
      Enter(s, t, RefreshClosed(s.threads[t].seen)).(log := if s.hasHandle then s.log + [Closed(s.handle)] else s.log)
    case ClearAndUnlock(t) =>
      Enter(s, t, Idle).(hasHandle := false, handle := 0, generation := s.threads[t].seen, lock := None)
    case OpenSucceeds(t, h) => Enter(s, t, ReadOpened).(handle := h, log := s.log + [Opened(h)])
    case OpenFails(t, junk) => Enter(s, t, Idle).(handle := junk, lock := None)
    case AdoptHandle(t, g) => Enter(s, t, ReadReady).(hasHandle := true, generation := g)
    case UseHandle(t) => Enter(s, t, ReadReady)
    case ReadAndUnlock(t) => Enter(s, t, Idle).(log := s.log + [ReadFrom(s.handle)], lock := None)
    case Evict => s.(evicted := true, log := if s.hasHandle then s.log + [Closed(s.handle)] else s.log)
  }

  predicate Runs(s: State, steps: seq<Step>)
    decreases steps
  {
    steps == [] || (Enabled(s, steps[0]) && Runs(Next(s, steps[0]), steps[1..]))
  }

  function Run(s: State, steps: seq<Step>): State
    requires Runs(s, steps)
    decreases steps
  {
    if steps == [] then s else Run(Next(s, steps[0]), steps[1..])
  }

  // ---------------------------------------------------------------------
  // What a log may look like
  // ---------------------------------------------------------------------

  /** Every open is new, and only live handles are closed or read. */
  predicate Legal(log: seq<Event>) {
    log == [] || (Legal(log[..|log| - 1]) && LegalNext(log[..|log| - 1], log[|log| - 1]))
  }

  predicate LegalNext(log: seq<Event>, e: Event) {
    if e.Opened? then e.handle !in EverOpened(log) else e.handle in Live(log)
  }

  function Opens(log: seq<Event>): nat {
    if log == [] then 0 else Opens(log[..|log| - 1]) + (if log[|log| - 1].Opened? then 1 else 0)
  }

  function Closes(log: seq<Event>): nat {
    if log == [] then 0 else Closes(log[..|log| - 1]) + (if log[|log| - 1].Closed? then 1 else 0)
  }

  lemma LogSnoc(log: seq<Event>, e: Event)
    ensures e.Opened? ==> Live(log + [e]) == Live(log) + {e.handle}
    ensures e.Closed? ==> Live(log + [e]) == Live(log) - {e.handle}
    ensures e.ReadFrom? ==> Live(log + [e]) == Live(log)
    ensures Legal(log + [e]) <==> Legal(log) && LegalNext(log, e)
  {
    assert (log + [e])[..|log|] == log;
  }

  lemma {:induction false} LiveWasOpened(log: seq<Event>)
    ensures Live(log) <= EverOpened(log)
  {
    if log != [] {
      var before := log[..|log| - 1];
      LiveWasOpened(before);
      assert forall i :: 0 <= i < |before| ==> before[i] == log[i];
      assert EverOpened(before) <= EverOpened(log);
    }
  }

  lemma {:induction false} OpensAreClosesAndLive(log: seq<Event>)
    requires Legal(log)
    ensures Opens(log) == Closes(log) + |Live(log)|
  {
    if log != [] {
      var before := log[..|log| - 1];
      OpensAreClosesAndLive(before);
      LiveWasOpened(before);
    }
  }

  /** In so many words: nothing is closed twice, and a read falls between its handle's open and close. */
  predicate Disciplined(log: seq<Event>) {
    && (forall i, j :: 0 <= i < j < |log| && log[i].Closed? ==> log[j] != log[i])
    && (forall j :: 0 <= j < |log| && !log[j].Opened? ==> Opened(log[j].handle) in log[..j])
    && (forall i, j :: 0 <= i < j < |log| && log[i].Closed? ==> log[j] != ReadFrom(log[i].handle))
  }

  lemma {:induction false} ClosedIsDead(log: seq<Event>, i: nat)
    requires Legal(log) && i < |log| && log[i].Closed?
    ensures log[i].handle !in Live(log) && log[i].handle in EverOpened(log)
  {
    var n := |log| - 1;
    var before := log[..n];
    LiveWasOpened(before);
    assert EverOpened(before) <= EverOpened(log) by {
      assert forall k :: 0 <= k < n ==> before[k] == log[k];
    }
    if i < n {
      ClosedIsDead(before, i);
    }
  }

  lemma {:induction false} LegalIsDisciplined(log: seq<Event>)
    requires Legal(log)
    ensures Disciplined(log)
  {
    if log != [] {
      var n := |log| - 1;
      var before, last := log[..n], log[n];
      LegalIsDisciplined(before);
      LiveWasOpened(before);
      forall i | 0 <= i < n && log[i].Closed?
        ensures log[n] != log[i] && log[n] != ReadFrom(log[i].handle)
      {
        ClosedIsDead(before, i);
      }
      forall j | 0 <= j < |log| && !log[j].Opened? ensures Opened(log[j].handle) in log[..j] {
        if j < n {
          assert before[..j] == log[..j] && before[j] == log[j];
        } else {
          var k :| 0 <= k < |before| && before[k].Opened? && before[k].handle == log[n].handle;
          assert log[..n][k] == Opened(log[n].handle);
        }
      }
      forall i, j | 0 <= i < j < |log| && log[i].Closed? ensures log[j] != log[i] && log[j] != ReadFrom(log[i].handle) {
        if j < n {
          assert before[i] == log[i] && before[j] == log[j];
        }
      }
    }
  }

  // ---------------------------------------------------------------------
  // The invariant
  // ---------------------------------------------------------------------

  function Held(s: State): set<u64> {
    if s.hasHandle then {s.handle} else {}
  }

  predicate Outside(p: Phase) {
    p.Idle? || p.RefreshWaiting? || p.ReadWaiting?
  }

  predicate OnlyHolderInside(s: State) {
    && (s.lock.Some? ==> s.lock.value < |s.threads| && !Outside(s.threads[s.lock.value]))
    && forall t :: 0 <= t < |s.threads| && s.lock != Some(t) ==> Outside(s.threads[t])
  }

  /** How the server's live handles relate to the inode's fields at each point inside the lock. */
  predicate HolderConsistent(s: State, p: Phase) {
    match p
    case RefreshLocked(_) => Live(s.log) == Held(s)
    case RefreshClosed(_) => Live(s.log) == {}
    case ReadLocked => Live(s.log) == Held(s)
    case ReadOpened => Live(s.log) == {s.handle}
    case ReadReady => s.hasHandle && Live(s.log) == {s.handle}
    case _ => false
  }

  predicate Invariant(s: State) {
    && Legal(s.log)
    && OnlyHolderInside(s)
    && (s.evicted ==> s.lock == None && Live(s.log) == {})
    && (!s.evicted && s.lock == None ==> Live(s.log) == Held(s))
    && (!s.evicted && s.lock.Some? && s.lock.value < |s.threads| ==> HolderConsistent(s, s.threads[s.lock.value]))
  }

  lemma StepKeepsInvariant(s: State, step: Step)
    requires Invariant(s) && Enabled(s, step)
    ensures Invariant(Next(s, step))
  {
    hide Live, Legal, EverOpened;
    match step
    case CloseOld(t) => LogSnoc(s.log, Closed(s.handle));
    case OpenSucceeds(t, h) => LogSnoc(s.log, Opened(h));
    case ReadAndUnlock(t) => LogSnoc(s.log, ReadFrom(s.handle));
    case Evict => LogSnoc(s.log, Closed(s.handle));
    case _ =>
  }

  lemma {:induction false} RunKeepsInvariant(s: State, steps: seq<Step>)
    requires Invariant(s) && Runs(s, steps)
    ensures Invariant(Run(s, steps))
    decreases steps
  {
    if steps != [] {
      StepKeepsInvariant(s, steps[0]);
      RunKeepsInvariant(Next(s, steps[0]), steps[1..]);
    }
  }

  /**
   * However refreshes, page reads and the final eviction interleave: no handle
   * is closed twice, every read names an open handle, and while the lock is
   * free the successful opens are the closes plus the handle still held.
   * After eviction every handle has been closed.
   */
  lemma HandlesAreConserved(s: State, steps: seq<Step>)
    requires Initial(s) && Runs(s, steps)
    ensures
      var e := Run(s, steps);
      && Disciplined(e.log)
      && (e.lock == None && !e.evicted ==> Opens(e.log) == Closes(e.log) + (if e.hasHandle then 1 else 0))
      && (e.evicted ==> Opens(e.log) == Closes(e.log))
  {
    RunKeepsInvariant(s, steps);
    LegalIsDisciplined(Run(s, steps).log);
    OpensAreClosesAndLive(Run(s, steps).log);
  }

  // ---------------------------------------------------------------------
  // One thread alone
  // ---------------------------------------------------------------------

  predicate AtRest(s: State, t: nat) {
    !s.evicted && s.lock == None && t < |s.threads| && s.threads[t].Idle?
  }

  lemma RunsCons(s: State, step: Step, steps: seq<Step>)
    requires Enabled(s, step) && Runs(Next(s, step), steps)
    ensures Runs(s, [step] + steps) && Run(s, [step] + steps) == Run(Next(s, step), steps)
  {
    hide Enabled, Next;
    assert ([step] + steps)[1..] == steps;
  }

  lemma RunOne(s: State, step: Step)
    requires Enabled(s, step)
    ensures Runs(s, [step]) && Run(s, [step]) == Next(s, step)
  {
    hide Enabled, Next;
    assert [step][1..] == [];
  }

  function Refreshing(t: nat, g: u64): seq<Step> {
    [Pinged(t, g)] + ([Lock(t)] + ([CloseOld(t)] + [ClearAndUnlock(t)]))
  }

  /** A refresh alone that sees a new generation closes the held handle, forgets it, and takes the generation. */
  lemma RefreshAlone(s: State, t: nat, g: u64)
    requires AtRest(s, t) && g != s.generation
    ensures
      && Runs(s, Refreshing(t, g))
      && Run(s, Refreshing(t, g)) ==
           s.(generation := g, hasHandle := false, handle := 0,
              log := s.log + if s.hasHandle then [Closed(s.handle)] else [])
  {
    var s1 := Next(s, Pinged(t, g));
    var s2 := Next(s1, Lock(t));
    var s3 := Next(s2, CloseOld(t));
    var s4 := Next(s3, ClearAndUnlock(t));
    assert s4.threads == s.threads;
    RunOne(s3, ClearAndUnlock(t));
    hide Enabled, Next, Runs, Run;
    RunsCons(s2, CloseOld(t), [ClearAndUnlock(t)]);
    RunsCons(s1, Lock(t), [CloseOld(t)] + [ClearAndUnlock(t)]);
    RunsCons(s, Pinged(t, g), [Lock(t)] + ([CloseOld(t)] + [ClearAndUnlock(t)]));
  }

  /** A refresh that sees the generation the inode has changes nothing. */
  lemma RefreshUnchanged(s: State, t: nat)
    requires AtRest(s, t)
    ensures Enabled(s, Pinged(t, s.generation)) && Next(s, Pinged(t, s.generation)) == s
  {
  }

  function ReadingHeld(t: nat): seq<Step> {
    [StartRead(t)] + ([Lock(t)] + ([UseHandle(t)] + [ReadAndUnlock(t)]))
  }

  /** A page read alone with a handle held reads through it and changes nothing else. */
  lemma ReadHeldAlone(s: State, t: nat)
    requires AtRest(s, t) && s.hasHandle
    ensures
      && Runs(s, ReadingHeld(t))
      && Run(s, ReadingHeld(t)) == s.(log := s.log + [ReadFrom(s.handle)])
  {
    var s1 := Next(s, StartRead(t));
    var s2 := Next(s1, Lock(t));
    var s3 := Next(s2, UseHandle(t));
    var s4 := Next(s3, ReadAndUnlock(t));
    assert s4.threads == s.threads;
    RunOne(s3, ReadAndUnlock(t));
    hide Enabled, Next, Runs, Run;
    RunsCons(s2, UseHandle(t), [ReadAndUnlock(t)]);
    RunsCons(s1, Lock(t), [UseHandle(t)] + [ReadAndUnlock(t)]);
    RunsCons(s, StartRead(t), [Lock(t)] + ([UseHandle(t)] + [ReadAndUnlock(t)]));
  }

  function ReadingNew(t: nat, h: u64, g: u64): seq<Step> {
    [StartRead(t)] + ([Lock(t)] + ([OpenSucceeds(t, h)] + ([AdoptHandle(t, g)] + [ReadAndUnlock(t)])))
  }

  /** A page read alone without a handle opens one, keeps it with the generation of the OPEN, and reads through it. */
  lemma ReadNewAlone(s: State, t: nat, h: u64, g: u64)
    requires AtRest(s, t) && !s.hasHandle && h !in EverOpened(s.log)
    ensures
      && Runs(s, ReadingNew(t, h, g))
      && Run(s, ReadingNew(t, h, g)) ==
           s.(generation := g, hasHandle := true, handle := h, log := s.log + [Opened(h)] + [ReadFrom(h)])
  {
    hide EverOpened;
    var s1 := Next(s, StartRead(t));
    var s2 := Next(s1, Lock(t));
    var s3 := Next(s2, OpenSucceeds(t, h));
    var s4 := Next(s3, AdoptHandle(t, g));
    var s5 := Next(s4, ReadAndUnlock(t));
    assert s5.threads == s.threads;
    hide Runs, Run;
    RunOne(s4, ReadAndUnlock(t));
    hide Enabled, Next;
    RunsCons(s3, AdoptHandle(t, g), [ReadAndUnlock(t)]);
    RunsCons(s2, OpenSucceeds(t, h), [AdoptHandle(t, g)] + [ReadAndUnlock(t)]);
    RunsCons(s1, Lock(t), [OpenSucceeds(t, h)] + ([AdoptHandle(t, g)] + [ReadAndUnlock(t)]));
    RunsCons(s, StartRead(t), [Lock(t)] + ([OpenSucceeds(t, h)] + ([AdoptHandle(t, g)] + [ReadAndUnlock(t)])));
  }
}
