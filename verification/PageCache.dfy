/**
 * A remote file's generation stamp, read handle and cached pages.  Opening,
 * reading and mapping the file refresh it and drop its pages when the
 * generation moved; filling a page refreshes it too, but drops nothing.
 */
module PageCache {
  import opened Bytes
  import opened Errno
  import opened Inodes

  /** The file as values; a page carries the generation of the handle it was filled through. */
  datatype File = File(
    generation: u64,
    hasHandle: bool,
    handle: u64,
    handleGeneration: u64,
    pages: map<nat, u64>)

  /** A fresh inode has no handle and no pages. */
  predicate New(f: File) {
    !f.hasHandle && f.pages == map[]
  }

  /** A failed OPEN may still have stored the handle number it read. */
  datatype Open = OpenFailed(errno: nat, handle: u64) | OpenedAs(handle: u64, generation: u64)

  datatype Read = ReadFailed(errno: nat) | ReadDone

  function AfterRefresh(f: File, ping: Ping, invalidate: bool): File {
    if ping.PingFailed? || ping.generation == f.generation then f
    else
      f.(generation := ping.generation, hasHandle := false, handle := 0,
         pages := if invalidate then map[] else f.pages)
  }

  function AfterOpen(f: File, open: Open): File {
    if f.hasHandle then f
    else if open.OpenFailed? then f.(handle := open.handle)
    else f.(hasHandle := true, handle := open.handle, handleGeneration := open.generation, generation := open.generation)
  }

  /** The PING is answered with the stamp the held handle already has. */
  predicate KeepsHandle(f: File, ping: Ping) {
    ping.Reported? && f.hasHandle && ping.generation == f.generation
  }

  /** The fill gets through its PING, has or gets a handle, and reads. */
  predicate Fills(f: File, ping: Ping, open: Open, read: Read) {
    ping.Reported? && (KeepsHandle(f, ping) || open.OpenedAs?) && read.ReadDone?
  }

  function AfterFolio(f: File, index: nat, ping: Ping, open: Open, read: Read): File {
    if ping.PingFailed? then f
    else
      var f' := AfterOpen(AfterRefresh(f, ping, false), open);
      if f'.hasHandle && read.ReadDone? then f'.(pages := f'.pages[index := f'.handleGeneration]) else f'
  }

  // ---------------------------------------------------------------------
  // The operations
  // ---------------------------------------------------------------------

  class RemoteInode {
    const hasObjectId: bool
    var generation: u64
    var hasHandle: bool
    var handle: u64
    var pages: map<nat, u64>
    /** The generation stamped on the OPEN reply of the current handle; the kernel does not keep it. */
    var handleGeneration: u64
    /** The handles opened and the handles closed, in order. */
    ghost var opens: seq<u64>
    ghost var closed: seq<u64>

    constructor (hasObjectId: bool, generation: u64)
      ensures this.hasObjectId == hasObjectId && Abs() == File(generation, false, 0, 0, map[]) && Accounts() && opens == []
    {
      this.hasObjectId, this.generation, hasHandle, handle, pages := hasObjectId, generation, false, 0, map[];
      handleGeneration, opens, closed := 0, [], [];
    }

    ghost function Abs(): File
      reads this
    {
      File(generation, hasHandle, handle, handleGeneration, pages)
    }

    /** Every handle opened has been closed once, in that order, except the one held. */
    ghost predicate Accounts()
      reads this
    {
      opens == closed + (if hasHandle then [handle] else [])
    }

    /** Asks for the generation; when it moved, closes the handle, takes the new stamp, and may drop the pages. */
    method Refresh(connected: bool, ping: Ping, invalidate: bool) returns (ret: nat)
      requires Accounts()
      modifies this
      ensures Accounts() && opens == old(opens)
      ensures !hasObjectId || !connected ==> ret == 0 && Abs() == old(Abs()) && closed == old(closed)
      ensures hasObjectId && connected ==>
        && Abs() == AfterRefresh(old(Abs()), ping, invalidate)
        && ret == (if ping.PingFailed? then ping.errno else 0)
        && closed == old(closed) + (if old(hasHandle) && !hasHandle then [old(handle)] else [])
      ensures hasObjectId && connected && ping.Reported? && ping.generation != old(generation) ==>
        !hasHandle && generation == ping.generation && pages == if invalidate then map[] else old(pages)
      ensures ping.PingFailed? || ping.generation == old(generation) ==> Abs() == old(Abs())
    {
      if !hasObjectId || !connected {
        return 0;
      }
      if ping.PingFailed? {
        return ping.errno;
      }
      if generation == ping.generation {
        return 0;
      }
      if hasHandle {
        closed := closed + [handle];
      }
      hasHandle, handle, generation := false, 0, ping.generation;
      if invalidate {
        pages := map[];
      }
      return 0;
    }

    /** Opens a handle if there is none, then reads through it. */
    method ReadRemotePage(connected: bool, open: Open, read: Read) returns (ret: nat)
      requires Accounts()
      requires open.OpenFailed? ==> open.errno != 0
      requires read.ReadFailed? ==> read.errno != 0
      modifies this`generation, this`hasHandle, this`handle, this`handleGeneration, this`opens
      ensures Accounts()
      ensures !hasObjectId || !connected ==> ret == EIO && Abs() == old(Abs())
      ensures hasObjectId && connected ==> Abs() == AfterOpen(old(Abs()), open)
      ensures hasObjectId && connected ==>
        ret == (if !hasHandle then open.errno else if read.ReadFailed? then read.errno else 0)
    {
      if !hasObjectId || !connected {
        return EIO;
      }
      ret := 0;
      if !hasHandle {
        handle := open.handle;
        if open.OpenFailed? {
          ret := open.errno;
        } else {
          hasHandle, generation := true, open.generation;
          handleGeneration, opens := open.generation, opens + [open.handle];
        }
      }
      if ret == 0 && read.ReadFailed? {
        ret := read.errno;
      }
    }

    /** Fills one page: refresh without invalidation, then read. */
    method ReadFolio(index: nat, connected: bool, ping: Ping, open: Open, read: Read) returns (ret: nat)
      requires Accounts()
      requires ping.PingFailed? ==> ping.errno != 0
      requires open.OpenFailed? ==> open.errno != 0
      requires read.ReadFailed? ==> read.errno != 0
      modifies this
      ensures Accounts()
      ensures hasObjectId && connected ==> Abs() == AfterFolio(old(Abs()), index, ping, open, read)
      ensures hasObjectId && connected ==>
        (ret == 0 <==>
           ping.Reported? && read.ReadDone? &&
           (open.OpenedAs? || (old(hasHandle) && ping.generation == old(generation))))
      ensures ret == 0 ==> index in pages && hasHandle && pages[index] == handleGeneration
      ensures old(hasHandle) && ping.Reported? && ping.generation == old(generation) ==>
        opens == old(opens) && closed == old(closed)
      ensures closed == old(closed) || (old(hasHandle) && closed == old(closed) + [old(handle)])
      ensures !hasObjectId || !connected ==> ret == EIO && Abs() == old(Abs()) && closed == old(closed)
    {
      ret := Refresh(connected, ping, false);
      if ret != 0 {
        return;
      }
      ret := ReadRemotePage(connected, open, read);
      if ret == 0 {
        pages := pages[index := handleGeneration];
      }
    }

    /** The last use of the inode: no page stays, and while connected every handle ever opened has been closed once. */
    method Evict(connected: bool)
      requires Accounts()
      modifies this`pages, this`closed
      ensures pages == map[] && opens == old(opens)
      ensures connected ==> closed == opens
      ensures !connected ==> Accounts()
    {
      pages := map[];
      if hasHandle && connected {
        closed := closed + [handle];
      }
    }
  }

  // ---------------------------------------------------------------------
  // Whole runs
  // ---------------------------------------------------------------------

  datatype Step =
    | Enter(ping: Ping)
    | Fill(index: nat, ping: Ping, open: Open, read: Read)
    | Reclaim(index: nat)

  /** Open, read and mmap all enter through an invalidating refresh; the kernel may reclaim pages at any time. */
  function Next(f: File, s: Step): File {
    match s
    case Enter(ping) => AfterRefresh(f, ping, true)
    case Fill(i, ping, open, read) => AfterFolio(f, i, ping, open, read)
    case Reclaim(i) => f.(pages := f.pages - {i})
  }

  function Run(f: File, steps: seq<Step>): File
    decreases steps
  {
    if steps == [] then f else Run(Next(f, steps[0]), steps[1..])
  }

  predicate HandleFresh(f: File) {
    f.hasHandle ==> f.generation == f.handleGeneration
  }

  lemma {:induction false} HandleStaysFresh(f: File, steps: seq<Step>)
    requires HandleFresh(f)
    ensures HandleFresh(Run(f, steps))
    decreases steps
  {
    if steps != [] {
      HandleStaysFresh(Next(f, steps[0]), steps[1..]);
    }
  }

  /**
   * In every run, a held handle was opened at the generation the inode carries.
   * So a page is always read through a handle opened at the generation the
   * fill's own PING reported, or through one opened after that PING, at the
   * generation its OPEN reported; and that is the stamp the inode ends up with.
   */
  lemma ReadsUseFreshHandles(f: File, steps: seq<Step>, s: Step)
    requires New(f) && s.Fill?
    ensures
      var before := Run(f, steps);
      var after := Next(before, s);
      && HandleFresh(before)
      && (Fills(before, s.ping, s.open, s.read) ==>
            && s.index in after.pages && after.pages[s.index] == after.generation
            && after.generation == (if KeepsHandle(before, s.ping) then s.ping.generation else s.open.generation))
  {
    HandleStaysFresh(f, steps);
  }

  /**
   * A refresh acts exactly when the server reports another generation: it then
   * takes that stamp, gives the handle up, and drops every page if it is to
   * invalidate and none otherwise.
   */
  lemma RefreshActsExactlyOnChange(f: File, ping: Ping, invalidate: bool)
    ensures
      var f' := AfterRefresh(f, ping, invalidate);
      if ping.Reported? && ping.generation != f.generation
      then f'.generation == ping.generation && !f'.hasHandle && f'.pages == (if invalidate then map[] else f.pages)
      else f' == f
  {
  }

  /** A fill that gets through caches its page, keeps every other, and opens a handle only if it holds none. */
  lemma FillCachesItsPage(f: File, index: nat, ping: Ping, open: Open, read: Read)
    requires ping.Reported? && read.ReadDone?
    requires open.OpenedAs? || (f.hasHandle && ping.generation == f.generation)
    ensures
      var f' := AfterFolio(f, index, ping, open, read);
      && f'.hasHandle && f'.pages == f.pages[index := f'.handleGeneration]
      && f'.handle == (if f.hasHandle && ping.generation == f.generation then f.handle else open.handle)
  {
  }

  // ---------------------------------------------------------------------
  // Page coherence, step by step
  // ---------------------------------------------------------------------

  predicate Coherent(f: File) {
    forall i :: i in f.pages ==> f.pages[i] == f.generation
  }

  /** The stamp a fill leaves the inode with: its PING's, unless it has to open a handle and gets one. */
  function Learned(f: File, ping: Ping, open: Open): u64 {
    if ping.PingFailed? then f.generation
    else if open.OpenFailed? || KeepsHandle(f, ping) then ping.generation
    else open.generation
  }

  /** The fill brings no new stamp, or the only page cached is the one it refills. */
  predicate Harmless(f: File, s: Step) {
    s.Fill? ==>
      || Learned(f, s.ping, s.open) == f.generation
      || f.pages.Keys <= (if Fills(f, s.ping, s.open, s.read) then {s.index} else {})
  }

  /** A step keeps the cache coherent exactly when it is harmless. */
  lemma CoherentExactlyWhenHarmless(f: File, s: Step)
    requires HandleFresh(f) && Coherent(f)
    ensures Coherent(Next(f, s)) <==> Harmless(f, s)
    ensures s.Fill? ==> Next(f, s).generation == Learned(f, s.ping, s.open)
  {
    if s.Fill? && !Harmless(f, s) {
      var refilled: set<nat> := if Fills(f, s.ping, s.open, s.read) then {s.index} else {};
      var i :| i in f.pages.Keys && i !in refilled;
      assert i in Next(f, s).pages && Next(f, s).pages[i] == f.generation;
    }
  }

  // ---------------------------------------------------------------------
  // Page coherence over whole runs against a server
  // ---------------------------------------------------------------------

  /** The OPEN of a fill, if it comes to one. */
  datatype Grant = Denied(errno: nat, handle: u64) | Granted(handle: u64)

  /** The server publishes; open, read and mmap enter; pages are filled and reclaimed. */
  datatype Move =
    | Publish(generation: u64)
    | Entry(answered: bool)
    | Filling(index: nat, answered: bool, grant: Grant, read: Read)
    | Drop(index: nat)

  datatype World = World(server: u64, file: File)

  function PingOf(server: u64, answered: bool): Ping {
    if answered then Reported(server) else PingFailed(EIO, 0)
  }

  function OpenOf(server: u64, grant: Grant): Open {
    match grant
    case Denied(errno, handle) => OpenFailed(errno, handle)
    case Granted(handle) => OpenedAs(handle, server)
  }

  /** Every PING and OPEN that is answered reports the server's generation. */
  function Played(w: World, m: Move): World {
    match m
    case Publish(g) => w.(server := g)
    case Entry(answered) => w.(file := Next(w.file, Enter(PingOf(w.server, answered))))
    case Filling(i, answered, grant, read) =>
      w.(file := Next(w.file, Fill(i, PingOf(w.server, answered), OpenOf(w.server, grant), read)))
    case Drop(i) => w.(file := Next(w.file, Reclaim(i)))
  }

  function Play(w: World, moves: seq<Move>): World {
    if moves == [] then w else Played(Play(w, moves[..|moves| - 1]), moves[|moves| - 1])
  }

  lemma PlaySnoc(w: World, moves: seq<Move>, m: Move)
    ensures Play(w, moves + [m]) == Played(Play(w, moves), m)
  {
    assert (moves + [m])[..|moves|] == moves;
    hide Played;
  }

  lemma {:induction false} PlayKeepsHandle(w: World, moves: seq<Move>)
    requires HandleFresh(w.file)
    ensures HandleFresh(Play(w, moves).file)
  {
    if moves != [] {
      PlayKeepsHandle(w, moves[..|moves| - 1]);
    }
  }

  /** Whatever happened before, a page just filled was read at the server's generation, which the inode then carries. */
  lemma FilledPageIsCurrent(server: u64, f: File, moves: seq<Move>, m: Move)
    requires New(f) && m.Filling?
    ensures
      var w := Play(World(server, f), moves);
      var w' := Played(w, m);
      Fills(w.file, PingOf(w.server, m.answered), OpenOf(w.server, m.grant), m.read) ==>
        m.index in w'.file.pages && w'.file.pages[m.index] == w'.file.generation == w.server
  {
    PlayKeepsHandle(World(server, f), moves);
  }

  /** Something was published and no open, read or mmap has asked the server since. */
  predicate Pending(moves: seq<Move>) {
    moves != [] &&
    var last := moves[|moves| - 1];
    last.Publish? || (last != Entry(true) && Pending(moves[..|moves| - 1]))
  }

  /** No page fill is the first to ask the server after something was published. */
  predicate EntriesSeeChangesFirst(moves: seq<Move>) {
    forall k :: 0 <= k < |moves| && moves[k].Filling? && moves[k].answered ==> !Pending(moves[..k])
  }

  /** Nothing cached, or the inode carries the server's generation. */
  predicate Synced(w: World) {
    w.file.pages == map[] || w.file.generation == w.server
  }

  lemma MoveKeeps(w: World, m: Move, pending: bool)
    requires HandleFresh(w.file) && Coherent(w.file) && (pending || Synced(w))
    requires m.Filling? && m.answered ==> !pending
    ensures
      var w' := Played(w, m);
      && HandleFresh(w'.file) && Coherent(w'.file)
      && (m.Publish? || (pending && m != Entry(true)) || Synced(w'))
  {
  }

  lemma {:induction false} PlayKeeps(server: u64, f: File, moves: seq<Move>)
    requires New(f) && EntriesSeeChangesFirst(moves)
    ensures
      var w := Play(World(server, f), moves);
      HandleFresh(w.file) && Coherent(w.file) && (Pending(moves) || Synced(w))
  {
    if moves != [] {
      hide Played;
      var n := |moves| - 1;
      var init, m := moves[..n], moves[n];
      forall k | 0 <= k < n && init[k].Filling? && init[k].answered ensures !Pending(init[..k]) {
        assert init[..k] == moves[..k] && init[k] == moves[k];
      }
      PlayKeeps(server, f, init);
      MoveKeeps(Play(World(server, f), init), m, Pending(init));
    }
  }

  /**
   * In every run where what the server publishes is first noticed at an open,
   * read or mmap, and not at a page fill, every cached page was filled at the
   * generation the inode carries.  From such an open, read or mmap until the
   * next publication, that is the server's own generation.
   */
  lemma PagesStayCoherent(server: u64, f: File, moves: seq<Move>)
    requires New(f) && EntriesSeeChangesFirst(moves)
    ensures
      var w := Play(World(server, f), moves);
      && Coherent(w.file)
      && (!Pending(moves) ==> forall i :: i in w.file.pages ==> w.file.pages[i] == w.server)
  {
    PlayKeeps(server, f, moves);
  }

  /**
   * A change first seen while filling a page makes the other pages stale for
   * good: the inode takes the new stamp, so later entries find nothing to do.
   */
  lemma FillHidesStalePage(f: File, i: nat, j: nat, g0: u64, g1: u64, h0: u64, h1: u64)
    requires New(f) && i != j && g0 != g1
    ensures
      var first, second := Filling(i, true, Granted(h0), ReadDone), Filling(j, true, Granted(h1), ReadDone);
      var w := Play(World(g0, f), [first, Publish(g1), second, Entry(true)]);
      w.file.generation == w.server == g1 && i in w.file.pages && w.file.pages[i] == g0
  {
    var first, second := Filling(i, true, Granted(h0), ReadDone), Filling(j, true, Granted(h1), ReadDone);
    var w0, publish := World(g0, f), Publish(g1);
    var moves := [first, publish, second, Entry(true)];
    PlaySnoc(w0, [], first);
    PlaySnoc(w0, [first], publish);
    PlaySnoc(w0, [first, publish], second);
    PlaySnoc(w0, [first, publish, second], Entry(true));
    assert [] + [first] == [first] && [first] + [publish] == [first, publish];
    assert [first, publish] + [second] == [first, publish, second];
    assert [first, publish, second] + [Entry(true)] == moves;
    hide Play;
    var w3 := Played(Played(Played(w0, first), publish), second);
    assert w3.file.generation == g1 && w3.file.pages[i] == g0;
  }
}
