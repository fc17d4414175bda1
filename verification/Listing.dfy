/** Reading a directory: the listing, the call that emits part of it, and any sequence of such calls. */
module Listing {
  import opened Basics
  import opened Errno
  import opened Inodes
  import opened Text
  import opened Namespace
  import opened Children

  datatype Type = Directory | Regular | Unknown

  datatype Entry = Entry(name: string, ino: bv64, kind: Type)

  /** What a caller's buffer holds, where it stands in the listing, and how much more it takes. */
  datatype Buffer = Buffer(emitted: seq<Entry>, pos: nat, room: nat)

  /** The caller's buffer: it accepts entries while there is room. */
  class DirContext {
    var pos: nat
    var room: nat
    var emitted: seq<Entry>

    ghost function State(): Buffer
      reads this
    {
      Buffer(emitted, pos, room)
    }

    constructor (pos: nat, room: nat)
      ensures this.pos == pos && this.room == room && emitted == []
    {
      this.pos, this.room, emitted := pos, room, [];
    }

    method Emit(e: Entry) returns (ok: bool)
      modifies this`room, this`emitted
      ensures ok == (old(room) > 0)
      ensures ok ==> room == old(room) - 1 && emitted == old(emitted) + [e]
      ensures !ok ==> room == 0 && emitted == old(emitted)
    {
      ok := room > 0;
      if ok {
        room, emitted := room - 1, emitted + [e];
      }
    }
  }

  predicate IsDirectory(kind: Kind) {
    kind == Root || kind == ControlDir || kind == NamespaceDir || kind == RemoteDir
  }

  function Dots(dir: Inode, dotdot: bv64): seq<Entry> {
    [Entry(".", dir.ino, Directory), Entry("..", dotdot, Directory)]
  }

  function Synthetic(kind: Kind): seq<Entry> {
    match kind
    case Root => [Entry(CONTROL_NAME, CONTROL_INO, Directory)]
    case ControlDir => [Entry("status", STATUS_INO, Regular), Entry("seeds", SEEDS_INO, Regular)]
    case _ => []
  }

  function ChildEntry(parent: string, name: string): Entry {
    Entry(name, NamespaceIno(ChildPath(parent, name)), Directory)
  }

  function ChildEntries(parent: string, names: seq<string>): (es: seq<Entry>)
    ensures |es| == |names|
    ensures forall i :: 0 <= i < |names| ==> es[i] == ChildEntry(parent, names[i])
  {
    seq(|names|, i requires 0 <= i < |names| => ChildEntry(parent, names[i]))
  }

  function Dynamic(seeds: seq<string>, dir: Inode): seq<Entry> {
    if dir.kind == Root || dir.kind == NamespaceDir then ChildEntries(dir.path, ChildNames(seeds, dir.path)) else []
  }

  /** The whole listing: dots, synthetic entries, distinct seed children in first-occurrence order. */
  function Full(seeds: seq<string>, dir: Inode, dotdot: bv64): seq<Entry> {
    Dots(dir, dotdot) + Synthetic(dir.kind) + Dynamic(seeds, dir)
  }

  /** The position a call that starts at p reaches. */
  function Reach(list: seq<Entry>, p: nat, room: nat): (q: nat)
    ensures q <= |list|
  {
    if p >= |list| then |list| else Min(|list|, p + room)
  }

  // ---------------------------------------------------------------------
  // What a server adds
  // ---------------------------------------------------------------------

  /** One entry of a READDIR reply. */
  datatype Child = Child(name: string, ino: bv64, mode: bv32)

  /** The outcome of a READDIR request. */
  datatype Reply = Failed(errno: nat) | Gives(children: seq<Child>)

  /** Whether the directory is listed by a server, which answers each cookie. */
  datatype Remote = Offline | Online(server: nat -> Reply)

  function TypeOf(mode: bv32): Type {
    if mode & 0xf000 == 0x4000 then Directory else if mode & 0xf000 == 0x8000 then Regular else Unknown
  }

  function RemoteEntry(c: Child): Entry {
    Entry(c.name, if c.ino != 0 then c.ino else NamespaceIno(c.name), TypeOf(c.mode))
  }

  function RemoteEntries(children: seq<Child>): (es: seq<Entry>)
    ensures |es| == |children|
    ensures forall i :: 0 <= i < |children| ==> es[i] == RemoteEntry(children[i])
  {
    seq(|children|, i requires 0 <= i < |children| => RemoteEntry(children[i]))
  }

  /** A remote entry keeps its name, has an inode number, its own if it brought one, and the type its mode says. */
  lemma RemoteEntryKeeps(c: Child)
    ensures
      var e := RemoteEntry(c);
      && e.name == c.name && e.ino != 0 && (c.ino != 0 ==> e.ino == c.ino)
      && (c.ino == 0 ==> e.ino == NamespaceIno(c.name))
      && (e.kind == Directory <==> (c.mode >> 12) & 15 == 4)
      && (e.kind == Regular <==> (c.mode >> 12) & 15 == 8)
  {
    InoIsSet(c.name);
    hide NamespaceIno;
  }

  lemma InoIsSet(name: string)
    ensures NamespaceIno(name) != 0
  {
    hide HashFrom;
  }

  predicate AsksServer(dir: Inode, remote: Remote) {
    (dir.kind == Root || dir.kind == RemoteDir) && remote.Online?
  }

  // ---------------------------------------------------------------------
  // One call
  // ---------------------------------------------------------------------

  /** The quadratic search that drops duplicates. */
  method IsSeen(seen: seq<string>, name: string) returns (duplicate: bool)
    ensures duplicate == (name in seen)
  {
    for j := 0 to |seen|
      invariant name !in seen[..j]
    {
      if seen[j] == name {
        return true;
      }
      assert seen[..j + 1] == seen[..j] + [seen[j]];
    }
    assert seen[..|seen|] == seen;
    return false;
  }

  /** The entries from position p up to position m. */
  function Window(list: seq<Entry>, p: nat, m: nat): seq<Entry>
    requires m <= |list|
  {
    if p < m then list[p..m] else []
  }

  /** From state a to state b the buffer took exactly the entries from p up to m. */
  predicate Took(a: Buffer, b: Buffer, list: seq<Entry>, p: nat, m: nat)
    requires m <= |list|
  {
    var taken := Window(list, p, m);
    b.emitted == a.emitted + taken && b.pos == a.pos + |taken| && b.room == a.room - |taken|
  }

  /** The buffer after it took the entries from p on, as far as it has room. */
  function Taken(a: Buffer, list: seq<Entry>, p: nat): Buffer {
    var taken := Window(list, p, Reach(list, p, a.room));
    Buffer(a.emitted + taken, a.pos + |taken|, a.room - |taken|)
  }

  /**
   * A call that asks the server: first the fixed entries, then, unless the
   * buffer refused one of them, the reply to the number of entries emitted
   * after them so far.
   */
  predicate RemoteCall(a: Buffer, b: Buffer, ret: nat, stamped: bool, head: seq<Entry>, server: nat -> Reply) {
    var fixed := Taken(a, head, a.pos);
    if Reach(head, a.pos, a.room) < |head| then ret == 0 && !stamped && b == fixed
    else
      var reply := server(if fixed.pos < |head| then 0 else fixed.pos - |head|);
      if reply.Failed? then ret == reply.errno && !stamped && b == fixed
      else ret == 0 && stamped && b == Taken(fixed, RemoteEntries(reply.children), 0)
  }

  function Offered(b: Buffer, e: Entry): Buffer
    requires b.room > 0
  {
    Buffer(b.emitted + [e], b.pos + 1, b.room - 1)
  }

  lemma TookNothing(a: Buffer, list: seq<Entry>, p: nat, m: nat)
    requires m <= |list| && m <= p
    ensures Took(a, a, list, p, m)
  {
  }

  lemma TookMore(a: Buffer, b: Buffer, list: seq<Entry>, p: nat, m: nat)
    requires m < |list| && Took(a, b, list, p, m)
    ensures m < p ==> Took(a, b, list, p, m + 1)
    ensures p <= m && b.room > 0 ==> Took(a, Offered(b, list[m]), list, p, m + 1)
  {
    if p <= m {
      assert Window(list, p, m + 1) == Window(list, p, m) + [list[m]];
    }
  }

  lemma TookUntilRefused(a: Buffer, b: Buffer, list: seq<Entry>, p: nat, m: nat)
    requires p <= m < |list| && Took(a, b, list, p, m) && b.room == 0
    ensures Reach(list, p, a.room) == m
  {
  }

  lemma TookAll(a: Buffer, b: Buffer, list: seq<Entry>, p: nat)
    requires Took(a, b, list, p, |list|)
    ensures Reach(list, p, a.room) == |list|
  {
  }

  /** What was taken determines the buffer. */
  lemma TookIsTaken(a: Buffer, b: Buffer, list: seq<Entry>, p: nat)
    requires Took(a, b, list, p, Reach(list, p, a.room))
    ensures b == Taken(a, list, p)
  {
  }

  /** What one more seed does to the names seen so far. */
  lemma OneMoreSeed(seeds: seq<string>, parent: string, i: nat)
    requires i < |seeds|
    ensures
      var seen := ChildNames(seeds[..i], parent);
      var list := ChildEntries(parent, ChildNames(seeds, parent));
      var next := NextComponent(seeds[i], parent);
      if next.None? || next.value in seen then ChildNames(seeds[..i + 1], parent) == seen
      else
        && ChildNames(seeds[..i + 1], parent) == seen + [next.value]
        && |seen| < |list| && list[|seen|] == ChildEntry(parent, next.value)
  {
    hide NextComponent, ChildEntry;
    ChildNamesGrow(seeds, parent, i + 1);
    assert seeds[..i + 1][..i] == seeds[..i];
  }

  /** Offers the child a seed shows, unless it was seen before or is among the first skip. */
  method OfferSeed(ctx: DirContext, seed: string, parent: string, skip: nat, seen: seq<string>)
    returns (ok: bool, seen': seq<string>)
    modifies ctx
    ensures
      var next := NextComponent(seed, parent);
      && seen' == (if next.None? || next.value in seen then seen else seen + [next.value])
      && (if |seen'| == |seen| || |seen| < skip then ok && ctx.State() == old(ctx.State())
          else if old(ctx.room) > 0 then ok && ctx.State() == Offered(old(ctx.State()), ChildEntry(parent, next.value))
          else !ok && ctx.State() == old(ctx.State()))
  {
    hide NextComponent, ChildEntry;
    ok, seen' := true, seen;
    var next := NextComponent(seed, parent);
    if next.None? {
      return;
    }
    var duplicate := IsSeen(seen, next.value);
    if duplicate {
      return;
    }
    seen' := seen + [next.value];
    if |seen| < skip {
      return;
    }
    ok := ctx.Emit(ChildEntry(parent, next.value));
    if ok {
      ctx.pos := ctx.pos + 1;
    }
  }

  /** One turn of the loop over the seeds. */
  method OfferNext(ctx: DirContext, seeds: seq<string>, i: nat, parent: string, skip: nat, seen: seq<string>,
                   ghost start: Buffer, ghost list: seq<Entry>)
    returns (ok: bool, seen': seq<string>)
    requires i < |seeds| && seen == ChildNames(seeds[..i], parent)
    requires list == ChildEntries(parent, ChildNames(seeds, parent)) && |seen| <= |list|
    requires Took(start, ctx.State(), list, skip, |seen|)
    modifies ctx
    ensures ok ==>
      && seen' == ChildNames(seeds[..i + 1], parent) && |seen'| <= |list|
      && Took(start, ctx.State(), list, skip, |seen'|)
    ensures !ok ==> Took(start, ctx.State(), list, skip, Reach(list, skip, start.room))
  {
    hide NextComponent, ChildNames, ChildEntries, ChildEntry, Took, Reach, Offered;
    OneMoreSeed(seeds, parent, i);
    if |seen| < |list| {
      TookMore(start, ctx.State(), list, skip, |seen|);
    }
    ok, seen' := OfferSeed(ctx, seeds[i], parent, skip, seen);
    if !ok {
      TookUntilRefused(start, ctx.State(), list, skip, |seen|);
    }
  }

  /** Emits the seed children after the first skip of them until the buffer refuses. */
  method EmitNamespaceChildren(ctx: DirContext, seeds: seq<string>, parent: string, skip: nat)
    modifies ctx
    ensures
      var list := ChildEntries(parent, ChildNames(seeds, parent));
      Took(old(ctx.State()), ctx.State(), list, skip, Reach(list, skip, old(ctx.room)))
  {
    ghost var list, start := ChildEntries(parent, ChildNames(seeds, parent)), ctx.State();
    var seen: seq<string> := [];
    assert ChildNames(seeds[..0], parent) == [];
    hide NextComponent, ChildNames, ChildEntries, ChildEntry, Took, Reach;
    TookNothing(start, list, skip, 0);
    for i := 0 to |seeds|
      invariant seen == ChildNames(seeds[..i], parent) && |seen| <= |list|
      invariant Took(start, ctx.State(), list, skip, |seen|)
    {
      var ok: bool;
      ok, seen := OfferNext(ctx, seeds, i, parent, skip, seen, start, list);
      if !ok {
        return;
      }
    }
    assert seeds[..|seeds|] == seeds;
    TookAll(start, ctx.State(), list, skip);
  }

  lemma TookPosition(a: Buffer, b: Buffer, list: seq<Entry>, m: nat)
    requires m <= |list| && Took(a, b, list, a.pos, m)
    ensures b.pos == if a.pos < m then m else a.pos
    ensures a.pos >= m ==> b == a
  {
  }

  /** Offers the entry the position stands on. */
  method OfferHere(ctx: DirContext, e: Entry, ghost start: Buffer, ghost list: seq<Entry>) returns (ok: bool)
    requires start.pos <= ctx.pos < |list| && list[ctx.pos] == e
    requires Took(start, ctx.State(), list, start.pos, ctx.pos)
    modifies ctx
    ensures ok ==> ctx.pos == old(ctx.pos) + 1 && Took(start, ctx.State(), list, start.pos, ctx.pos)
    ensures !ok ==> ctx.pos == old(ctx.pos) && Took(start, ctx.State(), list, start.pos, Reach(list, start.pos, start.room))
  {
    TookMore(start, ctx.State(), list, start.pos, ctx.pos);
    ok := ctx.Emit(e);
    if ok {
      ctx.pos := ctx.pos + 1;
    } else {
      TookUntilRefused(start, ctx.State(), list, start.pos, ctx.pos);
    }
  }

  /** The two dot entries, emitted by the directory helper of the kernel. */
  method EmitDots(ctx: DirContext, dir: Inode, dotdot: bv64, ghost list: seq<Entry>) returns (ok: bool)
    requires |list| >= 2 && list[..2] == Dots(dir, dotdot)
    modifies ctx
    ensures ok ==> Took(old(ctx.State()), ctx.State(), list, old(ctx.pos), 2)
    ensures !ok ==> Took(old(ctx.State()), ctx.State(), list, old(ctx.pos), Reach(list, old(ctx.pos), old(ctx.room)))
    ensures !ok ==> ctx.pos < 2
  {
    ghost var start := ctx.State();
    TookNothing(start, list, ctx.pos, if ctx.pos < 2 then ctx.pos else 2);
    assert list[0] == list[..2][0] && list[1] == list[..2][1];
    hide Took, Reach;
    if ctx.pos == 0 {
      ok := OfferHere(ctx, Entry(".", dir.ino, Directory), start, list);
      if !ok {
        return;
      }
    }
    if ctx.pos == 1 {
      ok := OfferHere(ctx, Entry("..", dotdot, Directory), start, list);
      if !ok {
        return;
      }
    }
    ok := true;
  }

  /** The fixed entries, from wherever the position stands among them. */
  method EmitSynthetic(ctx: DirContext, entries: seq<Entry>, ghost start: Buffer, ghost list: seq<Entry>) returns (ok: bool)
    requires |list| >= 2 + |entries| && list[2..2 + |entries|] == entries
    requires Took(start, ctx.State(), list, start.pos, 2)
    modifies ctx
    ensures ok ==> Took(start, ctx.State(), list, start.pos, 2 + |entries|)
    ensures !ok ==> Took(start, ctx.State(), list, start.pos, Reach(list, start.pos, start.room))
    ensures !ok ==> ctx.pos < 2 + |entries|
  {
    TookPosition(start, ctx.State(), list, 2);
    if start.pos >= 2 {
      TookNothing(start, list, start.pos, if start.pos < 2 + |entries| then start.pos else 2 + |entries|);
    }
    hide Took, Reach;
    ok := true;
    var index := if ctx.pos >= 2 then ctx.pos - 2 else 0;
    while index < |entries|
      invariant ctx.pos == index + 2 && ctx.pos >= start.pos
      invariant index <= |entries| ==> Took(start, ctx.State(), list, start.pos, ctx.pos)
      invariant index > |entries| ==> Took(start, ctx.State(), list, start.pos, 2 + |entries|)
    {
      assert entries[index] == list[2..2 + |entries|][index] == list[ctx.pos];
      ok := OfferHere(ctx, entries[index], start, list);
      if !ok {
        return;
      }
      index := index + 1;
    }
  }

  /** Emits the entries of a READDIR reply until the buffer refuses. */
  method EmitRemoteChildren(ctx: DirContext, children: seq<Child>)
    modifies ctx
    ensures ctx.State() == Taken(old(ctx.State()), RemoteEntries(children), 0)
  {
    ghost var list, start := RemoteEntries(children), ctx.State();
    TookNothing(start, list, 0, 0);
    hide Took, Reach, Taken, RemoteEntry;
    for i := 0 to |children|
      invariant Took(start, ctx.State(), list, 0, i)
    {
      TookMore(start, ctx.State(), list, 0, i);
      var ok := ctx.Emit(RemoteEntry(children[i]));
      if !ok {
        TookUntilRefused(start, ctx.State(), list, 0, i);
        TookIsTaken(start, ctx.State(), list, 0);
        return;
      }
      ctx.pos := ctx.pos + 1;
    }
    TookAll(start, ctx.State(), list, 0);
    TookIsTaken(start, ctx.State(), list, 0);
  }

  /** The windows of a head and of the tail after it make one window. */
  lemma WindowTail(head: seq<Entry>, tail: seq<Entry>, p: nat, skip: nat, m: nat)
    requires m <= |tail| && skip == (if p < |head| then 0 else p - |head|)
    ensures Window(head + tail, p, |head|) + Window(tail, skip, m) == Window(head + tail, p, |head| + m)
  {
    var list := head + tail;
    assert tail[..m] == list[|head|..|head| + m];
    if p < |head| {
      SliceSplit(list, p, |head|, |head| + m);
    } else if skip < m {
      assert tail[skip..m] == list[p..|head| + m];
    }
  }

  /** The rest of a listing, taken from where its head ended. */
  lemma TookTail(a: Buffer, b: Buffer, c: Buffer, head: seq<Entry>, tail: seq<Entry>, skip: nat)
    requires Took(a, b, head + tail, a.pos, |head|)
    requires skip == (if a.pos < |head| then 0 else a.pos - |head|)
    requires Took(b, c, tail, skip, Reach(tail, skip, b.room))
    ensures Took(a, c, head + tail, a.pos, Reach(head + tail, a.pos, a.room))
  {
    var list, m := head + tail, Reach(tail, skip, b.room);
    WindowTail(head, tail, a.pos, skip, m);
    assert Reach(list, a.pos, a.room) == |head| + m;
    hide Window;
    Reassociate(a.emitted, Window(list, a.pos, |head|), Window(tail, skip, m));
  }

  /** The dots and the fixed entries of a directory. */
  function Fixed(dir: Inode, dotdot: bv64): seq<Entry> {
    Dots(dir, dotdot) + Synthetic(dir.kind)
  }

  /** Emits the fixed entries; tail is what the listing goes on with. */
  method EmitFixed(ctx: DirContext, dir: Inode, dotdot: bv64, ghost tail: seq<Entry>) returns (ok: bool)
    modifies ctx
    ensures
      var head := Fixed(dir, dotdot);
      && (ok ==> Took(old(ctx.State()), ctx.State(), head + tail, old(ctx.pos), |head|))
      && (!ok ==> Took(old(ctx.State()), ctx.State(), head + tail, old(ctx.pos),
                       Reach(head + tail, old(ctx.pos), old(ctx.room))))
      && (ok <==> Reach(head, old(ctx.pos), old(ctx.room)) == |head|)
  {
    var entries := Synthetic(dir.kind);
    ghost var head := Fixed(dir, dotdot);
    ghost var list, start := head + tail, ctx.State();
    assert list[..2] == Dots(dir, dotdot) && list[2..2 + |entries|] == entries;
    hide Took, Reach, Synthetic;
    ok := EmitDots(ctx, dir, dotdot, list);
    if ok {
      ok := EmitSynthetic(ctx, entries, start, list);
    }
    FixedAllOrRefused(start, ctx.State(), head, tail, ok);
  }

  /** Stopping short of the fixed entries and taking all of them are told apart by the room there was. */
  lemma FixedAllOrRefused(a: Buffer, b: Buffer, head: seq<Entry>, tail: seq<Entry>, ok: bool)
    requires ok ==> Took(a, b, head + tail, a.pos, |head|)
    requires !ok ==> Took(a, b, head + tail, a.pos, Reach(head + tail, a.pos, a.room)) && b.pos < |head|
    ensures ok <==> Reach(head, a.pos, a.room) == |head|
  {
  }

  /**
   * One readdir call.  Without a server it emits, from any position, the next
   * entries of the whole listing until the buffer refuses, and moves the
   * position by exactly the number of entries emitted.  The directory is
   * stamped with the mount's generation exactly when a server was asked and
   * answered.  An inode without context data is refused.
   */
  method IterateShared(ctx: DirContext, seeds: seq<string>, inode: Option<Inode>, dotdot: bv64, remote: Remote)
    returns (ret: nat, stamped: bool)
    modifies ctx
    ensures inode.None? ==> ret == EIO && ctx.State() == old(ctx.State())
    ensures inode.Some? && inode.value.kind in {StatusFile, SeedsFile, RemoteFile} ==>
      ret == ENOTDIR && ctx.State() == old(ctx.State())
    ensures inode.Some? && inode.value.kind in {Root, RemoteDir} && remote.Online? ==>
      RemoteCall(old(ctx.State()), ctx.State(), ret, stamped, Fixed(inode.value, dotdot), remote.server)
    ensures inode.Some? &&
            (inode.value.kind in {ControlDir, NamespaceDir} ||
             (inode.value.kind in {Root, RemoteDir} && remote.Offline?)) ==>
      var list := Full(seeds, inode.value, dotdot);
      ret == 0 && Took(old(ctx.State()), ctx.State(), list, old(ctx.pos), Reach(list, old(ctx.pos), old(ctx.room)))
    ensures stamped ==> inode.Some? && inode.value.kind in {Root, RemoteDir} && remote.Online?
  {
    stamped := false;
    if inode.None? {
      return EIO, false;
    }
    var dir := inode.value;
    if !IsDirectory(dir.kind) {
      return ENOTDIR, false;
    }
    if AsksServer(dir, remote) {
      ret, stamped := IterateRemote(ctx, dir, dotdot, remote.server);
      return;
    }
    ret := 0;
    IterateSeeds(ctx, seeds, dir, dotdot);
  }

  method IterateSeeds(ctx: DirContext, seeds: seq<string>, dir: Inode, dotdot: bv64)
    modifies ctx
    ensures
      var list := Full(seeds, dir, dotdot);
      Took(old(ctx.State()), ctx.State(), list, old(ctx.pos), Reach(list, old(ctx.pos), old(ctx.room)))
  {
    ghost var head, tail, start := Fixed(dir, dotdot), Dynamic(seeds, dir), ctx.State();
    hide Took, Reach, Window, Fixed, ChildEntries;
    var ok := EmitFixed(ctx, dir, dotdot, tail);
    if !ok {
      return;
    }
    TookPosition(start, ctx.State(), head + tail, |head|);
    if dir.kind == Root || dir.kind == NamespaceDir {
      var skip := DynamicSkip(ctx, dir, dotdot);
      ghost var middle := ctx.State();
      EmitNamespaceChildren(ctx, seeds, dir.path, skip);
      TookTail(start, middle, ctx.State(), head, tail, skip);
    } else {
      assert head + tail == head;
      TookAll(start, ctx.State(), head, start.pos);
    }
  }

  /** How many entries after the fixed ones have been emitted. */
  method DynamicSkip(ctx: DirContext, dir: Inode, dotdot: bv64) returns (skip: nat)
    ensures skip == if ctx.pos < |Fixed(dir, dotdot)| then 0 else ctx.pos - |Fixed(dir, dotdot)|
  {
    var count := |Synthetic(dir.kind)|;
    skip := if ctx.pos >= 2 + count then ctx.pos - 2 - count else 0;
  }

  method IterateRemote(ctx: DirContext, dir: Inode, dotdot: bv64, server: nat -> Reply)
    returns (ret: nat, stamped: bool)
    modifies ctx
    ensures RemoteCall(old(ctx.State()), ctx.State(), ret, stamped, Fixed(dir, dotdot), server)
  {
    ghost var head, start := Fixed(dir, dotdot), ctx.State();
    assert head + [] == head;
    hide Took, Reach, Window, Taken, Fixed;
    ret, stamped := 0, false;
    var ok := EmitFixed(ctx, dir, dotdot, []);
    TookIsTaken(start, ctx.State(), head, start.pos);
    if !ok {
      ReachBound(head, start.pos, start.room);
      return;
    }
    var cookie := DynamicSkip(ctx, dir, dotdot);
    var reply := server(cookie);
    if reply.Failed? {
      return reply.errno, false;
    }
    EmitRemoteChildren(ctx, reply.children);
    stamped := true;
  }

  lemma ReachBound(list: seq<Entry>, p: nat, room: nat)
    ensures Reach(list, p, room) <= |list|
  {
  }

  /** The server takes a cookie as the number of entries to skip, and answers with some of what follows. */
  ghost predicate Positional(server: nat -> Reply, all: seq<Child>) {
    forall c: nat :: server(c).Gives? &&
      if c <= |all| then server(c).children <= all[c..] else server(c).children == []
  }

  /** The server always answers with at least one of the entries that are left. */
  ghost predicate GivesSome(server: nat -> Reply, all: seq<Child>) {
    forall c: nat :: c < |all| ==> server(c).Gives? && server(c).children != []
  }

  /** A call with room emits something as long as anything is left. */
  lemma RemoteCallProgresses(a: Buffer, b: Buffer, stamped: bool, head: seq<Entry>, server: nat -> Reply, all: seq<Child>)
    requires RemoteCall(a, b, 0, stamped, head, server)
    ensures a.room > 0 && a.pos < |head| + |all| && GivesSome(server, all) ==> b.pos > a.pos
  {
    if a.pos >= |head| && a.pos < |head| + |all| && GivesSome(server, all) {
      assert Taken(a, head, a.pos) == a && server(a.pos - |head|).children != [];
    }
  }

  /** The directory is stamped exactly when no fixed entry was refused and the server answered. */
  lemma StampedExactlyWhenAnswered(a: Buffer, b: Buffer, ret: nat, stamped: bool, head: seq<Entry>, server: nat -> Reply)
    requires RemoteCall(a, b, ret, stamped, head, server)
    ensures stamped <==> a.pos + a.room >= |head| && server(if a.pos < |head| then 0 else a.pos - |head|).Gives?
  {
    hide RemoteEntries;
    if a.pos < |head| && a.pos + a.room >= |head| {
      assert Taken(a, head, a.pos).pos == |head|;
    }
  }

  /** A READDIR that fails is reported, and nothing is emitted or stamped for it. */
  lemma RemoteFailureIsReported(a: Buffer, b: Buffer, ret: nat, stamped: bool, head: seq<Entry>, server: nat -> Reply)
    requires RemoteCall(a, b, ret, stamped, head, server)
    requires a.pos >= |head| && server(a.pos - |head|).Failed?
    ensures ret == server(a.pos - |head|).errno && !stamped && b == a
  {
    assert Taken(a, head, a.pos) == a;
  }

  /** What a buffer takes is a stretch of the list. */
  lemma TakenIsStretch(a: Buffer, list: seq<Entry>, p: nat)
    requires p <= |list|
    ensures
      var b := Taken(a, list, p);
      var q := p + (b.pos - a.pos);
      a.pos <= b.pos && q <= |list| && b.emitted == a.emitted + list[p..q] && q == Reach(list, p, a.room)
  {
  }

  /** A stretch of a reply is the stretch of the listing that the cookie stands for. */
  lemma StretchOfReply(head: seq<Entry>, all: seq<Child>, part: seq<Child>, skip: nat, n: nat)
    requires skip <= |all| && part <= all[skip..] && n <= |part|
    ensures
      var list := head + RemoteEntries(all);
      |head| + skip + n <= |list| && RemoteEntries(part)[..n] == list[|head| + skip..|head| + skip + n]
  {
    hide RemoteEntry;
    assert forall i :: 0 <= i < |part| ==> part[i] == all[skip..][i] == all[skip + i];
  }

  /** The emitted entries are those of the list between two positions. */
  predicate ReadOn(a: Buffer, b: Buffer, list: seq<Entry>) {
    && (a.pos <= |list| ==> a.pos <= b.pos <= |list| && b.emitted == a.emitted + list[a.pos..b.pos])
    && (a.pos > |list| ==> b == a)
  }

  lemma ReadOnOn(a: Buffer, b: Buffer, c: Buffer, list: seq<Entry>)
    requires ReadOn(a, b, list) && ReadOn(b, c, list)
    ensures ReadOn(a, c, list)
  {
    if a.pos <= |list| {
      SliceSplit(list, a.pos, b.pos, c.pos);
      Reassociate(a.emitted, list[a.pos..b.pos], list[b.pos..c.pos]);
    }
  }

  /** The fixed entries of a call. */
  lemma FixedReadsOn(a: Buffer, head: seq<Entry>, tail: seq<Entry>)
    ensures ReadOn(a, Taken(a, head, a.pos), head + tail)
    ensures Reach(head, a.pos, a.room) == |head| ==> Taken(a, head, a.pos).pos >= |head|
  {
    if a.pos <= |head| {
      TakenIsStretch(a, head, a.pos);
      hide Taken;
      assert (head + tail)[a.pos..Taken(a, head, a.pos).pos] == head[a.pos..Taken(a, head, a.pos).pos];
    } else {
      assert Taken(a, head, a.pos) == a;
      assert a.pos <= |head + tail| ==> (head + tail)[a.pos..a.pos] == [];
    }
  }

  /** The rest of a call, after all the fixed entries have been emitted. */
  lemma ReplyReadsOn(c: Buffer, head: seq<Entry>, server: nat -> Reply, all: seq<Child>)
    requires Positional(server, all) && c.pos >= |head|
    ensures server(c.pos - |head|).Gives?
    ensures ReadOn(c, Taken(c, RemoteEntries(server(c.pos - |head|).children), 0), head + RemoteEntries(all))
  {
    var skip := c.pos - |head|;
    assert server(skip).Gives?;
    var part := server(skip).children;
    hide RemoteEntry;
    if skip <= |all| {
      assert part <= all[skip..];
      TakenIsStretch(c, RemoteEntries(part), 0);
      hide Taken, Positional;
      StretchOfReply(head, all, part, skip, Taken(c, RemoteEntries(part), 0).pos - c.pos);
    } else {
      assert part == [];
    }
  }

  /** Against such a server, too, a call emits exactly the next part of one listing. */
  lemma RemoteCallReadsOn(a: Buffer, b: Buffer, stamped: bool, head: seq<Entry>, server: nat -> Reply, all: seq<Child>)
    requires Positional(server, all) && RemoteCall(a, b, 0, stamped, head, server)
    ensures ReadOn(a, b, head + RemoteEntries(all))
  {
    var fixed := Taken(a, head, a.pos);
    FixedReadsOn(a, head, RemoteEntries(all));
    hide ReadOn, Taken, RemoteEntries, Positional;
    if Reach(head, a.pos, a.room) == |head| {
      ReplyReadsOn(fixed, head, server, all);
      ReadOnOn(a, fixed, b, head + RemoteEntries(all));
    }
  }

  /** Each seed child is listed once, under the inode number lookup gives it. */
  lemma ListedAsLookedUp(seeds: seq<string>, dir: Inode, i: nat)
    requires IsNamespaceDir(dir) && forall j :: 0 <= j < |seeds| ==> !Unlisted(seeds[j], dir)
    requires i < |Dynamic(seeds, dir)|
    ensures
      var list := Dynamic(seeds, dir);
      && Lookup(seeds, dir, list[i].name) == Some(Inode(NamespaceDir, ChildPath(dir.path, list[i].name), list[i].ino))
      && forall j :: 0 <= j < |list| && j != i ==> list[j].name != list[i].name
  {
    hide NamespaceIno, ChildNames, Lookup, Unlisted;
    var names := ChildNames(seeds, dir.path);
    AgreesOn(seeds, dir, names[i]);
    ChildNamesAreShown(seeds, dir.path, names[i]);
    ResolvesExactly(seeds, dir, names[i]);
  }

  // ---------------------------------------------------------------------
  // The whole listing against lookup
  // ---------------------------------------------------------------------

  /** The entries every listing starts with. */
  lemma FixedEntries(seeds: seq<string>, dir: Inode, dotdot: bv64)
    ensures
      var list := Full(seeds, dir, dotdot);
      && |list| >= 2
      && list[0] == Entry(".", dir.ino, Directory) && list[1] == Entry("..", dotdot, Directory)
      && (dir.kind == ControlDir ==> list[2..] == [Entry("status", 3, Regular), Entry("seeds", 4, Regular)])
      && (dir.kind == Root ==> |list| >= 3 && list[2] == Entry(".monofs", 2, Directory))
      && (dir.kind == RemoteDir ==> list[2..] == [])
  {
    hide ChildEntries;
  }

  /** The entry is listed as the inode it names: same number, and a directory exactly when that is one. */
  predicate ListedAs(e: Entry, inode: Inode) {
    && e.ino == inode.ino
    && e.kind == if inode.kind in {Root, ControlDir, NamespaceDir, RemoteDir} then Directory else Regular
  }

  /** Where a listing can be compared with lookup: any directory, of a synthetic one those without unlisted seeds. */
  predicate Comparable(seeds: seq<string>, dir: Inode) {
    || dir.kind == ControlDir || dir.kind == RemoteDir
    || (IsNamespaceDir(dir) && forall i :: 0 <= i < |seeds| ==> !Unlisted(seeds[i], dir))
  }

  /** In the control directory and in a remote one nothing depends on the seeds. */
  lemma FixedAgrees(seeds: seq<string>, dir: Inode, dotdot: bv64, name: string)
    requires dir.kind == ControlDir || dir.kind == RemoteDir
    ensures
      var list := Full(seeds, dir, dotdot);
      && (Lookup(seeds, dir, name).Some? <==> exists i :: 2 <= i < |list| && list[i].name == name)
      && (forall i :: 2 <= i < |list| && list[i].name == name ==> ListedAs(list[i], Lookup(seeds, dir, name).value))
    ensures dir.kind == ControlDir ==>
      && Lookup(seeds, dir, "status") == Some(Inode(StatusFile, "status", 3))
      && Lookup(seeds, dir, "seeds") == Some(Inode(SeedsFile, "seeds", 4))
  {
    var list := Full(seeds, dir, dotdot);
    FixedEntries(seeds, dir, dotdot);
    if dir.kind == ControlDir {
      assert list[2] == list[2..][0] && list[3] == list[2..][1] && |list| == 4;
    }
  }

  lemma FullIsFixedAndChildren(seeds: seq<string>, dir: Inode, dotdot: bv64)
    requires IsNamespaceDir(dir)
    ensures Full(seeds, dir, dotdot) == Fixed(dir, dotdot) + ChildEntries(dir.path, ChildNames(seeds, dir.path))
  {
    hide ChildNames, ChildEntries, Dots, Synthetic;
  }

  lemma FixedCount(dir: Inode, dotdot: bv64)
    requires IsNamespaceDir(dir)
    ensures |Fixed(dir, dotdot)| == if dir.kind == Root then 3 else 2
  {
  }

  /** The seed children stand after the fixed entries. */
  lemma FullShape(seeds: seq<string>, dir: Inode, dotdot: bv64)
    requires IsNamespaceDir(dir)
    ensures
      var list, names, n := Full(seeds, dir, dotdot), ChildNames(seeds, dir.path), if dir.kind == Root then 3 else 2;
      |list| == n + |names| && forall j :: 0 <= j < |names| ==> list[n + j] == ChildEntry(dir.path, names[j])
  {
    hide *;
    FullIsFixedAndChildren(seeds, dir, dotdot);
    FixedCount(dir, dotdot);
    var head, names := Fixed(dir, dotdot), ChildNames(seeds, dir.path);
    AppendShape(head, ChildEntries(dir.path, names));
  }

  lemma AppendShape(a: seq<Entry>, b: seq<Entry>)
    ensures |a + b| == |a| + |b| && forall j :: 0 <= j < |b| ==> (a + b)[|a| + j] == b[j]
  {
  }

  /** A seed child that is listed is what lookup finds. */
  lemma ChildAgrees(seeds: seq<string>, dir: Inode, name: string)
    requires IsNamespaceDir(dir) && Comparable(seeds, dir) && IsName(name)
    ensures name in ChildNames(seeds, dir.path) ==>
      Lookup(seeds, dir, name).Some? && ListedAs(ChildEntry(dir.path, name), Lookup(seeds, dir, name).value)
    ensures Lookup(seeds, dir, name).Some? ==>
      name in ChildNames(seeds, dir.path) || (dir.kind == Root && name == CONTROL_NAME)
  {
    AgreesOn(seeds, dir, name);
    ResolvesExactly(seeds, dir, name);
    LookupKinds(seeds, dir, name);
    hide ChildNames, Lookup, NamespaceIno, Unlisted;
  }

  lemma SyntheticAgrees(seeds: seq<string>, dir: Inode, dotdot: bv64, name: string)
    requires IsNamespaceDir(dir) && Comparable(seeds, dir) && IsName(name)
    ensures
      var list := Full(seeds, dir, dotdot);
      && (Lookup(seeds, dir, name).Some? <==> exists i :: 2 <= i < |list| && list[i].name == name)
      && (forall i :: 2 <= i < |list| && list[i].name == name ==> ListedAs(list[i], Lookup(seeds, dir, name).value))
  {
    hide ChildNames, Lookup, NamespaceIno, Full, Comparable;
    var list, names := Full(seeds, dir, dotdot), ChildNames(seeds, dir.path);
    var n := if dir.kind == Root then 3 else 2;
    FixedEntries(seeds, dir, dotdot);
    FullShape(seeds, dir, dotdot);
    ChildAgrees(seeds, dir, name);
    LookupKinds(seeds, dir, name);
    forall i | 2 <= i < |list| && list[i].name == name
      ensures Lookup(seeds, dir, name).Some? && ListedAs(list[i], Lookup(seeds, dir, name).value)
    {
      if i >= n {
        assert list[n + (i - n)] == ChildEntry(dir.path, names[i - n]);
      }
    }
    if name in names {
      var j :| 0 <= j < |names| && names[j] == name;
      assert list[n + j].name == name;
    }
  }

  /** In a synthetic directory lookup finds the control directory or a synthetic one. */
  lemma LookupKinds(seeds: seq<string>, dir: Inode, name: string)
    requires IsNamespaceDir(dir)
    ensures
      var r := Lookup(seeds, dir, name);
      && (r.Some? ==> r.value.kind == NamespaceDir || r.value == Inode(ControlDir, CONTROL_NAME, CONTROL_INO))
      && (dir.kind == Root && name == CONTROL_NAME ==> r == Some(Inode(ControlDir, CONTROL_NAME, CONTROL_INO)))
      && (r.Some? && r.value.kind == ControlDir ==> dir.kind == Root && name == CONTROL_NAME)
  {
    hide NamespaceIno, IsSeedOrParent;
    if dir.path != [] {
      ControlNameHasNoSlash(dir.path, name);
    }
  }

  /**
   * Without a server, in every directory in which they can be compared and for
   * every name a walk can ask for: lookup finds the name exactly when the
   * listing has it after the dots, and every such entry has the inode number
   * and the type of what lookup finds.  Files have neither.
   */
  lemma WholeListingAgreesWithLookup(seeds: seq<string>, dir: Inode, dotdot: bv64, name: string)
    requires IsName(name)
    ensures dir.kind in {StatusFile, SeedsFile, RemoteFile} ==> Lookup(seeds, dir, name) == None
    ensures
      var list := Full(seeds, dir, dotdot);
      Comparable(seeds, dir) ==>
        && (Lookup(seeds, dir, name).Some? <==> exists i :: 2 <= i < |list| && list[i].name == name)
        && (forall i :: 2 <= i < |list| && list[i].name == name ==> ListedAs(list[i], Lookup(seeds, dir, name).value))
  {
    if dir.kind == ControlDir || dir.kind == RemoteDir {
      FixedAgrees(seeds, dir, dotdot, name);
    } else if Comparable(seeds, dir) {
      SyntheticAgrees(seeds, dir, dotdot, name);
    }
  }

  function NamesOf(list: seq<Entry>): (names: seq<string>)
    ensures |names| == |list| && forall i :: 0 <= i < |list| ==> names[i] == list[i].name
  {
    seq(|list|, i requires 0 <= i < |list| => list[i].name)
  }

  /** The names every listing of a synthetic directory has. */
  function FixedNames(kind: Kind): seq<string> {
    if kind == Root then [".", "..", CONTROL_NAME] else [".", ".."]
  }

  lemma FullNames(seeds: seq<string>, dir: Inode, dotdot: bv64)
    requires IsNamespaceDir(dir)
    ensures NamesOf(Full(seeds, dir, dotdot)) == FixedNames(dir.kind) + ChildNames(seeds, dir.path)
  {
    hide ChildNames, NamespaceIno;
  }

  lemma DistinctAppend(a: seq<string>, b: seq<string>)
    requires Distinct(a) && Distinct(b)
    ensures Distinct(a + b) <==> forall i :: 0 <= i < |a| ==> a[i] !in b
  {
    var all := a + b;
    assert forall j :: 0 <= j < |b| ==> all[|a| + j] == b[j];
    assert forall i :: 0 <= i < |a| ==> all[i] == a[i];
  }

  /** The seed shows a name the listing has anyway. */
  predicate Repeats(seed: string, dir: Inode) {
    DotComponent(seed, dir.path) || (dir.kind == Root && SeedOrParent(seed, CONTROL_NAME))
  }

  lemma RepeatsShows(seed: string, dir: Inode)
    requires IsNamespaceDir(dir)
    ensures Repeats(seed, dir) <==>
      || NextComponent(seed, dir.path) == Some(".")
      || NextComponent(seed, dir.path) == Some("..")
      || (dir.kind == Root && NextComponent(seed, dir.path) == Some(CONTROL_NAME))
  {
    NextComponentIsChildTest(seed, dir.path, ".");
    NextComponentIsChildTest(seed, dir.path, "..");
    NextComponentIsChildTest(seed, dir.path, CONTROL_NAME);
    hide NextComponent, SeedOrParent;
  }

  /** The whole listing of a synthetic directory names everything once, if and only if no seed repeats a fixed name. */
  lemma EachNameListedOnce(seeds: seq<string>, dir: Inode, dotdot: bv64)
    requires IsNamespaceDir(dir)
    ensures Distinct(NamesOf(Full(seeds, dir, dotdot))) <==> (forall i :: 0 <= i < |seeds| ==> !Repeats(seeds[i], dir))
  {
    hide NextComponent, Repeats, ChildNames, NamespaceIno, NamesOf, Full;
    var fixed, names := FixedNames(dir.kind), ChildNames(seeds, dir.path);
    FullNames(seeds, dir, dotdot);
    ChildNamesAreShown(seeds, dir.path, ".");
    ChildNamesAreShown(seeds, dir.path, "..");
    ChildNamesAreShown(seeds, dir.path, CONTROL_NAME);
    DistinctAppend(fixed, names);
    assert (forall i :: 0 <= i < |fixed| ==> fixed[i] !in names) <==>
      "." !in names && ".." !in names && (dir.kind == Root ==> CONTROL_NAME !in names) by {
      assert fixed[0] == "." && fixed[1] == ".." && (dir.kind == Root ==> fixed[2] == CONTROL_NAME);
    }
    forall i | 0 <= i < |seeds| {
      RepeatsShows(seeds[i], dir);
    }
  }

  // ---------------------------------------------------------------------
  // Any sequence of calls
  // ---------------------------------------------------------------------

  /** The state after one call for each of the given rooms. */
  function AfterCalls(b: Buffer, list: seq<Entry>, rooms: seq<nat>): Buffer
    decreases rooms
  {
    if rooms == [] then b else AfterCalls(Taken(b.(room := rooms[0]), list, b.pos), list, rooms[1..])
  }

  lemma {:induction false} CallsFrom(b: Buffer, list: seq<Entry>, rooms: seq<nat>)
    requires b.pos <= |list| && b.emitted == list[..b.pos]
    ensures
      var e := AfterCalls(b, list, rooms);
      e.pos == Min(|list|, b.pos + Sum(rooms)) && e.emitted == list[..e.pos]
    decreases rooms
  {
    if rooms != [] {
      var c := Taken(b.(room := rooms[0]), list, b.pos);
      assert c.pos == Min(|list|, b.pos + rooms[0]);
      assert c.emitted == list[..c.pos];
      CallsFrom(c, list, rooms[1..]);
    }
  }

  /**
   * However the caller's buffers cut the calls, reading from position zero
   * yields a prefix of the listing with nothing lost or repeated, and the whole
   * listing as soon as the buffers held that many entries in all.
   */
  lemma CallsYieldTheListing(list: seq<Entry>, rooms: seq<nat>)
    ensures
      var e := AfterCalls(Buffer([], 0, 0), list, rooms);
      && e.emitted == list[..Min(|list|, Sum(rooms))]
      && e.pos == |e.emitted|
      && (Sum(rooms) >= |list| ==> e.emitted == list)
  {
    CallsFrom(Buffer([], 0, 0), list, rooms);
    assert list[..|list|] == list;
  }

  /**
   * The caller's side of reading a directory: one call for each buffer, from
   * position zero on.  The calls together emit the start of the listing, and
   * all of it as soon as the buffers held that many entries in all.
   */
  method ReadDirectory(ctx: DirContext, seeds: seq<string>, dir: Inode, dotdot: bv64, rooms: seq<nat>)
    requires dir.kind in {Root, ControlDir, NamespaceDir, RemoteDir} && ctx.pos == 0 && ctx.emitted == []
    modifies ctx
    ensures
      var list := Full(seeds, dir, dotdot);
      && ctx.emitted == list[..Min(|list|, Sum(rooms))]
      && ctx.pos == |ctx.emitted|
      && (Sum(rooms) >= |list| ==> ctx.emitted == list)
  {
    ghost var list := Full(seeds, dir, dotdot);
    CallsYieldTheListing(list, rooms);
    ctx.room := 0;
    hide Took, Reach, Full, Taken, AfterCalls;
    var rest := rooms;
    while rest != []
      invariant AfterCalls(ctx.State(), list, rest) == AfterCalls(Buffer([], 0, 0), list, rooms)
      decreases |rest|
    {
      NextCall(ctx.State(), list, rest);
      ctx.room := rest[0];
      ghost var start := ctx.State();
      var ret, stamped := IterateShared(ctx, seeds, Some(dir), dotdot, Offline);
      TookIsTaken(start, ctx.State(), list, start.pos);
      rest := rest[1..];
    }
    NoMoreCalls(ctx.State(), list);
  }

  lemma NextCall(b: Buffer, list: seq<Entry>, rooms: seq<nat>)
    requires rooms != []
    ensures AfterCalls(b, list, rooms) == AfterCalls(Taken(b.(room := rooms[0]), list, b.pos), list, rooms[1..])
  {
    hide Taken;
  }

  lemma NoMoreCalls(b: Buffer, list: seq<Entry>)
    ensures AfterCalls(b, list, []) == b
  {
  }
}
