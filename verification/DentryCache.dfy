/**
 * Cached names under remote directories.  Each is stamped with the namespace
 * generation its LOOKUP reply carried, and is used again only while a PING
 * still reports that generation.
 */
module DentryCache {
  import opened Basics
  import opened Bytes
  import opened Errno
  import opened Inodes

  type ObjectId = seq<byte>

  /** What a LOOKUP of a name answers. */
  datatype Answer = NotFound | Found(objectId: ObjectId, isDir: bool)

  /** The server: its generation value determines what every name means. */
  type Contents = (u64, ObjectId, string) -> Answer

  predicate RemoteCacheable(kind: Kind) {
    kind == Root || kind == RemoteDir || kind == RemoteFile
  }

  // ---------------------------------------------------------------------
  // The operations, on the kernel's own objects
  // ---------------------------------------------------------------------

  class InodeCtx {
    const kind: Kind
    const objectId: Option<ObjectId>
    var generation: u64

    constructor (kind: Kind, objectId: Option<ObjectId>, generation: u64)
      ensures this.kind == kind && this.objectId == objectId && this.generation == generation
    {
      this.kind, this.objectId, this.generation := kind, objectId, generation;
    }
  }

  class DentryObject {
    const isRoot: bool
    const parent: ObjectId
    const name: string
    const inode: InodeCtx?
    var time: u64

    constructor (parent: ObjectId, name: string, inode: InodeCtx?, time: u64)
      ensures this.parent == parent && this.name == name && this.inode == inode && this.time == time && !isRoot
    {
      this.isRoot, this.parent, this.name, this.inode, this.time := false, parent, name, inode, time;
    }

    /** The cached entry as a value. */
    ghost function Entry(): Dentry
      reads this, inode
    {
      Dentry(parent, name, time,
             if inode == null then None else Some(Ctx(inode.kind == RemoteDir, inode.objectId, inode.generation)))
    }
  }

  /** The part of the mount's connection that the cache looks at. */
  class Connection {
    var connected: bool
    var generation: u64

    constructor (connected: bool, generation: u64)
      ensures this.connected == connected && this.generation == generation
    {
      this.connected, this.generation := connected, generation;
    }
  }

  datatype Verdict = Keep | Invalid | Error(errno: nat)

  /**
   * Decides whether a cached name may be used.  The root is restamped instead
   * of tested; of the other names, those of remote objects and those known to
   * be missing are kept exactly when every stamp they carry is the server's.
   */
  method Revalidate(fsi: Connection, d: DentryObject, rcuWalk: bool, ping: Ping) returns (v: Verdict)
    modifies fsi`generation, d`time, d.inode
    ensures rcuWalk ==> v == Error(ECHILD)
    ensures !rcuWalk && !fsi.connected ==> v == Keep
    ensures (!rcuWalk && d.inode != null && d.inode.kind in {ControlDir, StatusFile, SeedsFile, NamespaceDir}) ==>
      v == Keep
    ensures !rcuWalk && fsi.connected && (d.inode == null || d.inode.kind in {Root, RemoteDir, RemoteFile}) ==>
      && fsi.generation == (if ping.PingFailed? then ping.learned else ping.generation)
      && (ping.PingFailed? ==> v == Error(ping.errno))
      && (ping.Reported? && d.isRoot ==>
            v == Keep && d.time == ping.generation && (d.inode != null ==> d.inode.generation == ping.generation))
      && (ping.Reported? && !d.isRoot ==>
            v == if d.time == ping.generation &&
                    (d.inode != null && d.inode.objectId.Some? ==> d.inode.generation == ping.generation)
                 then Keep else Invalid)
    ensures rcuWalk || !fsi.connected ==> fsi.generation == old(fsi.generation)
    ensures d.inode != null && d.inode.kind in {ControlDir, StatusFile, SeedsFile, NamespaceDir} ==>
      fsi.generation == old(fsi.generation) && d.Entry() == old(d.Entry())
    ensures !d.isRoot || ping.PingFailed? || rcuWalk || !fsi.connected ==> d.Entry() == old(d.Entry())
  {
    if rcuWalk {
      return Error(ECHILD);
    }
    if !fsi.connected {
      return Keep;
    }
    if d.inode != null && !RemoteCacheable(d.inode.kind) {
      return Keep;
    }
    if ping.PingFailed? {
      fsi.generation := ping.learned;
      return Error(ping.errno);
    }
    var generation := ping.generation;
    fsi.generation := generation;
    if d.isRoot {
      d.time := generation;
      if d.inode != null {
        d.inode.generation := generation;
      }
      return Keep;
    }
    if d.time != generation {
      return Invalid;
    }
    if d.inode != null && d.inode.objectId.Some? && d.inode.generation != generation {
      return Invalid;
    }
    return Keep;
  }

  /** A LOOKUP that failed, leaving the mount with some learned generation, or its answer and generation. */
  datatype LookupReply = LookupFailed(errno: nat, learned: u64) | Answered(generation: u64, answer: Answer)

  /**
   * A name looked up under a remote directory: cached positive or negative,
   * stamped with the reply's generation.  Nothing is cached when LOOKUP fails.
   */
  method LookupRemote(fsi: Connection, parent: ObjectId, name: string, reply: LookupReply)
    returns (ret: nat, d: DentryObject?)
    requires reply.LookupFailed? ==> reply.errno != 0
    modifies fsi`generation
    ensures d == null <==> ret != 0
    ensures d != null ==> fresh(d) && (d.inode != null ==> fresh(d.inode))
    ensures name == "" ==>
      && fsi.generation == old(fsi.generation)
      && ret == 0 && d.Entry() == Dentry(parent, name, fsi.generation, None)
    ensures name != "" && reply.LookupFailed? ==> ret == reply.errno && fsi.generation == reply.learned
    ensures name != "" && reply.Answered? ==>
      && fsi.generation == reply.generation
      && ret == 0 && d.Entry() == Looked(parent, name, reply.generation, reply.answer)
      && d.time == reply.generation && !d.isRoot
      && (reply.answer.NotFound? ==> d.inode == null)
      && (reply.answer.Found? ==>
            && d.inode != null && d.inode.kind == (if reply.answer.isDir then RemoteDir else RemoteFile)
            && d.inode.objectId == Some(reply.answer.objectId) && d.inode.generation == reply.generation)
  {
    ret := 0;
    if name == "" {
      d := new DentryObject(parent, name, null, fsi.generation);
      return;
    }
    if reply.LookupFailed? {
      fsi.generation := reply.learned;
      return reply.errno, null;
    }
    fsi.generation := reply.generation;
    if reply.answer.NotFound? {
      d := new DentryObject(parent, name, null, fsi.generation);
      return;
    }
    var kind := if reply.answer.isDir then RemoteDir else RemoteFile;
    var inode := new InodeCtx(kind, Some(reply.answer.objectId), fsi.generation);
    d := new DentryObject(parent, name, inode, fsi.generation);
  }

  /** A name just looked up and then revalidated is kept exactly when the server still reports the reply's generation. */
  method LookupThenRevalidate(fsi: Connection, parent: ObjectId, name: string, g: u64, answer: Answer, ping: Ping)
    returns (v: Verdict)
    requires fsi.connected && name != "" && ping.Reported?
    modifies fsi`generation
    ensures v == Keep <==> ping.generation == g
    ensures v == Keep || v == Invalid
  {
    var ret, d := LookupRemote(fsi, parent, name, Answered(g, answer));
    v := Revalidate(fsi, d, false, ping);
  }

  // ---------------------------------------------------------------------
  // The machine
  // ---------------------------------------------------------------------

  datatype Ctx = Ctx(isDir: bool, objectId: Option<ObjectId>, generation: u64)

  datatype Dentry = Dentry(parent: ObjectId, name: string, time: u64, inode: Option<Ctx>)

  datatype World = World(server: u64, client: u64, cache: map<nat, Dentry>)

  datatype Step =
    | Publish(generation: u64)
    | Talk
    | Lookup(id: nat, parent: ObjectId, name: string)
    | Revalidating(id: nat)
    | RefreshFile(id: nat)
    | Iterate(id: nat)
    | Forget(id: nat)

  predicate Current(d: Dentry, g: u64) {
    d.time == g && (d.inode.Some? && d.inode.value.objectId.Some? ==> d.inode.value.generation == g)
  }

  function Looked(parent: ObjectId, name: string, g: u64, a: Answer): Dentry {
    Dentry(parent, name, g, if a.NotFound? then None else Some(Ctx(a.isDir, Some(a.objectId), g)))
  }

  predicate Enabled(w: World, s: Step) {
    match s
    case Publish(_) => true
    case Talk => true
    case Lookup(id, _, _) => id !in w.cache
    case Revalidating(id) => id in w.cache
    case RefreshFile(id) => id in w.cache && w.cache[id].inode.Some? && !w.cache[id].inode.value.isDir
    case Iterate(id) => id in w.cache && w.cache[id].inode.Some? && w.cache[id].inode.value.isDir
    case Forget(id) => id in w.cache
  }

  function Stamp(d: Dentry, g: u64): Dentry
    requires d.inode.Some?
  {
    d.(inode := Some(d.inode.value.(generation := g)))
  }

  /** Every operation is atomic: its replies come from one generation. */
  function Next(ns: Contents, w: World, s: Step): World
    requires Enabled(w, s)
  {
    match s
    case Publish(g) => w.(server := g)
    case Talk => w.(client := w.server)
    case Lookup(id, parent, name) =>
      if name == "" then w.(cache := w.cache[id := Dentry(parent, name, w.client, None)])
      else w.(client := w.server, cache := w.cache[id := Looked(parent, name, w.server, ns(w.server, parent, name))])
    case Revalidating(id) =>
      var kept := if Current(w.cache[id], w.server) then w.cache else w.cache - {id};
      w.(client := w.server, cache := kept)
    case RefreshFile(id) => w.(client := w.server, cache := w.cache[id := Stamp(w.cache[id], w.server)])
    case Iterate(id) =>
      w.(client := w.server, cache := w.cache[id := Stamp(w.cache[id], w.server).(time := w.server)])
    case Forget(id) => w.(cache := w.cache - {id})
  }

  ghost predicate Runs(ns: Contents, w: World, steps: seq<Step>)
    decreases steps
  {
    steps == [] || (Enabled(w, steps[0]) && Runs(ns, Next(ns, w, steps[0]), steps[1..]))
  }

  ghost function Run(ns: Contents, w: World, steps: seq<Step>): World
    requires Runs(ns, w, steps)
    decreases steps
  {
    if steps == [] then w else Run(ns, Next(ns, w, steps[0]), steps[1..])
  }

  /** The cached entry says what the answer says: found or not, and which object. */
  predicate Says(d: Dentry, a: Answer) {
    match a
    case NotFound => d.inode.None?
    case Found(oid, _) => d.inode.Some? && d.inode.value.objectId == Some(oid)
  }

  /** The entry is what its own stamp's generation would answer. */
  predicate True(ns: Contents, w: World, id: nat) {
    id in w.cache && w.cache[id].name != "" ==>
      Says(w.cache[id], ns(w.cache[id].time, w.cache[id].parent, w.cache[id].name))
  }

  predicate IsDirectory(w: World, id: nat) {
    id in w.cache && w.cache[id].inode.Some? && w.cache[id].inode.value.isDir
  }

  lemma StepKeepsTrue(ns: Contents, w: World, s: Step, id: nat)
    requires Enabled(w, s) && True(ns, w, id) && s != Iterate(id)
    ensures True(ns, Next(ns, w, s), id)
  {
  }

  lemma {:induction false} RunKeepsTrue(ns: Contents, w: World, steps: seq<Step>, id: nat)
    requires Runs(ns, w, steps) && True(ns, w, id)
    requires forall i :: 0 <= i < |steps| ==> steps[i] != Iterate(id)
    ensures True(ns, Run(ns, w, steps), id)
    decreases steps
  {
    if steps != [] {
      StepKeepsTrue(ns, w, steps[0], id);
      RunKeepsTrue(ns, Next(ns, w, steps[0]), steps[1..], id);
    }
  }

  lemma {:induction false} RunKeepsFilesTrue(ns: Contents, w: World, steps: seq<Step>, id: nat)
    requires Runs(ns, w, steps) && (IsDirectory(w, id) || True(ns, w, id))
    ensures IsDirectory(Run(ns, w, steps), id) || True(ns, Run(ns, w, steps), id)
    decreases steps
  {
    if steps != [] {
      var s, w' := steps[0], Next(ns, w, steps[0]);
      if s != Iterate(id) && True(ns, w, id) {
        StepKeepsTrue(ns, w, s, id);
      }
      assert IsDirectory(w', id) || True(ns, w', id);
      RunKeepsFilesTrue(ns, w', steps[1..], id);
    }
  }

  ghost predicate Fresh(ns: Contents, w: World, id: nat)
    requires id in w.cache
  {
    var d := w.cache[id];
    Says(d, ns(w.server, d.parent, d.name))
  }

  /** A revalidation keeps an entry exactly when every stamp it carries is the server's, and changes no entry. */
  lemma RevalidatingExactly(ns: Contents, w: World, id: nat)
    requires id in w.cache
    ensures
      var d, w' := w.cache[id], Next(ns, w, Revalidating(id));
      && (id in w'.cache <==>
            d.time == w.server && (d.inode.Some? && d.inode.value.objectId.Some? ==> d.inode.value.generation == w.server))
      && (id in w'.cache ==> w'.cache == w.cache) && w'.server == w.server
  {
  }

  /** Refreshing a file stamps its inode but not its name; listing a directory stamps both; no answer changes. */
  lemma StampsAre(ns: Contents, w: World, id: nat)
    ensures Enabled(w, RefreshFile(id)) ==>
      Next(ns, w, RefreshFile(id)).cache[id] ==
        w.cache[id].(inode := Some(w.cache[id].inode.value.(generation := w.server)))
    ensures Enabled(w, Iterate(id)) ==>
      Next(ns, w, Iterate(id)).cache[id] ==
        w.cache[id].(time := w.server, inode := Some(w.cache[id].inode.value.(generation := w.server)))
  {
  }

  /** A name that was looked up survives revalidation as long as the server has published nothing new, and only then. */
  lemma LookedUpIsKeptExactlyWhen(ns: Contents, w: World, id: nat, parent: ObjectId, name: string, g: u64)
    requires id !in w.cache && name != ""
    ensures
      var w1 := Next(ns, Next(ns, w, Lookup(id, parent, name)), Publish(g));
      && id in w1.cache && Says(w1.cache[id], ns(w.server, parent, name))
      && (id in Next(ns, w1, Revalidating(id)).cache <==> g == w.server)
  {
  }

  /**
   * In every run, a file or a negative entry that a revalidation keeps says
   * what a fresh LOOKUP of the same name under the same parent would answer.
   */
  lemma AcceptedFilesAreFresh(ns: Contents, server: u64, client: u64, steps: seq<Step>, id: nat)
    requires Runs(ns, World(server, client, map[]), steps)
    ensures
      var w := Run(ns, World(server, client, map[]), steps);
      id in w.cache && w.cache[id].name != "" && !IsDirectory(w, id) && id in Next(ns, w, Revalidating(id)).cache ==>
        Fresh(ns, w, id)
  {
    RunKeepsFilesTrue(ns, World(server, client, map[]), steps, id);
  }

  /** A directory entry keeps the same promise as long as the directory has not been listed. */
  lemma AcceptedUnlistedAreFresh(ns: Contents, server: u64, client: u64, steps: seq<Step>, id: nat)
    requires Runs(ns, World(server, client, map[]), steps)
    requires forall i :: 0 <= i < |steps| ==> steps[i] != Iterate(id)
    ensures
      var w := Run(ns, World(server, client, map[]), steps);
      id in w.cache && w.cache[id].name != "" && id in Next(ns, w, Revalidating(id)).cache ==> Fresh(ns, w, id)
  {
    RunKeepsTrue(ns, World(server, client, map[]), steps, id);
  }

  /**
   * Listing a directory stamps it with the new generation without asking for
   * its name again, so a directory renamed away or replaced in between passes
   * revalidation although a fresh LOOKUP disagrees.
   */
  lemma ListedDirectoryCanBeStale(ns: Contents, g0: u64, g1: u64, parent: ObjectId, name: string)
    requires name != "" && ns(g0, parent, name).Found? && ns(g0, parent, name).isDir
    requires ns(g1, parent, name).NotFound? || ns(g1, parent, name).objectId != ns(g0, parent, name).objectId
    ensures
      var w := World(g0, g0, map[]);
      var steps := [Lookup(0, parent, name), Publish(g1), Iterate(0)];
      && Runs(ns, w, steps)
      && 0 in Run(ns, w, steps).cache
      && 0 in Next(ns, Run(ns, w, steps), Revalidating(0)).cache
      && !Fresh(ns, Run(ns, w, steps), 0)
  {
    var w := World(g0, g0, map[]);
    var steps := [Lookup(0, parent, name), Publish(g1), Iterate(0)];
    var w1 := Next(ns, w, steps[0]);
    var w2 := Next(ns, w1, steps[1]);
    assert steps[1..] == [Publish(g1), Iterate(0)] && steps[1..][1..] == [Iterate(0)] && steps[1..][1..][1..] == [];
    assert Runs(ns, w2, [Iterate(0)]) && Run(ns, w2, [Iterate(0)]) == Next(ns, w2, Iterate(0));
    assert Runs(ns, w1, steps[1..]) && Run(ns, w1, steps[1..]) == Next(ns, w2, Iterate(0));
  }

  /** The entry of a listed directory, as long as it is neither listed nor looked up again. */
  predicate LeftAlone(steps: seq<Step>, id: nat) {
    forall i :: 0 <= i < |steps| ==> steps[i] != Iterate(id) && !(steps[i].Lookup? && steps[i].id == id)
  }

  lemma {:induction false} LeftAloneStays(ns: Contents, w: World, steps: seq<Step>, id: nat)
    requires Runs(ns, w, steps) && LeftAlone(steps, id) && (id in w.cache ==> IsDirectory(w, id))
    ensures
      var e := Run(ns, w, steps);
      id in e.cache ==> id in w.cache && e.cache[id] == w.cache[id]
    decreases steps
  {
    if steps != [] {
      assert steps[0] != Iterate(id) && !(steps[0].Lookup? && steps[0].id == id);
      LeftAloneStays(ns, Next(ns, w, steps[0]), steps[1..], id);
    }
  }

  /**
   * Exactly when a listed directory's name may be trusted.  After a listing and
   * any further run, a name that passes revalidation says what a fresh LOOKUP
   * would answer, if and only if it already did at the generation of the
   * listing.
   */
  lemma ListedIsFreshExactlyWhen(ns: Contents, w: World, id: nat, steps: seq<Step>)
    requires Enabled(w, Iterate(id)) && Runs(ns, Next(ns, w, Iterate(id)), steps) && LeftAlone(steps, id)
    ensures
      var d, e := w.cache[id], Run(ns, Next(ns, w, Iterate(id)), steps);
      id in e.cache && id in Next(ns, e, Revalidating(id)).cache ==>
        (Fresh(ns, e, id) <==> Says(d, ns(w.server, d.parent, d.name)))
  {
    LeftAloneStays(ns, Next(ns, w, Iterate(id)), steps, id);
  }
}
