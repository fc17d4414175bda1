# A verified model of the monofs kernel client

monofs serves a versioned namespace over the network. Its Linux client,
`monofs-kmod/`, speaks a small binary protocol to a gateway, shows a flat list
of *seed paths* as a directory tree while it is not connected, and caches
names, read handles and pages under a *namespace generation* that it checks with
PING. This project models that client in Dafny and proves what holds of it on
every input, in every run and under every interleaving.

| part | modules |
|---|---|
| shared definitions | `Basics`, `Errno`, `Inodes` |
| wire format | `Bytes`, `Layout`, `Frames`, `Cursors`, `Requests`, `Heaps`, `Readdir` |
| connection | `Transport`, `Sessions`, `Client`, `Matching` |
| seed option and its printers | `Text`, `SeedOptions`, `SeedParser`, `SeedsFile` |
| synthetic namespace | `Namespace`, `Children`, `SeedTree`, `Listing` |
| caches | `DentryCache`, `ReadHandles`, `PageCache`, `Folio` |

Code that works by updating fields and buffers is a class or a method proved
against a specification function. The theorems are about those functions, or
about the state machines built from them: a machine has `Enabled`, `Next` and
`Run`, and its theorems range over every sequence of enabled steps.

## Main results

- **Matching.** Replies are matched to callers by stream position only, since the
  reply's request id is never compared. Over every interleaving of callers,
  server and transport, at byte granularity,
  `Matching.EveryCallerGetsItsOwnReply` shows that this is enough as long as no
  round trip of the run was cut short, failed to allocate its body, or rejected
  a header that announced one: every finished round trip has the server's answer
  to the request its caller had begun last. `Matching.DesyncedExactlyWhenBytesStay`
  shows that each of these failures leaves bytes behind and no other does, and
  `Matching.AbandonedBodyAnswersNextCaller` builds the run in which a caller then
  accepts another caller's bytes.
- **Session.** `Sessions.MountSucceedsExactlyWhen` and `Client.FsInfo.Mount` say
  exactly when a mount succeeds and what it has then put on the stream;
  `Sessions.SessionDiscipline` covers every run after it.
- **Handles.** `ReadHandles.HandlesAreConserved`: opens are closes plus the handle
  held, under every interleaving of refreshes, reads and the final eviction.
- **Caches.** `DentryCache.AcceptedFilesAreFresh` and, for directories,
  `DentryCache.ListedIsFreshExactlyWhen`; `PageCache.ReadsUseFreshHandles`;
  `PageCache.PagesStayCoherent` against a server that publishes at any time.
- **Namespace.** `Namespace.WalkReachesComponentPrefixes`,
  `Children.ListingAgreesWithLookup` for one directory,
  `Listing.WholeListingAgreesWithLookup` for all of a listing, the fixed entries included,
  `SeedTree.WholeTreeAgrees` for the whole tree of any option value, and
  `Listing.ReadDirectory` for listings resumed any number of times.
- **Codec.** Round trips in both directions for every layout, and READDIR decoding
  that accepts exactly the encodings and returns all memory when it refuses.

## Where the code does not do what one would expect

Each of these comes with its exact condition, and with a concrete failing case
where the condition alone does not show one.

- Printing the seed list and parsing it again gives the same seeds exactly when
  no stored seed begins or ends with whitespace (`SeedOptions.ReparsePrinted`),
  so for every value without whitespace (`SeedOptions.SpaceFreeReparses`).
  Slashes are stripped after whitespace is trimmed, so `/ a` is stored as ` a`
  and comes back as `a` (`SeedOptions.SlashBeforeSpaceIsLost`).
- Listing and lookup agree everywhere exactly when no seed has an empty
  component (two slashes in a row), `.` or `..` as a component, or `.monofs` as
  its first one (`SeedTree.WholeTreeAgrees`). Some listing names something twice
  exactly when a seed has `.monofs` first, or `.` or `..` with only proper names
  before it (`SeedTree.WholeTreeListsNamesOnce`).
- A fill that learns a new generation leaves the cache coherent exactly when no
  other page is cached (`PageCache.CoherentExactlyWhenHarmless`), because only
  open, read and mmap invalidate (`PageCache.FillHidesStalePage`).
- Listing a remote directory stamps its own cached name as current without
  looking it up (`DentryCache.ListedDirectoryCanBeStale`). Until the directory is
  listed or looked up again, a name that passes revalidation is right exactly
  when it was right at the generation of that listing
  (`DentryCache.ListedIsFreshExactlyWhen`).
- A string is sent with its length cut to 32 bits, so it reads back exactly when
  it is below 2^32 bytes (`Requests.RequestReadsBack`). `kmalloc` provides no
  buffer of that size, so every token and name the client can hold meets the
  condition.
- The lines of the seeds file recover the seeds exactly when none contains a
  newline (`SeedsFile.LinesRecoverSeeds`).

## Assumptions about the surroundings

- `size_t` and `unsigned long` have 64 bits, and no buffer reaches 2^63 bytes. A
  received body is below 2^32 bytes because its length field has 32 bits.
- A socket delivers bytes in order and unaltered, in pieces of any size, and may
  fail at any call. The server answers complete requests in order.
- A generation value determines what the whole namespace contains; a handle reads
  the file as of its OPEN; the server never issues a handle number twice.
- Invalidating an inode drops all of its pages.
- A CLOSE is sent whenever the client decides to close: the few bytes of its body
  are assumed to be allocated.
- A path walk follows `.` and `..` by itself and asks the file system only for
  other names, which are never empty.
- Generation properties treat each file system operation as atomic. Only stream
  matching and handle conservation range over interleavings. In those machines
  the unlock is merged with the last stream or handle action before it.
- Strings hold no NUL; a character stands for one byte; whitespace is the set of
  the kernel's `isspace`.

## Model

| member | source | states |
|---|---|---|
| Layout.DecodeOfEncode | monofs-kmod/native.c:99-237 | For every field layout and all values that fit it, reading back returns the values and exactly the bytes that followed them |
| Layout.EncodeOfDecode | monofs-kmod/native.c:158-237 | A successful read means the bytes begin with the encoding of what was read, and every value fits its field |
| Layout.DecodeFixed | monofs-kmod/native.c:158-192 | A layout of fixed-width fields is readable exactly when enough bytes are left |
| Layout.IntsOfEncode | monofs-kmod/native.c:99-192 | Wherever encoded integers stand, they are found again at their places, lowest byte first |
| Bytes.LeDigits | monofs-kmod/native.c:99-133 | The i-th byte put is the i-th digit of the number in base 256 |
| Frames.DecodeFrame | monofs-kmod/native.c:45-57 | Every 52 bytes are the encoding of the header they decode to, so no header field loses information |
| Frames.DecodeOfEncodeFrame | monofs-kmod/native.c:45-57 | Every header survives encoding and decoding |
| Frames.HeaderFields | monofs-kmod/native.c:45-57 | The eleven fields of a header stand on the wire in the order and widths of the packed structure |
| Frames.StatusesAreTold | monofs-kmod/native.c:65-90 | Only success maps to zero, only the two stale statuses share an error number, and every unknown status is the I/O error that no known one is |
| Frames.SerializeIsComplete | monofs-kmod/native.c:320-367 | A message on the stream is cut off exactly: it is the first message read, and what follows it stays |
| Frames.HeaderAloneIsIncomplete | monofs-kmod/native.c:336-343 | A header whose body has not arrived is not a message the server can answer |
| Cursors.Cursor.Require | monofs-kmod/native.c:92-97 | The 64-bit sum never wraps, so the check passes exactly when the field fits; the offset stays within the buffer |
| Cursors.Cursor.PutInt | monofs-kmod/native.c:99-133 | Succeeds exactly when the integer fits; what has been written is always the encoding of the fields put so far, and a refusal writes nothing |
| Cursors.Cursor.PutBytes | monofs-kmod/native.c:135-145 | The same for raw bytes |
| Cursors.Cursor.PutText | monofs-kmod/native.c:147-156 | Succeeds exactly when prefix and bytes fit, for a string of any length; when only the prefix fits, that has been written and the offset stands after it |
| Cursors.Cursor.GetInt | monofs-kmod/native.c:158-192 | Succeeds exactly when the specification decodes an integer here, returns it, and moves over it; a refusal moves nothing |
| Cursors.Cursor.GetBytes | monofs-kmod/native.c:205-214 | The same for a run of bytes |
| Cursors.Cursor.GetText | monofs-kmod/native.c:216-237 | Succeeds exactly when the specification decodes a string here; the copy is terminated, its 32-bit length plus one does not wrap for any body below 2^32 bytes, and a refusal leaves the offset before or after the prefix, as far as that was there |
| Cursors.Cursor.GetInts | monofs-kmod/native.c:239-269 | A run of checked integer reads succeeds exactly when their total size is left, and returns the integers that stand there, as far as they do |
| Cursors.Terminated | monofs-kmod/native.c:229-233 | The 32-bit allocation size does not wrap; the copy holds the bytes and a terminator |
| Requests.BuildHello | monofs-kmod/native.c:427-459 | No put fails, the buffer is filled exactly, and it holds the HELLO encoding |
| Requests.MountFlags | monofs-kmod/native.c:481-509 | The read-only bit is always set, the other two bits exactly when their options are |
| Requests.BuildMount | monofs-kmod/native.c:481-529 | The same for MOUNT with a token of any length |
| Requests.BuildLookup | monofs-kmod/native.c:607-622 | The same for LOOKUP with a name of any length |
| Requests.BuildReaddir | monofs-kmod/native.c:669-690 | The same for READDIR |
| Requests.BuildOpen | monofs-kmod/native.c:828-838 | The same for OPEN |
| Requests.BuildRead | monofs-kmod/native.c:883-897 | The same for READ |
| Requests.BuildClose | monofs-kmod/native.c:937-946 | The same for CLOSE |
| Requests.RequestReadsBack | monofs-kmod/native.c:147-156 | For every layout ending in a string, reading the request back returns the original values if and only if the string is below 2^32 bytes |
| Requests.MountReadsBack | monofs-kmod/native.c:482-529 | MOUNT reads back its flags, name and token if and only if the token is below 2^32 bytes |
| Requests.LookupReadsBack | monofs-kmod/native.c:608-622 | LOOKUP reads back its parent and name if and only if the name is below 2^32 bytes |
| Requests.FixedRequestsReadBack | monofs-kmod/native.c:436-459 | HELLO, READDIR, OPEN, READ and CLOSE bodies always read back their values and leave nothing over |
| Transport.Socket.SendAll | monofs-kmod/native.c:271-285 | Success means all bytes were queued in order; failure means a proper prefix was, possibly none |
| Transport.Socket.RecvAll | monofs-kmod/native.c:287-307 | However the stream is cut into pieces, exactly the next bytes are returned, and with no transport error it succeeds exactly when they are there |
| Sessions.RoundtripKeeps | monofs-kmod/native.c:316-378 | A round trip with any outcome sends one header with the next id, the session and the last generation learned, and keeps the session invariant |
| Sessions.RequestIsAMessage | monofs-kmod/native.c:316-343 | What the client sends is one message that the peer cuts off again with the opcode and body of the call, if and only if the body is below 2^32 bytes |
| Sessions.AcceptsWhatItSends | monofs-kmod/native.c:349-354 | A reply header is accepted exactly when its magic, version and header length are those the client sends itself |
| Sessions.GenerationIsLastHeard | monofs-kmod/native.c:355-355 | In every run while connected, the generation is that of the last reply whose header was accepted, whatever its status |
| Sessions.MountEstablishes | monofs-kmod/native.c:488-584 | Every exit of the mount leaves socket and connected flag both set or both clear, with at most HELLO and MOUNT sent under session zero |
| Sessions.MountSucceedsExactlyWhen | monofs-kmod/native.c:488-584 | From any disconnected state a mount succeeds if and only if it was dialled, HELLO and MOUNT were answered with success and the MOUNT reply has 105 bytes; it then has that reply's session id and generation |
| Sessions.DisconnectEndsTheSession | monofs-kmod/native.c:586-595 | After a disconnect there is no socket and no connection, and no later call sends anything |
| Sessions.SessionDiscipline | monofs-kmod/native.c:309-595 | In every run: HELLO then MOUNT under session zero, later headers carry the MOUNT reply's session, the n-th header carries id n, each header carries the last generation learned, connected implies a socket |
| Client.FsInfo.constructor | monofs-kmod/monofs.h:32-113 | A new mount is the initial state of the session specification |
| Client.FsInfo.ReceiveReply | monofs-kmod/native.c:345-367 | A reply returned is the first message on the stream and exactly that is consumed; the generation moves only on an accepted header |
| Client.FsInfo.Roundtrip | monofs-kmod/native.c:309-378 | Changes the session as the specification says for every outcome; when a reply came, the stream gained exactly the message with the call's opcode and body, and the next message was consumed; otherwise it gained a front part of it; on a sound transport only an unacceptable header prevents a reply |
| Client.FsInfo.ReadMountReply | monofs-kmod/native.c:541-574 | Accepts exactly the bodies of full length; every field that is there, down to the single attribute and lifetime, is stored, and nothing else changes |
| Client.FsInfo.SendHello | monofs-kmod/native.c:427-469 | One HELLO round trip, or none when memory runs out; an answer means exactly the HELLO message was sent, and on a sound transport an acceptable success reply is an answer |
| Client.FsInfo.SendMount | monofs-kmod/native.c:506-537 | The same for MOUNT, with the flags of the options and the token |
| Client.FsInfo.Mount | monofs-kmod/native.c:471-584 | Returns zero if and only if dialled, HELLO and MOUNT answered with success and the reply complete; the two messages sent are then HELLO and MOUNT with the caller's flags and token; otherwise it returns the first error and holds no socket; on a sound transport with success replies only the length of the MOUNT reply decides |
| Client.FsInfo.FinishMount | monofs-kmod/native.c:506-584 | The part after HELLO, with the same promises |
| Client.FsInfo.Disconnect | monofs-kmod/native.c:586-595 | Refines the disconnect specification; a second disconnect changes nothing |
| Matching.ReceiveAligned | monofs-kmod/native.c:345-378 | Receiving any number of bytes of the right reply keeps the stream aligned, through the header, the body and the status check |
| Matching.StepKeepsInvariant | monofs-kmod/native.c:335-378 | Every step of any caller, the server or the transport keeps lock exclusion and stream alignment |
| Matching.StepKeepsRequests | monofs-kmod/native.c:335-378 | A caller inside a round trip stays with the request it began until it leaves |
| Matching.FinishedWhatWasAsked | monofs-kmod/native.c:335-378 | In every run, whatever failed, each finished round trip carries the request its caller had begun last and the error number of its reply |
| Matching.UndisturbedRoundTrip | monofs-kmod/native.c:335-378 | From rest, any request and any acceptable reply run through to the end: the caller has that reply and the streams are empty again |
| Matching.DesyncedExactlyWhenSpoiled | monofs-kmod/native.c:335-378 | Over any run, the stream is spoiled if and only if some step cut a send short, failed a receive, failed a body allocation, or rejected a header that announced a body |
| Matching.EveryCallerGetsItsOwnReply | monofs-kmod/native.c:335-378 | In every interleaving in which no round trip failed in one of those ways: the i-th finished caller has the server's answer to the request it had begun last, error statuses included, and both streams are empty whenever the lock is free |
| Matching.DesyncedExactlyWhenBytesStay | monofs-kmod/native.c:335-378 | The step that ends a round trip on an unspoiled stream is one of those failures if and only if it leaves bytes on a stream; error statuses, bodiless rejected headers and sends that moved nothing are not |
| Matching.AbandonedBodyAnswersNextCaller | monofs-kmod/native.c:357-367 | After a failed body allocation the next caller can accept the abandoned body as the reply to a request the server has not read |
| Heaps.Heap.Alloc | monofs-kmod/native.c:721-725 | An allocation gives a new live block or fails when memory is used up |
| Heaps.Heap.Free | monofs-kmod/native.c:750-762 | Only a live block may be freed, which rules out freeing twice; freeing NULL does nothing |
| Readdir.DecodeOfEncodeListing | monofs-kmod/native.c:699-747 | Every listing of any size survives encoding and decoding, whatever follows it |
| Readdir.EncodeOfDecodeListing | monofs-kmod/native.c:699-747 | A decoded listing is well formed, the body starts with its encoding, and the body has at least 17 + 32 bytes per entry |
| Readdir.ListingFields | monofs-kmod/native.c:707-718 | Lifetime, cookie, end flag and entry count stand at the head of the body in this order |
| Readdir.AcceptedExactlyWhenEncoded | monofs-kmod/native.c:699-747 | A body is accepted if and only if it starts with the encoding of some listing |
| Readdir.ReadHead | monofs-kmod/native.c:707-718 | Reads the four leading fields exactly when they decode |
| Readdir.ReadEntry | monofs-kmod/native.c:728-738 | Reads one entry exactly when it decodes; a name once allocated stays owned by its slot even when a later field fails |
| Readdir.ReadEntries | monofs-kmod/native.c:727-739 | The loop reads exactly the announced entries in order, and the slots own exactly the names allocated |
| Readdir.FillEntries | monofs-kmod/native.c:717-747 | Reads the announced entries into a new array, or frees all it allocated |
| Readdir.FreeReply | monofs-kmod/native.c:750-762 | Frees each name and the array once, and leaves the heap as it was before the reply |
| Readdir.DecodeReply | monofs-kmod/native.c:699-747 | With enough memory, succeeds if and only if the body decodes, and holds exactly the decoded listing; on every failure the entries are NULL and the heap is as before |
| Text.SplitOfJoin | monofs-kmod/super.c:25-32 | Joining pieces that hold no separator and splitting again returns the pieces |
| Text.JoinOfSplit | monofs-kmod/fs_context.c:63-64 | Splitting loses nothing and no piece holds the separator |
| SeedOptions.ParsedSeedsAreGood | monofs-kmod/fs_context.c:59-90 | Every stored seed is non-empty, has no comma, and neither starts nor ends with a slash |
| SeedOptions.CleanCutsTheEnds | monofs-kmod/fs_context.c:71-82 | Cleaning an item removes whitespace and then slashes at both ends, as much as there is, and nothing else |
| SeedOptions.ParseTwice | monofs-kmod/fs_context.c:59-90 | Giving the option twice equals giving the two values joined by a comma |
| SeedOptions.CleanKeeps | monofs-kmod/fs_context.c:71-82 | A stored seed survives cleaning again exactly when no whitespace touches its ends, and otherwise gets shorter |
| SeedOptions.ReparsePrinted | monofs-kmod/super.c:25-32 | For every option value, parsing the printed list returns the same seeds if and only if no seed starts or ends with whitespace |
| SeedOptions.SpaceFreeReparses | monofs-kmod/super.c:25-32 | For every option value without whitespace, parsing the printed list returns the same seeds |
| SeedOptions.SlashBeforeSpaceIsLost | monofs-kmod/fs_context.c:71-73 | The value "/ a" is stored with a leading blank that printing and parsing loses |
| SeedParser.MountOpts.AppendSeedPath | monofs-kmod/fs_context.c:32-57 | The array grown by one holds the old seeds and then the new one; when either allocation fails the stored seeds are those before |
| SeedParser.Strsep | monofs-kmod/fs_context.c:63-69 | Cuts the buffer at the next comma: item, comma and rest are the old contents |
| SeedParser.Strim | monofs-kmod/fs_context.c:71-71 | Trims whitespace at both ends in place and writes nowhere else |
| SeedParser.CutSlashes | monofs-kmod/fs_context.c:76-80 | Removes all trailing slashes in place and writes nowhere else |
| SeedParser.CleanItem | monofs-kmod/fs_context.c:71-82 | In place, an item becomes its cleaned form and the rest of the buffer stays |
| SeedParser.ParseSeedPaths | monofs-kmod/fs_context.c:59-90 | The pointer-moving parser appends exactly the seeds of the split, trim, strip and filter specification, and when memory runs out exactly those that found room |
| SeedParser.PrintSeeds | monofs-kmod/super.c:25-32 | The printed list is the seeds joined by commas |
| SeedsFile.TotalLength | monofs-kmod/namespace.c:372-376 | The first pass counts every line and one terminator |
| SeedsFile.SeedsContent | monofs-kmod/namespace.c:366-386 | No line is truncated, the offset ends one before the end, and the buffer is the lines and a terminator; no seeds give the fixed text |
| SeedsFile.LinesRecoverSeeds | monofs-kmod/namespace.c:382-384 | The lines are the seeds if and only if no seed holds a newline |
| Namespace.ComputeNamespaceIno | monofs-kmod/namespace.c:146-157 | The hashing loop computes the 64-bit wrap-around hash of the path, which is never one of the fixed inode numbers |
| Namespace.HashSnoc | monofs-kmod/namespace.c:150-154 | One more character is one more exclusive-or and one more multiplication by the constant |
| Namespace.TestSeedOrParent | monofs-kmod/namespace.c:208-225 | The loop answers whether some seed is the path or goes on below it |
| Namespace.PrefixTestIsComponentPrefix | monofs-kmod/namespace.c:217-221 | The string test on joined names holds exactly when the names are a prefix of the seed's components |
| Namespace.WalkReachesComponentPrefixes | monofs-kmod/namespace.c:528-571 | A walk of any depth from the root reaches a directory if and only if its names are a component prefix of some seed, and the inode stores exactly the joined path |
| Children.ChildNamesAreShown | monofs-kmod/namespace.c:272-312 | The listing has every child some seed shows, once, and nothing else |
| Children.ChildNamesInSeedOrder | monofs-kmod/namespace.c:272-312 | Children appear in the order in which the seeds first show them |
| Children.NextComponentIsChildTest | monofs-kmod/namespace.c:179-225 | Cutting out a seed's next component and testing the child's path by prefix see the same seeds |
| Children.ResolvesExactly | monofs-kmod/namespace.c:528-571 | Lookup resolves a name to a namespace directory exactly when a seed shows it and it is not the control directory |
| Children.ListingAgreesWithLookup | monofs-kmod/namespace.c:159-225 | In any synthetic directory, listing and lookup agree on all names if and only if no seed has an empty component or a dot right below it and, at the root, none starts with the control name |
| SeedTree.WholeTreeAgrees | monofs-kmod/namespace.c:528-571 | For every option value, listing and lookup agree in every reachable directory if and only if no seed has an empty component, a dot or two dots as a component, or the control name as its first one |
| SeedTree.WholeTreeListsNamesOnce | monofs-kmod/namespace.c:413-447 | For every option value, no listing of a reachable directory has a name twice if and only if no seed has a dot or two dots with only proper names before it, or the control name first |
| Listing.EmitNamespaceChildren | monofs-kmod/namespace.c:257-321 | Emits the distinct children after the first skip of them until the buffer refuses, moving the position by the number emitted |
| Listing.EmitDots | monofs-kmod/namespace.c:418-419 | Emits the dot entries not yet emitted, or stops at the first refusal |
| Listing.EmitSynthetic | monofs-kmod/namespace.c:421-426 | Emits the fixed entries not yet emitted, or stops at the first refusal |
| Listing.EmitRemoteChildren | monofs-kmod/namespace.c:227-255 | Emits the entries of a READDIR reply in order until the buffer refuses, moving the position by the number emitted |
| Listing.IterateShared | monofs-kmod/namespace.c:399-448 | From any position and any room, one call without a server emits the next entries of the full listing and advances by exactly their number; with one, the fixed entries and then the reply to the cookie that counts what was emitted after them, stamping the directory exactly when an answer came; an inode without context gets EIO, other kinds ENOTDIR |
| Listing.RemoteCallProgresses | monofs-kmod/namespace.c:428-438 | A call with room emits something as long as the server still gives something |
| Listing.StampedExactlyWhenAnswered | monofs-kmod/namespace.c:430-437 | The directory is stamped exactly when no fixed entry was refused and the server answered |
| Listing.RemoteCallReadsOn | monofs-kmod/namespace.c:428-438 | Against a server that takes the cookie as a position, every call emits exactly the next part of one listing |
| Listing.ListedAsLookedUp | monofs-kmod/namespace.c:305-309 | Each seed child is listed once, with the inode number and path lookup gives it |
| Listing.FixedEntries | monofs-kmod/namespace.c:21-46 | Every listing starts with the dots under their numbers; the control directory goes on with status and seeds, the root with the control directory, a remote directory without a server with nothing |
| Listing.WholeListingAgreesWithLookup | monofs-kmod/namespace.c:413-447 | In every directory where they can be compared, lookup finds a name exactly when the listing has it after the dots, with the same inode number and type; files have no names below them |
| Listing.EachNameListedOnce | monofs-kmod/namespace.c:413-447 | The whole listing of a synthetic directory has no name twice if and only if no seed has a dot right below it or, at the root, the control name |
| Listing.ReadDirectory | monofs-kmod/namespace.c:399-448 | Any number of calls of IterateShared from position zero, with any rooms, together emit exactly the start of the directory's full listing, and all of it given enough room |
| DentryCache.Revalidate | monofs-kmod/namespace.c:107-140 | Which kinds are tested and which are not; of the tested names, exactly those whose every stamp is the reported generation are kept; a failed PING is reported; only the root is restamped |
| DentryCache.LookupRemote | monofs-kmod/namespace.c:479-525 | A remote lookup caches the answer, negative, file or directory, with its object id, under the reply's generation; a failed one caches nothing |
| DentryCache.LookupThenRevalidate | monofs-kmod/namespace.c:107-140 | A name just looked up and then revalidated is kept exactly when the server still reports the reply's generation |
| DentryCache.LookedUpIsKeptExactlyWhen | monofs-kmod/namespace.c:107-140 | In the machine too, a looked-up entry says the answer and survives revalidation exactly as long as the generation has not moved |
| DentryCache.StepKeepsTrue | monofs-kmod/namespace.c:100-140 | Every operation other than listing that directory keeps an entry equal to what its own stamp's generation answers |
| DentryCache.AcceptedFilesAreFresh | monofs-kmod/namespace.c:100-140 | In every run, a file or negative entry that a revalidation keeps has the found flag and object id a fresh lookup would return |
| DentryCache.AcceptedUnlistedAreFresh | monofs-kmod/namespace.c:100-140 | The same for a directory entry that has not been listed |
| DentryCache.ListedDirectoryCanBeStale | monofs-kmod/namespace.c:435-436 | Listing a directory after it changed makes its stale name pass revalidation |
| DentryCache.ListedIsFreshExactlyWhen | monofs-kmod/namespace.c:435-436 | After a listing and any further run that does not list or look it up again, a name that passes revalidation is what a fresh lookup returns if and only if it was so at the generation of the listing |
| ReadHandles.OpensAreClosesAndLive | monofs-kmod/read.c:27-63 | In a legal history, opens equal closes plus live handles |
| ReadHandles.LegalIsDisciplined | monofs-kmod/read.c:27-63 | A legal history closes nothing twice and reads only between a handle's open and its close |
| ReadHandles.StepKeepsInvariant | monofs-kmod/read.c:21-63 | Every step of any thread keeps the server's live handles equal to what the inode and the lock holder account for |
| ReadHandles.HandlesAreConserved | monofs-kmod/read.c:27-63 | Over every interleaving with eviction: opens equal closes plus the held handle, no handle is closed twice, every read names an open handle, and eviction leaves none open |
| ReadHandles.RefreshAlone | monofs-kmod/read.c:21-33 | A refresh alone that sees a new generation closes the held handle, forgets it and takes the generation |
| ReadHandles.ReadHeldAlone | monofs-kmod/read.c:51-63 | A page read alone with a handle reads through it and changes nothing else |
| ReadHandles.ReadNewAlone | monofs-kmod/read.c:51-63 | A page read alone without a handle opens one, keeps it with the generation of its OPEN, and reads through it |
| PageCache.RemoteInode.constructor | monofs-kmod/super.c:125-131 | A new inode carries the mount's generation, no handle and no pages |
| PageCache.RemoteInode.Refresh | monofs-kmod/read.c:11-38 | A moved generation closes the held handle once, takes the stamp, and drops the pages only when asked to |
| PageCache.RemoteInode.ReadRemotePage | monofs-kmod/read.c:40-65 | Opens only when no handle is held, takes the OPEN reply's generation, reports the first error, and keeps the account of opened and closed handles |
| PageCache.RemoteInode.ReadFolio | monofs-kmod/read.c:67-101 | Fills the page exactly when PING, OPEN and READ all get through, under the handle's generation, dropping no other page |
| PageCache.RemoteInode.Evict | monofs-kmod/super.c:50-66 | No page stays, and while connected every handle the inode ever opened has been closed exactly once, in order |
| PageCache.ReadsUseFreshHandles | monofs-kmod/read.c:18-62 | In every run a held handle was opened at the inode's generation; a page is filled through a handle of the generation its own PING reported, or through one opened after that PING, and the inode ends up with that handle's generation |
| PageCache.FillCachesItsPage | monofs-kmod/read.c:79-95 | A fill that gets through caches its page, keeps every other, and opens a handle only if it could not keep one |
| PageCache.FilledPageIsCurrent | monofs-kmod/read.c:79-84 | Against a publishing server, in every run without condition, a page just filled was read at the server's generation, and the inode carries it |
| PageCache.CoherentExactlyWhenHarmless | monofs-kmod/read.c:24-36 | A step keeps every cached page at the inode's generation if and only if it is not a fill whose replies bring a new generation while a page it does not refill is cached |
| PageCache.PagesStayCoherent | monofs-kmod/read.c:24-132 | In every run against a publishing server in which no fill is the first to ask after a publication, every cached page was filled at the inode's generation, and at the server's from an open, read or mmap until the next publication |
| PageCache.FillHidesStalePage | monofs-kmod/read.c:79-84 | A publication first noticed by a page fill leaves an older page in place that the next open, read or mmap does not drop |
| Folio.CopyPayload | monofs-kmod/native.c:904-922 | Copies exactly the payload of a well-formed reply; a longer or malformed one changes nothing |
| Folio.PayloadOfReply | monofs-kmod/native.c:904-922 | A reply is delivered whole, with its end flag, if and only if it is no longer than was asked for; a longer one is refused |
| Folio.DeliveredWasSent | monofs-kmod/native.c:904-922 | Whatever is delivered stands at the front of the body as a READ reply |
| Folio.FillFolio | monofs-kmod/read.c:83-95 | A filled page is the payload and then zeros, with nothing left uninitialised |
| Folio.ExactReplyFillsPage | monofs-kmod/native.c:904-922 | The reply of a server that returns exact slices delivers exactly that part of the file |
| Folio.ReadFile | monofs-kmod/read.c:67-95 | Folios of any sizes filled in order from the replies of such a server hold the file's bytes followed only by zeros |

## Left out

- Generated protobuf code, the `cmd` programs, the editor extension and module registration: accessors, flag parsing and build glue without logic of their own.
- Gateway parsing, socket creation and connecting: kernel library calls; their results are parameters of the mount.
- Unmount teardown: the mount's data is freed before its inodes are evicted, so eviction is modelled only while mounted and connected.
- Order of request ids among concurrent callers: the id is taken before the lock, so in `Matching` a request header may carry any id.
- The inode numbers of remote entries, whose fallbacks differ between listing and lookup, and the next cookie of a READDIR reply, which the client ignores.
- Decoding of LOOKUP, OPEN and STATFS replies, lifetimes, ownership, times and the status text: copied without logic. An OPEN whose reply cannot be decoded counts as failed, although the server may hold a handle for it.
- Allocation failure, except in the round trip, the mount, READDIR decoding and the seed parser.
- Copying the control file to user memory, and the copying of strings into and out of kernel memory other than in the cursor, the seed parser and the seeds file.
- Namespace.ComputeNamespaceIno: says nothing about collisions between paths, which the hash permits.
