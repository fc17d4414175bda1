/** The READDIR reply: what its bytes mean, and the decoder that builds and frees the entry array. */
module Readdir {
  import opened Basics
  import opened Bytes
  import opened Layout
  import opened Errno
  import opened Cursors
  import opened Heaps

  const HEAD: seq<Shape> := [Int(4), Int(8), Int(1), Int(4)]
  const ENTRY: seq<Shape> := [Text, Blob(16), Int(8), Int(4)]

  datatype Entry = Entry(name: seq<byte>, objectId: seq<byte>, ino: nat, mode: nat)

  datatype Listing = Listing(ttl: nat, cookie: nat, eof: byte, entries: seq<Entry>)

  datatype Decoded = Bad | Good(listing: Listing, rest: seq<byte>)

  datatype Entries = BadEntries | GoodEntries(entries: seq<Entry>, rest: seq<byte>)

  function EntryValues(e: Entry): seq<Value> {
    [B(e.name), B(e.objectId), N(e.ino), N(e.mode)]
  }

  predicate WellFormedEntry(e: Entry) {
    |e.name| < U32_LIMIT && |e.objectId| == 16 && e.ino < U64_LIMIT && e.mode < U32_LIMIT
  }

  predicate WellFormed(l: Listing) {
    && l.ttl < U32_LIMIT && l.cookie < U64_LIMIT && |l.entries| < U32_LIMIT
    && forall i :: 0 <= i < |l.entries| ==> WellFormedEntry(l.entries[i])
  }

  lemma EntryFits(e: Entry)
    requires WellFormedEntry(e)
    ensures AllFit(ENTRY, EntryValues(e))
  {
    CapacityValues();
  }

  function EncodeEntry(e: Entry): seq<byte>
    requires WellFormedEntry(e)
  {
    EntryFits(e);
    Encode(ENTRY, EntryValues(e))
  }

  function EncodeEntries(es: seq<Entry>): seq<byte>
    requires forall i :: 0 <= i < |es| ==> WellFormedEntry(es[i])
  {
    if es == [] then [] else EncodeEntry(es[0]) + EncodeEntries(es[1..])
  }

  function HeadValues(l: Listing): seq<Value> {
    [N(l.ttl), N(l.cookie), N(l.eof), N(|l.entries|)]
  }

  lemma HeadFits(l: Listing)
    requires WellFormed(l)
    ensures AllFit(HEAD, HeadValues(l))
  {
    CapacityValues();
  }

  function EncodeListing(l: Listing): seq<byte>
    requires WellFormed(l)
  {
    HeadFits(l);
    Encode(HEAD, HeadValues(l)) + EncodeEntries(l.entries)
  }

  /** The entry at the front of b, read field by field. */
  function EntryOf(vs: seq<Value>): (e: Entry)
    requires AllFit(ENTRY, vs)
    ensures WellFormedEntry(e) && EntryValues(e) == vs
  {
    CapacityValues();
    assert Fits(ENTRY[0], vs[0]) && Fits(ENTRY[1], vs[1]) && Fits(ENTRY[2], vs[2]) && Fits(ENTRY[3], vs[3]);
    Entry(vs[0].bytes, vs[1].bytes, vs[2].n, vs[3].n)
  }

  function DecodeEntries(b: seq<byte>, count: nat): Entries
    decreases count
  {
    if count == 0 then GoodEntries([], b)
    else
      match Decode(ENTRY, b)
      case Malformed => BadEntries
      case Parsed(vs, rest) =>
        EncodeOfDecode(ENTRY, b);
        match DecodeEntries(rest, count - 1)
        case BadEntries => BadEntries
        case GoodEntries(es, rest') => GoodEntries([EntryOf(vs)] + es, rest')
  }

  function DecodeListing(b: seq<byte>): Decoded {
    match Decode(HEAD, b)
    case Malformed => Bad
    case Parsed(vs, rest) =>
      EncodeOfDecode(HEAD, b);
      HeadNumbers(vs);
      match DecodeEntries(rest, vs[3].n)
      case BadEntries => Bad
      case GoodEntries(es, rest') => Good(Listing(vs[0].n, vs[1].n, vs[2].n, es), rest')
  }

  lemma HeadNumbers(vs: seq<Value>)
    requires AllFit(HEAD, vs)
    ensures forall i :: 0 <= i < 4 ==> vs[i].N?
    ensures vs[0].n < U32_LIMIT && vs[1].n < U64_LIMIT && vs[2].n < 0x100 && vs[3].n < U32_LIMIT
  {
    CapacityValues();
    assert Fits(HEAD[0], vs[0]) && Fits(HEAD[1], vs[1]) && Fits(HEAD[2], vs[2]) && Fits(HEAD[3], vs[3]);
  }

  // ---------------------------------------------------------------------
  // Soundness and completeness of the reading
  // ---------------------------------------------------------------------

  lemma EncodeEntriesCons(e: Entry, es: seq<Entry>)
    requires WellFormedEntry(e) && forall i :: 0 <= i < |es| ==> WellFormedEntry(es[i])
    ensures EncodeEntries([e] + es) == EncodeEntry(e) + EncodeEntries(es)
  {
    hide EncodeEntry, WellFormedEntry;
    assert ([e] + es)[1..] == es;
  }

  lemma DecodeEntriesCons(b: seq<byte>, count: nat)
    requires count > 0
    ensures Decode(ENTRY, b).Parsed? ==> AllFit(ENTRY, Decode(ENTRY, b).values)
    ensures DecodeEntries(b, count) ==
      match Decode(ENTRY, b) {
        case Malformed => BadEntries
        case Parsed(vs, rest) => Prepend([EntryOf(vs)], DecodeEntries(rest, count - 1))
      }
  {
    if Decode(ENTRY, b).Parsed? {
      EncodeOfDecode(ENTRY, b);
    }
    hide Decode, EntryOf;
  }

  lemma {:induction false} DecodeOfEncodeEntries(es: seq<Entry>, rest: seq<byte>)
    requires forall i :: 0 <= i < |es| ==> WellFormedEntry(es[i])
    ensures DecodeEntries(EncodeEntries(es) + rest, |es|) == GoodEntries(es, rest)
  {
    if es == [] {
      assert EncodeEntries(es) + rest == rest;
    } else {
      var e, tail := es[0], EncodeEntries(es[1..]);
      assert es == [e] + es[1..];
      EncodeEntriesCons(e, es[1..]);
      EntryFits(e);
      Reassociate(EncodeEntry(e), tail, rest);
      DecodeOfEncode(ENTRY, EntryValues(e), tail + rest);
      DecodeOfEncodeEntries(es[1..], rest);
      hide Encode, Decode, EncodeEntries, DecodeEntries;
      DecodeEntriesCons(EncodeEntries(es) + rest, |es|);
      assert EntryOf(EntryValues(e)) == e;
    }
  }

  lemma {:induction false} EncodeOfDecodeEntries(b: seq<byte>, count: nat)
    requires DecodeEntries(b, count).GoodEntries?
    ensures
      var r := DecodeEntries(b, count);
      && |r.entries| == count
      && (forall i :: 0 <= i < count ==> WellFormedEntry(r.entries[i]))
      && b == EncodeEntries(r.entries) + r.rest
      && 32 * count <= |EncodeEntries(r.entries)|
    decreases count
  {
    if count == 0 {
    } else {
      hide Decode, EncodeEntry, EntryOf, WellFormedEntry, EncodeEntries, DecodeEntries;
      DecodeEntriesCons(b, count);
      EncodeOfDecodeEntry(b);
      var p := Decode(ENTRY, b);
      var e := EntryOf(p.values);
      EncodeOfDecodeEntries(p.rest, count - 1);
      var r := DecodeEntries(p.rest, count - 1);
      EncodeEntriesCons(e, r.entries);
      Reassociate(EncodeEntry(e), EncodeEntries(r.entries), r.rest);
    }
  }

  lemma EncodeOfDecodeEntry(b: seq<byte>)
    requires Decode(ENTRY, b).Parsed?
    ensures
      var p := Decode(ENTRY, b);
      && AllFit(ENTRY, p.values)
      && WellFormedEntry(EntryOf(p.values))
      && b == EncodeEntry(EntryOf(p.values)) + p.rest
      && 32 <= |EncodeEntry(EntryOf(p.values))|
  {
    EncodeOfDecode(ENTRY, b);
    EncodeSize(ENTRY, Decode(ENTRY, b).values);
    EntrySize();
    hide Encode, Decode, MinSize;
  }

  lemma EntrySize()
    ensures MinSize(ENTRY) == 32 && MinSize(HEAD) == 17
  {
    assert ENTRY[1..][1..] == [Int(8), Int(4)];
    assert HEAD[1..][1..] == [Int(1), Int(4)];
  }

  /** Any listing survives encoding, with anything after it. */
  lemma DecodeOfEncodeListing(l: Listing, rest: seq<byte>)
    requires WellFormed(l)
    ensures DecodeListing(EncodeListing(l) + rest) == Good(l, rest)
  {
    HeadFits(l);
    var tail := EncodeEntries(l.entries);
    Reassociate(Encode(HEAD, HeadValues(l)), tail, rest);
    DecodeOfEncode(HEAD, HeadValues(l), tail + rest);
    DecodeOfEncodeEntries(l.entries, rest);
  }

  lemma EncodeOfDecodeListing(b: seq<byte>)
    requires DecodeListing(b).Good?
    ensures
      var d := DecodeListing(b);
      && WellFormed(d.listing)
      && b == EncodeListing(d.listing) + d.rest
      && |b| >= 17 + 32 * |d.listing.entries|
  {
    var p := Decode(HEAD, b);
    EncodeOfDecode(HEAD, b);
    HeadNumbers(p.values);
    EncodeOfDecodeEntries(p.rest, p.values[3].n);
    EncodeSize(HEAD, p.values);
    EntrySize();
    hide Encode, Decode, DecodeEntries, EncodeEntries, MinSize;
    var d := DecodeListing(b);
    assert HeadValues(d.listing) == p.values;
    Reassociate(Encode(HEAD, p.values), EncodeEntries(d.listing.entries), d.rest);
  }

  /** The head of an encoded listing: lifetime, cookie, end flag and the number of entries, in this order. */
  lemma ListingFields(l: Listing)
    requires WellFormed(l)
    ensures IntsAt(EncodeListing(l), 0, [4, 8, 1, 4]) == [l.ttl, l.cookie, l.eof, |l.entries|]
  {
    CapacityValues();
    HeadFits(l);
    hide Capacity, Encode, IntsAt, EncodeEntries;
    var widths, ns: seq<nat> := [4, 8, 1, 4], [l.ttl, l.cookie, l.eof, |l.entries|];
    assert HEAD == Ints(widths) && HeadValues(l) == Numbers(ns) && NumbersFit(widths, ns);
    IntsOfEncode([], widths, ns, EncodeEntries(l.entries));
    assert [] + Encode(HEAD, HeadValues(l)) == Encode(HEAD, HeadValues(l));
  }

  /** A body is accepted exactly when it starts with the encoding of a listing, and that listing is returned. */
  lemma AcceptedExactlyWhenEncoded(b: seq<byte>)
    ensures DecodeListing(b).Good? <==>
            exists l, rest :: WellFormed(l) && b == EncodeListing(l) + rest
    ensures DecodeListing(b).Good? ==>
            var d := DecodeListing(b);
            WellFormed(d.listing) && b == EncodeListing(d.listing) + d.rest && |b| >= 17 + 32 * |d.listing.entries|
  {
    if DecodeListing(b).Good? {
      EncodeOfDecodeListing(b);
    }
    forall l, rest | WellFormed(l) && b == EncodeListing(l) + rest ensures DecodeListing(b).Good? {
      DecodeOfEncodeListing(l, rest);
    }
  }

  // ---------------------------------------------------------------------
  // The decoder
  // ---------------------------------------------------------------------

  /** One element of the entry array; a zeroed one holds no name. */
  datatype Slot = Slot(pointer: nat, entry: Entry)

  const EMPTY_SLOT := Slot(0, Entry([], [], 0, 0))

  class Reply {
    var ttl: nat
    var cookie: nat
    var eof: bool
    var count: nat
    /** The entry array and the allocation that holds it; zero is NULL. */
    var block: nat
    var slots: array<Slot>

    constructor ()
      ensures block == 0 && count == 0 && slots.Length == 0 && fresh(slots)
    {
      ttl, cookie, eof, count, block := 0, 0, false, 0, 0;
      slots := new Slot[0];
    }
  }

  function Pointers(slots: seq<Slot>): set<nat> {
    set i | 0 <= i < |slots| && slots[i].pointer != 0 :: slots[i].pointer
  }

  /** Every name is its own allocation. */
  predicate Distinct(slots: seq<Slot>) {
    forall i, j :: 0 <= i < j < |slots| && slots[i].pointer != 0 ==> slots[i].pointer != slots[j].pointer
  }

  /** The array and its names are exactly what was allocated on top of base. */
  ghost predicate Owns(live: set<nat>, base: set<nat>, block: nat, slots: seq<Slot>) {
    && Distinct(slots)
    && block != 0 && block !in base && block !in Pointers(slots)
    && Pointers(slots) !! base
    && live == base + {block} + Pointers(slots)
  }

  /** The fields of an entry after its name. */
  const AFTER_NAME: seq<Shape> := [Blob(16), Int(8), Int(4)]

  lemma DecodeAfterName(b: seq<byte>)
    ensures Decode(AFTER_NAME, b) ==
      match DecodeOne(Blob(16), b) {
        case Malformed => Malformed
        case Parsed(v1, r1) =>
          match DecodeOne(Int(8), r1)
          case Malformed => Malformed
          case Parsed(v2, r2) =>
            match DecodeOne(Int(4), r2)
            case Malformed => Malformed
            case Parsed(v3, r3) => Parsed(v1 + v2 + v3, r3)
      }
  {
    hide DecodeOne;
    DecodeSnoc([Blob(16), Int(8)], Int(4), b);
    DecodeSnoc([Blob(16)], Int(8), b);
    DecodeSnoc([], Blob(16), b);
    assert [Blob(16)] == [] + [Blob(16)];
    assert [Blob(16), Int(8)] == [Blob(16)] + [Int(8)];
    assert AFTER_NAME == [Blob(16), Int(8)] + [Int(4)];
    if DecodeOne(Blob(16), b).Parsed? {
      assert [] + DecodeOne(Blob(16), b).values == DecodeOne(Blob(16), b).values;
    }
  }

  lemma DecodeEntry(b: seq<byte>)
    ensures Decode(ENTRY, b) ==
      match DecodeOne(Text, b) {
        case Malformed => Malformed
        case Parsed(v, rest) =>
          match Decode(AFTER_NAME, rest)
          case Malformed => Malformed
          case Parsed(vs, rest') => Parsed(v + vs, rest')
      }
  {
    assert ENTRY[0] == Text && ENTRY[1..] == AFTER_NAME;
  }

  method ReadAfterName(response: Cursor) returns (ret: nat, id: seq<byte>, ino: nat, mode: nat)
    requires response.Valid()
    modifies response
    ensures response.Valid()
    ensures ret == 0 || ret == EIO
    ensures ret == 0 ==> Decode(AFTER_NAME, old(response.Rest())) == Parsed([B(id), N(ino), N(mode)], response.Rest())
    ensures ret != 0 ==> Decode(AFTER_NAME, old(response.Rest())).Malformed?
  {
    DecodeAfterName(response.Rest());
    hide Decode, DecodeOne, Encode, AllTyped, Capacity, UnLe;
    ino, mode := 0, 0;
    ret, id := response.GetBytes(16);
    if ret == 0 {
      ret, ino := response.GetInt(8);
    }
    if ret == 0 {
      ret, mode := response.GetInt(4);
    }
    assert [B(id)] + [N(ino)] + [N(mode)] == [B(id), N(ino), N(mode)];
  }

  /** Reads entry i into its slot; a name once allocated stays in the slot even when a later field fails. */
  method ReadEntry(heap: Heap, response: Cursor, slots: array<Slot>, i: nat) returns (ret: nat)
    requires heap.Valid() && response.Valid() && response.data.Length < U32_LIMIT
    requires i < slots.Length && slots[i] == EMPTY_SLOT
    modifies heap, response, slots
    ensures heap.Valid() && response.Valid()
    ensures forall j :: 0 <= j < slots.Length && j != i ==> slots[j] == old(slots[j])
    ensures slots[i].pointer == 0 ==> heap.live == old(heap.live)
    ensures slots[i].pointer != 0 ==>
      slots[i].pointer !in old(heap.live) && heap.live == old(heap.live) + {slots[i].pointer}
    ensures heap.budget + 1 >= old(heap.budget)
    ensures ret == 0 ==>
      && slots[i].pointer != 0
      && Decode(ENTRY, old(response.Rest())) == Parsed(EntryValues(slots[i].entry), response.Rest())
    ensures ret == 0 || ret == EIO || ret == ENOMEM
    ensures ret == EIO ==> Decode(ENTRY, old(response.Rest())).Malformed?
    ensures ret == ENOMEM ==> old(heap.budget) == 0
  {
    DecodeEntry(response.Rest());
    hide Decode, DecodeOne, Encode, AllTyped, Capacity, UnLe;
    var text: array<byte>;
    ret, text := response.GetText();
    if ret != 0 {
      return;
    }
    var name := text[..text.Length - 1];
    var p := heap.Alloc();
    if p == 0 {
      return ENOMEM;
    }
    slots[i] := Slot(p, Entry(name, [], 0, 0));
    var id: seq<byte>, ino: nat, mode: nat;
    ret, id, ino, mode := ReadAfterName(response);
    if ret != 0 {
      return;
    }
    slots[i] := Slot(p, Entry(name, id, ino, mode));
    assert [B(name)] + [B(id), N(ino), N(mode)] == EntryValues(slots[i].entry);
  }

  lemma DecodeHead(b: seq<byte>)
    ensures Decode(HEAD, b) ==
      match DecodeOne(Int(4), b) {
        case Malformed => Malformed
        case Parsed(v0, r0) =>
          match DecodeOne(Int(8), r0)
          case Malformed => Malformed
          case Parsed(v1, r1) =>
            match DecodeOne(Int(1), r1)
            case Malformed => Malformed
            case Parsed(v2, r2) =>
              match DecodeOne(Int(4), r2)
              case Malformed => Malformed
              case Parsed(v3, r3) => Parsed(v0 + v1 + v2 + v3, r3)
      }
  {
    hide DecodeOne;
    DecodeSnoc([Int(4), Int(8), Int(1)], Int(4), b);
    DecodeSnoc([Int(4), Int(8)], Int(1), b);
    DecodeSnoc([Int(4)], Int(8), b);
    DecodeSnoc([], Int(4), b);
    assert [Int(4)] == [] + [Int(4)];
    assert [Int(4), Int(8)] == [Int(4)] + [Int(8)];
    assert [Int(4), Int(8), Int(1)] == [Int(4), Int(8)] + [Int(1)];
    assert HEAD == [Int(4), Int(8), Int(1)] + [Int(4)];
    if DecodeOne(Int(4), b).Parsed? {
      assert [] + DecodeOne(Int(4), b).values == DecodeOne(Int(4), b).values;
    }
  }

  method ReadHead(response: Cursor) returns (ret: nat, ttl: nat, cookie: nat, eof: nat, count: nat)
    requires response.Valid()
    modifies response
    ensures response.Valid() && eof < 0x100
    ensures ret == 0 || ret == EIO
    ensures ret == 0 ==>
      Decode(HEAD, old(response.Rest())) == Parsed([N(ttl), N(cookie), N(eof), N(count)], response.Rest())
    ensures ret != 0 ==> Decode(HEAD, old(response.Rest())).Malformed?
  {
    CapacityValues();
    DecodeHead(response.Rest());
    hide Decode, DecodeOne, Encode, AllTyped, Capacity, UnLe;
    cookie, eof, count := 0, 0, 0;
    ret, ttl := response.GetInt(4);
    if ret == 0 {
      ret, cookie := response.GetInt(8);
    }
    if ret == 0 {
      ret, eof := response.GetInt(1);
    }
    if ret == 0 {
      ret, count := response.GetInt(4);
    }
    assert [N(ttl)] + [N(cookie)] + [N(eof)] + [N(count)] == [N(ttl), N(cookie), N(eof), N(count)];
  }

  lemma PointersCons(slots: seq<Slot>)
    requires slots != [] && Distinct(slots)
    ensures Distinct(slots[1..]) && slots[0].pointer !in Pointers(slots[1..])
    ensures Pointers(slots) == Pointers(slots[1..]) + (if slots[0].pointer == 0 then {} else {slots[0].pointer})
  {
    var rest := slots[1..];
    assert forall i :: 0 <= i < |rest| ==> rest[i] == slots[i + 1];
    forall p | p in Pointers(slots)
      ensures p in Pointers(rest) + (if slots[0].pointer == 0 then {} else {slots[0].pointer})
    {
      var i :| 0 <= i < |slots| && slots[i].pointer == p && p != 0;
      assert i > 0 ==> rest[i - 1].pointer == p;
    }
  }

  /** Frees every name and then the array; unread slots hold NULL. */
  method FreeReply(heap: Heap, reply: Reply, ghost base: set<nat>)
    requires heap.Valid()
    requires reply.block != 0 ==>
      Owns(heap.live, base, reply.block, reply.slots[..]) && reply.count == reply.slots.Length
    modifies heap, reply`block, reply`count
    ensures heap.Valid() && reply.block == 0 && heap.budget == old(heap.budget)
    ensures old(reply.block) == 0 ==> heap.live == old(heap.live)
    ensures old(reply.block) != 0 ==> heap.live == base && reply.count == 0
  {
    if reply.block == 0 {
      return;
    }
    ghost var slots := reply.slots[..];
    var i := 0;
    while i < reply.count
      invariant 0 <= i <= reply.count == |slots| && reply.slots[..] == slots && heap.Valid()
      invariant reply.block == old(reply.block) && heap.budget == old(heap.budget)
      invariant Owns(heap.live, base, reply.block, slots[i..])
    {
      PointersCons(slots[i..]);
      assert slots[i..][1..] == slots[i + 1..] && slots[i..][0] == slots[i];
      heap.Free(reply.slots[i].pointer);
      i := i + 1;
    }
    heap.Free(reply.block);
    reply.block, reply.count := 0, 0;
  }

  function EntriesOf(slots: seq<Slot>): (es: seq<Entry>)
    ensures |es| == |slots|
  {
    seq(|slots|, i requires 0 <= i < |slots| => slots[i].entry)
  }

  /** The entry count a body announces. */
  function Announced(body: seq<byte>): nat {
    match Decode(HEAD, body)
    case Malformed => 0
    case Parsed(vs, _) => EncodeOfDecode(HEAD, body); HeadNumbers(vs); vs[3].n
  }

  /** What the whole run of entries decodes to, given what the first ones did. */
  function Prepend(es: seq<Entry>, r: Entries): Entries {
    match r
    case BadEntries => BadEntries
    case GoodEntries(fs, rest) => GoodEntries(es + fs, rest)
  }

  lemma OneMoreEntry(b: seq<byte>, count: nat, e: Entry, rest: seq<byte>, es: seq<Entry>)
    requires count > 0 && Decode(ENTRY, b) == Parsed(EntryValues(e), rest)
    ensures Prepend(es, DecodeEntries(b, count)) == Prepend(es + [e], DecodeEntries(rest, count - 1))
  {
    EncodeOfDecode(ENTRY, b);
    hide Decode, Encode;
    var r := DecodeEntries(rest, count - 1);
    assert EntryOf(EntryValues(e)) == e;
    if r.GoodEntries? {
      Reassociate(es, [e], r.entries);
    }
  }

  lemma NewPointer(slots: seq<Slot>, i: nat, slot: Slot, live: set<nat>, base: set<nat>, block: nat)
    requires i < |slots| && slots[i].pointer == 0 && Owns(live, base, block, slots)
    requires slot.pointer != 0 ==> slot.pointer !in live
    ensures slot.pointer == 0 ==> Owns(live, base, block, slots[i := slot])
    ensures slot.pointer != 0 ==> Owns(live + {slot.pointer}, base, block, slots[i := slot])
  {
    var more := slots[i := slot];
    forall p | p in Pointers(slots) ensures p in Pointers(more) {
      var j :| 0 <= j < |slots| && slots[j].pointer == p && p != 0;
      assert more[j].pointer == p;
    }
    forall p | p in Pointers(more) ensures p in Pointers(slots) || p == slot.pointer {
      var j :| 0 <= j < |more| && more[j].pointer == p && p != 0;
      assert j != i ==> slots[j].pointer == p;
    }
    if slot.pointer != 0 {
      assert more[i].pointer == slot.pointer;
      assert forall j :: 0 <= j < |slots| && slots[j].pointer != 0 ==> slots[j].pointer in Pointers(slots);
      assert Pointers(more) == Pointers(slots) + {slot.pointer};
    } else {
      assert Pointers(more) == Pointers(slots);
    }
  }

  method ReadOwnedEntry(heap: Heap, response: Cursor, slots: array<Slot>, i: nat, ghost base: set<nat>, ghost block: nat)
    returns (ret: nat)
    requires heap.Valid() && response.Valid() && response.data.Length < U32_LIMIT
    requires i < slots.Length && slots[i] == EMPTY_SLOT && Owns(heap.live, base, block, slots[..])
    modifies heap, response, slots
    ensures heap.Valid() && response.Valid() && Owns(heap.live, base, block, slots[..])
    ensures slots[..] == old(slots[..])[i := slots[i]]
    ensures heap.budget + 1 >= old(heap.budget)
    ensures ret == 0 ==>
      && slots[i].pointer != 0
      && Decode(ENTRY, old(response.Rest())) == Parsed(EntryValues(slots[i].entry), response.Rest())
    ensures ret == 0 || ret == EIO || ret == ENOMEM
    ensures ret == EIO ==> Decode(ENTRY, old(response.Rest())).Malformed?
    ensures ret == ENOMEM ==> old(heap.budget) == 0
  {
    hide Decode, Owns, Heap.Valid, Cursor.Valid, Cursor.Rest, EntryValues;
    ghost var before, live := slots[..], heap.live;
    ret := ReadEntry(heap, response, slots, i);
    assert slots[..] == before[i := slots[i]];
    NewPointer(before, i, slots[i], live, base, block);
  }

  /** After the entries es, what is left of a reading of the whole is that of n entries from rest. */
  predicate Remains(whole: Entries, es: seq<Entry>, rest: seq<byte>, n: nat) {
    whole == Prepend(es, DecodeEntries(rest, n))
  }

  lemma RemainsAll(rest: seq<byte>, n: nat)
    ensures Remains(DecodeEntries(rest, n), [], rest, n)
  {
    hide DecodeEntries;
  }

  lemma RemainsMore(whole: Entries, es: seq<Entry>, rest: seq<byte>, n: nat, e: Entry, rest': seq<byte>)
    requires Remains(whole, es, rest, n) && n > 0 && Decode(ENTRY, rest) == Parsed(EntryValues(e), rest')
    ensures Remains(whole, es + [e], rest', n - 1)
  {
    OneMoreEntry(rest, n, e, rest', es);
    hide Decode, DecodeEntries, Prepend, EntryValues;
  }

  lemma RemainsBad(whole: Entries, es: seq<Entry>, rest: seq<byte>, n: nat)
    requires Remains(whole, es, rest, n) && n > 0 && Decode(ENTRY, rest).Malformed?
    ensures whole.BadEntries?
  {
    NoMoreEntries(rest, n);
    hide Decode, DecodeEntries;
  }

  lemma RemainsNothing(whole: Entries, es: seq<Entry>, rest: seq<byte>)
    requires Remains(whole, es, rest, 0)
    ensures whole == GoodEntries(es, rest)
  {
    NoEntries(rest);
    hide DecodeEntries;
    assert es + [] == es;
  }

  /** One turn of the loop over the announced entries. */
  method ReadNextEntry(heap: Heap, response: Cursor, slots: array<Slot>, i: nat,
                       ghost es: seq<Entry>, ghost whole: Entries, ghost base: set<nat>, ghost block: nat)
    returns (ret: nat, ghost es': seq<Entry>)
    requires heap.Valid() && response.Valid() && response.data.Length < U32_LIMIT
    requires i < slots.Length && Progress(slots[..], i, es) && Owns(heap.live, base, block, slots[..])
    requires Remains(whole, es, response.Rest(), slots.Length - i)
    modifies heap, response, slots
    ensures heap.Valid() && response.Valid() && Owns(heap.live, base, block, slots[..])
    ensures heap.budget + 1 >= old(heap.budget)
    ensures ret == 0 || ret == EIO || ret == ENOMEM
    ensures ret == 0 ==>
      Progress(slots[..], i + 1, es') && Remains(whole, es', response.Rest(), slots.Length - i - 1)
    ensures ret == EIO ==> whole.BadEntries?
    ensures ret == ENOMEM ==> old(heap.budget) == 0
  {
    hide Decode, Remains, Owns, Heap.Valid, Cursor.Valid, Cursor.Rest, EntryValues, Progress;
    ghost var before, rest := slots[..], response.Rest();
    ProgressAt(before, i, es);
    ret := ReadOwnedEntry(heap, response, slots, i, base, block);
    ghost var slot := slots[i];
    es' := es + [slot.entry];
    if ret == 0 {
      RemainsMore(whole, es, rest, slots.Length - i, slot.entry, response.Rest());
      OneMoreSlot(before, i, es, slot);
    } else if ret == EIO {
      RemainsBad(whole, es, rest, slots.Length - i);
    }
  }

  /** The loop over the announced entries. */
  method ReadEntries(heap: Heap, response: Cursor, slots: array<Slot>, ghost base: set<nat>, ghost block: nat)
    returns (ret: nat)
    requires heap.Valid() && response.Valid() && response.data.Length < U32_LIMIT
    requires forall j :: 0 <= j < slots.Length ==> slots[j] == EMPTY_SLOT
    requires Owns(heap.live, base, block, slots[..])
    modifies heap, response, slots
    ensures heap.Valid() && response.Valid() && Owns(heap.live, base, block, slots[..])
    ensures ret == 0 || ret == EIO || ret == ENOMEM
    ensures ret == 0 ==>
      && DecodeEntries(old(response.Rest()), slots.Length) == GoodEntries(EntriesOf(slots[..]), response.Rest())
      && forall j :: 0 <= j < slots.Length ==> slots[j].pointer != 0
    ensures ret == EIO ==> DecodeEntries(old(response.Rest()), slots.Length).BadEntries?
    ensures ret == ENOMEM ==> old(heap.budget) < slots.Length
  {
    ret := 0;
    ghost var whole := DecodeEntries(response.Rest(), slots.Length);
    var i := 0;
    ghost var es: seq<Entry> := [];
    hide DecodeEntries, Remains, Owns, Heap.Valid, Cursor.Valid, Cursor.Rest, EntriesOf, Progress;
    RemainsAll(response.Rest(), slots.Length);
    NoProgress(slots[..]);
    while i < slots.Length
      invariant 0 <= i <= slots.Length && ret == 0
      invariant heap.Valid() && response.Valid() && Owns(heap.live, base, block, slots[..])
      invariant Progress(slots[..], i, es) && Remains(whole, es, response.Rest(), slots.Length - i)
      invariant heap.budget + i >= old(heap.budget)
    {
      ret, es := ReadNextEntry(heap, response, slots, i, es, whole, base, block);
      if ret != 0 {
        return;
      }
      i := i + 1;
    }
    ProgressDone(slots[..], es);
    RemainsNothing(whole, es, response.Rest());
  }

  /** The first i slots hold the entries read so far, with their names; the others are still empty. */
  predicate Progress(slots: seq<Slot>, i: nat, es: seq<Entry>) {
    && i <= |slots| && es == EntriesOf(slots[..i])
    && (forall j :: 0 <= j < i ==> slots[j].pointer != 0)
    && (forall j :: i <= j < |slots| ==> slots[j] == EMPTY_SLOT)
  }

  lemma NoProgress(slots: seq<Slot>)
    requires forall j :: 0 <= j < |slots| ==> slots[j] == EMPTY_SLOT
    ensures Progress(slots, 0, [])
  {
  }

  lemma ProgressAt(slots: seq<Slot>, i: nat, es: seq<Entry>)
    requires Progress(slots, i, es) && i < |slots|
    ensures slots[i] == EMPTY_SLOT
  {
  }

  lemma OneMoreSlot(slots: seq<Slot>, i: nat, es: seq<Entry>, slot: Slot)
    requires Progress(slots, i, es) && i < |slots| && slot.pointer != 0
    ensures Progress(slots[i := slot], i + 1, es + [slot.entry])
  {
    assert slots[i := slot][..i] == slots[..i];
    EntriesSnoc(slots[i := slot], i);
    hide EntriesOf;
  }

  lemma ProgressDone(slots: seq<Slot>, es: seq<Entry>)
    requires Progress(slots, |slots|, es)
    ensures es == EntriesOf(slots) && forall j :: 0 <= j < |slots| ==> slots[j].pointer != 0
  {
    assert slots[..|slots|] == slots;
  }

  lemma EntriesSnoc(slots: seq<Slot>, i: nat)
    requires i < |slots|
    ensures EntriesOf(slots[..i + 1]) == EntriesOf(slots[..i]) + [slots[i].entry]
  {
  }

  lemma NoEntries(b: seq<byte>)
    ensures DecodeEntries(b, 0) == GoodEntries([], b)
  {
  }

  lemma NoMoreEntries(b: seq<byte>, count: nat)
    requires count > 0
    ensures Decode(ENTRY, b).Malformed? ==> DecodeEntries(b, count).BadEntries?
  {
  }

  lemma ListingFrom(body: seq<byte>, ttl: nat, cookie: nat, eof: byte, count: nat, rest: seq<byte>)
    requires Decode(HEAD, body) == Parsed([N(ttl), N(cookie), N(eof), N(count)], rest)
    ensures Announced(body) == count
    ensures DecodeListing(body) ==
      match DecodeEntries(rest, count) {
        case BadEntries => Bad
        case GoodEntries(es, rest') => Good(Listing(ttl, cookie, eof, es), rest')
      }
  {
  }

  lemma NoListing(body: seq<byte>)
    ensures Decode(HEAD, body).Malformed? ==> DecodeListing(body).Bad?
  {
  }

  /** The reply fields hold the listing, and the array owns one live allocation per name. */
  ghost predicate Holds(reply: Reply, l: Listing)
    reads reply, reply.slots
  {
    && reply.ttl == l.ttl && reply.cookie == l.cookie && reply.eof == (l.eof != 0)
    && reply.count == |l.entries|
    && (reply.count == 0 ==> reply.block == 0)
    && (reply.count > 0 ==> reply.block != 0 && EntriesOf(reply.slots[..]) == l.entries)
  }

  /** Allocates the array, reads into it, and frees everything again if a read fails. */
  method FillEntries(heap: Heap, response: Cursor, reply: Reply) returns (ret: nat)
    requires heap.Valid() && response.Valid() && response.data.Length < U32_LIMIT && reply.block == 0 && reply.count > 0
    modifies heap, response, reply`block, reply`count, reply`slots
    ensures heap.Valid() && response.Valid()
    ensures ret == 0 || ret == EIO || ret == ENOMEM
    ensures ret == 0 ==>
      && reply.count == old(reply.count) && reply.slots.Length == reply.count && reply.block != 0 && fresh(reply.slots)
      && Owns(heap.live, old(heap.live), reply.block, reply.slots[..])
      && (forall j :: 0 <= j < reply.slots.Length ==> reply.slots[j].pointer != 0)
      && DecodeEntries(old(response.Rest()), reply.count) == GoodEntries(EntriesOf(reply.slots[..]), response.Rest())
    ensures ret == EIO ==> DecodeEntries(old(response.Rest()), old(reply.count)).BadEntries?
    ensures ret == ENOMEM ==> old(heap.budget) <= old(reply.count)
    ensures ret != 0 ==> reply.block == 0 && heap.live == old(heap.live)
  {
    ghost var base := heap.live;
    reply.block := heap.Alloc();
    if reply.block == 0 {
      return ENOMEM;
    }
    reply.slots := new Slot[reply.count](_ => EMPTY_SLOT);
    assert Pointers(reply.slots[..]) == {};
    assert Owns(heap.live, base, reply.block, reply.slots[..]);
    hide Decode, DecodeEntries, Owns, Cursor.Valid, Cursor.Rest, Heap.Valid;
    ret := ReadEntries(heap, response, reply.slots, base, reply.block);
    if ret != 0 {
      FreeReply(heap, reply, base);
    }
  }

  /**
   * Decodes a READDIR body.  With enough memory it succeeds exactly on the
   * bodies that start with a listing and stores that listing.  A failure leaves
   * a NULL array and gives back every allocation it made, each exactly once.
   */
  method DecodeReply(heap: Heap, body: seq<byte>, reply: Reply) returns (ret: nat)
    requires heap.Valid() && |body| < U32_LIMIT && reply.block == 0
    modifies heap, reply
    ensures heap.Valid()
    ensures old(heap.budget) > Announced(body) ==> (ret == 0 <==> DecodeListing(body).Good?)
    ensures ret == 0 ==> DecodeListing(body).Good? && Holds(reply, DecodeListing(body).listing)
    ensures ret == 0 && reply.count == 0 ==> heap.live == old(heap.live)
    ensures ret == 0 && reply.count > 0 ==>
      && Owns(heap.live, old(heap.live), reply.block, reply.slots[..])
      && (forall j :: 0 <= j < reply.slots.Length ==> reply.slots[j].pointer != 0)
      && fresh(reply.slots)
    ensures ret != 0 ==> reply.block == 0 && heap.live == old(heap.live)
  {
    NoListing(body);
    hide Decode, DecodeEntries, DecodeListing, Announced, Owns, Cursor.Valid, Cursor.Rest, Heap.Valid;
    var response := OpenBody(body);
    var ttl: nat, cookie: nat, eof: nat, count: nat;
    ret, ttl, cookie, eof, count := ReadHead(response);
    if ret != 0 {
      return;
    }
    ListingFrom(body, ttl, cookie, eof, count, response.Rest());
    reply.ttl, reply.cookie, reply.eof, reply.count := ttl, cookie, eof != 0, count;
    if count == 0 {
      NoEntries(response.Rest());
      return;
    }
    ret := FillEntries(heap, response, reply);
  }
}
