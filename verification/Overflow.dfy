/** Values longer than 512 bytes (internal/engine/sql/kv/btree.go and node.go): a prefix in the
    leaf slot and the rest in a chain of overflow pages. */
module Overflow {
  import opened Wrappers
  import opened Bytes
  import opened SortedEntries
  import opened Tree
  import opened NodeCodec
  import opened PagerSpec
  import opened KvCrash
  import Pager
  import Disk
  import Wal

  const CHUNK_SIZE: nat := 4075
  const MAX_CHAIN: nat := 5000

  // ----- overflow pages -----

  function EncodeOverflow(next: U64, chunk: Bytes): (b: Bytes)
    requires |chunk| <= CHUNK_SIZE
    ensures |b| == BODY_SIZE
  {
    [TYPE_OVERFLOW] + Put64(next) + Fixed(chunk, CHUNK_SIZE)
  }

  /** The next pointer and all 4075 bytes, padding included. */
  function DecodeOverflow(b: Bytes): (r: Option<(U64, Bytes)>)
    ensures r.Some? ==> |r.value.1| == CHUNK_SIZE
  {
    if |b| != BODY_SIZE || b[0] != TYPE_OVERFLOW then None
    else Some((Get64(b[1..9]), b[9..]))
  }

  lemma OverflowPageRoundTrip(next: U64, chunk: Bytes)
    requires |chunk| <= CHUNK_SIZE
    ensures DecodeOverflow(EncodeOverflow(next, chunk)) == Some((next, Fixed(chunk, CHUNK_SIZE)))
    ensures Fixed(chunk, CHUNK_SIZE)[..|chunk|] == chunk
  {
    Get64Put64(next);
    var b := EncodeOverflow(next, chunk);
    assert b[1..9] == Put64(next);
    Halves([TYPE_OVERFLOW] + Put64(next), Fixed(chunk, CHUNK_SIZE));
  }

  // ----- the chain -----

  function Min(a: nat, b: nat): nat {
    if a < b then a else b
  }

  /** Pages needed for what does not fit the slot. */
  function ChainLength(n: nat): nat {
    (n - Min(n, PREFIX_SIZE) + CHUNK_SIZE - 1) / CHUNK_SIZE
  }

  /** Bytes of the value in the slot and the first i pages. */
  function Covered(n: nat, i: nat): nat {
    Min(PREFIX_SIZE + i * CHUNK_SIZE, n)
  }

  function Chunk(v: Bytes, i: nat): (c: Bytes)
    ensures |c| <= CHUNK_SIZE
  {
    assert Covered(|v|, i + 1) - Covered(|v|, i) <= CHUNK_SIZE;
    v[Covered(|v|, i)..Covered(|v|, i + 1)]
  }

  function NextOf(ids: seq<nat>, i: nat): nat {
    if i + 1 < |ids| then ids[i + 1] else SENTINEL
  }

  /** The i-th page of the chain. */
  ghost function ChainPage(ids: seq<nat>, v: Bytes, i: nat): Bytes
    requires forall j | 0 <= j < |ids| :: ids[j] < U64_LIMIT
  {
    EncodeOverflow(NextOf(ids, i), Chunk(v, i))
  }

  /** The pages of the chain hold the rest of v, linked in order. */
  ghost predicate ChainOn(bodies: map<nat, Bytes>, ids: seq<nat>, v: Bytes) {
    && (forall i | 0 <= i < |ids| :: 0 < ids[i] < SENTINEL && ids[i] in bodies)
    && (forall i | 0 <= i < |ids| :: bodies[ids[i]] == ChainPage(ids, v, i))
  }

  /** What the leaf gets: the first page's id, then the whole value. */
  function Packed(ids: seq<nat>, v: Bytes): Bytes
    requires forall i | 0 <= i < |ids| :: ids[i] < U64_LIMIT
  {
    Put64(if ids == [] then 0 else ids[0]) + v
  }

  /** readOverflowValue from one page on, with acc already copied. */
  function Follow(bodies: map<nat, Bytes>, page: nat, acc: Bytes, total: nat, n: nat): Option<Bytes>
    requires |acc| <= total && n <= MAX_CHAIN
    decreases MAX_CHAIN - n
  {
    if page == SENTINEL || page == 0 then (if |acc| == total then Some(acc) else None)
    else if n >= MAX_CHAIN || page !in bodies then None
    else
      match DecodeOverflow(bodies[page])
      case None => None
      case Some(p) => Follow(bodies, p.0, acc + p.1[..Min(CHUNK_SIZE, total - |acc|)], total, n + 1)
  }

  /** The value behind a reference found in a leaf. */
  function ReadValue(bodies: map<nat, Bytes>, ref: ValueRef): Option<Bytes>
    requires ref.Overflow? ==> |ref.prefix| <= ref.total
  {
    match ref
    case Inline(v) => Some(v)
    case Overflow(total, prefix, page) => Follow(bodies, page, prefix, total, 0)
  }

  // ----- the round trip -----

  lemma ChainBound(n: nat)
    requires MAX_VAL_SIZE < n <= MAX_STORABLE
    ensures 1 <= ChainLength(n) <= 4117 < MAX_CHAIN
    ensures Covered(n, ChainLength(n)) == n
    ensures forall i | 0 <= i < ChainLength(n) :: Covered(n, i) == PREFIX_SIZE + i * CHUNK_SIZE < n
  {
    var m := ChainLength(n);
    assert m * CHUNK_SIZE >= n - PREFIX_SIZE > (m - 1) * CHUNK_SIZE;
    forall i | 0 <= i < m ensures Covered(n, i) == PREFIX_SIZE + i * CHUNK_SIZE < n {
      assert i * CHUNK_SIZE <= (m - 1) * CHUNK_SIZE;
    }
  }

  lemma ChunkStep(v: Bytes, i: nat)
    requires MAX_VAL_SIZE < |v| <= MAX_STORABLE && i < ChainLength(|v|)
    ensures |Chunk(v, i)| == Min(CHUNK_SIZE, |v| - Covered(|v|, i))
    ensures v[..Covered(|v|, i)] + Chunk(v, i) == v[..Covered(|v|, i + 1)]
  {
    ChainBound(|v|);
  }

  lemma {:induction false} FollowChain(bodies: map<nat, Bytes>, ids: seq<nat>, v: Bytes, i: nat)
    requires MAX_VAL_SIZE < |v| <= MAX_STORABLE && |ids| == ChainLength(|v|) < MAX_CHAIN && ChainOn(bodies, ids, v) && i <= |ids|
    ensures Follow(bodies, if i < |ids| then ids[i] else SENTINEL, v[..Covered(|v|, i)], |v|, i) == Some(v)
    decreases |ids| - i
  {
    hide DecodeOverflow, EncodeOverflow, Chunk, Covered, ChainLength;
    if i == |ids| {
      ChainBound(|v|);
      assert v[..|v|] == v;
    } else {
      var c := Chunk(v, i);
      assert NextOf(ids, i) < U64_LIMIT;
      OverflowPageRoundTrip(NextOf(ids, i), c);
      ChunkStep(v, i);
      FollowChain(bodies, ids, v, i + 1);
    }
  }

  /** Reading the slot and the chain just written gives the value back. */
  lemma OverflowRoundTrip(bodies: map<nat, Bytes>, ids: seq<nat>, v: Bytes)
    requires MAX_VAL_SIZE < |v| <= MAX_STORABLE && |ids| == ChainLength(|v|) && ChainOn(bodies, ids, v)
    ensures 1 <= |ids| <= 4117 < MAX_CHAIN
    ensures |Packed(ids, v)| <= MAX_VAL_SIZE_ENTERPRISE
    ensures var ref := DecodeValue(EncodeValue(Packed(ids, v)));
      ref.Some? && ref.value == Overflow(|v|, v[..PREFIX_SIZE], ids[0]) && ReadValue(bodies, ref.value) == Some(v)
  {
    ChainBound(|v|);
    SlotRoundTrip(ids[0], v);
    hide DecodeValue, EncodeValue, ChainLength, Follow;
    FollowChain(bodies, ids, v, 0);
    assert Covered(|v|, 0) == PREFIX_SIZE;
  }

  ghost predicate EndsChain(page: nat) {
    page == 0 || page == 0xFFFF_FFFF_FFFF_FFFF
  }

  ghost predicate IsOverflow(bodies: map<nat, Bytes>, page: nat) {
    page in bodies && |bodies[page]| == 4084 && bodies[page][0] == 4
  }

  /** The pages met from `page` on, up to the pointer that ends the chain. */
  ghost predicate Links(bodies: map<nat, Bytes>, page: nat, ids: seq<nat>)
    decreases |ids|
  {
    if ids == [] then EndsChain(page)
    else
      && ids[0] == page && !EndsChain(page) && IsOverflow(bodies, page)
      && Links(bodies, Get64(bodies[page][1..9]), ids[1..])
  }

  /** Everything the pages carry, in order. */
  ghost function Joined(bodies: map<nat, Bytes>, ids: seq<nat>): (r: Bytes)
    requires forall i | 0 <= i < |ids| :: IsOverflow(bodies, ids[i])
    ensures |r| == 4075 * |ids|
  {
    if ids == [] then []
    else
      assert IsOverflow(bodies, ids[0]);
      bodies[ids[0]][9..] + Joined(bodies, ids[1..])
  }

  lemma {:induction false} LinksPages(bodies: map<nat, Bytes>, page: nat, ids: seq<nat>)
    requires Links(bodies, page, ids)
    ensures forall i | 0 <= i < |ids| :: IsOverflow(bodies, ids[i])
    decreases |ids|
  {
    if ids != [] { LinksPages(bodies, Get64(bodies[page][1..9]), ids[1..]); }
  }

  /** A chain read succeeds exactly on a chain of at most 5000 overflow pages that brings the value
      to its recorded length, and gives what the slot and the pages carry, cut to that length. */
  lemma {:induction false} FollowLinks(bodies: map<nat, Bytes>, page: nat, acc: Bytes, total: nat, n: nat, ids: seq<nat>)
    requires |acc| <= total && n <= MAX_CHAIN && Links(bodies, page, ids)
    requires forall i | 0 <= i < |ids| :: IsOverflow(bodies, ids[i])
    ensures Follow(bodies, page, acc, total, n) ==
      if n + |ids| <= 5000 && |acc| + 4075 * |ids| >= total then Some((acc + Joined(bodies, ids))[..total]) else None
    decreases |ids|
  {
    hide Get64;
    if ids == [] {
      assert acc + [] == acc;
    } else if n < 5000 {
      var b, rest := bodies[page], Joined(bodies, ids[1..]);
      var next := acc + b[9..][..Min(4075, total - |acc|)];
      FollowLinks(bodies, Get64(b[1..9]), next, total, n + 1, ids[1..]);
      if |acc| + 4075 * |ids| >= total {
        assert (next + rest)[..total] == (acc + (b[9..] + rest))[..total];
      }
    }
  }

  lemma {:induction false} FollowNeeds(bodies: map<nat, Bytes>, page: nat, acc: Bytes, total: nat, n: nat) returns (ids: seq<nat>)
    requires |acc| <= total && n <= MAX_CHAIN && Follow(bodies, page, acc, total, n).Some?
    ensures Links(bodies, page, ids)
    decreases MAX_CHAIN - n
  {
    hide Get64;
    ids := [];
    if !EndsChain(page) {
      var b := bodies[page];
      var rest := FollowNeeds(bodies, Get64(b[1..9]), acc + b[9..][..Min(4075, total - |acc|)], total, n + 1);
      ids := [page] + rest;
    }
  }

  /** Which references can be read: exactly those whose chain has at most 5000 pages and enough bytes. */
  lemma ReadValueIff(bodies: map<nat, Bytes>, ref: ValueRef, v: Bytes)
    requires ref.Overflow? && |ref.prefix| <= ref.total
    ensures ReadValue(bodies, ref) == Some(v) <==> exists ids: seq<nat> ::
      && Links(bodies, ref.page, ids) && |ids| <= 5000
      && (forall i | 0 <= i < |ids| :: IsOverflow(bodies, ids[i]))
      && |ref.prefix| + 4075 * |ids| >= ref.total && v == (ref.prefix + Joined(bodies, ids))[..ref.total]
  {
    hide Follow, Links, Joined;
    forall ids: seq<nat> | Links(bodies, ref.page, ids)
      ensures forall i | 0 <= i < |ids| :: IsOverflow(bodies, ids[i])
      ensures ReadValue(bodies, ref) == if |ids| <= 5000 && |ref.prefix| + 4075 * |ids| >= ref.total
          then Some((ref.prefix + Joined(bodies, ids))[..ref.total]) else None
    {
      LinksPages(bodies, ref.page, ids);
      FollowLinks(bodies, ref.page, ref.prefix, ref.total, 0, ids);
    }
    if ReadValue(bodies, ref).Some? {
      var ids := FollowNeeds(bodies, ref.page, ref.prefix, ref.total, 0);
    }
  }

  lemma SlotRoundTrip(first: U64, v: Bytes)
    requires MAX_VAL_SIZE < |v| <= MAX_STORABLE
    ensures DecodeValue(EncodeValue(Put64(first) + v)) == Some(Overflow(|v|, v[..PREFIX_SIZE], first))
  {
    var p := Put64(first) + v;
    var b := EncodeValue(p);
    Get64Put64(first);
    Get32Put32(|v|);
    assert p[..8] == Put64(first) && p[8..8 + PREFIX_SIZE] == v[..PREFIX_SIZE];
    assert b[..4] == Put32(|v|);
    assert b[4..12] == Put64(first);
    assert b[12..] == v[..PREFIX_SIZE];
  }

  /** Set accepts values up to 16 MiB, but the leaf encoder takes them only up to 8 bytes less. */
  lemma StorableIff(k: Key, ids: seq<nat>, v: Bytes)
    requires |k| <= MAX_KEY_SIZE && MAX_VAL_SIZE < |v| <= MAX_VAL_SIZE_ENTERPRISE
    requires forall i | 0 <= i < |ids| :: ids[i] < U64_LIMIT
    ensures EncodeLeaf([Entry(k, Packed(ids, v))], SENTINEL).Some? <==> |v| <= MAX_STORABLE
  {
    var es := [Entry(k, Packed(ids, v))];
    hide LeafSlots, Put64, Put16, Zeros;
    assert Ascends(Keys(es));
    assert |es[0].val| == |v| + 8;
  }

  /** A value of exactly 16 MiB passes the check of Set and is refused by the leaf encoder. */
  lemma LargestRefused(k: Key, ids: seq<nat>, v: Bytes)
    requires |k| <= MAX_KEY_SIZE && |v| == MAX_VAL_SIZE_ENTERPRISE
    requires forall i | 0 <= i < |ids| :: ids[i] < U64_LIMIT
    ensures EncodeLeaf([Entry(k, Packed(ids, v))], SENTINEL) == None
  {
    hide EncodeLeaf, Packed;
    StorableIff(k, ids, v);
  }

  // ----- as the store does it -----

  /** prepareOverflow: allocate the chain. */
  method PrepareOverflow(pg: Pager.FilePager, v: Bytes) returns (ids: seq<nat>, packed: Option<Bytes>)
    requires pg.Valid() && !pg.inTxn
    modifies pg`dev, pg`moments, pg`pageCount, pg`freeListHead, pg`freeCount, pg`freeSet, pg`chain
    ensures pg.Valid() && !pg.inTxn
    ensures ChainIds(Bodies(pg.Now()), ids) && forall i | 0 <= i < |ids| :: ids[i] !in old(Bodies(pg.Now()))
    ensures forall id | id in old(Bodies(pg.Now())) :: id in Bodies(pg.Now()) && Bodies(pg.Now())[id] == old(Bodies(pg.Now()))[id]
    ensures packed.Some? ==> |ids| == ChainLength(|v|) && packed.value == Packed(ids, v)
    ensures packed.None? ==> pg.freeSet == {} && pg.pageCount * 4096 >= 0x8000_0000_0000_0000
  {
    hide Inv, Bodies, Alloced, AllocId, IsAllocated, AllocMoments;
    ids := [];
    ghost var bodies := Bodies(pg.Now());
    for i := 0 to ChainLength(|v|)
      invariant pg.Valid() && !pg.inTxn && |ids| == i
      invariant forall j | 0 <= j < i :: ids[j] in Bodies(pg.Now()) && ids[j] !in bodies && 0 < ids[j] < SENTINEL
      invariant forall j, k | 0 <= j < k < i :: ids[j] != ids[k]
      invariant forall id | id in bodies :: id in Bodies(pg.Now()) && Bodies(pg.Now())[id] == bodies[id]
    {
      ghost var s := pg.Now();
      var id := pg.AllocatePage();
      if id.Err? {
        AllocFails(pg.crc, s);
        return ids, None;
      }
      AllocNew(pg.crc, s);
      ids := ids + [id.value];
    }
    return ids, Some(Packed(ids, v));
  }

  lemma AllocFails(crc: Wal.Crc, s: Snap)
    requires Inv(crc, s) && !s.inTxn && !CanAlloc(s)
    ensures s.freeSet == {} && s.pageCount * 4096 >= 0x8000_0000_0000_0000
  {
    NoSpace(crc, s);
  }

  lemma AllocNew(crc: Wal.Crc, s: Snap)
    requires Inv(crc, s) && CanAlloc(s)
    ensures AllocId(s) !in Bodies(s) && 0 < AllocId(s) < SENTINEL && !Alloced(s).inTxn
    ensures AllocId(s) in Bodies(Alloced(s))
    ensures forall id | id in Bodies(s) :: id in Bodies(Alloced(s)) && Bodies(Alloced(s))[id] == Bodies(s)[id]
  {
    hide Inv, Bodies, AllocId;
    AllocKeeps(crc, s);
    AllocInv(crc, s);
  }

  ghost predicate ChainIds(bodies: map<nat, Bytes>, ids: seq<nat>) {
    && (forall i | 0 <= i < |ids| :: 0 < ids[i] < SENTINEL && ids[i] in bodies)
    && (forall i, j | 0 <= i < j < |ids| :: ids[i] != ids[j])
  }

  /** The first n pages are written and nothing else is touched. */
  ghost predicate WrittenUpTo(before: map<nat, Bytes>, bodies: map<nat, Bytes>, ids: seq<nat>, v: Bytes, n: nat)
    requires ChainIds(before, ids) && n <= |ids|
  {
    && bodies.Keys == before.Keys
    && (forall i | 0 <= i < n :: bodies[ids[i]] == ChainPage(ids, v, i))
    && (forall id | id in before && id !in ids :: bodies[id] == before[id])
  }

  lemma WriteNext(before: map<nat, Bytes>, bodies: map<nat, Bytes>, ids: seq<nat>, v: Bytes, n: nat)
    requires ChainIds(before, ids) && n < |ids| && WrittenUpTo(before, bodies, ids, v, n)
    ensures NextOf(ids, n) < U64_LIMIT
    ensures WrittenUpTo(before, bodies[ids[n] := EncodeOverflow(NextOf(ids, n), Chunk(v, n))], ids, v, n + 1)
  {
    assert ChainPage(ids, v, n) == EncodeOverflow(NextOf(ids, n), Chunk(v, n));
    hide EncodeOverflow, Chunk, NextOf, ChainPage;
    var after := bodies[ids[n] := ChainPage(ids, v, n)];
    forall i | 0 <= i < n ensures after[ids[i]] == bodies[ids[i]] {
      assert ids[i] != ids[n];
    }
  }

  /** writeOverflowChain, inside a transaction. */
  method WriteOverflowChain(pg: Pager.FilePager, ids: seq<nat>, v: Bytes)
    requires pg.Valid() && pg.inTxn && ChainIds(Bodies(pg.Now()), ids)
    modifies pg`dev, pg`moments, pg`txnBuffer, pg`walSize, pg`recs
    ensures pg.Valid() && pg.inTxn && ChainOn(Bodies(pg.Now()), ids, v)
    ensures forall id | id in old(Bodies(pg.Now())) && id !in ids ::
      id in Bodies(pg.Now()) && Bodies(pg.Now())[id] == old(Bodies(pg.Now()))[id]
  {
    hide Inv, Bodies, Appended, CurrentView, Grew, EncodeOverflow, Chunk, WrittenUpTo;
    ghost var before := Bodies(pg.Now());
    WriteNone(before, ids, v);
    for i := 0 to |ids|
      invariant pg.Valid() && pg.inTxn && WrittenUpTo(before, Bodies(pg.Now()), ids, v, i)
    {
      ghost var s := pg.Now();
      WriteNext(before, Bodies(s), ids, v, i);
      WrittenKeys(before, Bodies(s), ids, v, i);
      var next := if i + 1 < |ids| then ids[i + 1] else SENTINEL;
      var body := EncodeOverflow(next, Chunk(v, i));
      BodiesAllocated(pg.crc, s, ids[i]);
      AppendKeeps(pg.crc, s, ids[i], body);
      var w := pg.WritePage(ids[i], body);
    }
    WriteAll(before, Bodies(pg.Now()), ids, v);
  }

  lemma WriteNone(before: map<nat, Bytes>, ids: seq<nat>, v: Bytes)
    requires ChainIds(before, ids)
    ensures WrittenUpTo(before, before, ids, v, 0)
  {}

  lemma WrittenKeys(before: map<nat, Bytes>, bodies: map<nat, Bytes>, ids: seq<nat>, v: Bytes, n: nat)
    requires ChainIds(before, ids) && n <= |ids| && WrittenUpTo(before, bodies, ids, v, n)
    ensures bodies.Keys == before.Keys
  {}

  lemma WriteAll(before: map<nat, Bytes>, bodies: map<nat, Bytes>, ids: seq<nat>, v: Bytes)
    requires ChainIds(before, ids) && WrittenUpTo(before, bodies, ids, v, |ids|)
    ensures ChainOn(bodies, ids, v)
    ensures forall id | id in before && id !in ids :: id in bodies && bodies[id] == before[id]
  {
    hide EncodeOverflow, Chunk;
  }

  /** readOverflowValue. */
  method ReadOverflowValue(pg: Pager.FilePager, ref: ValueRef) returns (r: Option<Bytes>)
    requires pg.Valid() && ref.Overflow? && |ref.prefix| <= ref.total
    ensures r == ReadValue(Bodies(pg.Now()), ref)
  {
    hide Inv, Bodies, DecodeOverflow;
    var acc, chainLen := ref.prefix, 0;
    var pageId: nat := ref.page;
    while pageId != SENTINEL && pageId != 0
      invariant |acc| <= ref.total && chainLen <= MAX_CHAIN
      invariant ReadValue(Bodies(pg.Now()), ref) == Follow(Bodies(pg.Now()), pageId, acc, ref.total, chainLen)
      decreases MAX_CHAIN - chainLen
    {
      if chainLen >= MAX_CHAIN {
        return None;
      }
      if pageId in Bodies(pg.Now()) {
        BodiesAllocated(pg.crc, pg.Now(), pageId);
      }
      var body := pg.ReadPage(pageId);
      if body.Err? {
        return None;
      }
      var page := DecodeOverflow(body.value);
      if page.None? {
        return None;
      }
      acc := acc + page.value.1[..Min(CHUNK_SIZE, ref.total - |acc|)];
      pageId, chainLen := page.value.0, chainLen + 1;
    }
    if |acc| != ref.total {
      return None;
    }
    return Some(acc);
  }
}
