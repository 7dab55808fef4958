/** What Open recovers after a crash at each point of a transaction, of a header update and
    of a replay. */
module CrashSafety {
  import opened Wrappers
  import opened Bytes
  import opened Wal
  import opened WalReplay
  import opened Disk

  // ----- the free list -----

  lemma {:induction false} WalkFacts(pages: Images, pageCount: nat, curr: nat, seen: set<nat>, chain: seq<nat>)
    requires Walk(pages, pageCount, curr, seen) == Some(chain)
    ensures forall i | 0 <= i < |chain| :: 0 < chain[i] < pageCount && chain[i] !in seen
    ensures forall i, j | 0 <= i < j < |chain| :: chain[i] != chain[j]
    ensures chain == [] <==> curr == SENTINEL
    ensures chain != [] ==> chain[0] == curr
    decreases |chain|
  {
    if chain != [] {
      var body := Img(pages, curr).body;
      WalkFacts(pages, pageCount, Pointer(body), seen + {curr}, chain[1..]);
      forall i | 0 <= i < |chain| ensures 0 < chain[i] < pageCount && chain[i] !in seen {
        if i > 0 { assert chain[i] == chain[1..][i - 1]; }
      }
      forall i, j | 0 <= i < j < |chain| ensures chain[i] != chain[j] {
        assert chain[j] == chain[1..][j - 1];
        if i > 0 { assert chain[i] == chain[1..][i - 1]; }
      }
    }
  }

  /** The page is readable and points to `next`. */
  ghost predicate PointsTo(pages: Images, id: nat, next: nat) {
    Img(pages, id).PageImg? && |Img(pages, id).body| == BODY_SIZE && Pointer(Img(pages, id).body) == next
  }

  /** What page i of a chain points to. */
  ghost function NextIn(chain: seq<nat>, i: nat): nat {
    if i + 1 < |chain| then chain[i + 1] else SENTINEL
  }

  /** These pages are linked from `curr` to the end marker: each is in range, points to the next, and
      none comes twice. */
  ghost predicate Linked(pages: Images, pageCount: nat, curr: nat, chain: seq<nat>) {
    && curr == (if chain == [] then SENTINEL else chain[0])
    && (forall i | 0 <= i < |chain| :: 0 < chain[i] < pageCount && chain[i] != SENTINEL)
    && (forall i, j | 0 <= i < j < |chain| :: chain[i] != chain[j])
    && (forall i | 0 <= i < |chain| :: PointsTo(pages, chain[i], NextIn(chain, i)))
  }

  lemma LinkedFirst(pages: Images, pageCount: nat, curr: nat, chain: seq<nat>)
    requires chain != [] && Linked(pages, pageCount, curr, chain)
    ensures 0 < curr < pageCount && curr != SENTINEL && curr !in chain[1..] && curr == chain[0]
    ensures exists next :: PointsTo(pages, curr, next) && Linked(pages, pageCount, next, chain[1..])
  {
    hide PointsTo;
    var rest, next := chain[1..], if |chain| > 1 then chain[1] else SENTINEL;
    forall i | 0 <= i < |rest| ensures PointsTo(pages, rest[i], NextIn(rest, i)) {
      assert PointsTo(pages, chain[i + 1], NextIn(chain, i + 1));
    }
    assert PointsTo(pages, chain[0], NextIn(chain, 0)) && Linked(pages, pageCount, next, rest);
  }

  lemma LinkedMore(pages: Images, pageCount: nat, curr: nat, next: nat, rest: seq<nat>)
    requires 0 < curr < pageCount && curr != SENTINEL && curr !in rest
    requires PointsTo(pages, curr, next) && Linked(pages, pageCount, next, rest)
    ensures Linked(pages, pageCount, curr, [curr] + rest)
  {
    hide PointsTo;
    var chain := [curr] + rest;
    forall i | 0 <= i < |chain| ensures PointsTo(pages, chain[i], NextIn(chain, i)) {
      if i > 0 { assert PointsTo(pages, rest[i - 1], NextIn(rest, i - 1)); }
    }
  }

  /** Open's walk gives exactly the chain that is linked on disk, and fails if there is none. */
  lemma {:induction false} WalkIff(pages: Images, pageCount: nat, curr: nat, seen: set<nat>, chain: seq<nat>)
    ensures Walk(pages, pageCount, curr, seen) == Some(chain) <==>
      Linked(pages, pageCount, curr, chain) && forall i | 0 <= i < |chain| :: chain[i] !in seen
    decreases |chain|
  {
    if chain == [] {
      WalkEnds(pages, pageCount, curr, seen);
    } else {
      hide Pointer, Linked;
      var rest := chain[1..];
      assert chain == [chain[0]] + rest;
      if Walk(pages, pageCount, curr, seen) == Some(chain) {
        var next := Pointer(Img(pages, curr).body);
        WalkIff(pages, pageCount, next, seen + {curr}, rest);
        assert curr !in rest && forall i | 1 <= i < |chain| :: chain[i] == rest[i - 1];
        LinkedMore(pages, pageCount, curr, next, rest);
      }
      if Linked(pages, pageCount, curr, chain) && forall i | 0 <= i < |chain| :: chain[i] !in seen {
        LinkedFirst(pages, pageCount, curr, chain);
        var next :| PointsTo(pages, curr, next) && Linked(pages, pageCount, next, rest);
        WalkIff(pages, pageCount, next, seen + {curr}, rest);
      }
    }
  }

  lemma WalkEnds(pages: Images, pageCount: nat, curr: nat, seen: set<nat>)
    ensures Walk(pages, pageCount, curr, seen) == Some([]) <==> curr == SENTINEL
    ensures Linked(pages, pageCount, curr, []) <==> curr == SENTINEL
  {}

  /** A walk reads only the pages on the list. */
  lemma {:induction false} WalkTransfer(p: Images, q: Images, pc: nat, pc': nat, curr: nat, seen: set<nat>, seen': set<nat>, chain: seq<nat>)
    requires Walk(p, pc, curr, seen) == Some(chain) && pc <= pc'
    requires forall i | 0 <= i < |chain| :: Img(q, chain[i]) == Img(p, chain[i]) && chain[i] !in seen'
    ensures Walk(q, pc', curr, seen') == Some(chain)
    decreases |chain|
  {
    WalkFacts(p, pc, curr, seen, chain);
    if chain != [] {
      var body := Img(p, curr).body;
      assert chain[0] == curr;
      var rest := chain[1..];
      WalkFacts(p, pc, Pointer(body), seen + {curr}, rest);
      assert forall i | 0 <= i < |rest| :: rest[i] == chain[i + 1];
      WalkTransfer(p, q, pc, pc', Pointer(body), seen + {curr}, seen' + {curr}, rest);
    }
  }

  // ----- files at rest -----

  /** Header, free list and log agree, and the log holds no committed transaction. */
  ghost predicate Settled(crc: Crc, f: Files, h: Header, chain: seq<nat>, rs: seq<Record>) {
    && Img(f.pages, HEADER_PAGE) == HeadImg(h)
    && Walk(f.pages, h.pageCount, h.head, {}) == Some(chain)
    && |chain| == h.freeCount
    && ValidRecords(rs) && NoEot(rs)
    && f.wal == EncodeAll(crc, rs)
  }

  ghost function ViewOf(pages: Images, h: Header, chain: seq<nat>): View {
    View(h.pageCount, chain, DataPages(pages, h.pageCount, chain))
  }

  /** Replay leaves headers and free list alone. */
  ghost predicate SparesMeta(rs: seq<Record>, chain: seq<nat>) {
    && HEADER_PAGE !in Touched(rs) && MIRROR_PAGE !in Touched(rs)
    && forall i | 0 <= i < |chain| :: chain[i] !in Touched(rs)
  }

  /** Open finds header h and free list `chain`, the log parses, and replaying it gives the data
      pages of `pages`. */
  ghost predicate Reopens(crc: Crc, f: Files, h: Header, chain: seq<nat>, pages: Images) {
    && ChosenHeader(f) == Some(h)
    && Walk(f.pages, h.pageCount, h.head, {}) == Some(chain) && |chain| == h.freeCount
    && Parse(crc, f.wal).Records?
    && SparesMeta(Parse(crc, f.wal).rs, chain)
    && ViewOf(Replay(Parse(crc, f.wal).rs, f.pages), h, chain) == ViewOf(pages, h, chain)
  }

  lemma ReopensRecovers(crc: Crc, f: Files, h: Header, chain: seq<nat>, pages: Images)
    requires Reopens(crc, f, h, chain, pages)
    ensures Recover(crc, f) == Some(ViewOf(pages, h, chain))
  {}

  lemma UncommittedReopens(crc: Crc, f: Files, h: Header, chain: seq<nat>, rs: seq<Record>, pages: Images)
    requires ChosenHeader(f) == Some(h)
    requires Walk(f.pages, h.pageCount, h.head, {}) == Some(chain) && |chain| == h.freeCount
    requires Parse(crc, f.wal) == Records(rs) && NoEot(rs)
    requires ViewOf(f.pages, h, chain) == ViewOf(pages, h, chain)
    ensures Reopens(crc, f, h, chain, pages)
  {
    hide Parse, Walk, TxnIds, ApplyIds, ViewOf;
    ReplayUncommitted(rs, f.pages);
  }

  lemma ParseAll(crc: Crc, rs: seq<Record>)
    requires ValidRecords(rs)
    ensures Parse(crc, EncodeAll(crc, rs)) == Records(rs)
  {
    hide Parse, Encode;
    var n := |EncodeAll(crc, rs)|;
    ParseCut(crc, rs, n);
    assert EncodeAll(crc, rs)[..n] == EncodeAll(crc, rs);
    WholeInMeaning(crc, rs, n, |rs|);
    assert rs[..|rs|] == rs;
  }

  lemma SameView(p: Images, q: Images, h: Header, chain: seq<nat>)
    requires AgreeOff(p, q, {})
    ensures ViewOf(p, h, chain) == ViewOf(q, h, chain)
  {
    assert DataPages(p, h.pageCount, chain) == DataPages(q, h.pageCount, chain);
  }

  /** Pages without unsynced writes survive a crash. */
  lemma SurvivesCrash(dev: Device, f: Files, id: nat)
    requires MayCrashTo(dev, f)
    requires forall i | 0 <= i < |dev.pending| :: dev.pending[i].id != id
    ensures Img(f.pages, id) == Img(dev.files.pages, id)
  {
    assert Unsynced(dev.pending, id) == {};
  }

  lemma NothingUnsynced(dev: Device, f: Files)
    requires MayCrashTo(dev, f) && dev.pending == []
    ensures AgreeOff(f.pages, dev.files.pages, {})
  {
    forall id: nat ensures Img(f.pages, id) == Img(dev.files.pages, id) {
      SurvivesCrash(dev, f, id);
    }
  }

  lemma WalkSame(p: Images, q: Images, h: Header, chain: seq<nat>)
    requires Walk(p, h.pageCount, h.head, {}) == Some(chain)
    requires forall i | 0 <= i < |chain| :: Img(q, chain[i]) == Img(p, chain[i])
    ensures Walk(q, h.pageCount, h.head, {}) == Some(chain)
  {
    WalkTransfer(p, q, h.pageCount, h.pageCount, h.head, {}, {}, chain);
  }

  // ----- inside a transaction -----

  /** The end marker of txn can be read from the log. */
  ghost predicate EotIn(crc: Crc, wal: Bytes, txn: U64) {
    Parse(crc, wal).Records? && Eot(txn) in Parse(crc, wal).rs
  }

  /** Appending a data record: a crash before, during or after leaves the committed state. */
  lemma CrashInAppend(crc: Crc, dev: Device, f: Files, h: Header, chain: seq<nat>, rs: seq<Record>, r: Record)
    requires Settled(crc, dev.files, h, chain, rs) && dev.pending == []
    requires ValidRecord(r) && r.Data? && (dev.walTail == Encode(crc, r) || dev.walTail == [])
    requires MayCrashTo(dev, f)
    ensures Reopens(crc, f, h, chain, dev.files.pages)
  {
    hide Encode, Parse, Walk, TxnIds, ApplyIds;
    var n: nat :| n <= |dev.walTail| && f.wal == dev.files.wal + dev.walTail[..n];
    NothingUnsynced(dev, f);
    WalkSame(dev.files.pages, f.pages, h, chain);
    var rs' := if dev.walTail != [] && n == |Encode(crc, r)| then rs + [r] else rs;
    if dev.walTail == [] {
      assert f.wal == dev.files.wal;
      ParseAll(crc, rs);
    } else {
      ParseTornAppend(crc, rs, r, n);
    }
    SameView(f.pages, dev.files.pages, h, chain);
    UncommittedReopens(crc, f, h, chain, rs', dev.files.pages);
  }

  /** Files at rest, with nothing pending, recover to themselves. */
  lemma SettledRecovers(crc: Crc, f: Files, h: Header, chain: seq<nat>, rs: seq<Record>)
    requires Settled(crc, f, h, chain, rs)
    ensures Reopens(crc, f, h, chain, f.pages)
  {
    hide Parse, Walk, TxnIds, ApplyIds;
    ParseAll(crc, rs);
    UncommittedReopens(crc, f, h, chain, rs, f.pages);
  }

  ghost function TxnWrites(rs: seq<Record>, txn: U64): map<nat, Bytes> {
    Writes(Group(rs, txn))
  }

  /** Writing the end marker: a crash leaves the new state exactly when the marker survived. */
  lemma CrashInEot(crc: Crc, dev: Device, f: Files, h: Header, chain: seq<nat>, rs: seq<Record>, txn: U64)
    requires Settled(crc, dev.files, h, chain, rs) && dev.pending == []
    requires dev.walTail == Encode(crc, Eot(txn))
    requires HEADER_PAGE !in TxnWrites(rs, txn) && MIRROR_PAGE !in TxnWrites(rs, txn)
    requires forall i | 0 <= i < |chain| :: chain[i] !in TxnWrites(rs, txn)
    requires MayCrashTo(dev, f)
    ensures Reopens(crc, f, h, chain,
      if EotIn(crc, f.wal, txn) then dev.files.pages + ImagesOf(TxnWrites(rs, txn)) else dev.files.pages)
  {
    hide Encode, Parse, Walk, TxnIds, ApplyIds, TouchedBy, Writes, Group;
    var n: nat :| n <= |dev.walTail| && f.wal == dev.files.wal + dev.walTail[..n];
    NothingUnsynced(dev, f);
    WalkSame(dev.files.pages, f.pages, h, chain);
    ParseTornAppend(crc, rs, Eot(txn), n);
    if n == |Encode(crc, Eot(txn))| {
      var all := rs + [Eot(txn)];
      assert all[|rs|] == Eot(txn);
      ReplayOneCommit(rs, txn, f.pages);
      OverlayAgree(f.pages, dev.files.pages, ImagesOf(TxnWrites(rs, txn)), {});
      SameView(f.pages + ImagesOf(TxnWrites(rs, txn)), dev.files.pages + ImagesOf(TxnWrites(rs, txn)), h, chain);
    } else {
      assert Eot(txn) !in rs;
      SameView(f.pages, dev.files.pages, h, chain);
      UncommittedReopens(crc, f, h, chain, rs, dev.files.pages);
    }
  }

  /** The log is complete and its committed transactions are being written to the main file:
      started from `base`, any page they touch may be old, new or torn. */
  ghost predicate Replaying(crc: Crc, dev: Device, base: Images, rs: seq<Record>) {
    && Parse(crc, dev.files.wal) == Records(rs) && dev.walTail == []
    && (forall i | 0 <= i < |dev.pending| :: dev.pending[i].id in Touched(rs))
    && AgreeOff(dev.files.pages, base, Touched(rs))
  }

  /** From the durable end marker until the log is truncated, through the writes to the main
      file and any repetition of them, a crash leaves the state after the whole log. */
  lemma CrashInReplay(crc: Crc, dev: Device, f: Files, base: Images, h: Header, chain: seq<nat>, rs: seq<Record>)
    requires Replaying(crc, dev, base, rs) && SparesMeta(rs, chain)
    requires ChosenHeader(Files(base, [])) == Some(h)
    requires Walk(base, h.pageCount, h.head, {}) == Some(chain) && |chain| == h.freeCount
    requires MayCrashTo(dev, f)
    ensures Parse(crc, f.wal) == Records(rs)
    ensures Reopens(crc, f, h, chain, Replay(rs, base))
  {
    hide Parse, Walk, Touched;
    assert f.wal == dev.files.wal;
    forall id: nat | id !in Touched(rs) ensures Img(f.pages, id) == Img(base, id) {
      SurvivesCrash(dev, f, id);
    }
    assert ChosenHeader(f) == Some(h);
    WalkSame(base, f.pages, h, chain);
    ReplayAgree(rs, f.pages, base);
    SameView(Replay(rs, f.pages), Replay(rs, base), h, chain);
  }

  // ----- header updates -----

  /** writeHeader from h1 to h2: mirror, fsync, primary, fsync. */
  ghost predicate Switching(dev: Device, h1: Header, h2: Header) {
    var primary, mirror := Img(dev.files.pages, HEADER_PAGE), Img(dev.files.pages, MIRROR_PAGE);
    || (primary == HeadImg(h1) && (dev.pending == [] || dev.pending == [Write(MIRROR_PAGE, HeadImg(h2))]))
    || (primary == HeadImg(h1) && mirror == HeadImg(h2) && dev.pending == [Write(HEADER_PAGE, HeadImg(h2))])
    || (primary == HeadImg(h2) && dev.pending == [])
  }

  lemma SwitchingHeader(dev: Device, f: Files, h1: Header, h2: Header)
    requires Switching(dev, h1, h2) && MayCrashTo(dev, f)
    ensures ChosenHeader(f) == Some(h1) || ChosenHeader(f) == Some(h2)
    ensures ChosenHeader(f) == Some(h1) <==> Img(f.pages, 0) == HeadImg(h1) || h1 == h2
    ensures AgreeOff(f.pages, dev.files.pages, {HEADER_PAGE, MIRROR_PAGE})
  {
    forall id: nat | id !in {HEADER_PAGE, MIRROR_PAGE} ensures Img(f.pages, id) == Img(dev.files.pages, id) {
      SurvivesCrash(dev, f, id);
    }
    if dev.pending == [Write(HEADER_PAGE, HeadImg(h2))] {
      SurvivesCrash(dev, f, MIRROR_PAGE);
      assert Unsynced(dev.pending, HEADER_PAGE) == {HeadImg(h2)} by {
        assert dev.pending[0] in dev.pending;
      }
      assert Img(f.pages, HEADER_PAGE) in Choices(dev, HEADER_PAGE);
    } else {
      SurvivesCrash(dev, f, HEADER_PAGE);
    }
  }

  /** At every point of a header update one of the two headers is valid, and Open finds the old page
      count and free list exactly if the primary header is the old one, and else the new. */
  lemma CrashInHeaderSwitch(crc: Crc, dev: Device, f: Files, h1: Header, c1: seq<nat>, h2: Header, c2: seq<nat>, rs: seq<Record>)
    requires Switching(dev, h1, h2) && dev.walTail == []
    requires Walk(dev.files.pages, h1.pageCount, h1.head, {}) == Some(c1) && |c1| == h1.freeCount
    requires Walk(dev.files.pages, h2.pageCount, h2.head, {}) == Some(c2) && |c2| == h2.freeCount
    requires MIRROR_PAGE !in c1 && MIRROR_PAGE !in c2
    requires ValidRecords(rs) && NoEot(rs) && dev.files.wal == EncodeAll(crc, rs)
    requires MayCrashTo(dev, f)
    ensures Reopens(crc, f, h1, c1, dev.files.pages) || Reopens(crc, f, h2, c2, dev.files.pages)
    ensures Img(f.pages, 0) == HeadImg(h1) ==> Reopens(crc, f, h1, c1, dev.files.pages)
    ensures Img(f.pages, 0) != HeadImg(h1) ==> Reopens(crc, f, h2, c2, dev.files.pages)
  {
    hide Encode, Parse, Walk, TxnIds, ApplyIds;
    SwitchingHeader(dev, f, h1, h2);
    assert f.wal == dev.files.wal;
    ParseAll(crc, rs);
    if ChosenHeader(f) == Some(h1) {
      HeadersOnly(dev.files.pages, f.pages, h1, c1);
      UncommittedReopens(crc, f, h1, c1, rs, dev.files.pages);
    }
    if ChosenHeader(f) == Some(h2) {
      HeadersOnly(dev.files.pages, f.pages, h2, c2);
      UncommittedReopens(crc, f, h2, c2, rs, dev.files.pages);
    }
  }

  /** Headers are not part of a view. */
  lemma HeadersOnly(p: Images, q: Images, h: Header, chain: seq<nat>)
    requires AgreeOff(q, p, {HEADER_PAGE, MIRROR_PAGE})
    requires Walk(p, h.pageCount, h.head, {}) == Some(chain)
    requires MIRROR_PAGE !in chain
    ensures Walk(q, h.pageCount, h.head, {}) == Some(chain)
    ensures ViewOf(p, h, chain) == ViewOf(q, h, chain)
  {
    WalkFacts(p, h.pageCount, h.head, {}, chain);
    hide Walk;
    WalkSame(p, q, h, chain);
    assert DataPages(p, h.pageCount, chain) == DataPages(q, h.pageCount, chain);
  }

  /** An unsynced write to one page off the free list touches that page only. */
  lemma CrashInPageWrite(crc: Crc, dev: Device, f: Files, h: Header, chain: seq<nat>, rs: seq<Record>, id: nat, body: Bytes)
    requires Settled(crc, dev.files, h, chain, rs) && dev.walTail == []
    requires (dev.pending == [Write(id, PageImg(body))] || dev.pending == []) && id !in chain && id != HEADER_PAGE
    requires MayCrashTo(dev, f)
    ensures Reopens(crc, f, h, chain, f.pages)
    ensures AgreeOff(f.pages, dev.files.pages, {id})
    ensures Img(f.pages, id) in {Img(dev.files.pages, id), Torn, PageImg(body)}
  {
    hide Encode, Parse, Walk, TxnIds, ApplyIds;
    assert f.wal == dev.files.wal;
    forall x: nat ensures x != id ==> Img(f.pages, x) == Img(dev.files.pages, x) {
      if x != id { SurvivesCrash(dev, f, x); }
    }
    assert Unsynced(dev.pending, id) <= {PageImg(body)};
    assert Img(f.pages, id) in Choices(dev, id);
    WalkSame(dev.files.pages, f.pages, h, chain);
    ParseAll(crc, rs);
    UncommittedReopens(crc, f, h, chain, rs, f.pages);
  }

  // ----- the free list under FreePage and AllocatePage -----

  /** Pushing a page in front of the list. */
  lemma PushFree(pages: Images, pageCount: nat, head: nat, chain: seq<nat>, id: nat)
    requires Walk(pages, pageCount, head, {}) == Some(chain) && head <= SENTINEL
    requires 0 < id < pageCount && id !in chain && id != SENTINEL
    ensures var q := pages[id := PageImg(PointerBody(head))];
      Walk(q, pageCount, head, {}) == Some(chain) && Walk(q, pageCount, id, {}) == Some([id] + chain)
  {
    var q := pages[id := PageImg(PointerBody(head))];
    PointerRoundTrip(head);
    assert forall i | 0 <= i < |chain| :: chain[i] in chain;
    WalkTransfer(pages, q, pageCount, pageCount, head, {}, {}, chain);
    WalkTransfer(pages, q, pageCount, pageCount, head, {}, {id}, chain);
    assert {} + {id} == {id};
  }

  /** Taking the first page off the list, and zeroing it. */
  lemma PopFree(pages: Images, pageCount: nat, head: nat, chain: seq<nat>)
    requires Walk(pages, pageCount, head, {}) == Some(chain) && head != SENTINEL
    ensures chain != [] && chain[0] == head
    ensures Img(pages, head).PageImg? && |Img(pages, head).body| == BODY_SIZE
    ensures Walk(pages[head := PageImg(Zeros(BODY_SIZE))], pageCount, Pointer(Img(pages, head).body), {}) == Some(chain[1..])
  {
    WalkFacts(pages, pageCount, head, {}, chain);
    var body := Img(pages, head).body;
    var q := pages[head := PageImg(Zeros(BODY_SIZE))];
    WalkFacts(pages, pageCount, Pointer(body), {} + {head}, chain[1..]);
    WalkTransfer(pages, q, pageCount, pageCount, Pointer(body), {} + {head}, {}, chain[1..]);
  }

  /** Once the head page is zeroed, the old header leads nowhere: the list is corrupt. */
  lemma ZeroedHeadCorrupt(pages: Images, pageCount: nat, head: nat)
    requires head != SENTINEL
    ensures Walk(pages[head := PageImg(Zeros(BODY_SIZE))], pageCount, head, {}) == None
  {
    ZeroPointer();
    var q := pages[head := PageImg(Zeros(BODY_SIZE))];
    assert Walk(q, pageCount, 0, {} + {head}) == None;
  }

  /** Growing the file keeps the list. */
  lemma GrowKeepsFree(pages: Images, pageCount: nat, head: nat, chain: seq<nat>, img: Image)
    requires Walk(pages, pageCount, head, {}) == Some(chain)
    ensures Walk(pages[pageCount := img], pageCount, head, {}) == Some(chain)
    ensures Walk(pages[pageCount := img], pageCount + 1, head, {}) == Some(chain)
  {
    WalkFacts(pages, pageCount, head, {}, chain);
    WalkTransfer(pages, pages[pageCount := img], pageCount, pageCount, head, {}, {}, chain);
    WalkTransfer(pages, pages[pageCount := img], pageCount, pageCount + 1, head, {}, {}, chain);
  }

  // ----- all crashes at one moment -----

  ghost predicate Sane(h: Header, chain: seq<nat>) {
    && FIRST_DATA_PAGE <= h.pageCount <= MAX_PAGES && h.head <= SENTINEL
    && forall i | 0 <= i < |chain| :: chain[i] >= FIRST_DATA_PAGE
  }

  /** Open succeeds with view v on these files, and gives a pager in good order. */
  ghost predicate OpensTo(crc: Crc, f: Files, v: View) {
    && Recover(crc, f) == Some(v)
    && Sane(ChosenHeader(f).value, v.chain)
    && SparesMeta(Parse(crc, f.wal).rs, v.chain)
  }

  /** Whatever a crash now leaves opens to v. */
  ghost predicate CrashesTo(crc: Crc, dev: Device, v: View) {
    forall f | MayCrashTo(dev, f) :: OpensTo(crc, f, v)
  }

  ghost predicate CrashesToEither(crc: Crc, dev: Device, v: View, w: View) {
    forall f | MayCrashTo(dev, f) :: OpensTo(crc, f, v) || OpensTo(crc, f, w)
  }

  /** Whatever a crash now leaves opens to the state after the transaction exactly when its end
      marker survived in the log, and to the state before it otherwise. */
  ghost predicate CrashesAtomically(crc: Crc, dev: Device, txn: U64, before: View, after: View) {
    forall f | MayCrashTo(dev, f) :: OpensTo(crc, f, if EotIn(crc, f.wal, txn) then after else before)
  }

  lemma ReopensOpensTo(crc: Crc, f: Files, h: Header, chain: seq<nat>, pages: Images)
    requires Reopens(crc, f, h, chain, pages) && Sane(h, chain)
    ensures OpensTo(crc, f, ViewOf(pages, h, chain))
  {
    ReopensRecovers(crc, f, h, chain, pages);
  }

  lemma AppendMoment(crc: Crc, dev: Device, h: Header, chain: seq<nat>, rs: seq<Record>, r: Record)
    requires Settled(crc, dev.files, h, chain, rs) && Sane(h, chain) && dev.pending == []
    requires ValidRecord(r) && r.Data? && (dev.walTail == Encode(crc, r) || dev.walTail == [])
    ensures CrashesTo(crc, dev, ViewOf(dev.files.pages, h, chain))
  {
    hide Settled, Reopens, OpensTo, Encode;
    forall f | MayCrashTo(dev, f) ensures OpensTo(crc, f, ViewOf(dev.files.pages, h, chain)) {
      CrashInAppend(crc, dev, f, h, chain, rs, r);
      ReopensOpensTo(crc, f, h, chain, dev.files.pages);
    }
  }

  ghost predicate KeepsOff(writes: map<nat, Bytes>, chain: seq<nat>) {
    && HEADER_PAGE !in writes && MIRROR_PAGE !in writes
    && forall i | 0 <= i < |chain| :: chain[i] !in writes
  }

  lemma EotMoment(crc: Crc, dev: Device, h: Header, chain: seq<nat>, rs: seq<Record>, txn: U64)
    requires Settled(crc, dev.files, h, chain, rs) && Sane(h, chain) && dev.pending == []
    requires dev.walTail == Encode(crc, Eot(txn)) && KeepsOff(TxnWrites(rs, txn), chain)
    ensures CrashesAtomically(crc, dev, txn, ViewOf(dev.files.pages, h, chain),
                              ViewOf(dev.files.pages + ImagesOf(TxnWrites(rs, txn)), h, chain))
  {
    hide Settled, Reopens, OpensTo, Encode, EotIn, TxnWrites, ViewOf;
    var before, after := dev.files.pages, dev.files.pages + ImagesOf(TxnWrites(rs, txn));
    forall f | MayCrashTo(dev, f)
      ensures OpensTo(crc, f, if EotIn(crc, f.wal, txn) then ViewOf(after, h, chain) else ViewOf(before, h, chain))
    {
      CrashInEot(crc, dev, f, h, chain, rs, txn);
      ReopensOpensTo(crc, f, h, chain, if EotIn(crc, f.wal, txn) then after else before);
    }
  }

  lemma ReplayMoment(crc: Crc, dev: Device, base: Images, h: Header, chain: seq<nat>, rs: seq<Record>)
    requires Replaying(crc, dev, base, rs) && SparesMeta(rs, chain) && Sane(h, chain)
    requires ChosenHeader(Files(base, [])) == Some(h)
    requires Walk(base, h.pageCount, h.head, {}) == Some(chain) && |chain| == h.freeCount
    ensures CrashesTo(crc, dev, ViewOf(Replay(rs, base), h, chain))
    ensures forall f | MayCrashTo(dev, f) :: Parse(crc, f.wal) == Records(rs)
  {
    hide Replaying, SparesMeta, Reopens, OpensTo, Walk, Sane, ChosenHeader, Parse, ViewOf;
    forall f | MayCrashTo(dev, f)
      ensures OpensTo(crc, f, ViewOf(Replay(rs, base), h, chain)) && Parse(crc, f.wal) == Records(rs)
    {
      CrashInReplay(crc, dev, f, base, h, chain, rs);
      ReopensOpensTo(crc, f, h, chain, Replay(rs, base));
    }
  }

  lemma SwitchMoment(crc: Crc, dev: Device, h1: Header, c1: seq<nat>, h2: Header, c2: seq<nat>, rs: seq<Record>)
    requires Switching(dev, h1, h2) && dev.walTail == []
    requires Walk(dev.files.pages, h1.pageCount, h1.head, {}) == Some(c1) && |c1| == h1.freeCount
    requires Walk(dev.files.pages, h2.pageCount, h2.head, {}) == Some(c2) && |c2| == h2.freeCount
    requires Sane(h1, c1) && Sane(h2, c2)
    requires ValidRecords(rs) && NoEot(rs) && dev.files.wal == EncodeAll(crc, rs)
    ensures CrashesToEither(crc, dev, ViewOf(dev.files.pages, h1, c1), ViewOf(dev.files.pages, h2, c2))
  {
    forall f | MayCrashTo(dev, f)
      ensures OpensTo(crc, f, ViewOf(dev.files.pages, h1, c1)) || OpensTo(crc, f, ViewOf(dev.files.pages, h2, c2))
    {
      hide Switching, Reopens, OpensTo, Walk, ViewOf, Parse, EncodeAll;
      assert MIRROR_PAGE !in c1 && MIRROR_PAGE !in c2;
      hide Sane;
      CrashInHeaderSwitch(crc, dev, f, h1, c1, h2, c2, rs);
      if Reopens(crc, f, h1, c1, dev.files.pages) {
        ReopensOpensTo(crc, f, h1, c1, dev.files.pages);
      } else {
        ReopensOpensTo(crc, f, h2, c2, dev.files.pages);
      }
    }
  }

  // ----- pages written together and synced once -----

  /** One group of page bodies on its way to the main file: none landed yet, or all. */
  ghost predicate GroupMoment(m: Device, start: Device, buf: map<nat, Bytes>) {
    && m.files.wal == start.files.wal && m.walTail == start.walTail
    && (|| (m.files.pages == start.files.pages && forall i | 0 <= i < |m.pending| :: m.pending[i].id in buf)
        || (m.files.pages == start.files.pages + ImagesOf(buf) && m.pending == []))
  }

  lemma {:induction false} TouchedByPrefix(rs: seq<Record>, ids: seq<U64>, j: nat)
    requires j < |ids|
    ensures TouchedBy(rs, ids[..j]) <= TouchedBy(rs, ids)
    ensures Eot(ids[j]) in rs ==> Writes(Group(rs, ids[j])).Keys <= TouchedBy(rs, ids)
    decreases |ids|
  {
    hide Writes, Group;
    var n := |ids| - 1;
    if j < n {
      TouchedByPrefix(rs, ids[..n], j);
      assert ids[..n][..j] == ids[..j];
    }
  }

  lemma AgreeOffTrans(p: Images, q: Images, r: Images, s: set<nat>, t: set<nat>, u: set<nat>)
    requires AgreeOff(p, q, s) && AgreeOff(q, r, t) && s <= u && t <= u
    ensures AgreeOff(p, r, u)
  {
    forall id: nat | id !in u ensures Img(p, id) == Img(r, id) {
      assert Img(p, id) == Img(q, id);
    }
  }

  lemma OverlayOff(p: Images, w: Images)
    ensures AgreeOff(p + w, p, w.Keys)
  {}

  /** Each moment of applying the j-th committed transaction of the log is one of replaying. */
  lemma GroupIsReplaying(crc: Crc, m: Device, start: Device, base: Images, rs: seq<Record>, j: nat)
    requires j < |TxnIds(rs)| && Eot(TxnIds(rs)[j]) in rs
    requires Parse(crc, start.files.wal) == Records(rs) && start.walTail == []
    requires start.files.pages == ApplyIds(rs, TxnIds(rs)[..j], base)
    requires GroupMoment(m, start, Writes(Group(rs, TxnIds(rs)[j])))
    ensures Replaying(crc, m, base, rs)
  {
    var ids := TxnIds(rs);
    hide TxnIds, Writes, Group, Parse;
    var w := ImagesOf(Writes(Group(rs, ids[j])));
    TouchedByPrefix(rs, ids, j);
    ApplyIdsFrame(rs, ids[..j], base);
    hide ApplyIds, TouchedBy;
    AgreeOffSym(base, start.files.pages, TouchedBy(rs, ids[..j]));
    OverlayOff(start.files.pages, w);
    AgreeOffTrans(start.files.pages, start.files.pages, base, {}, TouchedBy(rs, ids[..j]), Touched(rs));
    AgreeOffTrans(start.files.pages + w, start.files.pages, base, w.Keys, TouchedBy(rs, ids[..j]), Touched(rs));
  }

  lemma AgreeOffSym(p: Images, q: Images, s: set<nat>)
    requires AgreeOff(p, q, s)
    ensures AgreeOff(q, p, s)
  {}

  // ----- commit -----

  /** Before and after the end marker of txn is in the log. */
  ghost function CommitLog(rs: seq<Record>, txn: U64): seq<Record> {
    rs + [Eot(txn)]
  }

  lemma CommitLogFacts(crc: Crc, rs: seq<Record>, txn: U64, chain: seq<nat>, base: Images)
    requires ValidRecords(rs) && NoEot(rs) && KeepsOff(TxnWrites(rs, txn), chain)
    ensures ValidRecords(CommitLog(rs, txn))
    ensures EncodeAll(crc, CommitLog(rs, txn)) == EncodeAll(crc, rs) + Encode(crc, Eot(txn))
    ensures Parse(crc, EncodeAll(crc, CommitLog(rs, txn))) == Records(CommitLog(rs, txn))
    ensures Touched(CommitLog(rs, txn)) == TxnWrites(rs, txn).Keys
    ensures SparesMeta(CommitLog(rs, txn), chain)
    ensures Replay(CommitLog(rs, txn), base) == base + ImagesOf(TxnWrites(rs, txn))
  {
    hide Encode, Parse, TxnIds, ApplyIds, TouchedBy, Writes, Group;
    assert ValidRecords([Eot(txn)]);
    EncodeAllAppend(crc, rs, [Eot(txn)]);
    assert EncodeAll(crc, [Eot(txn)]) == Encode(crc, Eot(txn)) by {
      assert [Eot(txn)][1..] == [];
      assert Encode(crc, Eot(txn)) + [] == Encode(crc, Eot(txn));
    }
    ParseAll(crc, CommitLog(rs, txn));
    ReplayOneCommit(rs, txn, base);
  }

  /** A moment of applying the committed pages, first by CommitTx and then by its checkpoint. */
  lemma CommitMoment(crc: Crc, m: Device, base: Images, h: Header, chain: seq<nat>, rs: seq<Record>, txn: U64)
    requires Img(base, HEADER_PAGE) == HeadImg(h) && Sane(h, chain)
    requires Walk(base, h.pageCount, h.head, {}) == Some(chain) && |chain| == h.freeCount
    requires ValidRecords(rs) && NoEot(rs)
    requires KeepsOff(TxnWrites(rs, txn), chain)
    requires Replaying(crc, m, base, CommitLog(rs, txn))
    ensures CrashesTo(crc, m, ViewOf(base + ImagesOf(TxnWrites(rs, txn)), h, chain))
  {
    hide Parse, Walk, TxnWrites, Replaying, ViewOf, CrashesTo, Sane;
    CommitLogFacts(crc, rs, txn, chain, base);
    ReplayMoment(crc, m, base, h, chain, CommitLog(rs, txn));
  }

  // ----- arbitrary tears of the log -----

  /** If an append may leave any bytes, not only a prefix of what was written, the files open exactly
      if those bytes are whole records and then incomplete ones. */
  lemma TornLogOpensIff(crc: Crc, f: Files, h: Header, chain: seq<nat>, rs: seq<Record>, t: Bytes)
    requires Settled(crc, f, h, chain, rs)
    ensures Recover(crc, Files(f.pages, f.wal + t)).Some? <==> exists us :: WholeThenCut(crc, t, us)
  {
    hide Walk, Parse, WholeThenCut, DataPages, Replay;
    ParseThen(crc, rs, t);
    if us :| WholeThenCut(crc, t, us) { ParseIff(crc, t, us); }
    if Parse(crc, t).Records? { ParseIff(crc, t, Parse(crc, t).rs); }
  }
}
