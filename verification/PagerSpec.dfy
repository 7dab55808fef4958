/** The states of an open pager and what its operations do to them
    (internal/storage/pager/pager.go). */
module PagerSpec {
  import opened Wrappers
  import opened Bytes
  import opened Wal
  import opened WalReplay
  import opened Disk
  import opened CrashSafety

  /** The fields of an open pager, its device, and two things the fields stand for: the free
      list in order and the records in the log. */
  datatype Snap = Snap(dev: Device,
                       pageCount: nat, head: nat, freeCount: nat, freeSet: set<nat>,
                       inTxn: bool, nextTxnId: nat, currentTxn: nat, buffer: map<nat, Bytes>, walSize: nat,
                       chain: seq<nat>, recs: seq<Record>)

  ghost function Hdr(s: Snap): Header {
    Header(s.pageCount, s.head, s.freeCount)
  }

  /** What would be there after a restart. */
  ghost function CurrentView(s: Snap): View {
    ViewOf(s.dev.files.pages, Hdr(s), s.chain)
  }

  ghost predicate IsAllocated(s: Snap, id: nat) {
    FIRST_DATA_PAGE <= id < s.pageCount && id !in s.freeSet
  }

  ghost predicate TxnOk(s: Snap) {
    && 0 < s.currentTxn == s.nextTxnId < U64_LIMIT
    && s.buffer == TxnWrites(s.recs, s.currentTxn)
    && forall id | id in s.buffer :: IsAllocated(s, id) && |s.buffer[id]| == BODY_SIZE
  }

  /** The invariant between calls: everything is synced; header, free list and log agree with
      the fields; the log holds no end marker; the buffer is what the log says. */
  ghost predicate Inv(crc: Crc, s: Snap) {
    && s.dev.pending == [] && s.dev.walTail == []
    && Settled(crc, s.dev.files, Hdr(s), s.chain, s.recs) && Sane(Hdr(s), s.chain)
    && (forall id :: id in s.freeSet <==> id in s.chain)
    && s.walSize == |s.dev.files.wal|
    && s.nextTxnId < U64_LIMIT
    && (forall i | 0 <= i < |s.recs| :: s.recs[i].txn <= s.nextTxnId)
    && (s.inTxn ==> TxnOk(s))
  }

  lemma InvQuiet(crc: Crc, s: Snap)
    requires Inv(crc, s)
    ensures s.dev.pending == [] && s.dev.walTail == [] && s.walSize == |s.dev.files.wal|
    ensures s.head <= SENTINEL && FIRST_DATA_PAGE <= s.pageCount <= MAX_PAGES
    ensures s.inTxn ==> s.currentTxn < U64_LIMIT
  {}

  /** The invariant over a whole run, unfolded for the free list: the chain on disk is acyclic,
      ends in the sentinel, visits exactly freeSet, and header and count agree with it. */
  lemma FreeListConsistent(crc: Crc, s: Snap)
    requires Inv(crc, s)
    ensures Walk(s.dev.files.pages, s.pageCount, s.head, {}) == Some(s.chain)
    ensures forall i, j | 0 <= i < j < |s.chain| :: s.chain[i] != s.chain[j]
    ensures forall id :: id in s.freeSet <==> id in s.chain
    ensures |s.freeSet| == |s.chain| == s.freeCount
    ensures Img(s.dev.files.pages, HEADER_PAGE) == HeadImg(Hdr(s))
    ensures forall id | id in s.freeSet :: FIRST_DATA_PAGE <= id < s.pageCount
  {
    WalkFacts(s.dev.files.pages, s.pageCount, s.head, {}, s.chain);
    hide Walk;
    DistinctSize(s.chain, s.freeSet);
  }

  lemma {:induction false} DistinctSize(chain: seq<nat>, ids: set<nat>)
    requires forall i, j | 0 <= i < j < |chain| :: chain[i] != chain[j]
    requires forall id :: id in ids <==> id in chain
    ensures |ids| == |chain|
  {
    if chain == [] {
      assert ids == {};
    } else {
      var n := |chain| - 1;
      var front, rest := chain[..n], ids - {chain[n]};
      forall id ensures id in rest <==> id in front {
        if id in front {
          var i :| 0 <= i < n && front[i] == id;
          assert chain[i] == id && chain[i] != chain[n];
        }
      }
      DistinctSize(front, rest);
    }
  }

  /** The readable bodies of a view. */
  ghost function BodiesOf(v: View): map<nat, Bytes> {
    map id | id in v.pages && v.pages[id].PageImg? :: v.pages[id].body
  }

  /** The bodies ReadPage serves: committed ones, overlaid by the transaction's own. */
  ghost function Bodies(s: Snap): map<nat, Bytes> {
    BodiesOf(CurrentView(s)) + if s.inTxn then s.buffer else map[]
  }

  // ----- transactions -----

  ghost function Begun(s: Snap): Snap {
    s.(inTxn := true, nextTxnId := s.nextTxnId + 1, currentTxn := s.nextTxnId + 1, buffer := map[])
  }

  lemma BeginKeeps(crc: Crc, s: Snap)
    requires Inv(crc, s) && !s.inTxn && s.nextTxnId + 1 < U64_LIMIT
    ensures Inv(crc, Begun(s)) && CurrentView(Begun(s)) == CurrentView(s) && Bodies(Begun(s)) == Bodies(s)
  {
    GroupAbsent(s.recs, s.nextTxnId + 1);
    hide Settled, Sane;
  }

  ghost function RolledBack(s: Snap): Snap {
    s.(inTxn := false, currentTxn := 0, buffer := map[])
  }

  lemma RollbackKeeps(crc: Crc, s: Snap)
    requires Inv(crc, s)
    ensures Inv(crc, RolledBack(s)) && CurrentView(RolledBack(s)) == CurrentView(s)
    ensures Bodies(RolledBack(s)) == BodiesOf(CurrentView(s))
  {
    hide Settled, Sane;
  }

  /** The record a page write inside a transaction appends. */
  ghost function LogRecord(s: Snap, id: nat, body: Bytes): Record
    requires s.currentTxn < U64_LIMIT && id < U64_LIMIT
  {
    Data(s.currentTxn, id, body)
  }

  ghost function Appended(crc: Crc, s: Snap, id: nat, body: Bytes): Snap
    requires s.currentTxn < U64_LIMIT && id < U64_LIMIT && |body| == BODY_SIZE
  {
    var enc := Encode(crc, LogRecord(s, id, body));
    s.(dev := Device(Files(s.dev.files.pages, s.dev.files.wal + enc), s.dev.pending, []),
       buffer := s.buffer[id := body], walSize := s.walSize + |enc|, recs := s.recs + [LogRecord(s, id, body)])
  }

  lemma AppendSettled(crc: Crc, f: Files, h: Header, chain: seq<nat>, rs: seq<Record>, rec: Record)
    requires Settled(crc, f, h, chain, rs) && ValidRecord(rec) && rec.Data?
    ensures Settled(crc, Files(f.pages, f.wal + Encode(crc, rec)), h, chain, rs + [rec])
  {
    hide Encode, Walk;
    EncodeAllAppend(crc, rs, [rec]);
    assert [rec][1..] == [];
    assert EncodeAll(crc, [rec]) == Encode(crc, rec) + [];
    assert Encode(crc, rec) + [] == Encode(crc, rec);
  }

  lemma AppendedWrites(rs: seq<Record>, rec: Record)
    requires rec.Data?
    ensures TxnWrites(rs + [rec], rec.txn) == TxnWrites(rs, rec.txn)[rec.page := rec.body]
  {
    GroupSnoc(rs, rec, rec.txn);
    WritesSnoc(Group(rs, rec.txn), rec);
  }

  /** A page write inside a transaction changes what the transaction reads and nothing that a
      restart would show. */
  lemma AppendKeeps(crc: Crc, s: Snap, id: nat, body: Bytes)
    requires Inv(crc, s) && s.inTxn && IsAllocated(s, id) && |body| == BODY_SIZE
    ensures id < EOT_PAGE && s.currentTxn < U64_LIMIT
    ensures Inv(crc, Appended(crc, s, id, body))
    ensures CurrentView(Appended(crc, s, id, body)) == CurrentView(s)
    ensures Bodies(Appended(crc, s, id, body)) == Bodies(s)[id := body]
  {
    AppendInv(crc, s, id, body);
    hide Settled, Sane, TxnWrites, Encode, BodiesOf, ViewOf;
    OverlaySnoc(BodiesOf(CurrentView(s)), s.buffer, id, body);
  }

  lemma AppendInv(crc: Crc, s: Snap, id: nat, body: Bytes)
    requires Inv(crc, s) && s.inTxn && IsAllocated(s, id) && |body| == BODY_SIZE
    ensures id < EOT_PAGE && s.currentTxn < U64_LIMIT
    ensures Inv(crc, Appended(crc, s, id, body))
  {
    var rec := LogRecord(s, id, body);
    assert ValidRecord(rec);
    hide Settled, Sane, TxnWrites, Encode;
    AppendSettled(crc, s.dev.files, Hdr(s), s.chain, s.recs, rec);
    AppendedWrites(s.recs, rec);
    var t := Appended(crc, s, id, body);
    forall i | 0 <= i < |t.recs| ensures t.recs[i].txn <= t.nextTxnId {
      if i < |s.recs| { assert t.recs[i] == s.recs[i]; }
    }
    assert TxnOk(t);
  }

  lemma OverlaySnoc(a: map<nat, Bytes>, b: map<nat, Bytes>, id: nat, body: Bytes)
    ensures a + b[id := body] == (a + b)[id := body]
  {}

  /** A crash while the record is being appended leaves the committed state. */
  lemma AppendCrash(crc: Crc, s: Snap, id: nat, body: Bytes)
    requires Inv(crc, s) && s.inTxn && IsAllocated(s, id) && |body| == BODY_SIZE
    ensures id < EOT_PAGE && s.currentTxn < U64_LIMIT
    ensures forall i | 0 <= i < 2 :: CrashesTo(crc, WriteMoments(crc, s, id, body)[i], CurrentView(s))
  {
    var rec := LogRecord(s, id, body);
    assert ValidRecord(rec);
    hide Settled, Sane, TxnWrites, Encode, CrashesTo, ViewOf;
    AppendMoment(crc, Device(s.dev.files, [], Encode(crc, rec)), Hdr(s), s.chain, s.recs, rec);
    AppendSettled(crc, s.dev.files, Hdr(s), s.chain, s.recs, rec);
    AppendMoment(crc, Appended(crc, s, id, body).dev, Hdr(s), s.chain, s.recs + [rec], rec);
  }

  ghost function Written(s: Snap, id: nat, body: Bytes): Snap {
    s.(dev := Device(Files(s.dev.files.pages[id := PageImg(body)], s.dev.files.wal), [], s.dev.walTail))
  }

  /** The device states of WritePage. */
  ghost function WriteMoments(crc: Crc, s: Snap, id: nat, body: Bytes): (ms: seq<Device>)
    requires id < U64_LIMIT && |body| == BODY_SIZE && (s.inTxn ==> s.currentTxn < U64_LIMIT)
    ensures |ms| == 2
  {
    if s.inTxn then [Device(s.dev.files, [], Encode(crc, LogRecord(s, id, body))), Appended(crc, s, id, body).dev]
    else [Device(s.dev.files, [Write(id, PageImg(body))], s.dev.walTail), Written(s, id, body).dev]
  }

  /** A page write outside a transaction goes straight to the main file. */
  lemma WriteKeeps(crc: Crc, s: Snap, id: nat, body: Bytes)
    requires Inv(crc, s) && !s.inTxn && IsAllocated(s, id)
    ensures Inv(crc, Written(s, id, body)) && Bodies(Written(s, id, body)) == Bodies(s)[id := body]
  {
    hide BodiesOf, ViewOf, TxnOk;
    var p := s.dev.files.pages;
    var q := p[id := PageImg(body)];
    assert forall i | 0 <= i < |s.chain| :: s.chain[i] in s.freeSet;
    WalkSame(p, q, Hdr(s), s.chain);
    BodiesUpdate(p, Hdr(s), s.chain, id, body);
    hide Walk;
    assert BodiesOf(CurrentView(s)) + map[] == BodiesOf(CurrentView(s));
    assert BodiesOf(ViewOf(q, Hdr(s), s.chain)) + map[] == BodiesOf(ViewOf(q, Hdr(s), s.chain));
  }

  lemma BodiesUpdate(p: Images, h: Header, chain: seq<nat>, id: nat, body: Bytes)
    requires FIRST_DATA_PAGE <= id < h.pageCount && id !in chain
    ensures BodiesOf(ViewOf(p[id := PageImg(body)], h, chain)) == BodiesOf(ViewOf(p, h, chain))[id := body]
  {
    var a, b := BodiesOf(ViewOf(p, h, chain)), BodiesOf(ViewOf(p[id := PageImg(body)], h, chain));
    assert b.Keys == a.Keys + {id};
    assert b == a[id := body];
  }

  // ----- commit -----

  ghost function Overlay(v: View, writes: map<nat, Bytes>): View {
    View(v.pageCount, v.chain, v.pages + ImagesOf(writes))
  }

  /** The log with the end marker of the current transaction. */
  ghost function CommitWal(crc: Crc, s: Snap): Bytes
    requires s.currentTxn < U64_LIMIT
  {
    s.dev.files.wal + Encode(crc, Eot(s.currentTxn))
  }

  ghost function CommitDev(crc: Crc, s: Snap): Device
    requires s.currentTxn < U64_LIMIT
  {
    Device(Files(s.dev.files.pages, CommitWal(crc, s)), [], [])
  }

  ghost function Committed(s: Snap): Snap {
    s.(dev := Device(Files(s.dev.files.pages + ImagesOf(s.buffer), []), [], []),
       inTxn := false, currentTxn := 0, buffer := map[], walSize := 0, recs := [])
  }

  ghost predicate AtomicAt(crc: Crc, m: Device, s: Snap)
    requires s.currentTxn < U64_LIMIT
  {
    CrashesAtomically(crc, m, s.currentTxn, CurrentView(s), CurrentView(Committed(s)))
  }

  /** A list of device states was only extended. */
  ghost predicate Grew(a: seq<Device>, b: seq<Device>) {
    |a| <= |b| && b[..|a|] == a
  }

  lemma GrewTrans(a: seq<Device>, b: seq<Device>, c: seq<Device>)
    requires Grew(a, b) && Grew(b, c)
    ensures Grew(a, c)
  {
    assert c[..|a|] == c[..|b|][..|a|];
  }

  /** The end marker is on its way to the log. */
  ghost function EotDev(crc: Crc, s: Snap): Device
    requires s.currentTxn < U64_LIMIT
  {
    Device(s.dev.files, [], Encode(crc, Eot(s.currentTxn)))
  }

  /** The marker is durable: pages on their way to the main file, by CommitTx or by its checkpoint,
      until the log is empty. */
  ghost predicate CommitState(crc: Crc, s: Snap, m: Device)
    requires s.currentTxn < U64_LIMIT
  {
    || GroupMoment(m, CommitDev(crc, s), s.buffer)
    || (m.files.wal == CommitWal(crc, s) && Replaying(crc, m, Committed(s).dev.files.pages, CommitLog(s.recs, s.currentTxn)))
    || m == Committed(s).dev
  }

  /** The device states of a commit, from entry lo on. */
  ghost predicate CommitTrace(crc: Crc, s: Snap, ms: seq<Device>, lo: nat)
    requires s.currentTxn < U64_LIMIT
  {
    lo < |ms| && ms[lo] == EotDev(crc, s) && forall i | lo < i < |ms| :: CommitState(crc, s, ms[i])
  }

  lemma CommitTraceJoin(crc: Crc, s: Snap, ms0: seq<Device>, ms1: seq<Device>, lo: nat)
    requires s.currentTxn < U64_LIMIT && CommitTrace(crc, s, ms0, lo) && Grew(ms0, ms1)
    requires forall i | |ms0| <= i < |ms1| :: CommitState(crc, s, ms1[i])
    ensures CommitTrace(crc, s, ms1, lo)
  {
    hide CommitState, EotDev;
    assert ms1[lo] == ms1[..|ms0|][lo];
    forall i | lo < i < |ms1| ensures CommitState(crc, s, ms1[i]) {
      if i < |ms0| { assert ms1[i] == ms1[..|ms0|][i] == ms0[i]; }
    }
  }

  lemma BufferKeepsOff(crc: Crc, s: Snap)
    requires Inv(crc, s) && s.inTxn
    ensures KeepsOff(s.buffer, s.chain) && s.buffer == TxnWrites(s.recs, s.currentTxn)
    ensures forall id | id in s.buffer :: FIRST_DATA_PAGE <= id < s.pageCount && id !in s.chain
  {
    assert forall i | 0 <= i < |s.chain| :: s.chain[i] in s.freeSet;
    hide Settled, Sane, TxnWrites;
  }

  /** Commit makes exactly the buffered pages part of the state, and empties the log. */
  lemma CommitKeeps(crc: Crc, s: Snap)
    requires Inv(crc, s) && s.inTxn
    ensures Inv(crc, Committed(s)) && CurrentView(Committed(s)) == Overlay(CurrentView(s), s.buffer)
    ensures Bodies(Committed(s)) == Bodies(s)
  {
    CommitInv(crc, s);
    BufferKeepsOff(crc, s);
    OverlayView(s.dev.files.pages, Hdr(s), s.chain, s.buffer);
    OverlayBodies(CurrentView(s), s.buffer);
    hide Inv, ViewOf, BodiesOf, Overlay, ImagesOf;
    var v := Overlay(CurrentView(s), s.buffer);
    assert BodiesOf(v) + map[] == BodiesOf(v);
  }

  lemma CommitInv(crc: Crc, s: Snap)
    requires Inv(crc, s) && s.inTxn
    ensures Inv(crc, Committed(s))
  {
    BufferKeepsOff(crc, s);
    WalkSame(s.dev.files.pages, s.dev.files.pages + ImagesOf(s.buffer), Hdr(s), s.chain);
    hide Walk, TxnWrites, Sane;
  }

  lemma OverlayBodies(v: View, b: map<nat, Bytes>)
    ensures BodiesOf(Overlay(v, b)) == BodiesOf(v) + b
  {}

  lemma OverlayView(base: Images, h: Header, chain: seq<nat>, b: map<nat, Bytes>)
    requires forall id | id in b :: FIRST_DATA_PAGE <= id < h.pageCount && id !in chain
    ensures ViewOf(base + ImagesOf(b), h, chain) == Overlay(ViewOf(base, h, chain), b)
  {
    var p, q := DataPages(base + ImagesOf(b), h.pageCount, chain), DataPages(base, h.pageCount, chain) + ImagesOf(b);
    assert p.Keys == q.Keys;
    assert p == q;
  }

  lemma QuietMoment(crc: Crc, s: Snap)
    requires Inv(crc, s)
    ensures CrashesTo(crc, s.dev, CurrentView(s))
  {
    hide Settled, Sane, CrashesTo, ViewOf, TxnOk;
    AppendMoment(crc, s.dev, Hdr(s), s.chain, s.recs, Data(0, 0, Zeros(BODY_SIZE)));
  }

  /** Writing the end marker. */
  lemma CommitEot(crc: Crc, s: Snap)
    requires Inv(crc, s) && s.inTxn
    ensures s.currentTxn < U64_LIMIT && AtomicAt(crc, EotDev(crc, s), s)
  {
    BufferKeepsOff(crc, s);
    hide Settled, Sane, TxnWrites, CrashesAtomically, ViewOf, Encode, KeepsOff;
    EotMoment(crc, EotDev(crc, s), Hdr(s), s.chain, s.recs, s.currentTxn);
  }

  /** The marker is durable: the pages may be on their way to the main file. */
  lemma CommitApply(crc: Crc, s: Snap, m: Device)
    requires Inv(crc, s) && s.inTxn
    requires m.files.wal == CommitWal(crc, s) && m.walTail == []
    requires forall i | 0 <= i < |m.pending| :: m.pending[i].id in s.buffer
    requires AgreeOff(m.files.pages, s.dev.files.pages, s.buffer.Keys)
    ensures CrashesTo(crc, m, CurrentView(Committed(s)))
  {
    BufferKeepsOff(crc, s);
    CommitLogFacts(crc, s.recs, s.currentTxn, s.chain, s.dev.files.pages);
    hide Sane, TxnWrites, CrashesTo, ViewOf, Encode, EncodeAll, Parse, Walk, CommitLog, SparesMeta;
    CommitMoment(crc, m, s.dev.files.pages, Hdr(s), s.chain, s.recs, s.currentTxn);
  }

  lemma CommitGroup(crc: Crc, s: Snap, m: Device)
    requires Inv(crc, s) && s.inTxn
    requires GroupMoment(m, CommitDev(crc, s), s.buffer)
    ensures CrashesTo(crc, m, CurrentView(Committed(s)))
  {
    hide Inv, CommitWal, CrashesTo, CurrentView;
    OverlayOff(s.dev.files.pages, ImagesOf(s.buffer));
    CommitApply(crc, s, m);
  }

  /** The log of a commit, as replay sees it. */
  lemma CommitLogParses(crc: Crc, s: Snap)
    requires Inv(crc, s) && s.inTxn
    ensures Parse(crc, CommitWal(crc, s)) == Records(CommitLog(s.recs, s.currentTxn))
    ensures Touched(CommitLog(s.recs, s.currentTxn)) == s.buffer.Keys
    ensures Replay(CommitLog(s.recs, s.currentTxn), Committed(s).dev.files.pages) == Committed(s).dev.files.pages
  {
    BufferKeepsOff(crc, s);
    var q := s.dev.files.pages + ImagesOf(s.buffer);
    CommitLogFacts(crc, s.recs, s.currentTxn, s.chain, q);
    assert q + ImagesOf(s.buffer) == q;
  }

  /** The checkpoint repeats the writes from the log. */
  lemma CommitCheckpoint(crc: Crc, s: Snap, m: Device)
    requires Inv(crc, s) && s.inTxn
    requires Replaying(crc, m, Committed(s).dev.files.pages, CommitLog(s.recs, s.currentTxn))
    requires m.files.wal == CommitWal(crc, s)
    ensures CrashesTo(crc, m, CurrentView(Committed(s)))
  {
    CommitLogParses(crc, s);
    hide Inv, CommitWal, CrashesTo, CurrentView, Parse, CommitLog, Touched, Replay;
    var p, w := s.dev.files.pages, ImagesOf(s.buffer);
    OverlayOff(p, w);
    AgreeOffTrans(m.files.pages, p + w, p, w.Keys, w.Keys, w.Keys);
    CommitApply(crc, s, m);
  }

  /** Once the marker is durable, a crash leaves the transaction. */
  lemma CommitStateCrash(crc: Crc, s: Snap, m: Device)
    requires Inv(crc, s) && s.inTxn && s.currentTxn < U64_LIMIT && CommitState(crc, s, m)
    ensures CrashesTo(crc, m, CurrentView(Committed(s)))
  {
    hide Inv, GroupMoment, Replaying, CommitWal, CommitLog, CrashesTo, CurrentView, Committed;
    if m == Committed(s).dev {
      CommitInv(crc, s);
      QuietMoment(crc, Committed(s));
    } else if GroupMoment(m, CommitDev(crc, s), s.buffer) {
      CommitGroup(crc, s, m);
    } else {
      CommitCheckpoint(crc, s, m);
    }
  }

  /** A crash at the first state of a commit leaves the transaction exactly if its marker survived;
      at every later state it leaves it. */
  lemma CommitCrash(crc: Crc, s: Snap, ms: seq<Device>, lo: nat)
    requires Inv(crc, s) && s.inTxn && s.currentTxn < U64_LIMIT && CommitTrace(crc, s, ms, lo)
    ensures AtomicAt(crc, ms[lo], s) && forall i | lo < i < |ms| :: CrashesTo(crc, ms[i], CurrentView(Committed(s)))
  {
    hide Inv, CommitState, AtomicAt, CrashesTo, CurrentView, Committed, EotDev;
    CommitEot(crc, s);
    forall i | lo < i < |ms| ensures CrashesTo(crc, ms[i], CurrentView(Committed(s))) {
      CommitStateCrash(crc, s, ms[i]);
    }
  }

  // ----- header updates -----

  ghost function SwitchEnd(dev: Device, h: Header): Device {
    Device(Files(dev.files.pages[MIRROR_PAGE := HeadImg(h)][HEADER_PAGE := HeadImg(h)], dev.files.wal), [], dev.walTail)
  }

  /** The device states of writeHeader, in order. */
  ghost function SwitchMoments(dev: Device, h: Header): (ms: seq<Device>)
    ensures |ms| == 4
  {
    var img := HeadImg(h);
    var mid := Files(dev.files.pages[MIRROR_PAGE := img], dev.files.wal);
    [Device(dev.files, [Write(MIRROR_PAGE, img)], dev.walTail),
     Device(mid, [], dev.walTail),
     Device(mid, [Write(HEADER_PAGE, img)], dev.walTail),
     SwitchEnd(dev, h)]
  }

  lemma SwitchMomentsSwitch(dev: Device, h1: Header, h2: Header, i: nat)
    requires Img(dev.files.pages, HEADER_PAGE) == HeadImg(h1) && i < 4
    ensures var m := SwitchMoments(dev, h2)[i];
      && Switching(m, h1, h2) && m.files.wal == dev.files.wal && m.walTail == dev.walTail
      && AgreeOff(m.files.pages, dev.files.pages, {HEADER_PAGE, MIRROR_PAGE})
  {}

  /** Every point of a header update, for two headers whose free lists are both on disk. */
  lemma SwitchCrash(crc: Crc, dev: Device, h1: Header, c1: seq<nat>, h2: Header, c2: seq<nat>, rs: seq<Record>, i: nat)
    requires Settled(crc, dev.files, h1, c1, rs) && dev.walTail == [] && i < 4
    requires Walk(dev.files.pages, h2.pageCount, h2.head, {}) == Some(c2) && |c2| == h2.freeCount
    requires Sane(h1, c1) && Sane(h2, c2)
    ensures CrashesToEither(crc, SwitchMoments(dev, h2)[i], ViewOf(dev.files.pages, h1, c1), ViewOf(dev.files.pages, h2, c2))
  {
    SwitchMomentsSwitch(dev, h1, h2, i);
    assert MIRROR_PAGE !in c1 && MIRROR_PAGE !in c2;
    hide Sane, Walk, ViewOf, CrashesToEither, SwitchMoments, Switching, EncodeAll;
    var m := SwitchMoments(dev, h2)[i];
    HeadersOnly(dev.files.pages, m.files.pages, h1, c1);
    HeadersOnly(dev.files.pages, m.files.pages, h2, c2);
    SwitchMoment(crc, m, h1, c1, h2, c2, rs);
  }

  /** After the update the files are settled under the new header. */
  lemma SwitchSettled(crc: Crc, dev: Device, h: Header, chain: seq<nat>, rs: seq<Record>)
    requires Walk(dev.files.pages, h.pageCount, h.head, {}) == Some(chain) && |chain| == h.freeCount && Sane(h, chain)
    requires ValidRecords(rs) && NoEot(rs) && dev.files.wal == EncodeAll(crc, rs)
    ensures Settled(crc, SwitchEnd(dev, h).files, h, chain, rs)
    ensures ViewOf(SwitchEnd(dev, h).files.pages, h, chain) == ViewOf(dev.files.pages, h, chain)
  {
    assert MIRROR_PAGE !in chain;
    hide Walk, ViewOf, EncodeAll;
    HeadersOnly(dev.files.pages, SwitchEnd(dev, h).files.pages, h, chain);
  }

  // ----- FreePage -----

  ghost function FreedDev(s: Snap, id: nat): Device
    requires s.head <= SENTINEL
  {
    Device(Files(s.dev.files.pages[id := PageImg(PointerBody(s.head))], s.dev.files.wal), [], s.dev.walTail)
  }

  ghost function FreedHdr(s: Snap, id: nat): Header {
    Header(s.pageCount, id, s.freeCount + 1)
  }

  ghost function Freed(s: Snap, id: nat): Snap
    requires s.head <= SENTINEL
  {
    s.(dev := SwitchEnd(FreedDev(s, id), FreedHdr(s, id)),
       head := id, freeCount := s.freeCount + 1, freeSet := s.freeSet + {id}, chain := [id] + s.chain)
  }

  ghost function FreeMoments(s: Snap, id: nat): (ms: seq<Device>)
    requires s.head <= SENTINEL
    ensures |ms| == 6
  {
    [Device(s.dev.files, [Write(id, PageImg(PointerBody(s.head)))], s.dev.walTail), FreedDev(s, id)]
    + SwitchMoments(FreedDev(s, id), FreedHdr(s, id))
  }

  ghost predicate CanFree(s: Snap, id: nat) {
    !s.inTxn && 0 < id < s.pageCount && id !in s.freeSet
  }

  /** Both the old and the new list are on disk once the freed page holds its pointer. */
  lemma FreeLists(crc: Crc, s: Snap, id: nat)
    requires Inv(crc, s) && CanFree(s, id) && id != MIRROR_PAGE
    ensures Settled(crc, FreedDev(s, id).files, Hdr(s), s.chain, s.recs)
    ensures Walk(FreedDev(s, id).files.pages, s.pageCount, id, {}) == Some([id] + s.chain)
    ensures Sane(FreedHdr(s, id), [id] + s.chain)
  {
    hide Walk, EncodeAll, TxnOk, PointerBody;
    PushFree(s.dev.files.pages, s.pageCount, s.head, s.chain, id);
    var c := [id] + s.chain;
    assert forall i | 0 <= i < |c| :: c[i] == if i == 0 then id else s.chain[i - 1];
  }

  /** FreePage pushes the page on the free list and keeps the invariant. */
  lemma FreeKeeps(crc: Crc, s: Snap, id: nat)
    requires Inv(crc, s) && CanFree(s, id) && id != MIRROR_PAGE
    ensures Inv(crc, Freed(s, id))
  {
    FreeLists(crc, s, id);
    hide Walk, Sane;
    SwitchSettled(crc, FreedDev(s, id), FreedHdr(s, id), [id] + s.chain, s.recs);
  }

  /** What Open finds after a crash in FreePage: old or new list, all other pages as they were. */
  ghost predicate FreeOutcome(crc: Crc, f: Files, s: Snap, id: nat) {
    && Recover(crc, f).Some?
    && var v := Recover(crc, f).value;
    && OpensTo(crc, f, v)
    && v.pageCount == s.pageCount && (v.chain == s.chain || v.chain == [id] + s.chain)
    && forall x | x in v.pages && x != id :: v.pages[x] == Img(s.dev.files.pages, x)
  }

  ghost predicate FreeSafe(crc: Crc, m: Device, s: Snap, id: nat) {
    forall f | MayCrashTo(m, f) :: FreeOutcome(crc, f, s, id)
  }

  lemma FreePageWriteCrash(crc: Crc, m: Device, s: Snap, id: nat)
    requires Inv(crc, s) && CanFree(s, id) && id != MIRROR_PAGE
    requires m == FreeMoments(s, id)[0] || m == FreeMoments(s, id)[1]
    ensures FreeSafe(crc, m, s, id)
  {
    FreeLists(crc, s, id);
    var body := PointerBody(s.head);
    assert m.walTail == [];
    assert m.files.wal == s.dev.files.wal;
    assert m.pending == [Write(id, PageImg(body))] || m.pending == [];
    assert Settled(crc, m.files, Hdr(s), s.chain, s.recs);
    assert id !in s.chain;
    assert forall x: nat | x != id :: Img(m.files.pages, x) == Img(s.dev.files.pages, x);
    hide Settled, Sane, Reopens, PointerBody, FreedDev, FreeMoments, OpensTo;
    forall f | MayCrashTo(m, f) ensures FreeOutcome(crc, f, s, id) {
      CrashInPageWrite(crc, m, f, Hdr(s), s.chain, s.recs, id, body);
      ReopensOpensTo(crc, f, Hdr(s), s.chain, f.pages);
      ReopensRecovers(crc, f, Hdr(s), s.chain, f.pages);
      hide Recover, MayCrashTo;
      var v := Recover(crc, f).value;
      forall x | x in v.pages && x != id ensures v.pages[x] == Img(s.dev.files.pages, x) {
        assert Img(f.pages, x) == Img(m.files.pages, x);
      }
    }
  }

  lemma FreeSwitchCrash(crc: Crc, s: Snap, id: nat, i: nat)
    requires Inv(crc, s) && CanFree(s, id) && id != MIRROR_PAGE && i < 4
    ensures FreeSafe(crc, SwitchMoments(FreedDev(s, id), FreedHdr(s, id))[i], s, id)
  {
    FreeLists(crc, s, id);
    var d, h2, c2 := FreedDev(s, id), FreedHdr(s, id), [id] + s.chain;
    assert d.walTail == [];
    assert forall x: nat | x != id :: Img(d.files.pages, x) == Img(s.dev.files.pages, x);
    hide Settled, Sane, Walk, FreedDev, OpensTo, Recover, SwitchMoments, PointerBody;
    SwitchCrash(crc, d, Hdr(s), s.chain, h2, c2, s.recs, i);
    var m := SwitchMoments(d, h2)[i];
    var v1, v2 := ViewOf(d.files.pages, Hdr(s), s.chain), ViewOf(d.files.pages, h2, c2);
    forall f | MayCrashTo(m, f) ensures FreeOutcome(crc, f, s, id) {
      hide MayCrashTo;
      OpensToRecovers(crc, f, if OpensTo(crc, f, v1) then v1 else v2);
    }
  }

  lemma OpensToRecovers(crc: Crc, f: Files, v: View)
    requires OpensTo(crc, f, v)
    ensures Recover(crc, f) == Some(v)
  {}

  /** A crash at any step of FreePage leaves a valid header, and Open finds the old or the new
      free list with every other page untouched. */
  lemma FreeCrash(crc: Crc, s: Snap, id: nat, i: nat)
    requires Inv(crc, s) && CanFree(s, id) && id != MIRROR_PAGE && i < 6
    ensures FreeSafe(crc, FreeMoments(s, id)[i], s, id)
  {
    assert s.head <= SENTINEL;
    hide Inv, FreeSafe;
    if i < 2 {
      FreePageWriteCrash(crc, FreeMoments(s, id)[i], s, id);
    } else {
      FreeSwitchCrash(crc, s, id, i - 2);
    }
  }

  /** FreePage accepts the mirror page, and the file can be opened again exactly when it was
      given another page. */
  lemma FreeReopensIff(crc: Crc, s: Snap, id: nat)
    requires Inv(crc, s) && CanFree(s, id)
    ensures Recover(crc, Freed(s, id).dev.files).Some? <==> id != MIRROR_PAGE
  {
    var f := Freed(s, id).dev.files;
    if id == MIRROR_PAGE {
      assert Img(f.pages, HEADER_PAGE) == HeadImg(FreedHdr(s, id));
      assert Img(f.pages, MIRROR_PAGE) == HeadImg(FreedHdr(s, id));
      assert Walk(f.pages, s.pageCount, MIRROR_PAGE, {}) == None;
    } else {
      FreeKeeps(crc, s, id);
      SettledRecovers(crc, f, FreedHdr(s, id), [id] + s.chain, s.recs);
      ReopensRecovers(crc, f, FreedHdr(s, id), [id] + s.chain, f.pages);
    }
  }

  // ----- AllocatePage -----

  ghost function ZeroedDev(s: Snap, id: nat): Device {
    Device(Files(s.dev.files.pages[id := PageImg(Zeros(BODY_SIZE))], s.dev.files.wal), [], s.dev.walTail)
  }

  ghost function NextFree(s: Snap): nat {
    var img := Img(s.dev.files.pages, s.head);
    if img.PageImg? && |img.body| == BODY_SIZE then Pointer(img.body) else 0
  }

  /** The page AllocatePage hands out: the head of the free list, or one past the end. */
  ghost function AllocId(s: Snap): nat {
    if s.head != SENTINEL then s.head else s.pageCount
  }

  ghost function AllocHdr(s: Snap): Header {
    if s.head != SENTINEL then Header(s.pageCount, NextFree(s), if s.freeCount > 0 then s.freeCount - 1 else 0)
    else Header(s.pageCount + 1, s.head, s.freeCount)
  }

  ghost function Alloced(s: Snap): Snap {
    var h := AllocHdr(s);
    s.(dev := SwitchEnd(ZeroedDev(s, AllocId(s)), h),
       pageCount := h.pageCount, head := h.head, freeCount := h.freeCount, freeSet := s.freeSet - {AllocId(s)},
       chain := if s.head != SENTINEL && s.chain != [] then s.chain[1..] else s.chain)
  }

  ghost function AllocMoments(s: Snap): (ms: seq<Device>)
    ensures |ms| == 6
  {
    [Device(s.dev.files, [Write(AllocId(s), PageImg(Zeros(BODY_SIZE)))], s.dev.walTail), ZeroedDev(s, AllocId(s))]
    + SwitchMoments(ZeroedDev(s, AllocId(s)), AllocHdr(s))
  }

  ghost predicate CanAlloc(s: Snap) {
    !s.inTxn && (s.head != SENTINEL || s.pageCount < MAX_PAGES)
  }

  /** Without a free page, allocation fails exactly if the offset of a new page does not fit an
      int64. */
  lemma NoSpace(crc: Crc, s: Snap)
    requires Inv(crc, s) && !s.inTxn
    ensures CanAlloc(s) <==> s.freeSet != {} || s.pageCount * 4096 < 0x8000_0000_0000_0000
    ensures s.head == SENTINEL <==> s.freeSet == {}
  {
    FreeListConsistent(crc, s);
    WalkFacts(s.dev.files.pages, s.pageCount, s.head, {}, s.chain);
    hide Inv, Walk;
    if s.chain != [] {
      assert s.chain[0] in s.freeSet;
    }
    if s.freeSet != {} {
      var id :| id in s.freeSet;
      assert id in s.chain;
    }
  }

  /** The page handed out, and what it leaves free. */
  lemma AllocOutcome(crc: Crc, s: Snap)
    requires Inv(crc, s) && !s.inTxn
    ensures CanAlloc(s) <==> s.freeSet != {} || s.pageCount * 4096 < 0x8000_0000_0000_0000
    ensures s.freeSet != {} ==>
      AllocId(s) in s.freeSet && Alloced(s).freeSet == s.freeSet - {AllocId(s)} && Alloced(s).pageCount == s.pageCount
    ensures s.freeSet == {} ==> AllocId(s) == s.pageCount && Alloced(s).pageCount == s.pageCount + 1 && Alloced(s).freeSet == {}
  {
    NoSpace(crc, s);
    FreeListConsistent(crc, s);
    WalkFacts(s.dev.files.pages, s.pageCount, s.head, {}, s.chain);
    hide Inv, Walk;
  }

  /** The list under the new header is on disk once the page is zeroed. */
  lemma AllocList(crc: Crc, s: Snap)
    requires Inv(crc, s) && CanAlloc(s)
    ensures var h, c := AllocHdr(s), Alloced(s).chain;
      && Walk(ZeroedDev(s, AllocId(s)).files.pages, h.pageCount, h.head, {}) == Some(c)
      && |c| == h.freeCount && Sane(h, c)
    ensures s.head != SENTINEL ==> s.chain != [] && s.chain[0] == s.head && NextFree(s) <= SENTINEL
    ensures s.head != SENTINEL ==> Img(s.dev.files.pages, s.head).PageImg? && |Img(s.dev.files.pages, s.head).body| == BODY_SIZE
  {
    if s.head != SENTINEL {
      PopFree(s.dev.files.pages, s.pageCount, s.head, s.chain);
      hide Walk;
      var c := s.chain[1..];
      assert forall i | 0 <= i < |c| :: c[i] == s.chain[i + 1];
    } else {
      GrowKeepsFree(s.dev.files.pages, s.pageCount, s.head, s.chain, PageImg(Zeros(BODY_SIZE)));
    }
  }

  lemma QuietBodies(s: Snap)
    requires !s.inTxn
    ensures Bodies(s) == BodiesOf(CurrentView(s))
  {}

  /** AllocatePage keeps the invariant; the page it returns was not readable before and is now
      zero-filled, and every other page is untouched. */
  lemma AllocKeeps(crc: Crc, s: Snap)
    requires Inv(crc, s) && CanAlloc(s)
    ensures Inv(crc, Alloced(s))
    ensures FIRST_DATA_PAGE <= AllocId(s) < MAX_PAGES && !IsAllocated(s, AllocId(s)) && IsAllocated(Alloced(s), AllocId(s))
    ensures Bodies(Alloced(s)) == Bodies(s)[AllocId(s) := Zeros(BODY_SIZE)]
    ensures AllocId(s) !in Bodies(s)
  {
    AllocFreeSet(crc, s);
    AllocInv(crc, s);
    AllocBodies(crc, s);
    assert !s.inTxn;
    hide *;
    QuietBodies(s);
    QuietBodies(Alloced(s));
  }

  lemma AllocInv(crc: Crc, s: Snap)
    requires Inv(crc, s) && CanAlloc(s)
    ensures Inv(crc, Alloced(s)) && !Alloced(s).inTxn
    ensures CurrentView(Alloced(s)) == ViewOf(ZeroedDev(s, AllocId(s)).files.pages, AllocHdr(s), Alloced(s).chain)
  {
    AllocList(crc, s);
    AllocFreeSet(crc, s);
    hide Walk, Sane, ViewOf, TxnOk, NextFree;
    SwitchSettled(crc, ZeroedDev(s, AllocId(s)), AllocHdr(s), Alloced(s).chain, s.recs);
  }

  lemma AllocFreeSet(crc: Crc, s: Snap)
    requires Inv(crc, s) && CanAlloc(s)
    ensures forall id :: id in Alloced(s).freeSet <==> id in Alloced(s).chain
    ensures FIRST_DATA_PAGE <= AllocId(s) < MAX_PAGES && !IsAllocated(s, AllocId(s)) && IsAllocated(Alloced(s), AllocId(s))
  {
    AllocList(crc, s);
    WalkFacts(s.dev.files.pages, s.pageCount, s.head, {}, s.chain);
    hide Walk, Settled;
    if s.head != SENTINEL {
      assert s.chain == [s.head] + s.chain[1..];
      assert s.head in s.chain;
      var c := s.chain[1..];
      assert forall i | 0 <= i < |c| :: c[i] == s.chain[i + 1] && c[i] != s.chain[0];
    } else {
      assert s.pageCount !in s.chain;
    }
  }

  lemma AllocBodies(crc: Crc, s: Snap)
    requires Inv(crc, s) && CanAlloc(s)
    ensures BodiesOf(ViewOf(ZeroedDev(s, AllocId(s)).files.pages, AllocHdr(s), Alloced(s).chain))
         == BodiesOf(CurrentView(s))[AllocId(s) := Zeros(BODY_SIZE)]
    ensures AllocId(s) !in BodiesOf(CurrentView(s))
  {
    AllocFreeSet(crc, s);
    hide Settled, Sane, TxnOk, NextFree;
    var id, h, t := AllocId(s), Hdr(s), Alloced(s);
    forall x: nat ensures InData(AllocHdr(s), t.chain, x) <==> (InData(h, s.chain, x) || x == id) {
      assert x in t.freeSet <==> x in t.chain;
      assert x in s.freeSet <==> x in s.chain;
    }
    hide Alloced, Inv;
    BodiesGrow(s.dev.files.pages, h, s.chain, AllocHdr(s), t.chain, id, Zeros(BODY_SIZE));
  }

  ghost predicate InData(h: Header, chain: seq<nat>, id: nat) {
    FIRST_DATA_PAGE <= id < h.pageCount && id !in chain
  }

  lemma BodiesGrow(p: Images, h1: Header, c1: seq<nat>, h2: Header, c2: seq<nat>, id: nat, body: Bytes)
    requires forall x: nat :: InData(h2, c2, x) <==> (InData(h1, c1, x) || x == id)
    requires !InData(h1, c1, id)
    ensures BodiesOf(ViewOf(p[id := PageImg(body)], h2, c2)) == BodiesOf(ViewOf(p, h1, c1))[id := body]
    ensures id !in BodiesOf(ViewOf(p, h1, c1))
  {
    var q := p[id := PageImg(body)];
    var v, w := DataPages(p, h1.pageCount, c1), DataPages(q, h2.pageCount, c2);
    forall x: nat ensures x in w <==> (x in v || x == id) {
      assert x in w <==> InData(h2, c2, x);
      assert x in v <==> InData(h1, c1, x);
    }
    assert w == v[id := PageImg(body)];
    hide InData;
    var a, b := BodiesOf(ViewOf(p, h1, c1)), BodiesOf(ViewOf(q, h2, c2));
    assert b == a[id := body];
  }

  ghost predicate AllocSafe(crc: Crc, s: Snap) {
    forall i | 0 <= i < 6 :: CrashesToEither(crc, AllocMoments(s)[i], CurrentView(s), CurrentView(Alloced(s)))
  }

  lemma NowPossible(dev: Device)
    ensures MayCrashTo(dev, dev.files)
  {
    assert dev.files.wal + dev.walTail[..0] == dev.files.wal;
  }

  /** Taking a page off the free list is not crash-safe: between zeroing it and the header
      update the old header leads to a corrupt list. */
  lemma ReuseUnsafe(crc: Crc, s: Snap)
    requires Inv(crc, s) && CanAlloc(s) && s.head != SENTINEL
    ensures MayCrashTo(AllocMoments(s)[1], AllocMoments(s)[1].files)
    ensures Recover(crc, AllocMoments(s)[1].files) == None
  {
    var m := AllocMoments(s)[1];
    NowPossible(m);
    ZeroedHeadCorrupt(s.dev.files.pages, s.pageCount, s.head);
    AllocFreeSet(crc, s);
    assert ChosenHeader(m.files) == Some(Hdr(s));
  }

  /** So does every state of the reuse but the last: a crash may leave the head zeroed under the old
      header. */
  lemma ReuseMomentUnsafe(crc: Crc, s: Snap, i: nat) returns (f: Files)
    requires Inv(crc, s) && CanAlloc(s) && s.head != SENTINEL && i < 5
    ensures MayCrashTo(AllocMoments(s)[i], f) && Recover(crc, f) == None
  {
    var m, z := AllocMoments(s)[i], ZeroedDev(s, AllocId(s));
    AllocFreeSet(crc, s);
    f := if i == 0 then z.files else m.files;
    if i == 0 {
      assert m.pending[0] in m.pending && Unsynced(m.pending, s.head) == {PageImg(Zeros(BODY_SIZE))};
      assert f.wal == m.files.wal + m.walTail[..0];
    } else {
      NowPossible(m);
    }
    assert Img(f.pages, HEADER_PAGE) == HeadImg(Hdr(s)) && Img(f.pages, s.head) == PageImg(Zeros(BODY_SIZE));
    ZeroPointer();
    assert Walk(f.pages, s.pageCount, 0, {} + {s.head}) == None;
    assert Walk(f.pages, s.pageCount, s.head, {}) == None;
  }

  lemma GrowWriteCrash(crc: Crc, m: Device, s: Snap)
    requires Inv(crc, s) && CanAlloc(s) && s.head == SENTINEL
    requires m == AllocMoments(s)[0] || m == AllocMoments(s)[1]
    ensures CrashesTo(crc, m, CurrentView(s))
  {
    var body, id := Zeros(BODY_SIZE), s.pageCount;
    GrowKeepsFree(s.dev.files.pages, s.pageCount, s.head, s.chain, PageImg(body));
    WalkFacts(s.dev.files.pages, s.pageCount, s.head, {}, s.chain);
    assert id !in s.chain;
    assert m.walTail == [];
    assert m.pending == [Write(id, PageImg(body))] || m.pending == [];
    assert Settled(crc, m.files, Hdr(s), s.chain, s.recs);
    assert AgreeOff(m.files.pages, s.dev.files.pages, {id});
    hide Settled, Sane, Reopens, OpensTo, Walk, AllocMoments;
    forall f | MayCrashTo(m, f) ensures OpensTo(crc, f, CurrentView(s)) {
      CrashInPageWrite(crc, m, f, Hdr(s), s.chain, s.recs, id, body);
      ReopensOpensTo(crc, f, Hdr(s), s.chain, f.pages);
      hide MayCrashTo;
      AgreeOffTrans(f.pages, m.files.pages, s.dev.files.pages, {id}, {id}, {id});
      BeyondView(f.pages, s.dev.files.pages, Hdr(s), s.chain);
    }
  }

  lemma BeyondView(p: Images, q: Images, h: Header, chain: seq<nat>)
    requires AgreeOff(p, q, {h.pageCount})
    ensures ViewOf(p, h, chain) == ViewOf(q, h, chain)
  {
    assert DataPages(p, h.pageCount, chain) == DataPages(q, h.pageCount, chain);
  }

  lemma GrowCrash(crc: Crc, s: Snap, i: nat)
    requires Inv(crc, s) && CanAlloc(s) && s.head == SENTINEL && i < 6
    ensures CrashesToEither(crc, AllocMoments(s)[i], CurrentView(s), CurrentView(Alloced(s)))
  {
    if i < 2 {
      GrowWriteCrash(crc, AllocMoments(s)[i], s);
    } else {
      var d, h2, c2 := ZeroedDev(s, AllocId(s)), AllocHdr(s), s.chain;
      AllocList(crc, s);
      GrowKeepsFree(s.dev.files.pages, s.pageCount, s.head, s.chain, PageImg(Zeros(BODY_SIZE)));
      assert Settled(crc, d.files, Hdr(s), s.chain, s.recs);
      assert AgreeOff(d.files.pages, s.dev.files.pages, {s.pageCount});
      SwitchCrash(crc, d, Hdr(s), s.chain, h2, c2, s.recs, i - 2);
      SwitchSettled(crc, d, h2, c2, s.recs);
      BeyondView(d.files.pages, s.dev.files.pages, Hdr(s), s.chain);
    }
  }

  /** A crash at any step of AllocatePage leaves exactly the old or the new state if and only if
      the free list was empty, so that the file grew. */
  lemma AllocSafeIff(crc: Crc, s: Snap)
    requires Inv(crc, s) && CanAlloc(s)
    ensures AllocSafe(crc, s) <==> s.head == SENTINEL
  {
    hide Inv, AllocMoments;
    if s.head == SENTINEL {
      forall i | 0 <= i < 6 ensures CrashesToEither(crc, AllocMoments(s)[i], CurrentView(s), CurrentView(Alloced(s))) {
        GrowCrash(crc, s, i);
      }
    } else {
      ReuseUnsafe(crc, s);
      assert !CrashesToEither(crc, AllocMoments(s)[1], CurrentView(s), CurrentView(Alloced(s)));
    }
  }

  /** State by state: safe exactly if the file is extended or the new header is on disk. */
  lemma AllocMomentIff(crc: Crc, s: Snap, i: nat)
    requires Inv(crc, s) && CanAlloc(s) && i < 6
    ensures CrashesToEither(crc, AllocMoments(s)[i], CurrentView(s), CurrentView(Alloced(s))) <==> s.head == SENTINEL || i == 5
  {
    hide Inv, MayCrashTo, Recover, CurrentView;
    if s.head == SENTINEL {
      GrowCrash(crc, s, i);
    } else if i == 5 {
      AllocInv(crc, s);
      QuietMoment(crc, Alloced(s));
      assert AllocMoments(s)[5] == Alloced(s).dev;
    } else {
      var f := ReuseMomentUnsafe(crc, s, i);
      hide AllocMoments, Alloced;
      assert !CrashesToEither(crc, AllocMoments(s)[i], CurrentView(s), CurrentView(Alloced(s)));
    }
  }

  // ----- several allocations -----

  ghost function AllocNth(s: Snap, n: nat): Snap {
    if n == 0 then s else Alloced(AllocNth(s, n - 1))
  }

  ghost function AllocTrace(s: Snap, n: nat): (ms: seq<Device>)
    ensures |ms| == 6 * n
  {
    if n == 0 then [] else AllocTrace(s, n - 1) + AllocMoments(AllocNth(s, n - 1))
  }

  /** How many of n allocations take a page off the free list. */
  ghost function Reused(s: Snap, n: nat): nat {
    if |s.chain| < n then |s.chain| else n
  }

  lemma {:induction false} FirstAlloc(s: Snap, n: nat)
    requires n > 0
    ensures AllocTrace(s, n)[..6] == AllocMoments(s)
  {
    hide AllocMoments, AllocNth;
    if n == 1 {
      assert AllocNth(s, 0) == s by { NoAlloc(s); }
      assert AllocTrace(s, 0) + AllocMoments(s) == AllocMoments(s);
    } else {
      FirstAlloc(s, n - 1);
    }
  }

  lemma NoAlloc(s: Snap)
    ensures AllocNth(s, 0) == s && AllocTrace(s, 0) == []
  {}

  /** The list is shorter by one after each allocation, until it is empty. */
  lemma AllocChain(crc: Crc, s: Snap)
    requires Inv(crc, s) && CanAlloc(s)
    ensures s.chain == [] <==> s.head == SENTINEL
    ensures |Alloced(s).chain| == if s.chain == [] then 0 else |s.chain| - 1
  {
    WalkFacts(s.dev.files.pages, s.pageCount, s.head, {}, s.chain);
    hide Walk;
  }
}
