/** The pager of internal/storage/pager/pager.go as an object over a device. Every call on
    the files adds the device's state to `moments`, so that a contract can speak of a crash
    at any point of a method. */
module Pager {
  import opened Wrappers
  import opened Bytes
  import opened Wal
  import opened WalReplay
  import opened Disk
  import opened CrashSafety
  import opened PagerSpec
  import opened PagerRecovery

  datatype State = NeverOpened | Opened | Closed

  datatype Error =
    | ErrNotOpen | ErrAlreadyOpen | ErrClosed
    | ErrInvalidPageId | ErrBodySizeMismatch | ErrAlreadyFree
    | ErrTxAlreadyActive | ErrNoActiveTx | ErrTxUnsupportedOp
    | ErrHeaderCorrupt | ErrPageCorrupt | ErrFreeListCorrupt | ErrWalCorrupt | ErrWriteFailed

  // ----- loops of replayWALInternal -----

  ghost function Prepend(records: seq<Record>, p: Parsed): Parsed {
    match p
    case WalCorrupt => WalCorrupt
    case Records(rs) => Records(records + rs)
  }

  lemma ParseStep(crc: Crc, data: Bytes, offset: nat, records: seq<Record>)
    requires offset < |data|
    ensures match DecodeNext(crc, data[offset..])
      case Eof => Prepend(records, Parse(crc, data[offset..])) == Records(records)
      case Corrupt => Parse(crc, data[offset..]) == WalCorrupt
      case Rec(r, n) =>
        Prepend(records, Parse(crc, data[offset..])) == Prepend(records + [r], Parse(crc, data[offset + n..]))
  {
    hide DecodeNext;
    var rest := data[offset..];
    match DecodeNext(crc, rest)
    case Eof =>
      assert records + [] == records;
    case Corrupt =>
    case Rec(r, n) =>
      assert rest[n..] == data[offset + n..];
      var later := Parse(crc, rest[n..]);
      if later.Records? {
        assert records + ([r] + later.rs) == records + [r] + later.rs;
      }
  }

  lemma PrependNone(p: Parsed)
    ensures Prepend([], p) == p
  {
    if p.Records? { assert [] + p.rs == p.rs; }
  }

  lemma ParseEnd(crc: Crc, records: seq<Record>)
    ensures Prepend(records, Parse(crc, [])) == Records(records)
  {
    assert records + [] == records;
  }

  /** The parse loop: all complete records, or failure on a corrupt one. */
  method ParseLog(crc: Crc, data: Bytes) returns (p: Parsed)
    ensures p == Parse(crc, data)
  {
    var offset, records := 0, [];
    hide Parse, DecodeNext;
    assert data[0..] == data;
    PrependNone(Parse(crc, data));
    while offset < |data|
      invariant 0 <= offset <= |data|
      invariant Parse(crc, data) == Prepend(records, Parse(crc, data[offset..]))
    {
      ParseStep(crc, data, offset, records);
      match DecodeNext(crc, data[offset..])
      case Eof =>
        return Records(records);
      case Corrupt =>
        return WalCorrupt;
      case Rec(r, consumed) =>
        records, offset := records + [r], offset + consumed;
    }
    ParseEnd(crc, records);
    assert data[offset..] == [];
    return Records(records);
  }

  ghost predicate GroupsOf(rs: seq<Record>, ids: seq<U64>, groups: seq<seq<Record>>) {
    && ids == TxnIds(rs) && |groups| == |ids|
    && forall i | 0 <= i < |ids| :: groups[i] == Group(rs, ids[i])
  }

  ghost predicate IndexOf(ids: seq<U64>, groupIdx: map<U64, nat>) {
    && (forall id | id in groupIdx :: groupIdx[id] < |ids| && ids[groupIdx[id]] == id)
    && (forall i | 0 <= i < |ids| :: ids[i] in groupIdx && groupIdx[ids[i]] == i)
  }

  lemma GroupsSnoc(rs: seq<Record>, rec: Record, ids: seq<U64>, groups: seq<seq<Record>>, groupIdx: map<U64, nat>)
    requires GroupsOf(rs, ids, groups) && IndexOf(ids, groupIdx)
    ensures rec.txn in groupIdx ==>
      GroupsOf(rs + [rec], ids, groups[groupIdx[rec.txn] := groups[groupIdx[rec.txn]] + [rec]])
    ensures rec.txn !in groupIdx ==> GroupsOf(rs + [rec], ids + [rec.txn], groups + [[rec]])
  {
    assert (rs + [rec])[..|rs|] == rs;
    assert rec.txn in ids <==> rec.txn in groupIdx;
    forall id: U64 ensures Group(rs + [rec], id) == if rec.txn == id then Group(rs, id) + [rec] else Group(rs, id) {
      GroupSnoc(rs, rec, id);
    }
    if rec.txn !in groupIdx {
      NewGroupEmpty(rs, rec.txn);
      assert [] + [rec] == [rec];
    }
    hide Group;
  }

  /** The grouping loop: transactions in order of first appearance, records in log order. */
  method GroupByTxn(rs: seq<Record>) returns (ids: seq<U64>, groups: seq<seq<Record>>)
    ensures ids == TxnIds(rs) && |groups| == |ids|
    ensures forall i | 0 <= i < |ids| :: groups[i] == Group(rs, ids[i])
  {
    ids, groups := [], [];
    var groupIdx: map<U64, nat> := map[];
    for k := 0 to |rs|
      invariant GroupsOf(rs[..k], ids, groups) && IndexOf(ids, groupIdx)
    {
      var rec := rs[k];
      assert rs[..k + 1] == rs[..k] + [rec];
      GroupsSnoc(rs[..k], rec, ids, groups, groupIdx);
      assert |groups| == |ids|;
      hide GroupsOf;
      if rec.txn in groupIdx {
        var idx := groupIdx[rec.txn];
        groups := groups[idx := groups[idx] + [rec]];
      } else {
        groupIdx := groupIdx[rec.txn := |ids|];
        ids, groups := ids + [rec.txn], groups + [[rec]];
      }
    }
    assert rs[..|rs|] == rs;
  }

  lemma NewGroupEmpty(rs: seq<Record>, txn: U64)
    requires txn !in TxnIds(rs)
    ensures Group(rs, txn) == []
  {
    TxnIdsDistinct(rs);
    GroupAbsent(rs, txn);
  }

  /** Within a group: is there an end marker, and what is the last body of each page. */
  method ScanGroup(group: seq<Record>) returns (hasEot: bool, applied: map<nat, Bytes>)
    ensures hasEot <==> exists i :: 0 <= i < |group| && group[i].Eot?
    ensures applied == Writes(group)
  {
    hasEot, applied := false, map[];
    for k := 0 to |group|
      invariant hasEot <==> exists i :: 0 <= i < k && group[i].Eot?
      invariant applied == Writes(group[..k])
    {
      assert group[..k + 1][..k] == group[..k];
      if group[k].Eot? {
        hasEot := true;
      } else {
        applied := applied[group[k].page := group[k].body];
      }
    }
    assert group[..|group|] == group;
  }

  lemma {:induction false} EotInGroup(rs: seq<Record>, txn: U64)
    ensures (exists i :: 0 <= i < |Group(rs, txn)| && Group(rs, txn)[i].Eot?) <==> Eot(txn) in rs
    ensures forall i | 0 <= i < |Group(rs, txn)| :: Group(rs, txn)[i].txn == txn
  {
    if rs != [] {
      var front, last := rs[..|rs| - 1], rs[|rs| - 1];
      EotInGroup(front, txn);
      GroupSnoc(front, last, txn);
      assert rs == front + [last];
      var g, g' := Group(front, txn), Group(rs, txn);
      if last.txn == txn && last.Eot? {
        assert g'[|g|] == last;
      } else if exists i :: 0 <= i < |g| && g[i].Eot? {
        var i :| 0 <= i < |g| && g[i].Eot?;
        assert g'[i] == g[i];
      }
    }
  }

  ghost function Onto(chain: seq<nat>, r: Option<seq<nat>>): Option<seq<nat>> {
    match r
    case None => None
    case Some(rest) => Some(chain + rest)
  }

  lemma WalkStep(pages: Images, pageCount: nat, curr: nat, seen: set<nat>, chain: seq<nat>)
    requires curr != SENTINEL && 0 < curr < pageCount && curr !in seen
    ensures var img := Img(pages, curr);
      Onto(chain, Walk(pages, pageCount, curr, seen)) ==
      if !img.PageImg? || |img.body| != BODY_SIZE then None
      else Onto(chain + [curr], Walk(pages, pageCount, Pointer(img.body), seen + {curr}))
  {
    var img := Img(pages, curr);
    if img.PageImg? && |img.body| == BODY_SIZE {
      var rest := Walk(pages, pageCount, Pointer(img.body), seen + {curr});
      if rest.Some? { assert chain + ([curr] + rest.value) == chain + [curr] + rest.value; }
    }
  }

  /** Open's loop over the free list: the pages on it, or None when it is corrupt. */
  method WalkFreeList(pages: Images, pageCount: nat, head: nat) returns (freeSet: Result<set<nat>, Error>, ghost chain: seq<nat>)
    ensures Walk(pages, pageCount, head, {}) == if freeSet.Ok? then Some(chain) else None
    ensures freeSet.Ok? ==> forall id :: id in freeSet.value <==> id in chain
    ensures freeSet.Err? ==> WalkFails(pages, pageCount, head, freeSet.error)
  {
    hide PointsTo;
    var curr: nat, seen: set<nat> := head, {};
    chain := [];
    assert Onto([], Walk(pages, pageCount, head, {})) == Walk(pages, pageCount, head, {}) by {
      var r := Walk(pages, pageCount, head, {});
      if r.Some? { assert [] + r.value == r.value; }
    }
    while curr != SENTINEL
      invariant Walk(pages, pageCount, head, {}) == Onto(chain, Walk(pages, pageCount, curr, seen))
      invariant forall id :: id in seen <==> id in chain
      invariant LeadsTo(pages, head, chain, curr)
      decreases Below(pageCount) - seen
    {
      if curr == 0 || curr >= pageCount || curr in seen {
        assert StopsAt(pages, pageCount, head, chain, curr, ErrFreeListCorrupt);
        return Err(ErrFreeListCorrupt), chain;
      }
      WalkStep(pages, pageCount, curr, seen, chain);
      var img := Img(pages, curr);
      if !img.PageImg? || |img.body| != BODY_SIZE {
        assert StopsAt(pages, pageCount, head, chain, curr, ErrPageCorrupt);
        return Err(ErrPageCorrupt), chain;
      }
      LeadsOn(pages, head, chain, curr);
      seen, chain := seen + {curr}, chain + [curr];
      curr := Pointer(img.body);
    }
    assert chain + [] == chain;
    return Ok(seen), chain;
  }

  /** From `head` these pages point one to the next, and the last to `curr`. */
  ghost predicate LeadsTo(pages: Images, head: nat, chain: seq<nat>, curr: nat) {
    var all := chain + [curr];
    head == all[0] && forall i | 0 <= i < |chain| :: PointsTo(pages, chain[i], all[i + 1])
  }

  lemma LeadsOn(pages: Images, head: nat, chain: seq<nat>, curr: nat)
    requires LeadsTo(pages, head, chain, curr) && Img(pages, curr).PageImg? && |Img(pages, curr).body| == BODY_SIZE
    ensures LeadsTo(pages, head, chain + [curr], Pointer(Img(pages, curr).body))
  {
    assert PointsTo(pages, curr, Pointer(Img(pages, curr).body));
    hide PointsTo;
    var next := Pointer(Img(pages, curr).body);
    var all, more := chain + [curr], chain + [curr] + [next];
    forall i | 0 <= i < |all| ensures PointsTo(pages, all[i], more[i + 1]) {
      if i < |chain| { assert PointsTo(pages, chain[i], all[i + 1]); }
    }
  }

  /** The list leads to a page out of range or seen before, or to one that cannot be read. */
  ghost predicate StopsAt(pages: Images, pageCount: nat, head: nat, chain: seq<nat>, curr: nat, e: Error) {
    && LeadsTo(pages, head, chain, curr) && curr != SENTINEL
    && if curr == 0 || curr >= pageCount || curr in chain then e == ErrFreeListCorrupt
       else e == ErrPageCorrupt && (!Img(pages, curr).PageImg? || |Img(pages, curr).body| != BODY_SIZE)
  }

  ghost predicate WalkFails(pages: Images, pageCount: nat, head: nat, e: Error) {
    exists chain, curr :: StopsAt(pages, pageCount, head, chain, curr, e)
  }

  // ----- the pager -----

  class FilePager {
    const crc: Crc
    var dev: Device
    var state: State
    var pageCount: nat
    var freeListHead: nat
    var freeCount: nat
    var freeSet: set<nat>
    var inTxn: bool
    var nextTxnId: nat
    var currentTxn: nat
    var txnBuffer: map<nat, Bytes>
    var walSize: nat

    /** The free list in order, the records in the log, and every device state so far. */
    ghost var chain: seq<nat>
    ghost var recs: seq<Record>
    ghost var moments: seq<Device>

    ghost function Now(): Snap
      reads this
    {
      Snap(dev, pageCount, freeListHead, freeCount, freeSet, inTxn, nextTxnId, currentTxn, txnBuffer, walSize, chain, recs)
    }

    ghost predicate Valid()
      reads this
    {
      state.Opened? && Inv(crc, Now())
    }

    /** checkState. */
    function StateError(): (e: Error)
      requires !state.Opened?
      reads this
      ensures state.NeverOpened? <==> e == ErrNotOpen
      ensures state.Closed? <==> e == ErrClosed
    {
      if state.Closed? then ErrClosed else ErrNotOpen
    }

    /** validatePageID and the free-set test. */
    predicate Allocated(id: nat)
      reads this
    {
      FIRST_DATA_PAGE <= id < pageCount && id !in freeSet
    }

    lemma NowAllocated(id: nat)
      ensures IsAllocated(Now(), id) == Allocated(id)
    {}

    constructor (crc: Crc, files: Files)
      ensures this.crc == crc && state.NeverOpened? && dev == Device(files, [], [])
      ensures moments == [] && !inTxn && nextTxnId == 0 && currentTxn == 0 && txnBuffer == map[] && walSize == 0
      ensures freeListHead == SENTINEL && freeCount == 0 && freeSet == {} && chain == [] && recs == []
    {
      this.crc, state, dev := crc, NeverOpened, Device(files, [], []);
      pageCount, freeListHead, freeCount, freeSet := 0, SENTINEL, 0, {};
      inTxn, nextTxnId, currentTxn, txnBuffer, walSize := false, 0, 0, map[], 0;
      chain, recs, moments := [], [], [];
    }

    // ----- file operations -----

    method WriteMain(id: nat, img: Image)
      modifies this`dev, this`moments
      ensures dev == Device(old(dev.files), old(dev.pending) + [Write(id, img)], old(dev.walTail))
      ensures moments == old(moments) + [dev]
    {
      dev := Device(dev.files, dev.pending + [Write(id, img)], dev.walTail);
      moments := moments + [dev];
    }

    method SyncMain()
      modifies this`dev, this`moments
      ensures dev == Synced(old(dev))
      ensures moments == old(moments) + [dev]
    {
      dev := Synced(dev);
      moments := moments + [dev];
    }

    method AppendToWal(b: Bytes)
      requires walSize == |dev.files.wal| && dev.walTail == []
      modifies this`dev, this`moments
      ensures dev == Device(old(dev.files), old(dev.pending), b)
      ensures moments == old(moments) + [dev]
    {
      dev := Device(dev.files, dev.pending, b);
      moments := moments + [dev];
    }

    method SyncWal()
      modifies this`dev, this`moments
      ensures dev == WalSynced(old(dev))
      ensures moments == old(moments) + [dev]
    {
      dev := WalSynced(dev);
      moments := moments + [dev];
    }

    /** Truncation is durable on return. */
    method TruncateWal()
      modifies this`dev, this`moments
      ensures dev == Device(Files(old(dev.files.pages), []), old(dev.pending), [])
      ensures moments == old(moments) + [dev]
    {
      dev := Device(Files(dev.files.pages, []), dev.pending, []);
      moments := moments + [dev];
    }

    /** writeBodyUnchecked. */
    method WriteBody(id: nat, body: Bytes)
      requires dev.pending == []
      modifies this`dev, this`moments
      ensures dev == Device(Files(old(dev.files.pages)[id := PageImg(body)], old(dev.files.wal)), [], old(dev.walTail))
      ensures moments == old(moments) + [Device(old(dev.files), [Write(id, PageImg(body))], old(dev.walTail)), dev]
    {
      WriteMain(id, PageImg(body));
      assert dev.pending == [Write(id, PageImg(body))];
      LandOne(dev.files.pages, Write(id, PageImg(body)));
      SyncMain();
    }

    /** writeHeader: mirror, fsync, primary, fsync. */
    method WriteHeader()
      requires dev.pending == []
      modifies this`dev, this`moments
      ensures dev == SwitchEnd(old(dev), Header(pageCount, freeListHead, freeCount))
      ensures moments == old(moments) + SwitchMoments(old(dev), Header(pageCount, freeListHead, freeCount))
    {
      var img := HeadImg(Header(pageCount, freeListHead, freeCount));
      LandOne(dev.files.pages, Write(MIRROR_PAGE, img));
      LandOne(dev.files.pages[MIRROR_PAGE := img], Write(HEADER_PAGE, img));
      WriteMain(MIRROR_PAGE, img);
      assert dev.pending == [Write(MIRROR_PAGE, img)];
      SyncMain();
      WriteMain(HEADER_PAGE, img);
      assert dev.pending == [Write(HEADER_PAGE, img)];
      SyncMain();
    }

    /** The writes of one transaction, in any order, then one fsync. */
    method WriteAll(buf: map<nat, Bytes>)
      requires dev.pending == []
      modifies this`dev, this`moments
      ensures dev == Device(Files(old(dev.files.pages) + ImagesOf(buf), old(dev.files.wal)), [], old(dev.walTail))
      ensures |moments| >= old(|moments|) && moments[..old(|moments|)] == old(moments)
      ensures forall i | old(|moments|) <= i < |moments| :: GroupMoment(moments[i], old(dev), buf)
    {
      var todo := buf.Keys;
      ghost var done: map<nat, Bytes> := map[];
      while todo != {}
        invariant todo <= buf.Keys && done.Keys == buf.Keys - todo
        invariant forall id | id in done :: done[id] == buf[id]
        invariant dev.files == old(dev.files) && dev.walTail == old(dev.walTail)
        invariant forall i | 0 <= i < |dev.pending| :: dev.pending[i].id in buf
        invariant Land(dev.files.pages, dev.pending) == dev.files.pages + ImagesOf(done)
        invariant |moments| >= old(|moments|) && moments[..old(|moments|)] == old(moments)
        invariant forall i | old(|moments|) <= i < |moments| :: GroupMoment(moments[i], old(dev), buf)
      {
        var id :| id in todo;
        LandSnoc(dev.files.pages, dev.pending, Write(id, PageImg(buf[id])), done, buf[id]);
        WriteMain(id, PageImg(buf[id]));
        todo, done := todo - {id}, done[id := buf[id]];
      }
      assert done == buf;
      SyncMain();
    }

    // ----- replay -----

    /** One transaction of the log: skip it without an end marker, else write its pages. */
    method ApplyGroup(group: seq<Record>, ghost base: Images, ghost rs: seq<Record>, ghost j: nat)
      requires j < |TxnIds(rs)| && group == Group(rs, TxnIds(rs)[j])
      requires Parse(crc, dev.files.wal) == Records(rs)
      requires dev.files.pages == ApplyIds(rs, TxnIds(rs)[..j], base) && dev.pending == [] && dev.walTail == []
      modifies this`dev, this`moments
      ensures dev == Device(Files(ApplyIds(rs, TxnIds(rs)[..j + 1], base), old(dev.files.wal)), [], [])
      ensures |moments| >= old(|moments|) && moments[..old(|moments|)] == old(moments)
      ensures forall i | old(|moments|) <= i < |moments| ::
        Replaying(crc, moments[i], base, rs) && moments[i].files.wal == old(dev.files.wal)
    {
      ghost var ids := TxnIds(rs);
      var hasEot, applied := ScanGroup(group);
      EotInGroup(rs, ids[j]);
      assert hasEot <==> Eot(ids[j]) in rs;
      assert ids[..j + 1] == ids[..j] + [ids[j]];
      ApplyIdsSnoc(rs, ids[..j], ids[j], base);
      hide TxnIds, ApplyIds, Group, Writes, Parse;
      if hasEot {
        ghost var start := dev;
        WriteAll(applied);
        forall i | old(|moments|) <= i < |moments|
          ensures Replaying(crc, moments[i], base, rs) && moments[i].files.wal == old(dev.files.wal)
        {
          GroupIsReplaying(crc, moments[i], start, base, rs, j);
        }
      }
    }

    /** replayWALInternal, as recovery and as checkpoint: apply the committed transactions of
        the log, then truncate it. A corrupt log is left untouched. */
    method ReplayWal() returns (r: Result<(), Error>)
      requires dev.pending == [] && dev.walTail == [] && walSize == |dev.files.wal|
      modifies this`dev, this`moments, this`walSize
      ensures r.Err? <==> Parse(crc, old(dev.files.wal)).WalCorrupt?
      ensures r.Err? ==> r == Err(ErrWalCorrupt) && dev == old(dev) && moments == old(moments) && walSize == old(walSize)
      ensures r.Ok? ==>
        var rs := Parse(crc, old(dev.files.wal)).rs;
        && dev == Device(Files(Replay(rs, old(dev.files.pages)), []), [], []) && walSize == 0
        && |moments| >= old(|moments|) && moments[..old(|moments|)] == old(moments)
        && (forall i | old(|moments|) <= i < |moments| - 1 ::
              Replaying(crc, moments[i], old(dev.files.pages), rs) && moments[i].files.wal == old(dev.files.wal))
        && (moments == old(moments) ==> dev == old(dev))
        && (moments != old(moments) ==> moments[|moments| - 1] == dev)
    {
      if walSize == 0 {
        return Ok(());
      }
      var p := ParseLog(crc, dev.files.wal);
      if p.WalCorrupt? {
        return Err(ErrWalCorrupt);
      }
      var ids, groups := GroupByTxn(p.rs);
      ghost var base := dev.files.pages;
      for j := 0 to |ids|
        invariant dev == Device(Files(ApplyIds(p.rs, ids[..j], base), old(dev.files.wal)), [], [])
        invariant |moments| >= old(|moments|) && moments[..old(|moments|)] == old(moments)
        invariant forall i | old(|moments|) <= i < |moments| ::
          Replaying(crc, moments[i], base, p.rs) && moments[i].files.wal == old(dev.files.wal)
      {
        ghost var n := |moments|;
        ApplyGroup(groups[j], base, p.rs, j);
        forall i | old(|moments|) <= i < |moments|
          ensures Replaying(crc, moments[i], base, p.rs) && moments[i].files.wal == old(dev.files.wal)
        {
          if i < n { assert moments[i] == moments[..n][i]; }
        }
        assert moments[..old(|moments|)] == moments[..n][..old(|moments|)];
      }
      assert ids[..|ids|] == ids;
      TruncateWal();
      walSize := 0;
      return Ok(());
    }

    // ----- transactions -----

    method BeginTx() returns (r: Result<(), Error>)
      requires state.Opened? ==> Valid()
      requires nextTxnId + 1 < U64_LIMIT
      modifies this`inTxn, this`nextTxnId, this`currentTxn, this`txnBuffer
      ensures r == if !state.Opened? then Err(StateError()) else if old(inTxn) then Err(ErrTxAlreadyActive) else Ok(())
      ensures Now() == if r.Ok? then Begun(old(Now())) else old(Now())
      ensures r.Ok? ==> inTxn && currentTxn == nextTxnId == old(nextTxnId) + 1 && txnBuffer == map[]
      ensures r.Ok? ==> Valid()
    {
      hide Inv;
      if !state.Opened? {
        return Err(StateError());
      }
      if inTxn {
        return Err(ErrTxAlreadyActive);
      }
      BeginKeeps(crc, Now());
      inTxn := true;
      nextTxnId := nextTxnId + 1;
      currentTxn := nextTxnId;
      txnBuffer := map[];
      return Ok(());
    }

    method RollbackTx() returns (r: Result<(), Error>)
      requires state.Opened? ==> Valid()
      modifies this`inTxn, this`currentTxn, this`txnBuffer
      ensures r == if !state.Opened? then Err(StateError()) else if !old(inTxn) then Err(ErrNoActiveTx) else Ok(())
      ensures Now() == if r.Ok? then RolledBack(old(Now())) else old(Now())
      ensures r.Ok? ==> !inTxn && currentTxn == 0 && txnBuffer == map[]
      ensures r.Ok? ==> Valid()
    {
      if !state.Opened? {
        return Err(StateError());
      }
      if !inTxn {
        return Err(ErrNoActiveTx);
      }
      hide Inv;
      RollbackKeeps(crc, Now());
      inTxn, txnBuffer, currentTxn := false, map[], 0;
      return Ok(());
    }

    method ReadPage(pageId: nat) returns (r: Result<Bytes, Error>)
      requires state.Opened? ==> Valid()
      ensures !state.Opened? ==> r == Err(StateError())
      ensures state.Opened? && !Allocated(pageId) ==> r == Err(ErrInvalidPageId)
      ensures state.Opened? && Allocated(pageId) ==>
        r == if pageId in Bodies(Now()) then Ok(Bodies(Now())[pageId]) else Err(ErrPageCorrupt)
    {
      if !state.Opened? {
        return Err(StateError());
      }
      if !Allocated(pageId) {
        return Err(ErrInvalidPageId);
      }
      if inTxn && pageId in txnBuffer {
        return Ok(txnBuffer[pageId]);
      }
      assert pageId in CurrentView(Now()).pages;
      var img := Img(dev.files.pages, pageId);
      if img.PageImg? {
        return Ok(img.body);
      }
      return Err(ErrPageCorrupt);
    }

    /** appendWAL. */
    method AppendWal(pageId: nat, body: Bytes)
      requires Valid() && inTxn && Allocated(pageId) && |body| == BODY_SIZE
      requires currentTxn < U64_LIMIT && pageId < U64_LIMIT
      modifies this`dev, this`moments, this`txnBuffer, this`walSize, this`recs
      ensures Valid() && Now() == Appended(crc, old(Now()), pageId, body)
      ensures moments == old(moments) + WriteMoments(crc, old(Now()), pageId, body)
    {
      hide Inv, Encode, IsAllocated;
      InvQuiet(crc, Now());
      assert IsAllocated(Now(), pageId) by { NowAllocated(pageId); }
      AppendInv(crc, Now(), pageId, body);
      var rec := Data(currentTxn, pageId, body);
      AppendToWal(Encode(crc, rec));
      SyncWal();
      txnBuffer := txnBuffer[pageId := body];
      walSize := walSize + |Encode(crc, rec)|;
      recs := recs + [rec];
    }

    method WritePage(pageId: nat, body: Bytes) returns (r: Result<(), Error>)
      requires state.Opened? ==> Valid()
      modifies this`dev, this`moments, this`txnBuffer, this`walSize, this`recs
      ensures r == if !state.Opened? then Err(StateError())
                   else if !Allocated(pageId) then Err(ErrInvalidPageId)
                   else if |body| != BODY_SIZE then Err(ErrBodySizeMismatch) else Ok(())
      ensures r.Err? ==> Now() == old(Now()) && moments == old(moments)
      ensures r.Ok? ==> Valid() && pageId < U64_LIMIT && (inTxn ==> currentTxn < U64_LIMIT)
      ensures r.Ok? ==> Now() == if inTxn then Appended(crc, old(Now()), pageId, body) else Written(old(Now()), pageId, body)
      ensures r.Ok? && inTxn ==> txnBuffer == old(txnBuffer)[pageId := body] && dev.files.pages == old(dev.files.pages)
      ensures r.Ok? && !inTxn ==> dev.files == Files(old(dev.files.pages)[pageId := PageImg(body)], old(dev.files.wal))
      ensures r.Ok? ==> moments == old(moments) + WriteMoments(crc, old(Now()), pageId, body)
      ensures r.Ok? && inTxn ==>
        forall i | 0 <= i < 2 :: CrashesTo(crc, WriteMoments(crc, old(Now()), pageId, body)[i], CurrentView(old(Now())))
    {
      if !state.Opened? {
        return Err(StateError());
      }
      if !Allocated(pageId) {
        return Err(ErrInvalidPageId);
      }
      if |body| != BODY_SIZE {
        return Err(ErrBodySizeMismatch);
      }
      hide Inv, CrashesTo, CurrentView, Appended, IsAllocated;
      InvQuiet(crc, Now());
      NowAllocated(pageId);
      if inTxn {
        AppendCrash(crc, Now(), pageId, body);
        hide WriteMoments;
        AppendWal(pageId, body);
      } else {
        WriteKeeps(crc, Now(), pageId, body);
        WriteBody(pageId, body);
      }
      return Ok(());
    }

    /** Log the end marker and fsync the log. */
    method WriteEot()
      requires Valid() && inTxn && currentTxn < U64_LIMIT
      modifies this`dev, this`moments, this`walSize
      ensures dev == CommitDev(crc, old(Now())) && walSize == |dev.files.wal|
      ensures moments == old(moments) + [EotDev(crc, old(Now())), dev]
    {
      hide Inv, Encode;
      InvQuiet(crc, Now());
      AppendToWal(Encode(crc, Eot(currentTxn)));
      SyncWal();
      walSize := walSize + |Encode(crc, Eot(currentTxn))|;
    }

    /** Write the buffered pages to the main file and fsync it once. */
    method ApplyCommitted(buf: map<nat, Bytes>, ghost s: Snap)
      requires s.currentTxn < U64_LIMIT && buf == s.buffer && dev == CommitDev(crc, s)
      modifies this`dev, this`moments
      ensures dev == Device(Committed(s).dev.files.(wal := CommitWal(crc, s)), [], []) && Grew(old(moments), moments)
      ensures forall i | old(|moments|) <= i < |moments| :: CommitState(crc, s, moments[i])
    {
      hide CommitWal, GroupMoment, Replaying;
      WriteAll(buf);
    }

    /** The checkpoint after a commit: replay the log over the main file and truncate it. */
    method Checkpoint(ghost s: Snap)
      requires Inv(crc, s) && s.inTxn && s.currentTxn < U64_LIMIT
      requires dev == Device(Committed(s).dev.files.(wal := CommitWal(crc, s)), [], []) && walSize == |dev.files.wal|
      modifies this`dev, this`moments, this`walSize, this`recs
      ensures dev == Committed(s).dev && walSize == 0 && recs == [] && Grew(old(moments), moments)
      ensures forall i | old(|moments|) <= i < |moments| :: CommitState(crc, s, moments[i])
    {
      hide Inv, CommitWal, CommitLog, Parse, Replay, Replaying, Committed, GroupMoment;
      CommitWalGrows(crc, s);
      CommitLogParses(crc, s);
      CommittedDev(s);
      var r := ReplayWal();
      recs := [];
    }

    /** End marker, main file, checkpoint. */
    method CommitSteps()
      requires Valid() && inTxn && currentTxn < U64_LIMIT
      modifies this`dev, this`moments, this`inTxn, this`currentTxn, this`txnBuffer, this`walSize, this`recs
      ensures Now() == Committed(old(Now())) && Grew(old(moments), moments)
      ensures CommitTrace(crc, old(Now()), moments, old(|moments|))
    {
      hide Inv, CommitWal, EotDev, CommitState, CommitTrace, Grew;
      ghost var s, ms0 := Now(), moments;
      WriteEot();
      ghost var ms1 := moments;
      CommitStarts(crc, s, ms0, ms1);
      var applyBuffer := txnBuffer;
      inTxn, txnBuffer, currentTxn := false, map[], 0;
      ApplyCommitted(applyBuffer, s);
      ghost var ms2 := moments;
      CommitTraceJoin(crc, s, ms1, ms2, |ms0|);
      Checkpoint(s);
      CommitTraceJoin(crc, s, ms2, moments, |ms0|);
      GrewTrans(ms1, ms2, moments);
      GrewTrans(ms0, ms1, moments);
    }

    /** Atomic commit: while the end marker is being written a crash leaves all of the transaction's
        pages exactly when it survived, and none otherwise; at every later point it leaves them. */
    method CommitTx() returns (r: Result<(), Error>)
      requires state.Opened? ==> Valid()
      modifies this`dev, this`moments, this`inTxn, this`currentTxn, this`txnBuffer, this`walSize, this`recs
      ensures r == if !state.Opened? then Err(StateError()) else if !old(inTxn) then Err(ErrNoActiveTx) else Ok(())
      ensures Now() == if r.Ok? then Committed(old(Now())) else old(Now())
      ensures r.Ok? ==> !inTxn && txnBuffer == map[] && dev == Device(Files(old(dev.files.pages) + ImagesOf(old(txnBuffer)), []), [], [])
      ensures r.Err? ==> moments == old(moments)
      ensures r.Ok? ==> Valid() && old(currentTxn) < U64_LIMIT && |moments| > old(|moments|) && Grew(old(moments), moments)
      ensures r.Ok? ==> CommitTrace(crc, old(Now()), moments, old(|moments|))
      ensures r.Ok? ==> AtomicAt(crc, moments[old(|moments|)], old(Now()))
      ensures r.Ok? ==> forall i | old(|moments|) < i < |moments| :: CrashesTo(crc, moments[i], CurrentView(Now()))
    {
      if !state.Opened? {
        return Err(StateError());
      }
      if !inTxn {
        return Err(ErrNoActiveTx);
      }
      ghost var s, lo := Now(), |moments|;
      hide Inv, CurrentView, CrashesTo, Committed, CommitState, AtomicAt, EotDev;
      CommitInv(crc, s);
      InvQuiet(crc, s);
      CommitSteps();
      CommitCrash(crc, s, moments, lo);
      return Ok(());
    }

    // ----- allocation -----

    /** A page body, then the header with what the fields say. */
    method WriteBodyThenHeader(id: nat, body: Bytes)
      requires dev.pending == []
      modifies this`dev, this`moments
      ensures var mid := Device(Files(old(dev.files.pages)[id := PageImg(body)], old(dev.files.wal)), [], old(dev.walTail));
        && dev == SwitchEnd(mid, Header(pageCount, freeListHead, freeCount))
        && moments == old(moments) + ([Device(old(dev.files), [Write(id, PageImg(body))], old(dev.walTail)), mid]
                                      + SwitchMoments(mid, Header(pageCount, freeListHead, freeCount)))
    {
      hide SwitchEnd, SwitchMoments;
      WriteBody(id, body);
      WriteHeader();
    }

    /** Take a page from the free list, or extend the file. */
    method AllocatePage() returns (r: Result<nat, Error>)
      requires state.Opened? ==> Valid()
      modifies this`dev, this`moments, this`pageCount, this`freeListHead, this`freeCount, this`freeSet, this`chain
      ensures r == if !state.Opened? then Err(StateError())
                   else if inTxn then Err(ErrTxUnsupportedOp)
                   else if !CanAlloc(old(Now())) then Err(ErrWriteFailed) else Ok(AllocId(old(Now())))
      ensures state.Opened? && !inTxn ==> (r.Ok? <==> old(freeSet) != {} || old(pageCount) * 4096 < 0x8000_0000_0000_0000)
      ensures r.Ok? && old(freeSet) != {} ==> r.value in old(freeSet) && freeSet == old(freeSet) - {r.value} && pageCount == old(pageCount)
      ensures r.Ok? && old(freeSet) == {} ==> r.value == old(pageCount) && pageCount == old(pageCount) + 1 && freeSet == {}
      ensures r.Err? ==> Now() == old(Now()) && moments == old(moments)
      ensures r.Ok? ==> Valid() && Now() == Alloced(old(Now()))
      ensures r.Ok? ==> moments == old(moments) + AllocMoments(old(Now()))
    {
      if !state.Opened? {
        return Err(StateError());
      }
      if inTxn {
        return Err(ErrTxUnsupportedOp);
      }
      hide Inv, Alloced, AllocMoments;
      InvQuiet(crc, Now());
      AllocOutcome(crc, Now());
      if freeListHead != SENTINEL {
        var id := PopFromFreeList();
        return Ok(id);
      }
      if pageCount >= MAX_PAGES {
        return Err(ErrWriteFailed);
      }
      var id := ExtendFile();
      return Ok(id);
    }

    method PopFromFreeList() returns (id: nat)
      requires Valid() && !inTxn && freeListHead != SENTINEL
      modifies this`dev, this`moments, this`pageCount, this`freeListHead, this`freeCount, this`freeSet, this`chain
      ensures Valid() && id == AllocId(old(Now())) && Now() == Alloced(old(Now()))
      ensures moments == old(moments) + AllocMoments(old(Now()))
    {
      hide Inv, Walk, Sane, Zeros, Pointer, SwitchEnd, SwitchMoments;
      InvQuiet(crc, Now());
      AllocList(crc, Now());
      AllocInv(crc, Now());
      id := freeListHead;
      freeSet := freeSet - {id};
      freeListHead := Pointer(Img(dev.files.pages, id).body);
      if freeCount > 0 {
        freeCount := freeCount - 1;
      }
      chain := chain[1..];
      WriteBodyThenHeader(id, Zeros(BODY_SIZE));
    }

    method ExtendFile() returns (id: nat)
      requires Valid() && !inTxn && freeListHead == SENTINEL && pageCount < MAX_PAGES
      modifies this`dev, this`moments, this`pageCount
      ensures Valid() && id == AllocId(old(Now())) && Now() == Alloced(old(Now()))
      ensures moments == old(moments) + AllocMoments(old(Now()))
    {
      hide Inv, Walk, Sane, Zeros, SwitchEnd, SwitchMoments;
      InvQuiet(crc, Now());
      AllocInv(crc, Now());
      GrownFreeSet(crc, Now());
      id := pageCount;
      pageCount := pageCount + 1;
      WriteBodyThenHeader(id, Zeros(BODY_SIZE));
    }

    /** Return a page to the free list. The mirror page is not rejected. */
    method FreePage(pageId: nat) returns (r: Result<(), Error>)
      requires state.Opened? ==> Valid()
      modifies this`dev, this`moments, this`freeListHead, this`freeCount, this`freeSet, this`chain
      ensures r == if !state.Opened? then Err(StateError())
                   else if inTxn then Err(ErrTxUnsupportedOp)
                   else if pageId == 0 || pageId >= pageCount then Err(ErrInvalidPageId)
                   else if pageId in old(freeSet) then Err(ErrAlreadyFree) else Ok(())
      ensures r.Err? ==> Now() == old(Now()) && moments == old(moments)
      ensures r.Ok? ==> old(freeListHead) <= SENTINEL && Now() == Freed(old(Now()), pageId)
      ensures r.Ok? ==> freeListHead == pageId && freeCount == old(freeCount) + 1 && freeSet == old(freeSet) + {pageId}
      ensures r.Ok? ==> moments == old(moments) + FreeMoments(old(Now()), pageId)
      ensures r.Ok? && pageId != MIRROR_PAGE ==> Valid()
    {
      if !state.Opened? {
        return Err(StateError());
      }
      if inTxn {
        return Err(ErrTxUnsupportedOp);
      }
      if pageId == 0 || pageId >= pageCount {
        return Err(ErrInvalidPageId);
      }
      if pageId in freeSet {
        return Err(ErrAlreadyFree);
      }
      hide Inv, Freed, FreeMoments;
      PushOntoFreeList(pageId);
      return Ok(());
    }

    method PushOntoFreeList(pageId: nat)
      requires Valid() && CanFree(Now(), pageId)
      modifies this`dev, this`moments, this`freeListHead, this`freeCount, this`freeSet, this`chain
      ensures old(freeListHead) <= SENTINEL && Now() == Freed(old(Now()), pageId)
      ensures moments == old(moments) + FreeMoments(old(Now()), pageId)
      ensures pageId != MIRROR_PAGE ==> Valid()
    {
      hide Inv, PointerBody, SwitchEnd, SwitchMoments;
      InvQuiet(crc, Now());
      if pageId != MIRROR_PAGE {
        FreeKeeps(crc, Now(), pageId);
      }
      var body := PointerBody(freeListHead);
      freeSet := freeSet + {pageId};
      freeListHead := pageId;
      freeCount := freeCount + 1;
      chain := [pageId] + chain;
      WriteBodyThenHeader(pageId, body);
    }

    method PageCount() returns (r: Result<nat, Error>)
      ensures r == if state.Opened? then Ok(pageCount) else Err(StateError())
    {
      if !state.Opened? {
        return Err(StateError());
      }
      return Ok(pageCount);
    }

    // ----- open and close -----

    method Close() returns (r: Result<(), Error>)
      requires state.Opened? ==> Valid()
      modifies this`dev, this`moments, this`walSize, this`state
      ensures r == if !old(state.Opened?) then Err(old(StateError())) else Ok(())
      ensures r.Err? ==> dev == old(dev) && state == old(state) && walSize == old(walSize) && moments == old(moments)
      ensures r.Ok? ==> state.Closed? && dev == Device(ClosedFiles(old(Now())), [], [])
      ensures r.Ok? ==> OpensTo(crc, dev.files, CurrentView(old(Now())))
      ensures Grew(old(moments), moments)
      ensures r.Ok? ==> forall i | old(|moments|) <= i < |moments| :: CloseState(crc, old(Now()), moments[i])
    {
      hide Inv, OpensTo, Parse, Replay, CurrentView, Touched, Replaying, ClosedFiles, CloseState;
      if !state.Opened? {
        return Err(StateError());
      }
      ghost var s := Now();
      ghost var ms0 := moments;
      InvQuiet(crc, s);
      UncommittedCheckpoint(crc, s);
      CloseReopens(crc, s);
      var c := ReplayWal();
      ghost var ms1 := moments;
      ClosedDev(s, dev);
      SyncMain();
      CloseTrace(crc, s, ms0, ms1, moments);
      state := Closed;
      return Ok(());
    }

    /** Open, on a new file or an existing one. */
    method Open() returns (r: Result<(), Error>)
      requires state.NeverOpened? ==>
        && dev.pending == [] && dev.walTail == []
        && !inTxn && nextTxnId == 0 && currentTxn == 0 && txnBuffer == map[] && walSize == 0
        && freeListHead == SENTINEL && freeCount == 0 && freeSet == {} && chain == [] && recs == []
      modifies this
      ensures old(state.Opened?) ==> r == Err(ErrAlreadyOpen) && Now() == old(Now()) && state == old(state)
      ensures old(state.Closed?) ==> r == Err(ErrClosed) && Now() == old(Now()) && state == old(state)
      ensures old(state.NeverOpened?) && old(dev.files.pages) == map[] ==>
        && r.Ok? && state.Opened? && Now() == Created(old(dev.files))
        && moments == old(moments) + CreateMoments(old(dev.files))
      ensures old(state.NeverOpened?) && old(dev.files) == Files(map[], []) ==> Valid() && Bodies(Now()) == map[]
      ensures old(state.NeverOpened?) && old(dev.files.pages) != map[] ==>
        && (r.Ok? <==> Recover(crc, old(dev.files)).Some?)
        && (r.Ok? ==> state.Opened? && Now() == Reopened(crc, old(dev.files)))
        && (r.Err? ==> OpenFails(crc, old(dev.files), r.error, state.Opened?))
        && Grew(old(moments), moments) && OpenTrace(crc, old(dev.files), moments, old(|moments|))
        && SafeFrom(crc, old(dev.files), moments, old(|moments|))
        && (Opens(crc, old(dev.files)) ==> Valid() && CurrentView(Now()) == Recover(crc, old(dev.files)).value)
    {
      hide Inv, Bodies, Recover, SafeFrom, OpenTrace, CurrentView;
      if state.Opened? {
        return Err(ErrAlreadyOpen);
      }
      if !state.NeverOpened? {
        return Err(ErrClosed);
      }
      if dev.files.pages == map[] {
        pageCount := 2;
        CreatedKeeps(crc);
        WriteHeader();
        state := Opened;
        return Ok(());
      }
      r := OpenExisting();
      OpenTraceSafe(crc, old(dev.files), moments, old(|moments|));
      OpenedInv(crc, old(dev.files));
    }

    /** The header that Open goes by, healing a broken primary from the mirror. */
    method ReadHeader() returns (h: Option<Header>)
      requires dev.pending == [] && dev.walTail == []
      modifies this`dev, this`moments
      ensures h == ChosenHeader(old(dev.files))
      ensures dev == Device(Files(Healed(old(dev.files)), old(dev.files.wal)), [], [])
      ensures Grew(old(moments), moments) && OpenTrace(crc, old(dev.files), moments, old(|moments|))
    {
      if Img(dev.files.pages, HEADER_PAGE).HeadImg? {
        return Some(Img(dev.files.pages, HEADER_PAGE).h);
      }
      if !Img(dev.files.pages, MIRROR_PAGE).HeadImg? {
        return None;
      }
      var img := Img(dev.files.pages, MIRROR_PAGE);
      LandOne(dev.files.pages, Write(HEADER_PAGE, img));
      WriteMain(HEADER_PAGE, img);
      assert dev.pending == [Write(HEADER_PAGE, img)];
      SyncMain();
      return Some(img.h);
    }

    /** The free list on disk, and the fields that follow from header and list. */
    method LoadFreeList(h: Header) returns (r: Result<(), Error>)
      modifies this`state, this`pageCount, this`freeListHead, this`freeCount, this`freeSet, this`chain
      ensures r.Ok? <==>
        && Walk(dev.files.pages, h.pageCount, h.head, {}).Some?
        && |Walk(dev.files.pages, h.pageCount, h.head, {}).value| == h.freeCount
      ensures r.Ok? ==>
        && state.Opened? && pageCount == h.pageCount && freeListHead == h.head && freeCount == h.freeCount
        && Walk(dev.files.pages, h.pageCount, h.head, {}) == Some(chain) && freeSet == set i | 0 <= i < |chain| :: chain[i]
      ensures r.Err? && Walk(dev.files.pages, h.pageCount, h.head, {}).None? ==>
        state == old(state) && WalkFails(dev.files.pages, h.pageCount, h.head, r.error)
      ensures r.Err? && Walk(dev.files.pages, h.pageCount, h.head, {}).Some? ==> state.Opened? && r.error == ErrFreeListCorrupt
    {
      hide Walk, WalkFails;
      var free, list := WalkFreeList(dev.files.pages, h.pageCount, h.head);
      if free.Err? {
        return Err(free.error);
      }
      state, pageCount, freeListHead, freeCount, freeSet := Opened, h.pageCount, h.head, h.freeCount, free.value;
      chain := list;
      WalkedSet(dev.files.pages, h, list, free.value);
      if |freeSet| != freeCount {
        return Err(ErrFreeListCorrupt);
      }
      return Ok(());
    }

    /** Open on files that already hold pages. */
    method OpenExisting() returns (r: Result<(), Error>)
      requires state.NeverOpened? && dev.pending == [] && dev.walTail == []
      requires !inTxn && nextTxnId == 0 && currentTxn == 0 && txnBuffer == map[] && recs == []
      modifies this
      ensures r.Ok? <==> Recover(crc, old(dev.files)).Some?
      ensures r.Ok? ==> state.Opened? && Now() == Reopened(crc, old(dev.files))
      ensures r.Err? ==> OpenFails(crc, old(dev.files), r.error, state.Opened?)
      ensures Grew(old(moments), moments) && OpenTrace(crc, old(dev.files), moments, old(|moments|))
    {
      hide Recover, Healed, Replaying, Parse, Walk, ChosenHeader, Replay, OpenTrace, WalkFails, OpenFails;
      ghost var f, ms0 := dev.files, moments;
      RecoverParts(crc, f);
      FailsWith(crc, f);
      var h := ReadHeader();
      if h.None? {
        return Err(ErrHeaderCorrupt);
      }
      HealedWalk(f, h.value);
      r := LoadFreeList(h.value);
      if r.Err? {
        return;
      }
      walSize := |dev.files.wal|;
      ghost var ms1 := moments;
      r := ReplayWal();
      if r.Ok? {
        ReplayTrace(crc, f, ms0, ms1, moments);
      }
    }
  }

  lemma ClosedDev(s: Snap, d: Device)
    requires d == Device(Files(s.dev.files.pages, []), [], [])
    ensures d == Device(ClosedFiles(s), [], []) && Synced(d) == d
  {}

  lemma CloseTrace(crc: Crc, s: Snap, ms0: seq<Device>, ms1: seq<Device>, ms2: seq<Device>)
    requires Grew(ms0, ms1) && ms2 == ms1 + [Device(ClosedFiles(s), [], [])]
    requires forall i | |ms0| <= i < |ms1| - 1 :: Replaying(crc, ms1[i], s.dev.files.pages, s.recs) && ms1[i].files.wal == s.dev.files.wal
    requires ms1 != ms0 ==> ms1[|ms1| - 1] == Device(ClosedFiles(s), [], [])
    ensures Grew(ms0, ms2) && forall i | |ms0| <= i < |ms2| :: CloseState(crc, s, ms2[i])
  {
    hide Replaying, ClosedFiles;
    assert ms2[..|ms0|] == ms1[..|ms0|];
    forall i | |ms0| <= i < |ms2| ensures CloseState(crc, s, ms2[i]) {
      if i == |ms1| - 1 { assert ms1 != ms0; }
    }
  }

  lemma CommittedDev(s: Snap)
    ensures Committed(s).dev == Device(Files(Committed(s).dev.files.pages, []), [], [])
  {}

  /** Why Open fails: neither header is valid, the free list cannot be walked or has another length
      than recorded, or the log is corrupt. A pager that fails after the walk is left open. */
  ghost predicate OpenFails(crc: Crc, f: Files, e: Error, opened_: bool) {
    var primary, mirror := Img(f.pages, 0), Img(f.pages, 1);
    if !primary.HeadImg? && !mirror.HeadImg? then e == ErrHeaderCorrupt && !opened_
    else
      var h := if primary.HeadImg? then primary.h else mirror.h;
      var free := Walk(f.pages, h.pageCount, h.head, {});
      && (opened_ <==> free.Some?)
      && if free.None? then WalkFails(f.pages, h.pageCount, h.head, e)
         else if |free.value| != h.freeCount then e == ErrFreeListCorrupt
         else e == ErrWalCorrupt && Parse(crc, f.wal).WalCorrupt?
  }

  lemma FailsWith(crc: Crc, f: Files)
    ensures ChosenHeader(f).None? ==> OpenFails(crc, f, ErrHeaderCorrupt, false)
    ensures ChosenHeader(f).Some? ==> var h := ChosenHeader(f).value; var free := Walk(f.pages, h.pageCount, h.head, {});
      && (free.None? ==> forall e | WalkFails(Healed(f), h.pageCount, h.head, e) :: OpenFails(crc, f, e, false))
      && (free.Some? && |free.value| != h.freeCount ==> OpenFails(crc, f, ErrFreeListCorrupt, true))
      && (free.Some? && |free.value| == h.freeCount && Parse(crc, f.wal).WalCorrupt? ==> OpenFails(crc, f, ErrWalCorrupt, true))
  {
    hide Walk, Parse, WalkFails;
    if ChosenHeader(f).Some? {
      var h := ChosenHeader(f).value;
      forall e | WalkFails(Healed(f), h.pageCount, h.head, e) ensures WalkFails(f.pages, h.pageCount, h.head, e) {
        HealedFails(f, h, e);
      }
    }
  }

  /** The header is not on the list. */
  lemma HealedFails(f: Files, h: Header, e: Error)
    requires ChosenHeader(f) == Some(h) && WalkFails(Healed(f), h.pageCount, h.head, e)
    ensures WalkFails(f.pages, h.pageCount, h.head, e)
  {
    hide ChosenHeader;
    HealedImages(f, h);
    var chain, curr :| StopsAt(Healed(f), h.pageCount, h.head, chain, curr, e);
    hide Healed;
    assert StopsAt(f.pages, h.pageCount, h.head, chain, curr, e);
  }

  lemma HealedImages(f: Files, h: Header)
    requires ChosenHeader(f) == Some(h)
    ensures forall id: nat | id != 0 :: Img(Healed(f), id) == Img(f.pages, id)
    ensures !Img(Healed(f), 0).PageImg?
  {}

  lemma CommitStarts(crc: Crc, s: Snap, ms0: seq<Device>, ms1: seq<Device>)
    requires s.currentTxn < U64_LIMIT && ms1 == ms0 + [EotDev(crc, s), CommitDev(crc, s)]
    ensures CommitTrace(crc, s, ms1, |ms0|) && Grew(ms0, ms1)
  {
    hide CommitWal, EotDev;
    assert GroupMoment(CommitDev(crc, s), CommitDev(crc, s), s.buffer);
  }

  lemma CommitWalGrows(crc: Crc, s: Snap)
    requires s.currentTxn < U64_LIMIT
    ensures |CommitWal(crc, s)| > 0
  {}

  lemma LandOne(pages: Images, w: Write)
    ensures Land(pages, [w]) == pages[w.id := w.img]
  {
    assert [w][..0] == [];
  }

  lemma LandSnoc(pages: Images, ws: seq<Write>, w: Write, done: map<nat, Bytes>, body: Bytes)
    requires Land(pages, ws) == pages + ImagesOf(done) && w.img == PageImg(body)
    ensures Land(pages, ws + [w]) == pages + ImagesOf(done[w.id := body])
  {
    assert (ws + [w])[..|ws|] == ws;
    assert ImagesOf(done[w.id := body]) == ImagesOf(done)[w.id := w.img];
  }

  lemma GrownFreeSet(crc: Crc, s: Snap)
    requires Inv(crc, s) && CanAlloc(s) && s.head == SENTINEL
    ensures Alloced(s).freeSet == s.freeSet && Alloced(s).chain == s.chain
  {
    AllocFreeSet(crc, s);
    FreeListConsistent(crc, s);
  }
}
