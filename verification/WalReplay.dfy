/** Replaying the write-ahead log over the main file (replayWALInternal in
    internal/storage/pager/pager.go). */
module WalReplay {
  import opened Bytes
  import opened Wal

  datatype Header = Header(pageCount: nat, head: nat, freeCount: nat)

  /** What the checksums say a page of the main file is: a data page with this body, a header,
      or neither. */
  datatype Image = PageImg(body: Bytes) | HeadImg(h: Header) | Torn

  /** The pages of the main file; 0 is the header and 1 its mirror. */
  type Images = map<nat, Image>

  /** What reading page id finds; a page past the end of the file is unreadable too. */
  function Img(pages: Images, id: nat): Image {
    if id in pages then pages[id] else Torn
  }

  function ImagesOf(writes: map<nat, Bytes>): (r: Images)
    ensures r.Keys == writes.Keys
  {
    map id | id in writes :: PageImg(writes[id])
  }

  /** Transactions in the order of their first record. */
  function TxnIds(rs: seq<Record>): seq<U64> {
    if rs == [] then []
    else
      var ids, txn := TxnIds(rs[..|rs| - 1]), rs[|rs| - 1].txn;
      if txn in ids then ids else ids + [txn]
  }

  function Group(rs: seq<Record>, txn: U64): seq<Record> {
    if rs == [] then []
    else
      var front, last := Group(rs[..|rs| - 1], txn), rs[|rs| - 1];
      if last.txn == txn then front + [last] else front
  }

  /** Page bodies a transaction leaves: the last write to a page wins. */
  function Writes(rs: seq<Record>): map<nat, Bytes> {
    if rs == [] then map[]
    else
      var front, last := Writes(rs[..|rs| - 1]), rs[|rs| - 1];
      if last.Data? then front[last.page := last.body] else front
  }

  function ApplyIds(rs: seq<Record>, ids: seq<U64>, pages: Images): Images {
    if ids == [] then pages
    else
      var front, txn := ApplyIds(rs, ids[..|ids| - 1], pages), ids[|ids| - 1];
      if Eot(txn) in rs then front + ImagesOf(Writes(Group(rs, txn))) else front
  }

  /** The main file after replaying the log. */
  function Replay(rs: seq<Record>, pages: Images): Images {
    ApplyIds(rs, TxnIds(rs), pages)
  }

  // ----- replay depends only on what it does not overwrite -----

  ghost predicate AgreeOff(p: Images, q: Images, s: set<nat>) {
    forall id: nat | id !in s :: Img(p, id) == Img(q, id)
  }

  ghost function TouchedBy(rs: seq<Record>, ids: seq<U64>): set<nat> {
    if ids == [] then {}
    else
      TouchedBy(rs, ids[..|ids| - 1])
      + (if Eot(ids[|ids| - 1]) in rs then Writes(Group(rs, ids[|ids| - 1])).Keys else {})
  }

  /** The pages some committed transaction writes. */
  ghost function Touched(rs: seq<Record>): set<nat> {
    TouchedBy(rs, TxnIds(rs))
  }

  lemma OverlayAgree(p: Images, q: Images, w: Images, s: set<nat>)
    requires AgreeOff(p, q, s)
    ensures AgreeOff(p + w, q + w, s - w.Keys)
  {
    forall id: nat | id !in s - w.Keys ensures Img(p + w, id) == Img(q + w, id) {
      if id !in w { assert Img(p, id) == Img(q, id); }
    }
  }

  lemma {:induction false} ApplyIdsAgree(rs: seq<Record>, ids: seq<U64>, p: Images, q: Images, s: set<nat>)
    requires AgreeOff(p, q, s)
    ensures AgreeOff(ApplyIds(rs, ids, p), ApplyIds(rs, ids, q), s - TouchedBy(rs, ids))
  {
    hide Writes, Group;
    if ids != [] {
      var front, id := ids[..|ids| - 1], ids[|ids| - 1];
      ApplyIdsAgree(rs, front, p, q, s);
      if Eot(id) in rs {
        var w := ImagesOf(Writes(Group(rs, id)));
        OverlayAgree(ApplyIds(rs, front, p), ApplyIds(rs, front, q), w, s - TouchedBy(rs, front));
      }
    }
  }

  /** Interrupted replays are harmless: from any two main files that differ only on pages the
      log's committed transactions write, replay gives the same main file. */
  lemma ReplayAgree(rs: seq<Record>, p: Images, q: Images)
    requires AgreeOff(p, q, Touched(rs))
    ensures AgreeOff(Replay(rs, p), Replay(rs, q), {})
  {
    ApplyIdsAgree(rs, TxnIds(rs), p, q, Touched(rs));
  }

  /** Replay changes touched pages only, so replaying its own result changes nothing. */
  lemma {:induction false} ApplyIdsFrame(rs: seq<Record>, ids: seq<U64>, p: Images)
    ensures AgreeOff(p, ApplyIds(rs, ids, p), TouchedBy(rs, ids))
  {
    hide Writes, Group;
    if ids != [] {
      ApplyIdsFrame(rs, ids[..|ids| - 1], p);
    }
  }

  lemma ReplayIdempotent(rs: seq<Record>, p: Images)
    ensures AgreeOff(Replay(rs, Replay(rs, p)), Replay(rs, p), {})
  {
    ApplyIdsFrame(rs, TxnIds(rs), p);
    ReplayAgree(rs, p, Replay(rs, p));
  }

  // ----- a log without, and with one, end-of-transaction marker -----

  ghost predicate NoEot(rs: seq<Record>) {
    forall i | 0 <= i < |rs| :: rs[i].Data?
  }

  lemma {:induction false} NothingCommitted(rs: seq<Record>, ids: seq<U64>, pages: Images)
    requires forall i | 0 <= i < |ids| :: Eot(ids[i]) !in rs
    ensures ApplyIds(rs, ids, pages) == pages && TouchedBy(rs, ids) == {}
  {
    hide Writes, Group;
    if ids != [] { NothingCommitted(rs, ids[..|ids| - 1], pages); }
  }

  /** Records without an end marker change nothing. */
  lemma ReplayUncommitted(rs: seq<Record>, pages: Images)
    requires NoEot(rs)
    ensures Replay(rs, pages) == pages && Touched(rs) == {}
  {
    NothingCommitted(rs, TxnIds(rs), pages);
  }

  lemma GroupSnoc(rs: seq<Record>, r: Record, txn: U64)
    ensures Group(rs + [r], txn) == if r.txn == txn then Group(rs, txn) + [r] else Group(rs, txn)
  {
    assert (rs + [r])[..|rs|] == rs;
  }

  lemma WritesSnoc(rs: seq<Record>, r: Record)
    ensures Writes(rs + [r]) == if r.Data? then Writes(rs)[r.page := r.body] else Writes(rs)
  {
    assert (rs + [r])[..|rs|] == rs;
  }

  lemma {:induction false} TxnIdsDistinct(rs: seq<Record>)
    ensures forall i, j | 0 <= i < j < |TxnIds(rs)| :: TxnIds(rs)[i] != TxnIds(rs)[j]
    ensures forall i | 0 <= i < |rs| :: rs[i].txn in TxnIds(rs)
    ensures forall x | x in TxnIds(rs) :: exists i :: 0 <= i < |rs| && rs[i].txn == x
  {
    if rs != [] {
      var n := |rs| - 1;
      TxnIdsDistinct(rs[..n]);
      forall x | x in TxnIds(rs) ensures exists i :: 0 <= i < |rs| && rs[i].txn == x {
        if x in TxnIds(rs[..n]) {
          var i :| 0 <= i < |rs[..n]| && rs[..n][i].txn == x;
          assert rs[i].txn == x;
        } else {
          assert rs[n].txn == x;
        }
      }
    }
  }

  /** Transactions are replayed in the order of their first records. */
  lemma {:induction false} TxnIdsOrder(rs: seq<Record>, i: nat, j: nat) returns (n: nat)
    requires i < j < |TxnIds(rs)|
    ensures n < |rs| && rs[n].txn == TxnIds(rs)[i] && forall m | 0 <= m <= n :: rs[m].txn != TxnIds(rs)[j]
  {
    var last := |rs| - 1;
    var before := TxnIds(rs[..last]);
    if j < |before| {
      n := TxnIdsOrder(rs[..last], i, j);
    } else {
      TxnIdsDistinct(rs[..last]);
      assert before[i] in before;
      n :| 0 <= n < last && rs[..last][n].txn == before[i];
      forall m | 0 <= m <= n ensures rs[m].txn != TxnIds(rs)[j] {
        assert rs[..last][m].txn in before;
      }
    }
  }

  /** Record n writes the page for a transaction whose end marker is in the log. */
  ghost predicate WritesFor(rs: seq<Record>, n: nat, page: nat) {
    n < |rs| && rs[n].Data? && rs[n].page == page && Eot(rs[n].txn) in rs
  }

  /** Where a transaction first appears. */
  ghost function FirstOf(rs: seq<Record>, txn: U64): (n: nat)
    ensures n <= |rs| && (n < |rs| ==> rs[n].txn == txn) && forall m | 0 <= m < n :: rs[m].txn != txn
  {
    if rs == [] || rs[0].txn == txn then 0 else 1 + FirstOf(rs[1..], txn)
  }

  lemma {:induction false} LastWrite(rs: seq<Record>, txn: U64, page: nat) returns (n: nat)
    ensures page in Writes(Group(rs, txn)) <==> n < |rs|
    ensures n < |rs| ==> rs[n].Data? && rs[n].page == page && rs[n].txn == txn && Writes(Group(rs, txn))[page] == rs[n].body
    ensures forall m | 0 <= m < |rs| && rs[m].Data? && rs[m].page == page && rs[m].txn == txn :: m <= n < |rs|
    ensures n <= |rs|
  {
    n := 0;
    if rs != [] {
      var k := |rs| - 1;
      var before := LastWrite(rs[..k], txn, page);
      assert rs == rs[..k] + [rs[k]];
      GroupSnoc(rs[..k], rs[k], txn);
      WritesSnoc(Group(rs[..k], txn), rs[k]);
      hide Group, Writes;
      n := if rs[k].txn == txn && rs[k].Data? && rs[k].page == page then k else if before < k then before else k + 1;
    }
  }

  /** Replaying any log, in whatever order its records come: a page gets the last write of the latest
      transaction that has an end marker anywhere, transactions taken in the order of their first
      records; a page that none of them writes stays. */
  lemma ReplayMeans(rs: seq<Record>, pages: Images, page: nat) returns (n: nat)
    ensures (exists m: nat :: WritesFor(rs, m, page)) ==>
      && WritesFor(rs, n, page) && Img(Replay(rs, pages), page) == PageImg(rs[n].body)
      && forall m: nat | WritesFor(rs, m, page) ::
           if rs[m].txn == rs[n].txn then m <= n else FirstOf(rs, rs[m].txn) < FirstOf(rs, rs[n].txn)
    ensures !(exists m: nat :: WritesFor(rs, m, page)) ==> Img(Replay(rs, pages), page) == Img(pages, page)
  {
    hide Writes, Group, ApplyIds, TxnIds, FirstOf;
    var ids := TxnIds(rs);
    TxnIdsDistinct(rs);
    var j;
    n, j := ApplyMeans(rs, ids, pages, page);
    forall m: nat | WritesFor(rs, m, page)
      ensures j < |ids|
      ensures if rs[m].txn == rs[n].txn then m <= n else FirstOf(rs, rs[m].txn) < FirstOf(rs, rs[n].txn)
    {
      var i :| 0 <= i < |ids| && ids[i] == rs[m].txn;
      var last := LastWrite(rs, ids[i], page);
      assert i <= j;
      if i < j { OrderedFirsts(rs, i, j); }
    }
  }

  lemma OrderedFirsts(rs: seq<Record>, i: nat, j: nat)
    requires i < j < |TxnIds(rs)|
    ensures FirstOf(rs, TxnIds(rs)[i]) < FirstOf(rs, TxnIds(rs)[j])
  {
    hide TxnIds;
    var n := TxnIdsOrder(rs, i, j);
  }

  /** The transaction that decides among those of `ids`, by its place, and its last write. */
  lemma {:induction false} ApplyMeans(rs: seq<Record>, ids: seq<U64>, pages: Images, page: nat) returns (n: nat, j: nat)
    requires forall x, y | 0 <= x < y < |ids| :: ids[x] != ids[y]
    ensures j < |ids| ==>
      && WritesFor(rs, n, page) && rs[n].txn == ids[j] && Img(ApplyIds(rs, ids, pages), page) == PageImg(rs[n].body)
      && (forall m | 0 <= m < |rs| && rs[m].Data? && rs[m].page == page && rs[m].txn == ids[j] :: m <= n)
      && (forall i | j < i < |ids| && Eot(ids[i]) in rs :: page !in Writes(Group(rs, ids[i])))
    ensures j >= |ids| ==>
      && Img(ApplyIds(rs, ids, pages), page) == Img(pages, page)
      && forall i | 0 <= i < |ids| && Eot(ids[i]) in rs :: page !in Writes(Group(rs, ids[i]))
  {
    hide Writes, Group;
    n, j := 0, |ids|;
    if ids != [] {
      var k := |ids| - 1;
      n, j := ApplyMeans(rs, ids[..k], pages, page);
      var last := LastWrite(rs, ids[k], page);
      if Eot(ids[k]) in rs && page in Writes(Group(rs, ids[k])) {
        n, j := last, k;
      } else if j >= k {
        j := k + 1;
      }
    }
  }

  lemma {:induction false} OneCommitted(rs: seq<Record>, ids: seq<U64>, txn: U64, pages: Images)
    requires forall i | 0 <= i < |ids| && ids[i] != txn :: Eot(ids[i]) !in rs
    requires forall i, j | 0 <= i < j < |ids| :: ids[i] != ids[j]
    requires txn in ids && Eot(txn) in rs
    ensures ApplyIds(rs, ids, pages) == pages + ImagesOf(Writes(Group(rs, txn)))
    ensures TouchedBy(rs, ids) == Writes(Group(rs, txn)).Keys
  {
    hide Writes, Group;
    var n := |ids| - 1;
    if ids[n] == txn {
      NothingCommitted(rs, ids[..n], pages);
    } else {
      OneCommitted(rs, ids[..n], txn, pages);
    }
  }

  /** Appending the end marker of txn makes replay apply exactly txn's last writes. */
  lemma ReplayOneCommit(rs: seq<Record>, txn: U64, pages: Images)
    requires NoEot(rs)
    ensures Replay(rs + [Eot(txn)], pages) == pages + ImagesOf(Writes(Group(rs, txn)))
    ensures Touched(rs + [Eot(txn)]) == Writes(Group(rs, txn)).Keys
  {
    var all := rs + [Eot(txn)];
    assert all[|rs|] == Eot(txn);
    TxnIdsDistinct(all);
    GroupSnoc(rs, Eot(txn), txn);
    WritesSnoc(Group(rs, txn), Eot(txn));
    hide TxnIds, Writes, Group;
    OneCommitted(all, TxnIds(all), txn, pages);
  }

  // ----- serial transactions -----

  datatype Txn = Txn(id: U64, writes: seq<(U64, Bytes)>, committed: bool)

  function DataRecords(id: U64, writes: seq<(U64, Bytes)>): (rs: seq<Record>)
    ensures |rs| == |writes|
  {
    seq(|writes|, i requires 0 <= i < |writes| => Data(id, writes[i].0, writes[i].1))
  }

  /** The records a transaction leaves in the log; a rolled-back one has no end marker. */
  function LogOf(t: Txn): seq<Record> {
    DataRecords(t.id, t.writes) + if t.committed then [Eot(t.id)] else []
  }

  function Log(ts: seq<Txn>): seq<Record> {
    if ts == [] then [] else Log(ts[..|ts| - 1]) + LogOf(ts[|ts| - 1])
  }

  function LastWrites(writes: seq<(U64, Bytes)>): map<nat, Bytes> {
    if writes == [] then map[]
    else LastWrites(writes[..|writes| - 1])[writes[|writes| - 1].0 := writes[|writes| - 1].1]
  }

  /** The specification: committed transactions one after the other. */
  function ApplyAll(ts: seq<Txn>, pages: Images): Images {
    if ts == [] then pages
    else
      var front, t := ApplyAll(ts[..|ts| - 1], pages), ts[|ts| - 1];
      if t.committed then front + ImagesOf(LastWrites(t.writes)) else front
  }

  lemma {:induction false} TxnIdsAppendOne(a: seq<Record>, b: seq<Record>, id: U64)
    requires forall i | 0 <= i < |b| :: b[i].txn == id
    requires forall i | 0 <= i < |a| :: a[i].txn != id
    ensures TxnIds(a + b) == if b == [] then TxnIds(a) else TxnIds(a) + [id]
  {
    if b == [] {
      assert a + b == a;
    } else {
      var n := |b| - 1;
      assert (a + b)[..|a + b| - 1] == a + b[..n];
      assert (a + b)[|a + b| - 1] == b[n];
      TxnIdsAppendOne(a, b[..n], id);
      if b[..n] == [] {
        TxnIdsDistinct(a);
      }
    }
  }

  lemma {:induction false} GroupAppend(a: seq<Record>, b: seq<Record>, id: U64, x: U64)
    requires forall i | 0 <= i < |b| :: b[i].txn == id
    ensures Group(a + b, x) == if x == id then Group(a, x) + b else Group(a, x)
  {
    if b == [] {
      assert a + b == a;
    } else {
      var n := |b| - 1;
      assert (a + b)[..|a + b| - 1] == a + b[..n];
      GroupAppend(a, b[..n], id, x);
      assert b == b[..n] + [b[n]];
    }
  }

  lemma {:induction false} GroupAbsent(a: seq<Record>, id: U64)
    requires forall i | 0 <= i < |a| :: a[i].txn != id
    ensures Group(a, id) == []
  {
    if a != [] { GroupAbsent(a[..|a| - 1], id); }
  }

  lemma {:induction false} WritesOfData(id: U64, writes: seq<(U64, Bytes)>)
    ensures Writes(DataRecords(id, writes)) == LastWrites(writes)
  {
    if writes != [] {
      var n := |writes| - 1;
      assert DataRecords(id, writes)[..n] == DataRecords(id, writes[..n]);
      WritesOfData(id, writes[..n]);
    }
  }

  lemma WritesOfLog(t: Txn)
    ensures Writes(LogOf(t)) == LastWrites(t.writes)
  {
    WritesOfData(t.id, t.writes);
    var d := DataRecords(t.id, t.writes);
    if t.committed {
      WritesSnoc(d, Eot(t.id));
    } else {
      assert d + [] == d;
    }
  }

  /** Records of other transactions do not change what the listed ones do. */
  lemma {:induction false} ApplyIdsAppend(a: seq<Record>, b: seq<Record>, id: U64, ids: seq<U64>, pages: Images)
    requires forall i | 0 <= i < |b| :: b[i].txn == id
    requires id !in ids
    ensures ApplyIds(a + b, ids, pages) == ApplyIds(a, ids, pages)
  {
    if ids != [] {
      var n := |ids| - 1;
      ApplyIdsAppend(a, b, id, ids[..n], pages);
      GroupAppend(a, b, id, ids[n]);
      assert Eot(ids[n]) in a + b <==> Eot(ids[n]) in a;
    }
  }

  ghost predicate DistinctTxns(ts: seq<Txn>) {
    forall i, j | 0 <= i < j < |ts| :: ts[i].id != ts[j].id
  }

  ghost predicate Owned(txn: U64, ts: seq<Txn>) {
    exists j :: 0 <= j < |ts| && ts[j].id == txn
  }

  lemma {:induction false} LogIds(ts: seq<Txn>, i: nat)
    requires i < |Log(ts)|
    ensures Owned(Log(ts)[i].txn, ts)
  {
    var n := |ts| - 1;
    var front := Log(ts[..n]);
    if i < |front| {
      LogIds(ts[..n], i);
      var j :| 0 <= j < |ts[..n]| && ts[..n][j].id == front[i].txn;
      assert ts[j].id == Log(ts)[i].txn;
    } else {
      assert ts[n].id == Log(ts)[i].txn;
    }
  }

  /** Replaying the log of serial transactions applies the committed ones in order. */
  lemma {:induction false} ReplaySerial(ts: seq<Txn>, pages: Images)
    requires DistinctTxns(ts)
    ensures Replay(Log(ts), pages) == ApplyAll(ts, pages)
  {
    if ts != [] {
      var n := |ts| - 1;
      var a, b, t := Log(ts[..n]), LogOf(ts[n]), ts[n];
      ReplaySerial(ts[..n], pages);
      forall i | 0 <= i < |a| ensures a[i].txn != t.id {
        LogIds(ts[..n], i);
        var j :| 0 <= j < n && ts[..n][j].id == a[i].txn;
        assert ts[j].id != ts[n].id;
      }
      ReplayOneMore(a, t, pages);
    }
  }

  lemma ApplyIdsSnoc(rs: seq<Record>, ids: seq<U64>, id: U64, pages: Images)
    ensures ApplyIds(rs, ids + [id], pages)
         == if Eot(id) in rs then ApplyIds(rs, ids, pages) + ImagesOf(Writes(Group(rs, id))) else ApplyIds(rs, ids, pages)
  {
    hide Writes, Group;
    assert (ids + [id])[..|ids|] == ids;
  }

  lemma ReplayOneMore(a: seq<Record>, t: Txn, pages: Images)
    requires forall i | 0 <= i < |a| :: a[i].txn != t.id
    ensures Replay(a + LogOf(t), pages)
         == if t.committed then Replay(a, pages) + ImagesOf(LastWrites(t.writes)) else Replay(a, pages)
  {
    var b := LogOf(t);
    hide Writes, Group, LastWrites, TxnIds, ApplyIds;
    FreshTxn(a, t.id);
    LogOfTxn(a, t);
    TxnIdsAppendOne(a, b, t.id);
    ApplyIdsAppend(a, b, t.id, TxnIds(a), pages);
    GroupAppend(a, b, t.id, t.id);
    GroupAbsent(a, t.id);
    WritesOfLog(t);
    hide LogOf;
    if b == [] {
      assert a + b == a;
    } else {
      ApplyIdsSnoc(a + b, TxnIds(a), t.id, pages);
      assert [] + b == b;
    }
  }

  lemma FreshTxn(a: seq<Record>, id: U64)
    requires forall i | 0 <= i < |a| :: a[i].txn != id
    ensures id !in TxnIds(a)
  {
    TxnIdsDistinct(a);
  }

  lemma LogOfTxn(a: seq<Record>, t: Txn)
    requires forall i | 0 <= i < |a| :: a[i].txn != t.id
    ensures forall i | 0 <= i < |LogOf(t)| :: LogOf(t)[i].txn == t.id
    ensures Eot(t.id) in a + LogOf(t) <==> t.committed
    ensures LogOf(t) == [] ==> !t.committed
  {
    var b := LogOf(t);
    if t.committed { assert b[|b| - 1] == Eot(t.id); }
  }

  // ----- a log of serial transactions, cut anywhere -----

  /** How many transactions lie wholly within the first k records. */
  function WholeTxns(ts: seq<Txn>, k: nat): (j: nat)
    ensures j <= |ts|
  {
    if ts == [] || |Log(ts)| <= k then |ts| else WholeTxns(ts[..|ts| - 1], k)
  }

  /** Replaying any prefix of the log applies the committed ones among the transactions that
      lie wholly within it, in order. */
  lemma {:induction false} ReplayPrefix(ts: seq<Txn>, k: nat, pages: Images)
    requires DistinctTxns(ts) && k <= |Log(ts)|
    ensures Replay(Log(ts)[..k], pages) == ApplyAll(ts[..WholeTxns(ts, k)], pages)
  {
    if ts == [] || |Log(ts)| <= k {
      assert Log(ts)[..k] == Log(ts) && ts[..|ts|] == ts;
      ReplaySerial(ts, pages);
    } else {
      var n := |ts| - 1;
      var front, t := Log(ts[..n]), ts[n];
      if k <= |front| {
        assert Log(ts)[..k] == front[..k];
        ReplayPrefix(ts[..n], k, pages);
        var j := WholeTxns(ts[..n], k);
        assert ts[..n][..j] == ts[..j];
      } else {
        var m := k - |front|;
        CutTxn(t, m);
        assert Log(ts)[..k] == front + LogOf(t)[..m];
        forall i | 0 <= i < |front| ensures front[i].txn != t.id {
          LogIds(ts[..n], i);
          var j :| 0 <= j < n && ts[..n][j].id == front[i].txn;
          assert ts[j].id != ts[n].id;
        }
        ReplayOneMore(front, Txn(t.id, t.writes[..m], false), pages);
        ReplaySerial(ts[..n], pages);
        assert WholeTxns(ts[..n], k) == n;
        assert ts[..n][..n] == ts[..n];
      }
    }
  }

  lemma CutTxn(t: Txn, m: nat)
    requires m < |LogOf(t)|
    ensures m <= |t.writes| && LogOf(t)[..m] == LogOf(Txn(t.id, t.writes[..m], false))
  {
    var u := Txn(t.id, t.writes[..m], false);
    assert LogOf(u) == DataRecords(t.id, t.writes[..m]);
    assert LogOf(t)[..m] == DataRecords(t.id, t.writes)[..m];
  }

  ghost predicate ValidTxns(ts: seq<Txn>) {
    forall i, j | 0 <= i < |ts| && 0 <= j < |ts[i].writes| ::
      ts[i].writes[j].0 != EOT_PAGE && |ts[i].writes[j].1| == BODY_SIZE
  }

  lemma {:induction false} LogValid(ts: seq<Txn>)
    requires ValidTxns(ts)
    ensures ValidRecords(Log(ts))
  {
    if ts != [] {
      var n := |ts| - 1;
      LogValid(ts[..n]);
      var front, last := Log(ts[..n]), LogOf(ts[n]);
      forall i | 0 <= i < |last| ensures ValidRecord(last[i]) {}
    }
  }

  /** The write-ahead log of serial transactions, cut at any byte: it parses, and replaying
      it gives exactly the committed transactions that were logged completely. */
  lemma CutLogReplay(crc: Crc, ts: seq<Txn>, n: nat, pages: Images)
    requires DistinctTxns(ts) && ValidTxns(ts)
    requires ValidRecords(Log(ts)) ==> n <= |EncodeAll(crc, Log(ts))|
    ensures ValidRecords(Log(ts))
    ensures var k := WholeIn(crc, Log(ts), n);
      && Parse(crc, EncodeAll(crc, Log(ts))[..n]) == Records(Log(ts)[..k])
      && Replay(Log(ts)[..k], pages) == ApplyAll(ts[..WholeTxns(ts, k)], pages)
  {
    LogValid(ts);
    ParseCut(crc, Log(ts), n);
    ReplayPrefix(ts, WholeIn(crc, Log(ts), n), pages);
  }
}
