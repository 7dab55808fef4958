/** Creating a store: the device states of writing its first page, and from exactly which of them a
    crash leaves files in which the store can be opened. */
module KvCreate {
  import opened Wrappers
  import opened Bytes
  import opened SortedEntries
  import opened Tree
  import opened TreePages
  import opened KvPages
  import opened KvSpec
  import opened Wal
  import opened WalReplay
  import opened PagerSpec
  import opened PagerRecovery
  import opened CrashSafety
  import opened KvCrash
  import Disk
  import NodeCodec

  /** The store opens on these files: empty, or by creating its first page once more. */
  ghost predicate StoreOpens(crc: Crc, f: Disk.Files) {
    && Opens(crc, f)
    && (Disk.Recover(crc, f).value.pageCount == FIRST_DATA_PAGE || KvOpens(Disk.Recover(crc, f).value, []))
  }

  ghost predicate CreationSafe(crc: Crc, m: Disk.Device) {
    forall f | Disk.MayCrashTo(m, f) :: StoreOpens(crc, f)
  }

  /** A new pager's first page is allocated but not written. */
  ghost predicate Fresh(crc: Crc, s: Snap) {
    Inv(crc, s) && !s.inTxn && s.pageCount == FIRST_DATA_PAGE && s.nextTxnId + 1 < U64_LIMIT
  }

  /** The pager in the transaction that writes the meta page. */
  ghost function MetaTx(crc: Crc, s: Snap, body: Bytes): Snap
    requires |body| == BODY_SIZE && s.nextTxnId + 1 < U64_LIMIT
  {
    Appended(crc, Begun(Alloced(s)), META_PAGE, body)
  }

  /** Six states of the allocation, two of the page write, then the commit. */
  ghost predicate CreateTrace(crc: Crc, s: Snap, body: Bytes, ms0: seq<Disk.Device>, ms1: seq<Disk.Device>)
    requires |body| == BODY_SIZE && s.nextTxnId + 1 < U64_LIMIT
  {
    && Grew(ms0 + AllocMoments(s) + WriteMoments(crc, Begun(Alloced(s)), META_PAGE, body), ms1)
    && CommitTrace(crc, MetaTx(crc, s, body), ms1, |ms0| + 8)
  }

  lemma FreshList(crc: Crc, s: Snap)
    requires Fresh(crc, s)
    ensures CanAlloc(s) && AllocId(s) == META_PAGE && s.head == SENTINEL && Alloced(s).pageCount == FIRST_DATA_PAGE + 1
    ensures Inv(crc, Alloced(s)) && !Alloced(s).inTxn && Bodies(Alloced(s))[META_PAGE] == Zeros(BODY_SIZE)
  {
    FreshMeta(crc, s);
    AllocKeeps(crc, s);
    AllocInv(crc, s);
    FreeListConsistent(crc, s);
    WalkFacts(s.dev.files.pages, s.pageCount, s.head, {}, s.chain);
  }

  /** A zeroed meta page holds no store. */
  lemma ZeroMeta(v: Disk.View, es: seq<Entry>)
    requires META_PAGE in BodiesOf(v) && BodiesOf(v)[META_PAGE] == Zeros(BODY_SIZE)
    ensures !KvOpens(v, es)
  {
    hide Stored;
    if KvOpens(v, es) {
      var ps, root, c := OpensWith(v, es);
      MetaOnDisk(BodiesOf(v), ps, root, c);
      assert false;
    }
  }

  /** Once the page is allocated and until its transaction commits, the store does not open. */
  lemma MetaLost(crc: Crc, s: Snap, es: seq<Entry>)
    requires Fresh(crc, s)
    ensures !KvOpens(CurrentView(Alloced(s)), es) && CurrentView(Alloced(s)).pageCount == FIRST_DATA_PAGE + 1
  {
    AllocKeepsMeta(crc, s);
    hide Inv, CurrentView, Alloced;
    ZeroMeta(CurrentView(Alloced(s)), es);
  }

  lemma AllocKeepsMeta(crc: Crc, s: Snap)
    requires Fresh(crc, s)
    ensures META_PAGE in BodiesOf(CurrentView(Alloced(s))) && BodiesOf(CurrentView(Alloced(s)))[META_PAGE] == Zeros(BODY_SIZE)
    ensures CurrentView(Alloced(s)).pageCount == FIRST_DATA_PAGE + 1
  {
    FreshList(crc, s);
    AllocKeeps(crc, s);
    QuietBodies(Alloced(s));
    assert CurrentView(Alloced(s)).pageCount == Alloced(s).pageCount;
    hide Inv, CurrentView, Alloced, Bodies;
  }

  lemma NotSafeAt(crc: Crc, s: Snap, m: Disk.Device, f: Disk.Files)
    requires Fresh(crc, s) && Disk.MayCrashTo(m, f) && OpensTo(crc, f, CurrentView(Alloced(s)))
    ensures !CreationSafe(crc, m)
  {
    hide Disk.MayCrashTo, KvOpens, CurrentView, Alloced, Inv;
    MetaLost(crc, s, []);
    assert !StoreOpens(crc, f) by { OpensToRecovers(crc, f, CurrentView(Alloced(s))); }
  }

  /** The header on disk decides the page count. */
  lemma HeaderCounts(crc: Crc, f: Disk.Files)
    requires Disk.Recover(crc, f).Some?
    ensures Disk.Recover(crc, f).value.pageCount == Disk.ChosenHeader(f).value.pageCount
  {}

  lemma EarlyState(crc: Crc, s: Snap, i: nat)
    requires Fresh(crc, s) && i < 4
    ensures CreationSafe(crc, AllocMoments(s)[i])
  {
    FreshList(crc, s);
    var m := AllocMoments(s)[i];
    assert Img(m.files.pages, Disk.HEADER_PAGE) == Img(s.dev.files.pages, Disk.HEADER_PAGE) == HeadImg(Hdr(s));
    assert forall j | 0 <= j < |m.pending| :: m.pending[j].id != Disk.HEADER_PAGE;
    GrowCrash(crc, s, i);
    hide AllocMoments, Inv, CurrentView, KvOpens, Alloced;
    forall f | Disk.MayCrashTo(m, f) ensures StoreOpens(crc, f) {
      SurvivesCrash(m, f, Disk.HEADER_PAGE);
      hide Disk.MayCrashTo, Disk.Recover, Sane, SparesMeta;
      HeaderCounts(crc, f);
    }
  }

  lemma HeaderState(crc: Crc, s: Snap, i: nat)
    requires Fresh(crc, s) && 4 <= i < 6
    ensures !CreationSafe(crc, AllocMoments(s)[i])
  {
    FreshList(crc, s);
    var m, f := AllocMoments(s)[i], Alloced(s).dev.files;
    QuietMoment(crc, Alloced(s));
    NowPossible(Alloced(s).dev);
    LandedHeader(s, i);
    hide Inv, Disk.MayCrashTo, CurrentView, Alloced, AllocMoments, CreationSafe, OpensTo;
    NotSafeAt(crc, s, m, f);
  }

  /** The last header write may land. */
  lemma LandedHeader(s: Snap, i: nat)
    requires 4 <= i < 6
    ensures Disk.MayCrashTo(AllocMoments(s)[i], Alloced(s).dev.files)
  {
    var m, f := AllocMoments(s)[i], Alloced(s).dev.files;
    assert f.wal == m.files.wal + m.walTail[..0];
    if i == 4 {
      assert m.pending[0] in m.pending;
      assert Disk.Unsynced(m.pending, Disk.HEADER_PAGE) == {HeadImg(AllocHdr(s))};
    }
  }

  lemma MetaTxKeeps(crc: Crc, s: Snap, body: Bytes)
    requires Fresh(crc, s) && |body| == BODY_SIZE
    ensures var t := Begun(Alloced(s));
      && Inv(crc, t) && t.inTxn && IsAllocated(t, META_PAGE) && t.currentTxn < U64_LIMIT
      && CurrentView(t) == CurrentView(Alloced(s))
    ensures var t := MetaTx(crc, s, body);
      && Inv(crc, t) && t.inTxn && t.currentTxn < U64_LIMIT && CurrentView(t) == CurrentView(Alloced(s))
      && BodiesOf(CurrentView(Committed(t)))[META_PAGE := body] == BodiesOf(CurrentView(Committed(t)))
  {
    FreshList(crc, s);
    AllocKeeps(crc, s);
    assert Alloced(s).nextTxnId == s.nextTxnId;
    hide Inv, Alloced, Bodies, CurrentView;
    var a := Alloced(s);
    BeginKeeps(crc, a);
    var t := Begun(a);
    assert IsAllocated(t, META_PAGE);
    AppendKeeps(crc, t, META_PAGE, body);
    var u := MetaTx(crc, s, body);
    InvQuiet(crc, t);
    InvQuiet(crc, u);
    CommitKeeps(crc, u);
    QuietBodies(Committed(u));
  }

  lemma WriteState(crc: Crc, s: Snap, body: Bytes, i: nat)
    requires Fresh(crc, s) && |body| == BODY_SIZE && i < 2
    ensures !CreationSafe(crc, WriteMoments(crc, Begun(Alloced(s)), META_PAGE, body)[i])
  {
    MetaTxKeeps(crc, s, body);
    hide Inv, Disk.MayCrashTo, CurrentView, Alloced, Begun, WriteMoments, CreationSafe, OpensTo;
    var t := Begun(Alloced(s));
    AppendCrash(crc, t, META_PAGE, body);
    var m := WriteMoments(crc, t, META_PAGE, body)[i];
    NowPossible(m);
    NotSafeAt(crc, s, m, m.files);
  }

  lemma EotState(crc: Crc, s: Snap, body: Bytes)
    requires Fresh(crc, s) && |body| == BODY_SIZE
    ensures MetaTx(crc, s, body).currentTxn < U64_LIMIT && !CreationSafe(crc, EotDev(crc, MetaTx(crc, s, body)))
  {
    MetaTxKeeps(crc, s, body);
    hide Inv, Disk.MayCrashTo, CurrentView, Alloced, MetaTx, CreationSafe, OpensTo;
    var t := MetaTx(crc, s, body);
    QuietMoment(crc, t);
    NowPossible(t.dev);
    NowPossible(EotDev(crc, t));
    NotSafeAt(crc, s, EotDev(crc, t), t.dev.files);
  }

  lemma LateState(crc: Crc, s: Snap, body: Bytes, m: Disk.Device)
    requires Fresh(crc, s) && EncodePage(MetaPage(SENTINEL)) == Some(body)
    requires MetaTx(crc, s, body).currentTxn < U64_LIMIT && CommitState(crc, MetaTx(crc, s, body), m)
    ensures CreationSafe(crc, m)
  {
    hide EncodePage;
    MetaTxKeeps(crc, s, body);
    hide Inv, Disk.MayCrashTo, CurrentView, Alloced, MetaTx, CommitState, Committed, Disk.Recover, Sane, SparesMeta;
    var t := MetaTx(crc, s, body);
    CommitStateCrash(crc, t, m);
    var v := CurrentView(Committed(t));
    MetaStored(BodiesOf(v));
    hide Stored;
    assert EntriesIn(Empty) == [] && KvOpens(v, []);
    hide KvOpens;
    assert forall f | Disk.MayCrashTo(m, f) :: OpensTo(crc, f, v);
  }

  lemma TraceAt(crc: Crc, s: Snap, body: Bytes, ms0: seq<Disk.Device>, ms1: seq<Disk.Device>, i: nat)
    requires |body| == BODY_SIZE && s.nextTxnId + 1 < U64_LIMIT && CreateTrace(crc, s, body, ms0, ms1) && |ms0| <= i < |ms1|
    ensures MetaTx(crc, s, body).currentTxn < U64_LIMIT
    ensures i < |ms0| + 6 ==> ms1[i] == AllocMoments(s)[i - |ms0|]
    ensures |ms0| + 6 <= i < |ms0| + 8 ==> ms1[i] == WriteMoments(crc, Begun(Alloced(s)), META_PAGE, body)[i - |ms0| - 6]
    ensures i == |ms0| + 8 ==> ms1[i] == EotDev(crc, MetaTx(crc, s, body))
    ensures i > |ms0| + 8 ==> CommitState(crc, MetaTx(crc, s, body), ms1[i])
  {
    hide AllocMoments, WriteMoments, CommitState, EotDev;
    var all := ms0 + AllocMoments(s) + WriteMoments(crc, Begun(Alloced(s)), META_PAGE, body);
    assert i < |all| ==> ms1[i] == ms1[..|all|][i] == all[i];
  }

  /** Of the device states of creating a store, a crash leaves one that opens exactly before the new
      page count reaches the primary header and after the end marker of the transaction is durable. */
  lemma CreationSafeIff(crc: Crc, s: Snap, body: Bytes, ms0: seq<Disk.Device>, ms1: seq<Disk.Device>, i: nat)
    requires Fresh(crc, s) && s.nextTxnId + 1 < U64_LIMIT && EncodePage(MetaPage(SENTINEL)) == Some(body)
    requires CreateTrace(crc, s, body, ms0, ms1) && |ms0| <= i < |ms1|
    ensures CreationSafe(crc, ms1[i]) <==> i < |ms0| + 4 || i > |ms0| + 8
  {
    hide EncodePage, Inv, Fresh, CreationSafe, AllocMoments, WriteMoments, MetaTx, CommitState, EotDev, Alloced, Begun, CreateTrace;
    TraceAt(crc, s, body, ms0, ms1, i);
    if i < |ms0| + 4 {
      EarlyState(crc, s, i - |ms0|);
    } else if i < |ms0| + 6 {
      HeaderState(crc, s, i - |ms0|);
    } else if i < |ms0| + 8 {
      WriteState(crc, s, body, i - |ms0| - 6);
    } else if i == |ms0| + 8 {
      EotState(crc, s, body);
    } else {
      LateState(crc, s, body, ms1[i]);
    }
  }

  lemma AllocTxn(s: Snap)
    ensures Alloced(s).nextTxnId == s.nextTxnId
  {}

  lemma CreationTrace(crc: Crc, s: Snap, body: Bytes, ms0: seq<Disk.Device>, ms: seq<Disk.Device>, ms1: seq<Disk.Device>)
    requires Fresh(crc, s) && EncodePage(MetaPage(SENTINEL)) == Some(body)
    requires ms == ms0 + AllocMoments(s) + WriteMoments(crc, Begun(Alloced(s)), META_PAGE, body) && Grew(ms, ms1)
    requires MetaTx(crc, s, body).currentTxn < U64_LIMIT && CommitTrace(crc, MetaTx(crc, s, body), ms1, |ms|)
    ensures Grew(ms0, ms1)
    ensures forall i | |ms0| <= i < |ms1| :: CreationSafe(crc, ms1[i]) <==> i < |ms0| + 4 || i > |ms0| + 8
  {
    hide EncodePage, Inv, CreationSafe, AllocMoments, WriteMoments, MetaTx, CommitTrace, Alloced, Begun;
    assert ms1[..|ms0|] == ms1[..|ms|][..|ms0|] == ms0;
    forall i | |ms0| <= i < |ms1| ensures CreationSafe(crc, ms1[i]) <==> i < |ms0| + 4 || i > |ms0| + 8 {
      CreationSafeIff(crc, s, body, ms0, ms1, i);
    }
  }
}
