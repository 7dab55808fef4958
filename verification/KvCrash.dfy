/** What a crash during a store operation leaves behind, in terms of the store's contents. */
module KvCrash {
  import opened Wrappers
  import opened Bytes
  import opened SortedEntries
  import opened Tree
  import opened TreePages
  import opened KvPages
  import opened KvSpec
  import opened Wal
  import opened PagerSpec
  import opened PagerRecovery
  import opened CrashSafety
  import Disk
  import NodeCodec

  /** A recovered state in which the store opens with the entries es. */
  ghost predicate KvOpens(v: Disk.View, es: seq<Entry>) {
    exists ps, root, c :: Stored(BodiesOf(v), ps, root, c) && EntriesIn(c) == es
  }

  /** Whatever a crash now leaves, pager and store open again and hold `before` or `after`. */
  ghost predicate KvSafe(crc: Crc, m: Disk.Device, before: seq<Entry>, after: seq<Entry>) {
    forall f | Disk.MayCrashTo(m, f) ::
      Opens(crc, f) && (KvOpens(Disk.Recover(crc, f).value, before) || KvOpens(Disk.Recover(crc, f).value, after))
  }

  ghost predicate KvSafeFrom(crc: Crc, ms: seq<Disk.Device>, lo: nat, before: seq<Entry>, after: seq<Entry>) {
    forall i | lo <= i < |ms| :: KvSafe(crc, ms[i], before, after)
  }

  lemma SafeTo(crc: Crc, m: Disk.Device, v: Disk.View, before: seq<Entry>, after: seq<Entry>)
    requires CrashesTo(crc, m, v) && (KvOpens(v, before) || KvOpens(v, after))
    ensures KvSafe(crc, m, before, after)
  {
    hide KvOpens, Disk.MayCrashTo, Disk.Recover, Sane, SparesMeta;
  }

  lemma SafeEither(crc: Crc, m: Disk.Device, v: Disk.View, w: Disk.View, before: seq<Entry>, after: seq<Entry>)
    requires CrashesToEither(crc, m, v, w)
    requires (KvOpens(v, before) || KvOpens(v, after)) && (KvOpens(w, before) || KvOpens(w, after))
    ensures KvSafe(crc, m, before, after)
  {
    hide KvOpens, Disk.MayCrashTo, Disk.Recover, Sane, SparesMeta;
  }

  lemma AtomicEither(crc: Crc, m: Disk.Device, s: Snap)
    requires s.currentTxn < U64_LIMIT && AtomicAt(crc, m, s)
    ensures CrashesToEither(crc, m, CurrentView(s), CurrentView(Committed(s)))
  {
    hide Disk.MayCrashTo, OpensTo, EotIn;
  }

  lemma SafeJoin(crc: Crc, ms0: seq<Disk.Device>, ms1: seq<Disk.Device>, lo: nat, before: seq<Entry>, after: seq<Entry>)
    requires Grew(ms0, ms1) && KvSafeFrom(crc, ms0, lo, before, after) && KvSafeFrom(crc, ms1, |ms0|, before, after)
    ensures KvSafeFrom(crc, ms1, lo, before, after)
  {
    hide KvSafe;
    forall i | lo <= i < |ms1| ensures KvSafe(crc, ms1[i], before, after) {
      if i < |ms0| { assert ms1[i] == ms1[..|ms0|][i]; }
    }
  }

  lemma SafeWiden(crc: Crc, ms: seq<Disk.Device>, lo: nat, before: seq<Entry>, after: seq<Entry>)
    requires KvSafeFrom(crc, ms, lo, before, before)
    ensures KvSafeFrom(crc, ms, lo, before, after)
  {
    hide KvOpens, Disk.MayCrashTo, Opens;
  }

  lemma GrewAppend(a: seq<Disk.Device>, b: seq<Disk.Device>, more: seq<Disk.Device>)
    requires b == a + more
    ensures Grew(a, b) && |b| == |a| + |more| && forall i | |a| <= i < |b| :: b[i] == more[i - |a|]
  {}

  lemma GrewSelf(a: seq<Disk.Device>)
    ensures Grew(a, a)
  {}

  // ----- the steps -----

  lemma CommitQuiet(s: Snap)
    ensures !Committed(s).inTxn
  {}

  lemma QuietOpens(s: Snap, ps: Pages, root: PageId, c: Content)
    requires !s.inTxn && Stored(Bodies(s), ps, root, c)
    ensures KvOpens(CurrentView(s), EntriesIn(c))
  {
    QuietBodies(s);
  }

  /** Only allocated pages can be read, and page ids stay far below the sentinel. */
  lemma BodiesAllocated(crc: Crc, s: Snap, id: nat)
    requires Inv(crc, s) && id in Bodies(s)
    ensures IsAllocated(s, id) && id < Disk.MAX_PAGES
  {
    InvQuiet(crc, s);
    hide Settled;
  }

  /** Page writes inside the transaction. */
  lemma WritesSafe(crc: Crc, ms0: seq<Disk.Device>, ms1: seq<Disk.Device>, v: Disk.View, before: seq<Entry>, after: seq<Entry>)
    requires KvOpens(v, before) && forall i | |ms0| <= i < |ms1| :: CrashesTo(crc, ms1[i], v)
    ensures KvSafeFrom(crc, ms1, |ms0|, before, after)
  {
    hide KvOpens, CrashesTo, KvSafe;
    forall i | |ms0| <= i < |ms1| ensures KvSafe(crc, ms1[i], before, after) {
      SafeTo(crc, ms1[i], v, before, after);
    }
  }

  /** Commit, and its checkpoint. */
  lemma CommitSafe(crc: Crc, s: Snap, ms0: seq<Disk.Device>, ms1: seq<Disk.Device>, before: seq<Entry>, after: seq<Entry>)
    requires s.currentTxn < U64_LIMIT && |ms1| > |ms0| && AtomicAt(crc, ms1[|ms0|], s)
    requires forall i | |ms0| < i < |ms1| :: CrashesTo(crc, ms1[i], CurrentView(Committed(s)))
    requires KvOpens(CurrentView(s), before) && KvOpens(CurrentView(Committed(s)), after)
    ensures KvSafeFrom(crc, ms1, |ms0|, before, after)
  {
    hide KvOpens, CrashesTo, KvSafe, CurrentView, Committed, AtomicAt, CrashesToEither;
    forall i | |ms0| <= i < |ms1| ensures KvSafe(crc, ms1[i], before, after) {
      if i == |ms0| {
        AtomicEither(crc, ms1[i], s);
        SafeEither(crc, ms1[i], CurrentView(s), CurrentView(Committed(s)), before, after);
      } else {
        SafeTo(crc, ms1[i], CurrentView(Committed(s)), before, after);
      }
    }
  }

  /** A new page, taken while the free list is empty. */
  lemma GrowSafe(crc: Crc, s: Snap, ms0: seq<Disk.Device>, ms1: seq<Disk.Device>, es: seq<Entry>)
    requires Inv(crc, s) && CanAlloc(s) && s.head == SENTINEL
    requires ms1 == ms0 + AllocMoments(s)
    requires KvOpens(CurrentView(s), es) && KvOpens(CurrentView(Alloced(s)), es)
    ensures KvSafeFrom(crc, ms1, |ms0|, es, es)
  {
    hide KvOpens, KvSafe, CurrentView, Alloced, AllocMoments, CrashesToEither, Inv;
    forall i | |ms0| <= i < |ms1| ensures KvSafe(crc, ms1[i], es, es) {
      GrowCrash(crc, s, i - |ms0|);
      SafeEither(crc, ms1[i], CurrentView(s), CurrentView(Alloced(s)), es, es);
    }
  }

  lemma AllocOnDisk(crc: Crc, s: Snap, ps: Pages)
    requires Inv(crc, s) && CanAlloc(s) && OnDisk(Bodies(s), ps)
    ensures Inv(crc, Alloced(s)) && !Alloced(s).inTxn && AllocId(s) !in ps && 2 <= AllocId(s) < Disk.MAX_PAGES
    ensures OnDisk(Bodies(Alloced(s)), ps)
    ensures Bodies(Alloced(s)).Keys == Bodies(s).Keys + {AllocId(s)} && AllocId(s) !in Bodies(s)
  {
    hide Inv, IsAllocated;
    AllocInv(crc, s);
    AllocKeeps(crc, s);
    hide Bodies, Alloced, AllocId;
    OnDiskFrame(Bodies(s), Bodies(Alloced(s)), ps);
  }

  lemma NothingYet(crc: Crc, ms: seq<Disk.Device>, es: seq<Entry>)
    ensures Grew(ms, ms) && KvSafeFrom(crc, ms, |ms|, es, es)
  {}

  /** Several allocations before a transaction: a crash leaves the contents alone from the moment on
      that the free list is empty. */
  ghost predicate SpareTrace(crc: Crc, s: Snap, now: Snap, ms0: seq<Disk.Device>, ms1: seq<Disk.Device>, n: nat, es: seq<Entry>) {
    && now == AllocNth(s, n) && |now.chain| == |s.chain| - Reused(s, n)
    && ms1 == ms0 + AllocTrace(s, n) && KvSafeFrom(crc, ms1, |ms0| + 6 * Reused(s, n), es, es)
  }

  lemma SpareStart(crc: Crc, s: Snap, ms: seq<Disk.Device>, es: seq<Entry>)
    ensures SpareTrace(crc, s, s, ms, ms, 0, es)
  {
    NoAlloc(s);
    assert ms + [] == ms;
  }

  lemma SpareStep(crc: Crc, s0: Snap, s: Snap, ms0: seq<Disk.Device>, ms: seq<Disk.Device>, n: nat, ps: Pages, root: PageId, c: Content)
    requires Inv(crc, s) && CanAlloc(s) && Stored(Bodies(s), ps, root, c)
    requires SpareTrace(crc, s0, s, ms0, ms, n, EntriesIn(c))
    ensures SpareTrace(crc, s0, Alloced(s), ms0, ms + AllocMoments(s), n + 1, EntriesIn(c))
  {
    hide Inv, Stored, KvSafeFrom, AllocMoments, EntriesIn, Alloced, CanAlloc;
    AllocChain(crc, s);
    var ms1 := ms + AllocMoments(s);
    if s.chain == [] {
      GrowAfter(crc, s, ms, |ms0| + 6 * Reused(s0, n), ps, root, c);
    }
    TraceSteps(s0, s, ms0, ms, n);
    NothingYet(crc, ms1, EntriesIn(c));
  }

  lemma TraceSteps(s0: Snap, s: Snap, ms0: seq<Disk.Device>, ms: seq<Disk.Device>, n: nat)
    requires s == AllocNth(s0, n) && ms == ms0 + AllocTrace(s0, n)
    ensures Alloced(s) == AllocNth(s0, n + 1) && ms + AllocMoments(s) == ms0 + AllocTrace(s0, n + 1)
    ensures |ms + AllocMoments(s)| == |ms0| + 6 * n + 6
  {
    hide AllocMoments, Alloced;
    assert ms0 + AllocTrace(s0, n) + AllocMoments(s) == ms0 + (AllocTrace(s0, n) + AllocMoments(s));
  }

  lemma GrowAfter(crc: Crc, s: Snap, ms: seq<Disk.Device>, lo: nat, ps: Pages, root: PageId, c: Content)
    requires Inv(crc, s) && CanAlloc(s) && s.head == SENTINEL && Stored(Bodies(s), ps, root, c)
    requires KvSafeFrom(crc, ms, lo, EntriesIn(c), EntriesIn(c))
    ensures KvSafeFrom(crc, ms + AllocMoments(s), lo, EntriesIn(c), EntriesIn(c))
  {
    AllocOnDisk(crc, s, ps);
    hide Inv, Bodies, CurrentView, OnDisk, Held, KvSafeFrom, KvOpens, AllocMoments, EntriesIn, Alloced;
    var ms1 := ms + AllocMoments(s);
    QuietOpens(s, ps, root, c);
    QuietOpens(Alloced(s), ps, root, c);
    GrowSafe(crc, s, ms, ms1, EntriesIn(c));
    GrewAppend(ms, ms1, AllocMoments(s));
    SafeJoin(crc, ms, ms1, lo, EntriesIn(c), EntriesIn(c));
  }

  lemma SpareSafe(crc: Crc, s: Snap, now: Snap, ms0: seq<Disk.Device>, ms1: seq<Disk.Device>, n: nat, es: seq<Entry>)
    requires SpareTrace(crc, s, now, ms0, ms1, n, es)
    ensures |ms0| + 6 * Reused(s, n) <= |ms1| && KvSafeFrom(crc, ms1, |ms0| + 6 * Reused(s, n), es, es)
    ensures |now.chain| == |s.chain| - Reused(s, n)
  {
    hide KvSafeFrom;
  }

  /** The device states of a Set that made n allocations: first theirs, then those of its
      transaction. A crash leaves the old contents or the new ones, except while a page is taken off
      the free list. */
  ghost predicate SetTrace(crc: Crc, s: Snap, ms0: seq<Disk.Device>, ms1: seq<Disk.Device>, n: nat, before: seq<Entry>, after: seq<Entry>) {
    && Grew(ms0, ms1) && |ms0| + 6 * n <= |ms1| && ms1[|ms0|..|ms0| + 6 * n] == AllocTrace(s, n)
    && KvSafeFrom(crc, ms1, |ms0| + 6 * Reused(s, n), before, after)
    && (KvSafeFrom(crc, ms1, |ms0|, before, after) <==> Reused(s, n) == 0)
  }

  lemma ReuseNotSafe(crc: Crc, s: Snap, before: seq<Entry>, after: seq<Entry>)
    requires Inv(crc, s) && CanAlloc(s) && s.head != SENTINEL
    ensures !KvSafe(crc, AllocMoments(s)[1], before, after)
  {
    hide Inv, AllocMoments, Disk.Recover, Disk.MayCrashTo, KvOpens;
    ReuseUnsafe(crc, s);
  }

  lemma SetTraced(crc: Crc, s: Snap, mid: Snap, ms0: seq<Disk.Device>, ms: seq<Disk.Device>, ms1: seq<Disk.Device>, n: nat,
                  before: seq<Entry>, after: seq<Entry>)
    requires Inv(crc, s) && !s.inTxn && SpareTrace(crc, s, mid, ms0, ms, n, before) && Grew(ms, ms1)
    requires KvSafeFrom(crc, ms1, |ms0| + 6 * Reused(s, n), before, after)
    ensures SetTrace(crc, s, ms0, ms1, n, before, after)
  {
    hide KvSafe, AllocTrace, AllocMoments, Inv;
    assert ms1[..|ms0|] == ms1[..|ms|][..|ms0|] == ms0;
    assert ms1[|ms0|..|ms0| + 6 * n] == ms1[..|ms|][|ms0|..] == AllocTrace(s, n);
    if Reused(s, n) > 0 {
      FirstAlloc(s, n);
      ChainHead(crc, s);
      ReuseNotSafe(crc, s, before, after);
      assert ms1[|ms0| + 1] == ms1[|ms0|..|ms0| + 6 * n][1] == AllocTrace(s, n)[..6][1] == AllocMoments(s)[1];
    }
  }

  lemma ChainHead(crc: Crc, s: Snap)
    requires Inv(crc, s) && !s.inTxn && s.chain != []
    ensures CanAlloc(s) && s.head != SENTINEL
  {
    FreeListConsistent(crc, s);
    WalkFacts(s.dev.files.pages, s.pageCount, s.head, {}, s.chain);
  }

  /** Nothing was allocated. */
  lemma PlainTrace(crc: Crc, s: Snap, ms0: seq<Disk.Device>, ms1: seq<Disk.Device>, before: seq<Entry>, after: seq<Entry>)
    requires Inv(crc, s) && !s.inTxn && Grew(ms0, ms1) && KvSafeFrom(crc, ms1, |ms0|, before, after)
    ensures SetTrace(crc, s, ms0, ms1, 0, before, after)
  {
    hide Inv, KvSafe, AllocTrace;
    SpareStart(crc, s, ms0, before);
    SetTraced(crc, s, s, ms0, ms0, ms1, 0, before, after);
  }

  // ----- opening the store -----

  /** On a new pager the first page handed out is the meta page. */
  lemma FreshMeta(crc: Crc, s: Snap)
    requires Inv(crc, s) && !s.inTxn && s.pageCount == FIRST_DATA_PAGE
    ensures CanAlloc(s) && AllocId(s) == META_PAGE
  {
    FreeListConsistent(crc, s);
    if s.head != SENTINEL {
      AllocList(crc, s);
    }
  }

  lemma MetaStored(bodies: map<nat, Bytes>)
    requires EncodePage(MetaPage(SENTINEL)).Some?
    requires META_PAGE in bodies && bodies[META_PAGE] == EncodePage(MetaPage(SENTINEL)).value
    ensures Stored(bodies, map[META_PAGE := MetaPage(SENTINEL)], SENTINEL, Empty)
  {
    PageRoundTrip(MetaPage(SENTINEL));
    hide EncodePage, DecodePage;
  }

  lemma MetaOnDisk(bodies: map<nat, Bytes>, ps: Pages, root: PageId, c: Content)
    requires Stored(bodies, ps, root, c)
    ensures META_PAGE in bodies && |bodies[META_PAGE]| == BODY_SIZE
    ensures NodeCodec.DecodeMeta(bodies[META_PAGE]) == Some(root)
  {
    HeldMeta(ps, root, c);
    hide Held;
  }

  lemma OpensWith(v: Disk.View, es: seq<Entry>) returns (ps: Pages, root: PageId, c: Content)
    requires KvOpens(v, es)
    ensures Stored(BodiesOf(v), ps, root, c) && EntriesIn(c) == es
  {
    ps, root, c :| Stored(BodiesOf(v), ps, root, c) && EntriesIn(c) == es;
  }

  /** One page written in a transaction of its own. */
  lemma WriteOneKeeps(crc: Crc, s: Snap, id: nat, body: Bytes)
    requires Inv(crc, s) && !s.inTxn && s.nextTxnId + 1 < U64_LIMIT && IsAllocated(s, id) && |body| == BODY_SIZE
    ensures Inv(crc, Begun(s)) && Begun(s).inTxn && IsAllocated(Begun(s), id) && id < EOT_PAGE && Begun(s).currentTxn < U64_LIMIT
    ensures var t := Appended(crc, Begun(s), id, body);
      Inv(crc, t) && t.inTxn && Bodies(Committed(t)) == Bodies(s)[id := body] && !Committed(t).inTxn
  {
    hide Inv, Bodies, CurrentView;
    BeginKeeps(crc, s);
    AppendKeeps(crc, Begun(s), id, body);
    CommitKeeps(crc, Appended(crc, Begun(s), id, body));
  }

  lemma OpenFiles(crc: Crc, f: Disk.Files)
    requires Opens(crc, f)
    ensures f.pages != map[] && Disk.Recover(crc, f).Some? && !Reopened(crc, f).inTxn && Reopened(crc, f).nextTxnId == 0
  {
    OpensToParts(crc, f, Disk.Recover(crc, f).value);
    hide OpensTo, Disk.Recover;
  }

  lemma ReopenedPages(crc: Crc, s: Snap, es: seq<Entry>)
    requires Inv(crc, s) && !s.inTxn && KvOpens(CurrentView(s), es)
    ensures s.pageCount != FIRST_DATA_PAGE
  {
    hide Inv, CurrentView, Bodies, Stored;
    var ps, root, c := OpensWith(CurrentView(s), es);
    QuietBodies(s);
    MetaOnDisk(Bodies(s), ps, root, c);
    BodiesAllocated(crc, s, META_PAGE);
  }
}
