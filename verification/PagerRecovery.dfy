/** Opening existing files: header recovery, free-list walk and replay give an open pager in
    the recovered state, and a crash on the way changes nothing. */
module PagerRecovery {
  import opened Wrappers
  import opened Bytes
  import opened Wal
  import opened WalReplay
  import opened Disk
  import opened CrashSafety
  import opened PagerSpec

  /** Open rewrites a broken primary header from the mirror. */
  ghost function Healed(f: Files): Images {
    if Img(f.pages, HEADER_PAGE).HeadImg? || ChosenHeader(f).None? then f.pages
    else f.pages[HEADER_PAGE := HeadImg(ChosenHeader(f).value)]
  }

  /** The open pager that Open makes of recoverable files. */
  ghost function Reopened(crc: Crc, f: Files): Snap
    requires Recover(crc, f).Some?
  {
    var h, v := ChosenHeader(f).value, Recover(crc, f).value;
    Snap(Device(Files(Replay(Parse(crc, f.wal).rs, Healed(f)), []), [], []),
         h.pageCount, h.head, h.freeCount, set i | 0 <= i < |v.chain| :: v.chain[i],
         false, 0, 0, map[], 0, v.chain, [])
  }

  /** What OpensTo says, in parts. */
  lemma OpensToParts(crc: Crc, f: Files, v: View)
    requires OpensTo(crc, f, v)
    ensures ChosenHeader(f).Some? && Parse(crc, f.wal).Records?
    ensures var h, rs := ChosenHeader(f).value, Parse(crc, f.wal).rs;
      && Walk(f.pages, h.pageCount, h.head, {}) == Some(v.chain) && |v.chain| == h.freeCount
      && Sane(h, v.chain) && SparesMeta(rs, v.chain)
      && v == ViewOf(Replay(rs, f.pages), h, v.chain)
  {}

  lemma HealedParts(crc: Crc, f: Files, v: View)
    requires OpensTo(crc, f, v)
    ensures var h := ChosenHeader(f).value;
      && Img(Healed(f), HEADER_PAGE) == HeadImg(h) && AgreeOff(Healed(f), f.pages, {HEADER_PAGE})
      && Walk(Healed(f), h.pageCount, h.head, {}) == Some(v.chain)
  {
    OpensToParts(crc, f, v);
    hide OpensTo;
    var h := ChosenHeader(f).value;
    WalkFacts(f.pages, h.pageCount, h.head, {}, v.chain);
    hide Walk;
    WalkSame(f.pages, Healed(f), h, v.chain);
  }

  lemma ReplayKeepsMeta(rs: seq<Record>, base: Images, h: Header, chain: seq<nat>)
    requires Img(base, HEADER_PAGE) == HeadImg(h) && SparesMeta(rs, chain)
    requires Walk(base, h.pageCount, h.head, {}) == Some(chain)
    ensures Img(Replay(rs, base), HEADER_PAGE) == HeadImg(h)
    ensures Walk(Replay(rs, base), h.pageCount, h.head, {}) == Some(chain)
  {
    ApplyIdsFrame(rs, TxnIds(rs), base);
    hide Walk, ApplyIds, TouchedBy;
    WalkSame(base, Replay(rs, base), h, chain);
  }

  /** The header page is not part of a view. */
  lemma ReplaySameView(rs: seq<Record>, p: Images, q: Images, h: Header, chain: seq<nat>)
    requires AgreeOff(p, q, {HEADER_PAGE})
    ensures ViewOf(Replay(rs, p), h, chain) == ViewOf(Replay(rs, q), h, chain)
  {
    ApplyIdsAgree(rs, TxnIds(rs), p, q, {HEADER_PAGE});
    var a, b := Replay(rs, p), Replay(rs, q);
    assert AgreeOff(a, b, {HEADER_PAGE});
    hide ApplyIds, TouchedBy;
    assert DataPages(a, h.pageCount, chain) == DataPages(b, h.pageCount, chain);
  }

  /** Opening gives a pager in good order whose state is the recovered one. */
  lemma OpenKeeps(crc: Crc, f: Files, v: View)
    requires OpensTo(crc, f, v)
    ensures Inv(crc, Reopened(crc, f)) && CurrentView(Reopened(crc, f)) == v
  {
    OpensToParts(crc, f, v);
    HealedParts(crc, f, v);
    hide Walk, Sane, Parse, SparesMeta, Replay, ViewOf;
    var h, rs := ChosenHeader(f).value, Parse(crc, f.wal).rs;
    ReplayKeepsMeta(rs, Healed(f), h, v.chain);
    ReplaySameView(rs, Healed(f), f.pages, h, v.chain);
  }

  // ----- crashes while opening -----

  /** Healing the header. */
  lemma HealMoment(crc: Crc, m: Device, f: Files, v: View)
    requires OpensTo(crc, f, v) && !Img(f.pages, HEADER_PAGE).HeadImg?
    requires m.files.wal == f.wal && m.walTail == []
    requires || (m.files == f && m.pending == [Write(HEADER_PAGE, HeadImg(ChosenHeader(f).value))])
             || (m.files.pages == Healed(f) && m.pending == [])
    ensures CrashesTo(crc, m, v)
  {
    OpensToParts(crc, f, v);
    HealedParts(crc, f, v);
    var h, rs := ChosenHeader(f).value, Parse(crc, f.wal).rs;
    WalkFacts(f.pages, h.pageCount, h.head, {}, v.chain);
    hide OpensTo, Sane, SparesMeta, Reopens, Replay;
    forall g | MayCrashTo(m, g) ensures OpensTo(crc, g, v) {
      HealCrash(crc, m, f, g, h);
      hide MayCrashTo, Parse, Walk;
      WalkSame(f.pages, g.pages, h, v.chain);
      ReplaySameView(rs, g.pages, f.pages, h, v.chain);
      assert Reopens(crc, g, h, v.chain, Replay(rs, f.pages)) by { HealReopens(crc, f, g, h, v.chain, rs); }
      ReopensOpensTo(crc, g, h, v.chain, Replay(rs, f.pages));
    }
  }

  lemma HealCrash(crc: Crc, m: Device, f: Files, g: Files, h: Header)
    requires ChosenHeader(f) == Some(h) && !Img(f.pages, HEADER_PAGE).HeadImg?
    requires m.files.wal == f.wal && m.walTail == []
    requires || (m.files == f && m.pending == [Write(HEADER_PAGE, HeadImg(h))])
             || (m.files.pages == Healed(f) && m.pending == [])
    requires MayCrashTo(m, g)
    ensures ChosenHeader(g) == Some(h) && g.wal == f.wal && AgreeOff(g.pages, f.pages, {HEADER_PAGE})
  {
    assert g.wal == f.wal;
    forall id: nat | id != HEADER_PAGE ensures Img(g.pages, id) == Img(f.pages, id) {
      SurvivesCrash(m, g, id);
    }
    if m.pending == [] {
      SurvivesCrash(m, g, HEADER_PAGE);
    } else {
      assert Unsynced(m.pending, HEADER_PAGE) == {HeadImg(h)} by { assert m.pending[0] in m.pending; }
      assert Img(g.pages, HEADER_PAGE) in Choices(m, HEADER_PAGE);
    }
  }

  lemma HealReopens(crc: Crc, f: Files, g: Files, h: Header, chain: seq<nat>, rs: seq<Record>)
    requires ChosenHeader(g) == Some(h) && g.wal == f.wal && Parse(crc, f.wal) == Records(rs)
    requires Walk(g.pages, h.pageCount, h.head, {}) == Some(chain) && |chain| == h.freeCount
    requires SparesMeta(rs, chain)
    requires ViewOf(Replay(rs, g.pages), h, chain) == ViewOf(Replay(rs, f.pages), h, chain)
    ensures Reopens(crc, g, h, chain, Replay(rs, f.pages))
  {
    hide Parse, Walk, SparesMeta, Replay;
  }

  /** Replaying during Open. */
  lemma OpenReplayMoment(crc: Crc, m: Device, f: Files, v: View)
    requires OpensTo(crc, f, v)
    requires Replaying(crc, m, Healed(f), Parse(crc, f.wal).rs)
    ensures CrashesTo(crc, m, v)
  {
    OpensToParts(crc, f, v);
    HealedParts(crc, f, v);
    hide OpensTo, Walk, Sane, SparesMeta, Parse, Replay, Replaying, CrashesTo;
    var h, rs := ChosenHeader(f).value, Parse(crc, f.wal).rs;
    ReplaySameView(rs, Healed(f), f.pages, h, v.chain);
    ReplayMoment(crc, m, Healed(f), h, v.chain, rs);
  }

  // ----- Close -----

  ghost function ClosedFiles(s: Snap): Files {
    Files(s.dev.files.pages, [])
  }

  /** After Close the log is empty and opening again gives the same state. */
  lemma CloseReopens(crc: Crc, s: Snap)
    requires Inv(crc, s)
    ensures OpensTo(crc, ClosedFiles(s), CurrentView(s))
  {
    hide Walk, TxnOk;
    assert Settled(crc, ClosedFiles(s), Hdr(s), s.chain, []);
    hide Settled, Sane, Reopens, OpensTo;
    SettledRecovers(crc, ClosedFiles(s), Hdr(s), s.chain, []);
    ReopensOpensTo(crc, ClosedFiles(s), Hdr(s), s.chain, s.dev.files.pages);
  }

  /** The device states of Close: the checkpoint of a log without end markers. */
  ghost predicate CloseState(crc: Crc, s: Snap, m: Device) {
    || (m.files.wal == s.dev.files.wal && Replaying(crc, m, s.dev.files.pages, s.recs))
    || m == Device(ClosedFiles(s), [], [])
  }

  lemma CloseCrash(crc: Crc, s: Snap, m: Device)
    requires Inv(crc, s) && CloseState(crc, s, m)
    ensures CrashesTo(crc, m, CurrentView(s))
  {
    if m == Device(ClosedFiles(s), [], []) {
      hide Walk, TxnOk;
      assert Settled(crc, ClosedFiles(s), Hdr(s), s.chain, []);
      hide Settled, Sane, CrashesTo, ViewOf;
      AppendMoment(crc, m, Hdr(s), s.chain, [], Data(0, 0, Zeros(BODY_SIZE)));
    } else {
      UncommittedCheckpoint(crc, s);
      hide Walk, TxnOk, Sane, CrashesTo, ViewOf, Parse, Replay, Touched, Replaying;
      ReplayMoment(crc, m, s.dev.files.pages, Hdr(s), s.chain, s.recs);
    }
  }

  /** Opening after Close rebuilds count, free list, free set and pages. */
  lemma CloseThenOpen(crc: Crc, s: Snap)
    requires Inv(crc, s)
    ensures Recover(crc, ClosedFiles(s)).Some?
    ensures var t := Reopened(crc, ClosedFiles(s));
      && Inv(crc, t) && CurrentView(t) == CurrentView(s)
      && t.pageCount == s.pageCount && t.head == s.head && t.freeCount == s.freeCount
      && t.freeSet == s.freeSet && t.chain == s.chain && t.dev.files.pages == s.dev.files.pages
  {
    CloseReopens(crc, s);
    OpenKeeps(crc, ClosedFiles(s), CurrentView(s));
    assert ChosenHeader(ClosedFiles(s)) == Some(Hdr(s));
    assert Parse(crc, []) == Records([]);
    assert Replay([], s.dev.files.pages) == s.dev.files.pages;
  }

  /** In whatever order, a log without end markers changes no page when it is checkpointed. */
  lemma UncommittedCheckpoint(crc: Crc, s: Snap)
    requires Inv(crc, s)
    ensures Parse(crc, s.dev.files.wal) == Records(s.recs)
    ensures Replay(s.recs, s.dev.files.pages) == s.dev.files.pages && Touched(s.recs) == {}
  {
    ParseAll(crc, s.recs);
    ReplayUncommitted(s.recs, s.dev.files.pages);
  }

  // ----- the steps of Open -----

  /** The walk never looks at the header page. */
  lemma {:induction false} WalkSkipsHeader(p: Images, q: Images, pageCount: nat, curr: nat, seen: set<nat>)
    requires AgreeOff(p, q, {HEADER_PAGE})
    ensures Walk(p, pageCount, curr, seen) == Walk(q, pageCount, curr, seen)
    decreases Below(pageCount) - seen
  {
    if curr != SENTINEL && 0 < curr < pageCount && curr !in seen {
      assert Img(p, curr) == Img(q, curr);
      if Img(p, curr).PageImg? && |Img(p, curr).body| == BODY_SIZE {
        WalkSkipsHeader(p, q, pageCount, Pointer(Img(p, curr).body), seen + {curr});
      }
    }
  }

  lemma HealedWalk(f: Files, h: Header)
    requires ChosenHeader(f) == Some(h)
    ensures Walk(Healed(f), h.pageCount, h.head, {}) == Walk(f.pages, h.pageCount, h.head, {})
  {
    WalkSkipsHeader(Healed(f), f.pages, h.pageCount, h.head, {});
  }

  /** Opening can fail at three places only. */
  lemma RecoverParts(crc: Crc, f: Files)
    ensures Recover(crc, f).Some? <==>
      && ChosenHeader(f).Some?
      && Walk(f.pages, ChosenHeader(f).value.pageCount, ChosenHeader(f).value.head, {}).Some?
      && |Walk(f.pages, ChosenHeader(f).value.pageCount, ChosenHeader(f).value.head, {}).value| == ChosenHeader(f).value.freeCount
      && Parse(crc, f.wal).Records?
    ensures Recover(crc, f).Some? ==>
      Walk(f.pages, ChosenHeader(f).value.pageCount, ChosenHeader(f).value.head, {}) == Some(Recover(crc, f).value.chain)
  {
    hide Walk, Parse, Replay, DataPages;
  }

  /** The set collected by the walk has as many members as the list. */
  lemma WalkedSet(pages: Images, h: Header, chain: seq<nat>, free: set<nat>)
    requires Walk(pages, h.pageCount, h.head, {}) == Some(chain)
    requires forall id :: id in free <==> id in chain
    ensures |free| == |chain| && free == set i | 0 <= i < |chain| :: chain[i]
  {
    WalkFacts(pages, h.pageCount, h.head, {}, chain);
    hide Walk;
    DistinctSize(chain, free);
  }

  /** Files that a pager left behind, at any moment, open to one state. */
  ghost predicate Opens(crc: Crc, f: Files) {
    Recover(crc, f).Some? && OpensTo(crc, f, Recover(crc, f).value)
  }

  /** From entry lo on, a crash leaves files that open to what f opens to. */
  ghost predicate SafeFrom(crc: Crc, f: Files, ms: seq<Device>, lo: nat) {
    Opens(crc, f) ==> forall i | lo <= i < |ms| :: CrashesTo(crc, ms[i], Recover(crc, f).value)
  }

  /** The device states of Open on existing files: healing the primary header, replaying, done. */
  ghost predicate OpenState(crc: Crc, f: Files, m: Device) {
    || (&& ChosenHeader(f).Some? && !Img(f.pages, HEADER_PAGE).HeadImg?
        && (|| m == Device(f, [Write(HEADER_PAGE, HeadImg(ChosenHeader(f).value))], [])
            || m == Device(Files(Healed(f), f.wal), [], [])))
    || (Parse(crc, f.wal).Records? && Replaying(crc, m, Healed(f), Parse(crc, f.wal).rs))
    || (Recover(crc, f).Some? && m == Reopened(crc, f).dev)
  }

  ghost predicate OpenTrace(crc: Crc, f: Files, ms: seq<Device>, lo: nat) {
    forall i | lo <= i < |ms| :: OpenState(crc, f, ms[i])
  }

  lemma ReplayTrace(crc: Crc, f: Files, ms0: seq<Device>, ms1: seq<Device>, ms2: seq<Device>)
    requires Recover(crc, f).Some? && Grew(ms0, ms1) && Grew(ms1, ms2) && OpenTrace(crc, f, ms1, |ms0|)
    requires Parse(crc, f.wal).Records?
    requires forall i | |ms1| <= i < |ms2| - 1 :: Replaying(crc, ms2[i], Healed(f), Parse(crc, f.wal).rs)
    requires ms2 != ms1 ==> ms2[|ms2| - 1] == Reopened(crc, f).dev
    ensures Grew(ms0, ms2) && OpenTrace(crc, f, ms2, |ms0|)
  {
    hide Recover, Replaying, Reopened, Parse, Healed;
    assert ms2[..|ms0|] == ms2[..|ms1|][..|ms0|];
    forall i | |ms0| <= i < |ms2| ensures OpenState(crc, f, ms2[i]) {
      if i < |ms1| {
        assert ms2[i] == ms2[..|ms1|][i] == ms1[i];
        assert OpenState(crc, f, ms1[i]);
      } else if i == |ms2| - 1 {
        assert ms2 != ms1;
      }
    }
  }

  /** A crash while opening leaves files that open to the same state. */
  lemma OpenCrash(crc: Crc, f: Files, m: Device)
    requires Opens(crc, f) && OpenState(crc, f, m)
    ensures CrashesTo(crc, m, Recover(crc, f).value)
  {
    var v := Recover(crc, f).value;
    hide OpensTo, CrashesTo, Recover, Reopened, Replaying, CurrentView, Inv, Parse;
    if Recover(crc, f).Some? && m == Reopened(crc, f).dev {
      OpenKeeps(crc, f, v);
      QuietMoment(crc, Reopened(crc, f));
    } else if Parse(crc, f.wal).Records? && Replaying(crc, m, Healed(f), Parse(crc, f.wal).rs) {
      OpenReplayMoment(crc, m, f, v);
    } else {
      HealMoment(crc, m, f, v);
    }
  }

  lemma OpenTraceSafe(crc: Crc, f: Files, ms: seq<Device>, lo: nat)
    requires OpenTrace(crc, f, ms, lo)
    ensures SafeFrom(crc, f, ms, lo)
  {
    hide OpenState, OpensTo, CrashesTo, Recover;
    if Opens(crc, f) {
      forall i | lo <= i < |ms| ensures CrashesTo(crc, ms[i], Recover(crc, f).value) {
        OpenCrash(crc, f, ms[i]);
      }
    }
  }

  lemma OpenedInv(crc: Crc, f: Files)
    ensures Opens(crc, f) ==> Inv(crc, Reopened(crc, f)) && CurrentView(Reopened(crc, f)) == Recover(crc, f).value
  {
    hide Recover, Reopened, OpensTo, Inv, CurrentView;
    if Opens(crc, f) {
      OpenKeeps(crc, f, Recover(crc, f).value);
    }
  }

  /** The pager that Open makes on a new file. */
  ghost function Created(f: Files): Snap {
    Snap(SwitchEnd(Device(f, [], []), Header(2, SENTINEL, 0)), 2, SENTINEL, 0, {}, false, 0, 0, map[], 0, [], [])
  }

  /** The device states of creating a file. */
  ghost function CreateMoments(f: Files): (ms: seq<Device>)
    ensures |ms| == 4
  {
    SwitchMoments(Device(f, [], []), Header(2, SENTINEL, 0))
  }

  lemma CreatedKeeps(crc: Crc)
    ensures Inv(crc, Created(Files(map[], []))) && Bodies(Created(Files(map[], []))) == map[]
  {
    var s := Created(Files(map[], []));
    assert Walk(s.dev.files.pages, 2, SENTINEL, {}) == Some([]);
    assert EncodeAll(crc, []) == [];
    assert Settled(crc, s.dev.files, Hdr(s), [], []);
  }
}
