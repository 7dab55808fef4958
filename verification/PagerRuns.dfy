/** Every run of the pager: calls in any order, closing, crashes at any device state of any call,
    opening, and crashes while opening. */
module PagerRuns {
  import opened Wrappers
  import opened Bytes
  import opened Wal
  import opened WalReplay
  import opened Disk
  import opened CrashSafety
  import opened PagerSpec
  import opened PagerRecovery

  datatype Call =
    | Begin
    | Write(id: nat, body: Bytes)
    | Commit
    | Rollback
    | Allocate
    | Free(id: nat)

  ghost predicate CanWrite(s: Snap, id: nat, body: Bytes) {
    IsAllocated(s, id) && |body| == BODY_SIZE && id < U64_LIMIT && (s.inTxn ==> s.currentTxn < U64_LIMIT)
  }

  /** What each call does; calls that the pager rejects change nothing. */
  ghost function Next(crc: Crc, s: Snap, call: Call): Snap {
    match call
    case Begin => if s.inTxn || s.nextTxnId + 1 >= U64_LIMIT then s else Begun(s)
    case Write(id, body) =>
      if !CanWrite(s, id, body) then s
      else if s.inTxn then Appended(crc, s, id, body)
      else Written(s, id, body)
    case Commit => if s.inTxn then Committed(s) else s
    case Rollback => if s.inTxn then RolledBack(s) else s
    case Allocate => if CanAlloc(s) then Alloced(s) else s
    case Free(id) => if CanFree(s, id) && s.head <= SENTINEL then Freed(s, id) else s
  }

  lemma NextKeeps(crc: Crc, s: Snap, call: Call)
    requires Inv(crc, s) && call != Free(MIRROR_PAGE)
    ensures Inv(crc, Next(crc, s, call))
  {
    hide Inv, Bodies, CurrentView, Begun, Written, Appended, Committed, RolledBack, Alloced, Freed;
    match call
    case Begin =>
      if !s.inTxn && s.nextTxnId + 1 < U64_LIMIT { BeginKeeps(crc, s); }
    case Write(id, body) =>
      if CanWrite(s, id, body) {
        if s.inTxn { AppendKeeps(crc, s, id, body); } else { WriteKeeps(crc, s, id, body); }
      }
    case Commit =>
      if s.inTxn { CommitKeeps(crc, s); }
    case Rollback =>
      RollbackKeeps(crc, s);
    case Allocate =>
      if CanAlloc(s) { AllocKeeps(crc, s); }
    case Free(id) =>
      if CanFree(s, id) { FreeKeeps(crc, s, id); }
  }

  // ----- crashes -----

  /** m is a device state before, during or after the call. */
  ghost predicate CallState(crc: Crc, s: Snap, call: Call, m: Device) {
    || m == s.dev
    || match call
       case Begin => false
       case Rollback => false
       case Write(id, body) => CanWrite(s, id, body) && exists i :: 0 <= i < 2 && m == WriteMoments(crc, s, id, body)[i]
       case Commit => s.inTxn && s.currentTxn < U64_LIMIT && (m == EotDev(crc, s) || CommitState(crc, s, m))
       case Allocate => CanAlloc(s) && exists i :: 0 <= i < 6 && m == AllocMoments(s)[i]
       case Free(id) => CanFree(s, id) && s.head <= SENTINEL && exists i :: 0 <= i < 6 && m == FreeMoments(s, id)[i]
  }

  /** The two calls that a crash can make unopenable: a page is taken off the free list, or the
      mirror header is freed. */
  ghost predicate Hazardous(s: Snap, call: Call) {
    || (call.Allocate? && CanAlloc(s) && s.head != SENTINEL)
    || (call == Free(MIRROR_PAGE) && CanFree(s, MIRROR_PAGE))
  }

  /** After a crash in a direct page write: that page is old, new or torn. */
  ghost predicate WriteOutcome(v: View, s: Snap, id: nat, body: Bytes) {
    && v.pageCount == s.pageCount && v.chain == s.chain && v.pages.Keys == CurrentView(s).pages.Keys
    && forall x | x in v.pages ::
         if x == id then v.pages[x] in {Img(s.dev.files.pages, id), PageImg(body), Torn}
         else v.pages[x] == Img(s.dev.files.pages, x)
  }

  /** What Open finds after a crash in a call. */
  ghost predicate Outcome(crc: Crc, s: Snap, call: Call, f: Files) {
    && Opens(crc, f)
    && var v := Recover(crc, f).value;
       || v == CurrentView(s) || v == CurrentView(Next(crc, s, call))
       || (call.Write? && !s.inTxn && WriteOutcome(v, s, call.id, call.body))
       || (call.Free? && FreeOutcome(crc, f, s, call.id))
  }

  lemma DirectWriteStates(crc: Crc, s: Snap, id: nat, body: Bytes, m: Device)
    requires Inv(crc, s) && !s.inTxn && CanWrite(s, id, body)
    requires m == WriteMoments(crc, s, id, body)[0] || m == WriteMoments(crc, s, id, body)[1]
    ensures Settled(crc, m.files, Hdr(s), s.chain, s.recs) && Sane(Hdr(s), s.chain) && m.walTail == []
    ensures (m.pending == [Disk.Write(id, PageImg(body))] || m.pending == []) && id !in s.chain && id != HEADER_PAGE
    ensures Img(m.files.pages, id) in {Img(s.dev.files.pages, id), PageImg(body)}
    ensures forall x: nat | x != id :: Img(m.files.pages, x) == Img(s.dev.files.pages, x)
  {
    WriteKeeps(crc, s, id, body);
    hide Settled, Sane, Bodies;
  }

  lemma WrittenView(s: Snap, id: nat, body: Bytes, pages: Images)
    requires forall x: nat | x != id :: Img(pages, x) == Img(s.dev.files.pages, x)
    requires Img(pages, id) in {Img(s.dev.files.pages, id), PageImg(body), Torn}
    ensures WriteOutcome(ViewOf(pages, Hdr(s), s.chain), s, id, body)
  {}

  lemma DirectWriteCrash(crc: Crc, s: Snap, id: nat, body: Bytes, m: Device, f: Files)
    requires Inv(crc, s) && !s.inTxn && CanWrite(s, id, body) && MayCrashTo(m, f)
    requires m == WriteMoments(crc, s, id, body)[0] || m == WriteMoments(crc, s, id, body)[1]
    ensures Outcome(crc, s, Call.Write(id, body), f)
  {
    hide Settled, Sane, Reopens, OpensTo, WriteMoments, Inv, Recover, MayCrashTo, ViewOf, WriteOutcome, CurrentView, Next;
    DirectWriteStates(crc, s, id, body, m);
    CrashInPageWrite(crc, m, f, Hdr(s), s.chain, s.recs, id, body);
    ReopensOpensTo(crc, f, Hdr(s), s.chain, f.pages);
    ReopensRecovers(crc, f, Hdr(s), s.chain, f.pages);
    forall x: nat | x != id ensures Img(f.pages, x) == Img(s.dev.files.pages, x) {
      assert Img(f.pages, x) == Img(m.files.pages, x);
    }
    WrittenView(s, id, body, f.pages);
  }

  lemma BeforeCrash(crc: Crc, s: Snap, call: Call, m: Device, f: Files)
    requires CrashesTo(crc, m, CurrentView(s)) && MayCrashTo(m, f)
    ensures Outcome(crc, s, call, f)
  {
    hide MayCrashTo, CurrentView, Next;
  }

  lemma EitherCrash(crc: Crc, s: Snap, call: Call, m: Device, f: Files)
    requires CrashesToEither(crc, m, CurrentView(s), CurrentView(Next(crc, s, call))) && MayCrashTo(m, f)
    ensures Outcome(crc, s, call, f)
  {
    hide MayCrashTo, CurrentView, Next;
  }

  lemma CommitOutcome(crc: Crc, s: Snap, m: Device, f: Files)
    requires Inv(crc, s) && s.inTxn && s.currentTxn < U64_LIMIT && MayCrashTo(m, f)
    requires m == EotDev(crc, s) || CommitState(crc, s, m)
    ensures Outcome(crc, s, Commit, f)
  {
    hide Inv, CommitState, EotDev, CurrentView, Committed, MayCrashTo;
    if m == EotDev(crc, s) {
      CommitEot(crc, s);
    } else {
      CommitStateCrash(crc, s, m);
    }
  }

  /** A crash at any device state of a call that is not hazardous leaves files that open, to the
      state before the call or after it; a direct page write may tear its page, and FreePage leaves
      the old or the new list. */
  lemma CallCrash(crc: Crc, s: Snap, call: Call, m: Device, f: Files)
    requires Inv(crc, s) && !Hazardous(s, call) && CallState(crc, s, call, m) && MayCrashTo(m, f)
    ensures Outcome(crc, s, call, f)
  {
    hide Inv, MayCrashTo, CurrentView, CommitState, EotDev, WriteMoments, AllocMoments, FreeMoments, Outcome, CrashesTo, CrashesToEither;
    if m == s.dev {
      QuietMoment(crc, s);
      BeforeCrash(crc, s, call, m, f);
    } else {
      match call
      case Write(id, body) =>
        var i :| 0 <= i < 2 && m == WriteMoments(crc, s, id, body)[i];
        if s.inTxn {
          AppendCrash(crc, s, id, body);
          BeforeCrash(crc, s, call, m, f);
        } else {
          DirectWriteCrash(crc, s, id, body, m, f);
        }
      case Commit => CommitOutcome(crc, s, m, f);
      case Allocate =>
        var i :| 0 <= i < 6 && m == AllocMoments(s)[i];
        GrowCrash(crc, s, i);
        EitherCrash(crc, s, call, m, f);
      case Free(id) =>
        var i :| 0 <= i < 6 && m == FreeMoments(s, id)[i];
        FreeCrash(crc, s, id, i);
        FreeOpens(crc, s, id, f);
    }
  }

  lemma FreeOpens(crc: Crc, s: Snap, id: nat, f: Files)
    requires FreeOutcome(crc, f, s, id)
    ensures Outcome(crc, s, Free(id), f)
  {
    hide Recover, OpensTo, CurrentView, Next;
  }

  ghost predicate CrashSafeCall(crc: Crc, s: Snap, call: Call) {
    forall m, f | CallState(crc, s, call, m) && MayCrashTo(m, f) :: Opens(crc, f)
  }

  /** A call can be interrupted anywhere exactly if it is not hazardous. */
  lemma CallSafeIff(crc: Crc, s: Snap, call: Call)
    requires Inv(crc, s)
    ensures CrashSafeCall(crc, s, call) <==> !Hazardous(s, call)
  {
    InvQuiet(crc, s);
    hide Inv, MayCrashTo, OpensTo, Recover, AllocMoments;
    if !Hazardous(s, call) {
      forall m, f | CallState(crc, s, call, m) && MayCrashTo(m, f) ensures Opens(crc, f) {
        hide CallState, Hazardous;
        CallCrash(crc, s, call, m, f);
      }
    } else if call.Allocate? {
      ReuseUnsafe(crc, s);
      assert CallState(crc, s, call, AllocMoments(s)[1]);
    } else {
      FreeReopensIff(crc, s, MIRROR_PAGE);
      var m := Freed(s, MIRROR_PAGE).dev;
      NowPossible(m);
      assert m == FreeMoments(s, MIRROR_PAGE)[5];
      hide FreeMoments, Freed;
      assert CallState(crc, s, call, m);
    }
  }

  // ----- runs -----

  /** An open pager, or files that no pager has open. */
  datatype Sys = Up(s: Snap) | Down(f: Files)

  /** One call; a crash in one; closing, finished or not; opening; or a crash while opening. A crash
      in the reuse of a free page counts only once its last write is durable. */
  ghost predicate Step(crc: Crc, a: Sys, b: Sys) {
    match a
    case Up(s) =>
      || (b.Up? && exists call :: call != Free(MIRROR_PAGE) && b.s == Next(crc, s, call))
      || (b.Down? && exists call, m :: CallState(crc, s, call, m) && !Hazardous(s, call) && MayCrashTo(m, b.f))
      || (b.Down? && CanAlloc(s) && MayCrashTo(Alloced(s).dev, b.f))
      || (b.Down? && exists m :: CloseState(crc, s, m) && MayCrashTo(m, b.f))
    case Down(f) =>
      || (b.Up? && Recover(crc, f).Some? && b.s == Reopened(crc, f))
      || (b.Down? && exists m :: OpenState(crc, f, m) && MayCrashTo(m, b.f))
  }

  ghost predicate SysOk(crc: Crc, x: Sys) {
    match x
    case Up(s) => Inv(crc, s)
    case Down(f) => Opens(crc, f)
  }

  lemma CrashesOpen(crc: Crc, m: Device, v: View, f: Files)
    requires CrashesTo(crc, m, v) && MayCrashTo(m, f)
    ensures Opens(crc, f) && Recover(crc, f).value == v
  {
    hide MayCrashTo, Recover;
  }

  lemma UpKeeps(crc: Crc, s: Snap, b: Sys)
    requires Inv(crc, s) && Step(crc, Up(s), b)
    ensures SysOk(crc, b)
  {
    hide Inv, CallState, Hazardous, MayCrashTo, CloseState, Opens, Next, Alloced, CanAlloc, CurrentView, CrashesTo;
    if b.Up? {
      var call :| call != Free(MIRROR_PAGE) && b.s == Next(crc, s, call);
      NextKeeps(crc, s, call);
    } else if call, m :| CallState(crc, s, call, m) && !Hazardous(s, call) && MayCrashTo(m, b.f) {
      CallCrash(crc, s, call, m, b.f);
    } else if CanAlloc(s) && MayCrashTo(Alloced(s).dev, b.f) {
      AllocInv(crc, s);
      QuietMoment(crc, Alloced(s));
      CrashesOpen(crc, Alloced(s).dev, CurrentView(Alloced(s)), b.f);
    } else {
      var m :| CloseState(crc, s, m) && MayCrashTo(m, b.f);
      CloseCrash(crc, s, m);
      CrashesOpen(crc, m, CurrentView(s), b.f);
    }
  }

  lemma DownKeeps(crc: Crc, f: Files, b: Sys)
    requires Opens(crc, f) && Step(crc, Down(f), b)
    ensures SysOk(crc, b)
    ensures b.Up? ==> CurrentView(b.s) == Recover(crc, f).value
    ensures b.Down? ==> Recover(crc, b.f) == Recover(crc, f)
  {
    hide Inv, MayCrashTo, OpenState, OpensTo, Recover, Reopened, CurrentView, CrashesTo;
    if b.Up? {
      OpenedInv(crc, f);
    } else {
      var m :| OpenState(crc, f, m) && MayCrashTo(m, b.f);
      OpenCrash(crc, f, m);
      CrashesOpen(crc, m, Recover(crc, f).value, b.f);
    }
  }

  const NEW_FILES: Files := Files(map[], [])

  ghost predicate IsRun(crc: Crc, xs: seq<Sys>) {
    xs != [] && xs[0] == Up(Created(NEW_FILES)) && forall i | 0 <= i < |xs| - 1 :: Step(crc, xs[i], xs[i + 1])
  }

  lemma RunPrefix(crc: Crc, xs: seq<Sys>)
    requires IsRun(crc, xs) && |xs| > 1
    ensures IsRun(crc, xs[..|xs| - 1]) && Step(crc, xs[|xs| - 2], xs[|xs| - 1])
  {
    hide Step, Created;
    var n := |xs| - 1;
    var before := xs[..n];
    forall i | 0 <= i < n - 1 ensures Step(crc, before[i], before[i + 1]) {
      assert Step(crc, xs[i], xs[i + 1]);
    }
    assert Step(crc, xs[n - 1], xs[n - 1 + 1]);
  }

  /** Through calls, closings, crashes and recoveries: an open pager keeps its invariant, and files
      at rest can always be opened. */
  lemma {:induction false} RunKeeps(crc: Crc, xs: seq<Sys>)
    requires IsRun(crc, xs)
    ensures SysOk(crc, xs[|xs| - 1])
  {
    hide Inv, Step, Opens, Created;
    if |xs| == 1 {
      CreatedKeeps(crc);
    } else {
      var n := |xs| - 1;
      RunPrefix(crc, xs);
      RunKeeps(crc, xs[..n]);
      match xs[n - 1]
      case Up(s) => UpKeeps(crc, s, xs[n]);
      case Down(f) => DownKeeps(crc, f, xs[n]);
    }
  }

  /** In every reachable open pager the chain on disk visits exactly the free set, without
      repetition, as often as the header says; a crash between calls reopens to the committed
      state; and closing and opening rebuilds count, free list and pages. */
  lemma ReachableState(crc: Crc, xs: seq<Sys>)
    requires IsRun(crc, xs) && xs[|xs| - 1].Up?
    ensures var s := xs[|xs| - 1].s;
      && Walk(s.dev.files.pages, s.pageCount, s.head, {}) == Some(s.chain)
      && (forall i, j | 0 <= i < j < |s.chain| :: s.chain[i] != s.chain[j])
      && (forall id :: id in s.freeSet <==> id in s.chain)
      && |s.freeSet| == |s.chain| == s.freeCount
      && Img(s.dev.files.pages, HEADER_PAGE) == HeadImg(Hdr(s))
      && CrashesTo(crc, s.dev, CurrentView(s))
      && Recover(crc, ClosedFiles(s)).Some?
      && var t := Reopened(crc, ClosedFiles(s));
         t.pageCount == s.pageCount && t.chain == s.chain && t.freeSet == s.freeSet && t.dev.files.pages == s.dev.files.pages
  {
    assert xs != [];
    hide Inv, IsRun, Walk, CrashesTo, Recover, Reopened, CurrentView;
    RunKeeps(crc, xs);
    var s := xs[|xs| - 1].s;
    FreeListConsistent(crc, s);
    QuietMoment(crc, s);
    CloseThenOpen(crc, s);
  }

  // ----- why two calls are hazardous -----

  /** In a new file, freeing the mirror leaves a file that cannot be opened. */
  lemma MirrorFreed(crc: Crc)
    ensures Recover(crc, Next(crc, Created(NEW_FILES), Free(MIRROR_PAGE)).dev.files) == None
  {
    var s := Created(NEW_FILES);
    hide Inv, Recover, Freed;
    CreatedKeeps(crc);
    FreeReopensIff(crc, s, MIRROR_PAGE);
  }

  /** One page allocated, freed and allocated again: a crash on the way leaves a file that cannot
      be opened. */
  lemma ReuseCrashes(crc: Crc)
    ensures var s := Next(crc, Next(crc, Created(NEW_FILES), Allocate), Free(FIRST_DATA_PAGE));
      CanAlloc(s) && Recover(crc, AllocMoments(s)[1].files) == None
  {
    var s0 := Created(NEW_FILES);
    CreatedKeeps(crc);
    hide Inv, Recover, AllocMoments;
    NextKeeps(crc, s0, Allocate);
    var s1 := Next(crc, s0, Allocate);
    assert s1 == Alloced(s0);
    NextKeeps(crc, s1, Free(FIRST_DATA_PAGE));
    var s := Next(crc, s1, Free(FIRST_DATA_PAGE));
    assert s == Freed(s1, FIRST_DATA_PAGE);
    ReuseUnsafe(crc, s);
  }

  // ----- creating a file -----

  /** Whatever a crash leaves is still a new file, or opens with no page. */
  ghost predicate CreateSafe(crc: Crc, m: Device) {
    forall f | MayCrashTo(m, f) :: f == NEW_FILES || OpensTo(crc, f, CurrentView(Created(NEW_FILES)))
  }

  /** A torn mirror is neither a new file nor one that opens. */
  lemma TornCreation(crc: Crc)
    ensures MayCrashTo(CreateMoments(NEW_FILES)[0], Files(map[MIRROR_PAGE := Torn], []))
    ensures Recover(crc, Files(map[MIRROR_PAGE := Torn], [])) == None
  {
    var m := CreateMoments(NEW_FILES)[0];
    assert m.walTail[..0] == [] && m.files.wal + [] == [];
  }

  /** Of the device states of creating a file exactly the first, while the mirror header is being
      written, may leave a file that is neither new nor opens. */
  lemma CreateSafeIff(crc: Crc, i: nat)
    requires i < 4
    ensures CreateSafe(crc, CreateMoments(NEW_FILES)[i]) <==> i != 0
  {
    if i == 0 {
      hide Recover, MayCrashTo;
      TornCreation(crc);
    } else {
      forall f | MayCrashTo(CreateMoments(NEW_FILES)[i], f) ensures OpensTo(crc, f, CurrentView(Created(NEW_FILES))) {
        CreatedFiles(crc, i, f);
      }
    }
  }

  lemma CreatedFiles(crc: Crc, i: nat, f: Files)
    requires 0 < i < 4 && MayCrashTo(CreateMoments(NEW_FILES)[i], f)
    ensures OpensTo(crc, f, CurrentView(Created(NEW_FILES)))
  {
    var h := Header(2, SENTINEL, 0);
    var m := CreateMoments(NEW_FILES)[i];
    assert f.wal == [];
    SurvivesCrash(m, f, MIRROR_PAGE);
    assert Img(f.pages, HEADER_PAGE) in Choices(m, HEADER_PAGE);
    assert ChosenHeader(f) == Some(h);
    assert Walk(f.pages, 2, SENTINEL, {}) == Some([]) && Parse(crc, []) == Records([]);
    assert DataPages(Replay([], f.pages), 2, []) == map[];
  }
}
