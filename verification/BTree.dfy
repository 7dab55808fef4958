/** The on-disk B+ tree store (internal/engine/sql/kv/btree.go) over the pager. */
module BTree {
  import opened Wrappers
  import opened Bytes
  import opened Picks
  import opened SortedEntries
  import opened Tree
  import opened TreeInsert
  import opened TreeOps
  import opened TreePages
  import opened TreeScan
  import opened NodeCodec
  import opened KvPages
  import opened KvSteps
  import opened KvSpec
  import opened KvCrash
  import opened KvCreate
  import opened LeafLoops
  import opened PagerSpec
  import Pager
  import Disk
  import Wal
  import CrashSafety
  import PagerRecovery

  datatype Error =
    | ErrKeyTooLarge | ErrValueTooLarge | ErrKeyNotFound | ErrTreeCorrupt | ErrNotOpen | ErrClosed
    | PagerError(cause: Pager.Error)

  class BTreeStore {
    const pg: Pager.FilePager
    var isOpen: bool
    var closed: bool
    var rootPageId: PageId

    /** The pages of the store as decoded, and the tree they hold. */
    ghost var pages: Pages
    ghost var content: Content

    ghost predicate Valid()
      reads this, pg
    {
      isOpen && !closed && pg.Valid() && !pg.inTxn && Stored(Bodies(pg.Now()), pages, rootPageId, content)
    }

    ghost function Contents(): seq<Entry>
      reads this
    {
      EntriesIn(content)
    }

    /** Inside a transaction: the pages written so far can be read, and a crash at any moment
        from entry start on leaves `before` or `after`. */
    ghost predicate InTx(start: nat, before: seq<Entry>, after: seq<Entry>)
      reads this, pg
    {
      && isOpen && !closed && pg.Valid() && pg.inTxn && OnDisk(Bodies(pg.Now()), pages)
      && KvOpens(CurrentView(pg.Now()), before)
      && start <= |pg.moments| && KvSafeFrom(pg.crc, pg.moments, start, before, after)
    }

    function StateError(): (e: Error)
      requires !isOpen || closed
      reads this
      ensures closed <==> e == ErrClosed
      ensures !closed <==> e == ErrNotOpen
    {
      if closed then ErrClosed else ErrNotOpen
    }

    constructor (pg: Pager.FilePager)
      ensures this.pg == pg && !isOpen && !closed && rootPageId == SENTINEL
    {
      this.pg, isOpen, closed, rootPageId := pg, false, false, SENTINEL;
      pages, content := map[], Empty;
    }

    // ----- pages -----

    /** Read and decode a page of the store. */
    method ReadNode(id: PageId) returns (p: Page)
      requires pg.Valid() && OnDisk(Bodies(pg.Now()), pages) && id in pages
      ensures p == pages[id]
    {
      BodiesAllocated(pg.crc, pg.Now(), id);
      pg.NowAllocated(id);
      var body := pg.ReadPage(id);
      p := DecodePage(body.value).value;
    }

    /** Encode and write a page inside the transaction. */
    method WriteNode(id: PageId, p: Page, ghost start: nat, ghost before: seq<Entry>, ghost after: seq<Entry>)
      requires InTx(start, before, after) && Encodable(p) && id in Bodies(pg.Now())
      modifies this`pages, pg`dev, pg`moments, pg`txnBuffer, pg`walSize, pg`recs
      ensures InTx(start, before, after) && pages == old(pages)[id := p]
      ensures Bodies(pg.Now()).Keys == old(Bodies(pg.Now()).Keys) && Grew(old(pg.moments), pg.moments)
    {
      hide Inv, Bodies, CurrentView, OnDisk, KvSafeFrom, KvOpens, CrashSafety.CrashesTo, Encodable, EncodePage, Appended, Grew, WriteMoments;
      ghost var s, ms := pg.Now(), pg.moments;
      BodiesAllocated(pg.crc, s, id);
      OnDiskWrite(Bodies(s), pages, id, p);
      AppendKeeps(pg.crc, s, id, EncodePage(p).value);
      var w := pg.WritePage(id, EncodePage(p).value);
      pages := pages[id := p];
      GrewAppend(ms, pg.moments, WriteMoments(pg.crc, s, id, EncodePage(p).value));
      WritesSafe(pg.crc, ms, pg.moments, CurrentView(s), before, after);
      SafeJoin(pg.crc, ms, pg.moments, start, before, after);
    }

    method Begin(ghost start: nat, ghost after: seq<Entry>)
      requires Valid() && pg.nextTxnId + 1 < U64_LIMIT
      requires start <= |pg.moments| && KvSafeFrom(pg.crc, pg.moments, start, Contents(), after)
      modifies pg`inTxn, pg`nextTxnId, pg`currentTxn, pg`txnBuffer
      ensures InTx(start, Contents(), after) && Bodies(pg.Now()) == old(Bodies(pg.Now()))
      ensures pg.nextTxnId == old(pg.nextTxnId) + 1
    {
      hide Inv, Bodies, CurrentView, OnDisk, Held, KvSafeFrom, KvOpens, EntriesIn;
      QuietOpens(pg.Now(), pages, rootPageId, content);
      BeginKeeps(pg.crc, pg.Now());
      var b := pg.BeginTx();
    }

    /** Commit: the pages written now hold c. */
    method Commit(root: PageId, ghost c: Content, ghost start: nat, ghost before: seq<Entry>, ghost after: seq<Entry>)
      requires InTx(start, before, after) && Held(pages, root, c) && EntriesIn(c) == after
      modifies this`rootPageId, this`content, pg`dev, pg`moments, pg`inTxn, pg`currentTxn, pg`txnBuffer, pg`walSize, pg`recs
      ensures Valid() && Contents() == after && content == c
      ensures Grew(old(pg.moments), pg.moments) && KvSafeFrom(pg.crc, pg.moments, start, before, after)
    {
      hide Inv, Bodies, CurrentView, OnDisk, Held, KvSafeFrom, KvOpens, CrashSafety.CrashesTo, Committed, Grew, AtomicAt, CommitTrace, EntriesIn;
      ghost var s, ms := pg.Now(), pg.moments;
      CommitKeeps(pg.crc, s);
      CommitQuiet(s);
      var r := pg.CommitTx();
      rootPageId, content := root, c;
      QuietOpens(pg.Now(), pages, root, c);
      CommitSafe(pg.crc, s, ms, pg.moments, before, after);
      SafeJoin(pg.crc, ms, pg.moments, start, before, after);
    }

    // ----- Open and Close -----

    /** On a new pager, create the meta page; otherwise read the root from it. */
    method Open(ghost es: seq<Entry>) returns (r: Result<(), Error>)
      requires pg.state.Opened? ==> pg.Valid() && !pg.inTxn && pg.nextTxnId + 1 < U64_LIMIT
      requires !isOpen && !closed ==> rootPageId == SENTINEL
      modifies this, pg
      ensures old(closed) ==> r == Err(ErrClosed)
      ensures old(!closed && !isOpen && !pg.state.Opened?) ==> r.Err?
      ensures old(closed || isOpen || !pg.state.Opened?) ==> isOpen == old(isOpen) && closed == old(closed) && pg.Now() == old(pg.Now())
      ensures old(!closed && !isOpen && pg.state.Opened? && pg.pageCount == FIRST_DATA_PAGE) ==>
        && r.Ok? && Valid() && Contents() == [] && Grew(old(pg.moments), pg.moments)
        && forall i | old(|pg.moments|) <= i < |pg.moments| ::
             CreationSafe(pg.crc, pg.moments[i]) <==> i < old(|pg.moments|) + 4 || i > old(|pg.moments|) + 8
      ensures old(!closed && !isOpen && pg.state.Opened? && pg.pageCount != FIRST_DATA_PAGE) ==>
        && pg.Now() == old(pg.Now()) && pg.moments == old(pg.moments)
        && (r.Ok? <==> META_PAGE in Bodies(pg.Now()) && DecodeMeta(Bodies(pg.Now())[META_PAGE]).Some?)
        && (old(KvOpens(CurrentView(pg.Now()), es)) ==> r.Ok? && Valid() && Contents() == es)
    {
      hide Inv, Bodies, CurrentView, Stored, KvOpens, CreationSafe;
      if closed {
        return Err(ErrClosed);
      }
      if isOpen {
        return Ok(());
      }
      var pc := pg.PageCount();
      if pc.Err? {
        return Err(PagerError(pc.error));
      }
      if pc.value == FIRST_DATA_PAGE {
        CreateMeta();
        isOpen := true;
        return Ok(());
      }
      ghost var found := KvOpens(CurrentView(pg.Now()), es);
      if found {
        QuietBodies(pg.Now());
        var ps, root, c := OpensWith(CurrentView(pg.Now()), es);
        pages, content := ps, c;
        MetaOnDisk(Bodies(pg.Now()), ps, root, c);
      }
      if META_PAGE in Bodies(pg.Now()) {
        BodiesAllocated(pg.crc, pg.Now(), META_PAGE);
        pg.NowAllocated(META_PAGE);
      }
      var body := pg.ReadPage(META_PAGE);
      if body.Err? {
        return Err(PagerError(body.error));
      }
      var meta := DecodeMeta(body.value);
      if meta.None? {
        return Err(ErrTreeCorrupt);
      }
      rootPageId := meta.value;
      isOpen := true;
      return Ok(());
    }

    /** The first transaction of a new store. */
    method CreateMeta()
      requires pg.Valid() && !pg.inTxn && pg.nextTxnId + 1 < U64_LIMIT && pg.pageCount == FIRST_DATA_PAGE
      requires rootPageId == SENTINEL
      modifies this`pages, this`content, pg
      ensures pg.Valid() && !pg.inTxn && content == Empty && Stored(Bodies(pg.Now()), pages, rootPageId, content)
      ensures Grew(old(pg.moments), pg.moments)
      ensures forall i | old(|pg.moments|) <= i < |pg.moments| ::
        CreationSafe(pg.crc, pg.moments[i]) <==> i < old(|pg.moments|) + 4 || i > old(|pg.moments|) + 8
    {
      hide Inv, Bodies, CurrentView, EncodePage, Stored, Alloced, Begun, Appended, Committed, Grew, AtomicAt, CommitTrace, WriteMoments,
        AllocMoments, CrashSafety.CrashesTo, CreationSafe;
      ghost var s0, ms0 := pg.Now(), pg.moments;
      FreshMeta(pg.crc, s0);
      AllocKeeps(pg.crc, s0);
      AllocInv(pg.crc, s0);
      AllocTxn(s0);
      var id := pg.AllocatePage();
      ghost var s := pg.Now();
      var meta := MetaPage(SENTINEL);
      MetaEncodable(SENTINEL);
      PageRoundTrip(meta);
      ghost var image := EncodePage(meta).value;
      WriteOneKeeps(pg.crc, s, META_PAGE, image);
      var b := pg.BeginTx();
      var w := pg.WritePage(META_PAGE, EncodePage(meta).value);
      ghost var ms := pg.moments;
      var c := pg.CommitTx();
      MetaStored(Bodies(pg.Now()));
      pages, content := map[META_PAGE := meta], Empty;
      CreationTrace(pg.crc, s0, image, ms0, ms, pg.moments);
    }

    method Close() returns (r: Result<(), Error>)
      modifies this`isOpen, this`closed
      ensures r.Ok? && closed && (old(closed) ==> isOpen == old(isOpen)) && (!old(closed) ==> !isOpen)
    {
      if closed {
        return Ok(());
      }
      isOpen, closed := false, true;
      return Ok(());
    }

    // ----- Get -----

    /** The loop from the root to the leaf for k, recording the way. */
    method Descend(k: Key) returns (pageId: PageId, es: seq<Entry>, next: PageId, path: seq<PathEntry>)
      requires Valid() && content.Full?
      ensures var leaf := LeafFor(content.tree, k);
        && leaf.Leaf? && pageId == leaf.id && es == leaf.entries && next == leaf.next
        && path == PathTo(content.tree, k)
    {
      hide Inv, Bodies, Rep, ValidTree, Fits, Shaped, Ordered, Chained, Apart, Ids, PathTo, LeafFor, Roots, OnDisk, Route;
      HeldTree(pages, rootPageId, content);
      ghost var sub, h := content.tree, content.h;
      path := [];
      pageId := rootPageId;
      var page := ReadNode(pageId);
      while page.InternalPage?
        invariant Rep(pages, sub) && Shaped(sub, h, 0) && sub.id == pageId && pageId in pages && page == pages[pageId]
        invariant path + PathTo(sub, k) == PathTo(content.tree, k) && LeafFor(sub, k) == LeafFor(content.tree, k)
        decreases h
      {
        DescendStep(pages, sub, h, k);
        var idx := UpperBoundIdx(page.ptrs, page.keys, k);
        path := path + [PathEntry(pageId, idx, page.keys, page.ptrs)];
        pageId := page.ptrs[idx];
        sub, h := sub.kids[idx], h - 1;
        page := ReadNode(pageId);
      }
      DescendEnd(pages, sub, h, k);
      es, next := page.entries, page.next;
    }

    method Get(k: Key) returns (r: Result<Val, Error>)
      requires isOpen && !closed ==> Valid()
      ensures r == if !isOpen || closed then Err(StateError())
                   else match Lookup(Contents(), k)
                        case Some(v) => Ok(v)
                        case None => Err(ErrKeyNotFound)
    {
      if !isOpen || closed {
        return Err(StateError());
      }
      if rootPageId == SENTINEL {
        return Err(ErrKeyNotFound);
      }
      LeafOf(pages, rootPageId, content, k);
      hide Inv, Bodies, Rep, ValidTree, Fits, OnDisk, PathTo, LeafFor, EntriesIn;
      var _, es, _, _ := Descend(k);
      var pos := FindIn(es, k);
      if pos.Some? {
        return Ok(es[pos.value].val);
      }
      return Err(ErrKeyNotFound);
    }

    // ----- Set -----

    /** Pages for a split, allocated before the transaction. */
    method AllocateSpare(n: nat) returns (ok: bool, spare: seq<PageId>)
      requires Valid()
      modifies pg`dev, pg`moments, pg`pageCount, pg`freeListHead, pg`freeCount, pg`freeSet, pg`chain
      ensures Valid() && SpareTrace(pg.crc, old(pg.Now()), pg.Now(), old(pg.moments), pg.moments, |spare|, Contents())
      ensures ok ==> SplitSpare(pages, n, spare) && forall i | 0 <= i < n :: spare[i] in Bodies(pg.Now())
      ensures !ok ==> |spare| < n && pg.freeSet == {} && pg.pageCount * 4096 >= 0x8000_0000_0000_0000
    {
      hide Inv, Bodies, CurrentView, OnDisk, Held, SpareTrace, KvOpens, Alloced, AllocMoments, EntriesIn;
      spare := [];
      ghost var s0, ms0 := pg.Now(), pg.moments;
      SpareStart(pg.crc, s0, ms0, Contents());
      HeldMeta(pages, rootPageId, content);
      for i := 0 to n
        invariant Valid() && SpareTrace(pg.crc, s0, pg.Now(), ms0, pg.moments, i, Contents()) && SplitSpare(pages, i, spare)
        invariant forall j | 0 <= j < i :: spare[j] in Bodies(pg.Now())
      {
        ghost var s, ms := pg.Now(), pg.moments;
        var id := pg.AllocatePage();
        if id.Err? {
          return false, spare;
        }
        AllocOnDisk(pg.crc, s, pages);
        SpareStep(pg.crc, s0, s, ms0, ms, i, pages, rootPageId, content);
        spare := spare + [id.value];
      }
      return true, spare;
    }

    /** Put a separator and the new right node into the parent, or make a new root. */
    method InsertIntoParent(path: seq<PathEntry>, left: PageId, right: PageId, sep: Key, newPages: seq<PageId>,
                            ghost start: nat, ghost before: seq<Entry>, ghost after: seq<Entry>)
      returns (newRoot: PageId)
      requires InTx(start, before, after) && MayWrite(Bodies(pg.Now()).Keys, path, newPages) && |newPages| == |path| + 1
      requires WfPath(path) && StepsFit(path, More(map[], left, right, sep, newPages))
      modifies this`pages, pg`dev, pg`moments, pg`txnBuffer, pg`walSize, pg`recs
      ensures InTx(start, before, after) && Grew(old(pg.moments), pg.moments)
      ensures !Propagate(path, left, right, sep, newPages).Stuck?
      ensures pages == Applied(old(pages), Propagate(path, left, right, sep, newPages))
      ensures newRoot == NewRoot(Propagate(path, left, right, sep, newPages))
      decreases |path|, 1
    {
      hide InTx, Bodies, Encodable, Grew, StepsFit, InsertAt, TwoAt;
      StepsFitNow(path, left, right, sep, newPages);
      if |path| == 0 {
        RootEncodable(left, right, sep, newPages);
        AppliedRoot(pages, left, right, sep, newPages);
        newRoot := newPages[0];
        ghost var ms := pg.moments;
        WriteNode(newRoot, InternalPage([left, right], [sep]), start, before, after);
        ghost var ms1 := pg.moments;
        MetaEncodable(newRoot);
        WriteNode(META_PAGE, MetaPage(newRoot), start, before, after);
        GrewTrans(ms, ms1, pg.moments);
        return;
      }
      var parent := path[|path| - 1];
      if |parent.keys| < MAX_INTERNAL_KEYS {
        var newPtrs := TwoAt(parent.ptrs, parent.idx, left, right);
        var newKeys := InsertAt(parent.keys, parent.idx, sep);
        AppliedOne(pages, parent.pageId, InternalPage(newPtrs, newKeys));
        OneFits(parent.pageId, InternalPage(newPtrs, newKeys));
        WriteNode(parent.pageId, InternalPage(newPtrs, newKeys), start, before, after);
        return 0;
      }
      newRoot := SplitInternal(path, left, right, sep, newPages, start, before, after);
    }

    /** Split a full internal node and go on with its parent. */
    method SplitInternal(path: seq<PathEntry>, left: PageId, right: PageId, sep: Key, newPages: seq<PageId>,
                         ghost start: nat, ghost before: seq<Entry>, ghost after: seq<Entry>)
      returns (newRoot: PageId)
      requires InTx(start, before, after) && MayWrite(Bodies(pg.Now()).Keys, path, newPages) && |newPages| == |path| + 1 > 1
      requires WfPath(path) && |path[|path| - 1].keys| >= MAX_INTERNAL_KEYS
      requires StepsFit(path[..|path| - 1], Step(path[|path| - 1], left, right, sep, newPages))
      modifies this`pages, pg`dev, pg`moments, pg`txnBuffer, pg`walSize, pg`recs
      ensures InTx(start, before, after) && Grew(old(pg.moments), pg.moments)
      ensures !Propagate(path, left, right, sep, newPages).Stuck?
      ensures pages == Applied(old(pages), Propagate(path, left, right, sep, newPages))
      ensures newRoot == NewRoot(Propagate(path, left, right, sep, newPages))
      decreases |path|, 0
    {
      hide InTx, Bodies, Encodable, Grew, StepsFit, InsertAt, TwoAt, Applied, NewRoot;
      var parent, rest := path[|path| - 1], path[..|path| - 1];
      ghost var up := Step(parent, left, right, sep, newPages);
      StepsFitUp(rest, up);
      var newId := newPages[0];
      var allPtrs := TwoAt(parent.ptrs, parent.idx, left, right);
      var allKeys := InsertAt(parent.keys, parent.idx, sep);
      var mid := |allKeys| / 2;
      ghost var ps, ms := pages, pg.moments;
      StepsFitForget(rest, up);
      AppliedPrepend(ps, up.ups, Propagate(rest, up.left, up.right, up.sep, up.spare));
      var leftNode := InternalPage(allPtrs[..mid + 1], allKeys[..mid]);
      var rightNode := InternalPage(allPtrs[mid + 1..], allKeys[mid + 1..]);
      AppliedTwo(ps, parent.pageId, leftNode, newId, rightNode);
      TwoFits(parent.pageId, leftNode, newId, rightNode, up);
      WriteNode(parent.pageId, leftNode, start, before, after);
      ghost var ms1 := pg.moments;
      WriteNode(newId, rightNode, start, before, after);
      ghost var ms2 := pg.moments;
      GrewTrans(ms, ms1, ms2);
      newRoot := InsertIntoParent(rest, parent.pageId, newId, allKeys[mid], newPages[1..], start, before, after);
      GrewTrans(ms, ms2, pg.moments);
    }

    /** Split a full leaf around the new entry. */
    method SplitLeaf(leafId: PageId, path: seq<PathEntry>, es: seq<Entry>, next: PageId, k: Key, v: Val)
      returns (r: Result<(), Error>, ghost n: nat)
      requires Valid() && content.Full? && pg.nextTxnId + 1 < U64_LIMIT
      requires |k| <= MAX_KEY_SIZE && |v| <= MAX_VAL_SIZE
      requires LeafFor(content.tree, k) == Leaf(leafId, es, next) && path == PathTo(content.tree, k)
      requires !Found(es, k) && |es| >= MAX_LEAF_KEYS
      modifies this, pg
      ensures pg.nextTxnId <= old(pg.nextTxnId) + 1
      ensures Valid() && Contents() == if r.Ok? then Put(old(Contents()), k, v) else old(Contents())
      ensures r.Err? ==> r == Err(PagerError(Pager.ErrWriteFailed)) && pg.freeSet == {} && pg.pageCount * 4096 >= 0x8000_0000_0000_0000
      ensures n <= PagesFor(old(content), k) && (r.Ok? <==> n == PagesFor(old(content), k))
      ensures SetTrace(pg.crc, old(pg.Now()), old(pg.moments), pg.moments, n, old(Contents()), Contents())
      ensures |pg.chain| == old(|pg.chain|) - Reused(old(pg.Now()), n)
    {
      hide Inv, Bodies, CurrentView, OnDisk, Held, KvSafeFrom, KvOpens, EntriesIn, Rank, PathTo, LeafFor, Put, Found, Distinct,
        PagesFor, SetTrace, SpareTrace, Reused, Grew;
      LeafOf(pages, rootPageId, content, k);
      PathOf(pages, rootPageId, content, k);
      PagesForSplit(content, k, Leaf(leafId, es, next));
      ghost var s, ms0 := pg.Now(), pg.moments;
      var all := Merge(es, k, v);
      var ok, newPages := AllocateSpare(|path| + 2);
      n := |newPages|;
      ghost var mid, ms := pg.Now(), pg.moments;
      GrewSelf(ms);
      SpareSafe(pg.crc, s, mid, ms0, ms, n, Contents());
      if !ok {
        SetTraced(pg.crc, s, mid, ms0, ms, ms, n, Contents(), Contents());
        return Err(PagerError(Pager.ErrWriteFailed)), n;
      }
      WriteSplit(leafId, path, all, next, k, v, newPages, es, |ms0| + 6 * Reused(s, n));
      SetTraced(pg.crc, s, mid, ms0, ms, pg.moments, n, old(Contents()), Contents());
      r := Ok(());
    }

    /** The transaction of splitLeaf. */
    method WriteSplit(leafId: PageId, path: seq<PathEntry>, all: seq<Entry>, next: PageId, k: Key, v: Val,
                      newPages: seq<PageId>, ghost es: seq<Entry>, ghost start: nat)
      requires Valid() && content.Full? && pg.nextTxnId + 1 < U64_LIMIT
      requires |k| <= MAX_KEY_SIZE && |v| <= MAX_VAL_SIZE
      requires LeafFor(content.tree, k) == Leaf(leafId, es, next) && path == PathTo(content.tree, k)
      requires !Found(es, k) && |es| >= MAX_LEAF_KEYS && all == Put(es, k, v)
      requires |path| == content.h && SplitSpare(pages, content.h + 2, newPages)
      requires forall i | 0 <= i < |newPages| :: newPages[i] in Bodies(pg.Now())
      requires start <= |pg.moments| && KvSafeFrom(pg.crc, pg.moments, start, Contents(), Contents())
      modifies this, pg
      ensures pg.nextTxnId <= old(pg.nextTxnId) + 1
      ensures Valid() && Contents() == Put(old(Contents()), k, v) && Grew(old(pg.moments), pg.moments) && pg.chain == old(pg.chain)
      ensures KvSafeFrom(pg.crc, pg.moments, start, old(Contents()), Contents())
    {
      hide Inv, Bodies, CurrentView, OnDisk, Held, KvSafeFrom, KvOpens, Grew, EntriesIn, Rank, PathTo, LeafFor, Put, Found,
        Encodable, StepsFit, Shaped, Propagate, Applied, NewRoot, InTx, MayWrite, SetContent;
      ghost var c, before, after, ms := content, Contents(), Put(Contents(), k, v), pg.moments;
      SplitReady(pages, rootPageId, content, k, v, Leaf(leafId, es, next), newPages);
      SafeWiden(pg.crc, pg.moments, start, before, after);
      SplitMayWrite(Bodies(pg.Now()), pages, rootPageId, content, k, newPages);
      Begin(start, after);
      var mid := |all| / 2;
      WriteTwo(leafId, LeafPage(all[..mid], newPages[0]), newPages[0], LeafPage(all[mid..], next), start, before, after);
      ghost var ms2 := pg.moments;
      var newRoot := InsertIntoParent(path, leafId, newPages[0], all[mid].key, newPages[1..], start, before, after);
      ghost var ms3 := pg.moments;
      Commit(if newRoot != 0 then newRoot else rootPageId, SetContent(c, k, v, newPages), start, before, after);
      GrewTrans(ms, ms2, ms3);
      GrewTrans(ms, ms3, pg.moments);
    }

    /** The two halves of a split. */
    method WriteTwo(left: PageId, p: Page, right: PageId, q: Page, ghost start: nat, ghost before: seq<Entry>, ghost after: seq<Entry>)
      requires InTx(start, before, after) && Encodable(p) && Encodable(q) && left in Bodies(pg.Now()) && right in Bodies(pg.Now())
      modifies this`pages, pg`dev, pg`moments, pg`txnBuffer, pg`walSize, pg`recs
      ensures InTx(start, before, after) && pages == old(pages)[left := p][right := q]
      ensures Bodies(pg.Now()).Keys == old(Bodies(pg.Now()).Keys) && Grew(old(pg.moments), pg.moments)
    {
      hide InTx, Bodies, Encodable, Grew;
      ghost var ms := pg.moments;
      WriteNode(left, p, start, before, after);
      ghost var ms1 := pg.moments;
      WriteNode(right, q, start, before, after);
      GrewTrans(ms, ms1, pg.moments);
    }

    /** The transaction that rewrites one leaf: updateLeaf, insertIntoLeaf and deleteFromTree. */
    method WriteLeaf(leafId: PageId, es: seq<Entry>, next: PageId, ghost c: Content)
      requires Valid() && pg.nextTxnId + 1 < U64_LIMIT
      requires leafId in pages && Encodable(LeafPage(es, next)) && Held(pages[leafId := LeafPage(es, next)], rootPageId, c)
      modifies this, pg
      ensures pg.nextTxnId <= old(pg.nextTxnId) + 1
      ensures Valid() && content == c && Grew(old(pg.moments), pg.moments) && pg.chain == old(pg.chain)
      ensures KvSafeFrom(pg.crc, pg.moments, old(|pg.moments|), old(Contents()), Contents())
    {
      hide Inv, Bodies, CurrentView, Held, KvSafeFrom, KvOpens, Grew, EntriesIn, Encodable, InTx;
      ghost var start, before, after, ms := |pg.moments|, Contents(), EntriesIn(c), pg.moments;
      assert leafId in Bodies(pg.Now());
      NothingYet(pg.crc, pg.moments, before);
      SafeWiden(pg.crc, pg.moments, start, before, after);
      Begin(start, after);
      WriteNode(leafId, LeafPage(es, next), start, before, after);
      ghost var ms1 := pg.moments;
      Commit(rootPageId, c, start, before, after);
      GrewTrans(ms, ms1, pg.moments);
    }

    method SetInTree(k: Key, v: Val) returns (r: Result<(), Error>, ghost n: nat)
      requires Valid() && content.Full? && pg.nextTxnId + 1 < U64_LIMIT
      requires |k| <= MAX_KEY_SIZE && |v| <= MAX_VAL_SIZE
      modifies this, pg
      ensures pg.nextTxnId <= old(pg.nextTxnId) + 1
      ensures Valid() && Contents() == if r.Ok? then Put(old(Contents()), k, v) else old(Contents())
      ensures r.Err? ==> r == Err(PagerError(Pager.ErrWriteFailed)) && pg.freeSet == {} && pg.pageCount * 4096 >= 0x8000_0000_0000_0000
      ensures n <= PagesFor(old(content), k) && (r.Ok? <==> n == PagesFor(old(content), k))
      ensures SetTrace(pg.crc, old(pg.Now()), old(pg.moments), pg.moments, n, old(Contents()), Contents())
      ensures |pg.chain| == old(|pg.chain|) - Reused(old(pg.Now()), n)
    {
      hide Inv, Bodies, CurrentView, OnDisk, Held, KvSafeFrom, KvOpens, EntriesIn, Rank, PathTo, LeafFor, Encodable, SetTrace;
      ghost var s, ms0 := pg.Now(), pg.moments;
      var pageId, es, next, path := Descend(k);
      LeafOf(pages, rootPageId, content, k);
      var found := FindIn(es, k);
      if found.Some? || |es| < MAX_LEAF_KEYS {
        ghost var spare := NoSplitReady(pages, rootPageId, content, k, v);
        if found.Some? {
          WriteLeaf(pageId, es[found.value := Entry(k, v)], next, SetContent(content, k, v, spare));
        } else {
          var pos := InsertionPos(es, k);
          WriteLeaf(pageId, es[..pos] + [Entry(k, v)] + es[pos..], next, SetContent(content, k, v, spare));
        }
        PlainTrace(pg.crc, s, ms0, pg.moments, old(Contents()), Contents());
        return Ok(()), 0;
      }
      r, n := SplitLeaf(pageId, path, es, next, k, v);
    }

    /** The first entry: a leaf that becomes the root. */
    method SetInEmpty(k: Key, v: Val) returns (r: Result<(), Error>, ghost n: nat)
      requires Valid() && content.Empty? && pg.nextTxnId + 1 < U64_LIMIT
      requires |k| <= MAX_KEY_SIZE && |v| <= MAX_VAL_SIZE
      modifies this, pg
      ensures pg.nextTxnId <= old(pg.nextTxnId) + 1
      ensures Valid() && Contents() == if r.Ok? then Put(old(Contents()), k, v) else old(Contents())
      ensures r.Err? ==> r == Err(PagerError(Pager.ErrWriteFailed)) && pg.freeSet == {} && pg.pageCount * 4096 >= 0x8000_0000_0000_0000
      ensures n <= PagesFor(old(content), k) && (r.Ok? <==> n == PagesFor(old(content), k))
      ensures SetTrace(pg.crc, old(pg.Now()), old(pg.moments), pg.moments, n, old(Contents()), Contents())
      ensures |pg.chain| == old(|pg.chain|) - Reused(old(pg.Now()), n)
    {
      hide Inv, Bodies, CurrentView, OnDisk, Held, KvSafeFrom, KvOpens, Encodable, Distinct, Put, Rank, SetTrace, SpareTrace, Reused, Grew;
      ghost var s, ms0 := pg.Now(), pg.moments;
      var ok, leafIds := AllocateSpare(1);
      n := |leafIds|;
      ghost var mid, ms := pg.Now(), pg.moments;
      GrewSelf(ms);
      SpareSafe(pg.crc, s, mid, ms0, ms, n, Contents());
      if !ok {
        SetTraced(pg.crc, s, mid, ms0, ms, ms, n, Contents(), Contents());
        return Err(PagerError(Pager.ErrWriteFailed)), n;
      }
      WriteFirst(leafIds[0], k, v, |ms0| + 6 * Reused(s, n));
      SetTraced(pg.crc, s, mid, ms0, ms, pg.moments, n, old(Contents()), Contents());
      r := Ok(());
    }

    /** The transaction of setInEmpty. */
    method WriteFirst(leafId: PageId, k: Key, v: Val, ghost start: nat)
      requires Valid() && content.Empty? && pg.nextTxnId + 1 < U64_LIMIT
      requires |k| <= MAX_KEY_SIZE && |v| <= MAX_VAL_SIZE
      requires leafId in Bodies(pg.Now()) && 2 < leafId < SENTINEL
      requires start <= |pg.moments| && KvSafeFrom(pg.crc, pg.moments, start, Contents(), Contents())
      modifies this, pg
      ensures pg.nextTxnId <= old(pg.nextTxnId) + 1
      ensures Valid() && Contents() == Put(old(Contents()), k, v) && Grew(old(pg.moments), pg.moments) && pg.chain == old(pg.chain)
      ensures KvSafeFrom(pg.crc, pg.moments, start, old(Contents()), Contents())
    {
      hide Inv, Bodies, CurrentView, Held, KvSafeFrom, KvOpens, Grew, Put, Rank, Encodable, InTx;
      ghost var before, after, ms := Contents(), Put(Contents(), k, v), pg.moments;
      SetEmptyHeld(pages, rootPageId, leafId, k, v);
      HeldMeta(pages, rootPageId, content);
      assert META_PAGE in Bodies(pg.Now());
      SafeWiden(pg.crc, pg.moments, start, before, after);
      Begin(start, after);
      WriteNode(leafId, LeafPage([Entry(k, v)], SENTINEL), start, before, after);
      ghost var ms1 := pg.moments;
      WriteNode(META_PAGE, MetaPage(leafId), start, before, after);
      ghost var ms2 := pg.moments;
      Commit(leafId, Full(Leaf(leafId, [Entry(k, v)], SENTINEL), 0), start, before, after);
      GrewTrans(ms, ms1, ms2);
      GrewTrans(ms, ms2, pg.moments);
    }

    /** Insert or replace k. At every device state, except while a page is taken off the free list, a
        crash leaves the old contents or the new ones. */
    method Set(k: Key, v: Val) returns (r: Result<(), Error>, ghost n: nat)
      requires isOpen && !closed ==> Valid() && pg.nextTxnId + 1 < U64_LIMIT
      requires |v| <= 512 || |v| > 16777216
      modifies this, pg
      ensures pg.nextTxnId <= old(pg.nextTxnId) + 1
      ensures |k| > 63 ==> r == Err(ErrKeyTooLarge)
      ensures |k| <= 63 && |v| > 512 ==> r == Err(ErrValueTooLarge)
      ensures |k| <= 63 && |v| <= 512 && old(!isOpen || closed) ==> r == Err(old(StateError()))
      ensures |k| > 63 || |v| > 512 || old(!isOpen || closed) ==> n == 0 && pg.moments == old(pg.moments)
      ensures |k| <= 63 && |v| <= 512 && old(isOpen && !closed) ==>
        && n <= PagesFor(old(content), k) && (r.Ok? <==> n == PagesFor(old(content), k))
        && (r.Err? ==> r == Err(PagerError(Pager.ErrWriteFailed)) && pg.freeSet == {} && pg.pageCount * 4096 >= 0x8000_0000_0000_0000)
      ensures old(isOpen && !closed) ==>
        && Valid() && Contents() == (if r.Ok? then Put(old(Contents()), k, v) else old(Contents()))
        && SetTrace(pg.crc, old(pg.Now()), old(pg.moments), pg.moments, n, old(Contents()), Contents())
        && |pg.chain| == old(|pg.chain|) - Reused(old(pg.Now()), n)
    {
      hide Inv, Bodies, CurrentView, OnDisk, Held, KvSafeFrom, KvOpens, Put, Rank, EntriesIn, SetTrace, PagesFor;
      n := 0;
      if isOpen && !closed {
        NothingYet(pg.crc, pg.moments, Contents());
        PlainTrace(pg.crc, pg.Now(), pg.moments, pg.moments, Contents(), Contents());
      }
      if |k| > MAX_KEY_SIZE {
        return Err(ErrKeyTooLarge), 0;
      }
      if |v| > MAX_VAL_SIZE_ENTERPRISE {
        return Err(ErrValueTooLarge), 0;
      }
      if !isOpen || closed {
        return Err(StateError()), 0;
      }
      HeldMeta(pages, rootPageId, content);
      if rootPageId == SENTINEL {
        r, n := SetInEmpty(k, v);
      } else {
        r, n := SetInTree(k, v);
      }
    }

    // ----- Delete -----

    /** Remove k if present, without rebalancing. */
    method Delete(k: Key) returns (r: Result<(), Error>)
      requires isOpen && !closed ==> Valid() && pg.nextTxnId + 1 < U64_LIMIT
      modifies this, pg
      ensures pg.nextTxnId <= old(pg.nextTxnId) + 1
      ensures r == if old(!isOpen || closed) then Err(old(StateError())) else Ok(())
      ensures old(isOpen && !closed) ==>
        && Valid() && Contents() == Remove(old(Contents()), k) && Grew(old(pg.moments), pg.moments) && pg.chain == old(pg.chain)
        && KvSafeFrom(pg.crc, pg.moments, old(|pg.moments|), old(Contents()), Contents())
    {
      hide Inv, Bodies, CurrentView, OnDisk, Held, KvSafeFrom, KvOpens, Rank;
      if !isOpen || closed {
        return Err(StateError());
      }
      NothingYet(pg.crc, pg.moments, Contents());
      HeldMeta(pages, rootPageId, content);
      if rootPageId == SENTINEL {
        return Ok(());
      }
      DeleteFromTree(k);
      return Ok(());
    }

    /** Rewrite the leaf without the key, if the leaf has it. */
    method DeleteFromTree(k: Key)
      requires Valid() && content.Full? && pg.nextTxnId + 1 < U64_LIMIT
      modifies this, pg
      ensures pg.nextTxnId <= old(pg.nextTxnId) + 1
      ensures Valid() && Contents() == Remove(old(Contents()), k) && Grew(old(pg.moments), pg.moments) && pg.chain == old(pg.chain)
      ensures KvSafeFrom(pg.crc, pg.moments, old(|pg.moments|), old(Contents()), Contents())
    {
      hide Inv, Bodies, CurrentView, OnDisk, Held, KvSafeFrom, KvOpens, Grew, Rank, PathTo, LeafFor, Encodable, DelContent, EntriesIn, Sorted, Found, Remove, Lookup;
      NothingYet(pg.crc, pg.moments, Contents());
      DelHeld(pages, rootPageId, content, k);
      LeafOf(pages, rootPageId, content, k);
      var pageId, es, next, _ := Descend(k);
      var pos := FindIn(es, k);
      RemoveSplice(es, k);
      if pos.None? {
        return;
      }
      WriteLeaf(pageId, es[..pos.value] + es[pos.value + 1..], next, DelContent(content, k));
    }

    // ----- Scan -----

    /** The descent of Scan: leftmost for an unbounded start, routed otherwise. */
    method FindStart(start: Key) returns (pageId: PageId)
      requires Valid() && content.Full?
      ensures LeafFor(content.tree, start).Leaf? && pageId == LeafFor(content.tree, start).id
    {
      hide Inv, Bodies, Rep, ValidTree, Fits, Shaped, Ordered, Chained, Apart, Ids, PathTo, LeafFor, Roots, OnDisk, Rank;
      HeldTree(pages, rootPageId, content);
      ghost var sub, h := content.tree, content.h;
      ghost var hi := 1.0;
      pageId := rootPageId;
      var page := ReadNode(pageId);
      while page.InternalPage?
        invariant Rep(pages, sub) && Shaped(sub, h, 0) && sub.id == pageId && pageId in pages && page == pages[pageId]
        invariant LeafFor(sub, start) == LeafFor(content.tree, start)
        invariant start == [] ==> Ordered(sub, 0.0, hi)
        decreases h
      {
        DescendStep(pages, sub, h, start);
        var idx := 0;
        if |start| == 0 {
          LeftmostRoute(sub, hi);
          hi := Bounds(sub.keys, 0.0, hi)[1];
        } else {
          idx := UpperBoundIdx(page.ptrs, page.keys, start);
        }
        pageId := page.ptrs[idx];
        sub, h := sub.kids[idx], h - 1;
        page := ReadNode(pageId);
      }
      DescendEnd(pages, sub, h, start);
    }

    /** All entries with start <= key < end in key order, an empty bound meaning none. */
    method Scan(start: Key, end: Key) returns (r: Result<seq<Entry>, Error>, ghost js: seq<nat>)
      requires isOpen && !closed ==> Valid()
      ensures r == if !isOpen || closed then Err(StateError()) else Ok(Select(Contents(), start, end))
      ensures isOpen && !closed ==> r.Ok? && Picked(Contents(), js, r.value)
      ensures isOpen && !closed ==> forall n | 0 <= n < |Contents()| :: n in js <==>
        !LexLess(Contents()[n].key, start) && (end == [] || LexLess(Contents()[n].key, end))
    {
      hide Inv, Bodies, OnDisk, Held, LeafFor, EntriesIn, Select, Picked, LexLess;
      js := [];
      if !isOpen || closed {
        return Err(StateError()), [];
      }
      HeldMeta(pages, rootPageId, content);
      js := SelectPicks(Contents(), start, end);
      if rootPageId == SENTINEL {
        NothingSelected(content, start, end);
        return Ok([]), js;
      }
      var pageId := FindStart(start);
      var es := ScanLeaf(pageId, start, end);
      return Ok(es), js;
    }

    /** Follow the leaf chain, collecting until the first key at or above end. */
    method ScanLeaf(first: PageId, start: Key, end: Key) returns (results: seq<Entry>)
      requires Valid() && content.Full?
      requires LeafFor(content.tree, start).Leaf? && first == LeafFor(content.tree, start).id
      ensures results == Select(Contents(), start, end)
    {
      hide Inv, Bodies, Held, LeafFor, EntriesIn, Select, Tail, Sorted, Flat, Rank, Rep;
      ghost var ls := Tail(content.tree, start);
      ghost var i := 0;
      ScanReady(pages, rootPageId, content, start, end);
      ScanNone(start, end);
      var pageId := first;
      results := [];
      while pageId != SENTINEL && pageId != 0
        invariant 0 <= i <= |ls| && pageId == if i < |ls| then ls[i].id else SENTINEL
        invariant results == Select(Flat(ls[..i]), start, end)
        decreases |ls| - i
      {
        assert ls[i].id in pages;
        var page := ReadNode(pageId);
        RepLeaf(pages, ls[i]);
        ghost var p;
        var out, stop;
        out, stop, p := ScanPage(page.entries, start, end);
        results := results + out;
        if stop {
          ScanStopped(ls, i, p, start, end);
          return;
        }
        ScanStep(ls, i, start, end);
        pageId := page.next;
        i := i + 1;
      }
      if i < |ls| {
        BodiesAllocated(pg.crc, pg.Now(), ls[i].id);
      }
      assert ls[..|ls|] == ls;
    }
  }

  lemma NothingSelected(c: Content, start: Key, end: Key)
    requires c.Empty?
    ensures Select(EntriesIn(c), start, end) == []
  {}

  /** The entries of one leaf, up to the end of the range. */
  method ScanPage(es: seq<Entry>, start: Key, end: Key) returns (out: seq<Entry>, stop: bool, ghost p: nat)
    ensures p <= |es| && out == Select(es[..p], start, end)
    ensures if stop then p < |es| && end != [] && !LexLess(es[p].key, end) else p == |es|
  {
    hide LexLess;
    out, p := [], 0;
    for i := 0 to |es|
      invariant p == i && out == Select(es[..i], start, end)
    {
      SelectSnoc(es[..i], es[i], start, end);
      assert es[..i + 1] == es[..i] + [es[i]];
      p := i;
      if |start| > 0 && LexLess(es[i].key, start) {
        p := i + 1;
        continue;
      }
      if |end| > 0 && !LexLess(es[i].key, end) {
        return out, true, p;
      }
      out := out + [es[i]];
      p := i + 1;
    }
    return out, false, p;
  }

  /** Opening pager and store again after a crash gives what the crash left. */
  method Reopen(crc: Wal.Crc, f: Disk.Files, ghost es: seq<Entry>) returns (store: BTreeStore)
    requires PagerRecovery.Opens(crc, f) && KvOpens(Disk.Recover(crc, f).value, es)
    ensures fresh(store) && fresh(store.pg) && store.Valid() && store.Contents() == es
  {
    hide Inv, CurrentView, KvOpens, CrashSafety.OpensTo;
    OpenFiles(crc, f);
    var pg := new Pager.FilePager(crc, f);
    var o := pg.Open();
    ReopenedPages(pg.crc, pg.Now(), es);
    store := new BTreeStore(pg);
    var r := store.Open(es);
  }
}
