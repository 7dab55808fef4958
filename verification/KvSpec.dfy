/** The state of the key-value store as page bodies, and what each step does to it. */
module KvSpec {
  import opened Wrappers
  import opened Bytes
  import opened SortedEntries
  import opened Tree
  import opened TreeInsert
  import opened TreeOps
  import opened TreePages
  import opened TreeScan
  import opened NodeCodec
  import opened KvPages
  import opened KvSteps

  /** An empty store has no root; otherwise there is a tree with h internal levels. */
  datatype Content = Empty | Full(tree: Tree, h: nat)

  ghost function EntriesIn(c: Content): seq<Entry> {
    if c.Empty? then [] else Entries(c.tree)
  }

  /** Each page decodes to what ps says. */
  ghost predicate OnDisk(bodies: map<nat, Bytes>, ps: Pages) {
    forall id | id in ps :: id in bodies && DecodePage(bodies[id]) == Some(ps[id])
  }

  /** The meta page leads to a valid tree that the pages represent. */
  ghost predicate Held(ps: Pages, root: PageId, c: Content) {
    && META_PAGE in ps && ps[META_PAGE] == MetaPage(root)
    && match c
       case Empty => root == SENTINEL
       case Full(t, h) =>
         && root == t.id && root != SENTINEL
         && ValidTree(t, h) && Rep(ps, t) && Fits(t) && META_PAGE !in Ids(t)
  }

  ghost predicate Stored(bodies: map<nat, Bytes>, ps: Pages, root: PageId, c: Content) {
    OnDisk(bodies, ps) && Held(ps, root, c)
  }

  lemma HeldTree(ps: Pages, root: PageId, c: Content)
    requires Held(ps, root, c) && c.Full?
    ensures root == c.tree.id && root in ps && Rep(ps, c.tree) && ValidTree(c.tree, c.h) && Fits(c.tree)
    ensures Shaped(c.tree, c.h, 0) && Shaped(c.tree, c.h, 1) && Apart(c.tree) && Ordered(c.tree, 0.0, 1.0)
    ensures Chained(c.tree, SENTINEL) && META_PAGE !in Ids(c.tree) && Ids(c.tree) <= ps.Keys
    ensures ps[root] == PageOf(c.tree)
  {
    ShapedWeaken(c.tree, c.h, 1, 0);
    RepIds(ps, c.tree);
  }

  lemma HeldMeta(ps: Pages, root: PageId, c: Content)
    requires Held(ps, root, c)
    ensures META_PAGE in ps && ps[META_PAGE] == MetaPage(root)
    ensures c.Empty? <==> root == SENTINEL
  {}

  /** More pages, or pages outside the store, make no difference. */
  lemma OnDiskFrame(bodies: map<nat, Bytes>, more: map<nat, Bytes>, ps: Pages)
    requires OnDisk(bodies, ps) && forall id | id in ps :: id in more && more[id] == bodies[id]
    ensures OnDisk(more, ps)
  {
    hide DecodePage;
  }

  lemma OnDiskWrite(bodies: map<nat, Bytes>, ps: Pages, id: PageId, p: Page)
    requires OnDisk(bodies, ps) && Encodable(p)
    ensures EncodePage(p).Some? && OnDisk(bodies[id := EncodePage(p).value], ps[id := p])
  {
    PageRoundTrip(p);
    hide DecodePage, EncodePage, Encodable;
  }

  /** Pages outside the store's own do not affect the tree. */
  lemma RepPut(ps: Pages, id: PageId, p: Page, t: Tree)
    requires Rep(ps, t) && id !in Ids(t)
    ensures Rep(ps[id := p], t)
  {
    RepFrame(ps, map[id := p], t);
    assert ps + map[id := p] == ps[id := p];
  }

  // ----- Set -----

  /** The first entry: one leaf and the meta page. */
  lemma SetEmptyHeld(ps: Pages, root: PageId, id: PageId, k: Key, v: Val)
    requires Held(ps, root, Empty) && id != META_PAGE && id < SENTINEL
    requires |k| <= MAX_KEY_SIZE && |v| <= MAX_VAL_SIZE
    ensures var leaf := Leaf(id, [Entry(k, v)], SENTINEL);
      && Encodable(PageOf(leaf)) && Encodable(MetaPage(id))
      && Held(ps[id := PageOf(leaf)][META_PAGE := MetaPage(id)], id, Full(leaf, 0))
      && Entries(leaf) == Put([], k, v)
  {
    var leaf := Leaf(id, [Entry(k, v)], SENTINEL);
    SetEmptyCorrect(id, k, v);
    assert Fits(leaf);
    TreeEncodable(leaf, 0, 1, 0.0, 1.0);
  }

  /** The leaf that Set changes, and the pages on the way to it. */
  ghost function LeafUp(t: Tree, h: nat, k: Key, v: Val, spare: seq<PageId>): Up
    requires Shaped(t, h, 0)
  {
    PathLength(t, h, k);
    var leaf := LeafFor(t, k);
    LeafStep(leaf.id, leaf.entries, leaf.next, k, v, spare)
  }

  ghost predicate SpareOk(ps: Pages, t: Tree, h: nat, k: Key, spare: seq<PageId>) {
    && |spare| == h + 2 && Distinct(spare) && Prefix(spare, h + 2) !! ps.Keys
    && (NoSplit(t, k) || AllIdsFit(spare))
  }

  ghost function SetContent(c: Content, k: Key, v: Val, spare: seq<PageId>): Content
    requires c.Full? && Shaped(c.tree, c.h, 1) && |spare| == c.h + 2
  {
    Full(SetTree(c.tree, c.h, k, v, spare), SetHeight(c.tree, c.h, k, v, spare))
  }

  /** The pages after the steps `up` hold c2, under a new root if one is still waiting. */
  ghost predicate SetEnds(ps: Pages, root: PageId, c2: Content, up: Up, last: seq<PageId>) {
    match up
    case Stuck => false
    case Done(ups) => Held(ps + ups, root, c2)
    case More(ups, l, r, sep, sp) =>
      && sp == last && |last| == 1
      && (last[0] < SENTINEL && META_PAGE != last[0] ==>
          Held((ps + ups)[last[0] := InternalPage([l, r], [sep])][META_PAGE := MetaPage(last[0])], last[0], c2))
  }

  /** What Set does to a valid tree, whatever it has to split: the steps can all be taken, and
      the pages afterwards hold the updated tree. */
  lemma SetHeld(ps: Pages, root: PageId, c: Content, k: Key, v: Val, spare: seq<PageId>)
    requires Held(ps, root, c) && c.Full? && Shaped(c.tree, c.h, 0) && Shaped(c.tree, c.h, 1)
    requires SpareOk(ps, c.tree, c.h, k, spare)
    requires |k| <= MAX_KEY_SIZE && |v| <= MAX_VAL_SIZE
    ensures WfPath(PathTo(c.tree, k)) && StepsFit(PathTo(c.tree, k), LeafUp(c.tree, c.h, k, v, spare))
    ensures EntriesIn(SetContent(c, k, v, spare)) == Put(EntriesIn(c), k, v)
    ensures var up := Climb(PathTo(c.tree, k), LeafUp(c.tree, c.h, k, v, spare));
      SetEnds(ps, root, SetContent(c, k, v, spare), up, spare[c.h + 1..])
  {
    hide Held, Rep, ValidTree, Fits, Shaped, Apart, Ordered, Ids, Encodable, Rank, Put, Chained, PageOf,
      LeafUp, Climb, StepsFit, SetUps, Ins, OutApart, PathTo, NoSplit, Prefix, Distinct, AllIdsFit, Entries, SetEnds;
    HeldTree(ps, root, c);
    var t, h := c.tree, c.h;
    SpareParts(ps, t, h, spare);
    SetFacts(ps, t, h, k, v, spare);
    SetTreeCorrect(t, h, k, v, spare);
    SetHeldEnds(ps, root, c, k, v, spare);
  }

  lemma SetHeldEnds(ps: Pages, root: PageId, c: Content, k: Key, v: Val, spare: seq<PageId>)
    requires Held(ps, root, c) && c.Full? && Shaped(c.tree, c.h, 0) && Shaped(c.tree, c.h, 1)
    requires SpareOk(ps, c.tree, c.h, k, spare) && Fits(SetTree(c.tree, c.h, k, v, spare))
    ensures SetEnds(ps, root, SetContent(c, k, v, spare), SetUps(c.tree, c.h, k, v, spare), spare[c.h + 1..])
  {
    HeldTree(ps, root, c);
    HeldMeta(ps, root, c);
    hide Held, Rep, ValidTree, Fits, Shaped, Apart, Ordered, Ids, Rank, Put, Chained, PageOf,
      SetUps, Ins, OutApart, NoSplit, Prefix, Distinct, AllIdsFit, Entries, SetTree, SetHeight, SetContent;
    var t, h := c.tree, c.h;
    SpareParts(ps, t, h, spare);
    SetTreeCorrect(t, h, k, v, spare);
    SetUpsMatches(ps, t, h, k, v, spare);
    InsApart(t, h, k, v, spare);
    match SetUps(t, h, k, v, spare)
    case Done(ups) =>
      SetDoneHeld(ps, root, c, k, v, spare, ups);
    case More(ups, l, r, sep, sp) =>
      if spare[h + 1] < SENTINEL && META_PAGE != spare[h + 1] {
        SetMoreHeld(ps, root, c, k, v, spare, ups, sep);
      }
  }

  lemma SpareParts(ps: Pages, t: Tree, h: nat, spare: seq<PageId>)
    requires |spare| == h + 2 && Distinct(spare) && Prefix(spare, h + 2) !! ps.Keys && Ids(t) <= ps.Keys
    ensures Prefix(spare, h + 1) !! Ids(t) && Prefix(spare, h + 2) !! Ids(t)
    ensures META_PAGE in ps ==> META_PAGE !in Prefix(spare, h + 2)
    ensures spare[h + 1] !in Prefix(spare, h + 1)
  {
    assert Prefix(spare, h + 1) <= Prefix(spare, h + 2);
    SpareNotInPrefix(spare, h + 1);
  }

  lemma SetFacts(ps: Pages, t: Tree, h: nat, k: Key, v: Val, spare: seq<PageId>)
    requires Rep(ps, t) && Shaped(t, h, 0) && Shaped(t, h, 1) && Apart(t) && Ordered(t, 0.0, 1.0) && Fits(t)
    requires |spare| == h + 2 && Distinct(spare) && Prefix(spare, h + 1) !! Ids(t)
    requires (NoSplit(t, k) || AllIdsFit(spare)) && |k| <= MAX_KEY_SIZE && |v| <= MAX_VAL_SIZE
    ensures WfPath(PathTo(t, k)) && StepsFit(PathTo(t, k), LeafUp(t, h, k, v, spare))
    ensures SetUps(t, h, k, v, spare) == Climb(PathTo(t, k), LeafUp(t, h, k, v, spare))
    ensures Fits(SetTree(t, h, k, v, spare))
    ensures NoSplit(t, k) ==> Ins(t, h, k, v, spare).One?
  {
    hide Rep, Shaped, Apart, Ordered, Ids, NoSplit, LeafStep, Climb, StepsFit, Rank, Ins, Fits, Distinct, Prefix, AllIdsFit, PathTo, LeafFor;
    RankBounds(k);
    SetStepsFit(ps, t, h, k, v, spare, 0.0, 1.0);
    InsFits(t, h, k, v, spare);
    NewRootFits(t, h, k, v, spare);
  }

  lemma NewRootFits(t: Tree, h: nat, k: Key, v: Val, spare: seq<PageId>)
    requires Shaped(t, h, 0) && Shaped(t, h, 1) && |spare| == h + 2
    requires OutFits(Ins(t, h, k, v, spare)) && (Ins(t, h, k, v, spare).One? || AllIdsFit(spare))
    ensures Fits(SetTree(t, h, k, v, spare))
  {
    hide Ins, Shaped;
    var o := Ins(t, h, k, v, spare);
    if o.Two? {
      FitsNode(spare[h + 1], [o.sep], [o.left, o.right]);
    }
  }

  lemma SetDoneHeld(ps: Pages, root: PageId, c: Content, k: Key, v: Val, spare: seq<PageId>, ups: Pages)
    requires Held(ps, root, c) && c.Full? && Shaped(c.tree, c.h, 0) && Shaped(c.tree, c.h, 1) && |spare| == c.h + 2
    requires ups.Keys <= Ids(c.tree) + Prefix(spare, c.h + 1)
    requires META_PAGE !in Ids(c.tree) && META_PAGE !in Prefix(spare, c.h + 2)
    requires Ins(c.tree, c.h, k, v, spare).One?
    requires var u := Ins(c.tree, c.h, k, v, spare).t;
      Rep(ps + ups, u) && u.id == c.tree.id && Fits(SetTree(c.tree, c.h, k, v, spare))
    requires ValidTree(SetTree(c.tree, c.h, k, v, spare), SetHeight(c.tree, c.h, k, v, spare))
    requires Ids(SetTree(c.tree, c.h, k, v, spare)) <= Ids(c.tree) + Prefix(spare, c.h + 2)
    ensures Held(ps + ups, root, SetContent(c, k, v, spare))
  {
    assert META_PAGE !in ups by {
      assert Prefix(spare, c.h + 1) <= Prefix(spare, c.h + 2);
    }
    hide Rep, ValidTree, Fits, Shaped, Ids, Prefix, Ins;
  }

  lemma SetMoreHeld(ps: Pages, root: PageId, c: Content, k: Key, v: Val, spare: seq<PageId>, ups: Pages, sep: Key)
    requires Held(ps, root, c) && c.Full? && Shaped(c.tree, c.h, 0) && Shaped(c.tree, c.h, 1) && |spare| == c.h + 2
    requires ups.Keys <= Ids(c.tree) + Prefix(spare, c.h + 1)
    requires META_PAGE !in Ids(c.tree) && META_PAGE !in Prefix(spare, c.h + 2)
    requires Prefix(spare, c.h + 2) !! Ids(c.tree) && spare[c.h + 1] !in Prefix(spare, c.h + 1)
    requires Ins(c.tree, c.h, k, v, spare).Two? && Ins(c.tree, c.h, k, v, spare).sep == sep
    requires var o := Ins(c.tree, c.h, k, v, spare);
      && Rep(ps + ups, o.left) && Rep(ps + ups, o.right)
      && OutApart(o, Ids(c.tree) + Prefix(spare, c.h + 1))
    requires Fits(SetTree(c.tree, c.h, k, v, spare))
    requires ValidTree(SetTree(c.tree, c.h, k, v, spare), SetHeight(c.tree, c.h, k, v, spare))
    requires Ids(SetTree(c.tree, c.h, k, v, spare)) <= Ids(c.tree) + Prefix(spare, c.h + 2)
    requires spare[c.h + 1] < SENTINEL && META_PAGE != spare[c.h + 1]
    ensures var o := Ins(c.tree, c.h, k, v, spare);
      Held((ps + ups)[spare[c.h + 1] := InternalPage([o.left.id, o.right.id], [sep])]
                     [META_PAGE := MetaPage(spare[c.h + 1])], spare[c.h + 1], SetContent(c, k, v, spare))
  {
    hide ValidTree, Fits, Shaped, Ids, Prefix, Ins, OutApart, Rep, SetHeight, SetTree, Held;
    var o, id := Ins(c.tree, c.h, k, v, spare), spare[c.h + 1];
    NewRootIds(c.tree, c.h, spare, o);
    SetTreeTwo(c.tree, c.h, k, v, spare);
    NewRootPages(ps + ups, id, o.left, sep, o.right);
    var u := SetTree(c.tree, c.h, k, v, spare);
    assert META_PAGE !in Ids(u);
    HeldIntro((ps + ups)[id := InternalPage([o.left.id, o.right.id], [sep])], id, u, SetHeight(c.tree, c.h, k, v, spare));
  }

  lemma SetTreeTwo(t: Tree, h: nat, k: Key, v: Val, spare: seq<PageId>)
    requires Shaped(t, h, 0) && Shaped(t, h, 1) && |spare| == h + 2 && Ins(t, h, k, v, spare).Two?
    ensures var o := Ins(t, h, k, v, spare);
      SetTree(t, h, k, v, spare) == Node(spare[h + 1], [o.sep], [o.left, o.right])
  {
    hide Ins, Shaped;
  }

  lemma HeldIntro(ps: Pages, root: PageId, t: Tree, h: nat)
    requires root == t.id && root != SENTINEL && ValidTree(t, h) && Fits(t) && META_PAGE !in Ids(t)
    requires Rep(ps[META_PAGE := MetaPage(root)], t)
    ensures Held(ps[META_PAGE := MetaPage(root)], root, Full(t, h))
  {
    hide Rep, ValidTree, Fits, Ids;
  }

  lemma NewRootIds(t: Tree, h: nat, spare: seq<PageId>, o: Outcome)
    requires |spare| == h + 2 && o.Two? && OutApart(o, Ids(t) + Prefix(spare, h + 1))
    requires Prefix(spare, h + 2) !! Ids(t) && spare[h + 1] !in Prefix(spare, h + 1)
    requires META_PAGE !in Ids(t) && META_PAGE !in Prefix(spare, h + 2)
    ensures spare[h + 1] !in Ids(o.left) && spare[h + 1] !in Ids(o.right)
    ensures META_PAGE !in Ids(o.left) && META_PAGE !in Ids(o.right)
  {
    assert spare[h + 1] in Prefix(spare, h + 2);
    assert Prefix(spare, h + 1) <= Prefix(spare, h + 2);
    hide Ids, Prefix, Apart;
  }

  /** A new root over two trees, and the meta page. */
  lemma NewRootPages(qs: Pages, id: PageId, l: Tree, sep: Key, r: Tree)
    requires Rep(qs, l) && Rep(qs, r) && id != META_PAGE
    requires id !in Ids(l) && id !in Ids(r) && META_PAGE !in Ids(l) && META_PAGE !in Ids(r)
    ensures Rep(qs[id := InternalPage([l.id, r.id], [sep])][META_PAGE := MetaPage(id)], Node(id, [sep], [l, r]))
  {
    assert Roots([l, r]) == [l.id, r.id];
    hide Ids;
    var p := InternalPage([l.id, r.id], [sep]);
    RepPut(qs, id, p, l);
    RepPut(qs, id, p, r);
    RepPut(qs[id := p], META_PAGE, MetaPage(id), l);
    RepPut(qs[id := p], META_PAGE, MetaPage(id), r);
    hide Rep;
    RepNode(qs[id := p][META_PAGE := MetaPage(id)], id, [sep], [l, r]);
  }

  // ----- Delete -----

  ghost function DelContent(c: Content, k: Key): Content {
    if c.Empty? then Empty else Full(Del(c.tree, k), c.h)
  }

  lemma DelHeld(ps: Pages, root: PageId, c: Content, k: Key)
    requires Held(ps, root, c) && c.Full?
    ensures LeafFor(c.tree, k).Leaf?
    ensures EntriesIn(DelContent(c, k)) == Remove(EntriesIn(c), k)
    ensures var leaf := LeafFor(c.tree, k);
      var p := LeafPage(Remove(leaf.entries, k), leaf.next);
      && leaf.id in ps && leaf.id != META_PAGE && Encodable(p) && Held(ps[leaf.id := p], root, DelContent(c, k))
      && (!Found(leaf.entries, k) ==> DelContent(c, k) == c)
  {
    HeldTree(ps, root, c);
    RankBounds(k);
    hide Held, Rep, ValidTree, Fits, Shaped, Apart, Ordered, Ids, Del, Remove, LeafFor, Encodable, Rank, Chained, PageOf, Found, Entries;
    var t, h := c.tree, c.h;
    DelMatches(ps, t, h, k);
    DelTreeCorrect(t, h, k);
    DelFits(t, k);
    DelLeafEncodable(t, h, k, 0.0, 1.0);
    var leaf := LeafFor(t, k);
    if !Found(leaf.entries, k) {
      DelAbsent(t, h, k);
    }
    DelPages(ps, root, c, leaf.id, LeafPage(Remove(leaf.entries, k), leaf.next), Del(t, k));
  }

  lemma DelPages(ps: Pages, root: PageId, c: Content, id: PageId, p: Page, u: Tree)
    requires Held(ps, root, c) && c.Full? && id in Ids(c.tree) && u.id == c.tree.id
    requires Rep(ps + map[id := p], u) && ValidTree(u, c.h) && Fits(u) && Ids(u) <= Ids(c.tree)
    ensures id != META_PAGE && Held(ps[id := p], root, Full(u, c.h))
  {
    hide Rep, ValidTree, Fits, Ids;
    assert ps + map[id := p] == ps[id := p];
  }

  // ----- the descent -----

  /** One step of the descent towards the leaf for k. */
  lemma DescendStep(ps: Pages, t: Tree, h: nat, k: Key)
    requires Rep(ps, t) && Shaped(t, h, 0) && ps[t.id].InternalPage?
    ensures t.Node? && h > 0 && |t.kids| == |t.keys| + 1
    ensures ps[t.id] == InternalPage(Roots(t.kids), t.keys)
    ensures var kid := t.kids[Route(t.keys, k)];
      && Rep(ps, kid) && Shaped(kid, h - 1, 0) && kid.id in ps && Roots(t.kids)[Route(t.keys, k)] == kid.id
      && PathTo(t, k) == [PathEntry(t.id, Route(t.keys, k), t.keys, Roots(t.kids))] + PathTo(kid, k)
      && LeafFor(t, k) == LeafFor(kid, k)
  {
    ShapedWeaken(t.kids[Route(t.keys, k)], h - 1, MIN_INTERNAL_KEYS, 0);
  }

  lemma DescendEnd(ps: Pages, t: Tree, h: nat, k: Key)
    requires Rep(ps, t) && Shaped(t, h, 0) && !ps[t.id].InternalPage?
    ensures t.Leaf? && ps[t.id] == LeafPage(t.entries, t.next) && LeafFor(t, k) == t && PathTo(t, k) == []
  {}

  lemma {:induction false} LeafSorted(t: Tree, h: nat, k: Key, lo: real, hi: real)
    requires Shaped(t, h, 0) && Ordered(t, lo, hi) && lo <= Rank(k) < hi && Fits(t)
    ensures LeafFor(t, k).Leaf? && Sorted(LeafFor(t, k).entries) && LeafFor(t, k).id in Ids(t)
    decreases h
  {
    PathLength(t, h, k);
    if t.Node? {
      var i := Route(t.keys, k);
      ShapedWeaken(t.kids[i], h - 1, MIN_INTERNAL_KEYS, 0);
      KidOrdered(t, k, lo, hi);
      LeafSorted(t.kids[i], h - 1, k, Bounds(t.keys, lo, hi)[i], Bounds(t.keys, lo, hi)[i + 1]);
    }
  }

  /** What search finds in the leaf is what the sorted slice holds. */
  lemma {:induction false} LeafLookup(t: Tree, h: nat, k: Key)
    requires Shaped(t, h, 0)
    ensures LeafFor(t, k).Leaf? && Find(t, k) == Lookup(LeafFor(t, k).entries, k)
    decreases h
  {
    PathLength(t, h, k);
    if t.Node? {
      var i := Route(t.keys, k);
      ShapedWeaken(t.kids[i], h - 1, MIN_INTERNAL_KEYS, 0);
      LeafLookup(t.kids[i], h - 1, k);
    }
  }

  lemma LeafOf(ps: Pages, root: PageId, c: Content, k: Key)
    requires Held(ps, root, c) && c.Full?
    ensures var leaf := LeafFor(c.tree, k);
      && leaf.Leaf? && Sorted(leaf.entries) && leaf.id in ps && leaf.id != META_PAGE
      && Lookup(leaf.entries, k) == Lookup(EntriesIn(c), k)
  {
    HeldTree(ps, root, c);
    RankBounds(k);
    LeafSorted(c.tree, c.h, k, 0.0, 1.0);
    LeafLookup(c.tree, c.h, k);
    FindIsLookup(c.tree, k, 0.0, 1.0);
  }

  lemma {:induction false} PathIds(t: Tree, k: Key)
    ensures forall i | 0 <= i < |PathTo(t, k)| :: PathTo(t, k)[i].pageId in Ids(t)
  {
    if t.Node? && Route(t.keys, k) < |t.kids| {
      PathIds(t.kids[Route(t.keys, k)], k);
    }
  }

  lemma PathOf(ps: Pages, root: PageId, c: Content, k: Key)
    requires Held(ps, root, c) && c.Full?
    ensures |PathTo(c.tree, k)| == c.h
    ensures forall i | 0 <= i < |PathTo(c.tree, k)| :: PathTo(c.tree, k)[i].pageId in ps
  {
    HeldTree(ps, root, c);
    hide Held, Shaped, Rep, Ids, PathTo;
    PathLength(c.tree, c.h, k);
    PathIds(c.tree, k);
  }

  /** The pages that Set allocates: one for the first leaf, none when the leaf is only rewritten,
      and one per level and two more for a split. */
  ghost function PagesFor(c: Content, k: Key): nat {
    if c.Empty? then 1 else if NoSplit(c.tree, k) then 0 else c.h + 2
  }

  /** A Set allocates one page in an empty store, none where the leaf of the key has room or the key,
      and else one for the leaf, one for each level above it and one for a new root. */
  lemma PagesForIs(c: Content, k: Key)
    ensures c.Empty? ==> PagesFor(c, k) == 1
    ensures c.Full? && LeafFor(c.tree, k).Leaf? ==>
      var es := LeafFor(c.tree, k).entries; PagesFor(c, k) == if Found(es, k) || |es| < 7 then 0 else c.h + 2
  {
    hide LeafFor, Found;
  }

  lemma PagesForSplit(c: Content, k: Key, leaf: Tree)
    requires c.Full? && LeafFor(c.tree, k) == leaf && leaf.Leaf? && !Found(leaf.entries, k) && |leaf.entries| >= MAX_LEAF_KEYS
    ensures PagesFor(c, k) == c.h + 2
  {
    hide LeafFor, Found;
  }

  // ----- a Set that splits -----

  /** The pages set aside: new, distinct, and real page ids. */
  ghost predicate SplitSpare(ps: Pages, n: nat, spare: seq<PageId>) {
    && |spare| == n && Distinct(spare)
    && forall i | 0 <= i < n :: spare[i] !in ps && 2 < spare[i] < SENTINEL
  }

  /** What splitLeaf hands to insertIntoParent, and where it ends. */
  lemma SplitReady(ps: Pages, root: PageId, c: Content, k: Key, v: Val, leaf: Tree, spare: seq<PageId>)
    requires Held(ps, root, c) && c.Full? && leaf.Leaf? && LeafFor(c.tree, k) == leaf
    requires !Found(leaf.entries, k) && |leaf.entries| >= MAX_LEAF_KEYS
    requires SplitSpare(ps, c.h + 2, spare) && |k| <= MAX_KEY_SIZE && |v| <= MAX_VAL_SIZE
    ensures var all := Put(leaf.entries, k, v);
      var mid := |all| / 2;
      var path := PathTo(c.tree, k);
      var up := More(map[], leaf.id, spare[0], all[mid].key, spare[1..]);
      && Encodable(LeafPage(all[..mid], spare[0])) && Encodable(LeafPage(all[mid..], leaf.next))
      && WfPath(path) && StepsFit(path, up)
      && var end := Propagate(path, leaf.id, spare[0], all[mid].key, spare[1..]);
         !end.Stuck? ==>
           && Shaped(c.tree, c.h, 1) && EntriesIn(SetContent(c, k, v, spare)) == Put(EntriesIn(c), k, v)
           && Held(Applied(ps[leaf.id := LeafPage(all[..mid], spare[0])][spare[0] := LeafPage(all[mid..], leaf.next)], end),
                   if NewRoot(end) == 0 then root else NewRoot(end), SetContent(c, k, v, spare))
  {
    HeldTree(ps, root, c);
    LeafOf(ps, root, c, k);
    assert META_PAGE in ps by { hide ValidTree, Rep, Fits; }
    hide Held, Rep, ValidTree, Fits, Shaped, Apart, Ordered, Ids, Encodable, Rank, Put, Chained, PageOf, Sorted, Lookup, Found,
      Climb, StepsFit, SetUps, Ins, PathTo, Prefix, Distinct, Entries, LeafFor, Propagate, Applied, SetContent, EntriesIn, SetEnds;
    SplitSpareOk(ps, c.tree, c.h, k, spare);
    SetHeld(ps, root, c, k, v, spare);
    var all := Put(leaf.entries, k, v);
    var mid, path := |all| / 2, PathTo(c.tree, k);
    var l, r := LeafPage(all[..mid], spare[0]), LeafPage(all[mid..], leaf.next);
    var up := LeafUp(c.tree, c.h, k, v, spare);
    assert up == More(map[leaf.id := l][spare[0] := r], leaf.id, spare[0], all[mid].key, spare[1..]);
    StepsFitUp(path, up);
    TwoFits(leaf.id, l, spare[0], r, up);
    StepsFitForget(path, up);
    var end := Propagate(path, leaf.id, spare[0], all[mid].key, spare[1..]);
    ClimbMore(path, up);
    AppliedTwo(ps, leaf.id, l, spare[0], r);
    AppliedPrepend(ps, up.ups, end);
    AppliedEnd(ps, root, SetContent(c, k, v, spare), Climb(path, up), spare[c.h + 1..]);
  }

  /** The pages a propagation may write are allocated. */
  ghost predicate MayWrite(ids: set<PageId>, path: seq<PathEntry>, newPages: seq<PageId>) {
    && (forall i | 0 <= i < |path| :: path[i].pageId in ids)
    && (forall i | 0 <= i < |newPages| :: newPages[i] in ids && newPages[i] < U64_LIMIT)
    && (forall i, j | 0 <= i < |path| && 0 <= j < |newPages| :: path[i].pageId != newPages[j])
    && META_PAGE in ids
  }

  lemma SplitMayWrite(bodies: map<nat, Bytes>, ps: Pages, root: PageId, c: Content, k: Key, spare: seq<PageId>)
    requires OnDisk(bodies, ps) && Held(ps, root, c) && c.Full? && SplitSpare(ps, c.h + 2, spare)
    requires forall i | 0 <= i < |spare| :: spare[i] in bodies
    ensures LeafFor(c.tree, k).id in bodies && spare[0] in bodies
    ensures MayWrite(bodies.Keys, PathTo(c.tree, k), spare[1..])
  {
    HeldMeta(ps, root, c);
    LeafOf(ps, root, c, k);
    PathOf(ps, root, c, k);
    hide Held, PathTo, LeafFor, DecodePage, Lookup, Sorted;
  }

  lemma ClimbMore(path: seq<PathEntry>, up: Up)
    requires WfPath(path) && up.More?
    ensures Climb(path, up) == Prepend(up.ups, Propagate(path, up.left, up.right, up.sep, up.spare))
  {}

  lemma AppliedEnd(ps: Pages, root: PageId, c2: Content, up: Up, last: seq<PageId>)
    requires SetEnds(ps, root, c2, up, last) && |last| == 1 && 2 < last[0] < SENTINEL
    ensures Held(Applied(ps, up), if NewRoot(up) == 0 then root else NewRoot(up), c2)
  {
    hide Held;
  }

  lemma SplitSpareOk(ps: Pages, t: Tree, h: nat, k: Key, spare: seq<PageId>)
    requires SplitSpare(ps, h + 2, spare)
    ensures SpareOk(ps, t, h, k, spare)
  {
    hide Distinct, NoSplit;
    assert Prefix(spare, h + 2) !! ps.Keys;
  }

  // ----- spare pages for a Set that does not split -----

  ghost function Above(s: set<nat>): (n: nat)
    ensures forall x | x in s :: x < n
  {
    if s == {} then 0
    else
      var x :| x in s;
      var n := Above(s - {x});
      assert s == (s - {x}) + {x};
      if n > x then n else x + 1
  }

  lemma SpareExists(ps: Pages, t: Tree, h: nat, k: Key) returns (spare: seq<PageId>)
    requires NoSplit(t, k)
    ensures SpareOk(ps, t, h, k, spare)
  {
    var n := Above(ps.Keys);
    spare := seq(h + 2, i => n + i);
  }

  /** Rewriting the leaf with the new entry is all a Set without a split does. */
  lemma NoSplitReady(ps: Pages, root: PageId, c: Content, k: Key, v: Val) returns (spare: seq<PageId>)
    requires Held(ps, root, c) && c.Full? && NoSplit(c.tree, k)
    requires |k| <= MAX_KEY_SIZE && |v| <= MAX_VAL_SIZE
    ensures |spare| == c.h + 2 && Shaped(c.tree, c.h, 1)
    ensures var leaf := LeafFor(c.tree, k);
      && leaf.Leaf? && Encodable(LeafPage(Put(leaf.entries, k, v), leaf.next))
      && Held(ps[leaf.id := LeafPage(Put(leaf.entries, k, v), leaf.next)], root, SetContent(c, k, v, spare))
    ensures EntriesIn(SetContent(c, k, v, spare)) == Put(EntriesIn(c), k, v)
  {
    HeldTree(ps, root, c);
    hide Held, Rep, ValidTree, Fits, Shaped, Apart, Ordered, Ids, Encodable, Rank, Put, Chained, PageOf, Found, NoSplit,
      SetUps, Ins, PathTo, Prefix, Distinct, Entries, Propagate, SetContent, EntriesIn, LeafFor, LeafUp, StepsFit, SpareOk, AllIdsFit;
    spare := SpareExists(ps, c.tree, c.h, k);
    SpareSize(ps, c.tree, c.h, k, spare);
    SetHeld(ps, root, c, k, v, spare);
    NoSplitUp(c.tree, c.h, k, v, spare);
    var leaf := LeafFor(c.tree, k);
    var p := LeafPage(Put(leaf.entries, k, v), leaf.next);
    StepsFitUp(PathTo(c.tree, k), LeafUp(c.tree, c.h, k, v, spare));
    OneFits(leaf.id, p);
    assert ps + map[leaf.id := p] == ps[leaf.id := p];
  }

  lemma SpareSize(ps: Pages, t: Tree, h: nat, k: Key, spare: seq<PageId>)
    requires SpareOk(ps, t, h, k, spare)
    ensures |spare| == h + 2
  {}

  lemma NoSplitUp(t: Tree, h: nat, k: Key, v: Val, spare: seq<PageId>)
    requires Shaped(t, h, 0) && NoSplit(t, k)
    ensures LeafFor(t, k).Leaf?
    ensures LeafUp(t, h, k, v, spare) == Done(map[LeafFor(t, k).id := LeafPage(Put(LeafFor(t, k).entries, k, v), LeafFor(t, k).next)])
  {
    hide Shaped, Put, Found, LeafFor;
  }

  // ----- Scan -----

  /** With no lower bound, routing and going leftmost agree. */
  lemma LeftmostRoute(t: Tree, hi: real)
    requires t.Node? && Ordered(t, 0.0, hi)
    ensures Route(t.keys, []) == 0 && t.kids != [] && Ordered(t.kids[0], 0.0, Bounds(t.keys, 0.0, hi)[1])
  {
    var bs := Bounds(t.keys, 0.0, hi);
    if t.keys != [] {
      assert bs[0] < bs[1];
      RankBounds([]);
      RankIsLexOrder([], t.keys[0]);
    }
  }

  lemma RepLeaf(ps: Pages, t: Tree)
    requires t.Leaf? && Rep(ps, t)
    ensures ps[t.id] == LeafPage(t.entries, t.next)
  {}

  /** The chain that Scan follows, and what it holds. */
  lemma ScanReady(ps: Pages, root: PageId, c: Content, start: Key, end: Key)
    requires Held(ps, root, c) && c.Full?
    ensures var ls := Tail(c.tree, start);
      && ls != [] && ls[0] == LeafFor(c.tree, start) && Linked(ls, SENTINEL) && OnPages(ps, ls) && Sorted(Flat(ls))
      && Select(Flat(ls), start, end) == Select(EntriesIn(c), start, end)
  {
    HeldTree(ps, root, c);
    hide Held, Rep, Shaped, Chained, Tail, Flat, LeafFor, Ordered, Select, Linked, OnPages, Entries;
    RankBounds(start);
    TailLinked(c.tree, c.h, start, SENTINEL);
    TailOnPages(ps, c.tree, start);
    RangeInTail(c.tree, start, end);
    TailSplit(c.tree, start, 0.0, 1.0);
    ContentsSorted(c.tree, c.h);
    SortedSuffix(Skipped(c.tree, start), Flat(Tail(c.tree, start)));
  }

  lemma SortedSuffix(a: seq<Entry>, b: seq<Entry>)
    requires Sorted(a + b)
    ensures Sorted(b)
  {
    hide Rank;
    forall i, j | 0 <= i < j < |b| ensures Rank(b[i].key) < Rank(b[j].key) {
      assert b[i] == (a + b)[|a| + i] && b[j] == (a + b)[|a| + j];
    }
  }
}
