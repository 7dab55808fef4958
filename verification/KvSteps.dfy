/** What Set and Delete write, page by page: every page can be encoded when it is written, and
    the pages afterwards hold the updated tree. */
module KvSteps {
  import opened Bytes
  import opened SortedEntries
  import opened Tree
  import opened TreeInsert
  import opened TreeOps
  import opened TreePages
  import opened NodeCodec
  import opened KvPages

  ghost predicate PagesFit(ps: Pages) {
    forall id | id in ps :: Encodable(ps[id])
  }

  /** The pages a step writes can be encoded, and so can a root made of what waits. */
  ghost predicate UpFits(up: Up) {
    match up
    case Stuck => false
    case Done(ups) => PagesFit(ups)
    case More(ups, l, r, sep, _) => PagesFit(ups) && l < U64_LIMIT && r < U64_LIMIT && |sep| <= MAX_KEY_SIZE
  }

  /** Each step of the propagation finds its spare page and writes encodable pages. */
  ghost predicate StepsFit(path: seq<PathEntry>, up: Up)
    requires WfPath(path)
    decreases |path|
  {
    UpFits(up) &&
    (up.More? && path != [] ==>
      StepsFit(path[..|path| - 1], Step(path[|path| - 1], up.left, up.right, up.sep, up.spare)))
  }

  /** One more entry at the top of the path. */
  lemma {:induction false} StepsFitFirst(e: PathEntry, path: seq<PathEntry>, up: Up)
    requires WfEntry(e) && WfPath(path) && StepsFit(path, up)
    requires var c := Climb(path, up); c.More? ==> UpFits(Step(e, c.left, c.right, c.sep, c.spare))
    ensures WfPath([e] + path) && StepsFit([e] + path, up)
    decreases |path|
  {
    hide WfEntry, UpFits, Step;
    var whole := [e] + path;
    assert forall i | 0 <= i < |path| :: path[i] == whole[i + 1];
    if up.More? {
      if path == [] {
        assert whole[..0] == [];
      } else {
        var n := |path| - 1;
        var next := Step(path[n], up.left, up.right, up.sep, up.spare);
        assert whole[..n + 1] == [e] + path[..n] && whole[n + 1] == path[n];
        StepsFitFirst(e, path[..n], next);
      }
    }
  }

  // ----- the pages after a propagation -----

  /** All pages written, with a new root and the meta page if two nodes are left at the top. */
  ghost function Applied(ps: Pages, up: Up): Pages {
    match up
    case Stuck => ps
    case Done(ups) => ps + ups
    case More(ups, l, r, sep, sp) =>
      if sp == [] then ps + ups
      else (ps + ups)[sp[0] := InternalPage([l, r], [sep])][META_PAGE := MetaPage(sp[0])]
  }

  /** The root page to remember, or 0 when the root stays. */
  ghost function NewRoot(up: Up): PageId {
    if up.More? && up.spare != [] then up.spare[0] else 0
  }

  lemma AppliedPrepend(ps: Pages, ups: Pages, up: Up)
    ensures Applied(ps, Prepend(ups, up)) == if up.Stuck? then ps else Applied(ps + ups, up)
    ensures NewRoot(Prepend(ups, up)) == NewRoot(up)
  {
    if !up.Stuck? { MapUnionAssoc(ps, ups, up.ups); }
  }

  lemma AppliedRoot(ps: Pages, left: PageId, right: PageId, sep: Key, spare: seq<PageId>)
    requires spare != []
    ensures Applied(ps, More(map[], left, right, sep, spare))
         == ps[spare[0] := InternalPage([left, right], [sep])][META_PAGE := MetaPage(spare[0])]
  {
    assert ps + map[] == ps;
  }

  lemma AppliedOne(ps: Pages, id: PageId, p: Page)
    ensures Applied(ps, Done(map[id := p])) == ps[id := p]
  {
    assert ps + map[id := p] == ps[id := p];
  }

  lemma AppliedTwo(ps: Pages, a: PageId, p: Page, b: PageId, q: Page)
    ensures ps + map[a := p][b := q] == ps[a := p][b := q]
  {}

  lemma RootEncodable(left: PageId, right: PageId, sep: Key, spare: seq<PageId>)
    requires UpFits(More(map[], left, right, sep, spare))
    ensures Encodable(InternalPage([left, right], [sep]))
  {
    assert Ascends([sep]);
  }

  lemma StepsFitUp(path: seq<PathEntry>, up: Up)
    requires WfPath(path) && StepsFit(path, up)
    ensures UpFits(up)
  {}

  lemma StepsFitNow(path: seq<PathEntry>, left: PageId, right: PageId, sep: Key, spare: seq<PageId>)
    requires WfPath(path) && StepsFit(path, More(map[], left, right, sep, spare))
    ensures UpFits(More(map[], left, right, sep, spare))
    ensures path != [] ==>
      var next := Step(path[|path| - 1], left, right, sep, spare);
      StepsFit(path[..|path| - 1], next) && UpFits(next)
  {}

  lemma MetaEncodable(root: PageId)
    requires root < U64_LIMIT
    ensures Encodable(MetaPage(root))
  {}

  lemma OneFits(id: PageId, p: Page)
    requires UpFits(Done(map[id := p]))
    ensures Encodable(p)
  {
    hide Encodable;
    assert id in map[id := p];
  }

  lemma TwoFits(a: PageId, p: Page, b: PageId, q: Page, up: Up)
    requires UpFits(up) && up.More? && up.ups == map[a := p][b := q] && a != b
    ensures Encodable(p) && Encodable(q)
  {
    hide Encodable;
    assert a in up.ups && b in up.ups;
  }

  /** What has been written already does not matter for the steps to come. */
  lemma StepsFitForget(path: seq<PathEntry>, up: Up)
    requires WfPath(path) && StepsFit(path, up) && up.More?
    ensures StepsFit(path, More(map[], up.left, up.right, up.sep, up.spare))
  {
    hide Step, Encodable;
  }

  lemma StepPages(t: Tree, i: nat, l: Tree, sep: Key, r: Tree, spare: seq<PageId>)
    requires t.Node? && |t.kids| == |t.keys| + 1 && i < |t.kids| && spare != []
    ensures
      var out := NodeIns(t.id, t.keys, t.kids, i, Two(l, sep, r), spare[0]);
      var next := Step(EntryOf(t, i), l.id, r.id, sep, spare);
      match out
      case One(u) => next == Done(map[t.id := PageOf(u)])
      case Two(a, s, b) =>
        && next.More? && next.ups == map[t.id := PageOf(a)][spare[0] := PageOf(b)]
        && next.left == a.id && next.right == b.id && next.sep == s
  {
    var ts := TwoAt(t.kids, i, l, r);
    RootsTwoAt(t.kids, i, l, r);
    if |t.keys| >= MAX_INTERNAL_KEYS {
      RootsSlice(ts, (|t.keys| + 1) / 2 + 1);
    }
    hide TwoAt, InsertAt, Roots;
  }

  /** What an outcome needs for its pages to be encoded. */
  ghost predicate OutEncodable(out: Outcome) {
    match out
    case One(t) => Encodable(PageOf(t))
    case Two(l, sep, r) =>
      && Encodable(PageOf(l)) && Encodable(PageOf(r))
      && l.id < U64_LIMIT && r.id < U64_LIMIT && |sep| <= MAX_KEY_SIZE
  }

  lemma OutIsEncodable(out: Outcome, h: nat, least: nat, lo: real, hi: real)
    requires OutOrdered(out, lo, hi) && OutShaped(out, h, least) && OutFits(out)
    ensures OutEncodable(out)
  {
    match out
    case One(t) =>
      hide Ordered, Shaped, Fits, Encodable, Rank;
      TreeEncodable(t, h, least, lo, hi);
    case Two(l, sep, r) =>
      assert l.id < U64_LIMIT && r.id < U64_LIMIT;
      hide Ordered, Shaped, Fits, Encodable, Rank;
      TreeEncodable(l, h, MIN_INTERNAL_KEYS, lo, Rank(sep));
      TreeEncodable(r, h, MIN_INTERNAL_KEYS, Rank(sep), hi);
  }

  lemma InsEncodable(t: Tree, h: nat, k: Key, v: Val, spare: seq<PageId>, lo: real, hi: real)
    requires Shaped(t, h, 0) && h < |spare| && Ordered(t, lo, hi) && lo <= Rank(k) < hi
    requires Fits(t) && (NoSplit(t, k) || AllIdsFit(spare)) && |k| <= MAX_KEY_SIZE && |v| <= MAX_VAL_SIZE
    ensures OutEncodable(Ins(t, h, k, v, spare))
  {
    hide Ordered, Shaped, Fits, Rank, Ins, OutOrdered, OutShaped, OutFits, OutEncodable, NoSplit;
    InsOrdered(t, h, k, v, spare, lo, hi);
    InsShaped(t, h, k, v, spare, 0);
    InsFits(t, h, k, v, spare);
    OutIsEncodable(Ins(t, h, k, v, spare), h, 0, lo, hi);
  }

  /** Every page Set writes can be encoded, and no split lacks a page. */
  lemma {:induction false} SetStepsFit(ps: Pages, t: Tree, h: nat, k: Key, v: Val, spare: seq<PageId>, lo: real, hi: real)
    requires Rep(ps, t) && Shaped(t, h, 0) && Apart(t) && Ordered(t, lo, hi) && lo <= Rank(k) < hi && Fits(t)
    requires h < |spare| && Distinct(spare) && Prefix(spare, h + 1) !! Ids(t) && (NoSplit(t, k) || AllIdsFit(spare))
    requires |k| <= MAX_KEY_SIZE && |v| <= MAX_VAL_SIZE
    ensures WfPath(PathTo(t, k)) && LeafFor(t, k).Leaf?
    ensures var leaf := LeafFor(t, k);
      StepsFit(PathTo(t, k), LeafStep(leaf.id, leaf.entries, leaf.next, k, v, spare))
    decreases h
  {
    PathWf(t, h, k);
    PathLength(t, h, k);
    InsEncodable(t, h, k, v, spare, lo, hi);
    hide Ins, LeafIns, NodeIns, LeafStep, Shaped, Rank, Rep, Ids, IdsOf, Prefix, Apart, Distinct, OutEncodable, Ordered, Fits, Bounds, Route;
    if t.Leaf? {
      InsLeaf(t, h, k, v, spare);
      LeafStepFits(t, k, v, spare);
    } else {
      InsNode(t, h, k, v, spare);
      var i := Route(t.keys, k);
      var kid := t.kids[i];
      KidFacts(ps, t, h, i, spare);
      KidOrdered(t, k, lo, hi);
      SetStepsFit(ps, kid, h - 1, k, v, spare, Bounds(t.keys, lo, hi)[i], Bounds(t.keys, lo, hi)[i + 1]);
      SetUpsMatches(ps, kid, h - 1, k, v, spare);
      PathStep(t, k);
      NodeStepFits(t, h, i, SetUps(kid, h - 1, k, v, spare), Ins(kid, h - 1, k, v, spare), ps, spare);
      StepsFitTop(t, h, k, v, spare);
    }
  }

  lemma KidOrdered(t: Tree, k: Key, lo: real, hi: real)
    requires t.Node? && Ordered(t, lo, hi) && lo <= Rank(k) < hi && Fits(t) && Route(t.keys, k) < |t.kids|
    ensures var i, bs := Route(t.keys, k), Bounds(t.keys, lo, hi);
      Ordered(t.kids[i], bs[i], bs[i + 1]) && bs[i] <= Rank(k) < bs[i + 1] && Fits(t.kids[i])
  {
    RouteBounds(t.keys, k, lo, hi);
    hide Rank;
  }

  lemma PathStep(t: Tree, k: Key)
    requires t.Node? && Route(t.keys, k) < |t.kids|
    ensures PathTo(t, k) == [EntryOf(t, Route(t.keys, k))] + PathTo(t.kids[Route(t.keys, k)], k)
    ensures LeafFor(t, k) == LeafFor(t.kids[Route(t.keys, k)], k)
  {}

  lemma LeafStepFits(t: Tree, k: Key, v: Val, spare: seq<PageId>)
    requires t.Leaf? && spare != []
    requires OutEncodable(LeafIns(t.id, t.entries, t.next, k, v, spare[0]))
    ensures StepsFit([], LeafStep(t.id, t.entries, t.next, k, v, spare))
  {
    hide Put, Found, Encodable;
  }

  lemma NodeStepFits(t: Tree, h: nat, i: nat, up: Up, out: Outcome, ps: Pages, spare: seq<PageId>)
    requires t.Node? && |t.kids| == |t.keys| + 1 && i < |t.kids| && 0 < h < |spare|
    requires UpMatches(ps, up, out, t.kids[i], h - 1, spare)
    requires OutEncodable(NodeIns(t.id, t.keys, t.kids, i, out, spare[h]))
    ensures WfEntry(EntryOf(t, i))
    ensures up.More? ==> UpFits(Step(EntryOf(t, i), up.left, up.right, up.sep, up.spare))
  {
    hide Encodable, Rep, Step, NodeIns, PageOf;
    if up.More? {
      var rest := spare[h..];
      assert rest[0] == spare[h];
      StepPages(t, i, out.left, out.sep, out.right, rest);
    }
  }

  lemma StepsFitTop(t: Tree, h: nat, k: Key, v: Val, spare: seq<PageId>)
    requires t.Node? && Shaped(t, h, 0) && Route(t.keys, k) < |t.kids| && h > 0
    requires Shaped(t.kids[Route(t.keys, k)], h - 1, 0)
    requires var kid := t.kids[Route(t.keys, k)];
      && WfPath(PathTo(kid, k)) && LeafFor(kid, k).Leaf? && PathTo(t, k) == [EntryOf(t, Route(t.keys, k))] + PathTo(kid, k)
      && StepsFit(PathTo(kid, k), LeafStep(LeafFor(kid, k).id, LeafFor(kid, k).entries, LeafFor(kid, k).next, k, v, spare))
      && WfEntry(EntryOf(t, Route(t.keys, k)))
      && var up := SetUps(kid, h - 1, k, v, spare);
         up.More? ==> UpFits(Step(EntryOf(t, Route(t.keys, k)), up.left, up.right, up.sep, up.spare))
    ensures WfPath(PathTo(t, k)) && LeafFor(t, k) == LeafFor(t.kids[Route(t.keys, k)], k)
    ensures var leaf := LeafFor(t, k);
      StepsFit(PathTo(t, k), LeafStep(leaf.id, leaf.entries, leaf.next, k, v, spare))
  {
    var kid := t.kids[Route(t.keys, k)];
    var leaf := LeafFor(kid, k);
    assert LeafFor(t, k) == leaf;
    hide LeafFor, PathTo, LeafStep, StepsFit, UpFits, Step, WfEntry, Climb, Shaped;
    StepsFitFirst(EntryOf(t, Route(t.keys, k)), PathTo(kid, k), LeafStep(leaf.id, leaf.entries, leaf.next, k, v, spare));
  }

  // ----- Delete -----

  /** Rewriting the one leaf that may hold the key performs Delete on the tree. */
  lemma {:induction false} DelMatches(ps: Pages, t: Tree, h: nat, k: Key)
    requires Rep(ps, t) && Shaped(t, h, 0) && Apart(t)
    ensures LeafFor(t, k).Leaf? && LeafFor(t, k).id in Ids(t)
    ensures Rep(ps + map[LeafFor(t, k).id := LeafPage(Remove(LeafFor(t, k).entries, k), LeafFor(t, k).next)], Del(t, k))
    ensures Del(t, k).id == t.id
    decreases h
  {
    PathLength(t, h, k);
    if t.Node? {
      var i := Route(t.keys, k);
      var kid := t.kids[i];
      ShapedWeaken(kid, h - 1, MIN_INTERNAL_KEYS, 0);
      DelMatches(ps, kid, h - 1, k);
      var leaf := LeafFor(kid, k);
      assert leaf.id in Ids(t);
      hide Remove, Shaped, PathTo;
      NodeStepDone(ps, t, i, map[leaf.id := LeafPage(Remove(leaf.entries, k), leaf.next)], Del(kid, k), {});
    } else {
      hide Remove;
    }
  }

  /** Deleting a key that its leaf does not hold changes nothing. */
  lemma {:induction false} DelAbsent(t: Tree, h: nat, k: Key)
    requires Shaped(t, h, 0) && LeafFor(t, k).Leaf? && !Found(LeafFor(t, k).entries, k)
    ensures Del(t, k) == t
    decreases h
  {
    if t.Node? {
      var i := Route(t.keys, k);
      ShapedWeaken(t.kids[i], h - 1, MIN_INTERNAL_KEYS, 0);
      DelAbsent(t.kids[i], h - 1, k);
      assert t.kids[i := t.kids[i]] == t.kids;
    }
  }

  lemma {:induction false} DelLeafEncodable(t: Tree, h: nat, k: Key, lo: real, hi: real)
    requires Shaped(t, h, 0) && Ordered(t, lo, hi) && lo <= Rank(k) < hi && Fits(t)
    ensures LeafFor(t, k).Leaf?
    ensures Encodable(LeafPage(Remove(LeafFor(t, k).entries, k), LeafFor(t, k).next))
    decreases h
  {
    PathLength(t, h, k);
    hide Rank, Encodable, Remove;
    if t.Node? {
      var i := Route(t.keys, k);
      ShapedWeaken(t.kids[i], h - 1, MIN_INTERNAL_KEYS, 0);
      KidOrdered(t, k, lo, hi);
      DelLeafEncodable(t.kids[i], h - 1, k, Bounds(t.keys, lo, hi)[i], Bounds(t.keys, lo, hi)[i + 1]);
    } else {
      LeafRemove(t.entries, k, lo, hi);
      RemoveFits(t.entries, k);
      var u := Leaf(t.id, Remove(t.entries, k), t.next);
      assert |u.entries| <= |t.entries| by { RemoveSmaller(t.entries, k); }
      TreeEncodable(u, 0, 0, lo, hi);
    }
  }

  lemma RemoveSmaller(es: seq<Entry>, k: Key)
    ensures |Remove(es, k)| <= |es|
  {}
}
