/** Trees on pages: how node pages represent a tree, and the source's split propagation
    (leaf split, insertIntoParent, splitInternal) on those pages, shown to do what insertion
    does to the tree. */
module TreePages {
  import opened Bytes
  import opened SortedEntries
  import opened Tree
  import opened TreeInsert

  /** The decoded body of a page of the key-value store. */
  datatype Page =
    | LeafPage(entries: seq<Entry>, next: PageId)
    | InternalPage(ptrs: seq<PageId>, keys: seq<Key>)
    | MetaPage(root: PageId)

  type Pages = map<PageId, Page>

  function Roots(ts: seq<Tree>): (ids: seq<PageId>)
    ensures |ids| == |ts|
  {
    seq(|ts|, i requires 0 <= i < |ts| => ts[i].id)
  }

  ghost predicate Rep(ps: Pages, t: Tree) {
    t.id in ps &&
    match t
    case Leaf(id, es, next) => ps[id] == LeafPage(es, next)
    case Node(id, keys, kids) =>
      ps[id] == InternalPage(Roots(kids), keys) && forall i | 0 <= i < |kids| :: Rep(ps, kids[i])
  }

  ghost predicate RepAll(ps: Pages, ts: seq<Tree>) {
    forall i | 0 <= i < |ts| :: Rep(ps, ts[i])
  }

  /** Writes outside a tree's pages do not affect it. */
  lemma {:induction false} RepFrame(ps: Pages, ups: Pages, t: Tree)
    requires Rep(ps, t) && ups.Keys !! Ids(t)
    ensures Rep(ps + ups, t)
  {
    match t
    case Leaf(_, _, _) =>
    case Node(id, keys, kids) =>
      forall i | 0 <= i < |kids| ensures Rep(ps + ups, kids[i]) {
        assert Ids(kids[i]) <= Ids(t);
        RepFrame(ps, ups, kids[i]);
      }
  }

  lemma {:induction false} RepIds(ps: Pages, t: Tree)
    requires Rep(ps, t)
    ensures Ids(t) <= ps.Keys
  {
    match t
    case Leaf(_, _, _) =>
    case Node(id, keys, kids) =>
      forall i | 0 <= i < |kids| ensures Ids(kids[i]) <= ps.Keys {
        RepIds(ps, kids[i]);
      }
  }

  // ----- descending -----

  /** One step of the descent: the page, the child taken, and the page's contents. */
  datatype PathEntry = PathEntry(pageId: PageId, idx: nat, keys: seq<Key>, ptrs: seq<PageId>)

  ghost function LeafFor(t: Tree, k: Key): Tree {
    match t
    case Leaf(_, _, _) => t
    case Node(_, keys, kids) => if Route(keys, k) < |kids| then LeafFor(kids[Route(keys, k)], k) else t
  }

  ghost function PathTo(t: Tree, k: Key): seq<PathEntry> {
    match t
    case Leaf(_, _, _) => []
    case Node(id, keys, kids) =>
      var i := Route(keys, k);
      if i < |kids| then [PathEntry(id, i, keys, Roots(kids))] + PathTo(kids[i], k) else []
  }

  lemma {:induction false} PathLength(t: Tree, h: nat, k: Key)
    requires Shaped(t, h, 0)
    ensures |PathTo(t, k)| == h
    ensures LeafFor(t, k).Leaf?
    decreases h
  {
    match t
    case Leaf(_, _, _) =>
    case Node(_, keys, kids) =>
      var i := Route(keys, k);
      ShapedWeaken(kids[i], h - 1, MIN_INTERNAL_KEYS, 0);
      PathLength(kids[i], h - 1, k);
  }

  // ----- split propagation, as the source does it -----

  /** Pages to write, and either nothing more to do, or two nodes waiting to be put into a
      parent together with the pages still spare. Stuck: a split found no spare page. */
  datatype Up =
    | Done(ups: Pages)
    | More(ups: Pages, left: PageId, right: PageId, sep: Key, spare: seq<PageId>)
    | Stuck

  function Prepend(ups: Pages, up: Up): Up {
    match up
    case Done(more) => Done(ups + more)
    case More(more, l, r, s, sp) => More(ups + more, l, r, s, sp)
    case Stuck => Stuck
  }

  predicate WfEntry(e: PathEntry) {
    e.idx < |e.ptrs| == |e.keys| + 1
  }

  /** insertIntoInternal, or splitInternal when the node is full. */
  function Step(e: PathEntry, left: PageId, right: PageId, sep: Key, spare: seq<PageId>): Up
    requires WfEntry(e)
  {
    var ks, ptrs := InsertAt(e.keys, e.idx, sep), TwoAt(e.ptrs, e.idx, left, right);
    if |e.keys| < MAX_INTERNAL_KEYS then Done(map[e.pageId := InternalPage(ptrs, ks)])
    else if spare == [] then Stuck
    else
      var mid := |ks| / 2;
      More(map[e.pageId := InternalPage(ptrs[..mid + 1], ks[..mid])]
              [spare[0] := InternalPage(ptrs[mid + 1..], ks[mid + 1..])],
           e.pageId, spare[0], ks[mid], spare[1..])
  }

  predicate WfPath(path: seq<PathEntry>) {
    forall i | 0 <= i < |path| :: WfEntry(path[i])
  }

  /** insertIntoParent, from the bottom of the path upwards. */
  function Propagate(path: seq<PathEntry>, left: PageId, right: PageId, sep: Key, spare: seq<PageId>): Up
    requires WfPath(path)
  {
    if path == [] then More(map[], left, right, sep, spare)
    else
      match Step(path[|path| - 1], left, right, sep, spare)
      case Done(ups) => Done(ups)
      case Stuck => Stuck
      case More(ups, l, r, s, sp) => Prepend(ups, Propagate(path[..|path| - 1], l, r, s, sp))
  }

  /** The leaf's share of Set: rewrite it, or split it. */
  function LeafStep(id: PageId, es: seq<Entry>, next: PageId, k: Key, v: Val, spare: seq<PageId>): Up {
    var all := Put(es, k, v);
    if Found(es, k) || |es| < MAX_LEAF_KEYS then Done(map[id := LeafPage(all, next)])
    else if spare == [] then Stuck
    else
      var mid := |all| / 2;
      More(map[id := LeafPage(all[..mid], spare[0])][spare[0] := LeafPage(all[mid..], next)],
           id, spare[0], all[mid].key, spare[1..])
  }

  /** Put what is still waiting into one more parent. */
  function AndThen(up: Up, e: PathEntry): Up
    requires WfEntry(e)
  {
    match up
    case More(ups, l, r, s, sp) => Prepend(ups, Step(e, l, r, s, sp))
    case _ => up
  }

  function Climb(path: seq<PathEntry>, up: Up): Up
    requires WfPath(path)
  {
    match up
    case More(ups, l, r, s, sp) => Prepend(ups, Propagate(path, l, r, s, sp))
    case _ => up
  }

  lemma PrependAssoc(a: Pages, b: Pages, up: Up)
    ensures Prepend(a, Prepend(b, up)) == Prepend(a + b, up)
  {
    match up
    case Done(c) => assert a + (b + c) == (a + b) + c;
    case More(c, _, _, _, _) => assert a + (b + c) == (a + b) + c;
    case Stuck =>
  }

  lemma PrependNone(up: Up)
    ensures Prepend(map[], up) == up
  {
    if up.Done? || up.More? { assert map[] + up.ups == up.ups; }
  }

  lemma AndThenPrepend(ups: Pages, up: Up, e: PathEntry)
    requires WfEntry(e)
    ensures AndThen(Prepend(ups, up), e) == Prepend(ups, AndThen(up, e))
  {
    hide Step, WfEntry;
    if up.More? {
      PrependAssoc(ups, up.ups, Step(e, up.left, up.right, up.sep, up.spare));
    }
  }

  lemma PropagateOne(e: PathEntry, left: PageId, right: PageId, sep: Key, spare: seq<PageId>)
    requires WfEntry(e)
    ensures WfPath([e]) && Propagate([e], left, right, sep, spare) == Step(e, left, right, sep, spare)
  {
    hide Step, WfEntry;
    var path := [e];
    assert path[..|path| - 1] == [];
    match Step(e, left, right, sep, spare)
    case Done(_) =>
    case Stuck =>
    case More(ups, l, r, s, sp) =>
      assert Propagate([], l, r, s, sp) == More(map[], l, r, s, sp);
      assert ups + map[] == ups;
  }

  lemma PropagateNone(left: PageId, right: PageId, sep: Key, spare: seq<PageId>)
    ensures Propagate([], left, right, sep, spare) == More(map[], left, right, sep, spare)
  {}

  lemma PropagateLast(path: seq<PathEntry>, left: PageId, right: PageId, sep: Key, spare: seq<PageId>)
    requires WfPath(path) && path != []
    ensures var n := |path| - 1;
      && WfEntry(path[n]) && WfPath(path[..n])
      && Propagate(path, left, right, sep, spare) ==
           match Step(path[n], left, right, sep, spare)
           case Done(ups) => Done(ups)
           case Stuck => Stuck
           case More(ups, l, r, s, sp) => Prepend(ups, Propagate(path[..n], l, r, s, sp))
  {
    hide Step, WfEntry;
  }

  /** Propagating up a path that starts at e ends with the step at e. */
  lemma {:induction false} PropagateFirst(e: PathEntry, path: seq<PathEntry>, left: PageId, right: PageId, sep: Key, spare: seq<PageId>)
    requires WfEntry(e) && WfPath(path)
    ensures WfPath([e] + path)
    ensures Propagate([e] + path, left, right, sep, spare) == AndThen(Propagate(path, left, right, sep, spare), e)
    decreases |path|
  {
    hide Step, WfEntry, Propagate, Prepend;
    var whole := [e] + path;
    assert whole[0] == e;
    assert forall i | 0 <= i < |path| :: path[i] == whole[i + 1];
    if path == [] {
      assert whole == [e];
      PropagateOne(e, left, right, sep, spare);
      PropagateNone(left, right, sep, spare);
      PrependNone(Step(e, left, right, sep, spare));
    } else {
      var n := |path| - 1;
      assert whole[|whole| - 1] == path[n];
      assert whole[..|whole| - 1] == [e] + path[..n];
      PropagateLast(path, left, right, sep, spare);
      PropagateLast(whole, left, right, sep, spare);
      match Step(path[n], left, right, sep, spare)
      case Done(_) =>
      case Stuck =>
      case More(ups, l, r, s, sp) =>
        PropagateFirst(e, path[..n], l, r, s, sp);
        AndThenPrepend(ups, Propagate(path[..n], l, r, s, sp), e);
    }
  }

  lemma ClimbFirst(e: PathEntry, path: seq<PathEntry>, up: Up)
    requires WfEntry(e) && WfPath(path)
    ensures WfPath([e] + path)
    ensures Climb([e] + path, up) == AndThen(Climb(path, up), e)
  {
    hide Step, Propagate, WfEntry;
    var whole := [e] + path;
    assert whole[0] == e;
    assert forall i | 0 <= i < |path| :: path[i] == whole[i + 1];
    if up.More? {
      PropagateFirst(e, path, up.left, up.right, up.sep, up.spare);
      AndThenPrepend(up.ups, Propagate(path, up.left, up.right, up.sep, up.spare), e);
    }
  }

  // ----- the propagation refines insertion into the tree -----

  lemma {:induction false} PathWf(t: Tree, h: nat, k: Key)
    requires Shaped(t, h, 0)
    ensures WfPath(PathTo(t, k))
    decreases h
  {
    match t
    case Leaf(_, _, _) =>
    case Node(id, keys, kids) =>
      var i := Route(keys, k);
      ShapedWeaken(kids[i], h - 1, MIN_INTERNAL_KEYS, 0);
      PathWf(kids[i], h - 1, k);
  }

  /** What Set writes below (and not counting) a new root. */
  ghost function SetUps(t: Tree, h: nat, k: Key, v: Val, spare: seq<PageId>): Up
    requires Shaped(t, h, 0)
  {
    PathWf(t, h, k);
    PathLength(t, h, k);
    var leaf := LeafFor(t, k);
    Climb(PathTo(t, k), LeafStep(leaf.id, leaf.entries, leaf.next, k, v, spare))
  }

  /** The outcome is on the pages, and what waits for a parent is what the outcome says. */
  ghost predicate UpMatches(ps: Pages, up: Up, out: Outcome, t: Tree, h: nat, spare: seq<PageId>)
    requires h < |spare|
  {
    match up
    case Stuck => false
    case Done(ups) =>
      out.One? && Rep(ps + ups, out.t) && out.t.id == t.id
    case More(ups, l, r, sep, sp) =>
      && out.Two? && Rep(ps + ups, out.left) && Rep(ps + ups, out.right)
      && l == out.left.id == t.id && r == out.right.id == spare[h] && sep == out.sep
      && sp == spare[h + 1..]
  }

  ghost function UpKeys(up: Up): set<PageId> {
    if up.Stuck? then {} else up.ups.Keys
  }

  lemma RepNode(ps: Pages, id: PageId, keys: seq<Key>, ts: seq<Tree>)
    requires RepAll(ps, ts) && id in ps && ps[id] == InternalPage(Roots(ts), keys)
    ensures Rep(ps, Node(id, keys, ts))
  {}

  lemma RootsTwoAt(ts: seq<Tree>, i: nat, l: Tree, r: Tree)
    requires i < |ts|
    ensures Roots(TwoAt(ts, i, l, r)) == TwoAt(Roots(ts), i, l.id, r.id)
  {}

  lemma RootsSlice(ts: seq<Tree>, m: nat)
    requires m <= |ts|
    ensures Roots(ts[..m]) == Roots(ts)[..m] && Roots(ts[m..]) == Roots(ts)[m..]
  {}

  lemma RepTwoAt(ps: Pages, ts: seq<Tree>, i: nat, l: Tree, r: Tree)
    requires i < |ts| && RepAll(ps, ts[..i]) && RepAll(ps, ts[i + 1..])
    requires Rep(ps, l) && Rep(ps, r)
    ensures RepAll(ps, TwoAt(ts, i, l, r))
  {
    hide Rep;
    var us := TwoAt(ts, i, l, r);
    forall j | 0 <= j < |us| ensures Rep(ps, us[j]) {
      if j < i {
        assert us[j] == ts[..i][j];
      } else if j > i + 1 {
        assert us[j] == ts[i + 1..][j - i - 2];
      }
    }
  }

  lemma RepFrameAll(ps: Pages, ups: Pages, ts: seq<Tree>)
    requires RepAll(ps, ts) && ups.Keys !! IdsOf(ts)
    ensures RepAll(ps + ups, ts)
  {
    forall i | 0 <= i < |ts| ensures Rep(ps + ups, ts[i]) {
      ElemIds(ts, i);
      RepFrame(ps, ups, ts[i]);
    }
  }

  /** Writes below the i-th child leave the other children alone. */
  lemma SiblingsKept(ps: Pages, ups: Pages, t: Tree, i: nat, extra: set<PageId>)
    requires t.Node? && Apart(t) && Rep(ps, t) && i < |t.kids|
    requires extra !! Ids(t) && ups.Keys <= Ids(t.kids[i]) + extra
    ensures RepAll(ps + ups, t.kids[..i]) && RepAll(ps + ups, t.kids[i + 1..])
    ensures t.id !in ups.Keys
  {
    var kids := t.kids;
    assert Ids(t) == {t.id} + IdsOf(kids);
    ElemIds(kids, i);
    forall j | 0 <= j < |kids| && j != i ensures Rep(ps + ups, kids[j]) {
      ElemIds(kids, j);
      assert Ids(kids[j]) !! Ids(kids[i]);
      RepFrame(ps, ups, kids[j]);
    }
    hide Rep;
    var a, b := kids[..i], kids[i + 1..];
    assert forall j | 0 <= j < |a| :: a[j] == kids[j];
    assert forall j | 0 <= j < |b| :: b[j] == kids[i + 1 + j];
  }

  lemma MapUnionAssoc(a: Pages, b: Pages, c: Pages)
    ensures a + (b + c) == (a + b) + c
  {}

  ghost function EntryOf(t: Tree, i: nat): PathEntry
    requires t.Node?
  {
    PathEntry(t.id, i, t.keys, Roots(t.kids))
  }

  /** Nothing waits: the node's own page stays as it is. */
  lemma NodeStepDone(ps: Pages, t: Tree, i: nat, ups: Pages, c: Tree, extra: set<PageId>)
    requires t.Node? && Apart(t) && Rep(ps, t) && i < |t.kids|
    requires extra !! Ids(t) && ups.Keys <= Ids(t.kids[i]) + extra
    requires Rep(ps + ups, c) && c.id == t.kids[i].id
    ensures Rep(ps + ups, Node(t.id, t.keys, t.kids[i := c]))
  {
    SiblingsKept(ps, ups, t, i, extra);
    var kids, us := t.kids, t.kids[i := c];
    assert Roots(us) == Roots(kids);
    var a, b := kids[..i], kids[i + 1..];
    assert (ps + ups)[t.id] == InternalPage(Roots(us), t.keys);
    assert RepAll(ps + ups, us) by {
      hide Rep, Apart, Ids, Roots;
      forall j | 0 <= j < |us| ensures Rep(ps + ups, us[j]) {
        if j < i {
          assert us[j] == a[j];
        } else if j > i {
          assert us[j] == b[j - i - 1];
        }
      }
    }
    RepNode(ps + ups, t.id, t.keys, us);
  }

  /** The result of a step at node t over pages ps, against the outcome for the tree. */
  ghost predicate StepMatches(ps: Pages, up: Up, out: Outcome, id: PageId, spare: seq<PageId>)
    requires spare != []
  {
    match up
    case Stuck => false
    case Done(more) => out.One? && Rep(ps + more, out.t) && out.t.id == id && more.Keys == {id}
    case More(more, a, b, s, sp) =>
      && out.Two? && Rep(ps + more, out.left) && Rep(ps + more, out.right)
      && a == out.left.id == id && b == out.right.id == spare[0] && s == out.sep && sp == spare[1..]
      && more.Keys == {id, spare[0]}
  }

  /** Two nodes wait: they go into the node, which is split when it was full. */
  lemma NodeStepMore(ps: Pages, t: Tree, i: nat, ups: Pages, l: Tree, sep: Key, r: Tree, spare: seq<PageId>, extra: set<PageId>)
    requires t.Node? && Apart(t) && Rep(ps, t) && |t.kids| == |t.keys| + 1 && i < |t.kids|
    requires spare != [] && (extra + {spare[0]}) !! Ids(t) && spare[0] !in extra
    requires ups.Keys <= Ids(t.kids[i]) + extra
    requires Rep(ps + ups, l) && Rep(ps + ups, r) && OutApart(Two(l, sep, r), Ids(t.kids[i]) + extra)
    ensures StepMatches(ps + ups, Step(EntryOf(t, i), l.id, r.id, sep, spare),
                        NodeIns(t.id, t.keys, t.kids, i, Two(l, sep, r), spare[0]), t.id, spare)
  {
    SplicedKids(ps, t, i, ups, l, sep, r, spare[0], extra);
    hide Apart, Rep, Ids, IdsOf, RepAll, ApartAll, OutApart, TwoAt, InsertAt, Roots;
    SpliceStep(ps + ups, t, i, l, sep, r, spare);
  }

  lemma SpliceStep(ps: Pages, t: Tree, i: nat, l: Tree, sep: Key, r: Tree, spare: seq<PageId>)
    requires t.Node? && |t.kids| == |t.keys| + 1 && i < |t.kids| && spare != []
    requires var ts := TwoAt(t.kids, i, l, r);
      RepAll(ps, ts) && ApartAll(ts) && t.id !in IdsOf(ts) && spare[0] !in IdsOf(ts) && t.id != spare[0]
    ensures StepMatches(ps, Step(EntryOf(t, i), l.id, r.id, sep, spare),
                        NodeIns(t.id, t.keys, t.kids, i, Two(l, sep, r), spare[0]), t.id, spare)
  {
    hide Rep, RepAll, Apart, ApartAll, Ids, IdsOf, Distinct;
    var ks, ts := InsertAt(t.keys, i, sep), TwoAt(t.kids, i, l, r);
    RootsTwoAt(t.kids, i, l, r);
    if |t.keys| < MAX_INTERNAL_KEYS {
      WriteNode(ps, map[t.id := InternalPage(Roots(ts), ks)], t.id, ks, ts);
    } else {
      WriteHalves(ps, t.id, ks, ts, |ks| / 2, spare[0]);
    }
  }

  lemma SplicedKids(ps: Pages, t: Tree, i: nat, ups: Pages, l: Tree, sep: Key, r: Tree, spare: PageId, extra: set<PageId>)
    requires t.Node? && Apart(t) && Rep(ps, t) && i < |t.kids|
    requires (extra + {spare}) !! Ids(t) && spare !in extra
    requires ups.Keys <= Ids(t.kids[i]) + extra
    requires Rep(ps + ups, l) && Rep(ps + ups, r) && OutApart(Two(l, sep, r), Ids(t.kids[i]) + extra)
    ensures var ts := TwoAt(t.kids, i, l, r);
      RepAll(ps + ups, ts) && ApartAll(ts) && t.id !in IdsOf(ts) && spare !in IdsOf(ts) && t.id != spare
  {
    SiblingsKept(ps, ups, t, i, extra);
    RepTwoAt(ps + ups, t.kids, i, l, r);
    assert Ids(t) == {t.id} + IdsOf(t.kids);
    assert ApartAll(t.kids) && t.id !in IdsOf(t.kids);
    hide Rep, RepAll, Ids, Apart, IdsOf, ApartAll, TwoAt;
    ApartTwoAt(t.kids, i, l, r, extra);
  }

  lemma WriteNode(ps: Pages, more: Pages, id: PageId, ks: seq<Key>, ts: seq<Tree>)
    requires RepAll(ps, ts) && more.Keys !! IdsOf(ts)
    requires id in more && more[id] == InternalPage(Roots(ts), ks)
    ensures Rep(ps + more, Node(id, ks, ts))
  {
    RepFrameAll(ps, more, ts);
    RepNode(ps + more, id, ks, ts);
  }

  lemma WriteHalves(ps: Pages, id: PageId, ks: seq<Key>, ts: seq<Tree>, m: nat, spare: PageId)
    requires RepAll(ps, ts) && ApartAll(ts) && m < |ks| && |ts| == |ks| + 1
    requires id !in IdsOf(ts) && spare !in IdsOf(ts) && id != spare
    ensures var more := map[id := InternalPage(Roots(ts)[..m + 1], ks[..m])]
                           [spare := InternalPage(Roots(ts)[m + 1..], ks[m + 1..])];
      && Rep(ps + more, Node(id, ks[..m], ts[..m + 1]))
      && Rep(ps + more, Node(spare, ks[m + 1..], ts[m + 1..]))
  {
    RootsSlice(ts, m + 1);
    ApartSlice(ts, m + 1);
    var a, b := ts[..m + 1], ts[m + 1..];
    hide Rep, Apart, Ids, Roots;
    assert forall j | 0 <= j < |b| :: b[j] == ts[m + 1 + j];
    assert RepAll(ps, a) && RepAll(ps, b);
    var more := map[id := InternalPage(Roots(a), ks[..m])][spare := InternalPage(Roots(b), ks[m + 1..])];
    WriteNode(ps, more, id, ks[..m], a);
    WriteNode(ps, more, spare, ks[m + 1..], b);
  }

  lemma NodeStep(ps: Pages, t: Tree, h: nat, i: nat, up: Up, out: Outcome, spare: seq<PageId>)
    requires t.Node? && Apart(t) && Rep(ps, t) && |t.kids| == |t.keys| + 1 && i < |t.kids|
    requires 0 < h < |spare| && Distinct(spare) && Prefix(spare, h + 1) !! Ids(t)
    requires UpMatches(ps, up, out, t.kids[i], h - 1, spare)
    requires UpKeys(up) <= Ids(t.kids[i]) + Prefix(spare, h)
    requires OutApart(out, Ids(t.kids[i]) + Prefix(spare, h))
    ensures UpMatches(ps, AndThen(up, EntryOf(t, i)), NodeIns(t.id, t.keys, t.kids, i, out, spare[h]), t, h, spare)
    ensures UpKeys(AndThen(up, EntryOf(t, i))) <= Ids(t) + Prefix(spare, h + 1)
  {
    hide Prefix, Ids, IdsOf, Apart, Rep, OutApart, Distinct;
    PrefixSnoc(spare, h);
    NodeIds(t.id, t.keys, t.kids, i);
    if up.Done? {
      NodeStepDone(ps, t, i, up.ups, out.t, Prefix(spare, h));
    } else {
      var rest := spare[h..];
      assert rest[0] == spare[h] && rest[1..] == spare[h + 1..];
      NodeStepMore(ps, t, i, up.ups, out.left, out.sep, out.right, rest, Prefix(spare, h));
      var next := Step(EntryOf(t, i), up.left, up.right, up.sep, rest);
      MapUnionAssoc(ps, up.ups, next.ups);
    }
  }

  lemma LeafStepMatches(ps: Pages, t: Tree, k: Key, v: Val, spare: seq<PageId>)
    requires t.Leaf? && spare != [] && t.id != spare[0]
    ensures var up := LeafStep(t.id, t.entries, t.next, k, v, spare);
      && UpMatches(ps, up, LeafIns(t.id, t.entries, t.next, k, v, spare[0]), t, 0, spare)
      && UpKeys(up) <= {t.id, spare[0]}
  {
    hide Put, Pos, Rank;
  }

  /** Split propagation on pages is insertion into the tree: the pages written afterwards
      represent the outcome, only the tree's and spare pages are touched, and the spare pages
      never run out. */
  lemma {:induction false} SetUpsMatches(ps: Pages, t: Tree, h: nat, k: Key, v: Val, spare: seq<PageId>)
    requires Rep(ps, t) && Shaped(t, h, 0) && Apart(t)
    requires h < |spare| && Distinct(spare) && Prefix(spare, h + 1) !! Ids(t)
    ensures UpMatches(ps, SetUps(t, h, k, v, spare), Ins(t, h, k, v, spare), t, h, spare)
    ensures UpKeys(SetUps(t, h, k, v, spare)) <= Ids(t) + Prefix(spare, h + 1)
    decreases h
  {
    hide LeafIns, LeafStep, NodeIns, AndThen, Ins, SetUps, Shaped, Route, Rep, Apart, Ids, IdsOf, Prefix, UpMatches, UpKeys, OutApart;
    if t.Leaf? {
      InsLeaf(t, h, k, v, spare);
      SetUpsLeaf(t, h, k, v, spare);
      LeafFacts(t, spare);
      LeafStepMatches(ps, t, k, v, spare);
    } else {
      InsNode(t, h, k, v, spare);
      SetUpsNode(t, h, k, v, spare);
      var i := Route(t.keys, k);
      KidFacts(ps, t, h, i, spare);
      SetUpsMatches(ps, t.kids[i], h - 1, k, v, spare);
      InsApart(t.kids[i], h - 1, k, v, spare);
      NodeStep(ps, t, h, i, SetUps(t.kids[i], h - 1, k, v, spare), Ins(t.kids[i], h - 1, k, v, spare), spare);
    }
  }

  lemma LeafFacts(t: Tree, spare: seq<PageId>)
    requires t.Leaf? && spare != [] && Prefix(spare, 1) !! Ids(t)
    ensures t.id != spare[0] && Ids(t) + Prefix(spare, 1) == {t.id, spare[0]}
  {
    assert spare[0] in Prefix(spare, 1);
  }

  lemma KidFacts(ps: Pages, t: Tree, h: nat, i: nat, spare: seq<PageId>)
    requires t.Node? && Rep(ps, t) && Apart(t) && i < |t.kids|
    requires 0 < h < |spare| && Prefix(spare, h + 1) !! Ids(t)
    ensures Rep(ps, t.kids[i]) && Apart(t.kids[i]) && Ids(t.kids[i]) <= Ids(t)
    ensures Prefix(spare, h) !! Ids(t.kids[i])
  {
    assert Ids(t) == {t.id} + IdsOf(t.kids);
    ElemIds(t.kids, i);
    assert Prefix(spare, h) <= Prefix(spare, h + 1);
  }

  lemma SetUpsLeaf(t: Tree, h: nat, k: Key, v: Val, spare: seq<PageId>)
    requires t.Leaf? && Shaped(t, h, 0)
    ensures SetUps(t, h, k, v, spare) == LeafStep(t.id, t.entries, t.next, k, v, spare)
  {
    hide LeafStep;
    var up := LeafStep(t.id, t.entries, t.next, k, v, spare);
    if up.More? {
      assert Propagate([], up.left, up.right, up.sep, up.spare) == More(map[], up.left, up.right, up.sep, up.spare);
      assert up.ups + map[] == up.ups;
    }
  }

  lemma SetUpsNode(t: Tree, h: nat, k: Key, v: Val, spare: seq<PageId>)
    requires t.Node? && Shaped(t, h, 0)
    ensures h > 0 && |t.kids| == |t.keys| + 1 && Shaped(t.kids[Route(t.keys, k)], h - 1, 0)
    ensures SetUps(t, h, k, v, spare)
         == AndThen(SetUps(t.kids[Route(t.keys, k)], h - 1, k, v, spare), EntryOf(t, Route(t.keys, k)))
  {
    var i := Route(t.keys, k);
    ShapedWeaken(t.kids[i], h - 1, MIN_INTERNAL_KEYS, 0);
    PathWf(t.kids[i], h - 1, k);
    PathLength(t.kids[i], h - 1, k);
    assert PathTo(t, k) == [EntryOf(t, i)] + PathTo(t.kids[i], k);
    assert LeafFor(t, k) == LeafFor(t.kids[i], k);
    hide LeafStep, Climb, AndThen;
    var leaf := LeafFor(t, k);
    ClimbFirst(EntryOf(t, i), PathTo(t.kids[i], k), LeafStep(leaf.id, leaf.entries, leaf.next, k, v, spare));
  }
}
