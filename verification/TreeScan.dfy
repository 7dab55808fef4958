/** The leaf chain: following it from the leaf a range scan starts at yields exactly the
    entries of the range. */
module TreeScan {
  import opened Bytes
  import opened SortedEntries
  import opened Tree
  import opened TreeInsert
  import opened TreePages

  /** The leaves, left to right. */
  ghost function LeafSeq(t: Tree): seq<Tree> {
    match t
    case Leaf(_, _, _) => [t]
    case Node(_, _, kids) => LeafSeqOf(kids)
  }

  ghost function LeafSeqOf(ts: seq<Tree>): seq<Tree> {
    if ts == [] then [] else LeafSeq(ts[0]) + LeafSeqOf(ts[1..])
  }

  ghost predicate AllLeaves(ls: seq<Tree>) {
    forall i | 0 <= i < |ls| :: ls[i].Leaf?
  }

  ghost function NextId(ls: seq<Tree>, i: nat, after: PageId): PageId {
    if i + 1 < |ls| then ls[i + 1].id else after
  }

  /** Each leaf links to the next one, the last one to `after`. */
  ghost predicate Linked(ls: seq<Tree>, after: PageId) {
    AllLeaves(ls) && forall i | 0 <= i < |ls| :: ls[i].next == NextId(ls, i, after)
  }

  lemma LinkedAppend(a: seq<Tree>, b: seq<Tree>, after: PageId)
    requires b != [] && Linked(a, b[0].id) && Linked(b, after)
    ensures Linked(a + b, after)
  {
    var c := a + b;
    forall i | 0 <= i < |c| ensures c[i].Leaf? && c[i].next == NextId(c, i, after) {
      if i < |a| {
        assert NextId(c, i, after) == NextId(a, i, b[0].id);
      } else {
        assert NextId(c, i, after) == NextId(b, i - |a|, after);
      }
    }
  }

  /** In a valid tree the links visit exactly the leaves, in order. */
  lemma {:induction false} ChainVisitsLeaves(t: Tree, h: nat, after: PageId)
    requires Shaped(t, h, 0) && Chained(t, after)
    ensures LeafSeq(t) != [] && LeafSeq(t)[0].id == First(t)
    ensures Linked(LeafSeq(t), after)
    decreases h, 1
  {
    if t.Node? {
      ChainKids(t, h, after);
      hide First, Shaped, Chained, ChainedAll, LeafSeqOf, Linked;
      ChainVisitsLeavesOf(t.kids, h - 1, after);
      FirstOfKids(t);
    }
  }

  lemma ChainKids(t: Tree, h: nat, after: PageId)
    requires t.Node? && Shaped(t, h, 0) && Chained(t, after)
    ensures h > 0 && t.kids != [] && ChainedAll(t.kids, after) && LeafSeq(t) == LeafSeqOf(t.kids)
    ensures forall i | 0 <= i < |t.kids| :: Shaped(t.kids[i], h - 1, 0)
  {
    forall i | 0 <= i < |t.kids| ensures Shaped(t.kids[i], h - 1, 0) {
      ShapedWeaken(t.kids[i], h - 1, MIN_INTERNAL_KEYS, 0);
    }
  }

  lemma FirstOfKids(t: Tree)
    requires t.Node? && t.kids != []
    ensures First(t) == First(t.kids[0])
  {}

  lemma {:induction false} ChainVisitsLeavesOf(ts: seq<Tree>, h: nat, after: PageId)
    requires ts != [] && ChainedAll(ts, after)
    requires forall i | 0 <= i < |ts| :: Shaped(ts[i], h, 0)
    ensures LeafSeqOf(ts) != [] && LeafSeqOf(ts)[0].id == First(ts[0])
    ensures Linked(LeafSeqOf(ts), after)
    decreases h, 2, |ts|
  {
    hide Shaped, Chained, First, LeafSeq;
    ChainVisitsLeaves(ts[0], h, After(ts, 0, after));
    var rest := ts[1..];
    if rest == [] {
      assert LeafSeqOf(ts) == LeafSeq(ts[0]) + LeafSeqOf(rest);
      assert LeafSeqOf(rest) == [];
      assert LeafSeqOf(ts) == LeafSeq(ts[0]);
    } else {
      forall i | 0 <= i < |rest| ensures Chained(rest[i], After(rest, i, after)) && Shaped(rest[i], h, 0) {
        assert rest[i] == ts[i + 1] && After(rest, i, after) == After(ts, i + 1, after);
      }
      ChainVisitsLeavesOf(rest, h, after);
      hide LeafSeqOf, Linked;
      LinkedAppend(LeafSeq(ts[0]), LeafSeqOf(rest), after);
      assert LeafSeqOf(ts) == LeafSeq(ts[0]) + LeafSeqOf(rest) by { LeafSeqStep(ts); }
    }
  }

  lemma LeafSeqStep(ts: seq<Tree>)
    requires ts != []
    ensures LeafSeqOf(ts) == LeafSeq(ts[0]) + LeafSeqOf(ts[1..])
  {}

  /** The leaves hold all the entries. */
  lemma {:induction false} LeavesHoldEntries(t: Tree)
    ensures Flat(LeafSeq(t)) == Entries(t)
  {
    match t
    case Leaf(_, _, _) => FlatOne(t);
    case Node(_, _, kids) => LeavesHoldEntriesOf(kids);
  }

  lemma {:induction false} LeavesHoldEntriesOf(ts: seq<Tree>)
    ensures Flat(LeafSeqOf(ts)) == Flat(ts)
  {
    if ts != [] {
      LeavesHoldEntries(ts[0]);
      LeavesHoldEntriesOf(ts[1..]);
      FlatAppend(LeafSeq(ts[0]), LeafSeqOf(ts[1..]));
    }
  }

  // ----- from the routed leaf on -----

  /** The leaves from the one that k is routed to. */
  ghost function Tail(t: Tree, k: Key): seq<Tree> {
    match t
    case Leaf(_, _, _) => [t]
    case Node(_, keys, kids) =>
      var i := Route(keys, k);
      if i < |kids| then Tail(kids[i], k) + LeafSeqOf(kids[i + 1..]) else []
  }

  /** The entries to the left of that leaf. */
  ghost function Skipped(t: Tree, k: Key): seq<Entry> {
    match t
    case Leaf(_, _, _) => []
    case Node(_, keys, kids) =>
      var i := Route(keys, k);
      if i < |kids| then Flat(kids[..i]) + Skipped(kids[i], k) else []
  }

  lemma {:induction false} TailSplit(t: Tree, k: Key, lo: real, hi: real)
    requires Ordered(t, lo, hi) && lo <= Rank(k) < hi
    ensures Entries(t) == Skipped(t, k) + Flat(Tail(t, k))
    ensures AllBelow(Skipped(t, k), Rank(k))
  {
    hide Rank, Flat, Tail, Skipped;
    match t
    case Leaf(_, _, _) =>
      FlatOne(t);
      TailLeaf(t, k);
    case Node(_, keys, kids) =>
      var i := Route(keys, k);
      var bs := Bounds(keys, lo, hi);
      RouteBounds(keys, k, lo, hi);
      TailSplit(kids[i], k, bs[i], bs[i + 1]);
      RoutedParts(t, k, lo, hi);
      hide Entries, Ordered, Bounds, Route;
      JoinTail(t, k);
  }

  lemma TailLeaf(t: Tree, k: Key)
    requires t.Leaf?
    ensures Tail(t, k) == [t] && Skipped(t, k) == []
  {}

  lemma JoinTail(t: Tree, k: Key)
    requires t.Node? && Route(t.keys, k) < |t.kids|
    requires var i := Route(t.keys, k);
      && Entries(t) == Flat(t.kids[..i]) + Entries(t.kids[i]) + Flat(t.kids[i + 1..])
      && Entries(t.kids[i]) == Skipped(t.kids[i], k) + Flat(Tail(t.kids[i], k))
      && AllBelow(Flat(t.kids[..i]), Rank(k)) && AllBelow(Skipped(t.kids[i], k), Rank(k))
    ensures Entries(t) == Skipped(t, k) + Flat(Tail(t, k))
    ensures AllBelow(Skipped(t, k), Rank(k))
  {
    hide Rank, Entries, Flat, Skipped, Tail, LeafSeqOf, Route, AllBelow;
    var i := Route(t.keys, k);
    TailFlat(t, k);
    AllBelowAppend(Flat(t.kids[..i]), Skipped(t.kids[i], k), Rank(k));
    JoinParts(Flat(t.kids[..i]), Skipped(t.kids[i], k), Flat(Tail(t.kids[i], k)), Flat(t.kids[i + 1..]),
              Entries(t.kids[i]), Entries(t), Skipped(t, k), Flat(Tail(t, k)));
  }

  lemma TailFlat(t: Tree, k: Key)
    requires t.Node? && Route(t.keys, k) < |t.kids|
    ensures var i := Route(t.keys, k);
      && Flat(Tail(t, k)) == Flat(Tail(t.kids[i], k)) + Flat(t.kids[i + 1..])
      && Skipped(t, k) == Flat(t.kids[..i]) + Skipped(t.kids[i], k)
  {
    hide Entries, Flat, Skipped, Tail, LeafSeqOf, Route;
    var i := Route(t.keys, k);
    TailStep(t, k);
    FlatAppend(Tail(t.kids[i], k), LeafSeqOf(t.kids[i + 1..]));
    LeavesHoldEntriesOf(t.kids[i + 1..]);
  }

  lemma JoinParts(a: seq<Entry>, b: seq<Entry>, c: seq<Entry>, d: seq<Entry>,
                  mid: seq<Entry>, all: seq<Entry>, front: seq<Entry>, back: seq<Entry>)
    requires mid == b + c && all == a + mid + d && front == a + b && back == c + d
    ensures all == front + back
  {
    Regroup(a, b, c, d);
  }

  lemma AllBelowAppend(a: seq<Entry>, b: seq<Entry>, bound: real)
    requires AllBelow(a, bound) && AllBelow(b, bound)
    ensures AllBelow(a + b, bound)
  {
    hide Rank;
  }

  lemma Regroup(a: seq<Entry>, b: seq<Entry>, c: seq<Entry>, d: seq<Entry>)
    ensures a + (b + c) + d == (a + b) + (c + d)
  {}

  lemma TailStep(t: Tree, k: Key)
    requires t.Node? && Route(t.keys, k) < |t.kids|
    ensures var i := Route(t.keys, k);
      && Tail(t, k) == Tail(t.kids[i], k) + LeafSeqOf(t.kids[i + 1..])
      && Skipped(t, k) == Flat(t.kids[..i]) + Skipped(t.kids[i], k)
  {}

  lemma {:induction false} TailLinked(t: Tree, h: nat, k: Key, after: PageId)
    requires Shaped(t, h, 0) && Chained(t, after)
    ensures Tail(t, k) != [] && Tail(t, k)[0] == LeafFor(t, k)
    ensures Linked(Tail(t, k), after)
    decreases h
  {
    hide Shaped, Chained, First, Tail, LeafFor, LeafSeqOf, Route, ChainedAll;
    if t.Leaf? {
      LeafChain(t, h, k, after);
    } else {
      var i := Route(t.keys, k);
      NodeKids(t, h, k, after);
      TailLinked(t.kids[i], h - 1, k, After(t.kids, i, after));
      TailStep(t, k);
      LeafForStep(t, k);
      AppendRest(Tail(t.kids[i], k), t.kids, i, h - 1, after);
    }
  }

  lemma LeafChain(t: Tree, h: nat, k: Key, after: PageId)
    requires t.Leaf? && Shaped(t, h, 0) && Chained(t, after)
    ensures h == 0 && t.next == after && Tail(t, k) == [t] && LeafFor(t, k) == t
  {}

  lemma NodeKids(t: Tree, h: nat, k: Key, after: PageId)
    requires t.Node? && Shaped(t, h, 0) && Chained(t, after)
    ensures h > 0 && Route(t.keys, k) < |t.kids| && ChainedAll(t.kids, after)
    ensures Chained(t.kids[Route(t.keys, k)], After(t.kids, Route(t.keys, k), after))
    ensures forall j | 0 <= j < |t.kids| :: Shaped(t.kids[j], h - 1, 0)
  {
    forall j | 0 <= j < |t.kids| ensures Shaped(t.kids[j], h - 1, 0) {
      ShapedWeaken(t.kids[j], h - 1, MIN_INTERNAL_KEYS, 0);
    }
  }

  lemma LeafForStep(t: Tree, k: Key)
    requires t.Node? && Route(t.keys, k) < |t.kids|
    ensures LeafFor(t, k) == LeafFor(t.kids[Route(t.keys, k)], k)
  {}

  lemma AppendRest(front: seq<Tree>, kids: seq<Tree>, i: nat, h: nat, after: PageId)
    requires i < |kids| && ChainedAll(kids, after)
    requires forall j | 0 <= j < |kids| :: Shaped(kids[j], h, 0)
    requires Linked(front, After(kids, i, after))
    ensures Linked(front + LeafSeqOf(kids[i + 1..]), after)
  {
    hide Shaped, Chained, First, Linked;
    var rest := kids[i + 1..];
    if rest == [] {
      assert LeafSeqOf(rest) == [];
      assert front + LeafSeqOf(rest) == front;
    } else {
      forall j | 0 <= j < |rest| ensures Chained(rest[j], After(rest, j, after)) && Shaped(rest[j], h, 0) {
        assert rest[j] == kids[i + 1 + j] && After(rest, j, after) == After(kids, i + 1 + j, after);
      }
      ChainVisitsLeavesOf(rest, h, after);
      LinkedAppend(front, LeafSeqOf(rest), after);
    }
  }

  /** Every leaf of the tree is on its page. */
  ghost predicate OnPages(ps: Pages, ls: seq<Tree>) {
    forall i | 0 <= i < |ls| :: ls[i].Leaf? && Rep(ps, ls[i]) && ls[i].id in ps
  }

  lemma {:induction false} LeafSeqOnPages(ps: Pages, t: Tree)
    requires Rep(ps, t)
    ensures OnPages(ps, LeafSeq(t))
    ensures forall l | l in LeafSeq(t) :: l.id in Ids(t)
  {
    match t
    case Leaf(_, _, _) =>
    case Node(_, _, kids) =>
      LeafSeqOfOnPages(ps, kids);
      assert Ids(t) == {t.id} + IdsOf(kids);
  }

  lemma {:induction false} LeafSeqOfOnPages(ps: Pages, ts: seq<Tree>)
    requires RepAll(ps, ts)
    ensures OnPages(ps, LeafSeqOf(ts))
    ensures forall l | l in LeafSeqOf(ts) :: l.id in IdsOf(ts)
  {
    if ts != [] {
      LeafSeqOnPages(ps, ts[0]);
      LeafSeqOfOnPages(ps, ts[1..]);
      ElemIds(ts, 0);
      assert IdsOf(ts[1..]) <= IdsOf(ts) by {
        var us := ts[1..];
        forall j | 0 <= j < |us| ensures Ids(us[j]) <= IdsOf(ts) { ElemIds(ts, j + 1); }
      }
      hide LeafSeq, Rep, Ids, IdsOf;
      LeafSeqStep(ts);
    }
  }

  lemma {:induction false} TailOnPages(ps: Pages, t: Tree, k: Key)
    requires Rep(ps, t)
    ensures OnPages(ps, Tail(t, k))
    ensures forall l | l in Tail(t, k) :: l.id in Ids(t)
  {
    hide Tail, LeafSeqOf, Rep, Ids, IdsOf, RepAll;
    if t.Node? && Route(t.keys, k) < |t.kids| {
      var i := Route(t.keys, k);
      RestFacts(ps, t, i);
      TailOnPages(ps, t.kids[i], k);
      TailStep(t, k);
      LeafSeqOfOnPages(ps, t.kids[i + 1..]);
    } else {
      TailEnd(ps, t, k);
    }
  }

  lemma TailEnd(ps: Pages, t: Tree, k: Key)
    requires Rep(ps, t) && (t.Leaf? || Route(t.keys, k) >= |t.kids|)
    ensures t.Leaf? ==> Tail(t, k) == [t] && t.id in Ids(t)
    ensures t.Node? ==> Tail(t, k) == []
    ensures t.id in ps
  {}

  lemma RestFacts(ps: Pages, t: Tree, i: nat)
    requires t.Node? && Rep(ps, t) && i < |t.kids|
    ensures Rep(ps, t.kids[i]) && RepAll(ps, t.kids[i + 1..])
    ensures Ids(t.kids[i]) <= Ids(t) && IdsOf(t.kids[i + 1..]) <= Ids(t)
  {
    var rest := t.kids[i + 1..];
    assert Ids(t) == {t.id} + IdsOf(t.kids);
    ElemIds(t.kids, i);
    forall j | 0 <= j < |rest| ensures Ids(rest[j]) <= IdsOf(t.kids) { ElemIds(t.kids, i + 1 + j); }
  }

  // ----- the range -----

  /** Nothing the descent skips belongs to the range, so the chain from the routed leaf on
      holds all of it. */
  lemma RangeInTail(t: Tree, start: Key, end: Key)
    requires Ordered(t, 0.0, 1.0)
    ensures Select(Flat(Tail(t, start)), start, end) == Select(Entries(t), start, end)
  {
    RankBounds(start);
    TailSplit(t, start, 0.0, 1.0);
    var sk := Skipped(t, start);
    SelectAppend(sk, Flat(Tail(t, start)), start, end);
    if start == [] {
      if sk != [] { RankBounds(sk[0].key); }
      assert sk == [];
    } else {
      forall i | 0 <= i < |sk| ensures !InRange(sk[i].key, start, end) {
        RankIsLexOrder(sk[i].key, start);
      }
      SelectNone(sk, start, end);
    }
  }

  // ----- the loop over the chain -----

  lemma ScanNone(start: Key, end: Key)
    ensures Flat([]) == [] && Select([], start, end) == []
  {}

  /** One leaf of the chain read to its end. */
  lemma ScanStep(ls: seq<Tree>, i: nat, start: Key, end: Key)
    requires i < |ls| && ls[i].Leaf?
    ensures Select(Flat(ls[..i + 1]), start, end)
         == Select(Flat(ls[..i]), start, end) + Select(ls[i].entries[..|ls[i].entries|], start, end)
  {
    assert ls[..i + 1] == ls[..i] + [ls[i]];
    FlatAppend(ls[..i], [ls[i]]);
    FlatOne(ls[i]);
    assert ls[i].entries[..|ls[i].entries|] == ls[i].entries;
    SelectAppend(Flat(ls[..i]), ls[i].entries, start, end);
  }

  /** The chain left at entry p of leaf i: the rest holds nothing in range. */
  lemma ScanStopped(ls: seq<Tree>, i: nat, p: nat, start: Key, end: Key)
    requires i < |ls| && ls[i].Leaf? && p < |ls[i].entries| && Sorted(Flat(ls))
    requires end != [] && !LexLess(ls[i].entries[p].key, end)
    ensures Select(Flat(ls), start, end) == Select(Flat(ls[..i]), start, end) + Select(ls[i].entries[..p], start, end)
  {
    hide Sorted, Select, Flat, LexLess;
    var a, es, b := Flat(ls[..i]), ls[i].entries, Flat(ls[i + 1..]);
    assert ls == ls[..i] + ([ls[i]] + ls[i + 1..]);
    FlatAppend(ls[..i], [ls[i]] + ls[i + 1..]);
    FlatAppend([ls[i]], ls[i + 1..]);
    FlatOne(ls[i]);
    assert Flat(ls) == a + (es + b);
    var all := Flat(ls);
    assert all[|a| + p] == es[p];
    SelectStop(all, |a| + p, start, end);
    assert all[..|a| + p] == a + es[..p];
    SelectAppend(a, es[..p], start, end);
  }
}
