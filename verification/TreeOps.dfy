/** Get, Set and Delete on whole trees refine the sorted slice. */
module TreeOps {
  import opened Wrappers
  import opened Bytes
  import opened SortedEntries
  import opened Tree
  import opened TreeInsert

  /** The invariant of every reachable non-empty tree; h is the number of internal levels. */
  ghost predicate ValidTree(t: Tree, h: nat) {
    Ordered(t, 0.0, 1.0) && Shaped(t, h, 1) && Chained(t, SENTINEL) && Apart(t)
  }

  /** The contents of a valid tree are a sorted slice. */
  lemma ContentsSorted(t: Tree, h: nat)
    requires ValidTree(t, h)
    ensures Sorted(Entries(t))
  {
    OrderedEntries(t, 0.0, 1.0);
  }

  // ----- Get -----

  /** `search`: route down to a leaf and look there. */
  ghost function Find(t: Tree, k: Key): Option<Val> {
    match t
    case Leaf(_, es, _) => Lookup(es, k)
    case Node(_, keys, kids) => if Route(keys, k) < |kids| then Find(kids[Route(keys, k)], k) else None
  }

  lemma {:induction false} FindIsLookup(t: Tree, k: Key, lo: real, hi: real)
    requires Ordered(t, lo, hi) && lo <= Rank(k) < hi
    ensures Find(t, k) == Lookup(Entries(t), k)
  {
    hide Rank, Lookup, Pos;
    match t
    case Leaf(_, _, _) =>
    case Node(_, keys, kids) =>
      var i := Route(keys, k);
      var bs := Bounds(keys, lo, hi);
      RouteBounds(keys, k, lo, hi);
      FindIsLookup(kids[i], k, bs[i], bs[i + 1]);
      RoutedParts(t, k, lo, hi);
      LookupMiddle(Flat(kids[..i]), Entries(kids[i]), Flat(kids[i + 1..]), k);
  }

  // ----- Set -----

  /** Height after an insertion. */
  ghost function SetHeight(t: Tree, h: nat, k: Key, v: Val, spare: seq<PageId>): nat
    requires Shaped(t, h, 1) && |spare| == h + 2
  {
    ShapedWeaken(t, h, 1, 0);
    if Ins(t, h, k, v, spare).One? then h else h + 1
  }

  /** Insertion at the root: a split root gets a new root above it, on the last spare page. */
  ghost function SetTree(t: Tree, h: nat, k: Key, v: Val, spare: seq<PageId>): Tree
    requires Shaped(t, h, 1) && |spare| == h + 2
  {
    ShapedWeaken(t, h, 1, 0);
    match Ins(t, h, k, v, spare)
    case One(u) => u
    case Two(l, sep, r) => Node(spare[h + 1], [sep], [l, r])
  }

  /** Set keeps every invariant and performs Put, and every new page is a spare one. */
  lemma SetTreeCorrect(t: Tree, h: nat, k: Key, v: Val, spare: seq<PageId>)
    requires ValidTree(t, h) && |spare| == h + 2
    requires Distinct(spare) && Prefix(spare, h + 2) !! Ids(t)
    ensures ValidTree(SetTree(t, h, k, v, spare), SetHeight(t, h, k, v, spare))
    ensures Entries(SetTree(t, h, k, v, spare)) == Put(Entries(t), k, v)
    ensures Ids(SetTree(t, h, k, v, spare)) <= Ids(t) + Prefix(spare, h + 2)
  {
    RankBounds(k);
    ShapedWeaken(t, h, 1, 0);
    assert Prefix(spare, h + 2) == Prefix(spare, h + 1) + {spare[h + 1]};
    SpareNotInPrefix(spare, h + 1);
    hide Rank, Put, Pos, Ins, Ordered, Shaped, Chained, Apart, Ids, Entries, Distinct, Prefix, OutOrdered, OutShaped, OutChained, OutApart, OutEntries;
    InsOrdered(t, h, k, v, spare, 0.0, 1.0);
    InsEntries(t, h, k, v, spare, 0.0, 1.0);
    InsShaped(t, h, k, v, spare, 1);
    InsChained(t, h, k, v, spare, SENTINEL);
    InsApart(t, h, k, v, spare);
    SetOutcome(Ins(t, h, k, v, spare), h, spare[h + 1], Ids(t) + Prefix(spare, h + 1), First(t));
  }

  /** The tree made of an outcome at the root. */
  ghost function Rooted(o: Outcome, id: PageId): Tree {
    match o
    case One(u) => u
    case Two(l, sep, r) => Node(id, [sep], [l, r])
  }

  lemma SetOutcome(o: Outcome, h: nat, id: PageId, own: set<PageId>, first: PageId)
    requires OutOrdered(o, 0.0, 1.0) && OutShaped(o, h, 1) && OutChained(o, first, SENTINEL) && OutApart(o, own) && id !in own
    ensures ValidTree(Rooted(o, id), if o.One? then h else h + 1)
    ensures Entries(Rooted(o, id)) == OutEntries(o) && Ids(Rooted(o, id)) <= own + {id}
  {
    hide Rank, Ordered, Shaped, Chained, Apart, Ids, Entries, First;
    if o.Two? {
      NewRootValid(id, o.left, o.sep, o.right, h, own);
    }
  }

  lemma NewRootValid(id: PageId, l: Tree, sep: Key, r: Tree, h: nat, own: set<PageId>)
    requires OutOrdered(Two(l, sep, r), 0.0, 1.0)
    requires OutShaped(Two(l, sep, r), h, 1)
    requires Chained(l, First(r)) && Chained(r, SENTINEL)
    requires OutApart(Two(l, sep, r), own) && id !in own
    ensures ValidTree(Node(id, [sep], [l, r]), h + 1)
    ensures Entries(Node(id, [sep], [l, r])) == Entries(l) + Entries(r)
    ensures Ids(Node(id, [sep], [l, r])) <= own + {id}
  {
    NewRootOrdered(id, l, sep, r);
    NewRootChained(id, l, sep, r);
    NewRootShaped(id, l, sep, r, h);
    NewRootEntries(id, l, sep, r);
    NewRootApart(id, l, sep, r, own);
    hide Rank, Ordered, Chained, Shaped, Entries, Ids, Apart;
  }

  lemma NewRootShaped(id: PageId, l: Tree, sep: Key, r: Tree, h: nat)
    requires OutShaped(Two(l, sep, r), h, 1)
    ensures Shaped(Node(id, [sep], [l, r]), h + 1, 1)
  {}

  lemma NewRootEntries(id: PageId, l: Tree, sep: Key, r: Tree)
    ensures Entries(Node(id, [sep], [l, r])) == Entries(l) + Entries(r)
  {
    FlatAppend([l], [r]);
    FlatOne(l);
    FlatOne(r);
    assert [l] + [r] == [l, r];
    hide Flat;
  }

  lemma NewRootApart(id: PageId, l: Tree, sep: Key, r: Tree, own: set<PageId>)
    requires OutApart(Two(l, sep, r), own) && id !in own
    ensures Apart(Node(id, [sep], [l, r])) && Ids(Node(id, [sep], [l, r])) <= own + {id}
  {
    hide Ids, Apart;
    assert ApartAll([l, r]) && IdsOf([l, r]) <= own;
    NodeApart(id, [sep], [l, r]);
  }

  lemma NewRootOrdered(id: PageId, l: Tree, sep: Key, r: Tree)
    requires OutOrdered(Two(l, sep, r), 0.0, 1.0)
    ensures Ordered(Node(id, [sep], [l, r]), 0.0, 1.0)
  {
    hide Rank;
    assert Bounds([sep], 0.0, 1.0) == [0.0, Rank(sep), 1.0];
  }

  lemma NewRootChained(id: PageId, l: Tree, sep: Key, r: Tree)
    requires Chained(l, First(r)) && Chained(r, SENTINEL)
    ensures Chained(Node(id, [sep], [l, r]), SENTINEL)
  {
    assert After([l, r], 0, SENTINEL) == First(r);
    assert After([l, r], 1, SENTINEL) == SENTINEL;
  }

  /** The first entry of an empty store: a single leaf. */
  lemma SetEmptyCorrect(id: PageId, k: Key, v: Val)
    ensures ValidTree(Leaf(id, [Entry(k, v)], SENTINEL), 0)
    ensures [Entry(k, v)] == Put([], k, v)
  {
    RankBounds(k);
  }

  // ----- Delete -----

  ghost function Del(t: Tree, k: Key): Tree {
    match t
    case Leaf(id, es, next) => Leaf(id, Remove(es, k), next)
    case Node(id, keys, kids) =>
      var i := Route(keys, k);
      if i < |kids| then Node(id, keys, kids[i := Del(kids[i], k)]) else t
  }

  lemma LeafRemove(es: seq<Entry>, k: Key, lo: real, hi: real)
    requires Sorted(es) && AllAtLeast(es, lo) && AllBelow(es, hi)
    ensures Sorted(Remove(es, k)) && AllAtLeast(Remove(es, k), lo) && AllBelow(Remove(es, k), hi)
    ensures |Remove(es, k)| <= |es|
  {
    hide Rank;
    RemoveSorted(es, k);
  }

  /** Deleting in a subtree keeps its invariants and removes exactly the key's entry. */
  lemma {:induction false} DelCorrect(t: Tree, h: nat, k: Key, lo: real, hi: real, least: nat, after: PageId)
    requires Ordered(t, lo, hi) && lo <= Rank(k) < hi
    requires Shaped(t, h, least) && Chained(t, after) && Apart(t)
    ensures Ordered(Del(t, k), lo, hi) && Shaped(Del(t, k), h, least)
    ensures Chained(Del(t, k), after) && First(Del(t, k)) == First(t)
    ensures Apart(Del(t, k)) && Ids(Del(t, k)) <= Ids(t)
    ensures Entries(Del(t, k)) == Remove(Entries(t), k)
    decreases h
  {
    if t.Leaf? {
      LeafRemove(t.entries, k, lo, hi);
    } else {
      DelKid(t, h, k, lo, hi, least, after);
      hide Rank, Ordered, Shaped, Chained, First, Apart, Ids, Entries, Remove, Del, Bounds, Route;
      var i, bs := Route(t.keys, k), Bounds(t.keys, lo, hi);
      DelCorrect(t.kids[i], h - 1, k, bs[i], bs[i + 1], MIN_INTERNAL_KEYS, After(t.kids, i, after));
      DelNode(t, h, k, Del(t.kids[i], k), lo, hi, least, after);
    }
  }

  lemma DelKid(t: Tree, h: nat, k: Key, lo: real, hi: real, least: nat, after: PageId)
    requires t.Node? && Ordered(t, lo, hi) && lo <= Rank(k) < hi
    requires Shaped(t, h, least) && Chained(t, after) && Apart(t)
    ensures h > 0 && Route(t.keys, k) < |t.kids|
    ensures var i, bs := Route(t.keys, k), Bounds(t.keys, lo, hi);
      && Ordered(t.kids[i], bs[i], bs[i + 1]) && bs[i] <= Rank(k) < bs[i + 1]
      && Shaped(t.kids[i], h - 1, MIN_INTERNAL_KEYS) && Chained(t.kids[i], After(t.kids, i, after)) && Apart(t.kids[i])
      && Del(t, k) == Node(t.id, t.keys, t.kids[i := Del(t.kids[i], k)])
  {
    RouteBounds(t.keys, k, lo, hi);
    hide Rank;
  }

  lemma DelNode(t: Tree, h: nat, k: Key, c: Tree, lo: real, hi: real, least: nat, after: PageId)
    requires t.Node? && Ordered(t, lo, hi) && lo <= Rank(k) < hi
    requires Shaped(t, h, least) && Chained(t, after) && Apart(t)
    requires var i, bs := Route(t.keys, k), Bounds(t.keys, lo, hi);
      && Ordered(c, bs[i], bs[i + 1]) && Shaped(c, h - 1, MIN_INTERNAL_KEYS)
      && Chained(c, After(t.kids, i, after)) && First(c) == First(t.kids[i])
      && Apart(c) && Ids(c) <= Ids(t.kids[i])
      && Entries(c) == Remove(Entries(t.kids[i]), k)
    ensures var u := Node(t.id, t.keys, t.kids[Route(t.keys, k) := c]);
      && Ordered(u, lo, hi) && Shaped(u, h, least) && Chained(u, after) && First(u) == First(t)
      && Apart(u) && Ids(u) <= Ids(t)
      && Entries(u) == Remove(Entries(t), k)
  {
    var i := Route(t.keys, k);
    var id, keys, kids := t.id, t.keys, t.kids;
    assert ApartAll(kids) && id !in IdsOf(kids);
    assert Ids(t) == {id} + IdsOf(kids);
    NodeInsOrdered(id, keys, kids, i, One(c), id, lo, hi);
    NodeInsShaped(id, keys, kids, i, One(c), id, h, least);
    NodeInsChained(id, keys, kids, i, One(c), id, after);
    ApartOneAt(kids, i, c, {});
    NodeApart(id, keys, kids[i := c]);
    NodeInsEntries(id, keys, kids, i, One(c), id);
    RoutedParts(t, k, lo, hi);
    hide Rank, Remove, Ordered, Shaped, Chained, Apart, Ids, Entries, Flat;
    RemoveMiddle(Flat(kids[..i]), Entries(kids[i]), Flat(kids[i + 1..]), k);
  }

  /** Delete keeps every invariant and performs Remove. */
  lemma DelTreeCorrect(t: Tree, h: nat, k: Key)
    requires ValidTree(t, h)
    ensures ValidTree(Del(t, k), h)
    ensures Entries(Del(t, k)) == Remove(Entries(t), k)
    ensures Ids(Del(t, k)) <= Ids(t)
  {
    RankBounds(k);
    DelCorrect(t, h, k, 0.0, 1.0, 1, SENTINEL);
  }

  // ----- how many leaves -----

  ghost function Leaves(t: Tree): nat {
    match t
    case Leaf(_, _, _) => 1
    case Node(_, _, kids) => LeavesOf(kids)
  }

  ghost function LeavesOf(ts: seq<Tree>): nat {
    if ts == [] then 0 else Leaves(ts[0]) + LeavesOf(ts[1..])
  }

  function Pow29(h: nat): (p: nat)
    ensures p >= 1
  {
    if h == 0 then 1 else 29 * Pow29(h - 1)
  }

  lemma MulMonotone(a: nat, b: nat, c: nat)
    requires a <= b
    ensures a * c <= b * c
  {}

  lemma {:induction false} LeavesOfAtLeast(ts: seq<Tree>, n: nat)
    requires forall i | 0 <= i < |ts| :: Leaves(ts[i]) >= n
    ensures LeavesOf(ts) >= |ts| * n
  {
    hide Leaves;
    if ts != [] {
      LeavesOfAtLeast(ts[1..], n);
      assert |ts| * n == n + |ts[1..]| * n;
    }
  }

  lemma {:induction false} FullSubtreeLeaves(t: Tree, h: nat)
    requires Shaped(t, h, MIN_INTERNAL_KEYS)
    ensures Leaves(t) >= Pow29(h)
    decreases h
  {
    match t
    case Leaf(_, _, _) =>
    case Node(_, keys, kids) =>
      forall i | 0 <= i < |kids| ensures Leaves(kids[i]) >= Pow29(h - 1) {
        FullSubtreeLeaves(kids[i], h - 1);
      }
      LeavesOfAtLeast(kids, Pow29(h - 1));
      MulMonotone(29, |kids|, Pow29(h - 1));
  }

  /** A tree with h internal levels has at least 2 * 29^(h-1) leaves. */
  lemma HeightNeedsLeaves(t: Tree, h: nat)
    requires ValidTree(t, h) && h >= 1
    ensures Leaves(t) >= 2 * Pow29(h - 1)
  {
    hide Ordered, Chained, Apart, Pow29;
    forall i | 0 <= i < |t.kids| ensures Leaves(t.kids[i]) >= Pow29(h - 1) {
      FullSubtreeLeaves(t.kids[i], h - 1);
    }
    LeavesOfAtLeast(t.kids, Pow29(h - 1));
    MulMonotone(2, |t.kids|, Pow29(h - 1));
  }
}
