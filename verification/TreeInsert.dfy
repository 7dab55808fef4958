/** Insertion keeps every invariant of the tree and adds exactly one entry. */
module TreeInsert {
  import opened Bytes
  import opened SortedEntries
  import opened Tree

  /** One unfolding of Ins. */
  lemma InsNode(t: Tree, h: nat, k: Key, v: Val, spare: seq<PageId>)
    requires t.Node? && Shaped(t, h, 0) && h < |spare|
    ensures h > 0 && |t.kids| == |t.keys| + 1 && Route(t.keys, k) < |t.kids|
    ensures Shaped(t.kids[Route(t.keys, k)], h - 1, 0) && Shaped(t.kids[Route(t.keys, k)], h - 1, MIN_INTERNAL_KEYS)
    ensures Ins(t, h, k, v, spare)
         == NodeIns(t.id, t.keys, t.kids, Route(t.keys, k), Ins(t.kids[Route(t.keys, k)], h - 1, k, v, spare), spare[h])
  {
    ShapedWeaken(t.kids[Route(t.keys, k)], h - 1, MIN_INTERNAL_KEYS, 0);
  }

  lemma InsLeaf(t: Tree, h: nat, k: Key, v: Val, spare: seq<PageId>)
    requires t.Leaf? && Shaped(t, h, 0) && h < |spare|
    ensures h == 0 && Ins(t, h, k, v, spare) == LeafIns(t.id, t.entries, t.next, k, v, spare[0])
  {}

  // ----- splits -----

  /** A leaf splits exactly when it holds seven entries and none with the key; then each half gets
      four, the first key of the right half separates them, and the links run through both. */
  lemma LeafSplitIff(id: PageId, es: seq<Entry>, next: PageId, k: Key, v: Val, spare: PageId)
    requires Sorted(es) && |es| <= 7
    ensures var out := LeafIns(id, es, next, k, v, spare);
      && (out.Two? <==> |es| == 7 && forall i | 0 <= i < |es| :: es[i].key != k)
      && (out.One? ==> out.t == Leaf(id, Put(es, k, v), next))
      && (out.Two? ==>
            && out.left.Leaf? && out.right.Leaf? && |out.left.entries| == 4 && |out.right.entries| == 4
            && out.left.entries + out.right.entries == Put(es, k, v) && out.sep == out.right.entries[0].key
            && out.left.id == id && out.left.next == spare == out.right.id && out.right.next == next)
  {
    hide Put, Rank;
    KeyHeldIff(es, k);
  }

  lemma KeyHeldIff(es: seq<Entry>, k: Key)
    requires Sorted(es)
    ensures Found(es, k) <==> exists i :: 0 <= i < |es| && es[i].key == k
  {
    if i :| 0 <= i < |es| && es[i].key == k {
      FoundIffPresent(es, k, i);
    }
  }

  /** A node whose child split splits exactly when it has 56 keys; then each half gets 28 and the key
      between them moves up. */
  lemma NodeSplitIff(id: PageId, keys: seq<Key>, kids: seq<Tree>, i: nat, l: Tree, sep: Key, r: Tree, spare: PageId)
    requires |kids| == |keys| + 1 && i < |kids| && |keys| <= 56
    ensures var out := NodeIns(id, keys, kids, i, Two(l, sep, r), spare);
      var ks, ts := keys[..i] + [sep] + keys[i..], kids[..i] + [l, r] + kids[i + 1..];
      && (out.Two? <==> |keys| == 56)
      && (out.One? ==> out.t == Node(id, ks, ts))
      && (out.Two? ==>
            && out.left.Node? && out.right.Node? && out.left.id == id && out.right.id == spare
            && |out.left.keys| == 28 && |out.right.keys| == 28 && out.left.keys + [out.sep] + out.right.keys == ks
            && |out.left.kids| == 29 && out.left.kids + out.right.kids == ts)
  {}

  // ----- order -----

  ghost predicate OutOrdered(out: Outcome, lo: real, hi: real) {
    match out
    case One(t) => Ordered(t, lo, hi)
    case Two(l, sep, r) =>
      lo < Rank(sep) < hi && Ordered(l, lo, Rank(sep)) && Ordered(r, Rank(sep), hi)
  }

  lemma BoundsInsert(keys: seq<Key>, i: nat, sep: Key, lo: real, hi: real)
    requires i <= |keys|
    ensures Bounds(InsertAt(keys, i, sep), lo, hi) == InsertAt(Bounds(keys, lo, hi), i + 1, Rank(sep))
  {
    hide Rank;
  }

  lemma BoundsTake(keys: seq<Key>, m: nat, lo: real, hi: real)
    requires m < |keys|
    ensures Bounds(keys[..m], lo, Rank(keys[m])) == Bounds(keys, lo, hi)[..m + 2]
  {
    hide Rank;
  }

  lemma BoundsDrop(keys: seq<Key>, m: nat, lo: real, hi: real)
    requires m < |keys|
    ensures Bounds(keys[m + 1..], Rank(keys[m]), hi) == Bounds(keys, lo, hi)[m + 1..]
  {
    hide Rank;
  }

  lemma AscendingInsert(bs: seq<real>, i: nat, x: real)
    requires Ascending(bs) && i + 1 < |bs| && bs[i] < x < bs[i + 1]
    ensures Ascending(InsertAt(bs, i + 1, x))
  {
    var r := InsertAt(bs, i + 1, x);
    forall a, b | 0 <= a < b < |r| ensures r[a] < r[b] {
      assert r[a] == if a <= i then bs[a] else if a == i + 1 then x else bs[a - 1];
      assert r[b] == if b <= i then bs[b] else if b == i + 1 then x else bs[b - 1];
      if a < i { assert bs[a] < bs[i]; }
      if b > i + 2 { assert bs[i + 1] < bs[b - 1]; }
    }
  }

  lemma OrderedTwoAt(ts: seq<Tree>, bs: seq<real>, i: nat, l: Tree, x: real, r: Tree)
    requires OrderedAll(ts, bs) && i < |ts|
    requires Ordered(l, bs[i], x) && Ordered(r, x, bs[i + 1])
    ensures OrderedAll(TwoAt(ts, i, l, r), InsertAt(bs, i + 1, x))
  {
    hide Ordered;
    var us, cs := TwoAt(ts, i, l, r), InsertAt(bs, i + 1, x);
    forall j | 0 <= j < |us| ensures Ordered(us[j], cs[j], cs[j + 1]) {
      if j < i {
        assert us[j] == ts[j] && cs[j] == bs[j] && cs[j + 1] == bs[j + 1];
      } else if j > i + 1 {
        assert us[j] == ts[j - 1] && cs[j] == bs[j - 1] && cs[j + 1] == bs[j];
      }
    }
  }

  lemma NodeInsOrdered(id: PageId, keys: seq<Key>, kids: seq<Tree>, i: nat, out: Outcome, spare: PageId, lo: real, hi: real)
    requires Ordered(Node(id, keys, kids), lo, hi) && i < |kids|
    requires OutOrdered(out, Bounds(keys, lo, hi)[i], Bounds(keys, lo, hi)[i + 1])
    ensures OutOrdered(NodeIns(id, keys, kids, i, out, spare), lo, hi)
  {
    hide Rank;
    var bs := Bounds(keys, lo, hi);
    if out.Two? {
      var ks, ts := InsertAt(keys, i, out.sep), TwoAt(kids, i, out.left, out.right);
      WholeNodeOrdered(id, keys, kids, i, out, lo, hi);
      if |keys| >= MAX_INTERNAL_KEYS {
        SplitOrdered(id, ks, ts, |ks| / 2, spare, lo, hi);
      }
    }
  }

  /** The over-full node that the source builds before splitting. */
  lemma WholeNodeOrdered(id: PageId, keys: seq<Key>, kids: seq<Tree>, i: nat, out: Outcome, lo: real, hi: real)
    requires Ordered(Node(id, keys, kids), lo, hi) && i < |kids| && out.Two?
    requires OutOrdered(out, Bounds(keys, lo, hi)[i], Bounds(keys, lo, hi)[i + 1])
    ensures Ordered(Node(id, InsertAt(keys, i, out.sep), TwoAt(kids, i, out.left, out.right)), lo, hi)
  {
    var bs := Bounds(keys, lo, hi);
    var ks, ts := InsertAt(keys, i, out.sep), TwoAt(kids, i, out.left, out.right);
    BoundsInsert(keys, i, out.sep, lo, hi);
    AscendingInsert(bs, i, Rank(out.sep));
    assert OrderedAll(kids, bs);
    OrderedTwoAt(kids, bs, i, out.left, Rank(out.sep), out.right);
    hide Rank, Bounds, InsertAt, TwoAt;
    assert OrderedAll(ts, Bounds(ks, lo, hi));
  }

  lemma SplitOrdered(id: PageId, ks: seq<Key>, ts: seq<Tree>, m: nat, spare: PageId, lo: real, hi: real)
    requires Ordered(Node(id, ks, ts), lo, hi) && m < |ks|
    ensures OutOrdered(Two(Node(id, ks[..m], ts[..m + 1]), ks[m], Node(spare, ks[m + 1..], ts[m + 1..])), lo, hi)
  {
    var bs := Bounds(ks, lo, hi);
    assert bs[m + 1] == Rank(ks[m]);
    assert bs[0] == lo && bs[|bs| - 1] == hi;
    hide Rank;
    SplitLeftOrdered(id, ks, ts, m, lo, hi);
    SplitRightOrdered(id, ks, ts, m, spare, lo, hi);
  }

  lemma SplitLeftOrdered(id: PageId, ks: seq<Key>, ts: seq<Tree>, m: nat, lo: real, hi: real)
    requires Ordered(Node(id, ks, ts), lo, hi) && m < |ks|
    ensures Ordered(Node(id, ks[..m], ts[..m + 1]), lo, Rank(ks[m]))
  {
    hide Rank;
    var bs := Bounds(ks, lo, hi);
    BoundsTake(ks, m, lo, hi);
    assert OrderedAll(ts, bs);
    hide Bounds;
    assert Ascending(bs[..m + 2]);
  }

  lemma SplitRightOrdered(id: PageId, ks: seq<Key>, ts: seq<Tree>, m: nat, spare: PageId, lo: real, hi: real)
    requires Ordered(Node(id, ks, ts), lo, hi) && m < |ks|
    ensures Ordered(Node(spare, ks[m + 1..], ts[m + 1..]), Rank(ks[m]), hi)
  {
    hide Rank;
    var bs := Bounds(ks, lo, hi);
    BoundsDrop(ks, m, lo, hi);
    assert OrderedAll(ts, bs);
    hide Bounds;
    var us, cs := ts[m + 1..], bs[m + 1..];
    assert Ascending(cs);
    forall j | 0 <= j < |us| ensures Ordered(us[j], cs[j], cs[j + 1]) {
      assert us[j] == ts[m + 1 + j] && cs[j + 1] == bs[m + 1 + j + 1];
    }
  }

  lemma LeafInsOrdered(id: PageId, es: seq<Entry>, next: PageId, k: Key, v: Val, spare: PageId, lo: real, hi: real)
    requires Ordered(Leaf(id, es, next), lo, hi) && lo <= Rank(k) < hi
    ensures OutOrdered(LeafIns(id, es, next, k, v, spare), lo, hi)
  {
    hide Rank, Pos, Put, Found, Sorted, AllAtLeast, AllBelow;
    var all := Put(es, k, v);
    PutSorted(es, k, v);
    PutBounds(es, k, v, lo, hi);
    if !(Found(es, k) || |es| < MAX_LEAF_KEYS) {
      HalvesOrdered(all, |all| / 2, lo, hi);
    }
  }

  lemma PutBounds(es: seq<Entry>, k: Key, v: Val, lo: real, hi: real)
    requires AllAtLeast(es, lo) && AllBelow(es, hi) && lo <= Rank(k) < hi
    ensures AllAtLeast(Put(es, k, v), lo) && AllBelow(Put(es, k, v), hi)
  {
    hide Rank, Pos, Put, Found;
    var all := Put(es, k, v);
    forall i | 0 <= i < |all| ensures lo <= Rank(all[i].key) < hi {
      PutAt(es, k, v, i);
    }
  }

  lemma HalvesOrdered(all: seq<Entry>, mid: nat, lo: real, hi: real)
    requires Sorted(all) && AllAtLeast(all, lo) && AllBelow(all, hi) && 0 < mid < |all|
    ensures var sep := Rank(all[mid].key);
      && lo < sep < hi
      && Sorted(all[..mid]) && AllAtLeast(all[..mid], lo) && AllBelow(all[..mid], sep)
      && Sorted(all[mid..]) && AllAtLeast(all[mid..], sep) && AllBelow(all[mid..], hi)
  {
    hide Rank;
    assert Rank(all[0].key) < Rank(all[mid].key);
  }

  /** Route leads to the child whose bounds hold the key. */
  lemma RouteBounds(keys: seq<Key>, k: Key, lo: real, hi: real)
    requires lo <= Rank(k) < hi
    ensures Bounds(keys, lo, hi)[Route(keys, k)] <= Rank(k) < Bounds(keys, lo, hi)[Route(keys, k) + 1]
  {
    hide Rank;
  }

  lemma {:induction false} InsOrdered(t: Tree, h: nat, k: Key, v: Val, spare: seq<PageId>, lo: real, hi: real)
    requires Shaped(t, h, 0) && h < |spare|
    requires Ordered(t, lo, hi) && lo <= Rank(k) < hi
    ensures OutOrdered(Ins(t, h, k, v, spare), lo, hi)
    decreases h
  {
    hide Rank;
    match t
    case Leaf(id, es, next) =>
      LeafInsOrdered(id, es, next, k, v, spare[0], lo, hi);
    case Node(id, keys, kids) =>
      var i := Route(keys, k);
      RouteBounds(keys, k, lo, hi);
      var bs := Bounds(keys, lo, hi);
      ShapedWeaken(kids[i], h - 1, MIN_INTERNAL_KEYS, 0);
      InsOrdered(kids[i], h - 1, k, v, spare, bs[i], bs[i + 1]);
      NodeInsOrdered(id, keys, kids, i, Ins(kids[i], h - 1, k, v, spare), spare[h], lo, hi);
  }

  // ----- contents -----

  ghost function OutEntries(out: Outcome): seq<Entry> {
    match out
    case One(t) => Entries(t)
    case Two(l, _, r) => Entries(l) + Entries(r)
  }

  lemma {:induction false} FlatAppend(a: seq<Tree>, b: seq<Tree>)
    ensures Flat(a + b) == Flat(a) + Flat(b)
  {
    hide Entries;
    if a == [] {
      assert a + b == b;
    } else {
      FlatAppend(a[1..], b);
      assert (a + b)[1..] == a[1..] + b && (a + b)[0] == a[0];
      FlatFirst(a);
      FlatFirst(a + b);
      hide Flat;
      assert Entries(a[0]) + (Flat(a[1..]) + Flat(b)) == (Entries(a[0]) + Flat(a[1..])) + Flat(b);
    }
  }

  lemma FlatFirst(ts: seq<Tree>)
    requires ts != []
    ensures Flat(ts) == Entries(ts[0]) + Flat(ts[1..])
  {}

  lemma FlatOne(t: Tree)
    ensures Flat([t]) == Entries(t)
  {}

  lemma FlatParts(ts: seq<Tree>, i: nat)
    requires i < |ts|
    ensures Flat(ts) == Flat(ts[..i]) + Entries(ts[i]) + Flat(ts[i + 1..])
  {
    hide Flat, Entries;
    FlatAppend(ts[..i], [ts[i]]);
    FlatAppend(ts[..i] + [ts[i]], ts[i + 1..]);
    FlatOne(ts[i]);
    TreesAround(ts, i);
  }

  lemma TreesAround(ts: seq<Tree>, i: nat)
    requires i < |ts|
    ensures ts == ts[..i] + [ts[i]] + ts[i + 1..]
  {}

  lemma FlatReplace(ts: seq<Tree>, i: nat, c: Tree)
    requires i < |ts|
    ensures Flat(ts[i := c]) == Flat(ts[..i]) + Entries(c) + Flat(ts[i + 1..])
  {
    FlatParts(ts[i := c], i);
    assert ts[i := c][..i] == ts[..i];
    assert ts[i := c][i + 1..] == ts[i + 1..];
  }

  lemma FlatTwoAt(ts: seq<Tree>, i: nat, l: Tree, r: Tree)
    requires i < |ts|
    ensures Flat(TwoAt(ts, i, l, r)) == Flat(ts[..i]) + (Entries(l) + Entries(r)) + Flat(ts[i + 1..])
  {
    FlatAppend([l], [r]);
    FlatOne(l);
    FlatOne(r);
    assert [l] + [r] == [l, r];
    FlatAppend(ts[..i], [l, r]);
    FlatAppend(ts[..i] + [l, r], ts[i + 1..]);
  }

  lemma {:induction false} OrderedEntries(t: Tree, lo: real, hi: real)
    requires Ordered(t, lo, hi)
    ensures Sorted(Entries(t)) && AllAtLeast(Entries(t), lo) && AllBelow(Entries(t), hi)
  {
    hide Rank;
    match t
    case Leaf(_, _, _) =>
    case Node(_, keys, kids) =>
      var bs := Bounds(keys, lo, hi);
      assert bs[0] == lo && bs[|kids|] == hi;
      forall i | 0 <= i < |kids|
        ensures Sorted(Entries(kids[i])) && AllAtLeast(Entries(kids[i]), bs[i]) && AllBelow(Entries(kids[i]), bs[i + 1])
      {
        OrderedEntries(kids[i], bs[i], bs[i + 1]);
      }
      FlatOrdered(kids, bs);
  }

  lemma {:induction false} FlatOrdered(ts: seq<Tree>, bs: seq<real>)
    requires |bs| == |ts| + 1 && Ascending(bs)
    requires forall i | 0 <= i < |ts| ::
      Sorted(Entries(ts[i])) && AllAtLeast(Entries(ts[i]), bs[i]) && AllBelow(Entries(ts[i]), bs[i + 1])
    ensures Sorted(Flat(ts)) && AllAtLeast(Flat(ts), bs[0]) && AllBelow(Flat(ts), bs[|ts|])
  {
    hide Rank, Entries;
    if ts != [] {
      var us, cs := ts[1..], bs[1..];
      assert Ascending(cs);
      forall i | 0 <= i < |us|
        ensures Sorted(Entries(us[i])) && AllAtLeast(Entries(us[i]), cs[i]) && AllBelow(Entries(us[i]), cs[i + 1])
      {
        assert us[i] == ts[i + 1] && cs[i] == bs[i + 1] && cs[i + 1] == bs[i + 2];
      }
      FlatOrdered(us, cs);
      assert cs[|us|] == bs[|ts|] && cs[0] == bs[1];
      assert bs[0] < bs[1] && (|ts| > 1 ==> bs[1] < bs[|ts|]);
      SortedAppend(Entries(ts[0]), Flat(us), bs[0], bs[1], bs[|ts|]);
    }
  }

  lemma SortedAppend(a: seq<Entry>, b: seq<Entry>, x: real, y: real, z: real)
    requires Sorted(a) && Sorted(b) && x <= y <= z
    requires AllAtLeast(a, x) && AllBelow(a, y) && AllAtLeast(b, y) && AllBelow(b, z)
    ensures Sorted(a + b) && AllAtLeast(a + b, x) && AllBelow(a + b, z)
  {
    hide Rank;
  }

  /** Around the routed child, everything to the left is smaller than k and everything to
      the right is larger: the whole point of upper-bound routing. */
  lemma RoutedParts(t: Tree, k: Key, lo: real, hi: real)
    requires t.Node? && Ordered(t, lo, hi) && lo <= Rank(k) < hi
    ensures var i := Route(t.keys, k);
      && Entries(t) == Flat(t.kids[..i]) + Entries(t.kids[i]) + Flat(t.kids[i + 1..])
      && AllBelow(Flat(t.kids[..i]), Rank(k))
      && AllAbove(Flat(t.kids[i + 1..]), Rank(k))
  {
    hide Rank, Flat;
    var i := Route(t.keys, k);
    var bs := Bounds(t.keys, lo, hi);
    RouteBounds(t.keys, k, lo, hi);
    FlatParts(t.kids, i);
    assert OrderedAll(t.kids, bs);
    hide Ordered, Bounds;
    FlatSlice(t.kids, bs, 0, i);
    FlatSlice(t.kids, bs, i + 1, |t.kids|);
    assert t.kids[0..i] == t.kids[..i];
    assert t.kids[i + 1..|t.kids|] == t.kids[i + 1..];
  }

  lemma FlatSlice(ts: seq<Tree>, bs: seq<real>, i: nat, j: nat)
    requires OrderedAll(ts, bs) && Ascending(bs) && i <= j <= |ts|
    ensures AllAtLeast(Flat(ts[i..j]), bs[i]) && AllBelow(Flat(ts[i..j]), bs[j])
  {
    hide Rank, Flat;
    var us, cs := ts[i..j], bs[i..j + 1];
    forall x | 0 <= x < |us|
      ensures Sorted(Entries(us[x])) && AllAtLeast(Entries(us[x]), cs[x]) && AllBelow(Entries(us[x]), cs[x + 1])
    {
      assert us[x] == ts[i + x] && cs[x] == bs[i + x] && cs[x + 1] == bs[i + x + 1];
      OrderedEntries(us[x], cs[x], cs[x + 1]);
    }
    hide Entries, Ordered;
    FlatOrdered(us, cs);
  }

  lemma NodeInsEntries(id: PageId, keys: seq<Key>, kids: seq<Tree>, i: nat, out: Outcome, spare: PageId)
    requires |kids| == |keys| + 1 && i < |kids|
    ensures OutEntries(NodeIns(id, keys, kids, i, out, spare))
         == Flat(kids[..i]) + OutEntries(out) + Flat(kids[i + 1..])
  {
    match out
    case One(c) => FlatReplace(kids, i, c);
    case Two(l, sep, r) =>
      FlatTwoAt(kids, i, l, r);
      if |keys| >= MAX_INTERNAL_KEYS {
        var ts := TwoAt(kids, i, l, r);
        var m := InsertMid(keys, i, sep);
        FlatAppend(ts[..m + 1], ts[m + 1..]);
        assert ts == ts[..m + 1] + ts[m + 1..];
      }
  }

  ghost function InsertMid(keys: seq<Key>, i: nat, sep: Key): nat
    requires i <= |keys|
  {
    |InsertAt(keys, i, sep)| / 2
  }

  lemma LeafInsEntries(id: PageId, es: seq<Entry>, next: PageId, k: Key, v: Val, spare: PageId)
    ensures OutEntries(LeafIns(id, es, next, k, v, spare)) == Put(es, k, v)
  {
    var all := Put(es, k, v);
    assert all == all[..|all| / 2] + all[|all| / 2..];
  }

  /** Insertion performs the sorted slice's Put on the contents of the whole subtree. */
  lemma {:induction false} InsEntries(t: Tree, h: nat, k: Key, v: Val, spare: seq<PageId>, lo: real, hi: real)
    requires Shaped(t, h, 0) && h < |spare|
    requires Ordered(t, lo, hi) && lo <= Rank(k) < hi
    ensures OutEntries(Ins(t, h, k, v, spare)) == Put(Entries(t), k, v)
    decreases h
  {
    hide Rank, Put, Pos;
    match t
    case Leaf(id, es, next) =>
      LeafInsEntries(id, es, next, k, v, spare[0]);
    case Node(id, keys, kids) =>
      var i := Route(keys, k);
      RouteBounds(keys, k, lo, hi);
      RoutedParts(t, k, lo, hi);
      var bs := Bounds(keys, lo, hi);
      ShapedWeaken(kids[i], h - 1, MIN_INTERNAL_KEYS, 0);
      InsEntries(kids[i], h - 1, k, v, spare, bs[i], bs[i + 1]);
      NodeInsEntries(id, keys, kids, i, Ins(kids[i], h - 1, k, v, spare), spare[h]);
      PutMiddle(Flat(kids[..i]), Entries(kids[i]), Flat(kids[i + 1..]), k, v);
  }

  // ----- shape: depth and fill -----

  ghost predicate OutShaped(out: Outcome, h: nat, least: nat) {
    match out
    case One(t) => Shaped(t, h, least)
    case Two(l, _, r) => Shaped(l, h, MIN_INTERNAL_KEYS) && Shaped(r, h, MIN_INTERNAL_KEYS)
  }

  lemma NodeInsShaped(id: PageId, keys: seq<Key>, kids: seq<Tree>, i: nat, out: Outcome, spare: PageId, h: nat, least: nat)
    requires Shaped(Node(id, keys, kids), h, least) && i < |kids|
    requires OutShaped(out, h - 1, MIN_INTERNAL_KEYS)
    ensures OutShaped(NodeIns(id, keys, kids, i, out, spare), h, least)
  {
    if out.Two? {
      var ts := TwoAt(kids, i, out.left, out.right);
      forall j | 0 <= j < |ts| ensures Shaped(ts[j], h - 1, MIN_INTERNAL_KEYS) {
        assert ts[j] == if j < i then kids[j] else if j == i then out.left
                        else if j == i + 1 then out.right else kids[j - 1];
      }
    }
  }

  /** Insertion keeps all leaves at one depth, nodes within capacity, and every internal node
      it creates at least half full. */
  lemma {:induction false} InsShaped(t: Tree, h: nat, k: Key, v: Val, spare: seq<PageId>, least: nat)
    requires Shaped(t, h, least) && h < |spare|
    ensures Shaped(t, h, 0)
    ensures OutShaped(Ins(t, h, k, v, spare), h, least)
    decreases h
  {
    ShapedWeaken(t, h, least, 0);
    match t
    case Leaf(id, es, next) =>
    case Node(id, keys, kids) =>
      var i := Route(keys, k);
      InsShaped(kids[i], h - 1, k, v, spare, MIN_INTERNAL_KEYS);
      NodeInsShaped(id, keys, kids, i, Ins(kids[i], h - 1, k, v, spare), spare[h], h, least);
  }

  // ----- leaf chain -----

  ghost predicate OutChained(out: Outcome, first: PageId, after: PageId) {
    match out
    case One(t) => Chained(t, after) && First(t) == first
    case Two(l, _, r) => Chained(l, First(r)) && Chained(r, after) && First(l) == first
  }

  lemma ChainedOneAt(ts: seq<Tree>, i: nat, c: Tree, after: PageId)
    requires ChainedAll(ts, after) && i < |ts|
    requires Chained(c, After(ts, i, after)) && First(c) == First(ts[i])
    ensures ChainedAll(ts[i := c], after)
  {
    hide Chained, First;
    var us := ts[i := c];
    forall j | 0 <= j < |us| ensures Chained(us[j], After(us, j, after)) {
      assert After(us, j, after) == After(ts, j, after);
    }
  }

  lemma ChainedTwoAt(ts: seq<Tree>, i: nat, l: Tree, r: Tree, after: PageId)
    requires ChainedAll(ts, after) && i < |ts|
    requires Chained(l, First(r)) && Chained(r, After(ts, i, after)) && First(l) == First(ts[i])
    ensures ChainedAll(TwoAt(ts, i, l, r), after)
  {
    hide Chained, First;
    var us := TwoAt(ts, i, l, r);
    assert us[i] == l && us[i + 1] == r;
    assert forall j | 0 <= j < i :: us[j] == ts[j];
    assert forall j | i + 1 < j < |us| :: us[j] == ts[j - 1];
    forall j | 0 <= j < |us| ensures Chained(us[j], After(us, j, after)) {
      if j < i {
        assert After(us, j, after) == After(ts, j, after);
      } else if j == i {
        assert After(us, j, after) == First(r);
      } else {
        assert After(us, j, after) == After(ts, j - 1, after);
      }
    }
  }

  lemma ChainedSplit(ts: seq<Tree>, m: nat, after: PageId)
    requires ChainedAll(ts, after) && 0 < m < |ts|
    ensures ChainedAll(ts[..m], First(ts[m])) && ChainedAll(ts[m..], after)
  {
    hide Chained, First;
    var a, b := ts[..m], ts[m..];
    forall j | 0 <= j < |a| ensures Chained(a[j], After(a, j, First(ts[m]))) {
      assert After(a, j, First(ts[m])) == After(ts, j, after);
    }
    forall j | 0 <= j < |b| ensures Chained(b[j], After(b, j, after)) {
      assert b[j] == ts[m + j];
      assert After(b, j, after) == After(ts, m + j, after);
    }
  }

  lemma NodeInsChained(id: PageId, keys: seq<Key>, kids: seq<Tree>, i: nat, out: Outcome, spare: PageId, after: PageId)
    requires |kids| == |keys| + 1 && i < |kids|
    requires Chained(Node(id, keys, kids), after)
    requires OutChained(out, First(kids[i]), After(kids, i, after))
    ensures OutChained(NodeIns(id, keys, kids, i, out, spare), First(kids[0]), after)
  {
    assert ChainedAll(kids, after);
    match out
    case One(c) => ChainedOneAt(kids, i, c, after);
    case Two(l, sep, r) =>
      var ts := TwoAt(kids, i, l, r);
      ChainedTwoAt(kids, i, l, r, after);
      assert First(ts[0]) == First(kids[0]);
      if |keys| >= MAX_INTERNAL_KEYS {
        var m := InsertMid(keys, i, sep);
        ChainedSplit(ts, m + 1, after);
      }
  }

  lemma LeafInsChained(id: PageId, es: seq<Entry>, next: PageId, k: Key, v: Val, spare: PageId)
    ensures OutChained(LeafIns(id, es, next, k, v, spare), id, next)
  {
    hide Put, Pos, Rank;
  }

  /** Insertion keeps the leaf links in step with the tree. */
  lemma {:induction false} InsChained(t: Tree, h: nat, k: Key, v: Val, spare: seq<PageId>, after: PageId)
    requires Shaped(t, h, 0) && h < |spare|
    requires Chained(t, after)
    ensures OutChained(Ins(t, h, k, v, spare), First(t), after)
    decreases h
  {
    hide Ins, Shaped, LeafIns, NodeIns, Rank, Route;
    match t
    case Leaf(id, es, next) =>
      InsLeaf(t, h, k, v, spare);
      LeafInsChained(id, es, next, k, v, spare[0]);
    case Node(id, keys, kids) =>
      var i := Route(keys, k);
      InsNode(t, h, k, v, spare);
      InsChained(kids[i], h - 1, k, v, spare, After(kids, i, after));
      NodeInsChained(id, keys, kids, i, Ins(kids[i], h - 1, k, v, spare), spare[h], after);
  }

  // ----- pages -----

  ghost predicate OutApart(out: Outcome, own: set<PageId>) {
    match out
    case One(t) => Apart(t) && Ids(t) <= own
    case Two(l, _, r) => Apart(l) && Apart(r) && Ids(l) !! Ids(r) && Ids(l) <= own && Ids(r) <= own
  }

  lemma ApartOneAt(ts: seq<Tree>, i: nat, c: Tree, extra: set<PageId>)
    requires ApartAll(ts) && i < |ts| && extra !! IdsOf(ts)
    requires Apart(c) && Ids(c) <= Ids(ts[i]) + extra
    ensures ApartAll(ts[i := c]) && IdsOf(ts[i := c]) <= IdsOf(ts) + extra
  {
    hide Apart, Ids;
    forall j | 0 <= j < |ts| ensures Ids(ts[j]) <= IdsOf(ts) {}
  }

  ghost function TwoAtElem(ts: seq<Tree>, i: nat, l: Tree, r: Tree, j: nat): Tree
    requires i < |ts| && j <= |ts|
  {
    if j < i then ts[j] else if j == i then l else if j == i + 1 then r else ts[j - 1]
  }

  lemma ApartTwoAt(ts: seq<Tree>, i: nat, l: Tree, r: Tree, extra: set<PageId>)
    requires ApartAll(ts) && i < |ts| && extra !! IdsOf(ts)
    requires Apart(l) && Apart(r) && Ids(l) !! Ids(r)
    requires Ids(l) <= Ids(ts[i]) + extra && Ids(r) <= Ids(ts[i]) + extra
    ensures ApartAll(TwoAt(ts, i, l, r)) && IdsOf(TwoAt(ts, i, l, r)) <= IdsOf(ts) + extra
  {
    hide Apart, Ids;
    var us := TwoAt(ts, i, l, r);
    forall j | 0 <= j < |us| ensures us[j] == TwoAtElem(ts, i, l, r, j) {}
    forall j | 0 <= j < |us| ensures Ids(us[j]) <= IdsOf(ts) + extra {
      ElemIds(ts, i);
      if j != i && j != i + 1 { ElemIds(ts, if j < i then j else j - 1); }
    }
    hide TwoAt;
    forall a, b | 0 <= a < b < |us| ensures Ids(us[a]) !! Ids(us[b]) {
      PairApart(ts, i, l, r, extra, a, b);
    }
  }

  lemma ElemIds(ts: seq<Tree>, i: nat)
    requires i < |ts|
    ensures Ids(ts[i]) <= IdsOf(ts)
  {
    hide Ids;
  }

  lemma PairApart(ts: seq<Tree>, i: nat, l: Tree, r: Tree, extra: set<PageId>, a: nat, b: nat)
    requires ApartAll(ts) && i < |ts| && extra !! IdsOf(ts) && a < b <= |ts|
    requires Ids(l) !! Ids(r)
    requires Ids(l) <= Ids(ts[i]) + extra && Ids(r) <= Ids(ts[i]) + extra
    ensures Ids(TwoAtElem(ts, i, l, r, a)) !! Ids(TwoAtElem(ts, i, l, r, b))
  {
    hide Apart, Ids, IdsOf;
    ElemIds(ts, i);
    if a < i { ElemIds(ts, a); }
    if a > i + 1 { ElemIds(ts, a - 1); }
    if b < i { ElemIds(ts, b); }
    if b > i + 1 { ElemIds(ts, b - 1); }
  }

  lemma ApartSlice(ts: seq<Tree>, m: nat)
    requires ApartAll(ts) && m <= |ts|
    ensures ApartAll(ts[..m]) && ApartAll(ts[m..])
    ensures IdsOf(ts[..m]) <= IdsOf(ts) && IdsOf(ts[m..]) <= IdsOf(ts)
    ensures IdsOf(ts[..m]) !! IdsOf(ts[m..])
  {
    hide Apart, Ids;
  }

  lemma NodeInsApart(id: PageId, keys: seq<Key>, kids: seq<Tree>, i: nat, out: Outcome, spare: PageId, extra: set<PageId>)
    requires |kids| == |keys| + 1 && i < |kids|
    requires Apart(Node(id, keys, kids)) && spare !in extra
    requires (extra + {spare}) !! ({id} + IdsOf(kids))
    requires OutApart(out, Ids(kids[i]) + extra)
    ensures OutApart(NodeIns(id, keys, kids, i, out, spare), {id} + IdsOf(kids) + extra + {spare})
  {
    assert ApartAll(kids) && id !in IdsOf(kids);
    hide Apart, Ids, ApartAll, IdsOf, InsertAt, TwoAt;
    match out
    case One(c) =>
      ApartOneAt(kids, i, c, extra);
      NodeApart(id, keys, kids[i := c]);
    case Two(l, sep, r) =>
      ApartTwoAt(kids, i, l, r, extra);
      var ks, ts := InsertAt(keys, i, sep), TwoAt(kids, i, l, r);
      if |keys| < MAX_INTERNAL_KEYS {
        NodeApart(id, ks, ts);
      } else {
        HalvesApart(id, ks, ts, |ks| / 2, spare);
      }
  }

  lemma HalvesApart(id: PageId, ks: seq<Key>, ts: seq<Tree>, m: nat, spare: PageId)
    requires ApartAll(ts) && m < |ks| && |ts| == |ks| + 1
    requires id !in IdsOf(ts) && spare !in IdsOf(ts) && id != spare
    ensures OutApart(Two(Node(id, ks[..m], ts[..m + 1]), ks[m], Node(spare, ks[m + 1..], ts[m + 1..])), {id, spare} + IdsOf(ts))
  {
    hide Apart, Ids, ApartAll, IdsOf;
    ApartSlice(ts, m + 1);
    NodeApart(id, ks[..m], ts[..m + 1]);
    NodeApart(spare, ks[m + 1..], ts[m + 1..]);
  }

  lemma NodeApart(id: PageId, keys: seq<Key>, ts: seq<Tree>)
    requires ApartAll(ts) && id !in IdsOf(ts)
    ensures Apart(Node(id, keys, ts)) && Ids(Node(id, keys, ts)) == {id} + IdsOf(ts)
  {}

  ghost function Prefix(spare: seq<PageId>, n: nat): set<PageId>
    requires n <= |spare|
  {
    set i | 0 <= i < n :: spare[i]
  }

  ghost predicate Distinct(s: seq<PageId>) {
    forall i, j | 0 <= i < j < |s| :: s[i] != s[j]
  }

  /** Insertion uses no page twice, and takes new pages only from the spare ones. */
  lemma {:induction false} InsApart(t: Tree, h: nat, k: Key, v: Val, spare: seq<PageId>)
    requires Shaped(t, h, 0) && h < |spare|
    requires Apart(t) && Distinct(spare) && Prefix(spare, h + 1) !! Ids(t)
    ensures OutApart(Ins(t, h, k, v, spare), Ids(t) + Prefix(spare, h + 1))
    decreases h
  {
    hide Ins, Shaped, LeafIns, NodeIns, Rank, Route, Ids, IdsOf, Apart, Prefix, OutApart;
    PrefixSnoc(spare, h);
    match t
    case Leaf(id, es, next) =>
      InsLeaf(t, h, k, v, spare);
      LeafIds(id, es, next);
      NoPrefix(spare);
      LeafInsApart(id, es, next, k, v, spare[0]);
      assert {id} + ({} + {spare[0]}) == {id, spare[0]};
    case Node(id, keys, kids) =>
      var i := Route(keys, k);
      InsNode(t, h, k, v, spare);
      NodeIds(id, keys, kids, i);
      InsApart(kids[i], h - 1, k, v, spare);
      NodeInsApart(id, keys, kids, i, Ins(kids[i], h - 1, k, v, spare), spare[h], Prefix(spare, h));
      assert {id} + IdsOf(kids) + Prefix(spare, h) + {spare[h]} == Ids(t) + Prefix(spare, h + 1);
  }

  lemma PrefixSnoc(spare: seq<PageId>, h: nat)
    requires Distinct(spare) && h < |spare|
    ensures Prefix(spare, h + 1) == Prefix(spare, h) + {spare[h]} && spare[h] !in Prefix(spare, h)
  {
    SpareNotInPrefix(spare, h);
  }

  lemma NoPrefix(spare: seq<PageId>)
    ensures Prefix(spare, 0) == {}
  {}

  lemma LeafIds(id: PageId, es: seq<Entry>, next: PageId)
    ensures Ids(Leaf(id, es, next)) == {id}
  {}

  lemma NodeIds(id: PageId, keys: seq<Key>, kids: seq<Tree>, i: nat)
    requires i < |kids|
    ensures Ids(Node(id, keys, kids)) == {id} + IdsOf(kids) && Ids(kids[i]) <= IdsOf(kids)
    ensures Apart(Node(id, keys, kids)) ==> Apart(kids[i])
  {
    ElemIds(kids, i);
  }

  lemma SpareNotInPrefix(spare: seq<PageId>, h: nat)
    requires Distinct(spare) && h < |spare|
    ensures spare[h] !in Prefix(spare, h)
  {}

  lemma LeafInsApart(id: PageId, es: seq<Entry>, next: PageId, k: Key, v: Val, spare: PageId)
    requires id != spare
    ensures OutApart(LeafIns(id, es, next, k, v, spare), {id, spare})
  {
    hide Put, Pos, Rank;
  }
}
