/** The B+ tree of internal/engine/sql/kv as a mathematical object: what a reachable set of
    node pages stands for, the invariants every operation keeps, and what Set and Delete do
    to the whole tree. */
module Tree {
  import opened Bytes
  import opened SortedEntries

  type PageId = nat

  const MAX_LEAF_KEYS: nat := 7
  const MAX_INTERNAL_KEYS: nat := 56
  const MIN_INTERNAL_KEYS: nat := 28

  datatype Tree =
    | Leaf(id: PageId, entries: seq<Entry>, next: PageId)
    | Node(id: PageId, keys: seq<Key>, kids: seq<Tree>)

  // ----- contents -----

  /** All key/value pairs, left to right. */
  ghost function Entries(t: Tree): seq<Entry> {
    match t
    case Leaf(_, es, _) => es
    case Node(_, _, kids) => Flat(kids)
  }

  ghost function Flat(ts: seq<Tree>): seq<Entry> {
    if ts == [] then [] else Entries(ts[0]) + Flat(ts[1..])
  }

  // ----- invariants -----

  /** The bounds that separators put on the children: lo, the separators, hi. */
  ghost function Bounds(keys: seq<Key>, lo: real, hi: real): (bs: seq<real>)
    ensures |bs| == |keys| + 2
  {
    seq(|keys| + 2, i requires 0 <= i < |keys| + 2 =>
      if i == 0 then lo else if i <= |keys| then Rank(keys[i - 1]) else hi)
  }

  ghost predicate Ascending(bs: seq<real>) {
    forall i, j | 0 <= i < j < |bs| :: bs[i] < bs[j]
  }

  /** Keys are sorted and every key lies between the separators that lead to it. */
  ghost predicate Ordered(t: Tree, lo: real, hi: real) {
    match t
    case Leaf(_, es, _) => Sorted(es) && AllAtLeast(es, lo) && AllBelow(es, hi)
    case Node(_, keys, kids) =>
      && |kids| == |keys| + 1
      && Ascending(Bounds(keys, lo, hi))
      && forall i | 0 <= i < |kids| :: Ordered(kids[i], Bounds(keys, lo, hi)[i], Bounds(keys, lo, hi)[i + 1])
  }

  ghost predicate OrderedAll(ts: seq<Tree>, bs: seq<real>) {
    |bs| == |ts| + 1 && forall i | 0 <= i < |ts| :: Ordered(ts[i], bs[i], bs[i + 1])
  }

  /** All leaves at depth h, nodes within capacity, internal nodes with at least `least` keys
      at the top and at least MIN_INTERNAL_KEYS below it. */
  ghost predicate Shaped(t: Tree, h: nat, least: nat) {
    match t
    case Leaf(_, es, _) => h == 0 && |es| <= MAX_LEAF_KEYS
    case Node(_, keys, kids) =>
      && h > 0
      && least <= |keys| <= MAX_INTERNAL_KEYS
      && |kids| == |keys| + 1
      && forall i | 0 <= i < |kids| :: Shaped(kids[i], h - 1, MIN_INTERNAL_KEYS)
  }

  /** Page of the leftmost leaf. */
  ghost function First(t: Tree): PageId {
    match t
    case Leaf(id, _, _) => id
    case Node(id, _, kids) => if kids == [] then id else First(kids[0])
  }

  /** Where the leaf chain goes after the i-th of these trees. */
  ghost function After(ts: seq<Tree>, i: nat, after: PageId): PageId {
    if i + 1 < |ts| then First(ts[i + 1]) else after
  }

  /** The leaf links visit the leaves left to right and then lead to `after`. */
  ghost predicate Chained(t: Tree, after: PageId) {
    match t
    case Leaf(_, _, next) => next == after
    case Node(_, _, kids) => kids != [] && forall i | 0 <= i < |kids| :: Chained(kids[i], After(kids, i, after))
  }

  ghost predicate ChainedAll(ts: seq<Tree>, after: PageId) {
    forall i | 0 <= i < |ts| :: Chained(ts[i], After(ts, i, after))
  }

  /** The pages a tree occupies. */
  ghost function Ids(t: Tree): set<PageId> {
    match t
    case Leaf(id, _, _) => {id}
    case Node(id, _, kids) => {id} + set i, x | 0 <= i < |kids| && x in Ids(kids[i]) :: x
  }

  ghost function IdsOf(ts: seq<Tree>): set<PageId> {
    set i, x | 0 <= i < |ts| && x in Ids(ts[i]) :: x
  }

  /** No page is used twice. */
  ghost predicate Apart(t: Tree) {
    match t
    case Leaf(_, _, _) => true
    case Node(id, _, kids) =>
      && id !in IdsOf(kids)
      && (forall i | 0 <= i < |kids| :: Apart(kids[i]))
      && (forall i, j | 0 <= i < j < |kids| :: Ids(kids[i]) !! Ids(kids[j]))
  }

  ghost predicate ApartAll(ts: seq<Tree>) {
    && (forall i | 0 <= i < |ts| :: Apart(ts[i]))
    && (forall i, j | 0 <= i < j < |ts| :: Ids(ts[i]) !! Ids(ts[j]))
  }

  // ----- Set and Delete on the whole tree -----

  /** `upperBoundIdx`: the first separator above k, or the last child. */
  function Route(keys: seq<Key>, k: Key): (i: nat)
    ensures i <= |keys|
    ensures forall j | 0 <= j < i :: Rank(keys[j]) <= Rank(k)
    ensures i < |keys| ==> Rank(k) < Rank(keys[i])
  {
    if keys == [] then 0
    else
      RankIsLexOrder(k, keys[0]);
      if LexLess(k, keys[0]) then 0 else 1 + Route(keys[1..], k)
  }

  function InsertAt<T>(s: seq<T>, i: nat, x: T): (r: seq<T>)
    requires i <= |s|
    ensures |r| == |s| + 1
  {
    s[..i] + [x] + s[i..]
  }

  function TwoAt<T>(s: seq<T>, i: nat, x: T, y: T): (r: seq<T>)
    requires i < |s|
    ensures |r| == |s| + 1
  {
    s[..i] + [x, y] + s[i + 1..]
  }

  /** What an insertion makes of a subtree: one subtree, or two with a separator. */
  datatype Outcome = One(t: Tree) | Two(left: Tree, sep: Key, right: Tree)

  ghost function LeafIns(id: PageId, es: seq<Entry>, next: PageId, k: Key, v: Val, spare: PageId): Outcome
  {
    var all := Put(es, k, v);
    if Found(es, k) || |es| < MAX_LEAF_KEYS then One(Leaf(id, all, next))
    else
      var mid := |all| / 2;
      Two(Leaf(id, all[..mid], spare), all[mid].key, Leaf(spare, all[mid..], next))
  }

  /** The effect on a node of an insertion into its i-th child. */
  ghost function NodeIns(id: PageId, keys: seq<Key>, kids: seq<Tree>, i: nat, out: Outcome, spare: PageId): Outcome
    requires |kids| == |keys| + 1 && i < |kids|
  {
    match out
    case One(c) => One(Node(id, keys, kids[i := c]))
    case Two(l, sep, r) =>
      var ks, ts := InsertAt(keys, i, sep), TwoAt(kids, i, l, r);
      if |keys| < MAX_INTERNAL_KEYS then One(Node(id, ks, ts))
      else
        var mid := |ks| / 2;
        Two(Node(id, ks[..mid], ts[..mid + 1]), ks[mid], Node(spare, ks[mid + 1..], ts[mid + 1..]))
  }

  /** Insertion into a subtree of height h; a node split at height i takes page spare[i]. */
  ghost function Ins(t: Tree, h: nat, k: Key, v: Val, spare: seq<PageId>): Outcome
    requires Shaped(t, h, 0)
    requires h < |spare|
    decreases h
  {
    match t
    case Leaf(id, es, next) => LeafIns(id, es, next, k, v, spare[0])
    case Node(id, keys, kids) =>
      var i := Route(keys, k);
      ShapedWeaken(kids[i], h - 1, MIN_INTERNAL_KEYS, 0);
      NodeIns(id, keys, kids, i, Ins(kids[i], h - 1, k, v, spare), spare[h])
  }

  lemma ShapedWeaken(t: Tree, h: nat, m: nat, n: nat)
    requires Shaped(t, h, m) && n <= m
    ensures Shaped(t, h, n)
  {}
}
