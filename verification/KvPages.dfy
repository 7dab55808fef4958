/** The pages of the key-value store: one codec for the three page kinds, and the pages of a
    tree, all of which can be encoded. */
module KvPages {
  import opened Wrappers
  import opened Bytes
  import opened SortedEntries
  import opened Tree
  import opened TreeInsert
  import opened TreeOps
  import opened TreePages
  import opened NodeCodec

  const META_PAGE: PageId := 2

  // ----- one codec -----

  predicate AllKeysFit(keys: seq<Key>) {
    forall i | 0 <= i < |keys| :: |keys[i]| <= MAX_KEY_SIZE
  }

  predicate AllIdsFit(ids: seq<PageId>) {
    forall i | 0 <= i < |ids| :: ids[i] < U64_LIMIT
  }

  /** What the encoders accept, for inline values. */
  ghost predicate Encodable(p: Page) {
    match p
    case LeafPage(es, next) => |es| <= MAX_LEAF_KEYS && FitsLeaf(es) && Ascends(Keys(es)) && next < U64_LIMIT
    case InternalPage(ptrs, keys) =>
      |ptrs| == |keys| + 1 && |keys| <= MAX_INTERNAL_KEYS && Ascends(keys) && AllKeysFit(keys) && AllIdsFit(ptrs)
    case MetaPage(root) => root < U64_LIMIT
  }

  function EncodePage(p: Page): (r: Option<Bytes>)
    ensures r.Some? ==> |r.value| == BODY_SIZE
  {
    match p
    case LeafPage(es, next) => if next < U64_LIMIT then EncodeLeaf(es, next) else None
    case InternalPage(ptrs, keys) => if AllIdsFit(ptrs) then EncodeInternal(ptrs, keys) else None
    case MetaPage(root) => if root < U64_LIMIT then Some(EncodeMeta(root)) else None
  }

  /** decodeLeafNode on inline values. */
  function Inlined(refs: seq<(Key, ValueRef)>): (r: Option<seq<Entry>>)
  {
    if exists i :: 0 <= i < |refs| && !refs[i].1.Inline? then None
    else Some(seq(|refs|, i requires 0 <= i < |refs| => Entry(refs[i].0, refs[i].1.val)))
  }

  function DecodePage(b: Bytes): Option<Page> {
    if |b| != BODY_SIZE then None
    else if b[0] == TYPE_LEAF then
      match DecodeLeaf(b)
      case None => None
      case Some(leaf) =>
        match Inlined(leaf.0)
        case None => None
        case Some(es) => Some(LeafPage(es, leaf.1))
    else if b[0] == TYPE_INTERNAL then
      match DecodeInternal(b)
      case None => None
      case Some(node) => Some(InternalPage(node.0, node.1))
    else
      match DecodeMeta(b)
      case None => None
      case Some(root) => Some(MetaPage(root))
  }

  /** Every page the store writes reads back as itself. */
  lemma PageRoundTrip(p: Page)
    requires Encodable(p)
    ensures EncodePage(p).Some? && DecodePage(EncodePage(p).value) == Some(p)
  {
    hide Ascends, DecodeLeafSlots, DecodeInternalSlots, LeafSlots, InternalSlots, Put16, Put64, Get16, Get64;
    match p
    case LeafPage(es, next) =>
      LeafRoundTrip(es, next);
      hide EncodeLeaf;
      InlinedRefs(es);
    case InternalPage(ptrs, keys) =>
      InternalRoundTrip(ptrs, keys);
      hide EncodeInternal;
    case MetaPage(root) =>
      MetaRoundTrip(root);
      assert EncodeMeta(root)[0] == TYPE_META;
  }

  lemma InlinedRefs(es: seq<Entry>)
    ensures Inlined(Refs(es)) == Some(es)
  {
    RefsAt(es);
    assert Inlined(Refs(es)).value == es;
  }

  lemma {:induction false} RefsAt(es: seq<Entry>)
    ensures |Refs(es)| == |es| && forall i | 0 <= i < |es| :: Refs(es)[i] == (es[i].key, Inline(es[i].val))
  {}

  // ----- the pages of a tree can be encoded -----

  ghost function PageOf(t: Tree): Page {
    match t
    case Leaf(_, es, next) => LeafPage(es, next)
    case Node(_, keys, kids) => InternalPage(Roots(kids), keys)
  }

  /** Sizes are within the limits of the page format. */
  ghost predicate Fits(t: Tree) {
    t.id < U64_LIMIT &&
    match t
    case Leaf(_, es, next) => FitsLeaf(es) && next < U64_LIMIT
    case Node(_, keys, kids) => AllKeysFit(keys) && forall i | 0 <= i < |kids| :: Fits(kids[i])
  }

  ghost predicate FitsAll(ts: seq<Tree>) {
    forall i | 0 <= i < |ts| :: Fits(ts[i])
  }

  ghost predicate OutFits(out: Outcome) {
    match out
    case One(t) => Fits(t)
    case Two(l, sep, r) => Fits(l) && Fits(r) && |sep| <= MAX_KEY_SIZE
  }

  lemma TreeEncodable(t: Tree, h: nat, least: nat, lo: real, hi: real)
    requires Ordered(t, lo, hi) && Shaped(t, h, least) && Fits(t)
    ensures Encodable(PageOf(t))
  {
    match t
    case Leaf(_, es, _) =>
      SortedAscends(es);
    case Node(_, keys, kids) =>
      BoundsAscend(keys, lo, hi);
  }

  lemma SortedAscends(es: seq<Entry>)
    requires Sorted(es)
    ensures Ascends(Keys(es))
  {
    forall i | 1 <= i < |es| ensures LexLess(Keys(es)[i - 1], Keys(es)[i]) {
      RankIsLexOrder(es[i - 1].key, es[i].key);
    }
  }

  lemma BoundsAscend(keys: seq<Key>, lo: real, hi: real)
    requires Ascending(Bounds(keys, lo, hi))
    ensures Ascends(keys)
  {
    forall i | 1 <= i < |keys| ensures LexLess(keys[i - 1], keys[i]) {
      RankIsLexOrder(keys[i - 1], keys[i]);
      assert Bounds(keys, lo, hi)[i] < Bounds(keys, lo, hi)[i + 1];
    }
  }

  lemma PutFits(es: seq<Entry>, k: Key, v: Val)
    requires FitsLeaf(es) && |k| <= MAX_KEY_SIZE && |v| <= MAX_VAL_SIZE
    ensures FitsLeaf(Put(es, k, v))
  {}

  lemma RemoveFits(es: seq<Entry>, k: Key)
    requires FitsLeaf(es)
    ensures FitsLeaf(Remove(es, k))
  {}

  lemma FitsNode(id: PageId, keys: seq<Key>, ts: seq<Tree>)
    requires id < U64_LIMIT && AllKeysFit(keys) && FitsAll(ts)
    ensures Fits(Node(id, keys, ts))
  {}

  lemma TwoAtFits(ts: seq<Tree>, i: nat, l: Tree, r: Tree)
    requires FitsAll(ts) && i < |ts| && Fits(l) && Fits(r)
    ensures FitsAll(TwoAt(ts, i, l, r))
  {
    hide Fits;
  }

  lemma InsertAtFits(keys: seq<Key>, i: nat, sep: Key)
    requires AllKeysFit(keys) && i <= |keys| && |sep| <= MAX_KEY_SIZE
    ensures AllKeysFit(InsertAt(keys, i, sep))
  {}

  /** The leaf for k holds k already or has room for it. */
  ghost predicate NoSplit(t: Tree, k: Key) {
    var leaf := LeafFor(t, k);
    leaf.Leaf? && (Found(leaf.entries, k) || |leaf.entries| < MAX_LEAF_KEYS)
  }

  lemma LeafInsFits(t: Tree, k: Key, v: Val, spare: PageId)
    requires t.Leaf? && Fits(t) && |k| <= MAX_KEY_SIZE && |v| <= MAX_VAL_SIZE
    requires NoSplit(t, k) || spare < U64_LIMIT
    ensures NoSplit(t, k) ==> LeafIns(t.id, t.entries, t.next, k, v, spare).One?
    ensures OutFits(LeafIns(t.id, t.entries, t.next, k, v, spare))
  {
    PutFits(t.entries, k, v);
    hide Put, Found, FitsLeaf;
    var all := Put(t.entries, k, v);
    HalvesFit(all, |all| / 2);
    KeyAtFits(all);
  }

  lemma HalvesFit(es: seq<Entry>, mid: nat)
    requires FitsLeaf(es) && mid <= |es|
    ensures FitsLeaf(es[..mid]) && FitsLeaf(es[mid..])
  {}

  lemma KeyAtFits(es: seq<Entry>)
    requires FitsLeaf(es)
    ensures forall i | 0 <= i < |es| :: |es[i].key| <= MAX_KEY_SIZE
  {}

  lemma NodeInsFits(t: Tree, i: nat, out: Outcome, spare: PageId)
    requires t.Node? && Fits(t) && OutFits(out) && |t.kids| == |t.keys| + 1 && i < |t.kids|
    requires out.One? || spare < U64_LIMIT
    ensures OutFits(NodeIns(t.id, t.keys, t.kids, i, out, spare))
  {
    assert FitsAll(t.kids) && AllKeysFit(t.keys);
    match out
    case One(c) =>
      assert FitsAll(t.kids[i := c]) by { hide Fits; }
      FitsNode(t.id, t.keys, t.kids[i := c]);
    case Two(l, sep, r) =>
      InsertAtFits(t.keys, i, sep);
      TwoAtFits(t.kids, i, l, r);
      hide Fits, InsertAt, TwoAt;
      var ks, ts := InsertAt(t.keys, i, sep), TwoAt(t.kids, i, l, r);
      FitsNode(t.id, ks, ts);
      if |t.keys| >= MAX_INTERNAL_KEYS {
        var mid := |ks| / 2;
        FitsNode(t.id, ks[..mid], ts[..mid + 1]);
        FitsNode(spare, ks[mid + 1..], ts[mid + 1..]);
      }
  }

  lemma {:induction false} InsFits(t: Tree, h: nat, k: Key, v: Val, spare: seq<PageId>)
    requires Shaped(t, h, 0) && h < |spare| && Fits(t)
    requires NoSplit(t, k) || AllIdsFit(spare)
    requires |k| <= MAX_KEY_SIZE && |v| <= MAX_VAL_SIZE
    ensures OutFits(Ins(t, h, k, v, spare))
    ensures NoSplit(t, k) ==> Ins(t, h, k, v, spare).One?
    decreases h
  {
    hide Ins, LeafIns, Shaped, Route;
    match t
    case Leaf(_, _, _) =>
      InsLeaf(t, h, k, v, spare);
      LeafInsFits(t, k, v, spare[0]);
    case Node(_, keys, kids) =>
      InsNode(t, h, k, v, spare);
      var i := Route(keys, k);
      assert LeafFor(t, k) == LeafFor(kids[i], k);
      InsFits(kids[i], h - 1, k, v, spare);
      NodeInsFits(t, i, Ins(kids[i], h - 1, k, v, spare), spare[h]);
  }

  lemma {:induction false} DelFits(t: Tree, k: Key)
    requires Fits(t)
    ensures Fits(Del(t, k))
  {
    match t
    case Leaf(_, es, _) =>
      RemoveFits(es, k);
    case Node(id, keys, kids) =>
      var i := Route(keys, k);
      if i < |kids| {
        DelFits(kids[i], k);
        var ts := kids[i := Del(kids[i], k)];
        assert FitsAll(ts) by { hide Fits, Del; }
        FitsNode(id, keys, ts);
      }
  }
}
