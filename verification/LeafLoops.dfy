/** The loops over the keys of one node: routing, lookup and insertion. */
module LeafLoops {
  import opened Wrappers
  import opened Bytes
  import opened SortedEntries
  import opened Tree

  /** upperBoundIdx, and upperBound by its index. */
  method UpperBoundIdx(ptrs: seq<PageId>, keys: seq<Key>, k: Key) returns (i: nat)
    requires |ptrs| == |keys| + 1
    ensures i == Route(keys, k)
  {
    for j := 0 to |keys|
      invariant Route(keys, k) == j + Route(keys[j..], k)
    {
      if LexLess(k, keys[j]) {
        return j;
      }
      assert keys[j..][1..] == keys[j + 1..];
    }
    return |ptrs| - 1;
  }

  /** The scan for an equal key. */
  method FindIn(es: seq<Entry>, k: Key) returns (pos: Option<nat>)
    requires Sorted(es)
    ensures pos == if Found(es, k) then Some(Pos(es, k)) else None
  {
    hide Rank;
    for i := 0 to |es|
      invariant forall j | 0 <= j < i :: es[j].key != k
    {
      if es[i].key == k {
        FoundIffPresent(es, k, i);
        return Some(i);
      }
    }
    return None;
  }

  method InsertionPos(es: seq<Entry>, k: Key) returns (pos: nat)
    ensures pos == Pos(es, k)
  {
    hide Rank;
    pos := 0;
    while pos < |es| && LexLess(es[pos].key, k)
      invariant pos <= |es| && forall j | 0 <= j < pos :: Rank(es[j].key) < Rank(k)
    {
      RankIsLexOrder(es[pos].key, k);
      pos := pos + 1;
    }
    if pos < |es| {
      RankIsLexOrder(es[pos].key, k);
    }
    PosUnique(es, k, pos);
  }

  /** What the merge has built before reading entry i. */
  ghost function Merged(es: seq<Entry>, k: Key, v: Val, i: nat): seq<Entry>
    requires i <= |es|
  {
    var p := Pos(es, k);
    if i <= p then es[..i] else es[..p] + [Entry(k, v)] + es[p..i]
  }

  /** splitLeaf's merge of the new entry into a full leaf. */
  method Merge(es: seq<Entry>, k: Key, v: Val) returns (all: seq<Entry>)
    requires Sorted(es) && !Found(es, k)
    ensures all == Put(es, k, v)
  {
    hide Rank, Pos, Sorted;
    all := [];
    var inserted := false;
    for i := 0 to |es|
      invariant all == Merged(es, k, v, i) && inserted == (i > Pos(es, k))
    {
      MergeStep(es, k, v, i);
      if !inserted && LexLess(k, es[i].key) {
        all := all + [Entry(k, v)];
        inserted := true;
      }
      all := all + [es[i]];
    }
    var p := Pos(es, k);
    assert es[p..|es|] == es[p..] && es[..|es|] == es;
    if !inserted {
      assert p == |es|;
      all := all + [Entry(k, v)];
    }
  }

  lemma MergeStep(es: seq<Entry>, k: Key, v: Val, i: nat)
    requires Sorted(es) && !Found(es, k) && i < |es|
    ensures i < Pos(es, k) ==> !LexLess(k, es[i].key)
    ensures i == Pos(es, k) ==> LexLess(k, es[i].key)
    ensures Merged(es, k, v, i + 1)
         == Merged(es, k, v, i) + (if i == Pos(es, k) then [Entry(k, v)] else []) + [es[i]]
  {
    MergedStep(es, k, v, i);
    hide Rank, Merged, Sorted;
    RankIsLexOrder(k, es[i].key);
    RankIsLexOrder(es[i].key, k);
  }

  lemma MergedStep(es: seq<Entry>, k: Key, v: Val, i: nat)
    requires i < |es|
    ensures Merged(es, k, v, i + 1)
         == Merged(es, k, v, i) + (if i == Pos(es, k) then [Entry(k, v)] else []) + [es[i]]
  {
    hide Pos;
    var p, e := Pos(es, k), Entry(k, v);
    if i < p {
      assert es[..i] + [] + [es[i]] == es[..i + 1];
    } else if i == p {
      assert es[p..p + 1] == [es[p]];
    } else {
      assert es[p..i + 1] == es[p..i] + [es[i]];
      assert es[..p] + [e] + es[p..i] + [] == es[..p] + [e] + es[p..i];
    }
  }
}
