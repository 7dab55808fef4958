/** The in-memory store (internal/engine/sql/store/store.go): a sorted slice with binary search. */
module SortedStore {
  import opened Wrappers
  import opened Bytes
  import opened SortedEntries
  import opened Picks

  class Store {
    var entries: seq<Entry>

    ghost predicate Valid()
      reads this
    {
      Sorted(entries)
    }

    constructor ()
      ensures Valid() && entries == []
    {
      entries := [];
    }

    /** sort.Search for the first key not below k. */
    method LowerBound(k: Key) returns (idx: nat)
      requires Valid()
      ensures idx == Pos(entries, k)
    {
      hide Rank;
      var lo, hi := 0, |entries|;
      while lo < hi
        invariant 0 <= lo <= hi <= |entries|
        invariant lo > 0 ==> Rank(entries[lo - 1].key) < Rank(k)
        invariant hi < |entries| ==> Rank(k) <= Rank(entries[hi].key)
      {
        var mid := (lo + hi) / 2;
        RankIsLexOrder(entries[mid].key, k);
        if LexLess(entries[mid].key, k) {
          lo := mid + 1;
        } else {
          hi := mid;
        }
      }
      PosUnique(entries, k, lo);
      return lo;
    }

    method Search(k: Key) returns (idx: nat, found: bool)
      requires Valid()
      ensures idx == Pos(entries, k) && found == Found(entries, k)
    {
      idx := LowerBound(k);
      found := idx < |entries| && entries[idx].key == k;
    }

    method Put(k: Key, v: Val)
      requires Valid()
      modifies this
      ensures Valid() && entries == SortedEntries.Put(old(entries), k, v)
    {
      PutSorted(entries, k, v);
      hide Sorted;
      var idx, found := Search(k);
      if found {
        entries := entries[idx := Entry(k, v)];
        return;
      }
      entries := entries[..idx] + [Entry(k, v)] + entries[idx..];
    }

    method Get(k: Key) returns (r: Option<Val>)
      requires Valid()
      ensures r == Lookup(entries, k)
    {
      var idx, found := Search(k);
      if !found {
        return None;
      }
      return Some(entries[idx].val);
    }

    method Delete(k: Key)
      requires Valid()
      modifies this
      ensures Valid() && entries == Remove(old(entries), k)
    {
      RemoveSorted(entries, k);
      hide Sorted;
      var idx, found := Search(k);
      if !found {
        return;
      }
      entries := entries[..idx] + entries[idx + 1..];
    }

    /** The entries in [start, end): none unless start < end, so an empty end selects nothing. */
    method Scan(start: Key, end: Key) returns (r: seq<Entry>, ghost js: seq<nat>)
      requires Valid()
      ensures r == if end == [] then [] else Select(entries, start, end)
      ensures Picked(entries, js, r)
      ensures forall n | 0 <= n < |entries| :: n in js <==> !LexLess(entries[n].key, start) && LexLess(entries[n].key, end)
    {
      js := SelectPicks(entries, start, end);
      if end == [] {
        js := [];
        NoEnd(entries, start);
      }
      r := ScanTo(start, end);
    }

    /** The loop of Scan. */
    method ScanTo(start: Key, end: Key) returns (r: seq<Entry>)
      requires Valid()
      ensures r == if end == [] then [] else Select(entries, start, end)
    {
      hide Rank;
      if !LexLess(start, end) {
        EmptyRange(entries, start, end);
        return [];
      }
      var startIdx := LowerBound(start);
      BelowStart(entries, start, end);
      r := [];
      for i := startIdx to |entries|
        invariant r == Select(entries[..i], start, end)
      {
        if !LexLess(entries[i].key, end) {
          SelectStop(entries, i, start, end);
          return;
        }
        AtOrAbove(entries, start, i);
        assert entries[..i + 1] == entries[..i] + [entries[i]];
        SelectSnoc(entries[..i], entries[i], start, end);
        r := r + [entries[i]];
      }
      assert entries[..|entries|] == entries;
    }
  }

  lemma NoEnd(es: seq<Entry>, start: Key)
    ensures forall n | 0 <= n < |es| :: !LexLess(es[n].key, [])
  {}

  lemma EmptyRange(es: seq<Entry>, start: Key, end: Key)
    requires !LexLess(start, end)
    ensures end != [] ==> Select(es, start, end) == []
  {
    hide Rank;
    if end != [] {
      forall i | 0 <= i < |es| ensures !InRange(es[i].key, start, end) {
        RankIsLexOrder(start, end);
        RankIsLexOrder(es[i].key, start);
        RankIsLexOrder(es[i].key, end);
      }
      SelectNone(es, start, end);
    }
  }

  lemma BelowStart(es: seq<Entry>, start: Key, end: Key)
    ensures Select(es[..Pos(es, start)], start, end) == []
  {
    hide Rank;
    var p := Pos(es, start);
    forall i | 0 <= i < p ensures !InRange(es[..p][i].key, start, end) {
      RankIsLexOrder(es[i].key, start);
      NothingBelow(es[i].key);
    }
    SelectNone(es[..p], start, end);
  }

  lemma AtOrAbove(es: seq<Entry>, start: Key, i: nat)
    requires Sorted(es) && Pos(es, start) <= i < |es|
    ensures !LexLess(es[i].key, start)
  {
    hide Rank;
    RankIsLexOrder(es[i].key, start);
    assert Rank(start) <= Rank(es[Pos(es, start)].key) <= Rank(es[i].key);
  }
}
