/** The sorted slice of key/value pairs that internal/engine/sql/store keeps in memory:
    the specification both for that store and for the on-disk B+ tree. */
module SortedEntries {
  import opened Wrappers
  import opened Bytes
  import opened Picks

  type Key = Bytes
  type Val = Bytes

  datatype Entry = Entry(key: Key, val: Val)

  /** Strictly ascending in the byte-wise order of keys. */
  ghost predicate Sorted(es: seq<Entry>) {
    forall i, j | 0 <= i < j < |es| :: Rank(es[i].key) < Rank(es[j].key)
  }

  ghost predicate AllBelow(es: seq<Entry>, bound: real) {
    forall i | 0 <= i < |es| :: Rank(es[i].key) < bound
  }

  ghost predicate AllAtLeast(es: seq<Entry>, bound: real) {
    forall i | 0 <= i < |es| :: bound <= Rank(es[i].key)
  }

  ghost predicate AllAbove(es: seq<Entry>, bound: real) {
    forall i | 0 <= i < |es| :: bound < Rank(es[i].key)
  }

  /** Index of the first entry whose key is not below k. */
  function Pos(es: seq<Entry>, k: Key): (p: nat)
    ensures p <= |es|
    ensures forall i | 0 <= i < p :: Rank(es[i].key) < Rank(k)
    ensures p < |es| ==> Rank(k) <= Rank(es[p].key)
  {
    RankIsLexOrder(if es == [] then k else es[0].key, k);
    if es == [] || !LexLess(es[0].key, k) then 0
    else
      var p := Pos(es[1..], k) + 1;
      p
  }

  predicate Found(es: seq<Entry>, k: Key) {
    Pos(es, k) < |es| && es[Pos(es, k)].key == k
  }

  function Lookup(es: seq<Entry>, k: Key): Option<Val> {
    if Found(es, k) then Some(es[Pos(es, k)].val) else None
  }

  function Put(es: seq<Entry>, k: Key, v: Val): (r: seq<Entry>)
    ensures |r| == if Found(es, k) then |es| else |es| + 1
  {
    var p := Pos(es, k);
    if Found(es, k) then es[p := Entry(k, v)] else es[..p] + [Entry(k, v)] + es[p..]
  }

  function Remove(es: seq<Entry>, k: Key): seq<Entry> {
    var p := Pos(es, k);
    if Found(es, k) then es[..p] + es[p + 1..] else es
  }

  /** start <= k < end, an empty bound meaning unbounded. */
  predicate InRange(k: Key, start: Key, end: Key) {
    (start == [] || !LexLess(k, start)) && (end == [] || LexLess(k, end))
  }

  function Select(es: seq<Entry>, start: Key, end: Key): seq<Entry> {
    if es == [] then []
    else (if InRange(es[0].key, start, end) then [es[0]] else []) + Select(es[1..], start, end)
  }

  // ----- properties -----

  /** Pos is the only split point with smaller keys before it and none smaller at it. */
  lemma PosUnique(es: seq<Entry>, k: Key, p: nat)
    requires p <= |es| && forall i | 0 <= i < p :: Rank(es[i].key) < Rank(k)
    requires p < |es| ==> Rank(k) <= Rank(es[p].key)
    ensures Pos(es, k) == p
  {
    hide Rank;
  }

  /** In a sorted slice a key is found exactly when some entry carries it. */
  lemma FoundIffPresent(es: seq<Entry>, k: Key, i: nat)
    requires Sorted(es) && i < |es| && es[i].key == k
    ensures Found(es, k) && Pos(es, k) == i
  {
    hide Rank;
    PosUnique(es, k, i);
  }

  lemma PutSorted(es: seq<Entry>, k: Key, v: Val)
    requires Sorted(es)
    ensures Sorted(Put(es, k, v))
  {
    hide Rank;
    var p := Pos(es, k);
    var r := Put(es, k, v);
    if p < |es| { RankIsLexOrder(es[p].key, k); }
    if !Found(es, k) {
      forall i, j | 0 <= i < j < |r| ensures Rank(r[i].key) < Rank(r[j].key) {
        assert r[i] == if i < p then es[i] else if i == p then Entry(k, v) else es[i - 1];
        assert r[j] == if j < p then es[j] else if j == p then Entry(k, v) else es[j - 1];
      }
    }
  }

  lemma LookupAt(es: seq<Entry>, k: Key, i: nat)
    requires Sorted(es) && i < |es| && es[i].key == k
    ensures Lookup(es, k) == Some(es[i].val)
  {
    FoundIffPresent(es, k, i);
  }

  lemma LookupNone(es: seq<Entry>, k: Key)
    requires Sorted(es)
    ensures Lookup(es, k) == None <==> forall i | 0 <= i < |es| :: es[i].key != k
  {
    hide Sorted, Pos;
    forall i | 0 <= i < |es| && es[i].key == k ensures Lookup(es, k) == Some(es[i].val) {
      LookupAt(es, k, i);
    }
  }

  lemma PutAt(es: seq<Entry>, k: Key, v: Val, i: nat)
    requires i < |Put(es, k, v)|
    ensures Pos(es, k) < |Put(es, k, v)|
    ensures Put(es, k, v)[i]
         == if i == Pos(es, k) then Entry(k, v) else if Found(es, k) || i < Pos(es, k) then es[i] else es[i - 1]
  {
    hide Pos;
  }

  lemma RemoveAt(es: seq<Entry>, k: Key, i: nat)
    requires i < |Remove(es, k)| && Found(es, k)
    ensures |Remove(es, k)| == |es| - 1
    ensures Remove(es, k)[i] == if i < Pos(es, k) then es[i] else es[i + 1]
  {
    hide Pos;
  }

  /** Put acts as a map update. */
  lemma PutIsMapUpdate(es: seq<Entry>, k: Key, v: Val, q: Key)
    requires Sorted(es)
    ensures Lookup(Put(es, k, v), q) == if q == k then Some(v) else Lookup(es, q)
  {
    hide Pos, Sorted, Put, Lookup, Found;
    PutSorted(es, k, v);
    if q == k {
      PutThere(es, k, v);
    } else {
      PutElsewhere(es, k, v, q);
    }
  }

  lemma PutThere(es: seq<Entry>, k: Key, v: Val)
    requires Sorted(Put(es, k, v))
    ensures Lookup(Put(es, k, v), k) == Some(v)
  {
    hide Pos, Sorted, Lookup;
    var r := Put(es, k, v);
    PutAt(es, k, v, |r| - 1);
    PutAt(es, k, v, Pos(es, k));
    LookupAt(r, k, Pos(es, k));
  }

  lemma PutElsewhere(es: seq<Entry>, k: Key, v: Val, q: Key)
    requires Sorted(es) && Sorted(Put(es, k, v)) && q != k
    ensures Lookup(Put(es, k, v), q) == Lookup(es, q)
  {
    hide Pos, Sorted, Put;
    var p, r := Pos(es, k), Put(es, k, v);
    LookupNone(es, q);
    LookupNone(r, q);
    if Found(es, q) {
      var i := Pos(es, q);
      var j := if Found(es, k) || i < p then i else i + 1;
      PutAt(es, k, v, j);
      LookupAt(r, q, j);
    } else {
      hide Lookup, Found;
      forall i | 0 <= i < |r| ensures r[i].key != q {
        PutAt(es, k, v, i);
      }
    }
  }

  lemma RemoveSorted(es: seq<Entry>, k: Key)
    requires Sorted(es)
    ensures Sorted(Remove(es, k))
  {
    hide Rank, Pos;
    var r := Remove(es, k);
    if Found(es, k) {
      forall i, j | 0 <= i < j < |r| ensures Rank(r[i].key) < Rank(r[j].key) {
        RemoveAt(es, k, i);
        RemoveAt(es, k, j);
      }
    }
  }

  lemma RemoveIsMapRemoval(es: seq<Entry>, k: Key, q: Key)
    requires Sorted(es)
    ensures Lookup(Remove(es, k), q) == if q == k then None else Lookup(es, q)
  {
    if !Found(es, k) {
      return;
    }
    RemoveSorted(es, k);
    LookupNone(es, q);
    var p, r := Pos(es, k), Remove(es, k);
    LookupNone(r, q);
    assert |r| == |es| - 1;
    if Found(es, q) && q != k {
      var i := Pos(es, q);
      assert i != p;
      hide Pos, Sorted, Remove;
      var j := if i < p then i else i - 1;
      RemoveAt(es, k, j);
      LookupAt(r, q, j);
    } else {
      forall i | 0 <= i < |r| ensures r[i].key != q {
        RemovedKeys(es, k, i);
        RemoveAt(es, k, i);
      }
    }
  }

  lemma RemovedKeys(es: seq<Entry>, k: Key, i: nat)
    requires Sorted(es) && i < |Remove(es, k)| && Found(es, k)
    ensures Remove(es, k)[i].key != k
  {
    RemoveAt(es, k, i);
    hide Remove, Rank;
    var p := Pos(es, k);
    assert Rank(es[if i < p then i else i + 1].key) != Rank(es[p].key);
  }

  lemma {:induction false} PosAfterSmaller(a: seq<Entry>, t: seq<Entry>, k: Key)
    requires AllBelow(a, Rank(k))
    ensures Pos(a + t, k) == |a| + Pos(t, k)
  {
    hide Rank;
    if a == [] {
      assert a + t == t;
    } else {
      RankIsLexOrder(a[0].key, k);
      assert (a + t)[1..] == a[1..] + t;
      PosAfterSmaller(a[1..], t, k);
    }
  }

  lemma PosBeforeLarger(b: seq<Entry>, c: seq<Entry>, k: Key)
    requires AllAbove(c, Rank(k))
    ensures Pos(b + c, k) == Pos(b, k)
  {
    hide Rank, Pos;
    var p := Pos(b, k);
    assert forall i | 0 <= i < p :: (b + c)[i] == b[i];
    if p == |b| && c != [] {
      assert (b + c)[p] == c[0];
    }
    PosUnique(b + c, k, p);
  }

  /** An update strictly inside the middle part leaves the outer parts alone. */
  lemma PosMiddle(a: seq<Entry>, b: seq<Entry>, c: seq<Entry>, k: Key)
    requires AllBelow(a, Rank(k))
    requires AllAbove(c, Rank(k))
    ensures Pos(a + b + c, k) == |a| + Pos(b, k)
    ensures Found(a + b + c, k) == Found(b, k)
  {
    hide Rank, Pos, AllBelow;
    assert a + b + c == a + (b + c);
    PosAfterSmaller(a, b + c, k);
    PosBeforeLarger(b, c, k);
    var p := Pos(b, k);
    if p < |b| {
      assert (a + b + c)[|a| + p] == b[p];
    } else if c != [] {
      assert (a + b + c)[|a| + p] == c[0];
    }
  }

  lemma SpliceMiddle(a: seq<Entry>, b: seq<Entry>, c: seq<Entry>, p: nat, q: nat, mid: seq<Entry>)
    requires p <= q <= |b|
    ensures (a + b + c)[..|a| + p] + mid + (a + b + c)[|a| + q..] == a + (b[..p] + mid + b[q..]) + c
  {
    assert (a + b + c)[..|a| + p] == a + b[..p];
    assert (a + b + c)[|a| + q..] == b[q..] + c;
  }

  lemma CutMiddle(a: seq<Entry>, b: seq<Entry>, c: seq<Entry>, p: nat, q: nat)
    requires p <= q <= |b|
    ensures (a + b + c)[..|a| + p] + (a + b + c)[|a| + q..] == a + (b[..p] + b[q..]) + c
  {
    assert (a + b + c)[..|a| + p] == a + b[..p];
    assert (a + b + c)[|a| + q..] == b[q..] + c;
  }

  lemma PutMiddle(a: seq<Entry>, b: seq<Entry>, c: seq<Entry>, k: Key, v: Val)
    requires AllBelow(a, Rank(k))
    requires AllAbove(c, Rank(k))
    ensures Put(a + b + c, k, v) == a + Put(b, k, v) + c
  {
    hide Rank, Pos, AllBelow, AllAbove, Put, Found;
    PosMiddle(a, b, c, k);
    PutSplice(a + b + c, k, v);
    PutSplice(b, k, v);
    var p := Pos(b, k);
    if Found(b, k) {
      SpliceMiddle(a, b, c, p, p + 1, [Entry(k, v)]);
    } else {
      SpliceMiddle(a, b, c, p, p, [Entry(k, v)]);
    }
  }

  lemma PutSplice(es: seq<Entry>, k: Key, v: Val)
    ensures Found(es, k) ==>
      Pos(es, k) < |es| && Put(es, k, v) == es[..Pos(es, k)] + [Entry(k, v)] + es[Pos(es, k) + 1..]
    ensures !Found(es, k) ==> Put(es, k, v) == es[..Pos(es, k)] + [Entry(k, v)] + es[Pos(es, k)..]
  {
    hide Pos;
  }

  lemma RemoveMiddle(a: seq<Entry>, b: seq<Entry>, c: seq<Entry>, k: Key)
    requires AllBelow(a, Rank(k))
    requires AllAbove(c, Rank(k))
    ensures Remove(a + b + c, k) == a + Remove(b, k) + c
  {
    hide Rank, Pos, AllBelow, AllAbove, Remove, Found;
    PosMiddle(a, b, c, k);
    RemoveSplice(a + b + c, k);
    RemoveSplice(b, k);
    if Found(b, k) {
      CutMiddle(a, b, c, Pos(b, k), Pos(b, k) + 1);
    }
  }

  lemma RemoveSplice(es: seq<Entry>, k: Key)
    ensures Found(es, k) ==> Pos(es, k) < |es| && Remove(es, k) == es[..Pos(es, k)] + es[Pos(es, k) + 1..]
    ensures !Found(es, k) ==> Remove(es, k) == es
  {
    hide Pos;
  }

  lemma LookupMiddle(a: seq<Entry>, b: seq<Entry>, c: seq<Entry>, k: Key)
    requires AllBelow(a, Rank(k))
    requires AllAbove(c, Rank(k))
    ensures Lookup(a + b + c, k) == Lookup(b, k)
  {
    hide Rank, Pos, AllBelow, AllAbove;
    PosMiddle(a, b, c, k);
  }

  /** A range selects exactly the entries with start <= key < end, in their order; an empty end is no
      bound. */
  lemma {:induction false} SelectPicks(es: seq<Entry>, start: Key, end: Key) returns (js: seq<nat>)
    ensures Picked(es, js, Select(es, start, end))
    ensures forall n | 0 <= n < |es| :: n in js <==> !LexLess(es[n].key, start) && (end == [] || LexLess(es[n].key, end))
  {
    hide LexLess, Picked;
    if es == [] {
      js := [];
      NonePicked();
    } else {
      var rest := es[1..];
      var ks := SelectPicks(rest, start, end);
      PickedFirst(es, ks, Select(rest, start, end));
      NothingBelow(es[0].key);
      js := if InRange(es[0].key, start, end) then [0] + Later(ks) else Later(ks);
      assert [] + Select(rest, start, end) == Select(rest, start, end);
      forall n | 0 <= n < |es|
        ensures n in js <==> !LexLess(es[n].key, start) && (end == [] || LexLess(es[n].key, end))
      {
        if n > 0 { assert es[n] == rest[n - 1]; }
      }
    }
  }

  lemma NonePicked()
    ensures Picked<Entry>([], [], [])
  {}

  lemma Associate(a: seq<Entry>, b: seq<Entry>, c: seq<Entry>)
    ensures a + (b + c) == (a + b) + c
  {}

  lemma {:induction false} SelectAppend(a: seq<Entry>, b: seq<Entry>, start: Key, end: Key)
    ensures Select(a + b, start, end) == Select(a, start, end) + Select(b, start, end)
  {
    if a == [] {
      assert a + b == b && Select(a, start, end) == [];
      hide Select;
      assert [] + Select(b, start, end) == Select(b, start, end);
    } else {
      hide InRange, Select;
      SelectAppend(a[1..], b, start, end);
      assert (a + b)[1..] == a[1..] + b && (a + b)[0] == a[0];
      SelectFirst(a, start, end);
      SelectFirst(a + b, start, end);
      var one := if InRange(a[0].key, start, end) then [a[0]] else [];
      Associate(one, Select(a[1..], start, end), Select(b, start, end));
    }
  }

  lemma SelectFirst(es: seq<Entry>, start: Key, end: Key)
    requires es != []
    ensures Select(es, start, end) == (if InRange(es[0].key, start, end) then [es[0]] else []) + Select(es[1..], start, end)
  {}

  lemma {:induction false} SelectNone(es: seq<Entry>, start: Key, end: Key)
    requires forall i | 0 <= i < |es| :: !InRange(es[i].key, start, end)
    ensures Select(es, start, end) == []
  {
    if es != [] { SelectNone(es[1..], start, end); }
  }

  /** Entries from the first one at or above `end` on are all outside the range. */
  lemma SelectStop(es: seq<Entry>, p: nat, start: Key, end: Key)
    requires Sorted(es) && p < |es| && end != [] && !LexLess(es[p].key, end)
    ensures Select(es, start, end) == Select(es[..p], start, end)
  {
    hide Rank;
    assert es == es[..p] + es[p..];
    SelectAppend(es[..p], es[p..], start, end);
    var rest := es[p..];
    forall i | 0 <= i < |rest| ensures !InRange(rest[i].key, start, end) {
      assert rest[i] == es[p + i];
      RankIsLexOrder(es[p].key, end);
      RankIsLexOrder(es[p + i].key, end);
      assert i > 0 ==> Rank(es[p].key) < Rank(es[p + i].key);
    }
    SelectNone(rest, start, end);
  }

  lemma SelectSnoc(es: seq<Entry>, e: Entry, start: Key, end: Key)
    ensures Select(es + [e], start, end) == Select(es, start, end) + if InRange(e.key, start, end) then [e] else []
  {
    SelectAppend(es, [e], start, end);
  }
}
