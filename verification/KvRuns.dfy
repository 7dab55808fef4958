/** Whole runs: on every sequence of operations the on-disk tree and the in-memory slice end with
    the same entries, and they give the same answers exactly when no scan without an end has
    anything to find; and what a crash at any device state of a run leaves. */
module KvRuns {
  import opened Wrappers
  import opened Bytes
  import opened SortedEntries
  import NodeCodec
  import BTree
  import SortedStore
  import Disk
  import PagerSpec
  import KvSpec
  import KvCrash
  import Wal

  datatype Op =
    | GetOp(k: Key)
    | SetOp(k: Key, v: Val)
    | DeleteOp(k: Key)
    | ScanOp(start: Key, end: Key)

  datatype Answer = Value(v: Option<Val>) | Done | Rows(es: seq<Entry>)

  /** Keys and values within the inline limits. */
  ghost predicate Small(op: Op) {
    match op
    case SetOp(k, v) => |k| <= 63 && |v| <= 512
    case _ => true
  }

  ghost function Effect(es: seq<Entry>, op: Op): seq<Entry> {
    match op
    case SetOp(k, v) => Put(es, k, v)
    case DeleteOp(k) => Remove(es, k)
    case _ => es
  }

  /** An empty end means no upper bound to the tree, and selects nothing from the slice. */
  ghost function AnswerTo(es: seq<Entry>, op: Op, inTree: bool): Answer {
    match op
    case GetOp(k) => Value(Lookup(es, k))
    case ScanOp(start, end) => Rows(if end == [] && !inTree then [] else Select(es, start, end))
    case _ => Done
  }

  ghost function Effects(es: seq<Entry>, ops: seq<Op>): seq<Entry> {
    if ops == [] then es else Effect(Effects(es, ops[..|ops| - 1]), ops[|ops| - 1])
  }

  ghost function Answers(es: seq<Entry>, ops: seq<Op>, inTree: bool): seq<Answer> {
    if ops == [] then []
    else Answers(es, ops[..|ops| - 1], inTree) + [AnswerTo(Effects(es, ops[..|ops| - 1]), ops[|ops| - 1], inTree)]
  }

  lemma NoneYet(es: seq<Entry>, inTree: bool)
    ensures Effects(es, []) == es && Answers(es, [], inTree) == []
  {}

  lemma OneMore(es: seq<Entry>, ops: seq<Op>, i: nat, inTree: bool)
    requires i < |ops|
    ensures Effects(es, ops[..i + 1]) == Effect(Effects(es, ops[..i]), ops[i])
    ensures Answers(es, ops[..i + 1], inTree) == Answers(es, ops[..i], inTree) + [AnswerTo(Effects(es, ops[..i]), ops[i], inTree)]
  {
    assert ops[..i + 1][..i] == ops[..i];
  }

  // ----- where the two stores differ -----

  /** A scan without an end, and a key at or above its start. */
  ghost predicate OpenScan(es: seq<Entry>, op: Op) {
    op.ScanOp? && op.end == [] && exists i :: 0 <= i < |es| && !LexLess(es[i].key, op.start)
  }

  ghost predicate AnyOpenScan(es: seq<Entry>, ops: seq<Op>) {
    exists i :: 0 <= i < |ops| && OpenScan(Effects(es, ops[..i]), ops[i])
  }

  lemma {:induction false} SelectSome(es: seq<Entry>, start: Key, end: Key, i: nat)
    requires i < |es| && InRange(es[i].key, start, end)
    ensures Select(es, start, end) != []
  {
    if i > 0 { SelectSome(es[1..], start, end, i - 1); }
  }

  lemma AnswerAgreesIff(es: seq<Entry>, op: Op)
    ensures AnswerTo(es, op, true) == AnswerTo(es, op, false) <==> !OpenScan(es, op)
  {
    hide Select, Lookup, LexLess;
    if op.ScanOp? && op.end == [] {
      forall i | 0 <= i < |es|
        ensures InRange(es[i].key, op.start, []) <==> !LexLess(es[i].key, op.start)
      {
        NothingBelow(es[i].key);
      }
      if i :| 0 <= i < |es| && !LexLess(es[i].key, op.start) {
        SelectSome(es, op.start, [], i);
      } else {
        SelectNone(es, op.start, []);
      }
    }
  }

  /** Over any run the answers are the same exactly when no scan without an end has a key to find. */
  lemma {:induction false} AnswersAgreeIff(es: seq<Entry>, ops: seq<Op>)
    ensures Answers(es, ops, true) == Answers(es, ops, false) <==> !AnyOpenScan(es, ops)
  {
    if ops != [] {
      var n := |ops| - 1;
      AnswersAgreeIff(es, ops[..n]);
      AnswerAgreesIff(Effects(es, ops[..n]), ops[n]);
      AnswersLength(es, ops[..n]);
      hide AnswerTo, Effects, OpenScan, AnyOpenScan;
      OpenScanLast(es, ops);
      SameSnoc(Answers(es, ops[..n], true), AnswerTo(Effects(es, ops[..n]), ops[n], true),
               Answers(es, ops[..n], false), AnswerTo(Effects(es, ops[..n]), ops[n], false));
    }
  }

  lemma OpenScanLast(es: seq<Entry>, ops: seq<Op>)
    requires ops != []
    ensures var n := |ops| - 1;
      AnyOpenScan(es, ops) <==> AnyOpenScan(es, ops[..n]) || OpenScan(Effects(es, ops[..n]), ops[n])
  {
    hide OpenScan, Effects;
    var n := |ops| - 1;
    assert forall i | 0 <= i < n :: ops[..n][..i] == ops[..i] && ops[..n][i] == ops[i];
  }

  lemma SameSnoc(a: seq<Answer>, x: Answer, b: seq<Answer>, y: Answer)
    requires |a| == |b|
    ensures a + [x] == b + [y] <==> a == b && x == y
  {
    if a + [x] == b + [y] {
      assert a == (a + [x])[..|a|] == b && x == (a + [x])[|a|] == (b + [y])[|b|] == y;
    }
  }

  lemma {:induction false} AnswersLength(es: seq<Entry>, ops: seq<Op>)
    ensures |Answers(es, ops, true)| == |Answers(es, ops, false)| == |ops|
  {
    hide AnswerTo, Effects;
    if ops != [] { AnswersLength(es, ops[..|ops| - 1]); }
  }

  /** One entry and one scan of everything. */
  lemma OpenScanDiffers(k: Key, v: Val)
    ensures Answers([Entry(k, v)], [ScanOp([], [])], true) != Answers([Entry(k, v)], [ScanOp([], [])], false)
  {
    var es, ops := [Entry(k, v)], [ScanOp([], [])];
    assert ops[..0] == [] && es[0].key == k;
    AnswersAgreeIff(es, ops);
    NothingBelow(k);
    assert OpenScan(Effects(es, ops[..0]), ops[0]) && AnyOpenScan(es, ops);
  }

  // ----- what a crash leaves of a run -----

  /** From state lo to state hi a crash leaves one of the two contents. */
  ghost predicate SafeIn(crc: Wal.Crc, ms: seq<Disk.Device>, lo: nat, hi: nat, before: seq<Entry>, after: seq<Entry>) {
    lo <= hi <= |ms| && forall i | lo <= i < hi :: KvCrash.KvSafe(crc, ms[i], before, after)
  }

  function Sum(ns: seq<nat>): nat {
    if ns == [] then 0 else Sum(ns[..|ns| - 1]) + ns[|ns| - 1]
  }

  /** Operation j runs from state marks[j] to state marks[j + 1] and first takes reused[j] pages off
      the free list, with six states each. At all its other states a crash leaves what the first j
      operations made, or the first j + 1. */
  ghost predicate Durable(crc: Wal.Crc, ms: seq<Disk.Device>, es: seq<Entry>, ops: seq<Op>, marks: seq<nat>, reused: seq<nat>) {
    && |marks| == |ops| + 1 && |reused| == |ops|
    && forall j | 0 <= j < |ops| ::
         SafeIn(crc, ms, marks[j] + 6 * reused[j], marks[j + 1], Effects(es, ops[..j]), Effects(es, ops[..j + 1]))
  }

  lemma SafeGrew(crc: Wal.Crc, a: seq<Disk.Device>, b: seq<Disk.Device>, lo: nat, hi: nat, before: seq<Entry>, after: seq<Entry>)
    requires SafeIn(crc, a, lo, hi, before, after) && PagerSpec.Grew(a, b)
    ensures SafeIn(crc, b, lo, hi, before, after)
  {
    hide KvCrash.KvSafe;
    forall i | lo <= i < hi ensures KvCrash.KvSafe(crc, b[i], before, after) {
      assert b[i] == b[..|a|][i] == a[i];
    }
  }

  lemma DurableMore(crc: Wal.Crc, a: seq<Disk.Device>, b: seq<Disk.Device>, es: seq<Entry>, ops: seq<Op>, n: nat, marks: seq<nat>, reused: seq<nat>, k: nat)
    requires n < |ops| && Durable(crc, a, es, ops[..n], marks, reused) && PagerSpec.Grew(a, b) && marks[n] == |a|
    requires |a| + 6 * k <= |b| && KvCrash.KvSafeFrom(crc, b, |a| + 6 * k, Effects(es, ops[..n]), Effects(es, ops[..n + 1]))
    ensures Durable(crc, b, es, ops[..n + 1], marks + [|b|], reused + [k])
  {
    hide KvCrash.KvSafe, Effects, PagerSpec.Grew;
    var ms, rs, so := marks + [|b|], reused + [k], ops[..n + 1];
    forall j | 0 <= j < |so|
      ensures SafeIn(crc, b, ms[j] + 6 * rs[j], ms[j + 1], Effects(es, so[..j]), Effects(es, so[..j + 1]))
    {
      assert so[..j] == ops[..j] && so[..j + 1] == ops[..j + 1];
      if j < n {
        assert ops[..n][..j] == ops[..j] && ops[..n][..j + 1] == ops[..j + 1];
        assert SafeIn(crc, a, marks[j] + 6 * reused[j], marks[j + 1], Effects(es, ops[..n][..j]), Effects(es, ops[..n][..j + 1]));
        SafeGrew(crc, a, b, marks[j] + 6 * reused[j], marks[j + 1], Effects(es, ops[..j]), Effects(es, ops[..j + 1]));
      }
    }
  }

  lemma DurableGrew(crc: Wal.Crc, a: seq<Disk.Device>, b: seq<Disk.Device>, es: seq<Entry>, ops: seq<Op>, marks: seq<nat>, reused: seq<nat>)
    requires Durable(crc, a, es, ops, marks, reused) && PagerSpec.Grew(a, b)
    ensures Durable(crc, b, es, ops, marks, reused)
  {
    hide SafeIn, Effects, PagerSpec.Grew;
    forall j | 0 <= j < |ops|
      ensures SafeIn(crc, b, marks[j] + 6 * reused[j], marks[j + 1], Effects(es, ops[..j]), Effects(es, ops[..j + 1]))
    {
      SafeGrew(crc, a, b, marks[j] + 6 * reused[j], marks[j + 1], Effects(es, ops[..j]), Effects(es, ops[..j + 1]));
    }
  }

  lemma SumSnoc(ns: seq<nat>, n: nat)
    ensures Sum(ns + [n]) == Sum(ns) + n
  {
    assert (ns + [n])[..|ns|] == ns;
  }

  // ----- running both -----

  /** One operation on the tree; full says that no page was left for a Set, and reused how many pages
      came off the free list. */
  method TreeStep(tree: BTree.BTreeStore, op: Op) returns (answer: Answer, full: bool, ghost reused: nat)
    requires tree.Valid() && Small(op) && tree.pg.nextTxnId + 1 < U64_LIMIT
    modifies tree, tree.pg
    ensures tree.Valid() && tree.pg.nextTxnId <= old(tree.pg.nextTxnId) + 1
    ensures full ==> tree.pg.freeSet == {} && tree.pg.pageCount * 4096 >= 0x8000_0000_0000_0000 && tree.Contents() == old(tree.Contents())
    ensures !full ==> tree.Contents() == Effect(old(tree.Contents()), op) && answer == AnswerTo(old(tree.Contents()), op, true)
    ensures PagerSpec.Grew(old(tree.pg.moments), tree.pg.moments) && |tree.pg.chain| == old(|tree.pg.chain|) - reused
    ensures old(|tree.pg.moments|) + 6 * reused <= |tree.pg.moments|
    ensures KvCrash.KvSafeFrom(tree.pg.crc, tree.pg.moments, old(|tree.pg.moments|) + 6 * reused, old(tree.Contents()), tree.Contents())
  {
    hide PagerSpec.Inv, PagerSpec.Bodies, KvSpec.Stored, KvSpec.EntriesIn, KvCrash.KvSafe, Put, Remove, Select, Lookup;
    full, reused := false, 0;
    match op
    case GetOp(k) =>
      var r := tree.Get(k);
      answer := Value(if r.Ok? then Some(r.value) else None);
    case SetOp(k, v) =>
      ghost var s := tree.pg.Now();
      var r, n := tree.Set(k, v);
      answer, full, reused := Done, r.Err?, PagerSpec.Reused(s, n);
    case DeleteOp(k) =>
      var r := tree.Delete(k);
      answer := Done;
    case ScanOp(start, end) =>
      var r, _ := tree.Scan(start, end);
      answer := Rows(r.value);
  }

  method SliceStep(slice: SortedStore.Store, op: Op) returns (answer: Answer)
    requires slice.Valid()
    modifies slice
    ensures slice.Valid() && slice.entries == Effect(old(slice.entries), op) && answer == AnswerTo(old(slice.entries), op, false)
  {
    match op
    case GetOp(k) =>
      var r := slice.Get(k);
      answer := Value(r);
    case SetOp(k, v) =>
      slice.Put(k, v);
      answer := Done;
    case DeleteOp(k) =>
      slice.Delete(k);
      answer := Done;
    case ScanOp(start, end) =>
      var r, _ := slice.Scan(start, end);
      answer := Rows(r);
  }

  /** Both stores over the same run. It stops early only when the pager has no page left; last is
      the number of pages that the unfinished operation took off the free list. */
  method RunBoth(tree: BTree.BTreeStore, slice: SortedStore.Store, ops: seq<Op>)
    returns (fromTree: seq<Answer>, fromSlice: seq<Answer>, n: nat, ghost marks: seq<nat>, ghost reused: seq<nat>, ghost last: nat)
    requires tree.Valid() && slice.Valid() && tree.Contents() == slice.entries
    requires tree.pg.nextTxnId + |ops| < U64_LIMIT
    requires forall i | 0 <= i < |ops| :: Small(ops[i])
    modifies tree, tree.pg, slice
    ensures n <= |ops| && (n < |ops| ==> tree.pg.freeSet == {} && tree.pg.pageCount * 4096 >= 0x8000_0000_0000_0000)
    ensures tree.Valid() && slice.Valid()
    ensures tree.Contents() == slice.entries == Effects(old(slice.entries), ops[..n])
    ensures fromTree == Answers(old(slice.entries), ops[..n], true)
    ensures fromSlice == Answers(old(slice.entries), ops[..n], false)
    ensures Durable(tree.pg.crc, tree.pg.moments, old(slice.entries), ops[..n], marks, reused) && marks[0] == old(|tree.pg.moments|)
    ensures Sum(reused) + last <= old(|tree.pg.chain|)
    ensures KvCrash.KvSafeFrom(tree.pg.crc, tree.pg.moments, marks[n] + 6 * last, slice.entries, slice.entries)
  {
    hide Effect, AnswerTo, Effects, Answers, Small, Sorted, PagerSpec.Inv, PagerSpec.Bodies, KvSpec.Stored, KvSpec.EntriesIn,
      KvCrash.KvSafe, SafeIn, PagerSpec.Grew, Sum;
    ghost var es := slice.entries;
    NoneYet(es, true);
    NoneYet(es, false);
    fromTree, fromSlice, n := [], [], 0;
    marks, reused, last := [|tree.pg.moments|], [], 0;
    assert ops[..0] == [];
    SumNone();
    while n < |ops|
      invariant n <= |ops| && last == 0
      invariant tree.Valid() && slice.Valid() && tree.Contents() == slice.entries == Effects(es, ops[..n])
      invariant fromTree == Answers(es, ops[..n], true) && fromSlice == Answers(es, ops[..n], false)
      invariant tree.pg.nextTxnId + |ops| - n < U64_LIMIT
      invariant Durable(tree.pg.crc, tree.pg.moments, es, ops[..n], marks, reused)
      invariant marks[0] == old(|tree.pg.moments|) && marks[n] == |tree.pg.moments|
      invariant |tree.pg.chain| + Sum(reused) == old(|tree.pg.chain|)
    {
      OneMore(es, ops, n, true);
      OneMore(es, ops, n, false);
      ghost var ms := tree.pg.moments;
      ghost var k;
      var a, full;
      a, full, k := TreeStep(tree, ops[n]);
      if full {
        DurableGrew(tree.pg.crc, ms, tree.pg.moments, es, ops[..n], marks, reused);
        last := k;
        return;
      }
      var b := SliceStep(slice, ops[n]);
      DurableMore(tree.pg.crc, ms, tree.pg.moments, es, ops, n, marks, reused, k);
      SumSnoc(reused, k);
      marks, reused := marks + [|tree.pg.moments|], reused + [k];
      fromTree, fromSlice, n := fromTree + [a], fromSlice + [b], n + 1;
    }
  }

  lemma SumNone()
    ensures Sum([]) == 0
  {}
}
