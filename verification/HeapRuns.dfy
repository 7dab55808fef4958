/** Histories of a table: over every sequence of calls on it, and whatever else happens to the store,
    exactly which keys are read as the replay of their accepted writes. */
module HeapRuns {
  import opened Wrappers
  import opened Bytes
  import opened LexOrder
  import opened SortedEntries
  import opened RowKey
  import opened RowRange
  import opened RowValue
  import opened HeapSpec
  import opened HeapStore
  import opened HeapChains
  import NodeCodec

  /** The store, the writes accepted so far in order, and the highest vacuum horizon. */
  datatype History = History(es: seq<Entry>, log: seq<Write>, horizon: U64)

  ghost predicate Empty(s: Schema, h: History) {
    && h.log == [] && h.horizon == 0 && Sorted(h.es) && ShortKeys(h.es)
    && forall k: Key | TablePrefix(s.table) <= k :: Lookup(h.es, k) == None
  }

  /** What the other users of the store do: anything but to this table's keys. */
  ghost predicate SameTable(s: Schema, a: seq<Entry>, b: seq<Entry>) {
    Sorted(b) && ShortKeys(b) && forall k: Key | TablePrefix(s.table) <= k :: Lookup(b, k) == Lookup(a, k)
  }

  ghost predicate CallStep(s: Schema, h: History, n: History)
    requires ValidSchema(s)
  {
    exists call, out :: MayPlan(s, h.es, call, out) &&
      n == match out
           case Err(_) => h
           case Ok(w) => History(Stored(s, h.es, w), h.log + [w], h.horizon)
  }

  ghost predicate VacuumStep(s: Schema, h: History, n: History)
    requires ValidSchema(s)
  {
    exists x: U64 :: VacuumedTo(s, h.es, n.es, x) && n.log == h.log && n.horizon == if x > h.horizon then x else h.horizon
  }

  ghost predicate Step(s: Schema, h: History, n: History)
    requires ValidSchema(s)
  {
    || CallStep(s, h, n) || VacuumStep(s, h, n)
    || (SameTable(s, h.es, n.es) && n.log == h.log && n.horizon == h.horizon)
  }

  ghost predicate IsRun(s: Schema, hs: seq<History>)
    requires ValidSchema(s)
  {
    hs != [] && Empty(s, hs[0]) && forall i | 0 <= i < |hs| - 1 :: Step(s, hs[i], hs[i + 1])
  }

  /** The accepted writes to one key, in order. */
  function OnKey(log: seq<Write>, pk: Pk): seq<KeyWrite> {
    if log == [] then []
    else
      var n := |log| - 1;
      OnKey(log[..n], pk) + if log[n].pk == pk then [KeyWrite(log[n].tx, log[n].cell)] else []
  }

  lemma OnKeySnoc(log: seq<Write>, w: Write, pk: Pk)
    ensures OnKey(log + [w], pk) == if w.pk == pk then OnKey(log, pk) + [KeyWrite(w.tx, w.cell)] else OnKey(log, pk)
  {
    assert (log + [w])[..|log|] == log;
    assert OnKey(log, pk) + [] == OnKey(log, pk);
  }

  /** Whatever a reader at or above the horizon is given is the replay. */
  ghost predicate ReadsReplay(s: Schema, h: History, pk: Pk)
    requires ValidSchema(s)
  {
    forall r: U64, out | h.horizon <= r && MayRead(s, h.es, pk, r, out) :: out == ReadOut(Replayed(OnKey(h.log, pk), r))
  }

  ghost predicate ReadsRight(s: Schema, pk: Pk)
    requires ValidSchema(s)
  {
    forall hs | IsRun(s, hs) :: ReadsReplay(s, hs[|hs| - 1], pk)
  }

  /** Another key has the same bytes: a Delete of it, which is not checked for zero bytes in
      strings, deletes this one. */
  ghost predicate Twins(s: Schema, pk: Pk, q: Pk)
    requires ValidSchema(s)
  {
    q != pk && Kinds(q) == PkKinds(s) && EncodePk(q) == EncodePk(pk)
  }

  ghost predicate Aliased(s: Schema, pk: Pk)
    requires ValidSchema(s)
  {
    Storable(s, pk, 1) && exists q :: Twins(s, pk, q)
  }

  lemma StorableSize(s: Schema, pk: Pk, v: U64, w: U64)
    requires ValidSchema(s) && w > 0 && Storable(s, pk, v)
    ensures Storable(s, pk, w)
  {
    hide EncodePk, Put64;
  }

  // ----- what holds in every history -----

  ghost predicate ChainReplays(m: Chain, ws: seq<KeyWrite>, horizon: U64) {
    Shaped(m) && forall r: U64 | horizon <= r :: Visible(m, r) == Replayed(ws, r)
  }

  ghost predicate KeyInv(s: Schema, h: History, pk: Pk)
    requires ValidSchema(s)
  {
    && TableOk(s, h.es)
    && (Clean(pk) ==> ChainReplays(ChainOf(s, h.es, pk), OnKey(h.log, pk), h.horizon))
    && (!Clean(pk) ==> OnKey(h.log, pk) == [])
  }

  /** The table's keys are unchanged, and with them the versions. */
  lemma SameChain(s: Schema, a: seq<Entry>, b: seq<Entry>, pk: Pk)
    requires SameTable(s, a, b)
    ensures ChainOf(s, a, pk) == ChainOf(s, b, pk)
  {
    hide EncodeRow, Lookup, DecodeCell, Sorted, TablePrefix;
    forall v: U64 ensures Lookup(a, EncodeRow(Row(s.table, pk, v))) == Lookup(b, EncodeRow(Row(s.table, pk, v))) {
      OwnKeyReached(s.table, pk, v);
    }
  }

  lemma SameTableOk(s: Schema, a: seq<Entry>, b: seq<Entry>)
    requires ValidSchema(s) && TableOk(s, a) && SameTable(s, a, b)
    ensures TableOk(s, b)
  {
    hide Lookup, Sorted, TableKey, DecodeCell, TablePrefix, ShortKeys;
  }

  lemma EmptyInv(s: Schema, h: History, pk: Pk)
    requires ValidSchema(s) && Empty(s, h)
    ensures KeyInv(s, h, pk)
  {
    hide Lookup, Sorted, TableKey, DecodeCell, TablePrefix, EncodeRow, ShortKeys, Clean, Visible;
    var m := ChainOf(s, h.es, pk);
    forall v: U64 ensures v !in m {
      OwnKeyReached(s.table, pk, v);
    }
    forall r: U64 ensures Visible(m, r) == None {
      NoVersionInvisible(m, r);
    }
  }

  /** An accepted write to a key that is not clean: only a row of another key could make it so. */
  lemma UncleanNotWritten(s: Schema, es: seq<Entry>, call: Call, w: Write)
    requires ValidSchema(s) && TableOk(s, es) && MayPlan(s, es, call, Ok(w)) && Decodable(s) && !Exposed(s, w.pk)
    ensures Clean(w.pk)
  {
    hide TableOk, Exposed, Clean, MayPlan, MayRead, KeyVersions, Fitting;
    PlanSound(s, es, call, w);
    if w.cell.Live? {
      LiveIsNulFree(s, w);
      CleanIff(s, w.pk);
    } else if !Clean(w.pk) {
      var seen :| MayRead(s, es, w.pk, w.tx, seen) && (seen.Ok? <==> !call.Insert?);
      UncleanRead(s, es, w.pk, w.tx, seen);
    }
  }

  /** A stored row has no zero byte in its strings, and so neither has its key. */
  lemma LiveIsNulFree(s: Schema, w: Write)
    requires ValidSchema(s) && w.cell.Live? && EncodeValues(s.kinds, FLAG_NORMAL, w.cell.values).Ok?
    requires PkColumns(s, w.cell.values) == AsValues(w.pk)
    ensures NulFreeKey(w.pk)
  {
    hide RowBytes, HasNul;
    var values := w.cell.values;
    forall i | 0 <= i < |w.pk| ensures !HasNul(w.pk[i]) {
      assert AsValues(w.pk)[i] == Of(w.pk[i]) && PkColumns(s, values)[i] == values[s.pkIdx[i]];
      assert values[s.pkIdx[i]] == Of(w.pk[i]);
    }
  }

  /** A write with pk's bytes is a write to pk. */
  lemma WriteIsOwn(s: Schema, w: Write, pk: Pk)
    requires ValidSchema(s) && Clean(pk) && Kinds(pk) == PkKinds(s) && !Aliased(s, pk)
    requires Kinds(w.pk) == PkKinds(s) && w.tx > 0 && Fitting(s, w) == Ok(w) && EncodePk(w.pk) == EncodePk(pk)
    ensures w.pk == pk
  {
    hide EncodePk, EncodeRow, Clean, WriteBytes;
    CleanIff(s, pk);
    KeyEnds(s.table, w.pk, w.tx, pk, w.tx);
    assert Storable(s, pk, w.tx);
    StorableSize(s, pk, w.tx, 1);
    hide Storable;
    assert !Twins(s, pk, w.pk);
  }

  /** An accepted write to pk is above all its versions, and a tombstone has a row to hide. */
  lemma OwnWrite(s: Schema, es: seq<Entry>, call: Call, w: Write)
    requires ValidSchema(s) && TableOk(s, es) && !Exposed(s, w.pk) && Clean(w.pk) && MayPlan(s, es, call, Ok(w))
    ensures Fresh(ChainOf(s, es, w.pk), w.tx)
    ensures w.cell.Tombstone? ==> Visible(ChainOf(s, es, w.pk), w.tx).Some?
  {
    hide TableOk, Exposed, Clean, MayPlan, MayRead, KeyVersions, Fitting, EncodeValues, ChainOf, Visible, EncodeRow, Lookup, DecodeCell;
    PlanSound(s, es, call, w);
    SortedTable(s, es);
    forall v: U64 | v in ChainOf(s, es, w.pk) ensures v < w.tx {
      ScanFinds(s, es, w.pk, v);
    }
    if w.cell.Tombstone? {
      var seen :| MayRead(s, es, w.pk, w.tx, seen) && (seen.Ok? <==> !call.Insert?);
      ReadIff(s, es, w.pk, w.tx, seen);
    }
  }

  lemma ReplaysWrite(m: Chain, ws: seq<KeyWrite>, horizon: U64, w: KeyWrite)
    requires ChainReplays(m, ws, horizon) && Fresh(m, w.tx) && (w.cell.Tombstone? ==> Visible(m, w.tx).Some?)
    ensures ChainReplays(m[w.tx := w.cell], ws + [w], horizon)
  {
    hide Visible, Replayed, Shaped, Fresh;
    WriteKeepsShape(m, w.tx, w.cell);
    forall r: U64 | horizon <= r ensures Visible(m[w.tx := w.cell], r) == Replayed(ws + [w], r) {
      WriteReads(m, w.tx, w.cell, r);
      ReplaySnoc(ws, w, r);
    }
  }

  lemma ReplaysVacuum(m: Chain, ws: seq<KeyWrite>, horizon: U64, x: U64)
    requires ChainReplays(m, ws, horizon)
    ensures ChainReplays(Vacuumed(m, x), ws, if x > horizon then x else horizon)
  {
    hide Visible, Replayed, Shaped, Vacuumed;
    VacuumKeepsShape(m, x);
    forall r: U64 | x <= r && horizon <= r ensures Visible(Vacuumed(m, x), r) == Replayed(ws, r) {
      VacuumKeepsReads(m, x, r);
    }
  }

  lemma CallKeeps(s: Schema, h: History, call: Call, w: Write, pk: Pk)
    requires ValidSchema(s) && Decodable(s) && Kinds(pk) == PkKinds(s) && !Exposed(s, pk) && !Aliased(s, pk)
    requires KeyInv(s, h, pk) && MayPlan(s, h.es, call, Ok(w))
    ensures KeyInv(s, History(Stored(s, h.es, w), h.log + [w], h.horizon), pk)
  {
    hide TableOk, Exposed, Aliased, Clean, MayPlan, ChainReplays, ChainOf, OnKey, Stored, Fitting, EncodeValues, EncodePk, DecodeCell;
    PlanSound(s, h.es, call, w);
    WriteDecodes(s, w);
    SortedTable(s, h.es);
    StoredOk(s, h.es, w);
    OnKeySnoc(h.log, w, pk);
    StoredChain(s, h.es, w, pk);
    if w.pk == pk {
      UncleanNotWritten(s, h.es, call, w);
      OwnWrite(s, h.es, call, w);
      ReplaysWrite(ChainOf(s, h.es, pk), OnKey(h.log, pk), h.horizon, KeyWrite(w.tx, w.cell));
    } else if Clean(pk) && EncodePk(w.pk) == EncodePk(pk) {
      WriteIsOwn(s, w, pk);
    }
  }

  lemma VacuumedChain(s: Schema, es: seq<Entry>, after: seq<Entry>, h: U64, pk: Pk)
    requires ValidSchema(s) && TableOk(s, es) && Clean(pk) && Kinds(pk) == PkKinds(s) && VacuumedTo(s, es, after, h)
    ensures ChainOf(s, after, pk) == Vacuumed(ChainOf(s, es, pk), h)
  {
    hide TableOk, Clean, RowPrefix, EncodeRow, EncodePk, Lookup, KeyPart, Drops, Kept, DecodeCell;
    var m, part := ChainOf(s, es, pk), RowPrefix(s.table, pk);
    forall v: U64
      ensures Lookup(after, EncodeRow(Row(s.table, pk, v)))
           == if v in m && !Kept(m, h, v) then None else Lookup(es, EncodeRow(Row(s.table, pk, v)))
    {
      DroppedKey(s, es, h, {part}, part, 0, pk, v);
      DropsHere(s, es, h, pk, v);
    }
  }

  lemma DropsHere(s: Schema, es: seq<Entry>, h: U64, pk: Pk, v: U64)
    requires ValidSchema(s)
    ensures var k := EncodeRow(Row(s.table, pk, v));
      forall x: Version | x.key == k :: KeyPart(x.key) == RowPrefix(s.table, pk)
  {
    hide RowPrefix, EncodeRow, EncodePk, KeyPart;
    KeyEnds(s.table, pk, v, pk, v);
  }

  lemma VacuumKeeps(s: Schema, h: History, n: History, pk: Pk)
    requires ValidSchema(s) && Kinds(pk) == PkKinds(s) && KeyInv(s, h, pk) && VacuumStep(s, h, n)
    ensures KeyInv(s, n, pk)
  {
    hide TableOk, Clean, ChainReplays, ChainOf, OnKey, Drops, Without, Vacuumed;
    var x: U64 :| VacuumedTo(s, h.es, n.es, x) && n.log == h.log && n.horizon == if x > h.horizon then x else h.horizon;
    WithoutOk(s, h.es, n.es, iset y | Drops(s, h.es, x, y));
    if Clean(pk) {
      VacuumedChain(s, h.es, n.es, x, pk);
      ReplaysVacuum(ChainOf(s, h.es, pk), OnKey(h.log, pk), h.horizon, x);
    }
  }

  lemma StepKeeps(s: Schema, h: History, n: History, pk: Pk)
    requires ValidSchema(s) && Decodable(s) && Kinds(pk) == PkKinds(s) && !Exposed(s, pk) && !Aliased(s, pk)
    requires KeyInv(s, h, pk) && Step(s, h, n)
    ensures KeyInv(s, n, pk)
  {
    hide TableOk, Exposed, Aliased, Clean, MayPlan, ChainReplays, ChainOf, OnKey, Stored, SameTable, VacuumedTo;
    if CallStep(s, h, n) {
      var call, out :| MayPlan(s, h.es, call, out) &&
        n == match out
             case Err(_) => h
             case Ok(w) => History(Stored(s, h.es, w), h.log + [w], h.horizon);
      if out.Ok? { CallKeeps(s, h, call, out.value, pk); }
    } else if VacuumStep(s, h, n) {
      VacuumKeeps(s, h, n, pk);
    } else {
      SameChain(s, h.es, n.es, pk);
      SameTableOk(s, h.es, n.es);
    }
  }

  lemma RunPrefix(s: Schema, hs: seq<History>)
    requires ValidSchema(s) && IsRun(s, hs) && |hs| > 1
    ensures IsRun(s, hs[..|hs| - 1]) && Step(s, hs[|hs| - 2], hs[|hs| - 1])
  {
    hide Step, Empty;
    var n := |hs| - 1;
    var before := hs[..n];
    forall i | 0 <= i < n - 1 ensures Step(s, before[i], before[i + 1]) {
      assert Step(s, hs[i], hs[i + 1]);
    }
    assert Step(s, hs[n - 1], hs[n - 1 + 1]);
  }

  lemma {:induction false} RunKeeps(s: Schema, hs: seq<History>, pk: Pk)
    requires ValidSchema(s) && Decodable(s) && Kinds(pk) == PkKinds(s) && !Exposed(s, pk) && !Aliased(s, pk)
    requires IsRun(s, hs)
    ensures KeyInv(s, hs[|hs| - 1], pk)
  {
    hide Exposed, Aliased, Decodable, KeyInv, Step, Empty;
    if |hs| == 1 {
      EmptyInv(s, hs[0], pk);
    } else {
      var n := |hs| - 1;
      RunPrefix(s, hs);
      RunKeeps(s, hs[..n], pk);
      StepKeeps(s, hs[n - 1], hs[n], pk);
    }
  }

  /** A key that is neither exposed nor aliased is read as the replay of its writes, over every
      history; its versions keep their shape. */
  lemma KeyReadsRight(s: Schema, hs: seq<History>, pk: Pk)
    requires ValidSchema(s) && Decodable(s) && Kinds(pk) == PkKinds(s) && !Exposed(s, pk) && !Aliased(s, pk)
    requires IsRun(s, hs)
    ensures ReadsReplay(s, hs[|hs| - 1], pk)
    ensures Clean(pk) ==> Shaped(ChainOf(s, hs[|hs| - 1].es, pk))
  {
    assert hs != [];
    hide Exposed, Aliased, Decodable, IsRun, TableOk, Clean, MayRead, Visible, Replayed, Shaped, ChainOf, OnKey;
    RunKeeps(s, hs, pk);
    var h := hs[|hs| - 1];
    forall r: U64, out | h.horizon <= r && MayRead(s, h.es, pk, r, out)
      ensures out == ReadOut(Replayed(OnKey(h.log, pk), r))
    {
      if Clean(pk) {
        ReadIff(s, h.es, pk, r, out);
      } else {
        UncleanRead(s, h.es, pk, r, out);
        ReplayNone(r);
      }
    }
  }

  lemma ReplayNone(r: U64)
    ensures Replayed([], r) == None
  {}
}
