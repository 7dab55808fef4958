/** Which keys are read wrongly, and from which schemas on no key is: the converse of HeapRuns. */
module HeapExact {
  import opened Wrappers
  import opened Bytes
  import opened LexOrder
  import opened SortedEntries
  import opened RowKey
  import opened RowRange
  import opened RowValue
  import opened HeapSpec
  import opened HeapStore
  import opened HeapChains
  import opened HeapRuns
  import NodeCodec

  /** No column is named twice as a key column, and there are few enough for a row of NULLs and a
      key to fit the store. */
  ghost predicate Plain(s: Schema) {
    && ValidSchema(s) && |s.kinds| <= 100_000
    && forall i, j | 0 <= i < j < |s.pkIdx| :: s.pkIdx[i] != s.pkIdx[j]
  }

  // ----- storing one row -----

  ghost predicate KeyColumn(s: Schema, c: nat, i: nat) {
    i < |s.pkIdx| && s.pkIdx[i] == c
  }

  ghost function ColumnFor(s: Schema, pk: Pk, c: nat): Datum
    requires |pk| == |s.pkIdx|
  {
    if i: nat :| KeyColumn(s, c, i) then Of(pk[i]) else Null
  }

  /** The key columns, and NULL elsewhere. */
  ghost function ValuesFor(s: Schema, pk: Pk): (values: Values)
    requires |pk| == |s.pkIdx|
    ensures |values| == |s.kinds|
  {
    seq(|s.kinds|, c requires 0 <= c < |s.kinds| => ColumnFor(s, pk, c))
  }

  lemma ValuesForKey(s: Schema, pk: Pk)
    requires Plain(s) && Kinds(pk) == PkKinds(s)
    ensures PkColumns(s, ValuesFor(s, pk)) == AsValues(pk) && RowFits(s.kinds, ValuesFor(s, pk))
    ensures forall c | 0 <= c < |s.kinds| && ValuesFor(s, pk)[c].Of? :: ValuesFor(s, pk)[c].v in pk
  {
    var values := ValuesFor(s, pk);
    forall i | 0 <= i < |s.pkIdx| ensures values[s.pkIdx[i]] == Of(pk[i]) {
      assert KeyColumn(s, s.pkIdx[i], i);
      forall j: nat | KeyColumn(s, s.pkIdx[i], j) ensures j == i {}
    }
    forall c | 0 <= c < |s.kinds| ensures ColumnFits(s.kinds[c], values[c]) && (values[c].Of? ==> values[c].v in pk) {
      if i: nat :| KeyColumn(s, c, i) {
        assert values[s.pkIdx[i]] == Of(pk[i]);
        assert Kinds(pk)[i] == PkKinds(s)[i];
      }
    }
  }

  lemma {:induction false} ColumnSize(pk: Pk, v: RowKey.Value)
    requires v in pk
    ensures |FieldBytes(v)| <= |EncodePk(pk)|
  {
    if v != pk[0] {
      assert pk == [pk[0]] + pk[1..];
      ColumnSize(pk[1..], v);
    }
  }

  lemma {:induction false} PrimitivesSize(values: Values)
    ensures |Primitives(values)| <= |values|
    ensures forall v | v in Primitives(values) :: Of(v) in values
  {
    if values != [] {
      var n := |values| - 1;
      PrimitivesSize(values[..n]);
      assert values == values[..n] + [values[n]];
    }
  }

  lemma FieldSize(v: RowKey.Value)
    ensures |EncodeField(v)| == 4 + |FieldBytes(v)|
  {}

  lemma {:induction false} CompositeSize(vs: seq<RowKey.Value>)
    requires forall v | v in vs :: |FieldBytes(v)| <= 63
    ensures |Composite(vs)| <= 67 * |vs|
  {
    hide FieldBytes, EncodeField;
    if vs != [] {
      assert vs[0] in vs && forall v | v in vs[1..] :: v in vs;
      FieldSize(vs[0]);
      CompositeSize(vs[1..]);
    }
  }

  lemma SmallRow(s: Schema, pk: Pk)
    requires Plain(s) && Kinds(pk) == PkKinds(s) && |EncodePk(pk)| <= NodeCodec.MAX_KEY_SIZE
    ensures |RowBytes(FLAG_NORMAL, ValuesFor(s, pk))| <= NodeCodec.MAX_STORABLE
  {
    hide Bitmask, Composite, Primitives, FieldBytes, EncodePk;
    var values := ValuesFor(s, pk);
    var vs := Primitives(values);
    ValuesForKey(s, pk);
    PrimitivesSize(values);
    forall v | v in vs ensures |FieldBytes(v)| <= 63 {
      var c :| 0 <= c < |values| && values[c] == Of(v);
      ColumnSize(pk, v);
    }
    CompositeSize(vs);
  }

  ghost function FirstWrite(s: Schema, pk: Pk, tx: U64): Write
    requires |pk| == |s.pkIdx|
  {
    Write(pk, tx, Live(ValuesFor(s, pk)))
  }

  lemma NothingScanned(s: Schema, pk: Pk)
    requires ValidSchema(s)
    ensures KeyVersions(s, [], pk) == []
  {
    assert Select([], RowPrefix(s.table, pk), EndOf(RowPrefix(s.table, pk))) == [];
  }

  /** A storable version is accepted by an empty table. */
  lemma FirstInsert(s: Schema, pk: Pk, tx: U64)
    requires Plain(s) && Storable(s, pk, tx)
    ensures MayPlan(s, [], Insert(tx, ValuesFor(s, pk)), Ok(FirstWrite(s, pk, tx)))
    ensures DecodeCell(s.kinds, WriteBytes(s, FirstWrite(s, pk, tx))) == Some(Live(ValuesFor(s, pk)))
  {
    hide RowBytes, KeyVersions, EncodePk, DecodeCell, KeyOf, HasNul, RowFits, PkColumns;
    var values, w := ValuesFor(s, pk), FirstWrite(s, pk, tx);
    ValuesForKey(s, pk);
    KeyIff(s, AsValues(pk), pk);
    NothingScanned(s, pk);
    assert |EncodeRow(Row(s.table, pk, tx))| >= |EncodePk(pk)|;
    SmallRow(s, pk);
    forall c | 0 <= c < |values| && values[c].Of? ensures !HasNul(values[c].v) {
      var i :| 0 <= i < |pk| && pk[i] == values[c].v;
    }
    assert EncodeValues(s.kinds, FLAG_NORMAL, values) == Ok(RowBytes(FLAG_NORMAL, values));
    assert Fitting(s, w) == Ok(w);
    WriteDecodes(s, w);
    assert MayRead(s, [], pk, tx, Err(ErrKeyNotFound));
    assert PlanFor(s, Insert(tx, values), pk, Err(ErrKeyNotFound)) == Ok(w);
  }

  // ----- a store with one entry -----

  lemma OneEntry(k: Key, data: Val)
    ensures Sorted([Entry(k, data)]) && Put([], k, data) == [Entry(k, data)]
    ensures forall q: Key :: Lookup([Entry(k, data)], q) == if q == k then Some(data) else None
  {
    assert Pos([], k) == 0;
    assert Put([], k, data) == [Entry(k, data)];
    forall q: Key ensures Lookup([Entry(k, data)], q) == if q == k then Some(data) else None {
      PutIsMapUpdate([], k, data, q);
    }
  }

  lemma NoEntry(s: Schema)
    ensures Empty(s, History([], [], 0))
  {}

  /** Reading pk at or after its version returns the one row in reach of pk's scan. */
  lemma SoleRead(s: Schema, pk: Pk, r: Row, data: Bytes, values: Values, tx: U64)
    requires ValidSchema(s) && Reached(RowPrefix(s.table, pk), EncodeRow(r)) && Clean(r.pk) && Kinds(r.pk) == PkKinds(s)
    requires DecodeCell(s.kinds, data) == Some(Live(values)) && tx >= r.version
    ensures MayRead(s, [Entry(EncodeRow(r), data)], pk, tx, Ok(values))
    ensures forall x | x in KeyVersions(s, [Entry(EncodeRow(r), data)], pk) :: x.version == r.version
  {
    hide Scanned, DecodeRow, EncodeRow, DecodeCell, Clean, RowPrefix, Reached, Lookup, Sorted, Put;
    var k := EncodeRow(r);
    var es := [Entry(k, data)];
    OneEntry(k, data);
    NotEmpty(s.table, pk);
    RowRoundTripIff(r);
    ScannedEntries(es, RowPrefix(s.table, pk), PkKinds(s));
    assert Highest(KeyVersions(s, es, pk), tx, Version(r.version, k, data));
  }

  // ----- the runs that go wrong -----

  lemma WriteStep(s: Schema, h: History, call: Call, w: Write)
    requires ValidSchema(s) && MayPlan(s, h.es, call, Ok(w))
    ensures Step(s, h, History(Stored(s, h.es, w), h.log + [w], h.horizon))
  {
    hide MayPlan, Stored;
    assert CallStep(s, h, History(Stored(s, h.es, w), h.log + [w], h.horizon));
  }

  lemma FirstStep(s: Schema, pk: Pk, tx: U64)
    requires Plain(s) && Storable(s, pk, tx)
    ensures var w := FirstWrite(s, pk, tx);
      IsRun(s, [History([], [], 0), History([Entry(WriteKey(s, w), WriteBytes(s, w))], [w], 0)])
  {
    hide MayPlan, WriteKey, WriteBytes, Empty, Put, Sorted, Lookup;
    var w := FirstWrite(s, pk, tx);
    FirstInsert(s, pk, tx);
    OneEntry(WriteKey(s, w), WriteBytes(s, w));
    NoEntry(s);
    var h, n := History([], [], 0), History([Entry(WriteKey(s, w), WriteBytes(s, w))], [w], 0);
    assert n == History(Stored(s, h.es, w), h.log + [w], h.horizon);
    WriteStep(s, h, Insert(tx, ValuesFor(s, pk)), w);
    hide Step;
    var hs := [h, n];
    assert forall i | 0 <= i < |hs| - 1 :: Step(s, hs[i], hs[i + 1]);
  }

  lemma OnKeyOne(w: Write, pk: Pk)
    ensures OnKey([w], pk) == if w.pk == pk then [KeyWrite(w.tx, w.cell)] else []
  {
    OnKeySnoc([], w, pk);
    assert [] + [w] == [w];
  }

  /** A storable version of another key in reach: inserting it makes pk readable. */
  lemma OtherKeyMisread(s: Schema, pk: Pk, r: Row)
    requires Plain(s) && ReachesOther(s, pk, r) && r.table == s.table
    ensures !ReadsRight(s, pk)
  {
    assert r.pk != pk && |r.pk| == |s.pkIdx|;
    hide ReachesOther, IsRun, MayRead, OnKey, Replayed, FirstWrite, ValuesFor, WriteKey, WriteBytes;
    var w := FirstWrite(s, r.pk, r.version);
    var hs := [History([], [], 0), History([Entry(WriteKey(s, w), WriteBytes(s, w))], [w], 0)];
    OtherKeyRun(s, pk, r);
    OtherKeyRead(s, pk, r);
    OtherKeyLog(s, pk, r);
    Misread(s, hs, pk, r.version, Ok(ValuesFor(s, r.pk)));
  }

  lemma OtherKeyRun(s: Schema, pk: Pk, r: Row)
    requires Plain(s) && ReachesOther(s, pk, r) && r.table == s.table && |r.pk| == |s.pkIdx|
    ensures var w := FirstWrite(s, r.pk, r.version);
      IsRun(s, [History([], [], 0), History([Entry(WriteKey(s, w), WriteBytes(s, w))], [w], 0)])
  {
    hide IsRun, FirstWrite, ValuesFor, WriteKey, WriteBytes, Reached, EncodeRow, Clean, Storable;
    FirstStep(s, r.pk, r.version);
  }

  lemma OtherKeyRead(s: Schema, pk: Pk, r: Row)
    requires Plain(s) && ReachesOther(s, pk, r) && r.table == s.table && |r.pk| == |s.pkIdx|
    ensures var w := FirstWrite(s, r.pk, r.version);
      MayRead(s, [Entry(WriteKey(s, w), WriteBytes(s, w))], pk, r.version, Ok(ValuesFor(s, r.pk)))
  {
    hide EncodeRow, Reached, Clean, Storable, MayRead, WriteBytes, DecodeCell, RowPrefix, ValuesFor;
    FirstInsert(s, r.pk, r.version);
    SoleRead(s, pk, r, WriteBytes(s, FirstWrite(s, r.pk, r.version)), ValuesFor(s, r.pk), r.version);
  }

  lemma OtherKeyLog(s: Schema, pk: Pk, r: Row)
    requires |r.pk| == |s.pkIdx| && r.pk != pk
    ensures Replayed(OnKey([FirstWrite(s, r.pk, r.version)], pk), r.version) == None
  {
    hide OnKey, ValuesFor;
    OnKeyOne(FirstWrite(s, r.pk, r.version), pk);
  }

  lemma {:induction false} NullPrimitives(n: nat)
    ensures Primitives(AllNull(n)) == []
  {
    if n > 0 {
      NullPrimitives(n - 1);
      assert AllNull(n)[..n - 1] == AllNull(n - 1);
    }
  }

  lemma NullRow(s: Schema)
    ensures DecodeCell(s.kinds, CellBytes(|s.kinds|, Live(AllNull(|s.kinds|)))) == Some(Live(AllNull(|s.kinds|)))
  {
    NullPrimitives(|s.kinds|);
    hide RowBytes, DecodeCell, Primitives;
    CellRoundTrip(s.kinds, Live(AllNull(|s.kinds|)));
  }

  lemma NotUnderPrefix(r: Row, t: U64)
    requires r.table != t
    ensures !(TablePrefix(t) <= EncodeRow(r))
  {
    hide EncodePk, Put64;
    Put64Order(r.table, t);
    assert EncodeRow(r)[..9] == TablePrefix(r.table);
    assert TablePrefix(r.table)[1..] == Put64(r.table) && TablePrefix(t)[1..] == Put64(t);
  }

  /** A row of another table in reach of pk's scan. */
  lemma OtherTableMisread(s: Schema, pk: Pk, r: Row)
    requires Plain(s) && ReachesOther(s, pk, r) && r.table != s.table
    ensures !ReadsRight(s, pk)
  {
    hide EncodeRow, Reached, Clean, Storable, MayRead, DecodeCell, RowPrefix, CellBytes, TablePrefix, Lookup, Sorted, Put;
    var k, data := EncodeRow(r), CellBytes(|s.kinds|, Live(AllNull(|s.kinds|)));
    var h0, h := History([], [], 0), History([Entry(k, data)], [], 0);
    NoEntry(s);
    OneEntry(k, data);
    NullRow(s);
    NotUnderPrefix(r, s.table);
    SoleRead(s, pk, r, data, AllNull(|s.kinds|), r.version);
    assert SameTable(s, h0.es, h.es) && Step(s, h0, h);
    var hs := [h0, h];
    assert forall i | 0 <= i < |hs| - 1 :: Step(s, hs[i], hs[i + 1]);
    hide Step, Empty;
    assert IsRun(s, hs) && hs[|hs| - 1] == h;
    assert MayRead(s, h.es, pk, r.version, Ok(AllNull(|s.kinds|)));
    assert !ReadsReplay(s, h, pk);
  }

  lemma ExposedMisread(s: Schema, pk: Pk)
    requires Plain(s) && Exposed(s, pk)
    ensures !ReadsRight(s, pk)
  {
    hide ReachesOther, ReadsRight;
    var r :| ReachesOther(s, pk, r);
    if r.table == s.table {
      OtherKeyMisread(s, pk, r);
    } else {
      OtherTableMisread(s, pk, r);
    }
  }

  // ----- twins -----

  /** pk stored at 1. */
  ghost function Inserted(s: Schema, pk: Pk): History
    requires |pk| == |s.pkIdx|
  {
    var w := FirstWrite(s, pk, 1);
    History([Entry(WriteKey(s, w), WriteBytes(s, w))], [w], 0)
  }

  lemma TombstoneFits(s: Schema, pk: Pk, q: Pk)
    requires Plain(s) && Storable(s, pk, 1) && EncodePk(q) == EncodePk(pk)
    ensures Fitting(s, Write(q, 2, Tombstone)) == Ok(Write(q, 2, Tombstone))
    ensures ReadData(s, WriteBytes(s, Write(q, 2, Tombstone))) == Err(ErrKeyNotFound)
  {
    var w := Write(q, 2, Tombstone);
    NullPrimitives(|s.kinds|);
    hide EncodePk, Put64, Bitmask, Primitives;
    assert |WriteBytes(s, w)| <= 1 + MaskLen(|s.kinds|);
    hide DecodeCell;
    CellRoundTrip(s.kinds, Tombstone);
  }

  /** A Delete of a key with pk's bytes finds pk's row and is accepted. */
  lemma TwinDeletes(s: Schema, pk: Pk, q: Pk)
    requires Plain(s) && Decodable(s) && Storable(s, pk, 1) && Kinds(q) == PkKinds(s) && EncodePk(q) == EncodePk(pk)
    ensures MayPlan(s, Inserted(s, pk).es, Delete(2, AsValues(q)), Ok(Write(q, 2, Tombstone)))
  {
    hide EncodeRow, EncodePk, MayRead, WriteBytes, DecodeCell, Reached, Clean, Scanned, KeyOf, ReadData;
    var es, w := Inserted(s, pk).es, FirstWrite(s, pk, 1);
    KeyIff(s, AsValues(q), q);
    CleanIff(s, pk);
    FirstInsert(s, pk, 1);
    OwnKeyReached(s.table, pk, 1);
    assert RowPrefix(s.table, q) == RowPrefix(s.table, pk);
    SoleRead(s, q, Row(s.table, pk, 1), WriteBytes(s, w), ValuesFor(s, pk), 2);
    TombstoneFits(s, pk, q);
    assert Admit(s, es, AsValues(q), 2) == Ok(q);
    assert MayRead(s, es, q, 2, Ok(ValuesFor(s, pk)));
    assert PlanFor(s, Delete(2, AsValues(q)), q, Ok(ValuesFor(s, pk))) == Ok(Write(q, 2, Tombstone));
  }

  /** After that pk is not found. */
  lemma TwinDeleted(s: Schema, pk: Pk, q: Pk)
    requires Plain(s) && Decodable(s) && Storable(s, pk, 1) && Twins(s, pk, q)
    ensures MayRead(s, Stored(s, Inserted(s, pk).es, Write(q, 2, Tombstone)), pk, 2, Err(ErrKeyNotFound))
  {
    hide EncodeRow, EncodePk, WriteBytes, DecodeCell, Reached, Clean, Scanned, ReadData, Lookup, Sorted, Put, DecodeRow, RowPrefix;
    var w := Write(q, 2, Tombstone);
    var e, es := Inserted(s, pk).es, Stored(s, Inserted(s, pk).es, w);
    var k, data := EncodeRow(Row(s.table, pk, 2)), WriteBytes(s, w);
    KeyEnds(s.table, q, 2, pk, 2);
    OneEntry(e[0].key, e[0].val);
    assert e == [Entry(e[0].key, e[0].val)];
    PutIsMapUpdate(e, k, data, k);
    PutSorted(e, k, data);
    CleanIff(s, pk);
    OwnKeyReached(s.table, pk, 2);
    RowRoundTripIff(Row(s.table, pk, 2));
    NotEmpty(s.table, pk);
    ScannedEntries(es, RowPrefix(s.table, pk), PkKinds(s));
    TombstoneFits(s, pk, q);
    assert Highest(KeyVersions(s, es, pk), 2, Version(2, k, data));
  }

  lemma TwinLog(s: Schema, pk: Pk, q: Pk)
    requires |pk| == |s.pkIdx| && q != pk
    ensures ReadOut(Replayed(OnKey(Inserted(s, pk).log + [Write(q, 2, Tombstone)], pk), 2)) == Ok(ValuesFor(s, pk))
  {
    var w, d := FirstWrite(s, pk, 1), Write(q, 2, Tombstone);
    OnKeyOne(w, pk);
    OnKeySnoc([w], d, pk);
    hide OnKey, ValuesFor;
  }

  lemma TwinRun(s: Schema, pk: Pk, q: Pk)
    requires Plain(s) && Decodable(s) && Storable(s, pk, 1) && Kinds(q) == PkKinds(s) && EncodePk(q) == EncodePk(pk)
    ensures var h, d := Inserted(s, pk), Write(q, 2, Tombstone);
      IsRun(s, [History([], [], 0), h, History(Stored(s, h.es, d), h.log + [d], h.horizon)])
  {
    assert |pk| == |s.pkIdx|;
    hide *;
    FirstStep(s, pk, 1);
    InsertedIs(s, pk);
    TwinDeletes(s, pk, q);
    RunOne(s, Inserted(s, pk), Delete(2, AsValues(q)), Write(q, 2, Tombstone));
  }

  /** One more write after a first state. */
  lemma RunOne(s: Schema, h: History, call: Call, w: Write)
    requires ValidSchema(s) && IsRun(s, [History([], [], 0), h]) && MayPlan(s, h.es, call, Ok(w))
    ensures IsRun(s, [History([], [], 0), h, History(Stored(s, h.es, w), h.log + [w], h.horizon)])
  {
    hide MayPlan, Stored, IsRun, Step;
    WriteStep(s, h, call, w);
    var n, hs := History(Stored(s, h.es, w), h.log + [w], h.horizon), [History([], [], 0), h];
    RunSnoc(s, hs, n);
    assert hs + [n] == [History([], [], 0), h, n];
  }

  lemma InsertedIs(s: Schema, pk: Pk)
    requires |pk| == |s.pkIdx|
    ensures var w := FirstWrite(s, pk, 1);
      Inserted(s, pk) == History([Entry(WriteKey(s, w), WriteBytes(s, w))], [w], 0)
  {}

  lemma RunSnoc(s: Schema, hs: seq<History>, n: History)
    requires ValidSchema(s) && IsRun(s, hs) && Step(s, hs[|hs| - 1], n)
    ensures IsRun(s, hs + [n])
  {
    hide Step, Empty;
    var all := hs + [n];
    forall i | 0 <= i < |all| - 1 ensures Step(s, all[i], all[i + 1]) {
      if i < |hs| - 1 { assert Step(s, hs[i], hs[i + 1]); }
    }
  }

  /** One read that is not the replay. */
  lemma Misread(s: Schema, hs: seq<History>, pk: Pk, r: U64, out: Result<Values, HeapError>)
    requires ValidSchema(s) && IsRun(s, hs)
    requires var h := hs[|hs| - 1]; h.horizon <= r && MayRead(s, h.es, pk, r, out) && out != ReadOut(Replayed(OnKey(h.log, pk), r))
    ensures !ReadsRight(s, pk)
  {
    hide MayRead, Step, Empty, OnKey, Replayed;
    assert !ReadsReplay(s, hs[|hs| - 1], pk);
  }

  lemma TwinMisread(s: Schema, pk: Pk, q: Pk)
    requires Plain(s) && Decodable(s) && Storable(s, pk, 1) && Twins(s, pk, q)
    ensures !ReadsRight(s, pk)
  {
    TwinHides(s, pk, q);
  }

  lemma TwinHides(s: Schema, pk: Pk, q: Pk)
    requires Plain(s) && ValidSchema(s) && Decodable(s) && Storable(s, pk, 1) && |pk| == |s.pkIdx| && Twins(s, pk, q)
    requires q != pk && Kinds(q) == PkKinds(s) && EncodePk(q) == EncodePk(pk)
    ensures !ReadsRight(s, pk)
  {
    hide *;
    var h, d := Inserted(s, pk), Write(q, 2, Tombstone);
    var hs := [History([], [], 0), h, History(Stored(s, h.es, d), h.log + [d], h.horizon)];
    InsertedIs(s, pk);
    TwinRun(s, pk, q);
    TwinDeleted(s, pk, q);
    TwinLog(s, pk, q);
    Misread(s, hs, pk, 2, Err(ErrKeyNotFound));
  }

  // ----- a byte column before the last -----

  lemma NothingDecodes(s: Schema, es: seq<Entry>, pk: Pk)
    requires ValidSchema(s) && !Decodable(s)
    ensures KeyVersions(s, es, pk) == []
  {
    hide DecodeRow, EncodeRow, Clean, Decodable, Select, Decoded;
    var vs := KeyVersions(s, es, pk);
    if vs != [] {
      var p := RowPrefix(s.table, pk);
      DecodedIff(Select(es, p, EndOf(p)), PkKinds(s), vs[0]);
      RowDecoded(vs[0].key, PkKinds(s));
      CleanIff(s, DecodeRow(vs[0].key, PkKinds(s)).value.pk);
    }
  }

  lemma FindsNothing(s: Schema, es: seq<Entry>, pk: Pk, tx: U64, out: Result<Values, HeapError>)
    requires ValidSchema(s) && !Decodable(s)
    ensures MayRead(s, es, pk, tx, out) <==> out == Err(ErrKeyNotFound)
  {
    NothingDecodes(s, es, pk);
    hide KeyVersions, Decodable, ReadData;
  }

  lemma OnlyStorable(s: Schema, es: seq<Entry>, call: Call, w: Write)
    requires ValidSchema(s) && !Decodable(s) && MayPlan(s, es, call, Ok(w))
    ensures Storable(s, w.pk, w.tx)
  {
    hide MayPlan, MayRead, Decodable, EncodeValues, WriteBytes, KeyVersions;
    PlanSound(s, es, call, w);
    if w.cell.Live? {
      LiveIsNulFree(s, w);
    } else {
      var seen :| MayRead(s, es, w.pk, w.tx, seen) && seen.Ok?;
      FindsNothing(s, es, w.pk, w.tx, seen);
    }
  }

  lemma {:induction false} NeverWritten(s: Schema, hs: seq<History>, pk: Pk)
    requires ValidSchema(s) && !Decodable(s) && !Storable(s, pk, 1) && IsRun(s, hs)
    ensures OnKey(hs[|hs| - 1].log, pk) == []
  {
    hide Storable, Decodable, MayPlan, Stored, VacuumedTo, SameTable, OnKey;
    if |hs| == 1 {
      assert hs[0].log == [];
      assert OnKey([], pk) == [] by { NoWrites(pk); }
    } else {
      var n := |hs| - 1;
      RunPrefix(s, hs);
      NeverWritten(s, hs[..n], pk);
      var h := hs[n - 1];
      hide IsRun;
      if CallStep(s, h, hs[n]) {
        var call, out :| MayPlan(s, h.es, call, out) &&
          hs[n] == match out
               case Err(_) => h
               case Ok(w) => History(Stored(s, h.es, w), h.log + [w], h.horizon);
        if out.Ok? {
          OnlyStorable(s, h.es, call, out.value);
          OnKeySnoc(h.log, out.value, pk);
          if out.value.pk == pk { StorableSize(s, pk, out.value.tx, 1); }
        }
      }
    }
  }

  lemma NoWrites(pk: Pk)
    ensures OnKey([], pk) == []
  {}

  lemma UndecodableIff(s: Schema, pk: Pk)
    requires Plain(s) && !Decodable(s) && Kinds(pk) == PkKinds(s)
    ensures ReadsRight(s, pk) <==> !Storable(s, pk, 1)
  {
    hide Storable, Decodable, MayRead, Step, Empty, OnKey, WriteKey, WriteBytes;
    if Storable(s, pk, 1) {
      FirstStep(s, pk, 1);
      var h := Inserted(s, pk);
      var hs := [History([], [], 0), h];
      assert hs[|hs| - 1] == h && IsRun(s, hs);
      FindsNothing(s, h.es, pk, 1, Err(ErrKeyNotFound));
      OnKeyOne(FirstWrite(s, pk, 1), pk);
      assert Replayed(OnKey(h.log, pk), 1) == Some(ValuesFor(s, pk));
      assert !ReadsReplay(s, h, pk);
    } else {
      forall hs: seq<History> | IsRun(s, hs) ensures ReadsReplay(s, hs[|hs| - 1], pk) {
        NeverWritten(s, hs, pk);
        var h := hs[|hs| - 1];
        forall r: U64, out | h.horizon <= r && MayRead(s, h.es, pk, r, out)
          ensures out == ReadOut(Replayed(OnKey(h.log, pk), r))
        {
          FindsNothing(s, h.es, pk, r, out);
          ReplayNone(r);
        }
      }
    }
  }

  // ----- exactly which keys -----

  /** Over every history a key is read as the replay of its accepted writes exactly if its scan
      reaches no other row that can be stored and no other key has its bytes; when a byte column
      stands before the last key column, exactly if the key cannot be stored. */
  lemma KeyReadsIff(s: Schema, pk: Pk)
    requires Plain(s) && Kinds(pk) == PkKinds(s)
    ensures ReadsRight(s, pk) <==> if Decodable(s) then !Exposed(s, pk) && !Aliased(s, pk) else !Storable(s, pk, 1)
  {
    hide Exposed, Storable, Decodable, ReadsReplay, Step, Empty, Twins;
    if !Decodable(s) {
      UndecodableIff(s, pk);
    } else if Exposed(s, pk) {
      ExposedMisread(s, pk);
    } else if Aliased(s, pk) {
      var q :| Twins(s, pk, q);
      TwinMisread(s, pk, q);
    } else {
      forall hs: seq<History> | IsRun(s, hs) ensures ReadsReplay(s, hs[|hs| - 1], pk) {
        KeyReadsRight(s, hs, pk);
      }
    }
  }
}
