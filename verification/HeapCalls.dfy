/** What every call on a table answers, over every history: exactly when it is accepted, the version
    it then stores, and the error it is refused with. */
module HeapCalls {
  import opened Wrappers
  import opened Bytes
  import opened SortedEntries
  import opened RowKey
  import opened RowValue
  import opened HeapSpec
  import opened HeapStore
  import opened HeapChains
  import opened HeapRuns
  import HeapExact
  import NodeCodec

  /** A key whose range reaches no other row, and whose bytes no other key has. */
  ghost predicate Reliable(s: Schema, pk: Pk) {
    ValidSchema(s) && Decodable(s) && Kinds(pk) == PkKinds(s) && !Exposed(s, pk) && !Aliased(s, pk)
  }

  /** A version of the key at or above tx is in the store. */
  ghost predicate Overtaken(s: Schema, es: seq<Entry>, pk: Pk, tx: U64)
    requires ValidSchema(s)
  {
    exists x :: x in KeyVersions(s, es, pk) && x.version >= tx
  }

  /** The writes accepted so far leave this row for the key, as of tx or of the vacuum horizon if
      that is later. */
  ghost function RowOf(h: History, pk: Pk, tx: U64): Option<Values> {
    Replayed(OnKey(h.log, pk), if tx < h.horizon then h.horizon else tx)
  }

  // ----- what a call finds -----

  /** Above all versions, every reader sees the same. */
  lemma AboveAll(m: Chain, tx: U64, r: U64)
    requires tx <= r && forall v: U64 | v in m :: v <= tx
    ensures Visible(m, tx) == Visible(m, r)
  {
    if v: U64 :| v in m {
      var top := NewestExists(m, tx, v);
      NewestDecides(m, tx, top);
      NewestDecides(m, r, top);
    } else {
      NoVersionInvisible(m, tx);
      NoVersionInvisible(m, r);
    }
  }

  /** A call that is not overtaken finds the row that the accepted writes leave. */
  lemma Found(s: Schema, hs: seq<History>, pk: Pk, tx: U64, out: Result<Values, HeapError>)
    requires Reliable(s, pk) && hs != [] && IsRun(s, hs)
    requires var h := hs[|hs| - 1]; MayRead(s, h.es, pk, tx, out) && !Overtaken(s, h.es, pk, tx)
    ensures out == ReadOut(RowOf(hs[|hs| - 1], pk, tx))
  {
    hide Exposed, Aliased, Decodable, IsRun, Clean, MayRead, Visible, Replayed, Shaped, ChainOf, OnKey, KeyVersions, TableOk;
    var h := hs[|hs| - 1];
    if tx >= h.horizon {
      KeyReadsRight(s, hs, pk);
    } else {
      RunKeeps(s, hs, pk);
      if Clean(pk) {
        ReadIff(s, h.es, pk, tx, out);
        SortedTable(s, h.es);
        VersionsBelow(s, h.es, pk, tx);
        AboveAll(ChainOf(s, h.es, pk), tx, h.horizon);
      } else {
        UncleanRead(s, h.es, pk, tx, out);
        ReplayNone(h.horizon);
      }
    }
  }

  lemma VersionsBelow(s: Schema, es: seq<Entry>, pk: Pk, tx: U64)
    requires ValidSchema(s) && Sorted(es) && Clean(pk) && Kinds(pk) == PkKinds(s) && !Overtaken(s, es, pk, tx)
    ensures forall v: U64 | v in ChainOf(s, es, pk) :: v < tx
  {
    hide Clean, ChainOf, KeyVersions, EncodeRow, Lookup, DecodeCell, Sorted;
    forall v: U64 | v in ChainOf(s, es, pk) ensures v < tx {
      ScanFinds(s, es, pk, v);
    }
  }

  // ----- what a call answers -----

  /** Each column has its kind or is NULL, and no string has a zero byte. */
  ghost predicate Proper(s: Schema, values: Values) {
    && |values| == |s.kinds|
    && (forall c | 0 <= c < |values| && values[c].Of? :: values[c].v.Kind() == s.kinds[c])
    && (forall c | 0 <= c < |values| && values[c].Of? && values[c].v.String? :: 0 !in values[c].v.s)
  }

  /** A column of another kind is reported before a zero byte. */
  ghost function ValueError(s: Schema, values: Values): (e: HeapError)
    ensures e.ErrTypeMismatch? || e.ErrNullByteInString?
  {
    if exists c :: 0 <= c < |values| && c < |s.kinds| && values[c].Of? && values[c].v.Kind() != s.kinds[c] then ErrTypeMismatch
    else ErrNullByteInString
  }

  /** A key that is too long is reported before a row that is. */
  ghost function SizeError(pk: Pk): (e: HeapError)
    ensures e.ErrKeyTooLarge? || e.ErrValueTooLarge?
  {
    if |EncodePk(pk)| + 17 > 63 then ErrKeyTooLarge else ErrValueTooLarge
  }

  /** Table, key and version fit 63 bytes, and the row fits 16 MiB with its page id. */
  ghost predicate Fits(pk: Pk, row: Bytes) {
    |EncodePk(pk)| + 17 <= 63 && |row| + 8 <= 16 * 1024 * 1024
  }

  lemma FitsIff(s: Schema, w: Write)
    ensures Fitting(s, w) == Ok(w) <==> Fits(w.pk, WriteBytes(s, w))
    ensures !Fits(w.pk, WriteBytes(s, w)) ==> Fitting(s, w) == Err(SizeError(w.pk))
  {
    hide WriteBytes, EncodePk, Put64;
  }

  lemma ProperIff(s: Schema, values: Values)
    requires |values| == |s.kinds|
    ensures EncodeValues(s.kinds, FLAG_NORMAL, values).Ok? <==> Proper(s, values)
    ensures !Proper(s, values) ==> EncodeValues(s.kinds, FLAG_NORMAL, values) == Err(ValueError(s, values))
  {
    hide RowBytes;
    if !Proper(s, values) && RowFits(s.kinds, values) {
      var c :| 0 <= c < |values| && values[c].Of? && values[c].v.String? && 0 in values[c].v.s;
      assert HasNul(values[c].v);
    }
    if !RowFits(s.kinds, values) {
      var c :| 0 <= c < |values| && !ColumnFits(s.kinds[c], values[c]);
      assert values[c].Of? && values[c].v.Kind() != s.kinds[c];
    }
    if Proper(s, values) {
      assert forall c | 0 <= c < |values| :: ColumnFits(s.kinds[c], values[c]);
      assert forall c | 0 <= c < |values| && values[c].Of? :: !HasNul(values[c].v);
    }
  }

  /** The argument list names the key. */
  lemma Named(s: Schema, es: seq<Entry>, args: Values, pk: Pk, tx: U64)
    requires ValidSchema(s) && Kinds(pk) == PkKinds(s) && args == AsValues(pk)
    ensures Admit(s, es, args, tx) ==
      if tx == 0 then Err(ErrInvalidTx) else if Overtaken(s, es, pk, tx) then Err(ErrTxConflict) else Ok(pk)
  {
    hide KeyOf, KeyVersions;
    KeyIff(s, args, pk);
  }

  /** Insert stores the row exactly if its ID is above all versions of the key, the accepted writes
      leave no row there, and the row is proper and fits; else it names the first of these. */
  lemma InsertIff(s: Schema, hs: seq<History>, pk: Pk, tx: U64, values: Values, out: Result<Write, HeapError>)
    requires Reliable(s, pk) && hs != [] && IsRun(s, hs)
    requires |values| == |s.kinds| && forall i | 0 <= i < |pk| :: values[s.pkIdx[i]] == Of(pk[i])
    requires MayPlan(s, hs[|hs| - 1].es, Insert(tx, values), out)
    ensures var h, row := hs[|hs| - 1], RowBytes(0, values);
      var free := tx > 0 && !Overtaken(s, h.es, pk, tx);
      && (out.Ok? <==> free && RowOf(h, pk, tx) == None && Proper(s, values) && Fits(pk, row))
      && (out.Ok? ==> out.value == Write(pk, tx, Live(values)))
      && (out == Err(ErrInvalidTx) <==> tx == 0)
      && (out == Err(ErrTxConflict) <==> tx > 0 && !free)
      && (out == Err(ErrDuplicateKey) <==> free && RowOf(h, pk, tx).Some?)
      && (free && RowOf(h, pk, tx) == None && !Proper(s, values) ==> out == Err(ValueError(s, values)))
      && (free && RowOf(h, pk, tx) == None && Proper(s, values) && !Fits(pk, row) ==> out == Err(SizeError(pk)))
  {
    hide Exposed, Aliased, Decodable, IsRun, MayRead, Overtaken, RowOf, Admit, Proper, Fits, ValueError, SizeError, RowBytes, PkColumns, AsValues, Kinds, EncodePk,
      PlanFor;
    var h := hs[|hs| - 1];
    KindsLength(s, pk);
    ColumnsSame(s, pk, values);
    Named(s, h.es, AsValues(pk), pk, tx);
    if tx > 0 && !Overtaken(s, h.es, pk, tx) {
      var seen :| MayRead(s, h.es, pk, tx, seen) && out == PlanFor(s, Insert(tx, values), pk, seen);
      Found(s, hs, pk, tx, seen);
      InsertPlan(s, pk, tx, values, seen);
    }
  }

  lemma InsertPlan(s: Schema, pk: Pk, tx: U64, values: Values, seen: Result<Values, HeapError>)
    requires ValidSchema(s) && |values| == |s.kinds|
    ensures var out, row := PlanFor(s, Insert(tx, values), pk, seen), RowBytes(0, values);
      && (seen.Ok? ==> out == Err(ErrDuplicateKey))
      && (seen.Err? && !Proper(s, values) ==> out == Err(ValueError(s, values)))
      && (seen.Err? && Proper(s, values) && !Fits(pk, row) ==> out == Err(SizeError(pk)))
      && (seen.Err? && Proper(s, values) && Fits(pk, row) ==> out == Ok(Write(pk, tx, Live(values))))
  {
    hide EncodeValues, Fitting, Proper, Fits, ValueError, SizeError, RowBytes, EncodePk;
    ProperIff(s, values);
    FitsIff(s, Write(pk, tx, Live(values)));
  }

  /** Update stores the new row exactly if its ID is above all versions of the key, the accepted
      writes leave a row there, the key columns stay, and the row is proper and fits. */
  lemma UpdateIff(s: Schema, hs: seq<History>, pk: Pk, tx: U64, values: Values, out: Result<Write, HeapError>)
    requires Reliable(s, pk) && hs != [] && IsRun(s, hs) && |values| == |s.kinds|
    requires MayPlan(s, hs[|hs| - 1].es, Update(tx, AsValues(pk), values), out)
    ensures var h, row := hs[|hs| - 1], RowBytes(0, values);
      var free := tx > 0 && !Overtaken(s, h.es, pk, tx);
      var same := |pk| == |s.pkIdx| && forall i | 0 <= i < |pk| :: values[s.pkIdx[i]] == Of(pk[i]);
      && (out.Ok? <==> free && RowOf(h, pk, tx).Some? && same && Proper(s, values) && Fits(pk, row))
      && (out.Ok? ==> out.value == Write(pk, tx, Live(values)))
      && (out == Err(ErrInvalidTx) <==> tx == 0)
      && (out == Err(ErrTxConflict) <==> tx > 0 && !free)
      && (out == Err(ErrKeyNotFound) <==> free && RowOf(h, pk, tx) == None)
      && (out == Err(ErrPrimaryKeyUpdate) <==> free && RowOf(h, pk, tx).Some? && !same)
      && (free && RowOf(h, pk, tx).Some? && same && !Proper(s, values) ==> out == Err(ValueError(s, values)))
      && (free && RowOf(h, pk, tx).Some? && same && Proper(s, values) && !Fits(pk, row) ==> out == Err(SizeError(pk)))
  {
    hide Exposed, Aliased, Decodable, IsRun, MayRead, Overtaken, RowOf, Admit, Proper, Fits, ValueError, SizeError, RowBytes, PkColumns, AsValues, Kinds, EncodePk,
      PlanFor;
    var h := hs[|hs| - 1];
    KindsLength(s, pk);
    ColumnsSame(s, pk, values);
    Named(s, h.es, AsValues(pk), pk, tx);
    if tx > 0 && !Overtaken(s, h.es, pk, tx) {
      var seen :| MayRead(s, h.es, pk, tx, seen) && out == PlanFor(s, Update(tx, AsValues(pk), values), pk, seen);
      Found(s, hs, pk, tx, seen);
      UpdatePlan(s, pk, tx, values, seen);
    }
  }

  lemma UpdatePlan(s: Schema, pk: Pk, tx: U64, values: Values, seen: Result<Values, HeapError>)
    requires ValidSchema(s) && |values| == |s.kinds|
    ensures var out, same, row := PlanFor(s, Update(tx, AsValues(pk), values), pk, seen), PkColumns(s, values) == AsValues(pk), RowBytes(0, values);
      && (seen.Err? ==> out == Err(ErrKeyNotFound))
      && (seen.Ok? && !same ==> out == Err(ErrPrimaryKeyUpdate))
      && (seen.Ok? && same && !Proper(s, values) ==> out == Err(ValueError(s, values)))
      && (seen.Ok? && same && Proper(s, values) && !Fits(pk, row) ==> out == Err(SizeError(pk)))
      && (seen.Ok? && same && Proper(s, values) && Fits(pk, row) ==> out == Ok(Write(pk, tx, Live(values))))
  {
    hide EncodeValues, Fitting, Proper, Fits, ValueError, SizeError, RowBytes, PkColumns, AsValues, EncodePk;
    ProperIff(s, values);
    FitsIff(s, Write(pk, tx, Live(values)));
  }

  /** Delete stores a tombstone exactly if its ID is above all versions of the key, the accepted
      writes leave a row there, and the key fits. */
  lemma DeleteIff(s: Schema, hs: seq<History>, pk: Pk, tx: U64, out: Result<Write, HeapError>)
    requires Reliable(s, pk) && hs != [] && IsRun(s, hs)
    requires MayPlan(s, hs[|hs| - 1].es, Delete(tx, AsValues(pk)), out)
    ensures var h, row := hs[|hs| - 1], RowBytes(1, AllNull(|s.kinds|));
      var free := tx > 0 && !Overtaken(s, h.es, pk, tx);
      && (out.Ok? <==> free && RowOf(h, pk, tx).Some? && Fits(pk, row))
      && (out.Ok? ==> out.value == Write(pk, tx, Tombstone))
      && (out == Err(ErrInvalidTx) <==> tx == 0)
      && (out == Err(ErrTxConflict) <==> tx > 0 && !free)
      && (out == Err(ErrKeyNotFound) <==> free && RowOf(h, pk, tx) == None)
      && (free && RowOf(h, pk, tx).Some? && !Fits(pk, row) ==> out == Err(SizeError(pk)))
  {
    hide Exposed, Aliased, Decodable, IsRun, MayRead, Overtaken, RowOf, Admit, Fitting, Fits, SizeError, RowBytes, AsValues, Kinds, EncodePk;
    var h := hs[|hs| - 1];
    Named(s, h.es, AsValues(pk), pk, tx);
    FitsIff(s, Write(pk, tx, Tombstone));
    if tx > 0 && !Overtaken(s, h.es, pk, tx) {
      var seen :| MayRead(s, h.es, pk, tx, seen) && out == PlanFor(s, Delete(tx, AsValues(pk)), pk, seen);
      Found(s, hs, pk, tx, seen);
    }
  }

  lemma KindsLength(s: Schema, pk: Pk)
    requires ValidSchema(s) && Kinds(pk) == PkKinds(s)
    ensures |pk| == |s.pkIdx|
  {}

  lemma ColumnsSame(s: Schema, pk: Pk, values: Values)
    requires ValidSchema(s) && |pk| == |s.pkIdx| && |values| == |s.kinds|
    ensures PkColumns(s, values) == AsValues(pk) <==> forall i | 0 <= i < |pk| :: values[s.pkIdx[i]] == Of(pk[i])
  {
    if PkColumns(s, values) == AsValues(pk) {
      forall i | 0 <= i < |pk| ensures values[s.pkIdx[i]] == Of(pk[i]) {
        assert PkColumns(s, values)[i] == AsValues(pk)[i];
      }
    }
  }

  // ----- calls that name no key -----

  /** A row of the wrong length, an ID of zero, a key of the wrong length, and the first key column
      that is NULL or of another kind are refused, in this order, whatever the store holds. */
  lemma Unnamed(s: Schema, es: seq<Entry>, call: Call, out: Result<Write, HeapError>)
    requires ValidSchema(s) && MayPlan(s, es, call, out)
    ensures !call.Delete? && |call.values| != |s.kinds| ==> out == Err(ErrColumnCountMismatch)
    ensures (call.Delete? || |call.values| == |s.kinds|) && call.tx == 0 ==> out == Err(ErrInvalidTx)
    ensures !call.Insert? && (call.Delete? || |call.values| == |s.kinds|) && call.tx > 0 && |call.pk| != |s.pkIdx| ==>
      out == Err(ErrColumnCountMismatch)
    ensures (call.Delete? || |call.values| == |s.kinds|) && call.tx > 0 && (call.Insert? || |call.pk| == |s.pkIdx|) ==>
      forall i | 0 <= i < |s.pkIdx| && (forall j | 0 <= j < i :: GoodColumn(s, Argument(s, call, j), j)) ::
        var d := Argument(s, call, i);
        (d.Null? ==> out == Err(ErrNullNotSupported)) && (d.Of? && d.v.Kind() != s.kinds[s.pkIdx[i]] ==> out == Err(ErrTypeMismatch))
  {
    hide MayRead, KeyVersions, PlanFor, KeyUpTo;
    if (call.Delete? || |call.values| == |s.kinds|) && call.tx > 0 && (call.Insert? || |call.pk| == |s.pkIdx|) {
      var args := CallKey(s, call);
      forall i | 0 <= i < |s.pkIdx| && (forall j | 0 <= j < i :: GoodColumn(s, Argument(s, call, j), j)) && !GoodColumn(s, Argument(s, call, i), i)
        ensures Argument(s, call, i).Null? ==> out == Err(ErrNullNotSupported)
        ensures Argument(s, call, i).Of? ==> out == Err(ErrTypeMismatch)
      {
        assert forall j | 0 <= j < |args| :: args[j] == Argument(s, call, j);
        FirstBad(s, args, i, |args|);
      }
    }
  }

  ghost function Argument(s: Schema, call: Call, i: nat): Datum
    requires ValidSchema(s) && i < |s.pkIdx|
    requires if call.Insert? then |call.values| == |s.kinds| else |call.pk| == |s.pkIdx|
  {
    if call.Insert? then call.values[s.pkIdx[i]] else call.pk[i]
  }

  ghost predicate GoodColumn(s: Schema, d: Datum, i: nat)
    requires ValidSchema(s) && i < |s.pkIdx|
  {
    d.Of? && d.v.Kind() == s.kinds[s.pkIdx[i]]
  }

  lemma {:induction false} FirstBad(s: Schema, args: Values, i: nat, n: nat)
    requires ValidSchema(s) && |args| == |s.pkIdx| && i < n <= |args|
    requires (forall j | 0 <= j < i :: GoodColumn(s, args[j], j)) && !GoodColumn(s, args[i], i)
    ensures KeyUpTo(s, args, n) == Err(if args[i].Null? then ErrNullNotSupported else ErrTypeMismatch)
  {
    if i < n - 1 {
      FirstBad(s, args, i, n - 1);
    } else {
      KeyColumns(s, args, i);
    }
  }

  // ----- below the horizon -----

  /** pk inserted at 1, deleted at 2 and vacuumed away. */
  ghost function Forgotten(s: Schema, pk: Pk): History
    requires |pk| == |s.pkIdx|
  {
    History([], HeapExact.Inserted(s, pk).log + [Write(pk, 2, Tombstone)], 2)
  }

  /** After that an Insert at 1 is accepted again, although the writes up to 1 leave a row: the IDs
      of a vacuumed key are free, and only the writes up to the horizon decide. */
  lemma OldIdAccepted(s: Schema, pk: Pk)
    requires HeapExact.Plain(s) && Reliable(s, pk) && Storable(s, pk, 1) && |pk| == |s.pkIdx|
    ensures exists hs :: hs != [] && IsRun(s, hs) && hs[|hs| - 1] == Forgotten(s, pk)
    ensures MayPlan(s, Forgotten(s, pk).es, Insert(1, HeapExact.ValuesFor(s, pk)), Ok(Write(pk, 1, Live(HeapExact.ValuesFor(s, pk)))))
    ensures Replayed(OnKey(Forgotten(s, pk).log, pk), 1) == Some(HeapExact.ValuesFor(s, pk)) && RowOf(Forgotten(s, pk), pk, 1) == None
  {
    ForgottenRun(s, pk);
    ForgottenLog(s, pk);
    hide IsRun, MayPlan, OnKey, HeapExact.ValuesFor;
    HeapExact.FirstInsert(s, pk, 1);
  }

  lemma ForgottenLog(s: Schema, pk: Pk)
    requires |pk| == |s.pkIdx|
    ensures Replayed(OnKey(Forgotten(s, pk).log, pk), 1) == Some(HeapExact.ValuesFor(s, pk))
    ensures Replayed(OnKey(Forgotten(s, pk).log, pk), 2) == None && Forgotten(s, pk).horizon == 2
  {
    var w, d := HeapExact.FirstWrite(s, pk, 1), Write(pk, 2, Tombstone);
    HeapExact.OnKeyOne(w, pk);
    OnKeySnoc([w], d, pk);
    hide OnKey, HeapExact.ValuesFor;
    var a, b := KeyWrite(1, w.cell), KeyWrite(2, Tombstone);
    assert [] + [a] == [a];
    ReplaySnoc([], a, 1);
    ReplaySnoc([a], b, 1);
    ReplaySnoc([a], b, 2);
  }

  lemma ForgottenRun(s: Schema, pk: Pk)
    requires HeapExact.Plain(s) && Reliable(s, pk) && Storable(s, pk, 1) && |pk| == |s.pkIdx|
    ensures exists hs :: hs != [] && IsRun(s, hs) && hs[|hs| - 1] == Forgotten(s, pk)
  {
    hide IsRun, HeapExact.Plain, Exposed, Aliased, Decodable, Storable, Stored, VacuumedTo, Kinds, EncodePk, CallStep, HeapExact.Inserted, TableOk,
      ChainReplays, Clean, OnKey, ChainOf, Step, HeapSpec.Shaped, WriteKey, WriteBytes, HeapExact.FirstWrite;
    var h, d := HeapExact.Inserted(s, pk), Write(pk, 2, Tombstone);
    var n := History(Stored(s, h.es, d), h.log + [d], h.horizon);
    var hs := [History([], [], 0), h, n];
    HeapExact.InsertedIs(s, pk);
    HeapExact.TwinRun(s, pk, pk);
    RunKeeps(s, hs, pk);
    AllVacuumed(s, pk);
    VacuumedStep(s, n, Forgotten(s, pk), 2);
    HeapExact.RunSnoc(s, hs, Forgotten(s, pk));
    assert (hs + [Forgotten(s, pk)])[|hs|] == Forgotten(s, pk);
  }

  lemma VacuumedStep(s: Schema, h: History, n: History, x: U64)
    requires ValidSchema(s) && VacuumedTo(s, h.es, n.es, x) && n.log == h.log && h.horizon <= x == n.horizon
    ensures Step(s, h, n)
  {
    hide VacuumedTo, CallStep, SameTable;
  }

  /** Both versions of the deleted key go. */
  lemma AllVacuumed(s: Schema, pk: Pk)
    requires HeapExact.Plain(s) && Reliable(s, pk) && Storable(s, pk, 1) && |pk| == |s.pkIdx|
    requires TableOk(s, Stored(s, HeapExact.Inserted(s, pk).es, Write(pk, 2, Tombstone)))
    ensures VacuumedTo(s, Stored(s, HeapExact.Inserted(s, pk).es, Write(pk, 2, Tombstone)), [], 2)
  {
    hide TableOk, Exposed, Aliased, Decodable, ChainOf, Drops, EncodeRow, EncodePk, WriteBytes, DecodeCell, Clean, Kinds, Put, Stored;
    var es := Stored(s, HeapExact.Inserted(s, pk).es, Write(pk, 2, Tombstone));
    CleanIff(s, pk);
    DeletedChain(s, pk);
    forall k: Key | Lookup(es, k).Some? ensures exists x: Version :: Drops(s, es, 2, x) && x.key == k {
      var v: U64 := DeletedKeys(s, pk, k);
      VersionOfChain(s, es, pk, v);
      var x := VersionOf(s, es, pk, v);
      DropsIff(s, es, pk, 2, x);
      NoneKept(ChainOf(s, es, pk), v);
    }
  }

  lemma NoneKept(m: Chain, v: U64)
    requires 2 in m && m[2] == Tombstone && (forall w: U64 | w in m :: w <= 2) && v <= 2
    ensures !Kept(m, 2, v)
  {
    assert Newest(m, 2, 2);
    KeptBy(m, 2, 2, v);
  }

  lemma DeletedChain(s: Schema, pk: Pk)
    requires HeapExact.Plain(s) && Storable(s, pk, 1) && |pk| == |s.pkIdx|
    ensures var m := ChainOf(s, Stored(s, HeapExact.Inserted(s, pk).es, Write(pk, 2, Tombstone)), pk);
      2 in m && m[2] == Tombstone && 1 in m && forall w: U64 | w in m :: w == 1 || w == 2
  {
    hide EncodeRow, EncodePk, WriteBytes, DecodeCell, Kinds, Put, HeapExact.ValuesFor, HeapExact.Inserted, ChainOf, Stored;
    var w, d := HeapExact.FirstWrite(s, pk, 1), Write(pk, 2, Tombstone);
    var e := HeapExact.Inserted(s, pk).es;
    HeapExact.FirstInsert(s, pk, 1);
    TombstoneDecodes(s, d);
    InsertedEntries(s, pk);
    StoredChain(s, [], w, pk);
    StoredChain(s, e, d, pk);
  }

  lemma TombstoneDecodes(s: Schema, d: Write)
    requires d.cell.Tombstone?
    ensures DecodeCell(s.kinds, WriteBytes(s, d)) == Some(Tombstone)
  {
    hide DecodeCell, CellBytes;
    CellRoundTrip(s.kinds, Tombstone);
  }

  lemma InsertedEntries(s: Schema, pk: Pk)
    requires |pk| == |s.pkIdx|
    ensures HeapExact.Inserted(s, pk).es == Stored(s, [], HeapExact.FirstWrite(s, pk, 1)) && Sorted(HeapExact.Inserted(s, pk).es)
    ensures ChainOf(s, [], pk) == imap[] && Sorted([])
  {
    hide EncodeRow, WriteBytes, Put, HeapExact.ValuesFor;
    var w := HeapExact.FirstWrite(s, pk, 1);
    HeapExact.OneEntry(WriteKey(s, w), WriteBytes(s, w));
  }

  lemma DeletedKeys(s: Schema, pk: Pk, k: Key) returns (v: U64)
    requires |pk| == |s.pkIdx|
    requires Lookup(Stored(s, HeapExact.Inserted(s, pk).es, Write(pk, 2, Tombstone)), k).Some?
    ensures 1 <= v <= 2 && k == EncodeRow(Row(s.table, pk, v))
  {
    hide EncodeRow, WriteBytes, Put, Lookup, HeapExact.ValuesFor;
    var w, d := HeapExact.FirstWrite(s, pk, 1), Write(pk, 2, Tombstone);
    var e := HeapExact.Inserted(s, pk).es;
    HeapExact.OneEntry(WriteKey(s, w), WriteBytes(s, w));
    PutIsMapUpdate(e, WriteKey(s, d), WriteBytes(s, d), k);
    v := if k == WriteKey(s, d) then 2 else 1;
  }
}
