/** The heap over an ordered store of bytes (internal/engine/sql/heap/encode.go and table.go): the
    range scans it reads with, what each call writes, and what the stored bytes mean for one key. */
module HeapStore {
  import opened Wrappers
  import opened Bytes
  import opened LexOrder
  import opened SortedEntries
  import opened RowKey
  import opened RowRange
  import opened RowValue
  import opened HeapSpec
  import NodeCodec

  type Pk = seq<RowKey.Value>

  // ----- schemas and keys -----

  /** Column kinds, and the positions of the primary key columns. */
  datatype Schema = Schema(table: U64, kinds: seq<Kind>, pkIdx: seq<nat>)

  predicate ValidSchema(s: Schema) {
    s.pkIdx != [] && forall i | 0 <= i < |s.pkIdx| :: s.pkIdx[i] < |s.kinds|
  }

  function PkKinds(s: Schema): (ks: seq<Kind>)
    requires ValidSchema(s)
    ensures |ks| == |s.pkIdx|
  {
    seq(|s.pkIdx|, i requires 0 <= i < |s.pkIdx| => s.kinds[s.pkIdx[i]])
  }

  function PkColumns(s: Schema, values: Values): (r: Values)
    requires ValidSchema(s) && |values| == |s.kinds|
    ensures |r| == |s.pkIdx|
  {
    seq(|s.pkIdx|, i requires 0 <= i < |s.pkIdx| => values[s.pkIdx[i]])
  }

  function ColumnOf(k: Kind, d: Datum): Result<RowKey.Value, HeapError> {
    match d
    case Null => Err(ErrNullNotSupported)
    case Of(v) => if v.Kind() != k then Err(ErrTypeMismatch) else Ok(v)
  }

  /** The first i key columns, or the first error among them. */
  function KeyUpTo(s: Schema, pkVals: Values, i: nat): (r: Result<Pk, HeapError>)
    requires ValidSchema(s) && |pkVals| == |s.pkIdx| && i <= |pkVals|
    ensures r.Ok? ==> |r.value| == i
  {
    if i == 0 then Ok([])
    else
      match KeyUpTo(s, pkVals, i - 1)
      case Err(e) => Err(e)
      case Ok(pk) =>
        match ColumnOf(s.kinds[s.pkIdx[i - 1]], pkVals[i - 1])
        case Err(e) => Err(e)
        case Ok(v) => Ok(pk + [v])
  }

  function KeyOf(s: Schema, pkVals: Values): Result<Pk, HeapError>
    requires ValidSchema(s)
  {
    if |pkVals| != |s.pkIdx| then Err(ErrColumnCountMismatch) else KeyUpTo(s, pkVals, |pkVals|)
  }

  function AsValues(pk: Pk): (r: Values)
    ensures |r| == |pk|
  {
    seq(|pk|, i requires 0 <= i < |pk| => Of(pk[i]))
  }

  /** A key is accepted exactly if each column has its kind, and it is taken as it is. */
  lemma {:induction false} KeyColumns(s: Schema, pkVals: Values, i: nat)
    requires ValidSchema(s) && |pkVals| == |s.pkIdx| && i <= |pkVals|
    ensures KeyUpTo(s, pkVals, i).Ok? <==> forall j | 0 <= j < i :: ColumnOf(s.kinds[s.pkIdx[j]], pkVals[j]).Ok?
    ensures KeyUpTo(s, pkVals, i).Ok? ==> forall j | 0 <= j < i :: pkVals[j] == Of(KeyUpTo(s, pkVals, i).value[j])
  {
    if i > 0 { KeyColumns(s, pkVals, i - 1); }
  }

  lemma KeyIff(s: Schema, pkVals: Values, pk: Pk)
    requires ValidSchema(s)
    ensures KeyOf(s, pkVals) == Ok(pk) <==> Kinds(pk) == PkKinds(s) && pkVals == AsValues(pk)
  {
    if |pkVals| == |s.pkIdx| {
      KeyColumns(s, pkVals, |pkVals|);
      if KeyOf(s, pkVals) == Ok(pk) {
        assert forall j | 0 <= j < |pk| :: pkVals[j] == Of(pk[j]) && ColumnOf(s.kinds[s.pkIdx[j]], pkVals[j]).Ok?;
      }
      if Kinds(pk) == PkKinds(s) && pkVals == AsValues(pk) {
        forall j | 0 <= j < |pkVals| ensures ColumnOf(s.kinds[s.pkIdx[j]], pkVals[j]).Ok? {
          assert Kinds(pk)[j] == PkKinds(s)[j] && pkVals[j] == Of(pk[j]);
        }
        assert KeyOf(s, pkVals).value == pk;
      }
    }
  }

  // ----- range scans -----

  /** A stored version: its number, its key and its bytes. */
  datatype Version = Version(version: U64, key: Bytes, data: Bytes)

  /** The entries whose keys decode, with their versions. */
  function Decoded(es: seq<Entry>, ks: seq<Kind>): seq<Version> {
    if es == [] then []
    else
      var n := |es| - 1;
      Decoded(es[..n], ks) +
      match DecodeRow(es[n].key, ks)
      case Err(_) => []
      case Ok(r) => [Version(r.version, es[n].key, es[n].val)]
  }

  /** The versions in [p, PrefixEnd(p)), in key order. */
  function Scanned(es: seq<Entry>, p: Bytes, ks: seq<Kind>): seq<Version> {
    Decoded(Select(es, p, EndOf(p)), ks)
  }

  lemma {:induction false} DecodedIff(es: seq<Entry>, ks: seq<Kind>, x: Version)
    ensures x in Decoded(es, ks) <==>
      Entry(x.key, x.data) in es && DecodeRow(x.key, ks).Ok? && x.version == DecodeRow(x.key, ks).value.version
  {
    hide DecodeRow;
    if es != [] {
      var n := |es| - 1;
      DecodedIff(es[..n], ks, x);
      assert es == es[..n] + [es[n]];
    }
  }

  lemma {:induction false} SelectIff(es: seq<Entry>, start: Key, end: Key, e: Entry)
    ensures e in Select(es, start, end) <==> e in es && SortedEntries.InRange(e.key, start, end)
  {
    hide SortedEntries.InRange;
    if es != [] {
      SelectIff(es[1..], start, end, e);
      assert es == [es[0]] + es[1..];
    }
  }

  lemma EntryIff(es: seq<Entry>, k: Key, v: Val)
    requires Sorted(es)
    ensures Entry(k, v) in es <==> Lookup(es, k) == Some(v)
  {
    if Entry(k, v) in es {
      var i :| 0 <= i < |es| && es[i] == Entry(k, v);
      LookupAt(es, k, i);
    }
    if Lookup(es, k) == Some(v) {
      assert es[Pos(es, k)] == Entry(k, v);
    }
  }

  /** k lies in the range scanned for the prefix p. */
  ghost predicate Reached(p: Bytes, k: Bytes) {
    RowKey.InRange(k, p, EndOf(p))
  }

  /** A scan finds exactly the stored keys that are in its range and decode. */
  lemma ScannedIff(es: seq<Entry>, p: Bytes, ks: seq<Kind>, x: Version)
    requires Sorted(es) && p != []
    ensures x in Scanned(es, p, ks) <==>
      && Lookup(es, x.key) == Some(x.data) && Reached(p, x.key)
      && DecodeRow(x.key, ks).Ok? && x.version == DecodeRow(x.key, ks).value.version
  {
    hide DecodeRow, Decoded, Select, Sorted, Lookup, EndOf, LexLess;
    DecodedIff(Select(es, p, EndOf(p)), ks, x);
    SelectIff(es, p, EndOf(p), Entry(x.key, x.data));
    EntryIff(es, x.key, x.data);
    assert EndOf(p) != [];
  }

  lemma ScannedEntries(es: seq<Entry>, p: Bytes, ks: seq<Kind>)
    requires Sorted(es) && p != []
    ensures forall x :: x in Scanned(es, p, ks) <==>
      && Lookup(es, x.key) == Some(x.data) && Reached(p, x.key)
      && DecodeRow(x.key, ks).Ok? && x.version == DecodeRow(x.key, ks).value.version
  {
    hide *;
    forall x ensures x in Scanned(es, p, ks) <==>
      && Lookup(es, x.key) == Some(x.data) && Reached(p, x.key)
      && DecodeRow(x.key, ks).Ok? && x.version == DecodeRow(x.key, ks).value.version
    {
      ScannedIff(es, p, ks, x);
    }
  }

  function KeyVersions(s: Schema, es: seq<Entry>, pk: Pk): seq<Version>
    requires ValidSchema(s)
  {
    Scanned(es, RowPrefix(s.table, pk), PkKinds(s))
  }

  function TableVersions(s: Schema, es: seq<Entry>): seq<Version>
    requires ValidSchema(s)
  {
    Scanned(es, TablePrefix(s.table), PkKinds(s))
  }

  // ----- reads -----

  /** x is a highest version among those not above the bound. */
  ghost predicate Highest(vs: seq<Version>, bound: U64, x: Version) {
    x in vs && x.version <= bound && forall y | y in vs && y.version <= bound :: y.version <= x.version
  }

  function ReadData(s: Schema, data: Bytes): Result<Values, HeapError> {
    match DecodeCell(s.kinds, data)
    case None => Err(ErrCorruptValue)
    case Some(Tombstone) => Err(ErrKeyNotFound)
    case Some(Live(values)) => Ok(values)
  }

  /** findVisibleRow: any highest version may come first after the sort. */
  ghost predicate MayRead(s: Schema, es: seq<Entry>, pk: Pk, tx: U64, out: Result<Values, HeapError>)
    requires ValidSchema(s)
  {
    var vs := KeyVersions(s, es, pk);
    || (out == Err(ErrKeyNotFound) && forall x | x in vs :: x.version > tx)
    || exists x :: Highest(vs, tx, x) && out == ReadData(s, x.data)
  }

  // ----- writes -----

  /** A version to store. */
  datatype Write = Write(pk: Pk, tx: U64, cell: Cell)

  datatype Call =
    | Insert(tx: U64, values: Values)
    | Update(tx: U64, pk: Values, values: Values)
    | Delete(tx: U64, pk: Values)

  function WriteKey(s: Schema, w: Write): Bytes {
    EncodeRow(Row(s.table, w.pk, w.tx))
  }

  function WriteBytes(s: Schema, w: Write): Bytes {
    CellBytes(|s.kinds|, w.cell)
  }

  function Stored(s: Schema, es: seq<Entry>, w: Write): seq<Entry> {
    Put(es, WriteKey(s, w), WriteBytes(s, w))
  }

  /** The limits of the store below. */
  function Fitting(s: Schema, w: Write): (r: Result<Write, HeapError>)
    ensures r.Ok? ==> r.value == w
  {
    if |WriteKey(s, w)| > NodeCodec.MAX_KEY_SIZE then Err(ErrKeyTooLarge)
    else if |WriteBytes(s, w)| > NodeCodec.MAX_STORABLE then Err(ErrValueTooLarge)
    else Ok(w)
  }

  /** validateMonotonicTx: no version in the range may be at or above tx. */
  ghost function Admit(s: Schema, es: seq<Entry>, pkVals: Values, tx: U64): Result<Pk, HeapError>
    requires ValidSchema(s)
  {
    if tx == 0 then Err(ErrInvalidTx)
    else
      match KeyOf(s, pkVals)
      case Err(e) => Err(e)
      case Ok(pk) =>
        if exists x :: x in KeyVersions(s, es, pk) && x.version >= tx then Err(ErrTxConflict) else Ok(pk)
  }

  /** The key columns of a call. */
  function CallKey(s: Schema, call: Call): Values
    requires ValidSchema(s)
  {
    match call
    case Insert(_, values) => if |values| == |s.kinds| then PkColumns(s, values) else []
    case Update(_, pk, _) => pk
    case Delete(_, pk) => pk
  }

  /** What a call writes once the transaction check has passed and the visible row has been read. */
  function PlanFor(s: Schema, call: Call, pk: Pk, seen: Result<Values, HeapError>): Result<Write, HeapError>
    requires ValidSchema(s)
  {
    match call
    case Insert(tx, values) =>
      if seen.Ok? then Err(ErrDuplicateKey)
      else (match EncodeValues(s.kinds, FLAG_NORMAL, values)
            case Err(e) => Err(e)
            case Ok(_) => Fitting(s, Write(pk, tx, Live(values))))
    case Update(tx, pkVals, values) =>
      if |values| != |s.kinds| then Err(ErrColumnCountMismatch)
      else if seen.Err? then Err(ErrKeyNotFound)
      else if PkColumns(s, values) != pkVals then Err(ErrPrimaryKeyUpdate)
      else (match EncodeValues(s.kinds, FLAG_NORMAL, values)
            case Err(e) => Err(e)
            case Ok(_) => Fitting(s, Write(pk, tx, Live(values))))
    case Delete(tx, _) =>
      if seen.Err? then Err(ErrKeyNotFound) else Fitting(s, Write(pk, tx, Tombstone))
  }

  /** An outcome of the call: the version to store, or the error. */
  ghost predicate MayPlan(s: Schema, es: seq<Entry>, call: Call, out: Result<Write, HeapError>)
    requires ValidSchema(s)
  {
    if !call.Delete? && |call.values| != |s.kinds| then out == Err(ErrColumnCountMismatch)
    else
      match Admit(s, es, CallKey(s, call), call.tx)
      case Err(e) => out == Err(e)
      case Ok(pk) => exists seen :: MayRead(s, es, pk, call.tx, seen) && out == PlanFor(s, call, pk, seen)
  }

  /** An accepted write has a positive ID, a key of the schema and a row that fits. */
  lemma PlanSound(s: Schema, es: seq<Entry>, call: Call, w: Write)
    requires ValidSchema(s) && MayPlan(s, es, call, Ok(w))
    ensures w.tx == call.tx && w.tx > 0 && Kinds(w.pk) == PkKinds(s) && CallKey(s, call) == AsValues(w.pk)
    ensures forall x | x in KeyVersions(s, es, w.pk) :: x.version < w.tx
    ensures Fitting(s, w) == Ok(w) && (w.cell.Live? ==> EncodeValues(s.kinds, FLAG_NORMAL, w.cell.values).Ok?)
    ensures call.Delete? <==> w.cell.Tombstone?
    ensures w.cell.Live? ==> call.values == w.cell.values && PkColumns(s, call.values) == AsValues(w.pk)
    ensures exists seen :: MayRead(s, es, w.pk, w.tx, seen) && (seen.Ok? <==> !call.Insert?)
  {
    hide MayRead, KeyVersions, EncodeValues, WriteKey, WriteBytes, KeyOf;
    var pk := Admit(s, es, CallKey(s, call), call.tx).value;
    KeyIff(s, CallKey(s, call), pk);
    var seen :| MayRead(s, es, pk, call.tx, seen) && Ok(w) == PlanFor(s, call, pk, seen);
    assert w.pk == pk;
  }

  // ----- Vacuum -----

  /** A key without its version. */
  function KeyPart(k: Bytes): Bytes {
    if |k| <= 8 then k else k[..|k| - 8]
  }

  predicate IsTombstone(data: Bytes) {
    data != [] && data[0] == FLAG_TOMBSTONE
  }

  /** The versions that share a key. */
  ghost predicate InGroup(s: Schema, es: seq<Entry>, part: Bytes, x: Version)
    requires ValidSchema(s)
  {
    x in TableVersions(s, es) && KeyPart(x.key) == part
  }

  /** x is the newest version of its key that is not above h. */
  ghost predicate TopOf(s: Schema, es: seq<Entry>, part: Bytes, h: U64, x: Version)
    requires ValidSchema(s)
  {
    InGroup(s, es, part, x) && x.version <= h && forall y | InGroup(s, es, part, y) && y.version <= h :: y.version <= x.version
  }

  ghost predicate NewerThan(s: Schema, es: seq<Entry>, part: Bytes, h: U64)
    requires ValidSchema(s)
  {
    exists y :: InGroup(s, es, part, y) && y.version > h
  }

  /** Vacuum(h) deletes this version. */
  ghost predicate Drops(s: Schema, es: seq<Entry>, h: U64, x: Version)
    requires ValidSchema(s)
  {
    var part := KeyPart(x.key);
    && x in TableVersions(s, es) && x.version <= h
    && exists top :: TopOf(s, es, part, h, top)
         && if IsTombstone(top.data) then !NewerThan(s, es, part, h) else x.version < top.version
  }

  /** The store after the versions in `gone` have been deleted. */
  ghost predicate Without(es: seq<Entry>, after: seq<Entry>, gone: iset<Version>) {
    && Sorted(after)
    && forall k: Key :: Lookup(after, k) == if exists x :: x in gone && x.key == k then None else Lookup(es, k)
  }

  /** A finished Vacuum. */
  ghost predicate VacuumedTo(s: Schema, es: seq<Entry>, after: seq<Entry>, h: U64)
    requires ValidSchema(s)
  {
    Without(es, after, iset x | Drops(s, es, h, x))
  }

  /** A Vacuum on its way: done with some keys, and with the versions from `cut` on of one more. */
  ghost predicate VacuumAt(s: Schema, es: seq<Entry>, mid: seq<Entry>, h: U64, done: set<Bytes>, part: Bytes, cut: nat)
    requires ValidSchema(s)
  {
    Without(es, mid, iset x | Drops(s, es, h, x) && (KeyPart(x.key) in done || (KeyPart(x.key) == part && x.version >= cut)))
  }

  // ----- the table scan -----

  type VisibleRow = (Bytes, Values)

  /** The rows visible at tx: one for each key whose newest version not above tx is live, in the
      byte order of the keys. */
  ghost predicate IsScan(s: Schema, es: seq<Entry>, tx: U64, rows: seq<VisibleRow>)
    requires ValidSchema(s)
  {
    && (forall i, j | 0 <= i < j < |rows| :: LexLess(rows[i].0, rows[j].0))
    && (forall part: Bytes, values: Values :: (part, values) in rows <==>
          exists x :: TopOf(s, es, part, tx, x) && DecodeCell(s.kinds, x.data) == Some(Live(values)))
  }
}
