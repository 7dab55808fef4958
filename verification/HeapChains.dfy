/** What the stored bytes of a table mean: the versions of each key, when a range scan finds
    exactly them, and how writes and Vacuum change them. */
module HeapChains {
  import opened Wrappers
  import opened Bytes
  import opened LexOrder
  import opened SortedEntries
  import opened RowKey
  import opened RowRange
  import opened RowValue
  import opened HeapSpec
  import opened HeapStore
  import NodeCodec

  // ----- keys -----

  ghost predicate NulFreeKey(pk: Pk) {
    forall i | 0 <= i < |pk| :: !HasNul(pk[i])
  }

  /** A byte column can only be the last key column, else no key of the table decodes. */
  ghost predicate Decodable(s: Schema)
    requires ValidSchema(s)
  {
    forall i | 0 <= i < |s.pkIdx| - 1 :: PkKinds(s)[i] != KindBytes
  }

  lemma CleanIff(s: Schema, pk: Pk)
    requires ValidSchema(s) && Kinds(pk) == PkKinds(s)
    ensures Clean(pk) ==> NulFreeKey(pk) && Decodable(s)
    ensures NulFreeKey(pk) && Decodable(s) ==> Clean(pk)
  {
    assert forall i | 0 <= i < |pk| :: Kinds(pk)[i] == pk[i].Kind();
    if Clean(pk) {
      forall i | 0 <= i < |pk| ensures !HasNul(pk[i]) && (i < |pk| - 1 ==> PkKinds(s)[i] != KindBytes) {
        if pk[i].String? { assert NulFree(pk[i].s); }
      }
    }
    if NulFreeKey(pk) && Decodable(s) {
      forall i | 0 <= i < |pk| && pk[i].String? ensures NulFree(pk[i].s) {
        assert !HasNul(pk[i]);
      }
      assert forall i | 0 <= i < |pk| && pk[i].Blob? :: i == |pk| - 1;
    }
  }

  /** A row key ends in its version. */
  lemma KeyEnds(t: U64, a: Pk, v: U64, b: Pk, w: U64)
    ensures KeyPart(EncodeRow(Row(t, a, v))) == RowPrefix(t, a)
    ensures EncodeRow(Row(t, a, v)) == EncodeRow(Row(t, b, w)) <==> v == w && EncodePk(a) == EncodePk(b)
    ensures RowPrefix(t, a) == RowPrefix(t, b) <==> EncodePk(a) == EncodePk(b)
  {
    hide EncodePk, Put64;
    var x, y := EncodeRow(Row(t, a, v)), EncodeRow(Row(t, b, w));
    assert x[|x| - 8..] == Put64(v) && x[..|x| - 8] == RowPrefix(t, a);
    assert y[|y| - 8..] == Put64(w) && y[..|y| - 8] == RowPrefix(t, b);
    assert RowPrefix(t, a)[9..] == EncodePk(a) && RowPrefix(t, b)[9..] == EncodePk(b);
    Put64Order(v, w);
  }

  /** Clean keys of one schema are told apart by their bytes. */
  lemma CleanInjective(a: Pk, b: Pk)
    requires Clean(a) && Clean(b) && Kinds(a) == Kinds(b) && EncodePk(a) == EncodePk(b)
    ensures a == b
  {
    hide DecodePk, EncodePk, Clean;
    PkRoundTrip(a, Zeros(8));
    PkRoundTrip(b, Zeros(8));
  }

  lemma OwnKeyReached(t: U64, pk: Pk, v: U64)
    ensures Reached(RowPrefix(t, pk), EncodeRow(Row(t, pk, v)))
    ensures Reached(TablePrefix(t), EncodeRow(Row(t, pk, v))) && TablePrefix(t) <= EncodeRow(Row(t, pk, v))
  {
    hide EncodePk, Put64, LexLess, EndOf;
    var p, k := RowPrefix(t, pk), EncodeRow(Row(t, pk, v));
    RowHasPrefix(Row(t, pk, v));
    PrefixHasEnd(t, pk);
    PrefixRange(p, EndOf(p), k);
    TableScanExact(Row(t, pk, v), t);
  }

  // ----- the versions of a key -----

  ghost predicate HoldsCell(s: Schema, es: seq<Entry>, pk: Pk, v: U64) {
    var data := Lookup(es, EncodeRow(Row(s.table, pk, v)));
    data.Some? && DecodeCell(s.kinds, data.value).Some?
  }

  ghost function CellAt(s: Schema, es: seq<Entry>, pk: Pk, v: U64): Cell
    requires HoldsCell(s, es, pk, v)
  {
    DecodeCell(s.kinds, Lookup(es, EncodeRow(Row(s.table, pk, v))).value).value
  }

  ghost function ChainOf(s: Schema, es: seq<Entry>, pk: Pk): Chain {
    imap v: U64 | HoldsCell(s, es, pk, v) :: CellAt(s, es, pk, v)
  }

  ghost predicate ShortKeys(es: seq<Entry>) {
    forall k: Key | Lookup(es, k).Some? :: |k| <= NodeCodec.MAX_KEY_SIZE
  }

  /** A key of a version that the table may have stored. */
  ghost predicate TableKey(s: Schema, k: Bytes)
    requires ValidSchema(s)
  {
    |k| <= NodeCodec.MAX_KEY_SIZE && exists pk: Pk, tx: U64 :: tx > 0 && Kinds(pk) == PkKinds(s) && k == EncodeRow(Row(s.table, pk, tx))
  }

  /** Keys are within the store's limit, and everything under the table's prefix was stored by it. */
  ghost predicate TableOk(s: Schema, es: seq<Entry>)
    requires ValidSchema(s)
  {
    && Sorted(es) && ShortKeys(es)
    && forall k: Key | TablePrefix(s.table) <= k && Lookup(es, k).Some? ::
         TableKey(s, k) && DecodeCell(s.kinds, Lookup(es, k).value).Some?
  }

  /** The store accepts this version, given a row for it. */
  ghost predicate Storable(s: Schema, pk: Pk, tx: U64)
    requires ValidSchema(s)
  {
    Kinds(pk) == PkKinds(s) && NulFreeKey(pk) && tx > 0 && |EncodeRow(Row(s.table, pk, tx))| <= NodeCodec.MAX_KEY_SIZE
  }

  /** The scan for pk reaches a key that is not one of pk's versions: a row of another table, or a
      version of another key that can be stored. */
  ghost predicate ReachesOther(s: Schema, pk: Pk, r: Row)
    requires ValidSchema(s)
  {
    && Reached(RowPrefix(s.table, pk), EncodeRow(r)) && |EncodeRow(r)| <= NodeCodec.MAX_KEY_SIZE
    && Clean(r.pk) && Kinds(r.pk) == PkKinds(s)
    && (r.table != s.table || (r.pk != pk && Storable(s, r.pk, r.version)))
  }

  ghost predicate Exposed(s: Schema, pk: Pk)
    requires ValidSchema(s)
  {
    exists r :: ReachesOther(s, pk, r)
  }

  /** What decodes under the table's prefix is a version that can be stored. */
  lemma StoredIsStorable(s: Schema, es: seq<Entry>, k: Key)
    requires ValidSchema(s) && TableOk(s, es) && Lookup(es, k).Some? && DecodeRow(k, PkKinds(s)).Ok?
    ensures var r := DecodeRow(k, PkKinds(s)).value;
      && k == EncodeRow(r) && |k| <= NodeCodec.MAX_KEY_SIZE && Clean(r.pk) && Kinds(r.pk) == PkKinds(s)
      && (r.table == s.table ==> Storable(s, r.pk, r.version) && DecodeCell(s.kinds, Lookup(es, k).value).Some?)
  {
    hide DecodeRow, EncodeRow, EncodePk, Lookup, Sorted, DecodeCell, Clean;
    RowDecoded(k, PkKinds(s));
    var r := DecodeRow(k, PkKinds(s)).value;
    if r.table == s.table {
      OwnKeyReached(s.table, r.pk, r.version);
      var q: Pk, tx: U64 :| tx > 0 && Kinds(q) == PkKinds(s) && k == EncodeRow(Row(s.table, q, tx));
      KeyEnds(s.table, q, tx, r.pk, r.version);
      CleanIff(s, r.pk);
    }
  }

  /** Unless pk is exposed, its scan finds only its own versions. */
  lemma ScanOwn(s: Schema, es: seq<Entry>, pk: Pk, x: Version)
    requires ValidSchema(s) && TableOk(s, es) && !Exposed(s, pk) && x in KeyVersions(s, es, pk)
    ensures Clean(pk) && x.key == EncodeRow(Row(s.table, pk, x.version)) && Lookup(es, x.key) == Some(x.data)
    ensures DecodeCell(s.kinds, x.data).Some?
  {
    hide DecodeRow, EncodeRow, Lookup, Sorted, DecodeCell, Clean, Scanned, Storable, RowPrefix, Reached, TablePrefix;
    NotEmpty(s.table, pk);
    ScannedIff(es, RowPrefix(s.table, pk), PkKinds(s), x);
    StoredIsStorable(s, es, x.key);
    var r := DecodeRow(x.key, PkKinds(s)).value;
    assert !ReachesOther(s, pk, r);
    assert r == Row(s.table, pk, x.version);
  }

  lemma NotEmpty(t: U64, pk: Pk)
    ensures RowPrefix(t, pk) != [] && TablePrefix(t) != []
  {
    hide EncodePk, Put64;
  }

  /** Each version of a clean key is found by its scan. */
  lemma ScanFinds(s: Schema, es: seq<Entry>, pk: Pk, v: U64)
    requires ValidSchema(s) && Sorted(es) && Clean(pk) && Kinds(pk) == PkKinds(s) && v in ChainOf(s, es, pk)
    ensures var k := EncodeRow(Row(s.table, pk, v));
      && Lookup(es, k).Some? && Version(v, k, Lookup(es, k).value) in KeyVersions(s, es, pk)
      && DecodeCell(s.kinds, Lookup(es, k).value) == Some(ChainOf(s, es, pk)[v])
  {
    hide DecodeRow, EncodeRow, Lookup, Sorted, DecodeCell, Clean, Scanned, RowPrefix, Reached, TablePrefix;
    var k := EncodeRow(Row(s.table, pk, v));
    NotEmpty(s.table, pk);
    OwnKeyReached(s.table, pk, v);
    RowRoundTripIff(Row(s.table, pk, v));
    ScannedIff(es, RowPrefix(s.table, pk), PkKinds(s), Version(v, k, Lookup(es, k).value));
  }

  lemma ChainHolds(s: Schema, es: seq<Entry>, pk: Pk, v: U64, data: Bytes)
    requires Lookup(es, EncodeRow(Row(s.table, pk, v))) == Some(data) && DecodeCell(s.kinds, data).Some?
    ensures v in ChainOf(s, es, pk) && DecodeCell(s.kinds, data) == Some(ChainOf(s, es, pk)[v])
  {
    hide EncodeRow, Lookup, DecodeCell;
  }

  function ReadOut(seen: Option<Values>): Result<Values, HeapError> {
    match seen
    case None => Err(ErrKeyNotFound)
    case Some(values) => Ok(values)
  }

  /** Unless pk is exposed, a read returns what is visible among its versions, and nothing else. */
  lemma ReadIff(s: Schema, es: seq<Entry>, pk: Pk, tx: U64, out: Result<Values, HeapError>)
    requires ValidSchema(s) && TableOk(s, es) && !Exposed(s, pk) && Clean(pk) && Kinds(pk) == PkKinds(s)
    ensures MayRead(s, es, pk, tx, out) <==> out == ReadOut(Visible(ChainOf(s, es, pk), tx))
  {
    hide TableOk, Exposed, Clean, KeyVersions, EncodeRow, Lookup, DecodeCell, Visible, ChainOf, ReadData;
    var m, vs := ChainOf(s, es, pk), KeyVersions(s, es, pk);
    if v: U64 :| v in m && v <= tx {
      var top := NewestExists(m, tx, v);
      NewestDecides(m, tx, top);
      assert Sorted(es) by { SortedTable(s, es); }
      ScanFinds(s, es, pk, top);
      var best := Version(top, EncodeRow(Row(s.table, pk, top)), Lookup(es, EncodeRow(Row(s.table, pk, top))).value);
      ReadsCell(s, best.data, m[top]);
      forall x | x in vs && x.version <= tx ensures x.version <= top {
        ScanOwn(s, es, pk, x);
        ChainHolds(s, es, pk, x.version, x.data);
      }
      assert Highest(vs, tx, best);
      forall x | Highest(vs, tx, x) ensures x == best {
        ScanOwn(s, es, pk, x);
      }
    } else {
      NoVersionInvisible(m, tx);
      forall x | x in vs ensures x.version > tx {
        ScanOwn(s, es, pk, x);
        ChainHolds(s, es, pk, x.version, x.data);
      }
    }
  }

  lemma SortedTable(s: Schema, es: seq<Entry>)
    requires ValidSchema(s) && TableOk(s, es)
    ensures Sorted(es)
  {}

  lemma ReadsCell(s: Schema, data: Bytes, c: Cell)
    requires DecodeCell(s.kinds, data) == Some(c)
    ensures ReadData(s, data) == ReadOut(Reading(c))
  {
    hide DecodeCell;
  }

  /** A key that is not clean reads nothing, unless it is exposed. */
  lemma UncleanRead(s: Schema, es: seq<Entry>, pk: Pk, tx: U64, out: Result<Values, HeapError>)
    requires ValidSchema(s) && TableOk(s, es) && !Exposed(s, pk) && !Clean(pk)
    ensures KeyVersions(s, es, pk) == []
    ensures MayRead(s, es, pk, tx, out) <==> out == Err(ErrKeyNotFound)
  {
    hide TableOk, Exposed, Clean, KeyVersions;
    if KeyVersions(s, es, pk) != [] {
      ScanOwn(s, es, pk, KeyVersions(s, es, pk)[0]);
    }
  }

  // ----- writes -----

  lemma WriteDecodes(s: Schema, w: Write)
    requires Fitting(s, w) == Ok(w) && (w.cell.Live? ==> EncodeValues(s.kinds, FLAG_NORMAL, w.cell.values).Ok?)
    ensures DecodeCell(s.kinds, WriteBytes(s, w)) == Some(w.cell)
  {
    hide Bitmask, Composite, Primitives, DecodeCell, EncodeRow;
    if w.cell.Live? { SmallIsShort(w.cell.values); }
    CellRoundTrip(s.kinds, w.cell);
  }

  /** A write adds a version to every key with the same bytes, and changes no other key. */
  lemma StoredChain(s: Schema, es: seq<Entry>, w: Write, pk: Pk)
    requires Sorted(es) && DecodeCell(s.kinds, WriteBytes(s, w)) == Some(w.cell)
    ensures ChainOf(s, Stored(s, es, w), pk)
         == if EncodePk(w.pk) == EncodePk(pk) then ChainOf(s, es, pk)[w.tx := w.cell] else ChainOf(s, es, pk)
  {
    hide EncodeRow, EncodePk, Lookup, DecodeCell, Put, Sorted, WriteBytes;
    var after := Stored(s, es, w);
    forall v: U64
      ensures Lookup(after, EncodeRow(Row(s.table, pk, v)))
           == if EncodePk(w.pk) == EncodePk(pk) && v == w.tx then Some(WriteBytes(s, w))
              else Lookup(es, EncodeRow(Row(s.table, pk, v)))
    {
      KeyEnds(s.table, w.pk, w.tx, pk, v);
      PutIsMapUpdate(es, WriteKey(s, w), WriteBytes(s, w), EncodeRow(Row(s.table, pk, v)));
    }
  }

  lemma StoredOk(s: Schema, es: seq<Entry>, w: Write)
    requires ValidSchema(s) && TableOk(s, es) && Kinds(w.pk) == PkKinds(s) && w.tx > 0 && Fitting(s, w) == Ok(w)
    requires DecodeCell(s.kinds, WriteBytes(s, w)) == Some(w.cell)
    ensures TableOk(s, Stored(s, es, w))
  {
    hide EncodeRow, EncodePk, Lookup, DecodeCell, Put, Sorted, WriteBytes, TablePrefix;
    var after := Stored(s, es, w);
    PutSorted(es, WriteKey(s, w), WriteBytes(s, w));
    forall k: Key | TablePrefix(s.table) <= k && Lookup(after, k).Some?
      ensures TableKey(s, k) && DecodeCell(s.kinds, Lookup(after, k).value).Some?
    {
      PutIsMapUpdate(es, WriteKey(s, w), WriteBytes(s, w), k);
      assert k == WriteKey(s, w) ==> TableKey(s, k);
    }
    forall k: Key | Lookup(after, k).Some? ensures |k| <= NodeCodec.MAX_KEY_SIZE {
      PutIsMapUpdate(es, WriteKey(s, w), WriteBytes(s, w), k);
    }
  }

  // ----- Vacuum -----

  ghost predicate IsVersion(s: Schema, es: seq<Entry>, pk: Pk, x: Version) {
    x.version in ChainOf(s, es, pk) && x.key == EncodeRow(Row(s.table, pk, x.version)) && Lookup(es, x.key) == Some(x.data)
  }

  /** The versions grouped under a key's bytes are those of the key. */
  lemma GroupIff(s: Schema, es: seq<Entry>, pk: Pk, x: Version)
    requires ValidSchema(s) && TableOk(s, es) && Clean(pk) && Kinds(pk) == PkKinds(s)
    ensures InGroup(s, es, RowPrefix(s.table, pk), x) <==> IsVersion(s, es, pk, x)
  {
    hide DecodeRow, EncodeRow, EncodePk, Lookup, Sorted, DecodeCell, Clean, Scanned, Storable, RowPrefix, Reached, TablePrefix, KeyPart, ChainOf;
    NotEmpty(s.table, pk);
    ScannedIff(es, TablePrefix(s.table), PkKinds(s), x);
    if InGroup(s, es, RowPrefix(s.table, pk), x) {
      StoredIsStorable(s, es, x.key);
      var r := DecodeRow(x.key, PkKinds(s)).value;
      TableReaches(r, s.table);
      KeyEnds(s.table, r.pk, r.version, pk, r.version);
      CleanInjective(r.pk, pk);
      assert r == Row(s.table, pk, x.version);
      ChainHolds(s, es, pk, x.version, x.data);
    }
    if IsVersion(s, es, pk, x) {
      OwnKeyReached(s.table, pk, x.version);
      RowRoundTripIff(Row(s.table, pk, x.version));
      KeyEnds(s.table, pk, x.version, pk, x.version);
    }
  }

  lemma TableReaches(r: Row, t: U64)
    ensures Reached(TablePrefix(t), EncodeRow(r)) <==> r.table == t
  {
    hide EncodeRow, LexLess, EndOf, TablePrefix;
    TableScanExact(r, t);
  }

  lemma TombstoneFlag(s: Schema, data: Bytes)
    requires DecodeCell(s.kinds, data).Some?
    ensures IsTombstone(data) <==> DecodeCell(s.kinds, data).value.Tombstone?
  {
    hide Unmarked, Merged, ParseFields;
  }

  /** The stored version of a chain. */
  ghost function VersionOf(s: Schema, es: seq<Entry>, pk: Pk, v: U64): Version
    requires HoldsCell(s, es, pk, v)
  {
    Version(v, EncodeRow(Row(s.table, pk, v)), Lookup(es, EncodeRow(Row(s.table, pk, v))).value)
  }

  lemma VersionOfChain(s: Schema, es: seq<Entry>, pk: Pk, v: U64)
    requires v in ChainOf(s, es, pk)
    ensures HoldsCell(s, es, pk, v) && IsVersion(s, es, pk, VersionOf(s, es, pk, v))
    ensures IsTombstone(VersionOf(s, es, pk, v).data) <==> ChainOf(s, es, pk)[v].Tombstone?
  {
    hide EncodeRow, Lookup, DecodeCell;
    TombstoneFlag(s, VersionOf(s, es, pk, v).data);
  }

  lemma TopIff(s: Schema, es: seq<Entry>, pk: Pk, h: U64, x: Version)
    requires ValidSchema(s) && TableOk(s, es) && Clean(pk) && Kinds(pk) == PkKinds(s)
    ensures TopOf(s, es, RowPrefix(s.table, pk), h, x) <==> IsVersion(s, es, pk, x) && Newest(ChainOf(s, es, pk), h, x.version)
  {
    hide TableOk, Clean, InGroup, RowPrefix, ChainOf, EncodeRow, Lookup;
    var m, part := ChainOf(s, es, pk), RowPrefix(s.table, pk);
    GroupIff(s, es, pk, x);
    if TopOf(s, es, part, h, x) {
      forall w: U64 | w in m && w <= h ensures w <= x.version {
        VersionOfChain(s, es, pk, w);
        GroupIff(s, es, pk, VersionOf(s, es, pk, w));
      }
    }
    if IsVersion(s, es, pk, x) && Newest(m, h, x.version) {
      forall y | InGroup(s, es, part, y) && y.version <= h ensures y.version <= x.version {
        GroupIff(s, es, pk, y);
      }
    }
  }

  lemma NewerIff(s: Schema, es: seq<Entry>, pk: Pk, h: U64)
    requires ValidSchema(s) && TableOk(s, es) && Clean(pk) && Kinds(pk) == PkKinds(s)
    ensures NewerThan(s, es, RowPrefix(s.table, pk), h) <==> HasNewer(ChainOf(s, es, pk), h)
  {
    hide TableOk, Clean, InGroup, RowPrefix, ChainOf, EncodeRow, Lookup;
    if y :| InGroup(s, es, RowPrefix(s.table, pk), y) && y.version > h {
      GroupIff(s, es, pk, y);
    }
    if w: U64 :| w in ChainOf(s, es, pk) && w > h {
      VersionOfChain(s, es, pk, w);
      GroupIff(s, es, pk, VersionOf(s, es, pk, w));
    }
  }

  /** Vacuum drops exactly the versions that are not kept. */
  lemma DropsIff(s: Schema, es: seq<Entry>, pk: Pk, h: U64, x: Version)
    requires ValidSchema(s) && TableOk(s, es) && Clean(pk) && Kinds(pk) == PkKinds(s) && IsVersion(s, es, pk, x)
    ensures KeyPart(x.key) == RowPrefix(s.table, pk)
    ensures Drops(s, es, h, x) <==> !Kept(ChainOf(s, es, pk), h, x.version)
  {
    hide TableOk, Clean, RowPrefix, ChainOf, EncodeRow, EncodePk, Lookup, KeyPart, TopOf, NewerThan, HasNewer, Newest, IsTombstone, TableVersions;
    var m := ChainOf(s, es, pk);
    KeyEnds(s.table, pk, x.version, pk, x.version);
    GroupIff(s, es, pk, x);
    NewerIff(s, es, pk, h);
    if x.version <= h {
      var v := NewestExists(m, h, x.version);
      assert v in m by { InChain(m, h, v); }
      VersionOfChain(s, es, pk, v);
      var top := VersionOf(s, es, pk, v);
      TopIff(s, es, pk, h, top);
      KeptBy(m, h, v, x.version);
      forall y | TopOf(s, es, RowPrefix(s.table, pk), h, y) ensures y == top {
        TopIff(s, es, pk, h, y);
        NewestUnique(m, h, v, y.version);
      }
    }
  }

  lemma InChain(m: Chain, h: U64, v: U64)
    requires Newest(m, h, v)
    ensures v in m
  {}

  lemma NewestUnique(m: Chain, h: U64, v: U64, w: U64)
    requires Newest(m, h, v) && Newest(m, h, w)
    ensures v == w
  {}

  /** Of a key's versions, how far a Vacuum on its way has come. */
  ghost function CutOf(s: Schema, pk: Pk, done: set<Bytes>, part: Bytes, cut: nat): nat {
    if RowPrefix(s.table, pk) in done then 0
    else if RowPrefix(s.table, pk) == part then cut else U64_LIMIT
  }

  lemma VacuumChain(s: Schema, es: seq<Entry>, mid: seq<Entry>, h: U64, done: set<Bytes>, part: Bytes, cut: nat, pk: Pk)
    requires ValidSchema(s) && TableOk(s, es) && Clean(pk) && Kinds(pk) == PkKinds(s)
    requires VacuumAt(s, es, mid, h, done, part, cut)
    ensures ChainOf(s, mid, pk) == PartlyVacuumed(ChainOf(s, es, pk), h, CutOf(s, pk, done, part, cut))
  {
    hide TableOk, Clean, RowPrefix, EncodeRow, EncodePk, Lookup, KeyPart, Drops, Kept, DecodeCell, TableVersions;
    var m, c := ChainOf(s, es, pk), CutOf(s, pk, done, part, cut);
    forall v: U64
      ensures Lookup(mid, EncodeRow(Row(s.table, pk, v)))
           == if v in m && !Kept(m, h, v) && v >= c then None else Lookup(es, EncodeRow(Row(s.table, pk, v)))
    {
      DroppedKey(s, es, h, done, part, cut, pk, v);
    }
  }

  /** A key of pk is deleted exactly if its version is dropped and the Vacuum has come to it. */
  lemma DroppedKey(s: Schema, es: seq<Entry>, h: U64, done: set<Bytes>, part: Bytes, cut: nat, pk: Pk, v: U64)
    requires ValidSchema(s) && TableOk(s, es) && Clean(pk) && Kinds(pk) == PkKinds(s)
    ensures var k, m := EncodeRow(Row(s.table, pk, v)), ChainOf(s, es, pk);
      (exists x: Version :: x.key == k && Drops(s, es, h, x) && (KeyPart(x.key) in done || (KeyPart(x.key) == part && x.version >= cut)))
        <==> v in m && !Kept(m, h, v) && v >= CutOf(s, pk, done, part, cut)
  {
    hide TableOk, Clean, RowPrefix, EncodeRow, EncodePk, Lookup, KeyPart, Kept, DecodeCell, ChainOf;
    var k, m := EncodeRow(Row(s.table, pk, v)), ChainOf(s, es, pk);
    KeyEnds(s.table, pk, v, pk, v);
    if x: Version :| x.key == k && Drops(s, es, h, x) && (KeyPart(x.key) in done || (KeyPart(x.key) == part && x.version >= cut)) {
      GroupIff(s, es, pk, x);
      KeyEnds(s.table, pk, v, pk, x.version);
      DropsIff(s, es, pk, h, x);
    }
    if v in m && !Kept(m, h, v) && v >= CutOf(s, pk, done, part, cut) {
      VersionOfChain(s, es, pk, v);
      DropsIff(s, es, pk, h, VersionOf(s, es, pk, v));
    }
  }

  lemma WithoutOk(s: Schema, es: seq<Entry>, after: seq<Entry>, gone: iset<Version>)
    requires ValidSchema(s) && TableOk(s, es) && Without(es, after, gone)
    ensures TableOk(s, after)
  {
    hide Lookup, Sorted, TableKey, DecodeCell, TablePrefix;
    assert forall k: Key :: Lookup(after, k).Some? ==> Lookup(after, k) == Lookup(es, k);
  }

  /** A Vacuum that stops on its way changes what a reader at or after its horizon gets for a key
      exactly if it has deleted a tombstone over a live version of it. */
  lemma InterruptedIff(s: Schema, es: seq<Entry>, mid: seq<Entry>, h: U64, done: set<Bytes>, part: Bytes, cut: nat, pk: Pk)
    requires ValidSchema(s) && TableOk(s, es) && !Exposed(s, pk) && Clean(pk) && Kinds(pk) == PkKinds(s)
    requires VacuumAt(s, es, mid, h, done, part, cut)
    ensures (forall r: U64, out | h <= r :: MayRead(s, mid, pk, r, out) <==> MayRead(s, es, pk, r, out))
       <==> !Revives(ChainOf(s, es, pk), h, CutOf(s, pk, done, part, cut))
  {
    hide TableOk, Exposed, Clean, VacuumAt, Visible, ChainOf, MayRead, CutOf, PartlyVacuumed, Revives;
    var m, n := ChainOf(s, es, pk), ChainOf(s, mid, pk);
    VacuumChain(s, es, mid, h, done, part, cut, pk);
    InterruptedOk(s, es, mid, h, done, part, cut);
    PartialVacuumIff(m, h, CutOf(s, pk, done, part, cut));
    forall r: U64, out | h <= r ensures MayRead(s, mid, pk, r, out) <==> out == ReadOut(Visible(n, r)) {
      ReadIff(s, mid, pk, r, out);
    }
    forall r: U64, out | h <= r ensures MayRead(s, es, pk, r, out) <==> out == ReadOut(Visible(m, r)) {
      ReadIff(s, es, pk, r, out);
    }
    if forall r: U64, out | h <= r :: MayRead(s, mid, pk, r, out) <==> MayRead(s, es, pk, r, out) {
      forall r: U64 | h <= r ensures Visible(n, r) == Visible(m, r) {
        assert MayRead(s, es, pk, r, ReadOut(Visible(m, r)));
      }
    }
  }

  lemma InterruptedOk(s: Schema, es: seq<Entry>, mid: seq<Entry>, h: U64, done: set<Bytes>, part: Bytes, cut: nat)
    requires ValidSchema(s) && TableOk(s, es) && VacuumAt(s, es, mid, h, done, part, cut)
    ensures TableOk(s, mid)
  {
    hide TableOk, Drops, Without, KeyPart;
    WithoutOk(s, es, mid, iset x | Drops(s, es, h, x) && (KeyPart(x.key) in done || (KeyPart(x.key) == part && x.version >= cut)));
  }

  // ----- the table scan -----

  /** The table scan lists a key with the values that a read of it returns, and no key that a read
      does not find. */
  lemma ScanIsReads(s: Schema, es: seq<Entry>, tx: U64, rows: seq<VisibleRow>, pk: Pk, values: Values)
    requires ValidSchema(s) && TableOk(s, es) && IsScan(s, es, tx, rows)
    requires !Exposed(s, pk) && Clean(pk) && Kinds(pk) == PkKinds(s)
    ensures (RowPrefix(s.table, pk), values) in rows <==> MayRead(s, es, pk, tx, Ok(values))
  {
    hide TableOk, Exposed, Clean, RowPrefix, TopOf, DecodeCell, Visible, ChainOf, MayRead, EncodeRow, Lookup, LexLess;
    var m, part := ChainOf(s, es, pk), RowPrefix(s.table, pk);
    ReadIff(s, es, pk, tx, Ok(values));
    if x :| TopOf(s, es, part, tx, x) && DecodeCell(s.kinds, x.data) == Some(Live(values)) {
      TopIff(s, es, pk, tx, x);
      ChainHolds(s, es, pk, x.version, x.data);
      NewestDecides(m, tx, x.version);
    }
    if Visible(m, tx) == Some(values) {
      if v: U64 :| v in m && v <= tx {
        var top := NewestExists(m, tx, v);
        NewestDecides(m, tx, top);
        VersionOfChain(s, es, pk, top);
        var x := VersionOf(s, es, pk, top);
        ChainHolds(s, es, pk, top, x.data);
        TopIff(s, es, pk, tx, x);
      } else {
        NoVersionInvisible(m, tx);
      }
    }
  }

  // ----- snapshots -----

  lemma VersionAtEnd(k: Bytes, ks: seq<Kind>, t: U64, pk: Pk, tx: U64)
    requires DecodeRow(k, ks).Ok? && k == EncodeRow(Row(t, pk, tx))
    ensures DecodeRow(k, ks).value.version == tx
  {
    hide DecodeRow, EncodePk, Put64, Clean;
    RowDecoded(k, ks);
    var r := DecodeRow(k, ks).value;
    assert EncodeRow(r)[|k| - 8..] == Put64(r.version) && k[|k| - 8..] == Put64(tx);
    Put64Order(r.version, tx);
  }

  /** A write with an ID above r changes no read at r, of any key in any store. */
  lemma LaterWriteUnseen(s: Schema, es: seq<Entry>, w: Write, pk: Pk, r: U64, out: Result<Values, HeapError>)
    requires ValidSchema(s) && Sorted(es) && w.tx > r
    ensures MayRead(s, Stored(s, es, w), pk, r, out) <==> MayRead(s, es, pk, r, out)
  {
    hide EncodeRow, DecodeRow, Lookup, Sorted, Put, Scanned, Reached, RowPrefix, WriteBytes, ReadData;
    var after, p, ks := Stored(s, es, w), RowPrefix(s.table, pk), PkKinds(s);
    PutSorted(es, WriteKey(s, w), WriteBytes(s, w));
    NotEmpty(s.table, pk);
    var a, b := KeyVersions(s, es, pk), KeyVersions(s, after, pk);
    forall x: Version | x.version <= r ensures x in a <==> x in b {
      ScannedIff(es, p, ks, x);
      ScannedIff(after, p, ks, x);
      PutIsMapUpdate(es, WriteKey(s, w), WriteBytes(s, w), x.key);
      if x.key == WriteKey(s, w) && DecodeRow(x.key, ks).Ok? { VersionAtEnd(x.key, ks, s.table, w.pk, w.tx); }
    }
    SameUpTo(a, b, r);
  }

  lemma SameUpTo(a: seq<Version>, b: seq<Version>, r: U64)
    requires forall x: Version | x.version <= r :: x in a <==> x in b
    ensures forall x :: Highest(a, r, x) <==> Highest(b, r, x)
    ensures (forall x | x in a :: x.version > r) <==> forall x | x in b :: x.version > r
  {}
}
