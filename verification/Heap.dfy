/** The row-versioned table (internal/engine/sql/heap/table.go and encode.go): its methods and their
    loops, over an ordered store of encoded keys and values. */
module Heap {
  import opened Wrappers
  import opened Bytes
  import opened LexOrder
  import opened SortedEntries
  import opened RowKey
  import opened RowRange
  import opened RowValue
  import opened HeapStore
  import opened HeapChains
  import NodeCodec

  class Table {
    const schema: Schema

    /** The store below, which the table shares with others. */
    var entries: seq<Entry>

    ghost predicate Valid()
      reads this
    {
      ValidSchema(schema) && Sorted(entries)
    }

    constructor (schema: Schema, entries: seq<Entry>)
      requires ValidSchema(schema) && Sorted(entries)
      ensures Valid() && this.schema == schema && this.entries == entries
    {
      this.schema, this.entries := schema, entries;
    }

    // ----- scanning -----

    /** Scan [p, PrefixEnd(p)) and keep the keys that decode, with their versions. */
    method Versions(p: Bytes) returns (vs: seq<Version>)
      requires Valid() && p != [] && p[0] == ROW_TAG
      ensures vs == Scanned(entries, p, PkKinds(schema))
    {
      hide DecodeRow, Select, EndOf, Sorted, Decoded;
      var end := PrefixEnd(p);
      var found := Select(entries, p, end);
      var ks := PkKinds(schema);
      vs := [];
      NoneDecoded(ks);
      for i := 0 to |found|
        invariant vs == Decoded(found[..i], ks)
      {
        DecodedSnoc(found, i, ks);
        var r := DecodeTableRowKey(found[i].key, ks);
        if r.Err? {
          continue;
        }
        vs := vs + [Version(r.value.version, found[i].key, found[i].val)];
      }
      assert found[..|found|] == found;
    }

    method ToKey(pkVals: Values) returns (r: Result<Pk, HeapError>)
      requires ValidSchema(schema)
      ensures r == KeyOf(schema, pkVals)
    {
      if |pkVals| != |schema.pkIdx| {
        return Err(ErrColumnCountMismatch);
      }
      var pk: Pk := [];
      for i := 0 to |pkVals|
        invariant KeyUpTo(schema, pkVals, i) == Ok(pk)
      {
        var c := ColumnOf(schema.kinds[schema.pkIdx[i]], pkVals[i]);
        if c.Err? {
          KeyFails(schema, pkVals, i + 1, |pkVals|);
          return Err(c.error);
        }
        pk := pk + [c.value];
      }
      return Ok(pk);
    }

    /** No version in the key's range may be at or above the transaction. */
    method ValidateMonotonicTx(pkVals: Values, tx: U64) returns (r: Result<Pk, HeapError>)
      requires Valid()
      ensures r == Admit(schema, entries, pkVals, tx)
    {
      hide KeyOf, Scanned, Sorted;
      if tx == 0 {
        return Err(ErrInvalidTx);
      }
      var key := ToKey(pkVals);
      if key.Err? {
        return key;
      }
      PrefixTag(schema.table, key.value);
      var vs := Versions(RowPrefix(schema.table, key.value));
      for i := 0 to |vs|
        invariant forall j | 0 <= j < i :: vs[j].version < tx
      {
        if vs[i].version >= tx {
          return Err(ErrTxConflict);
        }
      }
      return key;
    }

    /** The highest version not above tx in the key's range, unless it is a tombstone. */
    method FindVisibleRow(pkVals: Values, tx: U64) returns (r: Result<Values, HeapError>)
      requires Valid()
      ensures match KeyOf(schema, pkVals)
              case Err(e) => r == Err(e)
              case Ok(pk) => MayRead(schema, entries, pk, tx, r)
    {
      hide KeyOf, Scanned, Sorted, DecodeCell;
      var key := ToKey(pkVals);
      if key.Err? {
        return Err(key.error);
      }
      PrefixTag(schema.table, key.value);
      var vs := Versions(RowPrefix(schema.table, key.value));
      var latest := HighestUpTo(vs, tx);
      if latest.None? {
        return Err(ErrKeyNotFound);
      }
      var cell := DecodeEnterpriseValue(schema.kinds, latest.value.data);
      assert Highest(KeyVersions(schema, entries, key.value), tx, latest.value);
      match cell
      case None => return Err(ErrCorruptValue);
      case Some(Tombstone) => return Err(ErrKeyNotFound);
      case Some(Live(values)) => return Ok(values);
    }

    method Get(tx: U64, pkVals: Values) returns (r: Result<Values, HeapError>)
      requires Valid()
      ensures match KeyOf(schema, pkVals)
              case Err(e) => r == Err(e)
              case Ok(pk) => MayRead(schema, entries, pk, tx, r) && Answers(schema, KeyVersions(schema, entries, pk), tx, r)
    {
      hide MayRead, Answers, KeyOf, Sorted;
      r := FindVisibleRow(pkVals, tx);
      if KeyOf(schema, pkVals).Ok? { ReadAnswers(schema, entries, KeyOf(schema, pkVals).value, tx, r); }
    }

    // ----- writing -----

    /** Encode the key and hand it to the store with the value, within the store's limits. */
    method StoreVersion(ghost w: Write, pk: Pk, tx: U64, data: Bytes) returns (r: Result<(), HeapError>)
      requires Valid() && w.pk == pk && w.tx == tx && pk != [] && data == WriteBytes(schema, w)
      modifies this
      ensures Valid()
      ensures match Fitting(schema, w)
              case Err(e) => r == Err(e) && entries == old(entries)
              case Ok(_) => r == Ok(()) && entries == Stored(schema, old(entries), w)
    {
      hide EncodeRow, Sorted, Put, WriteBytes;
      var key := EncodeTableRowKey(schema.table, pk, tx);
      if |key.value| > NodeCodec.MAX_KEY_SIZE {
        return Err(ErrKeyTooLarge);
      }
      if |data| > NodeCodec.MAX_STORABLE {
        return Err(ErrValueTooLarge);
      }
      PutSorted(entries, key.value, data);
      entries := Put(entries, key.value, data);
      return Ok(());
    }

    method Insert(tx: U64, values: Values) returns (r: Result<(), HeapError>, ghost out: Result<Write, HeapError>)
      requires Valid()
      modifies this
      ensures Valid() && MayPlan(schema, old(entries), HeapStore.Insert(tx, values), out)
      ensures r.Ok? <==> out.Ok?
      ensures out.Err? ==> r == Err(out.error) && entries == old(entries)
      ensures out.Ok? ==> entries == Stored(schema, old(entries), out.value)
    {
      hide MayRead, Sorted, RowBytes, Fitting, WriteKey, KeyOf, Admit;
      if |values| != |schema.kinds| {
        return Err(ErrColumnCountMismatch), Err(ErrColumnCountMismatch);
      }
      var pkVals := PkColumns(schema, values);
      var key := ValidateMonotonicTx(pkVals, tx);
      if key.Err? {
        return Err(key.error), Err(key.error);
      }
      AdmittedKey(schema, entries, pkVals, tx);
      ghost var call := HeapStore.Insert(tx, values);
      var seen := FindVisibleRow(pkVals, tx);
      out := PlanFor(schema, call, key.value, seen);
      Planned(schema, entries, call, key.value, seen);
      if seen.Ok? {
        return Err(ErrDuplicateKey), out;
      }
      var data := EncodeEnterpriseValue(schema.kinds, FLAG_NORMAL, values);
      if data.Err? {
        return Err(data.error), out;
      }
      r := StoreVersion(Write(key.value, tx, Live(values)), key.value, tx, data.value);
    }

    method Update(tx: U64, pkVals: Values, newValues: Values) returns (r: Result<(), HeapError>, ghost out: Result<Write, HeapError>)
      requires Valid()
      modifies this
      ensures Valid() && MayPlan(schema, old(entries), HeapStore.Update(tx, pkVals, newValues), out)
      ensures r.Ok? <==> out.Ok?
      ensures out.Err? ==> r == Err(out.error) && entries == old(entries)
      ensures out.Ok? ==> entries == Stored(schema, old(entries), out.value)
    {
      hide MayRead, Sorted, RowBytes, Fitting, WriteKey, KeyOf, Admit;
      if |newValues| != |schema.kinds| {
        return Err(ErrColumnCountMismatch), Err(ErrColumnCountMismatch);
      }
      var key := ValidateMonotonicTx(pkVals, tx);
      if key.Err? {
        return Err(key.error), Err(key.error);
      }
      AdmittedKey(schema, entries, pkVals, tx);
      ghost var call := HeapStore.Update(tx, pkVals, newValues);
      var seen := FindVisibleRow(pkVals, tx);
      out := PlanFor(schema, call, key.value, seen);
      Planned(schema, entries, call, key.value, seen);
      if seen.Err? {
        return Err(ErrKeyNotFound), out;
      }
      if pkVals != PkColumns(schema, newValues) {
        return Err(ErrPrimaryKeyUpdate), out;
      }
      var data := EncodeEnterpriseValue(schema.kinds, FLAG_NORMAL, newValues);
      if data.Err? {
        return Err(data.error), out;
      }
      r := StoreVersion(Write(key.value, tx, Live(newValues)), key.value, tx, data.value);
    }

    method Delete(tx: U64, pkVals: Values) returns (r: Result<(), HeapError>, ghost out: Result<Write, HeapError>)
      requires Valid()
      modifies this
      ensures Valid() && MayPlan(schema, old(entries), HeapStore.Delete(tx, pkVals), out)
      ensures r.Ok? <==> out.Ok?
      ensures out.Err? ==> r == Err(out.error) && entries == old(entries)
      ensures out.Ok? ==> entries == Stored(schema, old(entries), out.value)
    {
      hide MayRead, Sorted, RowBytes, Fitting, WriteKey, KeyOf, Admit;
      var key := ValidateMonotonicTx(pkVals, tx);
      if key.Err? {
        return Err(key.error), Err(key.error);
      }
      AdmittedKey(schema, entries, pkVals, tx);
      ghost var call := HeapStore.Delete(tx, pkVals);
      var seen := FindVisibleRow(pkVals, tx);
      out := PlanFor(schema, call, key.value, seen);
      Planned(schema, entries, call, key.value, seen);
      if seen.Err? {
        return Err(ErrKeyNotFound), out;
      }
      var data := EncodeEnterpriseValue(schema.kinds, FLAG_TOMBSTONE, AllNull(|schema.kinds|));
      NullsEncode(schema.kinds);
      r := StoreVersion(Write(key.value, tx, Tombstone), key.value, tx, data.value);
    }

    // ----- the table scan -----

    /** The rows visible at tx, in the byte order of their keys. */
    method Scan(tx: U64) returns (rows: seq<VisibleRow>)
      requires Valid()
      ensures IsScan(schema, entries, tx, rows) && forall i, j | 0 <= i < j < |rows| :: LexLess(rows[i].0, rows[j].0)
    {
      hide Sorted, Scanned, DecodeCell, KeyPart, TablePrefix;
      TableTag(schema.table);
      var vs := Versions(TablePrefix(schema.table));
      var groups := LatestPerKey(vs, tx);
      var visRows: seq<VisibleRow> := [];
      var todo := groups.Keys;
      while todo != {}
        invariant todo <= groups.Keys
        invariant forall i, j | 0 <= i < j < |visRows| :: visRows[i].0 != visRows[j].0
        invariant forall i | 0 <= i < |visRows| :: visRows[i].0 !in todo
        invariant forall x: VisibleRow :: x in visRows <==>
          x.0 in groups && x.0 !in todo && DecodeCell(schema.kinds, groups[x.0].data) == Some(Live(x.1))
      {
        var part :| part in todo;
        todo := todo - {part};
        var cell := DecodeEnterpriseValue(schema.kinds, groups[part].data);
        if cell.None? || cell.value.Tombstone? {
          continue;
        }
        visRows := visRows + [(part, cell.value.values)];
      }
      rows := SortByKey(visRows);
      GroupsAreTops(schema, entries, vs, tx, groups);
      RowsAreScan(schema, entries, tx, groups, rows);
    }

    // ----- Vacuum -----

    /** Drop the versions that no reader at or after olderThan can see. The trace holds every state
        of the store on the way. */
    method Vacuum(olderThan: U64) returns (ghost trace: seq<seq<Entry>>)
      requires Valid()
      modifies this
      ensures Valid() && VacuumedTo(schema, old(entries), entries, olderThan)
      ensures Deletions(old(entries), trace, entries)
      ensures forall mid | mid in trace :: Interrupted(schema, old(entries), mid, olderThan)
    {
      hide Sorted, Scanned, Without, TablePrefix, KeyPart, Deletions;
      ghost var es := entries;
      NoDeletion(es);
      TableTag(schema.table);
      var vs := Versions(TablePrefix(schema.table));
      var groups := GroupVersions(vs);
      var todo := groups.Keys;
      ghost var done: set<Bytes> := {};
      trace := [];
      NothingDone(schema, es, olderThan);
      while todo != {}
        invariant Valid() && VacuumAt(schema, es, entries, olderThan, done, [], U64_LIMIT)
        invariant todo !! done && todo + done == groups.Keys
        invariant Deletions(es, trace, entries)
        invariant forall mid | mid in trace :: Interrupted(schema, es, mid, olderThan)
      {
        var part :| part in todo;
        GroupLists(schema, es, vs, groups, part);
        ghost var more := VacuumGroup(part, groups[part], olderThan, es, done, trace);
        trace := trace + more;
        todo, done := todo - {part}, done + {part};
      }
      AllDone(schema, es, entries, olderThan, vs, groups, done);
    }

    /** One key: find its newest version not above olderThan, then delete what it supersedes, newest
        first. */
    method VacuumGroup(part: Bytes, versions: seq<Version>, olderThan: U64, ghost es: seq<Entry>, ghost done: set<Bytes>,
                       ghost before: seq<seq<Entry>>)
      returns (ghost trace: seq<seq<Entry>>)
      requires Valid() && Sorted(es) && VacuumAt(schema, es, entries, olderThan, done, [], U64_LIMIT) && part !in done
      requires Listed(schema, es, part, versions) && Deletions(es, before, entries)
      modifies this
      ensures Valid() && VacuumAt(schema, es, entries, olderThan, done + {part}, [], U64_LIMIT)
      ensures Deletions(es, before + trace, entries)
      ensures forall mid | mid in trace :: Interrupted(schema, es, mid, olderThan)
    {
      hide Sorted, Without, Drops, InGroup, KeyPart, Deletions, VacuumAt, Interrupted, Remove, Listed, Descending, TopOf, NewerThan;
      trace := [];
      assert before + trace == before;
      OneVersionEach(schema, es, part, versions);
      var sorted := SortDescending(versions);
      ListedSorted(schema, es, part, versions, sorted);
      var highestOld := HighestUpTo(sorted, olderThan);
      if highestOld.None? {
        NothingOld(schema, es, entries, olderThan, done, part, sorted);
        return;
      }
      var isTomb := IsTombstone(highestOld.value.data);
      var hasNewer := exists i :: 0 <= i < |sorted| && sorted[i].version > olderThan;
      TopListed(schema, es, part, sorted, olderThan, highestOld.value, hasNewer);
      ghost var cut: nat := U64_LIMIT;
      StartGroup(schema, es, entries, olderThan, done, part);
      for i := 0 to |sorted|
        invariant Valid() && VacuumAt(schema, es, entries, olderThan, done, part, cut)
        invariant cut == if i == 0 then U64_LIMIT else sorted[i - 1].version
        invariant Deletions(es, before + trace, entries)
        invariant forall mid | mid in trace :: Interrupted(schema, es, mid, olderThan)
      {
        var ve := sorted[i];
        VacuumOne(schema, es, entries, olderThan, done, part, cut, sorted, i, highestOld.value, hasNewer);
        if ve.version <= olderThan && ((isTomb && !hasNewer) || (!isTomb && ve.version < highestOld.value.version)) {
          OneDeletion(es, before + trace, entries, ve.key);
          assert before + (trace + [Remove(entries, ve.key)]) == before + trace + [Remove(entries, ve.key)];
          entries := Remove(entries, ve.key);
          trace := trace + [entries];
        }
        cut := ve.version;
      }
      GroupDone(schema, es, entries, olderThan, done, part, cut, sorted);
    }
  }

  /** The states of a store from which one entry after another is deleted. */
  ghost predicate Deletions(from: seq<Entry>, states: seq<seq<Entry>>, to: seq<Entry>) {
    var all := [from] + states;
    && all[|states|] == to
    && forall i | 0 <= i < |states| :: OneLess(all[i], states[i])
  }

  ghost predicate OneLess(before: seq<Entry>, after: seq<Entry>) {
    exists k: Key :: after == Remove(before, k)
  }

  lemma NoDeletion(es: seq<Entry>)
    ensures Deletions(es, [], es)
  {}

  lemma OneDeletion(from: seq<Entry>, states: seq<seq<Entry>>, now: seq<Entry>, k: Key)
    requires Deletions(from, states, now)
    ensures Deletions(from, states + [Remove(now, k)], Remove(now, k))
  {
    hide Remove;
    var next := Remove(now, k);
    assert [from] + (states + [next]) == [from] + states + [next];
    assert OneLess(now, next);
  }

  /** A state that a crash during Vacuum may leave. */
  ghost predicate Interrupted(s: Schema, es: seq<Entry>, mid: seq<Entry>, h: U64)
    requires ValidSchema(s)
  {
    exists done, part, cut :: VacuumAt(s, es, mid, h, done, part, cut)
  }

  // ----- scans and keys -----

  lemma NoneDecoded(ks: seq<Kind>)
    ensures Decoded([], ks) == []
  {}

  lemma DecodedSnoc(es: seq<Entry>, i: nat, ks: seq<Kind>)
    requires i < |es|
    ensures Decoded(es[..i + 1], ks) ==
      match DecodeRow(es[i].key, ks)
      case Err(_) => Decoded(es[..i], ks)
      case Ok(r) => Decoded(es[..i], ks) + [Version(r.version, es[i].key, es[i].val)]
  {
    hide DecodeRow;
    assert es[..i + 1][..i] == es[..i];
    assert Decoded(es[..i], ks) + [] == Decoded(es[..i], ks);
  }

  lemma PrefixTag(t: U64, pk: Pk)
    ensures RowPrefix(t, pk) != [] && RowPrefix(t, pk)[0] == ROW_TAG
  {
    hide EncodePk, Put64;
  }

  lemma TableTag(t: U64)
    ensures TablePrefix(t) != [] && TablePrefix(t)[0] == ROW_TAG
  {
    hide Put64;
  }

  lemma {:induction false} KeyFails(s: Schema, pkVals: Values, i: nat, n: nat)
    requires ValidSchema(s) && |pkVals| == |s.pkIdx| && i <= n <= |pkVals| && KeyUpTo(s, pkVals, i).Err?
    ensures KeyUpTo(s, pkVals, n) == KeyUpTo(s, pkVals, i)
    decreases n
  {
    if i < n { KeyFails(s, pkVals, i, n - 1); }
  }

  lemma AdmittedKey(s: Schema, es: seq<Entry>, pkVals: Values, tx: U64)
    requires ValidSchema(s) && Admit(s, es, pkVals, tx).Ok?
    ensures KeyOf(s, pkVals) == Ok(Admit(s, es, pkVals, tx).value) && Admit(s, es, pkVals, tx).value != []
  {
    hide KeyVersions;
    KeyIff(s, pkVals, KeyOf(s, pkVals).value);
  }

  lemma Planned(s: Schema, es: seq<Entry>, call: HeapStore.Call, pk: Pk, seen: Result<Values, HeapError>)
    requires ValidSchema(s) && (call.Delete? || |call.values| == |s.kinds|)
    requires Admit(s, es, CallKey(s, call), call.tx) == Ok(pk) && MayRead(s, es, pk, call.tx, seen)
    ensures MayPlan(s, es, call, PlanFor(s, call, pk, seen))
  {
    hide Admit, MayRead, PlanFor;
  }

  lemma NullsEncode(ks: seq<Kind>)
    ensures EncodeValues(ks, FLAG_TOMBSTONE, AllNull(|ks|)) == Ok(CellBytes(|ks|, Tombstone))
  {
    hide RowBytes;
  }

  /** Filter by the bound and take the highest. */
  method HighestUpTo(vs: seq<Version>, bound: U64) returns (top: Option<Version>)
    ensures top.None? ==> forall x | x in vs :: x.version > bound
    ensures top.Some? ==> Highest(vs, bound, top.value)
  {
    top := None;
    for i := 0 to |vs|
      invariant top.None? ==> forall j | 0 <= j < i :: vs[j].version > bound
      invariant top.Some? ==> top.value in vs && top.value.version <= bound
      invariant top.Some? ==> forall j | 0 <= j < i && vs[j].version <= bound :: vs[j].version <= top.value.version
    {
      if vs[i].version <= bound && (top.None? || vs[i].version > top.value.version) {
        top := Some(vs[i]);
      }
    }
  }

  // ----- grouping for the table scan -----

  /** groups holds the newest version not above tx of each key in vs. */
  ghost predicate Latest(vs: seq<Version>, tx: U64, groups: map<Bytes, Version>) {
    && (forall part | part in groups :: groups[part] in vs && KeyPart(groups[part].key) == part && groups[part].version <= tx)
    && (forall x | x in vs && x.version <= tx :: KeyPart(x.key) in groups && x.version <= groups[KeyPart(x.key)].version)
  }

  method LatestPerKey(vs: seq<Version>, tx: U64) returns (groups: map<Bytes, Version>)
    ensures Latest(vs, tx, groups)
  {
    hide KeyPart;
    groups := map[];
    for i := 0 to |vs|
      invariant Latest(vs[..i], tx, groups)
    {
      assert vs[..i + 1] == vs[..i] + [vs[i]];
      var part := KeyPart(vs[i].key);
      if vs[i].version <= tx && (part !in groups || vs[i].version > groups[part].version) {
        groups := groups[part := vs[i]];
      }
    }
    assert vs[..|vs|] == vs;
  }

  /** A version is its key part and its number. */
  lemma OneVersion(s: Schema, es: seq<Entry>, x: Version, y: Version)
    requires ValidSchema(s) && Sorted(es) && x in TableVersions(s, es) && y in TableVersions(s, es)
    requires KeyPart(x.key) == KeyPart(y.key) && x.version == y.version
    ensures x == y
  {
    hide Scanned, Sorted, Lookup, DecodeRow, EncodeRow, Reached, TablePrefix, KeyPart, Clean, EncodePk;
    NotEmpty(s.table, []);
    ScannedIff(es, TablePrefix(s.table), PkKinds(s), x);
    ScannedIff(es, TablePrefix(s.table), PkKinds(s), y);
    RowDecoded(x.key, PkKinds(s));
    RowDecoded(y.key, PkKinds(s));
    var a, b := DecodeRow(x.key, PkKinds(s)).value, DecodeRow(y.key, PkKinds(s)).value;
    SameParts(a, b);
  }

  lemma SameParts(a: Row, b: Row)
    requires KeyPart(EncodeRow(a)) == KeyPart(EncodeRow(b)) && a.version == b.version
    ensures EncodeRow(a) == EncodeRow(b)
  {
    hide EncodePk, Put64;
    var x, y := EncodeRow(a), EncodeRow(b);
    assert x == KeyPart(x) + Put64(a.version) && y == KeyPart(y) + Put64(b.version);
  }

  lemma GroupsAreTops(s: Schema, es: seq<Entry>, vs: seq<Version>, tx: U64, groups: map<Bytes, Version>)
    requires ValidSchema(s) && Sorted(es) && vs == TableVersions(s, es) && Latest(vs, tx, groups)
    ensures forall part, x :: TopOf(s, es, part, tx, x) <==> part in groups && x == groups[part]
  {
    hide Sorted, TableVersions, KeyPart;
    forall part, x ensures TopOf(s, es, part, tx, x) <==> part in groups && x == groups[part] {
      if TopOf(s, es, part, tx, x) {
        assert InGroup(s, es, part, groups[part]);
        OneVersion(s, es, x, groups[part]);
      }
    }
  }

  lemma RowsAreScan(s: Schema, es: seq<Entry>, tx: U64, groups: map<Bytes, Version>, rows: seq<VisibleRow>)
    requires ValidSchema(s) && forall part, x :: TopOf(s, es, part, tx, x) <==> part in groups && x == groups[part]
    requires forall i, j | 0 <= i < j < |rows| :: LexLess(rows[i].0, rows[j].0)
    requires forall x: VisibleRow :: x in rows <==> x.0 in groups && DecodeCell(s.kinds, groups[x.0].data) == Some(Live(x.1))
    ensures IsScan(s, es, tx, rows)
  {
    hide TopOf, DecodeCell, LexLess;
    forall part: Bytes, values: Values
      ensures (part, values) in rows <==> exists x :: TopOf(s, es, part, tx, x) && DecodeCell(s.kinds, x.data) == Some(Live(values))
    {
      if (part, values) in rows {
        assert TopOf(s, es, part, tx, groups[part]);
      }
    }
  }

  ghost predicate ByKey(rows: seq<VisibleRow>) {
    forall i, j | 0 <= i < j < |rows| :: LexLess(rows[i].0, rows[j].0)
  }

  method SortByKey(rows: seq<VisibleRow>) returns (out: seq<VisibleRow>)
    requires forall i, j | 0 <= i < j < |rows| :: rows[i].0 != rows[j].0
    ensures ByKey(out) && forall x :: x in out <==> x in rows
  {
    hide LexLess;
    out := [];
    for i := 0 to |rows|
      invariant ByKey(out) && forall x :: x in out <==> x in rows[..i]
    {
      forall j | 0 <= j < |out| ensures out[j].0 != rows[i].0 {
        assert out[j] in rows[..i];
      }
      var at := InsertAt(out, rows[i]);
      InsertKeeps(out, at, rows[i]);
      out := out[..at] + [rows[i]] + out[at..];
      assert rows[..i + 1] == rows[..i] + [rows[i]];
    }
    assert rows[..|rows|] == rows;
  }

  /** Where a row belongs among sorted ones. */
  method InsertAt(sorted: seq<VisibleRow>, row: VisibleRow) returns (at: nat)
    requires ByKey(sorted) && forall j | 0 <= j < |sorted| :: sorted[j].0 != row.0
    ensures at <= |sorted|
    ensures forall j | 0 <= j < at :: LexLess(sorted[j].0, row.0)
    ensures forall j | at <= j < |sorted| :: LexLess(row.0, sorted[j].0)
  {
    hide LexLess;
    at := 0;
    while at < |sorted| && LexLess(sorted[at].0, row.0)
      invariant at <= |sorted|
      invariant forall j | 0 <= j < at :: LexLess(sorted[j].0, row.0)
    {
      at := at + 1;
    }
    forall j | at <= j < |sorted| ensures LexLess(row.0, sorted[j].0) {
      LexTotal(row.0, sorted[at].0);
      if at < j { LexChain(row.0, sorted[at].0, sorted[j].0); }
    }
  }

  lemma LexTotal(a: Bytes, b: Bytes)
    ensures a == b || LexLess(a, b) || LexLess(b, a)
  {
    hide Rank, LexLess;
    RankIsLexOrder(a, b);
    RankIsLexOrder(b, a);
  }

  lemma LexChain(a: Bytes, b: Bytes, c: Bytes)
    requires LexLess(a, b) && LexLess(b, c)
    ensures LexLess(a, c)
  {
    hide Rank, LexLess;
    RankIsLexOrder(a, b);
    RankIsLexOrder(b, c);
    RankIsLexOrder(a, c);
  }

  lemma InsertKeeps(sorted: seq<VisibleRow>, at: nat, row: VisibleRow)
    requires ByKey(sorted) && at <= |sorted|
    requires forall j | 0 <= j < at :: LexLess(sorted[j].0, row.0)
    requires forall j | at <= j < |sorted| :: LexLess(row.0, sorted[j].0)
    ensures var out := sorted[..at] + [row] + sorted[at..];
      ByKey(out) && forall x :: x in out <==> x in sorted || x == row
  {
    hide LexLess;
    var out := sorted[..at] + [row] + sorted[at..];
    forall x ensures x in out <==> x in sorted || x == row {
      assert sorted == sorted[..at] + sorted[at..];
    }
    assert forall i | 0 <= i < |out| :: out[i] == if i < at then sorted[i] else if i == at then row else sorted[i - 1];
  }

  // ----- grouping for Vacuum -----

  /** groups holds, for each key in vs, its versions in order. */
  ghost predicate Grouped(vs: seq<Version>, groups: map<Bytes, seq<Version>>) {
    && (forall x | x in vs :: KeyPart(x.key) in groups)
    && (forall part, x | part in groups :: x in groups[part] <==> x in vs && KeyPart(x.key) == part)
  }

  method GroupVersions(vs: seq<Version>) returns (groups: map<Bytes, seq<Version>>)
    ensures Grouped(vs, groups)
  {
    hide KeyPart;
    groups := map[];
    for i := 0 to |vs|
      invariant Grouped(vs[..i], groups)
    {
      var part := KeyPart(vs[i].key);
      ghost var before := groups;
      var so := if part in groups then groups[part] else [];
      groups := groups[part := so + [vs[i]]];
      GroupMore(vs[..i], vs[i], before, groups);
      assert vs[..i + 1] == vs[..i] + [vs[i]];
    }
    assert vs[..|vs|] == vs;
  }

  lemma GroupMore(vs: seq<Version>, x: Version, before: map<Bytes, seq<Version>>, after: map<Bytes, seq<Version>>)
    requires Grouped(vs, before)
    requires var part := KeyPart(x.key); after == before[part := (if part in before then before[part] else []) + [x]]
    ensures Grouped(vs + [x], after)
  {
    hide KeyPart;
    var part := KeyPart(x.key);
    forall p, y | p in after ensures y in after[p] <==> y in vs + [x] && KeyPart(y.key) == p {
      if p == part && part !in before {
        assert y in vs ==> KeyPart(y.key) in before;
      }
    }
  }

  /** versions are exactly those of one key. */
  ghost predicate Listed(s: Schema, es: seq<Entry>, part: Bytes, versions: seq<Version>)
    requires ValidSchema(s)
  {
    forall x :: x in versions <==> InGroup(s, es, part, x)
  }

  lemma GroupLists(s: Schema, es: seq<Entry>, vs: seq<Version>, groups: map<Bytes, seq<Version>>, part: Bytes)
    requires ValidSchema(s) && vs == TableVersions(s, es) && Grouped(vs, groups) && part in groups
    ensures Listed(s, es, part, groups[part])
  {
    hide TableVersions, KeyPart;
  }

  /** Equal numbers mean equal versions. */
  ghost predicate OneEach(vs: seq<Version>) {
    forall x, y | x in vs && y in vs && x.version == y.version :: x == y
  }

  ghost predicate Descending(vs: seq<Version>) {
    forall i, j | 0 <= i < j < |vs| :: vs[i].version > vs[j].version
  }

  lemma OneVersionEach(s: Schema, es: seq<Entry>, part: Bytes, versions: seq<Version>)
    requires ValidSchema(s) && Sorted(es) && Listed(s, es, part, versions)
    ensures OneEach(versions)
  {
    hide Sorted, TableVersions, KeyPart;
    forall x, y | x in versions && y in versions && x.version == y.version ensures x == y {
      assert InGroup(s, es, part, x) && InGroup(s, es, part, y);
      OneVersion(s, es, x, y);
    }
  }

  /** Sort by version, newest first. */
  method SortDescending(vs: seq<Version>) returns (out: seq<Version>)
    requires OneEach(vs)
    ensures Descending(out) && forall x :: x in out <==> x in vs
  {
    out := [];
    for i := 0 to |vs|
      invariant Descending(out) && forall x :: x in out <==> x in vs[..i]
    {
      assert vs[..i + 1] == vs[..i] + [vs[i]];
      if vs[i] in out {
        continue;
      }
      var at := 0;
      while at < |out| && out[at].version > vs[i].version
        invariant at <= |out| && forall j | 0 <= j < at :: out[j].version > vs[i].version
      {
        at := at + 1;
      }
      if at < |out| {
        assert out[at] in vs[..i] && out[at] in vs && vs[i] in vs;
      }
      PlaceKeeps(out, at, vs[i]);
      out := out[..at] + [vs[i]] + out[at..];
    }
    assert vs[..|vs|] == vs;
  }

  lemma PlaceKeeps(out: seq<Version>, at: nat, x: Version)
    requires Descending(out) && at <= |out|
    requires forall j | 0 <= j < at :: out[j].version > x.version
    requires at < |out| ==> out[at].version < x.version
    ensures var r := out[..at] + [x] + out[at..];
      Descending(r) && forall y :: y in r <==> y in out || y == x
  {
    var r := out[..at] + [x] + out[at..];
    forall y ensures y in r <==> y in out || y == x {
      assert out == out[..at] + out[at..];
    }
    assert forall i | 0 <= i < |r| :: r[i] == if i < at then out[i] else if i == at then x else out[i - 1];
  }

  lemma ListedSorted(s: Schema, es: seq<Entry>, part: Bytes, versions: seq<Version>, sorted: seq<Version>)
    requires ValidSchema(s) && Listed(s, es, part, versions) && forall x :: x in sorted <==> x in versions
    ensures Listed(s, es, part, sorted)
  {
    hide InGroup;
  }

  // ----- what Get answers -----

  /** No version is visible, or a newest visible one decides: bytes that do not decode are an error,
      a tombstone hides the row. */
  ghost predicate Answers(s: Schema, vs: seq<Version>, tx: U64, r: Result<Values, HeapError>) {
    || (r == Err(ErrKeyNotFound) && forall y | y in vs :: tx < y.version)
    || exists x :: x in vs && x.version <= tx && (forall y | y in vs && x.version < y.version :: tx < y.version) && Gives(s, x, r)
  }

  ghost predicate Gives(s: Schema, x: Version, r: Result<Values, HeapError>) {
    match r
    case Ok(values) => DecodeCell(s.kinds, x.data) == Some(Live(values))
    case Err(e) => if DecodeCell(s.kinds, x.data).None? then e == ErrCorruptValue else e == ErrKeyNotFound && DecodeCell(s.kinds, x.data) == Some(Tombstone)
  }

  lemma ReadAnswers(s: Schema, es: seq<Entry>, pk: Pk, tx: U64, r: Result<Values, HeapError>)
    requires ValidSchema(s) && MayRead(s, es, pk, tx, r)
    ensures Answers(s, KeyVersions(s, es, pk), tx, r)
  {
    hide KeyVersions, DecodeCell;
    var vs := KeyVersions(s, es, pk);
    if !forall y | y in vs :: tx < y.version {
      var x :| Highest(vs, tx, x) && r == ReadData(s, x.data);
      assert Gives(s, x, r);
    }
  }

  // ----- what Vacuum drops -----

  ghost predicate SameRow(x: Version, y: Version) {
    |x.key| == |y.key| && |x.key| > 8 && x.key[..|x.key| - 8] == y.key[..|y.key| - 8]
  }

  /** A version is gone after a finished Vacuum exactly if it is not above the horizon and the newest
      such version of its row is a newer live one, or a tombstone that nothing follows; every other
      entry of the store stays. */
  lemma VacuumIff(s: Schema, es: seq<Entry>, after: seq<Entry>, h: U64, x: Version)
    requires ValidSchema(s) && Sorted(es) && VacuumedTo(s, es, after, h) && x in TableVersions(s, es)
    ensures Lookup(after, x.key) == None <==>
      && x.version <= h
      && exists top | top in TableVersions(s, es) ::
           && SameRow(x, top) && top.version <= h
           && (forall y | y in TableVersions(s, es) && SameRow(x, y) && top.version < y.version :: h < y.version)
           && if top.data != [] && top.data[0] == 1
              then forall y | y in TableVersions(s, es) && SameRow(x, y) :: y.version <= h
              else x.version < top.version
    ensures forall k | (forall y | y in TableVersions(s, es) :: y.key != k) || Lookup(after, k).Some? :: Lookup(after, k) == Lookup(es, k)
  {
    hide Sorted, Lookup, TableVersions, KeyPart, SameRow, Drops;
    VersionStored(s, es, x);
    DropsIff(s, es, h, x);
    if y :| Drops(s, es, h, y) && y.key == x.key {
      DroppedInGroup(s, es, h, y);
      InGroupTable(s, es, KeyPart(y.key), y);
      VersionStored(s, es, y);
    }
    forall y | Drops(s, es, h, y) ensures y in TableVersions(s, es) {
      DroppedInGroup(s, es, h, y);
      InGroupTable(s, es, KeyPart(y.key), y);
    }
  }

  lemma InGroupTable(s: Schema, es: seq<Entry>, part: Bytes, x: Version)
    requires ValidSchema(s) && InGroup(s, es, part, x)
    ensures x in TableVersions(s, es)
  {}

  /** A version is what its key holds and names. */
  lemma VersionStored(s: Schema, es: seq<Entry>, x: Version)
    requires ValidSchema(s) && Sorted(es) && x in TableVersions(s, es)
    ensures Lookup(es, x.key) == Some(x.data) && |x.key| >= 17
    ensures forall y | y in TableVersions(s, es) && y.key == x.key :: y == x
  {
    hide Scanned, Sorted, Lookup, DecodeRow, EncodeRow, Reached, TablePrefix;
    NotEmpty(s.table, []);
    ScannedEntries(es, TablePrefix(s.table), PkKinds(s));
    RowDecoded(x.key, PkKinds(s));
    RowLength(DecodeRow(x.key, PkKinds(s)).value);
  }

  lemma RowLength(r: Row)
    ensures |EncodeRow(r)| >= 17
  {
    hide EncodePk, Put64;
  }

  lemma SameRowIff(s: Schema, es: seq<Entry>, x: Version, y: Version)
    requires ValidSchema(s) && Sorted(es) && x in TableVersions(s, es) && y in TableVersions(s, es)
    ensures SameRow(x, y) <==> KeyPart(y.key) == KeyPart(x.key)
  {
    hide Sorted, Lookup, TableVersions;
    VersionStored(s, es, x);
    VersionStored(s, es, y);
  }

  lemma DropsIff(s: Schema, es: seq<Entry>, h: U64, x: Version)
    requires ValidSchema(s) && Sorted(es) && x in TableVersions(s, es)
    ensures Drops(s, es, h, x) <==>
      && x.version <= h
      && exists top | top in TableVersions(s, es) ::
           && SameRow(x, top) && top.version <= h
           && (forall y | y in TableVersions(s, es) && SameRow(x, y) && top.version < y.version :: h < y.version)
           && if top.data != [] && top.data[0] == 1
              then forall y | y in TableVersions(s, es) && SameRow(x, y) :: y.version <= h
              else x.version < top.version
  {
    hide Sorted, TableVersions, KeyPart, SameRow;
    forall y | y in TableVersions(s, es) ensures SameRow(x, y) <==> InGroup(s, es, KeyPart(x.key), y) {
      SameRowIff(s, es, x, y);
    }
  }

  lemma TopListed(s: Schema, es: seq<Entry>, part: Bytes, sorted: seq<Version>, h: U64, top: Version, hasNewer: bool)
    requires ValidSchema(s) && Listed(s, es, part, sorted) && Highest(sorted, h, top)
    requires hasNewer == exists i :: 0 <= i < |sorted| && sorted[i].version > h
    ensures TopOf(s, es, part, h, top) && (NewerThan(s, es, part, h) <==> hasNewer)
  {
    hide InGroup;
    if hasNewer {
      var i :| 0 <= i < |sorted| && sorted[i].version > h;
      assert InGroup(s, es, part, sorted[i]);
    }
    if y :| InGroup(s, es, part, y) && y.version > h {
      assert y in sorted;
      var i :| 0 <= i < |sorted| && sorted[i] == y;
    }
  }

  lemma DropsBy(s: Schema, es: seq<Entry>, part: Bytes, h: U64, top: Version, x: Version)
    requires ValidSchema(s) && Sorted(es) && TopOf(s, es, part, h, top) && InGroup(s, es, part, x)
    ensures Drops(s, es, h, x) <==>
      x.version <= h && if IsTombstone(top.data) then !NewerThan(s, es, part, h) else x.version < top.version
  {
    hide Sorted, TableVersions, KeyPart, NewerThan, IsTombstone;
    forall y | TopOf(s, es, part, h, y) ensures y == top {
      OneVersion(s, es, y, top);
    }
  }

  lemma PartOf(s: Schema, es: seq<Entry>, part: Bytes, x: Version)
    requires ValidSchema(s) && InGroup(s, es, part, x)
    ensures KeyPart(x.key) == part
  {}

  /** What is dropped is a version of its key, not above the horizon. */
  lemma DroppedInGroup(s: Schema, es: seq<Entry>, h: U64, x: Version)
    requires ValidSchema(s) && Drops(s, es, h, x)
    ensures InGroup(s, es, KeyPart(x.key), x) && x.version <= h
  {
    hide KeyPart, TableVersions, TopOf, NewerThan;
  }

  // ----- how far Vacuum has come -----

  lemma NothingDone(s: Schema, es: seq<Entry>, h: U64)
    requires ValidSchema(s) && Sorted(es)
    ensures VacuumAt(s, es, es, h, {}, [], U64_LIMIT)
  {
    hide Sorted, Drops, Lookup;
  }

  lemma SameWithout(es: seq<Entry>, mid: seq<Entry>, a: iset<Version>, b: iset<Version>)
    requires Without(es, mid, a) && forall x :: x in a <==> x in b
    ensures Without(es, mid, b)
  {
    hide Sorted, Lookup;
    assert a == b;
  }

  ghost function Gone(s: Schema, es: seq<Entry>, h: U64, done: set<Bytes>, part: Bytes, cut: nat): iset<Version>
    requires ValidSchema(s)
  {
    iset x | Drops(s, es, h, x) && (KeyPart(x.key) in done || (KeyPart(x.key) == part && x.version >= cut))
  }

  lemma StartGroup(s: Schema, es: seq<Entry>, mid: seq<Entry>, h: U64, done: set<Bytes>, part: Bytes)
    requires ValidSchema(s) && VacuumAt(s, es, mid, h, done, [], U64_LIMIT)
    ensures VacuumAt(s, es, mid, h, done, part, U64_LIMIT)
  {
    hide Sorted, Drops, Lookup, KeyPart, Without;
    SameWithout(es, mid, Gone(s, es, h, done, [], U64_LIMIT), Gone(s, es, h, done, part, U64_LIMIT));
  }

  /** No version of the key lies between its neighbours in the sorted list. */
  lemma Between(s: Schema, es: seq<Entry>, h: U64, part: Bytes, sorted: seq<Version>, i: nat, cut: nat, x: Version)
    requires ValidSchema(s) && Listed(s, es, part, sorted) && Descending(sorted) && i < |sorted|
    requires cut == if i == 0 then U64_LIMIT else sorted[i - 1].version
    requires Drops(s, es, h, x) && KeyPart(x.key) == part
    ensures x.version >= sorted[i].version <==> x.version >= cut || x == sorted[i]
  {
    hide Drops, InGroup, KeyPart;
    DroppedInGroup(s, es, h, x);
    assert x in sorted;
    var j :| 0 <= j < |sorted| && sorted[j] == x;
  }

  lemma SkipOne(s: Schema, es: seq<Entry>, mid: seq<Entry>, h: U64, done: set<Bytes>, part: Bytes, cut: nat, sorted: seq<Version>, i: nat)
    requires ValidSchema(s) && VacuumAt(s, es, mid, h, done, part, cut) && Listed(s, es, part, sorted) && Descending(sorted)
    requires i < |sorted| && cut == (if i == 0 then U64_LIMIT else sorted[i - 1].version) && !Drops(s, es, h, sorted[i])
    ensures VacuumAt(s, es, mid, h, done, part, sorted[i].version)
  {
    hide Sorted, Drops, Lookup, KeyPart, Without, Listed;
    var v := sorted[i].version;
    forall x ensures x in Gone(s, es, h, done, part, cut) <==> x in Gone(s, es, h, done, part, v) {
      if Drops(s, es, h, x) && KeyPart(x.key) == part { Between(s, es, h, part, sorted, i, cut, x); }
    }
    SameWithout(es, mid, Gone(s, es, h, done, part, cut), Gone(s, es, h, done, part, v));
  }

  lemma DeleteOne(s: Schema, es: seq<Entry>, mid: seq<Entry>, h: U64, done: set<Bytes>, part: Bytes, cut: nat, sorted: seq<Version>, i: nat)
    requires ValidSchema(s) && VacuumAt(s, es, mid, h, done, part, cut) && Listed(s, es, part, sorted) && Descending(sorted)
    requires i < |sorted| && cut == (if i == 0 then U64_LIMIT else sorted[i - 1].version)
    requires Drops(s, es, h, sorted[i]) && KeyPart(sorted[i].key) == part
    ensures VacuumAt(s, es, Remove(mid, sorted[i].key), h, done, part, sorted[i].version)
    ensures Sorted(Remove(mid, sorted[i].key))
    ensures Interrupted(s, es, Remove(mid, sorted[i].key), h)
  {
    hide Drops, Lookup, KeyPart, Listed, Remove;
    var v, x0 := sorted[i].version, sorted[i];
    forall x ensures x in Gone(s, es, h, done, part, v) <==> x in Gone(s, es, h, done, part, cut) + iset{x0} {
      if Drops(s, es, h, x) && KeyPart(x.key) == part { Between(s, es, h, part, sorted, i, cut, x); }
    }
    assert Gone(s, es, h, done, part, v) == Gone(s, es, h, done, part, cut) + iset{x0};
    WithoutMore(es, mid, Gone(s, es, h, done, part, cut), x0);
    hide Without;
    assert VacuumAt(s, es, Remove(mid, x0.key), h, done, part, v);
  }

  /** One version of a key: deleted if it is superseded, else passed over. */
  lemma VacuumOne(s: Schema, es: seq<Entry>, mid: seq<Entry>, h: U64, done: set<Bytes>, part: Bytes, cut: nat, sorted: seq<Version>, i: nat,
                  top: Version, hasNewer: bool)
    requires ValidSchema(s) && Sorted(es) && VacuumAt(s, es, mid, h, done, part, cut) && Listed(s, es, part, sorted) && Descending(sorted)
    requires i < |sorted| && cut == (if i == 0 then U64_LIMIT else sorted[i - 1].version)
    requires TopOf(s, es, part, h, top) && (NewerThan(s, es, part, h) <==> hasNewer)
    ensures var ve, tomb := sorted[i], IsTombstone(top.data);
      if ve.version <= h && ((tomb && !hasNewer) || (!tomb && ve.version < top.version)) then
        && VacuumAt(s, es, Remove(mid, ve.key), h, done, part, ve.version)
        && Sorted(Remove(mid, ve.key)) && Interrupted(s, es, Remove(mid, ve.key), h)
      else VacuumAt(s, es, mid, h, done, part, ve.version)
  {
    assert InGroup(s, es, part, sorted[i]);
    DropsBy(s, es, part, h, top, sorted[i]);
    PartOf(s, es, part, sorted[i]);
    hide Sorted, Drops, VacuumAt, Interrupted, Remove, TopOf, NewerThan, InGroup, Listed, Descending, KeyPart;
    if Drops(s, es, h, sorted[i]) {
      DeleteOne(s, es, mid, h, done, part, cut, sorted, i);
    } else {
      SkipOne(s, es, mid, h, done, part, cut, sorted, i);
    }
  }

  lemma WithoutMore(es: seq<Entry>, mid: seq<Entry>, gone: iset<Version>, x: Version)
    requires Without(es, mid, gone)
    ensures Sorted(Remove(mid, x.key)) && Without(es, Remove(mid, x.key), gone + iset{x})
  {
    hide Sorted, Lookup, Remove;
    RemoveSorted(mid, x.key);
    forall k: Key ensures Lookup(Remove(mid, x.key), k) == if exists y :: y in gone + iset{x} && y.key == k then None else Lookup(es, k) {
      RemoveIsMapRemoval(mid, x.key, k);
      if k == x.key {
        assert x in gone + iset{x};
      } else if y :| y in gone && y.key == k {
        assert y in gone + iset{x};
      }
    }
  }

  lemma GroupDone(s: Schema, es: seq<Entry>, mid: seq<Entry>, h: U64, done: set<Bytes>, part: Bytes, cut: nat, sorted: seq<Version>)
    requires ValidSchema(s) && VacuumAt(s, es, mid, h, done, part, cut) && Listed(s, es, part, sorted) && Descending(sorted)
    requires cut == if sorted == [] then U64_LIMIT else sorted[|sorted| - 1].version
    ensures VacuumAt(s, es, mid, h, done + {part}, [], U64_LIMIT)
  {
    hide Sorted, Lookup, Without, KeyPart, TopOf, NewerThan, IsTombstone;
    forall x ensures x in Gone(s, es, h, done, part, cut) <==> x in Gone(s, es, h, done + {part}, [], U64_LIMIT) {
      if Drops(s, es, h, x) && KeyPart(x.key) == part {
        assert InGroup(s, es, part, x) && x in sorted;
      }
    }
    SameWithout(es, mid, Gone(s, es, h, done, part, cut), Gone(s, es, h, done + {part}, [], U64_LIMIT));
  }

  lemma NothingOld(s: Schema, es: seq<Entry>, mid: seq<Entry>, h: U64, done: set<Bytes>, part: Bytes, sorted: seq<Version>)
    requires ValidSchema(s) && VacuumAt(s, es, mid, h, done, [], U64_LIMIT) && Listed(s, es, part, sorted)
    requires forall x | x in sorted :: x.version > h
    ensures VacuumAt(s, es, mid, h, done + {part}, [], U64_LIMIT)
  {
    hide Sorted, Lookup, Without, KeyPart, Drops, InGroup;
    forall x ensures x in Gone(s, es, h, done, [], U64_LIMIT) <==> x in Gone(s, es, h, done + {part}, [], U64_LIMIT) {
      if Drops(s, es, h, x) { DroppedInGroup(s, es, h, x); }
    }
    SameWithout(es, mid, Gone(s, es, h, done, [], U64_LIMIT), Gone(s, es, h, done + {part}, [], U64_LIMIT));
  }

  lemma AllDone(s: Schema, es: seq<Entry>, mid: seq<Entry>, h: U64, vs: seq<Version>, groups: map<Bytes, seq<Version>>, done: set<Bytes>)
    requires ValidSchema(s) && vs == TableVersions(s, es) && Grouped(vs, groups) && done == groups.Keys
    requires VacuumAt(s, es, mid, h, done, [], U64_LIMIT)
    ensures VacuumedTo(s, es, mid, h)
  {
    hide Sorted, Lookup, Without, KeyPart, TopOf, NewerThan, IsTombstone, TableVersions;
    var all := iset x | Drops(s, es, h, x);
    forall x ensures x in Gone(s, es, h, done, [], U64_LIMIT) <==> x in all {}
    SameWithout(es, mid, Gone(s, es, h, done, [], U64_LIMIT), all);
  }
}
