/** The byte ranges that the heap scans hold exactly the rows they are meant for, although a
    carry in PrefixEnd admits some shorter keys. */
module RowRange {
  import opened Bytes
  import opened LexOrder
  import opened RowKey

  /** Cutting a number and its successor after n bytes leaves equal or consecutive numbers. */
  lemma {:induction false} CutStep(p: Bytes, end: Bytes, n: nat)
    requires |p| == |end| && FromBigEndian(end) == FromBigEndian(p) + 1 && n <= |p|
    ensures FromBigEndian(end[..n]) - FromBigEndian(p[..n]) in {0, 1}
    decreases |p| - n
  {
    if n == |p| {
      assert p[..n] == p && end[..n] == end;
    } else {
      CutStep(p, end, n + 1);
      assert p[..n + 1][..n] == p[..n] && end[..n + 1][..n] == end[..n];
    }
  }

  /** A key against a longer string: equal so far means below. */
  lemma LexShort(k: Bytes, p: Bytes)
    requires |k| < |p|
    ensures LexLess(k, p) <==> FromBigEndian(k) <= FromBigEndian(p[..|k|])
  {
    var q, rest := p[..|k|], p[|k|..];
    assert p == q + rest && k == k + [];
    SameLengthOrder(k, q);
    if k == q {
      LexPrefix(k, [], rest);
    } else {
      var i := FirstDiff(k, q);
      LexAppend(k, q, [], rest, i);
      LexAt(k, q, i);
    }
  }

  /** A shorter key in the range is the successor of the prefix cut to its length. */
  lemma ShortInRange(p: Bytes, end: Bytes, k: Bytes)
    requires |k| < |p| == |end| && FromBigEndian(end) == FromBigEndian(p) + 1 && InRange(k, p, end)
    ensures FromBigEndian(k) == FromBigEndian(p[..|k|]) + 1
  {
    LexShort(k, p);
    LexShort(k, end);
    CutStep(p, end, |k|);
  }

  /** Different keys of one table diverge before either ends. */
  lemma {:induction false} PkDiverge(p: seq<Value>, q: seq<Value>) returns (i: nat)
    requires SameKinds(p, q) && Ordered(p) && Ordered(q) && p != q
    ensures DivergeAt(EncodePk(p), EncodePk(q), i)
  {
    hide EncodeColumn;
    assert p == [p[0]] + p[1..] && q == [q[0]] + q[1..];
    var a, b := EncodeColumn(p[0]), EncodeColumn(q[0]);
    var x, y := EncodePk(p[1..]), EncodePk(q[1..]);
    if p[0] != q[0] {
      i := ColumnOrder(p[0], q[0]);
      assert (a + x)[..i] == a[..i] && (b + y)[..i] == b[..i];
    } else {
      var j := PkDiverge(p[1..], q[1..]);
      i := |a| + j;
      assert (a + x)[..i] == a + x[..j] && (b + y)[..i] == b + y[..j];
    }
  }

  /** Rows of another table or key leave the prefix before their version begins. */
  lemma RowDiverges(r: Row, table: U64, pk: seq<Value>) returns (d: nat)
    requires Ordered(r.pk) && Ordered(pk) && (r.table == table ==> SameKinds(r.pk, pk))
    requires r.table != table || r.pk != pk
    ensures d + 8 < |EncodeRow(r)| && DivergeAt(EncodeRow(r), TablePrefix(table) + EncodePk(pk), d)
  {
    hide EncodePk, Put64;
    var k, p := EncodeRow(r), TablePrefix(table) + EncodePk(pk);
    if r.table != table {
      Put64Order(r.table, table);
      var i := FirstDiff(Put64(r.table), Put64(table));
      d := 1 + i;
      assert k[..d] == [ROW_TAG] + Put64(r.table)[..i] && p[..d] == [ROW_TAG] + Put64(table)[..i];
      assert k[d] == Put64(r.table)[i] && p[d] == Put64(table)[i];
    } else {
      var i := PkDiverge(r.pk, pk);
      d := 9 + i;
      assert k[..d] == TablePrefix(table) + EncodePk(r.pk)[..i] && p[..d] == TablePrefix(table) + EncodePk(pk)[..i];
      assert k[d] == EncodePk(r.pk)[i] && p[d] == EncodePk(pk)[i];
    }
  }

  lemma SameDivergence(a: Bytes, b: Bytes, i: nat, j: nat)
    requires DivergeAt(a, b, i) && DivergeAt(a, b, j)
    ensures i == j
  {
    assert forall x | 0 <= x < i :: a[..i][x] == b[..i][x];
    assert forall x | 0 <= x < j :: a[..j][x] == b[..j][x];
  }

  /** After b every byte of a is 0xFF. */
  ghost predicate FullAfter(a: Bytes, b: nat) {
    forall j | b < j < |a| :: a[j] == 0xFF
  }

  lemma EndsInZero(v: Value)
    ensures v.String? ==> 0 in EncodeColumn(v)
  {
    if v.String? { assert EncodeColumn(v)[|v.s|] == 0; }
  }

  /** Columns that are all 0xFF have a fixed width. */
  lemma {:induction false} FullIsFixed(a: seq<Value>, c: seq<Value>)
    requires SameKinds(a, c) && Ordered(a) && forall j | 0 <= j < |EncodePk(a)| :: EncodePk(a)[j] == 0xFF
    ensures |EncodePk(c)| == |EncodePk(a)|
  {
    if a != [] {
      hide Put64;
      var x, rest := EncodeColumn(a[0]), EncodePk(a[1..]);
      assert EncodePk(a) == x + rest;
      assert forall j | 0 <= j < |x| :: x[j] == (x + rest)[j];
      assert !a[0].String? by { EndsInZero(a[0]); }
      assert forall j | 0 <= j < |rest| :: rest[j] == EncodePk(a)[|x| + j];
      assert Fixed(a[0]) && a[0].Kind() == c[0].Kind();
      FullIsFixed(a[1..], c[1..]);
    }
  }

  /** Where a key first exceeds another that is all 0xFF from there on, it is not shorter: the
      difference is in a fixed column, or at the end of a string that goes on. */
  lemma {:induction false} CarryNotShorter(a: seq<Value>, c: seq<Value>, b: nat)
    requires SameKinds(a, c) && Ordered(a) && Ordered(c) && DivergeAt(EncodePk(a), EncodePk(c), b)
    requires FullAfter(EncodePk(a), b)
    ensures |EncodePk(c)| >= |EncodePk(a)|
  {
    hide EncodeColumn;
    var x, y := EncodeColumn(a[0]), EncodeColumn(c[0]);
    var p, q := EncodePk(a[1..]), EncodePk(c[1..]);
    assert EncodePk(a) == x + p && EncodePk(c) == y + q;
    assert a == [a[0]] + a[1..] && c == [c[0]] + c[1..] && a[0].Kind() == c[0].Kind();
    hide EncodePk;
    if a[0] == c[0] {
      DivergeBehind(x, p, q, b);
      CarryNotShorter(a[1..], c[1..], b - |x|);
    } else {
      var d := ColumnOrder(a[0], c[0]);
      assert (x + p)[..d] == x[..d] && (y + q)[..d] == y[..d];
      SameDivergence(x + p, y + q, d, b);
      assert forall j | 0 <= j < |p| :: p[j] == (x + p)[|x| + j];
      FullIsFixed(a[1..], c[1..]);
      assert forall j | b < j < |x| :: x[j] == (x + p)[j];
      ColumnNotShorter(a[0], c[0], b);
    }
  }

  lemma DivergeBehind(x: Bytes, p: Bytes, q: Bytes, b: nat)
    requires DivergeAt(x + p, x + q, b) && FullAfter(x + p, b)
    ensures b >= |x| && DivergeAt(p, q, b - |x|) && FullAfter(p, b - |x|)
  {
    assert forall j | 0 <= j < |x| :: (x + p)[j] == (x + q)[j];
    assert p[..b - |x|] == (x + p)[..b][|x|..] && q[..b - |x|] == (x + q)[..b][|x|..];
    assert forall j | 0 <= j < |p| :: p[j] == (x + p)[|x| + j];
  }

  lemma ColumnNotShorter(a: Value, c: Value, b: nat)
    requires a.Kind() == c.Kind() && !a.Blob? && DivergeAt(EncodeColumn(a), EncodeColumn(c), b) && FullAfter(EncodeColumn(a), b)
    ensures |EncodeColumn(c)| >= |EncodeColumn(a)|
  {
    if a.String? {
      var x, y := EncodeColumn(a), EncodeColumn(c);
      assert x[|x| - 1] == 0 && y[|y| - 1] == 0;
    }
  }

  /** What precedes the successor of a cut number is 0xFF up to the increment. */
  lemma {:induction false} CarryFull(p: Bytes, end: Bytes, b: nat)
    requires |p| == |end| && FromBigEndian(end) == FromBigEndian(p) + 1 && DivergeAt(end, p, b)
    ensures FullAfter(p, b)
  {
    var n := |p| - 1;
    if b < n {
      assert p[..n][..b] == p[..b] && end[..n][..b] == end[..b];
      SameLengthOrder(end[..n], p[..n]);
      assert end[..n][b] != p[..n][b];
      CarryFull(p[..n], end[..n], b);
      assert forall j | b < j < n :: p[j] == p[..n][j];
    }
  }

  /** The bytes scanned for one key, and where the scan ends. */
  function RowPrefix(table: U64, pk: seq<Value>): Bytes {
    TablePrefix(table) + EncodePk(pk)
  }

  lemma PrefixHasEnd(table: U64, pk: seq<Value>)
    ensures var p := RowPrefix(table, pk); p[0] == ROW_TAG && FromBigEndian(EndOf(p)) == FromBigEndian(p) + 1
  {
    hide EncodePk, Put64;
    EndOfIsNext(RowPrefix(table, pk), 0);
  }

  /** The range over one key's prefix holds exactly that key's versions. */
  lemma VersionScanExact(r: Row, table: U64, pk: seq<Value>)
    requires SameKinds(r.pk, pk) && Ordered(r.pk) && Ordered(pk)
    ensures var p := RowPrefix(table, pk); InRange(EncodeRow(r), p, EndOf(p)) <==> r.table == table && r.pk == pk
  {
    hide EncodePk, Put64, LexLess, TablePrefix, EncodeRow, EndOf;
    var k, p := EncodeRow(r), RowPrefix(table, pk);
    var end := EndOf(p);
    PrefixHasEnd(table, pk);
    if r.table == table && r.pk == pk {
      RowHasPrefix(r);
      PrefixRange(p, end, k);
    } else {
      var d := RowDiverges(r, table, pk);
      if |k| >= |p| {
        PrefixRange(p, end, k);
      } else {
        CarryAt(r, table, pk, d);
      }
    }
  }

  /** A row key that is shorter than the prefix is not its successor so far. */
  lemma CarryAt(r: Row, table: U64, pk: seq<Value>, d: nat)
    requires SameKinds(r.pk, pk) && Ordered(r.pk) && Ordered(pk)
    requires var k, p := EncodeRow(r), RowPrefix(table, pk);
      |k| < |p| && DivergeAt(k, p, d) && d + 8 < |k|
    ensures var p := RowPrefix(table, pk); !InRange(EncodeRow(r), p, EndOf(p))
  {
    hide EncodePk, Put64, LexLess, EndOf;
    var k, p := EncodeRow(r), RowPrefix(table, pk);
    PrefixHasEnd(table, pk);
    if InRange(k, p, EndOf(p)) {
      CarryPoint(p, k, d);
      var a, c := EncodePk(pk), EncodePk(r.pk);
      assert forall j | 0 <= j < |a| :: a[j] == p[9 + j];
      if d < 9 {
        FullIsFixed(pk, r.pk);
      } else {
        assert k[9..|k| - 8] == c;
        assert a[..d - 9] == p[..d][9..] && c[..d - 9] == k[..d][9..];
        assert DivergeAt(a, c, d - 9) && FullAfter(a, d - 9);
        CarryNotShorter(pk, r.pk, d - 9);
      }
      assert false;
    }
  }

  /** The prefix is all 0xFF from the divergence on. */
  lemma CarryPoint(p: Bytes, k: Bytes, d: nat)
    requires |k| < |p| && DivergeAt(k, p, d) && InRange(k, p, EndOf(p))
    requires FromBigEndian(EndOf(p)) == FromBigEndian(p) + 1
    ensures FullAfter(p, d)
  {
    hide LexLess, EndOf, FromBigEndian;
    var end := EndOf(p);
    ShortInRange(p, end, k);
    LexShort(k, end);
    CutStep(p, end, |k|);
    SameLengthOrder(k, end[..|k|]);
    assert k == end[..|k|];
    assert end[..d] == k[..d] && end[d] == k[d];
    CarryFull(p, end, d);
  }

  lemma RowHasPrefix(r: Row)
    ensures TablePrefix(r.table) + EncodePk(r.pk) <= EncodeRow(r)
  {
    hide EncodePk, Put64;
  }

  /** The range over a table's prefix holds exactly the keys that begin with it, and so exactly
      that table's rows. */
  lemma TableScanExact(r: Row, table: U64)
    ensures InRange(EncodeRow(r), TablePrefix(table), EndOf(TablePrefix(table))) <==> r.table == table
  {
    hide EncodePk, Put64, LexLess, EndOf;
    var k := EncodeRow(r);
    assert k[..9] == TablePrefix(r.table);
    EndOfIsNext(TablePrefix(table), 0);
    PrefixRange(TablePrefix(table), EndOf(TablePrefix(table)), k);
    Put64Order(r.table, table);
    assert TablePrefix(r.table)[1..] == Put64(r.table) && TablePrefix(table)[1..] == Put64(table);
  }
}
