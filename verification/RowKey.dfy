/** Row keys (internal/engine/sql/key/row.go): table, primary key columns and version as one
    byte string whose byte order is the order of rows, and the end of a prefix range. */
module RowKey {
  import opened Wrappers
  import opened Bytes
  import opened LexOrder

  const ROW_TAG: byte := 1

  datatype Kind = KindUint64 | KindInt64 | KindString | KindBytes

  datatype Value = Uint64(u: U64) | Int64(i: I64) | String(s: Bytes) | Blob(b: Bytes) {
    function Kind(): Kind {
      match this
      case Uint64(_) => KindUint64
      case Int64(_) => KindInt64
      case String(_) => KindString
      case Blob(_) => KindBytes
    }
  }

  datatype KeyError = ErrNoPKColumns | ErrTruncated | ErrBadTag | ErrInvalidKey

  datatype Row = Row(table: U64, pk: seq<Value>, version: U64)

  // ----- encoding -----

  /** uint64(v) ^ (1 << 63). */
  function FlipSign(u: U64): U64 {
    if u < SIGN_BIT then u + SIGN_BIT else u - SIGN_BIT
  }

  /** Two's complement. */
  function AsUint64(v: I64): U64 {
    if v < 0 then v + U64_LIMIT else v
  }

  function AsInt64(u: U64): I64 {
    if u < SIGN_BIT then u else u - U64_LIMIT
  }

  function EncodeColumn(v: Value): Bytes {
    match v
    case Uint64(u) => Put64(u)
    case Int64(i) => Put64(FlipSign(AsUint64(i)))
    case String(s) => s + [0]
    case Blob(b) => b
  }

  function EncodePk(pk: seq<Value>): Bytes {
    if pk == [] then [] else EncodeColumn(pk[0]) + EncodePk(pk[1..])
  }

  function TablePrefix(table: U64): (b: Bytes)
    ensures |b| == 9
  {
    [ROW_TAG] + Put64(table)
  }

  function EncodeRow(r: Row): Bytes {
    TablePrefix(r.table) + EncodePk(r.pk) + Put64(r.version)
  }

  lemma {:induction false} EncodePkSnoc(pk: seq<Value>, v: Value)
    ensures EncodePk(pk + [v]) == EncodePk(pk) + EncodeColumn(v)
  {
    hide EncodeColumn;
    if pk == [] {
      assert pk + [v] == [v];
      assert EncodePk([v]) == EncodeColumn(v) + EncodePk([]);
    } else {
      assert (pk + [v])[1..] == pk[1..] + [v];
      EncodePkSnoc(pk[1..], v);
    }
  }

  /** The buffer loop of EncodeTableRowKey. */
  method EncodeTableRowKey(table: U64, pk: seq<Value>, version: U64) returns (r: Result<Bytes, KeyError>)
    ensures r == if pk == [] then Err(ErrNoPKColumns) else Ok(EncodeRow(Row(table, pk, version)))
  {
    if |pk| == 0 {
      return Err(ErrNoPKColumns);
    }
    hide EncodeColumn, EncodePk;
    var buf := [ROW_TAG] + Put64(table);
    EncodePkNone(buf);
    for i := 0 to |pk|
      invariant buf == TablePrefix(table) + EncodePk(pk[..i])
    {
      EncodePkSnoc(pk[..i], pk[i]);
      assert pk[..i + 1] == pk[..i] + [pk[i]];
      buf := buf + EncodeColumn(pk[i]);
    }
    assert pk[..|pk|] == pk;
    return Ok(buf + Put64(version));
  }

  lemma EncodePkNone(buf: Bytes)
    ensures buf == buf + EncodePk([])
  {}

  // ----- order -----

  predicate Fixed(v: Value) {
    v.Uint64? || v.Int64?
  }

  /** Fixed-width columns and zero-free strings. */
  ghost predicate Ordered(pk: seq<Value>) {
    forall i | 0 <= i < |pk| :: Fixed(pk[i]) || (pk[i].String? && NulFree(pk[i].s))
  }

  ghost predicate SameKinds(p: seq<Value>, q: seq<Value>) {
    |p| == |q| && forall i | 0 <= i < |p| :: p[i].Kind() == q[i].Kind()
  }

  predicate ColumnLess(a: Value, b: Value)
    requires a.Kind() == b.Kind()
  {
    match a
    case Uint64(u) => u < b.u
    case Int64(i) => i < b.i
    case String(s) => LexLess(s, b.s)
    case Blob(x) => LexLess(x, b.b)
  }

  /** Column by column, the first difference deciding. */
  ghost predicate TupleLess(p: seq<Value>, q: seq<Value>)
    requires SameKinds(p, q)
  {
    p != [] && (ColumnLess(p[0], q[0]) || (p[0] == q[0] && TupleLess(p[1..], q[1..])))
  }

  ghost predicate RowLess(a: Row, b: Row)
    requires SameKinds(a.pk, b.pk)
  {
    || a.table < b.table
    || (a.table == b.table && (TupleLess(a.pk, b.pk) || (a.pk == b.pk && a.version < b.version)))
  }

  /** Unequal columns diverge, and the byte there decides as the columns do. */
  lemma ColumnOrder(a: Value, b: Value) returns (i: nat)
    requires a.Kind() == b.Kind() && a != b && Ordered([a]) && Ordered([b])
    ensures DivergeAt(EncodeColumn(a), EncodeColumn(b), i)
    ensures EncodeColumn(a)[i] < EncodeColumn(b)[i] <==> ColumnLess(a, b)
  {
    assert Fixed([a][0]) || NulFree([a][0].s);
    assert Fixed([b][0]) || NulFree([b][0].s);
    if a.String? {
      i := Terminated(a.s, b.s);
    } else {
      hide Put64;
      var x := if a.Uint64? then a.u else FlipSign(AsUint64(a.i));
      var y := if b.Uint64? then b.u else FlipSign(AsUint64(b.i));
      Put64Order(x, y);
      i := FirstDiff(Put64(x), Put64(y));
      LexAt(Put64(x), Put64(y), i);
    }
  }

  lemma {:induction false} PkOrder(p: seq<Value>, q: seq<Value>, x: Bytes, y: Bytes)
    requires SameKinds(p, q) && Ordered(p) && Ordered(q)
    ensures LexLess(EncodePk(p) + x, EncodePk(q) + y) <==> TupleLess(p, q) || (p == q && LexLess(x, y))
  {
    hide EncodeColumn;
    if p == [] {
      assert [] + x == x && [] + y == y;
    } else {
      var a, b := p[0], q[0];
      var rp, rq := EncodePk(p[1..]) + x, EncodePk(q[1..]) + y;
      assert EncodePk(p) + x == EncodeColumn(a) + rp && EncodePk(q) + y == EncodeColumn(b) + rq;
      assert p == [a] + p[1..] && q == [b] + q[1..];
      if a == b {
        LexPrefix(EncodeColumn(a), rp, rq);
        PkOrder(p[1..], q[1..], x, y);
        NotBelowItself(a);
      } else {
        assert p[0].Kind() == q[0].Kind();
        var i := ColumnOrder(a, b);
        LexAppend(EncodeColumn(a), EncodeColumn(b), rp, rq, i);
      }
    }
  }

  lemma NotBelowItself(a: Value)
    ensures !ColumnLess(a, a)
  {
    if a.String? { RankIsLexOrder(a.s, a.s); }
    if a.Blob? { RankIsLexOrder(a.b, a.b); }
  }

  /** Byte order of row keys is the order on (table, primary key, version). */
  lemma RowOrder(a: Row, b: Row)
    requires SameKinds(a.pk, b.pk) && Ordered(a.pk) && Ordered(b.pk)
    ensures LexLess(EncodeRow(a), EncodeRow(b)) <==> RowLess(a, b)
  {
    hide EncodePk, Put64, TupleLess, EncodeColumn;
    var ra, rb := EncodePk(a.pk) + Put64(a.version), EncodePk(b.pk) + Put64(b.version);
    assert EncodeRow(a) == [ROW_TAG] + (Put64(a.table) + ra);
    assert EncodeRow(b) == [ROW_TAG] + (Put64(b.table) + rb);
    LexPrefix([ROW_TAG], Put64(a.table) + ra, Put64(b.table) + rb);
    Put64Order(a.table, b.table);
    if a.table == b.table {
      LexPrefix(Put64(a.table), ra, rb);
      PkOrder(a.pk, b.pk, Put64(a.version), Put64(b.version));
      Put64Order(a.version, b.version);
    } else {
      var i := FirstDiff(Put64(a.table), Put64(b.table));
      LexAt(Put64(a.table), Put64(b.table), i);
      LexAppend(Put64(a.table), Put64(b.table), ra, rb, i);
    }
  }

  // ----- decoding -----

  /** Position of the first zero byte, or the length. */
  function NulAt(b: Bytes): (i: nat)
    ensures i <= |b| && (i < |b| ==> b[i] == 0) && NulFree(b[..i])
  {
    if b == [] || b[0] == 0 then 0
    else
      var i := 1 + NulAt(b[1..]);
      assert b[..i] == [b[0]] + b[1..][..i - 1];
      i
  }

  /** One column from the front of b; last says whether it is the last one. */
  function DecodeColumn(b: Bytes, k: Kind, last: bool): (r: Result<(Value, nat), KeyError>)
    ensures r.Ok? ==> r.value.1 <= |b|
  {
    if b == [] then Err(ErrTruncated)
    else match k
      case KindUint64 => if |b| < 8 then Err(ErrTruncated) else Ok((Uint64(Get64(b[..8])), 8))
      case KindInt64 => if |b| < 8 then Err(ErrTruncated) else Ok((Int64(AsInt64(FlipSign(Get64(b[..8])))), 8))
      case KindString => if NulAt(b) == |b| then Err(ErrTruncated) else Ok((String(b[..NulAt(b)]), NulAt(b) + 1))
      case KindBytes =>
        if !last then Err(ErrInvalidKey)
        else if |b| < 8 then Err(ErrTruncated)
        else Ok((Blob(b[..|b| - 8]), |b| - 8))
  }

  /** The columns and what is left after them. */
  function DecodePk(b: Bytes, kinds: seq<Kind>): Result<(seq<Value>, Bytes), KeyError>
    decreases |kinds|
  {
    if kinds == [] then Ok(([], b))
    else
      match DecodeColumn(b, kinds[0], |kinds| == 1)
      case Err(e) => Err(e)
      case Ok(c) =>
        match DecodePk(b[c.1..], kinds[1..])
        case Err(e) => Err(e)
        case Ok(rest) => Ok(([c.0] + rest.0, rest.1))
  }

  function DecodeRow(b: Bytes, kinds: seq<Kind>): Result<Row, KeyError> {
    if |b| < 9 then Err(ErrTruncated)
    else if b[0] != ROW_TAG then Err(ErrBadTag)
    else
      match DecodePk(b[9..], kinds)
      case Err(e) => Err(e)
      case Ok(p) =>
        if |p.1| != 8 then Err(ErrTruncated) else Ok(Row(Get64(b[1..9]), p.0, Get64(p.1)))
  }

  ghost function Onto(pk: seq<Value>, r: Result<(seq<Value>, Bytes), KeyError>): Result<(seq<Value>, Bytes), KeyError> {
    match r
    case Err(e) => Err(e)
    case Ok(p) => Ok((pk + p.0, p.1))
  }

  lemma DecodePkStep(b: Bytes, pos: nat, kinds: seq<Kind>, i: nat, pk: seq<Value>)
    requires pos <= |b| && i < |kinds|
    ensures match DecodeColumn(b[pos..], kinds[i], i == |kinds| - 1)
      case Err(e) => Onto(pk, DecodePk(b[pos..], kinds[i..])) == Err(e)
      case Ok(c) => Onto(pk, DecodePk(b[pos..], kinds[i..])) == Onto(pk + [c.0], DecodePk(b[pos + c.1..], kinds[i + 1..]))
  {
    hide DecodeColumn;
    var rest := b[pos..];
    match DecodeColumn(rest, kinds[i], i == |kinds| - 1)
    case Err(_) =>
    case Ok(c) =>
      assert rest[c.1..] == b[pos + c.1..] && kinds[i..][1..] == kinds[i + 1..];
      var later := DecodePk(b[pos + c.1..], kinds[i + 1..]);
      if later.Ok? {
        assert pk + ([c.0] + later.value.0) == pk + [c.0] + later.value.0;
      }
  }

  lemma DecodePkEnd(b: Bytes, pk: seq<Value>)
    ensures Onto(pk, DecodePk(b, [])) == Ok((pk, b))
  {
    assert pk + [] == pk;
  }

  lemma OntoNone(r: Result<(seq<Value>, Bytes), KeyError>)
    ensures Onto([], r) == r
  {
    if r.Ok? { assert [] + r.value.0 == r.value.0; }
  }

  method DecodeTableRowKey(b: Bytes, kinds: seq<Kind>) returns (r: Result<Row, KeyError>)
    ensures r == DecodeRow(b, kinds)
  {
    hide DecodePk, Get64;
    if |b| < 9 {
      return Err(ErrTruncated);
    }
    if b[0] != ROW_TAG {
      return Err(ErrBadTag);
    }
    var p := DecodeColumns(b, kinds);
    if p.Err? {
      return Err(p.error);
    }
    var (pk, pos) := p.value;
    if pos + 8 != |b| {
      return Err(ErrTruncated);
    }
    return Ok(Row(Get64(b[1..9]), pk, Get64(b[pos..])));
  }

  /** The loop over the columns, moving pos. */
  method DecodeColumns(b: Bytes, kinds: seq<Kind>) returns (r: Result<(seq<Value>, nat), KeyError>)
    requires |b| >= 9
    ensures r.Err? ==> DecodePk(b[9..], kinds) == Err(r.error)
    ensures r.Ok? ==> r.value.1 <= |b| && DecodePk(b[9..], kinds) == Ok((r.value.0, b[r.value.1..]))
  {
    hide DecodePk, DecodeColumn, Onto;
    var pos, pk := 9, [];
    OntoNone(DecodePk(b[9..], kinds));
    assert kinds[0..] == kinds;
    for i := 0 to |kinds|
      invariant 9 <= pos <= |b|
      invariant DecodePk(b[9..], kinds) == Onto(pk, DecodePk(b[pos..], kinds[i..]))
    {
      DecodePkStep(b, pos, kinds, i, pk);
      var c := ReadColumn(b, pos, kinds[i], i == |kinds| - 1);
      if c.Err? {
        return Err(c.error);
      }
      pk, pos := pk + [c.value.0], pos + c.value.1;
    }
    DecodePkEnd(b[pos..], pk);
    assert kinds[|kinds|..] == [];
    return Ok((pk, pos));
  }

  /** One case of the decoding switch, with its search for the terminator. */
  method ReadColumn(b: Bytes, pos: nat, k: Kind, last: bool) returns (r: Result<(Value, nat), KeyError>)
    requires pos <= |b|
    ensures r == DecodeColumn(b[pos..], k, last)
  {
    var rest := b[pos..];
    if pos >= |b| {
      return Err(ErrTruncated);
    }
    if k == KindString {
      var end := pos;
      while end < |b| && b[end] != 0
        invariant pos <= end <= |b|
        invariant NulAt(rest) == end - pos + NulAt(b[end..])
      {
        assert b[end..][1..] == b[end + 1..];
        end := end + 1;
      }
      if end == |b| {
        return Err(ErrTruncated);
      }
      assert b[pos..end] == rest[..end - pos];
      return Ok((String(b[pos..end]), end - pos + 1));
    }
    return DecodeColumn(rest, k, last);
  }

  // ----- decoding inverts encoding -----

  /** Strings without a zero byte, and a byte column only at the end. */
  ghost predicate Clean(pk: seq<Value>) {
    forall i | 0 <= i < |pk| ::
      match pk[i]
      case String(s) => NulFree(s)
      case Blob(_) => i == |pk| - 1
      case _ => true
  }

  function Kinds(pk: seq<Value>): (ks: seq<Kind>)
    ensures |ks| == |pk|
  {
    seq(|pk|, i requires 0 <= i < |pk| => pk[i].Kind())
  }

  lemma {:induction false} NulAtPrefix(s: Bytes, rest: Bytes)
    ensures NulAt(s + [0] + rest) <= |s|
    ensures NulFree(s) <==> NulAt(s + [0] + rest) == |s|
  {
    if s != [] && s[0] != 0 {
      assert (s + [0] + rest)[1..] == s[1..] + [0] + rest;
      NulAtPrefix(s[1..], rest);
      assert NulFree(s) <==> NulFree(s[1..]) by {
        assert s == [s[0]] + s[1..];
      }
    }
  }

  /** A column in front of at least a version decodes to itself exactly when it is clean. */
  lemma ColumnRoundTrip(v: Value, rest: Bytes, last: bool)
    requires |rest| >= 8 && (last ==> |rest| == 8)
    ensures var r := DecodeColumn(EncodeColumn(v) + rest, v.Kind(), last);
      if (v.String? ==> NulFree(v.s)) && (v.Blob? ==> last)
      then r == Ok((v, |EncodeColumn(v)|)) && (EncodeColumn(v) + rest)[|EncodeColumn(v)|..] == rest
      else r.Ok? ==> r.value.0 != v
  {
    var e := EncodeColumn(v);
    assert (e + rest)[|e|..] == rest;
    match v
    case Uint64(u) =>
      Get64Put64(u);
      assert (e + rest)[..8] == e;
    case Int64(i) =>
      Get64Put64(FlipSign(AsUint64(i)));
      assert (e + rest)[..8] == e;
    case String(s) =>
      NulAtPrefix(s, rest);
      assert (e + rest)[..|s|] == s;
    case Blob(b) =>
      assert (e + rest)[..|b|] == b;
  }

  lemma CleanStep(pk: seq<Value>)
    requires pk != []
    ensures Clean(pk) <==> (pk[0].String? ==> NulFree(pk[0].s)) && (pk[0].Blob? ==> |pk| == 1) && Clean(pk[1..])
    ensures Kinds(pk)[0] == pk[0].Kind() && Kinds(pk)[1..] == Kinds(pk[1..])
  {
    var rest := pk[1..];
    assert forall i | 0 <= i < |rest| :: rest[i] == pk[i + 1];
    assert forall i | 1 <= i < |pk| :: pk[i] == rest[i - 1];
  }

  lemma {:induction false} PkRoundTrip(pk: seq<Value>, version: Bytes)
    requires |version| == 8
    ensures DecodePk(EncodePk(pk) + version, Kinds(pk)) == Ok((pk, version)) <==> Clean(pk)
  {
    if pk == [] {
      assert [] + version == version;
    } else {
      PkRoundTrip(pk[1..], version);
      PkRoundTripStep(pk, version);
    }
  }

  lemma PkRoundTripStep(pk: seq<Value>, version: Bytes)
    requires |version| == 8 && pk != []
    requires DecodePk(EncodePk(pk[1..]) + version, Kinds(pk[1..])) == Ok((pk[1..], version)) <==> Clean(pk[1..])
    ensures DecodePk(EncodePk(pk) + version, Kinds(pk)) == Ok((pk, version)) <==> Clean(pk)
  {
    hide Clean, DecodeColumn, EncodeColumn, NulFree, EncodePk, DecodePk;
    CleanStep(pk);
    EncodePkFirst(pk, version);
    var rest := EncodePk(pk[1..]) + version;
    EncodePkLast(pk, version);
    ColumnRoundTrip(pk[0], rest, |pk| == 1);
    DecodePkFirst(EncodeColumn(pk[0]) + rest, Kinds(pk), pk);
  }

  lemma EncodePkFirst(pk: seq<Value>, version: Bytes)
    requires pk != []
    ensures EncodePk(pk) + version == EncodeColumn(pk[0]) + (EncodePk(pk[1..]) + version)
  {
    hide EncodeColumn;
  }

  lemma EncodePkLast(pk: seq<Value>, version: Bytes)
    requires pk != []
    ensures |pk| == 1 ==> EncodePk(pk[1..]) + version == version
  {}

  /** The first column is right and the rest is, or the whole is not. */
  lemma DecodePkFirst(b: Bytes, kinds: seq<Kind>, pk: seq<Value>)
    requires kinds != [] && pk != []
    ensures var r := DecodeColumn(b, kinds[0], |kinds| == 1);
      && (r.Err? ==> DecodePk(b, kinds).Err?)
      && (r.Ok? && r.value.0 != pk[0] ==> DecodePk(b, kinds).Ok? ==> DecodePk(b, kinds).value.0 != pk)
      && (r.Ok? && r.value.0 == pk[0] ==>
          forall rest :: DecodePk(b, kinds) == Ok((pk, rest)) <==> DecodePk(b[r.value.1..], kinds[1..]) == Ok((pk[1..], rest)))
  {
    hide DecodeColumn;
    assert pk == [pk[0]] + pk[1..];
    var r := DecodeColumn(b, kinds[0], |kinds| == 1);
    if r.Ok? {
      var later := DecodePk(b[r.value.1..], kinds[1..]);
      if later.Ok? {
        var whole := [r.value.0] + later.value.0;
        assert whole[0] == r.value.0 && whole[1..] == later.value.0;
      }
    }
  }

  /** Decoding inverts encoding exactly for clean primary keys. */
  lemma RowRoundTripIff(r: Row)
    ensures DecodeRow(EncodeRow(r), Kinds(r.pk)) == Ok(r) <==> Clean(r.pk)
  {
    EncodeRowParts(r);
    PkRoundTrip(r.pk, Put64(r.version));
    Get64Put64(r.version);
    hide EncodePk, DecodePk, Clean, Put64, Get64, EncodeRow, Kinds;
    var p := DecodePk(EncodePk(r.pk) + Put64(r.version), Kinds(r.pk));
    if p.Ok? && |p.value.1| == 8 && Get64(p.value.1) == r.version {
      Get64Injective(p.value.1, Put64(r.version));
    }
  }

  /** A string that is one zero byte does not come back. */
  lemma ZeroByteIsLost(table: U64, version: U64)
    ensures DecodeRow(EncodeRow(Row(table, [String([0])], version)), [KindString]) != Ok(Row(table, [String([0])], version))
  {
    var r := Row(table, [String([0])], version);
    hide DecodeRow, EncodeRow;
    assert Kinds(r.pk) == [KindString];
    assert !Clean(r.pk) by { assert r.pk[0].s[0] == 0; }
    RowRoundTripIff(r);
  }

  lemma EncodeRowParts(r: Row)
    ensures |EncodeRow(r)| >= 9 && EncodeRow(r)[0] == ROW_TAG && Get64(EncodeRow(r)[1..9]) == r.table
    ensures EncodeRow(r)[9..] == EncodePk(r.pk) + Put64(r.version)
  {
    Get64Put64(r.table);
    hide EncodePk, Put64, Get64;
    var b := EncodeRow(r);
    assert b[1..9] == Put64(r.table);
  }

  lemma Get64Injective(a: Bytes, b: Bytes)
    requires |a| == 8 && |b| == 8 && Get64(a) == Get64(b)
    ensures a == b
  {
    SameLengthOrder(a, b);
  }

  // ----- encoding inverts decoding -----

  /** A decoded column is clean and spells the bytes it was read from. */
  lemma ColumnDecoded(b: Bytes, k: Kind, last: bool)
    requires DecodeColumn(b, k, last).Ok?
    ensures var (v, n) := DecodeColumn(b, k, last).value;
      && v.Kind() == k && (v.String? ==> NulFree(v.s)) && (v.Blob? ==> last)
      && EncodeColumn(v) + b[n..] == b
  {
    match k
    case KindUint64 => Put64Get64(b[..8]);
    case KindInt64 => Put64Get64(b[..8]);
    case KindString => assert b[..NulAt(b) + 1] == b[..NulAt(b)] + [0];
    case KindBytes =>
  }

  lemma {:induction false} PkDecoded(b: Bytes, kinds: seq<Kind>)
    requires DecodePk(b, kinds).Ok?
    ensures var (pk, rest) := DecodePk(b, kinds).value;
      Kinds(pk) == kinds && Clean(pk) && EncodePk(pk) + rest == b
    decreases |kinds|
  {
    hide DecodeColumn, EncodeColumn, Clean, Kinds, EncodePk;
    if kinds == [] {
      NoColumns(b);
    } else {
      ColumnDecoded(b, kinds[0], |kinds| == 1);
      var (v, n) := DecodeColumn(b, kinds[0], |kinds| == 1).value;
      PkDecoded(b[n..], kinds[1..]);
      var (pk, rest) := DecodePk(b, kinds).value;
      assert pk[0] == v && pk[1..] == DecodePk(b[n..], kinds[1..]).value.0;
      hide DecodePk;
      CleanStep(pk);
      EncodePkFirst(pk, rest);
      assert Kinds(pk) == [kinds[0]] + kinds[1..];
    }
  }

  lemma NoColumns(b: Bytes)
    ensures Kinds([]) == [] && Clean([]) && EncodePk([]) + b == b
  {}

  /** A key that decodes is the key of the row it decodes to, and that row is clean. */
  lemma RowDecoded(b: Bytes, kinds: seq<Kind>)
    requires DecodeRow(b, kinds).Ok?
    ensures var r := DecodeRow(b, kinds).value;
      EncodeRow(r) == b && Kinds(r.pk) == kinds && Clean(r.pk)
  {
    hide DecodePk, EncodePk, Put64, Get64, Clean, Kinds;
    PkDecoded(b[9..], kinds);
    var p := DecodePk(b[9..], kinds).value;
    Put64Get64(b[1..9]);
    Put64Get64(p.1);
    JoinKey(b, EncodePk(p.0), p.1);
  }

  /** The first columns read, and a byte column that is not the last stands where bytes are left. */
  ghost predicate BytesTooEarly(b: Bytes, kinds: seq<Kind>, pk: seq<Value>) {
    && |pk| + 1 < |kinds| && Kinds(pk) == kinds[..|pk|] && Ordered(pk) && kinds[|pk|] == KindBytes
    && |EncodePk(pk)| < |b| && b[..|EncodePk(pk)|] == EncodePk(pk)
  }

  lemma ColumnReads(v: Value, rest: Bytes, last: bool)
    requires Ordered([v])
    ensures DecodeColumn(EncodeColumn(v) + rest, v.Kind(), last) == Ok((v, |EncodeColumn(v)|))
  {
    assert Fixed([v][0]) || ([v][0].String? && NulFree([v][0].s));
    var b := EncodeColumn(v) + rest;
    match v
    case Uint64(u) =>
      assert b[..8] == Put64(u);
      Get64Put64(u);
    case Int64(i) =>
      assert b[..8] == Put64(FlipSign(AsUint64(i)));
      Get64Put64(FlipSign(AsUint64(i)));
    case String(s) =>
      NulAtPrefix(s, rest);
      assert b[..|s|] == s;
  }

  lemma {:induction false} PkTooEarly(b: Bytes, kinds: seq<Kind>, pk: seq<Value>)
    requires BytesTooEarly(b, kinds, pk)
    ensures DecodePk(b, kinds) == Err(ErrInvalidKey)
    decreases |pk|
  {
    hide EncodeColumn, DecodeColumn;
    if pk == [] {
      MisplacedBytes(b);
    } else {
      var v, rest := pk[0], b[|EncodeColumn(pk[0])|..];
      var whole := EncodePk(pk);
      assert whole[..|EncodeColumn(v)|] == EncodeColumn(v) && whole[|EncodeColumn(v)|..] == EncodePk(pk[1..]);
      assert b == EncodeColumn(v) + rest;
      assert Kinds(pk)[0] == v.Kind() && Kinds(pk)[1..] == Kinds(pk[1..]);
      ColumnReads(v, rest, |kinds| == 1);
      PkTooEarly(rest, kinds[1..], pk[1..]);
    }
  }

  lemma MisplacedBytes(b: Bytes)
    requires b != []
    ensures DecodeColumn(b, KindBytes, false) == Err(ErrInvalidKey)
  {}

  lemma ColumnError(b: Bytes, k: Kind, last: bool)
    requires DecodeColumn(b, k, last).Err?
    ensures DecodeColumn(b, k, last).error == (if b != [] && k == KindBytes && !last then ErrInvalidKey else ErrTruncated)
  {}

  lemma {:induction false} PkError(b: Bytes, kinds: seq<Kind>) returns (pk: seq<Value>)
    requires DecodePk(b, kinds).Err?
    ensures DecodePk(b, kinds).error == ErrTruncated || (DecodePk(b, kinds).error == ErrInvalidKey && BytesTooEarly(b, kinds, pk))
    decreases |kinds|
  {
    hide EncodeColumn, DecodeColumn;
    pk := [];
    var first := DecodeColumn(b, kinds[0], |kinds| == 1);
    if first.Err? {
      ColumnError(b, kinds[0], |kinds| == 1);
    } else {
      var (v, n) := first.value;
      ColumnDecoded(b, kinds[0], |kinds| == 1);
      var rest := PkError(b[n..], kinds[1..]);
      pk := [v] + rest;
      assert pk[1..] == rest;
      if BytesTooEarly(b[n..], kinds[1..], rest) { TooEarlyStep(b, kinds, v, n, rest); }
    }
  }

  lemma TooEarlyStep(b: Bytes, kinds: seq<Kind>, v: Value, n: nat, rest: seq<Value>)
    requires kinds != [] && n <= |b| && v.Kind() == kinds[0] && (v.String? ==> NulFree(v.s)) && (v.Blob? ==> |kinds| == 1)
    requires EncodeColumn(v) + b[n..] == b && BytesTooEarly(b[n..], kinds[1..], rest)
    ensures BytesTooEarly(b, kinds, [v] + rest)
  {
    hide EncodeColumn;
    var pk := [v] + rest;
    assert pk[1..] == rest && EncodePk(pk) == EncodeColumn(v) + EncodePk(rest);
    assert Kinds(pk) == [v.Kind()] + Kinds(rest);
    assert |EncodeColumn(v)| == n;
    assert b[..|EncodePk(pk)|] == EncodeColumn(v) + b[n..][..|EncodePk(rest)|];
  }

  /** Which error a key that does not decode gives: a bad tag, a byte column before the last one with
      bytes left for it, and ErrTruncated for everything else. */
  lemma KeyErrors(b: Bytes, kinds: seq<Kind>)
    ensures var r := DecodeRow(b, kinds);
      && (r == Err(ErrBadTag) <==> |b| >= 9 && b[0] != 1)
      && (r == Err(ErrInvalidKey) <==> |b| >= 9 && b[0] == 1 && exists pk :: BytesTooEarly(b[9..], kinds, pk))
      && r != Err(ErrNoPKColumns)
  {
    hide BytesTooEarly, DecodePk;
    if |b| >= 9 {
      if DecodePk(b[9..], kinds).Err? { var pk := PkError(b[9..], kinds); }
      forall pk | BytesTooEarly(b[9..], kinds, pk) ensures DecodePk(b[9..], kinds) == Err(ErrInvalidKey) {
        PkTooEarly(b[9..], kinds, pk);
      }
    }
  }

  lemma JoinKey(b: Bytes, pk: Bytes, version: Bytes)
    requires |b| >= 9 && pk + version == b[9..]
    ensures [b[0]] + b[1..9] + pk + version == b
  {
    assert [b[0]] + b[1..9] + pk + version == [b[0]] + b[1..9] + (pk + version);
  }

  // ----- prefix ranges -----

  /** p plus one, as a number of the same length. */
  function EndOf(p: Bytes): (end: Bytes)
    ensures |end| == |p|
  {
    BigEndian(FromBigEndian(p) + 1, |p|)
  }

  lemma {:induction false} RoomAbove(p: Bytes, i: nat)
    requires i < |p| && p[i] != 0xFF
    ensures FromBigEndian(p) + 1 < Pow256(|p|)
  {
    var n := |p| - 1;
    FromBigEndianBound(p[..n]);
    if i < n { RoomAbove(p[..n], i); }
  }

  lemma EndOfIsNext(p: Bytes, i: nat)
    requires i < |p| && p[i] != 0xFF
    ensures FromBigEndian(EndOf(p)) == FromBigEndian(p) + 1
  {
    RoomAbove(p, i);
    BigEndianRoundTrip(FromBigEndian(p) + 1, |p|);
  }

  /** PrefixEnd: add one to the last byte and carry over trailing 0xFF. */
  method PrefixEnd(p: Bytes) returns (end: Bytes)
    ensures end == [] <==> forall i | 0 <= i < |p| :: p[i] == 0xFF
    ensures end != [] ==> |end| == |p| && FromBigEndian(end) == FromBigEndian(p) + 1
    ensures end != [] ==> end == EndOf(p)
  {
    if |p| == 0 {
      return [];
    }
    var allFF := true;
    for i := 0 to |p|
      invariant allFF && forall j | 0 <= j < i :: p[j] == 0xFF
    {
      if p[i] != 0xFF {
        allFF := false;
        break;
      }
    }
    if allFF {
      return [];
    }
    end := p;
    var i := |p| - 1;
    while end[i] == 0xFF
      invariant 0 <= i < |p| == |end| && end[..i + 1] == p[..i + 1]
      invariant forall j | i < j < |p| :: p[j] == 0xFF && end[j] == 0
      decreases i
    {
      assert exists j :: 0 <= j < |p| && p[j] != 0xFF;
      assert p[i] == p[..i + 1][i] == end[..i + 1][i] == 0xFF;
      end := end[i := 0];
      i := i - 1;
      assert end[..i + 1] == p[..i + 1];
    }
    assert p[i] == p[..i + 1][i] == end[..i + 1][i] == end[i];
    end := end[i := end[i] + 1];
    assert end[..i] == p[..i];
    CarryAddsOne(p, end, i);
    EndOfIsNext(p, i);
    SameLengthOrder(end, EndOf(p));
  }

  lemma {:induction false} CarryAddsOne(p: Bytes, end: Bytes, i: nat)
    requires i < |p| == |end| && end[..i] == p[..i] && end[i] > 0 && end[i] - 1 == p[i]
    requires forall j | i < j < |p| :: p[j] == 0xFF && end[j] == 0
    ensures FromBigEndian(end) == FromBigEndian(p) + 1
    decreases |p|
  {
    var n := |p| - 1;
    if i < n {
      assert end[..n][..i] == end[..i] && p[..n][..i] == p[..i];
      CarryAddsOne(p[..n], end[..n], i);
    }
  }

  ghost predicate InRange(k: Bytes, p: Bytes, end: Bytes) {
    !LexLess(k, p) && LexLess(k, end)
  }

  lemma LexTake(k: Bytes, p: Bytes)
    requires |k| >= |p|
    ensures LexLess(k, p) <==> LexLess(k[..|p|], p)
  {
    var a := k[..|p|];
    assert k == a + k[|p|..] && p + [] == p && a + [] == a;
    if a == p {
      LexPrefix(p, k[|p|..], []);
      LexPrefix(p, [], []);
    } else {
      var i := FirstDiff(a, p);
      LexAppend(a, p, k[|p|..], [], i);
      LexAt(a, p, i);
    }
  }

  /** The range [p, PrefixEnd(p)) holds exactly the keys with prefix p, among keys at least as
      long as p. */
  lemma PrefixRange(p: Bytes, end: Bytes, k: Bytes)
    requires |end| == |p| <= |k| && FromBigEndian(end) == FromBigEndian(p) + 1
    ensures InRange(k, p, end) <==> p <= k
  {
    var a := k[..|p|];
    LexTake(k, p);
    LexTake(k, end);
    SameLengthOrder(a, p);
    SameLengthOrder(a, end);
  }

  ghost predicate PrefixExact(p: Bytes, end: Bytes) {
    forall k: Bytes :: InRange(k, p, end) <==> p <= k
  }

  /** Among all keys, shorter ones included, the range is exact just when p does not end in
      0xFF: a carry leaves a trailing zero, below which a shorter key slips in. */
  lemma PrefixExactIff(p: Bytes, end: Bytes)
    requires 0 < |p| == |end| && FromBigEndian(end) == FromBigEndian(p) + 1
    ensures PrefixExact(p, end) <==> p[|p| - 1] != 0xFF
  {
    var n := |p| - 1;
    LastSplit(end);
    LastSplit(p);
    LastDigit(end);
    LastDigit(p);
    if p[n] == 0xFF {
      SlipsIn(p, end);
      assert InRange(end[..n], p, end) && !(p <= end[..n]);
    } else {
      SameLengthOrder(end[..n], p[..n]);
      forall k: Bytes ensures InRange(k, p, end) <==> p <= k {
        if |k| >= |p| {
          PrefixRange(p, end, k);
        } else {
          ShortOutside(k, p[..n], p[n], end[n]);
        }
      }
    }
  }

  /** The key [1] is in the range of the prefix [0, 0xFF]. */
  lemma PrefixNotExact()
    ensures InRange([1], [0, 0xFF], [1, 0]) && !([0, 0xFF] <= [1])
  {
    SlipsIn([0, 0xFF], [1, 0]);
  }

  lemma LastSplit(b: Bytes)
    requires b != []
    ensures b == b[..|b| - 1] + [b[|b| - 1]]
  {}

  lemma LastDigit(b: Bytes)
    requires b != []
    ensures FromBigEndian(b) == 256 * FromBigEndian(b[..|b| - 1]) + b[|b| - 1]
  {}

  /** After a carry, the end without its last byte is in range but shorter than the prefix. */
  lemma SlipsIn(p: Bytes, end: Bytes)
    requires 0 < |p| == |end| && FromBigEndian(end) == FromBigEndian(p) + 1 && p[|p| - 1] == 0xFF
    ensures InRange(end[..|p| - 1], p, end)
  {
    var n := |p| - 1;
    LastSplit(end);
    LastSplit(p);
    LastDigit(end);
    LastDigit(p);
    hide FromBigEndian, LexLess;
    var k, q := end[..n], p[..n];
    SameLengthOrder(q, k);
    var i := FirstDiff(q, k);
    LexAt(q, k, i);
    LexAppend(k, q, [], [p[n]], i);
    assert k + [] == k;
    LexPrefix(k, [], [end[n]]);
    assert LexLess([], [end[n]]) by { LexEmpty([end[n]]); }
  }

  lemma LexEmpty(b: Bytes)
    requires b != []
    ensures LexLess([], b)
  {}

  /** A key no longer than the common part is below both bounds or above both. */
  lemma {:induction false} ShortOutside(k: Bytes, common: Bytes, x: byte, y: byte)
    requires |k| <= |common|
    ensures LexLess(k, common + [x]) <==> LexLess(k, common + [y])
  {
    if k != [] {
      assert (common + [x])[1..] == common[1..] + [x] && (common + [y])[1..] == common[1..] + [y];
      ShortOutside(k[1..], common[1..], x, y);
    }
  }
}
