/** Row values (internal/engine/sql/heap/encode.go, and the storage composite of
    internal/engine/sql/key/key.go): a flag, a bitmask of NULL columns and the other columns as
    length-prefixed fields. */
module RowValue {
  import opened Wrappers
  import opened Bytes
  import opened Bits
  import opened LexOrder
  import opened RowKey

  const FLAG_NORMAL: byte := 0
  const FLAG_TOMBSTONE: byte := 1

  /** A column value, possibly NULL. */
  datatype Datum = Null | Of(v: Value)
  type Values = seq<Datum>

  /** What is stored for one version of a row. */
  datatype Cell = Live(values: Values) | Tombstone

  datatype HeapError =
    | ErrColumnCountMismatch | ErrNullNotSupported | ErrTypeMismatch | ErrNullByteInString | ErrInvalidTx
    | ErrTxConflict | ErrDuplicateKey | ErrKeyNotFound | ErrPrimaryKeyUpdate
    | ErrKeyTooLarge | ErrValueTooLarge | ErrCorruptValue

  // ----- the bitmask of NULL columns -----

  function MaskLen(columns: nat): nat {
    (columns + 7) / 8
  }

  predicate NullAt(values: Values, c: nat) {
    c < |values| && values[c].Null?
  }

  /** Byte j of the mask of the first n columns, its bits most significant first. */
  function MaskBits(values: Values, n: nat, j: nat): (b: Bits)
    ensures |b| == 8
  {
    seq(8, x requires 0 <= x < 8 => var c := 8 * j + 7 - x; c < n && NullAt(values, c))
  }

  /** The mask when only the first n columns have been marked. */
  function MaskUpTo(values: Values, n: nat): (m: Bytes)
    ensures |m| == MaskLen(|values|)
  {
    seq(MaskLen(|values|), j requires 0 <= j < MaskLen(|values|) => ByteOf(MaskBits(values, n, j)))
  }

  function Bitmask(values: Values): (m: Bytes)
    ensures |m| == MaskLen(|values|)
  {
    MaskUpTo(values, |values|)
  }

  /** bitmask[c / 8] & (1 << (c % 8)) != 0. */
  predicate Marked(mask: Bytes, c: nat)
    requires c / 8 < |mask|
  {
    BitAt(mask[c / 8], c % 8)
  }

  lemma ColumnInMask(columns: nat, c: nat)
    requires c < columns
    ensures c / 8 < MaskLen(columns)
  {}

  lemma MaskMarks(values: Values, c: nat)
    requires c < |values|
    ensures c / 8 < |Bitmask(values)| && (Marked(Bitmask(values), c) <==> values[c].Null?)
  {
    hide BitsOf, ByteOf;
    ColumnInMask(|values|, c);
    var bits := MaskBits(values, |values|, c / 8);
    ByteBits(bits);
    assert Bitmask(values)[c / 8] == ByteOf(bits);
    assert 8 * (c / 8) + 7 - (7 - c % 8) == c;
    assert bits[7 - c % 8] == NullAt(values, c);
  }

  lemma MaskStart(values: Values)
    ensures MaskUpTo(values, 0) == Zeros(MaskLen(|values|))
  {
    hide BitsOf;
    forall j | 0 <= j < MaskLen(|values|) ensures MaskUpTo(values, 0)[j] == 0 {
      NoBits(8);
      assert MaskBits(values, 0, j) == BitsOf(0, 8);
      ByteOfBits(0);
    }
  }

  lemma MaskStep(values: Values, n: nat)
    requires n < |values|
    ensures n / 8 < MaskLen(|values|)
    ensures MaskUpTo(values, n + 1)
         == if values[n].Null? then MaskUpTo(values, n)[n / 8 := SetBit(MaskUpTo(values, n)[n / 8], n % 8)]
            else MaskUpTo(values, n)
  {
    ColumnInMask(|values|, n);
    hide BitsOf, ByteOf;
    var a, b := MaskUpTo(values, n), MaskUpTo(values, n + 1);
    forall j | 0 <= j < |a| ensures b[j] == if j == n / 8 && values[n].Null? then SetBit(a[j], n % 8) else a[j] {
      var x, y := MaskBits(values, n, j), MaskBits(values, n + 1, j);
      ByteBits(x);
      if j == n / 8 && values[n].Null? {
        assert y == x[7 - n % 8 := true] by { BitMoves(values, n); }
      } else {
        assert y == x by { BitStays(values, n, j); }
      }
    }
  }

  lemma BitMoves(values: Values, n: nat)
    requires NullAt(values, n)
    ensures MaskBits(values, n + 1, n / 8) == MaskBits(values, n, n / 8)[7 - n % 8 := true]
  {
    var a, b := MaskBits(values, n, n / 8), MaskBits(values, n + 1, n / 8);
    forall x | 0 <= x < 8 ensures b[x] == a[7 - n % 8 := true][x] {
      assert 8 * (n / 8) + 7 - x == n <==> x == 7 - n % 8;
    }
  }

  lemma BitStays(values: Values, n: nat, j: nat)
    requires j != n / 8 || !NullAt(values, n)
    ensures MaskBits(values, n + 1, j) == MaskBits(values, n, j)
  {
    forall x | 0 <= x < 8 ensures MaskBits(values, n + 1, j)[x] == MaskBits(values, n, j)[x] {
      assert 8 * j + 7 - x == n ==> j == n / 8;
    }
  }

  // ----- fields -----

  function FieldBytes(v: Value): Bytes {
    match v
    case Uint64(u) => Put64(u)
    case Int64(i) => Put64(FlipSign(AsUint64(i)))
    case String(s) => s
    case Blob(b) => b
  }

  /** A length of four bytes, and the field. */
  function EncodeField(v: Value): Bytes {
    Put32(|FieldBytes(v)| % 0x1_0000_0000) + FieldBytes(v)
  }

  /** EncodeStorageComposite. */
  function Composite(vs: seq<Value>): Bytes {
    if vs == [] then [] else EncodeField(vs[0]) + Composite(vs[1..])
  }

  /** The columns that are not NULL, in order. */
  function Primitives(values: Values): seq<Value> {
    if values == [] then []
    else
      var n := |values| - 1;
      Primitives(values[..n]) + if values[n].Null? then [] else [values[n].v]
  }

  function RowBytes(flag: byte, values: Values): Bytes {
    [flag] + Bitmask(values) + Composite(Primitives(values))
  }

  function AllNull(columns: nat): (values: Values)
    ensures |values| == columns
  {
    seq(columns, i => Null)
  }

  /** What is stored for a cell. */
  function CellBytes(columns: nat, c: Cell): Bytes {
    match c
    case Live(values) => RowBytes(FLAG_NORMAL, values)
    case Tombstone => RowBytes(FLAG_TOMBSTONE, AllNull(columns))
  }

  predicate ColumnFits(k: Kind, d: Datum) {
    d.Null? || d.v.Kind() == k
  }

  predicate RowFits(kinds: seq<Kind>, values: Values) {
    |values| == |kinds| && forall i | 0 <= i < |values| :: ColumnFits(kinds[i], values[i])
  }

  /** A string with a zero byte. */
  predicate HasNul(v: Value) {
    v.String? && 0 in v.s
  }

  /** encodeEnterpriseValue: types are checked before zero bytes in strings. */
  function EncodeValues(kinds: seq<Kind>, flag: byte, values: Values): Result<Bytes, HeapError> {
    if |values| != |kinds| then Err(ErrColumnCountMismatch)
    else if !RowFits(kinds, values) then Err(ErrTypeMismatch)
    else if exists i :: 0 <= i < |values| && values[i].Of? && HasNul(values[i].v) then Err(ErrNullByteInString)
    else Ok(RowBytes(flag, values))
  }

  // ----- reading fields -----

  /** validateField: a number takes eight bytes. */
  function DecodeField(k: Kind, b: Bytes): Option<Value> {
    match k
    case KindUint64 => if |b| != 8 then None else Some(Uint64(Get64(b)))
    case KindInt64 => if |b| != 8 then None else Some(Int64(AsInt64(FlipSign(Get64(b)))))
    case KindString => Some(String(b))
    case KindBytes => Some(Blob(b))
  }

  /** One field from the front, and how many bytes it took. */
  function TakeField(k: Kind, b: Bytes): (r: Option<(Value, nat)>)
    ensures r.Some? ==> r.value.1 <= |b|
  {
    if |b| < 4 || |b| - 4 < Get32(b[..4]) then None
    else
      var n := Get32(b[..4]);
      match DecodeField(k, b[4..4 + n])
      case None => None
      case Some(v) => Some((v, 4 + n))
  }

  /** ParseStorageCompositeKey and DecodeStorageComposite: one field per kind and nothing after. */
  function ParseFields(ks: seq<Kind>, b: Bytes): Option<seq<Value>>
    decreases |ks|
  {
    if ks == [] then if b == [] then Some([]) else None
    else
      match TakeField(ks[0], b)
      case None => None
      case Some(f) =>
        match ParseFields(ks[1..], b[f.1..])
        case None => None
        case Some(rest) => Some([f.0] + rest)
  }

  /** The kinds of the first n columns that are not marked. */
  function Unmarked(kinds: seq<Kind>, mask: Bytes, n: nat): (ks: seq<Kind>)
    requires n <= |kinds| && |mask| == MaskLen(|kinds|)
    ensures |ks| <= n
  {
    if n == 0 then []
    else
      ColumnInMask(|kinds|, n - 1);
      Unmarked(kinds, mask, n - 1) + if Marked(mask, n - 1) then [] else [kinds[n - 1]]
  }

  /** The first n columns: NULL where marked, else the next field. */
  function Merged(kinds: seq<Kind>, mask: Bytes, vs: seq<Value>, n: nat): (r: Option<Values>)
    requires n <= |kinds| && |mask| == MaskLen(|kinds|)
    ensures r.Some? ==> |r.value| == n
  {
    if n == 0 then Some([])
    else
      match Merged(kinds, mask, vs, n - 1)
      case None => None
      case Some(values) =>
        ColumnInMask(|kinds|, n - 1);
        var next := |Unmarked(kinds, mask, n - 1)|;
        if Marked(mask, n - 1) then Some(values + [Null])
        else if next < |vs| then Some(values + [Of(vs[next])])
        else None
  }

  /** decodeEnterpriseValue: a tombstone ends at its mask, and fields are parsed only if some column
      and some bytes are there for them. */
  function DecodeCell(kinds: seq<Kind>, data: Bytes): Option<Cell> {
    var n := MaskLen(|kinds|);
    if |data| < 1 || data[0] > FLAG_TOMBSTONE || |data| < 1 + n then None
    else if data[0] == FLAG_TOMBSTONE then Some(Tombstone)
    else
      var mask, payload := data[1..1 + n], data[1 + n..];
      var ks := Unmarked(kinds, mask, |kinds|);
      match if payload != [] && ks != [] then ParseFields(ks, payload) else Some([])
      case None => None
      case Some(vs) =>
        match Merged(kinds, mask, vs, |kinds|)
        case None => None
        case Some(values) => Some(Live(values))
  }

  // ----- decoding inverts encoding -----

  ghost predicate Short(vs: seq<Value>) {
    forall i | 0 <= i < |vs| :: |FieldBytes(vs[i])| < 0x1_0000_0000
  }

  lemma FieldDecodes(v: Value)
    ensures DecodeField(v.Kind(), FieldBytes(v)) == Some(v)
  {
    if v.Uint64? { Get64Put64(v.u); }
    if v.Int64? { Get64Put64(FlipSign(AsUint64(v.i))); }
  }

  lemma FieldRoundTrip(v: Value, rest: Bytes)
    requires |FieldBytes(v)| < 0x1_0000_0000
    ensures TakeField(v.Kind(), EncodeField(v) + rest) == Some((v, |EncodeField(v)|))
    ensures (EncodeField(v) + rest)[|EncodeField(v)|..] == rest
  {
    hide Put32, Get32, DecodeField, FieldBytes;
    var f := FieldBytes(v);
    Get32Put32(|f|);
    FieldDecodes(v);
    var b := EncodeField(v) + rest;
    assert b[..4] == Put32(|f|) && b[4..4 + |f|] == f;
  }

  lemma {:induction false} FieldsRoundTrip(vs: seq<Value>)
    requires Short(vs)
    ensures ParseFields(Kinds(vs), Composite(vs)) == Some(vs)
  {
    hide EncodeField, TakeField, FieldBytes;
    if vs != [] {
      FieldRoundTrip(vs[0], Composite(vs[1..]));
      FieldsRoundTrip(vs[1..]);
      assert Kinds(vs)[1..] == Kinds(vs[1..]) && vs == [vs[0]] + vs[1..];
    }
  }

  lemma PrimitivesSnoc(values: Values, n: nat)
    requires n < |values|
    ensures Primitives(values[..n + 1]) == Primitives(values[..n]) + if values[n].Null? then [] else [values[n].v]
  {
    assert values[..n + 1][..n] == values[..n];
  }

  /** The mask marks exactly the NULL columns; bits past the last column are free. */
  ghost predicate Marks(mask: Bytes, values: Values) {
    |mask| == MaskLen(|values|) && forall c | 0 <= c < |values| :: ColumnMarked(mask, c) <==> values[c].Null?
  }

  predicate ColumnMarked(mask: Bytes, c: nat) {
    c / 8 < |mask| && Marked(mask, c)
  }

  lemma BitmaskMarks(values: Values)
    ensures Marks(Bitmask(values), values)
  {
    hide Bitmask, Marked;
    forall c | 0 <= c < |values| ensures ColumnMarked(Bitmask(values), c) <==> values[c].Null? {
      MaskMarks(values, c);
    }
  }

  lemma {:induction false} MaskKinds(kinds: seq<Kind>, mask: Bytes, values: Values, n: nat)
    requires RowFits(kinds, values) && Marks(mask, values) && n <= |kinds|
    ensures Unmarked(kinds, mask, n) == Kinds(Primitives(values[..n]))
  {
    hide Marked, Primitives;
    if n == 0 {
      PrimitivesNone(values);
    } else {
      MaskKinds(kinds, mask, values, n - 1);
      ColumnInMask(|kinds|, n - 1);
      assert ColumnMarked(mask, n - 1) <==> values[n - 1].Null?;
      PrimitivesSnoc(values, n - 1);
      assert ColumnFits(kinds[n - 1], values[n - 1]);
    }
  }

  lemma PrimitivesNone(values: Values)
    ensures Primitives(values[..0]) == []
  {}

  lemma {:induction false} MergeBack(kinds: seq<Kind>, mask: Bytes, values: Values, n: nat)
    requires RowFits(kinds, values) && Marks(mask, values) && n <= |kinds|
    ensures Merged(kinds, mask, Primitives(values), n) == Some(values[..n])
  {
    hide Marked, Unmarked, Primitives;
    if n > 0 {
      hide Merged;
      MergeBack(kinds, mask, values, n - 1);
      ColumnInMask(|kinds|, n - 1);
      assert ColumnMarked(mask, n - 1) <==> values[n - 1].Null?;
      MaskKinds(kinds, mask, values, n - 1);
      NextPrimitive(values, n - 1);
      MergedStep(kinds, mask, Primitives(values), n, values[..n - 1], values[n - 1]);
      assert values[..n] == values[..n - 1] + [values[n - 1]];
    }
  }

  lemma MergedStep(kinds: seq<Kind>, mask: Bytes, vs: seq<Value>, n: nat, before: Values, v: Datum)
    requires 0 < n <= |kinds| && |mask| == MaskLen(|kinds|) && (n - 1) / 8 < |mask|
    requires Merged(kinds, mask, vs, n - 1) == Some(before) && (Marked(mask, n - 1) <==> v.Null?)
    requires var next := |Unmarked(kinds, mask, n - 1)|; v.Of? ==> next < |vs| && vs[next] == v.v
    ensures Merged(kinds, mask, vs, n) == Some(before + [v])
  {
    hide Marked, Unmarked;
  }

  /** The next field is that of the next column that is not NULL. */
  lemma NextPrimitive(values: Values, n: nat)
    requires n < |values|
    ensures var so := |Primitives(values[..n])|;
      values[n].Of? ==> so < |Primitives(values)| && Primitives(values)[so] == values[n].v
  {
    PrimitivesPrefix(values, n + 1);
    PrimitivesSnoc(values, n);
    hide Primitives;
    var so := Primitives(values[..n]);
    if values[n].Of? {
      assert Primitives(values)[|so|] == Primitives(values[..n + 1])[|so|];
    }
  }

  lemma {:induction false} PrimitivesPrefix(values: Values, n: nat)
    requires n <= |values|
    ensures Primitives(values[..n]) <= Primitives(values)
    decreases |values| - n
  {
    if n == |values| {
      assert values[..n] == values;
    } else {
      PrimitivesPrefix(values, n + 1);
      PrimitivesSnoc(values, n);
    }
  }

  lemma CompositeEmpty(vs: seq<Value>)
    ensures Composite(vs) == [] <==> vs == []
  {
    if vs != [] { assert |EncodeField(vs[0])| >= 4; }
  }

  /** A row whose fields are shorter than 4 GiB reads back as written, and so does a tombstone. */
  lemma CellRoundTrip(kinds: seq<Kind>, c: Cell)
    requires c.Live? ==> RowFits(kinds, c.values) && Short(Primitives(c.values))
    ensures DecodeCell(kinds, CellBytes(|kinds|, c)) == Some(c)
  {
    hide Bitmask, Unmarked, Merged, ParseFields, Primitives, Composite;
    var n := MaskLen(|kinds|);
    var data := CellBytes(|kinds|, c);
    if c.Live? {
      var mask, vs := Bitmask(c.values), Primitives(c.values);
      assert data[1..1 + n] == mask && data[1 + n..] == Composite(vs);
      assert c.values[..|kinds|] == c.values;
      BitmaskMarks(c.values);
      MaskKinds(kinds, mask, c.values, |kinds|);
      MergeBack(kinds, mask, c.values, |kinds|);
      FieldsRoundTrip(vs);
      CompositeEmpty(vs);
    }
  }

  // ----- what decodes -----

  lemma FieldDecoded(k: Kind, b: Bytes)
    requires DecodeField(k, b).Some?
    ensures var v := DecodeField(k, b).value; v.Kind() == k && FieldBytes(v) == b
  {
    hide Put64, Get64;
    if k.KindUint64? || k.KindInt64? { Put64Get64(b); }
  }

  lemma FieldTaken(k: Kind, b: Bytes)
    requires TakeField(k, b).Some?
    ensures var (v, n) := TakeField(k, b).value;
      v.Kind() == k && |FieldBytes(v)| < 0x1_0000_0000 && EncodeField(v) + b[n..] == b
  {
    hide Put32, Get32, DecodeField, FieldBytes;
    var m := Get32(b[..4]);
    Put32Get32(b[..4]);
    FieldDecoded(k, b[4..4 + m]);
    assert b == b[..4] + b[4..4 + m] + b[4 + m..];
  }

  lemma {:induction false} FieldsParsed(ks: seq<Kind>, b: Bytes)
    requires ParseFields(ks, b).Some?
    ensures var vs := ParseFields(ks, b).value;
      Kinds(vs) == ks && Short(vs) && Composite(vs) == b
    decreases |ks|
  {
    hide TakeField, EncodeField, FieldBytes;
    if ks != [] {
      FieldTaken(ks[0], b);
      var (v, n) := TakeField(ks[0], b).value;
      FieldsParsed(ks[1..], b[n..]);
      var vs, rest := ParseFields(ks, b).value, ParseFields(ks[1..], b[n..]).value;
      assert vs == [v] + rest && vs[1..] == rest;
      assert Kinds(vs) == [ks[0]] + Kinds(rest);
      assert Short(vs);
    }
  }

  lemma MergedUnsnoc(kinds: seq<Kind>, mask: Bytes, vs: seq<Value>, n: nat)
    requires 0 < n <= |kinds| && |mask| == MaskLen(|kinds|) && Merged(kinds, mask, vs, n).Some?
    ensures Merged(kinds, mask, vs, n - 1).Some?
    ensures var before, so := Merged(kinds, mask, vs, n - 1).value, Unmarked(kinds, mask, n - 1);
      if ColumnMarked(mask, n - 1)
      then Merged(kinds, mask, vs, n).value == before + [Null] && Unmarked(kinds, mask, n) == so
      else |so| < |vs| && Merged(kinds, mask, vs, n).value == before + [Of(vs[|so|])] && Unmarked(kinds, mask, n) == so + [kinds[n - 1]]
  {
    hide Marked;
    ColumnInMask(|kinds|, n - 1);
  }

  lemma MergedNone(kinds: seq<Kind>, mask: Bytes, vs: seq<Value>)
    requires |mask| == MaskLen(|kinds|)
    ensures Merged(kinds, mask, vs, 0) == Some([]) && Unmarked(kinds, mask, 0) == [] && Primitives([]) == vs[..0]
  {}

  /** The columns merged so far use the fields in order. */
  lemma {:induction false} MergedParts(kinds: seq<Kind>, mask: Bytes, vs: seq<Value>, n: nat)
    requires n <= |kinds| && |mask| == MaskLen(|kinds|) && Merged(kinds, mask, vs, n).Some?
    ensures var values := Merged(kinds, mask, vs, n).value;
      && (forall c | 0 <= c < n :: ColumnMarked(mask, c) <==> values[c].Null?)
      && |Unmarked(kinds, mask, n)| <= |vs| && Primitives(values) == vs[..|Unmarked(kinds, mask, n)|]
  {
    hide ColumnMarked, Merged, Unmarked, Primitives;
    if n == 0 {
      MergedNone(kinds, mask, vs);
    } else {
      MergedUnsnoc(kinds, mask, vs, n);
      MergedParts(kinds, mask, vs, n - 1);
      var values, so := Merged(kinds, mask, vs, n).value, |Unmarked(kinds, mask, n - 1)|;
      assert values[..n - 1] == Merged(kinds, mask, vs, n - 1).value && values[..n] == values;
      PrimitivesSnoc(values, n - 1);
      if !ColumnMarked(mask, n - 1) { assert vs[..so + 1] == vs[..so] + [vs[so]]; }
    }
  }

  /** Exactly what decodes: a tombstone is flag 1 and room for the mask; a row is flag 0, a mask that
      marks its NULL columns, and the fields of the others, where a row of NULLs may be followed by
      anything. */
  lemma CellIff(kinds: seq<Kind>, data: Bytes, c: Cell)
    ensures DecodeCell(kinds, data) == Some(c) <==>
      var n := (|kinds| + 7) / 8;
      && |data| >= 1 + n && data[0] == (if c.Tombstone? then 1 else 0)
      && (c.Live? ==>
        && RowFits(kinds, c.values) && Marks(data[1..1 + n], c.values) && Short(Primitives(c.values))
        && (Primitives(c.values) == [] || data[1 + n..] == Composite(Primitives(c.values))))
  {
    hide Unmarked, Merged, ParseFields, Primitives, Composite, Marks, RowFits, Short;
    if c.Live? && |data| >= 1 + MaskLen(|kinds|) && data[0] == FLAG_NORMAL {
      if RowFits(kinds, c.values) && Marks(data[1..1 + MaskLen(|kinds|)], c.values) {
        LiveDecodes(kinds, data, c.values);
      }
      if DecodeCell(kinds, data) == Some(c) { LiveDecoded(kinds, data, c.values); }
    }
  }

  lemma LiveDecodes(kinds: seq<Kind>, data: Bytes, values: Values)
    requires |data| >= 1 + MaskLen(|kinds|) && data[0] == FLAG_NORMAL
    requires RowFits(kinds, values) && Marks(data[1..1 + MaskLen(|kinds|)], values)
    ensures Short(Primitives(values)) && (Primitives(values) == [] || data[1 + MaskLen(|kinds|)..] == Composite(Primitives(values)))
      ==> DecodeCell(kinds, data) == Some(Live(values))
  {
    hide Unmarked, Merged, ParseFields, Primitives, Composite, Marks;
    var mask, vs := data[1..1 + MaskLen(|kinds|)], Primitives(values);
    assert values[..|kinds|] == values;
    MaskKinds(kinds, mask, values, |kinds|);
    MergeBack(kinds, mask, values, |kinds|);
    if Short(vs) {
      FieldsRoundTrip(vs);
      CompositeEmpty(vs);
    }
  }

  lemma LiveDecoded(kinds: seq<Kind>, data: Bytes, values: Values)
    requires DecodeCell(kinds, data) == Some(Live(values))
    ensures |data| >= 1 + MaskLen(|kinds|)
    ensures RowFits(kinds, values) && Marks(data[1..1 + MaskLen(|kinds|)], values) && Short(Primitives(values))
    ensures Primitives(values) == [] || data[1 + MaskLen(|kinds|)..] == Composite(Primitives(values))
  {
    hide Unmarked, Merged, ParseFields, Primitives, Composite, Marked;
    var n := MaskLen(|kinds|);
    var mask, payload := data[1..1 + n], data[1 + n..];
    var ks := Unmarked(kinds, mask, |kinds|);
    var vs := if payload != [] && ks != [] then ParseFields(ks, payload).value else [];
    MergedParts(kinds, mask, vs, |kinds|);
    if payload != [] && ks != [] {
      FieldsParsed(ks, payload);
      assert vs[..|ks|] == vs;
    }
    MergedFits(kinds, mask, vs, |kinds|);
  }

  lemma {:induction false} MergedFits(kinds: seq<Kind>, mask: Bytes, vs: seq<Value>, n: nat)
    requires n <= |kinds| && |mask| == MaskLen(|kinds|) && Merged(kinds, mask, vs, n).Some?
    requires Unmarked(kinds, mask, n) <= Kinds(vs)
    ensures RowFits(kinds[..n], Merged(kinds, mask, vs, n).value)
  {
    hide ColumnMarked, Merged, Unmarked, Kinds;
    if n > 0 {
      MergedUnsnoc(kinds, mask, vs, n);
      MergedFits(kinds, mask, vs, n - 1);
      var so := |Unmarked(kinds, mask, n - 1)|;
      if !ColumnMarked(mask, n - 1) {
        assert Kinds(vs)[so] == kinds[n - 1];
        KindAt(vs, so);
      }
    }
  }

  lemma KindAt(vs: seq<Value>, i: nat)
    requires i < |vs|
    ensures Kinds(vs)[i] == vs[i].Kind()
  {}

  lemma {:induction false} CompositeHolds(vs: seq<Value>, i: nat)
    requires i < |vs|
    ensures |FieldBytes(vs[i])| <= |Composite(vs)|
  {
    hide FieldBytes;
    if i > 0 { CompositeHolds(vs[1..], i - 1); }
  }

  /** A row of less than 4 GiB has no longer field. */
  lemma SmallIsShort(values: Values)
    requires |RowBytes(FLAG_NORMAL, values)| < 0x1_0000_0000
    ensures Short(Primitives(values))
  {
    hide Bitmask, Composite, FieldBytes, Primitives;
    var vs := Primitives(values);
    forall i | 0 <= i < |vs| ensures |FieldBytes(vs[i])| < 0x1_0000_0000 {
      CompositeHolds(vs, i);
    }
  }

  // ----- as the heap does it -----

  lemma {:induction false} CompositeSnoc(vs: seq<Value>, v: Value)
    ensures Composite(vs + [v]) == Composite(vs) + EncodeField(v)
  {
    hide EncodeField;
    if vs == [] {
      assert vs + [v] == [v] && [v][1..] == [];
      assert Composite([v]) == EncodeField(v) + Composite([]);
    } else {
      assert (vs + [v])[1..] == vs[1..] + [v];
      CompositeSnoc(vs[1..], v);
    }
  }

  method EncodeStorageComposite(vs: seq<Value>) returns (r: Result<Bytes, HeapError>)
    ensures r == if exists i :: 0 <= i < |vs| && HasNul(vs[i]) then Err(ErrNullByteInString) else Ok(Composite(vs))
  {
    hide EncodeField, Composite;
    var d: Bytes := [];
    CompositeEmpty([]);
    for i := 0 to |vs|
      invariant d == Composite(vs[..i]) && forall j | 0 <= j < i :: !HasNul(vs[j])
    {
      if HasNul(vs[i]) {
        return Err(ErrNullByteInString);
      }
      CompositeSnoc(vs[..i], vs[i]);
      assert vs[..i + 1] == vs[..i] + [vs[i]];
      d := d + EncodeField(vs[i]);
    }
    assert vs[..|vs|] == vs;
    return Ok(d);
  }

  lemma {:induction false} NulPrimitive(values: Values)
    ensures (exists i :: 0 <= i < |Primitives(values)| && HasNul(Primitives(values)[i]))
       <==> exists i :: 0 <= i < |values| && values[i].Of? && HasNul(values[i].v)
  {
    if values != [] {
      var n := |values| - 1;
      NulPrimitive(values[..n]);
      var so, vs := Primitives(values[..n]), Primitives(values);
      assert forall i | 0 <= i < |so| :: vs[i] == so[i];
      assert forall i | 0 <= i < n :: values[..n][i] == values[i];
      if values[n].Of? {
        assert vs[|so|] == values[n].v;
      }
    }
  }

  method EncodeEnterpriseValue(kinds: seq<Kind>, flag: byte, values: Values) returns (r: Result<Bytes, HeapError>)
    ensures r == EncodeValues(kinds, flag, values)
  {
    hide Bitmask, Primitives, SetBit, HasNul;
    if |values| != |kinds| {
      return Err(ErrColumnCountMismatch);
    }
    var bitmask := Zeros(MaskLen(|kinds|));
    var vs: seq<Value> := [];
    MaskStart(values);
    PrimitivesNone(values);
    for i := 0 to |values|
      invariant bitmask == MaskUpTo(values, i) && vs == Primitives(values[..i])
      invariant forall j | 0 <= j < i :: ColumnFits(kinds[j], values[j])
    {
      MaskStep(values, i);
      PrimitivesSnoc(values, i);
      if values[i].Null? {
        bitmask := bitmask[i / 8 := SetBit(bitmask[i / 8], i % 8)];
      } else {
        if values[i].v.Kind() != kinds[i] {
          return Err(ErrTypeMismatch);
        }
        vs := vs + [values[i].v];
      }
    }
    assert values[..|values|] == values;
    NulPrimitive(values);
    var composite := EncodeStorageComposite(vs);
    if composite.Err? {
      return composite;
    }
    MaskDone(values);
    return Ok([flag] + bitmask + composite.value);
  }

  lemma MaskDone(values: Values)
    ensures MaskUpTo(values, |values|) == Bitmask(values)
  {}

  method ParseStorageComposite(ks: seq<Kind>, b: Bytes) returns (r: Option<seq<Value>>)
    ensures r == ParseFields(ks, b)
  {
    hide TakeField;
    var pos: nat, vs: seq<Value> := 0, [];
    ghost var whole := ParseFields(ks, b);
    assert ks[0..] == ks && b[0..] == b;
    assert whole.Some? ==> [] + whole.value == whole.value;
    for i := 0 to |ks|
      invariant pos <= |b|
      invariant whole == match ParseFields(ks[i..], b[pos..]) case None => None case Some(rest) => Some(vs + rest)
    {
      assert ks[i..][0] == ks[i] && ks[i..][1..] == ks[i + 1..];
      var f := TakeField(ks[i], b[pos..]);
      if f.None? {
        return None;
      }
      assert b[pos..][f.value.1..] == b[pos + f.value.1..];
      ghost var rest := ParseFields(ks[i + 1..], b[pos + f.value.1..]);
      assert rest.Some? ==> vs + ([f.value.0] + rest.value) == vs + [f.value.0] + rest.value;
      pos, vs := pos + f.value.1, vs + [f.value.0];
    }
    assert ks[|ks|..] == [];
    if pos != |b| {
      return None;
    }
    assert vs + [] == vs;
    return Some(vs);
  }

  method DecodeEnterpriseValue(kinds: seq<Kind>, data: Bytes) returns (r: Option<Cell>)
    ensures r == DecodeCell(kinds, data)
  {
    hide Marked, ParseFields;
    var n := MaskLen(|kinds|);
    if |data| < 1 || data[0] > FLAG_TOMBSTONE || |data| < 1 + n {
      return None;
    }
    if data[0] == FLAG_TOMBSTONE {
      return Some(Tombstone);
    }
    var mask, payload := data[1..1 + n], data[1 + n..];
    var ks: seq<Kind> := [];
    for c := 0 to |kinds|
      invariant ks == Unmarked(kinds, mask, c)
    {
      ColumnInMask(|kinds|, c);
      if !Marked(mask, c) {
        ks := ks + [kinds[c]];
      }
    }
    var vs: seq<Value> := [];
    if |payload| > 0 && |ks| > 0 {
      var parsed := ParseStorageComposite(ks, payload);
      if parsed.None? {
        return None;
      }
      vs := parsed.value;
    }
    var values := MergeColumns(kinds, mask, vs);
    if values.None? {
      return None;
    }
    return Some(Live(values.value));
  }

  method MergeColumns(kinds: seq<Kind>, mask: Bytes, vs: seq<Value>) returns (r: Option<Values>)
    requires |mask| == MaskLen(|kinds|)
    ensures r == Merged(kinds, mask, vs, |kinds|)
  {
    hide Marked;
    var values: Values := [];
    var next := 0;
    for c := 0 to |kinds|
      invariant Merged(kinds, mask, vs, c) == Some(values) && next == |Unmarked(kinds, mask, c)|
    {
      ColumnInMask(|kinds|, c);
      if Marked(mask, c) {
        values := values + [Null];
      } else {
        if next >= |vs| {
          MergeStuck(kinds, mask, vs, c + 1, |kinds|);
          return None;
        }
        values, next := values + [Of(vs[next])], next + 1;
      }
    }
    return Some(values);
  }

  lemma {:induction false} MergeStuck(kinds: seq<Kind>, mask: Bytes, vs: seq<Value>, c: nat, n: nat)
    requires c <= n <= |kinds| && |mask| == MaskLen(|kinds|) && Merged(kinds, mask, vs, c) == None
    ensures Merged(kinds, mask, vs, n) == None
    decreases n
  {
    if c < n { MergeStuck(kinds, mask, vs, c, n - 1); }
  }
}
