/** Equijoins (internal/engine/sql/planner): rows, the bound condition, hash keys, and what each
    join produces: a sequence of rows and how it ends. */
module JoinSpec {
  import Bits
  import Bytes
  import opened Wrappers

  datatype Type = TypeNull | TypeInt64 | TypeUint64 | TypeFloat64 | TypeBool | TypeString | TypeBytes

  type Word = x: nat | x < Bytes.U64_LIMIT

  /** A value, or the NULL of a type. A float64 is its IEEE 754 bits. */
  datatype Datum =
    | Null(ty: Type)
    | Int64(i: int)
    | Uint64(u: nat)
    | Float64(f: Word)
    | Bool(b: bool)
    | String(s: string)
    | Blob(data: seq<nat>)

  function TypeOf(d: Datum): Type {
    match d
    case Null(ty) => ty
    case Int64(_) => TypeInt64
    case Uint64(_) => TypeUint64
    case Float64(_) => TypeFloat64
    case Bool(_) => TypeBool
    case String(_) => TypeString
    case Blob(_) => TypeBytes
  }

  type Row = seq<Datum>

  // ----- float64 -----

  predicate Negative(f: Word) {
    f >= Bytes.SIGN_BIT
  }

  function Exponent(f: Word): nat {
    f / 0x10_0000_0000_0000 % 2048
  }

  function Fraction(f: Word): nat {
    f % 0x10_0000_0000_0000
  }

  predicate IsNaN(f: Word) {
    Exponent(f) == 2047 && Fraction(f) != 0
  }

  predicate IsZero(f: Word) {
    f == 0 || f == Bytes.SIGN_BIT
  }

  /** Equality of numbers: no NaN equals anything, and the two zeros are equal. */
  predicate FloatEqual(x: Word, y: Word) {
    !IsNaN(x) && !IsNaN(y) && (x == y || (IsZero(x) && IsZero(y)))
  }

  // ----- evaluation -----

  /** A bound comparison of two columns of the combined row. */
  datatype Expr = ColumnsEqual(a: nat, b: nat)

  /** A comparison answers, or panics on a NULL it takes for a value. */
  datatype Answer = True | False | Panic

  predicate SameValue(a: Datum, b: Datum) {
    if a.Float64? && b.Float64? then FloatEqual(a.f, b.f) else a == b
  }

  /** datumEqual: different types are unequal; a NULL of a type with values panics. */
  function DatumEqual(a: Datum, b: Datum): Answer {
    if TypeOf(a) != TypeOf(b) || TypeOf(a).TypeNull? then False
    else if a.Null? || b.Null? then Panic
    else if SameValue(a, b) then True else False
  }

  function Eval(e: Expr, row: Row): Answer
    requires e.a < |row| && e.b < |row|
  {
    DatumEqual(row[e.a], row[e.b])
  }

  // ----- hash keys -----

  const DIGITS := "0123456789"

  /** Decimal digits, as %d prints them. */
  function Decimal(n: nat): (s: string)
    ensures |s| > 0 && forall i | 0 <= i < |s| :: s[i] in DIGITS
  {
    if n < 10 then [DIGITS[n]] else Decimal(n / 10) + [DIGITS[n % 10]]
  }

  function Signed(n: int): string {
    if n < 0 then "-" + Decimal(-n) else Decimal(n)
  }

  /** A fraction of n / d, rounded half to even. */
  function Rounded(n: nat, d: nat): nat
    requires d > 0
  {
    var q, r := n / d, n % d;
    if 2 * r > d || (2 * r == d && q % 2 == 1) then q + 1 else q
  }

  /** The magnitude of a finite float in millionths. */
  function Millionths(f: Word): nat {
    var e := Exponent(f);
    var m := 1_000_000 * if e == 0 then Fraction(f) else 0x10_0000_0000_0000 + Fraction(f);
    var shift := (if e == 0 then 1 else e) - 1075;
    if shift >= 0 then m * Bits.Pow2(shift) else Rounded(m, Bits.Pow2(-shift))
  }

  /** The last n decimal digits, with leading zeros. */
  function LastDigits(v: nat, n: nat): string {
    if n == 0 then "" else LastDigits(v / 10, n - 1) + [DIGITS[v % 10]]
  }

  /** A float as %f prints it, with six decimals. */
  function FloatText(f: Word): string {
    if IsNaN(f) then "NaN"
    else if Exponent(f) == 2047 then (if Negative(f) then "-Inf" else "+Inf")
    else
      var n := Millionths(f);
      (if Negative(f) then "-" else "") + Decimal(n / 1_000_000) + "." + LastDigits(n, 6)
  }

  datatype JoinError = ErrUnsupportedJoinKey

  /** encodeHashKey: the empty key stands for NULL, and byte strings have none. */
  function EncodeHashKey(d: Datum): Result<string, JoinError> {
    match d
    case Null(_) => Ok("")
    case Int64(i) => Ok("i:" + Signed(i))
    case Uint64(u) => Ok("u:" + Decimal(u))
    case Float64(f) => Ok("f:" + FloatText(f))
    case Bool(b) => Ok(if b then "b:true" else "b:false")
    case String(s) => Ok("s:" + s)
    case Blob(_) => Err(ErrUnsupportedJoinKey)
  }

  function DigitValue(c: char): nat
    requires c in DIGITS
  {
    (c as int) - ('0' as int)
  }

  ghost function Undecimal(s: string): nat
    requires forall i | 0 <= i < |s| :: s[i] in DIGITS
  {
    if s == "" then 0 else 10 * Undecimal(s[..|s| - 1]) + DigitValue(s[|s| - 1])
  }

  lemma {:induction false} DecimalRoundTrip(n: nat)
    ensures Undecimal(Decimal(n)) == n
  {
    if n < 10 {
      assert Decimal(n)[..0] == "";
    } else {
      DecimalRoundTrip(n / 10);
      var s := Decimal(n / 10);
      assert Decimal(n) == s + [DIGITS[n % 10]] && Decimal(n)[..|s|] == s;
      hide Decimal;
    }
  }

  lemma DecimalInjective(m: nat, n: nat)
    requires Decimal(m) == Decimal(n)
    ensures m == n
  {
    DecimalRoundTrip(m);
    DecimalRoundTrip(n);
  }

  lemma SignedInjective(m: int, n: int)
    requires Signed(m) == Signed(n)
    ensures m == n
  {
    hide Decimal;
    var a, b := if m < 0 then -m else m, if n < 0 then -n else n;
    assert Signed(m)[0] == '-' <==> m < 0;
    assert Signed(n)[0] == '-' <==> n < 0;
    assert m < 0 ==> Signed(m)[1..] == Decimal(a);
    assert n < 0 ==> Signed(n)[1..] == Decimal(b);
    DecimalInjective(a, b);
  }

  /** Keys with text: values of a hashed type. */
  predicate Hashed(d: Datum) {
    !d.Null? && !d.Blob?
  }

  function KeyText(d: Datum): (h: string)
    requires Hashed(d)
    ensures EncodeHashKey(d) == Ok(h) && |h| >= 2
  {
    EncodeHashKey(d).value
  }

  /** The two float zeros: equal as numbers, printed differently. */
  predicate OppositeZeros(a: Datum, b: Datum) {
    a.Float64? && b.Float64? && IsZero(a.f) && IsZero(b.f) && a.f != b.f
  }

  /** The text tells the type. */
  lemma KeyType(a: Datum, b: Datum)
    requires Hashed(a) && Hashed(b) && KeyText(a) == KeyText(b)
    ensures TypeOf(a) == TypeOf(b)
  {
    hide Decimal, Signed, FloatText;
    assert KeyText(a)[0] == KeyText(b)[0];
  }

  lemma ZeroTexts()
    ensures FloatText(0) != FloatText(Bytes.SIGN_BIT)
  {
    hide Decimal, LastDigits, Millionths;
    assert FloatText(0)[0] == Decimal(Millionths(0) / 1_000_000)[0];
    assert FloatText(Bytes.SIGN_BIT)[0] == '-';
  }

  /** Keys that compare equal have the same text, except the two zeros. */
  lemma EqualTexts(a: Datum, b: Datum)
    requires Hashed(a) && Hashed(b) && DatumEqual(a, b).True?
    ensures KeyText(a) == KeyText(b) <==> !OppositeZeros(a, b)
  {
    hide Decimal, Signed, FloatText, FloatEqual;
    if a.Float64? {
      FloatsEqual(a.f, b.f);
      ZeroTexts();
      assert KeyText(a)[2..] == FloatText(a.f) && KeyText(b)[2..] == FloatText(b.f);
    }
  }

  lemma FloatsEqual(x: Word, y: Word)
    requires FloatEqual(x, y)
    ensures x == y || (IsZero(x) && IsZero(y))
  {}

  /** Two keys that are not floats have the same text exactly when they are equal. */
  lemma HashKeyExact(a: Datum, b: Datum)
    requires Hashed(a) && Hashed(b) && !a.Float64? && !b.Float64?
    ensures KeyText(a) == KeyText(b) <==> DatumEqual(a, b).True?
  {
    hide Decimal, Signed;
    if KeyText(a) == KeyText(b) {
      KeyType(a, b);
      assert KeyText(a)[2..] == KeyText(b)[2..];
      match (a, b)
      case (Int64(x), Int64(y)) =>
        assert KeyText(a)[2..] == Signed(x) && KeyText(b)[2..] == Signed(y);
        SignedInjective(x, y);
      case (Uint64(x), Uint64(y)) =>
        assert KeyText(a)[2..] == Decimal(x) && KeyText(b)[2..] == Decimal(y);
        DecimalInjective(x, y);
      case (String(x), String(y)) =>
        assert KeyText(a)[2..] == x && KeyText(b)[2..] == y;
      case _ =>
    }
  }

  // ----- what a join produces -----

  /** How a join ends: at the end of its inputs, with an error, or in a panic. */
  datatype End = Eof | Unsupported | Panicked

  datatype Outcome = Outcome(rows: seq<Row>, end: End)

  const NOTHING := Outcome([], Eof)

  /** First one outcome, and after its end the other. */
  function Then(a: Outcome, b: Outcome): Outcome {
    if a.end.Eof? then Outcome(a.rows + b.rows, b.end) else a
  }

  function Prepend(row: Row, o: Outcome): Outcome {
    Outcome([row] + o.rows, o.end)
  }

  /** What a join is built from: two inputs, the key columns and the bound condition. */
  datatype Spec = Spec(left: seq<Row>, right: seq<Row>, leftKey: nat, rightKey: nat,
                       cond: Expr, outer: bool, types: seq<Type>, leftWidth: nat)

  ghost predicate Wide(rows: seq<Row>, width: nat) {
    forall i | 0 <= i < |rows| :: |rows[i]| == width
  }

  /** Rows have the columns of their schemas; the condition compares the two key columns. */
  ghost predicate ValidSpec(s: Spec) {
    && s.leftKey < s.leftWidth && s.rightKey < |s.types|
    && Wide(s.left, s.leftWidth) && Wide(s.right, |s.types|)
    && s.cond == ColumnsEqual(s.leftKey, s.leftWidth + s.rightKey)
  }

  function Pad(types: seq<Type>): Row {
    seq(|types|, i requires 0 <= i < |types| => Null(types[i]))
  }

  ghost predicate Fits(s: Spec, l: Row, right: seq<Row>) {
    s.leftKey < |l| && forall i | 0 <= i < |right| :: s.rightKey < |right[i]|
  }

  ghost function Compared(s: Spec, l: Row, r: Row): Answer
    requires s.leftKey < |l| && s.rightKey < |r|
  {
    DatumEqual(l[s.leftKey], r[s.rightKey])
  }

  /** The rows of `right` that match l, up to a comparison that panics. */
  ghost function Matches(s: Spec, l: Row, right: seq<Row>): Outcome
    requires Fits(s, l, right)
  {
    if right == [] then NOTHING
    else
      match Compared(s, l, right[0])
      case True => Prepend(l + right[0], Matches(s, l, right[1..]))
      case False => Matches(s, l, right[1..])
      case Panic => Outcome([], Panicked)
  }

  /** An outer join pads a left row that has met no partner. */
  ghost function Padded(s: Spec, l: Row, o: Outcome, matched: bool): Outcome {
    if s.outer && !matched && o == NOTHING then Outcome([l + Pad(s.types)], Eof) else o
  }

  /** The join of the left rows from k on with all right rows. */
  ghost function From(s: Spec, k: nat): Outcome
    requires ValidSpec(s) && k <= |s.left|
    decreases |s.left| - k
  {
    if k == |s.left| then NOTHING
    else Then(Padded(s, s.left[k], Matches(s, s.left[k], s.right), false), From(s, k + 1))
  }

  ghost function Joined(s: Spec): Outcome
    requires ValidSpec(s)
  {
    From(s, 0)
  }

  // ----- what hashing produces -----

  /** A row belongs to a bucket by the text of its key; rows with a NULL key to none. */
  predicate InBucket(d: Datum, h: string) {
    h != "" && EncodeHashKey(d) == Ok(h)
  }

  ghost function Bucket(rows: seq<Row>, key: nat, h: string): (b: seq<Row>)
    requires forall i | 0 <= i < |rows| :: key < |rows[i]|
    ensures forall i | 0 <= i < |b| :: b[i] in rows && key < |b[i]| && InBucket(b[i][key], h)
  {
    if rows == [] then []
    else (if InBucket(rows[0][key], h) then [rows[0]] else []) + Bucket(rows[1..], key, h)
  }

  ghost function HashRow(s: Spec, l: Row): Outcome
    requires ValidSpec(s) && s.leftKey < |l|
  {
    match EncodeHashKey(l[s.leftKey])
    case Err(_) => Outcome([], Unsupported)
    case Ok(h) => Padded(s, l, Matches(s, l, Bucket(s.right, s.rightKey, h)), false)
  }

  ghost function HashFrom(s: Spec, k: nat): Outcome
    requires ValidSpec(s) && k <= |s.left|
    decreases |s.left| - k
  {
    if k == |s.left| then NOTHING else Then(HashRow(s, s.left[k]), HashFrom(s, k + 1))
  }

  ghost predicate Keys(rows: seq<Row>, key: nat) {
    forall i | 0 <= i < |rows| :: key < |rows[i]| && !rows[i][key].Blob?
  }

  /** Hashing refuses a byte-string key, on the right before anything is produced. */
  ghost function HashJoined(s: Spec): Outcome
    requires ValidSpec(s)
  {
    if Keys(s.right, s.rightKey) then HashFrom(s, 0) else Outcome([], Unsupported)
  }

  lemma {:induction false} BucketSnoc(rows: seq<Row>, row: Row, key: nat, h: string)
    requires key < |row| && forall i | 0 <= i < |rows| :: key < |rows[i]|
    ensures Bucket(rows + [row], key, h) == Bucket(rows, key, h) + if InBucket(row[key], h) then [row] else []
  {
    hide InBucket;
    if rows == [] {
      assert (rows + [row])[1..] == [];
    } else {
      assert (rows + [row])[1..] == rows[1..] + [row];
      BucketSnoc(rows[1..], row, key, h);
    }
  }
}
