/** The rows of the two joins, told by their inputs alone: which pairs of rows they join and in which
    order, what a left row without a partner becomes, and how they end. */
module JoinRows {
  import Bits
  import Bytes
  import opened Wrappers
  import opened JoinSpec
  import opened JoinExact
  import opened Picks

  // ----- equal keys -----

  /** Sign, exponent and fraction of a float64 in the layout of IEEE 754. */
  lemma FloatParts(f: Word)
    ensures f == (if Negative(f) then 0x8000_0000_0000_0000 else 0) + Exponent(f) * 0x10_0000_0000_0000 + Fraction(f)
    ensures Exponent(f) < 2048 && Fraction(f) < 0x10_0000_0000_0000
  {}

  /** The magnitude of a finite float in units of the smallest positive one. */
  function Magnitude(f: Word): nat {
    if Exponent(f) == 0 then Fraction(f) else (0x10_0000_0000_0000 + Fraction(f)) * Bits.Pow2(Exponent(f) - 1)
  }

  /** The same number: two finite floats of the same sign and magnitude, or two zeros, or the same
      infinity. */
  predicate SameNumber(x: Word, y: Word) {
    if Exponent(x) == 2047 || Exponent(y) == 2047 then
      Exponent(x) == Exponent(y) && Fraction(x) == 0 && Fraction(y) == 0 && Negative(x) == Negative(y)
    else Magnitude(x) == Magnitude(y) && (Negative(x) == Negative(y) || Magnitude(x) == 0)
  }

  lemma {:induction false} Pow2Grows(a: nat, b: nat)
    requires a <= b
    ensures Bits.Pow2(a) <= Bits.Pow2(b)
  {
    if a < b { Pow2Grows(a, b - 1); }
  }

  lemma Scaled(m: nat, p: nat, lo: nat, hi: nat)
    requires lo <= m < hi && p >= 1
    ensures lo * p <= m * p < hi * p
  {
    Times(lo, m, p);
    Times(m + 1, hi, p);
    assert (m + 1) * p == m * p + p;
  }

  lemma {:induction false} Times(a: nat, b: nat, p: nat)
    requires a <= b
    ensures a * p <= b * p
  {
    if a < b {
      Times(a, b - 1, p);
      assert b * p == (b - 1) * p + p;
    }
  }

  /** A larger exponent makes a larger magnitude. */
  lemma ExponentDecides(x: Word, y: Word)
    requires Exponent(x) < Exponent(y)
    ensures Magnitude(x) < Magnitude(y)
  {
    FloatParts(x);
    FloatParts(y);
    hide Exponent, Fraction;
    var one := 0x10_0000_0000_0000;
    var p := Bits.Pow2(Exponent(y) - 1);
    Scaled(one + Fraction(y), p, one, 2 * one);
    if Exponent(x) == 0 {
      Times(1, p, one);
      assert one * p == p * one;
    } else {
      var q := Bits.Pow2(Exponent(x) - 1);
      Scaled(one + Fraction(x), q, one, 2 * one);
      Pow2Grows(Exponent(x), Exponent(y) - 1);
      assert Bits.Pow2(Exponent(x)) == 2 * q;
      Times(2 * q, p, one);
      assert (2 * one) * q == (2 * q) * one && one * p == p * one;
    }
  }

  lemma FractionDecides(x: Word, y: Word)
    requires Exponent(x) == Exponent(y) && Fraction(x) < Fraction(y)
    ensures Magnitude(x) < Magnitude(y)
  {
    hide Exponent, Fraction;
    if Exponent(x) != 0 {
      var p, one := Bits.Pow2(Exponent(x) - 1), 0x10_0000_0000_0000;
      Scaled(one + Fraction(x), p, one + Fraction(x), one + Fraction(y));
    }
  }

  // ----- the text of a float -----

  /** q is the number nearest to n / d, and the even one of two. */
  ghost predicate IsNearest(n: int, d: int, q: int) {
    0 - d <= 2 * (n - q * d) <= d && (2 * (n - q * d) == d || 2 * (n - q * d) == 0 - d ==> q % 2 == 0)
  }

  lemma RoundedNearest(n: nat, d: nat)
    requires d > 0
    ensures IsNearest(n, d, Rounded(n, d))
  {
    var q := n / d;
    assert n == q * d + n % d && (q + 1) * d == q * d + d;
  }

  lemma {:induction false} Pow2Sum(a: nat, b: nat)
    ensures Bits.Pow2(a + b) == Bits.Pow2(a) * Bits.Pow2(b)
  {
    if b > 0 { Pow2Sum(a, b - 1); }
  }

  /** The text of a finite float has the nearest number of millionths, the float being Magnitude(f)
      units of 1 / Pow2(1074). */
  lemma TextIsNearest(f: Word, scale: nat)
    requires Exponent(f) < 2047 && scale == Bits.Pow2(1074)
    ensures IsNearest(1_000_000 * Magnitude(f), scale, Millionths(f))
  {
    hide Exponent, Fraction, Bits.Pow2, IsNearest, Rounded;
    var e := if Exponent(f) == 0 then 1 else Exponent(f);
    var m := if Exponent(f) == 0 then Fraction(f) else 0x10_0000_0000_0000 + Fraction(f);
    assert Magnitude(f) == m * Bits.Pow2(e - 1) by { UnitMagnitude(f); }
    hide Magnitude;
    if e >= 1075 {
      Pow2Sum(e - 1075, 1074);
      assert Millionths(f) == 1_000_000 * m * Bits.Pow2(e - 1075);
      Exactly(1_000_000 * m, Bits.Pow2(e - 1075), scale);
      assert 1_000_000 * Magnitude(f) == 1_000_000 * m * Bits.Pow2(e - 1) by { Regroup(1_000_000, m, Bits.Pow2(e - 1)); }
    } else {
      var d, unit := Bits.Pow2(1075 - e), Bits.Pow2(e - 1);
      Pow2Sum(1075 - e, e - 1);
      assert Millionths(f) == Rounded(1_000_000 * m, d);
      RoundedNearest(1_000_000 * m, d);
      Widened(1_000_000 * m, d, Millionths(f), unit);
      Regroup(1_000_000, m, unit);
    }
  }

  lemma UnitMagnitude(f: Word)
    ensures Exponent(f) == 0 ==> Magnitude(f) == Fraction(f) * Bits.Pow2(0)
  {
    hide Exponent, Fraction;
  }

  lemma Regroup(a: int, b: int, c: int)
    ensures a * (b * c) == a * b * c
  {}

  lemma Exactly(n: int, p: nat, scale: nat)
    requires scale >= 1
    ensures IsNearest(n * (p * scale), scale, n * p)
  {
    Regroup(n, p, scale);
  }

  /** Both sides of the division multiplied by the same number. */
  lemma Widened(n: int, d: int, q: int, unit: nat)
    requires unit >= 1 && IsNearest(n, d, q)
    ensures IsNearest(n * unit, d * unit, q)
  {
    var x := n - q * d;
    assert n * unit - q * (d * unit) == x * unit by { Regroup(q, d, unit); }
    assert 2 * (x * unit) == (2 * x) * unit;
    Stretch(0 - d, 2 * x, unit);
    Stretch(2 * x, d, unit);
  }

  lemma Stretch(a: int, b: int, unit: int)
    requires a <= b && unit >= 1
    ensures a * unit <= b * unit && (a * unit == b * unit ==> a == b)
  {
    var x := b - a;
    assert b * unit == a * unit + x * unit;
    if x > 0 { assert x * unit == (x - 1) * unit + unit && (x - 1) * unit >= 0; }
  }

  // ----- equality -----

  /** Floats are compared as numbers; a NaN equals nothing. */
  lemma FloatEqualIff(x: Word, y: Word)
    ensures FloatEqual(x, y) <==> SameNumber(x, y)
  {
    FloatParts(x);
    FloatParts(y);
    if Exponent(x) != 2047 && Exponent(y) != 2047 && x != y && !(IsZero(x) && IsZero(y)) {
      if Exponent(x) < Exponent(y) {
        ExponentDecides(x, y);
      } else if Exponent(x) > Exponent(y) {
        ExponentDecides(y, x);
      } else if Fraction(x) < Fraction(y) {
        FractionDecides(x, y);
      } else if Fraction(x) > Fraction(y) {
        FractionDecides(y, x);
      } else {
        NotZero(x, y);
      }
    }
  }

  lemma NotZero(x: Word, y: Word)
    requires Exponent(x) == Exponent(y) && Fraction(x) == Fraction(y) && x != y && !(IsZero(x) && IsZero(y))
    ensures Magnitude(x) > 0 && Negative(x) != Negative(y)
  {
    FloatParts(x);
    FloatParts(y);
    hide Bits.Pow2;
    if Exponent(x) != 0 {
      Scaled(0x10_0000_0000_0000 + Fraction(x), Bits.Pow2(Exponent(x) - 1), 1, 0x20_0000_0000_0000);
    }
  }

  /** Two keys are equal: values of one type, the same as numbers, strings or bytes. */
  predicate SameKey(a: Datum, b: Datum) {
    match (a, b)
    case (Int64(x), Int64(y)) => x == y
    case (Uint64(x), Uint64(y)) => x == y
    case (Float64(x), Float64(y)) => SameNumber(x, y)
    case (Bool(x), Bool(y)) => x == y
    case (String(x), String(y)) => x == y
    case (Blob(x), Blob(y)) => x == y
    case _ => false
  }

  /** A comparison answers, or panics when one of two keys of a type is its NULL. */
  lemma AnswerIs(a: Datum, b: Datum)
    ensures DatumEqual(a, b).Panic? <==> TypeOf(a) == TypeOf(b) != TypeNull && (a.Null? || b.Null?)
    ensures DatumEqual(a, b).True? <==> SameKey(a, b)
  {
    hide FloatEqual, SameNumber;
    if a.Float64? && b.Float64? {
      FloatEqualIff(a.f, b.f);
    }
  }

  // ----- one left row -----

  /** These rows are the left row beside the right rows at these places. */
  ghost predicate Beside(l: Row, right: seq<Row>, js: seq<nat>, rows: seq<Row>) {
    Ascending(js, |right|) && |rows| == |js| && forall i | 0 <= i < |js| :: rows[i] == l + right[js[i]]
  }

  /** One more right row in front. */
  lemma BesideFirst(l: Row, right: seq<Row>, js: seq<nat>, rows: seq<Row>)
    requires right != [] && Beside(l, right[1..], js, rows)
    ensures Beside(l, right, Later(js), rows) && Beside(l, right, [0] + Later(js), [l + right[0]] + rows)
  {
    LaterPlaces(js, |right| - 1);
    var rest := right[1..];
    assert forall i | 0 <= i < |js| :: right[js[i] + 1] == rest[js[i]];
  }

  /** Nested loops join a left row with the right rows of equal key, in their order, up to the
      first right key that makes the comparison panic. */
  lemma {:induction false} MatchesAre(s: Spec, l: Row, right: seq<Row>) returns (js: seq<nat>, m: nat)
    requires JoinSpec.Fits(s, l, right)
    ensures Beside(l, right, js, Matches(s, l, right).rows)
    ensures m <= |right| && Matches(s, l, right).end == if m < |right| then Panicked else Eof
    ensures forall n | 0 <= n < m :: !DatumEqual(l[s.leftKey], right[n][s.rightKey]).Panic?
    ensures m < |right| ==> DatumEqual(l[s.leftKey], right[m][s.rightKey]).Panic?
    ensures forall n | 0 <= n < |right| :: n in js <==> n < m && DatumEqual(l[s.leftKey], right[n][s.rightKey]).True?
  {
    hide DatumEqual, Beside;
    if right == [] {
      js, m := [], 0;
      NoneBeside(l, right);
    } else {
      var rest := right[1..];
      var ks, k := MatchesAre(s, l, rest);
      BesideFirst(l, right, ks, Matches(s, l, rest).rows);
      LaterOf(l, rest, ks, Matches(s, l, rest).rows);
      assert forall n | 1 <= n < |right| :: right[n] == rest[n - 1];
      match Compared(s, l, right[0])
      case True => js, m := [0] + Later(ks), k + 1;
      case False => js, m := Later(ks), k + 1;
      case Panic =>
        js, m := [], 0;
        NoneBeside(l, right);
    }
  }

  lemma NoneBeside(l: Row, right: seq<Row>)
    ensures Beside(l, right, [], [])
  {}

  lemma LaterOf(l: Row, right: seq<Row>, js: seq<nat>, rows: seq<Row>)
    requires Beside(l, right, js, rows)
    ensures forall j: nat :: j in Later(js) <==> j > 0 && j - 1 in js
    ensures forall j: nat :: j in [0] + Later(js) <==> j == 0 || j - 1 in js
  {
    LaterPlaces(js, |right|);
  }

  /** Hashing joins it with the right rows of equal key in their order, all but the other zero. */
  lemma {:induction false} ProbedAre(s: Spec, l: Row, right: seq<Row>) returns (js: seq<nat>)
    requires JoinSpec.Fits(s, l, right) && Hashed(l[s.leftKey])
    ensures Beside(l, right, js, Probed(s, l, right).rows) && Probed(s, l, right).end.Eof?
    ensures forall n | 0 <= n < |right| :: n in js <==>
      var a, b := l[s.leftKey], right[n][s.rightKey]; DatumEqual(a, b).True? && !OppositeZeros(a, b)
  {
    hide DatumEqual, Beside, Probed, OppositeZeros, InBucket, KeyText, Hashed;
    if right == [] {
      js := [];
      ProbedNone(s, l);
      NoneBeside(l, right);
    } else {
      var rest := right[1..];
      var ks := ProbedAre(s, l, rest);
      BesideFirst(l, right, ks, Probed(s, l, rest).rows);
      LaterOf(l, rest, ks, Probed(s, l, rest).rows);
      ProbedStep(s, l, right);
      InBucketIff(l[s.leftKey], right[0][s.rightKey]);
      assert forall n | 1 <= n < |right| :: right[n] == rest[n - 1];
      var hit := InBucket(right[0][s.rightKey], KeyText(l[s.leftKey])) && Compared(s, l, right[0]).True?;
      js := if hit then [0] + Later(ks) else Later(ks);
    }
  }

  lemma InBucketIff(a: Datum, b: Datum)
    requires Hashed(a)
    ensures DatumEqual(a, b).True? ==> (InBucket(b, KeyText(a)) <==> !OppositeZeros(a, b))
  {
    hide FloatText, Decimal, Signed, FloatEqual;
    if DatumEqual(a, b).True? {
      EqualTexts(a, b);
    }
  }

  // ----- whole joins -----

  /** The left row and then the NULL of each right column. */
  ghost predicate NullPadded(s: Spec, l: Row, row: Row) {
    && |row| == |l| + |s.types| && row[..|l|] == l
    && forall c | 0 <= c < |s.types| :: row[|l| + c] == Null(s.types[c])
  }

  /** What left row k contributes: the rows beside its equal keys; with none, in an outer join, one
      row padded with NULLs; and the end of the join at a key that panics. */
  lemma LeftRowGives(s: Spec, k: nat) returns (rows: seq<Row>, js: seq<nat>, m: nat)
    requires ValidSpec(s) && k < |s.left|
    ensures m <= |s.right|
    ensures forall n | 0 <= n < m :: var a, b := s.left[k][s.leftKey], s.right[n][s.rightKey];
      !(TypeOf(a) == TypeOf(b) != TypeNull && (a.Null? || b.Null?))
    ensures m < |s.right| ==> var a, b := s.left[k][s.leftKey], s.right[m][s.rightKey];
      TypeOf(a) == TypeOf(b) != TypeNull && (a.Null? || b.Null?)
    ensures forall n | 0 <= n < |s.right| :: n in js <==> n < m && SameKey(s.left[k][s.leftKey], s.right[n][s.rightKey])
    ensures if s.outer && js == [] && m == |s.right| then |rows| == 1 && NullPadded(s, s.left[k], rows[0])
            else Beside(s.left[k], s.right, js, rows)
    ensures From(s, k) == if m < |s.right| then Outcome(rows, Panicked) else Outcome(rows + From(s, k + 1).rows, From(s, k + 1).end)
  {
    hide SameKey, DatumEqual, Matches, Beside, NullPadded;
    var l := s.left[k];
    js, m := MatchesAre(s, l, s.right);
    rows := Padded(s, l, Matches(s, l, s.right), false).rows;
    AnswersAre(s, l);
    PaddedRow(s, l);
    BesideNone(l, s.right, js, Matches(s, l, s.right).rows);
  }

  lemma PaddedRow(s: Spec, l: Row)
    ensures NullPadded(s, l, l + Pad(s.types))
  {}

  /** What left row k contributes to the hash join: an error for a byte string, and else the rows
      beside its equal keys but for the other zero, or one padded row. */
  lemma HashRowGives(s: Spec, k: nat) returns (rows: seq<Row>, js: seq<nat>)
    requires ValidSpec(s) && k < |s.left|
    ensures s.left[k][s.leftKey].Blob? ==> HashFrom(s, k) == Outcome([], Unsupported)
    ensures !s.left[k][s.leftKey].Blob? ==>
      && HashFrom(s, k) == Outcome(rows + HashFrom(s, k + 1).rows, HashFrom(s, k + 1).end)
      && (forall n | 0 <= n < |s.right| :: n in js <==>
            var a, b := s.left[k][s.leftKey], s.right[n][s.rightKey]; SameKey(a, b) && !OppositeZeros(a, b))
      && if s.outer && js == [] then |rows| == 1 && NullPadded(s, s.left[k], rows[0]) else Beside(s.left[k], s.right, js, rows)
  {
    hide SameKey, DatumEqual, Matches, Bucket, OppositeZeros, KeyText, Beside;
    var l := s.left[k];
    HashRowEnd(s, l);
    rows, js := HashRow(s, l).rows, [];
    PaddedRow(s, l);
    NoneBeside(l, s.right);
    if l[s.leftKey].Null? {
      EmptyBucket(s.right, s.rightKey);
      NoMatches(s, l);
      NullIsUnequal(l[s.leftKey]);
    } else if !l[s.leftKey].Blob? {
      js := ProbedAre(s, l, s.right);
      AnswersAre(s, l);
      BesideNone(l, s.right, js, Probed(s, l, s.right).rows);
    }
  }

  lemma NullIsUnequal(a: Datum)
    requires a.Null?
    ensures forall b :: !SameKey(a, b)
  {}

  lemma BesideNone(l: Row, right: seq<Row>, js: seq<nat>, rows: seq<Row>)
    requires Beside(l, right, js, rows)
    ensures js == [] <==> rows == []
  {}

  lemma AnswersAre(s: Spec, l: Row)
    requires ValidSpec(s) && |l| == s.leftWidth
    ensures forall n | 0 <= n < |s.right| :: var a, b := l[s.leftKey], s.right[n][s.rightKey];
      && (DatumEqual(a, b).True? <==> SameKey(a, b))
      && (DatumEqual(a, b).Panic? <==> TypeOf(a) == TypeOf(b) != TypeNull && (a.Null? || b.Null?))
  {
    hide SameKey, DatumEqual;
    forall n | 0 <= n < |s.right| ensures var a, b := l[s.leftKey], s.right[n][s.rightKey];
      && (DatumEqual(a, b).True? <==> SameKey(a, b))
      && (DatumEqual(a, b).Panic? <==> TypeOf(a) == TypeOf(b) != TypeNull && (a.Null? || b.Null?))
    {
      AnswerIs(l[s.leftKey], s.right[n][s.rightKey]);
    }
  }

  ghost predicate FullWidth(s: Spec, rows: seq<Row>) {
    forall i | 0 <= i < |rows| :: |rows[i]| == s.leftWidth + |s.types|
  }

  lemma GivenWidth(s: Spec, l: Row, js: seq<nat>, rows: seq<Row>)
    requires ValidSpec(s) && |l| == s.leftWidth
    requires (|rows| == 1 && NullPadded(s, l, rows[0])) || Beside(l, s.right, js, rows)
    ensures FullWidth(s, rows)
  {}

  /** Every row of a join has the columns of both inputs. */
  lemma {:induction false} JoinedWidth(s: Spec, k: nat)
    requires ValidSpec(s) && k <= |s.left|
    ensures FullWidth(s, From(s, k).rows) && FullWidth(s, HashFrom(s, k).rows)
    decreases |s.left| - k
  {
    hide *;
    if k < |s.left| {
      JoinedWidth(s, k + 1);
      LeftWidth(s, k);
      HashWidth(s, k);
    } else {
      NoneWidth(s);
    }
  }

  lemma NoneWidth(s: Spec)
    requires ValidSpec(s)
    ensures FullWidth(s, From(s, |s.left|).rows) && FullWidth(s, HashFrom(s, |s.left|).rows)
  {}

  lemma LeftWidth(s: Spec, k: nat)
    requires ValidSpec(s) && k < |s.left| && FullWidth(s, From(s, k + 1).rows)
    ensures FullWidth(s, From(s, k).rows)
  {
    hide From, SameKey, NullPadded, Beside;
    var rows, js, m := LeftRowGives(s, k);
    GivenWidth(s, s.left[k], js, rows);
  }

  lemma HashWidth(s: Spec, k: nat)
    requires ValidSpec(s) && k < |s.left| && FullWidth(s, HashFrom(s, k + 1).rows)
    ensures FullWidth(s, HashFrom(s, k).rows)
  {
    hide HashFrom, SameKey, NullPadded, Beside, OppositeZeros;
    var rows, js := HashRowGives(s, k);
    if !s.left[k][s.leftKey].Blob? {
      GivenWidth(s, s.left[k], js, rows);
    }
  }
}
