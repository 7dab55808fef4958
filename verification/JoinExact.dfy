/** When the two join operators agree: exactly when no key is a byte string, no comparison meets a
    NULL beside its own type, and no two keys are the two float zeros. */
module JoinExact {
  import Bytes
  import opened Wrappers
  import opened JoinSpec

  /** A comparison of these keys panics. */
  predicate NullClash(a: Datum, b: Datum) {
    TypeOf(a) == TypeOf(b) && !TypeOf(a).TypeNull? && (a.Null? || b.Null?)
  }

  ghost predicate NoClash(s: Spec, l: Row, right: seq<Row>)
    requires Fits(s, l, right)
  {
    forall j | 0 <= j < |right| :: !NullClash(l[s.leftKey], right[j][s.rightKey])
  }

  ghost predicate NoZeros(s: Spec, l: Row, right: seq<Row>)
    requires Fits(s, l, right)
  {
    forall j | 0 <= j < |right| :: !OppositeZeros(l[s.leftKey], right[j][s.rightKey])
  }

  /** What the inputs must be from left row k on. */
  ghost predicate AgreeFrom(s: Spec, k: nat)
    requires ValidSpec(s) && k <= |s.left|
  {
    forall i | k <= i < |s.left| ::
      !s.left[i][s.leftKey].Blob? && NoClash(s, s.left[i], s.right) && NoZeros(s, s.left[i], s.right)
  }

  ghost predicate Agree(s: Spec)
    requires ValidSpec(s)
  {
    Keys(s.right, s.rightKey) && AgreeFrom(s, 0)
  }

  // ----- one left row -----

  lemma TailClash(s: Spec, l: Row, right: seq<Row>)
    requires Fits(s, l, right) && right != []
    ensures NoClash(s, l, right) <==> Compared(s, l, right[0]) != Panic && NoClash(s, l, right[1..])
    ensures NoZeros(s, l, right) <==> !OppositeZeros(l[s.leftKey], right[0][s.rightKey]) && NoZeros(s, l, right[1..])
  {
    hide OppositeZeros;
    assert forall j | 1 <= j < |right| :: right[j] == right[1..][j - 1];
  }

  /** Nested loops panic on a row exactly when some comparison does. */
  lemma {:induction false} MatchesEnd(s: Spec, l: Row, right: seq<Row>)
    requires Fits(s, l, right)
    ensures Matches(s, l, right).end == if NoClash(s, l, right) then Eof else Panicked
  {
    if right != [] {
      TailClash(s, l, right);
      MatchesEnd(s, l, right[1..]);
    }
  }

  /** A match is the left row and a right row with a value for its key. */
  lemma {:induction false} MatchedRows(s: Spec, l: Row, right: seq<Row>)
    requires Fits(s, l, right)
    ensures forall m: Row | m in Matches(s, l, right).rows ::
      |m| > |l| + s.rightKey && !m[|l| + s.rightKey].Null?
  {
    hide SameValue;
    if right != [] {
      MatchedRows(s, l, right[1..]);
    }
  }

  /** A key that compares with nothing as equal. */
  lemma {:induction false} NullMatches(s: Spec, l: Row, right: seq<Row>)
    requires Fits(s, l, right) && NoClash(s, l, right) && l[s.leftKey].Null?
    ensures Matches(s, l, right) == NOTHING && NoZeros(s, l, right)
  {
    if right != [] {
      TailClash(s, l, right);
      NullMatches(s, l, right[1..]);
    }
  }

  ghost function Probed(s: Spec, l: Row, right: seq<Row>): Outcome
    requires Fits(s, l, right) && Hashed(l[s.leftKey])
  {
    Matches(s, l, Bucket(right, s.rightKey, KeyText(l[s.leftKey])))
  }

  /** Within a bucket the types agree and nothing is NULL. */
  lemma BucketAnswers(a: Datum, b: Datum)
    requires Hashed(a) && InBucket(b, KeyText(a))
    ensures DatumEqual(a, b) != Panic
  {
    hide FloatText, Decimal, Signed, SameValue;
    KeyType(a, b);
  }

  lemma ProbedStep(s: Spec, l: Row, right: seq<Row>)
    requires Fits(s, l, right) && Hashed(l[s.leftKey]) && right != []
    ensures Probed(s, l, right)
         == if InBucket(right[0][s.rightKey], KeyText(l[s.leftKey])) && Compared(s, l, right[0]).True?
            then Prepend(l + right[0], Probed(s, l, right[1..])) else Probed(s, l, right[1..])
  {
    hide KeyText, InBucket, DatumEqual;
    var h := KeyText(l[s.leftKey]);
    var rest := Bucket(right[1..], s.rightKey, h);
    if InBucket(right[0][s.rightKey], h) {
      BucketAnswers(l[s.leftKey], right[0][s.rightKey]);
      assert ([right[0]] + rest)[1..] == rest;
    } else {
      assert [] + rest == rest;
    }
  }

  /** A bucket never panics, and leaves out a match exactly when it is the other zero. */
  lemma {:induction false} ProbedExact(s: Spec, l: Row, right: seq<Row>)
    requires Fits(s, l, right) && Hashed(l[s.leftKey])
    ensures Probed(s, l, right).end.Eof?
    ensures NoClash(s, l, right) && Keys(right, s.rightKey) ==>
      && |Probed(s, l, right).rows| <= |Matches(s, l, right).rows|
      && (|Probed(s, l, right).rows| == |Matches(s, l, right).rows| <==> NoZeros(s, l, right))
      && (NoZeros(s, l, right) ==> Probed(s, l, right) == Matches(s, l, right))
  {
    hide KeyText, Probed, Bucket, InBucket, EncodeHashKey, DatumEqual, OppositeZeros;
    if right == [] {
      ProbedNone(s, l);
    } else {
      ProbedExact(s, l, right[1..]);
      ProbedStep(s, l, right);
      TailClash(s, l, right);
      if Keys(right, s.rightKey) && NoClash(s, l, right) {
        KeysTail(s, right);
        HeadProbed(l[s.leftKey], right[0][s.rightKey]);
      }
    }
  }

  lemma ProbedNone(s: Spec, l: Row)
    requires Fits(s, l, []) && Hashed(l[s.leftKey])
    ensures Probed(s, l, []) == NOTHING
  {}

  lemma KeysTail(s: Spec, right: seq<Row>)
    requires Keys(right, s.rightKey) && right != []
    ensures Keys(right[1..], s.rightKey) && s.rightKey < |right[0]| && !right[0][s.rightKey].Blob?
  {}

  lemma HeadProbed(a: Datum, b: Datum)
    requires Hashed(a) && !b.Blob? && DatumEqual(a, b) != Panic
    ensures OppositeZeros(a, b) ==> DatumEqual(a, b).True? && !InBucket(b, KeyText(a))
    ensures !OppositeZeros(a, b) && DatumEqual(a, b).True? ==> InBucket(b, KeyText(a))
  {
    if OppositeZeros(a, b) {
      ZerosEqual(a.f, b.f);
    }
    if DatumEqual(a, b).True? {
      hide FloatText, Decimal, Signed, FloatEqual;
      EqualTexts(a, b);
    }
  }

  lemma ZerosEqual(x: Word, y: Word)
    requires IsZero(x) && IsZero(y)
    ensures FloatEqual(x, y)
  {}

  // ----- whole joins -----

  /** Hashing a left row, against nested loops over it. */
  lemma RowExact(s: Spec, l: Row)
    requires ValidSpec(s) && |l| == s.leftWidth && !l[s.leftKey].Blob?
    requires Keys(s.right, s.rightKey) && NoClash(s, l, s.right)
    ensures var n := Padded(s, l, Matches(s, l, s.right), false);
      var h := HashRow(s, l);
      && n.end.Eof? && h.end.Eof? && |h.rows| <= |n.rows|
      && (h == n <==> NoZeros(s, l, s.right))
  {
    hide KeyText, NoClash, NoZeros, DatumEqual;
    MatchesEnd(s, l, s.right);
    if l[s.leftKey].Null? {
      NullMatches(s, l, s.right);
      EmptyBucket(s.right, s.rightKey);
    } else {
      hide Matches, Bucket;
      ProbedExact(s, l, s.right);
      PaddedExact(s, l, Probed(s, l, s.right));
    }
  }

  lemma {:induction false} EmptyBucket(rows: seq<Row>, key: nat)
    requires forall i | 0 <= i < |rows| :: key < |rows[i]|
    ensures Bucket(rows, key, "") == []
  {
    if rows != [] {
      EmptyBucket(rows[1..], key);
    }
  }

  /** Padding keeps a shorter outcome shorter, and a different one different. */
  lemma PaddedExact(s: Spec, l: Row, o: Outcome)
    requires ValidSpec(s) && |l| == s.leftWidth && o.end.Eof?
    requires var m := Matches(s, l, s.right); m.end.Eof? && |o.rows| <= |m.rows|
    ensures var n := Padded(s, l, Matches(s, l, s.right), false);
      |Padded(s, l, o, false).rows| <= |n.rows| && (Padded(s, l, o, false) == n <==> o == Matches(s, l, s.right))
  {
    var m := Matches(s, l, s.right);
    if s.outer && o == NOTHING && m != NOTHING {
      MatchedRows(s, l, s.right);
      hide Matches;
      assert m.rows[0] in m.rows;
      assert (l + Pad(s.types))[|l| + s.rightKey] == Pad(s.types)[s.rightKey];
    }
  }

  /** Two outcomes in a row agree when their parts do. */
  lemma ThenExact(a: Outcome, ra: Outcome, b: Outcome, rb: Outcome)
    requires a.end.Eof? && b.end.Eof? && |a.rows| <= |b.rows|
    requires ra.end == rb.end ==> |ra.rows| <= |rb.rows|
    ensures Then(a, ra) == Then(b, rb) <==> a == b && ra == rb
  {
    if Then(a, ra) == Then(b, rb) {
      assert (a.rows + ra.rows)[..|a.rows|] == a.rows && (b.rows + rb.rows)[..|b.rows|] == b.rows;
      assert (a.rows + ra.rows)[|a.rows|..] == ra.rows && (b.rows + rb.rows)[|b.rows|..] == rb.rows;
    }
  }

  lemma {:induction false} FromExact(s: Spec, k: nat)
    requires ValidSpec(s) && k <= |s.left| && Keys(s.right, s.rightKey)
    ensures !HashFrom(s, k).end.Panicked? && !From(s, k).end.Unsupported?
    ensures HashFrom(s, k).end == From(s, k).end ==> |HashFrom(s, k).rows| <= |From(s, k).rows|
    ensures HashFrom(s, k) == From(s, k) <==> AgreeFrom(s, k)
    decreases |s.left| - k
  {
    hide Keys, NoClash, NoZeros, Matches, Bucket, DatumEqual, EncodeHashKey;
    if k < |s.left| {
      var l := s.left[k];
      FromExact(s, k + 1);
      AgreeStep(s, k);
      MatchesEnd(s, l, s.right);
      HashRowEnd(s, l);
      if !l[s.leftKey].Blob? && NoClash(s, l, s.right) {
        RowExact(s, l);
        ThenExact(HashRow(s, l), HashFrom(s, k + 1), Padded(s, l, Matches(s, l, s.right), false), From(s, k + 1));
      }
    }
  }

  lemma AgreeStep(s: Spec, k: nat)
    requires ValidSpec(s) && k < |s.left|
    ensures AgreeFrom(s, k) <==>
      && !s.left[k][s.leftKey].Blob? && NoClash(s, s.left[k], s.right) && NoZeros(s, s.left[k], s.right)
      && AgreeFrom(s, k + 1)
  {
    hide NoClash, NoZeros;
  }

  lemma HashRowEnd(s: Spec, l: Row)
    requires ValidSpec(s) && |l| == s.leftWidth
    ensures HashRow(s, l).end == if l[s.leftKey].Blob? then Unsupported else Eof
  {
    hide Matches, Bucket, FloatText, Signed, Decimal;
    if l[s.leftKey].Null? {
      EmptyBucket(s.right, s.rightKey);
      NoMatches(s, l);
    } else if !l[s.leftKey].Blob? {
      ProbedExact(s, l, s.right);
    }
  }

  lemma NoMatches(s: Spec, l: Row)
    requires s.leftKey < |l|
    ensures Matches(s, l, []) == NOTHING
  {}

  /** Hash join produces what nested loops produce exactly when the inputs agree. */
  lemma HashExact(s: Spec)
    requires ValidSpec(s)
    ensures HashJoined(s) == Joined(s) <==> Agree(s)
    ensures !HashJoined(s).end.Panicked? && !Joined(s).end.Unsupported?
  {
    hide Keys, AgreeFrom, From, HashFrom;
    if Keys(s.right, s.rightKey) {
      FromExact(s, 0);
    } else {
      JoinedEnd(s, 0);
    }
  }

  lemma {:induction false} JoinedEnd(s: Spec, k: nat)
    requires ValidSpec(s) && k <= |s.left|
    ensures From(s, k).end ==
      if forall i | k <= i < |s.left| :: NoClash(s, s.left[i], s.right) then Eof else Panicked
    decreases |s.left| - k
  {
    hide NoClash, Matches;
    if k < |s.left| {
      MatchesEnd(s, s.left[k], s.right);
      JoinedEnd(s, k + 1);
    }
  }

  // ----- inputs on which they differ -----

  /** Two inputs of one column each. */
  function Single(a: Datum, b: Datum): Spec {
    Spec([[a]], [[b]], 0, 0, ColumnsEqual(0, 1), false, [TypeOf(b)], 1)
  }

  lemma SingleJoined(a: Datum, b: Datum)
    ensures var s := Single(a, b);
      && ValidSpec(s)
      && Joined(s) == (match DatumEqual(a, b)
                       case True => Outcome([[a, b]], Eof)
                       case False => NOTHING
                       case Panic => Outcome([], Panicked))
  {
    hide DatumEqual;
    var s := Single(a, b);
    assert s.right[1..] == [] && [a] + [b] == [a, b];
    NoMatches(s, [a]);
    assert From(s, 1) == NOTHING;
  }

  lemma SingleHashed(a: Datum, b: Datum)
    requires !a.Blob? && !b.Blob? && EncodeHashKey(a) != EncodeHashKey(b)
    ensures ValidSpec(Single(a, b)) && HashJoined(Single(a, b)) == NOTHING
  {
    hide FloatText, Decimal, Signed, DatumEqual, Matches;
    var s := Single(a, b);
    assert s.right[1..] == [];
    NoMatches(s, [a]);
    assert Bucket(s.right, 0, EncodeHashKey(a).value) == [];
    assert HashFrom(s, 1) == NOTHING;
  }

  /** Nested loops panic on a NULL key, which hashing passes over. */
  lemma NullPanics()
    ensures var s := Single(Int64(1), Null(TypeInt64));
      ValidSpec(s) && Joined(s) == Outcome([], Panicked) && HashJoined(s) == NOTHING
  {
    hide Joined, HashJoined;
    SingleJoined(Int64(1), Null(TypeInt64));
    SingleHashed(Int64(1), Null(TypeInt64));
  }

  /** Hashing misses a zero beside the other zero. */
  lemma ZeroMissed()
    ensures var s := Single(Float64(0), Float64(Bytes.SIGN_BIT));
      ValidSpec(s) && HashJoined(s) == NOTHING && Joined(s) == Outcome([[s.left[0][0], s.right[0][0]]], Eof)
  {
    hide Joined, HashJoined, FloatText, FloatEqual;
    ZerosEqual(0, Bytes.SIGN_BIT);
    ZeroTexts();
    var a, b := Float64(0), Float64(Bytes.SIGN_BIT);
    assert KeyText(a)[2..] == FloatText(a.f) && KeyText(b)[2..] == FloatText(b.f);
    SingleJoined(a, b);
    SingleHashed(a, b);
  }

  /** Hashing refuses byte strings, which nested loops compare. */
  lemma BytesRefused(d: seq<nat>)
    ensures var s := Single(Blob(d), Blob(d));
      ValidSpec(s) && HashJoined(s) == Outcome([], Unsupported) && Joined(s) == Outcome([[Blob(d), Blob(d)]], Eof)
  {
    hide Joined;
    SingleJoined(Blob(d), Blob(d));
  }
}
