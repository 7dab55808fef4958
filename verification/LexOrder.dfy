/** The byte-wise order: where two strings first differ, concatenation, and integers. */
module LexOrder {
  import opened Bytes

  /** a and b agree before i and differ at i, within both. */
  ghost predicate DivergeAt(a: Bytes, b: Bytes, i: nat) {
    i < |a| && i < |b| && a[..i] == b[..i] && a[i] != b[i]
  }

  lemma {:induction false} LexAt(a: Bytes, b: Bytes, i: nat)
    requires DivergeAt(a, b, i)
    ensures LexLess(a, b) <==> a[i] < b[i]
  {
    if i > 0 {
      assert a[0] == a[..i][0] == b[..i][0] == b[0];
      assert a[1..][..i - 1] == a[..i][1..] && b[1..][..i - 1] == b[..i][1..];
      LexAt(a[1..], b[1..], i - 1);
    }
  }

  /** What follows the first difference does not matter. */
  lemma LexAppend(a: Bytes, b: Bytes, x: Bytes, y: Bytes, i: nat)
    requires DivergeAt(a, b, i)
    ensures LexLess(a + x, b + y) <==> a[i] < b[i]
  {
    assert (a + x)[..i] == a[..i] && (b + y)[..i] == b[..i];
    LexAt(a + x, b + y, i);
  }

  lemma {:induction false} LexPrefix(p: Bytes, a: Bytes, b: Bytes)
    ensures LexLess(p + a, p + b) <==> LexLess(a, b)
  {
    if p == [] {
      assert p + a == a && p + b == b;
    } else {
      assert (p + a)[1..] == p[1..] + a && (p + b)[1..] == p[1..] + b;
      LexPrefix(p[1..], a, b);
    }
  }

  /** Strings of one length differ somewhere unless they are equal. */
  lemma {:induction false} FirstDiff(a: Bytes, b: Bytes) returns (i: nat)
    requires |a| == |b| && a != b
    ensures DivergeAt(a, b, i)
  {
    if a[0] != b[0] {
      i := 0;
    } else {
      assert a == [a[0]] + a[1..] && b == [b[0]] + b[1..];
      var j := FirstDiff(a[1..], b[1..]);
      i := j + 1;
      assert a[..i] == [a[0]] + a[1..][..j] && b[..i] == [b[0]] + b[1..][..j];
    }
  }

  /** Equal-length strings are ordered as the big-endian numbers they spell. */
  lemma {:induction false} SameLengthOrder(a: Bytes, b: Bytes)
    requires |a| == |b|
    ensures LexLess(a, b) <==> FromBigEndian(a) < FromBigEndian(b)
    ensures FromBigEndian(a) == FromBigEndian(b) <==> a == b
  {
    if a != [] {
      var n := |a| - 1;
      var a0, b0 := a[..n], b[..n];
      assert a == a0 + [a[n]] && b == b0 + [b[n]];
      SameLengthOrder(a0, b0);
      if a0 == b0 {
        LexPrefix(a0, [a[n]], [b[n]]);
      } else {
        var i := FirstDiff(a0, b0);
        LexAppend(a0, b0, [a[n]], [b[n]], i);
        LexAt(a0, b0, i);
      }
    }
  }

  lemma Put64Order(x: U64, y: U64)
    ensures LexLess(Put64(x), Put64(y)) <==> x < y
    ensures Put64(x) == Put64(y) <==> x == y
  {
    Pow256Values();
    BigEndianRoundTrip(x, 8);
    BigEndianRoundTrip(y, 8);
    SameLengthOrder(Put64(x), Put64(y));
  }

  ghost predicate NulFree(s: Bytes) {
    forall i | 0 <= i < |s| :: s[i] != 0
  }

  /** A terminating zero keeps the order of zero-free strings and makes them diverge. */
  lemma {:induction false} Terminated(s: Bytes, t: Bytes) returns (i: nat)
    requires NulFree(s) && NulFree(t) && s != t
    ensures DivergeAt(s + [0], t + [0], i)
    ensures LexLess(s, t) <==> (s + [0])[i] < (t + [0])[i]
  {
    if s == [] || t == [] || s[0] != t[0] {
      i := 0;
    } else {
      assert s == [s[0]] + s[1..] && t == [t[0]] + t[1..];
      var j := Terminated(s[1..], t[1..]);
      i := j + 1;
      assert (s + [0])[..i] == [s[0]] + (s[1..] + [0])[..j];
      assert (t + [0])[..i] == [t[0]] + (t[1..] + [0])[..j];
    }
  }
}
