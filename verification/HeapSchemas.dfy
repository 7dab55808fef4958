/** Exactly which schemas have all their keys read right, over every history. */
module HeapSchemas {
  import opened Wrappers
  import opened Bytes
  import opened LexOrder
  import opened SortedEntries
  import opened RowKey
  import opened RowRange
  import opened RowValue
  import opened HeapStore
  import opened HeapChains
  import opened HeapRuns
  import opened HeapExact
  import NodeCodec

  /** The bytes of a key around its columns: tag, table and version. */
  const FRAME: nat := 17

  // ----- the shortest key -----

  function Width(k: Kind): nat {
    match k
    case KindUint64 => 8
    case KindInt64 => 8
    case KindString => 1
    case KindBytes => 0
  }

  function LeastWidth(ks: seq<Kind>): nat {
    if ks == [] then 0 else Width(ks[0]) + LeastWidth(ks[1..])
  }

  /** The value with the shortest and smallest bytes. */
  function Least(k: Kind): (v: Value)
    ensures v.Kind() == k
  {
    match k
    case KindUint64 => Uint64(0)
    case KindInt64 => Int64(-SIGN_BIT)
    case KindString => String([])
    case KindBytes => Blob([])
  }

  function LeastKey(ks: seq<Kind>): (pk: Pk)
    ensures Kinds(pk) == ks
  {
    seq(|ks|, i requires 0 <= i < |ks| => Least(ks[i]))
  }

  lemma {:induction false} LeastKeySize(ks: seq<Kind>)
    ensures |EncodePk(LeastKey(ks))| == LeastWidth(ks)
  {
    if ks != [] {
      LeastKeySize(ks[1..]);
      assert LeastKey(ks)[1..] == LeastKey(ks[1..]);
    }
  }

  lemma {:induction false} NoShorterKey(pk: Pk)
    ensures |EncodePk(pk)| >= LeastWidth(Kinds(pk))
    ensures |EncodePk(pk)| == LeastWidth(Kinds(pk)) ==> forall i | 0 <= i < |pk| && pk[i].String? :: pk[i].s == []
  {
    if pk != [] {
      NoShorterKey(pk[1..]);
      assert Kinds(pk)[1..] == Kinds(pk[1..]) && pk == [pk[0]] + pk[1..];
    }
  }

  lemma RowSize(t: U64, pk: Pk, v: U64)
    ensures |EncodeRow(Row(t, pk, v))| == FRAME + |EncodePk(pk)|
  {
    hide EncodePk, Put64;
  }

  lemma LeastStorable(s: Schema)
    requires ValidSchema(s) && FRAME + LeastWidth(PkKinds(s)) <= NodeCodec.MAX_KEY_SIZE
    ensures Storable(s, LeastKey(PkKinds(s)), 1)
  {
    hide EncodePk, EncodeRow, LeastWidth;
    LeastKeySize(PkKinds(s));
    RowSize(s.table, LeastKey(PkKinds(s)), 1);
  }

  lemma NothingStorable(s: Schema, pk: Pk)
    requires ValidSchema(s) && Kinds(pk) == PkKinds(s) && FRAME + LeastWidth(PkKinds(s)) > NodeCodec.MAX_KEY_SIZE
    ensures !Exposed(s, pk) && !Aliased(s, pk) && !Storable(s, pk, 1)
  {
    hide EncodePk, EncodeRow, LeastWidth, Reached, Clean, NulFreeKey;
    forall r ensures !ReachesOther(s, pk, r) {
      NoShorterKey(r.pk);
      RowSize(r.table, r.pk, r.version);
    }
    NoShorterKey(pk);
    RowSize(s.table, pk, 1);
  }

  // ----- a byte column -----

  ghost predicate HasBytes(ks: seq<Kind>) {
    KindBytes in ks
  }

  /** Without a byte column, a scan for a key with zero-free strings reaches nothing else. */
  lemma OrderedNotExposed(s: Schema, pk: Pk)
    requires ValidSchema(s) && !HasBytes(PkKinds(s)) && Kinds(pk) == PkKinds(s) && NulFreeKey(pk)
    ensures !Exposed(s, pk) && Decodable(s) && Ordered(pk)
  {
    hide EncodeRow, EncodePk, LexLess, EndOf, Storable;
    KeyOrdered(s, pk);
    forall r ensures !ReachesOther(s, pk, r) {
      if Clean(r.pk) && Kinds(r.pk) == PkKinds(s) {
        CleanIff(s, r.pk);
        KeyOrdered(s, r.pk);
        KindsSame(r.pk, pk);
        VersionScanExact(r, s.table, pk);
      }
    }
  }

  lemma KindsSame(a: Pk, b: Pk)
    requires Kinds(a) == Kinds(b)
    ensures SameKinds(a, b)
  {
    assert forall i | 0 <= i < |a| :: Kinds(a)[i] == a[i].Kind() && Kinds(b)[i] == b[i].Kind();
  }

  lemma KeyOrdered(s: Schema, pk: Pk)
    requires ValidSchema(s) && !HasBytes(PkKinds(s)) && Kinds(pk) == PkKinds(s) && NulFreeKey(pk)
    ensures Ordered(pk)
  {
    forall i | 0 <= i < |pk| ensures Fixed(pk[i]) || (pk[i].String? && NulFree(pk[i].s)) {
      assert Kinds(pk)[i] == PkKinds(s)[i] && PkKinds(s)[i] in PkKinds(s);
      assert !HasNul(pk[i]);
    }
  }

  lemma LastByteZero(v: U64)
    requires v < 256
    ensures Put64(v)[0] == 0
  {
    assert BigEndian(v, 8) == BigEndian(v / 256, 7) + [v % 256];
    SmallBytes(7);
    assert v / 256 == 0;
  }

  lemma {:induction false} SmallBytes(n: nat)
    ensures BigEndian(0, n) == Zeros(n)
  {
    if n > 0 { SmallBytes(n - 1); }
  }

  lemma {:induction false} EncodePkAppend(a: Pk, b: Pk)
    ensures EncodePk(a + b) == EncodePk(a) + EncodePk(b)
  {
    hide EncodeColumn;
    if a == [] {
      assert a + b == b;
    } else {
      assert (a + b)[1..] == a[1..] + b;
      EncodePkAppend(a[1..], b);
    }
  }

  lemma EncodeOne(v: Value)
    ensures EncodePk([v]) == EncodeColumn(v)
  {
    assert EncodePk([v]) == EncodeColumn(v) + EncodePk([]);
  }

  /** The shortest key, and one that is a zero byte longer. */
  lemma LongerBlob(ks: seq<Kind>) returns (pk: Pk)
    requires ks != [] && ks[|ks| - 1] == KindBytes
    ensures Kinds(pk) == ks && EncodePk(pk) == EncodePk(LeastKey(ks)) + [0] && pk != LeastKey(ks)
    ensures NulFreeKey(pk)
  {
    hide EncodePk, EncodeColumn;
    var init := LeastKey(ks)[..|ks| - 1];
    pk := init + [Blob([0])];
    assert LeastKey(ks) == init + [Blob([])];
    EncodePkAppend(init, [Blob([])]);
    EncodePkAppend(init, [Blob([0])]);
    EncodeOne(Blob([]));
    EncodeOne(Blob([0]));
    BlobBytes();
    assert pk[|ks| - 1] != LeastKey(ks)[|ks| - 1];
  }

  /** A last byte column: the version of the shortest key reads as a longer key's column. */
  lemma BytesExposed(s: Schema)
    requires ValidSchema(s) && Decodable(s) && HasBytes(PkKinds(s)) && FRAME + LeastWidth(PkKinds(s)) <= NodeCodec.MAX_KEY_SIZE
    ensures exists pk :: Kinds(pk) == PkKinds(s) && NulFreeKey(pk) && Exposed(s, pk)
  {
    var ks := PkKinds(s);
    var i :| 0 <= i < |ks| && ks[i] == KindBytes;
    assert i == |ks| - 1;
    var least := LeastKey(ks);
    var pk := LongerBlob(ks);
    hide EncodePk, EncodeRow, LeastWidth, Reached, Decodable, LeastKey, Clean, NulFreeKey, RowPrefix;
    LeastStorable(s);
    CleanIff(s, least);
    PrefixExtends(s.table, least, pk, 1);
    assert ReachesOther(s, pk, Row(s.table, least, 1));
  }

  lemma BlobBytes()
    ensures EncodeColumn(Blob([])) == [] && EncodeColumn(Blob([0])) == [0]
  {}

  lemma PrefixExtends(t: U64, a: Pk, b: Pk, v: U64)
    requires EncodePk(b) == EncodePk(a) + [0] && v < 256
    ensures Reached(RowPrefix(t, b), EncodeRow(Row(t, a, v)))
  {
    hide EncodePk, LexLess, EndOf, Put64;
    var p, k := RowPrefix(t, b), EncodeRow(Row(t, a, v));
    LastByteZero(v);
    assert k[..|p|] == p;
    PrefixHasEnd(t, b);
    PrefixRange(p, EndOf(p), k);
  }

  // ----- twins -----

  /** A fixed column between two strings. */
  ghost predicate Gap(ks: seq<Kind>, i: nat, j: nat, k: nat) {
    i < j < k < |ks| && ks[i] == KindString && ks[j] != KindString && ks[k] == KindString
  }

  ghost predicate Gapped(ks: seq<Kind>) {
    exists i, j, k :: Gap(ks, i, j, k)
  }

  function Nuls(b: Bytes): nat {
    if b == [] then 0 else (if b[0] == 0 then 1 else 0) + Nuls(b[1..])
  }

  lemma {:induction false} NulsAppend(a: Bytes, b: Bytes)
    ensures Nuls(a + b) == Nuls(a) + Nuls(b)
  {
    if a == [] {
      assert a + b == b;
    } else {
      assert (a + b)[1..] == a[1..] + b;
      NulsAppend(a[1..], b);
    }
  }

  lemma {:induction false} NulsFree(s: Bytes)
    ensures Nuls(s) == 0 <==> 0 !in s
  {
    if s != [] {
      NulsFree(s[1..]);
      assert s == [s[0]] + s[1..];
    }
  }

  /** Strings hold as many zero bytes as there are terminators exactly if they are zero-free. */
  lemma {:induction false} StringNuls(pk: Pk)
    requires forall i | 0 <= i < |pk| :: pk[i].String?
    ensures Nuls(EncodePk(pk)) >= |pk|
    ensures Nuls(EncodePk(pk)) == |pk| <==> NulFreeKey(pk)
  {
    if pk != [] {
      var s, rest := pk[0].s, pk[1..];
      StringNuls(rest);
      NulsAppend(s + [0], EncodePk(rest));
      NulsAppend(s, [0]);
      NulsFree(s);
      assert Nuls([0]) == 1 by { assert [0][1..] == []; }
      assert pk == [pk[0]] + rest;
      assert NulFreeKey(pk) <==> !HasNul(pk[0]) && NulFreeKey(rest);
    }
  }

  lemma {:induction false} FixedSize(pk: Pk)
    requires forall i | 0 <= i < |pk| :: Fixed(pk[i])
    ensures |EncodePk(pk)| == 8 * |pk|
  {
    if pk != [] { FixedSize(pk[1..]); }
  }

  /** The strings come first and fixed columns after them: the strings' bytes are the same. */
  lemma StringPart(a: Pk, b: Pk, n: nat)
    requires Kinds(a) == Kinds(b) && n <= |a| && EncodePk(a) == EncodePk(b) && forall i | n <= i < |a| :: Fixed(a[i])
    ensures EncodePk(a[..n]) == EncodePk(b[..n])
  {
    hide EncodePk;
    KindsSame(a, b);
    FixedSize(a[n..]);
    FixedSize(b[n..]);
    assert a == a[..n] + a[n..] && b == b[..n] + b[n..];
    EncodePkAppend(a[..n], a[n..]);
    EncodePkAppend(b[..n], b[n..]);
    hide Kinds, SameKinds;
    SamePart(EncodePk(a[..n]), EncodePk(a[n..]), EncodePk(b[..n]), EncodePk(b[n..]));
  }

  lemma SamePart(x: Bytes, u: Bytes, y: Bytes, v: Bytes)
    requires x + u == y + v && |u| == |v|
    ensures x == y
  {
    assert x == (x + u)[..|x|] && y == (y + v)[..|y|];
  }

  lemma StringsFirst(a: Pk, b: Pk, n: nat)
    requires Kinds(a) == Kinds(b) && n <= |a| && NulFreeKey(a) && EncodePk(a) == EncodePk(b)
    requires forall i | 0 <= i < n :: a[i].String?
    requires forall i | n <= i < |a| :: Fixed(a[i])
    ensures a == b
  {
    hide EncodePk, Nuls, Clean, HasNul;
    StringPart(a, b, n);
    KindsSame(a, b);
    StringNuls(a[..n]);
    StringNuls(b[..n]);
    assert NulFreeKey(b) by {
      forall i | 0 <= i < |b| ensures !HasNul(b[i]) {
        if i < n {
          assert b[..n][i] == b[i];
        } else {
          FixedHasNoNul(b[i]);
        }
      }
    }
    BothClean(a);
    BothClean(b);
    CleanInjective(a, b);
  }

  lemma FixedHasNoNul(v: Value)
    ensures Fixed(v) ==> !HasNul(v)
  {}

  lemma BothClean(a: Pk)
    requires NulFreeKey(a) && forall i | 0 <= i < |a| :: a[i].String? || Fixed(a[i])
    ensures Clean(a)
  {
    forall i | 0 <= i < |a| && a[i].String? ensures NulFree(a[i].s) {
      assert !HasNul(a[i]);
    }
  }

  lemma FixedInjective(a: Value, b: Value)
    requires a.Kind() == b.Kind() && Fixed(a) && EncodeColumn(a) == EncodeColumn(b)
    ensures a == b
  {
    hide Put64;
    if a.Uint64? {
      Put64Order(a.u, b.u);
    } else {
      Put64Order(FlipSign(AsUint64(a.i)), FlipSign(AsUint64(b.i)));
    }
  }

  lemma {:induction false} StringRun(ks: seq<Kind>, n: nat) returns (m: nat)
    requires n <= |ks| && forall i | 0 <= i < n :: ks[i] == KindString
    ensures n <= m <= |ks| && forall i | 0 <= i < m :: ks[i] == KindString
    ensures m < |ks| ==> ks[m] != KindString
    decreases |ks| - n
  {
    m := n;
    if n < |ks| && ks[n] == KindString { m := StringRun(ks, n + 1); }
  }

  /** Without a gap, a zero-free key shares its bytes with no other key. */
  lemma {:induction false} NoTwin(a: Pk, b: Pk)
    requires Kinds(a) == Kinds(b) && !HasBytes(Kinds(a)) && !Gapped(Kinds(a)) && NulFreeKey(a) && EncodePk(a) == EncodePk(b)
    ensures a == b
  {
    if a != [] {
      var ks := Kinds(a);
      assert forall i | 0 <= i < |a| :: ks[i] == a[i].Kind() && Kinds(b)[i] == b[i].Kind() && ks[i] in ks;
      if ks[0] == KindString {
        StringTwin(a, b);
      } else {
        hide Kinds, HasBytes, Gapped, NulFreeKey, EncodePk;
        FixedFirst(a, b);
        NoTwin(a[1..], b[1..]);
        assert a == [a[0]] + a[1..] && b == [b[0]] + b[1..];
      }
    }
  }

  /** A key that starts with a string has its strings first. */
  lemma StringTwin(a: Pk, b: Pk)
    requires a != [] && Kinds(a) == Kinds(b) && Kinds(a)[0] == KindString && EncodePk(a) == EncodePk(b)
    requires !HasBytes(Kinds(a)) && !Gapped(Kinds(a)) && NulFreeKey(a)
    ensures a == b
  {
    hide EncodePk, NulFreeKey;
    var ks := Kinds(a);
    assert forall i | 0 <= i < |a| :: ks[i] == a[i].Kind() && ks[i] in ks;
    var n := StringRun(ks, 0);
    forall i | n <= i < |a| ensures Fixed(a[i]) {
      assert i > n ==> !Gap(ks, 0, n, i);
    }
    StringsFirst(a, b, n);
  }

  lemma FixedFirst(a: Pk, b: Pk)
    requires a != [] && Kinds(a) == Kinds(b) && Fixed(a[0]) && EncodePk(a) == EncodePk(b)
    requires !HasBytes(Kinds(a)) && !Gapped(Kinds(a)) && NulFreeKey(a)
    ensures a[0] == b[0] && EncodePk(a[1..]) == EncodePk(b[1..]) && Kinds(a[1..]) == Kinds(b[1..])
    ensures !HasBytes(Kinds(a[1..])) && !Gapped(Kinds(a[1..])) && NulFreeKey(a[1..])
  {
    var ks, tail := Kinds(a), Kinds(a[1..]);
    assert Kinds(a)[0] == Kinds(b)[0];
    assert tail == ks[1..] && Kinds(b[1..]) == Kinds(b)[1..];
    assert EncodeColumn(a[0]) == EncodePk(a)[..8] && EncodeColumn(b[0]) == EncodePk(b)[..8];
    FixedInjective(a[0], b[0]);
    assert EncodePk(a[1..]) == EncodePk(a)[8..] && EncodePk(b[1..]) == EncodePk(b)[8..];
    forall i: nat, j: nat, k: nat ensures !Gap(tail, i, j, k) {
      assert !Gap(ks, i + 1, j + 1, k + 1);
    }
  }

  /** The shortest keys have no twins: their strings are empty. */
  lemma ShortestNotAliased(s: Schema, pk: Pk)
    requires ValidSchema(s) && !HasBytes(PkKinds(s)) && Kinds(pk) == PkKinds(s)
    requires FRAME + LeastWidth(PkKinds(s)) == NodeCodec.MAX_KEY_SIZE
    ensures !Aliased(s, pk)
  {
    hide EncodePk, EncodeRow, LeastWidth;
    if Aliased(s, pk) {
      var q :| Twins(s, pk, q);
      RowSize(s.table, pk, 1);
      NoShorterKey(pk);
      NoShorterKey(q);
      assert NulFreeKey(q);
      PlainColumns(s, pk);
      PlainColumns(s, q);
      BothClean(pk);
      BothClean(q);
      CleanInjective(pk, q);
      assert false;
    }
  }

  lemma PlainColumns(s: Schema, pk: Pk)
    requires ValidSchema(s) && !HasBytes(PkKinds(s)) && Kinds(pk) == PkKinds(s)
    ensures forall i | 0 <= i < |pk| :: pk[i].String? || Fixed(pk[i])
  {
    forall i | 0 <= i < |pk| ensures pk[i].String? || Fixed(pk[i]) {
      assert Kinds(pk)[i] == PkKinds(s)[i] && PkKinds(s)[i] in PkKinds(s);
    }
  }

  // ----- a twin across a gap -----

  /** Two strings with fixed columns, and at least one, between them. */
  ghost predicate NextStrings(ks: seq<Kind>, i: nat, k: nat) {
    && i + 1 < k < |ks| && ks[i] == KindString && ks[k] == KindString
    && forall m | i < m < k :: ks[m] != KindString
  }

  lemma {:induction false} FindGap(ks: seq<Kind>, i: nat, j: nat, k: nat) returns (a: nat, b: nat)
    requires Gap(ks, i, j, k)
    ensures NextStrings(ks, a, b)
    decreases k - i
  {
    if m :| i < m < j && ks[m] == KindString {
      a, b := FindGap(ks, m, j, k);
    } else if m :| j < m < k && ks[m] == KindString {
      a, b := FindGap(ks, i, j, m);
    } else {
      a, b := i, k;
    }
  }

  /** The value whose bytes are one more. */
  function One(k: Kind): (v: Value)
    requires k == KindUint64 || k == KindInt64
    ensures v.Kind() == k
  {
    if k == KindUint64 then Uint64(1) else Int64(1 - SIGN_BIT)
  }

  lemma FixedBytes(k: Kind)
    requires k == KindUint64 || k == KindInt64
    ensures EncodeColumn(Least(k)) == Zeros(8) && EncodeColumn(One(k)) == Zeros(7) + [1]
  {
    SmallBytes(8);
    SmallBytes(7);
    assert BigEndian(1, 8) == BigEndian(1 / 256, 7) + [1 % 256];
  }

  lemma {:induction false} FixedZeros(ks: seq<Kind>)
    requires forall i | 0 <= i < |ks| :: ks[i] == KindUint64 || ks[i] == KindInt64
    ensures EncodePk(LeastKey(ks)) == Zeros(8 * |ks|)
  {
    hide EncodeColumn;
    if ks != [] {
      FixedZeros(ks[1..]);
      FixedBytes(ks[0]);
      assert LeastKey(ks)[1..] == LeastKey(ks[1..]);
    }
  }

  lemma LeftBytes(mid: seq<Kind>)
    requires forall i | 0 <= i < |mid| :: mid[i] == KindUint64 || mid[i] == KindInt64
    ensures EncodePk([String([])] + LeastKey(mid) + [String([1])]) == [0] + Zeros(8 * |mid|) + [1, 0]
  {
    hide EncodePk, EncodeColumn;
    FixedZeros(mid);
    EncodePkAppend([String([])], LeastKey(mid));
    EncodePkAppend([String([])] + LeastKey(mid), [String([1])]);
    EncodeOne(String([]));
    EncodeOne(String([1]));
    StringBytes();
  }

  lemma RightBytes(mid: seq<Kind>, last: Kind)
    requires forall i | 0 <= i < |mid| :: mid[i] == KindUint64 || mid[i] == KindInt64
    requires last == KindUint64 || last == KindInt64
    ensures EncodePk([String([0])] + LeastKey(mid) + [One(last)] + [String([])]) == [0, 0] + Zeros(8 * |mid|) + (Zeros(7) + [1]) + [0]
  {
    hide EncodePk, EncodeColumn;
    FixedZeros(mid);
    FixedBytes(last);
    EncodePkAppend([String([0])], LeastKey(mid));
    EncodePkAppend([String([0])] + LeastKey(mid), [One(last)]);
    EncodePkAppend([String([0])] + LeastKey(mid) + [One(last)], [String([])]);
    EncodeOne(String([0]));
    EncodeOne(String([]));
    EncodeOne(One(last));
    StringBytes();
  }

  /** Across a gap: ("", zeros, "\x01") and ("\x00", one, "") have the same bytes. */
  lemma GapBytes(mid: seq<Kind>)
    requires mid != [] && forall i | 0 <= i < |mid| :: mid[i] == KindUint64 || mid[i] == KindInt64
    ensures var n := |mid| - 1;
      EncodePk([String([])] + LeastKey(mid) + [String([1])])
        == EncodePk([String([0])] + LeastKey(mid[..n]) + [One(mid[n])] + [String([])])
  {
    hide EncodePk;
    var n := |mid| - 1;
    LeftBytes(mid);
    RightBytes(mid[..n], mid[n]);
    assert [0] + Zeros(8 * |mid|) + [1, 0] == [0, 0] + Zeros(8 * n) + (Zeros(7) + [1]) + [0];
  }

  lemma StringBytes()
    ensures EncodeColumn(String([])) == [0] && EncodeColumn(String([0])) == [0, 0] && EncodeColumn(String([1])) == [1, 0]
  {}

  lemma GapTwins(ks: seq<Kind>, a: nat, b: nat) returns (pk: Pk, q: Pk)
    requires NextStrings(ks, a, b) && !HasBytes(ks)
    ensures Kinds(pk) == ks && Kinds(q) == ks && pk != q && EncodePk(pk) == EncodePk(q)
    ensures pk == LeastKey(ks[..a]) + ([String([])] + LeastKey(ks[a + 1..b]) + [String([1])]) + LeastKey(ks[b + 1..])
  {
    hide EncodePk, EncodeColumn;
    var front, mid, back := LeastKey(ks[..a]), ks[a + 1..b], LeastKey(ks[b + 1..]);
    var n := |mid| - 1;
    forall m | 0 <= m < |mid| ensures mid[m] == KindUint64 || mid[m] == KindInt64 {
      assert mid[m] == ks[a + 1 + m] && ks[a + 1 + m] in ks;
    }
    GapBytes(mid);
    TwinKinds(ks, a, b);
    var x := [String([])] + LeastKey(mid) + [String([1])];
    var y := [String([0])] + LeastKey(mid[..n]) + [One(mid[n])] + [String([])];
    pk, q := front + x + back, front + y + back;
    EncodePkAppend(front, x);
    EncodePkAppend(front + x, back);
    EncodePkAppend(front, y);
    EncodePkAppend(front + y, back);
    hide LeastKey, One;
    assert pk[a] == x[0] && q[a] == y[0];
  }

  lemma TwinNulFree(ks: seq<Kind>, a: nat, b: nat)
    requires NextStrings(ks, a, b)
    ensures NulFreeKey(LeastKey(ks[..a]) + ([String([])] + LeastKey(ks[a + 1..b]) + [String([1])]) + LeastKey(ks[b + 1..]))
  {}

  lemma GapAliased(s: Schema)
    requires ValidSchema(s) && !HasBytes(PkKinds(s)) && Gapped(PkKinds(s))
    requires FRAME + LeastWidth(PkKinds(s)) < NodeCodec.MAX_KEY_SIZE
    ensures exists pk :: Kinds(pk) == PkKinds(s) && NulFreeKey(pk) && Aliased(s, pk)
  {
    var ks := PkKinds(s);
    var i, j, k :| Gap(ks, i, j, k);
    var a, b := FindGap(ks, i, j, k);
    hide EncodePk, EncodeRow, EncodeColumn, LeastWidth, LeastKey, Gapped, HasBytes, NulFreeKey, NextStrings;
    var pk, q := GapTwins(ks, a, b);
    TwinNulFree(ks, a, b);
    TwinSize(s, a, b);
    RowSize(s.table, pk, 1);
    assert Twins(s, pk, q);
  }

  lemma KindsAppend(a: Pk, b: Pk)
    ensures Kinds(a + b) == Kinds(a) + Kinds(b)
  {}

  lemma KindsOne(v: Value)
    ensures Kinds([v]) == [v.Kind()]
  {}

  lemma AroundGap(front: Pk, x: Pk, back: Pk, ks: seq<Kind>, a: nat, b: nat)
    requires a <= b < |ks| && Kinds(front) == ks[..a] && Kinds(x) == ks[a..b + 1] && Kinds(back) == ks[b + 1..]
    ensures Kinds(front + x + back) == ks
  {
    KindsAppend(front + x, back);
    KindsAppend(front, x);
    hide Kinds;
  }

  lemma TwinKinds(ks: seq<Kind>, a: nat, b: nat)
    requires NextStrings(ks, a, b) && !HasBytes(ks)
    ensures var front, mid, back := LeastKey(ks[..a]), ks[a + 1..b], LeastKey(ks[b + 1..]);
      var n := |mid| - 1;
      && (mid[n] == KindUint64 || mid[n] == KindInt64)
      && Kinds(front + ([String([])] + LeastKey(mid) + [String([1])]) + back) == ks
      && Kinds(front + ([String([0])] + LeastKey(mid[..n]) + [One(mid[n])] + [String([])]) + back) == ks
  {
    hide Kinds, LeastKey, One;
    var mid := ks[a + 1..b];
    var n := |mid| - 1;
    assert mid[n] == ks[b - 1] && ks[b - 1] in ks;
    KindsAppend([String([])], LeastKey(mid));
    KindsAppend([String([])] + LeastKey(mid), [String([1])]);
    KindsAppend([String([0])], LeastKey(mid[..n]));
    KindsAppend([String([0])] + LeastKey(mid[..n]), [One(mid[n])]);
    KindsAppend([String([0])] + LeastKey(mid[..n]) + [One(mid[n])], [String([])]);
    KindsOne(String([]));
    KindsOne(String([0]));
    KindsOne(String([1]));
    KindsOne(One(mid[n]));
    assert ks[a..b + 1] == [KindString] + mid + [KindString];
    assert mid == mid[..n] + [mid[n]];
    AroundGap(LeastKey(ks[..a]), [String([])] + LeastKey(mid) + [String([1])], LeastKey(ks[b + 1..]), ks, a, b);
    AroundGap(LeastKey(ks[..a]), [String([0])] + LeastKey(mid[..n]) + [One(mid[n])] + [String([])], LeastKey(ks[b + 1..]), ks, a, b);
  }

  lemma OneByteMore(front: Pk, back: Pk)
    ensures |EncodePk(front + [String([1])] + back)| == |EncodePk(front + [String([])] + back)| + 1
  {
    hide EncodePk, EncodeColumn;
    EncodePkAppend(front + [String([])], back);
    EncodePkAppend(front, [String([])]);
    EncodePkAppend(front + [String([1])], back);
    EncodePkAppend(front, [String([1])]);
    EncodeOne(String([]));
    EncodeOne(String([1]));
    StringBytes();
  }

  lemma LeastSplit(ks: seq<Kind>, a: nat, b: nat)
    requires NextStrings(ks, a, b)
    ensures LeastKey(ks) == LeastKey(ks[..a]) + ([String([])] + LeastKey(ks[a + 1..b])) + [String([])] + LeastKey(ks[b + 1..])
  {}

  /** The longer twin takes one byte more than the shortest key. */
  lemma TwinSize(s: Schema, a: nat, b: nat)
    requires ValidSchema(s) && NextStrings(PkKinds(s), a, b)
    ensures var ks := PkKinds(s);
      |EncodePk(LeastKey(ks[..a]) + ([String([])] + LeastKey(ks[a + 1..b]) + [String([1])]) + LeastKey(ks[b + 1..]))| == LeastWidth(ks) + 1
  {
    var ks := PkKinds(s);
    LeastSplit(ks, a, b);
    LeastKeySize(ks);
    hide EncodePk, LeastKey, LeastWidth, PkKinds;
    var front, x, back := LeastKey(ks[..a]), [String([])] + LeastKey(ks[a + 1..b]), LeastKey(ks[b + 1..]);
    OneByteMore(front + x, back);
    assert front + (x + [String([1])]) + back == front + x + [String([1])] + back;
  }

  // ----- exactly which schemas -----

  ghost predicate AllRight(s: Schema)
    requires ValidSchema(s)
  {
    forall pk | Kinds(pk) == PkKinds(s) && NulFreeKey(pk) :: ReadsRight(s, pk)
  }

  /** Over every history all keys with zero-free strings are read right exactly if no key of the
      table can be stored at all, or no key column is a byte column and no fixed column stands
      between two strings (or only keys with empty strings can be stored). */
  lemma SchemaReadsIff(s: Schema)
    requires Plain(s)
    ensures var ks := PkKinds(s); var least := FRAME + LeastWidth(ks);
      AllRight(s) <==>
        || least > NodeCodec.MAX_KEY_SIZE
        || (!HasBytes(ks) && (!Gapped(ks) || least == NodeCodec.MAX_KEY_SIZE))
  {
    hide ReadsRight, Exposed, Aliased, Storable, LeastWidth, NulFreeKey, HasBytes, Gapped, Decodable;
    var ks := PkKinds(s);
    var least := FRAME + LeastWidth(ks);
    if least > NodeCodec.MAX_KEY_SIZE {
      forall pk | Kinds(pk) == PkKinds(s) && NulFreeKey(pk) ensures ReadsRight(s, pk) {
        NothingStorable(s, pk);
        KeyReadsIff(s, pk);
      }
    } else if HasBytes(ks) {
      BytesFail(s);
    } else if Gapped(ks) && least < NodeCodec.MAX_KEY_SIZE {
      GapAliased(s);
      var pk :| Kinds(pk) == PkKinds(s) && NulFreeKey(pk) && Aliased(s, pk);
      OrderedNotExposed(s, pk);
      KeyReadsIff(s, pk);
    } else {
      forall pk | Kinds(pk) == PkKinds(s) && NulFreeKey(pk) ensures ReadsRight(s, pk) {
        OrderedNotExposed(s, pk);
        NotAliased(s, pk);
        KeyReadsIff(s, pk);
      }
    }
  }

  lemma NotAliased(s: Schema, pk: Pk)
    requires ValidSchema(s) && Kinds(pk) == PkKinds(s) && NulFreeKey(pk) && !HasBytes(PkKinds(s))
    requires !Gapped(PkKinds(s)) || FRAME + LeastWidth(PkKinds(s)) == NodeCodec.MAX_KEY_SIZE
    ensures !Aliased(s, pk)
  {
    hide EncodePk, Storable, LeastWidth, NulFreeKey, HasBytes, Gapped;
    if !Gapped(PkKinds(s)) {
      forall q ensures !Twins(s, pk, q) {
        if Kinds(q) == PkKinds(s) && EncodePk(q) == EncodePk(pk) { NoTwin(pk, q); }
      }
    } else {
      ShortestNotAliased(s, pk);
    }
  }

  lemma BytesFail(s: Schema)
    requires Plain(s) && HasBytes(PkKinds(s)) && FRAME + LeastWidth(PkKinds(s)) <= NodeCodec.MAX_KEY_SIZE
    ensures !AllRight(s)
  {
    hide ReadsRight, Exposed, Aliased, LeastWidth, HasBytes, Decodable, EncodePk;
    var ks := PkKinds(s);
    if Decodable(s) {
      BytesExposed(s);
      var pk :| Kinds(pk) == PkKinds(s) && NulFreeKey(pk) && Exposed(s, pk);
      KeyReadsIff(s, pk);
    } else {
      LeastStorable(s);
      var pk := LeastKey(ks);
      KeyReadsIff(s, pk);
      assert !ReadsRight(s, pk);
    }
  }

  // ----- two inputs -----

  /** A table with one byte column as its key: with [1, 2] inserted at 5, Get of [1] at 10 returns
      that row. */
  lemma BytesKeyMisread(t: U64)
    ensures var s := Schema(t, [KindBytes], [0]);
      var w := Write([Blob([1, 2])], 5, Live([Of(Blob([1, 2]))]));
      && MayPlan(s, [], Insert(5, [Of(Blob([1, 2]))]), Ok(w))
      && MayRead(s, Stored(s, [], w), [Blob([1])], 10, Ok([Of(Blob([1, 2]))]))
  {
    var s := Schema(t, [KindBytes], [0]);
    var pk, q := [Blob([1, 2])], [Blob([1])];
    var w := FirstWrite(s, pk, 5);
    assert PkKinds(s) == [KindBytes] && Kinds(pk) == [KindBytes] && Plain(s) && Decodable(s);
    ValuesForKey(s, pk);
    assert ValuesFor(s, pk) == [Of(Blob([1, 2]))] by {
      assert PkColumns(s, ValuesFor(s, pk))[0] == AsValues(pk)[0];
    }
    EncodeOne(Blob([1, 2]));
    EncodeOne(Blob([1]));
    RowSize(t, pk, 5);
    hide EncodePk, MayPlan, MayRead, WriteBytes, DecodeCell, ValuesFor, PkKinds, Decodable;
    assert Storable(s, pk, 5);
    CleanIff(s, pk);
    FirstInsert(s, pk, 5);
    LongerReached(t, pk, q, 5);
    OneEntry(WriteKey(s, w), WriteBytes(s, w));
    hide EncodeRow, Reached, Clean, Put;
    SoleRead(s, q, Row(t, pk, 5), WriteBytes(s, w), [Of(Blob([1, 2]))], 10);
  }

  lemma LongerReached(t: U64, a: Pk, b: Pk, v: U64)
    requires EncodePk(b) <= EncodePk(a)
    ensures Reached(RowPrefix(t, b), EncodeRow(Row(t, a, v)))
  {
    hide EncodePk, LexLess, EndOf, Put64;
    var p, k := RowPrefix(t, b), EncodeRow(Row(t, a, v));
    assert k[..|p|] == p;
    PrefixHasEnd(t, b);
    PrefixRange(p, EndOf(p), k);
  }

  const FIRST_TWIN: Pk := [String([]), Uint64(0), String([1])]
  const SECOND_TWIN: Pk := [String([0]), Uint64(1), String([])]
  const TWIN_KINDS: seq<Kind> := [KindString, KindUint64, KindString]

  lemma TwinBytes()
    ensures EncodePk(FIRST_TWIN) == EncodePk(SECOND_TWIN) && |EncodePk(FIRST_TWIN)| == 11
  {
    hide EncodePk;
    GapBytes([KindUint64]);
    LeftBytes([KindUint64]);
    assert [String([])] + LeastKey([KindUint64]) + [String([1])] == FIRST_TWIN;
    assert [KindUint64][..0] == [] && LeastKey([]) == [];
    assert [String([0])] + LeastKey([]) + [One(KindUint64)] + [String([])] == SECOND_TWIN;
  }

  lemma TwinSchema(s: Schema)
    requires s.kinds == TWIN_KINDS && s.pkIdx == [0, 1, 2]
    ensures Plain(s) && PkKinds(s) == TWIN_KINDS
  {
    var ks := PkKinds(s);
    assert |ks| == 3 && ks[0] == KindString && ks[1] == KindUint64 && ks[2] == KindString;
  }

  lemma KindsOfThree(a: Value, b: Value, c: Value)
    ensures Kinds([a, b, c]) == [a.Kind(), b.Kind(), c.Kind()]
  {}

  /** ("", 0, "\x01") and ("\x00", 1, "") are one key in bytes: deleting the second deletes the
      first. */
  lemma TwinExample(t: U64)
    ensures var s := Schema(t, TWIN_KINDS, [0, 1, 2]);
      ValidSchema(s) && Twins(s, FIRST_TWIN, SECOND_TWIN) && !ReadsRight(s, FIRST_TWIN)
  {
    var s := Schema(t, TWIN_KINDS, [0, 1, 2]);
    TwinBytes();
    TwinSchema(s);
    RowSize(t, FIRST_TWIN, 1);
    hide EncodePk, EncodeRow, PkKinds, ReadsRight, Kinds;
    KindsOfThree(String([]), Uint64(0), String([1]));
    KindsOfThree(String([0]), Uint64(1), String([]));
    assert FIRST_TWIN[0] != SECOND_TWIN[0];
    assert Decodable(s) && NulFreeKey(FIRST_TWIN);
    hide NulFreeKey, Decodable, Plain;
    TwinMisread(s, FIRST_TWIN, SECOND_TWIN);
  }
}
