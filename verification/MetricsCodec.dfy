/** Metric points on page bodies (internal/engine/metrics/store.go). */
module MetricsCodec {
  import opened Wrappers
  import opened Bytes

  const HEADER_SIZE: nat := 8

  /** The value is kept as the 64 bits of the float. */
  datatype Point = Point(timestamp: I64, tags: Bytes, name: Bytes, value: U64)

  // ----- little-endian integers -----

  function LittleEndian(n: nat, width: nat): (b: Bytes)
    ensures |b| == width
  {
    if width == 0 then [] else [n % 256] + LittleEndian(n / 256, width - 1)
  }

  function FromLittleEndian(b: Bytes): nat {
    if b == [] then 0 else b[0] + 256 * FromLittleEndian(b[1..])
  }

  lemma {:induction false} LittleEndianRoundTrip(n: nat, width: nat)
    requires n < Pow256(width)
    ensures FromLittleEndian(LittleEndian(n, width)) == n
  {
    if width > 0 {
      LittleEndianRoundTrip(n / 256, width - 1);
      assert LittleEndian(n, width)[1..] == LittleEndian(n / 256, width - 1);
    }
  }

  function Unsigned(x: I64): U64 {
    if x < 0 then x + U64_LIMIT else x
  }

  /** int64 of a 64-bit number; larger numbers do not occur. */
  function Signed(n: nat): I64 {
    if n < SIGN_BIT then n else if n < U64_LIMIT then n - U64_LIMIT else 0
  }

  // ----- one point -----

  function Size(p: Point): nat {
    8 + 2 + |p.tags| + 2 + |p.name| + 8
  }

  function EncodePoint(p: Point): (b: Bytes)
    ensures |b| == Size(p)
  {
    LittleEndian(Unsigned(p.timestamp), 8) + LittleEndian(|p.tags|, 2) + p.tags
    + LittleEndian(|p.name|, 2) + p.name + LittleEndian(p.value, 8)
  }

  /** decodeRawPoint: the point and the bytes used; None stands for zero bytes used. */
  function DecodePoint(b: Bytes): (r: Option<(Point, nat)>)
    ensures r.Some? ==> 20 <= r.value.1 <= |b|
  {
    if |b| < 20 then None
    else
      var tagsLen := FromLittleEndian(b[8..10]);
      if 10 + tagsLen + 2 > |b| then None
      else
        var nameLen := FromLittleEndian(b[10 + tagsLen..12 + tagsLen]);
        if 12 + tagsLen + nameLen + 8 > |b| then None
        else
          var end := 12 + tagsLen + nameLen;
          var v := FromLittleEndian(b[end..end + 8]);
          if v >= U64_LIMIT then None
          else
            Some((Point(Signed(FromLittleEndian(b[..8])), b[10..10 + tagsLen], b[12 + tagsLen..end], v), end + 8))
  }

  lemma SliceOf(a: Bytes, m: Bytes, c: Bytes)
    ensures (a + m + c)[|a|..|a| + |m|] == m
  {}

  lemma PointRoundTrip(p: Point, rest: Bytes)
    requires |p.tags| < 0x1_0000 && |p.name| < 0x1_0000
    ensures DecodePoint(EncodePoint(p) + rest) == Some((p, Size(p)))
  {
    hide LittleEndian, FromLittleEndian, EncodePoint, Pow256;
    Pow256Values();
    LittleEndianRoundTrip(Unsigned(p.timestamp), 8);
    LittleEndianRoundTrip(|p.tags|, 2);
    LittleEndianRoundTrip(|p.name|, 2);
    LittleEndianRoundTrip(p.value, 8);
    PointParts(p, rest);
  }

  lemma {:induction false} LittleEndianBack(b: Bytes)
    ensures FromLittleEndian(b) < Pow256(|b|) && LittleEndian(FromLittleEndian(b), |b|) == b
  {
    if b != [] {
      LittleEndianBack(b[1..]);
      LowByte(b[0], FromLittleEndian(b[1..]));
      assert b == [b[0]] + b[1..];
    }
  }

  lemma LowByte(x: byte, n: nat)
    ensures (x + 256 * n) % 256 == x && (x + 256 * n) / 256 == n
  {}

  /** Exactly what decodes, and to what: the bytes of a point, whatever follows them. */
  lemma DecodePointIff(b: Bytes, p: Point, n: nat)
    ensures DecodePoint(b) == Some((p, n)) <==>
      |p.tags| < 0x1_0000 && |p.name| < 0x1_0000 && n == 20 + |p.tags| + |p.name| <= |b| && b[..n] == EncodePoint(p)
  {
    hide LittleEndian, FromLittleEndian, EncodePoint;
    if |p.tags| < 0x1_0000 && |p.name| < 0x1_0000 && n == Size(p) <= |b| && b[..n] == EncodePoint(p) {
      assert b == EncodePoint(p) + b[n..];
      PointRoundTrip(p, b[n..]);
    }
    if DecodePoint(b) == Some((p, n)) { PointDecoded(b, p, n); }
  }

  lemma PointDecoded(b: Bytes, p: Point, n: nat)
    requires DecodePoint(b) == Some((p, n))
    ensures |p.tags| < 0x1_0000 && |p.name| < 0x1_0000 && n == Size(p) <= |b| && b[..n] == EncodePoint(p)
  {
    hide LittleEndian, FromLittleEndian;
    var t, m := |p.tags|, |p.name|;
    Pow256Small();
    LittleEndianBack(b[..8]);
    LittleEndianBack(b[8..10]);
    LittleEndianBack(b[10 + t..12 + t]);
    LittleEndianBack(b[12 + t + m..n]);
    assert b[..n] == b[..8] + b[8..10] + b[10..10 + t] + b[10 + t..12 + t] + b[12 + t..12 + t + m] + b[12 + t + m..n];
  }

  lemma Pow256Small()
    ensures Pow256(2) == 0x1_0000 && Pow256(8) == U64_LIMIT
  {
    assert Pow256(4) == 0x1_0000_0000;
  }

  lemma PointParts(p: Point, rest: Bytes)
    ensures var b, t, n := EncodePoint(p) + rest, |p.tags|, |p.name|;
      && |b| >= Size(p) && b[..8] == LittleEndian(Unsigned(p.timestamp), 8) && b[8..10] == LittleEndian(t, 2)
      && b[10..10 + t] == p.tags && b[10 + t..12 + t] == LittleEndian(n, 2)
      && b[12 + t..12 + t + n] == p.name && b[12 + t + n..12 + t + n + 8] == LittleEndian(p.value, 8)
  {
    hide LittleEndian;
    var a, t, n := LittleEndian(Unsigned(p.timestamp), 8), LittleEndian(|p.tags|, 2), LittleEndian(|p.name|, 2);
    var v := LittleEndian(p.value, 8);
    assert EncodePoint(p) + rest == Six(a, t, p.tags, n, p.name, v, rest);
    hide EncodePoint, Six;
    SixStart(a, t, p.tags, n, p.name, v, rest);
    SixMiddle(a, t, p.tags, n, p.name, v, rest);
    SixEnd(a, t, p.tags, n, p.name, v, rest);
  }

  function Six(a: Bytes, t: Bytes, g: Bytes, n: Bytes, m: Bytes, v: Bytes, rest: Bytes): Bytes {
    a + t + g + n + m + v + rest
  }

  lemma SixStart(a: Bytes, t: Bytes, g: Bytes, n: Bytes, m: Bytes, v: Bytes, rest: Bytes)
    requires |a| == 8 && |t| == 2 && |n| == 2
    ensures var b := Six(a, t, g, n, m, v, rest); |b| >= 12 + |g| && b[..8] == a && b[8..10] == t
  {
    var x := g + n + m + v + rest;
    assert Six(a, t, g, n, m, v, rest) == a + t + x;
    SliceOf(a, t, x);
  }

  lemma SixMiddle(a: Bytes, t: Bytes, g: Bytes, n: Bytes, m: Bytes, v: Bytes, rest: Bytes)
    requires |a| == 8 && |t| == 2 && |n| == 2
    ensures var b := Six(a, t, g, n, m, v, rest);
      |b| >= 12 + |g| && b[10..10 + |g|] == g && b[10 + |g|..12 + |g|] == n
  {
    var x, y := a + t, m + v + rest;
    assert Six(a, t, g, n, m, v, rest) == x + g + (n + y);
    SliceOf(x, g, n + y);
    assert Six(a, t, g, n, m, v, rest) == (x + g) + n + y;
    SliceOf(x + g, n, y);
  }

  lemma SixEnd(a: Bytes, t: Bytes, g: Bytes, n: Bytes, m: Bytes, v: Bytes, rest: Bytes)
    requires |a| == 8 && |t| == 2 && |n| == 2 && |v| == 8
    ensures var b := Six(a, t, g, n, m, v, rest);
      && |b| >= 12 + |g| + |m| + 8
      && b[12 + |g|..12 + |g| + |m|] == m && b[12 + |g| + |m|..12 + |g| + |m| + 8] == v
  {
    var x := a + t + g + n;
    assert Six(a, t, g, n, m, v, rest) == x + m + (v + rest);
    SliceOf(x, m, v + rest);
    assert Six(a, t, g, n, m, v, rest) == (x + m) + v + rest;
    SliceOf(x + m, v, rest);
  }

  // ----- pages -----

  function Records(pts: seq<Point>): Bytes {
    if pts == [] then [] else Records(pts[..|pts| - 1]) + EncodePoint(pts[|pts| - 1])
  }

  /** Every point was small enough to be accepted. */
  ghost predicate Small(pts: seq<Point>) {
    forall i | 0 <= i < |pts| :: Size(pts[i]) <= BODY_SIZE - HEADER_SIZE
  }

  ghost predicate FitsPage(pts: seq<Point>) {
    Small(pts) && HEADER_SIZE + |Records(pts)| <= BODY_SIZE
  }

  /** The body of a page that holds these points. */
  function PageBody(pts: seq<Point>): (b: Bytes)
    requires HEADER_SIZE + |Records(pts)| <= BODY_SIZE
    ensures |b| == BODY_SIZE
  {
    var end := HEADER_SIZE + |Records(pts)|;
    LittleEndian(|pts|, 4) + LittleEndian(end, 4) + Records(pts) + Zeros(BODY_SIZE - end)
  }

  /** b with bytes overwritten from offset on. */
  function Splice(b: Bytes, offset: nat, bytes: Bytes): (r: Bytes)
    requires offset + |bytes| <= |b|
    ensures |r| == |b|
  {
    b[..offset] + bytes + b[offset + |bytes|..]
  }

  lemma RecordsSnoc(pts: seq<Point>, p: Point)
    ensures Records(pts + [p]) == Records(pts) + EncodePoint(p)
  {
    assert (pts + [p])[..|pts|] == pts;
  }

  lemma {:induction false} RecordsAtLeast(pts: seq<Point>)
    ensures |Records(pts)| >= 20 * |pts|
  {
    if pts != [] { RecordsAtLeast(pts[..|pts| - 1]); }
  }

  /** The header fields of a page body. */
  lemma HeaderFields(pts: seq<Point>)
    requires HEADER_SIZE + |Records(pts)| <= BODY_SIZE
    ensures FromLittleEndian(PageBody(pts)[0..4]) == |pts|
    ensures FromLittleEndian(PageBody(pts)[4..8]) == HEADER_SIZE + |Records(pts)|
    ensures PageBody(pts)[8..] == Records(pts) + Zeros(BODY_SIZE - HEADER_SIZE - |Records(pts)|)
  {
    RecordsAtLeast(pts);
    Pow256Values();
    var end := HEADER_SIZE + |Records(pts)|;
    LittleEndianRoundTrip(|pts|, 4);
    LittleEndianRoundTrip(end, 4);
    hide LittleEndian, FromLittleEndian, Records;
    var b := PageBody(pts);
    assert b[0..4] == LittleEndian(|pts|, 4);
    assert b[4..8] == LittleEndian(end, 4);
  }

  /** Writing a record at the write offset and then the header gives the page with one more. */
  lemma AppendBody(pts: seq<Point>, p: Point)
    requires HEADER_SIZE + |Records(pts)| + Size(p) <= BODY_SIZE
    ensures HEADER_SIZE + |Records(pts + [p])| <= BODY_SIZE
    ensures var off := HEADER_SIZE + |Records(pts)|;
      var written := Splice(PageBody(pts), off, EncodePoint(p));
      Splice(written, 0, LittleEndian(|pts| + 1, 4) + LittleEndian(off + Size(p), 4)) == PageBody(pts + [p])
  {
    RecordsSnoc(pts, p);
    hide LittleEndian, Records, EncodePoint;
    var off, rec := HEADER_SIZE + |Records(pts)|, EncodePoint(p);
    var head := LittleEndian(|pts|, 4) + LittleEndian(off, 4);
    var z := Zeros(BODY_SIZE - off);
    assert PageBody(pts) == (head + Records(pts)) + z;
    var written := Splice(PageBody(pts), off, rec);
    assert PageBody(pts)[..off] == head + Records(pts);
    assert PageBody(pts)[off + |rec|..] == Zeros(BODY_SIZE - off - |rec|);
    assert written == head + (Records(pts) + rec + Zeros(BODY_SIZE - off - |rec|));
    assert written[8..] == Records(pts) + rec + Zeros(BODY_SIZE - off - |rec|);
  }

  /** The first n points behind the header. */
  function DecodeMany(b: Bytes, n: nat): seq<Point>
    decreases n
  {
    if n == 0 then []
    else
      match DecodePoint(b)
      case None => []
      case Some(r) => [r.0] + DecodeMany(b[r.1..], n - 1)
  }

  function DecodePage(b: Bytes): seq<Point> {
    if |b| < HEADER_SIZE then [] else DecodeMany(b[8..], FromLittleEndian(b[0..4]))
  }

  lemma RecordsFirst(pts: seq<Point>)
    requires pts != []
    ensures Records(pts) == EncodePoint(pts[0]) + Records(pts[1..])
  {
    assert pts == [pts[0]] + pts[1..];
    RecordsJoin([pts[0]], pts[1..]);
    RecordsSnoc([], pts[0]);
    assert [] + [pts[0]] == [pts[0]];
    assert [] + EncodePoint(pts[0]) == EncodePoint(pts[0]);
  }

  lemma SmallLengths(p: Point)
    requires Size(p) <= BODY_SIZE - HEADER_SIZE
    ensures |p.tags| < 0x1_0000 && |p.name| < 0x1_0000
  {}

  lemma {:induction false} DecodeRecords(pts: seq<Point>, rest: Bytes)
    requires Small(pts)
    ensures DecodeMany(Records(pts) + rest, |pts|) == pts
  {
    if pts != [] {
      RecordsFirst(pts);
      hide Records, DecodePoint, EncodePoint;
      var tail := Records(pts[1..]) + rest;
      assert Records(pts) + rest == EncodePoint(pts[0]) + tail;
      SmallLengths(pts[0]);
      PointRoundTrip(pts[0], tail);
      assert (EncodePoint(pts[0]) + tail)[Size(pts[0])..] == tail;
      DecodeRecords(pts[1..], rest);
    }
  }

  /** A page decodes to the points it holds. */
  lemma PageRoundTrip(pts: seq<Point>)
    requires FitsPage(pts)
    ensures DecodePage(PageBody(pts)) == pts
  {
    hide PageBody, Records, DecodeMany, FromLittleEndian, Zeros;
    HeaderFields(pts);
    DecodeRecords(pts, Zeros(BODY_SIZE - HEADER_SIZE - |Records(pts)|));
  }

  /** Decoding at the offset of one record gives that record. */
  lemma RecordAt(before: seq<Point>, p: Point, later: seq<Point>)
    requires FitsPage(before + [p] + later)
    ensures HEADER_SIZE + |Records(before)| < BODY_SIZE
    ensures var r := DecodePoint(PageBody(before + [p] + later)[HEADER_SIZE + |Records(before)|..]);
      r.Some? && r.value.0 == p
  {
    assert (before + [p] + later)[|before|] == p;
    RecordsAround(before, p, later);
    hide Records, DecodePoint, EncodePoint, PageBody, Zeros;
    var pts := before + [p] + later;
    HeaderFields(pts);
    SmallLengths(p);
    var z := Zeros(BODY_SIZE - HEADER_SIZE - |Records(pts)|);
    TailAt(PageBody(pts), Records(before), EncodePoint(p), Records(later), z);
    PointRoundTrip(p, Records(later) + z);
  }

  lemma RecordsAround(before: seq<Point>, p: Point, later: seq<Point>)
    ensures Records(before + [p] + later) == Records(before) + EncodePoint(p) + Records(later)
  {
    hide Records, EncodePoint;
    RecordsJoin(before + [p], later);
    RecordsSnoc(before, p);
  }

  lemma TailAt(b: Bytes, x: Bytes, y: Bytes, w: Bytes, z: Bytes)
    requires |b| >= 8 && b[8..] == x + y + w + z
    ensures 8 + |x| <= |b| && b[8 + |x|..] == y + (w + z)
  {
    assert b[8 + |x|..] == b[8..][|x|..];
    assert x + y + w + z == x + (y + (w + z));
  }

  lemma {:induction false} RecordsJoin(a: seq<Point>, b: seq<Point>)
    ensures Records(a + b) == Records(a) + Records(b)
  {
    hide EncodePoint;
    if b == [] {
      assert a + b == a;
      assert Records(b) == [];
    } else {
      var n := |b| - 1;
      RecordsJoin(a, b[..n]);
      assert a + b == (a + b[..n]) + [b[n]] && b == b[..n] + [b[n]];
      hide Records;
      RecordsSnoc(a + b[..n], b[n]);
      RecordsSnoc(b[..n], b[n]);
    }
  }
}
