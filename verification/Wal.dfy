/** Records of the write-ahead log (internal/storage/pager/wal.go) and what a log that was
    cut short still says. The checksum is an arbitrary function: nothing here depends on it. */
module Wal {
  import opened Bytes

  const EOT_PAGE: U64 := 0xFFFF_FFFF_FFFF_FFFF

  type Crc = Bytes -> U32

  datatype Record =
    | Data(txn: U64, page: U64, body: Bytes)
    | Eot(txn: U64)

  ghost predicate ValidRecord(r: Record) {
    r.Data? ==> r.page != EOT_PAGE && |r.body| == BODY_SIZE
  }

  ghost predicate ValidRecords(rs: seq<Record>) {
    forall i | 0 <= i < |rs| :: ValidRecord(rs[i])
  }

  /** Everything before the checksum. */
  function Frame(txn: U64, page: U64, body: Bytes): (b: Bytes)
    requires |body| < 0x1_0000_0000
    ensures |b| == 20 + |body|
  {
    Put64(txn) + Put64(page) + Put32(|body|) + body
  }

  function Seal(crc: Crc, frame: Bytes): (b: Bytes)
    ensures |b| == |frame| + 4
  {
    frame + Put32(crc(frame))
  }

  /** encodeWALRecord and encodeEOTMarker. */
  function Encode(crc: Crc, r: Record): (b: Bytes)
    requires r.Data? ==> |r.body| < 0x1_0000_0000
    ensures |b| == if r.Data? then 24 + |r.body| else 24
  {
    match r
    case Data(txn, page, body) => Seal(crc, Frame(txn, page, body))
    case Eot(txn) => Seal(crc, Frame(txn, EOT_PAGE, []))
  }

  datatype Decoded = Rec(r: Record, consumed: nat) | Eof | Corrupt

  /** decodeNextWALRecord. */
  function DecodeNext(crc: Crc, data: Bytes): (d: Decoded)
    ensures d.Rec? ==> 0 < d.consumed <= |data|
  {
    if |data| < 20 then Eof
    else
      var txn, page, len := Get64(data[0..8]), Get64(data[8..16]), Get32(data[16..20]);
      if page == EOT_PAGE && len != 0 then Corrupt
      else if page != EOT_PAGE && len != BODY_SIZE then Corrupt
      else if |data| < 20 + len + 4 then Eof
      else if Get32(data[20 + len..20 + len + 4]) != crc(data[..20 + len]) then Corrupt
      else if page == EOT_PAGE then Rec(Eot(txn), 20 + len + 4)
      else Rec(Data(txn, page, data[20..20 + len]), 20 + len + 4)
  }

  datatype Parsed = Records(rs: seq<Record>) | WalCorrupt

  /** The parse loop of replayWALInternal: stop at an incomplete trailing record, fail on a
      corrupt complete one. */
  function Parse(crc: Crc, data: Bytes): Parsed {
    if data == [] then Records([])
    else
      match DecodeNext(crc, data)
      case Eof => Records([])
      case Corrupt => WalCorrupt
      case Rec(r, n) =>
        match Parse(crc, data[n..])
        case WalCorrupt => WalCorrupt
        case Records(rs) => Records([r] + rs)
  }

  ghost function EncodeAll(crc: Crc, rs: seq<Record>): Bytes
    requires ValidRecords(rs)
  {
    if rs == [] then [] else Encode(crc, rs[0]) + EncodeAll(crc, rs[1..])
  }

  // ----- one record -----

  ghost function PageOf(r: Record): U64 { if r.Data? then r.page else EOT_PAGE }

  ghost function BodyOf(r: Record): Bytes { if r.Data? then r.body else [] }

  ghost function FrameOf(r: Record): (b: Bytes)
    requires ValidRecord(r)
    ensures |b| == 20 + |BodyOf(r)|
  {
    Frame(r.txn, PageOf(r), BodyOf(r))
  }

  lemma FrameFields(txn: U64, page: U64, body: Bytes, rest: Bytes)
    requires |body| < 0x1_0000_0000
    ensures var d := Frame(txn, page, body) + rest;
      && Get64(d[0..8]) == txn && Get64(d[8..16]) == page && Get32(d[16..20]) == |body|
      && d[20..20 + |body|] == body && d[..20 + |body|] == Frame(txn, page, body)
  {
    var d := Frame(txn, page, body) + rest;
    Get64Put64(txn);
    Get64Put64(page);
    Get32Put32(|body|);
    assert d[0..8] == Put64(txn);
    assert d[8..16] == Put64(page);
    assert d[16..20] == Put32(|body|);
  }

  /** A whole record at the front is read back. */
  lemma DecodeWhole(crc: Crc, r: Record, rest: Bytes)
    requires ValidRecord(r)
    ensures DecodeNext(crc, Encode(crc, r) + rest) == Rec(r, |Encode(crc, r)|)
  {
    hide Frame, Get64, Get32, Put32;
    WholeFields(crc, r, rest);
  }

  lemma WholeFields(crc: Crc, r: Record, rest: Bytes)
    requires ValidRecord(r)
    ensures var d, n := Encode(crc, r) + rest, |BodyOf(r)|;
      && Get64(d[0..8]) == r.txn && Get64(d[8..16]) == PageOf(r) && Get32(d[16..20]) == n
      && d[20..20 + n] == BodyOf(r) && Get32(d[20 + n..20 + n + 4]) == crc(d[..20 + n])
  {
    var f, n := FrameOf(r), |BodyOf(r)|;
    var sum := Put32(crc(f));
    FrameFields(r.txn, PageOf(r), BodyOf(r), sum + rest);
    Get32Put32(crc(f));
    hide Frame, Get64, Get32, Put32;
    var d := Encode(crc, r) + rest;
    assert d == f + (sum + rest);
    assert d[20 + n..20 + n + 4] == sum;
  }

  /** Fewer bytes than the header, or than the record that the header announces. */
  predicate Incomplete(data: Bytes) {
    || |data| < 20
    || var page, len := Get64(data[8..16]), Get32(data[16..20]);
       (if page == EOT_PAGE then len == 0 else len == BODY_SIZE) && |data| < 20 + len + 4
  }

  /** The end of the log is read exactly at incomplete bytes. */
  lemma EofIff(crc: Crc, data: Bytes)
    ensures DecodeNext(crc, data) == Eof <==> Incomplete(data)
  {
    hide Get64, Get32;
  }

  lemma CutHeader(r: Record, sum: Bytes, n: nat)
    requires ValidRecord(r) && 20 <= n <= 20 + |BodyOf(r)| + |sum|
    ensures var d := (FrameOf(r) + sum)[..n]; Get64(d[8..16]) == PageOf(r) && Get32(d[16..20]) == |BodyOf(r)|
  {
    hide Frame, Get64, Get32;
    var e := FrameOf(r) + sum;
    FrameFields(r.txn, PageOf(r), BodyOf(r), sum);
    assert e[..n][8..16] == e[8..16] && e[..n][16..20] == e[16..20];
  }

  /** A record cut short anywhere reads as the end of the log. */
  lemma DecodeCut(crc: Crc, r: Record, n: nat)
    requires ValidRecord(r) && n < |Encode(crc, r)|
    ensures DecodeNext(crc, Encode(crc, r)[..n]) == Eof
  {
    hide DecodeNext, Frame, Get64, Get32;
    var d := Encode(crc, r)[..n];
    EofIff(crc, d);
    if n >= 20 {
      CutHeader(r, Put32(crc(FrameOf(r))), n);
    }
  }

  /** The five parts of a record. */
  lemma RecordParts(data: Bytes, len: nat)
    requires |data| >= 24 + len
    ensures data[..20 + len] == data[0..8] + data[8..16] + data[16..20] + data[20..20 + len]
    ensures data[..24 + len] == data[..20 + len] + data[20 + len..24 + len]
  {}

  /** A record that is read is one that was encoded so. */
  lemma DecodedRecord(crc: Crc, data: Bytes)
    requires DecodeNext(crc, data).Rec?
    ensures var d := DecodeNext(crc, data);
      ValidRecord(d.r) && d.consumed == |Encode(crc, d.r)| && data[..d.consumed] == Encode(crc, d.r)
  {
    hide Get64, Get32, Put64, Put32;
    var len := Get32(data[16..20]);
    RecordParts(data, len);
    Put64Get64(data[0..8]);
    Put64Get64(data[8..16]);
    Put32Get32(data[16..20]);
    Put32Get32(data[20 + len..24 + len]);
    if len == 0 { assert data[20..20 + len] == []; }
  }

  // ----- the whole log -----

  lemma {:induction false} EncodeAllAppend(crc: Crc, a: seq<Record>, b: seq<Record>)
    requires ValidRecords(a) && ValidRecords(b)
    ensures ValidRecords(a + b)
    ensures EncodeAll(crc, a + b) == EncodeAll(crc, a) + EncodeAll(crc, b)
  {
    hide Encode;
    if a == [] {
      assert a + b == b;
    } else {
      assert ValidRecords(a[1..]);
      EncodeAllAppend(crc, a[1..], b);
      assert (a + b)[1..] == a[1..] + b;
      assert ValidRecords(a + b);
    }
  }

  /** The records that fit whole into the first n bytes. */
  ghost function WholeIn(crc: Crc, rs: seq<Record>, n: nat): (k: nat)
    requires ValidRecords(rs)
    ensures k <= |rs|
  {
    if rs == [] || n < |Encode(crc, rs[0])| then 0
    else 1 + WholeIn(crc, rs[1..], n - |Encode(crc, rs[0])|)
  }

  /** A log cut at any byte parses to exactly the records that lie whole before the cut. */
  lemma {:induction false} ParseCut(crc: Crc, rs: seq<Record>, n: nat)
    requires ValidRecords(rs) && n <= |EncodeAll(crc, rs)|
    ensures Parse(crc, EncodeAll(crc, rs)[..n]) == Records(rs[..WholeIn(crc, rs, n)])
  {
    hide Encode, DecodeNext;
    if rs != [] {
      var e := Encode(crc, rs[0]);
      var d := EncodeAll(crc, rs)[..n];
      assert ValidRecords(rs[1..]);
      if n < |e| {
        assert d == e[..n];
        DecodeCut(crc, rs[0], n);
      } else {
        var tail := EncodeAll(crc, rs[1..])[..n - |e|];
        assert d == e + tail;
        DecodeWhole(crc, rs[0], tail);
        assert d[|e|..] == tail;
        ParseCut(crc, rs[1..], n - |e|);
        var k := WholeIn(crc, rs[1..], n - |e|);
        assert rs[..k + 1] == [rs[0]] + rs[1..][..k];
      }
    }
  }

  /** What each prefix length means in records: k whole records fit exactly when their bytes do. */
  lemma {:induction false} WholeInMeaning(crc: Crc, rs: seq<Record>, n: nat, k: nat)
    requires ValidRecords(rs) && k <= |rs|
    ensures ValidRecords(rs[..k])
    ensures k <= WholeIn(crc, rs, n) <==> |EncodeAll(crc, rs[..k])| <= n
    decreases k
  {
    hide Encode;
    assert ValidRecords(rs[..k]);
    if k > 0 {
      assert ValidRecords(rs[1..]);
      assert rs[..k][1..] == rs[1..][..k - 1];
      var e := Encode(crc, rs[0]);
      if n >= |e| {
        WholeInMeaning(crc, rs[1..], n - |e|, k - 1);
      }
    }
  }

  /** The whole log, and the log with a torn append at its end. */
  lemma ParseTornAppend(crc: Crc, rs: seq<Record>, r: Record, n: nat)
    requires ValidRecords(rs) && ValidRecord(r) && n <= |Encode(crc, r)|
    ensures Parse(crc, EncodeAll(crc, rs) + Encode(crc, r)[..n])
         == Records(if n == |Encode(crc, r)| then rs + [r] else rs)
  {
    hide Encode, Parse;
    var all := rs + [r];
    EncodeAllAppend(crc, rs, [r]);
    assert EncodeAll(crc, [r]) == Encode(crc, r) by {
      assert [r][1..] == [];
      assert Encode(crc, r) + [] == Encode(crc, r);
    }
    var m := |EncodeAll(crc, rs)| + n;
    assert EncodeAll(crc, all)[..m] == EncodeAll(crc, rs) + Encode(crc, r)[..n];
    ParseCut(crc, all, m);
    assert all[..|rs|] == rs;
    assert all[..|all|] == all;
    WholeInMeaning(crc, all, m, |rs|);
    WholeInMeaning(crc, all, m, |all|);
  }

  // ----- any log -----

  lemma {:induction false} ParseThen(crc: Crc, rs: seq<Record>, tail: Bytes)
    requires ValidRecords(rs)
    ensures Parse(crc, EncodeAll(crc, rs) + tail)
         == match Parse(crc, tail) case WalCorrupt => WalCorrupt case Records(us) => Records(rs + us)
  {
    hide Encode, DecodeNext;
    if rs == [] {
      assert EncodeAll(crc, rs) + tail == tail;
      if Parse(crc, tail).Records? { assert [] + Parse(crc, tail).rs == Parse(crc, tail).rs; }
    } else {
      assert ValidRecords(rs[1..]);
      ParseThen(crc, rs[1..], tail);
      var e, rest := Encode(crc, rs[0]), EncodeAll(crc, rs[1..]) + tail;
      assert EncodeAll(crc, rs) + tail == e + rest;
      DecodeWhole(crc, rs[0], rest);
      assert (e + rest)[|e|..] == rest;
      if Parse(crc, tail).Records? { assert [rs[0]] + (rs[1..] + Parse(crc, tail).rs) == rs + Parse(crc, tail).rs; }
    }
  }

  /** data is the encodings of rs and then incomplete bytes. */
  ghost predicate WholeThenCut(crc: Crc, data: Bytes, rs: seq<Record>) {
    ValidRecords(rs) && EncodeAll(crc, rs) <= data && Incomplete(data[|EncodeAll(crc, rs)|..])
  }

  lemma ParseIncomplete(crc: Crc, tail: Bytes)
    requires Incomplete(tail)
    ensures Parse(crc, tail) == Records([])
  {
    hide DecodeNext, Incomplete;
    EofIff(crc, tail);
  }

  lemma CutParses(crc: Crc, data: Bytes, rs: seq<Record>)
    requires WholeThenCut(crc, data, rs)
    ensures Parse(crc, data) == Records(rs)
  {
    hide Parse, Incomplete;
    var e := EncodeAll(crc, rs);
    assert data == e + data[|e|..];
    ParseIncomplete(crc, data[|e|..]);
    ParseThen(crc, rs, data[|e|..]);
    assert rs + [] == rs;
  }

  lemma CutStep(crc: Crc, data: Bytes, n: nat, r: Record, rs: seq<Record>)
    requires ValidRecord(r) && n <= |data| && data[..n] == Encode(crc, r) && WholeThenCut(crc, data[n..], rs)
    ensures WholeThenCut(crc, data, [r] + rs)
  {
    hide Incomplete, Encode;
    var all, rest := [r] + rs, EncodeAll(crc, rs);
    assert all[1..] == rs && all[0] == r;
    assert data == data[..n] + data[n..];
    assert data[n..][|rest|..] == data[n + |rest|..];
  }

  /** Whatever the bytes of a log are, it parses to rs exactly if it is the encodings of rs and then
      incomplete bytes. */
  lemma {:induction false} ParseIff(crc: Crc, data: Bytes, rs: seq<Record>)
    ensures Parse(crc, data) == Records(rs) <==> WholeThenCut(crc, data, rs)
    decreases |data|
  {
    hide DecodeNext, Incomplete, Encode;
    if WholeThenCut(crc, data, rs) { CutParses(crc, data, rs); }
    if Parse(crc, data) == Records(rs) {
      EofIff(crc, data);
      var d := DecodeNext(crc, data);
      if data != [] && d.Rec? {
        DecodedRecord(crc, data);
        assert rs == [d.r] + rs[1..];
        ParseIff(crc, data[d.consumed..], rs[1..]);
        hide WholeThenCut;
        CutStep(crc, data, d.consumed, d.r, rs[1..]);
      } else {
        assert data[0..] == data;
        NothingIncomplete();
      }
    }
  }

  lemma NothingIncomplete()
    ensures Incomplete([])
  {}

  lemma HeaderSurvives(crc: Crc, r: Record, t: Bytes)
    requires ValidRecord(r) && r.Data? && 20 <= |t| && t[..20] == Encode(crc, r)[..20]
    ensures Get64(t[8..16]) == r.page && Get32(t[16..20]) == BODY_SIZE
  {
    var e := Encode(crc, r);
    CutHeader(r, Put32(crc(FrameOf(r))), 20);
    hide Encode, Get64, Get32, Frame;
    assert t[8..16] == t[..20][8..16] == e[..20][8..16];
    assert t[16..20] == t[..20][16..20] == e[..20][16..20];
  }

  /** One record and nothing after it. */
  lemma ParseLast(crc: Crc, t: Bytes)
    requires t != [] && (DecodeNext(crc, t).Rec? ==> DecodeNext(crc, t).consumed == |t|)
    ensures Parse(crc, t).Records? <==> !DecodeNext(crc, t).Corrupt?
  {
    hide DecodeNext;
    var d := DecodeNext(crc, t);
    if d.Rec? { assert t[d.consumed..] == []; }
  }

  /** A torn append of a data record whose header survived can be parsed exactly if it is shorter than
      the record or its checksum holds. */
  lemma TornBodyIff(crc: Crc, r: Record, t: Bytes)
    requires ValidRecord(r) && r.Data? && 20 <= |t| <= |Encode(crc, r)| && t[..20] == Encode(crc, r)[..20]
    ensures Parse(crc, t).Records? <==> |t| < |Encode(crc, r)| || Get32(t[20 + BODY_SIZE..]) == crc(t[..20 + BODY_SIZE])
  {
    HeaderSurvives(crc, r, t);
    hide Encode, Get64, Get32, Parse;
    if |t| == 24 + BODY_SIZE {
      assert t[20 + BODY_SIZE..] == t[20 + BODY_SIZE..20 + BODY_SIZE + 4];
    }
    ParseLast(crc, t);
  }

  /** A torn append whose header was lost: zeros announce no record. */
  lemma ZeroTear(crc: Crc, n: nat)
    requires n >= 20
    ensures Parse(crc, Zeros(n)) == WalCorrupt
  {
    var d := Zeros(n);
    ZeroIsZero(d[8..16]);
    ZeroIsZero(d[16..20]);
  }
}
