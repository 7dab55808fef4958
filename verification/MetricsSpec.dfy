/** Records and their locators: what the tag index lists and what the two scans select. */
module MetricsSpec {
  import opened Wrappers
  import opened Bytes
  import opened MetricsCodec
  import opened Picks

  type Tags = map<Bytes, Bytes>

  /** splitTagPairs, as any function on tag strings; the empty string has no pairs. */
  type Split = Bytes -> Tags

  datatype Locator = Locator(page: nat, offset: nat, timestamp: I64)
  datatype Rec = Rec(loc: Locator, pt: Point)

  // ----- the records of a store -----

  function PageRecs(page: nat, pts: seq<Point>): (rs: seq<Rec>)
    ensures |rs| == |pts|
  {
    if pts == [] then []
    else
      var n := |pts| - 1;
      PageRecs(page, pts[..n]) + [Rec(Locator(page, HEADER_SIZE + |Records(pts[..n])|, pts[n].timestamp), pts[n])]
  }

  /** All records in page order. */
  function Recs(pages: seq<seq<Point>>): seq<Rec> {
    if pages == [] then []
    else
      var n := |pages| - 1;
      Recs(pages[..n]) + PageRecs(FIRST_DATA_PAGE + n, pages[n])
  }

  lemma PageRecsSnoc(page: nat, pts: seq<Point>, p: Point)
    ensures PageRecs(page, pts + [p])
         == PageRecs(page, pts) + [Rec(Locator(page, HEADER_SIZE + |Records(pts)|, p.timestamp), p)]
  {
    assert (pts + [p])[..|pts|] == pts;
  }

  /** A point added to the last page, or alone on a new page, comes last. */
  lemma RecsAppend(pages: seq<seq<Point>>, p: Point)
    requires pages != []
    ensures var n := |pages| - 1;
      && Recs(pages[n := pages[n] + [p]])
         == Recs(pages) + [Rec(Locator(FIRST_DATA_PAGE + n, HEADER_SIZE + |Records(pages[n])|, p.timestamp), p)]
      && Recs(pages + [[p]]) == Recs(pages) + [Rec(Locator(FIRST_DATA_PAGE + n + 1, HEADER_SIZE, p.timestamp), p)]
  {
    var n := |pages| - 1;
    var more, pts := pages[n := pages[n] + [p]], pages[n];
    assert more[..n] == pages[..n] && more[n] == pts + [p];
    assert (pages + [[p]])[..n + 1] == pages;
    assert [] + [p] == [p] && Records([]) == [] && PageRecs(FIRST_DATA_PAGE + n + 1, []) == [];
    PageRecsSnoc(FIRST_DATA_PAGE + n, pts, p);
    PageRecsSnoc(FIRST_DATA_PAGE + n + 1, [], p);
    RecsLast(pages);
    RecsLast(more);
    RecsLast(pages + [[p]]);
    hide Recs, PageRecs, Records;
  }

  lemma RecsLast(pages: seq<seq<Point>>)
    requires pages != []
    ensures Recs(pages) == Recs(pages[..|pages| - 1]) + PageRecs(FIRST_DATA_PAGE + |pages| - 1, pages[|pages| - 1])
  {}

  /** All points in the order of their pages. */
  ghost function Flat(pages: seq<seq<Point>>): seq<Point> {
    if pages == [] then [] else Flat(pages[..|pages| - 1]) + pages[|pages| - 1]
  }

  lemma {:induction false} PageRecPoints(page: nat, pts: seq<Point>)
    ensures forall j | 0 <= j < |pts| :: PageRecs(page, pts)[j].pt == pts[j]
  {
    if pts != [] {
      PageRecPoints(page, pts[..|pts| - 1]);
    }
  }

  /** The records hold the points. */
  lemma {:induction false} RecPoints(pages: seq<seq<Point>>)
    ensures |Recs(pages)| == |Flat(pages)| && forall n | 0 <= n < |Flat(pages)| :: Recs(pages)[n].pt == Flat(pages)[n]
  {
    if pages != [] {
      var m := |pages| - 1;
      RecPoints(pages[..m]);
      PageRecPoints(FIRST_DATA_PAGE + m, pages[m]);
      hide PageRecs;
    }
  }

  // ----- order of locators -----

  predicate Before(a: Locator, b: Locator) {
    a.page < b.page || (a.page == b.page && a.offset < b.offset)
  }

  predicate SamePlace(a: Locator, b: Locator) {
    a.page == b.page && a.offset == b.offset
  }

  ghost predicate Increasing(ls: seq<Locator>) {
    forall i, j | 0 <= i < j < |ls| :: Before(ls[i], ls[j])
  }

  function Locs(rs: seq<Rec>): (ls: seq<Locator>)
    ensures |ls| == |rs|
  {
    seq(|rs|, i requires 0 <= i < |rs| => rs[i].loc)
  }

  lemma {:induction false} PageRecsPlaces(page: nat, pts: seq<Point>)
    ensures forall i | 0 <= i < |pts| ::
      var l := PageRecs(page, pts)[i].loc; l.page == page && l.offset == HEADER_SIZE + |Records(pts[..i])|
  {
    if pts != [] {
      var n := |pts| - 1;
      PageRecsPlaces(page, pts[..n]);
      forall i | 0 <= i < |pts|
        ensures PageRecs(page, pts)[i].loc.page == page
        ensures PageRecs(page, pts)[i].loc.offset == HEADER_SIZE + |Records(pts[..i])|
      {
        if i < n { assert pts[..n][..i] == pts[..i]; }
      }
    }
  }

  lemma {:induction false} RecordsGrow(pts: seq<Point>, i: nat, j: nat)
    requires i < j <= |pts|
    ensures |Records(pts[..i])| < |Records(pts[..j])|
    decreases j
  {
    assert pts[..j][..j - 1] == pts[..j - 1];
    if i < j - 1 { RecordsGrow(pts, i, j - 1); }
  }

  lemma PageRecsIncreasing(page: nat, pts: seq<Point>)
    ensures Increasing(Locs(PageRecs(page, pts)))
  {
    PageRecsPlaces(page, pts);
    hide PageRecs, Records;
    forall i, j | 0 <= i < j < |pts| ensures Before(Locs(PageRecs(page, pts))[i], Locs(PageRecs(page, pts))[j]) {
      RecordsGrow(pts, i, j);
    }
  }

  /** Records are laid out in strictly increasing (page, offset) order. */
  lemma {:induction false} RecsIncreasing(pages: seq<seq<Point>>)
    ensures Increasing(Locs(Recs(pages)))
    ensures forall r | r in Recs(pages) :: r.loc.page < FIRST_DATA_PAGE + |pages|
  {
    if pages != [] {
      var n := |pages| - 1;
      var a, b := Recs(pages[..n]), PageRecs(FIRST_DATA_PAGE + n, pages[n]);
      RecsIncreasing(pages[..n]);
      PageRecsIncreasing(FIRST_DATA_PAGE + n, pages[n]);
      PageRecsPlaces(FIRST_DATA_PAGE + n, pages[n]);
      RecsLast(pages);
      hide PageRecs, Records, Recs;
      forall i, j | 0 <= i < j < |a + b| ensures Before(Locs(a + b)[i], Locs(a + b)[j]) {
        if j < |a| {
          assert Before(Locs(a)[i], Locs(a)[j]);
        } else if i >= |a| {
          assert Before(Locs(b)[i - |a|], Locs(b)[j - |a|]);
        } else {
          assert a[i] in a && b[j - |a|].loc.page == FIRST_DATA_PAGE + n;
        }
      }
    }
  }

  /** Increasing lists with the same members are equal. */
  lemma {:induction false} IncreasingUnique(a: seq<Locator>, b: seq<Locator>)
    requires Increasing(a) && Increasing(b) && forall l :: l in a <==> l in b
    ensures a == b
  {
    assert a != [] ==> a[0] in b;
    assert b != [] ==> b[0] in a;
    if a != [] {
      FirstSame(a, b);
      var x, y := a[1..], b[1..];
      forall l ensures l in x <==> l in y {
        TailMembers(a, l);
        TailMembers(b, l);
      }
      TailIncreasing(a);
      TailIncreasing(b);
      IncreasingUnique(x, y);
      assert a == [a[0]] + x && b == [b[0]] + y;
    }
  }

  lemma FirstSame(a: seq<Locator>, b: seq<Locator>)
    requires Increasing(a) && Increasing(b) && a != [] && b != [] && a[0] in b && b[0] in a
    ensures a[0] == b[0]
  {
    FirstIsLeast(a, b[0]);
    FirstIsLeast(b, a[0]);
  }

  lemma FirstIsLeast(a: seq<Locator>, l: Locator)
    requires Increasing(a) && l in a
    ensures l == a[0] || Before(a[0], l)
  {
    var i :| 0 <= i < |a| && a[i] == l;
    if i > 0 {
      assert Before(a[0], a[i]);
    }
  }

  lemma TailIncreasing(a: seq<Locator>)
    requires Increasing(a) && a != []
    ensures Increasing(a[1..])
  {}

  lemma TailMembers(a: seq<Locator>, l: Locator)
    requires Increasing(a) && a != []
    ensures l in a[1..] <==> l in a && l != a[0]
  {
    assert a == [a[0]] + a[1..];
    var x := a[1..];
    if l in x {
      var i :| 0 <= i < |x| && x[i] == l;
      assert Before(a[0], a[i + 1]);
    }
  }

  // ----- tags -----

  /** The point carries all these pairs. */
  predicate Has(split: Split, p: Point, tags: Tags) {
    forall k | k in tags :: k in split(p.tags) && split(p.tags)[k] == tags[k]
  }

  /** matchTags: a missing key reads as the empty string. */
  predicate MatchTags(split: Split, tagString: Bytes, required: Tags) {
    forall k | k in required ::
      (if k in split(tagString) then split(tagString)[k] else []) == required[k]
  }

  function Keep(split: Split, rs: seq<Rec>, tags: Tags): (kept: seq<Rec>)
    ensures forall r | r in kept :: r in rs && Has(split, r.pt, tags)
    ensures forall r | r in rs && Has(split, r.pt, tags) :: r in kept
  {
    if rs == [] then []
    else
      var n := |rs| - 1;
      assert rs == rs[..n] + [rs[n]];
      Keep(split, rs[..n], tags) + if Has(split, rs[n].pt, tags) then [rs[n]] else []
  }

  lemma KeepSnoc(split: Split, rs: seq<Rec>, r: Rec, tags: Tags)
    ensures Keep(split, rs + [r], tags) == Keep(split, rs, tags) + if Has(split, r.pt, tags) then [r] else []
  {
    assert (rs + [r])[..|rs|] == rs;
  }

  lemma LocsSnoc(rs: seq<Rec>, r: Rec)
    ensures Locs(rs + [r]) == Locs(rs) + [r.loc]
  {}

  lemma IncreasingSnoc(ls: seq<Locator>, l: Locator)
    requires Increasing(ls) && forall x | x in ls :: Before(x, l)
    ensures Increasing(ls + [l])
  {}

  lemma IncreasingParts(ls: seq<Locator>, l: Locator)
    requires Increasing(ls + [l])
    ensures Increasing(ls) && forall x | x in ls :: Before(x, l)
  {
    var all := ls + [l];
    forall i, j | 0 <= i < j < |ls| ensures Before(ls[i], ls[j]) {
      assert Before(all[i], all[j]);
    }
    forall i | 0 <= i < |ls| ensures Before(ls[i], l) {
      assert Before(all[i], all[|ls|]);
    }
  }

  lemma {:induction false} KeepIncreasing(split: Split, rs: seq<Rec>, tags: Tags)
    requires Increasing(Locs(rs))
    ensures Increasing(Locs(Keep(split, rs, tags)))
  {
    if rs != [] {
      var rest, r := rs[..|rs| - 1], rs[|rs| - 1];
      assert rs == rest + [r];
      hide Has, Increasing, Before, Keep, Locs;
      LocsSnoc(rest, r);
      IncreasingParts(Locs(rest), r.loc);
      KeepIncreasing(split, rest, tags);
      KeepSnoc(split, rest, r, tags);
      var kept := Keep(split, rest, tags);
      KeptLocs(rest, kept);
      LocsSnoc(kept, r);
      assert kept + [] == kept;
      IncreasingSnoc(Locs(kept), r.loc);
    }
  }

  lemma KeptLocs(rs: seq<Rec>, kept: seq<Rec>)
    requires forall r | r in kept :: r in rs
    ensures forall l | l in Locs(kept) :: l in Locs(rs)
  {
    forall l | l in Locs(kept) ensures l in Locs(rs) {
      var j :| 0 <= j < |kept| && Locs(kept)[j] == l;
      assert kept[j] in rs;
      var i :| 0 <= i < |rs| && rs[i] == kept[j];
      assert Locs(rs)[i] == l;
    }
  }

  // ----- the scans -----

  predicate InTime(p: Point, start: I64, end: I64) {
    start <= p.timestamp <= end
  }

  /** The bounds of readLocations: an end of zero means no upper bound. */
  predicate InReadTime(p: Point, start: I64, end: I64) {
    start <= p.timestamp && (end == 0 || p.timestamp <= end)
  }

  /** The points of these records within the bounds of readLocations, in order. */
  ghost function Within(rs: seq<Rec>, start: I64, end: I64): seq<Point> {
    if rs == [] then []
    else
      var n := |rs| - 1;
      Within(rs[..n], start, end) + if InReadTime(rs[n].pt, start, end) then [rs[n].pt] else []
  }

  lemma WithinSnoc(rs: seq<Rec>, r: Rec, start: I64, end: I64)
    ensures Within(rs + [r], start, end) == Within(rs, start, end) + if InReadTime(r.pt, start, end) then [r.pt] else []
  {
    assert (rs + [r])[..|rs|] == rs;
  }

  /** The full scan: time range and tags checked on every record. */
  function FullScan(split: Split, rs: seq<Rec>, start: I64, end: I64, tags: Tags): seq<Point> {
    if rs == [] then []
    else
      var n := |rs| - 1;
      FullScan(split, rs[..n], start, end, tags)
      + if InTime(rs[n].pt, start, end) && MatchTags(split, rs[n].pt.tags, tags) then [rs[n].pt] else []
  }

  lemma FullScanSnoc(split: Split, rs: seq<Rec>, r: Rec, start: I64, end: I64, tags: Tags)
    ensures FullScan(split, rs + [r], start, end, tags) == FullScan(split, rs, start, end, tags)
      + if InTime(r.pt, start, end) && MatchTags(split, r.pt.tags, tags) then [r.pt] else []
  {
    assert (rs + [r])[..|rs|] == rs;
  }

  /** The scan through the index; without a locator list it falls back to the full scan. */
  ghost function IndexedScan(split: Split, rs: seq<Rec>, start: I64, end: I64, tags: Tags): seq<Point> {
    if tags == map[] || Keep(split, rs, tags) == [] then FullScan(split, rs, start, end, tags)
    else Within(Keep(split, rs, tags), start, end)
  }

  /** How many records hold the point. */
  ghost function Count(rs: seq<Rec>, p: Point): nat {
    if rs == [] then 0 else Count(rs[..|rs| - 1], p) + if rs[|rs| - 1].pt == p then 1 else 0
  }

  lemma CountSnoc(rs: seq<Rec>, r: Rec, p: Point)
    ensures Count(rs + [r], p) == Count(rs, p) + if r.pt == p then 1 else 0
  {
    assert (rs + [r])[..|rs|] == rs;
  }

  lemma {:induction false} CountHeld(rs: seq<Rec>, r: Rec)
    requires r in rs
    ensures Count(rs, r.pt) > 0
  {
    var n := |rs| - 1;
    assert rs == rs[..n] + [rs[n]];
    if r != rs[n] {
      CountHeld(rs[..n], r);
    }
  }

  lemma {:induction false} CountNotHeld(rs: seq<Rec>, p: Point)
    requires forall r | r in rs :: r.pt != p
    ensures Count(rs, p) == 0
  {
    if rs != [] {
      assert rs == rs[..|rs| - 1] + [rs[|rs| - 1]];
      CountNotHeld(rs[..|rs| - 1], p);
    }
  }

  lemma AddOne(ps: seq<Point>, q: Point, p: Point)
    ensures multiset(ps + [q])[p] == multiset(ps)[p] + if p == q then 1 else 0
  {}

  /** Reading the kept records gives each point with the pairs and in the bounds as often as it is held. */
  lemma {:induction false} WithinCount(split: Split, rs: seq<Rec>, start: I64, end: I64, tags: Tags, p: Point)
    ensures multiset(Within(Keep(split, rs, tags), start, end))[p]
         == if Has(split, p, tags) && InReadTime(p, start, end) then Count(rs, p) else 0
  {
    if rs != [] {
      var rest, r := rs[..|rs| - 1], rs[|rs| - 1];
      assert rs == rest + [r];
      hide Has, InReadTime, Keep, Within, Count;
      WithinCount(split, rest, start, end, tags, p);
      CountSnoc(rest, r, p);
      WithinKeepSnoc(split, rest, r, start, end, tags);
      AddOne(Within(Keep(split, rest, tags), start, end), r.pt, p);
    }
  }

  lemma WithinKeepSnoc(split: Split, rs: seq<Rec>, r: Rec, start: I64, end: I64, tags: Tags)
    ensures var so := Within(Keep(split, rs, tags), start, end);
      Within(Keep(split, rs + [r], tags), start, end)
        == if Has(split, r.pt, tags) && InReadTime(r.pt, start, end) then so + [r.pt] else so
  {
    hide Has, InReadTime, Keep, Within;
    KeepSnoc(split, rs, r, tags);
    WithinSnoc(Keep(split, rs, tags), r, start, end);
    assert Keep(split, rs, tags) + [] == Keep(split, rs, tags);
    assert Within(Keep(split, rs, tags), start, end) + [] == Within(Keep(split, rs, tags), start, end);
  }

  /** The full scan gives each point that matches and is in the range as often as it is held. */
  lemma {:induction false} FullScanCount(split: Split, rs: seq<Rec>, start: I64, end: I64, tags: Tags, p: Point)
    ensures multiset(FullScan(split, rs, start, end, tags))[p]
         == if InTime(p, start, end) && MatchTags(split, p.tags, tags) then Count(rs, p) else 0
  {
    if rs != [] {
      var rest, r := rs[..|rs| - 1], rs[|rs| - 1];
      assert rs == rest + [r];
      hide MatchTags, InTime, FullScan, Count;
      FullScanCount(split, rest, start, end, tags, p);
      CountSnoc(rest, r, p);
      FullScanSnoc(split, rest, r, start, end, tags);
      AddOne(FullScan(split, rest, start, end, tags), r.pt, p);
      assert FullScan(split, rest, start, end, tags) + [] == FullScan(split, rest, start, end, tags);
    }
  }

  /** The places of the full scan's points among the records. */
  lemma {:induction false} FullScanPlaces(split: Split, rs: seq<Rec>, start: I64, end: I64, tags: Tags) returns (js: seq<nat>)
    ensures Ascending(js, |rs|) && |FullScan(split, rs, start, end, tags)| == |js|
    ensures forall i | 0 <= i < |js| :: FullScan(split, rs, start, end, tags)[i] == rs[js[i]].pt
    ensures forall n | 0 <= n < |rs| :: n in js <==> InTime(rs[n].pt, start, end) && MatchTags(split, rs[n].pt.tags, tags)
  {
    hide InTime, MatchTags;
    js := [];
    if rs != [] {
      var n := |rs| - 1;
      js := FullScanPlaces(split, rs[..n], start, end, tags);
      AscendingSnoc(js, n);
      if InTime(rs[n].pt, start, end) && MatchTags(split, rs[n].pt.tags, tags) {
        js := js + [n];
      }
    }
  }

  /** The full scan is the points with a time from start to end, both included, whose tags give
      every required value, a missing key reading as empty, in the order of the records. */
  lemma FullScanPicks(split: Split, pages: seq<seq<Point>>, start: I64, end: I64, tags: Tags) returns (js: seq<nat>)
    ensures Picked(Flat(pages), js, FullScan(split, Recs(pages), start, end, tags))
    ensures forall n | 0 <= n < |Flat(pages)| :: n in js <==>
      var p := Flat(pages)[n];
      && start <= p.timestamp <= end
      && forall k | k in tags :: (if k in split(p.tags) then split(p.tags)[k] else []) == tags[k]
  {
    hide Recs, Flat, FullScan;
    RecPoints(pages);
    js := FullScanPlaces(split, Recs(pages), start, end, tags);
  }

  lemma WithinNone(split: Split, start: I64, end: I64, tags: Tags)
    ensures Within(Keep(split, [], tags), start, end) == []
  {}

  /** The places of the points that are listed and within the bounds of readLocations. */
  lemma {:induction false} WithinPicks(split: Split, rs: seq<Rec>, start: I64, end: I64, tags: Tags) returns (js: seq<nat>)
    ensures var out := Within(Keep(split, rs, tags), start, end);
      Ascending(js, |rs|) && |out| == |js| && forall i | 0 <= i < |js| :: out[i] == rs[js[i]].pt
    ensures forall n | 0 <= n < |rs| :: n in js <==> Has(split, rs[n].pt, tags) && InReadTime(rs[n].pt, start, end)
  {
    hide Keep, Within, Has, InReadTime;
    js := [];
    WithinNone(split, start, end, tags);
    if rs != [] {
      var n := |rs| - 1;
      assert rs == rs[..n] + [rs[n]];
      js := WithinPicks(split, rs[..n], start, end, tags);
      WithinKeepSnoc(split, rs[..n], rs[n], start, end, tags);
      AscendingSnoc(js, n);
      if Has(split, rs[n].pt, tags) && InReadTime(rs[n].pt, start, end) {
        js := js + [n];
      }
    }
  }

  /** A record with the pairs that lies past the end for the full scan only: the end is zero. */
  predicate Late(split: Split, r: Rec, start: I64, end: I64, tags: Tags) {
    end == 0 && Has(split, r.pt, tags) && start <= r.pt.timestamp && r.pt.timestamp > 0
  }

  /** A record in the range that lacks a key required to be empty: it matches without being listed. */
  predicate Unlisted(split: Split, r: Rec, start: I64, end: I64, tags: Tags) {
    && InTime(r.pt, start, end) && MatchTags(split, r.pt.tags, tags)
    && exists k :: k in tags && tags[k] == [] && k !in split(r.pt.tags)
  }

  lemma ReadIsScanned(split: Split, r: Rec, start: I64, end: I64, tags: Tags)
    ensures (Has(split, r.pt, tags) && InReadTime(r.pt, start, end) <==> InTime(r.pt, start, end) && MatchTags(split, r.pt.tags, tags))
       <==> !Late(split, r, start, end, tags) && !Unlisted(split, r, start, end, tags)
  {}

  /** The indexed scan returns the points of the full scan exactly when it falls back to it, or no
      record is late and none is unlisted. */
  lemma IndexedIffFull(split: Split, rs: seq<Rec>, start: I64, end: I64, tags: Tags)
    ensures multiset(IndexedScan(split, rs, start, end, tags)) == multiset(FullScan(split, rs, start, end, tags))
       <==> || tags == map[] || Keep(split, rs, tags) == []
            || forall r | r in rs :: !Late(split, r, start, end, tags) && !Unlisted(split, r, start, end, tags)
  {
    hide Has, MatchTags, InTime, InReadTime, Keep, Within, FullScan, Count, Late, Unlisted;
    if tags != map[] && Keep(split, rs, tags) != [] {
      var a, b := multiset(Within(Keep(split, rs, tags), start, end)), multiset(FullScan(split, rs, start, end, tags));
      forall r | r in rs
        ensures !Late(split, r, start, end, tags) && !Unlisted(split, r, start, end, tags) <==> a[r.pt] == b[r.pt]
      {
        WithinCount(split, rs, start, end, tags, r.pt);
        FullScanCount(split, rs, start, end, tags, r.pt);
        CountHeld(rs, r);
        ReadIsScanned(split, r, start, end, tags);
      }
      forall p | forall r | r in rs :: r.pt != p ensures a[p] == b[p] {
        WithinCount(split, rs, start, end, tags, p);
        FullScanCount(split, rs, start, end, tags, p);
        CountNotHeld(rs, p);
      }
      if forall r | r in rs :: a[r.pt] == b[r.pt] {
        assert forall p :: a[p] == b[p];
      }
    }
  }

  /** With an end other than zero and non-empty required values they agree on every store. */
  lemma IndexedIsFull(split: Split, rs: seq<Rec>, start: I64, end: I64, tags: Tags)
    requires end != 0 && forall k | k in tags :: tags[k] != []
    ensures multiset(IndexedScan(split, rs, start, end, tags)) == multiset(FullScan(split, rs, start, end, tags))
  {
    hide IndexedScan, FullScan, Keep, Has, InTime, MatchTags;
    IndexedIffFull(split, rs, start, end, tags);
  }

  /** One point at time 1 and an end of zero: the index finds it and the full scan does not. */
  lemma LateDiffers(split: Split, r: Rec, k: Bytes)
    requires r.pt.timestamp == 1 && k in split(r.pt.tags)
    ensures multiset(IndexedScan(split, [r], 0, 0, map[k := split(r.pt.tags)[k]]))
         != multiset(FullScan(split, [r], 0, 0, map[k := split(r.pt.tags)[k]]))
  {
    var tags := map[k := split(r.pt.tags)[k]];
    assert k in tags && r in [r] && Has(split, r.pt, tags) && Late(split, r, 0, 0, tags);
    assert r in Keep(split, [r], tags);
    hide IndexedScan, FullScan, Keep;
    IndexedIffFull(split, [r], 0, 0, tags);
  }

  // ----- intersection -----

  /** Filtering by more pairs is intersecting the lists. */
  lemma KeepBoth(split: Split, rs: seq<Rec>, done: Tags, k: Bytes, v: Bytes, both: seq<Locator>)
    requires Increasing(Locs(rs)) && Increasing(both) && k !in done
    requires forall l :: l in both <==> l in Locs(Keep(split, rs, done)) && l in Locs(Keep(split, rs, map[k := v]))
    ensures both == Locs(Keep(split, rs, done[k := v]))
  {
    var all := Keep(split, rs, done[k := v]);
    KeepIncreasing(split, rs, done[k := v]);
    forall l ensures l in both <==> l in Locs(all) {
      LocsOfKeep(split, rs, done, l);
      LocsOfKeep(split, rs, map[k := v], l);
      LocsOfKeep(split, rs, done[k := v], l);
      SamePlaceSameRec(rs);
      HasBoth(split, done, k, v);
    }
    IncreasingUnique(both, Locs(all));
  }

  lemma HasBoth(split: Split, done: Tags, k: Bytes, v: Bytes)
    requires k !in done
    ensures forall p: Point :: Has(split, p, done[k := v]) <==> Has(split, p, done) && Has(split, p, map[k := v])
  {
    forall p: Point ensures Has(split, p, done[k := v]) <==> Has(split, p, done) && Has(split, p, map[k := v]) {
      assert k in map[k := v];
      if Has(split, p, done[k := v]) {
        assert k in done[k := v];
        forall j | j in done ensures j in split(p.tags) && split(p.tags)[j] == done[j] {
          assert j in done[k := v];
        }
      }
    }
  }

  lemma LocsOfKeep(split: Split, rs: seq<Rec>, tags: Tags, l: Locator)
    ensures l in Locs(Keep(split, rs, tags)) <==> exists i :: 0 <= i < |rs| && rs[i].loc == l && Has(split, rs[i].pt, tags)
  {
    var kept := Keep(split, rs, tags);
    hide Keep, Has;
    if l in Locs(kept) {
      var j :| 0 <= j < |kept| && Locs(kept)[j] == l;
      assert kept[j] in rs;
    }
    if i :| 0 <= i < |rs| && rs[i].loc == l && Has(split, rs[i].pt, tags) {
      assert rs[i] in kept;
      var j :| 0 <= j < |kept| && kept[j] == rs[i];
      assert Locs(kept)[j] == l;
    }
  }

  lemma SamePlaceSameRec(rs: seq<Rec>)
    requires Increasing(Locs(rs))
    ensures forall i, j | 0 <= i < |rs| && 0 <= j < |rs| && SamePlace(rs[i].loc, rs[j].loc) :: i == j
  {
    forall i, j | 0 <= i < |rs| && 0 <= j < |rs| && SamePlace(rs[i].loc, rs[j].loc) ensures i == j {
      assert i < j ==> Before(Locs(rs)[i], Locs(rs)[j]);
      assert j < i ==> Before(Locs(rs)[j], Locs(rs)[i]);
    }
  }
}
