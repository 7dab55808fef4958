/** The metrics store and its tag index (internal/engine/metrics/store.go and index.go): the
    indexed scan returns what the full scan returns. */
module Metrics {
  import opened Wrappers
  import opened Bytes
  import opened MetricsCodec
  import opened MetricsSpec
  import opened Picks

  datatype Error = ErrStoreNotOpen | ErrRecordTooLarge

  type Index = map<Bytes, map<Bytes, seq<Locator>>>

  function ListOf(index: Index, k: Bytes, v: Bytes): seq<Locator> {
    if k in index && v in index[k] then index[k][v] else []
  }

  /** For every pair the index lists exactly the records that carry it, in order. */
  ghost predicate IndexOf(split: Split, rs: seq<Rec>, index: Index) {
    forall k: Bytes, v: Bytes :: ListOf(index, k, v) == Locs(Keep(split, rs, map[k := v]))
  }

  // ----- the tag index -----

  class TagIndex {
    const split: Split
    var index: Index

    constructor (split: Split)
      ensures this.split == split && index == map[]
    {
      this.split, index := split, map[];
    }

    /** Append the locator to the list of each pair. */
    method Insert(tagString: Bytes, loc: Locator)
      modifies this
      ensures Inserted(old(index), index, split(tagString), split(tagString).Keys, loc)
    {
      var pairs := split(tagString);
      var todo := pairs.Keys;
      ghost var before := index;
      while todo != {}
        invariant todo <= pairs.Keys
        invariant Inserted(before, index, pairs, pairs.Keys - todo, loc)
      {
        var k :| k in todo;
        var vals := if k in index then index[k] else map[];
        var locs := if pairs[k] in vals then vals[pairs[k]] else [];
        InsertOne(before, index, pairs, pairs.Keys - todo, k, loc);
        index := index[k := vals[pairs[k] := locs + [loc]]];
        assert pairs.Keys - (todo - {k}) == pairs.Keys - todo + {k};
        todo := todo - {k};
      }
    }

    /** The records that carry all constraints, or None for none. */
    method SearchAll(constraints: Tags, ghost rs: seq<Rec>) returns (r: Option<seq<Locator>>)
      requires IndexOf(split, rs, index) && Increasing(Locs(rs))
      ensures r == if constraints == map[] || Keep(split, rs, constraints) == [] then None
                   else Some(Locs(Keep(split, rs, constraints)))
    {
      hide Keep, Has, IndexOf, Increasing, Locs;
      if constraints == map[] {
        return None;
      }
      var result: seq<Locator> := [];
      var first := true;
      var todo := constraints.Keys;
      ghost var done: Tags := map[];
      while todo != {}
        invariant todo <= constraints.Keys && first == (done == map[])
        invariant done.Keys == constraints.Keys - todo && forall k | k in done :: done[k] == constraints[k]
        invariant !first ==> result == Locs(Keep(split, rs, done)) && result != []
      {
        var k :| k in todo;
        var v := constraints[k];
        var locs := ListOf(index, k, v);
        Listed(split, rs, index, k, v);
        if |locs| == 0 {
          KeepNone(split, rs, map[k := v], constraints);
          return None;
        }
        if first {
          result, first := locs, false;
          assert done[k := v] == map[k := v];
        } else {
          KeepIncreasing(split, rs, done);
          KeepIncreasing(split, rs, map[k := v]);
          ghost var a := result;
          result := IntersectLocs(result, locs);
          MeetOfKeeps(split, rs, done, k, v, a, locs, result);
          if |result| == 0 {
            KeepNone(split, rs, done[k := v], constraints);
            return None;
          }
        }
        todo, done := todo - {k}, done[k := v];
      }
      assert done == constraints;
      LocsOfNone();
      return Some(result);
    }
  }

  lemma LocsOfNone()
    ensures Locs([]) == []
  {}

  /** The pairs with keys in `done` have been added. */
  ghost predicate Inserted(before: Index, after: Index, pairs: Tags, done: set<Bytes>, loc: Locator) {
    forall k: Bytes, v: Bytes :: ListOf(after, k, v)
      == ListOf(before, k, v) + if k in done && (k, v) in pairs.Items then [loc] else []
  }

  lemma InsertOne(before: Index, mid: Index, pairs: Tags, done: set<Bytes>, k: Bytes, loc: Locator)
    requires Inserted(before, mid, pairs, done, loc) && k in pairs && k !in done
    ensures var vals := if k in mid then mid[k] else map[];
      var locs := if pairs[k] in vals then vals[pairs[k]] else [];
      Inserted(before, mid[k := vals[pairs[k] := locs + [loc]]], pairs, done + {k}, loc)
  {
    var vals := if k in mid then mid[k] else map[];
    var locs := if pairs[k] in vals then vals[pairs[k]] else [];
    var after := mid[k := vals[pairs[k] := locs + [loc]]];
    forall j: Bytes, v: Bytes
      ensures ListOf(after, j, v)
           == ListOf(before, j, v) + if j in done + {k} && (j, v) in pairs.Items then [loc] else []
    {
      assert ListOf(mid, j, v) == ListOf(before, j, v) + if j in done && (j, v) in pairs.Items then [loc] else [];
      assert ListOf(before, j, v) + [] == ListOf(before, j, v);
    }
  }

  lemma Listed(split: Split, rs: seq<Rec>, index: Index, k: Bytes, v: Bytes)
    requires IndexOf(split, rs, index)
    ensures ListOf(index, k, v) == Locs(Keep(split, rs, map[k := v]))
  {}

  /** More constraints keep no more records. */
  lemma KeepNone(split: Split, rs: seq<Rec>, some: Tags, all: Tags)
    requires Locs(Keep(split, rs, some)) == [] && forall k | k in some :: k in all && all[k] == some[k]
    ensures Keep(split, rs, all) == []
  {
    assert Keep(split, rs, some) == [];
    forall r | r in rs ensures !Has(split, r.pt, all) {
      assert r !in Keep(split, rs, some);
    }
  }

  /** intersectLocs, by merging two increasing lists. */
  method IntersectLocs(a: seq<Locator>, b: seq<Locator>) returns (result: seq<Locator>)
    requires Increasing(a) && Increasing(b)
    ensures Increasing(result)
    ensures forall l :: l in result <==> l in a && exists j :: 0 <= j < |b| && SamePlace(l, b[j])
  {
    result := [];
    var i, j := 0, 0;
    while i < |a| && j < |b|
      invariant 0 <= i <= |a| && 0 <= j <= |b|
      invariant Merged(a, b, i, j, result)
      decreases |a| - i + |b| - j
    {
      MergeStep(a, b, i, j, result);
      if Before(a[i], b[j]) {
        i := i + 1;
      } else if Before(b[j], a[i]) {
        j := j + 1;
      } else {
        result := result + [a[i]];
        i, j := i + 1, j + 1;
      }
    }
    MergeEnd(a, b, i, j, result);
  }

  /** result is what a[..i] and b have in common, and no later entry of a meets b[..j]. */
  ghost predicate Merged(a: seq<Locator>, b: seq<Locator>, i: nat, j: nat, result: seq<Locator>)
    requires i <= |a| && j <= |b|
  {
    && Increasing(result)
    && (forall l | l in result :: l in a[..i] && exists y :: 0 <= y < |b| && SamePlace(l, b[y]))
    && (forall x, y | 0 <= x < i && 0 <= y < |b| && SamePlace(a[x], b[y]) :: a[x] in result)
    && (forall x, y | i <= x < |a| && 0 <= y < j :: Before(b[y], a[x]))
  }

  lemma MergeStep(a: seq<Locator>, b: seq<Locator>, i: nat, j: nat, result: seq<Locator>)
    requires Increasing(a) && Increasing(b) && i < |a| && j < |b| && Merged(a, b, i, j, result)
    ensures Before(a[i], b[j]) ==> Merged(a, b, i + 1, j, result)
    ensures Before(b[j], a[i]) ==> Merged(a, b, i, j + 1, result)
    ensures SamePlace(a[i], b[j]) ==> Merged(a, b, i + 1, j + 1, result + [a[i]])
  {
    assert a[..i + 1] == a[..i] + [a[i]];
    assert forall x | i < x < |a| :: Before(a[i], a[x]);
    assert forall y | j < y < |b| :: Before(b[j], b[y]);
    if SamePlace(a[i], b[j]) {
      forall l | l in result ensures Before(l, a[i]) {
        var x :| 0 <= x < i && a[..i][x] == l;
        assert Before(a[x], a[i]);
      }
      IncreasingSnoc(result, a[i]);
    }
  }

  lemma MergeEnd(a: seq<Locator>, b: seq<Locator>, i: nat, j: nat, result: seq<Locator>)
    requires i <= |a| && j <= |b| && Merged(a, b, i, j, result) && (i == |a| || j == |b|)
    ensures Increasing(result)
    ensures forall l :: l in result <==> l in a && exists y :: 0 <= y < |b| && SamePlace(l, b[y])
  {
    forall l | l in a && exists y :: 0 <= y < |b| && SamePlace(l, b[y]) ensures l in result {
      var x :| 0 <= x < |a| && a[x] == l;
      var y :| 0 <= y < |b| && SamePlace(l, b[y]);
      assert x >= i && y < j ==> Before(b[y], a[x]);
    }
  }

  /** Intersecting the lists of two filters gives the list of both. */
  lemma MeetOfKeeps(split: Split, rs: seq<Rec>, done: Tags, k: Bytes, v: Bytes, a: seq<Locator>, b: seq<Locator>, both: seq<Locator>)
    requires Increasing(Locs(rs)) && k !in done
    requires a == Locs(Keep(split, rs, done)) && b == Locs(Keep(split, rs, map[k := v]))
    requires Increasing(both) && forall l :: l in both <==> l in a && exists j :: 0 <= j < |b| && SamePlace(l, b[j])
    ensures both == Locs(Keep(split, rs, done[k := v]))
  {
    KeptLocs(rs, Keep(split, rs, done));
    KeptLocs(rs, Keep(split, rs, map[k := v]));
    hide Keep, Has;
    forall l ensures l in both <==> l in a && l in b {
      if l in a && l !in b {
        SameLocator(rs, l, b);
      } else if l in b {
        var j :| 0 <= j < |b| && b[j] == l;
        assert SamePlace(l, b[j]);
      }
    }
    KeepBoth(split, rs, done, k, v, both);
  }

  /** Among the locators of a store, the place determines the locator. */
  lemma SameLocator(rs: seq<Rec>, l: Locator, b: seq<Locator>)
    requires Increasing(Locs(rs)) && l in Locs(rs) && (forall x | x in b :: x in Locs(rs)) && l !in b
    ensures forall j | 0 <= j < |b| :: !SamePlace(l, b[j])
  {
    var i :| 0 <= i < |rs| && Locs(rs)[i] == l;
    forall j | 0 <= j < |b| ensures !SamePlace(l, b[j]) {
      assert b[j] in Locs(rs);
      var m :| 0 <= m < |rs| && Locs(rs)[m] == b[j];
      assert i < m ==> Before(Locs(rs)[i], Locs(rs)[m]);
      assert m < i ==> Before(Locs(rs)[m], Locs(rs)[i]);
    }
  }

  // ----- the store -----

  class MetricsStore {
    const tagIndex: TagIndex
    var isOpen: bool
    /** Page bodies from the first data page on, as the pager keeps them. */
    var bodies: seq<Bytes>
    var currentPageId: nat
    var currentBody: Bytes
    /** The points on each page. */
    ghost var pages: seq<seq<Point>>

    /** The page bodies hold the points. */
    ghost predicate PagesOk()
      reads this
    {
      && isOpen && pages != [] && Hold(bodies, pages)
      && currentPageId == FIRST_DATA_PAGE + |pages| - 1 && currentBody == bodies[|bodies| - 1]
    }

    ghost predicate Valid()
      reads this, tagIndex
    {
      && PagesOk() && tagIndex.split([]) == map[]
      && IndexOf(tagIndex.split, Recs(pages), tagIndex.index)
    }

    /** The points in the order they were appended. */
    ghost function Contents(): seq<Point>
      reads this
    {
      Flat(pages)
    }

    constructor (tagIndex: TagIndex)
      ensures this.tagIndex == tagIndex && !isOpen && bodies == []
    {
      this.tagIndex := tagIndex;
      isOpen, bodies, currentPageId, currentBody, pages := false, [], 0, [], [];
    }

    /** Open on a new pager: the first data page is allocated and written. */
    method Open()
      requires !isOpen && bodies == [] && tagIndex.index == map[] && tagIndex.split([]) == map[]
      modifies this
      ensures Valid() && Contents() == []
    {
      currentPageId := FIRST_DATA_PAGE;
      EmptyBody();
      currentBody := LittleEndian(0, 4) + LittleEndian(HEADER_SIZE, 4) + Zeros(BODY_SIZE - HEADER_SIZE);
      bodies, pages, isOpen := [currentBody], [[]], true;
      NothingIndexed(tagIndex.split);
    }

    /** Write the record at the write offset of the current page, or of a new one. */
    method PlacePoint(p: Point) returns (offset: nat)
      requires PagesOk() && Size(p) <= BODY_SIZE - HEADER_SIZE
      modifies this`bodies, this`currentPageId, this`currentBody, this`pages
      ensures PagesOk() && Added(old(pages), pages, p)
      ensures var n := |old(pages)| - 1;
        pages == if HEADER_SIZE + |Records(old(pages)[n])| + Size(p) <= BODY_SIZE then old(pages)[n := old(pages)[n] + [p]]
                 else old(pages) + [[p]]
      ensures Recs(pages) == Recs(old(pages)) + [Rec(Locator(currentPageId, offset, p.timestamp), p)]
    {
      hide Recs, PageBody, Records, EncodePoint, LittleEndian, FromLittleEndian, FitsPage, Splice, Hold;
      ghost var n := |pages| - 1;
      ghost var pts := pages[n];
      FittingPage(bodies, pages, n);
      HeaderFields(pts);
      RecsAppend(pages, p);
      NoRecords();
      var numPoints, nextOffset := FromLittleEndian(currentBody[0..4]), FromLittleEndian(currentBody[4..8]);
      if nextOffset + Size(p) > BODY_SIZE {
        currentPageId := FIRST_DATA_PAGE + |bodies|;
        bodies := bodies + [Zeros(BODY_SIZE)];
        EmptyBody();
        currentBody := LittleEndian(0, 4) + LittleEndian(HEADER_SIZE, 4) + Zeros(BODY_SIZE - HEADER_SIZE);
        numPoints, nextOffset := 0, HEADER_SIZE;
        assert [] + [p] == [p];
        pts, pages := [], pages + [[p]];
      } else {
        pages := pages[n := pts + [p]];
      }
      AppendBody(pts, p);
      currentBody := Splice(currentBody, nextOffset, EncodePoint(p));
      currentBody := Splice(currentBody, 0, LittleEndian(numPoints + 1, 4) + LittleEndian(nextOffset + Size(p), 4));
      bodies := bodies[currentPageId - FIRST_DATA_PAGE := currentBody];
      HoldMore(old(bodies), old(pages), bodies, pages, p);
      offset := nextOffset;
    }

    /** Append to the current page, or to a new one when the record does not fit. */
    method AppendPoint(p: Point) returns (r: Result<(), Error>)
      requires isOpen ==> Valid()
      modifies this, tagIndex
      ensures r == if !old(isOpen) then Err(ErrStoreNotOpen)
                   else if 20 + |p.tags| + |p.name| > 4076 then Err(ErrRecordTooLarge) else Ok(())
      ensures r.Err? ==> bodies == old(bodies) && tagIndex.index == old(tagIndex.index) && pages == old(pages)
      ensures r.Err? && old(isOpen) ==> Valid()
      ensures r.Ok? ==> Valid() && Contents() == old(Contents()) + [p]
      ensures r.Ok? ==> var n := |old(pages)| - 1;
        pages == if 8 + |Records(old(pages)[n])| + 20 + |p.tags| + |p.name| <= 4084 then old(pages)[n := old(pages)[n] + [p]]
                 else old(pages) + [[p]]
    {
      hide Recs, IndexOf, FromLittleEndian, Hold, Flat;
      if !isOpen {
        return Err(ErrStoreNotOpen);
      }
      if Size(p) > BODY_SIZE - HEADER_SIZE {
        return Err(ErrRecordTooLarge);
      }
      ghost var before := pages;
      var offset := PlacePoint(p);
      IndexPoint(p, offset, before);
      FlatAdded(before, pages, p);
      return Ok(());
    }

    /** Tell the index about the record just written. */
    method IndexPoint(p: Point, offset: nat, ghost before: seq<seq<Point>>)
      requires PagesOk() && tagIndex.split([]) == map[] && IndexOf(tagIndex.split, Recs(before), tagIndex.index)
      requires Recs(pages) == Recs(before) + [Rec(Locator(currentPageId, offset, p.timestamp), p)]
      modifies tagIndex
      ensures Valid()
    {
      hide Recs, Keep, IndexOf, Inserted, Hold;
      var loc := Locator(currentPageId, offset, p.timestamp);
      if p.tags != [] {
        ghost var index := tagIndex.index;
        tagIndex.Insert(p.tags, loc);
        IndexOneMore(tagIndex.split, Recs(before), Rec(loc, p), index, tagIndex.index);
      } else {
        IndexUntagged(tagIndex.split, Recs(before), Rec(loc, p), tagIndex.index);
      }
    }

    // ----- scans -----

    /** Every page, every point: time range and tags. */
    method ScanRange(start: I64, end: I64, tags: Tags) returns (r: Result<seq<Point>, Error>, ghost js: seq<nat>)
      requires isOpen ==> PagesOk()
      ensures r == if !isOpen then Err(ErrStoreNotOpen)
                   else Ok(FullScan(tagIndex.split, Recs(pages), start, end, tags))
      ensures isOpen ==> r.Ok? && Picked(Contents(), js, r.value)
      ensures isOpen ==> forall n | 0 <= n < |Contents()| :: n in js <==>
        var p := Contents()[n];
        && start <= p.timestamp <= end
        && forall k | k in tags :: (if k in tagIndex.split(p.tags) then tagIndex.split(p.tags)[k] else []) == tags[k]
    {
      hide Recs, PageRecs, FullScan, MatchTags, FitsPage, PageBody, DecodePage, Flat, Picked;
      if !isOpen {
        return Err(ErrStoreNotOpen), [];
      }
      var results: seq<Point> := [];
      ScanNothing(tagIndex.split, start, end, tags);
      for i := 0 to |bodies|
        invariant results == FullScan(tagIndex.split, Recs(pages[..i]), start, end, tags)
      {
        PageRoundTrip(pages[i]);
        var points := DecodePoints(bodies[i]);
        results := ScanPoints(results, points, start, end, tags, Recs(pages[..i]), FIRST_DATA_PAGE + i);
        RecsOneMore(pages, i);
      }
      assert pages[..|pages|] == pages;
      js := FullScanPicks(tagIndex.split, pages, start, end, tags);
      return Ok(results), js;
    }

    /** Look up the tags in the index; without an answer from it, scan everything. For a non-zero
        end and non-empty required values this returns the points of the full scan. */
    method ScanRangeWithIndex(start: I64, end: I64, tags: Tags)
      returns (r: Result<seq<Point>, Error>, ghost ordered: seq<Point>, ghost js: seq<nat>, ghost listed: set<nat>)
      requires isOpen ==> Valid()
      ensures !isOpen ==> r == Err(ErrStoreNotOpen)
      ensures isOpen ==> r.Ok? && multiset(r.value) == multiset(IndexedScan(tagIndex.split, Recs(pages), start, end, tags))
      ensures isOpen ==> multiset(r.value) == multiset(ordered) && Picked(Contents(), js, ordered)
      ensures isOpen ==> forall n: nat :: n in listed <==>
        && n < |Contents()|
        && var p := Contents()[n]; forall k | k in tags :: k in tagIndex.split(p.tags) && tagIndex.split(p.tags)[k] == tags[k]
      ensures isOpen ==> forall n | 0 <= n < |Contents()| :: n in js <==>
        var p := Contents()[n];
        if tags != map[] && listed != {} then n in listed && start <= p.timestamp && (end == 0 || p.timestamp <= end)
        else
          && start <= p.timestamp <= end
          && forall k | k in tags :: (if k in tagIndex.split(p.tags) then tagIndex.split(p.tags)[k] else []) == tags[k]
    {
      hide Recs, IndexOf, Hold, FullScan, ReadEach, Keep, Locs, Increasing, Within, Flat, Picked;
      listed := {};
      if !isOpen {
        return Err(ErrStoreNotOpen), [], [], {};
      }
      listed := ListedPoints(tagIndex.split, pages, tags);
      if tags != map[] {
        RecsIncreasing(pages);
        var locs := tagIndex.SearchAll(tags, Recs(pages));
        if locs.Some? {
          var points, _, _ := ReadLocations(bodies, locs.value, start, end);
          ReadKept(tagIndex.split, bodies, pages, start, end, tags);
          ordered, js := ReadPicked(tagIndex.split, pages, start, end, tags, listed);
          return Ok(points), ordered, js, listed;
        }
      }
      r, js := ScanRange(start, end, tags);
      ordered := r.value;
    }

    method ScanPoints(before: seq<Point>, points: seq<Point>, start: I64, end: I64, tags: Tags, ghost rs: seq<Rec>, ghost page: nat)
      returns (results: seq<Point>)
      requires before == FullScan(tagIndex.split, rs, start, end, tags)
      ensures results == FullScan(tagIndex.split, rs + PageRecs(page, points), start, end, tags)
    {
      hide PageRecs, FullScan;
      results := before;
      NoPageRecs(page);
      assert rs + [] == rs;
      for j := 0 to |points|
        invariant results == FullScan(tagIndex.split, rs + PageRecs(page, points[..j]), start, end, tags)
      {
        var p := points[j];
        PageRecsSnoc(page, points[..j], p);
        assert points[..j + 1] == points[..j] + [p];
        ghost var so, r := PageRecs(page, points[..j]), Rec(Locator(page, HEADER_SIZE + |Records(points[..j])|, p.timestamp), p);
        assert rs + (so + [r]) == (rs + so) + [r];
        FullScanSnoc(tagIndex.split, rs + so, r, start, end, tags);
        if p.timestamp < start || p.timestamp > end {
          continue;
        }
        if !MatchTags(tagIndex.split, p.tags, tags) {
          continue;
        }
        results := results + [p];
      }
      assert points[..|points|] == points;
    }
  }

  /** The points that carry all pairs: there are some exactly if the index has an answer. */
  lemma ListedPoints(split: Split, pages: seq<seq<Point>>, tags: Tags) returns (listed: set<nat>)
    ensures forall n: nat :: n in listed <==>
      && n < |Flat(pages)|
      && forall k | k in tags :: k in split(Flat(pages)[n].tags) && split(Flat(pages)[n].tags)[k] == tags[k]
    ensures listed == {} <==> Keep(split, Recs(pages), tags) == []
  {
    hide Recs, Flat;
    RecPoints(pages);
    var pts, rs := Flat(pages), Recs(pages);
    listed := set n | 0 <= n < |pts| && Has(split, pts[n], tags);
    var kept := Keep(split, rs, tags);
    if kept != [] {
      assert kept[0] in rs && Has(split, kept[0].pt, tags);
      var n :| 0 <= n < |rs| && rs[n] == kept[0];
      assert n in listed;
    }
    if listed != {} {
      var n :| n in listed;
      assert rs[n] in rs && rs[n] in kept;
    }
  }

  lemma ReadPicked(split: Split, pages: seq<seq<Point>>, start: I64, end: I64, tags: Tags, listed: set<nat>)
    returns (ordered: seq<Point>, js: seq<nat>)
    requires forall n: nat :: n in listed <==>
      && n < |Flat(pages)|
      && forall k | k in tags :: k in split(Flat(pages)[n].tags) && split(Flat(pages)[n].tags)[k] == tags[k]
    ensures ordered == Within(Keep(split, Recs(pages), tags), start, end) && Picked(Flat(pages), js, ordered)
    ensures forall n | 0 <= n < |Flat(pages)| :: n in js <==>
      n in listed && start <= Flat(pages)[n].timestamp && (end == 0 || Flat(pages)[n].timestamp <= end)
  {
    hide Recs, Flat, Keep, Within;
    RecPoints(pages);
    ordered := Within(Keep(split, Recs(pages), tags), start, end);
    js := WithinPicks(split, Recs(pages), start, end, tags);
  }

  lemma FlatAdded(before: seq<seq<Point>>, after: seq<seq<Point>>, p: Point)
    requires Added(before, after, p)
    ensures Flat(after) == Flat(before) + [p]
  {
    var n := |before| - 1;
    if after == before + [[p]] {
      assert after[..n + 1] == before;
    } else {
      assert after[..n] == before[..n];
    }
  }

  // ----- reading at locators -----

  /** The point at one place, if it is readable and in range; end 0 means no upper bound. */
  function ReadOne(bodies: seq<Bytes>, page: nat, offset: nat, start: I64, end: I64): seq<Point> {
    if page < FIRST_DATA_PAGE || page - FIRST_DATA_PAGE >= |bodies| then []
    else
      var body := bodies[page - FIRST_DATA_PAGE];
      if offset >= |body| then []
      else
        match DecodePoint(body[offset..])
        case None => []
        case Some(r) => if InReadTime(r.0, start, end) then [r.0] else []
  }

  /** The locators on some pages, read in order. */
  ghost function ReadSome(bodies: seq<Bytes>, locs: seq<Locator>, pages: set<nat>, start: I64, end: I64): seq<Point> {
    if locs == [] then []
    else
      var n := |locs| - 1;
      ReadSome(bodies, locs[..n], pages, start, end)
      + if locs[n].page in pages then ReadOne(bodies, locs[n].page, locs[n].offset, start, end) else []
  }

  ghost function ReadEach(bodies: seq<Bytes>, locs: seq<Locator>, start: I64, end: I64): seq<Point> {
    if locs == [] then []
    else
      var n := |locs| - 1;
      ReadEach(bodies, locs[..n], start, end) + ReadOne(bodies, locs[n].page, locs[n].offset, start, end)
  }

  function Offsets(locs: seq<Locator>, page: nat): seq<nat> {
    if locs == [] then []
    else
      var n := |locs| - 1;
      Offsets(locs[..n], page) + if locs[n].page == page then [locs[n].offset] else []
  }

  ghost function ReadOffsets(bodies: seq<Bytes>, page: nat, offs: seq<nat>, start: I64, end: I64): seq<Point> {
    if offs == [] then []
    else
      var n := |offs| - 1;
      ReadOffsets(bodies, page, offs[..n], start, end) + ReadOne(bodies, page, offs[n], start, end)
  }

  lemma ReadOffsetsSnoc(bodies: seq<Bytes>, page: nat, offs: seq<nat>, off: nat, start: I64, end: I64)
    ensures ReadOffsets(bodies, page, offs + [off], start, end)
         == ReadOffsets(bodies, page, offs, start, end) + ReadOne(bodies, page, off, start, end)
  {
    assert (offs + [off])[..|offs|] == offs;
  }

  /** One more page: its points join those of the pages read before. */
  lemma {:induction false} ReadOnePage(bodies: seq<Bytes>, locs: seq<Locator>, done: set<nat>, page: nat, start: I64, end: I64)
    requires page !in done
    ensures multiset(ReadSome(bodies, locs, done + {page}, start, end))
         == multiset(ReadSome(bodies, locs, done, start, end))
            + multiset(ReadOffsets(bodies, page, Offsets(locs, page), start, end))
  {
    if locs != [] {
      var rest, l := locs[..|locs| - 1], locs[|locs| - 1];
      assert locs == rest + [l];
      hide ReadOne, ReadSome, ReadOffsets, Offsets;
      ReadOnePage(bodies, rest, done, page, start, end);
      ReadOnePageStep(bodies, rest, l, done, page, start, end);
    }
  }

  lemma ReadOnePageStep(bodies: seq<Bytes>, rest: seq<Locator>, l: Locator, done: set<nat>, page: nat, start: I64, end: I64)
    requires page !in done
    requires multiset(ReadSome(bodies, rest, done + {page}, start, end))
          == multiset(ReadSome(bodies, rest, done, start, end))
             + multiset(ReadOffsets(bodies, page, Offsets(rest, page), start, end))
    ensures multiset(ReadSome(bodies, rest + [l], done + {page}, start, end))
         == multiset(ReadSome(bodies, rest + [l], done, start, end))
            + multiset(ReadOffsets(bodies, page, Offsets(rest + [l], page), start, end))
  {
    hide ReadOne, ReadSome, ReadOffsets, Offsets;
    ReadSomeSnoc(bodies, rest, l, done + {page}, start, end);
    ReadSomeSnoc(bodies, rest, l, done, start, end);
    OffsetsSnoc(rest, l, page);
    ReadOffsetsSnoc(bodies, page, Offsets(rest, page), l.offset, start, end);
    JoinOne(ReadSome(bodies, rest, done + {page}, start, end), ReadSome(bodies, rest, done, start, end),
            ReadOffsets(bodies, page, Offsets(rest, page), start, end), ReadOne(bodies, l.page, l.offset, start, end));
  }

  lemma JoinOne(a: seq<Point>, b: seq<Point>, c: seq<Point>, one: seq<Point>)
    requires multiset(a) == multiset(b) + multiset(c)
    ensures multiset(a + one) == multiset(b + one) + multiset(c) == multiset(b) + multiset(c + one)
  {}

  lemma ReadSomeSnoc(bodies: seq<Bytes>, locs: seq<Locator>, l: Locator, pages: set<nat>, start: I64, end: I64)
    ensures ReadSome(bodies, locs + [l], pages, start, end)
         == if l.page in pages
            then ReadSome(bodies, locs, pages, start, end) + ReadOne(bodies, l.page, l.offset, start, end)
            else ReadSome(bodies, locs, pages, start, end)
  {
    assert (locs + [l])[..|locs|] == locs;
    var a := ReadSome(bodies, locs, pages, start, end);
    assert a + [] == a;
  }

  lemma OffsetsSnoc(locs: seq<Locator>, l: Locator, page: nat)
    ensures Offsets(locs + [l], page) == if l.page == page then Offsets(locs, page) + [l.offset] else Offsets(locs, page)
  {
    assert (locs + [l])[..|locs|] == locs;
  }

  lemma {:induction false} ReadAllPages(bodies: seq<Bytes>, locs: seq<Locator>, done: set<nat>, start: I64, end: I64)
    requires forall l | l in locs :: l.page in done
    ensures ReadSome(bodies, locs, done, start, end) == ReadEach(bodies, locs, start, end)
  {
    hide ReadOne;
    if locs != [] {
      var n := |locs| - 1;
      assert locs[n] in locs;
      ReadAllPages(bodies, locs[..n], done, start, end);
    }
  }

  lemma {:induction false} ReadNoPage(bodies: seq<Bytes>, locs: seq<Locator>, start: I64, end: I64)
    ensures ReadSome(bodies, locs, {}, start, end) == []
  {
    if locs != [] { ReadNoPage(bodies, locs[..|locs| - 1], start, end); }
  }

  /** Group the locators by page, in order within a page. */
  method GroupByPage(locs: seq<Locator>) returns (pageLocs: map<nat, seq<nat>>)
    ensures forall l | l in locs :: l.page in pageLocs
    ensures forall page | page in pageLocs :: pageLocs[page] == Offsets(locs, page)
  {
    hide Offsets;
    pageLocs := map[];
    NoGroups();
    for i := 0 to |locs|
      invariant Grouped(locs[..i], pageLocs)
    {
      assert locs[..i + 1] == locs[..i] + [locs[i]];
      GroupOneMore(locs[..i], locs[i], pageLocs);
      var page := locs[i].page;
      var offs := if page in pageLocs then pageLocs[page] else [];
      pageLocs := pageLocs[page := offs + [locs[i].offset]];
    }
    assert locs[..|locs|] == locs;
  }

  ghost predicate Grouped(locs: seq<Locator>, pageLocs: map<nat, seq<nat>>) {
    && (forall l | l in locs :: l.page in pageLocs)
    && (forall page: nat :: Offsets(locs, page) == if page in pageLocs then pageLocs[page] else [])
  }

  lemma NoGroups()
    ensures Grouped([], map[])
  {}

  lemma GroupOneMore(locs: seq<Locator>, l: Locator, pageLocs: map<nat, seq<nat>>)
    requires Grouped(locs, pageLocs)
    ensures Grouped(locs + [l], pageLocs[l.page := (if l.page in pageLocs then pageLocs[l.page] else []) + [l.offset]])
  {
    hide Offsets;
    forall page: nat
      ensures Offsets(locs + [l], page) == if l.page == page then Offsets(locs, page) + [l.offset] else Offsets(locs, page)
    {
      OffsetsSnoc(locs, l, page);
    }
  }

  /** readLocations: page by page, in whatever order the map gives. */
  method ReadLocations(bodies: seq<Bytes>, locs: seq<Locator>, start: I64, end: I64)
    returns (results: seq<Point>, ghost ordered: seq<Point>, ghost js: seq<nat>)
    ensures multiset(results) == multiset(ReadEach(bodies, locs, start, end))
    ensures multiset(results) == multiset(ordered) && Ascending(js, |locs|) && |ordered| == |js|
    ensures forall i | 0 <= i < |js| :: PointAt(bodies, locs[js[i]]) == Some(ordered[i])
    ensures forall n | 0 <= n < |locs| :: n in js <==>
      var at := PointAt(bodies, locs[n]);
      at.Some? && start <= at.value.timestamp && (end == 0 || at.value.timestamp <= end)
  {
    hide ReadOne, ReadSome, ReadEach, ReadOffsets, Offsets;
    var pageLocs := GroupByPage(locs);
    var todo := pageLocs.Keys;
    ghost var done: set<nat> := {};
    results := [];
    ReadNoPage(bodies, locs, start, end);
    while todo != {}
      invariant todo !! done && todo + done == pageLocs.Keys
      invariant multiset(results) == multiset(ReadSome(bodies, locs, done, start, end))
    {
      var page :| page in todo;
      ReadOnePage(bodies, locs, done, page, start, end);
      var more := ReadPageOffsets(bodies, page, pageLocs[page], start, end);
      results := results + more;
      todo, done := todo - {page}, done + {page};
    }
    ReadAllPages(bodies, locs, done, start, end);
    ordered, js := ReadEachPicks(bodies, locs, start, end);
  }

  /** The point recorded at a place of a data page. */
  ghost function PointAt(bodies: seq<Bytes>, l: Locator): Option<Point> {
    if l.page < 2 || l.page - 2 >= |bodies| || l.offset >= |bodies[l.page - 2]| then None
    else
      match DecodePoint(bodies[l.page - 2][l.offset..])
      case None => None
      case Some(r) => Some(r.0)
  }

  lemma ReadOneIff(bodies: seq<Bytes>, l: Locator, start: I64, end: I64)
    ensures var one, at := ReadOne(bodies, l.page, l.offset, start, end), PointAt(bodies, l);
      && (one != [] <==> at.Some? && start <= at.value.timestamp && (end == 0 || at.value.timestamp <= end))
      && (one != [] ==> at == Some(one[0]) && one == [one[0]])
  {
    hide DecodePoint;
  }

  lemma ReadEachSnoc(bodies: seq<Bytes>, locs: seq<Locator>, start: I64, end: I64)
    ensures locs == [] ==> ReadEach(bodies, locs, start, end) == []
    ensures locs != [] ==>
      var n := |locs| - 1;
      ReadEach(bodies, locs, start, end)
        == ReadEach(bodies, locs[..n], start, end) + ReadOne(bodies, locs[n].page, locs[n].offset, start, end)
  {}

  lemma {:induction false} ReadEachPicks(bodies: seq<Bytes>, locs: seq<Locator>, start: I64, end: I64)
    returns (ordered: seq<Point>, js: seq<nat>)
    ensures ordered == ReadEach(bodies, locs, start, end) && Ascending(js, |locs|) && |ordered| == |js|
    ensures forall i | 0 <= i < |js| :: PointAt(bodies, locs[js[i]]) == Some(ordered[i])
    ensures forall n | 0 <= n < |locs| :: n in js <==>
      var at := PointAt(bodies, locs[n]);
      at.Some? && start <= at.value.timestamp && (end == 0 || at.value.timestamp <= end)
  {
    hide PointAt, ReadOne, ReadEach;
    ReadEachSnoc(bodies, locs, start, end);
    ordered, js := [], [];
    if locs != [] {
      var n := |locs| - 1;
      var so, places := ReadEachPicks(bodies, locs[..n], start, end);
      AscendingSnoc(places, n);
      ReadOneIff(bodies, locs[n], start, end);
      ordered := ReadEach(bodies, locs, start, end);
      js := if ReadOne(bodies, locs[n].page, locs[n].offset, start, end) == [] then places else places + [n];
    }
  }

  method ReadPageOffsets(bodies: seq<Bytes>, page: nat, offs: seq<nat>, start: I64, end: I64) returns (results: seq<Point>)
    ensures results == ReadOffsets(bodies, page, offs, start, end)
  {
    results := [];
    for i := 0 to |offs|
      invariant results == ReadOffsets(bodies, page, offs[..i], start, end)
    {
      ReadOffsetsSnoc(bodies, page, offs[..i], offs[i], start, end);
      assert offs[..i + 1] == offs[..i] + [offs[i]];
      results := results + ReadOne(bodies, page, offs[i], start, end);
    }
    assert offs[..|offs|] == offs;
  }

  // ----- locators lead to their records -----

  ghost predicate Decodes(bodies: seq<Bytes>, r: Rec) {
    && FIRST_DATA_PAGE <= r.loc.page < FIRST_DATA_PAGE + |bodies|
    && var body := bodies[r.loc.page - FIRST_DATA_PAGE];
       && r.loc.offset < |body|
       && var d := DecodePoint(body[r.loc.offset..]); d.Some? && d.value.0 == r.pt
  }

  lemma {:induction false} PageRecAt(page: nat, pts: seq<Point>, j: nat)
    requires j < |pts|
    ensures PageRecs(page, pts)[j] == Rec(Locator(page, HEADER_SIZE + |Records(pts[..j])|, pts[j].timestamp), pts[j])
  {
    var n := |pts| - 1;
    if j < n {
      PageRecAt(page, pts[..n], j);
      assert pts[..n][..j] == pts[..j];
    }
  }

  lemma PageDecodes(bodies: seq<Bytes>, pages: seq<seq<Point>>, i: nat, j: nat)
    requires Hold(bodies, pages) && i < |pages| && j < |pages[i]|
    ensures Decodes(bodies, PageRecs(FIRST_DATA_PAGE + i, pages[i])[j])
  {
    var pts := pages[i];
    PageRecAt(FIRST_DATA_PAGE + i, pts, j);
    assert pts == pts[..j] + [pts[j]] + pts[j + 1..];
    hide PageRecs, Records, DecodePoint, PageBody, FitsPage;
    RecordAt(pts[..j], pts[j], pts[j + 1..]);
  }

  lemma {:induction false} RecsDecode(bodies: seq<Bytes>, pages: seq<seq<Point>>, n: nat)
    requires Hold(bodies, pages) && n <= |pages|
    ensures forall r | r in Recs(pages[..n]) :: Decodes(bodies, r)
  {
    hide Decodes, Hold, PageRecs;
    if n > 0 {
      RecsDecode(bodies, pages, n - 1);
      RecsOneMore(pages, n - 1);
      var rs := PageRecs(FIRST_DATA_PAGE + n - 1, pages[n - 1]);
      forall r | r in rs ensures Decodes(bodies, r) {
        var j :| 0 <= j < |rs| && rs[j] == r;
        PageDecodes(bodies, pages, n - 1, j);
      }
    }
  }

  /** Reading at the locators of records gives the records within the bounds. */
  lemma {:induction false} ReadEachIsWithin(bodies: seq<Bytes>, rs: seq<Rec>, start: I64, end: I64)
    requires forall r | r in rs :: Decodes(bodies, r)
    ensures ReadEach(bodies, Locs(rs), start, end) == Within(rs, start, end)
  {
    hide DecodePoint;
    if rs != [] {
      var n := |rs| - 1;
      assert rs[n] in rs;
      ReadEachIsWithin(bodies, rs[..n], start, end);
      assert Locs(rs)[..n] == Locs(rs[..n]);
      assert ReadOne(bodies, rs[n].loc.page, rs[n].loc.offset, start, end)
          == if InReadTime(rs[n].pt, start, end) then [rs[n].pt] else [];
    }
  }

  lemma ReadKept(split: Split, bodies: seq<Bytes>, pages: seq<seq<Point>>, start: I64, end: I64, tags: Tags)
    requires Hold(bodies, pages)
    ensures ReadEach(bodies, Locs(Keep(split, Recs(pages), tags)), start, end) == Within(Keep(split, Recs(pages), tags), start, end)
  {
    hide Recs, Keep, Hold, Decodes, ReadEach, Locs, Within, Has;
    RecsDecode(bodies, pages, |pages|);
    assert pages[..|pages|] == pages;
    ReadEachIsWithin(bodies, Keep(split, Recs(pages), tags), start, end);
  }

  lemma ScanNothing(split: Split, start: I64, end: I64, tags: Tags)
    ensures Recs([]) == [] && FullScan(split, [], start, end, tags) == []
  {}

  lemma NoPageRecs(page: nat)
    ensures PageRecs(page, []) == []
  {}

  lemma RecsOneMore(pages: seq<seq<Point>>, i: nat)
    requires i < |pages|
    ensures Recs(pages[..i + 1]) == Recs(pages[..i]) + PageRecs(FIRST_DATA_PAGE + i, pages[i])
  {
    assert pages[..i + 1][..i] == pages[..i];
  }

  /** The decoding loop over a page body. */
  method DecodePoints(body: Bytes) returns (points: seq<Point>)
    ensures points == DecodePage(body)
  {
    if |body| < HEADER_SIZE {
      return [];
    }
    hide DecodePoint, FromLittleEndian;
    var n := FromLittleEndian(body[0..4]);
    points := [];
    var rest := body[8..];
    ghost var all := DecodeMany(rest, n);
    assert [] + all == all;
    for i := 0 to n
      invariant all == points + DecodeMany(rest, n - i)
    {
      var r := DecodePoint(rest);
      if r.None? {
        assert points + [] == points;
        return;
      }
      assert points + ([r.value.0] + DecodeMany(rest[r.value.1..], n - i - 1))
          == (points + [r.value.0]) + DecodeMany(rest[r.value.1..], n - i - 1);
      points, rest := points + [r.value.0], rest[r.value.1..];
    }
    assert points + [] == points;
  }

  /** p was added to the last page or alone to a new page. */
  ghost predicate Added(before: seq<seq<Point>>, after: seq<seq<Point>>, p: Point) {
    before != [] && (after == before[|before| - 1 := before[|before| - 1] + [p]] || after == before + [[p]])
  }

  ghost predicate Hold(bodies: seq<Bytes>, pages: seq<seq<Point>>) {
    |bodies| == |pages| && forall i | 0 <= i < |pages| :: FitsPage(pages[i]) && bodies[i] == PageBody(pages[i])
  }

  lemma FittingPage(bodies: seq<Bytes>, pages: seq<seq<Point>>, i: nat)
    requires Hold(bodies, pages) && i < |pages|
    ensures |bodies| == |pages| && HEADER_SIZE + |Records(pages[i])| <= BODY_SIZE && bodies[i] == PageBody(pages[i])
  {}

  lemma NoRecords()
    ensures Records([]) == []
  {}

  lemma EmptyBody()
    ensures Records([]) == [] && FitsPage([])
    ensures PageBody([]) == LittleEndian(0, 4) + LittleEndian(HEADER_SIZE, 4) + Zeros(BODY_SIZE - HEADER_SIZE)
  {
    hide LittleEndian;
    var h := LittleEndian(0, 4) + LittleEndian(HEADER_SIZE, 4);
    assert h + [] + Zeros(BODY_SIZE - HEADER_SIZE) == h + Zeros(BODY_SIZE - HEADER_SIZE);
  }

  lemma HoldMore(b0: seq<Bytes>, p0: seq<seq<Point>>, b1: seq<Bytes>, p1: seq<seq<Point>>, p: Point)
    requires Hold(b0, p0) && Added(p0, p1, p) && |b1| == |p1| && Size(p) <= BODY_SIZE - HEADER_SIZE
    requires forall i | 0 <= i < |b1| - 1 :: i < |b0| && b1[i] == b0[i]
    requires HEADER_SIZE + |Records(p1[|p1| - 1])| <= BODY_SIZE && b1[|b1| - 1] == PageBody(p1[|p1| - 1])
    ensures Hold(b1, p1)
  {
    hide PageBody, Records;
  }

  lemma NothingIndexed(split: Split)
    ensures IndexOf(split, Recs([[]]), map[]) && Recs([[]]) == []
  {
    var pages: seq<seq<Point>> := [[]];
    assert pages[..0] == [];
    assert Recs([]) == [] && PageRecs(FIRST_DATA_PAGE, []) == [];
  }

  lemma IndexOneMore(split: Split, rs: seq<Rec>, r: Rec, before: Index, after: Index)
    requires IndexOf(split, rs, before)
    requires Inserted(before, after, split(r.pt.tags), split(r.pt.tags).Keys, r.loc)
    ensures IndexOf(split, rs + [r], after)
  {
    hide Keep;
    forall k: Bytes, v: Bytes ensures ListOf(after, k, v) == Locs(Keep(split, rs + [r], map[k := v])) {
      KeepSnoc(split, rs, r, map[k := v]);
      HasOne(split, r.pt, k, v);
      LocsSnoc(Keep(split, rs, map[k := v]), r);
      assert Keep(split, rs, map[k := v]) + [] == Keep(split, rs, map[k := v]);
      assert ListOf(before, k, v) + [] == ListOf(before, k, v);
    }
  }

  lemma HasOne(split: Split, p: Point, k: Bytes, v: Bytes)
    ensures Has(split, p, map[k := v]) <==> (k, v) in split(p.tags).Items
    ensures (k, v) in split(p.tags).Items ==> k in split(p.tags).Keys
  {
    assert k in map[k := v];
  }

  lemma IndexUntagged(split: Split, rs: seq<Rec>, r: Rec, index: Index)
    requires IndexOf(split, rs, index) && split(r.pt.tags) == map[]
    ensures IndexOf(split, rs + [r], index)
  {
    assert Inserted(index, index, map[], {}, r.loc) by {
      assert forall k: Bytes, v: Bytes :: ListOf(index, k, v) + [] == ListOf(index, k, v);
    }
    hide Inserted, IndexOf;
    IndexOneMore(split, rs, r, index, index);
  }
}
