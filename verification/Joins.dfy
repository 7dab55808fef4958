/** The join operators (internal/engine/sql/planner/hash_join.go and join.go), each against what
    its outcome is, and against one another. */
module Joins {
  import opened Wrappers
  import opened JoinSpec
  import JoinExact

  /** What a call of Next does: produce a row, or end the join. */
  datatype Step = Produced(row: Row) | Ended(end: End)

  /** What is still to come from left row l against `right`, given that it has matched already or
      not. */
  ghost function Pending(s: Spec, l: Row, right: seq<Row>, matched: bool): Outcome
    requires Fits(s, l, right)
  {
    Padded(s, l, Matches(s, l, right), matched)
  }

  lemma PendingStep(s: Spec, l: Row, right: seq<Row>, matched: bool, rest: Outcome)
    requires ValidSpec(s) && |l| == s.leftWidth && right != [] && Wide(right, |s.types|)
    ensures s.cond.a < |l + right[0]| && s.cond.b < |l + right[0]|
    ensures Then(Pending(s, l, right, matched), rest) ==
      match Eval(s.cond, l + right[0])
      case True => Prepend(l + right[0], Then(Pending(s, l, right[1..], true), rest))
      case False => Then(Pending(s, l, right[1..], matched), rest)
      case Panic => Outcome([], Panicked)
  {
    hide DatumEqual;
    var o := Matches(s, l, right[1..]);
    assert Compared(s, l, right[0]) == Eval(s.cond, l + right[0]);
    assert [l + right[0]] + o.rows + rest.rows == [l + right[0]] + (o.rows + rest.rows);
  }

  lemma PendingNone(s: Spec, l: Row, matched: bool, rest: Outcome)
    requires s.leftKey < |l|
    ensures Then(Pending(s, l, [], matched), rest)
         == if s.outer && !matched then Prepend(l + Pad(s.types), rest) else rest
  {
    hide Pad;
    assert NOTHING.rows + rest.rows == rest.rows;
  }

  // ----- nested loops -----

  class NestedLoopJoin {
    const s: Spec
    /** Positions of the two inputs, as their Next would move them. */
    var leftPos: nat
    var rightPos: nat
    var leftRow: Row
    var leftMatched: bool

    ghost predicate Valid()
      reads this
    {
      && ValidSpec(s) && leftPos <= |s.left| && rightPos <= |s.right|
      && (leftRow != [] ==> |leftRow| == s.leftWidth)
      && (leftRow == [] ==> leftPos == |s.left|)
    }

    /** What later calls of Next will do. */
    ghost function Rest(): Outcome
      requires Valid()
      reads this
    {
      if leftRow == [] then NOTHING
      else Then(Pending(s, leftRow, s.right[rightPos..], leftMatched), From(s, leftPos))
    }

    constructor (s: Spec)
      requires ValidSpec(s)
      ensures this.s == s
    {
      this.s, leftPos, rightPos, leftRow, leftMatched := s, 0, 0, [], false;
    }

    method Open()
      requires ValidSpec(s)
      modifies this
      ensures Valid() && Rest() == Joined(s)
    {
      leftPos, rightPos, leftMatched := 0, 0, false;
      AdvanceLeft();
    }

    /** The next left row, and the right input from its start. */
    method AdvanceLeft()
      requires ValidSpec(s) && leftPos <= |s.left|
      modifies this
      ensures Valid() && Rest() == From(s, old(leftPos)) && leftPos >= old(leftPos)
      ensures leftRow != [] ==> leftPos > old(leftPos)
    {
      rightPos := 0;
      if leftPos == |s.left| {
        leftRow := [];
        return;
      }
      assert s.right[0..] == s.right;
      leftRow, leftMatched, leftPos := s.left[leftPos], false, leftPos + 1;
    }

    method Next() returns (r: Step)
      requires Valid()
      modifies this
      ensures Valid()
      ensures match r
        case Ended(end) => old(Rest()) == Outcome([], end) && (end.Eof? ==> Rest() == NOTHING)
        case Produced(row) => old(Rest()) == Prepend(row, Rest())
    {
      hide Matches, Padded, From, Pad, Eval;
      while true
        invariant Valid() && Rest() == old(Rest())
        decreases |s.left| - leftPos, leftRow != [], |s.right| - rightPos
      {
        if leftRow == [] {
          return Ended(Eof);
        }
        ghost var rest := From(s, leftPos);
        if rightPos == |s.right| {
          assert s.right[rightPos..] == [];
          PendingNone(s, leftRow, leftMatched, rest);
          var padded := leftRow + Pad(s.types);
          var pad := s.outer && !leftMatched;
          AdvanceLeft();
          if pad {
            return Produced(padded);
          }
          continue;
        }
        var rr := s.right[rightPos];
        assert s.right[rightPos..][0] == rr && s.right[rightPos..][1..] == s.right[rightPos + 1..];
        PendingStep(s, leftRow, s.right[rightPos..], leftMatched, rest);
        rightPos := rightPos + 1;
        var joined := leftRow + rr;
        match Eval(s.cond, joined)
        case True =>
          leftMatched := true;
          return Produced(joined);
        case False =>
        case Panic =>
          return Ended(Panicked);
      }
    }
  }

  // ----- hashing -----

  class HashJoin {
    const s: Spec
    var hashTable: map<string, seq<Row>>
    var leftPos: nat
    var activeProbe: Row
    var activeMatches: seq<Row>
    var matchIdx: nat
    var matchedAny: bool

    ghost predicate Valid()
      reads this
    {
      && ValidSpec(s) && leftPos <= |s.left| && matchIdx <= |activeMatches|
      && IsTable(hashTable, s.right, s.rightKey)
      && (activeProbe != [] ==> |activeProbe| == s.leftWidth) && Wide(activeMatches, |s.types|)
      && (activeProbe == [] ==> matchIdx == |activeMatches|)
    }

    ghost function Rest(): Outcome
      requires Valid()
      reads this
    {
      if activeProbe == [] then HashFrom(s, leftPos)
      else Then(Pending(s, activeProbe, activeMatches[matchIdx..], matchedAny), HashFrom(s, leftPos))
    }

    constructor (s: Spec)
      requires ValidSpec(s)
      ensures this.s == s
    {
      this.s, hashTable, leftPos := s, map[], 0;
      activeProbe, activeMatches, matchIdx, matchedAny := [], [], 0, false;
    }

    /** Build the table from the right input. */
    method Open() returns (r: Result<(), JoinError>)
      requires ValidSpec(s)
      modifies this
      ensures r.Ok? ==> Valid() && Rest() == HashJoined(s)
      ensures r.Err? ==> HashJoined(s) == Outcome([], Unsupported)
    {
      hide EncodeHashKey, Bucket, From, HashFrom, IsTable;
      hashTable, leftPos := map[], 0;
      activeProbe, activeMatches, matchIdx, matchedAny := [], [], 0, false;
      EmptyTable(s.rightKey);
      for i := 0 to |s.right|
        invariant IsTable(hashTable, s.right[..i], s.rightKey) && Keys(s.right[..i], s.rightKey)
        invariant leftPos == 0 && activeProbe == [] && activeMatches == [] && matchIdx == 0
      {
        var row := s.right[i];
        KeyOrError(row[s.rightKey]);
        var keyVal := EncodeHashKey(row[s.rightKey]);
        if keyVal.Err? {
          return Err(keyVal.error);
        }
        assert s.right[..i + 1] == s.right[..i] + [row];
        TableSnoc(hashTable, s.right[..i], s.rightKey, row);
        if keyVal.value == "" {
          continue;
        }
        var sofar := if keyVal.value in hashTable then hashTable[keyVal.value] else [];
        hashTable := hashTable[keyVal.value := sofar + [row]];
      }
      assert s.right[..|s.right|] == s.right;
      return Ok(());
    }

    /** Read the next left row and look up its bucket. */
    method Probe() returns (r: Result<(), JoinError>)
      requires Valid() && leftPos < |s.left| && matchIdx == |activeMatches|
      modifies this
      ensures Valid() && leftPos == old(leftPos) + 1
      ensures r.Ok? ==> Rest() == HashFrom(s, old(leftPos))
      ensures r.Err? ==> HashFrom(s, old(leftPos)) == Outcome([], Unsupported)
    {
      hide EncodeHashKey, Matches, Bucket, IsTable;
      activeProbe, matchedAny, leftPos := s.left[leftPos], false, leftPos + 1;
      assert activeMatches[matchIdx..] == [];
      var keyVal := EncodeHashKey(activeProbe[s.leftKey]);
      if keyVal.Err? {
        return Err(keyVal.error);
      }
      TableBucket(hashTable, s.right, |s.types|, s.rightKey, keyVal.value);
      if keyVal.value != "" && keyVal.value in hashTable {
        activeMatches, matchIdx := hashTable[keyVal.value], 0;
      } else {
        activeMatches, matchIdx := [], 0;
      }
      assert activeMatches[0..] == activeMatches;
      return Ok(());
    }

    method Next() returns (r: Step)
      requires Valid()
      modifies this
      ensures Valid()
      ensures match r
        case Ended(end) => old(Rest()) == Outcome([], end) && (end.Eof? ==> Rest() == NOTHING)
        case Produced(row) => old(Rest()) == Prepend(row, Rest())
    {
      hide Matches, Padded, HashFrom, Pad, Eval, IsTable;
      while true
        invariant Valid() && Rest() == old(Rest())
        decreases |s.left| - leftPos, |activeMatches| - matchIdx
      {
        ghost var rest := HashFrom(s, leftPos);
        if matchIdx < |activeMatches| {
          var match_ := activeMatches[matchIdx];
          assert activeMatches[matchIdx..][0] == match_ && activeMatches[matchIdx..][1..] == activeMatches[matchIdx + 1..];
          PendingStep(s, activeProbe, activeMatches[matchIdx..], matchedAny, rest);
          matchIdx := matchIdx + 1;
          var combined := activeProbe + match_;
          match Eval(s.cond, combined)
          case True =>
            matchedAny := true;
            return Produced(combined);
          case False =>
            continue;
          case Panic =>
            return Ended(Panicked);
        }
        assert activeMatches[matchIdx..] == [];
        if activeProbe != [] {
          PendingNone(s, activeProbe, matchedAny, rest);
        }
        if s.outer && |activeProbe| > 0 && !matchedAny {
          var padded := activeProbe + Pad(s.types);
          activeProbe := [];
          return Produced(padded);
        }
        if leftPos == |s.left| {
          NoneLeft(s);
          return Ended(Eof);
        }
        var probed := Probe();
        if probed.Err? {
          return Ended(Unsupported);
        }
      }
    }
  }

  lemma NoneLeft(s: Spec)
    requires ValidSpec(s)
    ensures HashFrom(s, |s.left|) == NOTHING
  {}

  lemma KeyOrError(d: Datum)
    ensures EncodeHashKey(d).Err? <==> d.Blob?
  {}

  /** The table maps each hash key to its bucket; NULL keys are in none. */
  ghost predicate IsTable(table: map<string, seq<Row>>, rows: seq<Row>, key: nat) {
    && (forall i | 0 <= i < |rows| :: key < |rows[i]|)
    && forall h: string :: Bucket(rows, key, h) == if h in table then table[h] else []
  }

  lemma EmptyTable(key: nat)
    ensures IsTable(map[], [], key)
  {}

  /** The table with one more row. */
  ghost function Put(table: map<string, seq<Row>>, h: string, row: Row): map<string, seq<Row>> {
    if h == "" then table else table[h := (if h in table then table[h] else []) + [row]]
  }

  lemma TableSnoc(table: map<string, seq<Row>>, rows: seq<Row>, key: nat, row: Row)
    requires IsTable(table, rows, key) && key < |row| && EncodeHashKey(row[key]).Ok?
    ensures IsTable(Put(table, EncodeHashKey(row[key]).value, row), rows + [row], key)
  {
    hide EncodeHashKey, Bucket, Put;
    var t := Put(table, EncodeHashKey(row[key]).value, row);
    forall h: string
      ensures Bucket(rows + [row], key, h) == if h in t then t[h] else []
    {
      BucketSnoc(rows, row, key, h);
      PutAt(table, EncodeHashKey(row[key]).value, row, h);
    }
  }

  lemma PutAt(table: map<string, seq<Row>>, k: string, row: Row, h: string)
    ensures var t := Put(table, k, row);
      (if h in t then t[h] else []) == (if h in table then table[h] else []) + if k == h && h != "" then [row] else []
  {}

  lemma TableBucket(table: map<string, seq<Row>>, rows: seq<Row>, width: nat, key: nat, h: string)
    requires IsTable(table, rows, key) && Wide(rows, width)
    ensures Bucket(rows, key, h) == if h in table && h != "" then table[h] else []
    ensures Wide(Bucket(rows, key, h), width)
  {
    if h == "" {
      JoinExact.EmptyBucket(rows, key);
    }
    forall i | 0 <= i < |Bucket(rows, key, h)|
      ensures |Bucket(rows, key, h)[i]| == width
    {
      assert Bucket(rows, key, h)[i] in rows;
    }
  }

  // ----- whole results -----

  method DrainNestedLoop(s: Spec) returns (o: Outcome)
    requires ValidSpec(s)
    ensures o == Joined(s)
  {
    hide Joined, ValidSpec, From, Pending;
    var join := new NestedLoopJoin(s);
    join.Open();
    var rows := [];
    assert [] + join.Rest().rows == join.Rest().rows;
    while true
      invariant join.Valid() && join.s == s && Then(Outcome(rows, Eof), join.Rest()) == Joined(s)
      decreases |join.Rest().rows|
    {
      var r := join.Next();
      if r.Ended? {
        return Outcome(rows, r.end);
      }
      assert rows + ([r.row] + join.Rest().rows) == (rows + [r.row]) + join.Rest().rows;
      rows := rows + [r.row];
    }
  }

  /** Hash join ends as nested loops do, with the same rows in the same order, exactly when the
      inputs agree. */
  method DrainHash(s: Spec) returns (o: Outcome)
    requires ValidSpec(s)
    ensures o == HashJoined(s)
    ensures o == Joined(s) <==> JoinExact.Agree(s)
  {
    hide Joined, ValidSpec, HashJoined, HashFrom, Pending, IsTable;
    JoinExact.HashExact(s);
    var join := new HashJoin(s);
    var opened_ := join.Open();
    if opened_.Err? {
      return Outcome([], Unsupported);
    }
    var rows := [];
    assert [] + join.Rest().rows == join.Rest().rows;
    while true
      invariant join.Valid() && join.s == s && Then(Outcome(rows, Eof), join.Rest()) == HashJoined(s)
      decreases |join.Rest().rows|
    {
      var r := join.Next();
      if r.Ended? {
        return Outcome(rows, r.end);
      }
      assert rows + ([r.row] + join.Rest().rows) == (rows + [r.row]) + join.Rest().rows;
      rows := rows + [r.row];
    }
  }
}
