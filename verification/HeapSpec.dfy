/** Multi-version rows (internal/engine/sql/heap), seen from one key: what a reader sees among its
    versions, what a write and a Vacuum do to them, and what an interrupted Vacuum leaves. */
module HeapSpec {
  import opened Wrappers
  import opened Bytes
  import opened RowValue

  /** The versions of one key. */
  type Chain = imap<U64, Cell>

  // ----- visibility -----

  /** v is the newest version that is not above r. */
  ghost predicate Newest(m: Chain, r: U64, v: U64) {
    v in m && v <= r && forall w: U64 | w in m && w <= r :: w <= v
  }

  function Reading(c: Cell): Option<Values> {
    match c
    case Live(values) => Some(values)
    case Tombstone => None
  }

  /** What a reader at r gets: the newest version not above r, unless it is a tombstone. */
  ghost function Visible(m: Chain, r: U64): Option<Values> {
    if exists v: U64 :: Newest(m, r, v) then
      var v: U64 :| Newest(m, r, v);
      Reading(m[v])
    else None
  }

  lemma NewestDecides(m: Chain, r: U64, v: U64)
    requires Newest(m, r, v)
    ensures Visible(m, r) == Reading(m[v])
  {
    assert forall w: U64 | Newest(m, r, w) :: w == v;
  }

  lemma NoVersionInvisible(m: Chain, r: U64)
    requires forall v: U64 | v in m :: v > r
    ensures Visible(m, r) == None
  {}

  /** Among versions not above r there is a greatest one. */
  lemma {:induction false} NewestExists(m: Chain, r: U64, v: U64) returns (top: U64)
    requires v in m && v <= r
    ensures Newest(m, r, top)
    decreases r - v
  {
    if w: U64 :| w in m && v < w <= r {
      top := NewestExists(m, r, w);
    } else {
      top := v;
    }
  }

  /** Chains that agree up to r read alike at r. */
  lemma SameReads(a: Chain, b: Chain, r: U64)
    requires forall v: U64 | v <= r :: v in a <==> v in b
    requires forall v: U64 | v <= r && v in a :: a[v] == b[v]
    ensures Visible(a, r) == Visible(b, r)
  {
    if v: U64 :| v in a && v <= r {
      var top := NewestExists(a, r, v);
      assert Newest(b, r, top);
      NewestDecides(a, r, top);
      NewestDecides(b, r, top);
    } else {
      NoVersionInvisible(a, r);
      NoVersionInvisible(b, r);
    }
  }

  // ----- the shape of version lists -----

  /** v is the last version before w, and it is live. */
  ghost predicate CoveredBy(m: Chain, w: U64, v: U64) {
    v < w && v in m && m[v].Live? && forall x: U64 | x in m && x < w :: x <= v
  }

  /** Every tombstone directly follows a live version. */
  ghost predicate Shaped(m: Chain) {
    forall w: U64 | w in m && m[w].Tombstone? :: exists v: U64 :: CoveredBy(m, w, v)
  }

  /** b is the next version after a. */
  ghost predicate Adjacent(m: Chain, a: U64, b: U64) {
    a in m && b in m && a < b && forall w: U64 | w in m && w < b :: w <= a
  }

  /** The oldest version is live, and tombstones are never adjacent. */
  lemma ShapeMeaning(m: Chain)
    requires Shaped(m)
    ensures forall v: U64 | v in m && (forall w: U64 | w in m :: v <= w) :: m[v].Live?
    ensures forall a: U64, b: U64 | Adjacent(m, a, b) :: m[a].Live? || m[b].Live?
  {
    forall a: U64, b: U64 | Adjacent(m, a, b) ensures m[a].Live? || m[b].Live? {
      if m[b].Tombstone? {
        var v: U64 :| CoveredBy(m, b, v);
        assert v == a;
      }
    }
  }

  // ----- writing -----

  /** A write that passed the transaction check: above every version. */
  ghost predicate Fresh(m: Chain, tx: U64) {
    forall w: U64 | w in m :: w < tx
  }

  lemma WriteReads(m: Chain, tx: U64, c: Cell, r: U64)
    requires Fresh(m, tx)
    ensures Visible(m[tx := c], r) == if tx <= r then Reading(c) else Visible(m, r)
  {
    var after := m[tx := c];
    if tx <= r {
      assert Newest(after, r, tx);
      NewestDecides(after, r, tx);
    } else {
      SameReads(m, after, r);
    }
  }

  lemma WriteKeepsShape(m: Chain, tx: U64, c: Cell)
    requires Shaped(m) && Fresh(m, tx)
    requires c.Tombstone? ==> Visible(m, tx).Some?
    ensures Shaped(m[tx := c])
  {
    var after := m[tx := c];
    forall w: U64 | w in after && after[w].Tombstone? ensures exists v: U64 :: CoveredBy(after, w, v) {
      if w == tx {
        var v: U64 :| Newest(m, tx, v);
        NewestDecides(m, tx, v);
        assert CoveredBy(after, w, v);
      } else {
        var v: U64 :| CoveredBy(m, w, v);
        assert CoveredBy(after, w, v);
      }
    }
  }

  // ----- Vacuum -----

  ghost predicate HasNewer(m: Chain, h: U64) {
    exists w: U64 :: w in m && w > h
  }

  /** Vacuum(h) keeps this version: it is above h; or the newest version not above h is live and
      not newer; or that version is a tombstone with newer versions above h. */
  ghost predicate Kept(m: Chain, h: U64, v: U64) {
    || v > h
    || exists top: U64 :: Newest(m, h, top) && if m[top].Live? then top <= v else HasNewer(m, h)
  }

  ghost function Vacuumed(m: Chain, h: U64): Chain {
    imap v: U64 | v in m && Kept(m, h, v) :: m[v]
  }

  /** What is left when only the dropped versions from `cut` on have been deleted: Vacuum deletes
      them newest first. */
  ghost function PartlyVacuumed(m: Chain, h: U64, cut: nat): Chain {
    imap v: U64 | v in m && (Kept(m, h, v) || v < cut) :: m[v]
  }

  lemma KeptBy(m: Chain, h: U64, top: U64, v: U64)
    requires Newest(m, h, top)
    ensures Kept(m, h, v) <==> v > h || if m[top].Live? then top <= v else HasNewer(m, h)
  {
    assert forall w: U64 | Newest(m, h, w) :: w == top;
  }

  lemma CutZero(m: Chain, h: U64)
    ensures PartlyVacuumed(m, h, 0) == Vacuumed(m, h)
  {}

  /** Deleting the tombstone first brings back the row under it. */
  ghost predicate Revives(m: Chain, h: U64, cut: nat) {
    exists top: U64, v: U64 ::
      && Newest(m, h, top) && m[top].Tombstone? && !HasNewer(m, h) && cut <= top
      && v in m && v < cut && m[v].Live? && forall w: U64 | w in m && w < cut :: w <= v
  }

  /** Readers at or after the horizon see what they saw before, at every point of a Vacuum, exactly
      if no deleted tombstone uncovers a live version. */
  lemma PartialVacuumIff(m: Chain, h: U64, cut: nat)
    ensures (forall r: U64 | h <= r :: Visible(PartlyVacuumed(m, h, cut), r) == Visible(m, r)) <==> !Revives(m, h, cut)
  {
    if v: U64 :| v in m && v <= h {
      var top := NewestExists(m, h, v);
      if m[top].Live? || HasNewer(m, h) || cut > top {
        forall r: U64 | h <= r ensures Visible(PartlyVacuumed(m, h, cut), r) == Visible(m, r) {
          TopStays(m, h, cut, top, r);
        }
        assert !Revives(m, h, cut) by {
          assert forall w: U64 | Newest(m, h, w) :: w == top;
        }
      } else {
        ChainDies(m, h, cut, top);
      }
    } else {
      assert !Revives(m, h, cut);
      assert PartlyVacuumed(m, h, cut) == m;
    }
  }

  lemma TopStays(m: Chain, h: U64, cut: nat, top: U64, r: U64)
    requires Newest(m, h, top) && h <= r && (m[top].Live? || HasNewer(m, h) || cut > top)
    ensures Visible(PartlyVacuumed(m, h, cut), r) == Visible(m, r)
  {
    var after := PartlyVacuumed(m, h, cut);
    var now := NewestExists(m, r, top);
    KeptBy(m, h, top, now);
    assert now in after && Newest(after, r, now);
    NewestDecides(m, r, now);
    NewestDecides(after, r, now);
  }

  /** The newest version is an old tombstone, and the deletion has reached it. */
  ghost predicate Dying(m: Chain, h: U64, cut: nat, top: U64) {
    Newest(m, h, top) && m[top].Tombstone? && !HasNewer(m, h) && cut <= top
  }

  lemma LeftBelow(m: Chain, h: U64, cut: nat, top: U64)
    requires Dying(m, h, cut, top)
    ensures forall v: U64 :: v in PartlyVacuumed(m, h, cut) <==> v in m && v < cut
  {
    forall v: U64 ensures v in PartlyVacuumed(m, h, cut) <==> v in m && v < cut {
      KeptBy(m, h, top, v);
    }
  }

  lemma ReadsNothing(m: Chain, h: U64, cut: nat, top: U64, r: U64)
    requires Dying(m, h, cut, top) && h <= r
    ensures Visible(m, r) == None
  {
    assert Newest(m, r, top);
    NewestDecides(m, r, top);
  }

  lemma RevivesUnder(m: Chain, h: U64, cut: nat, top: U64, under: U64)
    requires Dying(m, h, cut, top)
    requires under in m && under < cut && forall w: U64 | w in m && w < cut :: w <= under
    ensures Revives(m, h, cut) <==> m[under].Live?
  {
    if v: U64 :| v in m && v < cut && m[v].Live? && forall w: U64 | w in m && w < cut :: w <= v {
      assert v == under;
    }
  }

  /** All versions go, newest first. */
  lemma ChainDies(m: Chain, h: U64, cut: nat, top: U64)
    requires Dying(m, h, cut, top)
    ensures (forall r: U64 | h <= r :: Visible(PartlyVacuumed(m, h, cut), r) == Visible(m, r)) <==> !Revives(m, h, cut)
  {
    var after := PartlyVacuumed(m, h, cut);
    LeftBelow(m, h, cut, top);
    if v: U64 :| v in after {
      var under := NewestExists(after, h, v);
      RevivesUnder(m, h, cut, top, under);
      hide PartlyVacuumed, Visible, Revives;
      forall r: U64 | h <= r ensures Visible(after, r) == Reading(after[under]) && Visible(m, r) == None {
        ReadsNothing(m, h, cut, top, r);
        assert Newest(after, r, under);
        NewestDecides(after, r, under);
      }
      assert Visible(after, h) == Reading(after[under]) && Visible(m, h) == None;
      PartlySame(m, h, cut, under);
    } else {
      assert !Revives(m, h, cut);
      forall r: U64 | h <= r ensures Visible(after, r) == None == Visible(m, r) {
        NoVersionInvisible(after, r);
        ReadsNothing(m, h, cut, top, r);
      }
    }
  }

  lemma PartlySame(m: Chain, h: U64, cut: nat, v: U64)
    requires v in PartlyVacuumed(m, h, cut)
    ensures PartlyVacuumed(m, h, cut)[v] == m[v]
  {}

  /** A live version 1 under a tombstone 2: once 2 is deleted, 1 can be read again. */
  lemma DeletedRowReturns(values: Values)
    ensures var m: Chain := imap[1 := Live(values), 2 := Tombstone];
      Visible(m, 2) == None && Visible(PartlyVacuumed(m, 2, 2), 2) == Some(values)
  {
    var m: Chain := imap[1 := Live(values), 2 := Tombstone];
    assert Newest(m, 2, 2);
    NewestDecides(m, 2, 2);
    var after := PartlyVacuumed(m, 2, 2);
    KeptBy(m, 2, 2, 2);
    assert Newest(after, 2, 1);
    NewestDecides(after, 2, 1);
  }

  /** A finished Vacuum leaves every read at or after its horizon unchanged. */
  lemma VacuumKeepsReads(m: Chain, h: U64, r: U64)
    requires h <= r
    ensures Visible(Vacuumed(m, h), r) == Visible(m, r)
  {
    CutZero(m, h);
    PartialVacuumIff(m, h, 0);
  }

  /** Vacuum drops a version not above the horizon exactly if the newest such version of the key is
      live and newer, or is a tombstone and the newest version of all. */
  lemma VacuumDropsIff(m: Chain, h: U64, v: U64)
    requires v in m
    ensures v !in Vacuumed(m, h) <==>
      && v <= h
      && exists top: U64 ::
           && Newest(m, h, top)
           && if m[top].Live? then v < top else forall w: U64 | w in m :: w <= top
  {
    if v <= h {
      var top := NewestExists(m, h, v);
      KeptBy(m, h, top, v);
      assert forall w: U64 | Newest(m, h, w) :: w == top;
    }
  }

  /** At most one version not above h remains, unless the newest of them is a tombstone that newer
      versions keep. */
  lemma VacuumLeavesOne(m: Chain, h: U64, a: U64, b: U64)
    requires a in Vacuumed(m, h) && b in Vacuumed(m, h) && a < b <= h
    ensures exists top: U64 :: Newest(m, h, top) && m[top].Tombstone? && HasNewer(m, h)
  {
    var top := NewestExists(m, h, b);
    KeptBy(m, h, top, a);
  }

  lemma VacuumKeepsShape(m: Chain, h: U64)
    requires Shaped(m)
    ensures Shaped(Vacuumed(m, h))
  {
    var after := Vacuumed(m, h);
    forall w: U64 | w in after && after[w].Tombstone? ensures exists v: U64 :: CoveredBy(after, w, v) {
      var v: U64 :| CoveredBy(m, w, v);
      CoverKept(m, h, w, v);
      assert CoveredBy(after, w, v);
    }
  }

  /** The live version under a kept tombstone is kept. */
  lemma CoverKept(m: Chain, h: U64, w: U64, v: U64)
    requires w in m && m[w].Tombstone? && Kept(m, h, w) && CoveredBy(m, w, v)
    ensures Kept(m, h, v)
  {
    if v <= h {
      if w > h {
        assert Newest(m, h, v);
      } else {
        var top := NewestExists(m, h, w);
        KeptBy(m, h, top, w);
        KeptBy(m, h, top, v);
      }
    }
  }

  // ----- replaying writes -----

  /** A version written for one key. */
  datatype KeyWrite = KeyWrite(tx: U64, cell: Cell)

  /** The last of the writes with an ID not above r decides. */
  function Replayed(ws: seq<KeyWrite>, r: U64): Option<Values> {
    if ws == [] then None
    else
      var n := |ws| - 1;
      if ws[n].tx <= r then Reading(ws[n].cell) else Replayed(ws[..n], r)
  }

  lemma ReplaySnoc(ws: seq<KeyWrite>, w: KeyWrite, r: U64)
    ensures Replayed(ws + [w], r) == if w.tx <= r then Reading(w.cell) else Replayed(ws, r)
  {
    assert (ws + [w])[..|ws|] == ws;
  }
}
