/**
 The STAT4 accumulator: a single pass over a sorted index that keeps a bounded
 set of sample rows together with their nEq, nLt and nDLt counters.
 */
module Stat4 {
  import opened IndexGroups
  import opened Stat4Samples
  import opened Arith

  // ------------------------------------------------ changes to the sample list

  /** Some sample's count for column c is still unknown. */
  predicate Shares(a: seq<Sample>, c: nat) {
    exists j :: 0 <= j < |a| && c < |a[j].anEq| && a[j].anEq[c] == 0
  }

  predicate SharesPeriodic(a: seq<Sample>, c: nat) {
    exists j :: 0 <= j < |a| && c < |a[j].anEq| && a[j].anEq[c] == 0 && a[j].isPSample
  }

  function Upgraded(s: Sample, pNew: Sample): Sample
    requires |s.anEq| == |pNew.anEq| && pNew.iCol < |pNew.anEq|
  {
    s.(iCol := pNew.iCol, anEq := s.anEq[pNew.iCol := pNew.anEq[pNew.iCol]])
  }

  function Removed(a: seq<Sample>, m: nat): (r: seq<Sample>)
    requires m < |a|
  {
    a[..m] + a[m + 1..]
  }

  /** Sample z at the end, in place of sample m if the array was full. */
  function WithNew(a: seq<Sample>, mxSample: nat, m: nat, z: Sample): seq<Sample>
    requires |a| >= mxSample ==> m < |a|
  {
    (if |a| >= mxSample then Removed(a, m) else a) + [z]
  }

  ghost predicate AllRanked(a: seq<Sample>, nCol: nat) {
    forall j :: 0 <= j < |a| ==> |a[j].anEq| == nCol && (!a[j].isPSample ==> Ranked(a[j]))
  }

  /** Sample m is non-periodic and preferred to no other non-periodic sample. */
  ghost predicate IsLeast(a: seq<Sample>, m: int, nCol: nat)
    requires AllRanked(a, nCol)
  {
    && 0 <= m < |a| && !a[m].isPSample
    && forall j :: 0 <= j < |a| && !a[j].isPSample ==> !IsBetter(a[m], a[j])
  }

  /** Sample u has an unknown count for column c and no such sample is preferred to it. */
  ghost predicate IsUpgradeChoice(a: seq<Sample>, u: int, c: nat, nCol: nat)
    requires AllRanked(a, nCol)
  {
    && 0 <= u < |a| && c < nCol && a[u].anEq[c] == 0 && !a[u].isPSample
    && forall j :: 0 <= j < |a| && a[j].anEq[c] == 0 && !a[j].isPSample ==> !IsBetter(a[j], a[u])
  }

  /** The list is in row order, not too long, and iMin is its least preferred sample when it is full. */
  ghost predicate IsBounded(a: seq<Sample>, iMin: nat, nMaxEqZero: nat, nCol: nat, mxSample: nat) {
    && |a| <= mxSample && InRowOrder(a)
    && PeriodicCount(a) <= mxSample / 3
    && nMaxEqZero < nCol && NoZeroFrom(a, nMaxEqZero)
    && AllRanked(a, nCol) && (|a| == mxSample ==> IsLeast(a, iMin, nCol))
  }

  ghost predicate BestsOk(aBest: seq<Sample>, chng: seq<nat>, ids: seq<Rowid>, nCol: nat) {
    && |aBest| == nCol && chng != []
    && (forall i :: 0 <= i < nCol - 1 ==> BestOk(aBest[i], chng, ids, nCol, i))
    && (forall i :: 0 <= i < nCol - 1 ==> Widest(aBest[i], chng, nCol, i))
  }

  ghost predicate FreshBest(aBest: seq<Sample>, nCol: nat) {
    |aBest| == nCol && forall i :: 0 <= i < nCol ==> aBest[i].iCol == i && aBest[i].anEq == seq(nCol, _ => 0)
  }

  /**
   The new list a1 when pNew is offered to the list a0 whose least sample is m:
   nothing happens if a periodic sample shares its prefix, the preferred sharer
   is upgraded if there is one, and otherwise pNew is added, replacing sample m
   of a full list.
   */
  ghost predicate Inserted(a0: seq<Sample>, m: nat, pNew: Sample, nEqZero: nat, nCol: nat, mxSample: nat,
                           a1: seq<Sample>) {
    && AllRanked(a0, nCol) && nEqZero < nCol == |pNew.anEq|
    && (|a0| >= mxSample ==> m < |a0|)
    && if pNew.isPSample || !Shares(a0, nEqZero) then a1 == WithNew(a0, mxSample, m, Zeroed(pNew, nEqZero))
       else if SharesPeriodic(a0, nEqZero) then a1 == a0
       else
         && pNew.iCol < nCol
         && exists u :: IsUpgradeChoice(a0, u, nEqZero, nCol) && a1 == a0[u := Upgraded(a0[u], pNew)]
  }

  // ----------------------------------------------------- periodic samples last

  ghost predicate HasPeriodic(a: seq<Sample>, q: nat) {
    exists j :: 0 <= j < |a| && |a[j].anLt| > 0 && a[j].isPSample && Pos(a[j]) == q
  }

  ghost predicate KeepsPeriodic(a0: seq<Sample>, a1: seq<Sample>) {
    forall q :: HasPeriodic(a0, q) ==> HasPeriodic(a1, q)
  }

  /** Row q completes a multiple of nPSample rows. */
  predicate Due(q: nat, nPSample: nat)
    requires nPSample > 0
  {
    q / nPSample != (q + 1) / nPSample
  }

  /** Every row that was due as a periodic sample is still among the samples. */
  ghost predicate AllDueKept(a: seq<Sample>, nRow: nat, nPSample: nat)
    requires nPSample > 0
  {
    forall q :: 0 <= q < nRow && Due(q, nPSample) ==> HasPeriodic(a, q)
  }

  lemma DueStaysKept(a0: seq<Sample>, a1: seq<Sample>, nRow: nat, nPSample: nat)
    requires nPSample > 0 && AllDueKept(a0, nRow, nPSample) && KeepsPeriodic(a0, a1)
    ensures AllDueKept(a1, nRow, nPSample)
  {
    hide HasPeriodic;
  }

  lemma PointwisePeriodic(a0: seq<Sample>, a1: seq<Sample>)
    requires |a0| <= |a1|
    requires forall j :: 0 <= j < |a0| ==> a0[j].isPSample == a1[j].isPSample && a0[j].anLt == a1[j].anLt
    ensures KeepsPeriodic(a0, a1)
  {
    forall q | HasPeriodic(a0, q) ensures HasPeriodic(a1, q) {
      var j :| 0 <= j < |a0| && |a0[j].anLt| > 0 && a0[j].isPSample && Pos(a0[j]) == q;
      assert a1[j].isPSample && Pos(a1[j]) == q;
    }
  }

  lemma WithNewKeepsPeriodic(a0: seq<Sample>, mxSample: nat, m: nat, z: Sample)
    requires |a0| >= mxSample ==> m < |a0| && !a0[m].isPSample
    ensures KeepsPeriodic(a0, WithNew(a0, mxSample, m, z))
    ensures |z.anLt| > 0 && z.isPSample ==> HasPeriodic(WithNew(a0, mxSample, m, z), Pos(z))
  {
    var a1 := WithNew(a0, mxSample, m, z);
    assert a1[|a1| - 1] == z;
    if |a0| >= mxSample {
      forall q | HasPeriodic(a0, q) ensures HasPeriodic(a1, q) {
        var j :| 0 <= j < |a0| && |a0[j].anLt| > 0 && a0[j].isPSample && Pos(a0[j]) == q;
        var j' := if j < m then j else j - 1;
        assert a1[j'] == a0[j];
      }
    } else {
      PointwisePeriodic(a0, a1);
    }
  }

  lemma InsertedKeepsPeriodic(a0: seq<Sample>, m: nat, pNew: Sample, nEqZero: nat, nCol: nat, mxSample: nat,
                              a1: seq<Sample>)
    requires Inserted(a0, m, pNew, nEqZero, nCol, mxSample, a1) && |pNew.anLt| > 0
    requires |a0| >= mxSample ==> !a0[m].isPSample
    ensures KeepsPeriodic(a0, a1)
    ensures pNew.isPSample ==> HasPeriodic(a1, Pos(pNew))
  {
    hide Shares, SharesPeriodic, WithNew, IsUpgradeChoice;
    if pNew.isPSample || !Shares(a0, nEqZero) {
      WithNewKeepsPeriodic(a0, mxSample, m, Zeroed(pNew, nEqZero));
      hide KeepsPeriodic, HasPeriodic;
    } else if !SharesPeriodic(a0, nEqZero) {
      UpgradeKeepsPeriodic(a0, pNew, nEqZero, nCol, a1);
    }
  }

  lemma UpgradeKeepsPeriodic(a0: seq<Sample>, pNew: Sample, c: nat, nCol: nat, a1: seq<Sample>)
    requires AllRanked(a0, nCol) && pNew.iCol < nCol == |pNew.anEq|
    requires exists u :: IsUpgradeChoice(a0, u, c, nCol) && a1 == a0[u := Upgraded(a0[u], pNew)]
    ensures KeepsPeriodic(a0, a1)
  {
    var u :| IsUpgradeChoice(a0, u, c, nCol) && a1 == a0[u := Upgraded(a0[u], pNew)];
    PointwisePeriodic(a0, a1);
  }

  lemma PeriodicSharerShares(a: seq<Sample>, c: nat)
    ensures SharesPeriodic(a, c) ==> Shares(a, c)
  {
  }

  // ----------------------------------------- why a fill-in never disturbs the preference

  ghost predicate AllLeft(a: seq<Sample>) {
    forall j :: 0 <= j < |a| ==> LeftZeros(a[j])
  }

  /** Sample t of the open column-c group is preferred to s. */
  ghost predicate Outranks(t: Sample, s: Sample, chng: seq<nat>, c: nat) {
    && |t.anLt| > 0 && Pos(t) < |chng| && Open(chng, c, Pos(t))
    && Ranked(t) && Ranked(s) && |t.anEq| == |s.anEq| && IsBetter(t, s)
  }

  /** A column already dealt with has a count that s still lacks only if s is not the first choice there. */
  ghost predicate Outranked(a: seq<Sample>, s: Sample, chng: seq<nat>, c: nat) {
    SharesPeriodic(a, c) || exists t :: 0 <= t < |a| && Outranks(a[t], s, chng, c)
  }

  /** Sample s lacks the count of column c. */
  predicate Lacks(s: Sample, c: nat) {
    !s.isPSample && c < |s.anEq| && s.anEq[c] == 0
  }

  /** The state between two candidates, when the columns from k on have been dealt with. */
  ghost predicate Tidy(a: seq<Sample>, chng: seq<nat>, nCol: nat, k: nat) {
    && AllLeft(a)
    && forall j, c :: 0 <= j < |a| && k <= c < nCol - 1 && Lacks(a[j], c) ==> Outranked(a, a[j], chng, c)
  }

  /** A sample of the open column-c group also lacks the count of every column on the left not yet dealt with. */
  lemma LacksLeft(s: Sample, chng: seq<nat>, ids: seq<Rowid>, nCol: nat, i: nat, c: nat)
    requires SampleOk(s, chng, ids, nCol, i + 1) && i <= c < nCol
    requires Open(chng, c, Pos(s))
    ensures s.anEq[i] == 0 && Open(chng, i, Pos(s))
  {
    HiMonotone(chng, i, c, Pos(s));
    var k := i + 1;
    assert EqAt(s, chng, i, k);
  }

  lemma ZeroIsOpen(s: Sample, chng: seq<nat>, ids: seq<Rowid>, nCol: nat, k: nat, c: nat)
    requires SampleOk(s, chng, ids, nCol, k) && c < nCol && s.anEq[c] == 0
    ensures Open(chng, c, Pos(s))
  {
    assert EqAt(s, chng, c, k);
  }

  /** The sample chosen for an upgrade lacks no count to the right of its new column. */
  lemma ChoiceHasNoGap(a: seq<Sample>, u: nat, chng: seq<nat>, ids: seq<Rowid>, nCol: nat, i: nat, k: nat, c: nat)
    requires AllOk(a, chng, ids, nCol, k) && k == i + 1 && AllRanked(a, nCol) && Tidy(a, chng, nCol, k)
    requires IsUpgradeChoice(a, u, i, nCol) && !SharesPeriodic(a, i) && i < c < nCol - 1
    ensures a[u].anEq[c] != 0
  {
    if a[u].anEq[c] == 0 {
      assert Lacks(a[u], c);
      if SharesPeriodic(a, c) {
        var p :| 0 <= p < |a| && c < |a[p].anEq| && a[p].anEq[c] == 0 && a[p].isPSample;
        ZeroIsOpen(a[p], chng, ids, nCol, k, c);
        LacksLeft(a[p], chng, ids, nCol, i, c);
      } else {
        var t :| 0 <= t < |a| && Outranks(a[t], a[u], chng, c);
        LacksLeft(a[t], chng, ids, nCol, i, c);
      }
    }
  }

  lemma LeastIsVictim(a: seq<Sample>, m: int, nCol: nat)
    requires AllRanked(a, nCol) && IsLeast(a, m, nCol)
    ensures 0 <= m < |a| && !a[m].isPSample
  {
  }

  lemma OkIsRanked(a: seq<Sample>, chng: seq<nat>, ids: seq<Rowid>, nCol: nat, k: nat)
    requires AllOk(a, chng, ids, nCol, k)
    ensures AllRanked(a, nCol)
  {
    forall j | 0 <= j < |a| ensures |a[j].anEq| == nCol && (!a[j].isPSample ==> Ranked(a[j])) {
      assert SampleOk(a[j], chng, ids, nCol, k);
    }
  }

  /** The two asserts of the upgrade loop. */
  lemma SharerIsWorse(pNew: Sample, pOld: Sample, chng: seq<nat>, ids: seq<Rowid>, nCol: nat)
    requires Ranked(pNew) && pNew.iCol + 1 < nCol
    requires SampleOk(Zeroed(pNew, pNew.iCol), chng, ids, nCol, pNew.iCol)
    requires Open(chng, pNew.iCol, Pos(pNew))
    requires SampleOk(pOld, chng, ids, nCol, pNew.iCol + 1)
    requires !pOld.isPSample && pOld.anEq[pNew.iCol] == 0
    ensures pOld.iCol > pNew.iCol
    ensures IsBetter(pNew, pOld)
  {
    var c, p, q := pNew.iCol, Pos(pNew), Pos(pOld);
    assert EqAt(Zeroed(pNew, c), chng, c, c);
    assert EqAt(pOld, chng, c, c + 1);
    assert EqAt(pOld, chng, pOld.iCol, c + 1);
    HiMonotone(chng, c, pOld.iCol, q);
    LoMonotone(chng, c, pOld.iCol, q);
    if q <= p { GroupShared(chng, c, q, p); } else { GroupShared(chng, c, p, q); }
    assert Zeroed(pNew, c).anEq[c] == pNew.anEq[c];
  }

  lemma UpgradeOk(s: Sample, pNew: Sample, chng: seq<nat>, ids: seq<Rowid>, nCol: nat)
    requires pNew.iCol + 1 < nCol == |pNew.anEq|
    requires SampleOk(Zeroed(pNew, pNew.iCol), chng, ids, nCol, pNew.iCol)
    requires Open(chng, pNew.iCol, Pos(pNew)) && pNew.anEq[pNew.iCol] > 0
    requires SampleOk(s, chng, ids, nCol, pNew.iCol + 1)
    requires !s.isPSample && s.anEq[pNew.iCol] == 0
    ensures SampleOk(Upgraded(s, pNew), chng, ids, nCol, pNew.iCol)
  {
    var c, p, q := pNew.iCol, Pos(pNew), Pos(s);
    var u := Upgraded(s, pNew);
    assert EqAt(s, chng, c, c + 1);
    assert EqAt(Zeroed(pNew, c), chng, c, c);
    assert Zeroed(pNew, c).anEq[c] == pNew.anEq[c];
    if q <= p { GroupShared(chng, c, q, p); } else { GroupShared(chng, c, p, q); }
    var k := c + 1;
    forall b | 0 <= b < nCol ensures EqAt(u, chng, b, c) {
      assert EqAt(s, chng, b, k);
    }
  }

  lemma Weaken(a: seq<Sample>, chng: seq<nat>, ids: seq<Rowid>, nCol: nat, k: nat, k': nat)
    requires AllOk(a, chng, ids, nCol, k) && k' <= k
    ensures AllOk(a, chng, ids, nCol, k')
  {
    forall j | 0 <= j < |a| ensures SampleOk(a[j], chng, ids, nCol, k') {
      var s := a[j];
      assert SampleOk(s, chng, ids, nCol, k);
      forall c | 0 <= c < nCol ensures EqAt(s, chng, c, k') {
        assert EqAt(s, chng, c, k);
      }
    }
  }

  /** If no sample shares the open group of column c, all samples lie before that group. */
  lemma NonSharersAreEarlier(a: seq<Sample>, chng: seq<nat>, ids: seq<Rowid>, nCol: nat, c: nat, p: nat)
    requires AllOk(a, chng, ids, nCol, c + 1) && c < nCol && !Shares(a, c)
    requires p < |chng| && Open(chng, c, p)
    ensures forall j :: 0 <= j < |a| ==> |a[j].anLt| > 0 && Pos(a[j]) < p
  {
    forall j | 0 <= j < |a| ensures |a[j].anLt| > 0 && Pos(a[j]) < p {
      var k := c + 1;
      assert SampleOk(a[j], chng, ids, nCol, k);
      assert EqAt(a[j], chng, c, k);
      OpenOrEarlier(chng, c, Pos(a[j]), p);
    }
  }

  lemma AppendInOrder(a: seq<Sample>, z: Sample)
    requires InRowOrder(a) && |z.anLt| > 0
    requires forall j :: 0 <= j < |a| ==> Pos(a[j]) < Pos(z)
    ensures InRowOrder(a + [z])
  {
    var b := a + [z];
    forall i, j | 0 <= i < j < |b| ensures |b[i].anLt| > 0 && |b[j].anLt| > 0 && Pos(b[i]) < Pos(b[j]) {
      assert b[i] == a[i] && (j < |a| ==> b[j] == a[j]);
    }
  }

  lemma AppendCount(a: seq<Sample>, z: Sample)
    ensures PeriodicCount(a + [z]) == PeriodicCount(a) + if z.isPSample then 1 else 0
  {
    assert (a + [z])[..|a|] == a;
  }

  /** Appending a later sample, after removing one if need be, keeps the list in order. */
  lemma AppendOk(a: seq<Sample>, z: Sample, chng: seq<nat>, ids: seq<Rowid>, nCol: nat, k: nat)
    requires AllOk(a, chng, ids, nCol, k) && InRowOrder(a)
    requires SampleOk(z, chng, ids, nCol, k)
    requires forall j :: 0 <= j < |a| ==> Pos(a[j]) < Pos(z)
    ensures AllOk(a + [z], chng, ids, nCol, k) && InRowOrder(a + [z])
    ensures PeriodicCount(a + [z]) == PeriodicCount(a) + if z.isPSample then 1 else 0
  {
    SampleHasRow(z, chng, ids, nCol, k);
    hide SampleOk, PeriodicCount;
    AppendCount(a, z);
    AppendInOrder(a, z);
    hide InRowOrder;
    AppendAllOk(a, z, chng, ids, nCol, k);
    hide AllOk;
  }

  lemma AppendAllOk(a: seq<Sample>, z: Sample, chng: seq<nat>, ids: seq<Rowid>, nCol: nat, k: nat)
    requires AllOk(a, chng, ids, nCol, k) && SampleOk(z, chng, ids, nCol, k)
    ensures AllOk(a + [z], chng, ids, nCol, k)
  {
    hide SampleOk;
  }

  lemma SampleHasRow(s: Sample, chng: seq<nat>, ids: seq<Rowid>, nCol: nat, k: nat)
    requires SampleOk(s, chng, ids, nCol, k)
    ensures |s.anLt| > 0
  {
  }

  lemma RemoveOk(a: seq<Sample>, m: nat, chng: seq<nat>, ids: seq<Rowid>, nCol: nat, k: nat)
    requires AllOk(a, chng, ids, nCol, k) && m < |a|
    ensures AllOk(Removed(a, m), chng, ids, nCol, k)
  {
    var r := Removed(a, m);
    forall j | 0 <= j < |r| ensures SampleOk(r[j], chng, ids, nCol, k) {
      var i := if j < m then j else j + 1;
      assert r[j] == a[i];
    }
  }

  lemma RemoveInOrder(a: seq<Sample>, m: nat)
    requires InRowOrder(a) && m < |a|
    ensures InRowOrder(Removed(a, m))
  {
    var r := Removed(a, m);
    forall j | 0 <= j < |r| ensures |r[j].anLt| > 0 {
      var j' := if j < m then j else j + 1;
      assert r[j] == a[j'];
    }
    forall i, j | 0 <= i < j < |r| ensures Pos(r[i]) < Pos(r[j]) {
      var i', j' := if i < m then i else i + 1, if j < m then j else j + 1;
      assert r[i] == a[i'] && r[j] == a[j'];
    }
  }

  lemma EvictOk(a: seq<Sample>, m: nat, z: Sample, chng: seq<nat>, ids: seq<Rowid>, nCol: nat, k: nat, top: nat)
    requires AllOk(a, chng, ids, nCol, k) && InRowOrder(a) && NoZeroFrom(a, top) && m < |a| && |z.anLt| > 0
    requires forall j :: 0 <= j < |a| ==> Pos(a[j]) < Pos(z)
    ensures var r := Removed(a, m);
      && AllOk(r, chng, ids, nCol, k) && InRowOrder(r) && NoZeroFrom(r, top)
      && PeriodicCount(r) == PeriodicCount(a) - (if a[m].isPSample then 1 else 0)
      && forall j :: 0 <= j < |r| ==> Pos(r[j]) < Pos(z)
  {
    hide SampleOk, PeriodicCount;
    RemoveOk(a, m, chng, ids, nCol, k);
    RemoveInOrder(a, m);
    PeriodicCountRemove(a, m);
    var r := Removed(a, m);
    forall j | 0 <= j < |r|
      ensures Pos(r[j]) < Pos(z)
      ensures forall c :: top <= c < |r[j].anEq| ==> r[j].anEq[c] > 0
    {
      var j' := if j < m then j else j + 1;
      assert r[j] == a[j'];
    }
  }

  lemma AppendNoZero(a: seq<Sample>, z: Sample, top: nat)
    requires NoZeroFrom(a, top) && forall c :: top <= c < |z.anEq| ==> z.anEq[c] > 0
    ensures NoZeroFrom(a + [z], top)
  {
  }

  lemma WithNewOk(a: seq<Sample>, mxSample: nat, m: nat, z: Sample,
                  chng: seq<nat>, ids: seq<Rowid>, nCol: nat, k: nat, top: nat)
    requires |a| <= mxSample && mxSample > 0 && (|a| == mxSample ==> m < |a| && !a[m].isPSample)
    requires AllOk(a, chng, ids, nCol, k) && InRowOrder(a) && NoZeroFrom(a, top)
    requires SampleOk(z, chng, ids, nCol, k) && forall c :: top <= c < nCol ==> z.anEq[c] > 0
    requires forall j :: 0 <= j < |a| ==> Pos(a[j]) < Pos(z)
    ensures var r := WithNew(a, mxSample, m, z);
      && |r| <= mxSample && AllOk(r, chng, ids, nCol, k) && InRowOrder(r) && NoZeroFrom(r, top)
      && PeriodicCount(r) == PeriodicCount(a) + if z.isPSample then 1 else 0
  {
    var kept := a;
    if |a| >= mxSample {
      EvictOk(a, m, z, chng, ids, nCol, k, top);
      kept := Removed(a, m);
    }
    // The new sample comes after all the others.
    assert forall j :: 0 <= j < |kept| ==> Pos(kept[j]) < Pos(z);
    AppendOk(kept, z, chng, ids, nCol, k);
    AppendNoZero(kept, z, top);
  }

  lemma ReplaceOk(a: seq<Sample>, u: nat, pNew: Sample, chng: seq<nat>, ids: seq<Rowid>, nCol: nat)
    requires u < |a| && pNew.iCol + 1 < nCol == |pNew.anEq|
    requires AllOk(a, chng, ids, nCol, pNew.iCol + 1) && InRowOrder(a)
    requires SampleOk(Zeroed(pNew, pNew.iCol), chng, ids, nCol, pNew.iCol)
    requires Open(chng, pNew.iCol, Pos(pNew)) && pNew.anEq[pNew.iCol] > 0
    requires !a[u].isPSample && a[u].anEq[pNew.iCol] == 0
    ensures var b := a[u := Upgraded(a[u], pNew)];
      AllOk(b, chng, ids, nCol, pNew.iCol) && InRowOrder(b) && PeriodicCount(b) == PeriodicCount(a)
  {
    var b := a[u := Upgraded(a[u], pNew)];
    Weaken(a, chng, ids, nCol, pNew.iCol + 1, pNew.iCol);
    UpgradeOk(a[u], pNew, chng, ids, nCol);
    PeriodicCountSame(a, b);
  }

  /** An upgraded sample is preferred to all others that lack the count it got. */
  lemma UpgradedOutranks(was: Sample, s: Sample, pNew: Sample, chng: seq<nat>, ids: seq<Rowid>, nCol: nat)
    requires Ranked(pNew) && pNew.iCol + 1 < nCol
    requires SampleOk(Zeroed(pNew, pNew.iCol), chng, ids, nCol, pNew.iCol) && Open(chng, pNew.iCol, Pos(pNew))
    requires SampleOk(was, chng, ids, nCol, pNew.iCol + 1) && !was.isPSample
    requires SampleOk(s, chng, ids, nCol, pNew.iCol + 1) && Lacks(s, pNew.iCol)
    ensures |was.anEq| == |pNew.anEq| && Ranked(Upgraded(was, pNew)) && Ranked(s) && IsBetter(Upgraded(was, pNew), s)
  {
    SharerIsWorse(pNew, s, chng, ids, nCol);
  }

  /** What a candidate for column i must satisfy. */
  ghost predicate Candidate(b: Sample, chng: seq<nat>, ids: seq<Rowid>, nCol: nat, i: nat) {
    && Shaped(b, nCol) && !b.isPSample && b.iCol == i && i + 1 < nCol
    && SampleOk(Zeroed(b, i), chng, ids, nCol, i) && Open(chng, i, Pos(b))
    && forall c :: i <= c < nCol ==> b.anEq[c] > 0
  }

  lemma UpgradedLeft(s: Sample, pNew: Sample)
    requires |s.anEq| == |pNew.anEq| && pNew.iCol < |pNew.anEq| && pNew.anEq[pNew.iCol] > 0
    requires forall c :: pNew.iCol < c < |s.anEq| ==> s.anEq[c] != 0
    ensures LeftZeros(Upgraded(s, pNew))
  {
  }

  /** An upgrade leaves no unknown count to the right of the new column. */
  lemma UpgradeLeft(a: seq<Sample>, u: nat, pNew: Sample, chng: seq<nat>, ids: seq<Rowid>, nCol: nat, i: nat, k: nat)
    requires AllOk(a, chng, ids, nCol, k) && k == i + 1 && AllRanked(a, nCol) && Tidy(a, chng, nCol, k)
    requires Candidate(pNew, chng, ids, nCol, i) && IsUpgradeChoice(a, u, i, nCol) && !SharesPeriodic(a, i)
    ensures LeftZeros(Upgraded(a[u], pNew))
    ensures forall c :: i < c < nCol ==> a[u].anEq[c] != 0
  {
    forall c | i < c < nCol ensures a[u].anEq[c] != 0 {
      assert SampleOk(a[u], chng, ids, nCol, k) && LeftZeros(a[u]);
      if c < nCol - 1 {
        ChoiceHasNoGap(a, u, chng, ids, nCol, i, k, c);
      }
    }
    UpgradedLeft(a[u], pNew);
  }

  lemma UpgradeTidy(a: seq<Sample>, u: nat, pNew: Sample, chng: seq<nat>, ids: seq<Rowid>, nCol: nat, i: nat, k: nat)
    requires AllOk(a, chng, ids, nCol, k) && k == i + 1 && AllRanked(a, nCol) && Tidy(a, chng, nCol, k)
    requires Candidate(pNew, chng, ids, nCol, i) && IsUpgradeChoice(a, u, i, nCol) && !SharesPeriodic(a, i)
    ensures Tidy(a[u := Upgraded(a[u], pNew)], chng, nCol, i)
  {
    UpgradeLeft(a, u, pNew, chng, ids, nCol, i, k);
    var b := a[u := Upgraded(a[u], pNew)];
    forall j, c | 0 <= j < |b| && i <= c < nCol - 1 && Lacks(b[j], c) ensures Outranked(b, b[j], chng, c) {
      StillOutranked(a, u, pNew, chng, ids, nCol, i, k, j, c);
    }
  }

  /** Whoever is outranked before the upgrade, or lacks the upgraded column, is outranked after it. */
  lemma StillOutranked(a: seq<Sample>, u: nat, pNew: Sample, chng: seq<nat>, ids: seq<Rowid>, nCol: nat, i: nat, k: nat,
                       j: nat, c: nat)
    requires AllOk(a, chng, ids, nCol, k) && k == i + 1 && AllRanked(a, nCol) && Tidy(a, chng, nCol, k)
    requires Candidate(pNew, chng, ids, nCol, i) && u < |a| && j < |a| && j != u && i <= c < nCol - 1
    requires Lacks(a[u], i) && Lacks(a[j], c)
    ensures Outranked(a[u := Upgraded(a[u], pNew)], a[j], chng, c)
  {
    var up := Upgraded(a[u], pNew);
    var b := a[u := up];
    ZeroIsOpen(a[j], chng, ids, nCol, k, c);
    LacksLeft(a[j], chng, ids, nCol, i, c);
    ZeroIsOpen(a[u], chng, ids, nCol, k, i);
    UpgradedOutranks(a[u], a[j], pNew, chng, ids, nCol);
    hide SampleOk, IsBetter, Open, LeftZeros;
    if c == i {
      assert Outranks(b[u], a[j], chng, c);
    } else if SharesPeriodic(a, c) {
      var p :| 0 <= p < |a| && c < |a[p].anEq| && a[p].anEq[c] == 0 && a[p].isPSample;
      assert b[p] == a[p];
    } else {
      assert Outranked(a, a[j], chng, c);
      var t :| 0 <= t < |a| && Outranks(a[t], a[j], chng, c);
      assert Outranks(b[t], a[j], chng, c);
    }
  }

  /** A candidate without sharers: nobody lacks a count of a column dealt with. */
  lemma AppendTidy(a: seq<Sample>, m: nat, z: Sample, mxSample: nat, chng: seq<nat>, ids: seq<Rowid>,
                   nCol: nat, i: nat, k: nat)
    requires AllOk(a, chng, ids, nCol, k) && k == i + 1 && AllLeft(a) && !Shares(a, i) && i + 1 < nCol
    requires |a| >= mxSample ==> m < |a|
    requires |z.anEq| == nCol && z.iCol == i && forall c :: i <= c < nCol ==> z.anEq[c] > 0
    ensures Tidy(WithNew(a, mxSample, m, z), chng, nCol, i)
  {
    hide AllOk, Shares;
    var b := WithNew(a, mxSample, m, z);
    forall j | 0 <= j < |b| ensures LeftZeros(b[j]) && LacksNothing(b[j], i, nCol) {
      if j < |b| - 1 {
        var j' := if |a| >= mxSample && j >= m then j + 1 else j;
        assert b[j] == a[j'];
        NobodyLacks(a[j'], a, j', chng, ids, nCol, i, k);
      }
    }
    hide WithNew, LeftZeros;
    NothingLackedIsTidy(b, chng, nCol, i);
  }

  /** No count of the columns from i on is unknown. */
  ghost predicate LacksNothing(s: Sample, i: nat, nCol: nat) {
    forall c :: i <= c < nCol ==> !Lacks(s, c)
  }

  lemma NothingLackedIsTidy(a: seq<Sample>, chng: seq<nat>, nCol: nat, i: nat)
    requires AllLeft(a) && forall j :: 0 <= j < |a| ==> LacksNothing(a[j], i, nCol)
    ensures Tidy(a, chng, nCol, i)
  {
    hide LeftZeros, Outranked;
  }

  lemma NobodyLacks(s: Sample, a: seq<Sample>, j: nat, chng: seq<nat>, ids: seq<Rowid>, nCol: nat, i: nat, k: nat)
    requires AllOk(a, chng, ids, nCol, k) && k == i + 1 && !Shares(a, i) && j < |a| && s == a[j]
    ensures LacksNothing(s, i, nCol)
  {
    forall c | i <= c < nCol ensures !Lacks(s, c) {
      if s.anEq[c] == 0 {
        ZeroIsOpen(s, chng, ids, nCol, k, c);
        LacksLeft(s, chng, ids, nCol, i, c);
      }
    }
  }

  /** A candidate that does not beat the least sample shares its group with no sample it could upgrade. */
  lemma SkippedTidy(a: seq<Sample>, m: nat, b: Sample, chng: seq<nat>, ids: seq<Rowid>, nCol: nat, i: nat, k: nat)
    requires AllOk(a, chng, ids, nCol, k) && k == i + 1 && AllRanked(a, nCol) && Tidy(a, chng, nCol, k)
    requires Candidate(b, chng, ids, nCol, i) && IsLeast(a, m, nCol) && !IsBetter(b, a[m])
    ensures Tidy(a, chng, nCol, i)
  {
    forall j | 0 <= j < |a| ensures !Lacks(a[j], i) {
      if !a[j].isPSample {
        BetterIsTotal(b, a[m], a[j]);
        LackerIsWorse(b, a[j], chng, ids, nCol, i, k);
      }
    }
  }

  lemma LackerIsWorse(b: Sample, s: Sample, chng: seq<nat>, ids: seq<Rowid>, nCol: nat, i: nat, k: nat)
    requires Candidate(b, chng, ids, nCol, i) && SampleOk(s, chng, ids, nCol, k) && k == i + 1 && Ranked(s)
    ensures Lacks(s, i) ==> IsBetter(b, s)
  {
    if Lacks(s, i) {
      SharerIsWorse(b, s, chng, ids, nCol);
    }
  }

  lemma SharedPeriodicTidy(a: seq<Sample>, chng: seq<nat>, nCol: nat, i: nat, k: nat)
    requires Tidy(a, chng, nCol, k) && k == i + 1 && SharesPeriodic(a, i)
    ensures Tidy(a, chng, nCol, i)
  {
    hide LeftZeros, Outranks, SharesPeriodic;
  }

  /** Whatever sampleInsert does with the candidate of column i, that column has then been dealt with. */
  lemma InsertedTidy(a0: seq<Sample>, m: nat, b: Sample, chng: seq<nat>, ids: seq<Rowid>, nCol: nat,
                     mxSample: nat, i: nat, k: nat,
                     a1: seq<Sample>)
    requires AllOk(a0, chng, ids, nCol, k) && k == i + 1 && Tidy(a0, chng, nCol, k)
    requires Candidate(b, chng, ids, nCol, i) && Inserted(a0, m, b, i, nCol, mxSample, a1)
    ensures Tidy(a1, chng, nCol, i)
  {
    hide Tidy, Shares, SharesPeriodic, SampleOk, AllOk;
    if !Shares(a0, i) {
      TidyLeft(a0, chng, nCol, k);
      AppendTidy(a0, m, Zeroed(b, i), mxSample, chng, ids, nCol, i, k);
    } else if SharesPeriodic(a0, i) {
      SharedPeriodicTidy(a0, chng, nCol, i, k);
    } else {
      var u :| IsUpgradeChoice(a0, u, i, nCol) && a1 == a0[u := Upgraded(a0[u], b)];
      UpgradeTidy(a0, u, b, chng, ids, nCol, i, k);
    }
  }

  lemma TidyLeft(a: seq<Sample>, chng: seq<nat>, nCol: nat, k: nat)
    requires Tidy(a, chng, nCol, k)
    ensures AllLeft(a)
  {
  }

  /** Before the first candidate, unknown counts lie to the left by the invariant. */
  lemma StartTidy(a: seq<Sample>, chng: seq<nat>, ids: seq<Rowid>, nCol: nat, top: nat)
    requires top < nCol && AllOk(a, chng, ids, nCol, nCol - 1) && NoZeroFrom(a, top)
    ensures Tidy(a, chng, nCol, nCol - 1)
  {
    var k := nCol - 1;
    forall j | 0 <= j < |a| ensures LeftZeros(a[j]) {
      assert SampleOk(a[j], chng, ids, nCol, k);
    }
  }

  /** Unknown counts from column x on are those of the current row. */
  function Filled(s: Sample, cur: Sample, x: nat): Sample
    requires |s.anEq| == |cur.anEq|
  {
    s.(anEq := seq(|s.anEq|, c requires 0 <= c < |s.anEq| =>
      if x <= c && s.anEq[c] == 0 then cur.anEq[c] else s.anEq[c]))
  }

  /** A count left of the column a sample was chosen for does not matter to its preference. */
  lemma {:induction false} PostIgnoresLeft(s: Sample, s': Sample, t: Sample, t': Sample, i: nat)
    requires |s.anEq| == |s'.anEq| == |t.anEq| == |t'.anEq| && s'.iHash == s.iHash && t'.iHash == t.iHash
    requires forall c :: i <= c < |s.anEq| ==> s'.anEq[c] == s.anEq[c] && t'.anEq[c] == t.anEq[c]
    ensures BetterPost(s', t', i) == BetterPost(s, t, i)
    decreases |s.anEq| - i
  {
    if i < |s.anEq| {
      PostIgnoresLeft(s, s', t, t', i + 1);
    }
  }

  lemma FillInKeepsPreference(s: Sample, t: Sample, cur: Sample, x: nat)
    requires Ranked(s) && Ranked(t) && |s.anEq| == |t.anEq| == |cur.anEq| && LeftZeros(s) && LeftZeros(t)
    ensures IsBetter(Filled(s, cur, x), Filled(t, cur, x)) == IsBetter(s, t)
  {
    var s', t' := Filled(s, cur, x), Filled(t, cur, x);
    if s.iCol == t.iCol {
      PostIgnoresLeft(s, s', t, t', s.iCol + 1);
    }
  }

  /** Filling in counts leaves the least preferred sample least preferred. */
  lemma FillInKeepsLeast(a: seq<Sample>, b: seq<Sample>, cur: Sample, x: nat, m: nat, nCol: nat)
    requires AllRanked(a, nCol) && AllLeft(a) && |cur.anEq| == nCol && IsLeast(a, m, nCol)
    requires |b| == |a| && forall j :: 0 <= j < |a| ==> b[j] == Filled(a[j], cur, x)
    ensures AllRanked(b, nCol) && IsLeast(b, m, nCol)
  {
    forall j | 0 <= j < |b| && !b[j].isPSample ensures !IsBetter(b[m], b[j]) {
      FillInKeepsPreference(a[m], a[j], cur, x);
    }
  }

  lemma FilledOk(s: Sample, cur: Sample, chng: seq<nat>, ids: seq<Rowid>, nCol: nat, x: nat)
    requires SampleOk(s, chng, ids, nCol, x) && CurrentOk(cur, chng, ids, nCol)
    ensures SampleOk(Filled(s, cur, x), chng, ids, nCol, x)
    ensures forall c :: x <= c < nCol ==> Filled(s, cur, x).anEq[c] > 0
  {
    var f := Filled(s, cur, x);
    forall c | 0 <= c < nCol
      ensures EqAt(f, chng, c, x) && (x <= c ==> f.anEq[c] > 0)
    {
      assert EqAt(s, chng, c, x);
      if x <= c && s.anEq[c] == 0 {
        GroupShared(chng, c, Pos(s), Pos(cur));
      }
    }
  }

  lemma AllFilledOk(a: seq<Sample>, b: seq<Sample>, cur: Sample, chng: seq<nat>, ids: seq<Rowid>, nCol: nat, x: nat,
                    iMin: nat, nMaxEqZero: nat, mxSample: nat)
    requires AllOk(a, chng, ids, nCol, x) && CurrentOk(cur, chng, ids, nCol) && x < nCol
    requires IsBounded(a, iMin, nMaxEqZero, nCol, mxSample) && AllLeft(a)
    requires |b| == |a| && forall j :: 0 <= j < |a| ==> |a[j].anEq| == |cur.anEq| && b[j] == Filled(a[j], cur, x)
    ensures AllOk(b, chng, ids, nCol, x) && IsBounded(b, iMin, x, nCol, mxSample)
    ensures PeriodicCount(a) == PeriodicCount(b)
  {
    PeriodicCountSame(a, b);
    if |a| == mxSample { FillInKeepsLeast(a, b, cur, x, iMin, nCol); }
    hide IsLeast, AllLeft, PeriodicCount;
    FilledSamplesOk(a, b, cur, chng, ids, nCol, x);
    OkIsRanked(b, chng, ids, nCol, x);
    hide AllOk, SampleOk;
    assert InRowOrder(b);
  }

  lemma FilledExtends(a: seq<Sample>, b: seq<Sample>, cur: Sample, x: nat, nCol: nat)
    requires AllRanked(a, nCol) && AllLeft(a) && |cur.anEq| == nCol
    requires |b| == |a| && forall j :: 0 <= j < |a| ==> b[j] == Filled(a[j], cur, x)
    ensures Extends(a, b)
  {
    forall j | 0 <= j < |a| ensures Inherits(a[j], b[j]) {
    }
  }

  lemma FilledSamplesOk(a: seq<Sample>, b: seq<Sample>, cur: Sample, chng: seq<nat>, ids: seq<Rowid>, nCol: nat, x: nat)
    requires AllOk(a, chng, ids, nCol, x) && CurrentOk(cur, chng, ids, nCol) && x < nCol
    requires |b| == |a| && forall j :: 0 <= j < |a| ==> |a[j].anEq| == |cur.anEq| && b[j] == Filled(a[j], cur, x)
    ensures AllOk(b, chng, ids, nCol, x) && NoZeroFrom(b, x)
  {
    hide SampleOk;
    forall j | 0 <= j < |b|
      ensures SampleOk(b[j], chng, ids, nCol, x)
      ensures forall c :: x <= c < |b[j].anEq| ==> b[j].anEq[c] > 0
    {
      FilledOk(a[j], cur, chng, ids, nCol, x);
    }
  }

  /** The candidate for column i gets the final size of its group. */
  lemma BestGetsGroupSize(b: Sample, cur: Sample, chng: seq<nat>, ids: seq<Rowid>, nCol: nat, i: nat)
    requires BestOk(b, chng, ids, nCol, i) && CurrentOk(cur, chng, ids, nCol) && i + 1 < nCol
    ensures var b' := b.(anEq := b.anEq[i := cur.anEq[i]]);
      && BestOk(b', chng, ids, nCol, i)
      && SampleOk(Zeroed(b', i), chng, ids, nCol, i)
      && forall c :: i <= c < nCol ==> b'.anEq[c] > 0
  {
    var b' := b.(anEq := b.anEq[i := cur.anEq[i]]);
    GroupShared(chng, i, Pos(b), Pos(cur));
    assert BestOk(b', chng, ids, nCol, i);
    BestBecomesSample(b', chng, ids, nCol, i);
  }

  lemma ReplaceBest(aBest: seq<Sample>, i: nat, b: Sample, chng: seq<nat>, ids: seq<Rowid>, nCol: nat)
    requires BestsOk(aBest, chng, ids, nCol) && BestOk(b, chng, ids, nCol, i) && i + 1 < nCol
    requires b.anEq[i + 1] == aBest[i].anEq[i + 1]
    ensures BestsOk(aBest[i := b], chng, ids, nCol)
  {
    assert Widest(aBest[i], chng, nCol, i);
  }

  /** The counters of the row after cur, which changes at column x. */
  function Advanced(cur: Sample, x: nat): Sample
    requires |cur.anEq| == |cur.anLt| == |cur.anDLt|
  {
    var n := |cur.anEq|;
    cur.(
      anEq := seq(n, c requires 0 <= c < n => if c < x then cur.anEq[c] + 1 else 1),
      anLt := seq(n, c requires 0 <= c < n => if c < x then cur.anLt[c] else cur.anLt[c] + cur.anEq[c]),
      anDLt := seq(n, c requires 0 <= c < n => if c < x then cur.anDLt[c] else cur.anDLt[c] + 1))
  }

  lemma AdvancedOk(cur: Sample, chng: seq<nat>, ids: seq<Rowid>, nCol: nat, x: nat, id: Rowid, h: nat)
    requires CurrentOk(cur, chng, ids, nCol) && x < nCol
    ensures CurrentOk(Advanced(cur, x).(rowid := id, iHash := h), chng + [x], ids + [id], nCol)
  {
    var chng' := chng + [x];
    var n := |chng|;
    forall c | 0 <= c < nCol
      ensures Lo(chng', c, n) == if c < x then Lo(chng, c, n - 1) else n
      ensures Before(chng', c, n) == Before(chng, c, n - 1) + if c < x then 0 else 1
    {
      LoAppend(chng, x, c, n - 1);
    }
  }

  lemma AllSurviveRow(a: seq<Sample>, chng: seq<nat>, ids: seq<Rowid>, nCol: nat, x: nat, id: Rowid)
    requires AllOk(a, chng, ids, nCol, x) && NoZeroFrom(a, x) && x < nCol
    ensures AllOk(a, chng + [x], ids + [id], nCol, nCol - 1)
    ensures forall j :: 0 <= j < |a| ==> |a[j].anLt| > 0 && Pos(a[j]) < |chng|
  {
    forall j | 0 <= j < |a|
      ensures SampleOk(a[j], chng + [x], ids + [id], nCol, nCol - 1) && Pos(a[j]) < |chng|
    {
      SampleSurvivesRow(a[j], chng, ids, nCol, x, id);
    }
  }

  /** On the first row every candidate slot is taken by it. */
  lemma FirstRowDisplaces(cur: Sample, blank: Sample, nCol: nat, i: nat)
    requires i + 1 < nCol == |cur.anEq| == |blank.anEq| && cur.iCol == blank.iCol == i
    requires cur.anEq[i + 1] == 1 && blank.anEq == seq(nCol, _ => 0)
    ensures IsBetterPost(cur, blank)
  {
  }

  lemma CurrentReflagged(s: Sample, p: bool, i: nat, chng: seq<nat>, ids: seq<Rowid>, nCol: nat)
    requires CurrentOk(s, chng, ids, nCol)
    ensures CurrentOk(s.(isPSample := p, iCol := i), chng, ids, nCol)
  {
  }

  // -------------------------- a group goes without a sample only if all samples stand for larger ones

  /** Some sample stands for the column-c group of row q. */
  ghost predicate Represented(a: seq<Sample>, chng: seq<nat>, c: nat, q: nat)
    requires q < |chng|
  {
    exists j :: 0 <= j < |a| && StandsFor(a[j], chng, c, q)
  }

  /** s lies in the column-c group of row q, and is periodic or was chosen for column c or one to its left. */
  ghost predicate StandsFor(s: Sample, chng: seq<nat>, c: nat, q: nat)
    requires q < |chng|
  {
    && |s.anLt| > 0 && Pos(s) < |chng| && Lo(chng, c, Pos(s)) == Lo(chng, c, q)
    && (s.isPSample || s.iCol <= c)
  }

  ghost function GroupSize(chng: seq<nat>, c: nat, q: nat): nat
    requires q < |chng|
  {
    Hi(chng, c, q) - Lo(chng, c, q)
  }

  /** Every non-periodic sample was chosen for a prefix of at least n rows. */
  ghost predicate CountsReach(a: seq<Sample>, n: nat) {
    forall j :: 0 <= j < |a| && Ranked(a[j]) ==> a[j].anEq[a[j].iCol] >= n
  }

  /** The column-c group of row q is complete, or is being completed because c >= x. */
  ghost predicate Completed(chng: seq<nat>, x: nat, c: nat, q: nat)
    requires q < |chng|
  {
    Open(chng, c, q) ==> x <= c
  }

  /** The group has a sample, or the list is full and no non-periodic sample stands for fewer rows. */
  ghost predicate Served(a: seq<Sample>, chng: seq<nat>, mxSample: nat, c: nat, q: nat)
    requires q < |chng|
  {
    Represented(a, chng, c, q) || (|a| >= mxSample && CountsReach(a, GroupSize(chng, c, q)))
  }

  ghost predicate Covers(a: seq<Sample>, chng: seq<nat>, nCol: nat, mxSample: nat, x: nat) {
    forall c, q :: 0 <= c < nCol - 1 && 0 <= q < |chng| && Completed(chng, x, c, q) ==> Served(a, chng, mxSample, c, q)
  }

  /** Sample t is what became of s: it stands for no fewer groups and no fewer rows. */
  ghost predicate Inherits(s: Sample, t: Sample) {
    && t.anLt == s.anLt && t.isPSample == s.isPSample && t.iCol <= s.iCol
    && (Ranked(t) ==> Ranked(s) && t.anEq[t.iCol] >= s.anEq[s.iCol])
  }

  ghost predicate Extends(a0: seq<Sample>, a1: seq<Sample>) {
    |a0| <= |a1| && forall j :: 0 <= j < |a0| ==> Inherits(a0[j], a1[j])
  }

  lemma ExtendsServes(a0: seq<Sample>, a1: seq<Sample>, chng: seq<nat>, mxSample: nat, c: nat, q: nat)
    requires q < |chng| && Served(a0, chng, mxSample, c, q)
    requires Extends(a0, a1) && (|a1| == |a0| || |a0| < mxSample)
    ensures Served(a1, chng, mxSample, c, q)
  {
    if Represented(a0, chng, c, q) {
      var j :| 0 <= j < |a0| && StandsFor(a0[j], chng, c, q);
      assert Inherits(a0[j], a1[j]);
      assert StandsFor(a1[j], chng, c, q);
    } else {
      forall j | 0 <= j < |a1| && Ranked(a1[j]) ensures a1[j].anEq[a1[j].iCol] >= GroupSize(chng, c, q) {
        assert Inherits(a0[j], a1[j]);
      }
    }
  }

  lemma ExtendsCovers(a0: seq<Sample>, a1: seq<Sample>, chng: seq<nat>, nCol: nat, mxSample: nat, x: nat)
    requires Covers(a0, chng, nCol, mxSample, x) && Extends(a0, a1) && (|a1| == |a0| || |a0| < mxSample)
    ensures Covers(a1, chng, nCol, mxSample, x)
  {
    forall c, q | 0 <= c < nCol - 1 && 0 <= q < |chng| && Completed(chng, x, c, q)
      ensures Served(a1, chng, mxSample, c, q)
    {
      ExtendsServes(a0, a1, chng, mxSample, c, q);
    }
  }

  /** A sample stands for groups that are no larger than the one it was chosen for. */
  lemma ChosenForMore(s: Sample, chng: seq<nat>, ids: seq<Rowid>, nCol: nat, k: nat, c: nat, q: nat)
    requires SampleOk(s, chng, ids, nCol, k) && !s.isPSample && q < |chng| && c < nCol && StandsFor(s, chng, c, q)
    ensures Ranked(s) && s.anEq[s.iCol] >= GroupSize(chng, c, q)
  {
    var p := Pos(s);
    assert EqAt(s, chng, s.iCol, k);
    SameStartSameEnd(chng, c, p, q);
    HiMonotone(chng, s.iCol, c, p);
    LoMonotone(chng, s.iCol, c, p);
  }

  lemma LeastCount(a: seq<Sample>, m: nat, nCol: nat, j: nat)
    requires AllRanked(a, nCol) && IsLeast(a, m, nCol) && j < |a| && !a[j].isPSample
    ensures m < |a| && Ranked(a[m]) && Ranked(a[j]) && a[j].anEq[a[j].iCol] >= a[m].anEq[a[m].iCol]
  {
  }

  /** Evicting the least sample for one that counts no fewer rows. */
  lemma EvictServes(a: seq<Sample>, m: nat, z: Sample, chng: seq<nat>, ids: seq<Rowid>, nCol: nat, k: nat,
                    mxSample: nat, c: nat, q: nat)
    requires AllOk(a, chng, ids, nCol, k) && AllRanked(a, nCol) && IsLeast(a, m, nCol) && |a| == mxSample
    requires Ranked(z) ==> z.anEq[z.iCol] >= a[m].anEq[a[m].iCol]
    requires q < |chng| && c < nCol && Served(a, chng, mxSample, c, q)
    ensures Served(WithNew(a, mxSample, m, z), chng, mxSample, c, q)
  {
    var b := WithNew(a, mxSample, m, z);
    var n := GroupSize(chng, c, q);
    if j :| 0 <= j < |a| && j != m && StandsFor(a[j], chng, c, q) {
      var j' := if j < m then j else j - 1;
      assert b[j'] == a[j];
    } else {
      if Represented(a, chng, c, q) {
        assert StandsFor(a[m], chng, c, q);
        ChosenForMore(a[m], chng, ids, nCol, k, c, q);
      }
      assert a[m].anEq[a[m].iCol] >= n;
      forall j | 0 <= j < |b| && Ranked(b[j]) ensures b[j].anEq[b[j].iCol] >= n {
        if j < |b| - 1 {
          var j' := if j < m then j else j + 1;
          assert b[j] == a[j'];
          LeastCount(a, m, nCol, j');
        }
      }
    }
  }

  lemma EvictCovers(a: seq<Sample>, m: nat, z: Sample, chng: seq<nat>, ids: seq<Rowid>, nCol: nat, k: nat,
                    mxSample: nat, x: nat)
    requires AllOk(a, chng, ids, nCol, k) && AllRanked(a, nCol) && IsLeast(a, m, nCol) && |a| == mxSample
    requires Ranked(z) ==> z.anEq[z.iCol] >= a[m].anEq[a[m].iCol]
    requires Covers(a, chng, nCol, mxSample, x)
    ensures Covers(WithNew(a, mxSample, m, z), chng, nCol, mxSample, x)
  {
    LeastIsVictim(a, m, nCol);
    hide AllOk, AllRanked, IsLeast, WithNew, Served;
    forall c, q | 0 <= c < nCol - 1 && 0 <= q < |chng| && Completed(chng, x, c, q)
      ensures Served(WithNew(a, mxSample, m, z), chng, mxSample, c, q)
    {
      EvictServes(a, m, z, chng, ids, nCol, k, mxSample, c, q);
    }
  }

  /** The new sample counts no fewer rows than the one it may replace. */
  ghost predicate WorthRoom(a: seq<Sample>, m: nat, z: Sample, nCol: nat, mxSample: nat) {
    && AllRanked(a, nCol) && |a| <= mxSample
    && (|a| == mxSample ==> IsLeast(a, m, nCol) && (Ranked(z) ==> z.anEq[z.iCol] >= a[m].anEq[a[m].iCol]))
  }

  lemma WithNewCovers(a: seq<Sample>, m: nat, z: Sample, chng: seq<nat>, ids: seq<Rowid>, nCol: nat, k: nat,
                      mxSample: nat, x: nat)
    requires AllOk(a, chng, ids, nCol, k) && WorthRoom(a, m, z, nCol, mxSample)
    requires Covers(a, chng, nCol, mxSample, x)
    ensures Covers(WithNew(a, mxSample, m, z), chng, nCol, mxSample, x)
  {
    if |a| == mxSample {
      EvictCovers(a, m, z, chng, ids, nCol, k, mxSample, x);
    } else {
      hide Covers, AllOk;
      assert forall j :: 0 <= j < |a| ==> Inherits(a[j], (a + [z])[j]);
      ExtendsCovers(a, a + [z], chng, nCol, mxSample, x);
    }
  }

  lemma UpgradeExtends(a: seq<Sample>, u: nat, pNew: Sample, chng: seq<nat>, ids: seq<Rowid>, nCol: nat, i: nat, k: nat)
    requires AllOk(a, chng, ids, nCol, k) && k == i + 1 && AllRanked(a, nCol)
    requires Candidate(pNew, chng, ids, nCol, i) && u < |a| && Lacks(a[u], i)
    ensures Extends(a, a[u := Upgraded(a[u], pNew)])
  {
    SharerIsWorse(pNew, a[u], chng, ids, nCol);
    var b := a[u := Upgraded(a[u], pNew)];
    forall j | 0 <= j < |a| ensures Inherits(a[j], b[j]) {
    }
  }

  /** All rows of the open group are represented by a sample in it. */
  lemma OpenRepresented(s: Sample, chng: seq<nat>, c: nat, q: nat)
    requires |s.anLt| > 0 && Pos(s) < |chng| && q < |chng| && Open(chng, c, Pos(s)) && Open(chng, c, q)
    requires s.isPSample || s.iCol <= c
    ensures StandsFor(s, chng, c, q)
  {
    if q <= Pos(s) { GroupShared(chng, c, q, Pos(s)); } else { GroupShared(chng, c, Pos(s), q); }
  }

  lemma SampleInRange(s: Sample, chng: seq<nat>, ids: seq<Rowid>, nCol: nat, k: nat)
    requires SampleOk(s, chng, ids, nCol, k)
    ensures |s.anLt| > 0 && Pos(s) < |chng|
  {
  }

  /** Once the newest column-i group is served, its column has been dealt with. */
  lemma CoversNextColumn(a: seq<Sample>, chng: seq<nat>, nCol: nat, mxSample: nat, i: nat, k: nat)
    requires Covers(a, chng, nCol, mxSample, k) && k == i + 1
    requires forall q :: 0 <= q < |chng| && Open(chng, i, q) ==> Served(a, chng, mxSample, i, q)
    ensures Covers(a, chng, nCol, mxSample, i)
  {
    hide Served;
    forall c, q | 0 <= c < nCol - 1 && 0 <= q < |chng| && Completed(chng, i, c, q)
      ensures Served(a, chng, mxSample, c, q)
    {
      assert (c == i && Open(chng, c, q)) || Completed(chng, k, c, q);
    }
  }

  /** One sample of the newest group serves all its rows. */
  lemma OneServes(a: seq<Sample>, j: nat, chng: seq<nat>, mxSample: nat, i: nat)
    requires j < |a| && |a[j].anLt| > 0 && Pos(a[j]) < |chng| && Open(chng, i, Pos(a[j]))
    requires a[j].isPSample || a[j].iCol <= i
    ensures forall q :: 0 <= q < |chng| && Open(chng, i, q) ==> Served(a, chng, mxSample, i, q)
  {
    forall q | 0 <= q < |chng| && Open(chng, i, q) ensures Served(a, chng, mxSample, i, q) {
      OpenRepresented(a[j], chng, i, q);
    }
  }

  /** Whatever sampleInsert does with a candidate, its group is served and none is lost. */
  lemma InsertedCovers(a0: seq<Sample>, m: nat, b: Sample, chng: seq<nat>, ids: seq<Rowid>, nCol: nat, mxSample: nat,
                       i: nat, k: nat, a1: seq<Sample>)
    requires AllOk(a0, chng, ids, nCol, k) && k == i + 1 && Candidate(b, chng, ids, nCol, i)
    requires WorthRoom(a0, m, b, nCol, mxSample)
    requires Covers(a0, chng, nCol, mxSample, k) && Inserted(a0, m, b, i, nCol, mxSample, a1)
    ensures Covers(a1, chng, nCol, mxSample, i)
  {
    hide Covers, AllOk, SampleOk, Served, Open;
    if !Shares(a0, i) {
      var z := Zeroed(b, i);
      WithNewCovers(a0, m, z, chng, ids, nCol, k, mxSample, k);
      SampleInRange(z, chng, ids, nCol, i);
      assert a1[|a1| - 1] == z;
      OneServes(a1, |a1| - 1, chng, mxSample, i);
    } else if SharesPeriodic(a0, i) {
      var p :| 0 <= p < |a0| && i < |a0[p].anEq| && a0[p].anEq[i] == 0 && a0[p].isPSample;
      SharerIsOpen(a0, p, chng, ids, nCol, i, k);
      OneServes(a1, p, chng, mxSample, i);
    } else {
      var u :| IsUpgradeChoice(a0, u, i, nCol) && a1 == a0[u := Upgraded(a0[u], b)];
      SharerIsOpen(a0, u, chng, ids, nCol, i, k);
      UpgradeExtends(a0, u, b, chng, ids, nCol, i, k);
      ExtendsCovers(a0, a1, chng, nCol, mxSample, k);
      OneServes(a1, u, chng, mxSample, i);
    }
    CoversNextColumn(a1, chng, nCol, mxSample, i, k);
  }

  lemma SharerIsOpen(a: seq<Sample>, j: nat, chng: seq<nat>, ids: seq<Rowid>, nCol: nat, i: nat, k: nat)
    requires AllOk(a, chng, ids, nCol, k) && j < |a| && i < nCol && |a[j].anEq| == nCol && a[j].anEq[i] == 0
    ensures |a[j].anLt| > 0 && Pos(a[j]) < |chng| && Open(chng, i, Pos(a[j]))
  {
    ZeroIsOpen(a[j], chng, ids, nCol, k, i);
  }

  /** A candidate that does not beat the least sample of a full list has no more rows than any of them. */
  lemma SkippedCovers(a: seq<Sample>, m: nat, b: Sample, chng: seq<nat>, ids: seq<Rowid>, nCol: nat, mxSample: nat,
                      i: nat, k: nat)
    requires Candidate(b, chng, ids, nCol, i) && k == i + 1 && Covers(a, chng, nCol, mxSample, k)
    requires AllRanked(a, nCol) && |a| == mxSample && IsLeast(a, m, nCol) && !IsBetter(b, a[m])
    ensures Covers(a, chng, nCol, mxSample, i)
  {
    forall q | 0 <= q < |chng| && Open(chng, i, q) ensures Served(a, chng, mxSample, i, q) {
      CandidateCount(b, chng, ids, nCol, i, q);
      forall j | 0 <= j < |a| && Ranked(a[j]) ensures a[j].anEq[a[j].iCol] >= b.anEq[i] {
        LeastCount(a, m, nCol, j);
      }
    }
    CoversNextColumn(a, chng, nCol, mxSample, i, k);
  }

  /** The count of a candidate is the size of the group it stands for. */
  lemma CandidateCount(b: Sample, chng: seq<nat>, ids: seq<Rowid>, nCol: nat, i: nat, q: nat)
    requires Candidate(b, chng, ids, nCol, i) && q < |chng| && Open(chng, i, q)
    ensures b.anEq[i] == GroupSize(chng, i, q)
  {
    assert EqAt(Zeroed(b, i), chng, i, i);
    assert Zeroed(b, i).anEq[i] == b.anEq[i];
    OpenRepresented(b, chng, i, q);
  }

  /** A row that changes at column x completes the groups from x on, and no others. */
  lemma CoversRow(a: seq<Sample>, chng: seq<nat>, nCol: nat, mxSample: nat, x: nat)
    requires Covers(a, chng, nCol, mxSample, x) && nCol > 0
    ensures Covers(a, chng + [x], nCol, mxSample, nCol - 1)
  {
    var chng' := chng + [x];
    forall c, q | 0 <= c < nCol - 1 && 0 <= q < |chng'| && Completed(chng', nCol - 1, c, q)
      ensures Served(a, chng', mxSample, c, q)
    {
      if q < |chng| {
        HiAppend(chng, x, c, q);
        LoAppend(chng, x, c, q);
        assert Completed(chng, x, c, q);
        if Represented(a, chng, c, q) {
          var j :| 0 <= j < |a| && StandsFor(a[j], chng, c, q);
          LoAppend(chng, x, c, Pos(a[j]));
          assert StandsFor(a[j], chng', c, q);
        }
      }
    }
  }

  /** The groups of a single row are all incomplete. */
  lemma FirstRowCovers(a: seq<Sample>, chng: seq<nat>, nCol: nat, mxSample: nat)
    requires |chng| == 1 && nCol > 0
    ensures Covers(a, chng, nCol, mxSample, nCol - 1)
  {
    var x := nCol - 1;
    assert forall c, q :: 0 <= c < x && 0 <= q < |chng| ==> !Completed(chng, x, c, q);
  }

  /** Once all groups are complete, every prefix is that of some sample, or rarer than those chosen. */
  lemma CoversAll(a: seq<Sample>, rows: seq<Row>, chng: seq<nat>, nCol: nat, mxSample: nat, c: nat, q: nat)
    requires Scan(rows, chng, nCol) && Covers(a, chng, nCol, mxSample, 0)
    requires c < nCol - 1 && q < |rows|
    ensures HasPrefix(a, rows, c, q) || (|a| >= mxSample && CountsReach(a, |EqualRows(rows, rows[q], c)|))
  {
    assert Completed(chng, 0, c, q);
    CountEqual(rows, chng, nCol, c, q);
    if Represented(a, chng, c, q) {
      var j :| 0 <= j < |a| && StandsFor(a[j], chng, c, q);
      var p := Pos(a[j]);
      if p <= q { SamePrefix(rows, chng, nCol, c, p, q); } else { SamePrefix(rows, chng, nCol, c, q, p); }
      assert SharesPrefix(a[j], rows, c, q);
    }
  }

  /** Some sample was taken from a row that agrees with row q up to column c. */
  ghost predicate HasPrefix(a: seq<Sample>, rows: seq<Row>, c: nat, q: nat)
    requires q < |rows| && c < |rows[q]|
  {
    exists j :: 0 <= j < |a| && SharesPrefix(a[j], rows, c, q)
  }

  ghost predicate SharesPrefix(s: Sample, rows: seq<Row>, c: nat, q: nat)
    requires q < |rows| && c < |rows[q]|
  {
    |s.anLt| > 0 && Pos(s) < |rows| && c < |rows[Pos(s)]| && rows[Pos(s)][..c + 1] == rows[q][..c + 1]
  }

  /** Every prefix of every row is that of some sample. */
  ghost predicate Complete(a: seq<Sample>, rows: seq<Row>, nCol: nat) {
    forall c, q :: 0 <= c < nCol - 1 && 0 <= q < |rows| ==> c < |rows[q]| && HasPrefix(a, rows, c, q)
  }

  /** A prefix without a sample occurs no more often than the one any non-periodic sample was chosen for. */
  ghost predicate CommonestKept(a: seq<Sample>, rows: seq<Row>, nCol: nat)
    requires forall t :: 0 <= t < |rows| ==> |rows[t]| == nCol
  {
    forall c, q, j :: 0 <= c < nCol - 1 && 0 <= q < |rows| && !HasPrefix(a, rows, c, q) && 0 <= j < |a| && !a[j].isPSample
      ==> a[j].iCol < |a[j].anEq| && a[j].anEq[a[j].iCol] >= |EqualRows(rows, rows[q], c)|
  }

  lemma AllExact(a: seq<Sample>, rows: seq<Row>, chng: seq<nat>, ids: seq<Rowid>, nCol: nat)
    requires Scan(rows, chng, nCol) && AllOk(a, chng, ids, nCol, 0) && NoZeroFrom(a, 0) && |ids| == |rows|
    ensures forall j :: 0 <= j < |a| ==> |a[j].anLt| > 0 && Pos(a[j]) < |ids|
    ensures forall j :: 0 <= j < |a| ==> Exact(a[j], rows, nCol) && a[j].rowid == ids[Pos(a[j])]
  {
    forall j | 0 <= j < |a|
      ensures |a[j].anLt| > 0 && Pos(a[j]) < |ids| && Exact(a[j], rows, nCol) && a[j].rowid == ids[Pos(a[j])]
    {
      assert SampleOk(a[j], chng, ids, nCol, 0);
      KnownIsExact(a[j], rows, chng, ids, nCol, 0);
    }
  }

  lemma PeriodicInsertable(p: Sample, chng: seq<nat>, ids: seq<Rowid>, nCol: nat)
    requires CurrentOk(p, chng, ids, nCol) && forall t :: 0 <= t < |chng| ==> chng[t] < nCol
    ensures |p.anEq| == nCol && p.anEq[nCol - 1] > 0
  {
  }

  lemma ScanShape(rows: seq<Row>, chng: seq<nat>, nCol: nat)
    requires Scan(rows, chng, nCol)
    ensures forall t :: 0 <= t < |rows| ==> |rows[t]| == nCol
  {
  }

  lemma AllComplete(a: seq<Sample>, rows: seq<Row>, chng: seq<nat>, nCol: nat, mxSample: nat)
    requires Scan(rows, chng, nCol) && Covers(a, chng, nCol, mxSample, 0) && AllRanked(a, nCol)
    ensures |a| < mxSample ==> Complete(a, rows, nCol)
    ensures CommonestKept(a, rows, nCol)
  {
    hide Covers, HasPrefix;
    forall c, q | 0 <= c < nCol - 1 && 0 <= q < |rows|
      ensures HasPrefix(a, rows, c, q) || (|a| >= mxSample && CountsReach(a, |EqualRows(rows, rows[q], c)|))
    {
      CoversAll(a, rows, chng, nCol, mxSample, c, q);
    }
  }

  /** The linear congruential generator behind the tie-breaking hash. */
  function NextPrn(x: nat): nat {
    (x * 1103515245 + 12345) % 0x1_0000_0000
  }

  lemma FirstRowOk(cur: Sample, x: nat, id: Rowid, nCol: nat)
    requires nCol > 0 && cur.anEq == seq(nCol, _ => 1)
    requires cur.anLt == cur.anDLt == seq(nCol, _ => 0) && cur.rowid == id
    ensures CurrentOk(cur, [x], [id], nCol)
  {
  }

  lemma ScanAppend(rows: seq<Row>, chng: seq<nat>, nCol: nat, row: Row, x: nat)
    requires Scan(rows, chng, nCol) && |row| == nCol && x < nCol
    requires rows != [] ==> LessAt(rows[|rows| - 1], row, x)
    ensures Scan(rows + [row], chng + [x], nCol)
  {
    var rows', chng' := rows + [row], chng + [x];
    forall t | 0 < t < |rows'| ensures Change(rows', chng', t) {
      assert t < |rows| ==> Change(rows, chng, t);
    }
  }

  /** Whichever of the current row and the old candidate wins is the new candidate. */
  lemma BestAfterRow(cur: Sample, b: Sample, chng: seq<nat>, ids: seq<Rowid>, nCol: nat, i: nat)
    requires chng != [] && |chng| == |ids| && CurrentOk(cur, chng, ids, nCol)
    requires !cur.isPSample && cur.iCol == i && i + 1 < nCol && chng[|chng| - 1] < nCol
    requires |chng| == 1 ==> b.iCol == i && b.anEq == seq(nCol, _ => 0)
    requires |chng| > 1 ==>
      BestOk(b, chng[..|chng| - 1], ids[..|ids| - 1], nCol, i) && Widest(b, chng[..|chng| - 1], nCol, i)
    ensures |b.anEq| == |cur.anEq| == nCol && b.iCol == i
    ensures var b' := if i >= chng[|chng| - 1] || IsBetterPost(cur, b) then cur else b;
      BestOk(b', chng, ids, nCol, i) && Widest(b', chng, nCol, i)
  {
    var n, x := |chng| - 1, chng[|chng| - 1];
    CurrentIsBest(cur, chng, ids, nCol, i);
    if n == 0 {
      FirstRowDisplaces(cur, b, nCol, i);
      NewGroupWidest(cur, chng, ids, nCol, i);
    } else if i >= x {
      NewGroupWidest(cur, chng, ids, nCol, i);
    } else {
      assert chng == chng[..n] + [x] && ids == ids[..n] + [ids[n]];
      WidestSurvivesRow(b, cur, chng[..n], ids[..n], nCol, i, x, ids[n]);
      if !IsBetterPost(cur, b) {
        BestSurvivesRow(b, cur, chng[..n], ids[..n], nCol, i, x, ids[n]);
      }
    }
  }

  /** How many rows lie between two periodic samples. */
  function Period(rowCount: nat, mxSample: nat): (r: nat)
    ensures r > 0
  {
    rowCount / (mxSample / 3 + 1) + 1
  }

  /** Among any w consecutive rows of the first nRow there is one with a periodic sample. */
  ghost predicate PeriodicEvery(a: seq<Sample>, nRow: nat, w: nat) {
    forall lo: nat :: lo + w <= nRow ==> PeriodicWithin(a, lo, w)
  }

  ghost predicate PeriodicWithin(a: seq<Sample>, lo: nat, w: nat) {
    exists j :: 0 <= j < |a| && |a[j].anLt| > 0 && a[j].isPSample && lo <= Pos(a[j]) < lo + w
  }

  /** The rows that are due lie close enough. */
  lemma DueIsEvery(a: seq<Sample>, nRow: nat, w: nat)
    requires w > 0 && AllDueKept(a, nRow, w)
    ensures PeriodicEvery(a, nRow, w)
  {
    forall lo: nat | lo + w <= nRow ensures PeriodicWithin(a, lo, w) {
      var q := DueWithin(lo, w);
      assert HasPeriodic(a, q);
      var j :| 0 <= j < |a| && |a[j].anLt| > 0 && a[j].isPSample && Pos(a[j]) == q;
    }
  }

  lemma DueWithin(lo: nat, w: nat) returns (q: nat)
    requires w > 0
    ensures lo <= q < lo + w && Due(q, w)
  {
    var k := lo / w;
    q := w * k + (w - 1);
    DivMod(lo, w);
    DivUnique(q, w, k, w - 1);
    DivUnique(q + 1, w, k + 1, 0);
  }

  /** At most a third of the sample slots ever hold periodic samples. */
  lemma PeriodicBound(nRow: nat, rowCount: nat, mxSample: nat)
    requires nRow <= rowCount
    ensures nRow / Period(rowCount, mxSample) <= mxSample / 3
  {
    var d, p := mxSample / 3 + 1, Period(rowCount, mxSample);
    DivMod(rowCount, d);
    assert p * d == d * (rowCount / d) + d;
    DivLess(nRow, p, d);
  }

  class Stat4Accum {
    const nCol: nat
    const nKeyCol: nat
    const mxSample: nat
    const nPSample: nat
    var nRow: nat
    var current: Sample
    var iPrn: nat
    var aBest: seq<Sample>
    var iMin: nat
    var nMaxEqZero: nat
    var iGet: int
    var a: seq<Sample>            // the first nSample entries of a[]

    ghost const rowCount: nat     // the row count announced to stat_init
    ghost var rows: seq<Row>      // the rows pushed so far,
    ghost var chng: seq<nat>      // the column each one changed at,
    ghost var ids: seq<Rowid>     // and their rowids

    ghost predicate Sampling()
      reads this
    {
      && 0 < nKeyCol <= nCol && mxSample > 0 && nPSample == Period(rowCount, mxSample)
      && Scan(rows, chng, nCol)
      && |ids| == |rows| == |chng| == nRow <= rowCount
    }

    ghost predicate Bounded()
      reads this
    {
      IsBounded(a, iMin, nMaxEqZero, nCol, mxSample)
    }

    ghost predicate Valid()
      reads this
    {
      && Sampling() && Bounded()
      && PeriodicCount(a) <= nRow / nPSample && AllDueKept(a, nRow, nPSample)
      && !current.isPSample
      && if nRow == 0 then Blank()
         else
           && CurrentOk(current, chng, ids, nCol)
           && BestsOk(aBest, chng, ids, nCol)
           && AllOk(a, chng, ids, nCol, nCol - 1)
           && Covers(a, chng, nCol, mxSample, nCol - 1)
    }

    /** Unknown counts lie left of the columns samples were chosen for, and iMin is least in a full list. */
    lemma LeastKept()
      requires Valid()
      ensures AllLeft(a) && AllRanked(a, nCol) && (|a| == mxSample ==> IsLeast(a, iMin, nCol))
    {
      if nRow > 0 {
        StartTidy(a, chng, ids, nCol, nMaxEqZero);
        TidyLeft(a, chng, nCol, nCol - 1);
      }
    }

    /** The accumulator before the first row. */
    ghost predicate Blank()
      reads this
    {
      var zero := seq(nCol, _ => 0);
      && a == [] && nMaxEqZero == 0
      && |current.anEq| == nCol && current.anLt == zero && current.anDLt == zero
      && FreshBest(aBest, nCol)
    }

    constructor (nCol: nat, nKeyCol: nat, rowCount: nat, mxSample: nat, seed: nat)
      requires nCol > 0 && 0 < nKeyCol <= nCol && mxSample > 0
      ensures Valid() && nRow == 0 && rows == [] && iGet == -1
      ensures this.nCol == nCol && this.nKeyCol == nKeyCol
      ensures this.rowCount == rowCount && this.mxSample == mxSample
    {
      this.nCol, this.nKeyCol, this.mxSample := nCol, nKeyCol, mxSample;
      this.rowCount := rowCount;
      nPSample := Period(rowCount, mxSample);
      var zero := seq(nCol, _ => 0);
      var blank := Sample(zero, zero, zero, Int64(0), false, 0, 0);
      nRow, current, a, iMin, nMaxEqZero, iGet := 0, blank, [], 0, 0, -1;
      iPrn := seed;
      aBest := seq(nCol, i requires 0 <= i < nCol => Sample(zero, zero, zero, Int64(0), false, i, 0));
      rows, chng, ids := [], [], [];
    }

    /** The code after label find_new_min. */
    method FindNewMin()
      requires AllRanked(a, nCol) && PeriodicCount(a) < mxSample && |a| <= mxSample
      modifies this`iMin
      ensures |a| == mxSample ==> IsLeast(a, iMin, nCol)
      ensures |a| < mxSample ==> iMin == old(iMin)
    {
      if |a| >= mxSample {
        var m := -1;
        for i := 0 to mxSample
          invariant -1 <= m < i
          invariant m < 0 ==> forall j :: 0 <= j < i ==> a[j].isPSample
          invariant m >= 0 ==> !a[m].isPSample
          invariant m >= 0 ==> forall j :: 0 <= j < i && !a[j].isPSample ==> !IsBetter(a[m], a[j])
        {
          if !a[i].isPSample {
            if m < 0 || IsBetter(a[m], a[i]) {
              forall j | 0 <= j <= i && !a[j].isPSample && m >= 0 ensures !IsBetter(a[i], a[j]) {
                BetterIsStrictOrder(a[m], a[i], a[j]);
                BetterIsStrictOrder(a[i], a[i], a[i]);
              }
              BetterIsStrictOrder(a[i], a[i], a[i]);
              m := i;
            }
          }
        }
        if m < 0 { AllPeriodic(a); }
        assert m >= 0;
        iMin := m;
      }
    }

    /**
     The search for a sample that already shares the prefix of pNew: -2 stands
     for a periodic one, -1 for none.
     */
    method FindUpgrade(pNew: Sample) returns (u: int)
      requires Ranked(pNew) && pNew.iCol + 1 < nCol
      requires SampleOk(Zeroed(pNew, pNew.iCol), chng, ids, nCol, pNew.iCol)
      requires Open(chng, pNew.iCol, Pos(pNew))
      requires AllOk(a, chng, ids, nCol, pNew.iCol + 1) && AllRanked(a, nCol)
      ensures -2 <= u < |a|
      ensures u == -2 <==> SharesPeriodic(a, pNew.iCol)
      ensures u == -1 <==> !Shares(a, pNew.iCol)
      ensures u >= 0 ==> IsUpgradeChoice(a, u, pNew.iCol, nCol)
    {
      var c := pNew.iCol;
      u := -1;
      var i := |a| - 1;
      while i >= 0
        invariant -1 <= i < |a| && -1 <= u < |a|
        invariant u < 0 ==> forall j :: i < j < |a| ==> a[j].anEq[c] != 0
        invariant forall j :: i < j < |a| && a[j].anEq[c] == 0 ==> !a[j].isPSample
        invariant u >= 0 ==> i < u && a[u].anEq[c] == 0 && !a[u].isPSample
        invariant u >= 0 ==> forall j :: i < j < |a| && a[j].anEq[c] == 0 ==> !IsBetter(a[j], a[u])
      {
        var pOld := a[i];
        if pOld.anEq[c] == 0 {
          if pOld.isPSample { return -2; }
          assert pOld.iCol > c && IsBetter(pNew, pOld) by { SharerIsWorse(pNew, pOld, chng, ids, nCol); }
          if u < 0 || IsBetter(pOld, a[u]) {
            forall j | i <= j < |a| && a[j].anEq[c] == 0 ensures !IsBetter(a[j], pOld) {
              if u >= 0 { BetterIsStrictOrder(a[j], pOld, a[u]); }
              BetterIsStrictOrder(pOld, pOld, pOld);
            }
            u := i;
          }
        }
        i := i - 1;
      }
    }

    /** What sampleInsert may be given: a known count for its own column, and 0 stored below it. */
    ghost predicate Insertable(pNew: Sample, nEqZero: nat)
      reads this
    {
      && Shaped(pNew, nCol) && nEqZero < nCol
      && SampleOk(Zeroed(pNew, nEqZero), chng, ids, nCol, nEqZero)
      && (forall c :: nEqZero <= c < nCol ==> pNew.anEq[c] > 0)
      && if pNew.isPSample then
           && nEqZero == nCol - 1
           && PeriodicCount(a) + 1 <= mxSample / 3
           && AllOk(a, chng, ids, nCol, nEqZero)
           && (forall j :: 0 <= j < |a| ==> |a[j].anLt| > 0 && Pos(a[j]) < Pos(pNew))
         else
           && pNew.iCol == nEqZero && nEqZero + 1 < nCol
           && Open(chng, nEqZero, Pos(pNew))
           && AllOk(a, chng, ids, nCol, nEqZero + 1)
    }

    /** The existing sample u takes over the column and the count of pNew. */
    method Upgrade(u: nat, pNew: Sample)
      requires nCol > 0 && mxSample > 0 && Bounded() && u < |a|
      requires pNew.iCol + 1 < nCol == |pNew.anEq|
      requires AllOk(a, chng, ids, nCol, pNew.iCol + 1)
      requires SampleOk(Zeroed(pNew, pNew.iCol), chng, ids, nCol, pNew.iCol)
      requires Open(chng, pNew.iCol, Pos(pNew)) && pNew.anEq[pNew.iCol] > 0
      requires !a[u].isPSample && a[u].anEq[pNew.iCol] == 0
      modifies this`a, this`iMin
      ensures a == old(a)[u := Upgraded(old(a)[u], pNew)]
      ensures Bounded() && AllOk(a, chng, ids, nCol, pNew.iCol)
      ensures PeriodicCount(a) == old(PeriodicCount(a))
    {
      ReplaceOk(a, u, pNew, chng, ids, nCol);
      OkIsRanked(a, chng, ids, nCol, pNew.iCol + 1);
      a := a[u := Upgraded(a[u], pNew)];
      OkIsRanked(a, chng, ids, nCol, pNew.iCol);
      FindNewMin();
    }

    /** The new sample goes last, after sample iMin has been evicted from a full array. */
    method Append(z: Sample, ghost k: nat)
      requires nCol > 0 && mxSample > 0 && Bounded()
      requires AllOk(a, chng, ids, nCol, k) && SampleOk(z, chng, ids, nCol, k)
      requires forall c :: nMaxEqZero <= c < nCol ==> z.anEq[c] > 0
      requires forall j :: 0 <= j < |a| ==> Pos(a[j]) < Pos(z)
      requires z.isPSample ==> PeriodicCount(a) + 1 <= mxSample / 3
      modifies this`a, this`iMin
      ensures a == WithNew(old(a), mxSample, old(iMin), z)
      ensures Bounded() && AllOk(a, chng, ids, nCol, k)
      ensures PeriodicCount(a) == old(PeriodicCount(a)) + if z.isPSample then 1 else 0
    {
      hide AllOk, InRowOrder, PeriodicCount, NoZeroFrom, SampleOk;
      WithNewOk(a, mxSample, iMin, z, chng, ids, nCol, k, nMaxEqZero);
      a := WithNew(a, mxSample, iMin, z);
      OkIsRanked(a, chng, ids, nCol, k);
      FindNewMin();
    }

    /** A candidate whose prefix some sample shares is not inserted. */
    method UpgradeSharer(pNew: Sample) returns (done: bool)
      requires nCol > 0 && mxSample > 0 && Bounded() && Insertable(pNew, pNew.iCol) && !pNew.isPSample
      modifies this`a, this`iMin
      ensures done == Shares(old(a), pNew.iCol)
      ensures Bounded() && AllOk(a, chng, ids, nCol, pNew.iCol)
      ensures PeriodicCount(a) == old(PeriodicCount(a))
      ensures !done ==> a == old(a) && iMin == old(iMin)
      ensures !done ==> forall j :: 0 <= j < |a| ==> |a[j].anLt| > 0 && Pos(a[j]) < Pos(pNew)
      ensures done ==> Inserted(old(a), old(iMin), pNew, pNew.iCol, nCol, mxSample, a)
    {
      var c := pNew.iCol;
      OkIsRanked(a, chng, ids, nCol, c + 1);
      var u := FindUpgrade(pNew);
      if u >= 0 {
        Upgrade(u, pNew);
        return true;
      }
      Weaken(a, chng, ids, nCol, c + 1, c);
      if u == -1 {
        NonSharersAreEarlier(a, chng, ids, nCol, c, Pos(pNew));
      }
      return u == -2;
    }

    /** sampleInsert.  A full array has iMin least before and after. */
    method SampleInsert(pNew: Sample, nEqZero: nat)
      requires nCol > 0 && mxSample > 0 && Bounded() && Insertable(pNew, nEqZero)
      modifies this`a, this`iMin, this`nMaxEqZero
      ensures Bounded() && AllOk(a, chng, ids, nCol, nEqZero)
      ensures |a| == mxSample ==> IsLeast(a, iMin, nCol)
      ensures nMaxEqZero == if nEqZero > old(nMaxEqZero) then nEqZero else old(nMaxEqZero)
      ensures PeriodicCount(a) <= old(PeriodicCount(a)) + if pNew.isPSample then 1 else 0
      ensures Inserted(old(a), old(iMin), pNew, nEqZero, nCol, mxSample, a)
    {
      hide AllOk, PeriodicCount, InRowOrder, WithNew, IsLeast, Shares, SharesPeriodic, Open;
      PeriodicSharerShares(a, nEqZero);
      if |a| == mxSample { LeastIsVictim(a, iMin, nCol); }
      if nEqZero > nMaxEqZero {
        nMaxEqZero := nEqZero;
      }
      if !pNew.isPSample {
        var done := UpgradeSharer(pNew);
        if done { return; }
      }
      var z := Zeroed(pNew, nEqZero);
      assert Pos(z) == Pos(pNew) && forall c :: nEqZero <= c < nCol ==> z.anEq[c] > 0;
      Append(z, nEqZero);
    }

    /** Replaces the unknown counts from column x on by those of the current row. */
    method FillIn(x: nat)
      requires AllRanked(a, nCol) && |current.anEq| == nCol
      modifies this`a
      ensures |a| == |old(a)|
      ensures forall j :: 0 <= j < |a| ==> a[j] == Filled(old(a)[j], current, x)
    {
      var i := |a| - 1;
      while i >= 0
        invariant -1 <= i < |a| == |old(a)|
        invariant forall j :: 0 <= j <= i ==> a[j] == old(a)[j]
        invariant forall j :: i < j < |a| ==> a[j] == Filled(old(a)[j], current, x)
      {
        var anEq := a[i].anEq;
        var j := x;
        while j < nCol
          invariant x <= j && |anEq| == nCol
          invariant forall c :: 0 <= c < nCol ==>
            anEq[c] == if x <= c < j && a[i].anEq[c] == 0 then current.anEq[c] else a[i].anEq[c]
        {
          if anEq[j] == 0 {
            anEq := anEq[j := current.anEq[j]];
          }
          j := j + 1;
        }
        assert anEq == Filled(a[i], current, x).anEq;
        a := a[i := a[i].(anEq := anEq)];
        i := i - 1;
      }
    }

    method PushCandidate(i: nat, ghost k: nat)
      requires mxSample > 0 && Bounded() && i + 1 == k < nCol
      requires CurrentOk(current, chng, ids, nCol) && BestsOk(aBest, chng, ids, nCol)
      requires AllOk(a, chng, ids, nCol, k) && Tidy(a, chng, nCol, k) && Covers(a, chng, nCol, mxSample, k)
      modifies this`a, this`iMin, this`nMaxEqZero, this`aBest
      ensures Bounded() && BestsOk(aBest, chng, ids, nCol) && AllOk(a, chng, ids, nCol, i) && Tidy(a, chng, nCol, i)
      ensures PeriodicCount(a) <= old(PeriodicCount(a)) && KeepsPeriodic(old(a), a)
      ensures Covers(a, chng, nCol, mxSample, i)
      ensures AllRanked(old(a), nCol) && Ranked(aBest[i])
      ensures if old(|a|) < mxSample || IsBetter(aBest[i], old(a[iMin]))
              then Inserted(old(a), old(iMin), aBest[i], i, nCol, mxSample, a) else a == old(a)
    {
      hide SampleOk, InRowOrder, NoZeroFrom, PeriodicCount, Tidy, IsLeast, Completed;
      BestGetsGroupSize(aBest[i], current, chng, ids, nCol, i);
      var pBest := aBest[i].(anEq := aBest[i].anEq[i := current.anEq[i]]);
      ReplaceBest(aBest, i, pBest, chng, ids, nCol);
      aBest := aBest[i := pBest];
      if |a| == mxSample { LeastIsVictim(a, iMin, nCol); }
      if |a| < mxSample || IsBetter(pBest, a[iMin]) {
        SampleInsert(pBest, i);
        InsertedKeepsPeriodic(old(a), old(iMin), pBest, i, nCol, mxSample, a);
        InsertedTidy(old(a), old(iMin), pBest, chng, ids, nCol, mxSample, i, k, a);
        InsertedCovers(old(a), old(iMin), pBest, chng, ids, nCol, mxSample, i, k, a);
      } else {
        SkippedTidy(a, iMin, pBest, chng, ids, nCol, i, k);
        SkippedCovers(a, iMin, pBest, chng, ids, nCol, mxSample, i, k);
        Weaken(a, chng, ids, nCol, k, i);
      }
    }

    /** The candidates of the columns whose groups end with the previous row are considered for a[]. */
    method PushCandidates(iChng: nat)
      requires nCol > 0 && mxSample > 0 && Bounded() && iChng < nCol
      requires CurrentOk(current, chng, ids, nCol) && BestsOk(aBest, chng, ids, nCol)
      requires AllOk(a, chng, ids, nCol, nCol - 1) && Covers(a, chng, nCol, mxSample, nCol - 1)
      modifies this`a, this`iMin, this`nMaxEqZero, this`aBest
      ensures Bounded() && BestsOk(aBest, chng, ids, nCol) && AllOk(a, chng, ids, nCol, iChng) && AllLeft(a)
      ensures Covers(a, chng, nCol, mxSample, iChng)
      ensures PeriodicCount(a) <= old(PeriodicCount(a)) && KeepsPeriodic(old(a), a)
    {
      StartTidy(a, chng, ids, nCol, nMaxEqZero);
      hide HasPeriodic, SampleOk, BestOk, Widest, Tidy, Covers;
      var k := nCol - 1;
      while k > iChng
        invariant iChng <= k < nCol
        invariant Bounded() && BestsOk(aBest, chng, ids, nCol) && AllOk(a, chng, ids, nCol, k) && Tidy(a, chng, nCol, k)
        invariant Covers(a, chng, nCol, mxSample, k)
        invariant PeriodicCount(a) <= old(PeriodicCount(a)) && KeepsPeriodic(old(a), a)
      {
        ghost var k0 := k;
        k := k - 1;
        PushCandidate(k, k0);
      }
      TidyLeft(a, chng, nCol, iChng);
    }

    /** The unknown counts of the groups that end with the previous row become known. */
    method CloseGroups(iChng: nat)
      requires Bounded() && iChng < nCol && AllLeft(a)
      requires CurrentOk(current, chng, ids, nCol) && AllOk(a, chng, ids, nCol, iChng)
      requires Covers(a, chng, nCol, mxSample, iChng)
      modifies this`a, this`nMaxEqZero
      ensures Covers(a, chng, nCol, mxSample, iChng)
      ensures Bounded() && AllOk(a, chng, ids, nCol, iChng) && nMaxEqZero <= iChng
      ensures PeriodicCount(a) == old(PeriodicCount(a)) && KeepsPeriodic(old(a), a)
    {
      hide AllOk, BestsOk, Covers, HasPeriodic, IsLeast, AllLeft, PeriodicCount, InRowOrder;
      if iChng < nMaxEqZero {
        ghost var b := a;
        FillIn(iChng);
        AllFilledOk(b, a, current, chng, ids, nCol, iChng, iMin, nMaxEqZero, mxSample);
        PointwisePeriodic(b, a);
        FilledExtends(b, a, current, iChng, nCol);
        ExtendsCovers(b, a, chng, nCol, mxSample, iChng);
        nMaxEqZero := iChng;
      }
    }

    method SamplePushPrevious(iChng: nat)
      requires mxSample > 0 && Bounded() && iChng < nCol
      requires CurrentOk(current, chng, ids, nCol) && BestsOk(aBest, chng, ids, nCol)
      requires AllOk(a, chng, ids, nCol, nCol - 1) && Covers(a, chng, nCol, mxSample, nCol - 1)
      modifies this`a, this`iMin, this`nMaxEqZero, this`aBest
      ensures Bounded() && BestsOk(aBest, chng, ids, nCol) && AllOk(a, chng, ids, nCol, iChng)
      ensures AllRanked(a, nCol) && (|a| == mxSample ==> IsLeast(a, iMin, nCol))
      ensures nMaxEqZero <= iChng && Covers(a, chng, nCol, mxSample, iChng)
      ensures PeriodicCount(a) <= old(PeriodicCount(a)) && KeepsPeriodic(old(a), a)
    {
      hide HasPeriodic, BestsOk, AllOk, CurrentOk, AllLeft, IsLeast, Covers, NoZeroFrom, InRowOrder;
      PushCandidates(iChng);
      CloseGroups(iChng);
    }

    /** The loops that move the counters of the current row on to the next row. */
    method AdvanceCurrent(iChng: nat)
      requires Shaped(current, nCol) && iChng < nCol
      modifies this`current
      ensures current == Advanced(old(current), iChng)
    {
      var anEq, anLt, anDLt := current.anEq, current.anLt, current.anDLt;
      for i := 0 to iChng
        invariant |anEq| == nCol
        invariant forall c :: 0 <= c < nCol ==> anEq[c] == current.anEq[c] + if c < i then 1 else 0
      {
        anEq := anEq[i := anEq[i] + 1];
      }
      for i := iChng to nCol
        invariant |anEq| == |anLt| == |anDLt| == nCol
        invariant forall c :: 0 <= c < i ==>
          && anEq[c] == (if c < iChng then current.anEq[c] + 1 else 1)
          && anLt[c] == (if c < iChng then current.anLt[c] else current.anLt[c] + current.anEq[c])
          && anDLt[c] == (if c < iChng then current.anDLt[c] else current.anDLt[c] + 1)
        invariant forall c :: i <= c < nCol ==>
          anEq[c] == current.anEq[c] && anLt[c] == current.anLt[c] && anDLt[c] == current.anDLt[c]
      {
        anDLt := anDLt[i := anDLt[i] + 1];
        anLt := anLt[i := anLt[i] + anEq[i]];
        anEq := anEq[i := 1];
      }
      ghost var r := Advanced(current, iChng);
      assert anEq == r.anEq && anLt == r.anLt && anDLt == r.anDLt;
      current := current.(anEq := anEq, anLt := anLt, anDLt := anDLt);
    }

    /** The loop that updates aBest[] after the current row has been read. */
    method UpdateBest(iChng: nat)
      requires nRow > 0 && CurrentOk(current, chng, ids, nCol) && !current.isPSample && iChng < nCol
      requires |chng| == |ids| == nRow && chng[nRow - 1] == iChng
      requires nRow == 1 ==> FreshBest(aBest, nCol)
      requires nRow > 1 ==> BestsOk(aBest, chng[..nRow - 1], ids[..nRow - 1], nCol)
      modifies this`current, this`aBest
      ensures CurrentOk(current, chng, ids, nCol) && !current.isPSample
      ensures BestsOk(aBest, chng, ids, nCol)
    {
      hide BestOk, Widest, CurrentOk;
      ghost var cur := current;
      for i := 0 to nCol - 1
        invariant |aBest| == nCol && current == cur.(iCol := current.iCol) && CurrentOk(current, chng, ids, nCol)
        invariant forall j :: 0 <= j < i ==> BestOk(aBest[j], chng, ids, nCol, j)
        invariant forall j :: 0 <= j < i ==> Widest(aBest[j], chng, nCol, j)
        invariant forall j :: i <= j < nCol ==> aBest[j] == old(aBest)[j]
      {
        current := current.(iCol := i);
        CurrentReflagged(cur, false, i, chng, ids, nCol);
        BestAfterRow(current, aBest[i], chng, ids, nCol, i);
        if i >= iChng || IsBetterPost(current, aBest[i]) {
          aBest := aBest[i := current];
        }
      }
    }

    /** The row just read is kept as a periodic sample. */
    method InsertPeriodic()
      requires nCol > 0 && mxSample > 0 && Bounded()
      requires CurrentOk(current, chng, ids, nCol) && !current.isPSample
      requires forall t :: 0 <= t < |chng| ==> chng[t] < nCol
      requires AllOk(a, chng, ids, nCol, nCol - 1) && Covers(a, chng, nCol, mxSample, nCol - 1)
      requires forall j :: 0 <= j < |a| ==> |a[j].anLt| > 0 && Pos(a[j]) < Pos(current)
      requires PeriodicCount(a) + 1 <= mxSample / 3
      modifies this`current, this`a, this`iMin, this`nMaxEqZero
      ensures Bounded() && AllOk(a, chng, ids, nCol, nCol - 1) && Covers(a, chng, nCol, mxSample, nCol - 1)
      ensures PeriodicCount(a) <= old(PeriodicCount(a)) + 1
      ensures KeepsPeriodic(old(a), a) && HasPeriodic(a, Pos(old(current)))
      ensures current == old(current).(iCol := 0)
    {
      hide Covers, HasPeriodic, IsLeast, KeepsPeriodic, AllOk, InRowOrder, NoZeroFrom, PeriodicCount;
      // isPSample is true of the current row only for the duration of the call
      current := current.(iCol := 0);
      var p := current.(isPSample := true);
      CurrentReflagged(old(current), true, 0, chng, ids, nCol);
      CurrentBecomesSample(p, chng, ids, nCol);
      PeriodicInsertable(p, chng, ids, nCol);
      SampleInsert(p, nCol - 1);
      if old(|a|) == mxSample { LeastIsVictim(old(a), old(iMin), nCol); }
      InsertedKeepsPeriodic(old(a), old(iMin), p, nCol - 1, nCol, mxSample, a);
      WithNewCovers(old(a), old(iMin), Zeroed(p, nCol - 1), chng, ids, nCol, nCol - 1, mxSample, nCol - 1);
    }

    /** A periodic sample is taken whenever a multiple of nPSample rows is complete. */
    method PeriodicSample()
      requires Sampling() && nRow > 0 && Bounded()
      requires CurrentOk(current, chng, ids, nCol) && !current.isPSample
      requires AllOk(a, chng, ids, nCol, nCol - 1) && Covers(a, chng, nCol, mxSample, nCol - 1)
      requires forall j :: 0 <= j < |a| ==> |a[j].anLt| > 0 && Pos(a[j]) < nRow - 1
      requires PeriodicCount(a) <= (nRow - 1) / nPSample && AllDueKept(a, nRow - 1, nPSample)
      modifies this`current, this`a, this`iMin, this`nMaxEqZero
      ensures Bounded() && AllOk(a, chng, ids, nCol, nCol - 1) && Covers(a, chng, nCol, mxSample, nCol - 1)
      ensures PeriodicCount(a) <= nRow / nPSample && AllDueKept(a, nRow, nPSample)
      ensures current == old(current).(iCol := current.iCol)
    {
      var nLt := current.anLt[nCol - 1];
      DivStep(nRow - 1, nPSample);
      PeriodicBound(nRow, rowCount, mxSample);
      if Due(nLt, nPSample) {
        InsertPeriodic();
      }
    }

    method LeaveRow(iChng: nat, id: Rowid)
      requires mxSample > 0 && Bounded() && iChng < nCol && |chng| == |ids|
      requires CurrentOk(current, chng, ids, nCol) && BestsOk(aBest, chng, ids, nCol)
      requires AllOk(a, chng, ids, nCol, nCol - 1) && Covers(a, chng, nCol, mxSample, nCol - 1)
      modifies this`a, this`iMin, this`nMaxEqZero, this`aBest, this`current
      ensures Bounded() && BestsOk(aBest, chng, ids, nCol)
      ensures Covers(a, chng + [iChng], nCol, mxSample, nCol - 1)
      ensures AllOk(a, chng + [iChng], ids + [id], nCol, nCol - 1)
      ensures forall j :: 0 <= j < |a| ==> |a[j].anLt| > 0 && Pos(a[j]) < |chng|
      ensures PeriodicCount(a) <= old(PeriodicCount(a)) && KeepsPeriodic(old(a), a)
      ensures current == Advanced(old(current), iChng).(rowid := id, iHash := iPrn)
      ensures CurrentOk(current, chng + [iChng], ids + [id], nCol)
    {
      hide BestsOk, PeriodicCount, HasPeriodic, Covers, IsLeast;
      SamplePushPrevious(iChng);
      CoversRow(a, chng, nCol, mxSample, iChng);
      AllSurviveRow(a, chng, ids, nCol, iChng, id);
      AdvancedOk(current, chng, ids, nCol, iChng, id, iPrn);
      AdvanceCurrent(iChng);
      current := current.(rowid := id, iHash := iPrn);
    }

    method FirstRow(iChng: nat, ghost row: Row, id: Rowid)
      requires Sampling() && Blank() && nRow == 0 < rowCount && iChng < nCol == |row|
      modifies this`iPrn, this`current, this`nRow, this`rows, this`chng, this`ids
      ensures Sampling() && current.isPSample == old(current.isPSample)
      ensures rows == old(rows) + [row] && ids == old(ids) + [id] && chng == old(chng) + [iChng]
      ensures CurrentOk(current, chng, ids, nCol)
    {
      iPrn := NextPrn(iPrn);
      ScanAppend(rows, chng, nCol, row, iChng);
      current := current.(anEq := seq(nCol, _ => 1), rowid := id, iHash := iPrn);
      FirstRowOk(current, iChng, id, nCol);
      nRow := nRow + 1;
      rows, chng, ids := rows + [row], chng + [iChng], ids + [id];
    }

    /** Between two rows: the groups ended by the new row are closed and the counters moved on. */
    method LaterRow(iChng: nat, ghost row: Row, id: Rowid)
      requires Sampling() && Bounded() && 0 < nRow < rowCount
      requires iChng < nCol == |row| && LessAt(rows[nRow - 1], row, iChng)
      requires CurrentOk(current, chng, ids, nCol) && BestsOk(aBest, chng, ids, nCol)
      requires AllOk(a, chng, ids, nCol, nCol - 1) && Covers(a, chng, nCol, mxSample, nCol - 1)
      modifies this`iPrn, this`current, this`nRow, this`rows, this`chng, this`ids,
               this`a, this`aBest, this`iMin, this`nMaxEqZero
      ensures Sampling() && Bounded() && current.isPSample == old(current.isPSample)
      ensures rows == old(rows) + [row] && ids == old(ids) + [id] && chng == old(chng) + [iChng]
      ensures CurrentOk(current, chng, ids, nCol) && BestsOk(aBest, old(chng), old(ids), nCol)
      ensures AllOk(a, chng, ids, nCol, nCol - 1) && Covers(a, chng, nCol, mxSample, nCol - 1)
      ensures forall j :: 0 <= j < |a| ==> |a[j].anLt| > 0 && Pos(a[j]) < nRow - 1
      ensures PeriodicCount(a) <= old(PeriodicCount(a)) && KeepsPeriodic(old(a), a)
    {
      hide AllOk, BestsOk, CurrentOk, IsBounded, PeriodicCount, NextPrn, KeepsPeriodic, Covers;
      iPrn := NextPrn(iPrn);
      ScanAppend(rows, chng, nCol, row, iChng);
      LeaveRow(iChng, id);
      nRow := nRow + 1;
      rows, chng, ids := rows + [row], chng + [iChng], ids + [id];
    }

    /** stat_push(P, iChng, id): one more row of the index, in index order. */
    method Push(iChng: nat, ghost row: Row, id: Rowid)
      requires Valid() && nRow < rowCount
      requires iChng < nCol == |row| && (nRow > 0 ==> LessAt(rows[nRow - 1], row, iChng))
      modifies this
      ensures Valid() && iGet == old(iGet)
      ensures rows == old(rows) + [row] && ids == old(ids) + [id] && nRow == old(nRow) + 1
      ensures AllLeft(a) && AllRanked(a, nCol) && (|a| == mxSample ==> IsLeast(a, iMin, nCol))
    {
      hide AllOk, BestsOk, CurrentOk, IsBounded, PeriodicCount, NextPrn, AllDueKept, KeepsPeriodic, Scan, Covers;
      ghost var a0 := a;
      if nRow == 0 {
        FirstRow(iChng, row, id);
        FirstRowCovers(a, chng, nCol, mxSample);
      } else {
        LaterRow(iChng, row, id);
        DueStaysKept(a0, a, nRow - 1, nPSample);
      }
      ghost var cur := current;
      PeriodicSample();
      CurrentReflagged(cur, false, current.iCol, chng, ids, nCol);
      assert chng[..nRow - 1] == old(chng) && ids[..nRow - 1] == old(ids);
      UpdateBest(iChng);
      LeastKept();
    }

    /** Every kept sample is exact, they are in row order and few enough, and no periodic one was lost. */
    ghost predicate Finished()
      reads this
    {
      && Scan(rows, chng, nCol) && |ids| == |rows|
      && |a| <= mxSample && InRowOrder(a)
      && (forall j :: 0 <= j < |a| ==> Exact(a[j], rows, nCol) && a[j].rowid == ids[Pos(a[j])])
      && nPSample == Period(rowCount, mxSample) && AllDueKept(a, |rows|, nPSample)
      && (|a| < mxSample ==> Complete(a, rows, nCol)) && CommonestKept(a, rows, nCol)
    }

    /** stat_get(P, STAT_GET_ROWID): the first call completes the samples. */
    method GetRowid() returns (r: seq<Rowid>)
      requires if iGet < 0 then Valid() && nRow > 0 else Finished()
      modifies this`a, this`iMin, this`nMaxEqZero, this`aBest, this`iGet
      ensures Finished() && iGet == (if old(iGet) < 0 then 0 else old(iGet))
      ensures r == if iGet < |a| then [a[iGet].rowid] else []
    {
      if iGet < 0 {
        FinishSamples();
        iGet := 0;
      }
      r := if iGet < |a| then [a[iGet].rowid] else [];
    }

    /** samplePushPrevious(p, 0): the last row ends all groups. */
    method FinishSamples()
      requires Valid() && nRow > 0
      modifies this`a, this`iMin, this`nMaxEqZero, this`aBest
      ensures Finished()
    {
      hide Covers, Complete, IsLeast, KeepsPeriodic, AllDueKept, AllOk, CurrentOk, BestsOk, Exact, PeriodicCount, Scan;
      ghost var a0 := a;
      SamplePushPrevious(0);
      DueStaysKept(a0, a, nRow, nPSample);
      AllExact(a, rows, chng, ids, nCol);
      AllComplete(a, rows, chng, nCol, mxSample);
      ScanShape(rows, chng, nCol);
    }

    /** stat_get(P, STAT_GET_STAT1): the row count, then rows per distinct prefix, rounded up. */
    method GetStat1() returns (stat: seq<nat>)
      requires Valid() && nRow > 0
      ensures |stat| == nKeyCol + 1 && stat[0] == |rows|
      ensures forall c :: 0 <= c < nKeyCol ==>
        var distinct := |Prefixes(rows, c)|;
        distinct > 0 && (stat[c + 1] - 1) * distinct < |rows| <= stat[c + 1] * distinct
    {
      stat := [nRow];
      for i := 0 to nKeyCol
        invariant |stat| == i + 1 && stat[0] == nRow
        invariant forall c :: 0 <= c < i ==>
          var distinct := |Prefixes(rows, c)|;
          distinct > 0 && (stat[c + 1] - 1) * distinct < nRow <= stat[c + 1] * distinct
      {
        var nDistinct := current.anDLt[i] + 1;
        CountPrefixes(rows, chng, nCol, i, nRow - 1);
        assert rows[..nRow - 1 + 1] == rows;
        RoundUp(nRow, nDistinct);
        stat := stat + [(nRow + nDistinct - 1) / nDistinct];
      }
    }
  }

  lemma RoundUp(n: nat, d: nat)
    requires d > 0
    ensures ((n + d - 1) / d - 1) * d < n <= (n + d - 1) / d * d
  {
    var q := (n + d - 1) / d;
    assert n + d - 1 == d * q + (n + d - 1) % d;
    assert (q - 1) * d == d * q - d;
  }

  /** Row t comes after its predecessor. */
  ghost predicate Rising(rows: seq<Row>, t: nat)
    requires 0 < t < |rows|
  {
    Less(rows[t - 1], rows[t])
  }

  /** The leftmost column in which the later row b differs from a. */
  method FirstChange(a: Row, b: Row) returns (r: nat)
    requires Less(a, b)
    ensures LessAt(a, b, r)
  {
    ghost var c: nat :| LessAt(a, b, c);
    assert forall k :: 0 <= k < c ==> a[k] == a[..c][k] == b[..c][k] == b[k];
    r := 0;
    while r < |a| && r < |b| && a[r] == b[r]
      invariant r <= c
    {
      r := r + 1;
    }
  }

  /**
   A whole analysis of one index: for every sorted index content, every sample
   that is finally reported carries the exact counts for all column prefixes,
   and a prefix goes without a sample only if it is no commoner than those kept.
   */
  method Analyze(rows: seq<Row>, ids: seq<Rowid>, nCol: nat, nKeyCol: nat, mxSample: nat, seed: nat)
    returns (samples: seq<Sample>)
    requires 0 < nKeyCol <= nCol && mxSample > 0 && |rows| == |ids| > 0
    requires forall t :: 0 <= t < |rows| ==> |rows[t]| == nCol
    requires forall t :: 0 < t < |rows| ==> Rising(rows, t)
    ensures |samples| <= mxSample && InRowOrder(samples)
    ensures forall j :: 0 <= j < |samples| ==>
      Exact(samples[j], rows, nCol) && samples[j].rowid == ids[Pos(samples[j])]
    ensures AllDueKept(samples, |rows|, Period(|rows|, mxSample))
    ensures PeriodicEvery(samples, |rows|, |rows| / (mxSample / 3 + 1) + 1)
    ensures |samples| < mxSample ==> Complete(samples, rows, nCol)
    ensures CommonestKept(samples, rows, nCol)
  {
    hide Complete, CommonestKept, PeriodicEvery, AllLeft, IsLeast, AllOk, BestsOk, CurrentOk, IsBounded, PeriodicCount, Scan, AllDueKept;
    var p := new Stat4Accum(nCol, nKeyCol, |rows|, mxSample, seed);
    for n := 0 to |rows|
      invariant p.Valid() && p.iGet < 0 && p.nRow == n && fresh(p)
      invariant p.rows == rows[..n] && p.ids == ids[..n]
      invariant p.nCol == nCol && p.rowCount == |rows| && p.mxSample == mxSample
    {
      var iChng := 0;
      if n > 0 {
        assert Rising(rows, n);
        iChng := FirstChange(rows[n - 1], rows[n]);
      }
      p.Push(iChng, rows[n], ids[n]);
      assert rows[..n] + [rows[n]] == rows[..n + 1] && ids[..n] + [ids[n]] == ids[..n + 1];
    }
    assert rows[..|rows|] == rows && ids[..|rows|] == ids;
    var first := p.GetRowid();
    samples := p.a;
    DueIsEvery(samples, |rows|, Period(|rows|, mxSample));
  }
}
