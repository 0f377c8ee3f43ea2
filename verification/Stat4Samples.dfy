/**
 The samples kept by the STAT4 accumulator: their order of preference and what
 it means for their counters to be right, partly right or not yet known.
 */
module Stat4Samples {
  import opened IndexGroups

  datatype Rowid = Int64(value: int) | KeyRecord(bytes: seq<int>)

  datatype Sample = Sample(
    anEq: seq<nat>,
    anLt: seq<nat>,
    anDLt: seq<nat>,
    rowid: Rowid,
    isPSample: bool,
    iCol: nat,
    iHash: nat)

  // ------------------------------------------------------------- preference

  /** Preference by the columns from i on, then by hash. */
  predicate BetterPost(pNew: Sample, pOld: Sample, i: nat)
    requires |pNew.anEq| == |pOld.anEq|
    decreases |pNew.anEq| - i
  {
    if i >= |pNew.anEq| then pNew.iHash > pOld.iHash
    else if pNew.anEq[i] > pOld.anEq[i] then true
    else if pNew.anEq[i] < pOld.anEq[i] then false
    else BetterPost(pNew, pOld, i + 1)
  }

  predicate IsBetterPost(pNew: Sample, pOld: Sample)
    requires |pNew.anEq| == |pOld.anEq| && pNew.iCol == pOld.iCol
  {
    BetterPost(pNew, pOld, pNew.iCol + 1)
  }

  predicate Ranked(s: Sample) { !s.isPSample && s.iCol < |s.anEq| }

  predicate IsBetter(pNew: Sample, pOld: Sample)
    requires Ranked(pNew) && Ranked(pOld) && |pNew.anEq| == |pOld.anEq|
  {
    var nEqNew := pNew.anEq[pNew.iCol];
    var nEqOld := pOld.anEq[pOld.iCol];
    if nEqNew > nEqOld then true
    else if nEqNew == nEqOld then
      if pNew.iCol < pOld.iCol then true
      else pNew.iCol == pOld.iCol && IsBetterPost(pNew, pOld)
    else false
  }

  /** The numbers that rank a sample, the most important first. */
  ghost function RankKey(s: Sample, k: nat): int
    requires Ranked(s)
  {
    if k == 0 then s.anEq[s.iCol]
    else if k == 1 then -(s.iCol as int)
    else if s.iCol + (k - 1) < |s.anEq| then s.anEq[s.iCol + (k - 1)]
    else s.iHash
  }

  /** Place k is the first where the numbers of a and b differ, and there a has the larger one. */
  ghost predicate AboveAt(a: Sample, b: Sample, k: nat)
    requires Ranked(a) && Ranked(b)
  {
    RankKey(a, k) > RankKey(b, k) && forall i: nat :: i < k ==> RankKey(a, i) == RankKey(b, i)
  }

  lemma {:induction false} BetterPostMeans(a: Sample, b: Sample, i: nat, k: nat)
    requires Ranked(a) && Ranked(b) && |a.anEq| == |b.anEq| && a.iCol == b.iCol && k >= 2
    requires i == a.iCol + (k - 1) <= |a.anEq| && forall j: nat :: j < k ==> RankKey(a, j) == RankKey(b, j)
    ensures BetterPost(a, b, i) <==> exists j: nat :: AboveAt(a, b, j)
    decreases |a.anEq| - i
  {
    if RankKey(a, k) != RankKey(b, k) {
      forall j: nat ensures AboveAt(a, b, j) ==> j == k {
      }
      assert BetterPost(a, b, i) <==> AboveAt(a, b, k);
    } else if i < |a.anEq| {
      BetterPostMeans(a, b, i + 1, k + 1);
    } else {
      forall j: nat ensures !AboveAt(a, b, j) {
        if j > k { assert RankKey(a, j) == a.iHash && RankKey(b, j) == b.iHash; }
      }
    }
  }

  /**
   A sample is preferred to another by the size of the prefix it was chosen
   for, then by the shorter prefix, then by the sizes of the longer prefixes
   from left to right, and last by the hash.
   */
  lemma BetterMeans(a: Sample, b: Sample)
    requires Ranked(a) && Ranked(b) && |a.anEq| == |b.anEq|
    ensures IsBetter(a, b) <==> exists k: nat :: AboveAt(a, b, k)
  {
    if RankKey(a, 0) == RankKey(b, 0) && RankKey(a, 1) == RankKey(b, 1) {
      assert IsBetter(a, b) <==> BetterPost(a, b, a.iCol + 1);
      BetterPostMeans(a, b, a.iCol + 1, 2);
    } else {
      var k := if RankKey(a, 0) != RankKey(b, 0) then 0 else 1;
      forall j: nat ensures AboveAt(a, b, j) ==> j == k {
      }
      assert IsBetter(a, b) <==> AboveAt(a, b, k);
    }
  }

  lemma {:induction false} BetterPostOrder(a: Sample, b: Sample, c: Sample, i: nat)
    requires |a.anEq| == |b.anEq| == |c.anEq|
    ensures BetterPost(a, b, i) && BetterPost(b, c, i) ==> BetterPost(a, c, i)
    ensures !BetterPost(a, a, i)
    decreases |a.anEq| - i
  {
    if i < |a.anEq| {
      BetterPostOrder(a, b, c, i + 1);
    }
  }

  /** Preference is a strict order, so a least preferred sample is well defined. */
  lemma BetterIsStrictOrder(a: Sample, b: Sample, c: Sample)
    requires Ranked(a) && Ranked(b) && Ranked(c)
    requires |a.anEq| == |b.anEq| == |c.anEq|
    ensures IsBetter(a, b) && IsBetter(b, c) ==> IsBetter(a, c)
    ensures !IsBetter(a, a)
  {
    if a.iCol == b.iCol == c.iCol {
      BetterPostOrder(a, b, c, a.iCol + 1);
    } else {
      BetterPostOrder(a, a, a, a.iCol + 1);
    }
  }

  lemma {:induction false} BetterPostTotal(a: Sample, b: Sample, c: Sample, i: nat)
    requires |a.anEq| == |b.anEq| == |c.anEq|
    ensures !BetterPost(a, b, i) && !BetterPost(b, c, i) ==> !BetterPost(a, c, i)
    decreases |a.anEq| - i
  {
    if i < |a.anEq| {
      BetterPostTotal(a, b, c, i + 1);
    }
  }

  /** Of two samples that are not preferred to one another, both compare alike with every third. */
  lemma BetterIsTotal(a: Sample, b: Sample, c: Sample)
    requires Ranked(a) && Ranked(b) && Ranked(c)
    requires |a.anEq| == |b.anEq| == |c.anEq|
    ensures !IsBetter(a, b) && !IsBetter(b, c) ==> !IsBetter(a, c)
  {
    if a.iCol == b.iCol == c.iCol {
      BetterPostTotal(a, b, c, a.iCol + 1);
    }
  }

  /** Unknown counts lie to the left of the column the sample was chosen for. */
  ghost predicate LeftZeros(s: Sample) {
    !s.isPSample ==> forall c :: 0 <= c < |s.anEq| && s.anEq[c] == 0 ==> c < s.iCol
  }

  // ----------------------------------------------------- counters of a sample

  /** The row a sample was taken from: all rows differ in the last column. */
  ghost function Pos(s: Sample): nat
    requires |s.anLt| > 0
  {
    s.anLt[|s.anLt| - 1]
  }

  ghost predicate Shaped(s: Sample, nCol: nat) {
    nCol > 0 && |s.anEq| == |s.anLt| == |s.anDLt| == nCol
  }

  /** anLt, anDLt and the rowid are those of the sampled row. */
  ghost predicate Placed(s: Sample, chng: seq<nat>, ids: seq<Rowid>) {
    && Shaped(s, |s.anLt|)
    && |ids| == |chng| && Pos(s) < |chng|
    && s.rowid == ids[Pos(s)]
    && (forall c :: 0 <= c < |s.anLt| ==>
          s.anLt[c] == Lo(chng, c, Pos(s)) && s.anDLt[c] == Before(chng, c, Pos(s)))
  }

  /**
   Entry c of anEq: 0 stands for a group that is still growing, any other value
   is the size of the group.  Below column k a growing group is always marked.
   */
  ghost predicate EqAt(s: Sample, chng: seq<nat>, c: nat, k: nat)
    requires |s.anLt| > 0 && Pos(s) < |chng| && c < |s.anEq|
  {
    && (s.anEq[c] == 0 ==> Open(chng, c, Pos(s)))
    && (s.anEq[c] != 0 ==> s.anEq[c] == Hi(chng, c, Pos(s)) - Lo(chng, c, Pos(s)))
    && (c < k && Open(chng, c, Pos(s)) ==> s.anEq[c] == 0)
  }

  /** A non-periodic sample knows the count it was chosen for; unknown ones lie to its left. */
  ghost predicate RankedAt(s: Sample, k: nat) {
    !s.isPSample ==>
      && s.iCol + 1 < |s.anEq|
      && s.anEq[s.iCol] > 0
      && (forall c :: 0 <= c < k && c < |s.anEq| && s.anEq[c] == 0 ==> c < s.iCol)
  }

  ghost predicate SampleOk(s: Sample, chng: seq<nat>, ids: seq<Rowid>, nCol: nat, k: nat) {
    && Shaped(s, nCol) && Placed(s, chng, ids)
    && (forall c :: 0 <= c < nCol ==> EqAt(s, chng, c, k))
    && RankedAt(s, k)
  }

  ghost predicate AllOk(a: seq<Sample>, chng: seq<nat>, ids: seq<Rowid>, nCol: nat, k: nat) {
    forall j :: 0 <= j < |a| ==> SampleOk(a[j], chng, ids, nCol, k)
  }

  /** Samples are kept in row order. */
  ghost predicate InRowOrder(a: seq<Sample>) {
    && (forall j :: 0 <= j < |a| ==> |a[j].anLt| > 0)
    && (forall i, j :: 0 <= i < j < |a| ==> Pos(a[i]) < Pos(a[j]))
  }

  /** No sample has an unknown count at column m or beyond. */
  ghost predicate NoZeroFrom(a: seq<Sample>, m: nat) {
    forall j, c :: 0 <= j < |a| && m <= c < |a[j].anEq| ==> a[j].anEq[c] > 0
  }

  function PeriodicCount(a: seq<Sample>): (n: nat)
    ensures n <= |a|
  {
    if a == [] then 0
    else PeriodicCount(a[..|a| - 1]) + if a[|a| - 1].isPSample then 1 else 0
  }

  lemma {:induction false} PeriodicCountRemove(a: seq<Sample>, m: nat)
    requires m < |a|
    ensures PeriodicCount(a[..m] + a[m + 1..]) == PeriodicCount(a) - if a[m].isPSample then 1 else 0
    decreases |a|
  {
    var n := |a| - 1;
    var b := a[..m] + a[m + 1..];
    if m == n {
      assert b == a[..n];
    } else {
      PeriodicCountRemove(a[..n], m);
      assert b[..|b| - 1] == a[..n][..m] + a[..n][m + 1..];
    }
  }

  lemma {:induction false} PeriodicCountSame(a: seq<Sample>, b: seq<Sample>)
    requires |a| == |b| && forall j :: 0 <= j < |a| ==> a[j].isPSample == b[j].isPSample
    ensures PeriodicCount(a) == PeriodicCount(b)
    decreases |a|
  {
    if |a| > 0 {
      PeriodicCountSame(a[..|a| - 1], b[..|b| - 1]);
    }
  }

  lemma {:induction false} AllPeriodic(a: seq<Sample>)
    requires forall j :: 0 <= j < |a| ==> a[j].isPSample
    ensures PeriodicCount(a) == |a|
    decreases |a|
  {
    if |a| > 0 {
      AllPeriodic(a[..|a| - 1]);
    }
  }

  // ------------------------------------- the best candidate for each column

  /**
   Candidate for column i: a row of the newest column-i group, the last one of
   its column-(i+1) group, whose counters to the right of i are as they were
   when that row was read.
   */
  ghost predicate BestOk(b: Sample, chng: seq<nat>, ids: seq<Rowid>, nCol: nat, i: nat) {
    && Shaped(b, nCol) && Placed(b, chng, ids)
    && !b.isPSample && b.iCol == i
    && Open(chng, i, Pos(b))
    && (Pos(b) + 1 < |chng| ==> chng[Pos(b) + 1] <= i + 1)
    && (forall c :: i < c < nCol ==> b.anEq[c] == Pos(b) + 1 - Lo(chng, c, Pos(b)))
  }

  /** No row of the newest column-i group has read further into its column-(i+1) group than b. */
  ghost predicate Widest(b: Sample, chng: seq<nat>, nCol: nat, i: nat)
    requires chng != []
  {
    && i + 1 < nCol == |b.anEq|
    && forall q :: 0 <= q < |chng| && Open(chng, i, q) ==> q + 1 - Lo(chng, i + 1, q) <= b.anEq[i + 1]
  }

  /** The row being read: its counters cover the rows up to and including itself. */
  ghost predicate CurrentOk(s: Sample, chng: seq<nat>, ids: seq<Rowid>, nCol: nat) {
    && Shaped(s, nCol) && Placed(s, chng, ids)
    && Pos(s) + 1 == |chng|
    && (forall c :: 0 <= c < nCol ==> s.anEq[c] == |chng| - Lo(chng, c, Pos(s)))
  }

  function Zeroed(s: Sample, n: nat): (r: Sample)
    requires n <= |s.anEq|
  {
    s.(anEq := seq(n, _ => 0) + s.anEq[n..])
  }

  /** Pushing the candidate of column i stores only known or still growing counts. */
  lemma BestBecomesSample(b: Sample, chng: seq<nat>, ids: seq<Rowid>, nCol: nat, i: nat)
    requires BestOk(b, chng, ids, nCol, i) && i + 1 < nCol
    requires b.anEq[i] == |chng| - Lo(chng, i, Pos(b))
    ensures SampleOk(Zeroed(b, i), chng, ids, nCol, i)
  {
    var z := Zeroed(b, i);
    forall c | 0 <= c < nCol ensures EqAt(z, chng, c, i) {
      if c < i {
        HiMonotone(chng, c, i, Pos(b));
      } else if c > i {
        assert Hi(chng, c, Pos(b)) == Pos(b) + 1;
      }
    }
  }

  /** A periodic sample of the current row stores only the last column's count. */
  lemma CurrentBecomesSample(s: Sample, chng: seq<nat>, ids: seq<Rowid>, nCol: nat)
    requires CurrentOk(s, chng, ids, nCol) && s.isPSample
    requires forall t :: 0 <= t < |chng| ==> chng[t] < nCol
    ensures SampleOk(Zeroed(s, nCol - 1), chng, ids, nCol, nCol - 1)
  {
    var z, k := Zeroed(s, nCol - 1), nCol - 1;
    assert forall c :: 0 <= c < nCol ==> EqAt(z, chng, c, k);
  }

  lemma PlacedAppend(s: Sample, chng: seq<nat>, ids: seq<Rowid>, x: nat, id: Rowid)
    requires Placed(s, chng, ids)
    ensures Placed(s, chng + [x], ids + [id])
  {
    forall c | 0 <= c < |s.anLt| {
      LoAppend(chng, x, c, Pos(s));
    }
  }

  /** A row changing at column x leaves every sample right, once nothing at x or beyond is unknown. */
  lemma SampleSurvivesRow(s: Sample, chng: seq<nat>, ids: seq<Rowid>, nCol: nat, x: nat, id: Rowid)
    requires SampleOk(s, chng, ids, nCol, x) && x < nCol
    requires forall c :: x <= c < nCol ==> s.anEq[c] > 0
    ensures SampleOk(s, chng + [x], ids + [id], nCol, nCol - 1)
  {
    PlacedAppend(s, chng, ids, x, id);
    var chng', k := chng + [x], nCol - 1;
    forall c | 0 <= c < nCol ensures EqAt(s, chng', c, k) {
      assert EqAt(s, chng, c, x);
      HiAppend(chng, x, c, Pos(s));
      LoAppend(chng, x, c, Pos(s));
    }
  }

  /** A row that extends the candidate's column-(i+1) group is preferred to it. */
  lemma LaterRowDisplaces(b: Sample, cur: Sample, chng: seq<nat>, ids: seq<Rowid>, nCol: nat, i: nat, x: nat, id: Rowid)
    requires BestOk(b, chng, ids, nCol, i) && i + 1 < nCol && i < x < nCol
    requires CurrentOk(cur, chng + [x], ids + [id], nCol) && cur.iCol == i
    ensures Pos(b) + 1 == |chng| && x > i + 1 ==> IsBetterPost(cur, b)
  {
    if Pos(b) + 1 == |chng| && x > i + 1 {
      var chng' := chng + [x];
      LoAppend(chng, x, i + 1, Pos(b));
      assert chng'[Pos(cur)] == x;
      assert Lo(chng', i + 1, Pos(cur)) == Lo(chng', i + 1, Pos(b));
    }
  }

  /** A candidate that is not displaced stays a candidate. */
  lemma BestSurvivesRow(b: Sample, cur: Sample, chng: seq<nat>, ids: seq<Rowid>, nCol: nat, i: nat, x: nat, id: Rowid)
    requires BestOk(b, chng, ids, nCol, i) && i + 1 < nCol && i < x < nCol
    requires CurrentOk(cur, chng + [x], ids + [id], nCol) && cur.iCol == i
    requires !IsBetterPost(cur, b)
    ensures BestOk(b, chng + [x], ids + [id], nCol, i)
  {
    PlacedAppend(b, chng, ids, x, id);
    HiAppend(chng, x, i, Pos(b));
    var chng' := chng + [x];
    LaterRowDisplaces(b, cur, chng, ids, nCol, i, x, id);
    forall c | i < c < nCol ensures b.anEq[c] == Pos(b) + 1 - Lo(chng', c, Pos(b)) {
      LoAppend(chng, x, c, Pos(b));
    }
  }

  lemma WidestSurvivesRow(b: Sample, cur: Sample, chng: seq<nat>, ids: seq<Rowid>, nCol: nat, i: nat, x: nat, id: Rowid)
    requires chng != [] && i < x < nCol && Widest(b, chng, nCol, i)
    requires CurrentOk(cur, chng + [x], ids + [id], nCol)
    ensures var top := if cur.anEq[i + 1] > b.anEq[i + 1] then cur.anEq[i + 1] else b.anEq[i + 1];
      forall q :: 0 <= q < |chng| + 1 && Open(chng + [x], i, q) ==> q + 1 - Lo(chng + [x], i + 1, q) <= top
  {
    var chng' := chng + [x];
    forall q | 0 <= q < |chng| && Open(chng', i, q)
      ensures q + 1 - Lo(chng', i + 1, q) <= b.anEq[i + 1]
    {
      HiAppend(chng, x, i, q);
      LoAppend(chng, x, i + 1, q);
    }
  }

  lemma NewGroupWidest(cur: Sample, chng: seq<nat>, ids: seq<Rowid>, nCol: nat, i: nat)
    requires CurrentOk(cur, chng, ids, nCol) && i + 1 < nCol
    requires |chng| == 1 || chng[|chng| - 1] <= i
    ensures Widest(cur, chng, nCol, i)
  {
    forall q | 0 <= q < |chng| && Open(chng, i, q) ensures q == |chng| - 1 {
      if q < |chng| - 1 {
        GroupShared(chng, i, q, |chng| - 1);
      }
    }
  }

  /** The row just read is a candidate for every column. */
  lemma CurrentIsBest(s: Sample, chng: seq<nat>, ids: seq<Rowid>, nCol: nat, i: nat)
    requires CurrentOk(s, chng, ids, nCol) && !s.isPSample && s.iCol == i < nCol
    ensures BestOk(s, chng, ids, nCol, i)
  {
  }

  /** A sample without unknown counts is exact for every column prefix. */
  ghost predicate Exact(s: Sample, rows: seq<Row>, nCol: nat)
    requires forall t :: 0 <= t < |rows| ==> |rows[t]| == nCol
  {
    && Shaped(s, nCol) && Pos(s) < |rows|
    && forall c :: 0 <= c < nCol ==>
         && s.anEq[c] == |EqualRows(rows, rows[Pos(s)], c)|
         && s.anLt[c] == |LesserRows(rows, rows[Pos(s)], c)|
         && s.anDLt[c] == |LesserPrefixes(rows, rows[Pos(s)], c)|
  }

  lemma KnownIsExact(s: Sample, rows: seq<Row>, chng: seq<nat>, ids: seq<Rowid>, nCol: nat, k: nat)
    requires Scan(rows, chng, nCol) && SampleOk(s, chng, ids, nCol, k)
    requires forall c :: 0 <= c < nCol ==> s.anEq[c] > 0
    ensures Exact(s, rows, nCol)
  {
    forall c | 0 <= c < nCol
      ensures s.anEq[c] == |EqualRows(rows, rows[Pos(s)], c)|
      ensures s.anLt[c] == |LesserRows(rows, rows[Pos(s)], c)|
      ensures s.anDLt[c] == |LesserPrefixes(rows, rows[Pos(s)], c)|
    {
      assert EqAt(s, chng, c, k);
      CountEqual(rows, chng, nCol, c, Pos(s));
      CountLesser(rows, chng, nCol, c, Pos(s));
      CountLesserPrefixes(rows, chng, nCol, c, Pos(s));
    }
  }
}
