/**
 Rows of a sorted index and the groups of rows that agree on a column prefix.

 An index scan hands the sampler one row after another together with the
 leftmost column in which the row differs from its predecessor.  `chng` lists
 those columns (`chng[0]` is meaningless).  Two neighbouring rows are in the
 same group of column `c` exactly when they agree on columns 0..c, that is,
 when the change is to the right of `c`.

 The second half of the module gives the meaning of the three statistics by
 counting over the row values themselves, with no reference to `chng`.
 */
module IndexGroups {

  type Row = seq<int>

  /** a comes before b, and c is the leftmost column in which they differ. */
  predicate LessAt(a: Row, b: Row, c: nat) {
    c < |a| && c < |b| && a[..c] == b[..c] && a[c] < b[c]
  }

  /** Lexicographic order. */
  ghost predicate Less(a: Row, b: Row) {
    exists c: nat :: LessAt(a, b, c)
  }

  /** The rows are strictly sorted and chng records the leftmost changes. */
  ghost predicate Scan(rows: seq<Row>, chng: seq<nat>, nCol: nat) {
    && |rows| == |chng|
    && (forall t :: 0 <= t < |rows| ==> |rows[t]| == nCol && chng[t] < nCol)
    && (forall t :: 0 < t < |rows| ==> Change(rows, chng, t))
  }

  predicate Change(rows: seq<Row>, chng: seq<nat>, t: nat)
    requires 0 < t < |rows| == |chng|
  {
    LessAt(rows[t - 1], rows[t], chng[t])
  }

  // ---------------------------------------------------------------- groups

  /** First row of the column-c group that row q belongs to. */
  ghost function Lo(chng: seq<nat>, c: nat, q: nat): (r: nat)
    requires q < |chng|
    ensures r <= q
  {
    if q == 0 || chng[q] <= c then q else Lo(chng, c, q - 1)
  }

  /** One past the last row, so far, of the column-c group of row q. */
  ghost function Hi(chng: seq<nat>, c: nat, q: nat): (r: nat)
    requires q < |chng|
    ensures q < r <= |chng|
    decreases |chng| - q
  {
    if q + 1 == |chng| || chng[q + 1] <= c then q + 1 else Hi(chng, c, q + 1)
  }

  /** Number of column-c groups before the one row q belongs to. */
  ghost function Before(chng: seq<nat>, c: nat, q: nat): nat
    requires q < |chng|
  {
    if q == 0 then 0
    else Before(chng, c, q - 1) + if chng[q] <= c then 1 else 0
  }

  /** Row q still belongs to the newest column-c group. */
  ghost predicate Open(chng: seq<nat>, c: nat, q: nat)
    requires q < |chng|
  {
    Hi(chng, c, q) == |chng|
  }

  lemma {:induction false} LoAppend(chng: seq<nat>, x: nat, c: nat, q: nat)
    requires q < |chng|
    ensures Lo(chng + [x], c, q) == Lo(chng, c, q)
    ensures Before(chng + [x], c, q) == Before(chng, c, q)
    decreases q
  {
    if q > 0 {
      LoAppend(chng, x, c, q - 1);
    }
  }

  lemma {:induction false} HiAppend(chng: seq<nat>, x: nat, c: nat, q: nat)
    requires q < |chng|
    ensures Hi(chng + [x], c, q) == if Open(chng, c, q) && x > c then |chng| + 1 else Hi(chng, c, q)
    decreases |chng| - q
  {
    if q + 1 < |chng| {
      HiAppend(chng, x, c, q + 1);
    } else {
      assert (chng + [x])[q + 1] == x;
    }
  }

  /** Rows between q and the end of its group share its start and its rank. */
  lemma {:induction false} GroupShared(chng: seq<nat>, c: nat, q: nat, r: nat)
    requires q <= r < |chng| && r < Hi(chng, c, q)
    ensures Lo(chng, c, r) == Lo(chng, c, q) && Before(chng, c, r) == Before(chng, c, q)
    ensures Hi(chng, c, r) == Hi(chng, c, q)
    decreases r - q
  {
    if q < r {
      GroupShared(chng, c, q + 1, r);
    }
  }

  /** Rows whose groups start alike are in the same group. */
  lemma {:induction false} StartsInside(chng: seq<nat>, c: nat, q: nat)
    requires q < |chng|
    ensures Hi(chng, c, Lo(chng, c, q)) == Hi(chng, c, q)
    decreases q
  {
    if q > 0 && chng[q] > c {
      StartsInside(chng, c, q - 1);
    }
  }

  lemma SameStartSameEnd(chng: seq<nat>, c: nat, p: nat, q: nat)
    requires p < |chng| && q < |chng| && Lo(chng, c, p) == Lo(chng, c, q)
    ensures Hi(chng, c, p) == Hi(chng, c, q)
  {
    StartsInside(chng, c, p);
    StartsInside(chng, c, q);
  }

  /** A coarser prefix has the larger group. */
  lemma {:induction false} HiMonotone(chng: seq<nat>, b: nat, c: nat, q: nat)
    requires q < |chng| && b <= c
    ensures Hi(chng, c, q) <= Hi(chng, b, q)
    decreases |chng| - q
  {
    if q + 1 < |chng| && chng[q + 1] > c {
      HiMonotone(chng, b, c, q + 1);
    }
  }

  lemma {:induction false} LoMonotone(chng: seq<nat>, b: nat, c: nat, q: nat)
    requires q < |chng| && b <= c
    ensures Lo(chng, b, q) <= Lo(chng, c, q)
    decreases q
  {
    if q > 0 && chng[q] > c {
      LoMonotone(chng, b, c, q - 1);
    }
  }

  /** Either r lies in the newest group together with q, or q's group ended before r's began. */
  lemma {:induction false} OpenOrEarlier(chng: seq<nat>, c: nat, q: nat, r: nat)
    requires q < |chng| && r < |chng| && Open(chng, c, r)
    ensures Open(chng, c, q) || q < Lo(chng, c, r)
    decreases r
  {
    if q >= r {
      GroupShared(chng, c, r, q);
    } else if r > 0 && chng[r] > c {
      OpenOrEarlier(chng, c, q, r - 1);
    }
  }

  // ------------------------------------------- meaning by counting row values

  ghost function EqualRows(rows: seq<Row>, r: Row, c: nat): set<nat>
    requires c < |r| && forall t :: 0 <= t < |rows| ==> c < |rows[t]|
  {
    set t: nat | t < |rows| && rows[t][..c + 1] == r[..c + 1]
  }

  ghost function LesserRows(rows: seq<Row>, r: Row, c: nat): set<nat>
    requires c < |r| && forall t :: 0 <= t < |rows| ==> c < |rows[t]|
  {
    set t: nat | t < |rows| && Less(rows[t][..c + 1], r[..c + 1])
  }

  /** The distinct prefixes that occur in the index. */
  ghost function Prefixes(rows: seq<Row>, c: nat): set<Row>
    requires forall t :: 0 <= t < |rows| ==> c < |rows[t]|
  {
    set t: nat | t < |rows| :: rows[t][..c + 1]
  }

  ghost function LesserPrefixes(rows: seq<Row>, r: Row, c: nat): set<Row>
    requires c < |r| && forall t :: 0 <= t < |rows| ==> c < |rows[t]|
  {
    set p | p in Prefixes(rows, c) && Less(p, r[..c + 1])
  }

  lemma LessTransitive(a: Row, b: Row, c: Row)
    requires Less(a, b) && Less(b, c)
    ensures Less(a, c)
  {
    var i: nat :| LessAt(a, b, i);
    var j: nat :| LessAt(b, c, j);
    if i <= j {
      assert a[..i] == c[..i] by { assert b[..i] == b[..j][..i] == c[..j][..i]; }
      assert i < j ==> b[i] == b[..j][i] == c[..j][i];
      assert LessAt(a, c, i);
    } else {
      assert a[..j] == a[..i][..j] == b[..i][..j] == c[..j];
      assert a[j] == a[..i][j] == b[..i][j];
      assert LessAt(a, c, j);
    }
  }

  lemma LessIrreflexive(a: Row)
    ensures !Less(a, a)
  {
  }

  /** Rows of one group have the same prefix. */
  lemma {:induction false} SamePrefix(rows: seq<Row>, chng: seq<nat>, nCol: nat, c: nat, q: nat, r: nat)
    requires Scan(rows, chng, nCol) && c < nCol && q <= r < |rows| && Lo(chng, c, r) <= q
    ensures rows[q][..c + 1] == rows[r][..c + 1]
    decreases r - q
  {
    if q < r {
      SamePrefix(rows, chng, nCol, c, q, r - 1);
      var x := chng[r];
      assert Change(rows, chng, r);
      assert rows[r - 1][..x] == rows[r][..x];
      assert rows[r - 1][..c + 1] == rows[r - 1][..x][..c + 1] == rows[r][..c + 1];
    }
  }

  /** Across a group boundary the prefix grows. */
  lemma {:induction false} GrowingPrefix(rows: seq<Row>, chng: seq<nat>, nCol: nat, c: nat, q: nat, r: nat)
    requires Scan(rows, chng, nCol) && c < nCol && r < |rows| && q < Lo(chng, c, r)
    ensures Less(rows[q][..c + 1], rows[r][..c + 1])
    decreases r
  {
    var x := chng[r];
    if x > c {
      GrowingPrefix(rows, chng, nCol, c, q, r - 1);
      SamePrefix(rows, chng, nCol, c, r - 1, r);
    } else {
      assert Change(rows, chng, r);
      var a, b := rows[r - 1][..c + 1], rows[r][..c + 1];
      assert a[..x] == rows[r - 1][..x] == rows[r][..x] == b[..x];
      assert LessAt(a, b, x);
      if q < Lo(chng, c, r - 1) {
        GrowingPrefix(rows, chng, nCol, c, q, r - 1);
        LessTransitive(rows[q][..c + 1], a, b);
      } else {
        SamePrefix(rows, chng, nCol, c, q, r - 1);
      }
    }
  }

  lemma {:induction false} LoOfLater(chng: seq<nat>, c: nat, q: nat, r: nat)
    requires q < |chng| && Hi(chng, c, q) <= r < |chng|
    ensures q < Lo(chng, c, r)
    decreases r
  {
    if q < Lo(chng, c, r) {
    } else if r == Hi(chng, c, q) {
      HiBoundary(chng, c, q);
      assert false;
    } else {
      LoOfLater(chng, c, q, r - 1);
    }
  }

  lemma {:induction false} HiBoundary(chng: seq<nat>, c: nat, q: nat)
    requires q < |chng| && Hi(chng, c, q) < |chng|
    ensures chng[Hi(chng, c, q)] <= c
    decreases |chng| - q
  {
    if chng[q + 1] > c {
      HiBoundary(chng, c, q + 1);
    }
  }

  lemma {:induction false} IntervalSize(lo: nat, hi: nat, s: set<nat>)
    requires lo <= hi && forall t: nat :: t in s <==> lo <= t < hi
    ensures |s| == hi - lo
    decreases hi - lo
  {
    if lo < hi {
      IntervalSize(lo, hi - 1, s - {hi - 1});
    } else {
      assert s == {};
    }
  }

  /** The group of row q is exactly the set of rows with its prefix. */
  lemma CountEqual(rows: seq<Row>, chng: seq<nat>, nCol: nat, c: nat, q: nat)
    requires Scan(rows, chng, nCol) && c < nCol && q < |rows|
    ensures |EqualRows(rows, rows[q], c)| == Hi(chng, c, q) - Lo(chng, c, q)
  {
    var s := EqualRows(rows, rows[q], c);
    forall t: nat
      ensures t in s <==> Lo(chng, c, q) <= t < Hi(chng, c, q)
    {
      if t < |rows| {
        GroupTrichotomy(rows, chng, nCol, c, t, q);
        LessIrreflexive(rows[q][..c + 1]);
      }
    }
    IntervalSize(Lo(chng, c, q), Hi(chng, c, q), s);
  }

  lemma GroupTrichotomy(rows: seq<Row>, chng: seq<nat>, nCol: nat, c: nat, t: nat, q: nat)
    requires Scan(rows, chng, nCol) && c < nCol && q < |rows| && t < |rows|
    ensures t < Lo(chng, c, q) ==> Less(rows[t][..c + 1], rows[q][..c + 1])
    ensures Lo(chng, c, q) <= t < Hi(chng, c, q) ==> rows[t][..c + 1] == rows[q][..c + 1]
    ensures Hi(chng, c, q) <= t ==> Less(rows[q][..c + 1], rows[t][..c + 1])
  {
    if t < Lo(chng, c, q) {
      GrowingPrefix(rows, chng, nCol, c, t, q);
    } else if t <= q {
      SamePrefix(rows, chng, nCol, c, t, q);
    } else if t < Hi(chng, c, q) {
      GroupShared(chng, c, q, t);
      SamePrefix(rows, chng, nCol, c, q, t);
    } else {
      LoOfLater(chng, c, q, t);
      GrowingPrefix(rows, chng, nCol, c, q, t);
    }
  }

  lemma CountLesser(rows: seq<Row>, chng: seq<nat>, nCol: nat, c: nat, q: nat)
    requires Scan(rows, chng, nCol) && c < nCol && q < |rows|
    ensures |LesserRows(rows, rows[q], c)| == Lo(chng, c, q)
  {
    var s := LesserRows(rows, rows[q], c);
    var p := rows[q][..c + 1];
    LessIrreflexive(p);
    forall t: nat
      ensures t in s <==> 0 <= t < Lo(chng, c, q)
    {
      if t < |rows| {
        GroupTrichotomy(rows, chng, nCol, c, t, q);
        if Less(p, rows[t][..c + 1]) && Less(rows[t][..c + 1], p) {
          LessTransitive(p, rows[t][..c + 1], p);
        }
      }
    }
    IntervalSize(0, Lo(chng, c, q), s);
  }

  lemma PrefixesGrow(rows: seq<Row>, c: nat, q: nat)
    requires q < |rows| && forall t :: 0 <= t < |rows| ==> c < |rows[t]|
    ensures Prefixes(rows[..q + 1], c) == Prefixes(rows[..q], c) + {rows[q][..c + 1]}
  {
    var all, prev := Prefixes(rows[..q + 1], c), Prefixes(rows[..q], c);
    assert rows[..q + 1][q] == rows[q];
    forall x | x in prev ensures x in all {
      var t: nat :| t < q && rows[..q][t][..c + 1] == x;
      assert rows[..q + 1][t][..c + 1] == x;
    }
    forall x | x in all ensures x in prev + {rows[q][..c + 1]} {
      var t: nat :| t < q + 1 && rows[..q + 1][t][..c + 1] == x;
      if t < q { assert rows[..q][t][..c + 1] == x; }
    }
  }

  /** Rows 0..q carry one prefix more than there are groups before q. */
  lemma {:induction false} CountPrefixes(rows: seq<Row>, chng: seq<nat>, nCol: nat, c: nat, q: nat)
    requires Scan(rows, chng, nCol) && c < nCol && q < |rows|
    ensures |Prefixes(rows[..q + 1], c)| == Before(chng, c, q) + 1
    decreases q
  {
    var all := Prefixes(rows[..q + 1], c);
    var p := rows[q][..c + 1];
    assert p == rows[..q + 1][q][..c + 1];
    if q == 0 {
      assert all == {p};
    } else {
      CountPrefixes(rows, chng, nCol, c, q - 1);
      var prev := Prefixes(rows[..q], c);
      PrefixesGrow(rows, c, q);
      if chng[q] <= c {
        forall t: nat | t < q ensures rows[..q][t][..c + 1] != p {
          GrowingPrefix(rows, chng, nCol, c, t, q);
          LessIrreflexive(p);
        }
        assert p !in prev;
      } else {
        SamePrefix(rows, chng, nCol, c, q - 1, q);
        assert rows[..q][q - 1][..c + 1] == p;
        assert p in prev;
      }
    }
  }

  lemma CountLesserPrefixes(rows: seq<Row>, chng: seq<nat>, nCol: nat, c: nat, q: nat)
    requires Scan(rows, chng, nCol) && c < nCol && q < |rows|
    ensures |LesserPrefixes(rows, rows[q], c)| == Before(chng, c, q)
  {
    var lo := Lo(chng, c, q);
    var s := LesserPrefixes(rows, rows[q], c);
    var p := rows[q][..c + 1];
    assert s == Prefixes(rows[..lo], c) by {
      forall x | x in s ensures x in Prefixes(rows[..lo], c) {
        var t: nat :| t < |rows| && rows[t][..c + 1] == x;
        GroupTrichotomy(rows, chng, nCol, c, t, q);
        LessIrreflexive(p);
        if Less(p, x) { LessTransitive(p, x, p); }
        assert rows[..lo][t][..c + 1] == x;
      }
      forall x | x in Prefixes(rows[..lo], c) ensures x in s {
        var t: nat :| t < lo && rows[..lo][t][..c + 1] == x;
        assert rows[t][..c + 1] == x;
        GroupTrichotomy(rows, chng, nCol, c, t, q);
      }
    }
    BeforeOfLo(chng, c, q);
    if lo == 0 {
      assert s == {};
    } else {
      CountPrefixes(rows, chng, nCol, c, lo - 1);
    }
  }

  lemma {:induction false} BeforeOfLo(chng: seq<nat>, c: nat, q: nat)
    requires q < |chng|
    ensures Before(chng, c, q) == if Lo(chng, c, q) == 0 then 0 else Before(chng, c, Lo(chng, c, q) - 1) + 1
    decreases q
  {
    if q > 0 && chng[q] > c {
      BeforeOfLo(chng, c, q - 1);
    }
  }
}
