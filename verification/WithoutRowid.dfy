/**
 WITHOUT ROWID tables: the primary key loses its repeated columns and then takes
 in every column of the table, and every other index replaces its rowid by the
 primary key columns it lacks.
 */
module WithoutRowid {

  const BINARY: nat := 0

  /** aiColumn[i] and azColl[i]: a column number and a collating sequence. */
  datatype Part = Part(col: int, coll: nat)

  function Cols(parts: seq<Part>): (c: seq<int>)
    ensures |c| == |parts|
  {
    seq(|parts|, i requires 0 <= i < |parts| => parts[i].col)
  }

  // --------------------------------------------------------- what the lists should be

  predicate NoRepeats(s: seq<int>) { forall i, j | 0 <= i < j < |s| :: s[i] != s[j] }

  /** Each column where it occurs first. */
  function Distinct(s: seq<int>): (d: seq<int>)
    ensures NoRepeats(d) && |d| <= |s| && forall x :: x in d <==> x in s
  {
    if s == [] then []
    else
      var d, x := Distinct(s[..|s| - 1]), s[|s| - 1];
      assert s == s[..|s| - 1] + [x];
      if x in d then d else d + [x]
  }

  function First(s: seq<int>, x: int): (k: nat)
    requires x in s
    ensures k < |s| && s[k] == x && forall i | 0 <= i < k :: s[i] != x
  {
    if s[0] == x then 0 else First(s[1..], x) + 1
  }

  lemma FirstUnique(s: seq<int>, x: int, k: nat)
    requires k < |s| && s[k] == x && forall i | 0 <= i < k :: s[i] != x
    ensures First(s, x) == k
  {
    var f := First(s, x);
    assert s[f] == x;
  }

  lemma FirstOfPrefix(s: seq<int>, t: seq<int>, x: int)
    requires x in s
    ensures x in s + t && First(s + t, x) == First(s, x)
  {
    var k := First(s, x);
    assert (s + t)[k] == x;
    FirstUnique(s + t, x, k);
  }

  /** One more element changes no first occurrence, and a new element comes last. */
  lemma FirstStep(s: seq<int>, x: int)
    requires s != [] && x in s
    ensures var p := s[..|s| - 1];
      if x in p then First(s, x) == First(p, x) && First(Distinct(s), x) == First(Distinct(p), x)
      else First(s, x) == |p| && First(Distinct(s), x) == |Distinct(p)|
  {
    var p, z := s[..|s| - 1], s[|s| - 1];
    assert s == p + [z];
    var d := Distinct(p);
    if x in p {
      FirstOfPrefix(p, [z], x);
      FirstOfPrefix(d, [z], x);
    } else {
      FirstUnique(s, x, |p|);
      FirstUnique(d + [z], x, |d|);
    }
  }

  /** The order of first occurrence is kept. */
  lemma {:induction false} DistinctOrder(s: seq<int>, x: int, y: int)
    requires x in s && y in s
    ensures First(Distinct(s), x) < First(Distinct(s), y) <==> First(s, x) < First(s, y)
    decreases |s|
  {
    var p := s[..|s| - 1];
    assert s == p + [s[|s| - 1]];
    FirstStep(s, x);
    FirstStep(s, y);
    hide Distinct, First;
    if x in p && y in p {
      DistinctOrder(p, x, y);
    }
  }

  /** The parts of pk whose columns are not in key, in pk's order. */
  function Lacked(pk: seq<Part>, key: seq<int>): (m: seq<Part>)
    ensures |m| <= |pk|
  {
    if pk == [] then []
    else
      var x := pk[|pk| - 1];
      Lacked(pk[..|pk| - 1], key) + if x.col in key then [] else [x]
  }

  /** Columns 0 to n - 1. */
  function AllColumns(n: nat): seq<Part> { seq(n, i => Part(i, BINARY)) }

  lemma {:induction false} LackedMeans(pk: seq<Part>, key: seq<int>)
    ensures forall p :: p in Lacked(pk, key) <==> p in pk && p.col !in key
    decreases |pk|
  {
    if pk != [] {
      LackedMeans(pk[..|pk| - 1], key);
      assert pk == pk[..|pk| - 1] + [pk[|pk| - 1]];
    }
  }

  lemma {:induction false} LackedNoRepeats(pk: seq<Part>, key: seq<int>)
    requires NoRepeats(Cols(pk)) && NoRepeats(key)
    ensures NoRepeats(key + Cols(Lacked(pk, key)))
    decreases |pk|
  {
    if pk != [] {
      var p, x := pk[..|pk| - 1], pk[|pk| - 1];
      assert Cols(p) == Cols(pk)[..|p|];
      LackedNoRepeats(p, key);
      LackedMeans(p, key);
      var before := key + Cols(Lacked(p, key));
      forall i | 0 <= i < |before| ensures before[i] != x.col || x.col in key {
        if i < |key| {
          assert before[i] in key;
        } else {
          var q := Lacked(p, key)[i - |key|];
          assert q in p;
          var j :| 0 <= j < |p| && p[j] == q;
          assert Cols(pk)[j] == q.col && Cols(pk)[|p|] == x.col;
        }
      }
      if x.col in key {
        assert Lacked(pk, key) == Lacked(p, key);
      } else {
        assert key + Cols(Lacked(pk, key)) == before + [x.col];
      }
    }
  }

  // ---------------------------------------------- key columns and the others fill the table

  function Below(n: nat): (s: set<int>)
    ensures |s| == n && forall x :: x in s <==> 0 <= x < n
  {
    if n == 0 then {} else Below(n - 1) + {n - 1}
  }

  function Elems(s: seq<int>): set<int> { set i | 0 <= i < |s| :: s[i] }

  lemma {:induction false} ElemsCount(s: seq<int>)
    requires NoRepeats(s)
    ensures |Elems(s)| == |s|
  {
    if s != [] {
      var p, x := s[..|s| - 1], s[|s| - 1];
      ElemsCount(p);
      assert Elems(s) == Elems(p) + {x};
      forall i | 0 <= i < |p| ensures p[i] != x { }
      assert x !in Elems(p);
    }
  }

  predicate InTable(key: seq<int>, nCol: nat) { forall i | 0 <= i < |key| :: 0 <= key[i] < nCol }

  /** The completed primary key: every column of the table exactly once. */
  lemma EveryColumnOnce(key: seq<int>, nCol: nat)
    requires NoRepeats(key) && InTable(key, nCol)
    ensures var all := key + Cols(Lacked(AllColumns(nCol), key));
      NoRepeats(all) && |all| == nCol && forall x :: 0 <= x < nCol <==> x in all
  {
    var pk := AllColumns(nCol);
    var m := Lacked(pk, key);
    var all := key + Cols(m);
    LackedNoRepeats(pk, key);
    LackedMeans(pk, key);
    forall x ensures 0 <= x < nCol <==> x in all {
      if 0 <= x < nCol && x !in key {
        assert pk[x] == Part(x, BINARY) && pk[x] in m;
        var k :| 0 <= k < |m| && m[k] == pk[x];
        assert Cols(m)[k] == x;
      }
      if x in Cols(m) {
        var k :| 0 <= k < |m| && Cols(m)[k] == x;
        assert m[k] in m && m[k] in pk;
      }
    }
    ElemsCount(all);
    forall x ensures x in Elems(all) <==> x in all { }
    assert Elems(all) == Below(nCol);
  }

  lemma {:induction false} LackedGrows(pk: seq<Part>, key: seq<int>, i: nat)
    requires i <= |pk|
    ensures |Lacked(pk[..i], key)| <= |Lacked(pk, key)|
    ensures i < |pk| && pk[i].col !in key ==> |Lacked(pk[..i], key)| < |Lacked(pk, key)|
    decreases |pk|
  {
    if i == |pk| {
      assert pk[..i] == pk;
    } else {
      var p := pk[..|pk| - 1];
      assert p[..i] == pk[..i];
      LackedGrows(p, key, i);
    }
  }

  lemma LackedNext(pk: seq<Part>, key: seq<int>, i: nat)
    requires i < |pk|
    ensures Lacked(pk[..i + 1], key) == Lacked(pk[..i], key) + if pk[i].col in key then [] else [pk[i]]
  {
    assert pk[..i + 1][..i] == pk[..i];
  }

  lemma DistinctOne(cols: seq<int>, parts: seq<Part>)
    requires |cols| > 0 && |parts| > 0 && parts[0].col == cols[0]
    ensures Cols(parts[..1]) == Distinct(cols[..1])
  {
    assert cols[..1][..0] == [];
  }

  lemma DistinctNext(cols: seq<int>, i: nat)
    requires i < |cols|
    ensures var d := Distinct(cols[..i]); Distinct(cols[..i + 1]) == if cols[i] in d then d else d + [cols[i]]
  {
    assert cols[..i + 1][..i] == cols[..i];
  }

  lemma ColsPut(parts: seq<Part>, j: nat, c: int)
    requires j < |parts|
    ensures Cols(parts[j := parts[j].(col := c)][..j + 1]) == Cols(parts[..j]) + [c]
  {
  }

  // ------------------------------------------- where compaction leaves collating sequences

  lemma {:induction false} DistinctPrefix(s: seq<int>, i: nat)
    requires i <= |s|
    ensures Distinct(s[..i]) <= Distinct(s)
    decreases |s| - i
  {
    if i == |s| {
      assert s[..i] == s;
    } else {
      DistinctNext(s, i);
      DistinctPrefix(s, i + 1);
    }
  }

  /** A column that is new at position p goes to the slot numbered by the columns before it. */
  lemma SlotOf(s: seq<int>, p: nat)
    requires p < |s| && s[p] !in s[..p]
    ensures var k := |Distinct(s[..p])|; k < |Distinct(s)| && Distinct(s)[k] == s[p] && First(s, s[p]) == p
  {
    DistinctNext(s, p);
    DistinctPrefix(s, p + 1);
    forall i | 0 <= i < p ensures s[i] != s[p] { assert s[i] in s[..p]; }
    FirstUnique(s, s[p], p);
  }

  /** Two lists that differ at most in their column numbers. */
  predicate SameColls(a: seq<Part>, b: seq<Part>) {
    |a| == |b| && forall k | 0 <= k < |a| :: a[k].coll == b[k].coll
  }

  /** The collating sequences are where they were, as far as the list goes. */
  predicate CollsInPlace(key: seq<Part>, after: seq<Part>) {
    |after| <= |key| && forall k | 0 <= k < |after| :: after[k].coll == key[k].coll
  }

  /** Every key column still has the collating sequence of its own declaration. */
  ghost predicate OwnColls(key: seq<Part>, after: seq<Part>) {
    var d := Distinct(Cols(key));
    |d| <= |after| && forall k | 0 <= k < |d| :: after[k].coll == key[First(Cols(key), d[k])].coll
  }

  /** The collating sequence of each new column equals the one declared at the slot it moves to. */
  ghost predicate CollsFit(key: seq<Part>) {
    forall p | 0 <= p < |key| && key[p].col !in Cols(key)[..p] ::
      key[p].coll == key[|Distinct(Cols(key)[..p])|].coll
  }

  /** Compaction moves column numbers only, so the collating sequences are right exactly when they fit. */
  lemma OwnCollsIff(key: seq<Part>, after: seq<Part>)
    requires Cols(after) == Distinct(Cols(key)) && CollsInPlace(key, after)
    ensures OwnColls(key, after) <==> CollsFit(key)
  {
    var s := Cols(key);
    var d := Distinct(s);
    forall p | 0 <= p < |key| && key[p].col !in s[..p]
      ensures var k := |Distinct(s[..p])|; k < |d| && First(s, d[k]) == p
    {
      SlotOf(s, p);
    }
    forall k | 0 <= k < |d|
      ensures var p := First(s, d[k]); p < |key| && key[p].col !in s[..p] && |Distinct(s[..p])| == k
    {
      var p := First(s, d[k]);
      assert s[p] !in s[..p];
      SlotOf(s, p);
    }
  }

  /** PRIMARY KEY(a, a, b COLLATE nocase) */
  const DOUBLED_KEY: seq<Part> := [Part(0, BINARY), Part(0, BINARY), Part(1, 1)]

  lemma ColAt(parts: seq<Part>, k: nat)
    requires k < |parts|
    ensures Cols(parts)[k] == parts[k].col
  {
  }

  lemma DistinctNothing()
    ensures Distinct([]) == []
  {
  }

  lemma DistinctLast(s: seq<int>, x: int)
    ensures Distinct(s + [x]) == if x in Distinct(s) then Distinct(s) else Distinct(s) + [x]
  {
    assert (s + [x])[..|s|] == s;
  }

  lemma DoubledKeyCols()
    ensures Cols(DOUBLED_KEY) == [0, 0, 1]
  {
  }

  lemma DoubledColumn()
    ensures Distinct([0, 0]) == [0]
  {
    hide Distinct;
    DistinctNothing();
    assert [] + [0] == [0] && [0] + [0] == [0, 0];
    DistinctLast([], 0);
    DistinctLast([0], 0);
  }

  lemma DoubledKeyDistinct()
    ensures Distinct([0, 0, 1]) == [0, 1]
  {
    hide Distinct;
    DoubledColumn();
    assert [0, 0] + [1] == [0, 0, 1];
    DistinctLast([0, 0], 1);
  }

  /** Column b ends up with the collating sequence of column a. */
  lemma CollationLost(after: seq<Part>)
    requires Cols(after) == Distinct(Cols(DOUBLED_KEY)) && CollsInPlace(DOUBLED_KEY, after)
    ensures !OwnColls(DOUBLED_KEY, after)
    ensures |after| == 2 && after[1] == Part(1, BINARY)
  {
    DoubledKeyCols();
    hide Distinct, OwnColls, Cols;
    DoubledColumn();
    DoubledKeyDistinct();
    OwnCollsIff(DOUBLED_KEY, after);
    var s := Cols(DOUBLED_KEY);
    assert s[..2] == [0, 0] && DOUBLED_KEY[2].col !in s[..2];
    ColAt(after, 1);
  }

  // ------------------------------------------------------------------------ the code

  /** hasColumn */
  method HasColumn(aiCol: seq<Part>, nCol: nat, x: int) returns (found: bool)
    requires nCol <= |aiCol|
    ensures found <==> x in Cols(aiCol[..nCol])
  {
    var k := 0;
    while k < nCol
      invariant k <= nCol && forall j | 0 <= j < k :: aiCol[j].col != x
    {
      if x == aiCol[k].col {
        assert Cols(aiCol[..nCol])[k] == x;
        return true;
      }
      k := k + 1;
    }
    return false;
  }

  /** How many columns of the primary key an index lacks. */
  method CountLacking(key: seq<Part>, pk: seq<Part>) returns (n: nat)
    ensures n == |Lacked(pk, Cols(key))|
  {
    n := 0;
    assert pk[..0] == [];
    for i := 0 to |pk|
      invariant n == |Lacked(pk[..i], Cols(key))|
    {
      LackedNext(pk, Cols(key), i);
      assert key[..|key|] == key;
      var found := HasColumn(key, |key|, pk[i].col);
      if !found { n := n + 1; }
    }
    assert pk[..|pk|] == pk;
  }

  /** The loop has dealt with the first i columns and kept j of them. */
  ghost predicate Compacting(parts: seq<Part>, key: seq<Part>, n: nat, i: nat, j: nat) {
    && 1 <= j <= i <= n <= |key|
    && SameColls(parts, key) && SameFrom(parts, key, i)
    && Cols(parts[..j]) == Distinct(Cols(key[..n])[..i])
  }

  lemma CompactingStarts(key: seq<Part>, n: nat)
    requires 0 < n <= |key|
    ensures Compacting(key, key, n, 1, 1)
  {
    DistinctOne(Cols(key[..n]), key);
  }

  /** What becomes of column i: dropped if it was kept before, moved to position j otherwise. */
  lemma CompactingStep(parts: seq<Part>, key: seq<Part>, n: nat, i: nat, j: nat)
    requires Compacting(parts, key, n, i, j) && i < n
    ensures var c := parts[i].col;
      if c in Cols(parts[..j]) then Compacting(parts, key, n, i + 1, j)
      else Compacting(parts[j := parts[j].(col := c)], key, n, i + 1, j + 1)
  {
    var c := parts[i].col;
    KeyColumn(key, n, i);
    DistinctNext(Cols(key[..n]), i);
    ColsPut(parts, j, c);
    PutKeeps(parts, key, j, c, i);
    hide Distinct, Cols, SameColls;
  }

  lemma CompactingEnds(parts: seq<Part>, key: seq<Part>, n: nat, j: nat)
    requires Compacting(parts, key, n, n, j)
    ensures SameColls(parts, key) && Cols(parts[..j]) == Distinct(Cols(key[..n]))
  {
    hide Distinct;
    assert Cols(key[..n])[..n] == Cols(key[..n]);
  }

  /** The loop that moves each new column of the key forward over the repeated ones. */
  method Compacted(key: seq<Part>, nKeyCol: nat) returns (parts: seq<Part>, j: nat, dropped: nat)
    requires 0 < nKeyCol <= |key|
    ensures 0 < j <= nKeyCol && dropped == nKeyCol - j && SameColls(parts, key)
    ensures Cols(parts[..j]) == Distinct(Cols(key[..nKeyCol]))
  {
    hide Distinct, Cols, SameColls, SameFrom;
    var i := 1;
    parts, j, dropped := key, 1, 0;
    CompactingStarts(key, nKeyCol);
    while i < nKeyCol
      invariant 1 <= j <= i <= nKeyCol && dropped == i - j && |parts| == |key|
      invariant Compacting(parts, key, nKeyCol, i, j)
    {
      CompactingStep(parts, key, nKeyCol, i, j);
      hide Compacting;
      var found := HasColumn(parts, j, parts[i].col);
      if found {
        dropped := dropped + 1;
      } else {
        parts := parts[j := parts[j].(col := parts[i].col)];
        j := j + 1;
      }
      i := i + 1;
    }
    CompactingEnds(parts, key, nKeyCol, j);
  }

  /** The lists agree from position i on. */
  predicate SameFrom(a: seq<Part>, b: seq<Part>, i: nat) {
    |a| == |b| && forall k | i <= k < |a| :: a[k] == b[k]
  }

  lemma PutKeeps(parts: seq<Part>, key: seq<Part>, j: nat, c: int, i: nat)
    requires SameColls(parts, key) && SameFrom(parts, key, i) && j <= i < |parts|
    ensures var p := parts[j := parts[j].(col := c)]; SameColls(p, key) && SameFrom(p, key, i + 1)
  {
  }

  lemma KeyColls(was: seq<Part>, n: nat, parts: seq<Part>, j: nat)
    requires SameColls(parts, was) && j <= n <= |was| && Cols(parts[..j]) == Distinct(Cols(was[..n]))
    ensures CollsInPlace(was[..n], parts[..j])
    ensures OwnColls(was[..n], parts[..j]) <==> CollsFit(was[..n])
  {
    hide Distinct, Cols, OwnColls, CollsFit;
    OwnCollsIff(was[..n], parts[..j]);
  }

  lemma KeyColumn(key: seq<Part>, n: nat, i: nat)
    requires i < n <= |key|
    ensures Cols(key[..n])[i] == key[i].col
  {
  }

  /** The first n entries are those of was, and m follows them. */
  ghost predicate Extends(parts: seq<Part>, was: seq<Part>, n: nat, m: seq<Part>) {
    |parts| == |was| && n + |m| <= |was| && parts[..n] == was[..n] && parts[..n + |m|] == was[..n] + m
  }

  lemma ExtendsNext(parts: seq<Part>, was: seq<Part>, n: nat, m: seq<Part>, j: nat, x: Part)
    requires Extends(parts, was, n, m) && j == n + |m| < |parts|
    ensures Extends(parts[j := x], was, n, m + [x])
  {
    var p := parts[j := x];
    assert p[..j] == parts[..j] && p[..j + 1] == p[..j] + [x];
    assert p[..n] == p[..j][..n] == parts[..n];
  }

  class Index {
    var parts: seq<Part>
    var nKeyCol: nat
    var nColumn: nat
    var isResized: bool
    const isPrimaryKey: bool
    var isCovering: bool
    var uniqNotNull: bool
    var tnum: nat

    /** A rowid table's index: the key columns and the rowid. */
    constructor (key: seq<Part>, pk: bool, root: nat)
      ensures parts == key + [Part(-1, BINARY)] && nKeyCol == |key| && nColumn == |key| + 1
      ensures !isResized && isPrimaryKey == pk && tnum == root && !uniqNotNull
    {
      parts, nKeyCol, nColumn, isResized := key + [Part(-1, BINARY)], |key|, |key| + 1, false;
      isPrimaryKey, isCovering, uniqNotNull, tnum := pk, false, false, root;
    }

    ghost predicate RowidForm()
      reads this
    {
      0 < nKeyCol && nColumn == nKeyCol + 1 <= |parts| && !isResized
    }

    function Key(): seq<Part>
      reads this
    {
      if nKeyCol <= |parts| then parts[..nKeyCol] else parts
    }

    function Listed(): seq<Part>
      reads this
    {
      if nColumn <= |parts| then parts[..nColumn] else parts
    }

    /** resizeIndexObject; memory tells whether the allocation succeeds. */
    method Resize(n: nat, memory: bool) returns (ok: bool)
      requires nColumn <= |parts| && (nColumn < n ==> !isResized)
      modifies this`parts, this`nColumn, this`isResized
      ensures ok <==> n <= old(nColumn) || memory
      ensures nColumn == (if ok && old(nColumn) < n then n else old(nColumn)) <= |parts|
      ensures parts[..old(nColumn)] == old(parts[..nColumn])
    {
      if nColumn >= n { return true; }
      if !memory { return false; }
      parts := parts[..nColumn] + seq(n - nColumn, _ => Part(0, BINARY));
      nColumn := n;
      isResized := true;
      ok := true;
    }

    /** Repeated columns leave the primary key; the collating sequences stay where they are. */
    method DropRepeats()
      requires RowidForm()
      modifies this`parts, this`nKeyCol, this`nColumn
      ensures RowidForm() && |parts| == |old(parts)|
      ensures Cols(Key()) == Distinct(Cols(old(Key())))
      ensures CollsInPlace(old(Key()), Key())
      ensures OwnColls(old(Key()), Key()) <==> CollsFit(old(Key()))
    {
      hide Distinct, Cols, OwnColls, CollsFit, CollsInPlace;
      var dropped;
      ghost var was, n := parts, nKeyCol;
      parts, nKeyCol, dropped := Compacted(parts, nKeyCol);
      nColumn := nColumn - dropped;
      KeyColls(was, n, parts, nKeyCol);
    }

    /** The rowid at the end gives way to the primary key columns the key lacks. */
    method ReplaceRowid(pk: seq<Part>, memory: bool) returns (ok: bool)
      requires RowidForm()
      modifies this`parts, this`nColumn, this`isResized
      ensures Key() == old(Key())
      ensures ok ==> nColumn <= |parts| && Listed() == old(Key()) + Lacked(pk, Cols(old(Key())))
      ensures memory ==> ok
    {
      var n := CountLacking(parts[..nKeyCol], pk);
      if n == 0 {
        nColumn := nKeyCol;
        return true;
      }
      ok := Resize(nKeyCol + n, memory);
      assert parts[..nKeyCol] == old(parts[..nColumn])[..nKeyCol] == old(parts[..nKeyCol]);
      if !ok { return; }
      var j := Append(pk);
    }

    /** The loop that writes the lacking columns behind the key. */
    method Append(pk: seq<Part>) returns (j: nat)
      requires nKeyCol <= |parts| && nKeyCol + |Lacked(pk, Cols(parts[..nKeyCol]))| <= |parts|
      modifies this`parts
      ensures |parts| == |old(parts)| && parts[..nKeyCol] == old(parts[..nKeyCol])
      ensures j == nKeyCol + |Lacked(pk, Cols(parts[..nKeyCol]))| <= |parts|
      ensures parts[..j] == parts[..nKeyCol] + Lacked(pk, Cols(parts[..nKeyCol]))
    {
      ghost var key, was := Cols(parts[..nKeyCol]), parts;
      j := nKeyCol;
      assert pk[..0] == [];
      NoneLacked(key);
      hide Lacked, Cols;
      for i := 0 to |pk|
        invariant j == nKeyCol + |Lacked(pk[..i], key)|
        invariant Extends(parts, was, nKeyCol, Lacked(pk[..i], key))
      {
        LackedNext(pk, key, i);
        LackedGrows(pk, key, i);
        var found := HasColumn(parts, nKeyCol, pk[i].col);
        if !found {
          ExtendsNext(parts, was, nKeyCol, Lacked(pk[..i], key), j, pk[i]);
          hide Extends;
          parts := parts[j := pk[i]];
          j := j + 1;
        }
      }
      assert pk[..|pk|] == pk;
    }

    /** The key takes in every column of the table. */
    method FillColumns(nCol: nat, memory: bool) returns (ok: bool)
      requires RowidForm() && NoRepeats(Cols(Key())) && InTable(Cols(Key()), nCol)
      modifies this`parts, this`nColumn, this`isResized
      ensures Key() == old(Key()) && (memory ==> ok)
      ensures ok ==> nColumn == nCol <= |parts|
      ensures ok ==> Listed() == old(Key()) + Lacked(AllColumns(nCol), Cols(old(Key())))
    {
      EveryColumnOnce(Cols(Key()), nCol);
      hide RowidForm, NoRepeats, InTable;
      if nKeyCol < nCol {
        ok := Resize(nCol, memory);
        assert parts[..nKeyCol] == old(parts[..nColumn])[..nKeyCol] == old(parts[..nKeyCol]);
        if !ok { return; }
        var j := AppendOthers(nCol);
      } else {
        nColumn := nCol;
        ok := true;
      }
    }

    method AppendOthers(nCol: nat) returns (j: nat)
      requires nKeyCol <= |parts| && nKeyCol + |Lacked(AllColumns(nCol), Cols(parts[..nKeyCol]))| <= |parts|
      modifies this`parts
      ensures |parts| == |old(parts)| && parts[..nKeyCol] == old(parts[..nKeyCol])
      ensures j == nKeyCol + |Lacked(AllColumns(nCol), Cols(parts[..nKeyCol]))| <= |parts|
      ensures parts[..j] == parts[..nKeyCol] + Lacked(AllColumns(nCol), Cols(parts[..nKeyCol]))
    {
      ghost var key, all, was := Cols(parts[..nKeyCol]), AllColumns(nCol), parts;
      j := nKeyCol;
      assert all[..0] == [];
      NoneLacked(key);
      hide Lacked, AllColumns, Cols;
      for i := 0 to nCol
        invariant |all| == nCol && j == nKeyCol + |Lacked(all[..i], key)|
        invariant Extends(parts, was, nKeyCol, Lacked(all[..i], key))
      {
        LackedNext(all, key, i);
        LackedGrows(all, key, i);
        NotYetListed(nCol, i, parts[..nKeyCol], parts[..j]);
        var found := HasColumn(parts, j, i);
        if !found {
          ExtendsNext(parts, was, nKeyCol, Lacked(all[..i], key), j, Part(i, BINARY));
          hide Extends;
          parts := parts[j := Part(i, BINARY)];
          j := j + 1;
        }
      }
      assert all[..nCol] == all;
    }
  }

  lemma NoneLacked(key: seq<int>)
    ensures Lacked([], key) == []
  {
  }

  /** Column i is listed before its turn only if it is a key column. */
  lemma NotYetListed(nCol: nat, i: nat, key: seq<Part>, listed: seq<Part>)
    requires i < nCol && listed == key + Lacked(AllColumns(nCol)[..i], Cols(key))
    ensures |AllColumns(nCol)| == nCol && AllColumns(nCol)[i] == Part(i, BINARY)
    ensures i in Cols(listed) <==> i in Cols(key)
  {
    var m := Lacked(AllColumns(nCol)[..i], Cols(key));
    LackedMeans(AllColumns(nCol)[..i], Cols(key));
    assert Cols(listed) == Cols(key) + Cols(m);
    forall k | 0 <= k < |m| ensures Cols(m)[k] != i {
      assert m[k] in m && m[k] in AllColumns(nCol)[..i];
    }
  }

  class Table {
    const nCol: nat
    const tnum: nat
    /** COLFLAG_PRIMKEY and the collating sequence of each column. */
    const isPrimKey: seq<bool>
    const colls: seq<nat>
    var notNull: seq<bool>
    var iPKey: int
    var indexes: seq<Index>

    constructor (primKey: seq<bool>, colls: seq<nat>, root: nat, iPKey: int, indexes: seq<Index>)
      requires |colls| == |primKey|
      ensures nCol == |primKey| && tnum == root && isPrimKey == primKey && this.colls == colls
      ensures notNull == seq(|primKey|, _ => false) && this.iPKey == iPKey && this.indexes == indexes
    {
      nCol, tnum, isPrimKey, this.colls := |primKey|, root, primKey, colls;
      notNull, this.iPKey, this.indexes := seq(|primKey|, _ => false), iPKey, indexes;
    }

    /** What parsing CREATE TABLE leaves: rowid indexes, and a key that is an index or one integer column. */
    ghost predicate Parsed()
      reads this, indexes
    {
      |notNull| == |isPrimKey| == |colls| == nCol && iPKey < nCol
      && (forall i, j | 0 <= i < j < |indexes| :: indexes[i] != indexes[j])
      && (forall x | x in indexes :: x.RowidForm())
      && (iPKey >= 0 ==> forall x | x in indexes :: !x.isPrimaryKey)
      && (iPKey < 0 ==> exists x :: x in indexes && KeyOk(x) && forall y | y in indexes && y.isPrimaryKey :: y == x)
    }

    ghost predicate KeyOk(x: Index)
      reads x
    {
      x.isPrimaryKey && InTable(Cols(x.Key()), nCol)
    }

    /** The primary key is settled; the other lists are not yet changed. */
    ghost predicate Ready(pk: Index)
      reads this, indexes, pk
    {
      pk in indexes && KeyOk(pk) && NoRepeats(Cols(pk.Key()))
      && (forall y | y in indexes && y.isPrimaryKey :: y == pk)
      && (forall i, j | 0 <= i < j < |indexes| :: indexes[i] != indexes[j])
      && (forall x | x in indexes :: x.RowidForm())
    }

    /** Primary key columns are NOT NULL, except in imposter tables. */
    method MarkNotNull(imposter: bool)
      requires |notNull| == |isPrimKey| == nCol
      modifies this`notNull
      ensures |notNull| == nCol
      ensures forall i | 0 <= i < nCol :: notNull[i] == (old(notNull)[i] || (isPrimKey[i] && !imposter))
    {
      if imposter { return; }
      for i := 0 to nCol
        invariant |notNull| == nCol
        invariant forall j | 0 <= j < i :: notNull[j] == (old(notNull)[j] || isPrimKey[j])
        invariant forall j | i <= j < nCol :: notNull[j] == old(notNull)[j]
      {
        if isPrimKey[i] { notNull := notNull[i := true]; }
      }
    }

    /** sqlite3PrimaryKeyIndex */
    method PrimaryKeyIndex() returns (pk: Index)
      requires exists x :: x in indexes && x.isPrimaryKey
      ensures pk in indexes && pk.isPrimaryKey
    {
      var k := 0;
      while !indexes[k].isPrimaryKey
        invariant k < |indexes| && forall j | 0 <= j < k :: !indexes[j].isPrimaryKey
        decreases |indexes| - k
      {
        assert exists j :: k < j < |indexes| && indexes[j].isPrimaryKey;
        k := k + 1;
      }
      pk := indexes[k];
    }

    /** The index lists its key, then the columns of the primary key that it lacks. */
    ghost predicate Extended(x: Index, pk: seq<Part>)
      reads x
    {
      x.nColumn <= |x.parts| && x.Listed() == x.Key() + Lacked(pk, Cols(x.Key()))
    }

    /** All indexes but the primary key. */
    method ExtendOthers(pk: Index, memory: nat -> bool) returns (ok: bool)
      requires Ready(pk)
      modifies indexes
      ensures forall x | x in indexes :: x.Key() == old(x.Key()) && x.uniqNotNull == old(x.uniqNotNull)
      ensures unchanged(pk)
      ensures (forall k :: memory(k)) ==> ok
      ensures ok ==> forall x | x in indexes && x != pk :: Extended(x, pk.Key())
    {
      ok := true;
      for k := 0 to |indexes|
        invariant forall x | x in indexes :: x.Key() == old(x.Key()) && x.uniqNotNull == old(x.uniqNotNull)
        invariant unchanged(pk) && forall j | k <= j < |indexes| :: indexes[j].RowidForm()
        invariant forall j | 0 <= j < k && indexes[j] != pk :: Extended(indexes[j], pk.Key())
      {
        var idx := indexes[k];
        if idx.isPrimaryKey { continue; }
        ok := idx.ReplaceRowid(pk.parts[..pk.nKeyCol], memory(k));
        if !ok { return; }
      }
    }

    /** Finds the primary key index without repeated columns, or makes one for an INTEGER PRIMARY KEY. */
    method SettleKey(created: bool) returns (pk: Index?)
      requires Parsed()
      modifies this`iPKey, this`indexes, indexes
      ensures pk == null <==> old(iPKey) >= 0 && !created
      ensures pk != null ==> Ready(pk) && iPKey < 0 && (old(iPKey) >= 0 ==> iPKey == -1)
      ensures pk == null || old(iPKey) < 0 ==> iPKey == old(iPKey)
      ensures forall x | x in old(indexes) :: x.uniqNotNull == old(x.uniqNotNull)
      ensures pk != null && old(iPKey) >= 0 ==> !pk.uniqNotNull
      ensures forall x | x in old(indexes) && x != pk :: x.Key() == old(x.Key())
      ensures pk != null && old(iPKey) >= 0 ==> fresh(pk) && indexes == [pk] + old(indexes)
      ensures pk != null && old(iPKey) >= 0 ==> pk.Key() == [Part(old(iPKey), colls[old(iPKey)])]
      ensures pk != null && old(iPKey) < 0 ==> indexes == old(indexes) && pk in old(indexes)
      ensures pk != null && old(iPKey) < 0 ==> Cols(pk.Key()) == Distinct(Cols(old(pk.Key())))
      ensures pk != null && old(iPKey) < 0 ==> CollsInPlace(old(pk.Key()), pk.Key())
      ensures pk != null && old(iPKey) < 0 ==> (OwnColls(old(pk.Key()), pk.Key()) <==> CollsFit(old(pk.Key())))
    {
      hide OwnColls, CollsFit, CollsInPlace;
      if iPKey >= 0 {
        if !created { return null; }
        pk := new Index([Part(iPKey, colls[iPKey])], true, 0);
        assert pk.Key() == [Part(iPKey, colls[iPKey])];
        indexes := [pk] + indexes;
        iPKey := -1;
      } else {
        pk := PrimaryKeyIndex();
        ghost var cols := Cols(pk.Key());
        pk.DropRepeats();
        StillInTable(cols, nCol);
      }
    }

    /** The lists as a WITHOUT ROWID table needs them. */
    ghost predicate Converted(pk: Index)
      reads this, indexes, pk
    {
      pk in indexes && pk.isPrimaryKey && pk.tnum == tnum && pk.isCovering
      && pk.nColumn == nCol <= |pk.parts|
      && pk.Listed() == pk.Key() + Lacked(AllColumns(nCol), Cols(pk.Key()))
      && forall x | x in indexes && x != pk :: Extended(x, pk.Key())
    }

    /** The part after the primary key is settled. */
    method Rewrite(pk: Index, imposter: bool, memory: nat -> bool) returns (ok: bool)
      requires Ready(pk)
      modifies indexes
      ensures forall x | x in indexes :: x.Key() == old(x.Key())
      ensures ok ==> Converted(pk)
      ensures forall x | x in indexes && x != pk :: x.uniqNotNull == old(x.uniqNotNull)
      ensures pk.uniqNotNull == (old(pk.uniqNotNull) || !imposter) && pk.isCovering && pk.tnum == tnum
      ensures (forall k :: memory(k)) ==> ok
    {
      pk.isCovering := true;
      if !imposter { pk.uniqNotNull := true; }
      pk.tnum := tnum;
      ok := ExtendOthers(pk, memory);
      if ok {
        ok := pk.FillColumns(nCol, memory(|indexes|));
      }
    }

    /** convertToWithoutRowidTable; created and memory say which allocations succeed. */
    method Convert(imposter: bool, vtab: bool, created: bool, memory: nat -> bool) returns (pk: Index?, ok: bool)
      requires Parsed()
      modifies this`notNull, this`iPKey, this`indexes, indexes
      ensures |notNull| == nCol
      ensures forall i | 0 <= i < nCol :: notNull[i] == (old(notNull)[i] || (isPrimKey[i] && !imposter))
      ensures vtab ==> pk == null && indexes == old(indexes) && forall x | x in indexes :: x.Listed() == old(x.Listed())
      ensures created && (forall k :: memory(k)) ==> ok
      ensures ok && !vtab ==> pk != null && Converted(pk)
      ensures iPKey == if pk != null && old(iPKey) >= 0 then -1 else old(iPKey)
      ensures pk != null && !imposter ==> pk.uniqNotNull
      ensures forall x | x in old(indexes) && x != pk :: x.uniqNotNull == old(x.uniqNotNull)
      ensures pk != null ==> pk.isCovering && pk.tnum == tnum
      ensures forall x | x in old(indexes) && x != pk :: x.Key() == old(x.Key())
      ensures pk != null && old(iPKey) >= 0 ==>
        indexes == [pk] + old(indexes) && pk.Key() == [Part(old(iPKey), colls[old(iPKey)])]
      ensures pk != null && old(iPKey) < 0 ==>
        indexes == old(indexes) && pk in old(indexes) && Cols(pk.Key()) == Distinct(Cols(old(pk.Key())))
      ensures pk != null && imposter && old(iPKey) >= 0 ==> !pk.uniqNotNull
      ensures pk != null && imposter && old(iPKey) < 0 ==> pk.uniqNotNull == old(pk.uniqNotNull)
      ensures pk != null && old(iPKey) < 0 ==> CollsInPlace(old(pk.Key()), pk.Key())
      ensures pk != null && old(iPKey) < 0 ==> (OwnColls(old(pk.Key()), pk.Key()) <==> CollsFit(old(pk.Key())))
    {
      hide OwnColls, CollsFit, CollsInPlace;
      MarkNotNull(imposter);
      pk, ok := null, true;
      if vtab { return; }
      pk := SettleKey(created);
      if pk == null { return pk, false; }
      ok := Rewrite(pk, imposter, memory);
    }
  }

  lemma StillInTable(cols: seq<int>, nCol: nat)
    requires InTable(cols, nCol)
    ensures InTable(Distinct(cols), nCol)
  {
    forall i | 0 <= i < |Distinct(cols)| ensures 0 <= Distinct(cols)[i] < nCol {
      assert Distinct(cols)[i] in cols;
    }
  }
}
