/**
 The two leaf representations of a Bitvec as values: the bitmap of bytes and the
 open-addressed hash table of non-zero values with linear probing.
 */
module BitvecHash {

  // ------------------------------------------------------------------- bitmap

  /** 1 << k */
  function Mask(k: nat): bv8
    requires k < 8
  {
    if k == 0 then 0x01 else if k == 1 then 0x02 else if k == 2 then 0x04 else if k == 3 then 0x08
    else if k == 4 then 0x10 else if k == 5 then 0x20 else if k == 6 then 0x40 else 0x80
  }

  predicate HasBit(b: bv8, k: nat)
    requires k < 8
  {
    b & Mask(k) != 0
  }

  function WithBit(b: bv8, k: nat): bv8
    requires k < 8
  {
    b | Mask(k)
  }

  function WithoutBit(b: bv8, k: nat): bv8
    requires k < 8
  {
    b & !Mask(k)
  }

  predicate BitOn(map8: seq<bv8>, i: nat)
    requires i / 8 < |map8|
  {
    BitAt(map8, i / 8, i % 8)
  }

  predicate BitAt(map8: seq<bv8>, q: nat, r: nat)
    requires q < |map8| && r < 8
  {
    HasBit(map8[q], r)
  }

  function SetBit(map8: seq<bv8>, i: nat): (r: seq<bv8>)
    requires i / 8 < |map8|
  {
    map8[i / 8 := WithBit(map8[i / 8], i % 8)]
  }

  function ClearBit(map8: seq<bv8>, i: nat): (r: seq<bv8>)
    requires i / 8 < |map8|
  {
    map8[i / 8 := WithoutBit(map8[i / 8], i % 8)]
  }

  lemma MaskLemma(b: bv8, k: nat, j: nat)
    requires k < 8 && j < 8
    ensures HasBit(WithBit(b, k), j) <==> j == k || HasBit(b, j)
    ensures HasBit(WithoutBit(b, k), j) <==> j != k && HasBit(b, j)
  {
    MaskSplit(b, Mask(k), Mask(j));
    assert Mask(j) & Mask(j) != 0;
    if j != k { MaskApart(k, j); }
  }

  lemma MaskSplit(b: bv8, x: bv8, y: bv8)
    ensures (b | x) & y == (b & y) | (x & y)
    ensures x & y == 0 ==> (b & !x) & y == b & y
    ensures (b & !x) & x == 0
  {
  }

  lemma MaskApart(k: nat, j: nat)
    requires k < 8 && j < 8 && j != k
    ensures Mask(k) & Mask(j) == 0
  {
  }

  lemma DivMod8(i: nat, j: nat)
    ensures i / 8 == j / 8 && i % 8 == j % 8 ==> i == j
  {
  }

  /** Setting or clearing one bit of the bitmap changes that bit and no other. */
  lemma BitmapUpdate(map8: seq<bv8>, i: nat, j: nat)
    requires i / 8 < |map8| && j / 8 < |map8|
    ensures BitOn(SetBit(map8, i), j) <==> j == i || BitOn(map8, j)
    ensures BitOn(ClearBit(map8, i), j) <==> j != i && BitOn(map8, j)
  {
    hide BitAt, WithBit, WithoutBit;
    DivMod8(i, j);
    ByteSet(map8, i / 8, i % 8, j / 8, j % 8);
    ByteClear(map8, i / 8, i % 8, j / 8, j % 8);
  }

  lemma ByteSet(map8: seq<bv8>, q: nat, r: nat, q': nat, r': nat)
    requires q < |map8| && q' < |map8| && r < 8 && r' < 8
    ensures BitAt(map8[q := WithBit(map8[q], r)], q', r') <==> (q == q' && r == r') || BitAt(map8, q', r')
  {
    hide HasBit, WithBit, WithoutBit;
    MaskLemma(map8[q], r, r');
  }

  lemma ByteClear(map8: seq<bv8>, q: nat, r: nat, q': nat, r': nat)
    requires q < |map8| && q' < |map8| && r < 8 && r' < 8
    ensures BitAt(map8[q := WithoutBit(map8[q], r)], q', r') <==> !(q == q' && r == r') && BitAt(map8, q', r')
  {
    hide HasBit, WithBit, WithoutBit;
    MaskLemma(map8[q], r, r');
  }

  lemma ZeroBitmap(map8: seq<bv8>, i: nat)
    requires i / 8 < |map8| && forall k :: 0 <= k < |map8| ==> map8[k] == 0
    ensures !BitOn(map8, i)
  {
  }

  // --------------------------------------------------------------- hash table

  /** Slot d places after slot a in a table of n slots. */
  function Slot(a: nat, d: nat, n: nat): (r: nat)
    requires a < n && d <= n
    ensures r < n
  {
    if a + d < n then a + d else a + d - n
  }

  /** How many places slot s lies after slot a. */
  function Dist(a: nat, s: nat, n: nat): (r: nat)
    requires a < n && s < n
    ensures r < n && Slot(a, r, n) == s
  {
    if s >= a then s - a else s + n - a
  }

  /** BITVEC_HASH of a stored value: values are stored plus one. */
  function Home(v: nat, n: nat): (r: nat)
    requires v > 0 && n > 0
    ensures r < n
  {
    (v - 1) % n
  }

  function Occupied(h: seq<nat>): (r: nat)
    ensures r <= |h|
  {
    if h == [] then 0 else Occupied(h[..|h| - 1]) + if h[|h| - 1] != 0 then 1 else 0
  }

  ghost predicate NoDuplicates(h: seq<nat>) {
    forall s, t :: 0 <= s < |h| && 0 <= t < |h| && h[s] == h[t] && h[s] != 0 ==> s == t
  }

  /** Every slot from a value's home up to its own is in use. */
  ghost predicate NoGap(h: seq<nat>, s: nat)
    requires s < |h|
  {
    h[s] != 0 ==>
      forall d :: 0 <= d < Dist(Home(h[s], |h|), s, |h|) ==> h[Slot(Home(h[s], |h|), d, |h|)] != 0
  }

  ghost predicate HashOk(h: seq<nat>, nSet: nat) {
    && nSet == Occupied(h) < |h|
    && NoDuplicates(h)
    && forall s :: 0 <= s < |h| ==> NoGap(h, s)
  }

  /** The first d slots probed for v are in use by other values. */
  ghost predicate Probed(h: seq<nat>, v: nat, d: nat)
    requires v > 0 && 0 < |h| && d <= |h|
  {
    forall e :: 0 <= e < d ==> var x := h[Slot(Home(v, |h|), e, |h|)]; x != 0 && x != v
  }

  lemma {:induction false} OccupiedUpdate(h: seq<nat>, s: nat, v: nat)
    requires s < |h| && h[s] == 0 && v != 0
    ensures Occupied(h[s := v]) == Occupied(h) + 1
    decreases |h|
  {
    var n := |h| - 1;
    if s == n {
      assert h[s := v][..n] == h[..n];
    } else {
      OccupiedUpdate(h[..n], s, v);
      assert h[s := v][..n] == h[..n][s := v];
    }
  }

  lemma {:induction false} FullIsFull(h: seq<nat>)
    requires forall s :: 0 <= s < |h| ==> h[s] != 0
    ensures Occupied(h) == |h|
    decreases |h|
  {
    if h != [] {
      FullIsFull(h[..|h| - 1]);
    }
  }

  lemma {:induction false} ZeroTable(h: seq<nat>)
    requires h != [] && forall s :: 0 <= s < |h| ==> h[s] == 0
    ensures HashOk(h, 0)
  {
    OccupiedZero(h);
  }

  lemma {:induction false} OccupiedZero(h: seq<nat>)
    requires forall s :: 0 <= s < |h| ==> h[s] == 0
    ensures Occupied(h) == 0
    decreases |h|
  {
    if h != [] {
      OccupiedZero(h[..|h| - 1]);
    }
  }

  /** A probe sequence meets an empty slot or the value before it has gone all the way round. */
  lemma ProbeEnds(h: seq<nat>, nSet: nat, v: nat, d: nat)
    requires HashOk(h, nSet) && v > 0 && d <= |h| && Probed(h, v, d)
    ensures d < |h|
  {
    if d == |h| {
      forall s | 0 <= s < |h| ensures h[s] != 0 {
        var e := Dist(Home(v, |h|), s, |h|);
        assert h[Slot(Home(v, |h|), e, |h|)] != 0;
      }
      FullIsFull(h);
    }
  }

  /** A probe that ends at an empty slot shows that the value is absent. */
  lemma ProbeMisses(h: seq<nat>, nSet: nat, v: nat, d: nat)
    requires HashOk(h, nSet) && v > 0 && d < |h| && Probed(h, v, d)
    requires h[Slot(Home(v, |h|), d, |h|)] == 0
    ensures v !in h
  {
    forall s | 0 <= s < |h| ensures h[s] != v {
      assert NoGap(h, s);
      var e := Dist(Home(v, |h|), s, |h|);
      assert h[Slot(Home(v, |h|), e, |h|)] == h[s];
    }
  }

  /** Storing an absent value at the end of its probe keeps the table in order. */
  lemma InsertOk(h: seq<nat>, nSet: nat, v: nat, d: nat)
    requires HashOk(h, nSet) && v > 0 && d < |h| && Probed(h, v, d) && nSet + 1 < |h|
    requires h[Slot(Home(v, |h|), d, |h|)] == 0
    ensures HashOk(h[Slot(Home(v, |h|), d, |h|) := v], nSet + 1)
  {
    var s := Slot(Home(v, |h|), d, |h|);
    var h' := h[s := v];
    ProbeMisses(h, nSet, v, d);
    OccupiedUpdate(h, s, v);
    forall t | 0 <= t < |h'| ensures NoGap(h', t) {
      if t == s {
        assert Dist(Home(v, |h|), s, |h|) == d;
        forall e | 0 <= e < d ensures h'[Slot(Home(v, |h|), e, |h|)] != 0 {
          assert h[Slot(Home(v, |h|), e, |h|)] != 0;
        }
      } else {
        assert NoGap(h, t);
      }
    }
  }

  /** Bit x, counted from 0, is in the table: it is stored as the value x + 1. */
  predicate Has(h: seq<nat>, x: nat) {
    x + 1 in h
  }

  lemma EmptyHasNone(h: seq<nat>)
    requires forall s :: 0 <= s < |h| ==> h[s] == 0
    ensures forall x: nat :: !Has(h, x)
  {
  }

  lemma InsertMembers(h: seq<nat>, s: nat, v: nat)
    requires s < |h| && h[s] == 0 && v > 0
    ensures forall x: nat :: Has(h[s := v], x) <==> Has(h, x) || x + 1 == v
  {
    var h' := h[s := v];
    forall x: nat ensures Has(h', x) <==> Has(h, x) || x + 1 == v {
      assert h'[s] == v;
      if Has(h, x) {
        var t :| 0 <= t < |h| && h[t] == x + 1;
        assert h'[t] == x + 1;
      }
    }
  }

  /**
   The probe loop: the slot where v is stored or, if it is absent, the empty slot
   where it belongs.
   */
  method Find(h: seq<nat>, ghost nSet: nat, v: nat) returns (s: nat, ghost d: nat)
    requires HashOk(h, nSet) && v > 0
    ensures d < |h| && Probed(h, v, d) && s == Slot(Home(v, |h|), d, |h|)
    ensures h[s] == if v in h then v else 0
  {
    s, d := Home(v, |h|), 0;
    while h[s] != 0 && h[s] != v
      invariant d < |h| && s == Slot(Home(v, |h|), d, |h|) && Probed(h, v, d)
      decreases |h| - d
    {
      ProbeEnds(h, nSet, v, d + 1);
      d := d + 1;
      s := s + 1;
      if s >= |h| { s := 0; }
    }
    if h[s] == 0 { ProbeMisses(h, nSet, v, d); }
  }

  /** The rebuild loop of sqlite3BitvecClear: all values but gone are put into a zeroed table. */
  method Rebuild(was: seq<nat>, ghost nWas: nat, gone: nat) returns (h: seq<nat>, nSet: nat)
    requires HashOk(was, nWas)
    ensures |h| == |was| && HashOk(h, nSet)
    ensures forall x: nat :: Has(h, x) <==> Has(was, x) && x + 1 != gone
  {
    hide NoGap, NoDuplicates, Probed, Slot, Home, Has;
    h, nSet := seq(|was|, _ => 0), 0;
    ZeroTable(h);
    EmptyHasNone(h);
    EmptyHasNone(was[..0]);
    for j := 0 to |was|
      invariant |h| == |was| && HashOk(h, nSet) && nSet <= Occupied(was[..j])
      invariant forall x: nat :: Has(h, x) <==> Has(was[..j], x) && x + 1 != gone
    {
      PrefixStep(was, j, was[..j + 1]);
      if was[j] != 0 && was[j] != gone {
        var v := was[j];
        OccupiedPrefix(was, j + 1);
        NotBefore(was, j);
        MemberHas(h, v);
        var s, d := Find(h, nSet, v);
        InsertOk(h, nSet, v, d);
        InsertMembers(h, s, v);
        nSet := nSet + 1;
        h := h[s := v];
      }
    }
    assert was[..|was|] == was;
  }

  lemma MemberHas(h: seq<nat>, v: nat)
    requires v > 0
    ensures v in h <==> Has(h, v - 1)
  {
  }

  lemma PrefixStep(h: seq<nat>, j: nat, p: seq<nat>)
    requires j < |h| && p == h[..j + 1]
    ensures forall x: nat :: Has(p, x) <==> Has(h[..j], x) || x + 1 == h[j]
    ensures Occupied(p) == Occupied(h[..j]) + if h[j] != 0 then 1 else 0
  {
    assert p[..j] == h[..j];
    assert p == h[..j] + [h[j]];
    forall x: nat ensures Has(p, x) <==> Has(h[..j], x) || x + 1 == h[j] {
      assert x + 1 in h[..j] + [h[j]] <==> x + 1 in h[..j] || x + 1 == h[j];
    }
  }

  lemma {:induction false} OccupiedPrefix(h: seq<nat>, j: nat)
    requires j <= |h|
    ensures Occupied(h[..j]) <= Occupied(h)
    decreases |h|
  {
    if j == |h| {
      assert h[..j] == h;
    } else {
      OccupiedPrefix(h[..|h| - 1], j);
      assert h[..|h| - 1][..j] == h[..j];
    }
  }

  lemma NotBefore(h: seq<nat>, j: nat)
    requires j < |h| && NoDuplicates(h) && h[j] != 0
    ensures !Has(h[..j], h[j] - 1)
  {
    forall t | 0 <= t < j ensures h[..j][t] != h[j] {
      assert h[..j][t] == h[t];
    }
  }
}
