/**
 The Keccak-f[1600] permutation: the round of sections 3.2 and 3.3 of FIPS 202,
 and the in-place form that performs four rounds before the lanes are back in
 their places.
 */
module Keccak {
  import opened LaneBits

  /** 25 lanes; lane (x, y) is element 5 * y + x. */
  type Lanes = s: seq<bv64> | |s| == 25 witness seq(25, _ => 0)

  type Quint = s: seq<bv64> | |s| == 5 witness [0, 0, 0, 0, 0]

  // ------------------------------------------------------- FIPS 202, section 3.2

  function Lane(a: Lanes, x: nat, y: nat): bv64
    requires x < 5 && y < 5
  {
    a[5 * y + x]
  }

  function Parity(a: Lanes, x: nat): bv64
    requires x < 5
  {
    Xor5(Lane(a, x, 0), Lane(a, x, 1), Lane(a, x, 2), Lane(a, x, 3), Lane(a, x, 4))
  }

  function Effect(a: Lanes, x: nat): bv64
    requires x < 5
  {
    Xor(Parity(a, (x + 4) % 5), Rol(Parity(a, (x + 1) % 5), 1))
  }

  /** Rotation amounts of section 3.2.2. */
  function Offset(x: nat, y: nat): (r: nat)
    requires x < 5 && y < 5
    ensures r < 64
  {
    if y == 0 then [0, 1, 62, 28, 27][x]
    else if y == 1 then [36, 44, 6, 55, 20][x]
    else if y == 2 then [3, 10, 43, 25, 39][x]
    else if y == 3 then [41, 45, 15, 21, 8][x]
    else [18, 2, 61, 56, 14][x]
  }

  /** Lane (x, y) after the steps theta, rho and pi. */
  function RhoPi(a: Lanes, x: nat, y: nat): bv64
    requires x < 5 && y < 5
  {
    var x' := (x + 3 * y) % 5;
    Rol(Xor(Lane(a, x', x), Effect(a, x')), Offset(x', x))
  }

  /** Lane (x, y) after theta, rho, pi and chi. */
  function ChiLane(a: Lanes, x: nat, y: nat): bv64
    requires x < 5 && y < 5
  {
    Mix(RhoPi(a, x, y), RhoPi(a, (x + 1) % 5, y), RhoPi(a, (x + 2) % 5, y))
  }

  /** One round: all five steps. */
  function Round(a: Lanes, rc: bv64): Lanes {
    seq(25, i requires 0 <= i < 25 =>
      if i == 0 then Xor(ChiLane(a, 0, 0), rc) else ChiLane(a, i % 5, i / 5))
  }

  // --------------------------------------------------------- lanes that move about

  /** t[y][x] is the row in which lane (x, y) is kept; it never leaves its column. */
  type Table = t: seq<seq<nat>> |
    |t| == 5 && forall y :: 0 <= y < 5 ==> |t[y]| == 5 && forall x :: 0 <= x < 5 ==> t[y][x] < 5
    witness seq(5, _ => [0, 0, 0, 0, 0])

  function At(t: Table, x: nat, y: nat): (r: nat)
    requires x < 5 && y < 5
    ensures r < 25
  {
    5 * t[y][x] + x
  }

  /** The lanes in standard order. */
  function View(s: Lanes, t: Table): Lanes {
    seq(25, i requires 0 <= i < 25 => s[At(t, i % 5, i / 5)])
  }

  /** No two lanes share a place. */
  ghost predicate Apart(t: Table) {
    forall x, y, y' :: 0 <= x < 5 && 0 <= y < 5 && 0 <= y' < 5 && y != y' ==> t[y][x] != t[y'][x]
  }

  /** Each new lane is kept where one of the lanes it is computed from used to be. */
  ghost predicate Follows(t: Table, t': Table) {
    forall x, y :: 0 <= x < 5 && 0 <= y < 5 ==> t'[y][x] == t[(x + 2 * y) % 5][x]
  }

  // -------------------------------------------------------------- blocks of the code

  /** Cx: the five lanes of column x in the order of their y. */
  function Column(s: Lanes, t: Table, x: nat): bv64
    requires x < 5
  {
    Xor5(s[At(t, x, 0)], s[At(t, x, 1)], s[At(t, x, 2)], s[At(t, x, 3)], s[At(t, x, 4)])
  }

  /** D0..D4 */
  function Effects(s: Lanes, t: Table): (d: Quint) {
    seq(5, x requires 0 <= x < 5 => Xor(Column(s, t, (x + 4) % 5), Rol(Column(s, t, (x + 1) % 5), 1)))
  }

  /** Rotation amounts as the code has them: block y, column x. */
  const ROT: seq<seq<nat>> := [
    [0, 44, 43, 21, 14],
    [3, 45, 61, 28, 20],
    [18, 1, 6, 25, 8],
    [36, 10, 15, 56, 27],
    [41, 2, 62, 55, 39]]

  /** The B variable that receives column 0 in each block. */
  const FIRST: seq<nat> := [0, 2, 4, 1, 3]

  function Rot(y: nat, x: nat): (r: nat)
    requires x < 5 && y < 5
    ensures r == Offset(x, (x + 2 * y) % 5)
  {
    ROT[y][x]
  }

  function First(y: nat): (r: nat)
    requires y < 5
    ensures r == (2 * y) % 5
  {
    FIRST[y]
  }

  /** B0..B4 of block y: the lane of column x becomes B[(x + first) % 5]. */
  function Gather(s: Lanes, d: Quint, t: Table, y: nat): (b: Quint)
    requires y < 5
  {
    seq(5, j requires 0 <= j < 5 =>
      var x := (j + 5 - First(y)) % 5; Rol(Xor(s[At(t, x, y)], d[x]), Rot(y, x)))
  }

  /** Block y overwrites the five lanes it has read; the first one also adds the round constant. */
  function Block(s: Lanes, d: Quint, t: Table, y: nat, rc: bv64): Lanes
    requires y < 5
  {
    var b := Gather(s, d, t, y);
    seq(25, i requires 0 <= i < 25 =>
      var x := i % 5;
      if i == At(t, x, y) then
        var v := Mix(b[x], b[(x + 1) % 5], b[(x + 2) % 5]);
        if x == 0 && y == 0 then Xor(v, rc) else v
      else s[i])
  }

  function Blocks(s: Lanes, d: Quint, t: Table, n: nat, rc: bv64): Lanes
    requires n <= 5
  {
    if n == 0 then s else Block(Blocks(s, d, t, n - 1, rc), d, t, n - 1, rc)
  }

  // ------------------------------------------------------------------ correctness

  lemma ViewLane(s: Lanes, t: Table, x: nat, y: nat)
    requires x < 5 && y < 5
    ensures Lane(View(s, t), x, y) == s[At(t, x, y)]
  {
    assert (5 * y + x) % 5 == x && (5 * y + x) / 5 == y;
  }

  lemma ColumnMeaning(s: Lanes, t: Table, x: nat)
    requires x < 5
    ensures Column(s, t, x) == Parity(View(s, t), x)
  {
    hide Xor5, View, Lane, At;
    ViewLane(s, t, x, 0);
    ViewLane(s, t, x, 1);
    ViewLane(s, t, x, 2);
    ViewLane(s, t, x, 3);
    ViewLane(s, t, x, 4);
  }

  lemma EffectsMeaning(s: Lanes, t: Table, x: nat)
    requires x < 5
    ensures Effects(s, t)[x] == Effect(View(s, t), x)
  {
    hide Rol, Xor, Column, View, Parity;
    ColumnMeaning(s, t, (x + 4) % 5);
    ColumnMeaning(s, t, (x + 1) % 5);
  }

  /** Lane (x, y) after a whole round. */
  function RoundLane(a: Lanes, rc: bv64, x: nat, y: nat): bv64
    requires x < 5 && y < 5
  {
    if x == 0 && y == 0 then Xor(ChiLane(a, 0, 0), rc) else ChiLane(a, x, y)
  }

  /** The lanes of blocks before y are done, the others are as they were at the start. */
  ghost predicate Progress(s0: Lanes, t: Table, s: Lanes, t': Table, y: nat, rc: bv64) {
    var a := View(s0, t);
    && (forall x, y' :: 0 <= x < 5 && 0 <= y' < 5 && y' < y ==> s[At(t', x, y')] == RoundLane(a, rc, x, y'))
    && (forall x, y' :: 0 <= x < 5 && y <= y' < 5 ==> s[At(t', x, y')] == s0[At(t', x, y')])
  }

  lemma ModFive(j: nat, y: nat)
    requires j < 5 && y < 5
    ensures var x := (j + 5 - (2 * y) % 5) % 5; x < 5 && x == (j + 3 * y) % 5 && (x + 2 * y) % 5 == j
  {
  }

  lemma GatherMeaning(s0: Lanes, t: Table, s: Lanes, t': Table, y: nat, rc: bv64, j: nat)
    requires y < 5 && j < 5 && Follows(t, t') && Progress(s0, t, s, t', y, rc)
    ensures Gather(s, Effects(s0, t), t', y)[j] == RhoPi(View(s0, t), j, y)
  {
    hide Rol, Xor, View, RoundLane, Effects, Effect, Offset, Lane, Rot, First;
    ModFive(j, y);
    var x := (j + 5 - First(y)) % 5;
    EffectsMeaning(s0, t, x);
    ViewLane(s0, t, x, j);
    assert At(t', x, y) == At(t, x, j);
    assert s[At(t', x, y)] == s0[At(t', x, y)];
  }

  lemma BlockAt(s: Lanes, d: Quint, t: Table, y: nat, rc: bv64, x: nat, y': nat)
    requires Apart(t) && x < 5 && y < 5 && y' < 5
    ensures var b, i := Gather(s, d, t, y), At(t, x, y');
      var v := Mix(b[x], b[(x + 1) % 5], b[(x + 2) % 5]);
      Block(s, d, t, y, rc)[i] == if y' != y then s[i] else if x == 0 && y == 0 then Xor(v, rc) else v
  {
    hide Mix, Gather, Xor, Apart;
    var i := At(t, x, y');
    assert i % 5 == x;
    PlacesApart(t, x, y, y');
  }

  lemma PlacesApart(t: Table, x: nat, y: nat, y': nat)
    requires Apart(t) && x < 5 && y < 5 && y' < 5
    ensures At(t, x, y) == At(t, x, y') <==> y == y'
  {
    assert y != y' ==> t[y][x] != t[y'][x];
  }

  lemma BlockProgress(s0: Lanes, t: Table, s: Lanes, t': Table, y: nat, rc: bv64)
    requires y < 5 && Follows(t, t') && Apart(t') && Progress(s0, t, s, t', y, rc)
    ensures Progress(s0, t, Block(s, Effects(s0, t), t', y, rc), t', y + 1, rc)
  {
    hide View, Effects, Gather, RhoPi, Mix, Block, At, Follows, Apart, Xor;
    var b := Gather(s, Effects(s0, t), t', y);
    forall j | 0 <= j < 5 ensures b[j] == RhoPi(View(s0, t), j, y) {
      GatherMeaning(s0, t, s, t', y, rc, j);
    }
    forall x, y' | 0 <= x < 5 && 0 <= y' < 5 {
      BlockAt(s, Effects(s0, t), t', y, rc, x, y');
    }
  }

  function Quarter(s: Lanes, t: Table, t': Table, rc: bv64): Lanes {
    Blocks(s, Effects(s, t), t', 5, rc)
  }

  /** Five blocks in place are one round, after which the lanes are kept according to t'. */
  lemma QuarterIsRound(s: Lanes, t: Table, t': Table, rc: bv64)
    requires Follows(t, t') && Apart(t')
    ensures View(Quarter(s, t, t', rc), t') == Round(View(s, t), rc)
  {
    hide ChiLane, Xor, Effects, Block, Follows, Apart, RoundLane, At, View, Round;
    var d := Effects(s, t);
    for y := 0 to 5
      invariant Progress(s, t, Blocks(s, d, t', y, rc), t', y, rc)
    {
      BlockProgress(s, t, Blocks(s, d, t', y, rc), t', y, rc);
    }
    RoundComplete(s, t, Quarter(s, t, t', rc), t', rc);
  }

  /** When all five blocks are done, so is the round. */
  lemma RoundComplete(s: Lanes, t: Table, r: Lanes, t': Table, rc: bv64)
    requires Progress(s, t, r, t', 5, rc)
    ensures View(r, t') == Round(View(s, t), rc)
  {
    hide ChiLane, Xor;
    var a := View(s, t);
    forall i | 0 <= i < 25 ensures View(r, t')[i] == Round(a, rc)[i] {
      assert r[At(t', i % 5, i / 5)] == RoundLane(a, rc, i % 5, i / 5);
    }
  }

  // ------------------------------------------------------------ the whole permutation

  /** Where the lanes are kept before and after each of the four rounds of an iteration. */
  const HOME: Table := [[0, 0, 0, 0, 0], [1, 1, 1, 1, 1], [2, 2, 2, 2, 2], [3, 3, 3, 3, 3], [4, 4, 4, 4, 4]]
  const PLACE1: Table := [[0, 1, 2, 3, 4], [2, 3, 4, 0, 1], [4, 0, 1, 2, 3], [1, 2, 3, 4, 0], [3, 4, 0, 1, 2]]
  const PLACE2: Table := [[0, 3, 1, 4, 2], [4, 2, 0, 3, 1], [3, 1, 4, 2, 0], [2, 0, 3, 1, 4], [1, 4, 2, 0, 3]]
  const PLACE3: Table := [[0, 2, 4, 1, 3], [3, 0, 2, 4, 1], [1, 3, 0, 2, 4], [4, 1, 3, 0, 2], [2, 4, 1, 3, 0]]

  /** The rows of column x, for y = 0..4. */
  function InColumn(t: Table, x: nat): seq<nat>
    requires x < 5
  {
    [t[0][x], t[1][x], t[2][x], t[3][x], t[4][x]]
  }

  ghost predicate FollowsIn(c: seq<nat>, c': seq<nat>, x: nat)
    requires |c| == |c'| == 5
  {
    && c'[0] == c[x % 5] && c'[1] == c[(x + 2) % 5] && c'[2] == c[(x + 4) % 5]
    && c'[3] == c[(x + 6) % 5] && c'[4] == c[(x + 8) % 5]
  }

  lemma ColumnsFollow(t: Table, t': Table)
    requires forall x :: 0 <= x < 5 ==> FollowsIn(InColumn(t, x), InColumn(t', x), x)
    ensures Follows(t, t')
  {
    forall x, y | 0 <= x < 5 && 0 <= y < 5 ensures t'[y][x] == t[(x + 2 * y) % 5][x] {
      var c, c' := InColumn(t, x), InColumn(t', x);
      assert FollowsIn(c, c', x);
      assert c'[y] == t'[y][x] && c[(x + 2 * y) % 5] == t[(x + 2 * y) % 5][x];
      assert y == 0 || y == 1 || y == 2 || y == 3 || y == 4;
    }
  }

  ghost predicate Distinct(c: seq<nat>) {
    forall i, j :: 0 <= i < j < |c| ==> c[i] != c[j]
  }

  lemma ColumnsApart(t: Table)
    requires forall x :: 0 <= x < 5 ==> Distinct(InColumn(t, x))
    ensures Apart(t)
  {
    forall x, y, y' | 0 <= x < 5 && 0 <= y < 5 && 0 <= y' < 5 && y != y' ensures t[y][x] != t[y'][x] {
      var c := InColumn(t, x);
      assert Distinct(c);
      assert c[y] == t[y][x] && c[y'] == t[y'][x];
    }
  }

  lemma Columns(t: Table, c0: seq<nat>, c1: seq<nat>, c2: seq<nat>, c3: seq<nat>, c4: seq<nat>)
    requires InColumn(t, 0) == c0 && InColumn(t, 1) == c1 && InColumn(t, 2) == c2 && InColumn(t, 3) == c3
      && InColumn(t, 4) == c4
    requires Distinct(c0) && Distinct(c1) && Distinct(c2) && Distinct(c3) && Distinct(c4)
    ensures Apart(t)
  {
    hide InColumn;
    ColumnsApart(t);
  }

  lemma HomeApart()
    ensures Apart(HOME)
  {
    Columns(HOME, [0, 1, 2, 3, 4], [0, 1, 2, 3, 4], [0, 1, 2, 3, 4], [0, 1, 2, 3, 4], [0, 1, 2, 3, 4]);
  }

  lemma Place1Apart()
    ensures Apart(PLACE1) && Follows(HOME, PLACE1)
  {
    Columns(PLACE1, [0, 2, 4, 1, 3], [1, 3, 0, 2, 4], [2, 4, 1, 3, 0], [3, 0, 2, 4, 1], [4, 1, 3, 0, 2]);
    FiveFollow(HOME, PLACE1);
  }

  lemma Place2Apart()
    ensures Apart(PLACE2) && Follows(PLACE1, PLACE2)
  {
    Columns(PLACE2, [0, 4, 3, 2, 1], [3, 2, 1, 0, 4], [1, 0, 4, 3, 2], [4, 3, 2, 1, 0], [2, 1, 0, 4, 3]);
    FiveFollow(PLACE1, PLACE2);
  }

  lemma Place3Apart()
    ensures Apart(PLACE3) && Follows(PLACE2, PLACE3)
  {
    Columns(PLACE3, [0, 3, 1, 4, 2], [2, 0, 3, 1, 4], [4, 2, 0, 3, 1], [1, 4, 2, 0, 3], [3, 1, 4, 2, 0]);
    FiveFollow(PLACE2, PLACE3);
  }

  lemma Place3Home()
    ensures Follows(PLACE3, HOME)
  {
    FiveFollow(PLACE3, HOME);
  }

  lemma FiveFollow(t: Table, t': Table)
    requires FollowsIn(InColumn(t, 0), InColumn(t', 0), 0) && FollowsIn(InColumn(t, 1), InColumn(t', 1), 1)
    requires FollowsIn(InColumn(t, 2), InColumn(t', 2), 2) && FollowsIn(InColumn(t, 3), InColumn(t', 3), 3)
    requires FollowsIn(InColumn(t, 4), InColumn(t', 4), 4)
    ensures Follows(t, t')
  {
    hide FollowsIn;
    forall x | 0 <= x < 5 ensures FollowsIn(InColumn(t, x), InColumn(t', x), x) {
      assert x == 0 || x == 1 || x == 2 || x == 3 || x == 4;
    }
    ColumnsFollow(t, t');
  }

  /** After four rounds every lane is back where it started. */
  lemma LanesReturn()
    ensures Follows(HOME, PLACE1) && Follows(PLACE1, PLACE2) && Follows(PLACE2, PLACE3) && Follows(PLACE3, HOME)
    ensures Apart(HOME) && Apart(PLACE1) && Apart(PLACE2) && Apart(PLACE3)
  {
    hide Follows, Apart;
    HomeApart();
    Place1Apart();
    Place2Apart();
    Place3Apart();
    Place3Home();
  }

  /** RC[i] */
  function RC(i: nat): bv64
    requires i < 24
  {
    if i < 4 then [0x0000000000000001, 0x0000000000008082, 0x800000000000808a, 0x8000000080008000][i]
    else if i < 8 then [0x000000000000808b, 0x0000000080000001, 0x8000000080008081, 0x8000000000008009][i - 4]
    else if i < 12 then [0x000000000000008a, 0x0000000000000088, 0x0000000080008009, 0x000000008000000a][i - 8]
    else if i < 16 then [0x000000008000808b, 0x800000000000008b, 0x8000000000008089, 0x8000000000008003][i - 12]
    else if i < 20 then [0x8000000000008002, 0x8000000000000080, 0x000000000000800a, 0x800000008000000a][i - 16]
    else [0x8000000080008081, 0x8000000000008080, 0x0000000080000001, 0x8000000080008008][i - 20]
  }

  /** The first n rounds; all 24 are Keccak-f[1600]. */
  function Rounds(a: Lanes, n: nat): Lanes
    requires n <= 24
  {
    if n == 0 then a else Round(Rounds(a, n - 1), RC(n - 1))
  }

  /** Keccak-f[1600] of section 3.4. */
  function KeccakF(a: Lanes): Lanes {
    Rounds(a, 24)
  }

  lemma NoRounds(a: Lanes)
    ensures Rounds(a, 0) == a
  {
  }

  lemma ViewHome(s: Lanes)
    ensures View(s, HOME) == s
  {
    forall i | 0 <= i < 25 ensures View(s, HOME)[i] == s[i] {
      assert HOME[i / 5][i % 5] == i / 5;
    }
  }

  /** One iteration of the loop: four rounds, with every lane back in its place. */
  lemma FourRounds(s: Lanes, r0: bv64, r1: bv64, r2: bv64, r3: bv64)
    ensures Quarter(Quarter(Quarter(Quarter(s, HOME, PLACE1, r0), PLACE1, PLACE2, r1), PLACE2, PLACE3, r2),
                    PLACE3, HOME, r3)
         == Round(Round(Round(Round(s, r0), r1), r2), r3)
  {
    hide Round, View, Quarter, Follows, Apart;
    LanesReturn();
    var s1 := Quarter(s, HOME, PLACE1, r0);
    var s2 := Quarter(s1, PLACE1, PLACE2, r1);
    var s3 := Quarter(s2, PLACE2, PLACE3, r2);
    var s4 := Quarter(s3, PLACE3, HOME, r3);
    QuarterIsRound(s, HOME, PLACE1, r0);
    QuarterIsRound(s1, PLACE1, PLACE2, r1);
    QuarterIsRound(s2, PLACE2, PLACE3, r2);
    QuarterIsRound(s3, PLACE3, HOME, r3);
    ViewHome(s);
    ViewHome(s4);
  }

  lemma RoundsStep(a: Lanes, i: nat)
    requires i + 4 <= 24
    ensures Rounds(a, i + 4) == Round(Round(Round(Round(Rounds(a, i), RC(i)), RC(i + 1)), RC(i + 2)), RC(i + 3))
  {
    hide Round, RC;
    assert Rounds(a, i + 2) == Round(Round(Rounds(a, i), RC(i)), RC(i + 1));
  }

  /** One round of the code: D from the lanes where they are, then five blocks in place. */
  method QuarterInPlace(a: array<bv64>, t: Table, t': Table, rc: bv64)
    requires a.Length == 25
    modifies a
    ensures a[..] == Quarter(old(a[..]), t, t', rc)
  {
    hide Effects, Block, Gather;
    ghost var s := a[..];
    var d := Effects(a[..], t);
    for y := 0 to 5
      invariant a[..] == Blocks(s, d, t', y, rc)
    {
      BlockInPlace(a, d, t', y, rc);
    }
  }

  function Cell(r: nat, x: nat): (i: nat)
    requires r < 5 && x < 5
    ensures i < 25
  {
    5 * r + x
  }

  lemma CellOf(i: nat)
    requires i < 25
    ensures i == Cell(i / 5, i % 5)
  {
  }

  lemma CellUnique(r: nat, x: nat, r': nat, x': nat)
    requires r < 5 && x < 5 && r' < 5 && x' < 5
    ensures Cell(r, x) == Cell(r', x') <==> r == r' && x == x'
  {
  }

  /** What block y stores in row r of column x. */
  lemma BlockCell(s: Lanes, d: Quint, t: Table, y: nat, rc: bv64, r: nat, x: nat)
    requires r < 5 && x < 5 && y < 5
    ensures var b := Gather(s, d, t, y);
      var v := Mix(b[x], b[(x + 1) % 5], b[(x + 2) % 5]);
      Block(s, d, t, y, rc)[Cell(r, x)] ==
        if r != t[y][x] then s[Cell(r, x)] else if x == 0 && y == 0 then Xor(v, rc) else v
  {
    hide Mix, Gather, Xor;
    assert Cell(r, x) % 5 == x;
  }

  method BlockInPlace(a: array<bv64>, d: Quint, t: Table, y: nat, rc: bv64)
    requires a.Length == 25 && y < 5
    modifies a
    ensures a[..] == Block(old(a[..]), d, t, y, rc)
  {
    hide Mix, Gather, Xor, Block, Cell;
    ghost var s := a[..];
    ghost var goal := Block(s, d, t, y, rc);
    var b := Gather(a[..], d, t, y);
    for x := 0 to 5
      invariant forall r, x' :: 0 <= r < 5 && 0 <= x' < x ==> a[Cell(r, x')] == goal[Cell(r, x')]
      invariant forall r, x' :: 0 <= r < 5 && x <= x' < 5 ==> a[Cell(r, x')] == s[Cell(r, x')]
    {
      var v := Mix(b[x], b[(x + 1) % 5], b[(x + 2) % 5]);
      forall r | 0 <= r < 5 { BlockCell(s, d, t, y, rc, r, x); }
      forall r, x' | 0 <= r < 5 && 0 <= x' < 5 { CellUnique(r, x', t[y][x], x); }
      a[Cell(t[y][x], x)] := if x == 0 && y == 0 then Xor(v, rc) else v;
    }
    forall i | 0 <= i < 25 ensures a[i] == goal[i] {
      CellOf(i);
    }
  }

  /** KeccakF1600Step: the in-place loop of six iterations computes Keccak-f[1600]. */
  method KeccakF1600Step(a: array<bv64>)
    requires a.Length == 25
    modifies a
    ensures a[..] == KeccakF(old(a[..]))
  {
    hide Round, Quarter, Rounds, RC;
    ghost var s := a[..];
    NoRounds(s);
    var i := 0;
    ghost var k := 0;
    while i < 24
      invariant i == 4 * k && 0 <= k <= 6
      invariant a[..] == Rounds(s, i)
    {
      FourRounds(a[..], RC(i), RC(i + 1), RC(i + 2), RC(i + 3));
      RoundsStep(s, i);
      QuarterInPlace(a, HOME, PLACE1, RC(i));
      QuarterInPlace(a, PLACE1, PLACE2, RC(i + 1));
      QuarterInPlace(a, PLACE2, PLACE3, RC(i + 2));
      QuarterInPlace(a, PLACE3, HOME, RC(i + 3));
      i, k := i + 4, k + 1;
    }
  }
}
