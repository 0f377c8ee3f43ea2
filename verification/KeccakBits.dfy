/**
 The round of Keccak-f[1600] bit by bit: the five step mappings of section 3.2
 of FIPS 202 on a state array of 5 by 5 by 64 booleans, and the proof that every
 bit of a round on lanes is what they make it.
 */
module KeccakBits {
  import opened LaneBits
  import opened Keccak
  import opened KeccakConstants

  // ------------------------------------------------- the step mappings, section 3.2

  /** A state array: A[x, y, z] is element (x, y, z). */
  type Cube = (nat, nat, nat) -> bool

  function ColumnSum(a: Cube, x: nat, z: nat): bool {
    a(x, 0, z) != (a(x, 1, z) != (a(x, 2, z) != (a(x, 3, z) != a(x, 4, z))))
  }

  /** Section 3.2.1: every bit is added to the parities of two columns. */
  function Theta(a: Cube): Cube {
    (x: nat, y: nat, z: nat) => a(x, y, z) != (ColumnSum(a, (x + 4) % 5, z) != ColumnSum(a, (x + 1) % 5, (z + 63) % 64))
  }

  /** Section 3.2.2: each lane but (0, 0) is turned by the amount that belongs to its place on the walk. */
  function Rho(a: Cube): Cube {
    (x: nat, y: nat, z: nat) => a(x, y, (z + (64 - WalkAmount(x, y))) % 64)
  }

  /** Algorithm 2: lane t of the walk is turned by (t+1)(t+2)/2. */
  function WalkAmount(x: nat, y: nat): (r: nat)
    ensures r < 64
  {
    if x < 5 && y < 5 && (x, y) != (0, 0) then var t := When(x, y); ((t + 1) * (t + 2) / 2) % 64 else 0
  }

  /** Section 3.2.3: the lanes change places. */
  function Pi(a: Cube): Cube {
    (x: nat, y: nat, z: nat) => a(PiFrom(x, y), x, z)
  }

  function PiFrom(x: nat, y: nat): nat { (x + 3 * y) % 5 }

  /** Section 3.2.4: the only step that is not linear. */
  function Chi(a: Cube): Cube {
    (x: nat, y: nat, z: nat) => a(x, y, z) != (!a((x + 1) % 5, y, z) && a((x + 2) % 5, y, z))
  }

  /** Section 3.2.5: the bits of a round constant are added to lane (0, 0). */
  function Iota(a: Cube, rc: nat -> bool): Cube {
    (x: nat, y: nat, z: nat) => a(x, y, z) != (x == 0 && y == 0 && rc(z))
  }

  /** Section 3.3 */
  function Rnd(a: Cube, rc: nat -> bool): Cube {
    Iota(Chi(Pi(Rho(Theta(a)))), rc)
  }

  // ------------------------------------------------------------------ a round, bit by bit

  function CubeOf(a: Lanes): Cube {
    (x: nat, y: nat, z: nat) => x < 5 && y < 5 && BitOf(Lane(a, x, y), z)
  }

  function BitsOf(w: bv64): nat -> bool { (z: nat) => BitOf(w, z) }

  lemma CubeBit(a: Lanes, x: nat, y: nat, z: nat)
    requires x < 5 && y < 5
    ensures CubeOf(a)(x, y, z) <==> BitOf(Lane(a, x, y), z)
  {
    hide BitOf, Lane;
  }

  lemma ParityBit(a: Lanes, x: nat, z: nat)
    requires x < 5 && z < 64
    ensures BitOf(Parity(a, x), z) <==> ColumnSum(CubeOf(a), x, z)
  {
    hide BitOf, Lane, Xor5, CubeOf;
    CubeBit(a, x, 0, z);
    CubeBit(a, x, 1, z);
    CubeBit(a, x, 2, z);
    CubeBit(a, x, 3, z);
    CubeBit(a, x, 4, z);
    BitXor5(Lane(a, x, 0), Lane(a, x, 1), Lane(a, x, 2), Lane(a, x, 3), Lane(a, x, 4), z);
  }

  lemma EffectBit(a: Lanes, x: nat, z: nat)
    requires x < 5 && z < 64
    ensures BitOf(Effect(a, x), z)
       <==> (ColumnSum(CubeOf(a), (x + 4) % 5, z) != ColumnSum(CubeOf(a), (x + 1) % 5, (z + 63) % 64))
  {
    hide BitOf, Parity, Rol, Xor, ColumnSum, CubeOf;
    ParityBit(a, (x + 4) % 5, z);
    ParityBit(a, (x + 1) % 5, (z + 63) % 64);
    BitRol(Parity(a, (x + 1) % 5), 1, z);
    BitXor(Parity(a, (x + 4) % 5), Rol(Parity(a, (x + 1) % 5), 1), z);
  }

  /** Theta adds to every bit the ten bits of two columns. */
  lemma ThetaBit(a: Lanes, x: nat, y: nat, z: nat)
    requires x < 5 && y < 5 && z < 64
    ensures BitOf(Xor(Lane(a, x, y), Effect(a, x)), z) <==> Theta(CubeOf(a))(x, y, z)
  {
    hide BitOf, Effect, Xor, ColumnSum, Lane, CubeOf;
    CubeBit(a, x, y, z);
    EffectBit(a, x, z);
    BitXor(Lane(a, x, y), Effect(a, x), z);
  }

  lemma AmountIsOffset(x: nat, y: nat)
    requires x < 5 && y < 5
    ensures WalkAmount(x, y) == Offset(x, y)
  {
    hide Offset, When, Walk;
    AllOffsetsAreStandard(x, y);
  }

  lemma RhoAt(c: Cube, x: nat, y: nat, z: nat)
    ensures Rho(c)(x, y, z) <==> c(x, y, (z + (64 - WalkAmount(x, y))) % 64)
  {
    hide WalkAmount;
  }

  lemma PiAt(c: Cube, x: nat, y: nat, z: nat)
    ensures Pi(c)(x, y, z) <==> c(PiFrom(x, y), x, z)
  {
    hide PiFrom;
  }

  lemma RhoPiBit(a: Lanes, x: nat, y: nat, z: nat)
    requires x < 5 && y < 5 && z < 64
    ensures BitOf(RhoPi(a, x, y), z) <==> Pi(Rho(Theta(CubeOf(a))))(x, y, z)
  {
    hide BitOf, Effect, Xor, Lane, Rol, CubeOf, Theta, Offset, WalkAmount, Pi, Rho;
    var x' := (x + 3 * y) % 5;
    var n := Offset(x', x);
    AmountIsOffset(x', x);
    RhoAt(Theta(CubeOf(a)), x', x, z);
    PiAt(Rho(Theta(CubeOf(a))), x, y, z);
    ThetaBit(a, x', x, (z + (64 - n)) % 64);
    BitRol(Xor(Lane(a, x', x), Effect(a, x')), n, z);
  }

  lemma ChiBit(a: Lanes, x: nat, y: nat, z: nat)
    requires x < 5 && y < 5 && z < 64
    ensures BitOf(ChiLane(a, x, y), z) <==> Chi(Pi(Rho(Theta(CubeOf(a)))))(x, y, z)
  {
    hide BitOf, Mix, RhoPi, CubeOf, Theta, Rho, Pi;
    RhoPiBit(a, x, y, z);
    RhoPiBit(a, (x + 1) % 5, y, z);
    RhoPiBit(a, (x + 2) % 5, y, z);
    BitMix(RhoPi(a, x, y), RhoPi(a, (x + 1) % 5, y), RhoPi(a, (x + 2) % 5, y), z);
  }

  /** Every bit of a round on lanes is the one that the five step mappings give. */
  lemma RoundBit(a: Lanes, rc: bv64, x: nat, y: nat, z: nat)
    requires x < 5 && y < 5 && z < 64
    ensures BitOf(Lane(Round(a, rc), x, y), z) <==> Rnd(CubeOf(a), BitsOf(rc))(x, y, z)
  {
    hide BitOf, ChiLane, CubeOf, Theta, Rho, Pi, Chi, Xor;
    ChiBit(a, x, y, z);
    assert (5 * y + x) % 5 == x && (5 * y + x) / 5 == y;
    if x == 0 && y == 0 {
      BitXor(ChiLane(a, 0, 0), rc, z);
    }
  }

  // --------------------------------------------------- the bits of a round constant

  /** One step of Algorithm 5 on the register R. */
  function Fed(r: seq<bool>): seq<bool>
    requires |r| == 8
  {
    [r[7], r[0], r[1], r[2], r[3] != r[7], r[4] != r[7], r[5] != r[7], r[6]]
  }

  /** The register of Algorithm 5 after t steps. */
  function Feedback(t: nat): (r: seq<bool>)
    ensures |r| == 8
  {
    if t == 0 then [true, false, false, false, false, false, false, false] else Fed(Feedback(t - 1))
  }

  function Rc(t: nat): bool { Feedback(t)[0] }

  /** Algorithm 6: bit 2^j - 1 of the constant of round i is rc(j + 7i), for j = 0..6, and all others are 0. */
  function RcBits(i: nat): nat -> bool {
    (z: nat) =>
      (z == 0 && Rc(7 * i)) || (z == 1 && Rc(7 * i + 1)) || (z == 3 && Rc(7 * i + 2)) || (z == 7 && Rc(7 * i + 3))
      || (z == 15 && Rc(7 * i + 4)) || (z == 31 && Rc(7 * i + 5)) || (z == 63 && Rc(7 * i + 6))
  }

  function ByteBits(r: bv8): (b: seq<bool>)
    ensures |b| == 8
  {
    [r & 1 != 0, r & 2 != 0, r & 4 != 0, r & 8 != 0, r & 16 != 0, r & 32 != 0, r & 64 != 0, r & 128 != 0]
  }

  lemma ShiftLow(r: bv8)
    ensures (Shift(r) & 1 != 0 <==> r & 128 != 0) && (Shift(r) & 2 != 0 <==> r & 1 != 0)
    ensures (Shift(r) & 4 != 0 <==> r & 2 != 0) && (Shift(r) & 8 != 0 <==> r & 4 != 0)
  {
  }

  lemma ShiftHigh(r: bv8)
    ensures Shift(r) & 16 != 0 <==> (r & 8 != 0) != (r & 128 != 0)
    ensures Shift(r) & 32 != 0 <==> (r & 16 != 0) != (r & 128 != 0)
    ensures Shift(r) & 64 != 0 <==> (r & 32 != 0) != (r & 128 != 0)
    ensures Shift(r) & 128 != 0 <==> r & 64 != 0
  {
  }

  lemma ShiftIsFed(r: bv8)
    ensures ByteBits(Shift(r)) == Fed(ByteBits(r))
  {
    hide Shift;
    ShiftLow(r);
    ShiftHigh(r);
  }

  lemma ShiftBits(r: bv8, t: nat)
    requires ByteBits(r) == Feedback(t)
    ensures ByteBits(Shift(r)) == Feedback(t + 1)
  {
    ShiftIsFed(r);
    hide ByteBits, Shift, Fed;
  }

  /** The registers of seven successive steps. */
  lemma SevenBits(r: bv8, t: nat)
    requires ByteBits(r) == Feedback(t)
    ensures var r1 := Shift(r); var r2 := Shift(r1); var r3 := Shift(r2);
      var r4 := Shift(r3); var r5 := Shift(r4); var r6 := Shift(r5);
      && ByteBits(r1) == Feedback(t + 1) && ByteBits(r2) == Feedback(t + 2) && ByteBits(r3) == Feedback(t + 3)
      && ByteBits(r4) == Feedback(t + 4) && ByteBits(r5) == Feedback(t + 5) && ByteBits(r6) == Feedback(t + 6)
      && ByteBits(SevenShifts(r)) == Feedback(t + 7)
  {
    hide ByteBits, Shift, Feedback;
    var r1 := Shift(r); var r2 := Shift(r1); var r3 := Shift(r2);
    var r4 := Shift(r3); var r5 := Shift(r4); var r6 := Shift(r5);
    ShiftBits(r, t);
    ShiftBits(r1, t + 1);
    ShiftBits(r2, t + 2);
    ShiftBits(r3, t + 3);
    ShiftBits(r4, t + 4);
    ShiftBits(r5, t + 5);
    ShiftBits(r6, t + 6);
  }

  lemma {:induction false} RegisterBits(i: nat)
    ensures ByteBits(Register(i)) == Feedback(7 * i)
  {
    if i > 0 {
      RegisterBits(i - 1);
      SevenBits(Register(i - 1), 7 * (i - 1));
      hide ByteBits, SevenShifts, Feedback;
    }
  }

  lemma MaskedBit(r: bv8, m: bv64, z: nat)
    ensures BitOf(Bit(r, m), z) <==> ByteBits(r)[0] && BitOf(m, z)
  {
    BitZero(z);
    hide BitOf;
  }

  lemma SmallMasks()
    ensures Down(0x1, 8) == 0 && Down(0x2, 8) == 0 && Down(0x8, 8) == 0
    ensures BitOf(0x1, 0) && !BitOf(0x1, 1) && !BitOf(0x1, 2) && !BitOf(0x1, 3)
    ensures !BitOf(0x1, 4) && !BitOf(0x1, 5) && !BitOf(0x1, 6) && !BitOf(0x1, 7)
    ensures !BitOf(0x2, 0) && BitOf(0x2, 1) && !BitOf(0x2, 2) && !BitOf(0x2, 3)
    ensures !BitOf(0x2, 4) && !BitOf(0x2, 5) && !BitOf(0x2, 6) && !BitOf(0x2, 7)
    ensures !BitOf(0x8, 0) && !BitOf(0x8, 1) && !BitOf(0x8, 2) && BitOf(0x8, 3)
    ensures !BitOf(0x8, 4) && !BitOf(0x8, 5) && !BitOf(0x8, 6) && !BitOf(0x8, 7)
  {
  }

  lemma SmallMaskBits(z: nat)
    ensures (BitOf(0x1, z) <==> z == 0) && (BitOf(0x2, z) <==> z == 1) && (BitOf(0x8, z) <==> z == 3)
  {
    SmallMasks();
    hide BitOf, Down;
    if z < 8 {
      assert z == 0 || z == 1 || z == 2 || z == 3 || z == 4 || z == 5 || z == 6 || z == 7;
    } else {
      BitDown(0x1, 8, z - 8);
      BitDown(0x2, 8, z - 8);
      BitDown(0x8, 8, z - 8);
      BitZero(z - 8);
    }
  }

  lemma LargeMaskBits(z: nat)
    ensures (BitOf(0x80, z) <==> z == 7) && (BitOf(0x8000, z) <==> z == 15)
    ensures (BitOf(0x8000_0000, z) <==> z == 31) && (BitOf(0x8000_0000_0000_0000, z) <==> z == 63)
  {
    hide BitOf;
    BitEnd(0, z);
    BitEnd(1, z);
    BitEnd(3, z);
    BitEnd(7, z);
  }

  lemma Bars(a: bv64, b: bv64, c: bv64, d: bv64, e: bv64, f: bv64, g: bv64)
    ensures a | b | c | d | e | f | g == Or(Or(Or(Or(Or(Or(a, b), c), d), e), f), g)
  {
  }

  lemma BitOr7(a: bv64, b: bv64, c: bv64, d: bv64, e: bv64, f: bv64, g: bv64, z: nat)
    ensures BitOf(Or(Or(Or(Or(Or(Or(a, b), c), d), e), f), g), z) <==>
      BitOf(a, z) || BitOf(b, z) || BitOf(c, z) || BitOf(d, z) || BitOf(e, z) || BitOf(f, z) || BitOf(g, z)
  {
    hide BitOf, Or;
    BitOr(a, b, z);
    BitOr(Or(a, b), c, z);
    BitOr(Or(Or(a, b), c), d, z);
    BitOr(Or(Or(Or(a, b), c), d), e, z);
    BitOr(Or(Or(Or(Or(a, b), c), d), e), f, z);
    BitOr(Or(Or(Or(Or(Or(a, b), c), d), e), f), g, z);
  }

  lemma ConstantIsOr(r: bv8)
    ensures var r1 := Shift(r); var r2 := Shift(r1); var r3 := Shift(r2);
      var r4 := Shift(r3); var r5 := Shift(r4); var r6 := Shift(r5);
      Constant(r) == Or(Or(Or(Or(Or(Or(Bit(r, 0x1), Bit(r1, 0x2)), Bit(r2, 0x8)), Bit(r3, 0x80)),
                               Bit(r4, 0x8000)), Bit(r5, 0x8000_0000)), Bit(r6, 0x8000_0000_0000_0000))
  {
    hide Bit, Shift, Or;
    var r1 := Shift(r); var r2 := Shift(r1); var r3 := Shift(r2);
    var r4 := Shift(r3); var r5 := Shift(r4); var r6 := Shift(r5);
    Bars(Bit(r, 0x1), Bit(r1, 0x2), Bit(r2, 0x8), Bit(r3, 0x80), Bit(r4, 0x8000), Bit(r5, 0x8000_0000),
         Bit(r6, 0x8000_0000_0000_0000));
  }

  /** Where the bits of a round constant are. */
  lemma ConstantBit(r: bv8, z: nat)
    ensures var r1 := Shift(r); var r2 := Shift(r1); var r3 := Shift(r2);
      var r4 := Shift(r3); var r5 := Shift(r4); var r6 := Shift(r5);
      BitOf(Constant(r), z) <==>
        (z == 0 && ByteBits(r)[0]) || (z == 1 && ByteBits(r1)[0]) || (z == 3 && ByteBits(r2)[0])
        || (z == 7 && ByteBits(r3)[0]) || (z == 15 && ByteBits(r4)[0]) || (z == 31 && ByteBits(r5)[0])
        || (z == 63 && ByteBits(r6)[0])
  {
    hide BitOf, Bit, Shift, ByteBits, Or, Constant;
    var r1 := Shift(r); var r2 := Shift(r1); var r3 := Shift(r2);
    var r4 := Shift(r3); var r5 := Shift(r4); var r6 := Shift(r5);
    SmallMaskBits(z);
    LargeMaskBits(z);
    MaskedBit(r, 0x1, z);
    MaskedBit(r1, 0x2, z);
    MaskedBit(r2, 0x8, z);
    MaskedBit(r3, 0x80, z);
    MaskedBit(r4, 0x8000, z);
    MaskedBit(r5, 0x8000_0000, z);
    MaskedBit(r6, 0x8000_0000_0000_0000, z);
    ConstantIsOr(r);
    BitOr7(Bit(r, 0x1), Bit(r1, 0x2), Bit(r2, 0x8), Bit(r3, 0x80), Bit(r4, 0x8000), Bit(r5, 0x8000_0000),
           Bit(r6, 0x8000_0000_0000_0000), z);
  }

  lemma RcBitsAt(i: nat, z: nat)
    ensures RcBits(i)(z) <==>
      (z == 0 && Rc(7 * i)) || (z == 1 && Rc(7 * i + 1)) || (z == 3 && Rc(7 * i + 2)) || (z == 7 && Rc(7 * i + 3))
      || (z == 15 && Rc(7 * i + 4)) || (z == 31 && Rc(7 * i + 5)) || (z == 63 && Rc(7 * i + 6))
  {
    hide Rc;
  }

  lemma ConstantRcBit(i: nat, z: nat)
    ensures BitOf(Constant(Register(i)), z) <==> RcBits(i)(z)
  {
    hide BitOf, Constant, ByteBits, Shift, Register, SevenShifts, Feedback, RcBits;
    RegisterBits(i);
    SevenBits(Register(i), 7 * i);
    ConstantBit(Register(i), z);
    RcBitsAt(i, z);
  }

  /** The round constants of the code are, bit by bit, those of Algorithms 5 and 6. */
  lemma RoundConstantBits(i: nat, z: nat)
    requires i < 24
    ensures BitOf(RC(i), z) <==> RcBits(i)(z)
  {
    RoundConstantsAreStandard(i);
    hide BitOf, Constant, RC, Register, RcBits;
    ConstantRcBit(i, z);
  }

  // ------------------------------------------------------- the whole permutation, bit by bit

  /** Sections 3.3 and 3.4: the first n rounds on a state array. */
  function CubeRounds(c: Cube, n: nat): Cube {
    if n == 0 then c else Rnd(CubeRounds(c, n - 1), RcBits(n - 1))
  }

  ghost predicate Agree(c: Cube, c': Cube) {
    forall x: nat, y: nat, z: nat :: x < 5 && y < 5 && z < 64 ==> c(x, y, z) == c'(x, y, z)
  }

  ghost predicate AgreeOn(r: nat -> bool, r': nat -> bool) {
    forall z: nat :: z < 64 ==> r(z) == r'(z)
  }

  lemma SumAgrees(c: Cube, c': Cube, x: nat, z: nat)
    requires Agree(c, c') && x < 5 && z < 64
    ensures ColumnSum(c, x, z) == ColumnSum(c', x, z)
  {
  }

  lemma ThetaAgrees(c: Cube, c': Cube)
    requires Agree(c, c')
    ensures Agree(Theta(c), Theta(c'))
  {
    forall x: nat, y: nat, z: nat | x < 5 && y < 5 && z < 64 ensures Theta(c)(x, y, z) == Theta(c')(x, y, z) {
      SumAgrees(c, c', (x + 4) % 5, z);
      SumAgrees(c, c', (x + 1) % 5, (z + 63) % 64);
      hide ColumnSum;
    }
  }

  lemma RhoPiAgree(c: Cube, c': Cube)
    requires Agree(c, c')
    ensures Agree(Pi(Rho(c)), Pi(Rho(c')))
  {
    forall x: nat, y: nat, z: nat | x < 5 && y < 5 && z < 64
      ensures Pi(Rho(c))(x, y, z) == Pi(Rho(c'))(x, y, z)
    {
      PiAt(Rho(c), x, y, z);
      PiAt(Rho(c'), x, y, z);
      assert PiFrom(x, y) < 5;
      hide Pi, PiFrom, Rho, WalkAmount;
      RhoAt(c, PiFrom(x, y), x, z);
      RhoAt(c', PiFrom(x, y), x, z);
    }
  }

  lemma ChiIotaAgree(c: Cube, c': Cube, r: nat -> bool, r': nat -> bool)
    requires Agree(c, c') && AgreeOn(r, r')
    ensures Agree(Iota(Chi(c), r), Iota(Chi(c'), r'))
  {
  }

  lemma RndAgrees(c: Cube, c': Cube, r: nat -> bool, r': nat -> bool)
    requires Agree(c, c') && AgreeOn(r, r')
    ensures Agree(Rnd(c, r), Rnd(c', r'))
  {
    hide Agree, AgreeOn, Theta, Rho, Pi, Chi, Iota;
    ThetaAgrees(c, c');
    RhoPiAgree(Theta(c), Theta(c'));
    ChiIotaAgree(Pi(Rho(Theta(c))), Pi(Rho(Theta(c'))), r, r');
  }

  lemma OneRound(a: Lanes, rc: bv64)
    ensures Agree(CubeOf(Round(a, rc)), Rnd(CubeOf(a), BitsOf(rc)))
  {
    hide Rnd, Round, BitOf, Lane;
    forall x: nat, y: nat, z: nat | x < 5 && y < 5 && z < 64
      ensures CubeOf(Round(a, rc))(x, y, z) == Rnd(CubeOf(a), BitsOf(rc))(x, y, z)
    {
      RoundBit(a, rc, x, y, z);
      CubeBit(Round(a, rc), x, y, z);
    }
  }

  lemma ConstantAgrees(i: nat)
    requires i < 24
    ensures AgreeOn(BitsOf(RC(i)), RcBits(i))
  {
    forall z: nat | z < 64 ensures BitsOf(RC(i))(z) == RcBits(i)(z) {
      RoundConstantBits(i, z);
    }
  }

  lemma AgreeTransitive(a: Cube, b: Cube, c: Cube)
    requires Agree(a, b) && Agree(b, c)
    ensures Agree(a, c)
  {
  }

  /** The rounds on lanes are, bit by bit, the rounds on state arrays. */
  lemma {:induction false} RoundsBits(a: Lanes, n: nat)
    requires n <= 24
    ensures Agree(CubeOf(Rounds(a, n)), CubeRounds(CubeOf(a), n))
  {
    hide Agree, CubeOf, Round, Rnd, RC, RcBits, BitsOf, AgreeOn;
    if n == 0 {
      AgreeItself(CubeOf(a));
    } else {
      var b := Rounds(a, n - 1);
      RoundsBits(a, n - 1);
      OneRound(b, RC(n - 1));
      ConstantAgrees(n - 1);
      RndAgrees(CubeOf(b), CubeRounds(CubeOf(a), n - 1), BitsOf(RC(n - 1)), RcBits(n - 1));
      AgreeTransitive(CubeOf(Rounds(a, n)), Rnd(CubeOf(b), BitsOf(RC(n - 1))), CubeRounds(CubeOf(a), n));
    }
  }

  lemma AgreeItself(c: Cube)
    ensures Agree(c, c)
  {
  }

  /** Keccak-f[1600] on lanes is Keccak-f[1600] on state arrays. */
  lemma KeccakBitByBit(a: Lanes, x: nat, y: nat, z: nat)
    requires x < 5 && y < 5 && z < 64
    ensures BitOf(Lane(KeccakF(a), x, y), z) <==> CubeRounds(CubeOf(a), 24)(x, y, z)
  {
    hide Rounds, CubeRounds, Lane, BitOf;
    RoundsBits(a, 24);
    CubeBit(KeccakF(a), x, y, z);
  }
}
