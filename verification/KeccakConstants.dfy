/**
 The rotation amounts and round constants of the code are those that FIPS 202
 derives from its own algorithms (Algorithms 2, 5 and 6).
 */
module KeccakConstants {
  import opened Keccak

  // -------------------------------------------------- rotation amounts, Algorithm 2

  /** The t-th lane visited: (1, 0), then (x, y) goes to (y, 2x + 3y). */
  function Walk(t: nat): (p: (nat, nat))
    ensures p.0 < 5 && p.1 < 5
  {
    if t == 0 then (1, 0) else var p := Walk(t - 1); (p.1, (2 * p.0 + 3 * p.1) % 5)
  }

  /** Lane t of the walk is rotated by (t+1)(t+2)/2. */
  ghost predicate StandardOffset(t: nat) {
    Offset(Walk(t).0, Walk(t).1) == ((t + 1) * (t + 2) / 2) % 64
  }

  lemma Visit(t: nat, x: nat, y: nat, n: nat)
    requires x < 5 && y < 5 && Walk(t) == (x, y) && Offset(x, y) == n % 64 && n == (t + 1) * (t + 2) / 2
    ensures StandardOffset(t) && Walk(t + 1) == (y, (2 * x + 3 * y) % 5)
  {
  }

  lemma Start()
    ensures Walk(0) == (1, 0) && Register(0) == 1
  {
  }

  lemma Visits0()
    ensures Walk(8) == (1, 3)
    ensures Walk(0) == (1, 0) && Walk(1) == (0, 2) && Walk(2) == (2, 1) && Walk(3) == (1, 2)
    ensures Walk(4) == (2, 3) && Walk(5) == (3, 3) && Walk(6) == (3, 0) && Walk(7) == (0, 1)
    ensures StandardOffset(0) && StandardOffset(1) && StandardOffset(2) && StandardOffset(3)
    ensures StandardOffset(4) && StandardOffset(5) && StandardOffset(6) && StandardOffset(7)
  {
    Start();
    hide Walk, StandardOffset;
    Visit(0, 1, 0, 1);
    Visit(1, 0, 2, 3);
    Visit(2, 2, 1, 6);
    Visit(3, 1, 2, 10);
    Visit(4, 2, 3, 15);
    Visit(5, 3, 3, 21);
    Visit(6, 3, 0, 28);
    Visit(7, 0, 1, 36);
  }

  lemma Visits1()
    requires Walk(8) == (1, 3)
    ensures Walk(16) == (3, 2)
    ensures Walk(8) == (1, 3) && Walk(9) == (3, 1) && Walk(10) == (1, 4) && Walk(11) == (4, 4)
    ensures Walk(12) == (4, 0) && Walk(13) == (0, 3) && Walk(14) == (3, 4) && Walk(15) == (4, 3)
    ensures StandardOffset(8) && StandardOffset(9) && StandardOffset(10) && StandardOffset(11)
    ensures StandardOffset(12) && StandardOffset(13) && StandardOffset(14) && StandardOffset(15)
  {
    hide Walk, StandardOffset;
    Visit(8, 1, 3, 45);
    Visit(9, 3, 1, 55);
    Visit(10, 1, 4, 66);
    Visit(11, 4, 4, 78);
    Visit(12, 4, 0, 91);
    Visit(13, 0, 3, 105);
    Visit(14, 3, 4, 120);
    Visit(15, 4, 3, 136);
  }

  lemma Visits2()
    requires Walk(16) == (3, 2)
    ensures Walk(24) == (1, 0)
    ensures Walk(16) == (3, 2) && Walk(17) == (2, 2) && Walk(18) == (2, 0) && Walk(19) == (0, 4)
    ensures Walk(20) == (4, 2) && Walk(21) == (2, 4) && Walk(22) == (4, 1) && Walk(23) == (1, 1)
    ensures StandardOffset(16) && StandardOffset(17) && StandardOffset(18) && StandardOffset(19)
    ensures StandardOffset(20) && StandardOffset(21) && StandardOffset(22) && StandardOffset(23)
  {
    hide Walk, StandardOffset;
    Visit(16, 3, 2, 153);
    Visit(17, 2, 2, 171);
    Visit(18, 2, 0, 190);
    Visit(19, 0, 4, 210);
    Visit(20, 4, 2, 231);
    Visit(21, 2, 4, 253);
    Visit(22, 4, 1, 276);
    Visit(23, 1, 1, 300);
  }

  lemma OffsetsAreStandard(t: nat)
    requires t < 24
    ensures StandardOffset(t)
    ensures Offset(0, 0) == 0
  {
    hide StandardOffset, Walk;
    Visits0();
    Visits1();
    Visits2();
  }

  /** The step at which the walk comes to lane (x, y). */
  function When(x: nat, y: nat): (t: nat)
    requires x < 5 && y < 5 && (x, y) != (0, 0)
    ensures t < 24
  {
    if y == 0 then [0, 0, 18, 6, 12][x]
    else if y == 1 then [7, 23, 2, 9, 22][x]
    else if y == 2 then [1, 3, 17, 16, 20][x]
    else if y == 3 then [13, 8, 4, 5, 15][x]
    else [19, 10, 21, 14, 11][x]
  }

  /** The walk visits every lane but (0, 0). */
  lemma WalkVisits(x: nat, y: nat)
    requires x < 5 && y < 5 && (x, y) != (0, 0)
    ensures Walk(When(x, y)) == (x, y)
  {
    hide Walk, StandardOffset;
    Visits0();
    Visits1();
    Visits2();
    assert x == 0 || x == 1 || x == 2 || x == 3 || x == 4;
    assert y == 0 || y == 1 || y == 2 || y == 3 || y == 4;
  }

  /** Every lane is rotated by the amount that the walk assigns to it, and lane (0, 0) not at all. */
  lemma AllOffsetsAreStandard(x: nat, y: nat)
    requires x < 5 && y < 5
    ensures (x, y) == (0, 0) ==> Offset(x, y) == 0
    ensures (x, y) != (0, 0) ==>
      var t := When(x, y); Walk(t) == (x, y) && Offset(x, y) == ((t + 1) * (t + 2) / 2) % 64
  {
    hide Walk, When, Offset;
    OffsetsAreStandard(0);
    if (x, y) != (0, 0) {
      WalkVisits(x, y);
      OffsetsAreStandard(When(x, y));
    }
  }

  // ------------------------------------------------- round constants, Algorithms 5 and 6

  /** One step of the linear feedback shift register; its output is bit 0. */
  function Shift(r: bv8): bv8 {
    if r & 0x80 != 0 then (r << 1) ^ 0x71 else r << 1
  }

  function SevenShifts(r: bv8): bv8 {
    Shift(Shift(Shift(Shift(Shift(Shift(Shift(r)))))))
  }

  /** The register before round i: seven output bits are used up by each round. */
  function Register(i: nat): bv8 {
    if i == 0 then 1 else SevenShifts(Register(i - 1))
  }

  function Bit(r: bv8, mask: bv64): bv64 {
    if r & 1 != 0 then mask else 0
  }

  /** Bits 0, 1, 3, 7, 15, 31 and 63 of a round constant are successive outputs. */
  function Constant(r: bv8): bv64 {
    var r1 := Shift(r); var r2 := Shift(r1); var r3 := Shift(r2);
    var r4 := Shift(r3); var r5 := Shift(r4); var r6 := Shift(r5);
    Bit(r, 0x1) | Bit(r1, 0x2) | Bit(r2, 0x8) | Bit(r3, 0x80)
    | Bit(r4, 0x8000) | Bit(r5, 0x8000_0000) | Bit(r6, 0x8000_0000_0000_0000)
  }

  ghost predicate StandardConstant(i: nat) {
    i < 24 && RC(i) == Constant(Register(i))
  }

  /** Register value r yields the constant c and is followed by r'. */
  ghost predicate Yields(r: bv8, c: bv64, r': bv8) {
    Constant(r) == c && SevenShifts(r) == r'
  }

  lemma Yields0()
    ensures Yields(0x1, 0x1, 0x80) && Yields(0x80, 0x8082, 0xd8)
    ensures Yields(0xd8, 0x800000000000808a, 0x1a) && Yields(0x1a, 0x8000000080008000, 0xdf)
    ensures Yields(0xdf, 0x808b, 0x9) && Yields(0x9, 0x80000001, 0x35)
  {
  }

  lemma Yields1()
    ensures Yields(0x35, 0x8000000080008081, 0x4f) && Yields(0x4f, 0x8000000000008009, 0xca)
    ensures Yields(0xca, 0x8a, 0x70) && Yields(0x70, 0x88, 0x41)
    ensures Yields(0x41, 0x80008009, 0xec) && Yields(0xec, 0x8000000a, 0xd5)
  {
  }

  lemma Yields2()
    ensures Yields(0xd5, 0x8000808b, 0xcd) && Yields(0xcd, 0x800000000000008b, 0x63)
    ensures Yields(0x63, 0x8000000000008089, 0xab) && Yields(0xab, 0x8000000000008003, 0xaa)
    ensures Yields(0xaa, 0x8000000000008002, 0x2a) && Yields(0x2a, 0x8000000000000080, 0xf2)
  {
  }

  lemma Yields3()
    ensures Yields(0xf2, 0x800a, 0xe8) && Yields(0xe8, 0x800000008000000a, 0x37)
    ensures Yields(0x37, 0x8000000080008081, 0x3e) && Yields(0x3e, 0x8000000000008080, 0xb)
    ensures Yields(0xb, 0x80000001, 0x44) && Yields(0x44, 0x8000000080008008, 0x8e)
  {
  }

  lemma Next(i: nat, r: bv8, c: bv64, r': bv8)
    requires i < 24 && Register(i) == r && Yields(r, c, r') && RC(i) == c
    ensures StandardConstant(i) && Register(i + 1) == r'
  {
  }

  lemma Constants0()
    ensures Register(6) == 0x35
    ensures StandardConstant(0) && StandardConstant(1) && StandardConstant(2)
    ensures StandardConstant(3) && StandardConstant(4) && StandardConstant(5)
  {
    Start();
    hide Register, StandardConstant, Yields;
    Yields0();
    Next(0, 0x1, 0x1, 0x80);
    Next(1, 0x80, 0x8082, 0xd8);
    Next(2, 0xd8, 0x800000000000808a, 0x1a);
    Next(3, 0x1a, 0x8000000080008000, 0xdf);
    Next(4, 0xdf, 0x808b, 0x9);
    Next(5, 0x9, 0x80000001, 0x35);
  }

  lemma Constants1()
    requires Register(6) == 0x35
    ensures Register(12) == 0xd5
    ensures StandardConstant(6) && StandardConstant(7) && StandardConstant(8)
    ensures StandardConstant(9) && StandardConstant(10) && StandardConstant(11)
  {
    hide Register, StandardConstant, Yields;
    Yields1();
    Next(6, 0x35, 0x8000000080008081, 0x4f);
    Next(7, 0x4f, 0x8000000000008009, 0xca);
    Next(8, 0xca, 0x8a, 0x70);
    Next(9, 0x70, 0x88, 0x41);
    Next(10, 0x41, 0x80008009, 0xec);
    Next(11, 0xec, 0x8000000a, 0xd5);
  }

  lemma Constants2()
    requires Register(12) == 0xd5
    ensures Register(18) == 0xf2
    ensures StandardConstant(12) && StandardConstant(13) && StandardConstant(14)
    ensures StandardConstant(15) && StandardConstant(16) && StandardConstant(17)
  {
    hide Register, StandardConstant, Yields;
    Yields2();
    Next(12, 0xd5, 0x8000808b, 0xcd);
    Next(13, 0xcd, 0x800000000000008b, 0x63);
    Next(14, 0x63, 0x8000000000008089, 0xab);
    Next(15, 0xab, 0x8000000000008003, 0xaa);
    Next(16, 0xaa, 0x8000000000008002, 0x2a);
    Next(17, 0x2a, 0x8000000000000080, 0xf2);
  }

  lemma Constants3()
    requires Register(18) == 0xf2
    ensures StandardConstant(18) && StandardConstant(19) && StandardConstant(20)
    ensures StandardConstant(21) && StandardConstant(22) && StandardConstant(23)
  {
    hide Register, StandardConstant, Yields;
    Yields3();
    Next(18, 0xf2, 0x800a, 0xe8);
    Next(19, 0xe8, 0x800000008000000a, 0x37);
    Next(20, 0x37, 0x8000000080008081, 0x3e);
    Next(21, 0x3e, 0x8000000000008080, 0xb);
    Next(22, 0xb, 0x80000001, 0x44);
    Next(23, 0x44, 0x8000000080008008, 0x8e);
  }

  lemma RoundConstantsAreStandard(i: nat)
    requires i < 24
    ensures StandardConstant(i)
  {
    hide StandardConstant, Register;
    Constants0();
    Constants1();
    Constants2();
    Constants3();
  }
}
