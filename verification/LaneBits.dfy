/**
 Operations on the 64-bit lanes of the Keccak state, and what each of them does
 to the single bits of a lane.
 */
module LaneBits {

  /** The macro ROL64. */
  function Rol(a: bv64, n: nat): bv64
    requires n < 64
  {
    if n == 0 then a else Or(Up(a, n), Down(a, 64 - n))
  }

  function Half(a: bv64): bv64 { a >> 1 }

  function Double(a: bv64): bv64 { a << 1 }

  predicate Odd(a: bv64) { a & 1 == 1 }

  /** a << n, place by place. */
  function Up(a: bv64, n: nat): bv64 { if n == 0 then a else Double(Up(a, n - 1)) }

  /** a >> n, place by place. */
  function Down(a: bv64, n: nat): bv64
    decreases n
  {
    if n == 0 then a else Down(Half(a), n - 1)
  }

  function Or(a: bv64, b: bv64): bv64 { a | b }

  function Xor(a: bv64, b: bv64): bv64 { a ^ b }

  function Xor5(a: bv64, b: bv64, c: bv64, d: bv64, e: bv64): bv64 {
    Xor(Xor(Xor(Xor(a, b), c), d), e)
  }

  function Mix(a: bv64, b: bv64, c: bv64): bv64 { a ^ (!b & c) }

  // ------------------------------------------------------------------ the bits of a lane

  /** Bit z of a lane: the lowest one after z places to the right. */
  predicate BitOf(w: bv64, z: nat)
    decreases z
  {
    if z == 0 then Odd(w) else BitOf(Half(w), z - 1)
  }

  ghost predicate IsXor(a: bv64, b: bv64, r: bv64) { r == a ^ b }

  lemma XorHalves(a: bv64, b: bv64, r: bv64)
    requires IsXor(a, b, r)
    ensures IsXor(a >> 1, b >> 1, r >> 1)
  {
  }

  lemma XorHalf(a: bv64, b: bv64, r: bv64)
    requires IsXor(a, b, r)
    ensures IsXor(Half(a), Half(b), Half(r))
  {
    hide IsXor;
    XorHalves(a, b, r);
  }

  lemma XorOdd(a: bv64, b: bv64, r: bv64)
    requires IsXor(a, b, r)
    ensures Odd(r) <==> (Odd(a) != Odd(b))
  {
  }

  lemma {:induction false} BitIsXor(a: bv64, b: bv64, r: bv64, z: nat)
    requires IsXor(a, b, r)
    ensures BitOf(r, z) <==> (BitOf(a, z) != BitOf(b, z))
    decreases z
  {
    hide IsXor, Half, Odd;
    XorOdd(a, b, r);
    XorHalf(a, b, r);
    if z > 0 {
      BitIsXor(Half(a), Half(b), Half(r), z - 1);
    }
  }

  lemma BitXor(a: bv64, b: bv64, z: nat)
    ensures BitOf(Xor(a, b), z) <==> (BitOf(a, z) != BitOf(b, z))
  {
    BitIsXor(a, b, Xor(a, b), z);
    hide BitOf;
  }

  lemma BitXor5(a: bv64, b: bv64, c: bv64, d: bv64, e: bv64, z: nat)
    ensures BitOf(Xor5(a, b, c, d, e), z)
       <==> (BitOf(a, z) != (BitOf(b, z) != (BitOf(c, z) != (BitOf(d, z) != BitOf(e, z)))))
  {
    hide BitOf, Xor;
    BitXor(a, b, z);
    BitXor(Xor(a, b), c, z);
    BitXor(Xor(Xor(a, b), c), d, z);
    BitXor(Xor(Xor(Xor(a, b), c), d), e, z);
  }

  ghost predicate IsOr(a: bv64, b: bv64, r: bv64) { r == a | b }

  lemma OrHalves(a: bv64, b: bv64, r: bv64)
    requires IsOr(a, b, r)
    ensures IsOr(a >> 1, b >> 1, r >> 1)
  {
  }

  lemma OrHalf(a: bv64, b: bv64, r: bv64)
    requires IsOr(a, b, r)
    ensures IsOr(Half(a), Half(b), Half(r))
  {
    hide IsOr;
    OrHalves(a, b, r);
  }

  lemma OrOdd(a: bv64, b: bv64, r: bv64)
    requires IsOr(a, b, r)
    ensures Odd(r) <==> Odd(a) || Odd(b)
  {
  }

  lemma {:induction false} BitIsOr(a: bv64, b: bv64, r: bv64, z: nat)
    requires IsOr(a, b, r)
    ensures BitOf(r, z) <==> BitOf(a, z) || BitOf(b, z)
    decreases z
  {
    hide IsOr, Half, Odd;
    OrOdd(a, b, r);
    OrHalf(a, b, r);
    if z > 0 {
      BitIsOr(Half(a), Half(b), Half(r), z - 1);
    }
  }

  lemma BitOr(a: bv64, b: bv64, z: nat)
    ensures BitOf(Or(a, b), z) <==> BitOf(a, z) || BitOf(b, z)
  {
    BitIsOr(a, b, Or(a, b), z);
    hide BitOf;
  }

  ghost predicate IsMix(a: bv64, b: bv64, c: bv64, r: bv64) { r == a ^ (!b & c) }

  lemma MixHalves(a: bv64, b: bv64, c: bv64, r: bv64)
    requires IsMix(a, b, c, r)
    ensures IsMix(a >> 1, b >> 1, c >> 1, r >> 1)
  {
  }

  lemma MixHalf(a: bv64, b: bv64, c: bv64, r: bv64)
    requires IsMix(a, b, c, r)
    ensures IsMix(Half(a), Half(b), Half(c), Half(r))
  {
    hide IsMix;
    MixHalves(a, b, c, r);
  }

  lemma MixOdd(a: bv64, b: bv64, c: bv64, r: bv64)
    requires IsMix(a, b, c, r)
    ensures Odd(r) <==> (Odd(a) != (!Odd(b) && Odd(c)))
  {
  }

  lemma {:induction false} BitIsMix(a: bv64, b: bv64, c: bv64, r: bv64, z: nat)
    requires IsMix(a, b, c, r)
    ensures BitOf(r, z) <==> (BitOf(a, z) != (!BitOf(b, z) && BitOf(c, z)))
    decreases z
  {
    hide IsMix, Half, Odd;
    MixOdd(a, b, c, r);
    MixHalf(a, b, c, r);
    if z > 0 {
      BitIsMix(Half(a), Half(b), Half(c), Half(r), z - 1);
    }
  }

  lemma BitMix(a: bv64, b: bv64, c: bv64, z: nat)
    ensures BitOf(Mix(a, b, c), z) <==> (BitOf(a, z) != (!BitOf(b, z) && BitOf(c, z)))
  {
    BitIsMix(a, b, c, Mix(a, b, c), z);
    hide BitOf;
  }

  lemma {:induction false} BitZero(z: nat)
    ensures !BitOf(0, z)
    decreases z
  {
    if z > 0 {
      BitZero(z - 1);
    }
  }

  lemma {:induction false} BitDown(a: bv64, n: nat, z: nat)
    ensures BitOf(Down(a, n), z) <==> BitOf(a, z + n)
    decreases n
  {
    hide Half, Odd;
    if n > 0 {
      BitDown(Half(a), n - 1, z);
    }
  }

  // ------------------------------------------------------------------ lanes with one bit

  /** The lane whose only bit is the last one of byte q. */
  function ByteEnd(q: nat): bv64
    requires q < 8
  {
    if q == 0 then 0x80 else if q == 1 then 0x8000 else if q == 2 then 0x80_0000 else if q == 3 then 0x8000_0000
    else if q == 4 then 0x80_0000_0000 else if q == 5 then 0x8000_0000_0000
    else if q == 6 then 0x80_0000_0000_0000 else 0x8000_0000_0000_0000
  }

  ghost predicate EndFacts(w: bv64, below: bv64, last: bool) {
    && Down(w, 8) == below
    && !BitOf(w, 0) && !BitOf(w, 1) && !BitOf(w, 2) && !BitOf(w, 3)
    && !BitOf(w, 4) && !BitOf(w, 5) && !BitOf(w, 6) && BitOf(w, 7) == last
  }

  lemma End0()
    ensures EndFacts(0x80, 0, true)
  {
  }

  lemma End1()
    ensures EndFacts(0x8000, 0x80, false)
  {
  }

  lemma End2()
    ensures EndFacts(0x80_0000, 0x8000, false)
  {
  }

  lemma End3()
    ensures EndFacts(0x8000_0000, 0x80_0000, false)
  {
  }

  lemma End4()
    ensures EndFacts(0x80_0000_0000, 0x8000_0000, false)
  {
  }

  lemma End5()
    ensures EndFacts(0x8000_0000_0000, 0x80_0000_0000, false)
  {
  }

  lemma End6()
    ensures EndFacts(0x80_0000_0000_0000, 0x8000_0000_0000, false)
  {
  }

  lemma End7()
    ensures EndFacts(0x8000_0000_0000_0000, 0x80_0000_0000_0000, false)
  {
  }

  lemma EndsDown(q: nat)
    requires q < 8
    ensures EndFacts(ByteEnd(q), if q == 0 then 0 else ByteEnd(q - 1), q == 0)
  {
    End0();
    End1();
    End2();
    End3();
    End4();
    End5();
    End6();
    End7();
    hide EndFacts;
  }

  lemma EndLow(w: bv64, below: bv64, last: bool, z: nat)
    requires EndFacts(w, below, last) && z < 8
    ensures BitOf(w, z) <==> z == 7 && last
  {
    hide BitOf, Down;
    assert z == 0 || z == 1 || z == 2 || z == 3 || z == 4 || z == 5 || z == 6 || z == 7;
  }

  /** Such a lane has no other bit. */
  lemma {:induction false} BitEnd(q: nat, z: nat)
    requires q < 8
    ensures BitOf(ByteEnd(q), z) <==> z == 8 * q + 7
    decreases z
  {
    EndsDown(q);
    hide BitOf, Down, ByteEnd;
    if z < 8 {
      EndLow(ByteEnd(q), if q == 0 then 0 else ByteEnd(q - 1), q == 0, z);
    } else {
      BitDown(ByteEnd(q), 8, z - 8);
      if q == 0 {
        BitZero(z - 8);
      } else {
        BitEnd(q - 1, z - 8);
      }
    }
  }

  // ------------------------------------------------------------------ shifts

  const ONES: bv64 := 0xffff_ffff_ffff_ffff

  lemma OnesDown()
    ensures Down(0xffff_ffff_ffff_ffff, 8) == 0xff_ffff_ffff_ffff
    ensures Down(0xff_ffff_ffff_ffff, 8) == 0xffff_ffff_ffff
    ensures Down(0xffff_ffff_ffff, 8) == 0xff_ffff_ffff
    ensures Down(0xff_ffff_ffff, 8) == 0xffff_ffff
  {
  }

  lemma FewerOnesDown()
    ensures Down(0xffff_ffff, 8) == 0xff_ffff
    ensures Down(0xff_ffff, 8) == 0xffff
    ensures Down(0xffff, 8) == 0xff
    ensures Down(0xff, 8) == 0
  {
  }

  lemma OnesEnd(z: nat)
    requires z >= 64
    ensures !BitOf(ONES, z)
  {
    OnesDown();
    FewerOnesDown();
    hide BitOf, Down;
    BitDown(0xffff_ffff_ffff_ffff, 8, z - 8);
    BitDown(0xff_ffff_ffff_ffff, 8, z - 16);
    BitDown(0xffff_ffff_ffff, 8, z - 24);
    BitDown(0xff_ffff_ffff, 8, z - 32);
    BitDown(0xffff_ffff, 8, z - 40);
    BitDown(0xff_ffff, 8, z - 48);
    BitDown(0xffff, 8, z - 56);
    BitDown(0xff, 8, z - 64);
    BitZero(z - 64);
  }

  lemma WithOnes(a: bv64)
    ensures IsOr(a, ONES, ONES)
  {
  }

  /** A lane has 64 bits. */
  lemma BitBeyond(a: bv64, z: nat)
    requires z >= 64
    ensures !BitOf(a, z)
  {
    WithOnes(a);
    hide BitOf, IsOr;
    BitIsOr(a, ONES, ONES, z);
    OnesEnd(z);
  }

  /** The last bit of a lane, if it is set. */
  function LastBit(a: bv64): bv64 { a & 0x8000_0000_0000_0000 }

  lemma LastIsEnd(a: bv64)
    ensures IsOr(LastBit(a), ByteEnd(7), ByteEnd(7))
  {
  }

  lemma DoubleLoses(a: bv64)
    ensures a == ((a << 1) >> 1) | (a & 0x8000_0000_0000_0000)
    ensures (a << 1) & 1 == 0
  {
  }

  lemma DoubleHalf(a: bv64)
    ensures IsOr(Half(Double(a)), LastBit(a), a) && !Odd(Double(a))
  {
    DoubleLoses(a);
  }

  lemma BitDouble(a: bv64, z: nat)
    ensures BitOf(Double(a), z) <==> 0 < z < 64 && BitOf(a, z - 1)
  {
    DoubleHalf(a);
    LastIsEnd(a);
    hide Double, Half, Odd, LastBit, IsOr, ByteEnd;
    if z >= 64 {
      BitBeyond(Double(a), z);
    } else if z > 0 {
      BitIsOr(Half(Double(a)), LastBit(a), a, z - 1);
      BitIsOr(LastBit(a), ByteEnd(7), ByteEnd(7), z - 1);
      BitEnd(7, z - 1);
    }
  }

  lemma {:induction false} BitUp(a: bv64, n: nat, z: nat)
    requires n <= 64
    ensures BitOf(Up(a, n), z) <==> n <= z && (n == 0 || z < 64) && BitOf(a, z - n)
    decreases n
  {
    hide BitOf, Double;
    if n > 0 {
      BitDouble(Up(a, n - 1), z);
      if z > 0 {
        BitUp(a, n - 1, z - 1);
      }
    }
  }

  lemma IndexBack(z: nat, n: nat)
    requires n < 64 && z < 64
    ensures (z + (64 - n)) % 64 == if z >= n then z - n else z + (64 - n)
  {
  }

  /** Bit z of a rotated lane is bit (z - n) mod 64 of the lane. */
  lemma BitRol(a: bv64, n: nat, z: nat)
    requires n < 64 && z < 64
    ensures BitOf(Rol(a, n), z) <==> BitOf(a, (z + (64 - n)) % 64)
  {
    hide BitOf, Or, Up, Down;
    IndexBack(z, n);
    if n > 0 {
      BitOr(Up(a, n), Down(a, 64 - n), z);
      BitUp(a, n, z);
      BitDown(a, 64 - n, z);
      if z >= n {
        BitBeyond(a, z + (64 - n));
      }
    }
  }
}
