/**
 SHA-3 hashing: the SHA3Context that absorbs data byte by byte or word by word,
 and the sponge construction of sections 4 and 6.1 of FIPS 202 it implements.
 */
module Sponge {
  import opened LaneBits
  import opened Keccak
  import opened Arith

  type Bytes = seq<bv8>

  // --------------------------------------------------------- bytes within lanes

  /** b << (8 * p) */
  function Placed(b: bv8, p: nat): bv64
    requires p < 8
  {
    var w := b as bv64;
    if p == 0 then w else if p == 1 then w << 8 else if p == 2 then w << 16 else if p == 3 then w << 24
    else if p == 4 then w << 32 else if p == 5 then w << 40 else if p == 6 then w << 48 else w << 56
  }

  function Shr8(w: bv64): bv64 { w >> 8 }

  function Shr(w: bv64, p: nat): bv64 {
    if p == 0 then w else Shr(Shr8(w), p - 1)
  }

  function Low(w: bv64): bv8 { (w & 0xff) as bv8 }

  /** Byte p of a word: what a little-endian machine keeps at address p. */
  function ByteOf(w: bv64, p: nat): bv8
    requires p < 8
  {
    Low(Shr(w, p))
  }

  /** The word made of the first n bytes. */
  function WordOf(b: Bytes, n: nat): bv64
    requires n <= |b| && n <= 8
  {
    if n == 0 then 0 else Xor(WordOf(b, n - 1), Placed(b[n - 1], n - 1))
  }

  function Word(b: Bytes): bv64
    requires |b| == 8
  {
    WordOf(b, 8)
  }

  /** u.x[k] ^= b, where u.x overlays the lanes. */
  function XorByte(s: Lanes, k: nat, b: bv8): Lanes
    requires k < 200
  {
    s[k / 8 := Xor(s[k / 8], Placed(b, k % 8))]
  }

  /** u.s[w] ^= v */
  function XorWord(s: Lanes, w: nat, v: bv64): Lanes
    requires w < 25
  {
    s[w := Xor(s[w], v)]
  }

  function XorBytes(s: Lanes, k: nat, data: Bytes): Lanes
    requires k + |data| <= 200
    decreases |data|
  {
    if data == [] then s else XorByte(XorBytes(s, k, data[..|data| - 1]), k + |data| - 1, data[|data| - 1])
  }

  lemma XorAssoc(a: bv64, x: bv64, y: bv64)
    ensures Xor(Xor(a, x), y) == Xor(a, Xor(x, y))
  {
  }

  lemma Shr8Xor(w: bv64, x: bv64)
    ensures Shr8(Xor(w, x)) == Xor(Shr8(w), Shr8(x))
  {
  }

  lemma {:induction false} ShrXor(w: bv64, x: bv64, q: nat)
    ensures Shr(Xor(w, x), q) == Xor(Shr(w, q), Shr(x, q))
    decreases q
  {
    hide Xor, Shr8;
    if q > 0 {
      ShrXor(Shr8(w), Shr8(x), q - 1);
      Shr8Xor(w, x);
    }
  }

  lemma LowXor(w: bv64, x: bv64)
    ensures Low(Xor(w, x)) == Low(w) ^ Low(x)
  {
  }

  lemma ByteXor(w: bv64, x: bv64, q: nat)
    requires q < 8
    ensures ByteOf(Xor(w, x), q) == ByteOf(w, q) ^ ByteOf(x, q)
  {
    ShrXor(w, x, q);
    LowXor(Shr(w, q), Shr(x, q));
    hide Shr, Low, Xor;
  }

  lemma PlacedLow(b: bv8, p: nat)
    requires p < 8
    ensures Low(Placed(b, p)) == if p == 0 then b else 0
  {
  }

  lemma PlacedShr8(b: bv8, p: nat)
    requires p < 8
    ensures Shr8(Placed(b, p)) == if p == 0 then 0 else Placed(b, p - 1)
  {
  }

  lemma {:induction false} BytePlaced(b: bv8, p: nat, q: nat)
    requires p < 8 && q < 8
    ensures ByteOf(Placed(b, p), q) == if p == q then b else 0
    decreases q
  {
    PlacedLow(b, p);
    PlacedShr8(b, p);
    PlacedZero(0);
    hide Low, Shr8, Placed;
    if q > 0 {
      if p == 0 {
        BytePlaced(0, 0, q - 1);
      } else {
        BytePlaced(b, p - 1, q - 1);
      }
    }
  }

  lemma PlacedZero(p: nat)
    requires p < 8
    ensures Placed(0, p) == 0
  {
  }

  /** a ^ b[0] ^ (b[1] << 8) ^ ..., the first n bytes. */
  function Folded(a: bv64, b: Bytes, n: nat): bv64
    requires n <= |b| && n <= 8
  {
    if n == 0 then a else Xor(Folded(a, b, n - 1), Placed(b[n - 1], n - 1))
  }

  lemma XorByteAt(s: Lanes, w: nat, p: nat, v: bv64, b: bv8)
    requires w < 25 && p < 8
    ensures XorByte(s[w := v], 8 * w + p, b) == s[w := Xor(v, Placed(b, p))]
  {
    hide Placed, Xor;
    DivUnique(8 * w + p, 8, w, p);
  }

  lemma {:induction false} BytesOfWord(s: Lanes, w: nat, b: Bytes, n: nat)
    requires w < 25 && |b| == 8 && n <= 8
    ensures XorBytes(s, 8 * w, b[..n]) == s[w := Folded(s[w], b, n)]
    decreases n
  {
    hide Placed, XorByte;
    if n == 0 {
      assert b[..0] == [];
      assert s[w := s[w]] == s;
    } else {
      BytesOfWord(s, w, b, n - 1);
      assert b[..n][..n - 1] == b[..n - 1];
      XorByteAt(s, w, n - 1, Folded(s[w], b, n - 1), b[n - 1]);
    }
  }

  lemma XorNothing(a: bv64)
    ensures Xor(a, 0) == a
  {
  }

  lemma {:induction false} FoldedIsWord(a: bv64, b: Bytes, n: nat)
    requires n <= |b| && n <= 8
    ensures Folded(a, b, n) == Xor(a, WordOf(b, n))
    decreases n
  {
    hide Placed, Xor;
    if n == 0 {
      XorNothing(a);
    } else {
      FoldedIsWord(a, b, n - 1);
      XorAssoc(a, WordOf(b, n - 1), Placed(b[n - 1], n - 1));
    }
  }

  /** The word path and the byte path have the same effect. */
  lemma WordIsEightBytes(s: Lanes, w: nat, b: Bytes)
    requires w < 25 && |b| == 8
    ensures XorWord(s, w, Word(b)) == XorBytes(s, 8 * w, b)
  {
    hide WordOf, Folded, XorBytes, Xor;
    BytesOfWord(s, w, b, 8);
    FoldedIsWord(s[w], b, 8);
    assert b[..8] == b;
  }

  // -------------------------------------------------------------------- absorbing

  /** The function that mixes the state; the code uses Keccak-f[1600]. */
  type Perm = Lanes -> Lanes

  /** The lanes and the number of bytes of the current block already added. */
  datatype State = State(lanes: Lanes, n: nat)

  predicate RateOk(rate: nat) { 8 <= rate <= 192 && rate % 8 == 0 }

  function Absorb1(f: Perm, st: State, rate: nat, b: bv8): (r: State)
    requires RateOk(rate) && st.n < rate
    ensures r.n < rate
  {
    var lanes := XorByte(st.lanes, st.n, b);
    if st.n + 1 == rate then State(f(lanes), 0) else State(lanes, st.n + 1)
  }

  function Absorb(f: Perm, st: State, rate: nat, data: Bytes): (r: State)
    requires RateOk(rate) && st.n < rate
    ensures r.n < rate
    decreases |data|
  {
    if data == [] then st else Absorb1(f, Absorb(f, st, rate, data[..|data| - 1]), rate, data[|data| - 1])
  }

  /** Hashing does not depend on how the input is split. */
  lemma {:induction false} AbsorbConcat(f: Perm, st: State, rate: nat, a: Bytes, b: Bytes)
    requires RateOk(rate) && st.n < rate
    ensures Absorb(f, st, rate, a + b) == Absorb(f, Absorb(f, st, rate, a), rate, b)
    decreases |b|
  {
    hide Absorb1;
    if b == [] {
      assert a + b == a;
    } else {
      var b' := b[..|b| - 1];
      AbsorbConcat(f, st, rate, a, b');
      assert (a + b)[..|a + b| - 1] == a + b';
    }
  }

  /** Data that does not go beyond the current block. */
  lemma {:induction false} AbsorbWithin(f: Perm, st: State, rate: nat, data: Bytes)
    requires RateOk(rate) && st.n < rate && st.n + |data| <= rate
    ensures var lanes := XorBytes(st.lanes, st.n, data);
      Absorb(f, st, rate, data) ==
        if data != [] && st.n + |data| == rate then State(f(lanes), 0) else State(lanes, st.n + |data|)
    decreases |data|
  {
    hide XorByte;
    if data != [] {
      AbsorbWithin(f, st, rate, data[..|data| - 1]);
    }
  }

  lemma {:induction false} AbsorbCount(f: Perm, st: State, rate: nat, data: Bytes)
    requires RateOk(rate) && st.n < rate
    ensures Absorb(f, st, rate, data).n == (st.n + |data|) % rate
    decreases |data|
  {
    hide XorByte;
    if data == [] {
      DivUnique(st.n, rate, 0, st.n);
    } else {
      AbsorbCount(f, st, rate, data[..|data| - 1]);
      ModStep(st.n + |data| - 1, rate);
    }
  }

  // ---------------------------------------- the sponge of FIPS 202, section 4

  function Zero(): (r: Lanes)
    ensures forall i :: 0 <= i < 25 ==> r[i] == 0
  {
    seq(25, _ => 0)
  }

  /** The state after absorbing all blocks of the padded message. */
  function SpongeState(f: Perm, p: Bytes, rate: nat): Lanes
    requires RateOk(rate) && |p| % rate == 0
    decreases |p|
  {
    if p == [] then Zero()
    else
      LastBlock(p, rate);
      f(XorBytes(SpongeState(f, p[..|p| - rate], rate), 0, p[|p| - rate..]))
  }

  lemma LastBlock(p: Bytes, rate: nat)
    requires RateOk(rate) && p != [] && |p| % rate == 0
    ensures |p| >= rate && (|p| - rate) % rate == 0
  {
    DivMod(|p|, rate);
    MulMonotone(rate, 1, |p| / rate);
    DivUnique(|p| - rate, rate, |p| / rate - 1, 0);
  }

  /** Absorbing byte by byte is absorbing block by block. */
  lemma {:induction false} AbsorbIsSponge(f: Perm, p: Bytes, rate: nat)
    requires RateOk(rate) && |p| % rate == 0
    ensures Absorb(f, State(Zero(), 0), rate, p) == State(SpongeState(f, p, rate), 0)
    decreases |p|
  {
    hide XorBytes;
    if p != [] {
      LastBlock(p, rate);
      var q, block := p[..|p| - rate], p[|p| - rate..];
      AbsorbIsSponge(f, q, rate);
      assert p == q + block;
      AbsorbConcat(f, State(Zero(), 0), rate, q, block);
      AbsorbWithin(f, State(SpongeState(f, q, rate), 0), rate, block);
    }
  }

  // --------------------------------------------- bytes of the state, and the digest

  /** u.x[k], where u.x overlays the lanes. */
  function ByteAt(s: Lanes, k: nat): bv8
    requires k < 200
  {
    ByteOf(s[k / 8], k % 8)
  }

  /** u.x[k] ^= b changes byte k and no other. */
  lemma XorByteMeans(s: Lanes, k: nat, b: bv8, j: nat)
    requires k < 200 && j < 200
    ensures ByteAt(XorByte(s, k, b), j) == if j == k then ByteAt(s, j) ^ b else ByteAt(s, j)
  {
    ByteXor(s[k / 8], Placed(b, k % 8), j % 8);
    BytePlaced(b, k % 8, j % 8);
    hide Xor, ByteOf, Placed;
    assert j == k <==> j / 8 == k / 8 && j % 8 == k % 8;
    if j / 8 == k / 8 && j % 8 != k % 8 {
      XorZero(ByteOf(s[j / 8], j % 8));
    }
  }

  lemma XorZero(b: bv8)
    ensures b ^ 0 == b
  {
  }

  /** A 64-bit load reads the eight bytes in address order. */
  lemma {:induction false} WordBytes(b: Bytes, n: nat, p: nat)
    requires n <= |b| && n <= 8 && p < 8
    ensures ByteOf(WordOf(b, n), p) == if p < n then b[p] else 0
    decreases n
  {
    if n == 0 {
      PlacedZero(0);
      BytePlaced(0, 0, p);
    } else {
      WordBytes(b, n - 1, p);
      ByteXor(WordOf(b, n - 1), Placed(b[n - 1], n - 1), p);
      BytePlaced(b[n - 1], n - 1, p);
      hide Xor, ByteOf, Placed;
      XorZero(b[n - 1]);
      XorZero(if p < n - 1 then b[p] else 0);
    }
  }

  function Squeeze(s: Lanes, n: nat): Bytes
    requires n <= 200
  {
    seq(n, i requires 0 <= i < n => ByteAt(s, i))
  }

  // ------------------------------- padding: suffix 01, then pad10*1 (sections 5.1, 6.1)

  function Zeros(n: nat): Bytes { seq(n, _ => 0) }

  /** Bytes left in the block after n bytes; never none. */
  function Room(n: nat, rate: nat): (q: nat)
    requires rate > 0
    ensures q > 0
  {
    DivMod(n, rate);
    rate - n % rate
  }

  /** The message in whole blocks, as bytes (section B.2). */
  function Padded(m: Bytes, rate: nat): Bytes
    requires rate > 1
  {
    Filled(m, Room(|m|, rate))
  }

  lemma PaddedBlocks(m: Bytes, rate: nat)
    requires rate > 1
    ensures |Padded(m, rate)| % rate == 0
  {
    DivMod(|m|, rate);
    DivUnique(|m| + (rate - |m| % rate), rate, |m| / rate + 1, 0);
  }

  function Bit(b: bv8, i: nat): bool
    requires i < 8
  {
    (b >> i) & 1 == 1
  }

  function BitsOfByte(b: bv8): seq<bool> {
    [Bit(b, 0), Bit(b, 1), Bit(b, 2), Bit(b, 3), Bit(b, 4), Bit(b, 5), Bit(b, 6), Bit(b, 7)]
  }

  /** Bytes as a bit string, low bit first (section B.1). */
  function Bits(m: Bytes): seq<bool> {
    if m == [] then [] else Bits(m[..|m| - 1]) + BitsOfByte(m[|m| - 1])
  }

  function Falses(n: nat): seq<bool> { seq(n, _ => false) }

  /** pad10*1(x, m) of section 5.1: j is (-m - 2) mod x. */
  function Pad101(x: nat, m: int): seq<bool>
    requires x > 0
  {
    [true] + Falses((-m - 2) % x) + [true]
  }

  lemma PadBytes()
    ensures BitsOfByte(0x06) == [false, true] + [true] + Falses(5)
    ensures BitsOfByte(0x80) == Falses(7) + [true]
    ensures BitsOfByte(0x86) == [false, true] + [true] + Falses(4) + [true]
    ensures BitsOfByte(0) == Falses(8)
  {
  }

  lemma {:induction false} BitsOfZeros(m: Bytes, n: nat)
    ensures Bits(m + Zeros(n)) == Bits(m) + Falses(8 * n)
    decreases n
  {
    hide BitsOfByte;
    if n == 0 {
      assert m + Zeros(0) == m;
    } else {
      var z := m + Zeros(n);
      assert z[..|z| - 1] == m + Zeros(n - 1);
      BitsOfZeros(m, n - 1);
      PadBytes();
      assert Falses(8 * (n - 1)) + Falses(8) == Falses(8 * n);
    }
  }

  lemma BitsOfLast(m: Bytes, b: bv8)
    ensures Bits(m + [b]) == Bits(m) + BitsOfByte(b)
  {
    hide BitsOfByte;
    assert (m + [b])[..|m + [b]| - 1] == m;
  }

  lemma PadLength(n: nat, rate: nat)
    requires rate > 1
    ensures (-(8 * n + 2) - 2) % (8 * rate) == 8 * (rate - n % rate) - 4
  {
    DivMod(n, rate);
    var k, j := n / rate + 1, 8 * (rate - n % rate) - 4;
    assert rate * k == rate * (n / rate) + rate;
    assert -(8 * n + 2) - 2 == -8 * (rate * k) + j;
    NegMod(-(8 * n + 2) - 2, 8 * rate, k, j);
  }

  lemma NegMod(v: int, d: nat, k: nat, j: nat)
    requires d > 0 && j < d && v + d * k == j
    ensures v % d == j
  {
    var q, r := v / d, v % d;
    EuclidInt(v, d);
    Distribute(d, q, k);
    SmallMultiple(d, q + k, j - r);
  }

  lemma EuclidInt(v: int, d: nat)
    requires d > 0
    ensures v == d * (v / d) + v % d && 0 <= v % d < d
  {
  }

  lemma Distribute(d: int, x: int, y: int)
    ensures d * (x + y) == d * x + d * y
  {
  }

  lemma SmallMultiple(d: int, z: int, w: int)
    requires d * z == w && -d < w < d
    ensures w == 0
  {
    Distribute(d, 1, z - 1);
    Distribute(d, -1, z + 1);
    assert z >= 1 ==> d * (z - 1) >= 0;
    assert z <= -1 ==> d * (z + 1) <= 0;
  }

  lemma Regroup(b: seq<bool>, u: seq<bool>, x: seq<bool>, y: seq<bool>, z: seq<bool>)
    ensures b + (u + [true] + x) + y + (z + [true]) == b + u + ([true] + (x + y + z) + [true])
  {
  }

  lemma LongPad(m: Bytes, q: nat)
    requires q >= 2
    ensures Bits(m + [0x06] + Zeros(q - 2) + [0x80]) ==
      Bits(m) + [false, true] + ([true] + Falses(8 * q - 4) + [true])
  {
    hide Bits, BitsOfByte;
    PadBytes();
    var m1 := m + [0x06];
    BitsOfLast(m, 0x06);
    BitsOfZeros(m1, q - 2);
    BitsOfLast(m1 + Zeros(q - 2), 0x80);
    assert Falses(5) + Falses(8 * (q - 2)) + Falses(7) == Falses(8 * q - 4);
    hide Falses;
    Regroup(Bits(m), [false, true], Falses(5), Falses(8 * (q - 2)), Falses(7));
  }

  lemma ShortPad(m: Bytes)
    ensures Bits(m + [0x86]) == Bits(m) + [false, true] + ([true] + Falses(4) + [true])
  {
    hide Bits, BitsOfByte;
    PadBytes();
    BitsOfLast(m, 0x86);
    hide Falses;
    var b, u, f := Bits(m), [false, true], Falses(4);
    assert b + (u + [true] + f + [true]) == b + u + ([true] + f + [true]);
  }

  /** pad10*1 after the suffix fills the bytes left in the block. */
  lemma PadFills(n: nat, rate: nat)
    requires rate > 1
    ensures Pad101(8 * rate, 8 * n + 2) == [true] + Falses(8 * Room(n, rate) - 4) + [true]
  {
    PadLength(n, rate);
  }

  /** The padding bytes, by the number of bytes left in the block. */
  function Filled(m: Bytes, q: nat): Bytes
    requires q > 0
  {
    if q == 1 then m + [0x86] else m + [0x06] + Zeros(q - 2) + [0x80]
  }

  lemma FilledBits(m: Bytes, q: nat)
    requires q > 0
    ensures Bits(Filled(m, q)) == Bits(m) + [false, true] + ([true] + Falses(8 * q - 4) + [true])
  {
    hide Bits, Falses, Zeros;
    if q == 1 {
      ShortPad(m);
    } else {
      LongPad(m, q);
    }
  }

  /** The padding bytes are exactly the suffix 01 followed by pad10*1. */
  lemma PaddingIsStandard(m: Bytes, rate: nat)
    requires rate > 1
    ensures Bits(Padded(m, rate)) == Bits(m) + [false, true] + Pad101(8 * rate, 8 * |m| + 2)
  {
    hide Pad101, Bits, Falses, Filled, Room;
    PadFills(|m|, rate);
    FilledBits(m, Room(|m|, rate));
  }

  // ------------------------------------------------------------------ SHA-3 proper

  /** nRate as SHA3Init computes it. */
  function Rate(iSize: int): (r: nat)
    ensures RateOk(r)
  {
    if 128 <= iSize <= 512 then (1600 - ((iSize + 31) / 32 * 32) * 2) / 8 else (1600 - 2 * 256) / 8
  }

  predicate Standard(iSize: int) { iSize == 224 || iSize == 256 || iSize == 384 || iSize == 512 }

  /** SHA3-d of section 6.1: capacity 2d, first d bits of the sponge. */
  function Sha3(d: nat, m: Bytes): Bytes
    requires Standard(d)
  {
    var rate := (1600 - 2 * d) / 8;
    PaddedBlocks(m, rate);
    Squeeze(SpongeState(KeccakF, Padded(m, rate), rate), d / 8)
  }

  lemma {:induction false} XorZeros(s: Lanes, k: nat, n: nat)
    requires k + n <= 200
    ensures XorBytes(s, k, Zeros(n)) == s
    decreases n
  {
    hide Xor;
    if n > 0 {
      assert Zeros(n)[..n - 1] == Zeros(n - 1);
      XorZeros(s, k, n - 1);
      XorZeroByte(s, k + n - 1);
    }
  }

  lemma XorZeroByte(s: Lanes, k: nat)
    requires k < 200
    ensures XorByte(s, k, 0) == s
  {
    PlacedZero(k % 8);
    hide Placed;
    assert Xor(s[k / 8], 0) == s[k / 8];
    hide Xor;
    assert s[k / 8 := s[k / 8]] == s;
  }

  /** Moving nLoaded forward without touching the lanes is absorbing zeros. */
  lemma AbsorbZeros(f: Perm, st: State, rate: nat, n: nat)
    requires RateOk(rate) && st.n + n < rate
    ensures Absorb(f, st, rate, Zeros(n)) == State(st.lanes, st.n + n)
  {
    hide XorBytes;
    XorZeros(st.lanes, st.n, n);
    AbsorbWithin(f, st, rate, Zeros(n));
  }

  lemma AbsorbWord(f: Perm, st: State, rate: nat, b: Bytes)
    requires RateOk(rate) && st.n < rate && st.n % 8 == 0 && |b| == 8
    ensures st.n + 8 <= rate && st.n / 8 < 25
    ensures var lanes := XorWord(st.lanes, st.n / 8, Word(b));
      Absorb(f, st, rate, b) == if st.n + 8 == rate then State(f(lanes), 0) else State(lanes, st.n + 8)
  {
    hide XorBytes, XorWord, Word;
    AbsorbWithin(f, st, rate, b);
    WordIsEightBytes(st.lanes, st.n / 8, b);
  }

  lemma AbsorbNext(f: Perm, st: State, rate: nat, data: Bytes, i: nat, j: nat)
    requires RateOk(rate) && st.n < rate && i <= j <= |data|
    ensures Absorb(f, st, rate, data[..j]) == Absorb(f, Absorb(f, st, rate, data[..i]), rate, data[i..j])
  {
    hide Absorb;
    AbsorbConcat(f, st, rate, data[..i], data[i..j]);
    assert data[..j] == data[..i] + data[i..j];
  }

  lemma AbsorbOneMore(f: Perm, st: State, rate: nat, data: Bytes, i: nat)
    requires RateOk(rate) && st.n < rate && i < |data|
    ensures Absorb(f, st, rate, data[..i + 1]) == Absorb(f, Absorb(f, st, rate, data[..i]), rate, [data[i]])
  {
    hide Absorb;
    AbsorbNext(f, st, rate, data, i, i + 1);
    assert data[i..i + 1] == [data[i]];
  }

  lemma AbsorbNothing(f: Perm, st: State, rate: nat)
    requires RateOk(rate) && st.n < rate
    ensures Absorb(f, st, rate, []) == st
  {
  }

  lemma AbsorbByte(f: Perm, st: State, rate: nat, b: bv8)
    requires RateOk(rate) && st.n < rate
    ensures Absorb(f, st, rate, [b]) == Absorb1(f, st, rate, b)
  {
    hide Absorb1;
    assert [b][..0] == [];
    assert Absorb(f, st, rate, []) == st;
  }

  class SHA3Context {
    const s: array<bv64>
    var nRate: nat
    var nLoaded: nat
    /** All data added so far. */
    ghost var message: Bytes

    predicate Shaped()
      reads this
    {
      s.Length == 25 && RateOk(nRate) && nLoaded < nRate
    }

    ghost predicate Valid()
      reads this, s
    {
      Shaped() && State(s[..], nLoaded) == Absorb(KeccakF, State(Zero(), 0), nRate, message)
    }

    /** SHA3Init */
    constructor (iSize: int)
      ensures Valid() && fresh(s)
      ensures message == [] && nRate == Rate(iSize)
    {
      s := new bv64[25](_ => 0);
      nRate := Rate(iSize);
      nLoaded := 0;
      message := [];
      new;
      assert s[..] == Zero();
    }

    /** Runs the permutation once the block is full. */
    method Advance(n: nat)
      requires s.Length == 25 && nLoaded + n <= nRate
      modifies this`nLoaded, s
      ensures State(s[..], nLoaded) ==
        if old(nLoaded) + n == nRate then State(KeccakF(old(s[..])), 0) else State(old(s[..]), old(nLoaded) + n)
    {
      nLoaded := nLoaded + n;
      if nLoaded >= nRate {
        KeccakF1600Step(s);
        nLoaded := 0;
      }
    }

    method AddWord(b: Bytes)
      requires Shaped() && nLoaded % 8 == 0 && |b| == 8
      modifies this`nLoaded, s
      ensures Shaped() && nLoaded % 8 == 0
      ensures State(s[..], nLoaded) == Absorb(KeccakF, State(old(s[..]), old(nLoaded)), nRate, b)
    {
      hide Absorb, KeccakF, Xor, Word;
      AbsorbWord(KeccakF, State(s[..], nLoaded), nRate, b);
      ghost var s0 := s[..];
      var w := nLoaded / 8;
      s[w] := Xor(s[w], Word(b));
      assert s[..] == XorWord(s0, w, Word(b));
      Advance(8);
    }

    method AddByte(b: bv8)
      requires Shaped()
      modifies this`nLoaded, s
      ensures Shaped()
      ensures State(s[..], nLoaded) == Absorb(KeccakF, State(old(s[..]), old(nLoaded)), nRate, [b])
    {
      hide Absorb, KeccakF, Xor, Placed;
      AbsorbByte(KeccakF, State(s[..], nLoaded), nRate, b);
      ghost var s0 := s[..];
      var w := nLoaded / 8;
      s[w] := Xor(s[w], Placed(b, nLoaded % 8));
      assert s[..] == XorByte(s0, nLoaded, b);
      Advance(1);
    }

    /** The word loop of SHA3Update; i is the number of bytes taken. */
    method AddWords(data: Bytes) returns (i: nat)
      requires Shaped() && nLoaded % 8 == 0
      modifies this`nLoaded, s
      ensures Shaped() && i <= |data|
      ensures State(s[..], nLoaded) == Absorb(KeccakF, State(old(s[..]), old(nLoaded)), nRate, data[..i])
    {
      ghost var st := State(s[..], nLoaded);
      i := 0;
      assert Absorb(KeccakF, st, nRate, []) == st;
      hide Absorb;
      while i + 7 < |data|
        invariant i <= |data| && Shaped() && nLoaded % 8 == 0
        invariant State(s[..], nLoaded) == Absorb(KeccakF, st, nRate, data[..i])
      {
        AbsorbNext(KeccakF, st, nRate, data, i, i + 8);
        AddWord(data[i..i + 8]);
        i := i + 8;
      }
    }

    /** The byte loop of SHA3Update. */
    method AddBytes(data: Bytes, from: nat)
      requires Shaped() && from <= |data|
      modifies this`nLoaded, s
      ensures Shaped()
      ensures State(s[..], nLoaded) == Absorb(KeccakF, State(old(s[..]), old(nLoaded)), nRate, data[from..])
    {
      ghost var st := State(s[..], nLoaded);
      var i := from;
      assert Absorb(KeccakF, st, nRate, []) == st;
      hide Absorb;
      ghost var rest := data[from..];
      while i < |data|
        invariant from <= i <= |data| && Shaped()
        invariant State(s[..], nLoaded) == Absorb(KeccakF, st, nRate, rest[..i - from])
      {
        AbsorbOneMore(KeccakF, st, nRate, rest, i - from);
        assert rest[i - from] == data[i];
        AddByte(data[i]);
        i := i + 1;
        assert rest[..i - 1 - from + 1] == rest[..i - from];
      }
      assert rest[..i - from] == rest;
    }

    /** SHA3Update: however the data is aligned, it is appended to the message. */
    method Update(data: Bytes, aligned: bool)
      requires Valid()
      modifies this`nLoaded, this`message, s
      ensures Valid() && message == old(message) + data
    {
      hide Absorb;
      AbsorbConcat(KeccakF, State(Zero(), 0), nRate, message, data);
      ghost var st := State(s[..], nLoaded);
      var i := 0;
      if nLoaded % 8 == 0 && aligned {
        i := AddWords(data);
      } else {
        AbsorbNothing(KeccakF, st, nRate);
      }
      AbsorbNext(KeccakF, st, nRate, data, i, |data|);
      assert data[..|data|] == data && data[i..|data|] == data[i..];
      AddBytes(data, i);
      message := message + data;
    }

    /** nLoaded = nRate - 1, which adds zero bytes to the message. */
    method Skip()
      requires Valid()
      modifies this`nLoaded, this`message
      ensures Valid() && nLoaded == nRate - 1
      ensures message == old(message) + Zeros(nRate - 1 - old(nLoaded))
    {
      hide Absorb;
      ghost var n := nRate - 1 - nLoaded;
      AbsorbConcat(KeccakF, State(Zero(), 0), nRate, message, Zeros(n));
      AbsorbZeros(KeccakF, State(s[..], nLoaded), nRate, n);
      nLoaded := nRate - 1;
      message := message + Zeros(n);
    }

    /** The padding SHA3Final adds, whatever number of bytes is left in the block. */
    method Pad(aligned: bool)
      requires Valid()
      modifies this`nLoaded, this`message, s
      ensures Valid() && message == Padded(old(message), nRate)
    {
      hide Absorb;
      AbsorbCount(KeccakF, State(Zero(), 0), nRate, message);
      if nLoaded == nRate - 1 {
        Update([0x86], aligned);
      } else {
        ghost var m, q := message, nRate - nLoaded;
        Update([0x06], aligned);
        AbsorbCount(KeccakF, State(Zero(), 0), nRate, message);
        ModStep(|m|, nRate);
        Skip();
        assert message == m + [0x06] + Zeros(q - 2);
        Update([0x80], aligned);
      }
    }

    /** SHA3Final: the first block of the sponge's output over the padded message. */
    method Final(aligned: bool) returns (digest: Bytes)
      requires Valid()
      modifies this`nLoaded, this`message, s
      ensures |Padded(old(message), nRate)| % nRate == 0
      ensures digest == Squeeze(SpongeState(KeccakF, Padded(old(message), nRate), nRate), nRate)
    {
      hide Absorb, SpongeState, Padded, ByteOf;
      PaddedBlocks(message, nRate);
      Pad(aligned);
      AbsorbIsSponge(KeccakF, message, nRate);
      digest := [];
      for i := 0 to nRate
        invariant digest == Squeeze(s[..], i)
      {
        digest := digest + [ByteAt(s[..], i)];
      }
    }
  }

  lemma DigestPrefix(m: Bytes, d: nat)
    requires Standard(d)
    ensures d / 8 <= Rate(d) && |Padded(m, Rate(d))| % Rate(d) == 0
    ensures Squeeze(SpongeState(KeccakF, Padded(m, Rate(d)), Rate(d)), Rate(d))[..d / 8] == Sha3(d, m)
  {
    hide SpongeState, Padded, ByteAt;
    PaddedBlocks(m, Rate(d));
    assert Rate(d) == (1600 - 2 * d) / 8;
  }

  /** sha3(X, SIZE) of a blob or a text: an error, or the SHA-3 digest. */
  method Sha3Func(data: Bytes, iSize: int, aligned: bool) returns (r: Option<Bytes>)
    ensures r == if Standard(iSize) then Some(Sha3(iSize, data)) else None
  {
    if !Standard(iSize) {
      return None;
    }
    hide SpongeState, Padded, ByteAt;
    var cx := new SHA3Context(iSize);
    cx.Update(data, aligned);
    assert cx.message == data;
    var full := cx.Final(aligned);
    DigestPrefix(data, iSize);
    r := Some(full[..iSize / 8]);
  }

  datatype Option<T> = Some(value: T) | None
}
