/**
 The byte stream that sha3_query() hashes: statements with the rows they return,
 written as tagged segments without delimiters, and its reading back.
 */
module Sha3Query {
  import opened Decimal
  import opened Arith
  import Sponge

  type Octet = c: char | c < 256 as char witness '\0'
  type Octets = seq<Octet>
  type I64 = v: int | -0x8000_0000_0000_0000 <= v < 0x8000_0000_0000_0000
  type U64 = u: int | 0 <= u < 0x1_0000_0000_0000_0000

  /** A value of a result row; a float is its IEEE bit pattern. */
  datatype Datum = Null | Integer(v: I64) | Float(bits: U64) | Text(z: Octets) | Blob(b: Octets)

  datatype Statement = Statement(sql: Octets, rows: seq<seq<Datum>>)

  // --------------------------------------------------------------------- the format

  /** The n low-order bytes of u, high byte first. */
  function BigEndian(u: nat, n: nat): (s: Octets)
    ensures |s| == n
  {
    if n == 0 then [] else BigEndian(u / 256, n - 1) + [(u % 256) as char]
  }

  /** The bits of a signed integer. */
  function Bits(v: I64): U64 { if v < 0 then v + 0x1_0000_0000_0000_0000 else v }

  function Numeral(n: nat): (s: Octets)
    ensures s == Dec(n)
  {
    var d := Dec(n);
    assert forall i | 0 <= i < |d| :: IsDigit(d[i]);
    d
  }

  function Sized(tag: Octet, z: Octets): Octets { [tag] + Numeral(|z|) + [':'] + z }

  datatype Segment = S(sql: Octets) | R | V(value: Datum)

  function Encoded(g: Segment): Octets {
    match g
    case S(sql) => Sized('S', sql)
    case R => ['R']
    case V(Null) => ['N']
    case V(Integer(v)) => ['I'] + BigEndian(Bits(v), 8)
    case V(Float(u)) => ['F'] + BigEndian(u, 8)
    case V(Text(z)) => Sized('T', z)
    case V(Blob(b)) => Sized('B', b)
  }

  function Stream(gs: seq<Segment>): Octets {
    if gs == [] then [] else Stream(gs[..|gs| - 1]) + Encoded(gs[|gs| - 1])
  }

  function Values(row: seq<Datum>): seq<Segment> { seq(|row|, i requires 0 <= i < |row| => V(row[i])) }

  function Rows(rows: seq<seq<Datum>>): seq<Segment> {
    if rows == [] then [] else Rows(rows[..|rows| - 1]) + [R] + Values(rows[|rows| - 1])
  }

  function Segments(list: seq<Statement>): seq<Segment> {
    if list == [] then []
    else var st := list[|list| - 1]; Segments(list[..|list| - 1]) + [S(st.sql)] + Rows(st.rows)
  }

  /** Everything that is hashed for a list of statements. */
  function Hashed(list: seq<Statement>): Octets { Stream(Segments(list)) }

  // ------------------------------------- the byte order that the comment describes

  /** The n low-order bytes of u, low byte first. */
  function LittleEndian(u: nat, n: nat): (s: Octets)
    ensures |s| == n
  {
    if n == 0 then [] else [(u % 256) as char] + LittleEndian(u / 256, n - 1)
  }

  /** Byte k of u, counted from the low end. */
  function ByteOf(u: nat, k: nat): Octet {
    if k == 0 then (u % 256) as char else ByteOf(u / 256, k - 1)
  }

  lemma {:induction false} LittleAt(u: nat, n: nat, k: nat)
    requires k < n
    ensures LittleEndian(u, n)[k] == ByteOf(u, k)
    decreases n
  {
    if k > 0 {
      LittleAt(u / 256, n - 1, k - 1);
    }
  }

  lemma {:induction false} BigAt(u: nat, n: nat, k: nat)
    requires k < n
    ensures BigEndian(u, n)[k] == ByteOf(u, n - 1 - k)
    decreases n
  {
    if k < n - 1 {
      BigAt(u / 256, n - 1, k);
    }
  }

  /** The eight bytes of u read the same from both ends. */
  predicate SameBothWays(u: nat) {
    forall k | 0 <= k < 8 :: ByteOf(u, k) == ByteOf(u, 7 - k)
  }

  /** The two byte orders agree exactly for numbers whose bytes read the same both ways. */
  lemma OrdersAgreeIff(u: nat)
    ensures BigEndian(u, 8) == LittleEndian(u, 8) <==> SameBothWays(u)
  {
    hide BigEndian, LittleEndian, ByteOf;
    var b, l := BigEndian(u, 8), LittleEndian(u, 8);
    if SameBothWays(u) {
      forall k | 0 <= k < 8 ensures b[k] == l[k] {
        BigAt(u, 8, k);
        LittleAt(u, 8, k);
        assert ByteOf(u, k) == ByteOf(u, 7 - k);
      }
    } else {
      var k :| 0 <= k < 8 && ByteOf(u, k) != ByteOf(u, 7 - k);
      BigAt(u, 8, k);
      LittleAt(u, 8, k);
      assert b[k] != l[k];
    }
  }

  /** An integer is hashed as the comment says exactly when its bytes read the same both ways; 1 is not. */
  lemma DocumentedOrder(v: I64)
    ensures Encoded(V(Integer(v))) == ['I'] + LittleEndian(Bits(v), 8) <==> SameBothWays(Bits(v))
    ensures !SameBothWays(Bits(1))
  {
    OrdersAgreeIff(Bits(v));
    hide BigEndian, LittleEndian;
    var b, l := BigEndian(Bits(v), 8), LittleEndian(Bits(v), 8);
    assert (['I'] + b)[1..] == b && (['I'] + l)[1..] == l;
    OneIsLopsided();
  }

  lemma OneIsLopsided()
    ensures ByteOf(1, 0) != ByteOf(1, 7)
  {
    assert ByteOf(1, 7) == ByteOf(0, 6);
    ZeroBytes(6);
  }

  lemma {:induction false} ZeroBytes(k: nat)
    ensures ByteOf(0, k) == 0 as char
  {
    if k > 0 { ZeroBytes(k - 1); }
  }

  // ------------------------------------------------------------- reading one segment

  datatype Next = Next(g: Segment, rest: Octets) | Bad

  function BigValue(s: Octets): nat {
    if s == [] then 0 else 256 * BigValue(s[..|s| - 1]) + s[|s| - 1] as nat
  }

  function Signed(u: nat): (v: int) {
    if u >= 0x8000_0000_0000_0000 then u - 0x1_0000_0000_0000_0000 else u
  }

  datatype Taken = Taken(z: Octets, rest: Octets) | Short

  /** <size>:<bytes> */
  function TakeSized(s: Octets): Taken {
    var k := Run(s);
    var n := Value(s[..k]);
    if k < |s| && s[k] == ':' && k + 1 + n <= |s| then Taken(s[k + 1..k + 1 + n], s[k + 1 + n..]) else Short
  }

  function TakeEight(s: Octets): Taken { if |s| < 8 then Short else Taken(s[..8], s[8..]) }

  function ReadSegment(s: Octets): Next {
    if s == [] then Bad
    else
      var tag, t := s[0], s[1..];
      if tag == 'R' then Next(R, t)
      else if tag == 'N' then Next(V(Null), t)
      else if tag == 'I' || tag == 'F' then
        match TakeEight(t)
        case Short => Bad
        case Taken(z, rest) =>
          var u := BigValue(z);
          if u >= 0x1_0000_0000_0000_0000 then Bad
          else Next(V(if tag == 'I' then Integer(Signed(u)) else Float(u)), rest)
      else if tag == 'S' || tag == 'T' || tag == 'B' then
        match TakeSized(t)
        case Short => Bad
        case Taken(z, rest) => Next(if tag == 'S' then S(z) else V(if tag == 'T' then Text(z) else Blob(z)), rest)
      else Bad
  }

  lemma {:induction false} BigRoundTrip(u: nat, n: nat, p: nat)
    requires p == Power256(n) && u < p
    ensures BigValue(BigEndian(u, n)) == u
    decreases n
  {
    if n > 0 {
      DivMod(u, 256);
      BigRoundTrip(u / 256, n - 1, Power256(n - 1));
      assert BigEndian(u, n)[..n - 1] == BigEndian(u / 256, n - 1);
    }
  }

  function Power256(n: nat): nat { if n == 0 then 1 else 256 * Power256(n - 1) }

  lemma EightBytes(u: U64, s: Octets)
    ensures TakeEight(BigEndian(u, 8) + s) == Taken(BigEndian(u, 8), s)
    ensures BigValue(BigEndian(u, 8)) == u
  {
    assert Power256(2) == 0x1_0000;
    assert Power256(4) == 0x1_0000_0000;
    assert Power256(6) == 0x1_0000_0000_0000;
    assert Power256(8) == 0x1_0000_0000_0000_0000;
    BigRoundTrip(u, 8, Power256(8));
    hide BigEndian, BigValue, Power256;
  }

  lemma SizedReads(tag: Octet, z: Octets, s: Octets)
    ensures var t := Sized(tag, z) + s; t != [] && t[0] == tag && TakeSized(t[1..]) == Taken(z, s)
  {
    hide Dec, Value, Run;
    var rest := [':'] + z + s;
    var t := Sized(tag, z) + s;
    assert t[1..] == Dec(|z|) + rest;
    ReadsBack(|z|, rest);
    var k := |Dec(|z|)|;
    assert (Dec(|z|) + rest)[k + 1..k + 1 + |z|] == z;
    assert (Dec(|z|) + rest)[k + 1 + |z|..] == s;
  }

  /** The first segment of a stream is read back, and the rest is left. */
  lemma SegmentReads(g: Segment, s: Octets)
    ensures ReadSegment(Encoded(g) + s) == Next(g, s)
  {
    hide Sized, TakeSized, TakeEight, BigEndian, BigValue;
    var t := Encoded(g) + s;
    match g
    case S(sql) => SizedReads('S', sql, s);
    case R => assert t[1..] == s;
    case V(Null) => assert t[1..] == s;
    case V(Integer(v)) => EightBytes(Bits(v), s); assert t[1..] == BigEndian(Bits(v), 8) + s;
    case V(Float(u)) => EightBytes(u, s); assert t[1..] == BigEndian(u, 8) + s;
    case V(Text(z)) => SizedReads('T', z, s);
    case V(Blob(b)) => SizedReads('B', b, s);
  }

  // ------------------------------------------------------------- unique decodability

  lemma {:induction false} StreamConcat(a: seq<Segment>, b: seq<Segment>)
    ensures Stream(a + b) == Stream(a) + Stream(b)
    decreases |b|
  {
    hide Encoded;
    if b == [] {
      assert a + b == a;
    } else {
      StreamConcat(a, b[..|b| - 1]);
      assert (a + b)[..|a + b| - 1] == a + b[..|b| - 1];
    }
  }

  lemma StreamCons(gs: seq<Segment>)
    requires gs != []
    ensures Stream(gs) == Encoded(gs[0]) + Stream(gs[1..])
  {
    hide Encoded;
    assert gs == [gs[0]] + gs[1..];
    StreamConcat([gs[0]], gs[1..]);
    assert [gs[0]][..0] == [];
    assert Stream([gs[0]]) == Encoded(gs[0]);
  }

  lemma StreamEmpty(gs: seq<Segment>)
    ensures Stream(gs) == [] <==> gs == []
  {
    if gs != [] {
      StreamCons(gs);
      NonEmpty(gs[0]);
    }
  }

  lemma NonEmpty(g: Segment)
    ensures Encoded(g) != []
  {
  }

  lemma {:induction false} StreamInjective(gs: seq<Segment>, hs: seq<Segment>)
    requires Stream(gs) == Stream(hs)
    ensures gs == hs
    decreases |gs|
  {
    hide Stream, Encoded, ReadSegment;
    StreamEmpty(gs);
    StreamEmpty(hs);
    if gs != [] {
      StreamCons(gs);
      StreamCons(hs);
      SegmentReads(gs[0], Stream(gs[1..]));
      SegmentReads(hs[0], Stream(hs[1..]));
      StreamInjective(gs[1..], hs[1..]);
      assert gs == [gs[0]] + gs[1..] && hs == [hs[0]] + hs[1..];
    }
  }

  // ------------------------------------------------ the grammar, from front to back

  /** The eight bytes of u, the high one first. */
  function EightOf(u: nat): Octets { seq(8, j requires 0 <= j < 8 => ByteOf(u, 7 - j)) }

  function ValueText(v: Datum): Octets {
    match v
    case Null => ['N']
    case Integer(i) => ['I'] + EightOf(if i < 0 then i + 0x1_0000_0000_0000_0000 else i)
    case Float(u) => ['F'] + EightOf(u)
    case Blob(b) => ['B'] + Numeral(|b|) + [':'] + b
    case Text(z) => ['T'] + Numeral(|z|) + [':'] + z
  }

  function ValuesText(row: seq<Datum>): Octets {
    if row == [] then [] else ValueText(row[0]) + ValuesText(row[1..])
  }

  function RowsText(rows: seq<seq<Datum>>): Octets {
    if rows == [] then [] else ['R'] + ValuesText(rows[0]) + RowsText(rows[1..])
  }

  function StatementText(st: Statement): Octets {
    ['S'] + Numeral(|st.sql|) + [':'] + st.sql + RowsText(st.rows)
  }

  function QueryText(list: seq<Statement>): Octets {
    if list == [] then [] else StatementText(list[0]) + QueryText(list[1..])
  }

  lemma EncodedIsText(v: Datum)
    ensures Encoded(V(v)) == ValueText(v)
  {
    hide BigEndian, ByteOf, Numeral;
    match v
    case Integer(i) => BigIsEight(Bits(i));
    case Float(u) => BigIsEight(u);
    case _ =>
  }

  lemma BigIsEight(u: nat)
    ensures BigEndian(u, 8) == EightOf(u)
  {
    hide BigEndian, ByteOf;
    forall k | 0 <= k < 8 ensures BigEndian(u, 8)[k] == EightOf(u)[k] {
      BigAt(u, 8, k);
    }
  }

  lemma {:induction false} ValuesAreText(row: seq<Datum>)
    ensures Stream(Values(row)) == ValuesText(row)
    decreases |row|
  {
    hide Encoded, ValueText, Stream;
    StreamEmpty(Values(row));
    if row != [] {
      StreamCons(Values(row));
      assert Values(row)[1..] == Values(row[1..]);
      EncodedIsText(row[0]);
      ValuesAreText(row[1..]);
    }
  }

  lemma {:induction false} RowsConcat(a: seq<seq<Datum>>, b: seq<seq<Datum>>)
    ensures RowsText(a + b) == RowsText(a) + RowsText(b)
    decreases |a|
  {
    hide ValuesText;
    if a == [] {
      assert a + b == b;
    } else {
      RowsConcat(a[1..], b);
      assert (a + b)[1..] == a[1..] + b;
    }
  }

  lemma NothingText()
    ensures RowsText([]) == [] && QueryText([]) == []
  {
  }

  lemma OneRowText(row: seq<Datum>)
    ensures RowsText([row]) == ['R'] + ValuesText(row)
  {
    assert [row][1..] == [] && RowsText([]) == [];
  }

  lemma OneSegment(g: Segment)
    ensures Stream([g]) == Encoded(g)
  {
    assert [g][..0] == [];
  }

  lemma {:induction false} RowsAreText(rows: seq<seq<Datum>>)
    ensures Stream(Rows(rows)) == RowsText(rows)
    decreases |rows|
  {
    hide Stream, ValuesText, RowsText;
    if rows == [] {
      StreamEmpty([]);
      NothingText();
    } else {
      var n := |rows| - 1;
      RowsAreText(rows[..n]);
      ValuesAreText(rows[n]);
      OneRowText(rows[n]);
      OneSegment(R);
      RowsConcat(rows[..n], [rows[n]]);
      assert rows == rows[..n] + [rows[n]];
      StreamConcat(Rows(rows[..n]), [R]);
      StreamConcat(Rows(rows[..n]) + [R], Values(rows[n]));
    }
  }

  lemma {:induction false} QueryConcat(a: seq<Statement>, b: seq<Statement>)
    ensures QueryText(a + b) == QueryText(a) + QueryText(b)
    decreases |a|
  {
    hide StatementText;
    if a == [] {
      assert a + b == b;
    } else {
      QueryConcat(a[1..], b);
      assert (a + b)[1..] == a[1..] + b;
    }
  }

  lemma OneStatementText(st: Statement)
    ensures QueryText([st]) == StatementText(st)
  {
    hide StatementText;
    assert [st][1..] == [] && QueryText([]) == [];
  }

  /**
   What is hashed: for every statement an S with its length and text, then for
   every row an R and its values, each with its own letter, and nothing between.
   */
  lemma {:induction false} HashedGrammar(list: seq<Statement>)
    ensures Hashed(list) == QueryText(list)
    decreases |list|
  {
    hide Stream, RowsText, Numeral, QueryText;
    if list == [] {
      StreamEmpty([]);
      NothingText();
    } else {
      var n := |list| - 1;
      var st := list[n];
      HashedGrammar(list[..n]);
      RowsAreText(st.rows);
      OneStatementText(st);
      OneSegment(S(st.sql));
      QueryConcat(list[..n], [st]);
      assert list == list[..n] + [st];
      StreamConcat(Segments(list[..n]), [S(st.sql)]);
      StreamConcat(Segments(list[..n]) + [S(st.sql)], Rows(st.rows));
    }
  }

  predicate Unmarked(y: seq<Segment>, mark: Segment -> bool) { forall i | 0 <= i < |y| :: !mark(y[i]) }

  /** A list splits in only one way at its last marked element. */
  lemma LastMark(x: seq<Segment>, m: Segment, y: seq<Segment>, x': seq<Segment>, m': Segment, y': seq<Segment>,
                 mark: Segment -> bool)
    requires x + [m] + y == x' + [m'] + y' && mark(m) && mark(m') && Unmarked(y, mark) && Unmarked(y', mark)
    ensures x == x' && m == m' && y == y'
  {
    var a, b := x + [m] + y, x' + [m'] + y';
    assert a[|x|] == m && b[|x'|] == m';
    forall i | |x| < i < |a| ensures !mark(a[i]) { assert a[i] == y[i - |x| - 1]; }
    forall i | |x'| < i < |a| ensures !mark(a[i]) { assert b[i] == y'[i - |x'| - 1]; }
    assert a[..|x|] == x && b[..|x'|] == x' && a[|x| + 1..] == y && b[|x'| + 1..] == y';
  }

  predicate IsR(g: Segment) { g.R? }

  predicate IsS(g: Segment) { g.S? }

  lemma {:induction false} RowsPlain(rows: seq<seq<Datum>>)
    ensures Unmarked(Rows(rows), IsS)
  {
    if rows != [] {
      RowsPlain(rows[..|rows| - 1]);
    }
  }

  lemma ValuesInjective(a: seq<Datum>, b: seq<Datum>)
    requires Values(a) == Values(b)
    ensures a == b
  {
    forall i | 0 <= i < |a| ensures |a| == |b| && a[i] == b[i] {
      assert |Values(a)| == |Values(b)| && Values(a)[i] == Values(b)[i];
    }
    assert |Values(a)| == |Values(b)|;
  }

  lemma {:induction false} RowsInjective(a: seq<seq<Datum>>, b: seq<seq<Datum>>)
    requires Rows(a) == Rows(b)
    ensures a == b
    decreases |a|
  {
    if a != [] && b != [] {
      var a', r, b', q := a[..|a| - 1], a[|a| - 1], b[..|b| - 1], b[|b| - 1];
      LastMark(Rows(a'), R, Values(r), Rows(b'), R, Values(q), IsR);
      ValuesInjective(r, q);
      RowsInjective(a', b');
      assert a == a' + [r] && b == b' + [q];
    }
  }

  lemma {:induction false} SegmentsInjective(a: seq<Statement>, b: seq<Statement>)
    requires Segments(a) == Segments(b)
    ensures a == b
    decreases |a|
  {
    hide Rows, Unmarked;
    if a != [] && b != [] {
      var a', s, b', t := a[..|a| - 1], a[|a| - 1], b[..|b| - 1], b[|b| - 1];
      RowsPlain(s.rows);
      RowsPlain(t.rows);
      LastMark(Segments(a'), S(s.sql), Rows(s.rows), Segments(b'), S(t.sql), Rows(t.rows), IsS);
      RowsInjective(s.rows, t.rows);
      SegmentsInjective(a', b');
      assert a == a' + [s] && b == b' + [t];
    }
  }

  /** Equal streams come from equal statements with equal rows. */
  lemma UniquelyDecodable(a: seq<Statement>, b: seq<Statement>)
    requires Hashed(a) == Hashed(b)
    ensures a == b
  {
    StreamInjective(Segments(a), Segments(b));
    SegmentsInjective(a, b);
  }

  // ------------------------------------------------------------------------ the code

  function Byte(c: Octet): bv8 { (c as int) as bv8 }

  /** The same bytes, as the hash takes them. */
  function ToBytes(s: Octets): Sponge.Bytes { seq(|s|, i requires 0 <= i < |s| => Byte(s[i])) }

  lemma BytesConcat(a: Octets, b: Octets)
    ensures ToBytes(a + b) == ToBytes(a) + ToBytes(b)
  {
    hide Byte;
  }

  /** The nine bytes of an integer or a float: the tag, then u shifted out from the low end. */
  method NineBytes(tag: Octet, bits: U64) returns (x: Octets)
    ensures x == [tag] + BigEndian(bits, 8)
  {
    var u: nat := bits;
    var low: Octets := [];
    var j := 8;
    while j >= 1
      invariant 0 <= j <= 8
      invariant BigEndian(u, j) + low == BigEndian(bits, 8)
    {
      assert BigEndian(u, j) == BigEndian(u / 256, j - 1) + [(u % 256) as char];
      hide BigEndian;
      low := [(u % 256) as char] + low;
      u := u / 256;
      j := j - 1;
    }
    x := [tag] + low;
  }

  lemma StreamNext(gs: seq<Segment>, g: Segment)
    ensures Stream(gs + [g]) == Stream(gs) + Encoded(g)
  {
    hide Encoded;
    assert (gs + [g])[..|gs|] == gs;
  }

  class Query {
    const cx: Sponge.SHA3Context
    /** The segments hashed so far. */
    ghost var done: seq<Segment>

    ghost predicate Valid()
      reads this, cx, cx.s
    {
      cx.Valid() && cx.message == ToBytes(Stream(done))
    }

    constructor (iSize: int)
      ensures Valid() && done == [] && fresh(cx) && fresh(cx.s) && cx.nRate == Sponge.Rate(iSize)
    {
      cx := new Sponge.SHA3Context(iSize);
      done := [];
    }

    /** SHA3Update with a whole segment. */
    method Add(ghost g: Segment, x: Octets)
      requires Valid() && x == Encoded(g)
      modifies this`done, cx`nLoaded, cx`message, cx.s
      ensures Valid() && done == old(done) + [g]
    {
      StreamNext(done, g);
      hide Stream, Encoded, Sponge.SHA3Context.Valid, ToBytes;
      BytesConcat(Stream(done), x);
      cx.Update(ToBytes(x), false);
      done := done + [g];
    }

    /** A segment with a size: hash_step_vformat, then the bytes. */
    method AddSized(ghost g: Segment, tag: Octet, z: Octets)
      requires Valid() && Sized(tag, z) == Encoded(g)
      modifies this`done, cx`nLoaded, cx`message, cx.s
      ensures Valid() && done == old(done) + [g]
    {
      StreamNext(done, g);
      hide Stream, Encoded, Sponge.SHA3Context.Valid, ToBytes;
      var x := [tag] + Numeral(|z|) + [':'];
      assert Sized(tag, z) == x + z;
      BytesConcat(Stream(done), x);
      BytesConcat(Stream(done) + x, z);
      assert Stream(done) + x + z == Stream(done) + (x + z);
      cx.Update(ToBytes(x), false);
      cx.Update(ToBytes(z), false);
      done := done + [g];
    }

    method AddValue(v: Datum)
      requires Valid()
      modifies this`done, cx`nLoaded, cx`message, cx.s
      ensures Valid() && done == old(done) + [V(v)]
    {
      hide Valid;
      match v
      case Null => Add(V(v), ['N']);
      case Integer(i) => var x := NineBytes('I', Bits(i)); Add(V(v), x);
      case Float(u) => var x := NineBytes('F', u); Add(V(v), x);
      case Text(z) => AddSized(V(v), 'T', z);
      case Blob(b) => AddSized(V(v), 'B', b);
    }

    method AddRow(row: seq<Datum>)
      requires Valid()
      modifies this`done, cx`nLoaded, cx`message, cx.s
      ensures Valid() && done == old(done) + [R] + Values(row)
    {
      hide Valid;
      Add(R, ['R']);
      for i := 0 to |row|
        invariant Valid() && done == old(done) + [R] + Values(row[..i])
      {
        AddValue(row[i]);
        assert Values(row[..i + 1]) == Values(row[..i]) + [V(row[i])];
      }
      assert row[..|row|] == row;
    }

    method AddStatement(st: Statement)
      requires Valid()
      modifies this`done, cx`nLoaded, cx`message, cx.s
      ensures Valid() && done == old(done) + [S(st.sql)] + Rows(st.rows)
    {
      hide Valid;
      AddSized(S(st.sql), 'S', st.sql);
      for i := 0 to |st.rows|
        invariant Valid() && done == old(done) + [S(st.sql)] + Rows(st.rows[..i])
      {
        AddRow(st.rows[i]);
        assert st.rows[..i + 1][..i] == st.rows[..i];
      }
      assert st.rows[..|st.rows|] == st.rows;
    }
  }

  /** sha3_query: an error, or the SHA-3 digest of the stream. */
  method Sha3QueryFunc(list: seq<Statement>, iSize: int) returns (r: Sponge.Option<Sponge.Bytes>)
    ensures r == if Sponge.Standard(iSize) then Sponge.Some(Sponge.Sha3(iSize, ToBytes(Hashed(list)))) else Sponge.None
  {
    if !Sponge.Standard(iSize) { return Sponge.None; }
    var q := new Query(iSize);
    for i := 0 to |list|
      invariant q.Valid() && q.done == Segments(list[..i]) && fresh(q.cx) && fresh(q.cx.s) && fresh(q)
      invariant q.cx.nRate == Sponge.Rate(iSize)
    {
      q.AddStatement(list[i]);
      assert list[..i + 1][..i] == list[..i];
    }
    assert list[..|list|] == list;
    ghost var m := q.cx.message;
    var full := q.cx.Final(false);
    Sponge.DigestPrefix(m, iSize);
    r := Sponge.Some(full[..iSize / 8]);
  }
}
