/**
 Column affinity from a type name: one pass over the name with a rolling window
 of four characters, against the table of substrings in order of priority.
 */
module Affinity {
  type Byte = b: int | 0 <= b < 256
  type Bytes = seq<Byte>

  datatype Aff = BlobAff | TextAff | NumericAff | IntegerAff | RealAff

  /** sqlite3UpperToLower */
  function Lower(b: Byte): Byte { if 65 <= b <= 90 then b + 32 else b }

  const INT: Bytes := [105, 110, 116]
  const CHAR: Bytes := [99, 104, 97, 114]
  const CLOB: Bytes := [99, 108, 111, 98]
  const TEXT: Bytes := [116, 101, 120, 116]
  const BLOB: Bytes := [98, 108, 111, 98]
  const REAL: Bytes := [114, 101, 97, 108]
  const FLOA: Bytes := [102, 108, 111, 97]
  const DOUB: Bytes := [100, 111, 117, 98]

  function Ascii(s: string): Bytes
    requires forall i | 0 <= i < |s| :: s[i] < 128 as char
  {
    seq(|s|, i requires 0 <= i < |s| => s[i] as int)
  }

  lemma Spelling()
    ensures INT == Ascii("int") && CHAR == Ascii("char") && CLOB == Ascii("clob") && TEXT == Ascii("text")
    ensures BLOB == Ascii("blob") && REAL == Ascii("real") && FLOA == Ascii("floa") && DOUB == Ascii("doub")
  {
  }

  // ----------------------------------------------------------------- the priority table

  predicate LowerCase(w: Bytes) { forall i | 0 <= i < |w| :: 97 <= w[i] <= 122 }

  /** b is the lower-case letter c or its capital. */
  predicate IsLetter(b: Byte, c: Byte) { b == c || (b as int) + 32 == c as int }

  /** s ends with the lower-case word w, whatever the case of its letters. */
  predicate EndsWith(s: Bytes, w: Bytes) {
    |w| <= |s| && forall i | 0 <= i < |w| :: IsLetter(s[|s| - |w| + i], w[i])
  }

  /** w is a substring of s. */
  predicate Contains(s: Bytes, w: Bytes) {
    exists k | 0 <= k <= |s| :: EndsWith(s[..k], w)
  }

  predicate HasText(s: Bytes) { Contains(s, CHAR) || Contains(s, CLOB) || Contains(s, TEXT) }

  predicate HasReal(s: Bytes) { Contains(s, REAL) || Contains(s, FLOA) || Contains(s, DOUB) }

  function Table(s: Bytes): Aff {
    if Contains(s, INT) then IntegerAff
    else if HasText(s) then TextAff
    else if Contains(s, BLOB) then BlobAff
    else if HasReal(s) then RealAff
    else NumericAff
  }

  predicate OccursAt(s: Bytes, w: Bytes, k: nat) {
    k + |w| <= |s| && forall i | 0 <= i < |w| :: s[k + i] == w[i] || s[k + i] as int == (w[i] as int) - 32
  }

  /** A word is contained if its letters, each in either case, follow one another somewhere. */
  lemma ContainsMeans(s: Bytes, w: Bytes)
    ensures Contains(s, w) <==> exists k: nat :: OccursAt(s, w, k)
  {
    if Contains(s, w) {
      var e :| 0 <= e <= |s| && EndsWith(s[..e], w);
      var k := e - |w|;
      forall i | 0 <= i < |w| ensures IsLetter(s[k + i], w[i]) {
        assert IsLetter(s[..e][|s[..e]| - |w| + i], w[i]);
      }
      assert OccursAt(s, w, k);
    }
    if k: nat :| OccursAt(s, w, k) {
      assert EndsWith(s[..k + |w|], w);
    }
  }

  /** The same letter, or a capital and the letter 32 places after it. */
  predicate SameButCase(a: Byte, b: Byte) {
    a == b || (65 <= a <= 90 && b as int == (a as int) + 32) || (65 <= b <= 90 && a as int == (b as int) + 32)
  }

  lemma ContainsIgnoresCase(s: Bytes, t: Bytes, w: Bytes)
    requires |s| == |t| && LowerCase(w) && forall i | 0 <= i < |s| :: SameButCase(s[i], t[i])
    ensures Contains(s, w) ==> Contains(t, w)
  {
    if Contains(s, w) {
      ContainsMeans(s, w);
      ContainsMeans(t, w);
      var k: nat :| OccursAt(s, w, k);
      forall i | 0 <= i < |w| ensures IsLetter(t[k + i], w[i]) {
        assert SameButCase(s[k + i], t[k + i]);
      }
      assert OccursAt(t, w, k);
    }
  }

  /** Names that differ only in the case of letters have the same affinity. */
  lemma TableIgnoresCase(s: Bytes, t: Bytes)
    requires |s| == |t| && forall i | 0 <= i < |s| :: SameButCase(s[i], t[i])
    ensures Table(s) == Table(t)
  {
    forall w | LowerCase(w) ensures Contains(s, w) == Contains(t, w) {
      ContainsIgnoresCase(s, t, w);
      ContainsIgnoresCase(t, s, w);
    }
    hide Contains;
    assert LowerCase(INT) && LowerCase(CHAR) && LowerCase(CLOB) && LowerCase(TEXT);
    assert LowerCase(BLOB) && LowerCase(REAL) && LowerCase(FLOA) && LowerCase(DOUB);
  }

  lemma ContainsNext(s: Bytes, w: Bytes, k: nat)
    requires k < |s|
    ensures Contains(s[..k + 1], w) <==> Contains(s[..k], w) || EndsWith(s[..k + 1], w)
  {
    var t, t' := s[..k], s[..k + 1];
    hide EndsWith;
    if Contains(t, w) {
      var i :| 0 <= i <= |t| && EndsWith(t[..i], w);
      assert t[..i] == t'[..i];
    }
    if EndsWith(t', w) {
      assert t'[..k + 1] == t';
    }
    if Contains(t', w) && !EndsWith(t', w) {
      var i :| 0 <= i <= |t'| && EndsWith(t'[..i], w);
      assert t'[..k + 1] == t';
      assert t[..i] == t'[..i];
    }
  }

  lemma ContainsLonger(s: Bytes, w: Bytes, k: nat)
    requires k <= |s| && Contains(s[..k], w)
    ensures Contains(s, w)
  {
    var i :| 0 <= i <= k && EndsWith(s[..k][..i], w);
    assert s[..k][..i] == s[..i];
  }

  // ------------------------------------------------------------------ the rolling window

  const M24: nat := 0x100_0000
  const M32: nat := 0x1_0000_0000

  /** h after s: (h << 8) + c in 32 bits. */
  function Window(s: Bytes): (h: nat)
    ensures h < M32
  {
    if s == [] then 0 else (256 * Window(s[..|s| - 1]) + Lower(s[|s| - 1])) % M32
  }

  function Pack(a: nat, b: nat, c: nat, d: nat): nat { 0x100_0000 * a + 0x1_0000 * b + 0x100 * c + d }

  function Code3(w: Bytes): nat
    requires |w| == 3
  {
    Pack(0, w[0], w[1], w[2])
  }

  function Code4(w: Bytes): nat
    requires |w| == 4
  {
    Pack(w[0], w[1], w[2], w[3])
  }

  /** The character i places before the end, or 0. */
  function Back(s: Bytes, i: nat): Byte { if i < |s| then Lower(s[|s| - 1 - i]) else 0 }

  lemma {:induction false} WindowIs(s: Bytes)
    ensures Window(s) == Pack(Back(s, 3), Back(s, 2), Back(s, 1), Back(s, 0))
    decreases |s|
  {
    if s != [] {
      var t := s[..|s| - 1];
      WindowIs(t);
      assert Back(s, 3) == Back(t, 2) && Back(s, 2) == Back(t, 1) && Back(s, 1) == Back(t, 0);
      assert 256 * Window(t) + Back(s, 0) == M32 * Back(t, 3) + Pack(Back(s, 3), Back(s, 2), Back(s, 1), Back(s, 0));
    }
  }

  lemma PackLow(a: Byte, b: Byte, c: Byte, d: Byte)
    ensures Pack(a, b, c, d) % M24 == Pack(0, b, c, d)
  {
  }

  lemma PackUnique(a: Byte, b: Byte, c: Byte, d: Byte, a': Byte, b': Byte, c': Byte, d': Byte)
    ensures Pack(a, b, c, d) == Pack(a', b', c', d') <==> a == a' && b == b' && c == c' && d == d'
  {
    LastDigit(a, b, a', b');
    LastDigit(256 * (a as int) + b, c, 256 * (a' as int) + b', c');
    LastDigit(0x1_0000 * (a as int) + 256 * (b as int) + c, d, 0x1_0000 * (a' as int) + 256 * (b' as int) + c', d');
  }

  lemma LastDigit(x: int, d: Byte, x': int, d': Byte)
    ensures 256 * x + d == 256 * x' + d' <==> x == x' && d == d'
  {
  }

  lemma EndsWith4(s: Bytes, w: Bytes)
    requires |w| == 4 <= |s| && LowerCase(w)
    ensures EndsWith(s, w) <==> Back(s, 3) == w[0] && Back(s, 2) == w[1] && Back(s, 1) == w[2] && Back(s, 0) == w[3]
  {
    if EndsWith(s, w) {
      assert IsLetter(s[|s| - 4 + 0], w[0]) && IsLetter(s[|s| - 4 + 1], w[1]);
      assert IsLetter(s[|s| - 4 + 2], w[2]) && IsLetter(s[|s| - 4 + 3], w[3]);
    }
  }

  lemma EndsWith3(s: Bytes, w: Bytes)
    requires |w| == 3 <= |s| && LowerCase(w)
    ensures EndsWith(s, w) <==> Back(s, 2) == w[0] && Back(s, 1) == w[1] && Back(s, 0) == w[2]
  {
    if EndsWith(s, w) {
      assert IsLetter(s[|s| - 3 + 0], w[0]) && IsLetter(s[|s| - 3 + 1], w[1]) && IsLetter(s[|s| - 3 + 2], w[2]);
    }
  }

  /** The window equals the code of a word exactly when the text read so far ends with it. */
  lemma WindowIsWord(s: Bytes, w: Bytes)
    requires |w| == 4 && LowerCase(w)
    ensures Window(s) == Code4(w) <==> EndsWith(s, w)
  {
    hide Window, Pack, Lower, IsLetter;
    WindowIs(s);
    PackUnique(Back(s, 3), Back(s, 2), Back(s, 1), Back(s, 0), w[0], w[1], w[2], w[3]);
    if |s| >= 4 {
      EndsWith4(s, w);
    }
  }

  /** The same for three characters, the top byte masked away. */
  lemma WindowIsInt(s: Bytes, w: Bytes)
    requires |w| == 3 && LowerCase(w)
    ensures Window(s) % M24 == Code3(w) <==> EndsWith(s, w)
  {
    hide Window, Pack, Lower, IsLetter;
    WindowIs(s);
    PackLow(Back(s, 3), Back(s, 2), Back(s, 1), Back(s, 0));
    PackUnique(0, Back(s, 2), Back(s, 1), Back(s, 0), 0, w[0], w[1], w[2]);
    if |s| >= 3 {
      EndsWith3(s, w);
    }
  }

  // --------------------------------------------------------------------------- the scan

  predicate IsText(h: nat) { h == Code4(CHAR) || h == Code4(CLOB) || h == Code4(TEXT) }

  predicate IsBlob(h: nat) { h == Code4(BLOB) }

  predicate IsReal(h: nat) { h == Code4(REAL) || h == Code4(FLOA) || h == Code4(DOUB) }

  predicate IsInt(h: nat) { h % M24 == Code3(INT) }

  lemma OneWordAtATime(h: nat)
    ensures !(IsText(h) && IsBlob(h)) && !(IsText(h) && IsReal(h)) && !(IsText(h) && IsInt(h))
    ensures !(IsBlob(h) && IsReal(h)) && !(IsBlob(h) && IsInt(h)) && !(IsReal(h) && IsInt(h))
  {
  }

  /** The affinity after one more character, by the word that ends there. */
  function Updated(aff: Aff, h: nat): Aff {
    if IsText(h) then TextAff
    else if IsBlob(h) && (aff == NumericAff || aff == RealAff) then BlobAff
    else if IsReal(h) && aff == NumericAff then RealAff
    else if IsInt(h) then IntegerAff
    else aff
  }

  lemma UpdatedIsTable(s: Bytes, k: nat)
    requires k < |s| && !Contains(s[..k], INT)
    ensures Updated(Table(s[..k]), Window(s[..k + 1])) == Table(s[..k + 1])
  {
    WordsAt(s, k);
    OneWordAtATime(Window(s[..k + 1]));
    hide Contains, EndsWith, Window, HasText, HasReal, IsText, IsBlob, IsReal, IsInt;
  }

  /** What the window after one more character says about every word of the table. */
  lemma WordsAt(s: Bytes, k: nat)
    requires k < |s|
    ensures var t, h := s[..k + 1], Window(s[..k + 1]);
      (Contains(t, INT) <==> Contains(s[..k], INT) || IsInt(h))
      && (HasText(t) <==> HasText(s[..k]) || IsText(h))
      && (Contains(t, BLOB) <==> Contains(s[..k], BLOB) || IsBlob(h))
      && (HasReal(t) <==> HasReal(s[..k]) || IsReal(h))
  {
    hide Contains, EndsWith, Window, Code4, Code3;
    var t := s[..k + 1];
    ContainsNext(s, INT, k);
    WindowIsInt(t, INT);
    WordAt(s, CHAR, k);
    WordAt(s, CLOB, k);
    WordAt(s, TEXT, k);
    WordAt(s, BLOB, k);
    WordAt(s, REAL, k);
    WordAt(s, FLOA, k);
    WordAt(s, DOUB, k);
  }

  lemma WordAt(s: Bytes, w: Bytes, k: nat)
    requires k < |s| && |w| == 4 && LowerCase(w)
    ensures Contains(s[..k + 1], w) <==> Contains(s[..k], w) || Window(s[..k + 1]) == Code4(w)
  {
    hide Contains, EndsWith, Window, Code4;
    ContainsNext(s, w, k);
    WindowIsWord(s[..k + 1], w);
  }

  lemma EmptyName()
    ensures Table([]) == NumericAff && !Contains([], INT) && Window([]) == 0
  {
  }

  /** sqlite3AffinityType */
  method AffinityType(zIn: Bytes) returns (aff: Aff)
    ensures aff == Table(zIn)
  {
    EmptyName();
    hide Contains, Table, Window, Code3, Code4, HasText, HasReal;
    assert zIn[..0] == [];
    var h := 0;
    aff := NumericAff;
    var i := 0;
    while i < |zIn|
      invariant i <= |zIn| && h == Window(zIn[..i])
      invariant !Contains(zIn[..i], INT) && aff == Table(zIn[..i])
    {
      WindowNext(zIn, i);
      UpdatedIsTable(zIn, i);
      IntegerIff(zIn[..i]);
      IntegerIff(zIn[..i + 1]);
      h := (256 * h + Lower(zIn[i])) % M32;
      i := i + 1;
      if h == Code4(CHAR) {
        aff := TextAff;
      } else if h == Code4(CLOB) {
        aff := TextAff;
      } else if h == Code4(TEXT) {
        aff := TextAff;
      } else if h == Code4(BLOB) && (aff == NumericAff || aff == RealAff) {
        aff := BlobAff;
      } else if h == Code4(REAL) && aff == NumericAff {
        aff := RealAff;
      } else if h == Code4(FLOA) && aff == NumericAff {
        aff := RealAff;
      } else if h == Code4(DOUB) && aff == NumericAff {
        aff := RealAff;
      } else if h % M24 == Code3(INT) {
        aff := IntegerAff;
        IntegerStays(zIn, i);
        return;
      }
    }
    assert zIn[..i] == zIn;
  }

  lemma WindowNext(s: Bytes, k: nat)
    requires k < |s|
    ensures Window(s[..k + 1]) == (256 * Window(s[..k]) + Lower(s[k])) % M32
  {
    assert s[..k + 1][..k] == s[..k];
  }

  lemma IntegerIff(s: Bytes)
    ensures Table(s) == IntegerAff <==> Contains(s, INT)
  {
    hide Contains;
  }

  /** Once INT was seen the rest of the name does not matter. */
  lemma IntegerStays(s: Bytes, k: nat)
    requires k <= |s| && Table(s[..k]) == IntegerAff
    ensures Table(s) == IntegerAff
  {
    IntegerIff(s[..k]);
    ContainsLonger(s, INT, k);
    IntegerIff(s);
  }
}
