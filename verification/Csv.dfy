/**
 Comma-separated values: the writer that quotes a field only when it must, and
 the reader that takes one field at a time from a stream (section 2 of RFC 4180).
 */
module Csv {

  type Byte = x: int | 0 <= x < 256
  type Bytes = seq<Byte>

  const QUOTE: Byte := 34
  const CR: Byte := 13
  const LF: Byte := 10
  const EOF: int := -1

  /** Column separators for which the shell promises a faithful copy. */
  predicate SepOk(sep: Byte) { 0 < sep < 128 && sep != QUOTE && sep != CR && sep != LF }

  // ------------------------------------------------------------------ the format

  /** The table needCsvQuote. */
  predicate NeedsQuote(b: Byte) { b <= 32 || b == QUOTE || b == 39 || b >= 127 }

  predicate Bare(z: Bytes, sep: Byte) {
    z != [] && forall i | 0 <= i < |z| :: !NeedsQuote(z[i]) && z[i] != sep
  }

  function Doubled(z: Bytes): Bytes {
    if z == [] then [] else Twice(z[0]) + Doubled(z[1..])
  }

  function Twice(b: Byte): Bytes { if b == QUOTE then [QUOTE, QUOTE] else [b] }

  function Field(z: Bytes, sep: Byte): Bytes {
    if Bare(z, sep) then z else [QUOTE] + Doubled(z) + [QUOTE]
  }

  function Row(row: seq<Bytes>, sep: Byte, eol: Bytes): Bytes {
    if row == [] then []
    else Field(row[0], sep) + (if |row| == 1 then eol else [sep] + Row(row[1..], sep, eol))
  }

  function Table(rows: seq<seq<Bytes>>, sep: Byte, eol: Bytes): Bytes {
    if rows == [] then [] else Row(rows[0], sep, eol) + Table(rows[1..], sep, eol)
  }

  predicate EolOk(eol: Bytes) { eol == [LF] || eol == [CR, LF] }

  // -------------------------------------------------------------------- the writer

  lemma DoubledCons(z: Bytes)
    requires z != []
    ensures Doubled(z) == Twice(z[0]) + Doubled(z[1..])
  {
  }

  lemma {:induction false} DoubledConcat(a: Bytes, b: Bytes)
    ensures Doubled(a + b) == Doubled(a) + Doubled(b)
  {
    hide Twice;
    if a == [] {
      assert a + b == b && Doubled(a) == [];
    } else {
      hide Doubled;
      DoubledConcat(a[1..], b);
      DoubledCons(a);
      DoubledCons(a + b);
      assert (a + b)[1..] == a[1..] + b;
    }
  }

  lemma DoubledNext(z: Bytes, i: nat)
    requires i < |z|
    ensures Doubled(z[..i + 1]) == Doubled(z[..i]) + Twice(z[i])
  {
    hide Twice;
    DoubledConcat(z[..i], [z[i]]);
    assert z[..i + 1] == z[..i] + [z[i]];
    assert Doubled([z[i]]) == Twice(z[i]);
  }

  /** output_csv */
  method OutputCsv(z: Bytes, sep: Byte, bSep: bool) returns (out: Bytes)
    ensures out == Field(z, sep) + if bSep then [sep] else []
  {
    var i := 0;
    while i < |z|
      invariant i <= |z| && forall j | 0 <= j < i :: !NeedsQuote(z[j]) && z[j] != sep
    {
      if NeedsQuote(z[i]) || z[i] == sep {
        assert !Bare(z, sep);
        i := 0;
        break;
      }
      i := i + 1;
    }
    assert i == 0 <==> !Bare(z, sep);
    if i == 0 {
      out := [QUOTE];
      assert z[..0] == [];
      while i < |z|
        invariant i <= |z| && out == [QUOTE] + Doubled(z[..i])
      {
        hide Doubled, Bare;
        DoubledNext(z, i);
        if z[i] == QUOTE { out := out + [QUOTE]; }
        out := out + [z[i]];
        i := i + 1;
      }
      assert z[..i] == z;
      out := out + [QUOTE];
    } else {
      out := z;
    }
    if bSep { out := out + [sep]; }
  }

  /** The MODE_Csv branch of shell_callback, for one row of results. */
  method OutputRow(azArg: seq<Bytes>, sep: Byte, rowSeparator: Bytes) returns (out: Bytes)
    ensures out == Row(azArg, sep, rowSeparator)
  {
    hide Field, Row, RowFrom;
    if |azArg| == 0 {
      NoRow(sep, rowSeparator);
      return [];
    }
    out := [];
    RowStarts(azArg, sep, rowSeparator);
    for i := 0 to |azArg|
      invariant Row(azArg, sep, rowSeparator) == out + RowFrom(azArg, i, sep, rowSeparator)
    {
      RowStep(azArg, i, sep, rowSeparator);
      var f := OutputCsv(azArg[i], sep, i < |azArg| - 1);
      out := out + f;
    }
    RowStops(azArg, sep, rowSeparator);
    out := out + rowSeparator;
  }

  lemma NoRow(sep: Byte, eol: Bytes)
    ensures Row([], sep, eol) == []
  {
  }

  lemma RowStarts(row: seq<Bytes>, sep: Byte, eol: Bytes)
    requires row != []
    ensures RowFrom(row, 0, sep, eol) == Row(row, sep, eol)
  {
    assert row[0..] == row;
  }

  lemma RowStops(row: seq<Bytes>, sep: Byte, eol: Bytes)
    ensures RowFrom(row, |row|, sep, eol) == eol
  {
  }

  /** What is left to write of the row before field i. */
  function RowFrom(row: seq<Bytes>, i: nat, sep: Byte, eol: Bytes): Bytes
    requires i <= |row|
  {
    if i == |row| then eol else Row(row[i..], sep, eol)
  }

  lemma RowStep(row: seq<Bytes>, i: nat, sep: Byte, eol: Bytes)
    requires i < |row|
    ensures RowFrom(row, i, sep, eol) ==
      Field(row[i], sep) + (if i < |row| - 1 then [sep] else []) + RowFrom(row, i + 1, sep, eol)
  {
    hide Field;
    assert row[i..][1..] == row[i + 1..];
  }

  // ------------------------------------------------------------- reading one field

  /** What one read yields, and how far it moves the stream, the line count and the complaints. */
  datatype Got = Got(z: Bytes, term: int, rest: Bytes, lines: nat, errors: nat)

  function More(lines: nat, errors: nat, g: Got): Got {
    g.(lines := lines + g.lines, errors := errors + g.errors)
  }

  function Head(s: Bytes): (c: int)
    ensures c == EOF <==> s == []
  {
    if s == [] then EOF else s[0]
  }

  function Tail(s: Bytes): (t: Bytes)
    ensures s != [] ==> |t| < |s|
    ensures |t| <= |s|
  {
    if s == [] then [] else s[1..]
  }

  /** Everything before the last quote. */
  function Stripped(z: Bytes): Bytes {
    if z == [] then [] else if z[|z| - 1] == QUOTE then z[..|z| - 1] else Stripped(z[..|z| - 1])
  }

  function One(b: bool): nat { if b then 1 else 0 }

  /** The separator, the end of the row or of the file, after the closing quote. */
  predicate Ends(c: int, pc: int, ppc: int, sep: int, row: int) {
    (c == sep && pc == QUOTE) || (c == row && pc == QUOTE)
    || (c == row && pc == CR && ppc == QUOTE) || (c == EOF && pc == QUOTE)
  }

  /** A quoted field after its opening quote; pc and ppc are the last two characters. */
  function Quoted(s: Bytes, z: Bytes, pc: int, ppc: int, sep: int, row: int): (g: Got)
    ensures |g.rest| <= |s|
    decreases |s|
  {
    var c := Head(s);
    var line := One(c == row);
    if c == QUOTE && pc == QUOTE then More(line, 0, Quoted(Tail(s), z, 0, ppc, sep, row))
    else if Ends(c, pc, ppc, sep, row) then Got(Stripped(z), c, Tail(s), line, 0)
    else
      var error := One(pc == QUOTE && c != CR);
      if c == EOF then Got(z, EOF, [], line, error + 1)
      else More(line, error, Quoted(Tail(s), z + [c], c, pc, sep, row))
  }

  function WithoutCR(z: Bytes): Bytes {
    if z != [] && z[|z| - 1] == CR then z[..|z| - 1] else z
  }

  /** A field without quotes. */
  function Unquoted(s: Bytes, z: Bytes, sep: int, row: int): (g: Got)
    ensures |g.rest| <= |s| && (s != [] ==> |g.rest| < |s|)
    decreases |s|
  {
    var c := Head(s);
    if c != EOF && c != sep && c != row then Unquoted(Tail(s), z + [c], sep, row)
    else Got(if c == row then WithoutCR(z) else z, c, Tail(s), One(c == row), 0)
  }

  lemma ThirdTail(s: Bytes)
    ensures |s| > 0 ==> Tail(s) == s[1..] && (|s| > 1 ==> Head(Tail(s)) == s[1])
    ensures |s| > 1 ==> Tail(Tail(s)) == s[2..] && (|s| > 2 ==> Head(Tail(Tail(s))) == s[2])
    ensures |s| > 2 ==> Tail(Tail(Tail(s))) == s[3..]
  {
  }

  datatype Read = AtEof | AField(got: Got)

  /** One call of the reader; first says that nothing was read before. */
  function ReadField(s: Bytes, first: bool, sep: int, row: int): (r: Read)
    ensures s == [] ==> r.AtEof?
    ensures r.AField? ==> |r.got.rest| < |s|
    decreases |s|
  {
    if s == [] then AtEof
    else if s[0] == QUOTE then AField(Quoted(s[1..], [], 0, 0, sep, row))
    else if s[0] == 0xef && first then
      if |s| > 1 && s[1] == 0xbb then
        if |s| > 2 && s[2] == 0xbf then ReadField(s[3..], false, sep, row)
        else AField(Unquoted(s[2..], [0xef, 0xbb], sep, row))
      else AField(Unquoted(s[1..], [0xef], sep, row))
    else AField(Unquoted(s, [], sep, row))
  }

  // --------------------------------------------------- reading a row, and a whole file

  datatype Cell = Null | Text(z: Bytes)

  /** The text up to the first NUL, which is what binding with length -1 takes. */
  function CString(z: Bytes): Bytes {
    if z == [] || z[0] == 0 then [] else [z[0]] + CString(z[1..])
  }

  datatype RowGot = RowGot(cells: seq<Cell>, rest: Bytes, term: int, errors: nat)

  function Before(cells: seq<Cell>, errors: nat, r: RowGot): RowGot {
    RowGot(cells + r.cells, r.rest, r.term, errors + r.errors)
  }

  /** The fields up to the first one that no separator ends, however many there are. */
  function ReadRow(s: Bytes, first: bool, sep: Byte, row: int): (r: RowGot)
    ensures r.cells != [] && r.term != sep
    ensures if s == [] then r.rest == [] && r.term == EOF
            else |r.rest| < |s| || (r.rest == [] && r.term == EOF)
    decreases |s|
  {
    match ReadField(s, first, sep, row)
    case AtEof => RowGot([Null], [], EOF, 0)
    case AField(g) =>
      var cell := Text(CString(g.z));
      if g.term == sep then Before([cell], g.errors, ReadRow(g.rest, false, sep, row))
      else RowGot([cell], g.rest, g.term, g.errors)
  }

  lemma EofRow(s: Bytes, first: bool, sep: Byte, row: int)
    requires ReadField(s, first, sep, row).AtEof?
    ensures ReadRow(s, first, sep, row) == RowGot([Null], [], EOF, 0)
  {
  }

  /** One more read within a row whose first cells are known. */
  lemma NextCell(cells: seq<Cell>, e: nat, s: Bytes, first: bool, sep: Byte, row: int)
    ensures var r := Before(cells, e, ReadRow(s, first, sep, row));
      match ReadField(s, first, sep, row)
      case AtEof => r == RowGot(cells + [Null], [], EOF, e)
      case AField(g) =>
        var cells' := cells + [Text(CString(g.z))];
        if g.term == sep then r == Before(cells', e + g.errors, ReadRow(g.rest, false, sep, row))
        else r == RowGot(cells', g.rest, g.term, e + g.errors)
  {
    hide ReadField, CString;
    match ReadField(s, first, sep, row)
    case AtEof =>
    case AField(g) =>
      var cell := Text(CString(g.z));
      assert forall x: seq<Cell> :: cells + ([cell] + x) == cells + [cell] + x;
  }

  /** What is stored of a row: a short one is filled with NULL, extra fields are ignored. */
  function Fitted(cells: seq<Cell>, nCol: nat): (r: seq<Cell>)
    ensures |r| == nCol
  {
    if |cells| <= nCol then cells + seq(nCol - |cells|, _ => Null) else cells[..nCol]
  }

  lemma FitFacts(cells: seq<Cell>, nCol: nat)
    ensures |cells| <= nCol ==> Fitted(cells, nCol) == cells + seq(nCol - |cells|, _ => Null)
    ensures forall a: seq<Cell>, b: seq<Cell> :: cells == a + b && |a| == nCol ==> Fitted(cells, nCol) == a
  {
  }

  datatype Imported = Imported(rows: seq<seq<Cell>>, errors: nat)

  function Joined(a: Imported, b: Imported): Imported {
    Imported(a.rows + b.rows, a.errors + b.errors)
  }

  /** One row for every row of the file, and one complaint for every row of a wrong width. */
  function ImportAll(s: Bytes, first: bool, nCol: nat, sep: Byte, row: int): Imported
    decreases |s|
  {
    if ReadField(s, first, sep, row).AtEof? then NoRows()
    else
      var r := ReadRow(s, first, sep, row);
      Joined(Imported([Fitted(r.cells, nCol)], r.errors + One(|r.cells| != nCol)),
             if r.term == EOF then NoRows() else ImportAll(r.rest, false, nCol, sep, row))
  }

  function NoRows(): Imported { Imported([], 0) }

  /** One more row of a file of which the first rows are known. */
  lemma NextImported(done: Imported, s: Bytes, first: bool, nCol: nat, sep: Byte, row: int)
    ensures var goal := Joined(done, ImportAll(s, first, nCol, sep, row));
      if ReadField(s, first, sep, row).AtEof? then goal == done
      else
        var r := ReadRow(s, first, sep, row);
        goal == Joined(Imported(done.rows + [Fitted(r.cells, nCol)],
                                done.errors + r.errors + One(|r.cells| != nCol)),
                       if r.term == EOF then NoRows() else ImportAll(r.rest, false, nCol, sep, row))
  {
    hide ReadField, ReadRow, Fitted;
    var r := ReadRow(s, first, sep, row);
    assert forall x: seq<seq<Cell>> ::
      done.rows + ([Fitted(r.cells, nCol)] + x) == done.rows + [Fitted(r.cells, nCol)] + x;
  }

  class ImportCtx {
    /** What is left of the stream. */
    var input: Bytes
    var z: Bytes
    var nLine: nat
    var bNotFirst: bool
    var cTerm: int
    const cColSep: Byte
    const cRowSep: Byte
    /** The number of messages written to stderr. */
    var errors: nat

    constructor (text: Bytes, sep: Byte, row: Byte)
      ensures input == text && nLine == 1 && !bNotFirst && cTerm == 0 && errors == 0
      ensures cColSep == sep && cRowSep == row
    {
      input, z, nLine, bNotFirst, cTerm, errors := text, [], 1, false, 0, 0;
      cColSep, cRowSep := sep, row;
    }

    method Getc() returns (c: int)
      modifies this`input
      ensures c == Head(old(input)) && input == Tail(old(input))
    {
      if input == [] { return EOF; }
      c := input[0];
      input := input[1..];
    }

    /** The state after a read that yielded g. */
    predicate Took(g: Got, fromLine: nat, fromErrors: nat)
      reads this
    {
      z == g.z && cTerm == g.term && input == g.rest
      && nLine == fromLine + g.lines && errors == fromErrors + g.errors
    }

    /** What the characters before say about the end of z: the loop that looks for a quote finds one. */
    static predicate Traced(z: Bytes, pc: int, ppc: int) {
      (pc == QUOTE ==> z != [] && z[|z| - 1] == QUOTE)
      && (pc == CR && ppc == QUOTE ==> |z| >= 2 && z[|z| - 1] == CR && z[|z| - 2] == QUOTE)
    }

    /** do{ n--; }while( z[n]!=cQuote ) */
    method Strip()
      requires QUOTE in z
      modifies this`z
      ensures z == Stripped(old(z))
    {
      var c := z[|z| - 1];
      z := z[..|z| - 1];
      while c != QUOTE
        invariant c == QUOTE ==> z == Stripped(old(z))
        invariant c != QUOTE ==> QUOTE in z && Stripped(z) == Stripped(old(z))
        decreases |z|, c != QUOTE
      {
        c := z[|z| - 1];
        z := z[..|z| - 1];
      }
    }

    method ReadQuoted()
      requires z == []
      modifies this`input, this`z, this`nLine, this`cTerm, this`errors
      ensures Took(Quoted(old(input), [], 0, 0, cColSep, cRowSep), old(nLine), old(errors))
    {
      hide Stripped;
      ghost var goal := Quoted(input, [], 0, 0, cColSep, cRowSep);
      var pc, ppc := 0, 0;
      while true
        invariant Traced(z, pc, ppc)
        invariant nLine >= old(nLine) && errors >= old(errors)
        invariant goal == More(nLine - old(nLine), errors - old(errors), Quoted(input, z, pc, ppc, cColSep, cRowSep))
        decreases |input|
      {
        var c := Getc();
        if c == cRowSep { nLine := nLine + 1; }
        if c == QUOTE && pc == QUOTE {
          pc := 0;
          continue;
        }
        if Ends(c, pc, ppc, cColSep, cRowSep) {
          Strip();
          cTerm := c;
          break;
        }
        if pc == QUOTE && c != CR { errors := errors + 1; }
        if c == EOF {
          errors := errors + 1;
          cTerm := c;
          break;
        }
        z := z + [c];
        ppc := pc;
        pc := c;
      }
    }

    /** The loop over an unquoted field; c is the character just read. */
    method ReadUnquoted(first: int, ghost s: Bytes)
      requires first == Head(s) && input == Tail(s)
      modifies this`input, this`z, this`nLine, this`cTerm
      ensures Took(Unquoted(s, old(z), cColSep, cRowSep), old(nLine), old(errors))
    {
      var c := first;
      ghost var goal := Unquoted(s, z, cColSep, cRowSep);
      ghost var left := s;
      while c != EOF && c != cColSep && c != cRowSep
        invariant c == Head(left) && input == Tail(left) && nLine == old(nLine)
        invariant goal == Unquoted(left, z, cColSep, cRowSep)
        decreases |left|
      {
        z := z + [c];
        left := Tail(left);
        c := Getc();
      }
      if c == cRowSep {
        nLine := nLine + 1;
        if |z| > 0 && z[|z| - 1] == CR { z := z[..|z| - 1]; }
      }
      cTerm := c;
    }

    /** csv_read_one_field */
    method ReadOneField() returns (ok: bool)
      modifies this`input, this`z, this`nLine, this`bNotFirst, this`cTerm, this`errors
      ensures match ReadField(old(input), !old(bNotFirst), cColSep, cRowSep)
        case AtEof => !ok && cTerm == EOF && input == [] && nLine == old(nLine) && errors == old(errors)
        case AField(g) => ok && Took(g, old(nLine), old(errors)) && bNotFirst
      ensures old(bNotFirst) ==> bNotFirst
      decreases input
    {
      hide Quoted, Unquoted;
      z := [];
      ghost var s := input;
      ThirdTail(s);
      hide Tail;
      var c := Getc();
      if c == EOF {
        cTerm := EOF;
        return false;
      }
      if c == QUOTE {
        ReadQuoted();
      } else {
        if c == 0xef && !bNotFirst {
          z := z + [c];
          assert z == [0xef];
          s := Tail(s);
          c := Getc();
          if c == 0xbb {
            z := z + [c];
            assert z == [0xef, 0xbb];
            s := Tail(s);
            c := Getc();
            if c == 0xbf {
              bNotFirst := true;
              z := [];
              ok := ReadOneField();
              return;
            }
          }
        }
        ReadUnquoted(c, s);
      }
      bNotFirst := true;
      ok := true;
    }

    /** Where the reading of row r stands: all of it was read, or its extra fields are still to come. */
    ghost predicate Reading(r: RowGot, e: nat)
      reads this
    {
      if cTerm == cColSep then
        var q := ReadRow(input, !bNotFirst, cColSep, cRowSep);
        q.rest == r.rest && q.term == r.term && errors + q.errors == e + r.errors
      else input == r.rest && cTerm == r.term && errors == e + r.errors
    }

    /** The loop of .import over the columns of one row, binding cell after cell. */
    method ReadCells(nCol: nat) returns (cells: seq<Cell>, i: nat)
      requires nCol > 0
      modifies this
      ensures ReadField(old(input), !old(bNotFirst), cColSep, cRowSep).AtEof? ==>
        i == 0 && cTerm == EOF && input == [] && errors == old(errors)
      ensures !ReadField(old(input), !old(bNotFirst), cColSep, cRowSep).AtEof? ==>
        var r := ReadRow(old(input), !old(bNotFirst), cColSep, cRowSep);
        && i >= nCol && cells == Fitted(r.cells, nCol)
        && (cTerm == cColSep <==> |r.cells| > nCol)
        && bNotFirst && Reading(r, old(errors) + One(|r.cells| < nCol))
    {
      hide ReadField, ReadRow, Fitted, CString;
      ghost var r := ReadRow(input, !bNotFirst, cColSep, cRowSep);
      cells, i := [], 0;
      FitFacts(r.cells, nCol);
      while i < nCol
        invariant i == 0 ==> cells == [] && input == old(input) && bNotFirst == old(bNotFirst) && errors == old(errors)
        invariant i > 0 ==> bNotFirst && !ReadField(old(input), !old(bNotFirst), cColSep, cRowSep).AtEof?
        invariant 0 < i < nCol ==> cTerm == cColSep
        invariant i > 0 && cTerm == cColSep ==>
          && |cells| == i <= nCol && errors >= old(errors)
          && r == Before(cells, errors - old(errors), ReadRow(input, !bNotFirst, cColSep, cRowSep))
        invariant i > 0 && cTerm != cColSep ==>
          && i >= nCol && |r.cells| <= nCol && cells == Fitted(r.cells, nCol)
          && Reading(r, old(errors) + One(|r.cells| < nCol))
      {
        NextCell(cells, errors - old(errors), input, !bNotFirst, cColSep, cRowSep);
        var ok := ReadOneField();
        if !ok && i == 0 { return; }
        cells := cells + [if ok then Text(CString(z)) else Null];
        assert cTerm != cColSep ==> r.cells == cells && Reading(r, old(errors));
        if i < nCol - 1 && cTerm != cColSep {
          errors := errors + 1;
          cells := cells + seq(nCol - 1 - i, _ => Null);
          i := nCol + 1;
        }
        i := i + 1;
      }
    }

    /** Fields beyond the last column are read and ignored. */
    method SkipExtras(ghost r: RowGot, ghost e: nat)
      requires Reading(r, e) && r.term != cColSep && (cTerm == cColSep ==> bNotFirst)
      modifies this
      ensures input == r.rest && cTerm == r.term && (old(bNotFirst) ==> bNotFirst)
      ensures errors == e + r.errors + One(old(cTerm) == cColSep)
    {
      hide ReadField;
      if cTerm == cColSep {
        SkipField(r, e);
        while cTerm == cColSep
          invariant Reading(r, e) && bNotFirst
          decreases cTerm == cColSep, |input|
        {
          SkipField(r, e);
        }
        errors := errors + 1;
      }
    }

    /** One more of the extra fields. */
    method SkipField(ghost r: RowGot, ghost e: nat)
      requires Reading(r, e) && cTerm == cColSep && bNotFirst
      modifies this
      ensures Reading(r, e) && bNotFirst
      ensures cTerm == cColSep ==> |input| < |old(input)|
    {
      hide ReadField;
      var ok := ReadOneField();
    }

    /** The outer loop of .import. */
    method Import(nCol: nat) returns (inserted: seq<seq<Cell>>)
      requires nCol > 0
      modifies this
      ensures cTerm == EOF && errors >= old(errors)
      ensures Imported(inserted, errors - old(errors))
           == ImportAll(old(input), !old(bNotFirst), nCol, cColSep, cRowSep)
    {
      hide ReadField, ReadRow, Fitted, ImportAll;
      ghost var goal := ImportAll(input, !bNotFirst, nCol, cColSep, cRowSep);
      inserted := [];
      cTerm := 0;
      while cTerm != EOF
        invariant errors >= old(errors)
        invariant goal == Joined(Imported(inserted, errors - old(errors)),
          if cTerm == EOF then NoRows() else ImportAll(input, !bNotFirst, nCol, cColSep, cRowSep))
        decreases cTerm != EOF, |input|
      {
        ghost var r, e := ReadRow(input, !bNotFirst, cColSep, cRowSep), errors;
        NextImported(Imported(inserted, errors - old(errors)), input, !bNotFirst, nCol, cColSep, cRowSep);
        if ReadField(input, !bNotFirst, cColSep, cRowSep).AtEof? { EofRow(input, !bNotFirst, cColSep, cRowSep); }
        var cells, i := ReadCells(nCol);
        SkipExtras(r, if i >= nCol then e + One(|r.cells| < nCol) else e);
        if i >= nCol {
          inserted := inserted + [cells];
        }
      }
    }
  }

  // ---------------------------------------------------------------- the round trip

  /** The number of line ends within a field. */
  function LinesIn(z: Bytes): nat { if z == [] then 0 else One(z[0] == LF) + LinesIn(z[1..]) }

  /** What ends a field: a separator inside the row, the row's end after it. */
  predicate AfterField(t: Bytes, rest: Bytes, sep: Byte) { t == [sep] || EndOk(t, rest) }

  /** The character that ends the field; nothing but the end of the file may be the end, too. */
  function TermOf(t: Bytes): int { if t == [] then EOF else t[|t| - 1] }

  /** The end of a quoted field, once everything inside was read. */
  lemma QuotedEnds(z: Bytes, pc: int, ppc: int, t: Bytes, rest: Bytes, sep: Byte)
    requires SepOk(sep) && AfterField(t, rest, sep) && pc != QUOTE
    ensures Quoted([QUOTE] + t + rest, z, pc, ppc, sep, LF)
         == Got(z, TermOf(t), rest, One(TermOf(t) == LF), 0)
  {
    QuotedAtEof(z + [QUOTE], QUOTE, pc, sep);
    hide Quoted;
    var z1 := z + [QUOTE];
    QuotedTakes(t + rest, QUOTE, z, pc, ppc, sep);
    assert [QUOTE] + t + rest == [QUOTE] + (t + rest);
    assert z1[..|z1| - 1] == z && Stripped(z1) == z;
    if t == [] {
      assert t + rest == [];
    } else if |t| == 1 {
      QuotedStops(rest, t[0], z1, QUOTE, pc, sep);
      assert t + rest == [t[0]] + rest;
    } else {
      var z2 := z1 + [CR];
      QuotedTakes([LF] + rest, CR, z1, QUOTE, pc, sep);
      QuotedStops(rest, LF, z2, CR, QUOTE, sep);
      assert t + rest == [CR] + ([LF] + rest);
      assert z2[..|z2| - 1] == z1;
    }
  }

  lemma QuotedAtEof(z: Bytes, pc: int, ppc: int, sep: Byte)
    requires pc == QUOTE
    ensures Quoted([], z, pc, ppc, sep, LF) == Got(Stripped(z), EOF, [], 0, 0)
  {
  }

  lemma QuotedTakes(s: Bytes, c: Byte, z: Bytes, pc: int, ppc: int, sep: Byte)
    requires SepOk(sep) && !Ends(c, pc, ppc, sep, LF) && (pc == QUOTE ==> c == CR)
    ensures Quoted([c] + s, z, pc, ppc, sep, LF) == More(One(c == LF), 0, Quoted(s, z + [c], c, pc, sep, LF))
  {
    assert Tail([c] + s) == s;
  }

  lemma QuotedStops(s: Bytes, c: Byte, z: Bytes, pc: int, ppc: int, sep: Byte)
    requires c != QUOTE && Ends(c, pc, ppc, sep, LF)
    ensures Quoted([c] + s, z, pc, ppc, sep, LF) == Got(Stripped(z), c, s, One(c == LF), 0)
  {
    assert Tail([c] + s) == s;
  }

  lemma {:induction false} QuotedReads(f: Bytes, z: Bytes, pc: int, ppc: int, t: Bytes, rest: Bytes, sep: Byte)
    requires SepOk(sep) && AfterField(t, rest, sep)
    requires pc != QUOTE && (pc == CR ==> ppc != QUOTE)
    ensures Quoted(Doubled(f) + ([QUOTE] + t + rest), z, pc, ppc, sep, LF)
         == Got(z + f, TermOf(t), rest, LinesIn(f) + One(TermOf(t) == LF), 0)
    decreases |f|
  {
    hide Quoted;
    var close := [QUOTE] + t + rest;
    if f == [] {
      QuotedEnds(z, pc, ppc, t, rest, sep);
      assert Doubled(f) + close == close;
      assert z + f == z;
    } else {
      var s := Doubled(f[1..]) + close;
      assert Doubled(f) + close == Twice(f[0]) + s;
      assert z + [f[0]] + f[1..] == z + f;
      if f[0] == QUOTE {
        QuotedReads(f[1..], z + [QUOTE], 0, pc, t, rest, sep);
        QuotedQuote(s, z, pc, ppc, sep);
      } else {
        QuotedReads(f[1..], z + [f[0]], f[0], pc, t, rest, sep);
        QuotedTakes(s, f[0], z, pc, ppc, sep);
      }
    }
  }

  /** A doubled quote adds one quote and leaves no trace in pc. */
  lemma QuotedQuote(s: Bytes, z: Bytes, pc: int, ppc: int, sep: Byte)
    requires SepOk(sep) && pc != QUOTE
    ensures Quoted([QUOTE, QUOTE] + s, z, pc, ppc, sep, LF) == Quoted(s, z + [QUOTE], 0, pc, sep, LF)
  {
    QuotedTakes([QUOTE] + s, QUOTE, z, pc, ppc, sep);
    assert [QUOTE, QUOTE] + s == [QUOTE] + ([QUOTE] + s);
    assert Tail([QUOTE] + s) == s;
    assert Quoted([QUOTE] + s, z + [QUOTE], QUOTE, pc, sep, LF) == Quoted(s, z + [QUOTE], 0, pc, sep, LF);
  }

  lemma UnquotedEnds(z: Bytes, t: Bytes, rest: Bytes, sep: Byte)
    requires SepOk(sep) && AfterField(t, rest, sep) && (z == [] || z[|z| - 1] != CR)
    ensures Unquoted(t + rest, z, sep, LF) == Got(z, TermOf(t), rest, One(TermOf(t) == LF), 0)
  {
    if t == [] {
      assert t + rest == [];
      return;
    }
    hide Unquoted;
    if |t| == 1 {
      assert t == [t[0]];
      UnquotedStops(z, t[0], rest, sep);
    } else {
      assert t + rest == [CR] + ([LF] + rest);
      UnquotedCrLf(z, rest, sep);
    }
  }

  lemma UnquotedCrLf(z: Bytes, rest: Bytes, sep: Byte)
    requires SepOk(sep)
    ensures Unquoted([CR] + ([LF] + rest), z, sep, LF) == Got(z, LF, rest, 1, 0)
  {
    hide Unquoted;
    UnquotedTakes([LF] + rest, CR, z, sep);
    UnquotedStops(z + [CR], LF, rest, sep);
    assert WithoutCR(z + [CR]) == z;
  }

  lemma UnquotedTakes(s: Bytes, c: Byte, z: Bytes, sep: Byte)
    requires c != sep && c != LF
    ensures Unquoted([c] + s, z, sep, LF) == Unquoted(s, z + [c], sep, LF)
  {
    assert Tail([c] + s) == s;
  }

  lemma UnquotedStops(z: Bytes, c: Byte, rest: Bytes, sep: Byte)
    requires c == sep || c == LF
    ensures Unquoted([c] + rest, z, sep, LF) == Got(if c == LF then WithoutCR(z) else z, c, rest, One(c == LF), 0)
  {
    assert Tail([c] + rest) == rest;
  }

  lemma {:induction false} UnquotedReads(f: Bytes, z: Bytes, t: Bytes, rest: Bytes, sep: Byte)
    requires SepOk(sep) && AfterField(t, rest, sep)
    requires forall i | 0 <= i < |f| :: !NeedsQuote(f[i]) && f[i] != sep
    requires f == [] ==> z == [] || z[|z| - 1] != CR
    ensures Unquoted(f + (t + rest), z, sep, LF) == Got(z + f, TermOf(t), rest, One(TermOf(t) == LF), 0)
    decreases |f|
  {
    hide Unquoted;
    if f == [] {
      UnquotedEnds(z, t, rest, sep);
      assert f + (t + rest) == t + rest && z + f == z;
    } else {
      UnquotedReads(f[1..], z + [f[0]], t, rest, sep);
      UnquotedTakes(f[1..] + (t + rest), f[0], z, sep);
      assert f + (t + rest) == [f[0]] + (f[1..] + (t + rest));
      assert z + [f[0]] + f[1..] == z + f;
    }
  }

  lemma BareReads(f: Bytes, first: bool, t: Bytes, rest: Bytes, sep: Byte)
    requires SepOk(sep) && AfterField(t, rest, sep) && Bare(f, sep)
    ensures ReadField(f + (t + rest), first, sep, LF)
         == AField(Got(f, TermOf(t), rest, LinesIn(f) + One(TermOf(t) == LF), 0))
  {
    UnquotedReads(f, [], t, rest, sep);
    NoLines(f);
    hide Unquoted, LinesIn;
    assert [] + f == f;
    assert (f + (t + rest))[0] == f[0];
  }

  lemma EnclosedReads(f: Bytes, first: bool, t: Bytes, rest: Bytes, sep: Byte)
    requires SepOk(sep) && AfterField(t, rest, sep)
    ensures ReadField([QUOTE] + Doubled(f) + [QUOTE] + (t + rest), first, sep, LF)
         == AField(Got(f, TermOf(t), rest, LinesIn(f) + One(TermOf(t) == LF), 0))
  {
    hide Quoted, LinesIn, Doubled, AfterField, SepOk, TermOf;
    QuotedReads(f, [], 0, 0, t, rest, sep);
    var s := [QUOTE] + Doubled(f) + [QUOTE] + (t + rest);
    assert s[1..] == Doubled(f) + ([QUOTE] + t + rest);
    assert [] + f == f;
  }

  /** Reading what was written for a field gives the field, its terminator and no complaint. */
  lemma FieldReads(f: Bytes, first: bool, t: Bytes, rest: Bytes, sep: Byte)
    requires SepOk(sep) && AfterField(t, rest, sep)
    ensures ReadField(Field(f, sep) + (t + rest), first, sep, LF)
         == AField(Got(f, TermOf(t), rest, LinesIn(f) + One(TermOf(t) == LF), 0))
  {
    hide ReadField, LinesIn, Doubled, SepOk;
    if Bare(f, sep) {
      BareReads(f, first, t, rest, sep);
    } else {
      EnclosedReads(f, first, t, rest, sep);
    }
  }

  lemma {:induction false} NoLines(f: Bytes)
    requires forall i | 0 <= i < |f| :: !NeedsQuote(f[i])
    ensures LinesIn(f) == 0
  {
    if f != [] {
      NoLines(f[1..]);
    }
  }

  /** The whole text of a table: what each read of a row starts from. */
  function RowThen(row: seq<Bytes>, rest: Bytes, sep: Byte, eol: Bytes): Bytes
    requires row != []
  {
    Field(row[0], sep) + if |row| == 1 then eol + rest else [sep] + RowThen(row[1..], rest, sep, eol)
  }

  lemma {:induction false} RowThenIsRow(row: seq<Bytes>, rest: Bytes, sep: Byte, eol: Bytes)
    requires row != []
    ensures Row(row, sep, eol) + rest == RowThen(row, rest, sep, eol)
    decreases |row|
  {
    hide Field;
    if |row| > 1 {
      RowThenIsRow(row[1..], rest, sep, eol);
    }
  }

  predicate NulFree(z: Bytes) { forall i | 0 <= i < |z| :: z[i] != 0 }

  lemma {:induction false} NulFreeText(z: Bytes)
    requires NulFree(z)
    ensures CString(z) == z
  {
    if z != [] {
      NulFreeText(z[1..]);
    }
  }

  function Texts(row: seq<Bytes>): seq<Cell> {
    seq(|row|, i requires 0 <= i < |row| => Text(row[i]))
  }

  function AllFitted(rows: seq<seq<Bytes>>, nCol: nat): seq<seq<Cell>> {
    seq(|rows|, i requires 0 <= i < |rows| => Fitted(Texts(rows[i]), nCol))
  }

  /** How many rows do not have nCol fields. */
  function Misfits(rows: seq<seq<Bytes>>, nCol: nat): nat {
    if rows == [] then 0 else One(|rows[0]| != nCol) + Misfits(rows[1..], nCol)
  }

  /** The fields of a row are printable, and there is at least one. */
  predicate RowOk(row: seq<Bytes>) { row != [] && forall f | f in row :: NulFree(f) }

  /** A row ends with a line end, or with the file. */
  predicate EndOk(eol: Bytes, rest: Bytes) { EolOk(eol) || (eol == [] && rest == []) }

  /** The text of a table whose last line may end differently, or not at all. */
  function Written(rows: seq<seq<Bytes>>, sep: Byte, eol: Bytes, last: Bytes): Bytes {
    if rows == [] then []
    else Row(rows[0], sep, if |rows| == 1 then last else eol) + Written(rows[1..], sep, eol, last)
  }

  lemma NoMoreRows(rows: seq<seq<Bytes>>, sep: Byte, eol: Bytes)
    requires rows == []
    ensures Table(rows, sep, eol) == []
  {
  }

  lemma {:induction false} WrittenIsTable(rows: seq<seq<Bytes>>, sep: Byte, eol: Bytes)
    ensures Written(rows, sep, eol, eol) == Table(rows, sep, eol)
  {
    hide Row;
    if rows != [] {
      WrittenIsTable(rows[1..], sep, eol);
    }
  }

  const BOM: Bytes := [0xef, 0xbb, 0xbf]

  /** The stream holds text s, perhaps after a byte order mark at its very start. */
  predicate Holds(input: Bytes, first: bool, s: Bytes) {
    input == s || (first && input == BOM + s)
  }

  lemma BomSkips(s: Bytes, sep: int, row: int)
    ensures ReadField(BOM + s, true, sep, row) == ReadField(s, false, sep, row)
  {
    assert (BOM + s)[3..] == s;
  }

  /** What follows the first i fields of the row. */
  function Remaining(row: seq<Bytes>, i: nat, rest: Bytes, sep: Byte, eol: Bytes): Bytes
    requires i <= |row|
  {
    if i == |row| then rest else RowThen(row[i..], rest, sep, eol)
  }

  /** One read inside a written row. */
  lemma ReadsInRow(row: seq<Bytes>, i: nat, rest: Bytes, sep: Byte, eol: Bytes, input: Bytes, first: bool)
    requires SepOk(sep) && EndOk(eol, rest) && i < |row|
    requires Holds(input, first, Remaining(row, i, rest, sep, eol))
    ensures var term := if i == |row| - 1 then TermOf(eol) else sep;
      ReadField(input, first, sep, LF)
      == AField(Got(row[i], term, Remaining(row, i + 1, rest, sep, eol), LinesIn(row[i]) + One(term == LF), 0))
  {
    hide ReadField, Field, LinesIn;
    var s := Remaining(row, i, rest, sep, eol);
    var after := Remaining(row, i + 1, rest, sep, eol);
    var t := if i == |row| - 1 then eol else [sep];
    assert row[i..][1..] == row[i + 1..];
    assert s == Field(row[i], sep) + (t + after);
    FieldReads(row[i], first, t, after, sep);
    FieldReads(row[i], false, t, after, sep);
    BomSkips(s, sep, LF);
  }

  lemma ReadsAtEnd(input: Bytes, first: bool, sep: int, row: int)
    requires Holds(input, first, [])
    ensures ReadField(input, first, sep, row) == AtEof
  {
    BomSkips([], sep, row);
  }

  /** A written row is read as exactly its fields, whatever their number. */
  lemma {:induction false} WrittenRowReads(row: seq<Bytes>, i: nat, rest: Bytes, sep: Byte, eol: Bytes,
                                           input: Bytes, first: bool)
    requires SepOk(sep) && EndOk(eol, rest) && i < |row| && RowOk(row)
    requires Holds(input, first, Remaining(row, i, rest, sep, eol))
    ensures ReadField(input, first, sep, LF).AField?
    ensures ReadRow(input, first, sep, LF) == RowGot(Texts(row[i..]), rest, TermOf(eol), 0)
    decreases |row| - i
  {
    hide ReadField, LinesIn, RowThen, Holds, CString;
    ReadsInRow(row, i, rest, sep, eol, input, first);
    NulFreeText(row[i]);
    var cell := Text(row[i]);
    if i + 1 < |row| {
      var after := Remaining(row, i + 1, rest, sep, eol);
      HoldsItself(after);
      WrittenRowReads(row, i + 1, rest, sep, eol, after, false);
      assert [cell] + Texts(row[i + 1..]) == Texts(row[i..]);
    } else {
      assert [cell] == Texts(row[i..]);
    }
  }

  lemma HoldsItself(s: Bytes)
    ensures Holds(s, false, s)
  {
  }

  lemma FirstRowReads(rows: seq<seq<Bytes>>, sep: Byte, eol: Bytes, last: Bytes, input: Bytes, first: bool)
    requires rows != [] && RowOk(rows[0]) && SepOk(sep) && EolOk(eol) && (EolOk(last) || last == [])
    requires Holds(input, first, Written(rows, sep, eol, last))
    ensures ReadField(input, first, sep, LF).AField?
    ensures ReadRow(input, first, sep, LF)
         == RowGot(Texts(rows[0]), Written(rows[1..], sep, eol, last), TermOf(if |rows| == 1 then last else eol), 0)
  {
    hide Row, ReadField, ReadRow, NulFree, Texts, RowThen;
    var row, rest, end := rows[0], Written(rows[1..], sep, eol, last), if |rows| == 1 then last else eol;
    RowThenIsRow(row, rest, sep, end);
    assert row[0..] == row;
    WrittenRowReads(row, 0, rest, sep, end, input, first);
  }

  /** Importing a written file of rows of any widths, the last one perhaps ended by the end of the file. */
  lemma {:induction false} WrittenImports(rows: seq<seq<Bytes>>, nCol: nat, sep: Byte, eol: Bytes, last: Bytes,
                                          input: Bytes, first: bool)
    requires SepOk(sep) && EolOk(eol) && (EolOk(last) || last == []) && forall r | r in rows :: RowOk(r)
    requires Holds(input, first, Written(rows, sep, eol, last))
    ensures ImportAll(input, first, nCol, sep, LF) == Imported(AllFitted(rows, nCol), Misfits(rows, nCol))
    decreases |rows|
  {
    hide ReadField, ReadRow, Fitted, Texts, Row, RowOk;
    if rows == [] {
      ReadsAtEnd(input, first, sep, LF);
    } else {
      FirstRowReads(rows, sep, eol, last, input, first);
      TextsLength(rows[0]);
      var rest := Written(rows[1..], sep, eol, last);
      WrittenImports(rows[1..], nCol, sep, eol, last, rest, false);
      if |rows| == 1 && last == [] {
        assert AllFitted(rows[1..], nCol) == [] && Misfits(rows[1..], nCol) == 0;
      }
      assert AllFitted(rows, nCol) == [Fitted(Texts(rows[0]), nCol)] + AllFitted(rows[1..], nCol);
    }
  }

  lemma TextsLength(row: seq<Bytes>)
    ensures |Texts(row)| == |row|
  {
  }

  function AllTexts(rows: seq<seq<Bytes>>): seq<seq<Cell>> {
    seq(|rows|, i requires 0 <= i < |rows| => Texts(rows[i]))
  }

  /** A table of the right width is stored as it is. */
  lemma {:induction false} RightWidth(rows: seq<seq<Bytes>>, nCol: nat)
    requires forall r | r in rows :: |r| == nCol
    ensures AllFitted(rows, nCol) == AllTexts(rows) && Misfits(rows, nCol) == 0
    decreases |rows|
  {
    if rows != [] {
      RightWidth(rows[1..], nCol);
    }
    forall i | 0 <= i < |rows| ensures Fitted(Texts(rows[i]), nCol) == Texts(rows[i]) {
      assert rows[i] in rows;
    }
  }

  // ------------------------------------------------------ writing, then reading back

  lemma {:induction false} TableConcat(a: seq<seq<Bytes>>, b: seq<seq<Bytes>>, sep: Byte, eol: Bytes)
    ensures Table(a + b, sep, eol) == Table(a, sep, eol) + Table(b, sep, eol)
  {
    hide Row;
    if a == [] {
      assert a + b == b;
    } else {
      TableConcat(a[1..], b, sep, eol);
      assert (a + b)[1..] == a[1..] + b;
    }
  }

  lemma TableNext(rows: seq<seq<Bytes>>, i: nat, sep: Byte, eol: Bytes)
    requires i < |rows|
    ensures Table(rows[..i + 1], sep, eol) == Table(rows[..i], sep, eol) + Row(rows[i], sep, eol)
  {
    hide Row;
    TableConcat(rows[..i], [rows[i]], sep, eol);
    assert rows[..i + 1] == rows[..i] + [rows[i]];
    var one := [rows[i]];
    NoMoreRows(one[1..], sep, eol);
    assert Table(one, sep, eol) == Row(rows[i], sep, eol);
  }

  /** The text of a query result in CSV mode. */
  method Export(rows: seq<seq<Bytes>>, sep: Byte, eol: Bytes) returns (text: Bytes)
    ensures text == Table(rows, sep, eol)
  {
    hide Row;
    text := [];
    NoMoreRows(rows[..0], sep, eol);
    for i := 0 to |rows|
      invariant text == Table(rows[..i], sep, eol)
    {
      TableNext(rows, i, sep, eol);
      var line := OutputRow(rows[i], sep, eol);
      text := text + line;
    }
    assert rows[..|rows|] == rows;
  }

  /** What the writer prints, perhaps behind a byte order mark, the importer reads back. */
  method ExportThenImport(rows: seq<seq<Bytes>>, nCol: nat, sep: Byte, eol: Bytes, mark: bool)
    returns (inserted: seq<seq<Cell>>, errors: nat)
    requires nCol > 0 && SepOk(sep) && EolOk(eol) && forall r | r in rows :: RowOk(r)
    ensures inserted == AllFitted(rows, nCol) && errors == Misfits(rows, nCol)
    ensures (forall r | r in rows :: |r| == nCol) ==> inserted == AllTexts(rows) && errors == 0
  {
    hide Table, Texts, RowOk, Fitted;
    var text := Export(rows, sep, eol);
    var input := if mark then BOM + text else text;
    WrittenIsTable(rows, sep, eol);
    WrittenImports(rows, nCol, sep, eol, eol, input, true);
    var p := new ImportCtx(input, sep, LF);
    inserted := p.Import(nCol);
    errors := p.errors;
    if forall r | r in rows :: |r| == nCol { RightWidth(rows, nCol); }
  }
}
