/**
 SQL literals that survive end-of-line translation: the shell prints a string
 with its CR and LF characters replaced by tokens that the string does not
 contain, inside replace() calls that put them back.
 */
module Escape {
  import opened Decimal

  // ------------------------------------------------------- evaluating SQL text

  /** strstr(s, t) != 0 */
  predicate Occurs(s: string, t: string) {
    t <= s || (s != [] && Occurs(s[1..], t))
  }

  /** replace(s, t, put): occurrences taken from the left, not overlapping. */
  function Replace(s: string, t: string, put: string): string {
    if t == [] || s == [] then s
    else if t <= s then put + Replace(s[|t|..], t, put)
    else [s[0]] + Replace(s[1..], t, put)
  }

  datatype Parsed = Parsed(value: string, rest: string) | Bad

  function Before(c: char, p: Parsed): Parsed {
    match p
    case Bad => Bad
    case Parsed(v, r) => Parsed([c] + v, r)
  }

  /** A string literal after its opening quote; a doubled quote stands for one. */
  function Literal(s: string): (p: Parsed)
    ensures p.Parsed? ==> |p.rest| < |s|
  {
    if s == [] then Bad
    else if s[0] != '\'' then Before(s[0], Literal(s[1..]))
    else if |s| > 1 && s[1] == '\'' then Before('\'', Literal(s[2..]))
    else Parsed("", s[1..])
  }

  /** char(N), after the opening parenthesis. */
  function CharCall(s: string): (p: Parsed)
    ensures p.Parsed? ==> |p.rest| < |s|
  {
    var k := Run(s);
    var n := Value(s[..k]);
    if 0 < k < |s| && s[k] == ')' && n < 128 then Parsed([n as char], s[k + 1..]) else Bad
  }

  /** An expression made of string literals, char() and replace(). */
  function Eval(s: string): (p: Parsed)
    ensures p.Parsed? ==> |p.rest| < |s|
    decreases |s|
  {
    if "'" <= s then Literal(s[1..])
    else if "char(" <= s then CharCall(s[5..])
    else if "replace(" <= s then
      match Eval(s[8..])
      case Bad => Bad
      case Parsed(x, r1) =>
        if !("," <= r1) then Bad
        else
          match Eval(r1[1..])
          case Bad => Bad
          case Parsed(y, r2) =>
            if !("," <= r2) then Bad
            else
              match Eval(r2[1..])
              case Bad => Bad
              case Parsed(z, r3) => if ")" <= r3 then Parsed(Replace(x, y, z), r3[1..]) else Bad
    else Bad
  }

  // --------------------------------------------------------------- tokens apart

  /** a and b differ at a position both have. */
  predicate Clash(a: string, b: string) {
    a != [] && b != [] && (a[0] != b[0] || Clash(a[1..], b[1..]))
  }

  /** No proper tail of a can be the start of anything that starts with b. */
  predicate Free(a: string, b: string) {
    forall k | 1 <= k < |a| :: Clash(a[k..], b)
  }

  predicate Apart(a: string, b: string) {
    Free(a, b) && Free(b, a) && Clash(a, b)
  }

  lemma {:induction false} ClashPrefix(a: string, b: string, s: string)
    requires Clash(a, b)
    ensures !(a <= b + s)
    decreases |a|
  {
    if a[0] == b[0] {
      ClashPrefix(a[1..], b[1..], s);
      assert (b + s)[1..] == b[1..] + s;
    }
  }

  lemma {:induction false} ClashSymmetric(a: string, b: string)
    requires Clash(a, b)
    ensures Clash(b, a)
    decreases |a|
  {
    if a[0] == b[0] {
      ClashSymmetric(a[1..], b[1..]);
    }
  }

  // ------------------------------------------------- one substitution undone

  /** Character x written as t, character y written as u, the others as they are. */
  function Code(c: char, x: char, t: string, y: char, u: string): string {
    if c == x then t else if c == y then u else [c]
  }

  function Expand(z: string, x: char, t: string, y: char, u: string): string {
    if z == [] then [] else Code(z[0], x, t, y, u) + Expand(z[1..], x, t, y, u)
  }

  lemma PrefixCons(t: string, c: char, s: string)
    requires t != []
    ensures t <= [c] + s <==> t[0] == c && t[1..] <= s
  {
    assert t == [t[0]] + t[1..];
  }

  /** A tail of t that starts the expansion starts the string itself. */
  lemma {:induction false} TailMatches(tail: string, z: string, x: char, t: string, y: char, u: string)
    requires forall k | 0 <= k < |tail| :: Clash(tail[k..], t) && Clash(tail[k..], u)
    ensures tail <= Expand(z, x, t, y, u) ==> tail <= z
    decreases |tail|
  {
    if tail != [] && z != [] && tail <= Expand(z, x, t, y, u) {
      assert tail[0..] == tail;
      var rest := Expand(z[1..], x, t, y, u);
      if z[0] == x {
        ClashPrefix(tail, t, rest);
      } else if z[0] == y {
        ClashPrefix(tail, u, rest);
      } else {
        forall k | 0 <= k < |tail[1..]| ensures Clash(tail[1..][k..], t) && Clash(tail[1..][k..], u) {
          assert tail[1..][k..] == tail[k + 1..];
        }
        TailMatches(tail[1..], z[1..], x, t, y, u);
        assert tail[1..] <= ([z[0]] + rest)[1..] == rest;
        assert tail == [z[0]] + tail[1..] && z == [z[0]] + z[1..];
      }
    }
  }

  /** replace() passes over the copy of u untouched. */
  lemma {:induction false} Skips(u: string, s: string, t: string, put: string)
    requires t != [] && forall k | 0 <= k < |u| :: Clash(t, u[k..])
    ensures Replace(u + s, t, put) == u + Replace(s, t, put)
    decreases |u|
  {
    if u == [] {
      assert u + s == s;
    } else {
      assert u[0..] == u;
      ClashPrefix(t, u, s);
      forall k | 0 <= k < |u[1..]| ensures Clash(t, u[1..][k..]) {
        assert u[1..][k..] == u[k + 1..];
      }
      Skips(u[1..], s, t, put);
      assert (u + s)[1..] == u[1..] + s;
    }
  }

  lemma FreeAhead(t: string, u: string)
    requires Apart(t, u)
    ensures forall k | 0 <= k < |u| :: Clash(t, u[k..])
  {
    forall k | 0 <= k < |u| ensures Clash(t, u[k..]) {
      if k == 0 {
        assert u[0..] == u;
      } else {
        ClashSymmetric(u[k..], t);
      }
    }
  }

  lemma OrdinaryHead(z: string, x: char, t: string, y: char, u: string)
    requires z != [] && z[0] != x && z[0] != y && t != []
    requires Free(t, t) && Free(t, u) && !(t <= z)
    ensures !(t <= Expand(z, x, t, y, u))
  {
    var tail := t[1..];
    forall k | 0 <= k < |tail| ensures Clash(tail[k..], t) && Clash(tail[k..], u) {
      assert tail[k..] == t[k + 1..];
    }
    TailMatches(tail, z[1..], x, t, y, u);
    var rest := Expand(z[1..], x, t, y, u);
    PrefixCons(t, z[0], rest);
    PrefixCons(t, z[0], z[1..]);
    assert z == [z[0]] + z[1..];
  }

  /** replace() undoes the substitution of a token that does not occur in the string. */
  lemma {:induction false} ReplaceUndoes(z: string, x: char, t: string, y: char, u: string)
    requires x != y && t != [] && !Occurs(z, t) && Free(t, t) && Apart(t, u)
    ensures Replace(Expand(z, x, t, y, u), t, [x]) == Expand(z, x, [x], y, u)
    decreases |z|
  {
    if z != [] {
      ReplaceUndoes(z[1..], x, t, y, u);
      var rest := Expand(z[1..], x, t, y, u);
      if z[0] == x {
        assert (t + rest)[|t|..] == rest;
      } else if z[0] == y {
        FreeAhead(t, u);
        Skips(u, rest, t, [x]);
      } else {
        OrdinaryHead(z, x, t, y, u);
        assert ([z[0]] + rest)[1..] == rest;
      }
    }
  }

  lemma {:induction false} ExpandNothing(z: string, x: char, y: char)
    ensures Expand(z, x, [x], y, [y]) == z
  {
    if z != [] {
      ExpandNothing(z[1..], x, y);
    }
  }

  // ------------------------------------------------------ the tokens of the shell

  /** (<zA><number>) */
  function Made(zA: string, i: nat): string { "(" + zA + Dec(i) + ")" }

  /** \x, \01d, or a generated (\x<number>). */
  ghost predicate IsToken(t: string, x: char, d: char) {
    t == ['\\', x] || t == ['\\', '0', '1', d] || exists i: nat :: t == Made(['\\', x], i)
  }

  predicate IsHead(c: char) { c == '\\' || c == '(' }

  /** What tokens have in common: the heads '\' and '(' appear at the start only. */
  predicate Shape(t: string, x: char, d: char) {
    (|t| >= 2 && t[0] == '\\' && (t[1] == x || (t[1] == '0' && |t| == 4 && t[3] == d))
      && forall k | 1 <= k < |t| :: !IsHead(t[k]))
    || (|t| >= 3 && t[0] == '(' && t[1] == '\\' && t[2] == x && forall k | 2 <= k < |t| :: !IsHead(t[k]))
  }

  lemma TokenShape(t: string, x: char, d: char)
    requires IsToken(t, x, d) && !IsHead(x) && !IsHead(d)
    ensures Shape(t, x, d)
  {
    if i: nat :| t == Made(['\\', x], i) {
      hide Dec;
    }
  }

  lemma ClashAt(a: string, b: string, k: nat)
    requires k < |a| && k < |b| && a[k] != b[k]
    ensures Clash(a, b)
    decreases k
  {
    if k > 0 && a[0] == b[0] {
      ClashAt(a[1..], b[1..], k - 1);
    }
  }

  lemma SelfFree(t: string, x: char, d: char)
    requires Shape(t, x, d)
    ensures Free(t, t)
  {
    forall k | 1 <= k < |t| ensures Clash(t[k..], t) {
      ClashAt(t[k..], t, 0);
    }
  }

  lemma OtherFree(a: string, x: char, d: char, b: string, y: char, e: char)
    requires Shape(a, x, d) && Shape(b, y, e) && x != y && x != '0'
    ensures Free(a, b)
  {
    forall k | 1 <= k < |a| ensures Clash(a[k..], b) {
      if a[k] != b[0] {
        ClashAt(a[k..], b, 0);
      } else {
        ClashAt(a[k..], b, 1);
      }
    }
  }

  lemma TokensApart(a: string, x: char, d: char, b: string, y: char, e: char)
    requires Shape(a, x, d) && Shape(b, y, e) && x != y && x != '0' && y != '0' && d != e
    ensures Apart(a, b)
  {
    OtherFree(a, x, d, b, y, e);
    OtherFree(b, y, e, a, x, d);
    if a[0] != b[0] {
      ClashAt(a, b, 0);
    } else if a[0] == '(' {
      ClashAt(a, b, 2);
    } else if a[1] != b[1] {
      ClashAt(a, b, 1);
    } else {
      ClashAt(a, b, 3);
    }
  }

  /** A character that the token does not contain is apart from it. */
  lemma CharApart(t: string, c: char)
    requires t != [] && c !in t
    ensures Apart(t, [c])
  {
    forall k | 1 <= k < |t| ensures Clash(t[k..], [c]) {
      assert t[k] in t;
      ClashAt(t[k..], [c], 0);
    }
    assert t[0] in t;
  }

  // ---------------------------------------------------- finding an unused string

  lemma MadeUnique(zA: string, i: nat, j: nat, z: string)
    requires Made(zA, i) <= z && Made(zA, j) <= z
    ensures i == j
  {
    hide Dec;
    var n := |zA| + 1;
    var s := z[n..];
    DigitsOf(zA, i, z);
    DigitsOf(zA, j, z);
  }

  lemma DigitsOf(zA: string, i: nat, z: string)
    requires Made(zA, i) <= z
    ensures |zA| + 1 <= |z|
    ensures var s := z[|zA| + 1..]; i == Value(s[..Run(s)])
  {
    hide Dec;
    var n, m := |zA| + 1, |Made(zA, i)|;
    var s := z[n..];
    assert z == Made(zA, i) + z[m..];
    assert s == Dec(i) + (")" + z[m..]);
    ReadsBack(i, ")" + z[m..]);
  }

  /** A string contains at most as many generated tokens as it has characters. */
  lemma {:induction false} FewTokens(zA: string, z: string, used: set<nat>)
    requires forall i | i in used :: Occurs(z, Made(zA, i))
    ensures |used| <= |z|
    decreases |z|
  {
    hide Made;
    if z == [] {
      forall i | i in used ensures false { NotInEmpty(zA, i); }
      assert used == {};
    } else if i :| i in used && Made(zA, i) <= z {
      var others := used - {i};
      forall j | j in others ensures Occurs(z[1..], Made(zA, j)) {
        if Made(zA, j) <= z { MadeUnique(zA, i, j, z); }
      }
      FewTokens(zA, z[1..], others);
    } else {
      FewTokens(zA, z[1..], used);
    }
  }

  lemma NotInEmpty(zA: string, i: nat)
    ensures !Occurs([], Made(zA, i))
  {
  }

  function UpTo(n: nat): (u: set<nat>)
    ensures |u| == n && forall i: nat :: i in u <==> i < n
  {
    if n == 0 then {} else UpTo(n - 1) + {n - 1}
  }

  /** unused_string: the first of zA, zB, (zA0), (zA1), ... that z does not contain. */
  method UnusedString(z: string, zA: string, zB: string) returns (r: string, tried: nat)
    ensures !Occurs(z, r) && tried <= |z|
    ensures r == if !Occurs(z, zA) then zA else if !Occurs(z, zB) then zB else Made(zA, tried)
    ensures Occurs(z, zA) && Occurs(z, zB) ==> forall j: nat | j < tried :: Occurs(z, Made(zA, j))
  {
    tried := 0;
    if !Occurs(z, zA) { return zA, 0; }
    if !Occurs(z, zB) { return zB, 0; }
    hide Made, Occurs;
    r := Made(zA, 0);
    while Occurs(z, r)
      invariant r == Made(zA, tried) && tried <= |z|
      invariant forall j: nat | j < tried :: Occurs(z, Made(zA, j))
      decreases |z| - tried
    {
      FewTokens(zA, z, UpTo(tried + 1));
      tried := tried + 1;
      r := Made(zA, tried);
    }
  }

  /** Generated tokens fit in the 20-byte buffer with their terminator. */
  lemma TokenFits(zA: string, i: nat)
    requires |zA| <= 2 && i < 0x1_0000_0000
    ensures |Made(zA, i)| <= 14
  {
    TenDigits(i);
  }

  // ------------------------------------------------------------- the printed text

  function Marked(c: char, nl: string, cr: string): string {
    if c == '\n' then nl else if c == '\r' then cr else if c == '\'' then "''" else [c]
  }

  /** The inside of the literal: line ends as tokens, quotes doubled. */
  function Inside(z: string, nl: string, cr: string): string {
    if z == [] then [] else Inside(z[..|z| - 1], nl, cr) + Marked(z[|z| - 1], nl, cr)
  }

  function Opening(z: string): string {
    (if '\n' in z then "replace(" else "") + (if '\r' in z then "replace(" else "")
  }

  function Closing(z: string, nl: string, cr: string): string {
    (if '\r' in z then ",'" + cr + "',char(13))" else "") + (if '\n' in z then ",'" + nl + "',char(10))" else "")
  }

  function Printed(z: string, nl: string, cr: string): string {
    Opening(z) + "'" + Inside(z, nl, cr) + "'" + Closing(z, nl, cr)
  }

  lemma {:induction false} InsideConcat(a: string, b: string, nl: string, cr: string)
    ensures Inside(a + b, nl, cr) == Inside(a, nl, cr) + Inside(b, nl, cr)
    decreases |b|
  {
    hide Marked;
    if b == [] {
      assert a + b == a;
    } else {
      assert (a + b)[..|a + b| - 1] == a + b[..|b| - 1];
      InsideConcat(a, b[..|b| - 1], nl, cr);
    }
  }

  lemma InsideCons(z: string, nl: string, cr: string)
    requires z != []
    ensures Inside(z, nl, cr) == Marked(z[0], nl, cr) + Inside(z[1..], nl, cr)
  {
    hide Marked;
    InsideConcat([z[0]], z[1..], nl, cr);
    assert z == [z[0]] + z[1..];
    assert [z[0]][..0] == [];
  }

  predicate Plain(z: string) { '\n' !in z && '\r' !in z && '\'' !in z }

  lemma {:induction false} InsidePlain(z: string, nl: string, cr: string)
    requires Plain(z)
    ensures Inside(z, nl, cr) == z
  {
    if z != [] {
      InsidePlain(z[..|z| - 1], nl, cr);
    }
  }

  // -------------------------------------------------------------- the round trip

  function Prepend(v: string, p: Parsed): Parsed {
    match p
    case Bad => Bad
    case Parsed(w, r) => Parsed(v + w, r)
  }

  /** Characters other than quotes are read as they are. */
  lemma {:induction false} LiteralPlain(t: string, s: string)
    requires '\'' !in t
    ensures Literal(t + s) == Prepend(t, Literal(s))
    decreases |t|
  {
    if t == [] {
      assert t + s == s;
    } else {
      LiteralPlain(t[1..], s);
      assert (t + s)[1..] == t[1..] + s;
    }
  }

  lemma LiteralMarked(c: char, nl: string, cr: string, s: string)
    requires '\'' !in nl && '\'' !in cr
    ensures Literal(Marked(c, nl, cr) + s) == Prepend(Code(c, '\r', cr, '\n', nl), Literal(s))
  {
    if c == '\'' {
      assert ("''" + s)[2..] == s;
    } else {
      LiteralPlain(Marked(c, nl, cr), s);
    }
  }

  lemma PrependTwice(a: string, b: string, p: Parsed)
    ensures Prepend(a, Prepend(b, p)) == Prepend(a + b, p)
  {
    if p.Parsed? {
      assert a + (b + p.value) == (a + b) + p.value;
    }
  }

  lemma {:induction false} LiteralInside(z: string, nl: string, cr: string, s: string)
    requires '\'' !in nl && '\'' !in cr
    ensures Literal(Inside(z, nl, cr) + s) == Prepend(Expand(z, '\r', cr, '\n', nl), Literal(s))
    decreases |z|
  {
    if z == [] {
      assert Inside(z, nl, cr) + s == s;
    } else {
      hide Marked, Code, Literal;
      var c, rest := z[0], z[1..];
      InsideCons(z, nl, cr);
      hide Inside;
      var tail := Inside(rest, nl, cr) + s;
      assert Inside(z, nl, cr) + s == Marked(c, nl, cr) + tail;
      LiteralMarked(c, nl, cr, tail);
      LiteralInside(rest, nl, cr, s);
      PrependTwice(Code(c, '\r', cr, '\n', nl), Expand(rest, '\r', cr, '\n', nl), Literal(s));
    }
  }

  /** A quoted token, as an argument of replace(). */
  lemma EvalToken(t: string, s: string)
    requires '\'' !in t && !("'" <= s)
    ensures Eval("'" + t + "'" + s) == Parsed(t, s)
  {
    var all := "'" + t + "'" + s;
    assert all[1..] == t + ("'" + s);
    LiteralPlain(t, "'" + s);
    assert ("'" + s)[1..] == s;
  }

  lemma EvalChar(n: nat, s: string)
    requires n < 128
    ensures Eval("char(" + Dec(n) + ")" + s) == Parsed([n as char], s)
  {
    hide Dec;
    var all := "char(" + Dec(n) + ")" + s;
    assert all[5..] == Dec(n) + (")" + s);
    ReadsBack(n, ")" + s);
    assert all[0] == 'c';
    assert "char(" <= all;
  }

  /** ,'t',char(n)) and what follows. */
  function After(t: string, n: nat, s: string): (r: string)
    ensures r != [] && r[0] == ','
  {
    ",'" + t + "',char(" + Dec(n) + "))" + s
  }

  /** One replace() around an expression that is already understood. */
  lemma EvalReplace(e: string, x: string, t: string, n: nat, s: string)
    requires '\'' !in t && n < 128
    requires Eval(e + After(t, n, s)) == Parsed(x, After(t, n, s))
    ensures Eval("replace(" + (e + After(t, n, s))) == Parsed(Replace(x, t, [n as char]), s)
  {
    hide Dec, Replace, Literal, CharCall;
    var after := After(t, n, s);
    var all := "replace(" + (e + after);
    assert all[8..] == e + after;
    assert all[0] == 'r';
    assert "replace(" <= all;
    var last := "char(" + Dec(n) + ")" + (")" + s);
    assert after[1..] == "'" + t + "'" + ("," + last);
    assert ("," + last)[0] == ',';
    EvalToken(t, "," + last);
    assert ("," + last)[1..] == last;
    EvalChar(n, ")" + s);
    assert (")" + s)[1..] == s;
  }

  lemma AfterCr(cr: string, s: string)
    ensures ",'" + cr + "',char(13))" + s == After(cr, 13, s)
  {
    Numerals();
    hide Dec;
  }

  lemma AfterNl(nl: string, s: string)
    ensures ",'" + nl + "',char(10))" + s == After(nl, 10, s)
  {
    Numerals();
    hide Dec;
  }

  lemma EvalInside(z: string, nl: string, cr: string, s: string)
    requires '\'' !in nl && '\'' !in cr && !("'" <= s)
    ensures Eval("'" + Inside(z, nl, cr) + "'" + s) == Parsed(Expand(z, '\r', cr, '\n', nl), s)
  {
    hide Inside, Expand;
    var all := "'" + Inside(z, nl, cr) + "'" + s;
    assert all[1..] == Inside(z, nl, cr) + ("'" + s);
    LiteralInside(z, nl, cr, "'" + s);
    assert ("'" + s)[1..] == s;
  }

  lemma {:induction false} CodeUnused(z: string, x: char, t: string, t': string, y: char, u: string)
    requires x !in z
    ensures Expand(z, x, t, y, u) == Expand(z, x, t', y, u)
  {
    if z != [] {
      CodeUnused(z[1..], x, t, t', y, u);
    }
  }

  lemma {:induction false} ExpandSwap(z: string, x: char, t: string, y: char, u: string)
    requires x != y
    ensures Expand(z, x, t, y, u) == Expand(z, y, u, x, t)
  {
    if z != [] {
      ExpandSwap(z[1..], x, t, y, u);
    }
  }

  /** What the shell may use as tokens for z. */
  ghost predicate TokensOk(z: string, nl: string, cr: string) {
    IsToken(nl, 'n', '2') && IsToken(cr, 'r', '5')
    && ('\n' in z ==> !Occurs(z, nl)) && ('\r' in z ==> !Occurs(z, cr))
  }

  lemma TokenPlain(t: string, x: char, d: char)
    requires IsToken(t, x, d) && x in "nr" && d in "25"
    ensures Plain(t)
  {
    if i: nat :| t == Made(['\\', x], i) {
      hide Dec;
    }
  }

  /** The inner replace() restores CR, whether or not it is printed. */
  lemma InnerPass(z: string, nl: string, cr: string)
    requires TokensOk(z, nl, cr)
    ensures var s := Expand(z, '\r', cr, '\n', nl);
      (if '\r' in z then Replace(s, cr, "\r") else s) == Expand(z, '\r', "\r", '\n', nl)
  {
    TokenShape(nl, 'n', '2');
    TokenShape(cr, 'r', '5');
    SelfFree(cr, 'r', '5');
    TokensApart(cr, 'r', '5', nl, 'n', '2');
    hide IsToken, Expand, Replace, Occurs, Apart, Free;
    if '\r' in z {
      ReplaceUndoes(z, '\r', cr, '\n', nl);
    } else {
      CodeUnused(z, '\r', cr, "\r", '\n', nl);
    }
  }

  /** The outer replace() then restores LF. */
  lemma OuterPass(z: string, nl: string, cr: string)
    requires TokensOk(z, nl, cr)
    ensures var s := Expand(z, '\r', "\r", '\n', nl);
      (if '\n' in z then Replace(s, nl, "\n") else s) == z
  {
    TokenShape(nl, 'n', '2');
    SelfFree(nl, 'n', '2');
    TokenPlain(nl, 'n', '2');
    CharApart(nl, '\r');
    hide IsToken, Expand, Replace, Occurs, Apart, Free;
    ExpandSwap(z, '\r', "\r", '\n', nl);
    ExpandNothing(z, '\n', '\r');
    if '\n' in z {
      ReplaceUndoes(z, '\n', nl, '\r', "\r");
    } else {
      CodeUnused(z, '\n', nl, "\n", '\r', "\r");
    }
  }

  lemma Numerals()
    ensures Dec(13) == "13" && Dec(10) == "10"
  {
    assert Dec(1) == "1";
  }

  function CrPart(z: string, cr: string): string {
    if '\r' in z then ",'" + cr + "',char(13))" else ""
  }

  function NlPart(z: string, nl: string): string {
    if '\n' in z then ",'" + nl + "',char(10))" else ""
  }

  /** The literal with the replace() for CR, if any. */
  function Inner(z: string, nl: string, cr: string): string {
    (if '\r' in z then "replace(" else "") + "'" + Inside(z, nl, cr) + "'" + CrPart(z, cr)
  }

  lemma EvalInner(z: string, nl: string, cr: string, s: string)
    requires TokensOk(z, nl, cr) && !("'" <= s)
    ensures Eval(Inner(z, nl, cr) + s) == Parsed(Expand(z, '\r', "\r", '\n', nl), s)
  {
    TokenPlain(nl, 'n', '2');
    TokenPlain(cr, 'r', '5');
    InnerPass(z, nl, cr);
    hide TokensOk, Eval, Expand, Replace, Inside, After;
    InnerThen(z, nl, cr, s);
    var lit := "'" + Inside(z, nl, cr) + "'";
    hide Inner;
    if '\r' in z {
      EvalInside(z, nl, cr, After(cr, 13, s));
      EvalReplace(lit, Expand(z, '\r', cr, '\n', nl), cr, 13, s);
    } else {
      EvalInside(z, nl, cr, s);
    }
  }

  lemma InnerThen(z: string, nl: string, cr: string, s: string)
    ensures var lit := "'" + Inside(z, nl, cr) + "'";
      Inner(z, nl, cr) + s == if '\r' in z then "replace(" + (lit + After(cr, 13, s)) else lit + s
  {
    hide Inside, After;
    AfterCr(cr, s);
  }

  /** Evaluating the printed text gives back the string, and nothing of the text is left. */
  lemma RoundTrip(z: string, nl: string, cr: string)
    requires TokensOk(z, nl, cr)
    ensures Eval(Printed(z, nl, cr)) == Parsed(z, "")
  {
    TokenPlain(nl, 'n', '2');
    OuterPass(z, nl, cr);
    hide TokensOk, Eval, Expand, Replace, Inside, After;
    var e := Inner(z, nl, cr);
    PrintedInner(z, nl, cr);
    hide Inner, Printed;
    if '\n' in z {
      EvalInner(z, nl, cr, After(nl, 10, ""));
      EvalReplace(e, Expand(z, '\r', "\r", '\n', nl), nl, 10, "");
      AfterNl(nl, "");
      assert NlPart(z, nl) + "" == NlPart(z, nl);
    } else {
      EvalInner(z, nl, cr, "");
      assert "" + (e + "") == e + "";
    }
  }

  lemma PrintedInner(z: string, nl: string, cr: string)
    ensures Printed(z, nl, cr) == (if '\n' in z then "replace(" else "") + (Inner(z, nl, cr) + NlPart(z, nl))
  {
    hide Inside;
  }

  /** The printed text has no line ends that a text-mode stream could change. */
  lemma NoLineEnds(z: string, nl: string, cr: string)
    requires TokensOk(z, nl, cr)
    ensures '\n' !in Printed(z, nl, cr) && '\r' !in Printed(z, nl, cr)
  {
    TokenPlain(nl, 'n', '2');
    TokenPlain(cr, 'r', '5');
    InsideNoLineEnds(z, nl, cr);
    FrameNoLineEnds(z, nl, cr, '\n');
    FrameNoLineEnds(z, nl, cr, '\r');
    hide TokensOk, Inside, Opening, Closing;
  }

  lemma FrameNoLineEnds(z: string, nl: string, cr: string, c: char)
    requires c !in nl && c !in cr && c in "\n\r"
    ensures c !in Opening(z) && c !in Closing(z, nl, cr)
  {
    assert c !in ",'" + cr + "',char(13))";
    assert c !in ",'" + nl + "',char(10))";
  }

  lemma {:induction false} InsideNoLineEnds(z: string, nl: string, cr: string)
    requires Plain(nl) && Plain(cr)
    ensures '\n' !in Inside(z, nl, cr) && '\r' !in Inside(z, nl, cr)
  {
    if z != [] {
      InsideNoLineEnds(z[..|z| - 1], nl, cr);
    }
  }

  // -------------------------------------------------------------------- the printer

  method CountOf(z: string, c: char) returns (n: nat)
    ensures n > 0 <==> c in z
  {
    n := 0;
    for i := 0 to |z|
      invariant n > 0 <==> c in z[..i]
    {
      if z[i] == c { n := n + 1; }
    }
    assert z[..|z|] == z;
  }

  /** The length of the longest prefix of z[p..] without specials. */
  method Scan(z: string, p: nat) returns (i: nat)
    requires p <= |z|
    ensures p + i <= |z| && Plain(z[p..p + i])
    ensures p + i < |z| ==> z[p + i] in "\n\r'"
  {
    i := 0;
    while p + i < |z| && z[p + i] != '\n' && z[p + i] != '\r' && z[p + i] != '\''
      invariant p + i <= |z| && Plain(z[p..p + i])
    {
      assert z[p..p + i + 1] == z[p..p + i] + [z[p + i]];
      i := i + 1;
    }
  }

  lemma InsideRun(z: string, p: nat, i: nat, nl: string, cr: string)
    requires p + i <= |z| && Plain(z[p..p + i])
    ensures Inside(z[..p + i], nl, cr) == Inside(z[..p], nl, cr) + z[p..p + i]
  {
    hide Inside, Plain;
    InsidePlain(z[p..p + i], nl, cr);
    InsideConcat(z[..p], z[p..p + i], nl, cr);
    assert z[..p + i] == z[..p] + z[p..p + i];
  }

  lemma InsideOneMore(z: string, k: nat, nl: string, cr: string)
    requires k < |z|
    ensures Inside(z[..k + 1], nl, cr) == Inside(z[..k], nl, cr) + Marked(z[k], nl, cr)
  {
    hide Marked;
    assert z[..k + 1][..k] == z[..k];
  }

  lemma InsideNext(z: string, p: nat, i: nat, nl: string, cr: string)
    requires p + i < |z| && Plain(z[p..p + i]) && z[p + i] in "\n\r'"
    ensures var c, done := z[p + i], Inside(z[..p], nl, cr);
      Inside(z[..p + i + 1], nl, cr) ==
        if c == '\'' then done + z[p..p + i + 1] + "'" else done + z[p..p + i] + (if c == '\n' then nl else cr)
  {
    hide Inside, Plain;
    var c, done, run := z[p + i], Inside(z[..p], nl, cr), z[p..p + i];
    InsideOneMore(z, p + i, nl, cr);
    InsideRun(z, p, i, nl, cr);
    assert z[p..p + i + 1] == run + [c];
    assert done + run + "''" == done + (run + "'") + "'";
  }

  /** The main loop: the inside of the literal, in runs of ordinary characters. */
  method PrintInside(z: string, nl: string, cr: string) returns (out: string)
    ensures out == Inside(z, nl, cr)
  {
    out := "";
    assert Inside(z[..0], nl, cr) == "";
    hide Inside;
    var p := 0;
    while p < |z|
      invariant p <= |z| && out == Inside(z[..p], nl, cr)
    {
      var i := Scan(z, p);
      InsideRun(z, p, i, nl, cr);
      if p + i < |z| {
        var c := z[p + i];
        InsideNext(z, p, i, nl, cr);
        if c == '\'' {
          out := out + z[p..p + i + 1];
          out := out + "'";
        } else {
          out := out + z[p..p + i];
          out := out + if c == '\n' then nl else cr;
        }
        p := p + i + 1;
      } else {
        out := out + z[p..p + i];
        p := p + i;
      }
    }
    assert z[..p] == z;
  }

  /** The tokens, chosen only for the line ends that occur. */
  method ChooseTokens(z: string, nNL: nat, nCR: nat) returns (zNL: string, zCR: string)
    requires (nNL > 0 <==> '\n' in z) && (nCR > 0 <==> '\r' in z)
    ensures TokensOk(z, zNL, zCR)
  {
    hide Occurs, Made;
    zNL, zCR := "\\n", "\\r";
    if nNL > 0 {
      var tried;
      zNL, tried := UnusedString(z, "\\n", "\\012");
    }
    if nCR > 0 {
      var tried;
      zCR, tried := UnusedString(z, "\\r", "\\015");
    }
  }

  /** output_quoted_escaped_string */
  method OutputQuotedEscapedString(z: string) returns (out: string)
    ensures Eval(out) == Parsed(z, "")
    ensures '\n' !in out && '\r' !in out
  {
    hide Eval, Inside, TokensOk;
    var i := Scan(z, 0);
    if i == |z| {
      assert z[0..i] == z;
      out := "'" + z + "'";
      QuoteAlone(z);
    } else {
      var nNL := CountOf(z, '\n');
      var nCR := CountOf(z, '\r');
      var zNL, zCR := ChooseTokens(z, nNL, nCR);
      out := "";
      if nNL > 0 { out := out + "replace("; }
      if nCR > 0 { out := out + "replace("; }
      var inside := PrintInside(z, zNL, zCR);
      out := out + "'" + inside + "'";
      if nCR > 0 { out := out + (",'" + zCR + "',char(13))"); }
      if nNL > 0 { out := out + (",'" + zNL + "',char(10))"); }
      assert out == Printed(z, zNL, zCR);
      RoundTrip(z, zNL, zCR);
      NoLineEnds(z, zNL, zCR);
    }
  }

  lemma QuoteAlone(z: string)
    requires Plain(z)
    ensures Eval("'" + z + "'") == Parsed(z, "")
  {
    hide Eval;
    assert "'" + z + "'" == "'" + z + "'" + "";
    EvalToken(z, "");
  }
}
