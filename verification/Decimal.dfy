/** Decimal numerals, as printf's %d and %u write them for a non-negative number. */
module Decimal {

  predicate IsDigit(c: char) { '0' <= c <= '9' }

  function Digit(d: nat): (c: char)
    requires d < 10
    ensures IsDigit(c)
  {
    '0' + d as char
  }

  function Dec(n: nat): (s: string)
    ensures s != [] && forall i :: 0 <= i < |s| ==> IsDigit(s[i])
  {
    if n < 10 then [Digit(n)] else Dec(n / 10) + [Digit(n % 10)]
  }

  /** The number a string of digits denotes; other characters count as nothing. */
  function Value(s: string): nat {
    if s == [] then 0
    else
      var c := s[|s| - 1];
      10 * Value(s[..|s| - 1]) + if IsDigit(c) then (c - '0') as nat else 0
  }

  lemma {:induction false} ValueOfDec(n: nat)
    ensures Value(Dec(n)) == n
  {
    if n < 10 {
      assert Dec(n)[..0] == [];
    } else {
      ValueOfDec(n / 10);
      assert Dec(n)[..|Dec(n)| - 1] == Dec(n / 10);
    }
  }

  /** How many digits s starts with. */
  function Run(s: string): (k: nat)
    ensures k <= |s|
  {
    if s == [] || !IsDigit(s[0]) then 0 else 1 + Run(s[1..])
  }

  lemma {:induction false} RunOf(d: string, s: string)
    requires forall i :: 0 <= i < |d| ==> IsDigit(d[i])
    requires s != [] && !IsDigit(s[0])
    ensures Run(d + s) == |d|
    decreases |d|
  {
    if d == [] {
      assert d + s == s;
    } else {
      RunOf(d[1..], s);
      assert (d + s)[1..] == d[1..] + s;
    }
  }

  /** A numeral ended by a character that is no digit is read back, and what follows is left. */
  lemma ReadsBack(n: nat, s: string)
    requires s != [] && !IsDigit(s[0])
    ensures var t := Dec(n) + s; Run(t) == |Dec(n)| && Value(t[..Run(t)]) == n && t[Run(t)..] == s
  {
    hide Dec, Value;
    RunOf(Dec(n), s);
    ValueOfDec(n);
    assert (Dec(n) + s)[..|Dec(n)|] == Dec(n);
  }

  /** A numeral has at most ten digits when the number has 32 bits. */
  lemma TenDigits(n: nat)
    requires n < 0x1_0000_0000
    ensures |Dec(n)| <= 10
  {
    LengthBound(n, 10, 1_0000_000_000);
  }

  lemma {:induction false} LengthBound(n: nat, k: nat, p: nat)
    requires k > 0 && n < p && p == Power(k)
    ensures |Dec(n)| <= k
    decreases k
  {
    if n >= 10 {
      LengthBound(n / 10, k - 1, Power(k - 1));
    }
  }

  function Power(k: nat): nat { if k == 0 then 1 else 10 * Power(k - 1) }
}
