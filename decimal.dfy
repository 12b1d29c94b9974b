/**
 * Decimal integer text, as the Go library functions the puzzles rely on read and write it:
 * `strconv.Atoi` (a whole token), the `%d` verb of `fmt.Sscanf` (a greedy prefix) and
 * `strconv.Itoa` (used here only to state round trips).
 */
module Decimal {
  import opened Wrappers

  predicate IsDigit(c: char) {
    '0' <= c <= '9'
  }

  predicate AllDigits(s: string) {
    forall i :: 0 <= i < |s| ==> IsDigit(s[i])
  }

  function DigitValue(c: char): nat
    requires IsDigit(c)
  {
    (c as int) - ('0' as int)
  }

  function DigitChar(d: nat): (c: char)
    requires d < 10
    ensures IsDigit(c) && DigitValue(c) == d
  {
    (('0' as int) + d) as char
  }

  /** The value of a run of decimal digits, most significant digit first. */
  function DigitsValue(s: string): nat
    requires AllDigits(s)
  {
    if s == [] then 0 else DigitsValue(s[..|s| - 1]) * 10 + DigitValue(s[|s| - 1])
  }

  /** The shortest decimal text of a natural number. */
  function NatText(n: nat): (s: string)
    ensures |s| >= 1 && AllDigits(s)
    ensures DigitsValue(s) == n
  {
    if n < 10 then [DigitChar(n)]
    else
      var s := NatText(n / 10) + [DigitChar(n % 10)];
      assert s[..|s| - 1] == NatText(n / 10);
      s
  }

  /** `strconv.Itoa`: a minus sign for negative numbers, then the digits. */
  function IntText(n: int): (s: string)
    ensures |s| >= 1 && (s[0] == '-' || IsDigit(s[0]))
    ensures forall i :: 0 <= i < |s| ==> s[i] == '-' || IsDigit(s[i])
  {
    if n < 0 then "-" + NatText(-n) else NatText(n)
  }

  /** The texts `strconv.Atoi` accepts: an optional sign, then at least one decimal digit. */
  predicate IsIntText(s: string) {
    if |s| > 0 && (s[0] == '+' || s[0] == '-') then |s| > 1 && AllDigits(s[1..])
    else |s| > 0 && AllDigits(s)
  }

  /** `strconv.Atoi` on a text it accepts (range errors of 64-bit integers are not modelled). */
  function Atoi(s: string): int
    requires IsIntText(s)
  {
    if s[0] == '-' then -(DigitsValue(s[1..]) as int)
    else if s[0] == '+' then DigitsValue(s[1..])
    else DigitsValue(s)
  }

  lemma AtoiIntText(n: int)
    ensures IsIntText(IntText(n)) && Atoi(IntText(n)) == n
  {
    if n < 0 {
      assert IntText(n)[1..] == NatText(-n);
    }
  }

  /** The number of decimal digits at the front of s. */
  function DigitRun(s: string): (n: nat)
    ensures n <= |s| && AllDigits(s[..n])
    ensures n == |s| || !IsDigit(s[n])
  {
    if s == [] || !IsDigit(s[0]) then 0
    else
      var n := 1 + DigitRun(s[1..]);
      assert s[..n] == [s[0]] + s[1..][..n - 1];
      n
  }

  /**
   * The `%d` verb of `fmt.Sscanf` (leading blanks aside): an optional sign and then every
   * decimal digit that follows, at least one. Gives the value and the number of characters read.
   */
  function ScanInt(s: string): (r: Option<(int, nat)>)
    ensures r.Some? ==> 0 < r.value.1 <= |s|
    ensures r.Some? ==> IsIntText(s[..r.value.1]) && Atoi(s[..r.value.1]) == r.value.0
    ensures r.Some? ==> r.value.1 == |s| || !IsDigit(s[r.value.1])
    ensures r.None? <==> DigitRun(if |s| > 0 && (s[0] == '+' || s[0] == '-') then s[1..] else s) == 0
  {
    var signed := |s| > 0 && (s[0] == '+' || s[0] == '-');
    var body := if signed then s[1..] else s;
    var n := DigitRun(body);
    if n == 0 then None
    else
      var magnitude := DigitsValue(body[..n]);
      var used := if signed then n + 1 else n;
      assert signed ==> s[..used][1..] == body[..n];
      assert !signed ==> s[..used] == body[..n];
      Some((if signed && s[0] == '-' then -(magnitude as int) else magnitude as int, used))
  }

  lemma {:induction false} DigitRunOfDigits(t: string, rest: string)
    requires AllDigits(t)
    requires rest == [] || !IsDigit(rest[0])
    ensures DigitRun(t + rest) == |t|
    decreases |t|
  {
    if t != [] {
      assert (t + rest)[1..] == t[1..] + rest;
      DigitRunOfDigits(t[1..], rest);
    } else {
      assert t + rest == rest;
    }
  }

  lemma ScanNatText(n: nat, rest: string)
    requires rest == [] || !IsDigit(rest[0])
    ensures ScanInt(NatText(n) + rest) == Some((n, |NatText(n)|))
  {
    var t := NatText(n);
    var s := t + rest;
    DigitRunOfDigits(t, rest);
    assert s[0] == t[0] && IsDigit(s[0]);
    assert s[..|t|] == t;
  }

  lemma ScanNegativeText(n: nat, rest: string)
    requires rest == [] || !IsDigit(rest[0])
    ensures ScanInt("-" + NatText(n) + rest) == Some((-(n as int), 1 + |NatText(n)|))
  {
    var t := NatText(n);
    var s := "-" + t + rest;
    assert s[1..] == t + rest;
    DigitRunOfDigits(t, rest);
    assert s[1..][..|t|] == t;
  }

  /** `%d` reads back exactly the text `strconv.Itoa` writes, when no digit follows it. */
  lemma ScanIntText(n: int, rest: string)
    requires rest == [] || !IsDigit(rest[0])
    ensures ScanInt(IntText(n) + rest) == Some((n, |IntText(n)|))
  {
    if n < 0 {
      ScanNegativeText(-n, rest);
    } else {
      ScanNatText(n, rest);
    }
  }
}
