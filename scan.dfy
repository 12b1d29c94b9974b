/**
 * The part of Go's `fmt.Sscanf` the puzzles use: a format of literal text and `%d` verbs,
 * matched from the front of the input. Text left over after the last verb is ignored.
 */
module Scan {
  import opened Wrappers
  import opened Decimal

  /** One piece of a format: literal text that must match exactly, or a `%d` verb. */
  datatype Verb = Literal(text: string) | Int

  /** Why scanning stopped: the input did not match a literal, or a `%d` found no integer. */
  datatype ScanError = InputMismatch | ExpectedInteger

  /** The number of `%d` verbs in a format. */
  function IntCount(format: seq<Verb>): nat {
    multiset(format)[Int]
  }

  lemma IntCountTail(format: seq<Verb>)
    requires format != []
    ensures IntCount(format) == (if format[0].Int? then 1 else 0) + IntCount(format[1..])
  {
    assert format == [format[0]] + format[1..];
  }

  /** The rest of s after the literal lit, matched one character at a time. */
  function ScanLiteral(s: string, lit: string): (r: Result<string, ScanError>)
    ensures r.Success? <==> |lit| <= |s| && s[..|lit|] == lit
    ensures r.Success? ==> r.value == s[|lit|..]
    ensures r.Failure? ==> r.error == InputMismatch
  {
    if lit == [] then Success(s)
    else if s != [] && s[0] == lit[0] then
      var r := ScanLiteral(s[1..], lit[1..]);
      assert |lit| <= |s| ==> (s[..|lit|] == lit <==> s[1..][..|lit| - 1] == lit[1..]);
      r
    else Failure(InputMismatch)
  }

  /**
   * The values of the `%d` verbs of format read from the front of s, in order; or the error of
   * the first piece that does not match.
   */
  function Sscanf(s: string, format: seq<Verb>): (r: Result<seq<int>, ScanError>)
    ensures r.Success? ==> |r.value| == IntCount(format)
  {
    if format == [] then Success([])
    else
      IntCountTail(format);
      match format[0]
      case Literal(text) =>
        var rest :- ScanLiteral(s, text);
        Sscanf(rest, format[1..])
      case Int =>
        match ScanInt(s)
        case None => Failure(ExpectedInteger)
        case Some((value, length)) =>
          var values :- Sscanf(s[length..], format[1..]);
          Success([value] + values)
  }

  /** The text a format prints with values in place of its verbs, as `fmt.Sprintf` with `%d`. */
  function Sprintf(format: seq<Verb>, values: seq<int>): string
    requires |values| == IntCount(format)
  {
    if format == [] then ""
    else
      IntCountTail(format);
      match format[0]
      case Literal(text) => text + Sprintf(format[1..], values)
      case Int => IntText(values[0]) + Sprintf(format[1..], values[1..])
  }

  /** Every `%d` is followed by literal text that cannot continue a number. */
  predicate Separated(format: seq<Verb>) {
    forall i :: 0 <= i < |format| - 1 && format[i].Int? ==>
      format[i + 1].Literal? && |format[i + 1].text| > 0 && !IsDigit(format[i + 1].text[0])
  }

  /** What follows a number must not go on with a digit. */
  predicate StopsNumber(s: string) {
    s == [] || !IsDigit(s[0])
  }

  /** Input that does not start with the format's opening literal is a mismatch. */
  lemma MismatchFirst(s: string, format: seq<Verb>)
    requires |format| > 0 && format[0].Literal?
    requires |s| < |format[0].text| || s[..|format[0].text|] != format[0].text
    ensures Sscanf(s, format) == Failure(InputMismatch)
  {
    IntCountTail(format);
  }

  lemma {:induction false} ScanLiteralThen(lit: string, rest: string)
    ensures ScanLiteral(lit + rest, lit) == Success(rest)
  {
    assert (lit + rest)[..|lit|] == lit;
    assert (lit + rest)[|lit|..] == rest;
  }

  /** Printed text that starts with a literal starts with that literal's first character. */
  lemma PrintedStart(format: seq<Verb>, values: seq<int>, rest: string)
    requires |values| == IntCount(format)
    requires |format| > 0 && format[0].Literal? && |format[0].text| > 0
    ensures (Sprintf(format, values) + rest)[0] == format[0].text[0]
  {
    IntCountTail(format);
  }

  lemma SeparatedTail(format: seq<Verb>)
    requires |format| > 0 && Separated(format)
    ensures Separated(format[1..])
  {
    forall i | 0 <= i < |format[1..]| - 1 && format[1..][i].Int?
      ensures format[1..][i + 1].Literal? && |format[1..][i + 1].text| > 0 && !IsDigit(format[1..][i + 1].text[0])
    {
      assert format[1..][i] == format[i + 1];
    }
  }

  /** Scanning a printed literal, given that the rest of the format scans back. */
  lemma ScanLiteralStep(format: seq<Verb>, values: seq<int>, rest: string)
    requires |format| > 0 && format[0].Literal? && |values| == IntCount(format)
    requires IntCount(format[1..]) == |values|
    requires Sscanf(Sprintf(format[1..], values) + rest, format[1..]) == Success(values)
    ensures Sscanf(Sprintf(format, values) + rest, format) == Success(values)
  {
    var tail := Sprintf(format[1..], values) + rest;
    assert Sprintf(format, values) + rest == format[0].text + tail;
    ScanLiteralThen(format[0].text, tail);
  }

  /** Scanning a printed number, given that the rest of the format scans back. */
  lemma ScanIntStep(format: seq<Verb>, values: seq<int>, rest: string)
    requires |format| > 0 && format[0].Int? && |values| == IntCount(format)
    requires IntCount(format[1..]) == |values| - 1
    requires StopsNumber(Sprintf(format[1..], values[1..]) + rest)
    requires Sscanf(Sprintf(format[1..], values[1..]) + rest, format[1..]) == Success(values[1..])
    ensures Sscanf(Sprintf(format, values) + rest, format) == Success(values)
  {
    var tail := Sprintf(format[1..], values[1..]) + rest;
    assert Sprintf(format, values) + rest == IntText(values[0]) + tail;
    ScanIntText(values[0], tail);
    assert (IntText(values[0]) + tail)[|IntText(values[0])|..] == tail;
    assert values == [values[0]] + values[1..];
  }

  /**
   * Sscanf reads back what Sprintf printed with the same format, when every number is
   * followed by something that is not a digit.
   */
  lemma {:induction false} ScanPrinted(format: seq<Verb>, values: seq<int>, rest: string)
    requires |values| == IntCount(format)
    requires Separated(format)
    requires StopsNumber(rest)
    ensures Sscanf(Sprintf(format, values) + rest, format) == Success(values)
  {
    if format != [] {
      IntCountTail(format);
      SeparatedTail(format);
      if format[0].Literal? {
        ScanPrinted(format[1..], values, rest);
        ScanLiteralStep(format, values, rest);
      } else {
        ScanPrinted(format[1..], values[1..], rest);
        if |format| > 1 {
          PrintedStart(format[1..], values[1..], rest);
        }
        ScanIntStep(format, values, rest);
      }
    }
  }
}
