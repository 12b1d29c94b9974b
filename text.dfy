/** The two functions of Go's `strings` package that path parsing uses. */
module Text {

  /**
   * `strings.Split(s, sep)` for a non-empty separator: the pieces between the leftmost
   * non-overlapping occurrences of sep, scanning from the left.
   */
  function Split(s: string, sep: string): (r: seq<string>)
    requires |sep| > 0
    ensures |r| >= 1
    decreases |s|
  {
    if |s| < |sep| then [s]
    else if s[..|sep|] == sep then [""] + Split(s[|sep|..], sep)
    else
      var rest := Split(s[1..], sep);
      [[s[0]] + rest[0]] + rest[1..]
  }

  /** `strings.Join`: the pieces with sep between consecutive ones. */
  function Join(parts: seq<string>, sep: string): string
    requires |parts| >= 1
  {
    if |parts| == 1 then parts[0] else parts[0] + sep + Join(parts[1..], sep)
  }

  /**
   * `strings.Cut(s, sep)` for a one-character separator: the text before and after the first
   * sep and true, or s, "" and false when s holds no sep.
   */
  function Cut(s: string, sep: char): (r: (string, string, bool))
    ensures r.2 <==> sep in s
    ensures r.2 ==> s == r.0 + [sep] + r.1 && sep !in r.0
    ensures !r.2 ==> r.0 == s && r.1 == ""
  {
    if s == [] then ("", "", false)
    else if s[0] == sep then ("", s[1..], true)
    else
      var (before, after, found) := Cut(s[1..], sep);
      assert s == [s[0]] + s[1..];
      ([s[0]] + before, after, found)
  }

  lemma {:induction false} SplitPieceThenSep(t: string, sep: string, rest: string)
    requires |sep| > 0 && sep[0] !in t
    ensures Split(t + sep + rest, sep) == [t] + Split(rest, sep)
    decreases |t|
  {
    var s := t + sep + rest;
    if t == [] {
      assert s[..|sep|] == sep && s[|sep|..] == rest;
    } else {
      assert s[0] == t[0] != sep[0];
      assert s[1..] == t[1..] + sep + rest;
      SplitPieceThenSep(t[1..], sep, rest);
      assert [t[0]] + t[1..] == t;
    }
  }

  lemma {:induction false} SplitPiece(t: string, sep: string)
    requires |sep| > 0 && sep[0] !in t
    ensures Split(t, sep) == [t]
    decreases |t|
  {
    if |t| >= |sep| {
      assert t[0] != sep[0];
      SplitPiece(t[1..], sep);
      assert [t[0]] + t[1..] == t;
    }
  }

  /** Splitting undoes joining when no piece contains the separator's first character. */
  lemma {:induction false} SplitJoin(parts: seq<string>, sep: string)
    requires |parts| >= 1 && |sep| > 0
    requires forall i :: 0 <= i < |parts| ==> sep[0] !in parts[i]
    ensures Split(Join(parts, sep), sep) == parts
    decreases |parts|
  {
    if |parts| == 1 {
      SplitPiece(parts[0], sep);
    } else {
      SplitPieceThenSep(parts[0], sep, Join(parts[1..], sep));
      SplitJoin(parts[1..], sep);
    }
  }

  /** Cutting at the separator that ends the first piece gives back the two pieces. */
  lemma {:induction false} CutAt(before: string, sep: char, after: string)
    requires sep !in before
    ensures Cut(before + [sep] + after, sep) == (before, after, true)
    decreases |before|
  {
    var s := before + [sep] + after;
    if before == [] {
      assert s[1..] == after;
    } else {
      assert s[1..] == before[1..] + [sep] + after;
      CutAt(before[1..], sep, after);
      assert [before[0]] + before[1..] == before;
    }
  }
}
