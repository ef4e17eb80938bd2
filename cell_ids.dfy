/** Cell ids: the `${i}-${j}` strings the grid builders give each cell, and the
    way the step handler reads the two coordinates back out of them with the
    regular expression /\d+/g and Number(). */
module CellIds {
  import opened Options

  predicate IsDigit(c: char) {
    '0' <= c <= '9'
  }

  predicate AllDigits(s: string) {
    forall k :: 0 <= k < |s| ==> IsDigit(s[k])
  }

  function DigitChar(d: nat): (c: char)
    requires d < 10
    ensures IsDigit(c)
  {
    ('0' as int + d) as char
  }

  function DigitValue(c: char): (d: nat)
    requires IsDigit(c)
    ensures d < 10 && DigitChar(d) == c
  {
    c as int - '0' as int
  }

  /** The decimal text of a non-negative integer, as a template literal renders it:
      no sign, no leading zeros, "0" for zero. */
  function DecimalString(n: nat): (s: string)
    ensures |s| > 0 && AllDigits(s)
    ensures s[0] == '0' ==> n == 0
    decreases n
  {
    if n < 10 then [DigitChar(n)] else DecimalString(n / 10) + [DigitChar(n % 10)]
  }

  /** Number(s) for a string made only of decimal digits. */
  function DecimalValue(s: string): nat
    requires AllDigits(s)
  {
    if s == [] then 0 else 10 * DecimalValue(s[..|s| - 1]) + DigitValue(s[|s| - 1])
  }

  /** Reading the rendered text back gives the number that was rendered. */
  lemma {:induction false} DecimalRoundTrip(n: nat)
    ensures DecimalValue(DecimalString(n)) == n
  {
    var s := DecimalString(n);
    if n >= 10 {
      assert s[..|s| - 1] == DecimalString(n / 10);
      DecimalRoundTrip(n / 10);
    }
  }

  /** The id main.js and init.js give the cell in row i, column j. */
  function CellId(i: nat, j: nat): string {
    DecimalString(i) + "-" + DecimalString(j)
  }

  /** The maximal runs of digits of s, left to right, given that the run being
      collected so far is `run`. */
  function RunsFrom(s: string, run: string): (runs: seq<string>)
    requires AllDigits(run)
    ensures forall k :: 0 <= k < |runs| ==> |runs[k]| > 0 && AllDigits(runs[k])
    decreases |s|
  {
    if s == [] then
      (if run == [] then [] else [run])
    else if IsDigit(s[0]) then
      RunsFrom(s[1..], run + [s[0]])
    else
      (if run == [] then [] else [run]) + RunsFrom(s[1..], [])
  }

  /** What s.match(/\d+/g) returns: every maximal run of ASCII digits, in order
      (the empty list stands for the null a string without digits gives). */
  function DigitRuns(s: string): seq<string> {
    RunsFrom(s, [])
  }

  /** `let [i, j] = id.match(/\d+/g)` followed by Number(i), Number(j). An id with
      fewer than two digit runs has no coordinates (the source would throw). */
  function ParseCellId(id: string): Option<(nat, nat)> {
    var runs := DigitRuns(id);
    if |runs| < 2 then None else Some((DecimalValue(runs[0]), DecimalValue(runs[1])))
  }

  /** A block of digits is absorbed whole into the run being collected. */
  lemma {:induction false} RunsFromDigits(d: string, rest: string, run: string)
    requires AllDigits(d) && AllDigits(run)
    ensures RunsFrom(d + rest, run) == RunsFrom(rest, run + d)
    decreases |d|
  {
    if d == [] {
      assert d + rest == rest && run + d == run;
    } else {
      assert (d + rest)[0] == d[0] && (d + rest)[1..] == d[1..] + rest;
      assert (run + [d[0]]) + d[1..] == run + d;
      RunsFromDigits(d[1..], rest, run + [d[0]]);
    }
  }

  /** The digit runs of "i-j" are exactly the decimal texts of i and j. */
  lemma CellIdRuns(i: nat, j: nat)
    ensures DigitRuns(CellId(i, j)) == [DecimalString(i), DecimalString(j)]
  {
    var a, b := DecimalString(i), DecimalString(j);
    assert CellId(i, j) == a + ("-" + b);
    RunsFromDigits(a, "-" + b, []);
    assert [] + a == a;
    assert ("-" + b)[1..] == b + [];
    RunsFromDigits(b, [], []);
    assert [] + b == b;
  }

  /** Parsing an id gives back the coordinates it was built from. */
  lemma ParseCellIdRoundTrip(i: nat, j: nat)
    ensures ParseCellId(CellId(i, j)) == Some((i, j))
  {
    CellIdRuns(i, j);
    DecimalRoundTrip(i);
    DecimalRoundTrip(j);
  }

  /** Distinct coordinates get distinct ids, so an id names one cell. */
  lemma CellIdInjective(i: nat, j: nat, i': nat, j': nat)
    ensures CellId(i, j) == CellId(i', j') <==> i == i' && j == j'
  {
    ParseCellIdRoundTrip(i, j);
    ParseCellIdRoundTrip(i', j');
  }
}
