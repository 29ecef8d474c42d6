/** The text the manager's reports are built from. */
module Text {

  /** Each string followed by a newline, as the report loops append `x + "\n"`. */
  function Lines(xs: seq<string>): (r: string)
  {
    if xs == [] then "" else Lines(xs[..|xs| - 1]) + xs[|xs| - 1] + "\n"
  }

  lemma LinesSnoc(xs: seq<string>, x: string)
    ensures Lines(xs + [x]) == Lines(xs) + x + "\n"
  {
    assert (xs + [x])[..|xs|] == xs;
  }

  /** The report loops: `result += x + "\n"` for each `x` in turn. */
  method AppendLines(prefix: string, xs: seq<string>) returns (r: string)
    ensures r == prefix + Lines(xs)
  {
    r := prefix;
    var i := 0;
    while i < |xs|
      invariant 0 <= i <= |xs|
      invariant r == prefix + Lines(xs[..i])
    {
      assert xs[..i + 1] == xs[..i] + [xs[i]];
      LinesSnoc(xs[..i], xs[i]);
      r := r + xs[i] + "\n";
      i := i + 1;
    }
    assert xs[..i] == xs;
  }

  function Digit(d: int): (c: char)
    requires 0 <= d < 10
  {
    "0123456789"[d]
  }

  function DigitValue(c: char): int
  {
    if '0' <= c <= '9' then c as int - '0' as int else 0
  }

  /** The decimal text of a non-negative int, as Java's string concatenation writes it. */
  function DecimalString(n: nat): (r: string)
    ensures |r| > 0 && forall i :: 0 <= i < |r| ==> '0' <= r[i] <= '9'
    ensures |r| > 1 ==> r[0] != '0'
  {
    if n < 10 then [Digit(n)] else DecimalString(n / 10) + [Digit(n % 10)]
  }

  /** Reading decimal digits back, most significant first. */
  function DecimalValue(s: string): nat
  {
    if s == [] then 0 else 10 * DecimalValue(s[..|s| - 1]) + (if '0' <= s[|s| - 1] <= '9' then DigitValue(s[|s| - 1]) else 0)
  }

  lemma {:induction false} DecimalRoundTrip(n: nat)
    ensures DecimalValue(DecimalString(n)) == n
  {
    if n >= 10 {
      DecimalRoundTrip(n / 10);
      var s := DecimalString(n);
      assert s[..|s| - 1] == DecimalString(n / 10);
    }
  }
}
