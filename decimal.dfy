/** Decimal rendering of a non-negative integer, as `fmt.Sprint` produces it for the
    `Content-Length` header of an MJPEG part, and the parse that reads it back. */
module Decimal {

  datatype Option<T> = None | Some(value: T)

  predicate IsDigit(c: char) {
    '0' <= c <= '9'
  }

  /** The character of one decimal digit. */
  function Digit(d: nat): (c: char)
    requires d < 10
    ensures IsDigit(c) && c as int - '0' as int == d
  {
    ('0' as int + d) as char
  }

  /** `fmt.Sprint(n)` for an `int` n >= 0: its decimal digits, most significant first,
      without leading zeros ("0" for zero). */
  function Format(n: nat): (s: string)
    ensures 1 <= |s|
    ensures forall i | 0 <= i < |s| :: IsDigit(s[i])
    ensures |s| > 1 ==> s[0] != '0'
    ensures n < 10 <==> |s| == 1
  {
    if n < 10 then [Digit(n)] else Format(n / 10) + [Digit(n % 10)]
  }

  /** The number a string of digits denotes. */
  function Value(s: string): nat
    requires forall i | 0 <= i < |s| :: IsDigit(s[i])
  {
    if s == [] then 0
    else
      assert IsDigit(s[|s| - 1]);
      Value(s[..|s| - 1]) * 10 + (s[|s| - 1] as int - '0' as int)
  }

  /** Reads a header value back as a byte count: `None` unless it is a non-empty string of digits. */
  function Parse(s: string): (r: Option<nat>)
    ensures r.Some? <==> |s| > 0 && forall i | 0 <= i < |s| :: IsDigit(s[i])
  {
    if |s| > 0 && forall i | 0 <= i < |s| :: IsDigit(s[i]) then Some(Value(s)) else None
  }

  /** The rendered length reads back as the same number. */
  lemma {:induction false} ParseFormat(n: nat)
    ensures Parse(Format(n)) == Some(n)
  {
    ValueFormat(n);
  }

  lemma {:induction false} ValueFormat(n: nat)
    ensures Value(Format(n)) == n
  {
    var s := Format(n);
    if n >= 10 {
      ValueFormat(n / 10);
      assert s[..|s| - 1] == Format(n / 10);
    }
  }

  /** Distinct lengths render as distinct strings. */
  lemma FormatInjective(m: nat, n: nat)
    ensures Format(m) == Format(n) <==> m == n
  {
    if Format(m) == Format(n) {
      ParseFormat(m);
      ParseFormat(n);
    }
  }
}
