/** String operations the core relies on: prefix and substring tests,
    joining, the `^[0-9]+$` pattern, and decimal conversion both ways. */
module Text {

  predicate StartsWith(s: string, prefix: string)
  {
    prefix <= s
  }

  /** Python's `sub in s`. */
  predicate Contains(s: string, sub: string)
  {
    sub <= s || (s != [] && Contains(s[1..], sub))
  }

  /** `sep.join(parts)`. */
  function Join(sep: string, parts: seq<string>): (r: string)
    ensures parts == [] ==> r == ""
    ensures |parts| == 1 ==> r == parts[0]
  {
    if parts == [] then ""
    else if |parts| == 1 then parts[0]
    else Join(sep, parts[..|parts| - 1]) + sep + parts[|parts| - 1]
  }

  predicate IsDigit(c: char)
  {
    '0' <= c <= '9'
  }

  predicate AllDigits(s: string)
  {
    forall i :: 0 <= i < |s| ==> IsDigit(s[i])
  }

  /** `re.match(r"^[0-9]+$", s)`: one or more ASCII digits; `$` also matches
      just before a final newline, so one trailing newline is accepted. */
  predicate MatchesDigits(s: string)
  {
    (|s| > 0 && AllDigits(s)) || (|s| > 1 && s[|s| - 1] == '\n' && AllDigits(s[..|s| - 1]))
  }

  /** `re.sub("^[0-9]+", "", s)`: drop the leading run of digits. */
  function StripLeadingDigits(s: string): (r: string)
    ensures |r| <= |s| && r == s[|s| - |r|..]
    ensures AllDigits(s[..|s| - |r|])
    ensures r == [] || !IsDigit(r[0])
  {
    if s != [] && IsDigit(s[0]) then
      var r := StripLeadingDigits(s[1..]);
      assert s[1..][..|s| - 1 - |r|] == s[1..|s| - |r|];
      r
    else s
  }

  function DigitChar(d: int): (c: char)
    requires 0 <= d < 10
    ensures IsDigit(c)
  {
    ('0' as int + d) as char
  }

  function DigitValue(c: char): int
    requires IsDigit(c)
  {
    c as int - '0' as int
  }

  /** `str(n)` for an int. */
  function DecimalString(n: int): (r: string)
    ensures n >= 0 ==> |r| > 0 && AllDigits(r)
    ensures n < 0 ==> |r| > 0 && r[0] == '-'
    decreases if n < 0 then 1 - n else n
  {
    if n < 0 then "-" + DecimalString(-n)
    else if n < 10 then [DigitChar(n)]
    else DecimalString(n / 10) + [DigitChar(n % 10)]
  }

  /** The number a string of digits denotes. */
  function DigitsValue(s: string): (n: nat)
    requires AllDigits(s)
  {
    if s == [] then 0 else 10 * DigitsValue(s[..|s| - 1]) + DigitValue(s[|s| - 1])
  }

  /** `int(s)` for a string that `MatchesDigits`: `int` ignores the trailing newline. */
  function ParseDigits(s: string): nat
    requires MatchesDigits(s)
  {
    if AllDigits(s) then DigitsValue(s) else DigitsValue(s[..|s| - 1])
  }

  /** `int(str(n)) == n` for every non-negative n. */
  lemma {:induction false} DecimalRoundTrip(n: nat)
    ensures DigitsValue(DecimalString(n)) == n
    decreases n
  {
    if n >= 10 {
      var s := DecimalString(n);
      DecimalRoundTrip(n / 10);
      assert s[..|s| - 1] == DecimalString(n / 10);
    }
  }
}
