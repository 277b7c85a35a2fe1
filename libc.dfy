/**
 * The few C library facilities the clipboard manager leans on, as values:
 * the environment, `strtol` with base 10, `%ld` printing and the string a
 * NUL byte ends.
 */
module LibC {
  import opened Wrappers

  /** The process environment: a variable that is not in the map is unset. */
  type Env = map<string, string>

  /** getenv: the value of `name`, or None (NULL) when it is unset. */
  function GetEnv(env: Env, name: string): Option<string>
  {
    if name in env then Some(env[name]) else None
  }

  /** isspace in the C locale. */
  predicate IsSpace(c: char)
  {
    c == ' ' || c == '\t' || c == '\n' || c == '\U{B}' || c == '\U{C}' || c == '\r'
  }

  predicate IsDigit(c: char)
  {
    '0' <= c <= '9'
  }

  function DigitValue(c: char): (d: nat)
    requires IsDigit(c)
    ensures d < 10
  {
    (c as int) - ('0' as int)
  }

  function DigitChar(d: nat): (c: char)
    requires d < 10
    ensures IsDigit(c) && DigitValue(c) == d
  {
    ((d + '0' as int) as char)
  }

  /** The end of the run of spaces starting at `i`. */
  function SpaceEnd(s: string, i: nat): (j: nat)
    requires i <= |s|
    ensures i <= j <= |s|
    ensures j == |s| || !IsSpace(s[j])
    decreases |s| - i
  {
    if i < |s| && IsSpace(s[i]) then SpaceEnd(s, i + 1) else i
  }

  /** The end of the run of decimal digits starting at `i`. */
  function DigitEnd(s: string, i: nat): (j: nat)
    requires i <= |s|
    ensures i <= j <= |s|
    ensures forall k :: i <= k < j ==> IsDigit(s[k])
    ensures j == |s| || !IsDigit(s[j])
    decreases |s| - i
  {
    if i < |s| && IsDigit(s[i]) then DigitEnd(s, i + 1) else i
  }

  /** The value of a string of decimal digits, most significant first. */
  function DigitsValue(d: string): nat
    requires forall k :: 0 <= k < |d| ==> IsDigit(d[k])
    decreases |d|
  {
    if d == [] then 0 else DigitsValue(d[..|d| - 1]) * 10 + DigitValue(d[|d| - 1])
  }

  /**
   * strtol(s, NULL, 10): leading spaces, an optional sign, then the longest
   * run of digits; 0 when there are no digits.
   */
  function Strtol(s: string): (n: int)
    ensures |s| > 0 && !IsSpace(s[0]) && !IsDigit(s[0]) && s[0] != '-' && s[0] != '+' ==> n == 0
    ensures |s| > 0 && IsDigit(s[0]) ==> n >= 0 && n == DigitsValue(s[..DigitEnd(s, 0)])
  {
    var i := SpaceEnd(s, 0);
    var j := if i < |s| && (s[i] == '-' || s[i] == '+') then i + 1 else i;
    var v: int := DigitsValue(s[j..DigitEnd(s, j)]);
    if i < |s| && s[i] == '-' then -v else v
  }

  /** sprintf("%ld", n) for a non-negative n. */
  function DecimalString(n: nat): (s: string)
    ensures |s| > 0 && IsDigit(s[0])
    ensures forall k :: 0 <= k < |s| ==> IsDigit(s[k])
    decreases n
  {
    if n < 10 then [DigitChar(n)] else DecimalString(n / 10) + [DigitChar(n % 10)]
  }

  /** The digits that DecimalString writes are worth `n`. */
  lemma {:induction false} DecimalValue(n: nat)
    ensures DigitsValue(DecimalString(n)) == n
    decreases n
  {
    var s := DecimalString(n);
    if n >= 10 {
      assert s[..|s| - 1] == DecimalString(n / 10);
      DecimalValue(n / 10);
    }
  }

  /** strtol reads back every number DecimalString prints. */
  lemma StrtolDecimal(n: nat)
    ensures Strtol(DecimalString(n)) == n
  {
    var s := DecimalString(n);
    assert SpaceEnd(s, 0) == 0;
    assert DigitEnd(s, 0) == |s|;
    assert s[0..|s|] == s;
    DecimalValue(n);
  }

  /** Different numbers print differently. */
  lemma DecimalInjective(n: nat, m: nat)
    requires n != m
    ensures DecimalString(n) != DecimalString(m)
  {
    StrtolDecimal(n);
    StrtolDecimal(m);
  }

  /** Everything before the first `stop` character (all of `s` when there is none). */
  function PrefixBefore(s: string, stop: char): (r: string)
    ensures r <= s && stop !in r
    ensures |r| == |s| || s[|r|] == stop
    decreases |s|
  {
    if s == [] || s[0] == stop then [] else [s[0]] + PrefixBefore(s[1..], stop)
  }

  /** A prefix without `stop` that ends at a `stop` or at the end is that prefix. */
  lemma PrefixBeforeUnique(s: string, stop: char, r: string)
    requires r <= s && stop !in r
    requires |r| == |s| || s[|r|] == stop
    ensures PrefixBefore(s, stop) == r
  {
  }

  /** The C string a buffer holds: everything before its first NUL byte. */
  function CString(s: string): string
  {
    PrefixBefore(s, '\0')
  }
}
