/** Python's `int(...)` applied to the `rowscount` string that the monitoring
    API returns: an optional sign followed by decimal digits, at most
    `MaxStrDigits` of them (CPython's default limit on integer string
    conversion). Anything else raises, which the caller turns into an empty
    result. */
module Decimal {
  import opened Wrappers

  predicate IsDigit(c: char) {
    '0' <= c <= '9'
  }

  predicate AllDigits(s: string) {
    forall i :: 0 <= i < |s| ==> IsDigit(s[i])
  }

  /** CPython's default `sys.get_int_max_str_digits()`: `int` and `str`
      raise on a decimal text with more digits than this. */
  const MaxStrDigits: nat := 4300

  /** Optional `+` or `-`, then at least one digit. */
  predicate IsIntSyntax(s: string) {
    |s| > 0 &&
    if s[0] == '+' || s[0] == '-' then |s| > 1 && AllDigits(s[1..]) else AllDigits(s)
  }

  /** The number of digits after the optional sign. */
  function DigitCount(s: string): nat
    requires IsIntSyntax(s)
  {
    if s[0] == '+' || s[0] == '-' then |s| - 1 else |s|
  }

  /** The strings `int` accepts here: the syntax above, within the digit limit. */
  predicate IsIntLiteral(s: string) {
    IsIntSyntax(s) && DigitCount(s) <= MaxStrDigits
  }

  function DigitValue(c: char): (d: nat)
    requires IsDigit(c)
    ensures d < 10
  {
    (c as int) - ('0' as int)
  }

  function DigitChar(d: nat): (c: char)
    requires d < 10
    ensures IsDigit(c) && DigitValue(c) == d
  {
    (('0' as int) + d) as char
  }

  /** Value of a string of digits, most significant first. */
  function DigitsValue(s: string): nat
    requires AllDigits(s)
  {
    if s == [] then 0 else 10 * DigitsValue(s[..|s| - 1]) + DigitValue(s[|s| - 1])
  }

  /** `int(s)`: `None` where Python raises `ValueError`. */
  function ParseInt(s: string): (r: Option<int>)
    ensures r.Some? <==> IsIntLiteral(s)
  {
    if !IsIntLiteral(s) then None
    else if s[0] == '-' then Some(-(DigitsValue(s[1..]) as int))
    else if s[0] == '+' then Some(DigitsValue(s[1..]))
    else Some(DigitsValue(s))
  }

  /** Decimal digits of a natural number, with no leading zero. */
  function NatDigits(n: nat): (s: string)
    ensures |s| > 0 && AllDigits(s)
    decreases n
  {
    if n < 10 then [DigitChar(n)] else NatDigits(n / 10) + [DigitChar(n % 10)]
  }

  /** The decimal text of an integer (`str(n)` in Python). */
  function IntToString(n: int): (s: string)
    ensures IsIntSyntax(s)
    ensures DigitCount(s) == |NatDigits(if n < 0 then -n else n)|
  {
    if n < 0 then "-" + NatDigits(-n) else NatDigits(n)
  }

  lemma {:induction false} DigitsValueOfNatDigits(n: nat)
    ensures DigitsValue(NatDigits(n)) == n
    decreases n
  {
    var s := NatDigits(n);
    if n >= 10 {
      DigitsValueOfNatDigits(n / 10);
      assert s[..|s| - 1] == NatDigits(n / 10);
    }
  }

  /** Parsing inverts printing: every integer whose decimal text is within the
      digit limit (the integers `str` itself can print) reads back as itself. */
  lemma ParseIntOfIntToString(n: int)
    requires |NatDigits(if n < 0 then -n else n)| <= MaxStrDigits
    ensures ParseInt(IntToString(n)) == Some(n)
  {
    var s := IntToString(n);
    if n < 0 {
      DigitsValueOfNatDigits(-n);
      assert s[1..] == NatDigits(-n);
    } else {
      DigitsValueOfNatDigits(n);
    }
  }

  /** A well-formed text of 4301 digits is still refused: `int` raises on it. */
  lemma TooManyDigitsRefused(s: string)
    requires |s| == MaxStrDigits + 1 && AllDigits(s)
    ensures IsIntSyntax(s) && ParseInt(s) == None
  {
  }
}
