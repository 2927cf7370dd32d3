/**
 * The two scalar validators of `snutree/utilities/voluptuous.py`: each
 * returns a value or raises `ValueError`.
 */
module Validators {
  import opened Wrappers
  import opened Text
  import Semester

  datatype ValidationError = ValueError

  /**
   * `Digits(s)`: the match of `\d+` at the start of `s` -- its maximal
   * leading run of digits, or `ValueError` when it does not start with one.
   */
  function Digits(s: string): (r: Result<string, ValidationError>)
    ensures r.Ok? <==> |s| > 0 && IsDigit(s[0])
    ensures r.Ok? ==> |r.value| >= 1 && AllDigits(r.value) && StartsWith(s, r.value)
    ensures r.Ok? ==> |r.value| == |s| || !IsDigit(s[|r.value|])
  {
    var d := LeadingDigits(s);
    if |d| > 0 then Ok(d) else Err(ValueError)
  }

  /** A string of digits is its own `Digits`. */
  lemma DigitsOfDigits(s: string)
    requires |s| >= 1 && AllDigits(s)
    ensures Digits(s) == Ok(s)
  {
    LeadingDigitsOfDigitsThen(s, "");
    assert s + "" == s;
  }

  /** `Digits` keeps the digits of a badge and drops whatever follows them. */
  lemma DigitsDropsSuffix(d: string, rest: string)
    requires |d| >= 1 && AllDigits(d)
    requires |rest| > 0 ==> !IsDigit(rest[0])
    ensures Digits(d + rest) == Ok(d)
  {
    LeadingDigitsOfDigitsThen(d, rest);
  }

  /** `NonEmptyString(s)`: a non-empty `str` unchanged, anything else `ValueError`. */
  function NonEmptyString(v: Semester.PyValue): (r: Result<string, ValidationError>)
    ensures r.Ok? <==> v.PyStr? && |v.s| > 0
    ensures r.Ok? ==> r.value == v.s
  {
    if v.PyStr? && |v.s| > 0 then Ok(v.s) else Err(ValueError)
  }
}
