/**
 * Record identifiers and their string form. A document id travels as a string
 * (in a JWT claim, in a session, in a URL path) and is cast back when a query
 * uses it; a string that is not an id's rendering makes the cast fail. The
 * model renders an id as its decimal digits.
 */
module ObjectIds {
  import opened Wrappers

  predicate IsDigit(c: char) {
    '0' <= c <= '9'
  }

  function DigitChar(d: nat): (c: char)
    requires d < 10
    ensures IsDigit(c)
  {
    ('0' as int + d) as char
  }

  /** The string form of an id: its decimal digits, without leading zeros. */
  function IdString(n: nat): (s: string)
    ensures s != []
    ensures forall i :: 0 <= i < |s| ==> IsDigit(s[i])
  {
    if n < 10 then [DigitChar(n)] else IdString(n / 10) + [DigitChar(n % 10)]
  }

  /** The value of a string of decimal digits, most significant first. */
  function DigitsValue(s: string): nat
    requires forall i :: 0 <= i < |s| ==> IsDigit(s[i])
  {
    if s == [] then 0
    else
      assert IsDigit(s[|s| - 1]);
      10 * DigitsValue(s[..|s| - 1]) + (s[|s| - 1] as int - '0' as int)
  }

  /** Casting a string to an id: it fails unless the string is a non-empty run of digits. */
  function ParseId(s: string): (r: Option<nat>)
    ensures r.Some? <==> s != [] && forall i :: 0 <= i < |s| ==> IsDigit(s[i])
    ensures r.Some? ==> r.value == DigitsValue(s)
  {
    if s != [] && forall i :: 0 <= i < |s| ==> IsDigit(s[i]) then Some(DigitsValue(s)) else None
  }

  lemma {:induction false} DigitsValueOfIdString(n: nat)
    ensures DigitsValue(IdString(n)) == n
  {
    if n >= 10 {
      DigitsValueOfIdString(n / 10);
      var s := IdString(n);
      assert s[..|s| - 1] == IdString(n / 10);
    }
  }

  /** Every id survives a trip through its string form. */
  lemma ParseIdString(n: nat)
    ensures ParseId(IdString(n)) == Some(n)
  {
    DigitsValueOfIdString(n);
  }

  /** Distinct ids have distinct string forms. */
  lemma IdStringInjective(a: nat, b: nat)
    requires IdString(a) == IdString(b)
    ensures a == b
  {
    ParseIdString(a);
    ParseIdString(b);
  }
}
