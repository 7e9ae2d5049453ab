/** Decimal digit strings: the part of `Number(string)` that decides whether a
    bracket segment is an array index, and the `ToString` that turns an index
    back into a property name. */
module Numbers {

  predicate IsDigit(c: char) {
    '0' <= c <= '9'
  }

  /** The content of a bracket segment is an index when it is a non-empty run of
      ASCII digits; anything else (`123abc`, `foo`) is a field name. */
  predicate IsIndex(s: string) {
    |s| > 0 && forall i | 0 <= i < |s| :: IsDigit(s[i])
  }

  function DigitValue(c: char): (d: nat)
    requires IsDigit(c)
    ensures d < 10
  {
    c as int - '0' as int
  }

  function DigitChar(d: nat): (c: char)
    requires d < 10
    ensures IsDigit(c) && DigitValue(c) == d
  {
    ('0' as int + d) as char
  }

  /** The number a digit string denotes, read in base 10 */
  function DecimalValue(s: string): nat
    requires IsIndex(s)
    decreases |s|
  {
    if |s| == 1 then DigitValue(s[0])
    else DecimalValue(s[..|s| - 1]) * 10 + DigitValue(s[|s| - 1])
  }

  /** The canonical decimal spelling of a number, as JavaScript's `ToString`
      writes an integer-valued number (no leading zeros) */
  function NatToString(n: nat): (r: string)
    ensures IsIndex(r)
    ensures |r| > 1 ==> r[0] != '0'
    decreases n
  {
    if n < 10 then [DigitChar(n)] else NatToString(n / 10) + [DigitChar(n % 10)]
  }

  /** Reading back the spelling of a number gives the number. */
  lemma {:induction false} DecimalValueOfNatToString(n: nat)
    ensures DecimalValue(NatToString(n)) == n
    decreases n
  {
    if n >= 10 {
      var s := NatToString(n);
      assert s[..|s| - 1] == NatToString(n / 10);
      DecimalValueOfNatToString(n / 10);
    }
  }

  /** Different indices name different properties. */
  lemma NatToStringInjective(m: nat, n: nat)
    requires m != n
    ensures NatToString(m) != NatToString(n)
  {
    DecimalValueOfNatToString(m);
    DecimalValueOfNatToString(n);
  }
}
