/** Decimal text of 32-bit integers: the parts of .NET's int.Parse and Int32.ToString that the
    header parser (element counts) and the text writer (counts, list lengths) depend on. */
module Decimal {
  import opened Outcomes

  const Int32Min: int := -0x8000_0000
  const Int32Max: int := 0x7FFF_FFFF

  predicate IsDigit(c: char) { '0' <= c <= '9' }

  predicate AllDigits(s: string) { forall i :: 0 <= i < |s| ==> IsDigit(s[i]) }

  /** The value of a run of decimal digits, most significant first. */
  function DigitsValue(s: string): (n: nat)
    requires AllDigits(s)
    decreases |s|
  {
    if s == [] then 0
    else DigitsValue(s[..|s| - 1]) * 10 + (s[|s| - 1] as int - '0' as int)
  }

  /** int.Parse with the default number style on a word without whitespace: an optional sign,
      then at least one ASCII digit; a value outside the 32-bit range fails as well. */
  function ParseInt32(w: string): (r: Option<int>)
    ensures r.Some? ==> Int32Min <= r.value <= Int32Max
    ensures r.Some? ==> |w| > 0
  {
    var negative := |w| > 0 && w[0] == '-';
    var digits := if |w| > 0 && (w[0] == '-' || w[0] == '+') then w[1..] else w;
    if digits == [] || !AllDigits(digits) then None
    else
      var n: int := if negative then 0 - DigitsValue(digits) as int else DigitsValue(digits);
      if Int32Min <= n <= Int32Max then Some(n) else None
  }

  /** The shortest decimal spelling of a natural number. */
  function NatToString(n: nat): (s: string)
    ensures |s| > 0 && AllDigits(s)
    ensures DigitsValue(s) == n
  {
    if n < 10 then [('0' as int + n) as char]
    else
      var s := NatToString(n / 10) + [('0' as int + n % 10) as char];
      assert s[..|s| - 1] == NatToString(n / 10);
      s
  }

  /** Int32.ToString in the invariant culture: a minus sign for negative values, then the digits. */
  function IntToString(n: int): (s: string)
  {
    if n < 0 then "-" + NatToString(0 - n) else NatToString(n)
  }

  /** int.Parse reads back every 32-bit value the writer prints. */
  lemma ParseIntToString(n: int)
    requires Int32Min <= n <= Int32Max
    ensures ParseInt32(IntToString(n)) == Some(n)
  {
    var s := IntToString(n);
    if n < 0 {
      assert s[1..] == NatToString(-n);
    } else {
      var d := NatToString(n);
      assert IsDigit(d[0]);
    }
  }
}
