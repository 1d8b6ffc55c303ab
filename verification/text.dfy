/** String helpers shared by the codecs: prefix tests and the decimal
    renderings Python produces with `str(n)`, `f"{n:02d}"` and `strftime`. */
module Text {

  import opened Results

  predicate StartsWith(s: string, prefix: string) {
    |prefix| <= |s| && s[..|prefix|] == prefix
  }

  predicate IsDigit(c: char) {
    '0' <= c <= '9'
  }

  predicate AllDigits(s: string) {
    forall i :: 0 <= i < |s| ==> IsDigit(s[i])
  }

  /** A non-empty run of ASCII digits: the texts `int(...)` is modelled to accept. */
  predicate IsDecimal(s: string) {
    |s| > 0 && AllDigits(s)
  }

  function DigitChar(d: nat): (c: char)
    requires d < 10
    ensures IsDigit(c)
  {
    ('0' as int + d) as char
  }

  function DigitValue(c: char): (d: nat)
    requires IsDigit(c)
    ensures d < 10
  {
    c as int - '0' as int
  }

  lemma DigitRoundTrip(d: nat)
    requires d < 10
    ensures DigitValue(DigitChar(d)) == d
  {
  }

  /** `str(n)` for a non-negative integer: no leading zeros, at least one digit. */
  function NatToDecimal(n: nat): (s: string)
    ensures IsDecimal(s)
    ensures |s| > 1 ==> s[0] != '0'
    decreases n
  {
    if n < 10 then [DigitChar(n)] else NatToDecimal(n / 10) + [DigitChar(n % 10)]
  }

  /** The value of a run of decimal digits, most significant first. */
  function DecimalToNat(s: string): nat
    requires AllDigits(s)
    decreases |s|
  {
    if s == [] then 0 else DecimalToNat(s[..|s| - 1]) * 10 + DigitValue(s[|s| - 1])
  }

  lemma {:induction false} NatDecimalRoundTrip(n: nat)
    ensures DecimalToNat(NatToDecimal(n)) == n
    decreases n
  {
    if n >= 10 {
      var s := NatToDecimal(n);
      assert s[..|s| - 1] == NatToDecimal(n / 10);
      NatDecimalRoundTrip(n / 10);
    }
  }

  /** `str(i)` for any integer: a leading '-' for negative values. */
  function IntToDecimal(i: int): (s: string)
    ensures |s| > 0
  {
    if i < 0 then "-" + NatToDecimal(-i) else NatToDecimal(i)
  }

  /** Reads back what `IntToDecimal` writes; `None` for anything else. */
  function DecimalToInt(s: string): (r: Option<int>)
    ensures r.Some? ==> |s| > 0
  {
    if |s| > 0 && s[0] == '-' && IsDecimal(s[1..]) then Some(-(DecimalToNat(s[1..]) as int))
    else if IsDecimal(s) then Some(DecimalToNat(s) as int)
    else None
  }

  lemma IntDecimalRoundTrip(i: int)
    ensures DecimalToInt(IntToDecimal(i)) == Some(i)
  {
    var s := IntToDecimal(i);
    if i < 0 {
      assert s[1..] == NatToDecimal(-i);
      NatDecimalRoundTrip(-i);
    } else {
      assert IsDigit(s[0]);
      NatDecimalRoundTrip(i);
    }
  }

  /** `f"{n:02d}"` for 0 <= n < 100: exactly two digits, zero-padded. */
  function ZeroPad2(n: nat): (s: string)
    requires n < 100
    ensures |s| == 2 && AllDigits(s)
    ensures DecimalToNat(s) == n
  {
    var s := [DigitChar(n / 10), DigitChar(n % 10)];
    DigitRoundTrip(n / 10);
    DigitRoundTrip(n % 10);
    assert s[..1] == [DigitChar(n / 10)];
    assert [DigitChar(n / 10)][..0] == [];
    assert DecimalToNat(s[..1]) == n / 10;
    s
  }
}
