/**
 * Java's decimal text for 32-bit integers: `Integer.toString` (used when a
 * distance is concatenated into an overflow record) and `Integer.parseInt`
 * (used by the index reader for word ids).
 */
module IntText {
  import opened Wrappers

  const IntMin: int := -0x8000_0000
  const IntMax: int := 0x7fff_ffff

  predicate IsDigit(c: char)
  {
    '0' <= c <= '9'
  }

  predicate AllDigits(s: string)
  {
    forall i | 0 <= i < |s| :: IsDigit(s[i])
  }

  function DigitValue(c: char): nat
    requires IsDigit(c)
  {
    (c as int) - ('0' as int)
  }

  function DigitChar(n: nat): (c: char)
    requires n < 10
    ensures IsDigit(c) && DigitValue(c) == n
  {
    (('0' as int) + n) as char
  }

  /** The value of a run of decimal digits, most significant first. */
  function DigitsValue(s: string): nat
    requires AllDigits(s)
  {
    if s == [] then 0 else DigitsValue(s[..|s| - 1]) * 10 + DigitValue(s[|s| - 1])
  }

  /** The shortest decimal digits of `n`; reading them back gives `n`. */
  function NatDigits(n: nat): (s: string)
    ensures s != [] && AllDigits(s) && DigitsValue(s) == n
  {
    if n < 10 then [DigitChar(n)]
    else
      var s := NatDigits(n / 10) + [DigitChar(n % 10)];
      assert s[..|s| - 1] == NatDigits(n / 10);
      s
  }

  /** `Integer.toString(n)`: an optional minus sign followed by the digits of |n|. */
  function Decimal(n: int): (s: string)
    ensures s != [] && forall i | 0 <= i < |s| :: s[i] != ' ' && s[i] != ','
  {
    if n < 0 then "-" + NatDigits(-n) else NatDigits(n)
  }

  /**
   * `Integer.parseInt(tok)`: an optional sign, then at least one decimal
   * digit, and the value must fit in 32 bits; anything else is a
   * NumberFormatException, here None.
   */
  function ParseInt(tok: string): (r: Option<int>)
    ensures r.Some? ==> IntMin <= r.value <= IntMax
  {
    if tok == [] then None
    else
      var digits := if tok[0] == '-' || tok[0] == '+' then tok[1..] else tok;
      if digits == [] || !AllDigits(digits) then None
      else
        var v: int := if tok[0] == '-' then 0 - (DigitsValue(digits) as int) else DigitsValue(digits);
        if IntMin <= v <= IntMax then Some(v) else None
  }

  /** Reading back the text of any 32-bit integer gives that integer. */
  lemma ParseDecimal(n: int)
    requires IntMin <= n <= IntMax
    ensures ParseInt(Decimal(n)) == Some(n)
  {
    var s := Decimal(n);
    if n < 0 {
      assert s[0] == '-' && s[1..] == NatDigits(-n);
    } else {
      assert IsDigit(s[0]);
    }
  }
}
