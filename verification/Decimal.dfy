/** Numbers as decimal digits, printed and parsed. */
module Decimal {
  import opened Wrappers
  import opened Utf8

  const ZERO: Byte := 48
  const PLUS: Byte := 43

  predicate IsDigit(b: Byte) {
    ZERO <= b <= 57
  }

  function Digits(n: nat): (r: seq<Byte>)
    ensures r != [] && forall b | b in r :: IsDigit(b)
  {
    (if n < 10 then [] else Digits(n / 10)) + [ZERO + n % 10]
  }

  function Value(digits: seq<Byte>): (r: int)
    ensures (forall b | b in digits :: IsDigit(b)) ==> r >= 0
  {
    if digits == [] then 0
    else
      assert digits[|digits| - 1] in digits;
      10 * Value(digits[..|digits| - 1]) + (digits[|digits| - 1] - ZERO)
  }

  /** `str::parse::<usize>` on 64 bits: an optional plus sign, at least one digit, no overflow. */
  function ParseUsize(text: seq<Byte>): Option<nat> {
    var digits := if text != [] && text[0] == PLUS then text[1..] else text;
    if digits == [] || !(forall b | b in digits :: IsDigit(b)) then None
    else
      var value := Value(digits);
      if value < 0x1_0000_0000_0000_0000 then Some(value) else None
  }

  lemma {:induction false} DigitsValue(n: nat)
    ensures Value(Digits(n)) == n
  {
    if n >= 10 { DigitsValue(n / 10); }
    ValueSnoc(if n < 10 then [] else Digits(n / 10), ZERO + n % 10);
  }

  lemma ValueSnoc(digits: seq<Byte>, b: Byte)
    ensures Value(digits + [b]) == 10 * Value(digits) + (b - ZERO)
  {
    assert (digits + [b])[..|digits|] == digits;
  }

  lemma PrintParse(n: nat)
    ensures ParseUsize(Digits(n)) == if n < 0x1_0000_0000_0000_0000 then Some(n) else None
  {
    DigitsValue(n);
    assert Digits(n)[0] in Digits(n);
  }

  lemma DigitsAreInjective(m: nat, n: nat)
    requires Digits(m) == Digits(n)
    ensures m == n
  {
    DigitsValue(m);
    DigitsValue(n);
  }
}
