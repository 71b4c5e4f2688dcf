/** Decimal notation: how natural numbers are written, and integers read with a sign in front. */
module Decimals {
  import opened Wrappers

  predicate IsDigit(c: char) {
    '0' <= c <= '9'
  }

  predicate AllDigits(text: string) {
    forall i :: 0 <= i < |text| ==> IsDigit(text[i])
  }

  function DigitOf(n: nat): (c: char)
    requires n < 10
    ensures IsDigit(c) && c as int == 48 + n
  {
    (48 + n) as char
  }

  function Digits(n: nat): (digits: string)
    ensures |digits| > 0 && AllDigits(digits)
  {
    if n < 10 then [DigitOf(n)] else Digits(n / 10) + [DigitOf(n % 10)]
  }

  function DigitsValue(digits: string): nat
    requires AllDigits(digits)
  {
    if digits == "" then 0 else 10 * DigitsValue(digits[..|digits| - 1]) + (digits[|digits| - 1] as int - 48)
  }

  /** A sign, if any, and at least one digit. */
  function Integer(text: string): Option<int> {
    if text == "" then None
    else
      var digits := if text[0] == '-' || text[0] == '+' then text[1..] else text;
      if digits == "" || !AllDigits(digits) then None else Some(Signed(text[0] == '-', DigitsValue(digits)))
  }

  function Signed(negative: bool, magnitude: int): int {
    if negative then -magnitude else magnitude
  }

  function Decimal(n: int): string {
    if n < 0 then "-" + Digits(-n) else Digits(n)
  }

  lemma {:induction false} DigitsReadBack(n: nat)
    ensures DigitsValue(Digits(n)) == n
  {
    if n < 10 {
      assert Digits(n)[..0] == "" && DigitsValue("") == 0;
    } else {
      DigitsReadBack(n / 10);
      assert Digits(n)[..|Digits(n)| - 1] == Digits(n / 10);
    }
  }

  /** An integer is read back as it was written. */
  lemma IntegerReadBack(n: int)
    ensures Integer(Decimal(n)) == Some(n)
    ensures n >= 0 ==> Decimal(n) == Digits(n)
  {
    hide DigitsValue, Digits;
    var magnitude: nat := Signed(n < 0, n);
    DigitsReadBack(magnitude);
    if n < 0 {
      assert Decimal(n)[1..] == Digits(magnitude);
    } else {
      assert IsDigit(Decimal(n)[0]);
    }
  }

  /** Ten digits in the usual order, most significant first. */
  lemma InBaseTen()
    ensures Decimal(1024) == "1024" && Decimal(-7) == "-7" && Decimal(0) == "0"
  {
    assert Digits(1) == "1" && Digits(10) == "10" && Digits(102) == "102" && Digits(1024) == "1024";
  }

  /** A sign may stand in front, and nothing but digits behind it. */
  lemma ReadInBaseTen()
    ensures Integer("+3659") == Some(3659) && Integer("-3659") == Some(-3659)
    ensures Integer("12a") == None && Integer("-") == None
  {
    hide DigitsValue;
    DigitsOf3659();
    assert "+3659"[1..] == "3659" && "-3659"[1..] == "3659" && "-"[1..] == "" && "12a"[2] == 'a';
  }

  lemma DigitsOf3659()
    ensures AllDigits("3659") && DigitsValue("3659") == 3659
  {
    assert DigitsValue("") == 0 && "3"[..0] == "" && DigitsValue("3") == 3;
    assert "36"[..1] == "3" && DigitsValue("36") == 36;
    assert "365"[..2] == "36" && DigitsValue("365") == 365;
    assert "3659"[..3] == "365";
  }
}
