/** Decimal numbers as text: printing an integer, and reading one back the way a byte array does. */
module Decimals {

  datatype Option<T> = None | Some(value: T)

  const INT64_MAX := 0x7FFF_FFFF_FFFF_FFFF
  const INT64_MIN := -0x8000_0000_0000_0000

  predicate IsDigit(c: char) {
    '0' <= c <= '9'
  }

  predicate AllDigits(s: string) {
    forall i :: 0 <= i < |s| ==> IsDigit(s[i])
  }

  function Digit(n: nat): (c: char)
    requires n < 10
    ensures IsDigit(c) && c as int - '0' as int == n
  {
    '0' + n as char
  }

  function Decimal(n: nat): (s: string)
    ensures s != "" && AllDigits(s)
  {
    if n < 10 then [Digit(n)] else Decimal(n / 10) + [Digit(n % 10)]
  }

  /** The text of a signed number */
  function Number(n: int): string {
    if n < 0 then "-" + Decimal(-n) else Decimal(n)
  }

  function DigitsValue(s: string): nat
    requires AllDigits(s)
  {
    if s == "" then 0
    else 10 * DigitsValue(s[..|s| - 1]) + (s[|s| - 1] as int - '0' as int)
  }

  /** The 64-bit number a text spells, with an optional sign; None when it spells none */
  function ToLongLong(s: string): Option<int> {
    var digits := if s != "" && (s[0] == '-' || s[0] == '+') then s[1..] else s;
    if digits == "" || !AllDigits(digits) then None
    else
      var n: int := if s[0] == '-' then 0 - DigitsValue(digits) else DigitsValue(digits);
      if INT64_MIN <= n <= INT64_MAX then Some(n) else None
  }

  /** The 32-bit number a text spells; 0 when it spells none */
  function ToInt(s: string): int {
    match ToLongLong(s)
    case Some(n) => if -0x8000_0000 <= n <= 0x7FFF_FFFF then n else 0
    case None => 0
  }

  lemma {:induction false} DecimalValue(n: nat)
    ensures DigitsValue(Decimal(n)) == n
  {
    if n < 10 {
      assert Decimal(n)[..0] == "";
    } else {
      DecimalValue(n / 10);
      assert Decimal(n)[..|Decimal(n)| - 1] == Decimal(n / 10);
    }
  }

  /** Reading a printed number gives it back. */
  lemma NumberRoundTrip(n: int)
    requires INT64_MIN <= n <= INT64_MAX
    ensures ToLongLong(Number(n)) == Some(n)
  {
    if n < 0 {
      DecimalValue(-n);
      assert Number(n)[1..] == Decimal(-n);
    } else {
      DecimalValue(n);
      assert IsDigit(Number(n)[0]);
    }
  }

  /** A plus sign is read over, and what has no digits or other characters is no number. */
  lemma SignsRead(n: nat, s: string)
    requires n <= INT64_MAX
    ensures ToLongLong("+" + Decimal(n)) == Some(n)
    ensures s != "" && !IsDigit(s[|s| - 1]) ==> ToLongLong(s) == None
    ensures ToLongLong("") == None
  {
    DecimalValue(n);
    assert ("+" + Decimal(n))[1..] == Decimal(n);
    if s != "" && !IsDigit(s[|s| - 1]) {
      var digits := if s[0] == '-' || s[0] == '+' then s[1..] else s;
      assert digits != "" ==> digits[|digits| - 1] == s[|s| - 1];
    }
  }

  lemma {:induction false} DecimalLead(n: nat)
    requires n >= 1
    ensures Decimal(n)[0] != '0'
  {
    if n >= 10 {
      DecimalLead(n / 10);
    }
  }

  lemma {:induction false} DecimalLength(n: nat)
    ensures n < 10 ==> |Decimal(n)| == 1
    ensures 10 <= n < 100 ==> |Decimal(n)| == 2
    ensures 100 <= n < 1000 ==> |Decimal(n)| == 3
    ensures 1000 <= n < 10000 ==> |Decimal(n)| == 4
    ensures n >= 10000 ==> |Decimal(n)| >= 5
  {
    if n >= 10 {
      DecimalLength(n / 10);
    }
  }
}
