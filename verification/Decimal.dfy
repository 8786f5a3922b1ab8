/** Unsigned decimal text: what `{}` prints for an unsigned integer and what
    `str::parse` reads back into an integer of limited width. */
module Decimal {
  import opened Seqs

  const DIGITS := "0123456789"

  function Print(n: nat): (s: string)
    ensures s != []
  {
    if n < 10 then [DIGITS[n]] else Print(n / 10) + [DIGITS[n % 10]]
  }

  predicate IsDigit(c: char) { '0' <= c <= '9' }

  function DigitValue(c: char): (d: nat)
    requires IsDigit(c)
    ensures d < 10
  {
    c as int - '0' as int
  }

  predicate AllDigits(s: string) {
    forall i :: 0 <= i < |s| ==> IsDigit(s[i])
  }

  /** The number a digit string denotes. */
  function Value(s: string): nat
    requires AllDigits(s)
  {
    if s == [] then 0 else Value(s[..|s| - 1]) * 10 + DigitValue(s[|s| - 1])
  }

  /** `str::parse` into an unsigned type with values below `limit`: an optional
      plus sign, then at least one digit, and no overflow. */
  function Parse(s: string, limit: nat): Option<nat> {
    var digits := if s != [] && s[0] == '+' then s[1..] else s;
    if digits == [] || !AllDigits(digits) then None
    else if Value(digits) < limit then Some(Value(digits))
    else None
  }

  lemma {:induction false} PrintIsDigits(n: nat)
    ensures AllDigits(Print(n)) && Value(Print(n)) == n
  {
    if n >= 10 {
      PrintIsDigits(n / 10);
      assert Print(n)[..|Print(n)| - 1] == Print(n / 10);
    } else {
      assert Print(n)[..0] == "";
    }
  }

  /** Printing and reading back is the identity below the width limit. */
  lemma PrintParses(n: nat, limit: nat)
    ensures Parse(Print(n), limit) == if n < limit then Some(n) else None
  {
    PrintIsDigits(n);
    assert IsDigit(Print(n)[0]);
  }

  /** Leading zeros do not count, and no printed number has one. */
  lemma {:induction false} LeadingZero(s: string)
    requires AllDigits(s)
    ensures AllDigits("0" + s) && Value("0" + s) == Value(s)
  {
    if s != "" {
      var n := |s| - 1;
      LeadingZero(s[..n]);
      assert ("0" + s)[..n + 1] == "0" + s[..n];
    } else {
      assert "0" + s == "0" && "0"[..0] == "";
    }
  }

  lemma {:induction false} PrintsNoZeroFirst(n: nat)
    ensures n > 0 ==> Print(n)[0] != '0'
  {
    if n >= 10 {
      PrintsNoZeroFirst(n / 10);
    }
  }

  /** What reads as `n`: an optional plus sign and digits of that value, in a type that holds it. */
  lemma ParseIff(s: string, limit: nat, n: nat)
    ensures Parse(s, limit) == Some(n) <==>
            n < limit && exists sign, digits :: (sign == "" || sign == "+") && digits != "" && AllDigits(digits) &&
                                                Value(digits) == n && s == sign + digits
  {
    if Parse(s, limit) == Some(n) {
      if s[0] == '+' {
        assert s == "+" + s[1..];
      } else {
        assert s == "" + s;
      }
    }
    if sign, digits :| (sign == "" || sign == "+") && digits != "" && AllDigits(digits) &&
                       Value(digits) == n && s == sign + digits
    {
      assert IsDigit(digits[0]);
      assert sign == "" ==> s == digits;
      assert sign == "+" ==> s[1..] == digits;
    }
  }
}
