/** Decimal numbers as they are printed and parsed. */
module Decimal {
  import opened Wrappers

  function Digit(d: nat): char
    requires d < 10
  {
    ('0' as int + d) as char
  }

  predicate IsDigit(c: char) {
    '0' <= c <= '9'
  }

  function Print(n: nat): (s: string)
    ensures s != "" && forall i :: 0 <= i < |s| ==> IsDigit(s[i])
  {
    (if n < 10 then "" else Print(n / 10)) + [Digit(n % 10)]
  }

  function Value(s: string): nat
    requires forall i :: 0 <= i < |s| ==> IsDigit(s[i])
  {
    if s == "" then 0 else assert IsDigit(s[|s| - 1]); 10 * Value(s[..|s| - 1]) + (s[|s| - 1] as int - '0' as int)
  }

  /** An optional plus sign and digits, of a number below `limit`. */
  function Parse(s: string, limit: nat): Option<nat> {
    var digits := if "+" <= s then s[1..] else s;
    if digits == "" || !(forall i :: 0 <= i < |digits| ==> IsDigit(digits[i])) then None
    else if Value(digits) < limit then Some(Value(digits)) else None
  }

  lemma {:induction false} ValuePrint(n: nat)
    ensures Value(Print(n)) == n
  {
    var s := Print(n);
    if n >= 10 {
      ValuePrint(n / 10);
      assert s[..|s| - 1] == Print(n / 10);
    } else {
      assert s[..|s| - 1] == "";
    }
  }

  lemma ParsePrint(n: nat, limit: nat)
    requires n < limit
    ensures Parse(Print(n), limit) == Some(n)
  {
    ValuePrint(n);
    assert IsDigit(Print(n)[0]);
  }

  function Pow10(k: nat): nat {
    if k == 0 then 1 else 10 * Pow10(k - 1)
  }

  lemma {:induction false} PrintLength(n: nat, k: nat)
    requires n < Pow10(k) && k > 0
    ensures |Print(n)| <= k
  {
    if n >= 10 {
      PrintLength(n / 10, k - 1);
    }
  }

  /** The last digit stands at the end, after the digits of the tenth. */
  lemma PrintLast(n: nat, d: nat)
    requires d < 10
    ensures Print(d) == [Digit(d)]
    ensures n > 0 ==> Print(10 * n + d) == Print(n) + [Digit(d)]
  {
    assert (10 * n + d) / 10 == n && (10 * n + d) % 10 == d;
  }
}
