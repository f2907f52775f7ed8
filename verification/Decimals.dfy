/**
 Decimal numerals of natural numbers.
 */
module Decimals {
  function Digits(n: nat): (s: string)
    ensures s != []
  {
    if n < 10 then ["0123456789"[n]] else Digits(n / 10) + ["0123456789"[n % 10]]
  }

  // ---- What numerals mean ----

  predicate IsNumeral(s: string) {
    s != [] && forall i :: 0 <= i < |s| ==> '0' <= s[i] <= '9'
  }

  // The number read from left to right, behind digits that have made v.
  function ReadFrom(v: int, s: string): int
    decreases |s|
  {
    if s == [] then v else ReadFrom(v * 10 + (s[0] as int - '0' as int), s[1..])
  }

  function NumberOf(s: string): int {
    ReadFrom(0, s)
  }

  lemma {:induction false} ReadOneMore(v: int, s: string, c: char)
    ensures ReadFrom(v, s + [c]) == ReadFrom(v, s) * 10 + (c as int - '0' as int)
    decreases |s|
  {
    if s != [] {
      assert (s + [c])[1..] == s[1..] + [c];
      ReadOneMore(v * 10 + (s[0] as int - '0' as int), s[1..], c);
    }
  }

  // The digits of n are digits, read back as n, and do not begin with a zero but in "0".
  lemma {:induction false} DigitsReadBack(n: nat)
    ensures IsNumeral(Digits(n)) && NumberOf(Digits(n)) == n
    ensures Digits(n)[0] == '0' <==> n == 0
    ensures n == 0 ==> |Digits(n)| == 1
    decreases n
  {
    if n >= 10 {
      DigitsReadBack(n / 10);
      ReadOneMore(0, Digits(n / 10), "0123456789"[n % 10]);
    } else {
      ReadOneMore(0, [], "0123456789"[n]);
      assert Digits(n) == [] + ["0123456789"[n]];
    }
  }

  lemma DigitsInjective(m: nat, n: nat)
    requires Digits(m) == Digits(n)
    ensures m == n
  {
    DigitsReadBack(m);
    DigitsReadBack(n);
  }

  // ---- How long they are ----

  function TenTo(k: nat): (p: int)
    ensures p > 0
  {
    if k == 0 then 1 else 10 * TenTo(k - 1)
  }

  // A number below 10^k has at most k digits.
  lemma {:induction false} DigitsLength(n: nat, k: nat, p: int)
    requires k > 0 && p == TenTo(k) && n < p
    ensures |Digits(n)| <= k
    decreases k
  {
    if n >= 10 {
      DigitsLength(n / 10, k - 1, TenTo(k - 1));
    }
  }
}
