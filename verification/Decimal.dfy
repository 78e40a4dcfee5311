/** `strconv.FormatInt(n, 10)`: how version names are made from clock readings. */
module Decimal {
  import opened Strings
  import opened Wrappers

  const EARLIEST: nat := 1_000_000_000_000_000_000   // September 2001 in nanoseconds, the first with 19 digits

  function Digit(d: nat): char
    requires d < 10
  {
    '0' + d as char
  }

  function Format(n: nat): (s: string)
    ensures s != ""
    ensures forall i :: 0 <= i < |s| ==> '0' <= s[i] <= '9'
  {
    if n < 10 then [Digit(n)] else Format(n / 10) + [Digit(n % 10)]
  }

  /** The number that a string of digits stands for. */
  function Reading(s: string): nat
    requires forall i :: 0 <= i < |s| ==> '0' <= s[i] <= '9'
  {
    if s == "" then 0 else 10 * Reading(s[..|s| - 1]) + (s[|s| - 1] - '0') as nat
  }

  /** The digits stand for the number, and there is no zero too many in front. */
  lemma {:induction false} FormatReads(n: nat)
    ensures Reading(Format(n)) == n
    ensures n > 0 ==> Format(n)[0] != '0'
  {
    if n >= 10 {
      FormatReads(n / 10);
      assert Format(n)[..|Format(n)| - 1] == Format(n / 10);
    }
  }

  function Pow10(k: nat): (p: nat)
    ensures p > 0
  {
    if k == 0 then 1 else 10 * Pow10(k - 1)
  }

  lemma {:induction false} FormatInjective(a: nat, b: nat)
    requires Format(a) == Format(b)
    ensures a == b
  {
    var s, t := Format(a), Format(b);
    assert s[|s| - 1] == t[|t| - 1];
    assert a >= 10 ==> |s| >= 2;
    assert b >= 10 ==> |t| >= 2;
    if a >= 10 {
      assert Format(a / 10) == s[..|s| - 1] == t[..|t| - 1] == Format(b / 10);
      FormatInjective(a / 10, b / 10);
    }
  }

  lemma {:induction false} FormatLength(n: nat, k: nat)
    requires k > 0 && n < Pow10(k) && (k > 1 ==> Pow10(k - 1) <= n)
    ensures |Format(n)| == k
  {
    if k > 1 {
      assert Pow10(k - 1) == 10 * Pow10(k - 2) && Pow10(k - 2) >= 1;
      FormatLength(n / 10, k - 1);
    }
  }

  lemma {:induction false} FormatOrder(a: nat, b: nat)
    requires |Format(a)| == |Format(b)|
    ensures Less(Format(a), Format(b)) <==> a < b
  {
    if a >= 10 {
      FormatOrder(a / 10, b / 10);
      LessSnoc(Format(a / 10), Format(b / 10), Digit(a % 10), Digit(b % 10));
      if Format(a / 10) == Format(b / 10) {
        FormatInjective(a / 10, b / 10);
      }
    } else {
      assert Less(Format(a), Format(b)) <==> Digit(a) < Digit(b);
    }
  }

  /** Clock readings from September 2001 to the end of int64 all have 19 digits, so their names compare as they do. */
  lemma NamesOrderAsClock(a: nat, b: nat)
    requires EARLIEST <= a < INT64_LIMIT && EARLIEST <= b < INT64_LIMIT
    ensures |Format(a)| == |Format(b)| == 19
    ensures Less(Format(a), Format(b)) <==> a < b
  {
    assert Pow10(6) == 1_000_000;
    assert Pow10(12) == 1_000_000 * Pow10(6);
    assert Pow10(18) == 1_000_000 * Pow10(12);
    assert Pow10(19) == 10 * Pow10(18);
    FormatLength(a, 19);
    FormatLength(b, 19);
    FormatOrder(a, b);
  }

  /** One nanosecond before that the order turns round. */
  lemma OrderTurnsBefore()
    ensures Less(Format(EARLIEST), Format(EARLIEST - 1))
  {
    assert Pow10(6) == 1_000_000;
    assert Pow10(12) == 1_000_000 * Pow10(6);
    assert Pow10(18) == 1_000_000 * Pow10(12);
    FirstDigit(EARLIEST, 1, 18);
    FirstDigit(EARLIEST - 1, 9, 17);
  }

  lemma {:induction false} FirstDigit(n: nat, d: nat, k: nat)
    requires 0 < d < 10 && d * Pow10(k) <= n < (d + 1) * Pow10(k)
    ensures Format(n)[0] == Digit(d)
  {
    if k > 0 {
      Tenth(n, d, Pow10(k - 1));
      FirstDigit(n / 10, d, k - 1);
    }
  }

  lemma Tenth(n: nat, d: nat, p: nat)
    requires 0 < d && 0 < p && d * (10 * p) <= n < (d + 1) * (10 * p)
    ensures 10 <= n && d * p <= n / 10 < (d + 1) * p
  {
    var low, high := d * p, (d + 1) * p;
    assert d * (10 * p) == 10 * low && (d + 1) * (10 * p) == 10 * high;
    assert low >= 1;
  }
}
