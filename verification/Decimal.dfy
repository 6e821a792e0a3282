/** Decimal rendering of naturals, as Rust's formatting does it. */
module Decimal {

  function Digit(d: nat): char
    requires d < 10
  {
    "0123456789"[d]
  }

  function Show(n: nat): (s: string)
    ensures |s| >= 1
    ensures forall c :: c in s ==> c in "0123456789"
  {
    if n < 10 then [Digit(n)] else Show(n / 10) + [Digit(n % 10)]
  }

  /** Distinct numbers have distinct decimal renderings. */
  lemma {:induction false} ShowInjective(m: nat, n: nat)
    requires Show(m) == Show(n)
    ensures m == n
  {
    var s := Show(m);
    if m >= 10 && n >= 10 {
      assert s[..|s| - 1] == Show(m / 10) && s[..|s| - 1] == Show(n / 10);
      assert s[|s| - 1] == Digit(m % 10) == Digit(n % 10);
      ShowInjective(m / 10, n / 10);
    }
  }

  /** The number a text of digits stands for. */
  function Number(s: string): int {
    if s == "" then 0 else 10 * Number(s[..|s| - 1]) + (s[|s| - 1] as int - '0' as int)
  }

  /** The notation stands for the number, has only digits and no leading zero. */
  lemma {:induction false} ShowIsDecimal(n: nat)
    ensures var s := Show(n);
            && Number(s) == n && s != "" && (n > 0 ==> s[0] != '0') && (n == 0 ==> s == "0")
            && forall c :: c in s ==> '0' <= c <= '9'
    decreases n
  {
    var s := Show(n);
    if n < 10 {
      assert s[..0] == "";
    } else {
      ShowIsDecimal(n / 10);
      assert s[..|s| - 1] == Show(n / 10);
    }
  }
}
