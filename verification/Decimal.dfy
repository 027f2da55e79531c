/** `%d` formatting of unsigned integers and `strconv.ParseUint` in base 10. */
module Decimal {
  import opened Wrappers
  import opened Numbers

  predicate IsDigit(c: char) {
    '0' <= c <= '9'
  }

  predicate AllDigits(s: string) {
    forall i :: 0 <= i < |s| ==> IsDigit(s[i])
  }

  function Format(n: nat): (s: string)
    ensures |s| > 0 && AllDigits(s)
  {
    if n < 10 then [('0' as int + n) as char]
    else Format(n / 10) + [('0' as int + n % 10) as char]
  }

  function Value(s: string): nat
    requires AllDigits(s)
  {
    if s == [] then 0
    else 10 * Value(s[..|s| - 1]) + (s[|s| - 1] as int - '0' as int)
  }

  /** `strconv.ParseUint(s, 10, bits)`: empty, non-digit and out-of-range inputs are errors. */
  function ParseUint(s: string, bits: nat): Option<nat> {
    if s == [] || !AllDigits(s) || Value(s) >= Pow(2, bits) then None else Some(Value(s))
  }

  lemma Shift(v: nat, p: nat)
    ensures 10 * (v * p) == v * (10 * p)
  {
  }

  lemma {:induction false} ValueAppend(a: string, b: string)
    requires AllDigits(a) && AllDigits(b)
    ensures AllDigits(a + b)
    ensures Value(a + b) == Value(a) * Pow(10, |b|) + Value(b)
  {
    if b == [] {
      assert a + b == a;
    } else {
      var init := b[..|b| - 1];
      assert (a + b)[..|a + b| - 1] == a + init;
      ValueAppend(a, init);
      assert Pow(10, |b|) == 10 * Pow(10, |init|);
      Shift(Value(a), Pow(10, |init|));
    }
  }

  lemma {:induction false} ValueFormat(n: nat)
    ensures Value(Format(n)) == n
  {
    var s := Format(n);
    if n >= 10 {
      ValueFormat(n / 10);
      assert s[..|s| - 1] == Format(n / 10);
    } else {
      assert s[..|s| - 1] == [];
    }
  }

  /** A formatted number has exactly as many digits as its size demands. */
  lemma {:induction false} FormatLength(n: nat)
    ensures n < Pow(10, |Format(n)|)
    ensures n > 0 ==> Pow(10, |Format(n)| - 1) <= n
  {
    if n >= 10 {
      FormatLength(n / 10);
    } else {
      assert Pow(10, 1) == 10;
    }
  }

  lemma {:induction false} FormatLengthMonotone(m: nat, n: nat)
    requires m <= n
    ensures |Format(m)| <= |Format(n)|
  {
    if m >= 10 {
      FormatLengthMonotone(m / 10, n / 10);
    }
  }
}
