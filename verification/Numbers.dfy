/** Go's unsigned words and a shard id that two packages know, powers, and bitwise conjunction over the naturals. */
module Numbers {
  const UINT32_BOUND: nat := 0x1_0000_0000
  const UINT64_BOUND: nat := 0x1_0000_0000_0000_0000

  type byte = x: int | 0 <= x < 256
  type uint32 = x: nat | x < UINT32_BOUND
  type uint64 = x: nat | x < UINT64_BOUND

  const METACHAIN_SHARD_ID: uint32 := 0xFFFF_FFFF

  function Pow(b: nat, e: nat): (p: nat)
    ensures b > 0 ==> p > 0
  {
    if e == 0 then 1 else b * Pow(b, e - 1)
  }

  lemma PowMonotone(b: nat, e: nat, f: nat)
    requires b > 0 && e <= f
    ensures Pow(b, e) <= Pow(b, f)
    decreases f
  {
    if e < f {
      PowMonotone(b, e, f - 1);
      assert Pow(b, f) == b * Pow(b, f - 1) >= Pow(b, f - 1);
    }
  }

  lemma {:induction false} PowAdd(b: nat, e: nat, f: nat)
    ensures Pow(b, e + f) == Pow(b, e) * Pow(b, f)
  {
    if e == 0 {
    } else {
      PowAdd(b, e - 1, f);
      assert Pow(b, e + f) == b * Pow(b, e - 1 + f);
      assert b * (Pow(b, e - 1) * Pow(b, f)) == b * Pow(b, e - 1) * Pow(b, f);
    }
  }

  /** `a & b` on unsigned words, by binary digits. */
  function BitAnd(a: nat, b: nat): nat {
    if a == 0 || b == 0 then 0
    else 2 * BitAnd(a / 2, b / 2) + (if a % 2 == 1 && b % 2 == 1 then 1 else 0)
  }

  lemma BitAndStep(a: nat, half: nat)
    requires half > 0
    ensures BitAnd(a, 2 * half - 1) == 2 * BitAnd(a / 2, half - 1) + a % 2
  {
    var mask := 2 * half - 1;
    assert mask % 2 == 1 && mask / 2 == half - 1;
  }

  lemma MulBound(k: int, d: int)
    requires d > 0
    ensures k > 0 ==> k * d >= d
    ensures k < 0 ==> k * d <= -d
  {
  }

  lemma DivModUnique(a: nat, d: nat, q: nat, r: nat)
    requires d > 0 && r < d && a == q * d + r
    ensures a / d == q && a % d == r
  {
    var k := a / d - q;
    assert k * d == r - a % d;
    MulBound(k, d);
  }

  lemma ModDouble(a: nat, half: nat)
    requires half > 0
    ensures a % (2 * half) == 2 * ((a / 2) % half) + a % 2
  {
    var q, r := (a / 2) / half, (a / 2) % half;
    assert a / 2 == q * half + r;
    var m := 2 * r + a % 2;
    assert a == q * (2 * half) + m && 0 <= m < 2 * half;
    DivModUnique(a, 2 * half, q, m);
  }

  /** The `n` lowest binary digits. */
  function LowBits(x: nat, n: nat): (low: nat)
    ensures low < Pow(2, n)
  {
    if n == 0 then 0 else 2 * LowBits(x / 2, n - 1) + x % 2
  }

  lemma {:induction false} LowBitsIsMod(x: nat, n: nat)
    ensures LowBits(x, n) == x % Pow(2, n)
  {
    if n > 0 {
      LowBitsIsMod(x / 2, n - 1);
      ModDouble(x, Pow(2, n - 1));
    }
  }

  lemma {:induction false} BitAndMask(a: nat, n: nat)
    ensures BitAnd(a, Pow(2, n) - 1) == LowBits(a, n)
  {
    if n > 0 {
      BitAndMask(a / 2, n - 1);
      BitAndStep(a, Pow(2, n - 1));
    }
  }

  lemma Factored(q: nat, d: nat, k: nat, s: nat)
    ensures q * (d * k) + s * d == (q * k + s) * d
  {
  }

  lemma ModMultiple(a: nat, d: nat, k: nat, m: nat)
    requires d > 0 && m > 0 && m == d * k
    ensures (a % m) % d == a % d
  {
    var q, r := a / m, a % m;
    assert a == q * m + r;
    var s, low := r / d, r % d;
    assert r == s * d + low;
    Factored(q, d, k, s);
    DivModUnique(a, d, q * k + s, low);
  }

  lemma {:induction false} BitAndBound(a: nat, b: nat)
    ensures BitAnd(a, b) <= a
  {
    if a != 0 && b != 0 {
      BitAndBound(a / 2, b / 2);
    }
  }
}
