/** Facts about products, quotients and remainders that the models share. */
module Arith {

  const TWO64 := 0x1_0000_0000_0000_0000

  function Min(a: int, b: int): int { if a < b then a else b }

  lemma MulAtLeast(k: int, n: int)
    requires 0 < n
    ensures k >= 1 ==> k * n >= n
    ensures k <= -1 ==> k * n <= -n
  {
  }

  /** A quotient and a remainder are determined by the number they make. */
  lemma DivModUnique(a: int, q: int, m: int, n: int)
    requires 0 <= m < n && a == q * n + m
    ensures a / n == q && a % n == m
  {
    var k := a / n - q;
    assert k * n == (a / n) * n - q * n;
    assert (a / n) * n + a % n == a;
    MulAtLeast(k, n);
  }

  lemma ModSmall(a: int, n: int)
    requires 0 <= a < n
    ensures a % n == a && a / n == 0
  {
    DivModUnique(a, 0, a, n);
  }

  lemma ModShift(a: int, n: int)
    requires 0 < n
    ensures (a + n) % n == a % n && (a + n) / n == a / n + 1
  {
    DivModUnique(a + n, a / n + 1, a % n, n);
  }

  /** Stepping an index by one wraps exactly at the end. */
  lemma ModSucc(a: int, n: int)
    requires 0 < n
    ensures (a % n + 1) % n == (a + 1) % n
    ensures (a + 1) % n == if a % n + 1 == n then 0 else a % n + 1
  {
    var q, m := a / n, a % n;
    assert (q + 1) * n == q * n + n;
    if m + 1 == n {
      DivModUnique(a + 1, q + 1, 0, n);
      DivModUnique(n, 1, 0, n);
    } else {
      DivModUnique(a + 1, q, m + 1, n);
      ModSmall(m + 1, n);
    }
  }

  /** Going down by one and wrapping is wrapping what is one less. */
  lemma ModPred(a: int, n: int)
    requires 0 < n
    ensures (a % n - 1) % n == (a - 1) % n
  {
    ModSucc(a - 1, n);
    if (a - 1) % n + 1 == n {
      DivModUnique(-1, -1, n - 1, n);
    } else {
      ModSmall((a - 1) % n, n);
    }
  }

  /** The distance from c to a, when less than n, can be read off their wrapped images. */
  lemma ModDistance(c: int, a: int, n: int)
    requires 0 < n && c <= a < c + n
    ensures (a % n == c % n) == (a == c)
    ensures a - c == if c % n > a % n then a % n + n - c % n else a % n - c % n
  {
    var q, m, d := c / n, c % n, a - c;
    assert (q + 1) * n == q * n + n;
    if m + d < n {
      DivModUnique(a, q, m + d, n);
    } else {
      DivModUnique(a, q + 1, m + d - n, n);
    }
  }

  function Pow2(n: nat): (p: nat)
    ensures p >= 1
  {
    if n == 0 then 1 else 2 * Pow2(n - 1)
  }

  lemma {:induction false} Pow2Sum(j: nat, k: nat)
    ensures Pow2(j + k) == Pow2(j) * Pow2(k)
  {
    if j > 0 {
      Pow2Sum(j - 1, k);
      TwiceProduct(Pow2(j - 1), Pow2(k));
    }
  }

  lemma TwiceProduct(a: nat, b: nat)
    ensures 2 * a * b == 2 * (a * b)
  {
  }

  lemma {:induction false} Pow2Monotone(j: nat, k: nat)
    requires j <= k
    ensures Pow2(j) <= Pow2(k)
    decreases k
  {
    if j < k {
      Pow2Monotone(j, k - 1);
    }
  }

  lemma MulMonotone(a: nat, b: nat, k: nat)
    requires a <= b
    ensures a * k <= b * k
    ensures a < b && k >= 1 ==> a * k < b * k
  {
    assert (b - a) * k == b * k - a * k;
  }
}
