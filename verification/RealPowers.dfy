/** Powers of two and of ten with exponents of either sign. The laws are proved for any function that is
    multiplied by a constant from one exponent to the next. */
module RealPowers {
  import opened Arith

  function TwoTo(e: int): (r: real)
    ensures r > 0.0
    decreases if e < 0 then -e else e
  {
    if e == 0 then 1.0 else if e > 0 then 2.0 * TwoTo(e - 1) else TwoTo(e + 1) / 2.0
  }

  function TenTo(e: int): (r: real)
    ensures r > 0.0
    decreases if e < 0 then -e else e
  {
    if e == 0 then 1.0 else if e > 0 then 10.0 * TenTo(e - 1) else TenTo(e + 1) / 10.0
  }

  type Powers = int -> real

  predicate NextAt(f: Powers, c: real, e: int) { f(e) > 0.0 && f(e + 1) == c * f(e) }

  ghost predicate Geometric(f: Powers, c: real) {
    c > 0.0 && f(0) == 1.0 && forall e :: NextAt(f, c, e)
  }

  lemma TwoToIsGeometric()
    ensures Geometric(TwoTo, 2.0)
  {
    forall e ensures NextAt(TwoTo, 2.0, e) {
    }
  }

  lemma TenToIsGeometric()
    ensures Geometric(TenTo, 10.0)
  {
    forall e ensures NextAt(TenTo, 10.0, e) {
    }
  }

  lemma Positive(f: Powers, c: real, e: int)
    requires Geometric(f, c)
    ensures f(e) > 0.0
  {
    assert NextAt(f, c, e);
  }

  /** What the sum law needs of multiplication. As a parameter it stays out of the arithmetic. */
  type Product = (real, real) -> real

  predicate Scales(mul: Product, c: real, x: real, y: real) { mul(x, c * y) == c * mul(x, y) }

  ghost predicate Multiplies(mul: Product) {
    (forall x :: mul(x, 1.0) == x) && forall c, x, y :: Scales(mul, c, x, y)
  }

  lemma {:induction false} SumBy(mul: Product, f: Powers, c: real, i: int, j: int)
    requires Multiplies(mul) && Geometric(f, c)
    ensures f(i + j) == mul(f(i), f(j))
    decreases if j < 0 then -j else j
  {
    if j > 0 {
      SumBy(mul, f, c, i, j - 1);
      assert NextAt(f, c, i + (j - 1)) && NextAt(f, c, j - 1) && Scales(mul, c, f(i), f(j - 1));
    } else if j < 0 {
      SumBy(mul, f, c, i, j + 1);
      assert NextAt(f, c, i + j) && NextAt(f, c, j) && Scales(mul, c, f(i), f(j));
      Cancel(c, f(i + j), mul(f(i), f(j)));
    }
  }

  lemma Cancel(c: real, x: real, y: real)
    requires c > 0.0 && c * x == c * y
    ensures x == y
  {
    assert c * (x - y) == 0.0;
  }

  function Times(x: real, y: real): real { x * y }

  lemma TimesMultiplies()
    ensures Multiplies(Times)
  {
    forall c, x, y ensures Scales(Times, c, x, y) {
    }
  }

  lemma Sum(f: Powers, c: real, i: int, j: int)
    requires Geometric(f, c)
    ensures f(i + j) == f(i) * f(j)
  {
    TimesMultiplies();
    SumBy(Times, f, c, i, j);
  }

  lemma Scale(x: real, y: real, c: real)
    requires c > 0.0
    ensures x < y <==> x * c < y * c
    ensures x <= y <==> x * c <= y * c
  {
    assert (y - x) * c == y * c - x * c;
  }

  /** The integer powers are the same. */
  lemma {:induction false} Pow2IsTwoTo(two: Powers, k: nat)
    requires Geometric(two, 2.0)
    ensures Pow2(k) as real == two(k)
  {
    if k > 0 {
      Pow2IsTwoTo(two, k - 1);
      assert NextAt(two, 2.0, k - 1);
    }
  }
}
