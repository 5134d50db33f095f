/** cFloatDeco: the rounded product of two 64 bit mantissas and the boundaries of a decomposed double. */
module FloatDeco {
  import opened Arith

  const TWO31 := 0x8000_0000
  const TWO32 := 0x1_0000_0000
  const TWO63 := 0x8000_0000_0000_0000

  /** What a 64 bit register keeps of a number. */
  function Wrap(n: int): int { n % TWO64 }

  datatype Deco = Deco(mant: nat, exp: int)

  // ----- operator*

  /** The 128 bit product, rounded by the highest bit of its low half. */
  function Multiply128(x: nat, y: nat): nat {
    var p := x * y;
    p / TWO64 + if p % TWO64 >= TWO63 then 1 else 0
  }

  /** The product from 32 bit halves, every operation in 64 bits. */
  function MultiplyHalves(x: nat, y: nat): int {
    var a, b, c, d := x / TWO32, x % TWO32, y / TWO32, y % TWO32;
    SumParts(Wrap(a * c), Wrap(a * d), Wrap(b * c), Wrap(b * d))
  }

  function SumParts(ac: nat, ad: nat, bc: nat, bd: nat): int {
    var sum := Wrap(Wrap(bd / TWO32 + ad % TWO32) + bc % TWO32);
    var tmp := Wrap(sum + TWO31);
    Wrap(Wrap(Wrap(ac + ad / TWO32) + bc / TWO32) + tmp / TWO32)
  }

  /** The exact product to the nearest unit, a half rounded up. */
  function Rounded(x: nat, y: nat): nat {
    (x * y + TWO63) / TWO64
  }

  lemma ProductOfHalves(a: nat, b: nat, c: nat, d: nat)
    ensures (a * TWO32 + b) * (c * TWO32 + d) == a * c * TWO64 + (a * d + b * c) * TWO32 + b * d
  {
    var x := a * TWO32 + b;
    assert x * (c * TWO32 + d) == x * c * TWO32 + x * d;
    assert x * c == a * c * TWO32 + b * c;
    assert x * d == a * d * TWO32 + b * d;
  }

  lemma ProductAtMost(x: nat, y: nat, n: nat)
    requires x <= n && y <= n
    ensures x * y <= n * n
  {
    assert x * y <= n * y && n * y <= n * n;
  }

  /** The sum of the high parts and the carry of the low parts is the rounded quotient. */
  lemma SumOfParts(ac: nat, adh: nat, adl: nat, bch: nat, bcl: nat, bdh: nat, bdl: nat, tmp: nat, carry: nat, low: nat, p: nat)
    requires p == ac * TWO64 + (adh * TWO32 + adl + bch * TWO32 + bcl) * TWO32 + bdh * TWO32 + bdl
    requires bdl < TWO32 && tmp == bdh + adl + bcl + TWO31 && tmp == carry * TWO32 + low && low < TWO32
    ensures (p + TWO63) / TWO64 == ac + adh + bch + carry
  {
    DivModUnique(p + TWO63, ac + adh + bch + carry, low * TWO32 + bdl, TWO64);
  }

  lemma DivMod(n: nat)
    ensures n == (n / TWO32) * TWO32 + n % TWO32 && 0 <= n % TWO32 < TWO32 && n / TWO32 >= 0
    ensures n < TWO64 ==> n / TWO32 < TWO32
  {
  }

  lemma WrapSmall(n: int)
    requires 0 <= n < TWO64
    ensures Wrap(n) == n
  {
  }

  /** The 32 bit halves give the exact product rounded to the nearest unit, which fits 64 bits; nothing on
      the way is lost to overflow. */
  lemma HalvesAreRounded(x: nat, y: nat)
    requires x < TWO64 && y < TWO64
    ensures MultiplyHalves(x, y) == Rounded(x, y) < TWO64
  {
    DivMod(x);
    DivMod(y);
    ProductAtMost(x, y, TWO64 - 1);
    PartsOfHalves(x / TWO32, x % TWO32, y / TWO32, y % TWO32, x, y);
  }

  lemma PartsOfHalves(a: nat, b: nat, c: nat, d: nat, x: nat, y: nat)
    requires a < TWO32 && b < TWO32 && c < TWO32 && d < TWO32
    requires x == a * TWO32 + b && y == c * TWO32 + d && x * y <= (TWO64 - 1) * (TWO64 - 1)
    ensures SumParts(Wrap(a * c), Wrap(a * d), Wrap(b * c), Wrap(b * d)) == Rounded(x, y) < TWO64
  {
    ProductFits(a, c);
    ProductFits(a, d);
    ProductFits(b, c);
    ProductFits(b, d);
    ProductOfHalves(a, b, c, d);
    PartsAreRounded(a * c, a * d, b * c, b * d, x * y);
  }

  lemma ProductFits(a: nat, c: nat)
    requires a < TWO32 && c < TWO32
    ensures 0 <= a * c < TWO64 && Wrap(a * c) == a * c
  {
    ProductAtMost(a, c, TWO32 - 1);
    WrapSmall(a * c);
  }

  lemma PartsAreRounded(ac: nat, ad: nat, bc: nat, bd: nat, p: nat)
    requires ac < TWO64 && ad < TWO64 && bc < TWO64 && bd < TWO64
    requires p == ac * TWO64 + (ad + bc) * TWO32 + bd <= (TWO64 - 1) * (TWO64 - 1)
    ensures SumParts(ac, ad, bc, bd) == (p + TWO63) / TWO64 < TWO64
  {
    DivMod(ad);
    DivMod(bc);
    DivMod(bd);
    var tmp := bd / TWO32 + ad % TWO32 + bc % TWO32 + TWO31;
    DivMod(tmp);
    SumOfParts(ac, ad / TWO32, ad % TWO32, bc / TWO32, bc % TWO32, bd / TWO32, bd % TWO32, tmp, tmp / TWO32, tmp % TWO32, p);
    WrapSmall(bd / TWO32 + ad % TWO32);
    WrapSmall(bd / TWO32 + ad % TWO32 + bc % TWO32);
    WrapSmall(tmp);
    var h := ac + ad / TWO32 + bc / TWO32 + tmp / TWO32;
    assert h < TWO64;
    WrapSmall(ac + ad / TWO32);
    WrapSmall(ac + ad / TWO32 + bc / TWO32);
    WrapSmall(h);
  }

  /** So does the 128 bit product. The result is within half a unit of the exact one. */
  lemma ProductIsRounded(x: nat, y: nat)
    ensures Multiply128(x, y) == Rounded(x, y)
    ensures -TWO63 < Rounded(x, y) * TWO64 - x * y <= TWO63
  {
    var p := x * y;
    var q, m := p / TWO64, p % TWO64;
    if m >= TWO63 {
      DivModUnique(p + TWO63, q + 1, m - TWO63, TWO64);
    } else {
      DivModUnique(p + TWO63, q, m + TWO63, TWO64);
    }
  }

  /** Factors that are far enough apart give products that are. */
  lemma ProductsApart(x: nat, x': nat, y: nat, d: nat)
    requires x + d <= x' && d * y >= TWO64
    ensures Rounded(x, y) < Rounded(x', y)
  {
    MulMonotone(x + d, x', y);
    assert (x + d) * y == x * y + d * y;
    Arith.DivModUnique(x * y + TWO63 + TWO64, Rounded(x, y) + 1, (x * y + TWO63) % TWO64, TWO64);
    QuotientMonotone(x * y + TWO63 + TWO64, x' * y + TWO63);
  }

  lemma QuotientMonotone(a: nat, b: nat)
    requires a <= b
    ensures a / TWO64 <= b / TWO64
  {
  }

  /** cFloatDeco::operator* */
  function Multiply(x: Deco, y: Deco): (r: Deco)
    requires x.mant < TWO64 && y.mant < TWO64
    ensures r.mant == Rounded(x.mant, y.mant) < TWO64 && r.exp == x.exp + y.exp + 64
  {
    HalvesAreRounded(x.mant, y.mant);
    Deco(MultiplyHalves(x.mant, y.mant), x.exp + y.exp + 64)
  }

  // ----- Normalize and NormalizedBoundaries

  /** k_MANT_MASK_X: the hidden bit of a double. */
  const HIDDEN := 0x10_0000_0000_0000

  lemma Pow2Of63()
    ensures Pow2(63) == TWO63 && Pow2(64) == TWO64 && Pow2(10) == 0x400
  {
    assert Pow2(10) == 0x400;
    Pow2Sum(10, 10);
    Pow2Sum(20, 20);
    Pow2Sum(40, 20);
    assert Pow2(3) == 8;
    Pow2Sum(60, 3);
  }

  /** How many bits a number takes: its highest bit is at BitLength - 1. */
  function BitLength(n: nat): (bits: nat)
    decreases n
  {
    if n == 0 then 0 else 1 + BitLength(n / 2)
  }

  lemma {:induction false} BitLengthBounds(n: nat)
    requires n > 0
    ensures BitLength(n) > 0 && Pow2(BitLength(n) - 1) <= n < Pow2(BitLength(n))
    decreases n
  {
    if n > 1 {
      BitLengthBounds(n / 2);
    }
  }

  /** A 64 bit number takes at most 64 bits. */
  lemma BitLengthFits(n: nat, k: nat)
    requires 0 < n < Pow2(k)
    ensures BitLength(n) <= k
  {
    BitLengthBounds(n);
    if BitLength(n) > k {
      Pow2Monotone(k, BitLength(n) - 1);
    }
  }

  method Highest1Bit(n: nat) returns (bits: nat)
    ensures bits == BitLength(n)
  {
    var val := n;
    bits := 0;
    while val != 0
      invariant bits + BitLength(val) == BitLength(n)
    {
      val := val / 2;
      bits := bits + 1;
    }
  }

  /** A shift in a 64 bit register. */
  function ShiftLeft(n: nat, k: nat): nat { Wrap(n * Pow2(k)) }

  /** f stands for n * 2^e, with the exponent of f at most e. */
  ghost predicate StandsFor(f: Deco, n: nat, e: int) {
    f.exp <= e && f.mant == n * Pow2(e - f.exp)
  }

  /** Shifting the highest bit to the top loses nothing. */
  lemma TopShift(n: nat)
    requires 0 < n < TWO64
    ensures BitLength(n) <= 64 && TWO63 <= n * Pow2(64 - BitLength(n)) < TWO64
  {
    Pow2Of63();
    BitLengthFits(n, 64);
    BitLengthBounds(n);
    var bits := BitLength(n);
    var k := 64 - bits;
    Pow2Sum(bits, k);
    Pow2Sum(bits - 1, k);
    MulMonotone(n, Pow2(bits), Pow2(k));
    MulMonotone(Pow2(bits - 1), n, Pow2(k));
  }

  /** Normalize keeps the number and puts the highest bit at the top. */
  function Normalize(f: Deco): (r: Deco)
    requires 0 < f.mant < TWO64
    ensures TWO63 <= r.mant < TWO64 && StandsFor(r, f.mant, f.exp)
  {
    TopShift(f.mant);
    var k := 64 - BitLength(f.mant);
    WrapSmall(f.mant * Pow2(k));
    Deco(ShiftLeft(f.mant, k), f.exp - k)
  }

  /** By how much the upper boundary is shifted up. */
  function UpperShift(m: nat): (k: int)
    requires 0 < m < TWO63
    ensures k >= 0 && TWO63 <= (2 * m + 1) * Pow2(k) < TWO64
  {
    TopShift(2 * m + 1);
    64 - BitLength(2 * m + 1)
  }

  /** The points half way to the neighbours of v, m + 1/2 and m - 1/2 units, with one exponent; below a
      mantissa of the hidden bit alone the neighbour is only half as far, and the point is m - 1/4. */
  function Upper(v: Deco): (plus: Deco)
    requires 0 < v.mant < TWO63
    ensures TWO63 <= plus.mant < TWO64 && StandsFor(plus, 2 * v.mant + 1, v.exp - 1)
  {
    var k := UpperShift(v.mant);
    Deco((2 * v.mant + 1) * Pow2(k), v.exp - 1 - k)
  }

  function Lower(v: Deco): (minus: Deco)
    requires 0 < v.mant < TWO63
    ensures 0 < minus.mant < Upper(v).mant && minus.exp == Upper(v).exp
    ensures if v.mant == HIDDEN then StandsFor(minus, 4 * v.mant - 1, v.exp - 2) else StandsFor(minus, 2 * v.mant - 1, v.exp - 1)
  {
    var k := UpperShift(v.mant);
    if v.mant == HIDDEN then
      HiddenShift(v.mant);
      Deco((4 * v.mant - 1) * Pow2(k - 1), v.exp - 1 - k)
    else
      MulMonotone(2 * v.mant - 1, 2 * v.mant + 1, Pow2(k));
      MulMonotone(0, 2 * v.mant - 1, Pow2(k));
      Deco((2 * v.mant - 1) * Pow2(k), v.exp - 1 - k)
  }

  /** The shifts of the source lose no bit. */
  method NormalizedBoundaries(v: Deco) returns (minus: Deco, plus: Deco)
    requires 0 < v.mant < TWO63
    ensures plus == Upper(v) && minus == Lower(v)
  {
    DoubleFits(v.mant);
    var up := Deco(Wrap(ShiftLeft(v.mant, 1) + 1), v.exp - 1);
    plus := Normalize(up);
    if v.mant == HIDDEN {
      minus := Deco(Wrap(ShiftLeft(v.mant, 2) - 1), v.exp - 2);
    } else {
      minus := Deco(Wrap(ShiftLeft(v.mant, 1) - 1), v.exp - 1);
    }
    LowerShift(v, minus, plus);
    var k := minus.exp - plus.exp;
    minus := Deco(ShiftLeft(minus.mant, k), plus.exp);
  }

  lemma DoubleFits(m: nat)
    requires 0 < m < TWO63
    ensures ShiftLeft(m, 1) == 2 * m && Wrap(2 * m + 1) == 2 * m + 1 && Wrap(2 * m - 1) == 2 * m - 1
    ensures m == HIDDEN ==> ShiftLeft(m, 2) == 4 * m && Wrap(4 * m - 1) == 4 * m - 1
    ensures forall e :: Normalize(Deco(2 * m + 1, e - 1)) == Upper(Deco(m, e))
  {
    assert Pow2(1) == 2 && Pow2(2) == 4;
    WrapSmall(2 * m);
    WrapSmall(2 * m + 1);
    WrapSmall(2 * m - 1);
    if m == HIDDEN {
      WrapSmall(4 * m);
      WrapSmall(4 * m - 1);
    }
    forall e ensures Normalize(Deco(2 * m + 1, e - 1)) == Upper(Deco(m, e)) {
      WrapSmall((2 * m + 1) * Pow2(UpperShift(m)));
    }
  }

  /** The lower boundary is brought to the exponent of the upper one. */
  lemma LowerShift(v: Deco, minus: Deco, plus: Deco)
    requires 0 < v.mant < TWO63 && plus == Upper(v)
    requires minus == if v.mant == HIDDEN then Deco(4 * v.mant - 1, v.exp - 2) else Deco(2 * v.mant - 1, v.exp - 1)
    ensures minus.exp >= plus.exp && Deco(ShiftLeft(minus.mant, minus.exp - plus.exp), plus.exp) == Lower(v)
  {
    if v.mant == HIDDEN {
      HiddenShift(v.mant);
    }
    WrapSmall(Lower(v).mant);
  }

  lemma HiddenShift(m: nat)
    requires m == HIDDEN
    ensures UpperShift(m) > 0 && 0 < (4 * m - 1) * Pow2(UpperShift(m) - 1) < (2 * m + 1) * Pow2(UpperShift(m))
  {
    Pow2Of63();
    BitLengthFits(2 * m + 1, 63);
    QuarterShift(m, Pow2(UpperShift(m) - 1), Pow2(UpperShift(m)));
  }

  lemma QuarterShift(m: nat, half: nat, unit: nat)
    requires m > 0 && half > 0 && unit == 2 * half
    ensures 0 < (4 * m - 1) * half < (2 * m + 1) * unit
  {
    MulMonotone(4 * m - 1, 4 * m + 2, half);
    MulMonotone(0, 4 * m - 1, half);
    assert (2 * m + 1) * unit == (4 * m + 2) * half;
  }

  /** A normalized double has the exponent of its boundaries and is well apart from both. */
  lemma NumberBetween(v: Deco)
    requires 0 < v.mant < 2 * HIDDEN
    ensures Normalize(v).exp == Upper(v).exp
    ensures Lower(v).mant + 512 <= Normalize(v).mant && Normalize(v).mant + 512 <= Upper(v).mant
  {
    var m := v.mant;
    var k := UpperShift(m);
    Pow2Of54(2 * m + 1);
    NormalizeBy(v, k);
    BoundariesBy(v, k);
    Spread(m, Pow2(k - 1), Pow2(k));
  }

  lemma NormalizeBy(v: Deco, k: nat)
    requires 0 < v.mant < TWO63 && k + BitLength(2 * v.mant + 1) == 64
    ensures Normalize(v) == Deco(v.mant * (2 * Pow2(k)), v.exp - 1 - k)
  {
    assert BitLength(2 * v.mant + 1) == 1 + BitLength(v.mant);
    assert Pow2(k + 1) == 2 * Pow2(k);
    TopShift(v.mant);
    WrapSmall(v.mant * Pow2(k + 1));
  }

  lemma BoundariesBy(v: Deco, k: nat)
    requires 0 < v.mant < TWO63 && k == UpperShift(v.mant) > 0
    ensures Upper(v) == Deco((2 * v.mant + 1) * Pow2(k), v.exp - 1 - k)
    ensures Lower(v).mant == if v.mant == HIDDEN then (4 * v.mant - 1) * Pow2(k - 1) else (2 * v.mant - 1) * Pow2(k)
  {
  }

  /** A mantissa of at most 54 bits leaves 10 for the shift. */
  lemma Pow2Of54(n: nat)
    requires 0 < n < 4 * HIDDEN
    ensures BitLength(n) <= 54 && Pow2(63 - BitLength(n)) >= 512
  {
    Pow2Of63();
    Pow2Sum(54, 10);
    BitLengthFits(n, 54);
    Pow2Monotone(9, 63 - BitLength(n));
  }

  lemma Spread(m: nat, half: nat, unit: nat)
    requires m > 0 && unit == 2 * half && half >= 512
    ensures (2 * m - 1) * unit + 512 <= m * (2 * unit)
    ensures (4 * m - 1) * half + 512 <= m * (2 * unit) && m * (2 * unit) + 512 <= (2 * m + 1) * unit
  {
    var u := m * half;
    assert m * (2 * unit) == 4 * u;
    assert (2 * m + 1) * unit == 4 * u + unit;
    assert (2 * m - 1) * unit == 4 * u - unit;
    assert (4 * m - 1) * half == 4 * u - half;
  }
}
