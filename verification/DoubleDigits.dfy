/** cFloatDeco::Grisu2 as a whole: a double is decomposed, scaled by a cached power of ten, and its digits are
    generated. What they stand for is strictly between the boundaries of the double, so it is read back as
    that double. */
module DoubleDigits {
  import opened Arith
  import opened FloatDeco
  import opened RealPowers
  import opened CachedPowers
  import opened Grisu
  import Digits

  // ----- the number scaled

  /** The constructor of cFloatDeco from the bits of a finite double, ignoring its sign. */
  function Decompose(bits: nat): (v: Deco)
    requires bits < TWO64 && bits / HIDDEN % 2048 != 2047
    ensures v.mant < 2 * HIDDEN && -1074 <= v.exp <= 971
  {
    var biased, mant := bits / HIDDEN % 2048, bits % HIDDEN;
    if biased != 0 then Deco(mant + HIDDEN, biased - 1075) else Deco(mant, 1 - 1075)
  }

  /** The bits of a decomposed double, without its sign: the hidden bit is what tells an exponent field of 0. */
  function Recompose(v: Deco): int {
    if v.mant >= HIDDEN then (v.exp + 1075) * HIDDEN + (v.mant - HIDDEN) else v.mant
  }

  /** Decomposing loses only the sign; and without the hidden bit the exponent is the least. */
  lemma DecomposeKeepsBits(bits: nat)
    requires bits < TWO64 && bits / HIDDEN % 2048 != 2047
    ensures Recompose(Decompose(bits)) == bits % TWO63
    ensures Decompose(bits).mant < HIDDEN ==> Decompose(bits).exp == -1074
  {
    var q, m := bits / HIDDEN, bits % HIDDEN;
    var sign, field := q / 2048, q % 2048;
    assert bits == sign * TWO63 + (field * HIDDEN + m);
    DivModUnique(bits, sign, field * HIDDEN + m, TWO63);
  }

  /** A double other than zero, decomposed. */
  predicate IsDouble(v: Deco) { 0 < v.mant < 2 * HIDDEN && -1074 <= v.exp <= 971 }

  lemma UpperExp(v: Deco)
    requires IsDouble(v)
    ensures -1137 <= Upper(v).exp <= 960
  {
    Pow2Of54(2 * v.mant + 1);
    AtLeastTwoBits(v.mant);
    ShiftRange(v.mant);
  }

  lemma ShiftRange(m: nat)
    requires 0 < m < TWO63
    ensures UpperShift(m) == 64 - BitLength(2 * m + 1)
  {
  }

  lemma AtLeastTwoBits(m: nat)
    requires m > 0
    ensures BitLength(2 * m + 1) >= 2
  {
    assert (2 * m + 1) / 2 == m;
  }

  /** The power of ten that Grisu2 scales a double by, and the exponent of ten that this takes off. */
  function PowerFor(v: Deco): (Deco, int)
    requires IsDouble(v)
  {
    GetCachedPower(Upper(v).exp)
  }

  /** Its index in the table. */
  function IndexFor(v: Deco): (index: int)
    requires IsDouble(v)
    ensures 0 <= index < 87 && PowerFor(v) == (Cached(index).power, 348 - 8 * index)
    ensures TWO63 <= PowerFor(v).0.mant < TWO64
  {
    UpperExp(v);
    CachedPowerFits(Upper(v).exp);
    var index := DecimalExponent(Upper(v).exp) / 8 + 1;
    EntriesOk(index);
    index
  }

  /** How many bits the scaled number has behind the point. */
  function PointOf(v: Deco): (bits: int)
    requires IsDouble(v)
    ensures 34 <= bits <= 60
  {
    UpperExp(v);
    CachedPowerFits(Upper(v).exp);
    -(Upper(v).exp + PowerFor(v).0.exp + 64)
  }

  /** The scaled boundaries, moved inwards by one. */
  function ScaledUpper(v: Deco): int
    requires IsDouble(v)
  {
    Rounded(Upper(v).mant, PowerFor(v).0.mant) - 1
  }

  function ScaledLower(v: Deco): int
    requires IsDouble(v)
  {
    Rounded(Lower(v).mant, PowerFor(v).0.mant) + 1
  }

  /** The number itself, scaled. */
  function ScaledNumber(v: Deco): int
    requires IsDouble(v)
  {
    Rounded(Normalize(v).mant, PowerFor(v).0.mant)
  }

  /** They leave room between them, and the scaled number is there. */
  lemma ScaledFit(minus: nat, number: nat, plus: nat, power: nat)
    requires minus + 512 <= number && number + 512 <= plus < TWO64 && TWO63 <= plus && TWO63 <= power < TWO64
    ensures Rounded(minus, power) + 1 <= Rounded(number, power) <= Rounded(plus, power) - 1
    ensures Rounded(minus, power) + 1 < Rounded(plus, power) - 1 < TWO64 - 1
    ensures Rounded(plus, power) - 1 >= 0x1000_0000_0000_0000
  {
    ProductsApart(minus, number, power, 512);
    ProductsApart(number, plus - 256, power, 256);
    ProductsApart(plus - 256, plus, power, 256);
    HalvesAreRounded(plus, power);
    MulMonotone(TWO63, plus, power);
    MulMonotone(TWO63, power, TWO63);
    QuotientMonotone(TWO63 * TWO63 + TWO63, plus * power + TWO63);
  }

  // ----- what the digits stand for

  /** The point half way to the neighbour below a mantissa, in its units. Below the hidden bit alone the units
      are half as large. */
  function LowerPoint(mant: nat): real { if mant == HIDDEN then mant as real - 0.25 else mant as real - 0.5 }

  function UpperPoint(mant: nat): real { mant as real + 0.5 }

  /** The decimal is strictly between the points half way to the neighbours of v. */
  ghost predicate ReadsBack(two: Powers, ten: Powers, v: Deco, digits: seq<nat>, exp: int) {
    LowerPoint(v.mant) * two(v.exp) < (Digits.ValueOf(digits, 10) as real) * ten(exp) < UpperPoint(v.mant) * two(v.exp)
  }

  /** Moving a rounded product by a stored power inwards by one leaves it strictly inside the product by the
      power of ten itself, which is at most half a unit away. */
  lemma MovedInwards(mant: nat, r: real, minus: nat, plus: nat)
    requires -0.5 < mant as real - r < 0.5 && minus < TWO64 && plus < TWO64
    ensures (minus as real) * r < ((Rounded(minus, mant) + 1) * TWO64) as real
    ensures ((Rounded(plus, mant) - 1) * TWO64) as real < (plus as real) * r
  {
    ProductIsRounded(minus, mant);
    ProductIsRounded(plus, mant);
    var low, high := (minus as real) * r, (plus as real) * r;
    StoredProduct(minus, mant, r, minus * mant, low);
    StoredProduct(plus, mant, r, plus * mant, high);
    Above(minus * mant, Rounded(minus, mant), minus, low);
    Below(plus * mant, Rounded(plus, mant), plus, high);
  }

  lemma Above(p: int, rounded: int, x: int, xr: real)
    requires 0 - TWO63 < rounded * TWO64 - p && x < TWO64 && xr <= p as real + 0.5 * (x as real)
    ensures xr < ((rounded + 1) * TWO64) as real
  {
  }

  lemma Below(p: int, rounded: int, x: int, xr: real)
    requires rounded * TWO64 - p <= TWO63 && x < TWO64 && xr >= p as real - 0.5 * (x as real)
    ensures ((rounded - 1) * TWO64) as real < xr
  {
  }

  /** How far the product by a stored power is from that by the power itself. */
  lemma StoredProduct(x: nat, mant: nat, r: real, p: int, xr: real)
    requires -0.5 < mant as real - r < 0.5 && p == x * mant && xr == (x as real) * r
    ensures p as real - 0.5 * (x as real) <= xr <= p as real + 0.5 * (x as real)
  {
    var x', m', p' := x as real, mant as real, p as real;
    Casts(x, mant, x', m', p);
    assert p' == x' * m';
    HalfUnitOff(x', m', r, p', xr);
  }

  lemma Casts(x: int, y: int, x': real, y': real, p: int)
    requires x' == x as real && y' == y as real && p == x * y
    ensures p as real == x' * y'
  {
  }

  lemma HalfUnitOff(x: real, m: real, r: real, p: real, xr: real)
    requires x >= 0.0 && -0.5 < m - r < 0.5 && p == x * m && xr == x * r
    ensures p - 0.5 * x <= xr <= p + 0.5 * x
  {
    NotNegative(x, m + 0.5 - r);
    NotNegative(x, r - (m - 0.5));
    assert x * (m + 0.5 - r) == x * m + 0.5 * x - x * r;
    assert x * (r - (m - 0.5)) == x * r - x * m + 0.5 * x;
  }

  lemma NotNegative(x: real, y: real)
    requires x >= 0.0 && y >= 0.0
    ensures x * y >= 0.0
  {
  }

  lemma {:induction false} Pow10IsTenTo(ten: Powers, k: nat)
    requires Geometric(ten, 10.0)
    ensures Pow10(k) as real == ten(k)
  {
    if k > 0 {
      Pow10IsTenTo(ten, k - 1);
      assert NextAt(ten, 10.0, k - 1);
      assert Pow10(k) == 10 * Pow10(k - 1);
    }
  }

  /** A decimal between two boundaries, in real numbers. */
  ghost predicate RealBetween(v: nat, t: real, one: nat, lo: nat, hi: nat) {
    lo as real <= (v as real) * t * (one as real) <= hi as real
  }

  lemma DecimalBetween(ten: Powers, digits: seq<nat>, exp: int, one: nat, lo: nat, hi: nat)
    requires Geometric(ten, 10.0) && Between(digits, exp, one, lo, hi)
    ensures RealBetween(Digits.ValueOf(digits, 10), ten(exp), one, lo, hi)
  {
    if exp >= 0 {
      DecimalWhole(ten, Digits.ValueOf(digits, 10), exp, one, lo, hi);
    } else {
      DecimalFraction(ten, Digits.ValueOf(digits, 10), -exp, one, lo, hi);
    }
  }

  lemma DecimalWhole(ten: Powers, v: nat, k: nat, one: nat, lo: nat, hi: nat)
    requires Geometric(ten, 10.0) && lo <= v * (Pow10(k) * one) <= hi
    ensures RealBetween(v, ten(k), one, lo, hi)
  {
    Pow10IsTenTo(ten, k);
    WholeBetween(v, Pow10(k), one, lo, hi, ten(k));
  }

  lemma DecimalFraction(ten: Powers, v: nat, k: nat, one: nat, lo: nat, hi: nat)
    requires Geometric(ten, 10.0) && lo * Pow10(k) <= v * one <= hi * Pow10(k)
    ensures RealBetween(v, ten(0 - k), one, lo, hi)
  {
    Pow10IsTenTo(ten, k);
    Sum(ten, 10.0, k, 0 - k);
    Positive(ten, 10.0, 0 - k);
    FractionBetween(v, Pow10(k), one, lo, hi, ten(0 - k));
  }

  lemma WholeBetween(v: nat, p: nat, one: nat, lo: nat, hi: nat, t: real)
    requires t == p as real && lo <= v * (p * one) <= hi
    ensures RealBetween(v, t, one, lo, hi)
  {
    var v', one' := v as real, one as real;
    Casts(p, one, t, one', p * one);
    Casts(v, p * one, v', (p * one) as real, v * (p * one));
    Associate(v', t, one');
  }

  lemma Associate(x: real, y: real, z: real)
    ensures x * (y * z) == x * y * z
  {
  }

  lemma FractionBetween(v: nat, p: nat, one: nat, lo: nat, hi: nat, t: real)
    requires (p as real) * t == 1.0 && t > 0.0 && lo * p <= v * one <= hi * p
    ensures RealBetween(v, t, one, lo, hi)
  {
    Casts(lo, p, lo as real, p as real, lo * p);
    Casts(hi, p, hi as real, p as real, hi * p);
    Casts(v, one, v as real, one as real, v * one);
    DividedBetween(v as real, p as real, one as real, lo as real, hi as real, t);
  }

  lemma DividedBetween(v: real, p: real, one: real, lo: real, hi: real, t: real)
    requires p * t == 1.0 && t > 0.0 && lo * p <= v * one <= hi * p
    ensures lo <= v * t * one <= hi
  {
    Scale(lo * p, v * one, t);
    Scale(v * one, hi * p, t);
    Inverse(lo, p, t);
    Inverse(hi, p, t);
    Swap(v, one, t);
  }

  lemma Inverse(x: real, p: real, t: real)
    requires p * t == 1.0
    ensures x * p * t == x
  {
    Associate(x, p, t);
  }

  lemma Swap(x: real, y: real, z: real)
    ensures x * y * z == x * z * y
  {
  }

  /** A shifted number is the number it stands for. */
  lemma StandsForIs(two: Powers, f: Deco, n: nat, e: int)
    requires Geometric(two, 2.0) && StandsFor(f, n, e)
    ensures (f.mant as real) * two(f.exp) == (n as real) * two(e)
  {
    var k := e - f.exp;
    Pow2IsTwoTo(two, k);
    Sum(two, 2.0, k, f.exp);
    Casts(n, Pow2(k), n as real, two(k), f.mant);
    Associate(n as real, two(k), two(f.exp));
  }

  /** A number of halves or quarters of the unit of a double. */
  lemma PartsOf(two: Powers, f: Deco, n: nat, x: real, c: real, e: int, d: nat)
    requires Geometric(two, 2.0) && StandsFor(f, n, e - d) && n as real == c * x
    requires (d == 1 && c == 2.0) || (d == 2 && c == 4.0)
    ensures IsValue(two, f, x, e)
  {
    assert NextAt(two, 2.0, e - 1) && NextAt(two, 2.0, e - 2);
    StandsForIs(two, f, n, e - d);
    PartUnits(n as real, x, c, two(e - d), two(e));
  }

  /** A decomposed float is x units of 2^e. */
  ghost predicate IsValue(two: Powers, f: Deco, x: real, e: int) {
    (f.mant as real) * two(f.exp) == x * two(e)
  }

  /** The boundaries of v, in its units. */
  ghost predicate AreBoundaries(v: Deco, minus: Deco, plus: Deco) {
    && v.mant > 0 && minus.exp == plus.exp && StandsFor(plus, 2 * v.mant + 1, v.exp - 1)
    && if v.mant == HIDDEN then StandsFor(minus, 4 * v.mant - 1, v.exp - 2) else StandsFor(minus, 2 * v.mant - 1, v.exp - 1)
  }

  lemma BoundaryValues(two: Powers, v: Deco, minus: Deco, plus: Deco)
    requires Geometric(two, 2.0) && AreBoundaries(v, minus, plus)
    ensures IsValue(two, minus, LowerPoint(v.mant), v.exp) && IsValue(two, plus, UpperPoint(v.mant), v.exp)
  {
    PartsOf(two, plus, 2 * v.mant + 1, UpperPoint(v.mant), 2.0, v.exp, 1);
    if v.mant == HIDDEN {
      PartsOf(two, minus, 4 * v.mant - 1, LowerPoint(v.mant), 4.0, v.exp, 2);
    } else {
      PartsOf(two, minus, 2 * v.mant - 1, LowerPoint(v.mant), 2.0, v.exp, 1);
    }
  }

  lemma PartUnits(n: real, x: real, c: real, part: real, unit: real)
    requires n == c * x && unit == c * part
    ensures n * part == x * unit
  {
    Associate(x, c, part);
  }

  /** From products scaled by a power of ten back to the numbers: the scale taken off on both sides. */
  lemma Unscale(two: Powers, ten: Powers, x: int, e: int, k: int, shift: int)
    requires Geometric(two, 2.0) && Geometric(ten, 10.0) && shift == -(x + e + 64)
    ensures two(shift) * two(64) * (two(x + e)) == 1.0 && two(-e) * two(x + e) == two(x) && ten(k) * ten(-k) == 1.0
    ensures two(x + e) > 0.0 && ten(-k) > 0.0 && two(64) == TWO64 as real
  {
    Sum(two, 2.0, shift, 64);
    Sum(two, 2.0, shift + 64, x + e);
    Sum(two, 2.0, -e, x + e);
    Sum(ten, 10.0, k, -k);
    Positive(two, 2.0, x + e);
    Positive(ten, 10.0, -k);
    Pow2IsTwoTo(two, 64);
    Pow2Of63();
  }

  /** d in units of one * t, against a product with r = tk * be: the same against q * bx, in units of 1/t'. */
  lemma UnscaleLess(q: real, r: real, d: real, one: real, t: real, u: real, tk: real, t': real, be: real, bx: real)
    requires r == tk * be && one * t * u == 1.0 && be * u == bx && tk * t' == 1.0 && u > 0.0 && t' > 0.0
    ensures q * r < d * one * t ==> q * bx < d * t'
    ensures d * one * t < q * r ==> d * t' < q * bx
  {
    var c := u * t';
    assert c > 0.0;
    Scale(q * r, d * one * t, c);
    Scale(d * one * t, q * r, c);
    assert d * one * t * c == d * t' by { Gather(d, one, t, u, t'); }
    assert q * r * c == q * bx by { GatherPower(q, r, tk, be, u, t', bx); }
  }

  lemma Gather(d: real, one: real, t: real, u: real, t': real)
    requires one * t * u == 1.0
    ensures d * one * t * (u * t') == d * t'
  {
    assert d * one * t * (u * t') == d * t' * (one * t * u);
  }

  lemma GatherPower(q: real, r: real, tk: real, be: real, u: real, t': real, bx: real)
    requires r == tk * be && be * u == bx && tk * t' == 1.0
    ensures q * r * (u * t') == q * bx
  {
    assert q * r * (u * t') == q * (be * u) * (tk * t');
  }

  /** What d units of 1/one are, with the scale 10^k taken off, against numbers of exponent x. */
  ghost predicate TakenOff(two: Powers, ten: Powers, k: int, x: int, minus: nat, plus: nat, d: real) {
    (minus as real) * two(x) < d * ten(-k) < (plus as real) * two(x)
  }

  ghost predicate IsDecimal(ten: Powers, digits: seq<nat>, exp: int, d: real) {
    d == (Digits.ValueOf(digits, 10) as real) * ten(exp)
  }

  /** Digits between the scaled boundaries, moved inwards, stand for a decimal that reads back once the scale
      10^k is taken off. */
  lemma GeneratedReadsBack(two: Powers, ten: Powers, v: Deco, minus: Deco, plus: Deco, power: Deco, k: int,
                           digits: seq<nat>, exp: int, one: nat)
    requires Geometric(two, 2.0) && Geometric(ten, 10.0) && AreBoundaries(v, minus, plus) && CloseAt(two, ten, k, power)
    requires minus.mant < TWO64 && plus.mant < TWO64 && Rounded(plus.mant, power.mant) > 0
    requires plus.exp + power.exp + 64 <= 0 && one == Pow2(-(plus.exp + power.exp + 64))
    requires Between(digits, exp, one, Rounded(minus.mant, power.mant) + 1, Rounded(plus.mant, power.mant) - 1)
    ensures ReadsBack(two, ten, v, digits, exp - k)
  {
    var d := (Digits.ValueOf(digits, 10) as real) * ten(exp);
    GeneratedTakenOff(two, ten, power, k, plus.exp, minus.mant, plus.mant, digits, exp, one, d);
    BoundariesReadBack(two, ten, v, minus, plus, k, digits, exp, d);
  }

  lemma BoundariesReadBack(two: Powers, ten: Powers, v: Deco, minus: Deco, plus: Deco, k: int, digits: seq<nat>, exp: int, d: real)
    requires Geometric(two, 2.0) && Geometric(ten, 10.0) && AreBoundaries(v, minus, plus)
    requires IsDecimal(ten, digits, exp, d) && TakenOff(two, ten, k, plus.exp, minus.mant, plus.mant, d)
    ensures ReadsBack(two, ten, v, digits, exp - k)
  {
    BoundaryValues(two, v, minus, plus);
    TakenOffReadsBack(two, ten, v, minus, plus, k, digits, exp, d);
  }

  lemma GeneratedTakenOff(two: Powers, ten: Powers, power: Deco, k: int, x: int, minus: nat, plus: nat,
                          digits: seq<nat>, exp: int, one: nat, d: real)
    requires Geometric(two, 2.0) && Geometric(ten, 10.0) && CloseAt(two, ten, k, power)
    requires minus < TWO64 && plus < TWO64 && Rounded(plus, power.mant) > 0
    requires x + power.exp + 64 <= 0 && one == Pow2(-(x + power.exp + 64))
    requires Between(digits, exp, one, Rounded(minus, power.mant) + 1, Rounded(plus, power.mant) - 1)
    requires IsDecimal(ten, digits, exp, d)
    ensures TakenOff(two, ten, k, x, minus, plus, d)
  {
    var lo, hi := Rounded(minus, power.mant) + 1, Rounded(plus, power.mant) - 1;
    DecimalBetween(ten, digits, exp, one, lo, hi);
    Pow2IsTwoTo(two, -(x + power.exp + 64));
    BetweenTakenOff(two, ten, power, k, x, minus, plus, lo, hi, Digits.ValueOf(digits, 10), ten(exp), one, d);
  }

  lemma BetweenTakenOff(two: Powers, ten: Powers, power: Deco, k: int, x: int, minus: nat, plus: nat, lo: nat, hi: nat,
                        val: nat, t: real, one: nat, d: real)
    requires Geometric(two, 2.0) && Geometric(ten, 10.0) && CloseAt(two, ten, k, power)
    requires lo == Rounded(minus, power.mant) + 1 && hi == Rounded(plus, power.mant) - 1
    requires minus < TWO64 && plus < TWO64 && one as real == two(-(x + power.exp + 64))
    requires RealBetween(val, t, one, lo, hi) && d == (val as real) * t
    ensures TakenOff(two, ten, k, x, minus, plus, d)
  {
    MovedInwards(power.mant, ten(k) * two(-power.exp), minus, plus);
    ScaleTakenOff(two, ten, power.exp, k, x, minus as real, plus as real, d, one as real, lo as real, hi as real);
  }

  lemma TakenOffReadsBack(two: Powers, ten: Powers, v: Deco, minus: Deco, plus: Deco, k: int, digits: seq<nat>, exp: int, d: real)
    requires Geometric(ten, 10.0) && IsDecimal(ten, digits, exp, d) && minus.exp == plus.exp
    requires IsValue(two, minus, LowerPoint(v.mant), v.exp) && IsValue(two, plus, UpperPoint(v.mant), v.exp)
    requires TakenOff(two, ten, k, plus.exp, minus.mant, plus.mant, d)
    ensures ReadsBack(two, ten, v, digits, exp - k)
  {
    Sum(ten, 10.0, exp, -k);
    assert exp + -k == exp - k;
    Associate(Digits.ValueOf(digits, 10) as real, ten(exp), ten(-k));
  }

  /** d units of one are between lo and hi, and these are inside the scaled numbers; so d is between the numbers
      themselves, with the scale taken off. */
  lemma ScaleTakenOff(two: Powers, ten: Powers, e: int, k: int, x: int, minus: real, plus: real,
                      d: real, one: real, lo: real, hi: real)
    requires Geometric(two, 2.0) && Geometric(ten, 10.0) && one == two(-(x + e + 64)) && lo <= d * one <= hi
    requires minus * (ten(k) * two(-e)) < lo * (TWO64 as real) && hi * (TWO64 as real) < plus * (ten(k) * two(-e))
    ensures minus * two(x) < d * ten(-k) < plus * two(x)
  {
    Unscale(two, ten, x, e, k, -(x + e + 64));
    Scaled(minus, plus, ten(k) * two(-e), d, one, lo, hi, two(64), two(x + e), ten(k), ten(-k), two(-e), two(x));
  }

  lemma Scaled(minus: real, plus: real, r: real, d: real, one: real, lo: real, hi: real, t: real, u: real,
               tk: real, t': real, be: real, bx: real)
    requires r == tk * be && one * t * u == 1.0 && be * u == bx && tk * t' == 1.0 && u > 0.0 && t' > 0.0 && t == TWO64 as real
    requires lo <= d * one <= hi && minus * r < lo * t && hi * t < plus * r
    ensures minus * bx < d * t' < plus * bx
  {
    UnscaleLess(minus, r, d, one, t, u, tk, t', be, bx);
    UnscaleLess(plus, r, d, one, t, u, tk, t', be, bx);
  }

  /** A number of units is less than one unit from the value. */
  ghost predicate WithinOne(number: int, unit: real, value: real) {
    ((number - 1) as real) * unit < value < ((number + 1) as real) * unit
  }

  /** So many units of 1/2^shift, with the scale 10^k taken off, are less than one unit from the value of v. */
  ghost predicate IsNear(two: Powers, ten: Powers, number: int, shift: int, k: int, v: Deco) {
    WithinOne(number, two(-shift) * ten(-k), (v.mant as real) * two(v.exp))
  }

  /** The scaled number is less than one unit from the double, scaled. */
  lemma ScaledNumberIsClose(two: Powers, ten: Powers, v: Deco)
    requires Geometric(two, 2.0) && Geometric(ten, 10.0) && IsDouble(v)
    ensures IsNear(two, ten, ScaledNumber(v), PointOf(v), -PowerFor(v).1, v)
  {
    PowerForIsClose(two, ten, v);
    PointIs(v);
    NumberIsClose(two, ten, v, Normalize(v), PowerFor(v).0, -PowerFor(v).1, PointOf(v));
  }

  lemma PointIs(v: Deco)
    requires IsDouble(v)
    ensures PointOf(v) == -(Normalize(v).exp + PowerFor(v).0.exp + 64)
  {
    NumberBetween(v);
  }

  lemma PowerForIsClose(two: Powers, ten: Powers, v: Deco)
    requires Geometric(two, 2.0) && Geometric(ten, 10.0) && IsDouble(v)
    ensures CloseAt(two, ten, -PowerFor(v).1, PowerFor(v).0) && PowerFor(v).0.mant < TWO64
  {
    PowerIsClose(two, ten, IndexFor(v));
  }

  lemma NumberIsClose(two: Powers, ten: Powers, v: Deco, w: Deco, power: Deco, k: int, shift: int)
    requires Geometric(two, 2.0) && Geometric(ten, 10.0) && CloseAt(two, ten, k, power) && StandsFor(w, v.mant, v.exp)
    requires w.mant < TWO64 && shift == -(w.exp + power.exp + 64)
    ensures IsNear(two, ten, Rounded(w.mant, power.mant), shift, k, v)
  {
    MovedInwards(power.mant, ten(k) * two(-power.exp), w.mant, w.mant);
    StandsForIs(two, w, v.mant, v.exp);
    NumberTakenOff(two, ten, w, power.exp, k, shift, Rounded(w.mant, power.mant));
  }

  lemma NumberTakenOff(two: Powers, ten: Powers, w: Deco, e: int, k: int, shift: int, rounded: int)
    requires Geometric(two, 2.0) && Geometric(ten, 10.0) && shift == -(w.exp + e + 64)
    requires ((rounded - 1) * TWO64) as real < (w.mant as real) * (ten(k) * two(-e)) < ((rounded + 1) * TWO64) as real
    ensures WithinOne(rounded, two(-shift) * ten(-k), (w.mant as real) * two(w.exp))
  {
    Unscale(two, ten, w.exp, e, k, shift);
    Sum(two, 2.0, shift, -shift);
    OneTakenOff(w.mant as real, ten(k) * two(-e), (rounded - 1) as real, two(shift), two(-shift), two(64), two(w.exp + e),
                ten(k), ten(-k), two(-e), two(w.exp));
    OneTakenOff(w.mant as real, ten(k) * two(-e), (rounded + 1) as real, two(shift), two(-shift), two(64), two(w.exp + e),
                ten(k), ten(-k), two(-e), two(w.exp));
  }

  lemma OneTakenOff(q: real, r: real, n: real, one: real, part: real, t: real, u: real, tk: real, t': real, be: real, bx: real)
    requires r == tk * be && one * t * u == 1.0 && be * u == bx && tk * t' == 1.0 && u > 0.0 && t' > 0.0 && one * part == 1.0
    ensures q * r < n * t ==> q * bx < n * (part * t')
    ensures n * t < q * r ==> n * (part * t') < q * bx
  {
    var d := n * part;
    Gather(n, one, part, 1.0, t);
    assert d * one == n;
    UnscaleLess(q, r, d, one, t, u, tk, t', be, bx);
    Associate(n, part, t');
  }

  // ----- the whole

  /** The number of decimals where rounding reads its power of ten is beyond the table, which ends at 10^9: the
      digits may not end with the integer part, nor at any of nine places behind the point. */
  ghost predicate ReadsBeyondTable(v: Deco)
    requires IsDouble(v)
  {
    BeyondNine(ScaledLower(v), ScaledUpper(v), PointOf(v))
  }

  ghost predicate BeyondNine(lo: int, hi: int, shift: nat) {
    0 <= lo <= hi && forall k :: 0 <= k <= 9 ==> !Stops(lo, hi, Pow2(shift), k)
  }

  /** No decimal with fewer places than that lies between the scaled boundaries, moved inwards. */
  ghost predicate FewestPlaces(v: Deco, places: int)
    requires IsDouble(v)
  {
    FewestOf(ScaledLower(v), ScaledUpper(v), PointOf(v), places)
  }

  ghost predicate FewestOf(lo: int, hi: int, shift: nat, places: int) {
    0 <= lo <= hi && Fewest(-places, Pow2(shift), lo, hi)
  }

  /** No decimal with as many places, between the scaled boundaries, is closer to the scaled number than the digits. */
  ghost predicate NearestPlaces(v: Deco, digits: seq<nat>, places: int)
    requires IsDouble(v)
  {
    NearestOf(ScaledLower(v), ScaledUpper(v), ScaledNumber(v), PointOf(v), digits, places)
  }

  ghost predicate NearestOf(lo: int, hi: int, number: int, shift: nat, digits: seq<nat>, places: int) {
    0 <= lo <= number <= hi && Nearest(digits, -places, Pow2(shift), lo, hi, number)
  }

  /** Scaling leaves room for digits, within 64 bits. */
  lemma ScaledFits(v: Deco)
    requires IsDouble(v)
    ensures 0 < ScaledLower(v) < ScaledUpper(v) < TWO64 && ScaledUpper(v) >= 0x1000_0000_0000_0000
    ensures Normalize(v).exp == Upper(v).exp && ScaledLower(v) <= ScaledNumber(v) <= ScaledUpper(v)
  {
    NumberBetween(v);
    var index := IndexFor(v);
    ScaledFit(Lower(v).mant, Normalize(v).mant, Upper(v).mant, PowerFor(v).0.mant);
  }

  method ScaleDouble(v: Deco) returns (lo: int, hi: int, number: int, shift: int, exp10: int)
    requires IsDouble(v)
    ensures lo == ScaledLower(v) && hi == ScaledUpper(v) && shift == PointOf(v) && exp10 == PowerFor(v).1
    ensures 0 < lo < hi < TWO64 && hi >= 0x1000_0000_0000_0000 && number == ScaledNumber(v) && lo <= number <= hi
  {
    ScaledFits(v);
    ghost var index := IndexFor(v);
    var w_m, w_p := NormalizedBoundaries(v);
    var c := GetCachedPower(w_p.exp);
    var W, Wp, Wm := Multiply(Normalize(v), c.0), Multiply(w_p, c.0), Multiply(w_m, c.0);
    lo, hi, number, shift, exp10 := Wm.mant + 1, Wp.mant - 1, W.mant, -Wp.exp, c.1;
  }

  /** Grisu2: the digits and the exponent of ten of a double. They stand for a decimal strictly between the points
      half way to its neighbours: read back, it is that double. No decimal with a larger exponent lies between the
      boundaries it was looked for in. places is how many decimals there are where rounding looks up its power of ten;
      as long as it has one, the digits are the closest to the number that there are with so many. */
  method Grisu2(v: Deco, beyond: nat -> nat) returns (digits: seq<nat>, exp: int, ghost places: int)
    requires v.mant == 0 || IsDouble(v)
    ensures v.mant == 0 ==> digits == [0] && exp == 0
    ensures v.mant > 0 ==> Proper(digits) && ReadsBack(TwoTo, TenTo, v, digits, exp)
    ensures v.mant > 0 ==> exp == PowerFor(v).1 - places && (places > 9 <==> ReadsBeyondTable(v))
    ensures v.mant > 0 ==> FewestPlaces(v, places) && (places <= 9 ==> NearestPlaces(v, digits, places))
  {
    if v.mant == 0 {
      return [0], 0, 0;
    }
    var exp10;
    digits, exp, exp10 := GenerateScaled(v, beyond);
    places := 0 - exp;
    RealReadsBack(v, digits, exp, exp + exp10);
    exp := exp + exp10;
  }

  lemma RealReadsBack(v: Deco, digits: seq<nat>, scaled: int, exp: int)
    requires IsDouble(v) && 0 < ScaledLower(v) < ScaledUpper(v) && exp == scaled + PowerFor(v).1
    requires Between(digits, scaled, Pow2(PointOf(v)), ScaledLower(v), ScaledUpper(v))
    ensures ReadsBack(TwoTo, TenTo, v, digits, exp)
  {
    TwoToIsGeometric();
    TenToIsGeometric();
    ScaledReadsBack(TwoTo, TenTo, v, digits, scaled);
  }

  /** The digits of the scaled number, and the exponent of ten that the scale takes off. */
  method GenerateScaled(v: Deco, beyond: nat -> nat) returns (digits: seq<nat>, exp: int, exp10: int)
    requires IsDouble(v)
    ensures Proper(digits) && exp10 == PowerFor(v).1 && 0 < ScaledLower(v) < ScaledUpper(v)
    ensures Between(digits, exp, Pow2(PointOf(v)), ScaledLower(v), ScaledUpper(v))
    ensures exp < -9 <==> ReadsBeyondTable(v)
    ensures FewestPlaces(v, 0 - exp) && (exp >= -9 ==> NearestPlaces(v, digits, 0 - exp))
  {
    var lo, hi, number, shift;
    lo, hi, number, shift, exp10 := ScaleDouble(v);
    Pow2Of60(shift);
    digits, exp := Generate(hi, lo, number, shift, beyond);
    BeyondTable(lo, hi, Pow2(shift), exp);
  }

  lemma ScaledReadsBack(two: Powers, ten: Powers, v: Deco, digits: seq<nat>, exp: int)
    requires Geometric(two, 2.0) && Geometric(ten, 10.0) && IsDouble(v) && 0 < ScaledLower(v) < ScaledUpper(v)
    requires Between(digits, exp, Pow2(PointOf(v)), ScaledLower(v), ScaledUpper(v))
    ensures ReadsBack(two, ten, v, digits, exp + PowerFor(v).1)
  {
    PowerForIsClose(two, ten, v);
    GeneratedReadsBack(two, ten, v, Lower(v), Upper(v), PowerFor(v).0, -PowerFor(v).1, digits, exp, Pow2(PointOf(v)));
    assert exp - -PowerFor(v).1 == exp + PowerFor(v).1;
  }

  lemma Pow2Of60(shift: nat)
    requires shift <= 60
    ensures 0 < Pow2(shift) <= 0x1000_0000_0000_0000
  {
    Pow2Of63();
    Pow2Sum(60, 3);
    assert Pow2(3) == 8;
    Pow2Monotone(shift, 60);
  }

  /** That happens for a third: its digits go twelve places behind the point. */
  lemma OneThirdReadsBeyondTable()
    ensures IsDouble(THIRD) && ReadsBeyondTable(THIRD)
    ensures Stops(ScaledLower(THIRD), ScaledUpper(THIRD), Pow2(PointOf(THIRD)), 12)
  {
    ThirdScaled();
    Pow2Of51();
    ThirdGoesOn(7505999378950825626, 7505999378950826874, 2251799813685248);
  }

  /** The double 1/3. */
  const THIRD := Deco(6004799503160661, -54)

  lemma ThirdScaled()
    ensures IsDouble(THIRD)
    ensures ScaledLower(THIRD) == 7505999378950825626 && ScaledUpper(THIRD) == 7505999378950826874 && PointOf(THIRD) == 51
  {
    ThirdBoundaries();
    assert DecimalExponent(-65) == 349;
    assert Cached(44).power == Deco(11258999068426240000, -50);
    assert PowerFor(THIRD) == (Deco(11258999068426240000, -50), -4);
  }

  lemma ThirdBoundaries()
    ensures Upper(THIRD) == Deco(12297829382473034752, -65) && Lower(THIRD) == Deco(12297829382473032704, -65)
  {
    BitLengthIs(12009599006321323, 54);
    assert Pow2(10) == 1024;
  }

  lemma BitLengthIs(n: nat, k: nat)
    requires n == 12009599006321323 && k == 54
    ensures BitLength(n) == k
  {
    Pow2Of51();
    assert Pow2(2) == 4 && Pow2(3) == 8;
    Pow2Sum(51, 2);
    Pow2Sum(51, 3);
    BitLengthFits(n, 54);
    BitLengthBounds(n);
    if BitLength(n) < 54 {
      Pow2Monotone(BitLength(n), 53);
    }
  }

  lemma Pow2Of51()
    ensures Pow2(51) == 2251799813685248
  {
    assert Pow2(8) == 256 && Pow2(9) == 512;
    Pow2Sum(8, 9);
    Pow2Sum(17, 17);
    Pow2Sum(34, 17);
  }

  lemma ThirdGoesOn(lo: nat, hi: nat, one: nat)
    requires lo == 7505999378950825626 && hi == 7505999378950826874 && one == 2251799813685248
    ensures Stops(lo, hi, one, 12) && forall k :: 0 <= k <= 9 ==> !Stops(lo, hi, one, k)
  {
    PowersOfTen();
    forall k | 0 <= k <= 9 ensures !Stops(lo, hi, one, k) {
      if k <= 4 {
        assert k == 0 || k == 1 || k == 2 || k == 3 || k == 4;
      } else {
        assert k == 5 || k == 6 || k == 7 || k == 8 || k == 9;
      }
    }
  }

  lemma PowersOfTen()
    ensures Pow10(0) == 1 && Pow10(1) == 10 && Pow10(2) == 100 && Pow10(3) == 1000 && Pow10(4) == 10000
    ensures Pow10(5) == 100000 && Pow10(6) == 1000000 && Pow10(7) == 10000000 && Pow10(8) == 100000000
    ensures Pow10(9) == 1000000000 && Pow10(12) == 1000000000000
  {
  }
}
