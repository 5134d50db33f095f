/** cFloatDeco::Grisu2: decimal digits for a double that lie between the boundaries of the double. */
module Grisu {
  import opened Arith
  import opened FloatDeco
  import opened Digits

  function Pow10(k: nat): (p: nat)
    ensures p >= 1
  {
    PowerPositive(10, k);
    Power(10, k)
  }

  /** GetCountDecimalDigit32 */
  function CountDecimalDigit32(n: nat): (k: nat)
    requires n < TWO32
    ensures 1 <= k <= 10 && n < Pow10(k) && (Pow10(k - 1) <= n || (n == 0 && k == 1))
  {
    assert Pow10(1) == 10 && Pow10(2) == 100 && Pow10(3) == 1000;
    assert Pow10(4) == 10000 && Pow10(5) == 100000 && Pow10(6) == 1000000;
    assert Pow10(7) == 10000000 && Pow10(8) == 100000000;
    assert Pow10(9) == 1000000000 && Pow10(10) == 10000000000;
    if n < 10 then 1
    else if n < 100 then 2
    else if n < 1000 then 3
    else if n < 10000 then 4
    else if n < 100000 then 5
    else if n < 1000000 then 6
    else if n < 10000000 then 7
    else if n < 100000000 then 8
    else if n < 1000000000 then 9
    else 10
  }

  /** Decimal digits, the first of them not zero. */
  predicate Proper(digits: seq<nat>) {
    digits != [] && digits[0] != 0 && forall i :: 0 <= i < |digits| ==> digits[i] < 10
  }

  /** The digits count units and leave rest of a total. */
  ghost predicate Leaves(digits: seq<nat>, unit: nat, rest: nat, total: nat) {
    ValueOf(digits, 10) * unit + rest == total
  }

  lemma LessOne(digits: seq<nat>, unit: nat, rest: nat, total: nat)
    requires digits != [] && digits[|digits| - 1] > 0 && Leaves(digits, unit, rest, total)
    ensures Leaves(digits[|digits| - 1 := digits[|digits| - 1] - 1], unit, rest + unit, total)
  {
    var n := |digits| - 1;
    var less := digits[n := digits[n] - 1];
    assert less[..n] == digits[..n];
    assert ValueOf(less, 10) == ValueOf(digits, 10) - 1;
  }

  /** The last digit may be lowered as long as what is left does not exceed delta. */
  ghost predicate Roundable(digits: seq<nat>, unit: nat, rest: nat, delta: nat, total: nat) {
    && Proper(digits) && Leaves(digits, unit, rest, total) && unit > 0
    && delta <= digits[|digits| - 1] * unit + rest && (|digits| == 1 ==> delta < digits[|digits| - 1] * unit + rest)
  }

  function Apart(x: nat, y: nat): nat { if x < y then y - x else x - y }

  /** n units leave no more than delta of the total. */
  predicate Fits(n: nat, unit: nat, delta: nat, total: nat) { 0 <= total - n * unit <= delta }

  /** Of all whole numbers of units that leave no more than delta, v leaves what is closest to aim. */
  ghost predicate Closest(v: nat, unit: nat, delta: nat, total: nat, aim: nat) {
    && v * unit <= total
    && forall n: nat :: Fits(n, unit, delta, total) ==> Apart(total - v * unit, aim) <= Apart(total - n * unit, aim)
  }

  /** Where lowering stops: what came before was farther off, and what comes next is no closer. */
  lemma StopsClosest(v: nat, unit: nat, left: nat, rest: nat, delta: nat, total: nat, aim: nat)
    requires v * unit + left == total && rest < unit && rest <= left <= delta
    requires left == rest || (left >= unit && left - unit < aim && Apart(left, aim) < Apart(left - unit, aim))
    requires !(left < aim && delta - left >= unit && (left + unit < aim || aim - left > left + unit - aim))
    ensures Closest(v, unit, delta, total, aim)
  {
    forall n: nat | Fits(n, unit, delta, total) ensures Apart(left, aim) <= Apart(total - n * unit, aim) {
      if n < v {
        MulMonotone(n + 1, v, unit);
        assert (n + 1) * unit == n * unit + unit;
      } else if n > v {
        MulMonotone(v + 1, n, unit);
        assert (v + 1) * unit == v * unit + unit;
      }
    }
  }

  /** GrisuRound lowers the last digit while that gets closer to the number and stays above the lower boundary: the
      digits are then the closest there are. */
  method GrisuRound(digits: seq<nat>, delta: nat, rest: nat, unit: nat, aim: nat, ghost total: nat)
    returns (rounded: seq<nat>, ghost left: nat)
    requires Roundable(digits, unit, rest, delta, total) && rest <= delta && rest < unit
    ensures Closest(ValueOf(rounded, 10), unit, delta, total, aim)
    ensures Proper(rounded) && |rounded| == |digits| && Leaves(rounded, unit, left, total) && rest <= left <= delta
    ensures left == rest || Apart(left, aim) < Apart(rest, aim)
    ensures left + unit <= delta ==> Apart(left, aim) <= Apart(left + unit, aim)
  {
    rounded, left := digits, rest;
    var used := rest;
    var n := |digits| - 1;
    while used < aim && delta - used >= unit && (used + unit < aim || aim - used > used + unit - aim)
      invariant |rounded| == |digits| && rest <= used == left <= delta && Roundable(rounded, unit, left, delta, total)
      invariant left == rest || Apart(left, aim) < Apart(rest, aim)
      invariant left == rest || (left >= unit && left - unit < aim && Apart(left, aim) < Apart(left - unit, aim))
      decreases delta - used
    {
      CanLower(rounded[n], unit, used, delta);
      LessOne(rounded, unit, left, total);
      rounded := rounded[n := rounded[n] - 1];
      used, left := used + unit, left + unit;
    }
    StopsClosest(ValueOf(rounded, 10), unit, left, rest, delta, total, aim);
  }

  lemma CanLower(d: nat, unit: nat, used: nat, delta: nat)
    requires unit > 0 && used + unit <= delta <= d * unit + used
    ensures d >= 1 && d * unit == (d - 1) * unit + unit
    ensures delta < d * unit + used ==> d >= 2
  {
    if d == 1 {
      assert d * unit == unit;
    }
  }

  /** What is left of hi once j places behind the point are written, in units of 10^-j. */
  function LeftAt(hi: nat, one: nat, j: nat): (left: nat)
    requires one > 0
    ensures left < one
  {
    Quotient(hi * Pow10(j), one, 1);
    hi * Pow10(j) % one
  }

  /** The digits may end after j places behind the point. */
  predicate Stops(lo: nat, hi: nat, one: nat, j: nat)
    requires one > 0 && lo <= hi
  {
    if j == 0 then LeftAt(hi, one, 0) <= hi - lo else LeftAt(hi, one, j) < (hi - lo) * Pow10(j)
  }

  lemma LeavesAt(digits: seq<nat>, one: nat, rest: nat, hi: nat, j: nat)
    requires rest < one && Leaves(digits, one, rest, hi * Pow10(j))
    ensures LeftAt(hi, one, j) == rest
  {
    DivModUnique(hi * Pow10(j), ValueOf(digits, 10), rest, one);
  }

  /** The decimal digits * 10^exp, in units of 1/one, lie between the boundaries. */
  ghost predicate Between(digits: seq<nat>, exp: int, one: nat, lo: nat, hi: nat) {
    Lies(ValueOf(digits, 10), exp, one, lo, hi)
  }

  /** n * 10^exp lies between the boundaries. */
  ghost predicate Lies(n: nat, exp: int, one: nat, lo: nat, hi: nat) {
    if exp >= 0 then lo <= n * (Pow10(exp) * one) <= hi else lo * Pow10(-exp) <= n * one <= hi * Pow10(-exp)
  }

  /** How far n * 10^exp is from the number, in units of 1/one, and of 10^exp behind the point. */
  function Off(n: nat, exp: int, one: nat, number: nat): nat {
    if exp >= 0 then Apart(n * (Pow10(exp) * one), number) else Apart(n * one, number * Pow10(-exp))
  }

  /** No decimal with that exponent between the boundaries is closer to the number than the digits. */
  ghost predicate Nearest(digits: seq<nat>, exp: int, one: nat, lo: nat, hi: nat, number: nat) {
    forall n: nat :: Lies(n, exp, one, lo, hi) ==> Off(ValueOf(digits, 10), exp, one, number) <= Off(n, exp, one, number)
  }

  lemma ClosestInteger(digits: seq<nat>, exp: nat, one: nat, lo: nat, hi: nat, number: nat)
    requires lo <= hi && number <= hi && Closest(ValueOf(digits, 10), Pow10(exp) * one, hi - lo, hi, hi - number)
    ensures Nearest(digits, exp, one, lo, hi, number)
  {
    forall n: nat | Lies(n, exp, one, lo, hi)
      ensures Off(ValueOf(digits, 10), exp, one, number) <= Off(n, exp, one, number)
    {
      assert Fits(n, Pow10(exp) * one, hi - lo, hi);
    }
  }

  lemma ClosestFraction(digits: seq<nat>, exp: int, one: nat, lo: nat, hi: nat, number: nat)
    requires exp < 0 && lo <= hi && number <= hi
    requires Closest(ValueOf(digits, 10), one, (hi - lo) * Pow10(-exp), hi * Pow10(-exp), (hi - number) * Pow10(-exp))
    ensures Nearest(digits, exp, one, lo, hi, number)
  {
    var p := Pow10(-exp);
    assert (hi - lo) * p == hi * p - lo * p && (hi - number) * p == hi * p - number * p;
    forall n: nat | Lies(n, exp, one, lo, hi)
      ensures Off(ValueOf(digits, 10), exp, one, number) <= Off(n, exp, one, number)
    {
      assert Fits(n, one, (hi - lo) * p, hi * p);
    }
  }

  /** n * 10^e lies between the boundaries, strictly above the lower one if it has places behind the point. */
  ghost predicate Meets(n: nat, e: int, one: nat, lo: nat, hi: nat) {
    if e >= 0 then lo <= n * (Pow10(e) * one) <= hi else lo * Pow10(-e) < n * one <= hi * Pow10(-e)
  }

  /** No decimal with that exponent lies between. */
  ghost predicate NoDecimal(e: int, one: nat, lo: nat, hi: nat) {
    forall n: nat :: !Meets(n, e, one, lo, hi)
  }

  /** No multiple of unit is above lo and not above hi, if hi leaves at least that much. */
  lemma NoMultiple(v: nat, unit: nat, rest: nat, lo: nat, hi: nat, n: nat)
    requires v * unit + rest == hi && lo <= hi && hi - lo <= rest < unit
    ensures !(lo < n * unit <= hi) && (hi - lo < rest ==> !(lo <= n * unit <= hi))
  {
    if n <= v {
      MulMonotone(n, v, unit);
    } else {
      MulMonotone(v + 1, n, unit);
      assert (v + 1) * unit == v * unit + unit;
    }
  }

  /** A decimal with a larger exponent is one with this exponent as well. */
  lemma NoDecimalAbove(k: nat, one: nat, lo: nat, hi: nat)
    requires NoDecimal(k, one, lo, hi)
    ensures forall e :: e >= k ==> NoDecimal(e, one, lo, hi)
  {
    forall e, n: nat | e >= k ensures !Meets(n, e, one, lo, hi) {
      Pow10Sum(e - k, k);
      Reassociate(n, Pow10(e - k), Pow10(k), one);
      assert !Meets(n * Pow10(e - k), k, one, lo, hi);
    }
  }

  lemma Reassociate(n: nat, p: nat, q: nat, one: nat)
    ensures n * (p * q * one) == (n * p) * (q * one)
  {
    assert p * q * one == p * (q * one);
  }

  lemma {:induction false} Pow10Sum(j: nat, k: nat)
    ensures Pow10(j + k) == Pow10(j) * Pow10(k)
  {
    if j > 0 {
      Pow10Sum(j - 1, k);
      assert Pow10(j + k) == 10 * Pow10(j - 1 + k) && Pow10(j) == 10 * Pow10(j - 1);
    }
  }

  /** As long as digits of the integer part are to be written, none can be left out. */
  lemma IntegerGoesOn(digits: seq<nat>, kappa: nat, p1: nat, p2: nat, one: nat, lo: nat, hi: nat)
    requires InInteger(digits, kappa, p1, p2, one, lo, hi)
    ensures forall e :: e >= kappa ==> NoDecimal(e, one, lo, hi)
  {
    MulMonotone(p1 + 1, Pow10(kappa), one);
    assert (p1 + 1) * one == p1 * one + one;
    forall n: nat ensures !Meets(n, kappa, one, lo, hi) {
      NoMultiple(ValueOf(digits, 10), Pow10(kappa) * one, p1 * one + p2, lo, hi, n);
    }
    NoDecimalAbove(kappa, one, lo, hi);
  }

  /** Where the digits may not end, no decimal with so few places lies between. */
  lemma NotStopped(j: nat, one: nat, lo: nat, hi: nat)
    requires one > 0 && lo <= hi && !Stops(lo, hi, one, j)
    ensures NoDecimal(0 - j, one, lo, hi)
  {
    var p, e := Pow10(j), 0 - j;
    Quotient(hi * p, one, 1);
    MulMonotone(lo, hi, p);
    assert (hi - lo) * p == hi * p - lo * p;
    forall n: nat ensures !Meets(n, e, one, lo, hi) {
      NoMultiple(hi * p / one, one, LeftAt(hi, one, j), lo * p, hi * p, n);
    }
  }

  ghost predicate SomeDecimal(e: int, one: nat, lo: nat, hi: nat) {
    exists n: nat :: Meets(n, e, one, lo, hi)
  }

  /** The digits may end after j places exactly when a decimal with so many lies between the boundaries. */
  lemma StopsMeans(j: nat, one: nat, lo: nat, hi: nat)
    requires one > 0 && lo <= hi
    ensures Stops(lo, hi, one, j) <==> SomeDecimal(0 - j, one, lo, hi)
  {
    var p, e := Pow10(j), 0 - j;
    if Stops(lo, hi, one, j) {
      var n := hi * p / one;
      Quotient(hi * p, one, 1);
      assert Pow10(0) == 1 && (hi - lo) * p == hi * p - lo * p;
      assert Meets(n, e, one, lo, hi);
    } else {
      NotStopped(j, one, lo, hi);
      assert NoDecimal(e, one, lo, hi);
    }
  }

  /** The fewest places: no decimal with a larger exponent lies between. */
  ghost predicate Fewest(exp: int, one: nat, lo: nat, hi: nat) {
    forall e :: e > exp ==> NoDecimal(e, one, lo, hi)
  }

  lemma FractionFewest(exp: int, one: nat, lo: nat, hi: nat)
    requires one > 0 && lo <= hi && exp < 0 && !Stops(lo, hi, one, 0)
    requires forall k :: 0 < k < -exp ==> !Stops(lo, hi, one, k)
    ensures Fewest(exp, one, lo, hi)
  {
    forall e | e > exp ensures NoDecimal(e, one, lo, hi) {
      if e < 0 {
        NotStopped(-e, one, lo, hi);
      } else {
        NotStopped(0, one, lo, hi);
        NoDecimalAbove(0, one, lo, hi);
      }
    }
  }

  /** Where the digits of the integer part stand: p1 and p2 are what is left to write of hi. */
  ghost predicate InInteger(digits: seq<nat>, kappa: nat, p1: nat, p2: nat, one: nat, lo: nat, hi: nat) {
    && lo <= hi && p1 < Pow10(kappa) && p2 < one && p1 * one + p2 > hi - lo
    && Leaves(digits, Pow10(kappa) * one, p1 * one + p2, hi)
    && (if digits == [] then kappa > 0 && p1 >= Pow10(kappa - 1) else Proper(digits))
  }

  /** Taking the next digit of the integer part. */
  lemma IntegerStep(digits: seq<nat>, kappa: nat, p1: nat, p2: nat, one: nat, lo: nat, hi: nat)
    requires kappa > 0 && InInteger(digits, kappa, p1, p2, one, lo, hi)
    ensures var unit := Pow10(kappa - 1);
            var d, rest := p1 / unit, p1 % unit;
            && d >= 0 && rest >= 0
            && Roundable(digits + [d], unit * one, rest * one + p2, hi - lo, hi)
            && (rest * one + p2 > hi - lo ==> InInteger(digits + [d], kappa - 1, rest, p2, one, lo, hi))
  {
    var unit := Pow10(kappa - 1);
    var d, rest := p1 / unit, p1 % unit;
    Quotient(p1, unit, 10);
    if digits == [] {
      Quotient(p1, unit, 1);
    }
    ValueOfAppend(digits, d, 10);
    Regroup(ValueOf(digits, 10), d, unit, rest, one, p2);
    MulMonotone(1, unit, one);
  }

  lemma RestFits(p1: nat, p2: nat, unit: nat, one: nat)
    requires unit > 0 && p2 < one
    ensures p1 % unit >= 0 && (p1 % unit) * one + p2 < unit * one
  {
    MulMonotone(p1 % unit + 1, unit, one);
    assert (p1 % unit + 1) * one == (p1 % unit) * one + one;
  }

  lemma Regroup(v: nat, d: nat, unit: nat, rest: nat, one: nat, p2: nat)
    ensures (v * 10 + d) * (unit * one) + (rest * one + p2) == v * (10 * unit * one) + ((d * unit + rest) * one + p2)
    ensures d * (unit * one) + (rest * one + p2) == (d * unit + rest) * one + p2
  {
    var u := unit * one;
    assert (d * unit + rest) * one == d * unit * one + rest * one;
    assert d * unit * one == d * u;
    assert (v * 10 + d) * u == v * (10 * u) + d * u;
  }

  /** The digits of the integer part, down to the place where what is left is within the boundaries. */
  method IntegerDigits(lo: nat, hi: nat, one: nat, aim: nat) returns (digits: seq<nat>, kappa: nat, done: bool)
    requires 0 < lo < hi && 0 < one <= hi && hi / one < TWO32
    ensures done <==> Stops(lo, hi, one, 0)
    ensures if done then Proper(digits) && Between(digits, kappa, one, lo, hi) && Fewest(kappa, one, lo, hi)
                         && Closest(ValueOf(digits, 10), Pow10(kappa) * one, hi - lo, hi, aim)
            else InFraction(digits, 0, hi % one, hi - lo, one, lo, hi)
  {
    LeftAtStart(hi, one);
    var p1: nat, p2: nat := hi / one, hi % one;
    kappa := CountDecimalDigit32(p1);
    digits, done := [], false;
    StartInteger(lo, hi, one);
    while kappa > 0
      invariant InInteger(digits, kappa, p1, p2, one, lo, hi) && p2 == hi % one
    {
      var rest;
      RestFits(p1, p2, Pow10(kappa - 1), one);
      IntegerGoesOn(digits, kappa, p1, p2, one, lo, hi);
      digits, p1, rest := IntegerDigit(digits, kappa, p1, p2, one, lo, hi);
      kappa := kappa - 1;
      if rest <= hi - lo {
        ghost var left;
        digits, left := GrisuRound(digits, hi - lo, rest, Pow10(kappa) * one, aim, hi);
        RoundedIsBetween(digits, kappa, one, left, lo, hi);
        done := true;
        return;
      }
    }
    EndInteger(digits, p1, p2, one, lo, hi);
  }

  lemma RoundedIsBetween(digits: seq<nat>, kappa: nat, one: nat, left: nat, lo: nat, hi: nat)
    requires lo <= hi && left <= hi - lo && Leaves(digits, Pow10(kappa) * one, left, hi)
    ensures Between(digits, kappa, one, lo, hi)
  {
  }

  /** One digit of the integer part, and what is left after it. */
  method IntegerDigit(digits: seq<nat>, kappa: nat, p1: nat, p2: nat, one: nat, ghost lo: nat, ghost hi: nat)
    returns (more: seq<nat>, p1': nat, rest: nat)
    requires kappa > 0 && InInteger(digits, kappa, p1, p2, one, lo, hi)
    ensures Roundable(more, Pow10(kappa - 1) * one, rest, hi - lo, hi) && p2 <= rest
    ensures rest > hi - lo ==> InInteger(more, kappa - 1, p1', p2, one, lo, hi)
    ensures p1' == p1 % Pow10(kappa - 1) && rest == p1' * one + p2
  {
    IntegerStep(digits, kappa, p1, p2, one, lo, hi);
    var unit := Pow10(kappa - 1);
    var d := p1 / unit;
    p1' := p1 % unit;
    more := digits;
    if d != 0 || digits != [] {
      more := digits + [d];
    }
    rest := p1' * one + p2;
  }

  lemma LeftAtStart(hi: nat, one: nat)
    requires one > 0
    ensures LeftAt(hi, one, 0) == hi % one
  {
    assert Pow10(0) == 1;
  }

  lemma StartInteger(lo: nat, hi: nat, one: nat)
    requires 0 < lo < hi && 0 < one <= hi && hi / one < TWO32
    ensures hi / one > 0 && hi % one >= 0 && InInteger([], CountDecimalDigit32(hi / one), hi / one, hi % one, one, lo, hi)
  {
    Quotient(hi, one, 1);
  }

  lemma EndInteger(digits: seq<nat>, p1: nat, p2: nat, one: nat, lo: nat, hi: nat)
    requires InInteger(digits, 0, p1, p2, one, lo, hi)
    requires lo < hi
    ensures InFraction(digits, 0, p2, hi - lo, one, lo, hi) && p2 > hi - lo
  {
    assert Pow10(0) == 1 && p1 == 0;
  }

  /** Where the digits of the fraction stand, j places behind the point: all is scaled by 10^j. */
  ghost predicate InFraction(digits: seq<nat>, j: nat, p2: nat, delta: nat, one: nat, lo: nat, hi: nat) {
    && Proper(digits) && 0 < delta <= p2 < one && lo < hi
    && delta == (hi - lo) * Pow10(j) && Leaves(digits, one, p2, hi * Pow10(j))
  }

  lemma FractionStep(digits: seq<nat>, j: nat, p2: nat, delta: nat, one: nat, lo: nat, hi: nat)
    requires InFraction(digits, j, p2, delta, one, lo, hi)
    ensures 10 * p2 / one >= 0 && 0 <= 10 * p2 % one < one
    ensures var d, rest := 10 * p2 / one, 10 * p2 % one;
            && 10 * delta == (hi - lo) * Pow10(j + 1) && Roundable(digits + [d], one, rest, 10 * delta, hi * Pow10(j + 1))
            && (rest >= 10 * delta ==> InFraction(digits + [d], j + 1, rest, 10 * delta, one, lo, hi))
  {
    var d, rest := 10 * p2 / one, 10 * p2 % one;
    Quotient(10 * p2, one, 10);
    ValueOfAppend(digits, d, 10);
    assert Pow10(j + 1) == 10 * Pow10(j);
    TenTimes(ValueOf(digits, 10), d, one, rest, p2, hi, hi - lo, Pow10(j));
  }

  lemma TenTimes(v: nat, d: nat, one: nat, rest: nat, p2: nat, hi: nat, delta: nat, p: nat)
    requires v * one + p2 == hi * p && d * one + rest == 10 * p2
    ensures (v * 10 + d) * one + rest == hi * (10 * p)
    ensures 10 * (delta * p) == delta * (10 * p)
  {
    assert (v * 10 + d) * one == 10 * (v * one) + d * one;
  }

  lemma Within(v: nat, one: nat, left: nat, lo: nat, hi: nat, p: nat)
    requires v * one + left == hi * p && left <= (hi - lo) * p && lo <= hi
    ensures lo * p <= v * one <= hi * p
  {
    assert (hi - lo) * p == hi * p - lo * p;
  }

  /** k_Exp10, which ends at 10^9; what a read beyond it gives is not known. */
  function Exp10(k: nat, beyond: nat -> nat): nat { if k <= 9 then Pow10(k) else beyond(k) }

  /** How far rounding may go after k places of the fraction. */
  function ScaledAim(aim: nat, k: nat, beyond: nat -> nat): nat { Wrap(aim * Exp10(k, beyond)) }

  /** Within the table the aim is exact, and fits. */
  lemma ExactAim(lo: nat, hi: nat, number: nat, k: nat, beyond: nat -> nat)
    requires k <= 9 && lo <= number <= hi && (hi - lo) * Pow10(k) < TWO64
    ensures ScaledAim(hi - number, k, beyond) == (hi - number) * Pow10(k)
  {
    MulMonotone(hi - number, hi - lo, Pow10(k));
    WrapSmall((hi - number) * Pow10(k));
  }

  /** The digits of the fraction, until what is left is within the boundaries: that is at the first place where
      they may end. */
  method FractionDigits(start: seq<nat>, lo: nat, hi: nat, one: nat, aim: nat, beyond: nat -> nat) returns (digits: seq<nat>, exp: int)
    requires 0 < lo < hi && 0 < one && 10 * one <= TWO64 && InFraction(start, 0, hi % one, hi - lo, one, lo, hi)
    ensures Proper(digits) && exp < 0 && Between(digits, exp, one, lo, hi)
    ensures Stops(lo, hi, one, 0 - exp) && forall k :: 0 < k < -exp ==> !Stops(lo, hi, one, k)
    ensures Closest(ValueOf(digits, 10), one, (hi - lo) * Pow10(-exp), hi * Pow10(-exp), ScaledAim(aim, -exp, beyond))
    ensures (hi - lo) * Pow10(-exp) < TWO64
  {
    var p2: nat, delta: nat := hi % one, hi - lo;
    var j: nat := 0;
    digits, exp := start, 0;
    while true
      invariant InFraction(digits, j, p2, delta, one, lo, hi)
      invariant forall k :: 0 < k <= j ==> !Stops(lo, hi, one, k)
      decreases one - delta
    {
      digits, p2, delta := FractionDigit(digits, p2, delta, one, j, lo, hi);
      j := j + 1;
      if p2 < delta {
        ghost var left;
        digits, left := GrisuRound(digits, delta, p2, one, ScaledAim(aim, j, beyond), hi * Pow10(j));
        exp := 0 - j;
        FractionIsBetween(digits, exp, one, left, lo, hi);
        return;
      }
    }
  }

  lemma FractionIsBetween(digits: seq<nat>, exp: int, one: nat, left: nat, lo: nat, hi: nat)
    requires exp < 0 && lo <= hi && left <= (hi - lo) * Pow10(-exp) && Leaves(digits, one, left, hi * Pow10(-exp))
    ensures Between(digits, exp, one, lo, hi)
  {
    Within(ValueOf(digits, 10), one, left, lo, hi, Pow10(-exp));
  }

  /** One digit of the fraction, and what is left after it. */
  method FractionDigit(digits: seq<nat>, p2: nat, delta: nat, one: nat, ghost j: nat, ghost lo: nat, ghost hi: nat)
    returns (more: seq<nat>, p2': nat, delta': nat)
    requires InFraction(digits, j, p2, delta, one, lo, hi) && 10 * one <= TWO64
    ensures delta' == 10 * delta == (hi - lo) * Pow10(j + 1) && Roundable(more, one, p2', delta', hi * Pow10(j + 1))
    ensures p2' >= delta' ==> InFraction(more, j + 1, p2', delta', one, lo, hi)
    ensures (p2' < delta' <==> Stops(lo, hi, one, j + 1)) && p2' < one && delta' < TWO64
  {
    FractionStep(digits, j, p2, delta, one, lo, hi);
    LeavesAt(digits + [10 * p2 / one], one, 10 * p2 % one, hi, j + 1);
    WrapSmall(p2 * 10);
    WrapSmall(delta * 10);
    p2', delta' := Wrap(p2 * 10), Wrap(delta * 10);
    var d := p2' / one;
    more := digits;
    if d != 0 || digits != [] {
      more := digits + [d];
    }
    p2' := p2' % one;
  }

  /** Grisu2 from its boundaries on: hi and lo are those of the scaled number after they were moved inwards
      by one, number is the scaled number, and all three are in units of 2^-shift. The digits and exponent it
      gives lie between the boundaries, whatever is read beyond the table, and no decimal with a larger exponent does. */
  method Generate(hi: nat, lo: nat, number: nat, shift: nat, beyond: nat -> nat) returns (digits: seq<nat>, exp: int)
    requires 32 <= shift <= 60 && Pow2(shift) <= hi < TWO64 && 0 < lo < hi && number <= hi
    ensures Proper(digits) && Between(digits, exp, Pow2(shift), lo, hi)
    ensures Fewest(exp, Pow2(shift), lo, hi)
    ensures lo <= number && exp >= -9 ==> Nearest(digits, exp, Pow2(shift), lo, hi, number)
    ensures exp >= 0 <==> Stops(lo, hi, Pow2(shift), 0)
    ensures exp < 0 ==> Stops(lo, hi, Pow2(shift), 0 - exp) && forall k :: 0 < k < -exp ==> !Stops(lo, hi, Pow2(shift), k)
  {
    ShiftBounds(hi, shift);
    var one := Pow2(shift);
    var aim := hi - number;
    var kappa, done;
    digits, kappa, done := IntegerDigits(lo, hi, one, aim);
    exp := kappa;
    if done {
      ClosestInteger(digits, kappa, one, lo, hi, number);
    } else {
      LeftAtStart(hi, one);
      digits, exp := FractionDigits(digits, lo, hi, one, aim, beyond);
      FractionFewest(exp, one, lo, hi);
      if lo <= number && exp >= -9 {
        ExactAim(lo, hi, number, -exp, beyond);
        ClosestFraction(digits, exp, one, lo, hi, number);
      }
    }
  }

  /** A number of places is read beyond the table of powers of ten exactly when the digits may not end at any
      place the table has. */
  lemma BeyondTable(lo: nat, hi: nat, one: nat, exp: int)
    requires 0 < one && lo <= hi && (exp >= 0 <==> Stops(lo, hi, one, 0))
    requires exp < 0 ==> Stops(lo, hi, one, 0 - exp) && forall k :: 0 < k < -exp ==> !Stops(lo, hi, one, k)
    ensures exp < -9 <==> forall k :: 0 <= k <= 9 ==> !Stops(lo, hi, one, k)
  {
    if -9 <= exp < 0 {
      assert Stops(lo, hi, one, 0 - exp);
    }
  }

  lemma ShiftBounds(hi: nat, shift: nat)
    requires 32 <= shift <= 60 && hi < TWO64
    ensures Pow2(shift) > 0 && 10 * Pow2(shift) <= TWO64 && hi / Pow2(shift) < TWO32
  {
    Pow2Of63();
    Pow2Sum(10, 10);
    Pow2Sum(20, 2);
    Pow2Sum(22, 10);
    Pow2Monotone(32, shift);
    Pow2Monotone(shift, 60);
    Pow2Sum(60, 4);
    Pow2Sum(32, 32);
    assert Pow2(2) == 4 && Pow2(4) == 16;
    MulMonotone(Pow2(32), Pow2(shift), TWO32);
    Quotient(hi, Pow2(shift), TWO32);
  }
}
