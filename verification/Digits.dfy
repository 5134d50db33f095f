/** StrNum: the digits of a number in a radix, and the number read back from text. */
module Digits {
  import opened Arith

  type Char = int

  function Power(r: nat, n: nat): (p: nat) {
    if n == 0 then 1 else r * Power(r, n - 1)
  }

  lemma {:induction false} PowerPositive(r: nat, n: nat)
    requires r > 0
    ensures Power(r, n) >= 1
    ensures n > 0 ==> Power(r, n) >= r
  {
    if n > 0 {
      PowerPositive(r, n - 1);
      MulMonotone(1, Power(r, n - 1), r);
    }
  }

  /** The number that digits stand for, the first one the most significant. */
  function ValueOf(digits: seq<nat>, r: nat): nat {
    if digits == [] then 0 else ValueOf(digits[..|digits| - 1], r) * r + digits[|digits| - 1]
  }

  // ----- ULtoARev

  /** The lowest n digits of v, without leading zeros. */
  function DigitsOf(v: nat, r: nat, n: nat): (digits: seq<nat>)
    requires r >= 2
    ensures |digits| <= n && forall i :: 0 <= i < |digits| ==> digits[i] < r
    decreases n
  {
    if n == 0 then [] else (if v / r == 0 then [] else DigitsOf(v / r, r, n - 1)) + [v % r]
  }

  function DigitChar(d: nat, a: Char): Char { d + if d < 10 then '0' as int else a - 10 }

  function Chars(digits: seq<nat>, a: Char): (text: seq<Char>)
    ensures |text| == |digits|
  {
    seq(|digits|, i requires 0 <= i < |digits| => DigitChar(digits[i], a))
  }

  /** Radixes below 2 mean 10. */
  function RadixOf(radix: int): nat { if radix < 2 then 10 else radix }

  /** The digits end just before the terminator, which is one place beyond the width. */
  method ULtoARev(val: nat, out: array<Char>, width: nat, radix: int, a: Char) returns (start: nat)
    requires 0 < width < out.Length && radix <= 36
    modifies out
    ensures start <= width && out[width] == 0
    ensures Placed(out[..], old(out[..]), start, width, Chars(DigitsOf(val, RadixOf(radix), width), a))
  {
    var r := RadixOf(radix);
    out[width] := 0;
    start := width;
    var v := val;
    ghost var digits: seq<nat> := [];
    while true
      invariant start <= width && out[width] == 0 && Placed(out[..], old(out[..]), start, width, Chars(digits, a))
      invariant DigitsOf(val, r, width) == DigitsOf(v, r, start) + digits
      decreases start
    {
      if start <= 0 {
        break;
      }
      var d := v % r;
      CharsNext(d, digits, a);
      DigitsNext(v, r, start, digits);
      PlacedNext(out[..], old(out[..]), start, width, Chars(digits, a), DigitChar(d, a));
      start := start - 1;
      out[start] := DigitChar(d, a);
      digits := [d] + digits;
      v := v / r;
      if v == 0 {
        break;
      }
    }
  }

  /** The block holds text from start to width, and what it held before elsewhere. */
  ghost predicate Placed(now: seq<Char>, was: seq<Char>, start: nat, width: nat, text: seq<Char>) {
    && start <= width < |now| == |was|
    && now[start..width] == text && now[..start] == was[..start] && now[width + 1..] == was[width + 1..]
  }

  lemma CharsNext(d: nat, digits: seq<nat>, a: Char)
    ensures Chars([d] + digits, a) == [DigitChar(d, a)] + Chars(digits, a)
  {
  }

  lemma PlacedNext(now: seq<Char>, was: seq<Char>, start: nat, width: nat, text: seq<Char>, c: Char)
    requires Placed(now, was, start, width, text) && start > 0
    ensures Placed(now[start - 1 := c], was, start - 1, width, [c] + text)
  {
    var next := now[start - 1 := c];
    assert next[start - 1..width] == [c] + now[start..width];
    assert next[..start - 1] == now[..start][..start - 1];
  }

  lemma DigitsNext(v: nat, r: nat, n: nat, digits: seq<nat>)
    requires r >= 2 && n > 0
    ensures v % r >= 0 && v / r >= 0
    ensures DigitsOf(v, r, n) + digits == (if v / r == 0 then [] else DigitsOf(v / r, r, n - 1)) + ([v % r] + digits)
  {
  }

  /** One digit more at the end of the number. */
  lemma AppendDigit(v: nat, r: nat, p: nat)
    requires r >= 2 && p >= 1
    ensures v % (p * r) == (v / r % p) * r + v % r
  {
    var q, m := v / r, v % r;
    var k, t := q / p, q % p;
    assert q * r + m == v;
    assert k * p + t == q;
    assert k * (p * r) + (t * r + m) == (k * p + t) * r + m;
    MulMonotone(t + 1, p, r);
    assert (t + 1) * r == t * r + r;
    MulMonotone(0, t, r);
    DivModUnique(v, k, t * r + m, p * r);
  }

  lemma PowerNext(r: nat, n: nat)
    requires n > 0
    ensures Power(r, n) == Power(r, n - 1) * r
  {
  }

  lemma Quotient(v: nat, r: nat, p: nat)
    requires r >= 1
    ensures v / r >= 0 && 0 <= v % r < r && v / r * r + v % r == v
    ensures v < p * r <==> v / r < p
    ensures v / r == 0 ==> v % r == v && v < r
  {
    var q, m := v / r, v % r;
    assert q * r + m == v;
    if q < p {
      MulMonotone(q + 1, p, r);
      assert (q + 1) * r == q * r + r;
    } else {
      MulMonotone(p, q, r);
    }
  }

  /** The digits stand for the value cut to that many places. */
  lemma {:induction false} DigitsStandFor(v: nat, r: nat, n: nat)
    requires r >= 2
    ensures Power(r, n) >= 1 && ValueOf(DigitsOf(v, r, n), r) == v % Power(r, n)
    decreases n
  {
    PowerPositive(r, n);
    Quotient(v, r, 1);
    if n > 0 && v / r == 0 {
      ModSmall(v, Power(r, n));
      OneDigit(v, r, n);
    } else if n > 0 {
      PowerNext(r, n);
      DigitsStandFor(v / r, r, n - 1);
      AppendDigit(v, r, Power(r, n - 1));
      ValueOfAppend(DigitsOf(v / r, r, n - 1), v % r, r);
    }
  }

  lemma OneDigit(v: nat, r: nat, n: nat)
    requires r >= 2 && n > 0 && v / r == 0
    ensures DigitsOf(v, r, n) == [v] && ValueOf([v], r) == v
  {
    Quotient(v, r, 1);
    assert DigitsOf(v, r, n) == [] + [v % r];
    assert [v][..0] == [];
  }

  lemma ValueOfAppend(front: seq<nat>, d: nat, r: nat)
    ensures ValueOf(front + [d], r) == ValueOf(front, r) * r + d
  {
    assert (front + [d])[..|front|] == front;
  }

  /** A value that fits is written in full, without leading zeros except in the single digit of zero. */
  lemma DigitsOfFitting(v: nat, r: nat, n: nat)
    requires r >= 2 && n > 0 && v < Power(r, n)
    ensures var d := DigitsOf(v, r, n);
            ValueOf(d, r) == v && d != [] && (d[0] == 0 <==> v == 0) && (v == 0 ==> d == [0])
  {
    DigitsStandFor(v, r, n);
    ModSmall(v, Power(r, n));
    NoLeadingZero(v, r, n);
  }

  lemma {:induction false} NoLeadingZero(v: nat, r: nat, n: nat)
    requires r >= 2 && n > 0 && v < Power(r, n)
    ensures var d := DigitsOf(v, r, n); d != [] && (d[0] == 0 <==> v == 0) && (v == 0 ==> d == [0])
    decreases n
  {
    Quotient(v, r, 1);
    if v / r == 0 {
      assert DigitsOf(v, r, n) == [v];
    } else {
      PowerNext(r, n);
      Quotient(v, r, Power(r, n - 1));
      NoLeadingZero(v / r, r, n - 1);
      assert DigitsOf(v, r, n) == DigitsOf(v / r, r, n - 1) + [v % r];
      Quotient(0, r, 1);
    }
  }

  // ----- toUL

  /** The text up to its terminator; reading at its end gives the terminator. */
  function At(text: seq<Char>, i: nat): Char { if i < |text| then text[i] else 0 }

  /** StrChar::Radix2U */
  function CharValue(c: Char): nat {
    if '0' as int <= c <= '9' as int then c - '0' as int
    else if 'A' as int <= c <= 'Z' as int then c - 'A' as int + 10
    else if 'a' as int <= c <= 'z' as int then c - 'a' as int + 10
    else 37
  }

  /** The digits of a radix that stand at i and after it. */
  function DigitRun(text: seq<Char>, i: nat, r: nat): (digits: seq<nat>)
    ensures i + |digits| <= |text| || digits == []
    decreases |text| - i
  {
    if i < |text| && CharValue(text[i]) < r then [CharValue(text[i])] + DigitRun(text, i + 1, r) else []
  }

  function IsSpace(c: Char): bool { c == 9 || c == 32 }

  function AfterSpace(text: seq<Char>, i: nat): (j: nat)
    ensures i <= j
    decreases |text| - i
  {
    if i < |text| && i < 15000 && IsSpace(text[i]) then AfterSpace(text, i + 1) else i
  }

  datatype Start = Start(radix: nat, at: nat)

  /** What radix the number is in and where its digits begin: 0x is hexadecimal, and without a radix so is
      any leading 0. */
  function StartOf(text: seq<Char>, radix: int): Start {
    var i := AfterSpace(text, 0);
    if At(text, i) == '0' as int then
      if At(text, i + 1) == 'X' as int || At(text, i + 1) == 'x' as int then Start(16, i + 2)
      else if radix < 2 then Start(16, i + 1)
      else Start(radix, i)
    else Start(RadixOf(radix), i)
  }

  lemma HornerWraps(v: nat, r: nat, d: nat)
    ensures (v % TWO64 * r + d) % TWO64 == (v * r + d) % TWO64
  {
    var q, m := v / TWO64, v % TWO64;
    var x := m * r + d;
    var k, t := x / TWO64, x % TWO64;
    assert v == q * TWO64 + m;
    assert v * r == q * r * TWO64 + m * r;
    assert v * r + d == (q * r + k) * TWO64 + t;
    DivModUnique(v * r + d, q * r + k, t, TWO64);
  }

  /** The value of the digits that follow, cut to 64 bits, and where they end. */
  method ToUL(text: seq<Char>, radix: int) returns (val: nat, end: nat)
    requires radix <= 36
    ensures var s := StartOf(text, radix);
            var run := DigitRun(text, s.at, s.radix);
            val == ValueOf(run, s.radix) % TWO64 && end == s.at + |run|
  {
    var flexible, r := radix < 2, RadixOf(radix);
    var at := GetNonWhitespace(text);
    if At(text, at) == '0' as int {
      var c := At(text, at + 1);
      if c == 'X' as int || c == 'x' as int {
        r := 16;
        at := at + 2;
      } else if flexible {
        r := 16;
        at := at + 1;
      }
    }
    assert StartOf(text, radix) == Start(r, at);
    val, end := ReadDigits(text, at, r);
  }

  method GetNonWhitespace(text: seq<Char>) returns (i: nat)
    ensures i == AfterSpace(text, 0)
  {
    i := 0;
    while i < |text| && i < 15000 && IsSpace(text[i])
      invariant AfterSpace(text, i) == AfterSpace(text, 0)
    {
      i := i + 1;
    }
  }

  /** The loop of toUL. */
  method ReadDigits(text: seq<Char>, at: nat, r: nat) returns (val: nat, end: nat)
    requires r <= 36
    ensures var run := DigitRun(text, at, r); val == ValueOf(run, r) % TWO64 && end == at + |run|
  {
    ghost var done: seq<nat> := [];
    val, end := 0, at;
    while CharValue(At(text, end)) < r
      invariant end == at + |done| && val == ValueOf(done, r) % TWO64
      invariant DigitRun(text, at, r) == done + DigitRun(text, end, r)
      decreases |text| - end
    {
      var d := CharValue(At(text, end));
      HornerWraps(ValueOf(done, r), r, d);
      ValueOfAppend(done, d, r);
      RunNext(text, end, r, done);
      val := (val * r + d) % TWO64;
      done := done + [d];
      end := end + 1;
    }
    assert done + [] == done;
  }

  lemma RunNext(text: seq<Char>, i: nat, r: nat, done: seq<nat>)
    requires r <= 36 && CharValue(At(text, i)) < r
    ensures i < |text|
    ensures done + DigitRun(text, i, r) == done + [CharValue(text[i])] + DigitRun(text, i + 1, r)
  {
  }

  /** The digits of a text are read back as they were written. */
  lemma {:induction false} RunReadsDigits(pre: seq<Char>, digits: seq<nat>, r: nat, a: Char)
    requires r <= 36 && a in {'A' as int, 'a' as int} && forall i :: 0 <= i < |digits| ==> digits[i] < r
    ensures DigitRun(pre + Chars(digits, a), |pre|, r) == digits
    decreases |digits|
  {
    var text := pre + Chars(digits, a);
    if digits != [] {
      var c := DigitChar(digits[0], a);
      assert CharValue(c) == digits[0];
      RunReadsDigits(pre + [c], digits[1..], r, a);
      assert text == pre + [c] + Chars(digits[1..], a);
    }
  }

  lemma StartOfDigits(digits: seq<nat>, r: nat, a: Char)
    requires 2 <= r <= 36 && a in {'A' as int, 'a' as int} && digits != [] && digits[0] < 36
    requires digits[0] == 0 ==> digits == [0]
    ensures StartOf(Chars(digits, a), r) == Start(r, 0)
  {
    var text := Chars(digits, a);
    assert text[0] == DigitChar(digits[0], a) && text[0] >= '0' as int;
    assert AfterSpace(text, 0) == 0;
  }

  /** Reading back what ULtoARev wrote gives the value, to the end of the text. */
  lemma RoundTrip(v: nat, r: nat, n: nat, a: Char)
    requires 2 <= r <= 36 && n > 0 && v < Power(r, n) && a in {'A' as int, 'a' as int}
    ensures var text := Chars(DigitsOf(v, r, n), a);
            && StartOf(text, r) == Start(r, 0)
            && |DigitRun(text, 0, r)| == |text| && ValueOf(DigitRun(text, 0, r), r) == v
  {
    var digits := DigitsOf(v, r, n);
    DigitsOfFitting(v, r, n);
    StartOfDigits(digits, r, a);
    RunReadsDigits([], digits, r, a);
    assert [] + Chars(digits, a) == Chars(digits, a);
  }

  /** A hexadecimal number with a leading 0, as ULtoA writes it, is read back without naming a radix. */
  lemma HexRoundTrip(v: nat, n: nat, a: Char)
    requires n > 0 && 0 < v < Power(16, n) && a in {'A' as int, 'a' as int}
    ensures var text := ['0' as int] + Chars(DigitsOf(v, 16, n), a);
            && StartOf(text, 0) == Start(16, 1)
            && 1 + |DigitRun(text, 1, 16)| == |text| && ValueOf(DigitRun(text, 1, 16), 16) == v
  {
    var digits := DigitsOf(v, 16, n);
    DigitsOfFitting(v, 16, n);
    StartOfHex(digits, a);
    RunReadsDigits(['0' as int], digits, 16, a);
  }

  lemma StartOfHex(digits: seq<nat>, a: Char)
    requires a in {'A' as int, 'a' as int} && digits != [] && digits[0] < 16
    ensures StartOf(['0' as int] + Chars(digits, a), 0) == Start(16, 1)
  {
    var text := ['0' as int] + Chars(digits, a);
    assert text[1] == DigitChar(digits[0], a);
    assert AfterSpace(text, 0) == 0;
  }

  /** The digit of a run that stands at place k of it. */
  ghost predicate RunAt(text: seq<Char>, i: nat, run: seq<nat>, k: nat, r: nat)
    requires k < |run|
  {
    i + k < |text| && run[k] == CharValue(text[i + k]) < r
  }

  /** What is read is the longest run of digits there is. */
  lemma {:induction false} RunIsLongest(text: seq<Char>, i: nat, r: nat)
    requires r <= 36
    ensures var run := DigitRun(text, i, r);
            (forall k :: 0 <= k < |run| ==> RunAt(text, i, run, k, r)) && CharValue(At(text, i + |run|)) >= r
    decreases |text| - i
  {
    var run := DigitRun(text, i, r);
    if i < |text| && CharValue(text[i]) < r {
      RunIsLongest(text, i + 1, r);
      var rest := DigitRun(text, i + 1, r);
      assert run == [CharValue(text[i])] + rest && i + |run| == i + 1 + |rest|;
      forall k | 0 <= k < |run| ensures RunAt(text, i, run, k, r) {
        assert k > 0 ==> RunAt(text, i + 1, rest, k - 1, r);
      }
    }
  }

  /** Tabs and spaces before a number are skipped. */
  lemma {:induction false} SpaceIsSkipped(space: seq<Char>, text: seq<Char>, i: nat)
    requires i <= |space| < 15000 && (forall k :: 0 <= k < |space| ==> space[k] == 9 || space[k] == 32)
    requires text != [] && text[0] != 9 && text[0] != 32
    ensures AfterSpace(space + text, i) == |space|
    decreases |space| - i
  {
    if i < |space| {
      SpaceIsSkipped(space, text, i + 1);
    }
  }

  /** A decimal number, with any tabs and spaces before it, is read back without naming a radix. */
  lemma DecimalRoundTrip(v: nat, n: nat, a: Char, space: seq<Char>)
    requires n > 0 && v < Power(10, n) && a in {'A' as int, 'a' as int}
    requires |space| < 15000 && (forall k :: 0 <= k < |space| ==> space[k] == 9 || space[k] == 32)
    ensures var text := space + Chars(DigitsOf(v, 10, n), a);
            var s := StartOf(text, 0);
            var run := DigitRun(text, s.at, s.radix);
            ValueOf(run, s.radix) == v && s.at + |run| == |text| && (v > 0 ==> s == Start(10, |space|))
  {
    var digits := DigitsOf(v, 10, n);
    var text := space + Chars(digits, a);
    DigitsOfFitting(v, 10, n);
    assert Chars(digits, a)[0] == DigitChar(digits[0], a);
    SpaceIsSkipped(space, Chars(digits, a), 0);
    assert text[|space|] == DigitChar(digits[0], a);
    if digits[0] == 0 {
      assert digits == [0] && text == space + ['0' as int];
    } else {
      RunReadsDigits(space, digits, 10, a);
    }
  }
}
