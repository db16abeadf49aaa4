/**
 The arithmetic of edfomai-drv-data.c: the 64-bit division that truncates both operands
 to fit a 32-bit divisor, and the priority of a task computed with it.
 */
module Priority {
  import opened Bits

  const U32: nat := 0x1_0000_0000
  const U64: nat := 0x1_0000_0000_0000_0000
  const MAXPRIO: nat := 50
  const MINPRIO: nat := 0

  /** The largest number whose product with 50 fits 64 bits. */
  const LAST_FIT: nat := 368934881474191032

  // ----- The shift that makes a divisor fit ------------------------------------------

  /** Find last set: one more than the index of the highest bit, 0 for 0. */
  function Fls(x: nat): nat {
    if x == 0 then 0 else 1 + Fls(x / 2)
  }

  lemma {:induction false} FlsBounds(x: nat)
    requires x > 0
    ensures Fls(x) > 0 && Pow2(Fls(x) - 1) <= x < Pow2(Fls(x))
  {
    if x > 1 {
      FlsBounds(x / 2);
    }
  }

  lemma {:induction false} Pow2Grows(j: nat, k: nat)
    requires j <= k
    ensures Pow2(j) <= Pow2(k)
  {
    if j < k {
      Pow2Grows(j, k - 1);
    }
  }

  /** By how much both operands are divided before the 32-bit division. */
  function Scale(divisor: nat): (s: nat)
    ensures s > 0
  {
    var high := divisor / U32;
    if high != 0 then Pow2(Fls(high)) else 1
  }

  function Truncated(divisor: nat): nat {
    Division(divisor, Scale(divisor));
    divisor / Scale(divisor)
  }

  lemma MulMonotone(a: int, b: int, n: int)
    requires a <= b && n >= 0
    ensures a * n <= b * n
  {
    Distribute(b, a, n);
    if a < b && n > 0 {
      MulAtLeast(b - a, n);
    }
  }

  /** The truncated divisor fits 32 bits, is not zero, and loses less than the scale. */
  lemma TruncatedFits(divisor: nat)
    requires 0 < divisor < U64
    ensures var s, d := Scale(divisor), Truncated(divisor);
      && 0 < d < U32
      && d * s <= divisor < d * s + s
      && (divisor < U32 ==> s == 1 && d == divisor)
      && (divisor >= U32 ==> d >= U32 / 2 && (s == 2 || s >= 4))
  {
    var s, d, high := Scale(divisor), Truncated(divisor), divisor / U32;
    Division(divisor, s);
    if high != 0 {
      FlsBounds(high);
      var half := Pow2(Fls(high) - 1);
      assert s == 2 * half;
      if d < U32 / 2 {
        MulMonotone(d + 1, U32 / 2, s);
        Distribute(d, 1, s);
        assert false;
      }
      if d >= U32 {
        MulMonotone(U32, d, s);
        assert false;
      }
      assert half == 1 || half >= 2;
    }
  }

  // ----- The division -----------------------------------------------------------------

  function Div(x: nat, n: nat): (q: nat)
    requires n > 0
  {
    Division(x, n);
    x / n
  }

  /** div64_64: shifts both operands until the divisor fits 32 bits, then divides. */
  function Div64(dividend: nat, divisor: nat): nat
    requires 0 < divisor < U64
  {
    TruncatedFits(divisor);
    var high := divisor / U32;
    if high != 0 then
      var shift := Fls(high);
      var d := ShiftRight(divisor, shift) % U32;
      Div(ShiftRight(dividend, shift), d)
    else
      Div(dividend, divisor % U32)
  }

  lemma DivExact(x: nat, n: nat)
    requires n > 0
    ensures Div(x, n) * n <= x < Div(x, n) * n + n
  {
    Division(x, n);
  }

  /** k is at most the quotient exactly when k divisors fit. */
  lemma DivAtLeast(x: nat, n: nat, k: nat)
    requires n > 0
    ensures k <= Div(x, n) <==> k * n <= x
  {
    DivExact(x, n);
    var q := Div(x, n);
    if k <= q {
      MulMonotone(k, q, n);
    } else {
      MulMonotone(q + 1, k, n);
      Distribute(q, 1, n);
    }
  }

  lemma DivByOne(x: nat)
    ensures Div(x, 1) == x
  {}

  lemma Div64Scaled(dividend: nat, divisor: nat)
    requires 0 < divisor < U64
    ensures Truncated(divisor) > 0
    ensures Div64(dividend, divisor) == Div(Div(dividend, Scale(divisor)), Truncated(divisor))
  {
    TruncatedFits(divisor);
    if divisor < U32 {
      DivByOne(dividend);
    }
  }

  lemma Regroup(k: int, d: int, s: int)
    ensures (k * d) * s == k * (d * s)
  {}

  /** The divisor as the division sees it: without the bits it shifts out. */
  function Unit(divisor: nat): nat {
    Truncated(divisor) * Scale(divisor)
  }

  lemma UnitBounds(divisor: nat)
    requires 0 < divisor < U64
    ensures 0 < Unit(divisor) <= divisor < Unit(divisor) + Scale(divisor)
    ensures divisor < U32 ==> Unit(divisor) == divisor && Scale(divisor) == 1
    ensures divisor >= U32 ==> Unit(divisor) >= 0x8000_0000 * Scale(divisor)
  {
    TruncatedFits(divisor);
    var s, d := Scale(divisor), Truncated(divisor);
    hide Scale, Truncated;
    MulAtLeast(d, s);
    if divisor >= U32 {
      MulMonotone(0x8000_0000, d, s);
    }
  }

  /** k is at most the computed quotient exactly when k truncated divisors fit. */
  lemma Div64AtLeast(dividend: nat, divisor: nat, k: nat)
    requires 0 < divisor < U64
    ensures k <= Div64(dividend, divisor) <==> k * Unit(divisor) <= dividend
  {
    var s, d := Scale(divisor), Truncated(divisor);
    Div64Scaled(dividend, divisor);
    DivAtLeast(Div(dividend, s), d, k);
    DivAtLeast(dividend, s, k * d);
    Regroup(k, d, s);
    hide Div64, Div, Scale, Truncated;
  }

  lemma SmallFactor(d: nat, m: nat, s: nat)
    requires s > 0 && d * s < s * m
    ensures d < m
  {
    if d >= m {
      MulMonotone(m, d, s);
    }
  }

  lemma Square(x: nat, n: nat, q: nat)
    requires x >= n && q >= x
    ensures q * x >= n * n
  {
    MulMonotone(n, x, n);
    MulMonotone(n, q, x);
  }

  lemma Square3(q: nat, x: nat)
    requires q >= U32 / 2 && x >= 2 * U32
    ensures q * x >= U64
  {
    MulMonotone(U32 / 2, q, x);
  }

  lemma Square2(d: nat, s: nat, x: nat, q: nat)
    requires d >= U32 / 2 && s >= 4 && x == d * s && q >= d
    ensures q * x >= U64
  {
    MulMonotone(U32 / 2, d, s);
    assert x >= 2 * U32;
    Square3(q, x);
  }

  lemma HugeProduct(q: nat, d: nat, s: nat, x: nat)
    requires x == d * s && d >= U32 / 2 && (s == 2 || s >= 4)
    requires x < (s - 1) * (q + 1)
    ensures q * x >= U64
  {
    if s == 2 {
      Square(x, U32, q);
    } else {
      MulMonotone(s - 1, s, q + 1);
      SmallFactor(d, q + 1, s);
      Square2(d, s, x, q);
    }
  }

  lemma Overlap(a: nat, b: nat, q: nat, s: nat, x: nat)
    requires s > 0 && b <= x + (s - 1)
    requires (q + 2) * x <= a < (q + 1) * b
    ensures x < (s - 1) * (q + 1)
  {
    MulMonotone(b, x + (s - 1), q + 1);
    Distribute(x, s - 1, q + 1);
    Distribute(q + 1, 1, x);
  }

  /** A quotient that is two too large would need a dividend beyond 64 bits. */
  lemma NotTwoMore(a: nat, b: nat, q: nat, d: nat, s: nat, x: nat)
    requires a < U64 && x == d * s && x <= b <= x + s - 1
    requires d >= U32 / 2 && (s == 2 || s >= 4)
    requires q * b <= a < (q + 1) * b
    ensures (q + 2) * x > a
  {
    if (q + 2) * x <= a {
      Overlap(a, b, q, s, x);
      HugeProduct(q, d, s, x);
      MulMonotone(x, b, q);
      assert false;
    }
  }

  /**
   div64_64 against true division: exact for divisors below 2^32, and otherwise never too
   small and at most one too large, for every 64-bit dividend.
   */
  lemma Div64Close(dividend: nat, divisor: nat)
    requires dividend < U64 && 0 < divisor < U64
    ensures dividend / divisor <= Div64(dividend, divisor) <= dividend / divisor + 1
    ensures divisor < U32 ==> Div64(dividend, divisor) == dividend / divisor
  {
    var s, x, q := Scale(divisor), Unit(divisor), Div(dividend, divisor);
    TruncatedFits(divisor);
    UnitBounds(divisor);
    DivExact(dividend, divisor);
    ghost var d := Truncated(divisor);
    assert x == d * s && q == dividend / divisor;
    hide Div64, Div, Scale, Truncated, Unit;
    Distribute(q, 1, divisor);
    MulMonotone(x, divisor, q);
    Div64AtLeast(dividend, divisor, q);
    Div64AtLeast(dividend, divisor, q + 1);
    Div64AtLeast(dividend, divisor, q + 2);
    if divisor >= U32 {
      NotTwoMore(dividend, divisor, q, d, s, x);
    }
  }

  /** Exactly when the quotient is the true one: the next one must not fit, even truncated. */
  lemma Div64ExactIff(dividend: nat, divisor: nat)
    requires dividend < U64 && 0 < divisor < U64
    ensures Div64(dividend, divisor) == dividend / divisor
      <==> dividend < (dividend / divisor + 1) * Unit(divisor)
  {
    Div64Close(dividend, divisor);
    Div64AtLeast(dividend, divisor, dividend / divisor + 1);
    hide Div64, Unit;
  }

  // ----- Priorities -------------------------------------------------------------------

  /** A 64-bit value kept in an int. */
  function AsInt(r: nat): int {
    if r % U32 < U32 / 2 then r % U32 else r % U32 - U32
  }

  /** Subtraction of unsigned long longs. */
  function Sub64(x: nat, y: nat): (r: nat)
    requires x < U64 && y < U64
    ensures r < U64 && (y <= x ==> r == x - y)
  {
    if y <= x then x - y else x - y + U64
  }

  /** _calculate_prio: the remaining time mapped to 50 (nearest deadline) down to 0. */
  function CalculatePrio(remain: nat, minRemain: nat, maxRemain: nat): int
    requires remain < U64 && minRemain < U64 && maxRemain < U64
  {
    var a := Sub64(remain, minRemain) * (MAXPRIO - MINPRIO) % U64;
    var span := Sub64(maxRemain, minRemain);
    var b := if span == 0 then (if remain != 0 then remain else 1) else span;
    MAXPRIO - AsInt(Div64(a, b))
  }

  /** No product in the formula leaves 64 bits. */
  predicate SpanFits(minRemain: nat, maxRemain: nat) {
    minRemain <= maxRemain < U64 && (maxRemain - minRemain) * 50 < U64
  }

  /** The steps below the highest priority. */
  lemma Div64Range(a: nat, b: nat)
    requires 0 < b < U64 && a <= 50 * b && a < U64
    ensures Div64(a, b) <= 50 && (a == 50 * b ==> Div64(a, b) == 50)
  {
    hide Div64, Scale, Unit;
    UnitBounds(b);
    Div64AtLeast(a, b, 50);
    Div64AtLeast(a, b, 51);
  }

  lemma Div64Monotone(a: nat, a': nat, b: nat)
    requires 0 < b < U64 && a <= a' < U64
    ensures Div64(a, b) <= Div64(a', b)
    ensures a + b <= a' ==> Div64(a, b) + 1 <= Div64(a', b)
  {
    var k := Div64(a, b);
    hide Div64, Unit;
    UnitBounds(b);
    Div64AtLeast(a, b, k);
    Div64AtLeast(a', b, k);
    Div64AtLeast(a', b, k + 1);
    Distribute(k, 1, Unit(b));
  }

  lemma Div64OfZero(b: nat)
    requires 0 < b < U64
    ensures Div64(0, b) == 0
  {
    hide Div64, Unit;
    UnitBounds(b);
    Div64AtLeast(0, b, 1);
  }

  lemma PrioIs(remain: nat, minRemain: nat, maxRemain: nat)
    requires SpanFits(minRemain, maxRemain) && minRemain <= remain <= maxRemain
    ensures maxRemain > minRemain ==>
      CalculatePrio(remain, minRemain, maxRemain) == 50 - Div64((remain - minRemain) * 50, maxRemain - minRemain)
    ensures maxRemain == minRemain ==> CalculatePrio(remain, minRemain, maxRemain) == 50
  {
    hide Div64;
    if maxRemain > minRemain {
      Div64Range((remain - minRemain) * 50, maxRemain - minRemain);
    } else {
      Div64Range(0, if remain != 0 then remain else 1);
      Div64OfZero(if remain != 0 then remain else 1);
    }
  }

  /** The priority lies between 0 and 50, is 50 at the minimum and 0 at a larger maximum. */
  lemma PrioRange(remain: nat, minRemain: nat, maxRemain: nat)
    requires SpanFits(minRemain, maxRemain) && minRemain <= remain <= maxRemain
    ensures 0 <= CalculatePrio(remain, minRemain, maxRemain) <= 50
    ensures remain == minRemain ==> CalculatePrio(remain, minRemain, maxRemain) == 50
    ensures remain == maxRemain > minRemain ==> CalculatePrio(remain, minRemain, maxRemain) == 0
  {
    PrioIs(remain, minRemain, maxRemain);
    hide CalculatePrio, Div64;
    if maxRemain > minRemain {
      Div64Range((remain - minRemain) * 50, maxRemain - minRemain);
      Div64OfZero(maxRemain - minRemain);
    }
  }

  /**
   What the division costs a priority: one step at most, and none exactly when the division is
   exact.
   */
  lemma PrioClose(remain: nat, minRemain: nat, maxRemain: nat)
    requires SpanFits(minRemain, maxRemain) && minRemain <= remain <= maxRemain && minRemain < maxRemain
    ensures var a, b := (remain - minRemain) * 50, maxRemain - minRemain;
      && 49 - a / b <= CalculatePrio(remain, minRemain, maxRemain) <= 50 - a / b
      && (CalculatePrio(remain, minRemain, maxRemain) == 50 - a / b <==> a < (a / b + 1) * Unit(b))
  {
    var a, b := (remain - minRemain) * 50, maxRemain - minRemain;
    PrioIs(remain, minRemain, maxRemain);
    hide CalculatePrio, Div64, Unit;
    Div64Close(a, b);
    Div64ExactIff(a, b);
  }

  /** The formula does lose a step: at these remaining times the quotient is 11 and not 10. */
  lemma PrioCanLoseAStep()
    ensures 1889785610 * 50 / 8589934591 == 10
    ensures Div64(1889785610 * 50, 8589934591) == 11
    ensures CalculatePrio(1889785610, 0, 8589934591) == 39
  {
    var a, b := 1889785610 * 50, 8589934591;
    PrioIs(1889785610, 0, b);
    assert Scale(b) == 2 by {
      assert Fls(1) == 1 && Pow2(1) == 2;
    }
    UnitBounds(b);
    hide CalculatePrio, Div64, Unit, Scale;
    Div64AtLeast(a, b, 11);
    Div64AtLeast(a, b, 12);
  }

  /** Less time left never means a lower priority; a fiftieth of the span less means a higher one. */
  lemma PrioMonotone(r: nat, s: nat, minRemain: nat, maxRemain: nat)
    requires SpanFits(minRemain, maxRemain) && minRemain <= r <= s <= maxRemain
    ensures CalculatePrio(r, minRemain, maxRemain) >= CalculatePrio(s, minRemain, maxRemain)
    ensures (s - r) * 50 >= maxRemain - minRemain > 0 ==>
      CalculatePrio(r, minRemain, maxRemain) > CalculatePrio(s, minRemain, maxRemain)
  {
    PrioIs(r, minRemain, maxRemain);
    PrioIs(s, minRemain, maxRemain);
    hide CalculatePrio, Div64;
    if maxRemain > minRemain {
      Div64Monotone((r - minRemain) * 50, (s - minRemain) * 50, maxRemain - minRemain);
    }
  }

  // ----- When the formula orders ------------------------------------------------------

  /** Less time left never means a lower priority, anywhere between min and max. */
  ghost predicate OrdersByRemain(minRemain: nat, maxRemain: nat)
    requires minRemain <= maxRemain < U64
  {
    forall r, s :: minRemain <= r <= s <= maxRemain ==>
      CalculatePrio(r, minRemain, maxRemain) >= CalculatePrio(s, minRemain, maxRemain)
  }

  lemma Pow2Of32()
    ensures Pow2(32) == U32 && Pow2(31) == U32 / 2
  {
    assert Pow2(8) == 256;
    assert Pow2(16) == 0x1_0000;
    assert Pow2(24) == 0x100_0000;
    assert Pow2(31) == 0x8000_0000;
  }

  /** The divisors just below 2^64 are scaled by 2^32. */
  lemma WidestScale(b: nat)
    requires U64 - U32 <= b < U64
    ensures Scale(b) == U32 && Unit(b) == U64 - U32
  {
    var high := b / U32;
    FlsBounds(high);
    Pow2Of32();
    hide Pow2, Fls;
    if Fls(high) <= 31 {
      Pow2Grows(Fls(high), 31);
    } else if Fls(high) >= 33 {
      Pow2Grows(32, Fls(high) - 1);
    }
  }

  lemma WideDivisor(b: nat)
    requires LAST_FIT < b < U64
    ensures 1 <= Div64(LAST_FIT * 50, b) <= 50 && Div64(34, b) == 0
  {
    hide Div64, Unit, Scale;
    UnitBounds(b);
    Div64AtLeast(34, b, 1);
    Div64AtLeast(LAST_FIT * 50, b, 1);
    Div64Range(LAST_FIT * 50, b);
    if b >= U64 - U32 {
      WidestScale(b);
    }
  }

  lemma SmallAsInt(x: nat)
    requires x <= 50
    ensures AsInt(x) == x
  {}

  lemma PrioUnfolds(remain: nat, minRemain: nat, maxRemain: nat, a: nat)
    requires minRemain <= remain <= maxRemain < U64 && minRemain < maxRemain
    requires a < U64 && ((remain - minRemain) * 50 == a || (remain - minRemain) * 50 == a + U64)
    ensures CalculatePrio(remain, minRemain, maxRemain) == 50 - AsInt(Div64(a, maxRemain - minRemain))
  {
    hide Div64, AsInt;
  }

  /** Where the product wraps, one tick more to go raises the priority back to 50. */
  lemma WideSpanFails(minRemain: nat, maxRemain: nat)
    requires minRemain + LAST_FIT < maxRemain < U64
    ensures var r := minRemain + LAST_FIT;
      CalculatePrio(r, minRemain, maxRemain) < 50 == CalculatePrio(r + 1, minRemain, maxRemain)
  {
    assert LAST_FIT == 368934881474191032 && U64 == 18446744073709551616;
    hide *;
    var r, b := minRemain + LAST_FIT, maxRemain - minRemain;
    PrioUnfolds(r, minRemain, maxRemain, LAST_FIT * 50);
    PrioUnfolds(r + 1, minRemain, maxRemain, 34);
    WideDivisor(b);
    SmallAsInt(Div64(LAST_FIT * 50, b));
    SmallAsInt(Div64(34, b));
  }

  /** The formula orders by remaining time exactly when the span times 50 fits 64 bits. */
  lemma OrdersIffSpanFits(minRemain: nat, maxRemain: nat)
    requires minRemain <= maxRemain < U64
    ensures OrdersByRemain(minRemain, maxRemain) <==> SpanFits(minRemain, maxRemain)
  {
    hide CalculatePrio;
    if SpanFits(minRemain, maxRemain) {
      forall r, s | minRemain <= r <= s <= maxRemain
        ensures CalculatePrio(r, minRemain, maxRemain) >= CalculatePrio(s, minRemain, maxRemain)
      {
        PrioMonotone(r, s, minRemain, maxRemain);
      }
    } else {
      WideSpanFails(minRemain, maxRemain);
    }
  }

  /** The priorities the driver printed in the repository's sample log. */
  lemma SampleLog()
    ensures CalculatePrio(998804773, 998804773, 9999998234) == 50
    ensures CalculatePrio(6999889394, 998804773, 9999998234) == 17
    ensures CalculatePrio(9999998234, 998804773, 9999998234) == 0
  {
    PrioRange(998804773, 998804773, 9999998234);
    PrioRange(9999998234, 998804773, 9999998234);
    PrioIs(6999889394, 998804773, 9999998234);
    var a, b := 6001084621 * 50, 9001193461;
    assert Scale(b) == 4 by {
      assert Fls(1) == 1 && Fls(2) == 2 && Pow2(1) == 2 && Pow2(2) == 4;
    }
    UnitBounds(b);
    hide CalculatePrio, Div64, Unit, Scale;
    Div64AtLeast(a, b, 33);
    Div64AtLeast(a, b, 34);
  }
}
