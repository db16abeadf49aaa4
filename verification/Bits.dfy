/**
 Unsigned arithmetic on powers of two: the masks and shifts by which uthash.h selects
 buckets and edfomai-drv-data.c scales its divisions.
 */
module Bits {
  function Pow2(k: nat): (r: nat)
    ensures r > 0
  {
    if k == 0 then 1 else 2 * Pow2(k - 1)
  }

  /** The bitwise and of two unsigned numbers. */
  function And(x: nat, y: nat): nat {
    if x == 0 || y == 0 then 0
    else 2 * And(x / 2, y / 2) + (if x % 2 == 1 && y % 2 == 1 then 1 else 0)
  }

  lemma Division(x: nat, n: nat)
    requires n > 0
    ensures x / n >= 0 && 0 <= x % n < n && x == (x / n) * n + x % n
  {}

  function ShiftRight(x: nat, k: nat): nat {
    Division(x, Pow2(k));
    x / Pow2(k)
  }

  // ----- Division by a variable, one step at a time ----------------------------------

  lemma MulAtLeast(d: int, n: int)
    requires d >= 1 && n >= 0
    ensures d * n >= n
  {}

  lemma Distribute(a: int, b: int, n: int)
    ensures (a + b) * n == a * n + b * n && (a - b) * n == a * n - b * n
  {}

  lemma DivMod(x: nat, n: nat, q: int, r: int)
    requires n > 0 && x == q * n + r && 0 <= r < n
    ensures x / n == q && x % n == r
  {
    var q', r' := x / n, x % n;
    assert x == q' * n + r';
    var d := q - q';
    Distribute(q, q', n);
    assert d * n == r' - r;
    if d >= 1 {
      MulAtLeast(d, n);
      assert false;
    } else if d <= -1 {
      MulAtLeast(-d, n);
      assert false;
    }
  }

  lemma AndOdd(x: nat, p: nat)
    requires x > 0 && p > 0
    ensures And(x, 2 * p - 1) == 2 * And(x / 2, p - 1) + x % 2
  {
    assert (2 * p - 1) / 2 == p - 1;
  }

  lemma Twice(q: int, n: int)
    ensures q * (2 * n) == 2 * (q * n) && (2 * q) * n == 2 * (q * n)
    ensures (2 * q + 1) * n == 2 * (q * n) + n
  {}

  lemma ModOfHalf(x: nat, p: nat)
    requires p > 0
    ensures x % (2 * p) == 2 * ((x / 2) % p) + x % 2
  {
    var q, r := (x / 2) / p, (x / 2) % p;
    Division(x / 2, p);
    Twice(q, p);
    DivMod(x, 2 * p, q, 2 * r + x % 2);
  }

  lemma AndMaskStep(x: nat, p: nat)
    requires x > 0 && p > 0 && And(x / 2, p - 1) == (x / 2) % p
    ensures And(x, 2 * p - 1) == x % (2 * p)
  {
    AndOdd(x, p);
    ModOfHalf(x, p);
    hide And;
  }

  /** Masking with a power of two less one is the remainder. */
  lemma {:induction false} AndMask(x: nat, k: nat)
    ensures And(x, Pow2(k) - 1) == x % Pow2(k)
  {
    if k > 0 && x > 0 {
      AndMask(x / 2, k - 1);
      AndMaskStep(x, Pow2(k - 1));
      hide And;
    } else {
      DivMod(x, Pow2(k), if k == 0 then x else 0, 0);
    }
  }

  /** Doubling the modulus keeps a remainder or moves it up by the old modulus. */
  lemma ModDouble(x: nat, n: nat)
    requires n > 0
    ensures x % (2 * n) == x % n || x % (2 * n) == x % n + n
  {
    var q, r := x / (2 * n), x % (2 * n);
    Division(x, 2 * n);
    Twice(q, n);
    if r < n {
      DivMod(x, n, 2 * q, r);
    } else {
      DivMod(x, n, 2 * q + 1, r - n);
    }
  }

  /** Shift and mask round the quotient up. */
  lemma CeilByShift(x: nat, k: nat)
    ensures var c := ShiftRight(x, k) + (if And(x, Pow2(k) - 1) != 0 then 1 else 0);
      c * Pow2(k) >= x && (c == 0 || (c - 1) * Pow2(k) < x) && (x > 0 ==> c > 0)
  {
    AndMask(x, k);
    Division(x, Pow2(k));
    Distribute(x / Pow2(k), 1, Pow2(k));
  }
}
