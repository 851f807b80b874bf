/** Python's float() rounds a decimal literal to the nearest IEEE 754
    binary64 double, ties to the even significand; int() then truncates that
    double toward zero, and raises OverflowError when float() gave infinity.
    TruncDouble computes int(float(v)) for a non-negative fraction v = n / d
    with exact integer arithmetic. */
module Doubles {
  import opened Outcomes

  function Pow2(k: nat): (p: nat)
    ensures p >= 1
  {
    if k == 0 then 1 else 2 * Pow2(k - 1)
  }

  lemma {:induction false} Pow2Add(a: nat, b: nat)
    ensures Pow2(a + b) == Pow2(a) * Pow2(b)
  {
    if b > 0 {
      Pow2Add(a, b - 1);
      assert Pow2(a + b) == 2 * Pow2(a + b - 1);
      assert Pow2(b) == 2 * Pow2(b - 1);
    }
  }

  lemma {:induction false} Pow2Monotone(a: nat, b: nat)
    ensures a <= b ==> Pow2(a) <= Pow2(b)
    ensures a < b ==> 2 * Pow2(a) <= Pow2(b)
  {
    if a < b {
      Pow2Monotone(a, b - 1);
    }
  }

  /** floor(log2 n): the position of n's highest set bit. */
  function Log2(n: nat): (e: nat)
    requires n >= 1
    ensures Pow2(e) <= n < Pow2(e + 1)
  {
    if n == 1 then 0 else 1 + Log2(n / 2)
  }

  /** The bounds fix the exponent. */
  lemma Log2Unique(n: nat, e: nat)
    requires n >= 1 && Pow2(e) <= n < Pow2(e + 1)
    ensures Log2(n) == e
  {
    var l := Log2(n);
    Pow2Monotone(l, e);
    Pow2Monotone(e, l);
  }

  // ------------------------------------------------------- integer division

  lemma DivLower(a: nat, d: nat, k: nat)
    requires d >= 1 && a >= d * k
    ensures a / d >= k
  {
    var q := a / d;
    if q < k {
      MulMonotone(d, q + 1, k);
    }
  }

  lemma DivUpper(a: nat, d: nat, k: nat)
    requires d >= 1 && a < d * k
    ensures a / d < k
  {
    var q := a / d;
    if q >= k {
      MulMonotone(d, k, q);
    }
  }

  lemma MulMonotone(d: nat, x: nat, y: nat)
    requires x <= y
    ensures d * x <= d * y && x * d <= y * d
  {
  }

  lemma MulStrict(d: nat, x: nat, y: nat)
    requires d >= 1 && x < y
    ensures x * d < y * d
  {
    MulMonotone(d, x + 1, y);
  }

  // ------------------------------------------------------------ conversion

  /** 2^52 and 2^53 written out. */
  const TwoTo52: nat := 4503599627370496
  const TwoTo53: nat := 9007199254740992

  /** A finite double is below 2^1024. */
  const MaxExponent: nat := 1024

  lemma {:induction false} Pow2Square(k: nat, v: nat)
    requires Pow2(k) == v
    ensures Pow2(k + k) == v * v
  {
    Pow2Add(k, k);
  }

  /** The written-out constants are the powers of two they name. */
  lemma Pow2Values()
    ensures Pow2(52) == TwoTo52 && Pow2(53) == TwoTo53 && Pow2(54) == 2 * TwoTo53
  {
    assert Pow2(1) == 2;
    Pow2Square(1, 2);
    Pow2Square(2, 4);
    Pow2Square(4, 16);
    Pow2Square(8, 256);
    Pow2Square(16, 65536);
    Pow2Square(32, 4294967296);
    Pow2Add(32, 16);
    Pow2Add(48, 4);
    assert Pow2(53) == 2 * Pow2(52);
    assert Pow2(54) == 2 * Pow2(53);
  }

  /** Below 2^53 the highest set bit is at most bit 52. */
  lemma Log2Below53(t: nat)
    requires 1 <= t < TwoTo53
    ensures Log2(t) <= 52
  {
    Pow2Values();
    Pow2Monotone(53, Log2(t));
  }

  /** Up to 2^53 the highest set bit is at most bit 53, and bit 53 only
      for 2^53 itself. */
  lemma Log2UpTo53(n: nat)
    requires 1 <= n <= TwoTo53
    ensures Log2(n) <= 53
    ensures Log2(n) == 53 ==> n == TwoTo53
  {
    Pow2Values();
    Pow2Monotone(54, Log2(n));
    Pow2Monotone(53, Log2(n));
  }

  /** n is at least 2^k exactly when its highest set bit is at bit k or
      above. */
  lemma Log2AtLeast(n: nat, k: nat)
    requires n >= 1
    ensures Log2(n) >= k <==> n >= Pow2(k)
  {
    var e := Log2(n);
    Pow2Monotone(k, e);
    Pow2Monotone(e + 1, k);
  }

  /** m * 2^s reaches 2^k exactly when the highest set bit of m, moved up
      by s places, reaches bit k. */
  lemma ScaledAtLeast(m: nat, s: nat, k: nat)
    requires m >= 1
    ensures Log2(m) + s >= k <==> m * Pow2(s) >= Pow2(k)
  {
    var e := Log2(m);
    ScaledBetween(m, e, s);
    if e + s >= k {
      Pow2Monotone(k, e + s);
    } else {
      Pow2Monotone(e + s + 1, k);
    }
  }

  /** Scaling by 2^s moves the binade up by s. */
  lemma ScaledBetween(m: nat, e: nat, s: nat)
    requires Pow2(e) <= m < Pow2(e + 1)
    ensures Pow2(e + s) <= m * Pow2(s) < Pow2(e + s + 1)
  {
    var u := Pow2(s);
    Pow2Add(e, s);
    Pow2Add(e + 1, s);
    MulMonotone(u, Pow2(e), m);
    MulStrict(u, m, Pow2(e + 1));
  }


  /** n / d rounded to the nearest integer, ties to the even one. */
  function RoundHalfEven(n: nat, d: nat): (m: nat)
    requires d >= 1
    ensures n / d <= m <= n / d + 1
    ensures n % d == 0 ==> m == n / d
  {
    var q, r := n / d, n % d;
    if 2 * r < d then q else if 2 * r > d then q + 1 else if q % 2 == 0 then q else q + 1
  }

  /** floor(log2(n / d)) for n / d >= 1/2. */
  function Binade(n: nat, d: nat): int
    requires d >= 1 && 2 * n >= d
  {
    if n >= d then Log2(n / d) else -1
  }

  /** int(float(n / d)), or None where float() rounds to infinity and int()
      raises OverflowError. A double holds a 53-bit significand, so a value
      in the binade [2^e, 2^(e+1)) is rounded to a multiple of 2^(e - 52);
      a rounded value of 2^1024 or more is infinity (ScaledAtLeast relates
      the exponent test below to that bound). A value below 1/2
      rounds to at most 1/2, which int() truncates to 0 (this also covers
      the subnormal range). */
  function TruncDouble(n: nat, d: nat): Option<nat>
    requires d >= 1
  {
    if 2 * n < d then Some(0)
    else
      var s := Binade(n, d) - 52;
      if s >= 0 then RoundLarge(n, d, s) else Some(RoundSmall(n, d, -s))
  }

  /** Rounding to a multiple of 2^s (a binade from 2^52 up), then the
      overflow test. */
  function RoundLarge(n: nat, d: nat, s: nat): Option<nat>
    requires d >= 1
  {
    var u := Pow2(s);
    var m := RoundHalfEven(n, d * u);
    if m >= 1 && Log2(m) + s >= MaxExponent then None else Some(m * u)
  }

  /** Rounding to a multiple of 2^-k (a binade below 2^52), then truncation. */
  function RoundSmall(n: nat, d: nat, k: nat): nat
    requires d >= 1
  {
    var m, p := RoundHalfEven(Scale(n, k), d), Pow2(k);
    DivLower(m, p, 0);
    m / p
  }

  /** n * 2^k. */
  function Scale(n: nat, k: nat): nat
  {
    n * Pow2(k)
  }

  /** The quotient is fixed by the bounds around the dividend. */
  lemma DivChar(a: nat, d: nat, q: nat)
    requires d >= 1 && d * q <= a < d * q + d
    ensures a / d == q
  {
    DivLower(a, d, q);
    assert d * (q + 1) == d * q + d;
    DivUpper(a, d, q + 1);
  }

  lemma RoundWhole(x: nat)
    ensures RoundHalfEven(x, 1) == x
  {
  }

  /** Scaling by 2^k and truncating back gives an integer unchanged. */
  lemma RoundSmallWhole(n: nat, k: nat)
    ensures RoundSmall(n, 1, k) == n
  {
    var p := Pow2(k);
    RoundWhole(n * p);
    assert p * n == n * p;
    DivChar(n * p, p, n);
  }

  /** An integer whose highest set bit is at most bit 52 is a double. */
  lemma ExactBelow(n: nat)
    requires 1 <= n && Log2(n) <= 52
    ensures TruncDouble(n, 1) == Some(n)
  {
    var e := Log2(n);
    if e == 52 {
      ExactTopBinade(n);
    } else {
      assert n / 1 == n;
      RoundSmallWhole(n, 52 - e);
    }
  }

  /** In the binade [2^52, 2^53) the doubles are the integers. */
  lemma ExactTopBinade(n: nat)
    requires 1 <= n && Log2(n) == 52
    ensures TruncDouble(n, 1) == Some(n)
  {
    assert n / 1 == n;
    assert Binade(n, 1) == 52;
    assert Pow2(0) == 1;
    RoundWhole(n);
    assert RoundLarge(n, 1, 0) == Some(n);
  }

  /** Every integer up to 2^53 is a double, so int(float(n)) is n. */
  lemma ExactUpTo53(n: nat)
    requires n <= TwoTo53
    ensures TruncDouble(n, 1) == Some(n)
  {
    if n >= 1 {
      Log2UpTo53(n);
      if Log2(n) <= 52 {
        ExactBelow(n);
      } else {
        TopExact();
      }
    }
  }

  lemma TopExact()
    ensures TruncDouble(TwoTo53, 1) == Some(TwoTo53)
  {
    var n := TwoTo53;
    Pow2Values();
    Log2Unique(n, 53);
    assert n / 1 == n;
    assert Pow2(1) == 2;
    assert RoundHalfEven(n, 1 * Pow2(1)) == TwoTo52;
    Log2Below53(TwoTo52);
  }

  /** 2^53 + 1 is the first integer that is not a double: it lies halfway
      between 2^53 and 2^53 + 2, and the tie goes to the even significand,
      so int(float(2^53 + 1)) is 2^53. */
  lemma FirstInexact()
    ensures TruncDouble(TwoTo53 + 1, 1) == Some(TwoTo53)
  {
    var n := TwoTo53 + 1;
    Pow2Values();
    Log2Unique(n, 53);
    assert n / 1 == n;
    assert Pow2(1) == 2;
    assert RoundHalfEven(n, 1 * Pow2(1)) == TwoTo52;
    Log2Below53(TwoTo52);
  }

  /** From 2^1024 on, float() gives infinity and int() raises. */
  lemma Overflow(n: nat, d: nat)
    requires d >= 1 && n / d >= 1 && Log2(n / d) >= MaxExponent
    ensures TruncDouble(n, d) == None
  {
    var t := n / d;
    QuotientReaches(n, d);
    var s: nat := Log2(t) - 52;
    assert TruncDouble(n, d) == RoundLarge(n, d, s);
    Pow2Add(52, s);
    LargeOverflows(n, d, s);
  }

  /** A quotient of at least 1 needs a dividend of at least the divisor. */
  lemma QuotientReaches(n: nat, d: nat)
    requires d >= 1 && n / d >= 1
    ensures n >= d
  {
    assert d * (n / d) <= n;
    MulMonotone(d, 1, n / d);
  }

  /** In a binade from 2^(52 + s) = 2^52 * 2^s on, the rounded value is at
      least 2^(52 + s). */
  lemma LargeOverflows(n: nat, d: nat, s: nat)
    requires d >= 1 && n / d >= Pow2(52) * Pow2(s) && 52 + s >= MaxExponent
    ensures RoundLarge(n, d, s) == None
  {
    var u := Pow2(s);
    DivByProduct(n, d, u, Pow2(52));
    var m := RoundHalfEven(n, d * u);
    Log2AtLeast(m, 52);
  }

  /** n / d >= k * u gives n / (d * u) >= k. */
  lemma DivByProduct(n: nat, d: nat, u: nat, k: nat)
    requires d >= 1 && u >= 1 && n / d >= k * u
    ensures n / (d * u) >= k
  {
    var t := n / d;
    assert d * t <= n;
    MulMonotone(d, k * u, t);
    assert d * (k * u) == (d * u) * k;
    DivLower(n, d * u, k);
  }


  /** Below 2^53 a double is the exact truncation or, where the value lies
      within half a unit in the last place below the next integer, that
      next integer. */
  lemma NearTruncation(n: nat, d: nat)
    requires d >= 1 && n < d * TwoTo53
    ensures TruncDouble(n, d) == Some(n / d) || TruncDouble(n, d) == Some(n / d + 1)
  {
    if 2 * n >= d {
      var t := n / d;
      DivUpper(n, d, TwoTo53);
      if n >= d {
        Log2Below53(t);
      }
      var s := Binade(n, d) - 52;
      if s >= 0 {
        assert Pow2(0) == 1 && d * 1 == d;
        Pow2Values();
        var m := RoundHalfEven(n, d);
        if m >= 1 {
          Log2UpTo53(m);
        }
      } else {
        NearScaled(n, d, -s);
      }
    }
  }

  /** Scaling by 2^k, rounding and truncating back stays within one of the
      truncation. */
  lemma NearScaled(n: nat, d: nat, k: nat)
    requires d >= 1
    ensures RoundSmall(n, d, k) == n / d || RoundSmall(n, d, k) == n / d + 1
  {
    var p := Pow2(k);
    var t := n / d;
    var q := ScaledQuotient(n, d, p);
    var m := RoundHalfEven(Scale(n, k), d);
    assert m == q || m == q + 1;
    DivLower(m, p, 0);
    assert RoundSmall(n, d, k) == m / p;
    if m == q {
      DivChar(q, p, t);
    } else {
      DivLower(q + 1, p, t);
      assert p * (t + 2) == p * t + 2 * p;
      DivUpper(q + 1, p, t + 2);
    }
  }

  /** (n * p) / d lies in [t * p, t * p + p) for t = n / d. */
  lemma ScaledQuotient(n: nat, d: nat, p: nat) returns (q: nat)
    requires d >= 1 && p >= 1
    ensures q == (n * p) / d
    ensures p * (n / d) <= q < p * (n / d) + p
  {
    var np := n * p;
    q := np / d;
    ScaledWindow(n, d, p, n / d, n % d, np);
  }

  /** The same with n == d * t + r spelled out. */
  lemma ScaledWindow(n: nat, d: nat, p: nat, t: nat, r: nat, np: nat)
    requires d >= 1 && p >= 1 && n == d * t + r && r < d && np == n * p
    ensures p * t <= np / d < p * t + p
  {
    assert np == d * (t * p) + r * p by {
      assert np == (d * t + r) * p;
      assert (d * t + r) * p == (d * t) * p + r * p;
    }
    RemainderScaled(r, d, p);
    QuotientWindow(np, d, t * p, r * p, p);
    MulCommutes(p, t);
  }

  lemma MulCommutes(x: nat, y: nat)
    ensures x * y == y * x
  {
  }

  /** A dividend d * a + b with b / d below p has its quotient in
      [a, a + p). */
  lemma QuotientWindow(x: nat, d: nat, a: nat, b: nat, p: nat)
    requires d >= 1 && x == d * a + b && b / d < p
    ensures a <= x / d < a + p
  {
    DivPlus(x, d, a, b);
  }

  /** A remainder scaled by p stays below p once divided again. */
  lemma RemainderScaled(r: nat, d: nat, p: nat)
    requires r < d && p >= 1
    ensures (r * p) / d < p
  {
    MulStrict(p, r, d);
    assert d * p == p * d;
    DivUpper(r * p, d, p);
  }


  /** (d * a + b) / d == a + b / d. */
  lemma DivPlus(x: nat, d: nat, a: nat, b: nat)
    requires d >= 1 && x == d * a + b
    ensures x / d == a + b / d
  {
    var q, r := b / d, b % d;
    assert x == d * (a + q) + r;
    DivChar(x, d, a + q);
  }

  /** The literal 2.9999999999999999 lies closer to 3 than to any other
      double, so int(float()) gives 3 where truncation gives 2. */
  lemma RoundsUpToThree()
    ensures TruncDouble(29999999999999999, 10000000000000000) == Some(3)
  {
    var n, d := 29999999999999999, 10000000000000000;
    assert n / d == 2;
    Log2Unique(2, 1);
    Pow2Values();
    Pow2Add(51, 1);
    var p := Pow2(51);
    assert p == 2251799813685248;
    assert RoundHalfEven(n * p, d) == 3 * p;
  }
}
