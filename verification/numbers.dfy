/** Arithmetic and text helpers shared by the model: sums over real sequences,
    Java's truncating remainder, decimal rendering of integers (`String.valueOf`)
    and rounding to two decimals with `RoundingMode.HALF_UP`. */
module Numbers {

  /** Sum of a sequence of reals, accumulated left to right. */
  function Sum(s: seq<real>): real
  {
    if |s| == 0 then 0.0 else Sum(s[..|s| - 1]) + s[|s| - 1]
  }

  /** Dividing by a non-zero divisor and multiplying back gives the dividend. */
  lemma QuotientTimesDivisor(x: real, q: real)
    requires q != 0.0
    ensures (x / q) * q == x
  {
  }

  /** A product is zero only when a factor is. */
  lemma ProductZero(a: real, b: real)
    requires a * b == 0.0
    ensures a == 0.0 || b == 0.0
  {
  }

  /** Java's `%` on `int`: the remainder takes the sign of the dividend
      (truncating division), unlike Dafny's Euclidean `%`. */
  function JavaRem(a: int, n: int): (r: int)
    requires n > 0
    ensures a >= 0 ==> 0 <= r < n
    ensures a < 0 ==> -n < r <= 0
  {
    if a >= 0 then a % n else -((-a) % n)
  }

  /** The truncating remainder differs from the dividend by a multiple of the divisor. */
  lemma JavaRemCongruent(a: int, n: int)
    requires n > 0
    ensures exists q :: a == q * n + JavaRem(a, n)
  {
    if a >= 0 {
      assert a == (a / n) * n + JavaRem(a, n);
    } else {
      var m := -a;
      assert m == (m / n) * n + m % n;
      assert a == (-(m / n)) * n + JavaRem(a, n);
    }
  }

  /** A remainder in range is the Euclidean one. */
  lemma EuclideanUnique(k: int, n: nat, q: int, r: int)
    requires n > 0 && 0 <= r < n && k == q * n + r
    ensures k % n == r
  {
    var q2 := k / n;
    assert k == q2 * n + k % n;
    assert (q - q2) * n == k % n - r;
    SmallMultiple(q - q2, n);
  }

  /** The only multiple of `n` strictly between `-n` and `n` is zero. */
  lemma SmallMultiple(d: int, n: int)
    requires n > 0 && -n < d * n < n
    ensures d == 0
  {
    if d > 0 {
      assert d * n == (d - 1) * n + n;
      NaturalProduct(d - 1, n);
    } else if d < 0 {
      assert -(d * n) == (-d - 1) * n + n;
      NaturalProduct(-d - 1, n);
    }
  }

  lemma NaturalProduct(a: nat, b: nat)
    ensures a * b >= 0
  {
  }

  /** The decimal digit character for `d`. */
  function Digit(d: nat): char
    requires d < 10
  {
    "0123456789"[d]
  }

  predicate IsDigit(c: char)
  {
    '0' <= c <= '9'
  }

  /** `String.valueOf` of a non-negative integer: decimal digits, no leading zeros. */
  function NatToString(n: nat): (s: string)
    ensures |s| >= 1
    ensures forall k :: 0 <= k < |s| ==> IsDigit(s[k])
    ensures n < 10 <==> |s| == 1
  {
    if n < 10 then [Digit(n)] else NatToString(n / 10) + [Digit(n % 10)]
  }

  lemma DigitInjective(a: nat, b: nat)
    requires a < 10 && b < 10 && Digit(a) == Digit(b)
    ensures a == b
  {
  }

  /** Distinct numbers render to distinct decimal strings, so keys such as
      `"name" + NatToString(k)` never collide. */
  lemma {:induction false} NatToStringInjective(a: nat, b: nat)
    requires NatToString(a) == NatToString(b)
    ensures a == b
    decreases a
  {
    var s := NatToString(a);
    if a < 10 && b < 10 {
      DigitInjective(a, b);
    } else if a >= 10 && b >= 10 {
      assert s[|s| - 1] == Digit(a % 10) == Digit(b % 10);
      DigitInjective(a % 10, b % 10);
      assert NatToString(a / 10) == s[..|s| - 1] == NatToString(b / 10);
      NatToStringInjective(a / 10, b / 10);
    }
  }

  /** `String.valueOf(int)`: a leading minus sign for negative values. */
  function IntToString(i: int): (s: string)
    ensures |s| >= 1
    ensures i < 0 <==> s[0] == '-'
  {
    if i < 0 then "-" + NatToString(-i) else NatToString(i)
  }

  lemma IntToStringInjective(a: int, b: int)
    requires IntToString(a) == IntToString(b)
    ensures a == b
  {
    if a < 0 && b < 0 {
      assert NatToString(-a) == IntToString(a)[1..] == NatToString(-b);
      NatToStringInjective(-a, -b);
    } else if a >= 0 && b >= 0 {
      NatToStringInjective(a, b);
    }
  }

  /** `BigDecimal.setScale(2, RoundingMode.HALF_UP)`: round to two decimals,
      ties away from zero. */
  function Round2(x: real): real
  {
    if x >= 0.0 then (x * 100.0 + 0.5).Floor as real / 100.0
    else -((-x * 100.0 + 0.5).Floor as real) / 100.0
  }

  /** A value rounds to zero exactly when it lies strictly within half a hundredth of zero. */
  lemma Round2ZeroIff(x: real)
    ensures Round2(x) == 0.0 <==> -0.005 < x < 0.005
  {
    if x >= 0.0 {
      if x < 0.005 {
        assert (x * 100.0 + 0.5).Floor == 0;
      } else {
        assert (x * 100.0 + 0.5).Floor >= 1;
      }
    } else {
      if -x < 0.005 {
        assert (-x * 100.0 + 0.5).Floor == 0;
      } else {
        assert (-x * 100.0 + 0.5).Floor >= 1;
      }
    }
  }
}
