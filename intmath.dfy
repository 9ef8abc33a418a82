/**
 * Integer helpers of `MathUtil`: C#'s truncating `/` and `%`, the always
 * non-negative `Mod`, the proper-divisor enumeration `GetDivisors` and the
 * inclusive `InRange` test.
 *
 * Dafny's `/` and `%` are Euclidean; C# truncates the quotient toward zero
 * and gives the remainder the sign of the dividend.  `Quot` and `Rem` are
 * C#'s operators written out.
 */
module IntMath {
  import opened Wrappers

  function Abs(a: int): (r: nat)
    ensures r == a || r == -a
  {
    if a < 0 then -a else a
  }

  /** `Math.Min` / `Math.Max` on `int`. */
  function Min(a: int, b: int): (r: int)
    ensures r <= a && r <= b && (r == a || r == b)
  {
    if a < b then a else b
  }

  function Max(a: int, b: int): (r: int)
    ensures r >= a && r >= b && (r == a || r == b)
  {
    if a < b then b else a
  }

  const IntMin := -0x8000_0000
  const IntMax := 0x7FFF_FFFF

  predicate IsInt32(x: int)
  {
    IntMin <= x <= IntMax
  }

  /** Unchecked conversion of an exact result to `int`: wrap modulo 2^32. */
  function Wrap32(x: int): (r: int)
    ensures IsInt32(r)
    ensures IsInt32(x) ==> r == x
    ensures (r - x) % 0x1_0000_0000 == 0
  {
    (x + 0x8000_0000) % 0x1_0000_0000 - 0x8000_0000
  }

  /** `Math.Sign`: -1, 0 or 1. */
  function SignOf(a: int): (r: int)
    ensures a > 0 ==> r == 1
    ensures a == 0 ==> r == 0
    ensures a < 0 ==> r == -1
  {
    if a > 0 then 1 else if a < 0 then -1 else 0
  }

  /** C#'s integer division `a / b`: the quotient truncated toward zero. */
  function Quot(a: int, b: int): (q: int)
    requires b != 0
    ensures Abs(q) == Abs(a) / Abs(b)
    ensures (a < 0) == (b < 0) ==> q >= 0
    ensures (a < 0) != (b < 0) ==> q <= 0
  {
    var m := Abs(a) / Abs(b);
    assert m >= 0 by {
      DivNonNeg(Abs(a), Abs(b));
    }
    if (a < 0) != (b < 0) then -m else m
  }

  lemma DivNonNeg(p: nat, d: int)
    requires d > 0
    ensures p / d >= 0
  {
    assert p == d * (p / d) + p % d;
  }

  /** C#'s remainder `a % b`: `a - b * (a / b)`, which takes the sign of `a`. */
  function Rem(a: int, b: int): (r: int)
    requires b != 0
    ensures Abs(r) == Abs(a) % Abs(b) < Abs(b)
    ensures a >= 0 ==> r >= 0
    ensures a <= 0 ==> r <= 0
  {
    RemIsSignedModulus(a, b);
    a - b * Quot(a, b)
  }

  lemma RemIsSignedModulus(a: int, b: int)
    requires b != 0
    ensures a - b * Quot(a, b) == if a < 0 then -(Abs(a) % Abs(b)) else Abs(a) % Abs(b)
  {
    var m, r := Abs(a) / Abs(b), Abs(a) % Abs(b);
    var p := Abs(b) * m;
    assert Abs(a) == p + r;
    assert b * m == if b < 0 then -p else p;
    assert b * -m == -(b * m);
  }

  /** Division with remainder is unique (Dafny's Euclidean `/` and `%`). */
  lemma DivUnique(n: int, c: int, q: int, r: int)
    requires c != 0 && 0 <= r < Abs(c) && n == c * q + r
    ensures n / c == q && n % c == r
  {
    var q0, r0 := n / c, n % c;
    assert c * (q - q0) == r0 - r;
    if q != q0 {
      AbsMul(c, q - q0);
      MulAtLeast(Abs(c), Abs(q - q0));
      assert false;
    }
  }

  lemma MulAtLeast(a: nat, k: nat)
    requires k >= 1
    ensures a * k >= a
  {
    assert a * k == a + a * (k - 1);
  }

  lemma AbsMul(a: int, b: int)
    ensures Abs(a * b) == Abs(a) * Abs(b)
  {
    if a < 0 && b < 0 {
      assert a * b == (-a) * (-b);
    } else if a < 0 {
      assert -(a * b) == (-a) * b;
    } else if b < 0 {
      assert -(a * b) == a * (-b);
    }
  }

  /** Adding a multiple of `m` does not change the Euclidean remainder. */
  lemma ModShift(x: int, m: int, k: int)
    requires m != 0
    ensures (x + m * k) % m == x % m
  {
    assert x == m * (x / m) + x % m;
    assert x + m * k == m * (x / m + k) + x % m;
    DivUnique(x + m * k, m, x / m + k, x % m);
  }

  /**
   * MathUtil.Mod: `(x % m + m) % m` with C#'s remainder.  For a positive
   * modulus it is never negative (it is the Euclidean remainder); for a
   * negative modulus it lies in `(m, 0]`; either way it differs from `x` by a
   * multiple of `m`.  A zero modulus throws.
   */
  function Mod(x: int, m: int): (r: Result<int>)
    ensures m == 0 <==> r == Failure(DivideByZeroException)
    ensures m > 0 ==> r.Success? && r.value == x % m
    ensures m < 0 ==> r.Success? && m < r.value <= 0
    ensures m != 0 ==> r.Success? && (r.value - x) % m == 0
  {
    if m == 0 then Failure(DivideByZeroException)
    else
      ModFacts(x, m);
      Success(Rem(Rem(x, m) + m, m))
  }

  /**
   * `Mod` as the source computes it, in 32-bit `int`: `x % m + m` wraps when
   * it leaves the `int` range, and `int.MinValue % -1` throws.
   */
  function ModAsWritten(x: int, m: int): (r: Result<int>)
    requires IsInt32(x) && IsInt32(m)
    ensures m == 0 <==> r == Failure(DivideByZeroException)
    ensures x == IntMin && m == -1 <==> r == Failure(OverflowException)
    ensures r.Success? ==> IsInt32(r.value)
  {
    if m == 0 then Failure(DivideByZeroException)
    else if x == IntMin && m == -1 then Failure(OverflowException)
    else Success(Rem(Wrap32(Rem(x, m) + m), m))
  }

  /** While `x % m + m` fits in an `int`, which it does whenever
   *  `|m| <= 2^30`, the 32-bit computation is `Mod`. */
  lemma ModAsWrittenAgrees(x: int, m: int)
    requires IsInt32(x) && IsInt32(m)
    requires -0x4000_0000 <= m <= 0x4000_0000
    requires !(x == IntMin && m == -1)
    ensures ModAsWritten(x, m) == Mod(x, m)
  {
  }

  /** With a modulus near `int.MaxValue` the sum wraps and the result is
   *  negative, although the modulus is positive. */
  lemma ModWrapWitness()
    ensures Mod(2147483646, 2147483647) == Success(2147483646)
    ensures ModAsWritten(2147483646, 2147483647) == Success(-3)
  {
    ModSmall(2147483646, 2147483647);
    ModAsWrittenWraps(2147483646, 2147483647);
  }

  /** When `x % m + m` passes `int.MaxValue` for a non-negative `x`, the
   *  32-bit result is that sum less 2^32, negative although `m` is positive. */
  lemma ModAsWrittenWraps(x: int, m: int)
    requires IsInt32(m) && 0 <= x < m && IntMax < x + m
    requires 0x1_0000_0000 - x - m < m
    ensures ModAsWritten(x, m) == Success(x + m - 0x1_0000_0000)
    ensures x + m - 0x1_0000_0000 < 0
  {
    RemSmall(x, m);
    WrapPast(x + m);
    RemSmall(x + m - 0x1_0000_0000, m);
  }

  /** A sum just past `int.MaxValue` wraps to a negative value. */
  lemma WrapPast(s: int)
    requires IntMax < s <= IntMax + 0x1_0000_0000
    ensures Wrap32(s) == s - 0x1_0000_0000
  {
    var k := s + 0x8000_0000 - 0x1_0000_0000;
    assert 0 <= k < 0x1_0000_0000;
    assert s + 0x8000_0000 == 0x1_0000_0000 * 1 + k;
  }

  /** The residue of a value already in `[0, m)` is the value itself. */
  lemma ModSmall(x: int, m: int)
    requires 0 <= x < m
    ensures Mod(x, m) == Success(x)
  {
    DivUnique(x, m, 0, x);
  }

  /** A dividend smaller in size than the divisor is its own remainder. */
  lemma RemSmall(a: int, b: int)
    requires Abs(a) < b
    ensures Rem(a, b) == a
  {
    assert Abs(a) / b == 0;
  }

  /** `int.MinValue % -1` throws, where the residue is 0. */
  lemma ModMinValueWitness()
    ensures Mod(IntMin, -1) == Success(0)
    ensures ModAsWritten(IntMin, -1) == Failure(OverflowException)
  {
  }

  /** C#'s remainder differs from the dividend by a multiple of the divisor. */
  lemma RemMultiple(a: int, b: int)
    requires b != 0
    ensures a - Rem(a, b) == b * Quot(a, b)
  {
  }

  lemma ModFacts(x: int, m: int)
    requires m != 0
    ensures m > 0 ==> Rem(Rem(x, m) + m, m) == x % m
    ensures m < 0 ==> m < Rem(Rem(x, m) + m, m) <= 0
    ensures (Rem(Rem(x, m) + m, m) - x) % m == 0
  {
    var s := Rem(x, m) + m;
    var v := Rem(s, m);
    RemMultiple(x, m);
    RemMultiple(s, m);
    var k := 1 - Quot(x, m) - Quot(s, m);
    assert v - x == m * k;
    ModShift(0, m, k);
    assert 0 % m == 0;
    if m > 0 {
      assert 0 < s;
      assert v == s % m;
      ModShift(x, m, 1 - Quot(x, m));
      assert s == x + m * (1 - Quot(x, m));
    }
  }

  /** MathUtil.InRange: inclusive at both ends. */
  predicate InRange(value: int, min: int, max: int)
  {
    min <= value && value <= max
  }

  /**
   * The loop bound `(int)Math.Sqrt(number)`.  For a non-negative number it is
   * the floor of the square root; for a negative number `Math.Sqrt` gives NaN,
   * and .NET converts NaN to `int.MinValue`.
   */
  function SqrtBound(number: int): (s: int)
    ensures number >= 0 ==> 0 <= s && s * s <= number < (s + 1) * (s + 1)
    ensures number < 0 ==> s < 2
  {
    if number < 0 then -0x8000_0000 else FloorSqrt(number)
  }

  function FloorSqrt(n: nat): (s: nat)
    ensures s * s <= n < (s + 1) * (s + 1)
  {
    if n == 0 then 0
    else
      var t := FloorSqrt(n - 1);
      if (t + 1) * (t + 1) <= n then t + 1 else t
  }

  /** `d` is a divisor of `n` other than 1 and `n` itself. */
  predicate ProperDivisor(n: int, d: int)
  {
    1 < d < n && n % d == 0
  }

  predicate Distinct(s: seq<int>)
  {
    forall j, k :: 0 <= j < k < |s| ==> s[j] != s[k]
  }

  /**
   * MathUtil.GetDivisors: every divisor of `number` except 1 and `number`,
   * each exactly once.  Small divisors are found by trial up to the square
   * root and paired with their cofactors.
   */
  method GetDivisors(number: int) returns (result: seq<int>)
    ensures forall d :: d in result <==> ProperDivisor(number, d)
    ensures Distinct(result)
  {
    var i := 2;
    var sqrt := SqrtBound(number);
    result := [];
    while i <= sqrt
      invariant 2 <= i
      invariant i <= sqrt + 1 || i == 2
      invariant forall d :: d in result <==> Found(number, i, d)
      invariant Distinct(result)
    {
      MulMono(i, sqrt);
      if number % i == 0 {
        FoundNotYet(number, i);
        result := result + [i];
        if i != number / i {
          result := result + [number / i];
        }
      }
      forall d
        ensures Found(number, i + 1, d) <==>
          Found(number, i, d) || (number % i == 0 && (d == i || d == number / i))
      {
        FoundStep(number, i, d);
      }
      i := i + 1;
    }
    forall d
      ensures Found(number, i, d) <==> ProperDivisor(number, d)
    {
      FoundAll(number, sqrt, i, d);
    }
  }

  /** `d` is a proper divisor already listed when the trial divisor is `i`. */
  predicate Found(n: int, i: int, d: int)
  {
    ProperDivisor(n, d) && (d < i || n / d < i)
  }

  lemma FoundStep(n: int, i: int, d: int)
    requires 2 <= i && i * i <= n
    ensures Found(n, i + 1, d) <==> Found(n, i, d) || (n % i == 0 && (d == i || d == n / i))
  {
    if Found(n, i + 1, d) && !Found(n, i, d) && d != i {
      Cofactor(n, d);
    }
    if n % i == 0 {
      Cofactor(n, i);
      MulAtLeast(i, i);
    }
  }

  lemma FoundNotYet(n: int, i: int)
    requires 2 <= i && i * i <= n && n % i == 0
    ensures !Found(n, i, i) && !Found(n, i, n / i)
  {
    Cofactor(n, i);
  }

  lemma FoundAll(n: int, s: int, i: int, d: int)
    requires s == SqrtBound(n) && 2 <= i && (i == s + 1 || (s < 2 && i == 2))
    ensures Found(n, i, d) <==> ProperDivisor(n, d)
  {
    if ProperDivisor(n, d) && d >= i && n / d >= i {
      Cofactor(n, d);
      MulMono2(s + 1, d, n / d);
      assert false;
    }
  }

  lemma MulMono(a: nat, b: nat)
    requires a <= b
    ensures a * a <= b * b
  {
    MulMono2(a, b, b);
  }

  lemma MulMono2(a: nat, b: nat, c: nat)
    requires a <= b && a <= c
    ensures a * a <= b * c
  {
    MulNonNeg(a, c - a);
    MulNonNeg(b - a, c);
    assert a * c == a * a + a * (c - a);
    assert b * c == a * c + (b - a) * c;
  }

  lemma MulNonNeg(x: nat, y: nat)
    ensures x * y >= 0
  {
  }

  /**
   * The cofactor of a divisor `i` of `n` is a divisor whose own cofactor is
   * `i`; when `i * i <= n` it is a proper divisor no smaller than `i`.
   */
  lemma Cofactor(n: int, i: int)
    requires 2 <= i && n > 0 && n % i == 0
    ensures i * (n / i) == n
    ensures n / i > 0 && n % (n / i) == 0 && n / (n / i) == i
    ensures i * i <= n ==> i <= n / i && ProperDivisor(n, n / i)
    ensures n / i < n
  {
    var c := n / i;
    assert n == i * c;
    DivUnique(n, c, i, 0);
    MulNonNeg(i - 2, c);
    assert n == 2 * c + (i - 2) * c;
    if i * i <= n && c < i {
      MulAtLeast(i, i - c);
      assert false;
    }
  }
}
