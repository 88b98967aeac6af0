/** C++ `int` as used by the demos: a 32-bit two's-complement integer, and its `%` operator. */
module CppInt {

  newtype int32 = x: int | -0x8000_0000 <= x < 0x8000_0000


  /** C++ `a / b`: the quotient truncated toward zero. Dafny's own `/` is Euclidean. */
  function CppQuot(a: int, b: int): int
    requires b != 0
  {
    if a >= 0 then a / b else -((-a) / b)
  }

  /** C++ `a % b`: the remainder of division truncated toward zero, so it takes the sign of `a`,
      and `(a / b) * b + a % b == a`. Dafny's own `%` is Euclidean (never negative); they
      differ for negative `a`. */
  function CppRem(a: int, b: int): (r: int)
    requires b != 0
    ensures -Abs(b) < r < Abs(b)
    ensures a >= 0 ==> r >= 0
    ensures a < 0 ==> r <= 0
    ensures a == CppQuot(a, b) * b + r
  {
    if a >= 0 then
      assert a == (a / b) * b + a % b;
      a % b
    else
      assert -a == ((-a) / b) * b + (-a) % b;
      assert a == (-((-a) / b)) * b + -((-a) % b);
      -((-a) % b)
  }

  function Abs(x: int): int { if x < 0 then -x else x }

  /** C++ `-a % b == -(a % b)`: truncation makes the remainder odd in its first operand,
      which the Euclidean remainder is not. */
  lemma CppRemOdd(a: int, b: int)
    requires b != 0
    ensures CppRem(-a, b) == -CppRem(a, b)
  {
    if a == 0 {
      assert CppRem(0, b) == 0 % b == 0;
    } else if a > 0 {
      assert CppRem(-a, b) == -(a % b);
    } else {
      assert CppRem(a, b) == -((-a) % b);
    }
  }

  /** A remainder of zero means a multiple: `num % divisor == 0` holds exactly when `num` is an
      integer multiple of `divisor`, the C++ quotient being the factor. */
  lemma DivisibleByIsMultiple(num: int32, divisor: int32, q: int)
    requires divisor != 0
    ensures DivisibleBy(num, divisor) ==> num as int == CppQuot(num as int, divisor as int) * divisor as int
    ensures num as int == q * divisor as int ==> DivisibleBy(num, divisor)
  {
    var a, b := num as int, divisor as int;
    var r := CppRem(a, b);
    if a == q * b {
      var q' := CppQuot(a, b);
      assert r == (q - q') * b;
      MultipleMagnitude(q - q', b);
    }
  }

  /** A multiple of `b` other than zero is at least as large as `b` in magnitude. */
  lemma MultipleMagnitude(k: int, b: int)
    ensures k * b == 0 || Abs(k * b) >= Abs(b)
  {
    if k >= 1 && b > 0 {
      assert k * b == (k - 1) * b + b;
      assert (k - 1) * b >= 0;
    } else if k >= 1 && b < 0 {
      assert k * b == (k - 1) * b + b;
      assert (k - 1) * b <= 0;
    } else if k <= -1 && b > 0 {
      assert k * b == (k + 1) * b - b;
      assert (k + 1) * b <= 0;
    } else if k <= -1 && b < 0 {
      assert k * b == (k + 1) * b - b;
      assert (k + 1) * b >= 0;
    }
  }

  /** The divisibility test the lambdas use, `num % divisor == 0`, on C++ ints. */
  predicate DivisibleBy(num: int32, divisor: int32)
    requires divisor != 0
  {
    CppRem(num as int, divisor as int) == 0
  }
}
