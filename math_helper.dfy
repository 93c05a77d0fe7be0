/**
 * The integer overloads of MathHelper: Clamp, Max and Min over an int
 * array, and the factorials, whose products wrap around in 32 bits
 * (Factorial) and 64 bits (BigFactorial) as C# unchecked arithmetic does.
 */
module MathHelpers {
  import BigEndian

  const Int32Min: int := -0x8000_0000
  const Int32Max: int := 0x7fff_ffff

  predicate IsInt32(v: int) { Int32Min <= v <= Int32Max }

  /**
   * Clamp(int): min below the range, max above it, the value itself inside.
   * With min <= max the result lies in [min, max], and is the value exactly
   * when that does.
   */
  function Clamp(value: int, min: int, max: int): (r: int)
    ensures r == value || r == min || r == max
    ensures min <= max ==> min <= r <= max && (r == value <==> min <= value <= max)
  {
    if value < min then min
    else if value > max then max
    else value
  }

  /** Max(params int[]): the largest element; int.MinValue for an empty array. */
  method Max(values: array<int>) returns (max: int)
    requires forall k :: 0 <= k < values.Length ==> IsInt32(values[k])
    ensures values.Length == 0 ==> max == Int32Min
    ensures forall k :: 0 <= k < values.Length ==> values[k] <= max
    ensures values.Length > 0 ==> exists k :: 0 <= k < values.Length && values[k] == max
  {
    max := Int32Min;
    for i := 0 to values.Length
      invariant forall k :: 0 <= k < i ==> values[k] <= max
      invariant i == 0 ==> max == Int32Min
      invariant i > 0 ==> exists k :: 0 <= k < i && values[k] == max
    {
      if values[i] > max {
        max := values[i];
      }
    }
  }

  /** Min(params int[]): the smallest element; int.MaxValue for an empty array. */
  method Min(values: array<int>) returns (min: int)
    requires forall k :: 0 <= k < values.Length ==> IsInt32(values[k])
    ensures values.Length == 0 ==> min == Int32Max
    ensures forall k :: 0 <= k < values.Length ==> min <= values[k]
    ensures values.Length > 0 ==> exists k :: 0 <= k < values.Length && values[k] == min
  {
    min := Int32Max;
    for i := 0 to values.Length
      invariant forall k :: 0 <= k < i ==> min <= values[k]
      invariant i == 0 ==> min == Int32Max
      invariant i > 0 ==> exists k :: 0 <= k < i && values[k] == min
    {
      if values[i] < min {
        min := values[i];
      }
    }
  }

  /** The exact product 2 * 3 * ... * n; 1 for n <= 1. */
  function Fact(n: int): nat
    decreases n
  {
    if n <= 1 then 1 else Fact(n - 1) * n
  }

  /** The moduli of C# int and long arithmetic. */
  const IntModulus: int := 0x1_0000_0000
  const LongModulus: int := 0x1_0000_0000_0000_0000

  /** Two's-complement wrap-around modulo m (2^32 for int, 2^64 for long). */
  function Wrap(x: int, m: int): (r: int)
    requires m > 0 && m % 2 == 0
    ensures -(m / 2) <= r < m / 2
  {
    (x + m / 2) % m - m / 2
  }

  /** Wrapping is blind to multiples of m. */
  lemma WrapShift(x: int, t: int, m: int)
    requires m > 0 && m % 2 == 0
    ensures Wrap(x + t * m, m) == Wrap(x, m)
  {
    var q := (x + m / 2) / m;
    var r := (x + m / 2) % m;
    assert x + t * m + m / 2 == (q + t) * m + r;
    BigEndian.DivModUnique(x + t * m + m / 2, m, q + t, r);
  }

  /** A value already in range is its own wrap. */
  lemma WrapInRange(x: int, m: int)
    requires m > 0 && m % 2 == 0 && -(m / 2) <= x < m / 2
    ensures Wrap(x, m) == x
  {
    BigEndian.DivModUnique(x + m / 2, m, 0, x + m / 2);
  }

  /** Multiplying a wrapped value and wrapping again is wrapping the exact product. */
  lemma WrapMul(x: int, y: int, m: int)
    requires m > 0 && m % 2 == 0
    ensures Wrap(Wrap(x, m) * y, m) == Wrap(x * y, m)
  {
    var t := (x + m / 2) / m;
    assert Wrap(x, m) == x - t * m;
    assert Wrap(x, m) * y == x * y + (-t * y) * m;
    WrapShift(x * y, -t * y, m);
  }

  /** The loop `for (i = 2; i <= value; i++) result *= i` in arithmetic modulo m. */
  method WrappedFactorial(value: int, m: int) returns (result: int)
    requires m > 2 && m % 2 == 0
    ensures result == Wrap(Fact(value), m)
  {
    WrapInRange(1, m);
    result := 1;
    var i := 2;
    while i <= value
      invariant 2 <= i <= (if value < 2 then 2 else value + 1)
      invariant result == Wrap(Fact(i - 1), m)
      decreases value - i
    {
      WrapMul(Fact(i - 1), i, m);
      result := Wrap(result * i, m);
      i := i + 1;
    }
  }

  /**
   * Factorial: the product in 32-bit int arithmetic. At int.MaxValue the
   * loop of the code does not end (FactorialLoopSpins); the model stops
   * short of it.
   */
  method Factorial(value: int) returns (result: int)
    requires IsInt32(value) && value < Int32Max
    ensures result == Wrap(Fact(value), IntModulus) && IsInt32(result)
  {
    result := WrappedFactorial(value, IntModulus);
  }

  /** BigFactorial: the product in 64-bit long arithmetic; like Factorial, short of int.MaxValue. */
  method BigFactorial(value: int) returns (result: int)
    requires IsInt32(value) && value < Int32Max
    ensures result == Wrap(Fact(value), LongModulus)
    ensures -0x8000_0000_0000_0000 <= result < 0x8000_0000_0000_0000
  {
    result := WrappedFactorial(value, LongModulus);
  }

  /** The loop counter of both factorials as written: an int, its increment wrapping around. */
  function NextCounter(i: int): (j: int)
    ensures IsInt32(j)
  {
    Wrap(i + 1, IntModulus)
  }

  /**
   * With value == int.MaxValue the loop `for (int i = 2; i <= value; i++)`
   * never exits: every int passes the test i <= value, and the increment
   * takes int.MaxValue to int.MinValue, so the counter never leaves the ints.
   */
  lemma FactorialLoopSpins(value: int)
    requires value == Int32Max
    ensures forall i :: IsInt32(i) ==> i <= value && IsInt32(NextCounter(i))
    ensures NextCounter(Int32Max) == Int32Min
  {
    WrapShift(Int32Min, 1, IntModulus);
    WrapInRange(Int32Min, IntModulus);
  }

  lemma {:induction false} FactMonotone(m: int, n: int)
    requires m <= n
    ensures Fact(m) <= Fact(n)
    decreases n - m
  {
    if m < n {
      FactMonotone(m, n - 1);
      if n > 1 {
        MulMonotone(Fact(n - 1), n);
      }
    }
  }

  lemma MulMonotone(a: nat, b: int)
    requires b >= 1
    ensures a <= a * b
  {
  }

  lemma Fact12()
    ensures Fact(12) == 479001600
  {
    assert Fact(2) == 2;
    assert Fact(3) == 6;
    assert Fact(4) == 24;
    assert Fact(5) == 120;
    assert Fact(6) == 720;
    assert Fact(7) == 5040;
    assert Fact(8) == 40320;
    assert Fact(9) == 362880;
    assert Fact(10) == 3628800;
    assert Fact(11) == 39916800;
  }

  lemma Fact20()
    ensures Fact(13) == 6227020800
    ensures Fact(20) == 2432902008176640000
  {
    Fact12();
    assert Fact(13) == 6227020800;
    assert Fact(14) == 87178291200;
    assert Fact(15) == 1307674368000;
    assert Fact(16) == 20922789888000;
    assert Fact(17) == 355687428096000;
    assert Fact(18) == 6402373705728000;
    assert Fact(19) == 121645100408832000;
  }

  /** Factorial is exact up to 12!, the largest factorial that fits in an int. */
  lemma FactorialExact(value: int)
    requires value <= 12
    ensures Wrap(Fact(value), IntModulus) == Fact(value)
  {
    FactMonotone(value, 12);
    Fact12();
    WrapInRange(Fact(value), IntModulus);
  }

  /** 13! does not fit in an int: Factorial(13) is 1932053504, not 6227020800. */
  lemma FactorialWrapsAt13()
    ensures Fact(13) == 6227020800 && Wrap(Fact(13), IntModulus) == 1932053504
  {
    Fact20();
    WrapShift(1932053504, 1, IntModulus);
    WrapInRange(1932053504, IntModulus);
  }

  /** BigFactorial is exact up to 20!, the largest factorial that fits in a long. */
  lemma BigFactorialExact(value: int)
    requires value <= 20
    ensures Wrap(Fact(value), LongModulus) == Fact(value)
  {
    FactMonotone(value, 20);
    Fact20();
    WrapInRange(Fact(value), LongModulus);
  }
}
