/** Python numeric primitives the scripts rely on, stated over exact reals and
    unbounded integers: a failure-carrying result, the extended real line used
    for the `-math.inf` seeds, float `round()`, `int()` truncation,
    `math.ceil`, the non-negative `%`, and list slicing `xs[:n]`. */
module Numeric {

  /** A computation that either yields a value or raises (the Python exception
      is kept as a short reason). */
  datatype Result<+T> = Ok(value: T) | Err(reason: string)
  {
    predicate IsFailure() {
      Err?
    }

    function PropagateFailure<U>(): Result<U>
      requires Err?
    {
      Err(reason)
    }

    function Extract(): T
      requires Ok?
    {
      value
    }
  }

  /** The reals extended with `-inf`, the seed of every maximum search. */
  datatype ExtReal = NegInf | Fin(v: real)
  {
    /** `h > this` with Python's float comparison (`h > -inf` always holds). */
    predicate Below(h: real) {
      NegInf? || v < h
    }

    /** `h <= this`, the negation of `Below`. */
    predicate Bounds(h: real) {
      Fin? && h <= v
    }
  }

  /** Python's `round(x)` for a float `x`: the nearest integer, halves going
      to the even neighbour. */
  function RoundHalfEven(x: real): (n: int)
    ensures -0.5 <= x - n as real <= 0.5
    ensures (x - n as real == 0.5 || x - n as real == -0.5) ==> n % 2 == 0
  {
    var f := x.Floor;
    var d := x - f as real;
    if d < 0.5 then f
    else if d > 0.5 then f + 1
    else if f % 2 == 0 then f
    else f + 1
  }

  /** The integer closest to `x` is what `RoundHalfEven` returns. */
  lemma RoundNearest(x: real, m: int)
    requires -0.5 < x - m as real < 0.5
    ensures RoundHalfEven(x) == m
  {
  }

  /** Python's `int(x)`: truncation toward zero (not Dafny's floor). */
  function Trunc(x: real): (n: int)
    ensures 0.0 <= x ==> n as real <= x < n as real + 1.0
    ensures x < 0.0 ==> n as real - 1.0 < x <= n as real
  {
    if x >= 0.0 then x.Floor else -((-x).Floor)
  }

  /** `math.ceil(x)`: the least integer not below `x`. */
  function Ceil(x: real): (n: int)
    ensures x <= n as real < x + 1.0
  {
    -((-x).Floor)
  }

  /** Python's `a % n` for a positive modulus: always in `[0, n)`, and
      congruent to `a`. Dafny's Euclidean `%` agrees with Python's floored
      `%` exactly when the divisor is positive. */
  function PyMod(a: int, n: int): (r: int)
    requires n > 0
    ensures 0 <= r < n
    ensures a == n * (a / n) + r
  {
    a % n
  }

  /** Python's `xs[:n]`: a non-negative `n` keeps at most `n` leading items, a
      negative one drops `-n` trailing items. */
  function PrefixSlice<T>(xs: seq<T>, n: int): (r: seq<T>)
    ensures n >= 0 ==> |r| == if n < |xs| then n else |xs|
    ensures n < 0 ==> |r| == if |xs| + n > 0 then |xs| + n else 0
    ensures r <= xs
  {
    if n >= 0 then
      (if n < |xs| then xs[..n] else xs)
    else
      (if |xs| + n > 0 then xs[..|xs| + n] else [])
  }
}
