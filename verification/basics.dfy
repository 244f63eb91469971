/** Types shared by the models. */
module Basics {

  datatype Option<+T> = None | Some(value: T)

  /** Result of an operation the source ends with a fatal report. */
  datatype Outcome<+T> = Ok(value: T) | Fatal

  /** Number of values of an unsigned 64-bit integer. */
  const TWO64: nat := 0x1_0000_0000_0000_0000

  function Min(a: real, b: real): real { if a < b then a else b }

  function Names<T(==)>(xs: seq<T>): set<T> { set x | x in xs }

  ghost predicate NoDup<T>(xs: seq<T>) { forall i, j :: 0 <= i < j < |xs| ==> xs[i] != xs[j] }
}

/** Multiplication, quotients and remainders. */
module Arithmetic {
  lemma DivMod(q: nat, d: nat, r: nat)
    requires r < d
    ensures (q * d + r) / d == q && (q * d + r) % d == r
  {
    var x := q * d + r;
    assert x == (x / d) * d + x % d;
    if x / d < q { MulLe(x / d + 1, q, d); }
    if x / d > q { MulLe(q + 1, x / d, d); }
  }

  lemma MulLe(a: nat, b: nat, d: nat)
    requires a <= b
    ensures a * d <= b * d && (a + 1) * d == a * d + d
  {
  }

  lemma QuotientBelow(x: nat, d: nat, n: nat)
    requires d >= 1 && x < n * d
    ensures 0 <= x / d < n && 0 <= x % d < d && x == (x / d) * d + x % d
  {
    assert x == (x / d) * d + x % d;
    if x / d >= n { MulLe(n, x / d, d); }
  }

  lemma ExactDivision(x: nat, d: nat)
    requires d >= 1 && x >= 1 && x % d == 0
    ensures x / d >= 1 && x == (x / d) * d && (x == d <==> x / d == 1)
  {
    assert x == (x / d) * d;
    DivMod(1, d, 0);
  }

  /** Reducing one summand first does not change the remainder. */
  lemma ModSum(a: nat, b: nat, m: nat)
    requires m >= 1
    ensures (a + b % m) % m == (a + b) % m
  {
    var x := a + b % m;
    assert b == (b / m) * m + b % m;
    assert x == (x / m) * m + x % m;
    assert (x / m + b / m) * m == (x / m) * m + (b / m) * m;
    DivMod(x / m + b / m, m, x % m);
  }
}
