/** Division with a variable divisor, one fact at a time. */
module Arith {

  lemma {:induction false} MulStep(b: nat, i: nat, j: nat)
    requires i < j
    ensures (i + 1) * b == i * b + b <= j * b
    decreases j
  {
    if i + 1 < j {
      MulStep(b, i, j - 1);
      assert j * b == (j - 1) * b + b;
    }
  }

  lemma DivMod(a: nat, n: nat)
    requires n > 0
    ensures a / n * n + a % n == a && 0 <= a % n < n
  {}

  lemma DivModUnique(a: nat, n: nat, q: nat, r: nat)
    requires n > 0 && a == q * n + r && r < n
    ensures a / n == q && a % n == r
  {
    var d := a / n;
    DivMod(a, n);
    if d < q { MulStep(n, d, q); } else if q < d { MulStep(n, q, d); }
  }

  predicate Multiple(a: nat, n: nat)
    requires n > 0
  {
    a % n == 0
  }

  lemma MultipleOf(k: nat, n: nat)
    requires n > 0
    ensures Multiple(k * n, n)
  {
    DivModUnique(k * n, n, k, 0);
  }

  lemma MultipleSum(a: nat, b: nat, n: nat)
    requires n > 0 && Multiple(a, n) && Multiple(b, n)
    ensures Multiple(a + b, n) && (b <= a ==> Multiple(a - b, n))
  {
    DivMod(a, n);
    DivMod(b, n);
    var i, j := a / n, b / n;
    assert (i + j) * n == i * n + j * n;
    MultipleOf(i + j, n);
    if b <= a {
      if i < j { MulStep(n, i, j); }
      assert (i - j) * n == i * n - j * n;
      MultipleOf(i - j, n);
    }
  }

  lemma MultipleTransitive(a: nat, m: nat, n: nat)
    requires m > 0 && n > 0 && Multiple(a, m) && Multiple(m, n)
    ensures Multiple(a, n)
  {
    DivMod(a, m);
    DivMod(m, n);
    var i, j := a / m, m / n;
    assert a == i * m && m == j * n;
    assert i * (j * n) == (i * j) * n;
    MultipleOf(i * j, n);
  }

  // two multiples that differ, differ by at least n
  lemma MultipleGap(a: nat, b: nat, n: nat)
    requires n > 0 && Multiple(a, n) && Multiple(b, n) && a < b
    ensures a + n <= b
  {
    MultipleSum(b, a, n);
    var d := b - a;
    DivMod(d, n);
    if d / n > 0 { MulStep(n, 0, d / n); }
  }

  /** The largest multiple of n up to a. */
  function AlignDown(a: nat, n: nat): (r: nat)
    requires n > 0
    ensures Multiple(r, n) && r <= a < r + n
  {
    DivMod(a, n);
    MultipleOf(a / n, n);
    a - a % n
  }

  /** The smallest multiple of n from a on. */
  function AlignUp(a: nat, n: nat): (r: nat)
    requires n > 0
    ensures Multiple(r, n) && a <= r < a + n
  {
    AlignDown(a + n - 1, n)
  }

  lemma AlignDownIs(a: nat, n: nat, r: nat)
    requires n > 0 && Multiple(r, n) && r <= a < r + n
    ensures AlignDown(a, n) == r
  {
    var d := AlignDown(a, n);
    if d < r { MultipleGap(d, r, n); } else if r < d { MultipleGap(r, d, n); }
  }

  lemma AlignUpIs(a: nat, n: nat, r: nat)
    requires n > 0 && Multiple(r, n) && a <= r < a + n
    ensures AlignUp(a, n) == r
  {
    AlignDownIs(a + n - 1, n, r);
  }
}
