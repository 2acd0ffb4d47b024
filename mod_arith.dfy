/**
 * Facts about Euclidean remainder by a positive modulus. They are the only
 * arithmetic the group laws of CyclicGroup need.
 */
module ModArith {

  /** Quotient and remainder are unique: any decomposition a == q*n + r with
      0 <= r < n gives the remainder Dafny's `%` computes. */
  lemma {:induction false} ModUnique(a: int, n: int, q: int, r: int)
    requires n > 0 && 0 <= r < n && a == q * n + r
    ensures a % n == r
  {
    var q0, r0 := a / n, a % n;
    assert a == q0 * n + r0;
    var d := q - q0;
    assert d * n == q * n - q0 * n;
    assert d * n == r0 - r;
    assert d == 0;
  }

  /** Adding a multiple of the modulus does not change the remainder. */
  lemma {:induction false} ModAddMultiple(a: int, k: int, n: int)
    requires n > 0
    ensures (a + k * n) % n == a % n
  {
    var q := a / n;
    assert a == q * n + a % n;
    assert a + k * n == (q + k) * n + a % n;
    ModUnique(a + k * n, n, q + k, a % n);
  }

  /** Reducing the left summand first does not change the sum's remainder. */
  lemma {:induction false} ModAddLeft(a: int, b: int, n: int)
    requires n > 0
    ensures (a % n + b) % n == (a + b) % n
  {
    var q := a / n;
    assert a == q * n + a % n;
    assert a + b == (a % n + b) + q * n;
    ModAddMultiple(a % n + b, q, n);
  }

  /** Reducing the right summand first does not change the sum's remainder. */
  lemma {:induction false} ModAddRight(a: int, b: int, n: int)
    requires n > 0
    ensures (a + b % n) % n == (a + b) % n
  {
    ModAddLeft(b, a, n);
    assert b % n + a == a + b % n;
    assert b + a == a + b;
  }

  /** Reducing the left factor first does not change the product's remainder. */
  lemma {:induction false} ModMulLeft(a: int, b: int, n: int)
    requires n > 0
    ensures (a % n * b) % n == (a * b) % n
  {
    var q := a / n;
    assert a == q * n + a % n;
    assert a * b == (q * n + a % n) * b;
    assert a * b == (a % n * b) + (q * b) * n;
    ModAddMultiple(a % n * b, q * b, n);
  }

  /** Reducing the right factor first does not change the product's remainder. */
  lemma {:induction false} ModMulRight(a: int, b: int, n: int)
    requires n > 0
    ensures (a * (b % n)) % n == (a * b) % n
  {
    ModMulLeft(b, a, n);
    assert b % n * a == a * (b % n);
    assert b * a == a * b;
  }

  /** A multiple of the modulus leaves remainder zero. */
  lemma {:induction false} ModMultipleIsZero(k: int, n: int)
    requires n > 0
    ensures (k * n) % n == 0
  {
    ModAddMultiple(0, k, n);
  }

  /** A positive factor cancels: a*c == b*c forces a == b. */
  lemma {:induction false} MulCancelFactor(a: int, b: int, c: int)
    requires c > 0 && a * c == b * c
    ensures a == b
  {
    assert (a - b) * c == 0;
  }

  /** Scaling by l preserves divisibility by k: x*l is a multiple of k*l
      exactly when x is a multiple of k. */
  lemma {:induction false} ModScaledFactor(x: int, k: int, l: int)
    requires k > 0 && l > 0
    ensures (x * l) % (k * l) == 0 <==> x % k == 0
  {
    var n, xl := k * l, x * l;
    if xl % n == 0 {
      var q := xl / n;
      assert xl == q * n;
      var qk := q * k;
      assert q * n == qk * l;
      MulCancelFactor(x, qk, l);
      ModUnique(x, k, q, 0);
    }
    if x % k == 0 {
      var q := x / k;
      assert x == q * k;
      assert xl == q * n;
      ModMultipleIsZero(q, n);
    }
  }
}
