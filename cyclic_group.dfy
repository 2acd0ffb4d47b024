/**
 * The composite-order group G of a Type A1 pairing, and its scalar ring Zr,
 * both of order n.
 *
 * G is cyclic, so every element is written as its discrete logarithm with
 * respect to one fixed generator of G: an integer in [0, n), with the
 * identity element at 0. Under that representation
 *   x.mul(y)    is  x + y  (mod n),
 *   x.invert()  is  -x     (mod n),
 *   x.powZn(e)  is  x multiplied by itself e times.
 * Zr, the ring the scalars sk, r, m and a are drawn from, has the same order
 * n; its `add` is addition mod n and its `mul` is repeated addition.
 *
 * The operations are defined on elements already in range, so that none of
 * them divides by n; the bridge lemmas `...IsMod` connect each of them to
 * Euclidean remainder, which is where the proofs of the laws take place.
 */
module CyclicGroup {
  import opened ModArith

  /** x is (the discrete log of) an element of the group of order n, or a
      scalar of Zr. */
  predicate IsElem(n: int, x: int)
  {
    0 <= x < n
  }

  /** The neutral element of G. */
  function Identity(): int
  {
    0
  }

  /** Group multiplication, `Element.mul` on elements of G. */
  function Mul(n: int, x: int, y: int): (z: int)
    requires n > 0 && IsElem(n, x) && IsElem(n, y)
    ensures IsElem(n, z)
  {
    if x + y < n then x + y else x + y - n
  }

  /** The group inverse, `Element.invert`. */
  function Invert(n: int, x: int): (z: int)
    requires n > 0 && IsElem(n, x)
    ensures IsElem(n, z)
    ensures Mul(n, x, z) == Identity() && Mul(n, z, x) == Identity()
  {
    if x == 0 then 0 else n - x
  }

  /** Exponentiation, `Element.powZn` by a scalar of Zr and `Element.pow` by
      an integer: x multiplied by itself e times. */
  function Pow(n: int, x: int, e: nat): (z: int)
    requires n > 0 && IsElem(n, x)
    ensures IsElem(n, z)
  {
    if e == 0 then Identity() else Mul(n, Pow(n, x, e - 1), x)
  }

  /** Addition in Zr, `Element.add` on scalars. Zr and G both have order n
      and G's elements are written as logarithms, so adding two scalars is
      the same computation as multiplying two elements. */
  function ZrAdd(n: int, a: int, b: int): (c: int)
    requires n > 0 && IsElem(n, a) && IsElem(n, b)
    ensures IsElem(n, c)
  {
    Mul(n, a, b)
  }

  /** Multiplication in Zr, `Element.mul` on scalars: a added to itself b times. */
  function ZrMul(n: int, a: int, b: nat): (c: int)
    requires n > 0 && IsElem(n, a)
    ensures IsElem(n, c)
  {
    if b == 0 then 0 else ZrAdd(n, ZrMul(n, a, b - 1), a)
  }

  // ---------------------------------------------------------------------------
  // Bridges to Euclidean remainder

  lemma {:induction false} MulIsMod(n: int, x: int, y: int)
    requires n > 0 && IsElem(n, x) && IsElem(n, y)
    ensures Mul(n, x, y) == (x + y) % n
  {
    if x + y < n {
      ModUnique(x + y, n, 0, x + y);
    } else {
      ModUnique(x + y, n, 1, x + y - n);
    }
  }

  lemma {:induction false} ZrAddIsMod(n: int, a: int, b: int)
    requires n > 0 && IsElem(n, a) && IsElem(n, b)
    ensures ZrAdd(n, a, b) == (a + b) % n
  {
    MulIsMod(n, a, b);
  }

  /** x^e is the logarithm x times e, reduced mod n. */
  lemma {:induction false} PowIsMod(n: int, x: int, e: nat)
    requires n > 0 && IsElem(n, x)
    ensures Pow(n, x, e) == (x * e) % n
  {
    if e == 0 {
      ModUnique(0, n, 0, 0);
    } else {
      PowIsMod(n, x, e - 1);
      MulIsMod(n, Pow(n, x, e - 1), x);
      ModAddLeft(x * (e - 1), x, n);
      assert x * (e - 1) + x == x * e;
    }
  }

  /** The Zr product of a and b is a*b reduced mod n. */
  lemma {:induction false} ZrMulIsMod(n: int, a: int, b: nat)
    requires n > 0 && IsElem(n, a)
    ensures ZrMul(n, a, b) == (a * b) % n
  {
    if b == 0 {
      ModUnique(0, n, 0, 0);
    } else {
      ZrMulIsMod(n, a, b - 1);
      ZrAddIsMod(n, ZrMul(n, a, b - 1), a);
      ModAddLeft(a * (b - 1), a, n);
      assert a * (b - 1) + a == a * b;
    }
  }

  /** Zr multiplication is commutative. */
  lemma {:induction false} ZrMulCommutes(n: int, a: int, b: int)
    requires n > 0 && IsElem(n, a) && IsElem(n, b)
    ensures ZrMul(n, a, b) == ZrMul(n, b, a)
  {
    ZrMulIsMod(n, a, b);
    ZrMulIsMod(n, b, a);
    assert a * b == b * a;
  }

  // ---------------------------------------------------------------------------
  // Group laws

  /** Regrouping four factors: (x*y)*(u*v) == (x*u)*(y*v). */
  lemma MulInterchange(n: int, x: int, y: int, u: int, v: int)
    requires n > 0 && IsElem(n, x) && IsElem(n, y) && IsElem(n, u) && IsElem(n, v)
    ensures Mul(n, Mul(n, x, y), Mul(n, u, v)) == Mul(n, Mul(n, x, u), Mul(n, y, v))
  {
  }

  /** Multiplying by y and then by y's inverse gives back x, in either order. */
  lemma MulCancel(n: int, x: int, y: int)
    requires n > 0 && IsElem(n, x) && IsElem(n, y)
    ensures Mul(n, Mul(n, x, y), Invert(n, y)) == x
    ensures Mul(n, Mul(n, x, Invert(n, y)), y) == x
  {
  }

  // ---------------------------------------------------------------------------
  // Exponentiation laws

  /** Every power of the identity is the identity. */
  lemma {:induction false} PowOfIdentity(n: int, e: nat)
    requires n > 0
    ensures Pow(n, Identity(), e) == Identity()
  {
    if e > 0 {
      PowOfIdentity(n, e - 1);
    }
  }

  /** x^a * x^b == x^(a+b), the sum taken in Zr. */
  lemma {:induction false} PowAdd(n: int, x: int, a: int, b: int)
    requires n > 0 && IsElem(n, x) && IsElem(n, a) && IsElem(n, b)
    ensures Mul(n, Pow(n, x, a), Pow(n, x, b)) == Pow(n, x, ZrAdd(n, a, b))
  {
    PowIsMod(n, x, a);
    PowIsMod(n, x, b);
    MulIsMod(n, Pow(n, x, a), Pow(n, x, b));
    ZrAddIsMod(n, a, b);
    PowIsMod(n, x, ZrAdd(n, a, b));
    ModAddLeft(x * a, (x * b) % n, n);
    ModAddRight(x * a, x * b, n);
    ModMulRight(x, a + b, n);
    assert x * a + x * b == x * (a + b);
  }

  /** (x^a)^b == x^(a*b), the product taken in Zr. */
  lemma {:induction false} PowPow(n: int, x: int, a: int, b: int)
    requires n > 0 && IsElem(n, x) && IsElem(n, a) && IsElem(n, b)
    ensures Pow(n, Pow(n, x, a), b) == Pow(n, x, ZrMul(n, a, b))
  {
    var xa, ab := x * a, a * b;
    calc {
      Pow(n, Pow(n, x, a), b);
      { PowIsMod(n, x, a); PowIsMod(n, Pow(n, x, a), b); }
      (xa % n * b) % n;
      { ModMulLeft(xa, b, n); }
      (xa * b) % n;
      { assert xa * b == x * ab; }
      (x * ab) % n;
      { ModMulRight(x, ab, n); }
      (x * (ab % n)) % n;
      { ZrMulIsMod(n, a, b); PowIsMod(n, x, ZrMul(n, a, b)); }
      Pow(n, x, ZrMul(n, a, b));
    }
  }

  /** (x^a)^b == (x^b)^a: exponents commute. */
  lemma {:induction false} PowCommutes(n: int, x: int, a: nat, b: nat)
    requires n > 0 && IsElem(n, x)
    ensures Pow(n, Pow(n, x, a), b) == Pow(n, Pow(n, x, b), a)
  {
    var xa, xb := x * a, x * b;
    calc {
      Pow(n, Pow(n, x, a), b);
      { PowIsMod(n, x, a); PowIsMod(n, Pow(n, x, a), b); }
      (xa % n * b) % n;
      { ModMulLeft(xa, b, n); }
      (xa * b) % n;
      { assert xa * b == xb * a; }
      (xb * a) % n;
      { ModMulLeft(xb, a, n); }
      (xb % n * a) % n;
      { PowIsMod(n, x, b); PowIsMod(n, Pow(n, x, b), a); }
      Pow(n, Pow(n, x, b), a);
    }
  }

  /** (x*y)^a == x^a * y^a: G is abelian, so powering distributes over mul. */
  lemma {:induction false} PowDistributes(n: int, x: int, y: int, a: nat)
    requires n > 0 && IsElem(n, x) && IsElem(n, y)
    ensures Pow(n, Mul(n, x, y), a) == Mul(n, Pow(n, x, a), Pow(n, y, a))
  {
    MulIsMod(n, x, y);
    PowIsMod(n, Mul(n, x, y), a);
    PowIsMod(n, x, a);
    PowIsMod(n, y, a);
    MulIsMod(n, Pow(n, x, a), Pow(n, y, a));
    ModMulLeft(x + y, a, n);
    ModAddLeft(x * a, (y * a) % n, n);
    ModAddRight(x * a, y * a, n);
    assert (x + y) * a == x * a + y * a;
  }

  /** In a group of order n == k*l, the cofactor power x^l has order dividing k. */
  lemma {:induction false} CofactorPowerOrder(n: int, k: nat, l: nat, x: int)
    requires k > 0 && l > 0 && n == k * l && IsElem(n, x)
    ensures Pow(n, Pow(n, x, l), k) == Identity()
  {
    var xl := x * l;
    calc {
      Pow(n, Pow(n, x, l), k);
      { PowIsMod(n, x, l); PowIsMod(n, Pow(n, x, l), k); }
      (xl % n * k) % n;
      { ModMulLeft(xl, k, n); }
      (xl * k) % n;
      { assert xl * k == x * n; }
      (x * n) % n;
      { ModMultipleIsZero(x, n); }
      Identity();
    }
  }

  /** In a group of order n == k*l, the cofactor power x^l is the identity
      exactly when the logarithm x is a multiple of k. */
  lemma {:induction false} CofactorPowerTrivial(n: int, k: int, l: int, x: int)
    requires k > 0 && l > 0 && n == k * l && IsElem(n, x)
    ensures Pow(n, x, l) == Identity() <==> x % k == 0
  {
    PowIsMod(n, x, l);
    ModScaledFactor(x, k, l);
  }

  /** If x^k is the identity then so is (x^m)^k: every power of x stays in
      the subgroup of exponent k that x generates. */
  lemma {:induction false} PowKeepsOrder(n: int, x: int, k: nat, m: nat)
    requires n > 0 && IsElem(n, x) && Pow(n, x, k) == Identity()
    ensures Pow(n, Pow(n, x, m), k) == Identity()
  {
    PowCommutes(n, x, m, k);
    PowOfIdentity(n, m);
  }
}
