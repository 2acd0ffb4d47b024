/**
 * The Castagnos–Laguillaumie linearly homomorphic encryption scheme
 * (CT-RSA 2015) over the composite-order group G of CyclicGroup.
 *
 * The class's static state (the group order, the generators f and gq, the
 * key pair sk/pk) is an immutable Context; the random choices of the class
 * (the generator of G, the secret key, the encryption randomizer r) are
 * explicit parameters. A ciphertext is the pair (c1, c2) the class returns as
 * a two-element array.
 */
module ClEncryption {
  import opened CyclicGroup

  /** The class's static fields: group order n, the random element
      `generator` of G, the generator f of the subgroup F of known order
      (plaintexts are encoded as f^m), the generator gq of the subgroup Gq of
      unknown order, and the key pair. */
  datatype Context = Context(n: int, generator: int, f: int, gq: int, sk: int, pk: int)

  /** The invariant every correctness argument relies on: all fields are
      elements of their domains and the public key is gq^sk. */
  predicate Valid(ctx: Context)
  {
    && ctx.n > 0
    && IsElem(ctx.n, ctx.generator)
    && IsElem(ctx.n, ctx.f)
    && IsElem(ctx.n, ctx.gq)
    && IsElem(ctx.n, ctx.sk)
    && ctx.pk == Pow(ctx.n, ctx.gq, ctx.sk)
  }

  /** A ciphertext: the two components of the returned array. */
  datatype Ciphertext = Ciphertext(c1: int, c2: int)

  /** Both components are elements of G. */
  predicate WellFormed(ctx: Context, c: Ciphertext)
  {
    IsElem(ctx.n, c.c1) && IsElem(ctx.n, c.c2)
  }

  /** Class initialisation for the group order n == p1*p2 (the two primes of
      the Type A1 parameters): f and gq are the cofactor powers of
      `generator`, which lie in the order-p1 and order-p2 subgroups, the
      secret key is the sampled scalar sk, and pk == gq^sk. Like the source,
      it accepts any element as `generator`; see SetupChecked. */
  function Setup(p1: int, p2: int, generator: int, sk: int): (ctx: Context)
    requires p1 > 0 && p2 > 0
    requires IsElem(p1 * p2, generator) && IsElem(p1 * p2, sk)
    ensures Valid(ctx)
    ensures ctx.n == p1 * p2 && ctx.generator == generator && ctx.sk == sk
    ensures ctx.f == Pow(ctx.n, generator, p2) && ctx.gq == Pow(ctx.n, generator, p1)
    ensures ctx.pk == Pow(ctx.n, ctx.gq, sk)
    ensures Pow(ctx.n, ctx.f, p1) == Identity()
    ensures Pow(ctx.n, ctx.gq, p2) == Identity()
  {
    var n := p1 * p2;
    CofactorPowerOrder(n, p1, p2, generator);
    assert n == p2 * p1;
    CofactorPowerOrder(n, p2, p1, generator);
    var gq := Pow(n, generator, p1);
    Context(n, generator, Pow(n, generator, p2), gq, sk, Pow(n, gq, sk))
  }

  /** The outcome of a setup that checks its generator. */
  datatype SetupResult = Ready(ctx: Context) | DegenerateGenerator

  /** Setup as evidently intended: it refuses a `generator` whose cofactor
      powers f or gq collapse to the identity. That happens exactly when the
      logarithm of `generator` is a multiple of p1 or of p2; for prime p1 and
      p2 these are the elements that do not generate G. */
  function SetupChecked(p1: int, p2: int, generator: int, sk: int): (res: SetupResult)
    requires p1 > 0 && p2 > 0
    requires IsElem(p1 * p2, generator) && IsElem(p1 * p2, sk)
    ensures res.Ready? <==> generator % p1 != 0 && generator % p2 != 0
    ensures res.Ready? ==> res.ctx == Setup(p1, p2, generator, sk)
    ensures res.Ready? ==> Valid(res.ctx) && res.ctx.f != Identity() && res.ctx.gq != Identity()
    ensures !res.Ready? ==>
      Setup(p1, p2, generator, sk).f == Identity() || Setup(p1, p2, generator, sk).gq == Identity()
  {
    var n := p1 * p2;
    CofactorPowerTrivial(n, p1, p2, generator);
    assert n == p2 * p1;
    CofactorPowerTrivial(n, p2, p1, generator);
    if Pow(n, generator, p2) != Identity() && Pow(n, generator, p1) != Identity() then
      Ready(Setup(p1, p2, generator, sk))
    else
      DegenerateGenerator
  }

  /** `clEncrypt(m)` with randomizer r: (gq^r, f^m * pk^r). The first
      component commits to r, and stripping the mask pk^r from the second
      leaves exactly the encoded message f^m. */
  function Encrypt(ctx: Context, m: int, r: int): (c: Ciphertext)
    requires Valid(ctx) && IsElem(ctx.n, m) && IsElem(ctx.n, r)
    ensures WellFormed(ctx, c)
    ensures c.c1 == Pow(ctx.n, ctx.gq, r)
    ensures Mul(ctx.n, c.c2, Invert(ctx.n, Pow(ctx.n, ctx.pk, r))) == Pow(ctx.n, ctx.f, m)
  {
    var mask := Pow(ctx.n, ctx.pk, r);
    MulCancel(ctx.n, Pow(ctx.n, ctx.f, m), mask);
    Ciphertext(Pow(ctx.n, ctx.gq, r), Mul(ctx.n, Pow(ctx.n, ctx.f, m), mask))
  }

  /** `mulHom(a, encB)`: each component raised to the scalar a. */
  function MulHom(ctx: Context, a: int, encB: Ciphertext): (c: Ciphertext)
    requires Valid(ctx) && IsElem(ctx.n, a) && WellFormed(ctx, encB)
    ensures WellFormed(ctx, c)
  {
    Ciphertext(Pow(ctx.n, encB.c1, a), Pow(ctx.n, encB.c2, a))
  }

  /** `addHom(encA, encB)`: the two ciphertexts multiplied componentwise. */
  function AddHom(ctx: Context, encA: Ciphertext, encB: Ciphertext): (c: Ciphertext)
    requires Valid(ctx) && WellFormed(ctx, encA) && WellFormed(ctx, encB)
    ensures WellFormed(ctx, c)
  {
    Ciphertext(Mul(ctx.n, encA.c1, encB.c1), Mul(ctx.n, encA.c2, encB.c2))
  }

  /** `clDecrypt(encM)`: c2 * (c1^sk)^-1. The result is the element that,
      multiplied by c1^sk, gives back c2. */
  function Decrypt(ctx: Context, encM: Ciphertext): (x: int)
    requires Valid(ctx) && WellFormed(ctx, encM)
    ensures IsElem(ctx.n, x)
    ensures Mul(ctx.n, x, Pow(ctx.n, encM.c1, ctx.sk)) == encM.c2
  {
    var temp := Pow(ctx.n, encM.c1, ctx.sk);
    MulCancel(ctx.n, encM.c2, temp);
    Mul(ctx.n, encM.c2, Invert(ctx.n, temp))
  }

  // ---------------------------------------------------------------------------
  // Decryption

  /** Decryption returns the only element x with x * c1^sk == c2. */
  lemma {:induction false} DecryptUnique(ctx: Context, encM: Ciphertext, x: int)
    requires Valid(ctx) && WellFormed(ctx, encM) && IsElem(ctx.n, x)
    requires Mul(ctx.n, x, Pow(ctx.n, encM.c1, ctx.sk)) == encM.c2
    ensures Decrypt(ctx, encM) == x
  {
    MulCancel(ctx.n, x, Pow(ctx.n, encM.c1, ctx.sk));
  }

  /** The key relation pk == gq^sk makes the encryptor's mask pk^r equal to
      what the decryptor computes from c1 = gq^r, namely (gq^r)^sk. */
  lemma {:induction false} MaskAgreement(ctx: Context, r: int)
    requires Valid(ctx) && IsElem(ctx.n, r)
    ensures Pow(ctx.n, ctx.pk, r) == Pow(ctx.n, Pow(ctx.n, ctx.gq, r), ctx.sk)
  {
    PowCommutes(ctx.n, ctx.gq, ctx.sk, r);
  }

  /** Any element x hidden as (gq^r, x * pk^r) decrypts to x: the mask pk^r
      cancels exactly. */
  lemma {:induction false} DecryptRemovesMask(ctx: Context, x: int, r: int)
    requires Valid(ctx) && IsElem(ctx.n, x) && IsElem(ctx.n, r)
    ensures Decrypt(ctx, Ciphertext(Pow(ctx.n, ctx.gq, r), Mul(ctx.n, x, Pow(ctx.n, ctx.pk, r)))) == x
  {
    MaskAgreement(ctx, r);
    MulCancel(ctx.n, x, Pow(ctx.n, ctx.pk, r));
  }

  /** Correctness: an encryption of m decrypts to f^m, whatever the randomizer. */
  lemma {:induction false} DecryptEncrypt(ctx: Context, m: int, r: int)
    requires Valid(ctx) && IsElem(ctx.n, m) && IsElem(ctx.n, r)
    ensures Decrypt(ctx, Encrypt(ctx, m, r)) == Pow(ctx.n, ctx.f, m)
  {
    DecryptRemovesMask(ctx, Pow(ctx.n, ctx.f, m), r);
  }

  // ---------------------------------------------------------------------------
  // Homomorphic addition

  /** Adding encryptions of a and b under r1 and r2 yields exactly the
      encryption of a+b under r1+r2 (both sums in Zr). */
  lemma {:induction false} AddHomEncrypt(ctx: Context, a: int, r1: int, b: int, r2: int)
    requires Valid(ctx) && IsElem(ctx.n, a) && IsElem(ctx.n, r1) && IsElem(ctx.n, b) && IsElem(ctx.n, r2)
    ensures AddHom(ctx, Encrypt(ctx, a, r1), Encrypt(ctx, b, r2))
         == Encrypt(ctx, ZrAdd(ctx.n, a, b), ZrAdd(ctx.n, r1, r2))
  {
    var n := ctx.n;
    PowAdd(n, ctx.gq, r1, r2);
    MulInterchange(n, Pow(n, ctx.f, a), Pow(n, ctx.pk, r1), Pow(n, ctx.f, b), Pow(n, ctx.pk, r2));
    PowAdd(n, ctx.f, a, b);
    PowAdd(n, ctx.pk, r1, r2);
  }

  /** Decryption turns componentwise multiplication of ciphertexts into
      multiplication of plaintext elements. */
  lemma {:induction false} DecryptAddHom(ctx: Context, encA: Ciphertext, encB: Ciphertext)
    requires Valid(ctx) && WellFormed(ctx, encA) && WellFormed(ctx, encB)
    ensures Decrypt(ctx, AddHom(ctx, encA, encB)) == Mul(ctx.n, Decrypt(ctx, encA), Decrypt(ctx, encB))
  {
    var n, sk := ctx.n, ctx.sk;
    var sum := AddHom(ctx, encA, encB);
    var xa, xb := Decrypt(ctx, encA), Decrypt(ctx, encB);
    var ya, yb := Pow(n, encA.c1, sk), Pow(n, encB.c1, sk);
    PowDistributes(n, encA.c1, encB.c1, sk);
    assert Pow(n, sum.c1, sk) == Mul(n, ya, yb);
    MulInterchange(n, xa, xb, ya, yb);
    assert Mul(n, Mul(n, xa, xb), Pow(n, sum.c1, sk)) == sum.c2;
    DecryptUnique(ctx, sum, Mul(n, xa, xb));
  }

  /** Additive homomorphism: the sum of encryptions of a and b decrypts to f^(a+b). */
  lemma {:induction false} AddHomCorrect(ctx: Context, a: int, r1: int, b: int, r2: int)
    requires Valid(ctx) && IsElem(ctx.n, a) && IsElem(ctx.n, r1) && IsElem(ctx.n, b) && IsElem(ctx.n, r2)
    ensures Decrypt(ctx, AddHom(ctx, Encrypt(ctx, a, r1), Encrypt(ctx, b, r2)))
         == Pow(ctx.n, ctx.f, ZrAdd(ctx.n, a, b))
  {
    AddHomEncrypt(ctx, a, r1, b, r2);
    DecryptEncrypt(ctx, ZrAdd(ctx.n, a, b), ZrAdd(ctx.n, r1, r2));
  }

  // ---------------------------------------------------------------------------
  // Homomorphic scalar multiplication

  /** Raising an encryption of b under r to the scalar a yields exactly the
      encryption of a*b under a*r (both products in Zr). */
  lemma {:induction false} MulHomEncrypt(ctx: Context, a: int, b: int, r: int)
    requires Valid(ctx) && IsElem(ctx.n, a) && IsElem(ctx.n, b) && IsElem(ctx.n, r)
    ensures MulHom(ctx, a, Encrypt(ctx, b, r)) == Encrypt(ctx, ZrMul(ctx.n, a, b), ZrMul(ctx.n, a, r))
  {
    var n := ctx.n;
    var fb, pr := Pow(n, ctx.f, b), Pow(n, ctx.pk, r);
    PowPow(n, ctx.gq, r, a);
    ZrMulCommutes(n, r, a);
    calc {
      Pow(n, Mul(n, fb, pr), a);
      { PowDistributes(n, fb, pr, a); }
      Mul(n, Pow(n, fb, a), Pow(n, pr, a));
      { PowPow(n, ctx.f, b, a); ZrMulCommutes(n, b, a);
        PowPow(n, ctx.pk, r, a); }
      Mul(n, Pow(n, ctx.f, ZrMul(n, a, b)), Pow(n, ctx.pk, ZrMul(n, a, r)));
    }
  }

  /** Decryption turns powering a ciphertext by a into powering the plaintext
      element by a. */
  lemma {:induction false} DecryptMulHom(ctx: Context, a: int, encB: Ciphertext)
    requires Valid(ctx) && IsElem(ctx.n, a) && WellFormed(ctx, encB)
    ensures Decrypt(ctx, MulHom(ctx, a, encB)) == Pow(ctx.n, Decrypt(ctx, encB), a)
  {
    var n, sk := ctx.n, ctx.sk;
    var scaled := MulHom(ctx, a, encB);
    var x, y := Decrypt(ctx, encB), Pow(n, encB.c1, sk);
    PowCommutes(n, encB.c1, a, sk);
    PowDistributes(n, x, y, a);
    assert Mul(n, Pow(n, x, a), Pow(n, scaled.c1, sk)) == scaled.c2;
    DecryptUnique(ctx, scaled, Pow(n, x, a));
  }

  /** Scalar homomorphism: an encryption of b raised to a decrypts to f^(a*b). */
  lemma {:induction false} MulHomCorrect(ctx: Context, a: int, b: int, r: int)
    requires Valid(ctx) && IsElem(ctx.n, a) && IsElem(ctx.n, b) && IsElem(ctx.n, r)
    ensures Decrypt(ctx, MulHom(ctx, a, Encrypt(ctx, b, r))) == Pow(ctx.n, ctx.f, ZrMul(ctx.n, a, b))
  {
    MulHomEncrypt(ctx, a, b, r);
    DecryptEncrypt(ctx, ZrMul(ctx.n, a, b), ZrMul(ctx.n, a, r));
  }

  // ---------------------------------------------------------------------------
  // Subgroups

  /** When f has order dividing p1 (as Setup makes it), every decrypted
      encryption lies in F: its p1-th power is the identity. */
  lemma {:induction false} DecryptedPlaintextInF(ctx: Context, p1: nat, m: int, r: int)
    requires Valid(ctx) && IsElem(ctx.n, m) && IsElem(ctx.n, r) && Pow(ctx.n, ctx.f, p1) == Identity()
    ensures Pow(ctx.n, Decrypt(ctx, Encrypt(ctx, m, r)), p1) == Identity()
  {
    DecryptEncrypt(ctx, m, r);
    PowKeepsOrder(ctx.n, ctx.f, p1, m);
  }

  /** When gq has order dividing p2 (as Setup makes it), the first component
      of every encryption lies in Gq: its p2-th power is the identity. */
  lemma {:induction false} RandomizerInGq(ctx: Context, p2: nat, m: int, r: int)
    requires Valid(ctx) && IsElem(ctx.n, m) && IsElem(ctx.n, r) && Pow(ctx.n, ctx.gq, p2) == Identity()
    ensures Pow(ctx.n, Encrypt(ctx, m, r).c1, p2) == Identity()
  {
    PowKeepsOrder(ctx.n, ctx.gq, p2, r);
  }

  // ---------------------------------------------------------------------------
  // A degenerate generator

  /** When gq is the identity, so is pk, and every encryption carries the
      encoded message f^m in the clear, with c1 the identity. */
  lemma {:induction false} TrivialGqUnmasks(ctx: Context, m: int, r: int)
    requires Valid(ctx) && IsElem(ctx.n, m) && IsElem(ctx.n, r) && ctx.gq == Identity()
    ensures ctx.pk == Identity()
    ensures Encrypt(ctx, m, r) == Ciphertext(Identity(), Pow(ctx.n, ctx.f, m))
  {
    PowOfIdentity(ctx.n, ctx.sk);
    PowOfIdentity(ctx.n, r);
  }

  /** Setup accepts, as the source does, an element of order 3 in a group of
      order 15: then gq and pk are the identity and Encrypt sends f^m unmasked. */
  lemma SetupAcceptsDegenerateGenerator(m: int, r: int)
    requires IsElem(15, m) && IsElem(15, r)
    ensures Setup(3, 5, 5, 7).gq == Identity() && Setup(3, 5, 5, 7).pk == Identity()
    ensures Encrypt(Setup(3, 5, 5, 7), m, r)
         == Ciphertext(Identity(), Pow(15, Setup(3, 5, 5, 7).f, m))
    ensures SetupChecked(3, 5, 5, 7) == DegenerateGenerator
  {
    var ctx := Setup(3, 5, 5, 7);
    assert Pow(15, 5, 3) == 0 by {
      assert Pow(15, 5, 1) == 5;
      assert Pow(15, 5, 2) == 10;
    }
    TrivialGqUnmasks(ctx, m, r);
  }
}
