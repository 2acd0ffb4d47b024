# CL encryption over a composite-order group, in Dafny

This project models `ClEncryption`, a Java class that implements the
Castagnos–Laguillaumie linearly homomorphic encryption scheme (G. Castagnos
and F. Laguillaumie, "Linearly homomorphic encryption from DDH", CT-RSA 2015).
The class works in the group G of a Type A1 pairing, whose order is
n = p1·p2. From a random element `generator` it derives `f`, in the
order-p1 subgroup F, which encodes plaintexts as `f^m`. It also derives
`gq`, in the order-p2 subgroup Gq. It samples a secret key `sk` and publishes `pk = gq^sk`. It
provides four operations:

- `clEncrypt(m)` returns `(gq^r, f^m · pk^r)` for a fresh random `r`;
- `mulHom(a, enc)` raises both components to the scalar `a`;
- `addHom(encA, encB)` multiplies the ciphertexts componentwise;
- `clDecrypt(enc)` returns `c2 · (c1^sk)^-1`, which is `f^m`.

G is cyclic, so the model writes every group element as its discrete
logarithm with respect to one fixed generator of G. That is an integer in
[0, n), and the identity is 0. Group multiplication is addition mod n, and
`invert` is negation mod n. `powZn(e)` is the element multiplied by itself e
times. The scalar ring Zr of a Type A1 pairing has the same order n. Its
`add` is addition mod n, and its `mul` is repeated addition. Each operation
takes arguments that are already in range. Bridge lemmas state what each
one computes: `CyclicGroup.MulIsMod` and `CyclicGroup.ZrAddIsMod` give the
sum modulo n, `CyclicGroup.PowIsMod` the logarithm times the exponent modulo
n, and `CyclicGroup.ZrMulIsMod` the product modulo n. `Invert` has no bridge
lemma; its own contract makes it a two-sided inverse under `Mul`. Scalars (`sk`, `m`, `r`, `a`) are elements of Zr, so the model requires
them to lie in [0, n), as the source's `Element` types do.

Files:

- `mod_arith.dfy` (module `ModArith`): facts about remainders modulo a
  positive n.
- `cyclic_group.dfy` (module `CyclicGroup`): the group G and the ring Zr on
  that representation, with the group and exponent laws the scheme uses.
- `cl_encryption.dfy` (module `ClEncryption`): the class itself. Its static
  fields form an immutable `Context` record. Its random choices (the element
  `generator`, `sk`, and each encryption randomizer `r`) are explicit
  parameters. A ciphertext is a two-field `Ciphertext` record, not a
  two-element array.

The central results:

- decryption inverts encryption for every message and randomizer
  (`DecryptEncrypt`);
- adding two encryptions gives exactly the encryption of the sum under the
  sum of the randomizers (`AddHomEncrypt`);
- scaling an encryption gives exactly the encryption of the product under the
  scaled randomizer (`MulHomEncrypt`);
- decryption is a homomorphism from ciphertexts to G (`DecryptAddHom`,
  `DecryptMulHom`);
- all of this rests on the key relation `pk = gq^sk` (`MaskAgreement`).

## Model

| member | source | states |
|---|---|---|
| `ClEncryption.Setup` | src/main/java/org/example/ClEncryption.java:31-45 | For a group of order p1·p2, f is generator^p2 and gq is generator^p1 (the cofactor powers), and pk is gq^sk, so the static state satisfies the scheme invariant. f lies in F and gq lies in Gq: their orders divide p1 and p2. Like the source, it accepts any generator (see Findings). |
| `ClEncryption.SetupChecked` | src/main/java/org/example/ClEncryption.java:29-39 | Setup as evidently intended. It succeeds exactly when the logarithm of `generator` is a multiple of neither p1 nor p2; for prime p1 and p2 this means `generator` generates G. On success it returns Setup's context, with f and gq both different from the identity. When it refuses, Setup's f or gq is the identity. |
| `ClEncryption.TrivialGqUnmasks` | src/main/java/org/example/ClEncryption.java:86-90 | If gq is the identity, then so is pk, and every encryption is (identity, f^m): the message encoding travels unmasked. |
| `ClEncryption.SetupAcceptsDegenerateGenerator` | src/main/java/org/example/ClEncryption.java:29-31 | With p1 = 3, p2 = 5 and a generator of order 3, Setup yields gq = pk = identity and Encrypt yields (identity, f^m). SetupChecked refuses that generator. |
| `ClEncryption.MaskAgreement` | src/main/java/org/example/ClEncryption.java:41-45 | Because pk = gq^sk, the encryptor's mask pk^r equals (gq^r)^sk, which the decryptor computes from c1. |
| `ClEncryption.Encrypt` | src/main/java/org/example/ClEncryption.java:79-91 | The ciphertext has two group elements. c1 is gq^r. Removing the mask pk^r from c2 leaves exactly f^m. |
| `ClEncryption.Decrypt` | src/main/java/org/example/ClEncryption.java:123-132 | The result is a group element. For a well-formed pair, multiplying the result by c1^sk gives back c2. |
| `ClEncryption.DecryptUnique` | src/main/java/org/example/ClEncryption.java:129-132 | Decryption returns the only element x with x · c1^sk = c2. |
| `ClEncryption.DecryptRemovesMask` | src/main/java/org/example/ClEncryption.java:129-132 | Every pair (gq^r, X · pk^r) decrypts to X, so the mask cancels exactly. |
| `ClEncryption.DecryptEncrypt` | src/main/java/org/example/ClEncryption.java:123-132 | Correctness: for every m and r, decrypting the encryption of m under r gives f^m. |
| `ClEncryption.MulHom` | src/main/java/org/example/ClEncryption.java:101-105 | Raising both components to a gives a well-formed two-component ciphertext. What that ciphertext means is stated by MulHomEncrypt and DecryptMulHom. |
| `ClEncryption.MulHomEncrypt` | src/main/java/org/example/ClEncryption.java:93-104 | mulHom(a, Enc(b, r)) is exactly (gq^(a·r), f^(a·b) · pk^(a·r)), which is Enc(a·b, a·r) with the products taken in Zr. |
| `ClEncryption.DecryptMulHom` | src/main/java/org/example/ClEncryption.java:101-105 | Decrypting c^a gives the a-th power of c's decryption, for every well-formed c. |
| `ClEncryption.MulHomCorrect` | src/main/java/org/example/ClEncryption.java:71-73 | Scalar homomorphism: decrypting mulHom(a, Enc(b)) gives f^(a·b). |
| `ClEncryption.AddHom` | src/main/java/org/example/ClEncryption.java:115-121 | Componentwise multiplication gives a well-formed two-component ciphertext. What that ciphertext means is stated by AddHomEncrypt and DecryptAddHom. |
| `ClEncryption.AddHomEncrypt` | src/main/java/org/example/ClEncryption.java:115-120 | addHom(Enc(a, r1), Enc(b, r2)) is exactly (gq^(r1+r2), f^(a+b) · pk^(r1+r2)), which is Enc(a+b, r1+r2) with the sums taken in Zr. |
| `ClEncryption.DecryptAddHom` | src/main/java/org/example/ClEncryption.java:107-121 | Decrypting a componentwise product gives the product of the two decryptions, for all well-formed inputs. |
| `ClEncryption.AddHomCorrect` | src/main/java/org/example/ClEncryption.java:74-76 | Additive homomorphism: decrypting addHom(Enc(a), Enc(b)) gives f^(a+b). |
| `ClEncryption.DecryptedPlaintextInF` | src/main/java/org/example/ClEncryption.java:32-35 | If f has order dividing p1, every decrypted encryption lies in F: its p1-th power is the identity. |
| `ClEncryption.RandomizerInGq` | src/main/java/org/example/ClEncryption.java:36-39 | If gq has order dividing p2, the first component of every encryption lies in Gq. |
| `CyclicGroup.CofactorPowerOrder` | src/main/java/org/example/ClEncryption.java:35-39 | In a group of order k·l, the cofactor power x^l has order dividing k. This is why `getGenerator` lands in the intended subgroup. |
| `CyclicGroup.CofactorPowerTrivial` | src/main/java/org/example/ClEncryption.java:35-39 | In a group of order k·l, the cofactor power x^l is the identity exactly when the logarithm x is a multiple of k. |
| `CyclicGroup.Mul` | src/main/java/org/example/ClEncryption.java:117-119 | `Element.mul` returns a group element. `CyclicGroup.MulIsMod` states its meaning: the sum of the two logarithms mod n. |
| `CyclicGroup.Pow` | src/main/java/org/example/ClEncryption.java:102-103 | `Element.powZn` returns a group element. `CyclicGroup.PowIsMod` states its meaning: the logarithm times the exponent, mod n. |
| `CyclicGroup.ZrAdd` | src/main/java/org/example/ClEncryption.java:75 | Zr `add` returns a scalar of Zr. `CyclicGroup.ZrAddIsMod` states its meaning: the sum mod n. |
| `CyclicGroup.ZrMul` | src/main/java/org/example/ClEncryption.java:72 | Zr `mul` returns a scalar of Zr. `CyclicGroup.ZrMulIsMod` states its meaning: the product mod n. |
| `CyclicGroup.Invert` | src/main/java/org/example/ClEncryption.java:131 | `invert` gives an element whose product with x, in either order, is the identity. |
| `CyclicGroup.PowAdd` | src/main/java/org/example/ClEncryption.java:116 | gq^r1 · gq^r2 = gq^(r1+r2), the sum taken in Zr. |
| `CyclicGroup.MulInterchange` | src/main/java/org/example/ClEncryption.java:118 | f^a · pk^r1 · f^b · pk^r2 can be regrouped as (f^a · f^b) · (pk^r1 · pk^r2). |
| `CyclicGroup.PowPow` | src/main/java/org/example/ClEncryption.java:94-95 | (x^a)^b = x^(a·b), the product taken in Zr. |
| `CyclicGroup.PowDistributes` | src/main/java/org/example/ClEncryption.java:102-103 | (x·y)^a = x^a · y^a. This lets mulHom act on f^b and pk^r separately. |

## Left out

- Pairing and curve generation (`TypeA1CurveGenerator`, `PairingFactory`,
  lines 25-27) are calls into the JPBC library. The group order enters the
  model as a parameter: n, or p1 and p2 in `Setup`. The 128-bit size of each
  prime does not matter to the algebra and is not modelled.
- `ElementUtils.getGenerator` (lines 35, 39) belongs to the library, and its
  code is not part of this model. `Setup` models it as the power of
  `generator` by the other prime factor (the cofactor). `generator` itself is
  any group element, given as a parameter.
- Random sampling (`newRandomElement`, lines 31, 44, 52-53, 87) is replaced
  by explicit parameters. The claim that fresh randomness gives distinct
  ciphertexts is probabilistic and cannot be stated here.
- Security is out of scope. That covers DDH hardness in Gq, confidentiality,
  and the claim that decrypting with a wrong key fails except with negligible
  probability, which are all probabilistic or computational. There is also no
  ciphertext integrity check, because the scheme has none.
- Recovering the integer m from f^m (a discrete logarithm in F) is not done.
  The source does not do it either: decryption returns the group element.
- The `main` driver (lines 51-77) only prints. AddHomCorrect, MulHomCorrect
  and DecryptEncrypt state the equalities it displays. String output and the
  `toString` representation of elements are not modelled.
- Ciphertexts are `Element[]` arrays in the source. A shorter array would
  throw `ArrayIndexOutOfBoundsException` in `mulHom`, `addHom` or
  `clDecrypt`. The model's `Ciphertext` always has two components, so that
  failure path is not modelled.
- Element mutability: the model treats each library result as a fresh,
  immutable value. The source relies on that when `main` passes `encB` to both
  `mulHom` and `addHom`.
- `ClEncryption.MulHom`: its own contract states only that the result is a
  well-formed ciphertext. The form the source promises is stated and proved
  in `MulHomEncrypt` and `DecryptMulHom`.
- `ClEncryption.AddHom`: its own contract states only that the result is a
  well-formed ciphertext. The form the source promises is stated and proved
  in `AddHomEncrypt` and `DecryptAddHom`.
- `ClEncryption.SetupChecked`: its contract characterises the accepted
  generators by divisibility of their logarithm by p1 and p2. That, for prime
  p1 and p2, these are exactly the generators of G is standard number theory
  and is not proved; the model has no notion of primality or element order.
- The class has no error handling. Any failure, for example in parameter
  generation or sampling, is an exception from the library. The model has no
  error results for these.
- The class holds one static key pair, and the model has one `Context`.

## Findings

| source | as written | input that shows it | evidently intended | confidence | as-written member | corrected member |
|---|---|---|---|---|---|---|
| src/main/java/org/example/ClEncryption.java:29-39 | Any random element is accepted as `generator`, and f and gq are derived from it unchecked. | p1 = 3, p2 = 5, generator of order 3 (logarithm 5 in Z_15), sk = 7: gq = pk = identity, so every ciphertext is (identity, f^m). | `generator` generates G: for prime p1 and p2, its logarithm is a multiple of neither p1 nor p2, which is exactly when neither cofactor power is the identity. | not executed; with 128-bit primes a random element is degenerate with probability about 1/p1 + 1/p2 | `ClEncryption.SetupAcceptsDegenerateGenerator` | `ClEncryption.SetupChecked` |
