/** The ElGamal toolkit over Z_p: the iterative extended Euclidean algorithm,
    modular inverses, the quadratic-residue generator test and the
    primitive-root search, key generation, the toolkit's own signature
    scheme, and encryption / decryption.

    Random draws (`random.randint`) are sequences of candidates supplied by
    the caller, consumed in order by the retry loops; when a sequence runs
    out the loop reports `CandidatesExhausted` where the original would keep
    drawing. The message digest `int(sha256(message).hexdigest(), 16)` is a
    caller-supplied function `H`. */
module ElGamal {
  import opened NumberTheory
  import Bytes

  datatype Option<T> = None | Some(value: T)

  /** What the toolkit raises, plus the end of the supplied random draws. */
  datatype Error =
    | NotPrime                // find_primitive_root: ValueError, modulus not prime
    | CandidatesExhausted     // a retry loop used up the supplied draws
    | NoInverseTypeError      // verify_signature: `h * None` raises TypeError
    | UnsupportedMessageType  // encrypt: ValueError, message neither str nor int
    | NotInvertible           // decrypt: `pow(s, -1, p)` raises ValueError
    | EmptyDrawRange          // `random.randint(lo, hi)` with `lo > hi` raises ValueError

  datatype Result<T> = Ok(value: T) | Err(error: Error)

  /** `(gcd, x, y)` as `extended_gcd` returns it. */
  datatype Triple = Triple(g: int, x: int, y: int)

  /** Private exponent `a` and public value `b`. */
  datatype KeyPair = KeyPair(a: int, b: int)

  datatype Signature = Signature(r: int, s: int)

  datatype Ciphertext = Ciphertext(x: int, y: int)

  /** What `encrypt` accepts: a `str` (given by its UTF-8 bytes), an `int`,
      or a value of any other type. */
  datatype Message = Text(utf8: seq<Bytes.byte>) | Integer(n: int) | Unsupported

  // ---------------------------------------------------------------------
  // Python's floor division
  // ---------------------------------------------------------------------

  function Abs(n: int): nat {
    if n < 0 then -n else n
  }

  /** Python's `n // d`: rounds toward minus infinity. */
  function FloorDiv(n: int, d: int): int
    requires d != 0
  {
    if d < 0 && n % d != 0 then n / d - 1 else n / d
  }

  /** Python's `n % d`: takes the sign of the divisor. */
  function FloorMod(n: int, d: int): (r: int)
    requires d != 0
    ensures n == d * FloorDiv(n, d) + r
    ensures d > 0 ==> 0 <= r < d
    ensures d < 0 ==> d < r <= 0
  {
    if d < 0 && n % d != 0 then n % d + d else n % d
  }

  // ---------------------------------------------------------------------
  // extended_gcd and mod_inverse
  // ---------------------------------------------------------------------

  /** The loop of `extended_gcd` from the state `(a, b, x, y, u, v)` on. */
  function EuclidLoop(a: int, b: int, x: int, y: int, u: int, v: int): Triple
    decreases Abs(a)
  {
    if a == 0 then Triple(b, x, y)
    else
      var q, r := FloorDiv(b, a), FloorMod(b, a);
      EuclidLoop(r, a, u, v, x - u * q, y - v * q)
  }

  /** What `extended_gcd(a, b)` returns. */
  function Euclid(a: int, b: int): Triple {
    EuclidLoop(a, b, 0, 1, 1, 0)
  }

  /** One step of the loop, on the coefficients. */
  lemma BezoutStep(a0: int, b0: int, a: int, b: int, x: int, y: int, u: int, v: int, q: int, r: int)
    requires x * a0 + y * b0 == b && u * a0 + v * b0 == a && b == a * q + r
    ensures (x - u * q) * a0 + (y - v * q) * b0 == r
  {
    calc {
      (x - u * q) * a0 + (y - v * q) * b0;
      (x * a0 + y * b0) - q * (u * a0 + v * b0);
      b - q * a;
    }
  }

  /** The loop keeps `x*a0 + y*b0 == b` and `u*a0 + v*b0 == a`, so its result
      is a Bézout identity for `a0` and `b0`. */
  lemma {:induction false} EuclidLoopBezout(a0: int, b0: int, a: int, b: int, x: int, y: int, u: int, v: int)
    requires x * a0 + y * b0 == b && u * a0 + v * b0 == a
    ensures var t := EuclidLoop(a, b, x, y, u, v); a0 * t.x + b0 * t.y == t.g
    decreases Abs(a)
  {
    if a != 0 {
      var q, r := FloorDiv(b, a), FloorMod(b, a);
      BezoutStep(a0, b0, a, b, x, y, u, v, q, r);
      EuclidLoopBezout(a0, b0, r, a, u, v, x - u * q, y - v * q);
    }
  }

  /** On non-negative arguments the loop ends with the gcd. */
  lemma {:induction false} EuclidLoopGcd(a: int, b: int, x: int, y: int, u: int, v: int)
    requires a >= 0 && b >= 0
    ensures EuclidLoop(a, b, x, y, u, v).g == Gcd(b, a)
    decreases a
  {
    if a != 0 {
      EuclidLoopGcd(b % a, a, u, v, x - u * (b / a), y - v * (b / a));
    }
  }

  /** From a negative `a` the floor remainders stay in `(a, 0]`, so the
      loop ends with a negative `b`. */
  lemma {:induction false} EuclidLoopNegative(a: int, b: int, x: int, y: int, u: int, v: int)
    requires a < 0
    ensures EuclidLoop(a, b, x, y, u, v).g < 0
    decreases Abs(a)
  {
    var q, r := FloorDiv(b, a), FloorMod(b, a);
    if r != 0 {
      EuclidLoopNegative(r, a, u, v, x - u * q, y - v * q);
    }
  }

  /** `extended_gcd(a, b)` returns a Bézout identity; for non-negative
      arguments its first component is `gcd(a, b)`; for a negative `a` it
      is negative; and `extended_gcd(0, b) == (b, 0, 1)`. */
  lemma EuclidCorrect(a: int, b: int)
    ensures a * Euclid(a, b).x + b * Euclid(a, b).y == Euclid(a, b).g
    ensures a >= 0 && b >= 0 ==> Euclid(a, b).g == Gcd(a, b)
    ensures a < 0 ==> Euclid(a, b).g < 0
    ensures a == 0 ==> Euclid(a, b) == Triple(b, 0, 1)
  {
    EuclidLoopBezout(a, b, a, b, 0, 1, 1, 0);
    if a < 0 {
      EuclidLoopNegative(a, b, 0, 1, 1, 0);
    }
    if a >= 0 && b >= 0 {
      EuclidLoopGcd(a, b, 0, 1, 1, 0);
      GcdSymmetric(a, b);
    }
  }

  /** `extended_gcd`: the iterative extended Euclidean algorithm. */
  method ExtendedGcd(a0: int, b0: int) returns (g: int, x: int, y: int)
    ensures Triple(g, x, y) == Euclid(a0, b0)
    ensures a0 * x + b0 * y == g
    ensures a0 >= 0 && b0 >= 0 ==> g == Gcd(a0, b0)
    ensures a0 < 0 ==> g < 0
  {
    var a, b := a0, b0;
    var u, v;
    x, y, u, v := 0, 1, 1, 0;
    while a != 0
      invariant EuclidLoop(a, b, x, y, u, v) == Euclid(a0, b0)
      invariant x * a0 + y * b0 == b
      invariant u * a0 + v * b0 == a
      decreases Abs(a)
    {
      var q, r := FloorDiv(b, a), FloorMod(b, a);
      var m, n := x - u * q, y - v * q;
      BezoutStep(a0, b0, a, b, x, y, u, v, q, r);
      b, a, x, y, u, v := a, r, u, v, m, n;
    }
    g := b;
    EuclidCorrect(a0, b0);
  }

  /** `mod_inverse(a, m)`: for `a >= 0`, `None` exactly when
      `gcd(a, m) != 1` and otherwise the inverse of `a` in `[0, m)`; for a
      negative `a` always `None`, because `extended_gcd` then reports a
      negative gcd. */
  method ModInverse(a: int, m: int) returns (t: Option<int>)
    requires m >= 1
    ensures t.Some? ==> 0 <= t.value < m && (a * t.value) % m == 1 % m
    ensures a >= 0 ==> (t.None? <==> Gcd(a, m) != 1)
    ensures a < 0 ==> t.None?
    ensures a >= 0 && t.Some? ==> t.value == Inverse(a, m)
  {
    var g, x, _ := ExtendedGcd(a, m);
    if g != 1 {
      return None;
    }
    InverseFromBezout(a, m, x, Euclid(a, m).y);
    if a >= 0 {
      InverseUnique(a, m, x % m);
    }
    return Some(x % m);
  }

  // ---------------------------------------------------------------------
  // Domain parameters and keys
  // ---------------------------------------------------------------------

  /** `is_quadratic_residue(n, p)`: Euler's test `n^((p-1)/2) mod p == 1`.
      A multiple of an odd modulus never passes it. */
  function IsQuadraticResidue(n: int, p: int): (r: bool)
    requires p >= 2
    ensures p >= 3 && r ==> n % p != 0
  {
    assert p >= 3 && n % p == 0 ==> PowMod(n, (p - 1) / 2, p) != 1 by {
      if p >= 3 && n % p == 0 {
        var e := (p - 1) / 2;
        PowModBase(n, e, p);
        assert Pow(n % p, e) == 0 * Pow(0, e - 1);
        DivModUnique(1, p, 0, 1);
      }
    }
    PowMod(n, (p - 1) / 2, p) == 1
  }

  /** One direction of Euler's criterion: modulo an odd prime, the square
      of a number that `p` does not divide passes the residue test. */
  lemma SquareIsResidue(x: int, p: int)
    requires Prime(p) && p >= 3 && x % p != 0
    ensures IsQuadraticResidue((x * x) % p, p)
  {
    var e := (p - 1) / 2;
    OddPrime(p);
    FermatLittle(x, p);
    var sq := x * x;
    assert Pow(x, 2) == sq by {
      assert Pow(x, 2) == x * Pow(x, 1) && Pow(x, 1) == x * Pow(x, 0);
    }
    PowModPow(x, 2, e, p);
    assert PowMod(sq % p, e, p) == PowMod(x, p - 1, p);
  }

  /** A prime above 2 is odd. */
  lemma OddPrime(p: int)
    requires Prime(p) && p >= 3
    ensures 2 * ((p - 1) / 2) == p - 1
  {
    assert !Divides(2, p);
  }

  /** `find_primitive_root(p)`: rejects a non-prime `p`, fails on the empty
      draw range `[2, p-2]` of `p = 2, 3`, then returns the first draw that
      is not a quadratic residue. */
  method FindPrimitiveRoot(p: int, draws: seq<int>) returns (res: Result<int>)
    requires forall i :: 0 <= i < |draws| ==> 2 <= draws[i] <= p - 2
    ensures !Prime(p) ==> res == Err(NotPrime)
    ensures Prime(p) && p < 4 ==> res == Err(EmptyDrawRange)
    ensures res.Err? && Prime(p) && p >= 4 ==>
      res.error == CandidatesExhausted &&
      forall i :: 0 <= i < |draws| ==> IsQuadraticResidue(draws[i], p)
    ensures res.Ok? ==> Prime(p) && 2 <= res.value <= p - 2 && PowMod(res.value, (p - 1) / 2, p) != 1
    ensures res.Ok? ==> exists i :: (0 <= i < |draws| && draws[i] == res.value &&
      forall j :: 0 <= j < i ==> IsQuadraticResidue(draws[j], p))
  {
    if !Prime(p) {
      return Err(NotPrime);
    }
    if p - 2 < 2 {
      return Err(EmptyDrawRange);
    }
    var i := 0;
    while i < |draws|
      invariant 0 <= i <= |draws|
      invariant forall j :: 0 <= j < i ==> IsQuadraticResidue(draws[j], p)
    {
      var candidate := draws[i];
      if !IsQuadraticResidue(candidate, p) {
        return Ok(candidate);
      }
      i := i + 1;
    }
    return Err(CandidatesExhausted);
  }

  /** `generate_keys(p, g)`: fails on the empty draw range `[1, p-1]` of a
      `p < 2`, otherwise returns the first draw `a` coprime to `p - 1`, with
      `b = g^a mod p`. */
  method GenerateKeys(p: int, g: int, draws: seq<int>) returns (res: Result<KeyPair>)
    requires forall i :: 0 <= i < |draws| ==> 1 <= draws[i] <= p - 1
    ensures p < 2 ==> res == Err(EmptyDrawRange)
    ensures p >= 2 ==> (res.Err? <==> forall i :: 0 <= i < |draws| ==> Gcd(draws[i], p - 1) != 1)
    ensures p >= 2 && res.Err? ==> res.error == CandidatesExhausted
    ensures res.Ok? ==> 1 <= res.value.a <= p - 1 && Gcd(res.value.a, p - 1) == 1
    ensures res.Ok? ==> res.value.b == PowMod(g, res.value.a, p)
    ensures res.Ok? ==> exists i :: (0 <= i < |draws| && draws[i] == res.value.a &&
      forall j :: 0 <= j < i ==> Gcd(draws[j], p - 1) != 1)
  {
    if p - 1 < 1 {
      return Err(EmptyDrawRange);
    }
    var i := 0;
    while i < |draws|
      invariant 0 <= i <= |draws|
      invariant forall j :: 0 <= j < i ==> Gcd(draws[j], p - 1) != 1
    {
      var a := draws[i];
      if Gcd(a, p - 1) == 1 {
        var b := PowMod(g, a, p);
        return Ok(KeyPair(a, b));
      }
      i := i + 1;
    }
    return Err(CandidatesExhausted);
  }

  /** For `p > 2` a private key coprime to `p - 1` is at most `p - 2`. */
  lemma PrivateKeyBelowPMinusOne(p: int, a: int)
    requires p > 2 && 1 <= a <= p - 1 && Gcd(a, p - 1) == 1
    ensures a <= p - 2
  {
    DivModUnique(p - 1, p - 1, 1, 0);
    assert Gcd(p - 1, p - 1) == p - 1;
  }

  // ---------------------------------------------------------------------
  // Signatures
  // ---------------------------------------------------------------------

  /** The value whose inverse modulo `p - 1` becomes `s`:
      `(k_inv * (h + a*r)) % (p - 1)`. */
  function SCandidate(kInv: int, h: int, a: int, r: int, p: int): nat
    requires p >= 2
  {
    (kInv * (h + a * r)) % (p - 1)
  }

  /** Whether `sign_message` keeps the nonce `k`: `extended_gcd(k, p-1)`
      reports gcd 1 with a positive third coefficient (the Bézout
      coefficient of `p - 1`, used as `k_inv`), and the candidate `s` is
      invertible modulo `p - 1`. */
  predicate NonceAccepted(k: int, h: int, p: int, g: int, a: int)
    requires p >= 3 && k >= 0
  {
    var t := Euclid(k, p - 1);
    t.g == 1 && t.y > 0 && Gcd(SCandidate(t.y, h, a, PowMod(g, k, p), p), p - 1) == 1
  }

  /** The signature `sign_message` publishes for an accepted nonce `k`. */
  function SignWith(k: int, h: int, p: int, g: int, a: int): Signature
    requires p >= 3 && k >= 0 && NonceAccepted(k, h, p, g, a)
  {
    var r := PowMod(g, k, p);
    Signature(r, Inverse(SCandidate(Euclid(k, p - 1).y, h, a, r, p), p - 1))
  }

  /** An accepted nonce is coprime to `p - 1`, and its signature has the
      shape `verify_signature` checks for: `0 <= r < p` with `r = g^k mod p`,
      and `0 < s < p - 1`. */
  lemma SignWithShape(k: int, h: int, p: int, g: int, a: int)
    requires p >= 3 && k >= 0 && NonceAccepted(k, h, p, g, a)
    ensures Gcd(k, p - 1) == 1
    ensures SignWith(k, h, p, g, a).r == PowMod(g, k, p)
    ensures 0 < SignWith(k, h, p, g, a).s < p - 1
  {
    EuclidCorrect(k, p - 1);
    var r := PowMod(g, k, p);
    var sc := SCandidate(Euclid(k, p - 1).y, h, a, r, p);
    var s := Inverse(sc, p - 1);
    assert SignWith(k, h, p, g, a) == Signature(r, s);
    DivModUnique(1, p - 1, 0, 1);
    assert (sc * s) % (p - 1) == 1;
    assert sc * 0 == 0;
  }

  /** `sign_message`: fails on the empty nonce range `[1, p-2]` of a
      `p < 3`, otherwise the signature made with the first accepted nonce. */
  method SignMessage(message: string, p: int, g: int, a: int, nonces: seq<int>, H: string -> nat)
    returns (res: Result<Signature>)
    requires forall i :: 0 <= i < |nonces| ==> 1 <= nonces[i] <= p - 2
    ensures p < 3 ==> res == Err(EmptyDrawRange)
    ensures p >= 3 ==>
      (res.Err? <==> forall i :: 0 <= i < |nonces| ==> !NonceAccepted(nonces[i], H(message), p, g, a))
    ensures p >= 3 && res.Err? ==> res.error == CandidatesExhausted
    ensures res.Ok? ==> p >= 3 && exists i :: (0 <= i < |nonces| && NonceAccepted(nonces[i], H(message), p, g, a) &&
      res.value == SignWith(nonces[i], H(message), p, g, a) &&
      forall j :: 0 <= j < i ==> !NonceAccepted(nonces[j], H(message), p, g, a))
    ensures res.Ok? ==> 0 <= res.value.r < p && 0 < res.value.s < p - 1
  {
    if p - 2 < 1 {
      return Err(EmptyDrawRange);
    }
    var i := 0;
    while i < |nonces|
      invariant 0 <= i <= |nonces|
      invariant forall j :: 0 <= j < i ==> !NonceAccepted(nonces[j], H(message), p, g, a)
    {
      var k := nonces[i];
      var gcdVal, _, kInv := ExtendedGcd(k, p - 1);
      if gcdVal == 1 && kInv > 0 {
        var h := H(message);
        var r := PowMod(g, k, p);
        var sCandidate := (kInv * (h + a * r)) % (p - 1);
        var s := ModInverse(sCandidate, p - 1);
        if s.Some? {
          SignWithShape(k, h, p, g, a);
          return Ok(Signature(r, s.value));
        }
      }
      i := i + 1;
    }
    return Err(CandidatesExhausted);
  }

  /** The final comparison of `verify_signature` on a well-shaped signature:
      with `w = s^-1 mod (p-1)`, `u1 = h*w mod (p-1)`, `u2 = r*w mod (p-1)`,
      does `g^u1 * b^u2 mod p` equal `r`? */
  predicate VerificationHolds(h: int, r: int, s: int, p: int, g: int, b: int)
    requires p >= 3 && 1 < s < p - 1 && Gcd(s, p - 1) == 1
  {
    var w := Inverse(s, p - 1);
    var u1, u2 := (h * w) % (p - 1), (r * w) % (p - 1);
    (PowMod(g, u1, p) * PowMod(b, u2, p)) % p == r
  }

  /** `verify_signature`: rejects a badly shaped signature, raises when `s`
      has no inverse modulo `p - 1`, and otherwise accepts exactly when the
      verification equation holds. */
  method VerifySignature(message: string, r: int, s: int, p: int, g: int, b: int, H: string -> nat)
    returns (res: Result<bool>)
    ensures !(0 < r < p && 0 < s < p - 1) || s == 1 ==> res == Ok(false)
    ensures 0 < r < p && 1 < s < p - 1 && Gcd(s, p - 1) != 1 ==> res == Err(NoInverseTypeError)
    ensures 0 < r < p && 1 < s < p - 1 && Gcd(s, p - 1) == 1 ==>
      res == Ok(VerificationHolds(H(message), r, s, p, g, b))
    ensures res.Ok? ==> res.value == FailClosedVerify(H(message), r, s, p, g, b)
    ensures res.Err? ==> !FailClosedVerify(H(message), r, s, p, g, b)
  {
    var h := H(message);
    if !(0 < r < p && 0 < s < p - 1) {
      return Ok(false);
    }
    if s == 1 {
      return Ok(false);
    }
    var w := ModInverse(s, p - 1);
    if w.None? {
      return Err(NoInverseTypeError);
    }
    var u1 := (h * w.value) % (p - 1);
    var u2 := (r * w.value) % (p - 1);
    var v := (PowMod(g, u1, p) * PowMod(b, u2, p)) % p;
    return Ok(v == r);
  }

  /** Every even `s` in range makes `verify_signature` raise for an odd
      `p`: 2 divides both `s` and `p - 1`, so `s` has no inverse modulo
      `p - 1`. */
  lemma EvenSHasNoInverse(s: int, p: int)
    requires p % 2 == 1 && 1 < s < p - 1 && s % 2 == 0
    ensures Gcd(s, p - 1) != 1
  {
    GcdGreatest(s, p - 1, 2);
  }

  /** `verify_signature` as its `except` clause intends it: `False`, not an
      exception, when `s` has no inverse modulo `p - 1`. It accepts only a
      well-shaped signature that satisfies the verification equation. */
  function FailClosedVerify(h: int, r: int, s: int, p: int, g: int, b: int): (ok: bool)
    ensures ok <==> 0 < r < p && 1 < s < p - 1 && Gcd(s, p - 1) == 1 && VerificationHolds(h, r, s, p, g, b)
  {
    if !(0 < r < p && 0 < s < p - 1) || s == 1 then false
    else if Gcd(s, p - 1) != 1 then false
    else VerificationHolds(h, r, s, p, g, b)
  }

  /** With `b = g^a mod p` the verification equation is the single power
      `g^(u1 + a*u2) mod p == r`: the dual form the toolkit uses. */
  lemma VerificationDualForm(h: int, r: int, s: int, p: int, g: int, a: nat)
    requires p >= 3 && 1 < s < p - 1 && Gcd(s, p - 1) == 1
    ensures var w := Inverse(s, p - 1);
            var u1, u2 := (h * w) % (p - 1), (r * w) % (p - 1);
            VerificationHolds(h, r, s, p, g, PowMod(g, a, p)) <==> PowMod(g, u1 + a * u2, p) == r
  {
    var w := Inverse(s, p - 1);
    var u1, u2 := (h * w) % (p - 1), (r * w) % (p - 1);
    PowModPow(g, a, u2, p);
    ModMul(Pow(g, u1), Pow(g, a * u2), p);
    PowAdd(g, u1, a * u2);
  }

  /** `verify_signature` does not accept what `sign_message` produces: with
      `p = 7`, `g = 3`, private key `a = 5` (so `b = 5`), digest `h = 4` and
      nonce `k = 5`, the signature is `(5, 5)` and the verification equation
      fails. */
  lemma SignatureNotVerified()
    ensures NonceAccepted(5, 4, 7, 3, 5)
    ensures SignWith(5, 4, 7, 3, 5) == Signature(5, 5)
    ensures PowMod(3, 5, 7) == 5
    ensures !VerificationHolds(4, 5, 5, 7, 3, PowMod(3, 5, 7))
  {
    SignedExample();
    RejectedExample();
  }

  /** The signing half of `SignatureNotVerified`. */
  lemma SignedExample()
    ensures NonceAccepted(5, 4, 7, 3, 5)
    ensures SignWith(5, 4, 7, 3, 5) == Signature(5, 5)
    ensures PowMod(3, 5, 7) == 5
  {
    ExampleArithmetic();
    CandidateExample();
    InverseExample();
  }

  /** 5 is its own inverse modulo 6. */
  lemma InverseExample()
    ensures Inverse(5, 6) == 5
  {
    ExampleArithmetic();
    InverseUnique(5, 6, 5);
  }

  /** The `s` candidate of the example before inversion. */
  lemma CandidateExample()
    ensures SCandidate(Euclid(5, 6).y, 4, 5, PowMod(3, 5, 7), 7) == 5
  {
    ExampleArithmetic();
    assert SCandidate(1, 4, 5, 5, 7) == 5;
  }

  /** The verifying half of `SignatureNotVerified`. */
  lemma RejectedExample()
    ensures !VerificationHolds(4, 5, 5, 7, 3, 5)
  {
    ExampleArithmetic();
    InverseExample();
    VerificationWith(4, 5, 5, 7, 3, 5, 5, 2, 1);
  }

  /** The verification equation with the inverse `w` of `s` and the
      exponents `u1`, `u2` named, so that the concrete example in
      `RejectedExample` is evaluated on small literals. */
  lemma VerificationWith(h: int, r: int, s: int, p: int, g: int, b: int, w: int, u1: int, u2: int)
    requires p >= 3 && 1 < s < p - 1 && Gcd(s, p - 1) == 1 && w == Inverse(s, p - 1)
    requires u1 == (h * w) % (p - 1) && u2 == (r * w) % (p - 1)
    ensures VerificationHolds(h, r, s, p, g, b) <==> (PowMod(g, u1, p) * PowMod(b, u2, p)) % p == r
  {
  }

  // ---------------------------------------------------------------------
  // The signature scheme as `verify_signature` expects it
  // ---------------------------------------------------------------------

  /** The signature `verify_signature` is built to accept: `r = g^k mod p`
      and `s = k^-1 * (h + a*r) mod (p - 1)`, with the true inverse of `k`
      modulo `p - 1` and without inverting `s` afterwards. */
  function IntendedSignWith(k: nat, h: int, p: int, g: int, a: int): Signature
    requires p >= 3 && Gcd(k, p - 1) == 1
  {
    var r := PowMod(g, k, p);
    Signature(r, SCandidate(Inverse(k, p - 1), h, a, r, p))
  }

  /** The nonces the intended signer keeps: `k` invertible modulo `p - 1`,
      and `s` invertible modulo `p - 1` and not 1 (which verification
      rejects). */
  predicate IntendedNonceAccepted(k: nat, h: int, p: int, g: int, a: int)
    requires p >= 3
  {
    Gcd(k, p - 1) == 1 &&
    (var s := IntendedSignWith(k, h, p, g, a).s; s > 1 && Gcd(s, p - 1) == 1)
  }

  /** Verification accepts what the intended signer produces: for a prime
      `p`, a base `g` that `p` does not divide and the public key
      `b = g^a mod p`, the signature made with an accepted nonce passes
      every shape check of `verify_signature` and satisfies its
      verification equation, so `verify_signature` returns `True`. */
  lemma IntendedSignatureVerifies(k: nat, h: int, p: int, g: int, a: nat)
    requires Prime(p) && g % p != 0 && 1 <= k <= p - 2
    ensures IntendedNonceAccepted(k, h, p, g, a) ==>
      var sig := IntendedSignWith(k, h, p, g, a);
      && 0 < sig.r < p && 1 < sig.s < p - 1 && Gcd(sig.s, p - 1) == 1
      && VerificationHolds(h, sig.r, sig.s, p, g, PowMod(g, a, p))
      && FailClosedVerify(h, sig.r, sig.s, p, g, PowMod(g, a, p))
  {
    if IntendedNonceAccepted(k, h, p, g, a) {
      var m := p - 1;
      var r := PowMod(g, k, p);
      var kInv := Inverse(k, m);
      var s := SCandidate(kInv, h, a, r, p);
      var w := Inverse(s, m);
      var u1, u2 := (h * w) % m, (r * w) % m;
      PowNotDivisible(p, g, k);
      DivModUnique(1, m, 0, 1);
      SignatureExponent(h, r, a, k, kInv, s, w, m);
      VerificationDualForm(h, r, s, p, g, a);
      ExponentModPMinusOne(g, u1 + a * u2, p);
    }
  }

  /** The exponent `u1 + a*u2` the verifier builds from an intended
      signature is `k` modulo `m = p - 1`: it is `w*(h + a*r)`, and
      `h + a*r == k*s`. */
  lemma SignatureExponent(h: int, r: int, a: int, k: int, kInv: int, s: int, w: int, m: int)
    requires m >= 2 && 0 <= k < m
    requires (k * kInv) % m == 1 && s == (kInv * (h + a * r)) % m && (s * w) % m == 1
    ensures ((h * w) % m + a * ((r * w) % m)) % m == k
  {
    ExponentSum(h, r, a, w, m);
    var c := h + a * r;
    UndoNonce(k, kInv, c, s, m);
    CancelSignature(k, c, s, w, m);
  }

  /** The reductions inside `u1 + a*u2` do not matter:
      `(h*w mod m + a*(r*w mod m)) mod m == w*(h + a*r) mod m`. */
  lemma ExponentSum(h: int, r: int, a: int, w: int, m: int)
    requires m >= 1
    ensures ((h * w) % m + a * ((r * w) % m)) % m == (w * (h + a * r)) % m
  {
    ModMulRight(a, r * w, m);
    ModAdd((h * w) % m, a * ((r * w) % m), m);
    ModAdd(h * w, a * (r * w), m);
    ModOfMod(h * w, m);
    assert h * w + a * (r * w) == w * (h + a * r);
  }

  /** `k * s == c (mod m)` when `s == k^-1 * c (mod m)`. */
  lemma UndoNonce(k: int, kInv: int, c: int, s: int, m: int)
    requires m >= 2 && (k * kInv) % m == 1 && s == (kInv * c) % m
    ensures (k * s) % m == c % m
  {
    ModMulRight(k, kInv * c, m);
    assert k * (kInv * c) == (k * kInv) * c;
    ModMulLeft(k * kInv, c, m);
  }

  /** `w * c == k (mod m)` when `c == k * s` and `w` inverts `s`. */
  lemma CancelSignature(k: int, c: int, s: int, w: int, m: int)
    requires m >= 2 && 0 <= k < m && (k * s) % m == c % m && (s * w) % m == 1
    ensures (w * c) % m == k
  {
    var ks, sw := k * s, s * w;
    SameResidueTimes(w, c, ks, m);
    Rearrange(w, k, s);
    DivModUnique(1, m, 0, 1);
    ModMulOne(k, sw, m);
    DivModUnique(k, m, 0, k);
  }

  /** A ring identity kept apart, over plain variables, so that the solver
      does not search for it inside `CancelSignature`. */
  lemma Rearrange(w: int, k: int, s: int)
    ensures w * (k * s) == k * (s * w)
  {
  }

  /** Multiplying two numbers with the same residue by `w` gives products
      with the same residue. */
  lemma SameResidueTimes(w: int, c: int, d: int, m: int)
    requires m >= 1 && c % m == d % m
    ensures (w * c) % m == (w * d) % m
  {
    ModMulRight(w, c, m);
    ModMulRight(w, d, m);
  }

  /** The numbers behind `SignatureNotVerified`. */
  lemma ExampleArithmetic()
    ensures Euclid(5, 6) == Triple(1, -1, 1)
    ensures PowMod(3, 5, 7) == 5 && PowMod(3, 2, 7) == 2 && PowMod(5, 1, 7) == 5
    ensures Gcd(5, 6) == 1
  {
    assert Pow(3, 5) == 243;
    assert Pow(3, 2) == 9;
    assert Pow(5, 1) == 5;
    assert Gcd(1, 0) == 1;
    assert Gcd(5, 1) == Gcd(1, 0);
    assert Gcd(6, 5) == Gcd(5, 1);
  }

  // ---------------------------------------------------------------------
  // Encryption
  // ---------------------------------------------------------------------

  /** The integer `encrypt` works with: a string's big-endian byte value,
      or the integer itself, reduced modulo `p`. */
  function Encode(message: Message, p: int): (m: int)
    requires p >= 1 && !message.Unsupported?
    ensures 0 <= m < p
  {
    match message
    case Text(utf8) => Bytes.ValueBE(utf8) % p
    case Integer(n) => n % p
  }

  /** `encrypt(message, p, g, b)` with the drawn nonce `k`. */
  function Encrypt(message: Message, p: int, g: int, b: int, k: int): (res: Result<Ciphertext>)
    requires p >= 3 && 1 <= k <= p - 2
    ensures res.Err? <==> message.Unsupported?
    ensures res.Err? ==> res.error == UnsupportedMessageType
    ensures res.Ok? ==> res.value.x == PowMod(g, k, p) && 0 <= res.value.y < p
  {
    var x := PowMod(g, k, p);
    if message.Unsupported? then Err(UnsupportedMessageType)
    else
      var m := Encode(message, p);
      Ok(Ciphertext(x, (PowMod(b, k, p) * m) % p))
  }

  /** `decrypt((x, y), a, p)`: `y * (x^a)^-1 mod p`; it raises when `x^a`
      has no inverse modulo `p`, which for a prime `p` means `x^a mod p == 0`.
      The result `m` satisfies `m * x^a == y (mod p)`. */
  function Decrypt(c: Ciphertext, a: int, p: int): (res: Result<int>)
    requires p >= 2 && a >= 0
    ensures Prime(p) ==> (res.Err? <==> PowMod(c.x, a, p) == 0)
    ensures res.Err? ==> res.error == NotInvertible
    ensures res.Ok? ==> 0 <= res.value < p && (res.value * PowMod(c.x, a, p)) % p == c.y % p
  {
    var s := PowMod(c.x, a, p);
    UnitsModPrime(s, p);
    if Gcd(s, p) != 1 then
      Err(NotInvertible)
    else
      var inv := Inverse(s, p);
      UndoFactor(c.y, s, inv, p);
      Ok((c.y * inv) % p)
  }

  /** Modulo a prime, the invertible residues are exactly the non-zero ones. */
  lemma UnitsModPrime(s: int, p: int)
    requires 0 <= s < p
    ensures Prime(p) ==> (Gcd(s, p) == 1 <==> s != 0)
  {
    if Prime(p) {
      if s != 0 {
        DivModUnique(s, p, 0, s);
        PrimeCoprime(p, s);
      } else {
        assert Gcd(0, p) == Gcd(p, 0);
      }
    }
  }

  /** Multiplying `(y * s^-1) mod p` back by `s` gives `y` modulo `p`. */
  lemma UndoFactor(y: int, s: int, inv: int, p: int)
    requires p >= 1 && (s * inv) % p == 1 % p
    ensures (((y * inv) % p) * s) % p == y % p
  {
    var m := (y * inv) % p;
    ModMul(y * inv, s, p);
    ModMul(m, s, p);
    ModOfMod(y * inv, p);
    assert (y * inv) * s == y * (s * inv);
    ModMulOne(y, s * inv, p);
  }

  /** Decryption undoes encryption for every integer and string message:
      with `p` prime, `g` not a multiple of `p` and `b = g^a mod p`,
      `decrypt(encrypt(m)) == m mod p` (big-endian value mod `p` for a
      string). */
  lemma EncryptDecryptRoundTrip(message: Message, p: int, g: int, a: nat, k: int)
    requires Prime(p) && p >= 3 && g % p != 0 && 1 <= k <= p - 2 && !message.Unsupported?
    ensures Encrypt(message, p, g, PowMod(g, a, p), k).Ok?
    ensures Decrypt(Encrypt(message, p, g, PowMod(g, a, p), k).value, a, p) == Ok(Encode(message, p))
  {
    var b := PowMod(g, a, p);
    var c := Encrypt(message, p, g, b, k).value;
    var m := Encode(message, p);
    var s := PowMod(c.x, a, p);
    // s == g^(k*a) mod p == b^k mod p, and it is not 0
    assert s == PowMod(b, k, p) && s != 0 by {
      PowModPow(g, k, a, p);
      PowModPow(g, a, k, p);
      assert k * a == a * k;
      PowNotDivisible(p, g, k * a);
    }
    assert c.y == (s * m) % p;
    var d := Decrypt(c, a, p).value;
    // d * s == y == m * s (mod p), and s is invertible, so d == m
    assert (d * s) % p == (m * s) % p by {
      ModOfMod(s * m, p);
      assert s * m == m * s;
    }
    CancelInvertible(d, m, s, p);
  }

  /** Two residues that agree after multiplying by a unit of a prime modulus
      are equal. */
  lemma CancelInvertible(d: int, m: int, s: int, p: int)
    requires Prime(p) && 0 <= d < p && 0 <= m < p && 0 < s < p
    requires (d * s) % p == (m * s) % p
    ensures d == m
  {
    DivModUnique(s, p, 0, s);
    PrimeCoprime(p, s);
    var inv := Inverse(s, p);
    ModMul(d * s, inv, p);
    ModMul(m * s, inv, p);
    assert (d * s) * inv == d * (s * inv);
    assert (m * s) * inv == m * (s * inv);
    ModMulOne(d, s * inv, p);
    ModMulOne(m, s * inv, p);
    DivModUnique(d, p, 0, d);
    DivModUnique(m, p, 0, m);
  }
}
