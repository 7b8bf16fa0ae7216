/** Integer facts the ElGamal toolkit relies on: divisibility, the gcd that
    `math.gcd` computes, Bézout coefficients, modular inverses, powers and
    primes. Every modulus here is positive, so Dafny's Euclidean `%` agrees
    with Python's `%`. */
module NumberTheory {

  /** `d` divides `n` (0 divides only 0). */
  predicate Divides(d: int, n: int) {
    if d == 0 then n == 0 else n % d == 0
  }

  /** Primality, as `sympy.isprime` decides it for the moduli used here. */
  predicate Prime(p: int) {
    p >= 2 && forall d :: 1 < d < p ==> !Divides(d, p)
  }

  /** Greatest common divisor of two naturals by Euclid's recursion, as
      `math.gcd` returns it. */
  function Gcd(a: nat, b: nat): nat
    decreases b
  {
    if b == 0 then a else Gcd(b, a % b)
  }

  /** `b` to the power `e`. */
  function Pow(b: int, e: nat): int {
    if e == 0 then 1 else b * Pow(b, e - 1)
  }

  /** Python's three-argument `pow(b, e, m)` for `e >= 0` and `m > 0`. */
  function PowMod(b: int, e: nat, m: int): (r: int)
    requires m > 0
    ensures 0 <= r < m
  {
    Pow(b, e) % m
  }

  // ---------------------------------------------------------------------
  // Division with remainder
  // ---------------------------------------------------------------------

  /** Signs of a product with a positive factor. */
  lemma MulBounds(d: int, k: int)
    requires d > 0
    ensures k <= 0 ==> d * k <= 0
    ensures k >= 1 ==> d * k >= d
    ensures k <= -1 ==> d * k <= -d
    decreases if k >= 0 then k else -k
  {
    if k >= 1 {
      assert d * k == d + d * (k - 1);
      MulBounds(d, k - 1);
    } else if k <= -1 {
      assert d * k == -d + d * (k + 1);
      MulBounds(d, k + 1);
    }
  }

  /** Quotient and remainder are the only ones with `0 <= r < d`. */
  lemma DivModUnique(n: int, d: int, q: int, r: int)
    requires d > 0 && n == d * q + r && 0 <= r < d
    ensures q == n / d && r == n % d
  {
    var q', r' := n / d, n % d;
    assert n == d * q' + r';
    assert d * (q - q') == r' - r;
    MulBounds(d, q - q');
  }

  /** Adding a multiple of the modulus does not change the remainder. */
  lemma ModAddMultiple(n: int, k: int, m: int)
    requires m > 0
    ensures (m * k + n) % m == n % m
  {
    DivModUnique(m * k + n, m, k + n / m, n % m);
  }

  /** Remainders of products depend only on the remainders of the factors. */
  lemma ModMul(x: int, y: int, m: int)
    requires m > 0
    ensures (x * y) % m == ((x % m) * (y % m)) % m
  {
    var qx, rx := x / m, x % m;
    var qy, ry := y / m, y % m;
    calc {
      x * y;
      (m * qx + rx) * (m * qy + ry);
      m * (qx * m * qy + qx * ry + rx * qy) + rx * ry;
    }
    ModAddMultiple(rx * ry, qx * m * qy + qx * ry + rx * qy, m);
  }

  /** Remainders of sums depend only on the remainders of the summands. */
  lemma ModAdd(x: int, y: int, m: int)
    requires m > 0
    ensures (x + y) % m == ((x % m) + (y % m)) % m
  {
    assert x + y == m * (x / m + y / m) + (x % m + y % m);
    ModAddMultiple(x % m + y % m, x / m + y / m, m);
  }

  lemma ModOfMod(x: int, m: int)
    requires m > 0
    ensures (x % m) % m == x % m
  {
    DivModUnique(x % m, m, 0, x % m);
  }

  // ---------------------------------------------------------------------
  // Divisibility
  // ---------------------------------------------------------------------

  /** A common divisor of `x` and `y` divides every integer combination. */
  lemma {:induction false} DividesCombination(d: int, x: int, y: int, c: int, e: int)
    requires Divides(d, x) && Divides(d, y)
    ensures Divides(d, x * c + y * e)
  {
    if d != 0 {
      var m := if d > 0 then d else -d;
      assert x % d == 0 && y % d == 0;
      DivModUnique(x, m, if d > 0 then x / d else -(x / d), 0);
      DivModUnique(y, m, if d > 0 then y / d else -(y / d), 0);
      var k := (x / d) * c + (y / d) * e;
      assert x * c + y * e == d * k;
      DivModUnique(x * c + y * e, m, if d > 0 then k else -k, 0);
    }
  }

  /** A positive divisor of a positive number is no larger than it. */
  lemma DivisorAtMost(d: int, n: int)
    requires d > 0 && n > 0 && Divides(d, n)
    ensures d <= n
  {
    var q := n / d;
    assert n == d * q;
    MulBounds(d, q);
  }

  /** Every number divides itself and 0. */
  lemma DividesSelf(n: int)
    ensures Divides(n, n) && Divides(n, 0)
  {
    if n != 0 {
      var m := if n > 0 then n else -n;
      DivModUnique(n, m, if n > 0 then 1 else -1, 0);
      DivModUnique(0, m, 0, 0);
    }
  }

  // ---------------------------------------------------------------------
  // gcd and Bézout coefficients
  // ---------------------------------------------------------------------

  /** gcd is symmetric (one unfolding of Euclid's recursion). */
  lemma GcdSymmetric(a: nat, b: nat)
    ensures Gcd(a, b) == Gcd(b, a)
  {
    if a != 0 && b != 0 {
      if a < b {
        DivModUnique(a, b, 0, a);
      } else if b < a {
        DivModUnique(b, a, 0, b);
      } else {
        DivModUnique(a, a, 1, 0);
      }
    } else if a == 0 && b != 0 {
      DivModUnique(0, b, 0, 0);
    } else if b == 0 && a != 0 {
      DivModUnique(0, a, 0, 0);
    }
  }

  /** Bézout coefficients by the recursive extended Euclidean algorithm:
      a reference definition, independent of the iterative loop of the
      toolkit. */
  function Bezout(a: nat, b: nat): (r: (int, int))
    ensures a * r.0 + b * r.1 == Gcd(a, b)
    decreases b
  {
    if b == 0 then (1, 0)
    else
      var (x, y) := Bezout(b, a % b);
      assert a == b * (a / b) + a % b;
      assert b * x + (a % b) * y == Gcd(a, b);
      assert a * y + b * (x - (a / b) * y) == b * x + (a % b) * y;
      (y, x - (a / b) * y)
  }

  /** The gcd divides both arguments, and every common divisor divides it:
      `Gcd` is the greatest common divisor. */
  lemma {:induction false} GcdDivides(a: nat, b: nat)
    ensures Divides(Gcd(a, b), a) && Divides(Gcd(a, b), b)
    decreases b
  {
    if b == 0 {
      DividesSelf(a);
    } else {
      GcdDivides(b, a % b);
      assert a == b * (a / b) + (a % b) * 1;
      DividesCombination(Gcd(a, b), b, a % b, a / b, 1);
    }
  }

  lemma GcdGreatest(a: nat, b: nat, d: int)
    requires Divides(d, a) && Divides(d, b)
    ensures Divides(d, Gcd(a, b))
  {
    var (x, y) := Bezout(a, b);
    DividesCombination(d, a, b, x, y);
  }

  // ---------------------------------------------------------------------
  // Modular inverses
  // ---------------------------------------------------------------------

  /** The inverse of `a` modulo `m` in `[0, m)`, as Python's `pow(a, -1, m)`
      returns it when `gcd(a, m) == 1`. */
  function Inverse(a: nat, m: nat): (t: nat)
    requires m >= 1 && Gcd(a, m) == 1
    ensures t < m && (a * t) % m == 1 % m
  {
    var (x, y) := Bezout(a, m);
    InverseFromBezout(a, m, x, y);
    x % m
  }

  /** A Bézout coefficient of `a`, reduced modulo `m`, is an inverse of `a`. */
  lemma InverseFromBezout(a: int, m: int, x: int, y: int)
    requires m >= 1 && a * x + m * y == 1
    ensures (a * (x % m)) % m == 1 % m
  {
    ModAddMultiple(a * x, y, m);
    ModMul(a, x, m);
    ModMul(a, x % m, m);
    ModOfMod(x, m);
  }

  /** Multiplying by something congruent to 1 leaves the remainder alone. */
  lemma ModMulOne(t: int, u: int, m: int)
    requires m > 0 && u % m == 1 % m
    ensures (t * u) % m == t % m
  {
    ModMul(t, u, m);
    ModMul(t, 1, m);
  }

  /** A ring identity kept apart, over plain variables, so that the solver
      does not search for it inside `InverseUnique`. */
  lemma Reassociate(a: int, t: int, t': int)
    ensures t * (a * t') == t' * (a * t)
  {
  }

  /** An inverse modulo `m` in `[0, m)` is unique. */
  lemma InverseUnique(a: nat, m: nat, t: int)
    requires m >= 1 && Gcd(a, m) == 1
    requires 0 <= t < m && (a * t) % m == 1 % m
    ensures t == Inverse(a, m)
  {
    var t' := Inverse(a, m);
    // t == t * (a * t') == t' * (a * t) == t'   (mod m)
    Reassociate(a, t, t');
    ModMulOne(t, a * t', m);
    ModMulOne(t', a * t, m);
    DivModUnique(t, m, 0, t);
    DivModUnique(t', m, 0, t');
  }

  /** A number with an inverse modulo `m` is coprime to `m`. */
  lemma InvertibleIsCoprime(a: nat, t: nat, m: nat)
    requires m >= 2 && (a * t) % m == 1
    ensures Gcd(t, m) == 1
  {
    var g := Gcd(t, m);
    GcdDivides(t, m);
    // a * t - m * ((a * t) / m) == 1
    assert t * a + m * (-((a * t) / m)) == 1;
    DividesCombination(g, t, m, a, -((a * t) / m));
    assert g != 0;
    DivisorAtMost(g, 1);
  }

  /** The inverse of the inverse is the number itself, reduced. */
  lemma InverseInvolution(a: nat, m: nat)
    requires m >= 2 && Gcd(a, m) == 1
    ensures Gcd(Inverse(a, m), m) == 1
    ensures Inverse(Inverse(a, m), m) == a % m
  {
    var t := Inverse(a, m);
    DivModUnique(1, m, 0, 1);
    InvertibleIsCoprime(a, t, m);
    ModMul(t, a, m);
    DivModUnique(t, m, 0, t);
    assert (t * (a % m)) % m == 1 % m;
    InverseUnique(t, m, a % m);
  }

  // ---------------------------------------------------------------------
  // Primes
  // ---------------------------------------------------------------------

  /** A number not divisible by the prime `p` is coprime to it. */
  lemma PrimeCoprime(p: int, x: int)
    requires Prime(p) && x % p != 0
    ensures Gcd(x % p, p) == 1
  {
    var g := Gcd(x % p, p);
    GcdDivides(x % p, p);
    assert g != 0;
    DivisorAtMost(g, p);
    if g == p {
      DivModUnique(x % p, p, 0, x % p);
      assert false;
    }
    assert !(1 < g < p);
  }

  lemma Regroup(y: int, r: int, u: int, m: int, v: int)
    requires r * u + m * v == 1
    ensures y == m * (v * y) + (r * y) * u
  {
    calc {
      y;
      y * (r * u + m * v);
      (r * y) * u + m * (v * y);
    }
  }

  /** Reducing the left factor modulo `m` does not change the product's residue. */
  lemma ModMulLeft(x: int, y: int, m: int)
    requires m > 0
    ensures (x * y) % m == ((x % m) * y) % m
  {
    ModMul(x, y, m);
    ModMul(x % m, y, m);
    ModOfMod(x, m);
  }

  /** Reducing the right factor modulo `m` does not change the product's residue. */
  lemma ModMulRight(x: int, y: int, m: int)
    requires m > 0
    ensures (x * y) % m == (x * (y % m)) % m
  {
    ModMulLeft(y, x, m);
    assert y * x == x * y && (y % m) * x == x * (y % m);
  }

  /** A multiple of a number divisible by `m` is divisible by `m`. */
  lemma ModMulZero(z: int, u: int, m: int)
    requires m > 0 && z % m == 0
    ensures (z * u) % m == 0
  {
    ModMul(z, u, m);
    assert (z % m) * (u % m) == 0;
  }

  /** A factor coprime to `m` can be cancelled from `m | x * y`. */
  lemma CoprimeCancel(m: int, x: int, y: int)
    requires m > 0 && Gcd(x % m, m) == 1 && (x * y) % m == 0
    ensures y % m == 0
  {
    var r := x % m;
    var (u, v) := Bezout(r, m);
    ModMulLeft(x, y, m);
    ModMulZero(r * y, u, m);
    Regroup(y, r, u, m, v);
    ModAddMultiple((r * y) * u, v * y, m);
  }

  /** Euclid's lemma: a prime dividing a product divides a factor. */
  lemma EuclidLemma(p: int, x: int, y: int)
    requires Prime(p) && (x * y) % p == 0 && x % p != 0
    ensures y % p == 0
  {
    PrimeCoprime(p, x);
    CoprimeCancel(p, x, y);
  }

  /** A power of a number not divisible by the prime `p` is not divisible by `p`. */
  lemma {:induction false} PowNotDivisible(p: int, b: int, e: nat)
    requires Prime(p) && b % p != 0
    ensures Pow(b, e) % p != 0
  {
    if e == 0 {
      DivModUnique(1, p, 0, 1);
    } else {
      PowNotDivisible(p, b, e - 1);
      if (b * Pow(b, e - 1)) % p == 0 {
        EuclidLemma(p, b, Pow(b, e - 1));
      }
    }
  }

  // ---------------------------------------------------------------------
  // Powers
  // ---------------------------------------------------------------------

  lemma {:induction false} PowAdd(b: int, e1: nat, e2: nat)
    ensures Pow(b, e1 + e2) == Pow(b, e1) * Pow(b, e2)
    decreases e1
  {
    if e1 > 0 {
      PowAdd(b, e1 - 1, e2);
    }
  }

  lemma {:induction false} PowPow(b: int, e1: nat, e2: nat)
    ensures Pow(Pow(b, e1), e2) == Pow(b, e1 * e2)
    decreases e2
  {
    if e2 > 0 {
      PowPow(b, e1, e2 - 1);
      PowAdd(b, e1, e1 * (e2 - 1));
    }
  }

  /** `pow(b, e, m)` depends only on `b % m`. */
  lemma {:induction false} PowModBase(b: int, e: nat, m: int)
    requires m > 0
    ensures Pow(b % m, e) % m == Pow(b, e) % m
  {
    if e > 0 {
      PowModBase(b, e - 1, m);
      ModMul(b % m, Pow(b % m, e - 1), m);
      ModMul(b, Pow(b, e - 1), m);
      ModOfMod(b, m);
    }
  }

  /** `pow(pow(b, e1, m), e2, m) == pow(b, e1 * e2, m)`. */
  lemma PowModPow(b: int, e1: nat, e2: nat, m: int)
    requires m > 0
    ensures PowMod(PowMod(b, e1, m), e2, m) == PowMod(b, e1 * e2, m)
  {
    PowModBase(Pow(b, e1), e2, m);
    PowPow(b, e1, e2);
  }

  /** `1` to any power is `1`. */
  lemma {:induction false} PowOne(e: nat)
    ensures Pow(1, e) == 1
  {
    if e > 0 {
      PowOne(e - 1);
    }
  }

  // ---------------------------------------------------------------------
  // Fermat's little theorem
  // ---------------------------------------------------------------------

  /** The binomial coefficient `n` choose `k`, by Pascal's rule. */
  function Binom(n: nat, k: nat): nat {
    if k == 0 then 1 else if n == 0 then 0 else Binom(n - 1, k - 1) + Binom(n - 1, k)
  }

  /** The first `m` terms of the binomial expansion of `(x + 1)^n`. */
  function BinomSum(x: int, n: nat, m: nat): int {
    if m == 0 then 0 else BinomSum(x, n, m - 1) + Binom(n, m - 1) * Pow(x, m - 1)
  }

  /** No way to choose more elements than there are. */
  lemma {:induction false} BinomAbove(n: nat, k: nat)
    requires k > n
    ensures Binom(n, k) == 0
  {
    if n > 0 {
      BinomAbove(n - 1, k - 1);
      BinomAbove(n - 1, k);
    }
  }

  /** One way to choose all elements. */
  lemma {:induction false} BinomDiagonal(n: nat)
    ensures Binom(n, n) == 1
  {
    if n > 0 {
      BinomDiagonal(n - 1);
      BinomAbove(n - 1, n);
    }
  }

  /** Pascal's rule on the partial sums of the expansion. */
  lemma {:induction false} BinomSumStep(x: int, n: nat, m: nat)
    ensures BinomSum(x, n + 1, m + 1) == BinomSum(x, n, m + 1) + x * BinomSum(x, n, m)
  {
    if m > 0 {
      BinomSumStep(x, n, m - 1);
      PascalTerms(BinomSum(x, n, m - 1), Binom(n, m - 1), Binom(n, m), Pow(x, m - 1), x);
    }
  }

  /** The algebra of one step of `BinomSumStep`: with `s1 = s0 + b1*w`,
      `s0 + b1*w + x*s0 + (b1 + b2)*(x*w) == (s1 + b2*(x*w)) + x*s1`. */
  lemma PascalTerms(s0: int, b1: int, b2: int, w: int, x: int)
    ensures (s0 + b1 * w) + x * s0 + (b1 + b2) * (x * w) == ((s0 + b1 * w) + b2 * (x * w)) + x * (s0 + b1 * w)
  {
    assert (b1 + b2) * (x * w) == b1 * (x * w) + b2 * (x * w);
    assert x * (s0 + b1 * w) == x * s0 + x * (b1 * w);
    assert b1 * (x * w) == x * (b1 * w);
  }

  /** The binomial theorem for `(x + 1)^n`. */
  lemma {:induction false} BinomialTheorem(x: int, n: nat)
    ensures Pow(x + 1, n) == BinomSum(x, n, n + 1)
  {
    if n > 0 {
      BinomialTheorem(x, n - 1);
      BinomSumStep(x, n - 1, n);
      BinomAbove(n - 1, n);
      var s := BinomSum(x, n - 1, n);
      assert BinomSum(x, n - 1, n + 1) == s;
      assert Pow(x + 1, n) == s + x * s;
    }
  }

  /** `k * C(n, k) == n * C(n - 1, k - 1)`. */
  lemma {:induction false} BinomAbsorb(n: nat, k: nat)
    requires n >= 1 && k >= 1
    ensures k * Binom(n, k) == n * Binom(n - 1, k - 1)
  {
    if n == 1 {
      assert Binom(0, k) == 0;
    } else {
      BinomAbsorb(n - 1, k);
      if k == 1 {
        assert Binom(n - 2, 0) == 1;
      } else {
        BinomAbsorb(n - 1, k - 1);
        AbsorbTerms(n, k, Binom(n - 1, k - 1), Binom(n - 1, k), Binom(n - 2, k - 2), Binom(n - 2, k - 1));
      }
    }
  }

  /** The algebra of one step of `BinomAbsorb`. */
  lemma AbsorbTerms(n: int, k: int, b1: int, bk: int, c: int, d: int)
    requires k * bk == (n - 1) * d && (k - 1) * b1 == (n - 1) * c && b1 == c + d
    ensures k * (b1 + bk) == n * b1
  {
    assert k * (b1 + bk) == (k - 1) * b1 + b1 + k * bk;
    assert (n - 1) * c + (n - 1) * d == (n - 1) * b1;
  }

  /** The prime `p` divides `C(p, k)` for `0 < k < p`. */
  lemma PrimeDividesBinom(p: int, k: nat)
    requires Prime(p) && 0 < k < p
    ensures Binom(p, k) % p == 0
  {
    BinomAbsorb(p, k);
    DivModUnique(p * Binom(p - 1, k - 1), p, Binom(p - 1, k - 1), 0);
    DivModUnique(k, p, 0, k);
    EuclidLemma(p, k, Binom(p, k));
  }

  /** Modulo the prime `p`, the first `m <= p` terms of the expansion of
      `(x + 1)^p` add up to `1`. */
  lemma {:induction false} BinomSumModPrime(x: int, p: int, m: nat)
    requires Prime(p) && 1 <= m <= p
    ensures BinomSum(x, p, m) % p == 1
  {
    if m == 1 {
      DivModUnique(1, p, 0, 1);
    } else {
      BinomSumModPrime(x, p, m - 1);
      PrimeDividesBinom(p, m - 1);
      AddMultipleTerm(BinomSum(x, p, m - 1), Binom(p, m - 1), Pow(x, m - 1), p);
    }
  }

  /** Adding a term with a factor divisible by `m` keeps the remainder. */
  lemma AddMultipleTerm(s: int, b: int, w: int, m: int)
    requires m > 0 && b % m == 0
    ensures (s + b * w) % m == s % m
  {
    var q := b / m;
    assert b * w == m * (q * w);
    ModAddMultiple(s, q * w, m);
  }

  /** Modulo a prime `p`, `(x + 1)^p == x^p + 1`. */
  lemma FreshmansDream(x: int, p: int)
    requires Prime(p)
    ensures Pow(x + 1, p) % p == (Pow(x, p) + 1) % p
  {
    var front, last := BinomSum(x, p, p), Pow(x, p);
    BinomialTheorem(x, p);
    BinomDiagonal(p);
    assert BinomSum(x, p, p + 1) == front + last;
    BinomSumModPrime(x, p, p);
    var q := front / p;
    assert front + last == p * q + (last + 1);
    ModAddMultiple(last + 1, q, p);
  }

  /** `x^p == x (mod p)` for every natural `x` and prime `p`. */
  lemma {:induction false} FermatNat(x: nat, p: int)
    requires Prime(p)
    ensures Pow(x, p) % p == x % p
  {
    if x > 0 {
      FermatNat(x - 1, p);
      FreshmansDream(x - 1, p);
      ModAdd(Pow(x - 1, p), 1, p);
      ModAdd(x - 1, 1, p);
    }
  }

  /** Fermat's little theorem: `x^(p-1) == 1 (mod p)` when the prime `p`
      does not divide `x`. */
  lemma FermatLittle(x: int, p: int)
    requires Prime(p) && x % p != 0
    ensures Pow(x, p - 1) % p == 1
  {
    var y := x % p;
    var t := Pow(y, p - 1);
    FermatNat(y, p);
    PowModBase(x, p - 1, p);
    DivModUnique(y, p, 0, y);
    assert Pow(y, p) == y * t;
    CancelFactor(y, t, p);
  }

  /** If `y * t == y (mod p)` for `0 < y < p` and a prime `p`, then
      `t == 1 (mod p)`. */
  lemma CancelFactor(y: int, t: int, p: int)
    requires Prime(p) && 0 < y < p && (y * t) % p == y
    ensures t % p == 1
  {
    var q := (y * t) / p;
    assert y * (t - 1) == p * q;
    DivModUnique(y * (t - 1), p, q, 0);
    DivModUnique(y, p, 0, y);
    EuclidLemma(p, y, t - 1);
    DivModUnique(t, p, (t - 1) / p, 1);
  }

  /** Modulo a prime `p` that does not divide `x`, the exponents of `x`
      count modulo `p - 1`. */
  lemma ExponentModPMinusOne(x: int, e: nat, p: int)
    requires Prime(p) && x % p != 0
    ensures PowMod(x, e, p) == PowMod(x, e % (p - 1), p)
  {
    var q: nat, r: nat := e / (p - 1), e % (p - 1);
    var f := Pow(x, p - 1);
    var big, rest := Pow(f, q), Pow(x, r);
    assert e == (p - 1) * q + r;
    PowAdd(x, (p - 1) * q, r);
    PowPow(x, p - 1, q);
    assert Pow(x, e) == big * rest;
    FermatLittle(x, p);
    PowModBase(f, q, p);
    PowOne(q);
    DivModUnique(1, p, 0, 1);
    assert big % p == 1;
    ModMulOne(rest, big, p);
    assert rest * big == big * rest;
  }

}
