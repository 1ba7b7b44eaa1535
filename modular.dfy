/**
  The modular arithmetic behind the scrambling step: the recursive extended
  Euclidean algorithm, the modular inverse built on it, and the multiplicative
  map `n |-> (n * m) % s` that `encode` and `decode` apply to the index.
 */
module Modular {
  import opened Arith

  /**
    Extended Euclid, as the helper nested in `_mod_inverse`: returns the gcd
    of `a` and `b` together with Bezout coefficients `x`, `y`.
   */
  function ExtendedGcd(a: nat, b: nat): (r: (nat, int, int))
    ensures r.0 == Gcd(a, b)
    ensures a * r.1 + b * r.2 == r.0
    decreases a
  {
    if a == 0 then (b, 0, 1)
    else
      var (g, x1, y1) := ExtendedGcd(b % a, a);
      assert a * (y1 - (b / a) * x1) + b * x1 == g by {
        assert b == a * (b / a) + b % a;
        assert a * (y1 - (b / a) * x1) + b * x1
            == a * y1 + x1 * (b - a * (b / a));
      }
      (g, y1 - (b / a) * x1, x1)
  }

  /** Modular inverse of `a` modulo `m`, normalised into `[0, m)`. */
  function ModInverse(a: nat, m: nat): (x: nat)
    requires m >= 1
    ensures x < m
  {
    var (_, x, _) := ExtendedGcd(a % m, m);
    (x % m + m) % m
  }

  /** Two positive numbers that divide each other are equal. */
  lemma DividesAntisymmetric(x: int, y: int)
    requires x > 0 && y > 0 && Divides(x, y) && Divides(y, x)
    ensures x == y
  {
    var k :| y == x * k;
    var k' :| x == y * k';
    PositiveFactor(x, k);
    PositiveFactor(y, k');
    assert y >= x by { assert x * k == x + x * (k - 1); }
    assert x >= y by { assert y * k' == y + y * (k' - 1); }
  }

  /** The gcd seen by `ExtendedGcd(a % m, m)` is the gcd of `a` and `m`. */
  lemma GcdOfRemainder(a: nat, m: nat)
    requires m >= 1
    ensures Gcd(a % m, m) == Gcd(a, m)
  {
    var g, g' := Gcd(a, m), Gcd(a % m, m);
    var q := a / m;
    assert a % m == a - q * m;
    assert a == a % m - (-q) * m;
    GcdDivides(a, m);
    GcdDivides(a % m, m);
    DividesCombination(g, a, m, q);
    GcdGreatest(a % m, m, g);
    DividesCombination(g', a % m, m, -q);
    GcdGreatest(a, m, g');
    DividesAntisymmetric(g, g');
  }

  /** For `a` coprime to `m`, `ModInverse(a, m)` is an inverse of `a` modulo `m`. */
  lemma ModInverseInverts(a: nat, m: nat)
    requires m >= 1 && Gcd(a, m) == 1
    ensures (a * ModInverse(a, m)) % m == 1 % m
  {
    var (g, x, y) := ExtendedGcd(a % m, m);
    GcdOfRemainder(a, m);
    assert (a % m) * x + m * y == 1;
    var r := x % m;
    DivModUnique(x % m + m, m, 1, x % m);
    assert ModInverse(a, m) == r;
    ModMulLeft(a, r, m);
    ModMulRight(a % m, x, m);
    assert (a % m) * x == 1 + m * (-y);
    ModShift(1, m, -y);
  }

  /** Only a number coprime to `m` has an inverse modulo `m`. */
  lemma InverseOnlyIfCoprime(a: nat, r: int, m: nat)
    requires m >= 1 && (a * r) % m == 1 % m
    ensures Gcd(a, m) == 1
  {
    var g := Gcd(a, m);
    GcdDivides(a, m);
    if m == 1 {
      DividesOne(g);
    } else {
      var ar := a * r;
      var q := ar / m;
      DivModSplit(ar, m);
      DivModUnique(1, m, 0, 1);
      assert ar % m == 1;
      var ka :| a == g * ka;
      assert ar == g * (ka * r);
      DividesCombination(g, ar, m, q);
      assert ar - q * m == 1;
      DividesOne(g);
    }
  }

  /**
    The normalised result of `ModInverse` is an inverse of `a` modulo `m`
    exactly when `a` and `m` are coprime.
   */
  lemma ModInverseCorrect(a: nat, m: nat)
    requires m >= 1
    ensures (a * ModInverse(a, m)) % m == 1 % m <==> Gcd(a, m) == 1
  {
    if Gcd(a, m) == 1 {
      ModInverseInverts(a, m);
    } else if (a * ModInverse(a, m)) % m == 1 % m {
      InverseOnlyIfCoprime(a, ModInverse(a, m), m);
    }
  }

  /** The scrambling map `n |-> (n * k) % s` used by both `encode` and `decode`. */
  function Scramble(n: nat, k: nat, s: nat): (r: nat)
    requires s >= 1
    ensures r < s
  {
    (n * k) % s
  }

  /** Multiplying by `a` and then by `b` modulo `s` is the identity when `a * b` is 1 modulo `s`. */
  lemma ScrambleCancel(n: nat, a: nat, b: nat, s: nat)
    requires s >= 1 && n < s
    requires (a * b) % s == 1 % s
    ensures Scramble(Scramble(n, a, s), b, s) == n
  {
    var x, ab := n * a, a * b;
    ModMulLeft(x, b, s);
    assert x * b == n * ab;
    ModMulRight(n, ab, s);
    assert (n * ab) % s == (n * (1 % s)) % s;
    OneModIdentity(n, s);
  }

  /** Multiplying a value of `[0, s)` by `1 % s` and reducing gives it back. */
  lemma OneModIdentity(n: nat, s: nat)
    requires s >= 1 && n < s
    ensures (n * (1 % s)) % s == n
  {
    if s == 1 {
      assert n == 0;
    } else {
      DivModUnique(1, s, 0, 1);
      assert n * (1 % s) == n;
      DivModUnique(n, s, 0, n);
    }
  }

  /** With the inverse computed at construction, unscrambling undoes scrambling. */
  lemma UnscrambleScramble(n: nat, m: nat, s: nat)
    requires s >= 1 && n < s && Gcd(m, s) == 1
    ensures Scramble(Scramble(n, m, s), ModInverse(m, s), s) == n
  {
    ModInverseInverts(m, s);
    ScrambleCancel(n, m, ModInverse(m, s), s);
  }

  /** ... and scrambling undoes unscrambling. */
  lemma ScrambleUnscramble(n: nat, m: nat, s: nat)
    requires s >= 1 && n < s && Gcd(m, s) == 1
    ensures Scramble(Scramble(n, ModInverse(m, s), s), m, s) == n
  {
    var inv := ModInverse(m, s);
    ModInverseInverts(m, s);
    assert inv * m == m * inv;
    ScrambleCancel(n, inv, m, s);
  }

  /** Scrambling by `m` is one-to-one on `[0, s)`. */
  ghost predicate ScrambleInjective(m: nat, s: nat)
    requires s >= 1
  {
    forall n1: nat, n2: nat {:trigger Scramble(n1, m, s), Scramble(n2, m, s)} ::
      n1 < s && n2 < s && Scramble(n1, m, s) == Scramble(n2, m, s) ==> n1 == n2
  }

  /** `k` is the image of some value of `[0, s)` under scrambling by `m`. */
  ghost predicate Reached(k: nat, m: nat, s: nat)
    requires s >= 1
  {
    exists n: nat {:trigger Scramble(n, m, s)} :: n < s && Scramble(n, m, s) == k
  }

  /** Every value of `[0, s)` is reached by scrambling some value of `[0, s)`. */
  ghost predicate ScrambleSurjective(m: nat, s: nat)
    requires s >= 1
  {
    forall k: nat :: k < s ==> Reached(k, m, s)
  }

  /** For a multiplier coprime to `s`, scrambling is one-to-one on `[0, s)`. */
  lemma ScrambleInjectiveIfCoprime(m: nat, s: nat)
    requires s >= 1 && Gcd(m, s) == 1
    ensures ScrambleInjective(m, s)
  {
    forall n1: nat, n2: nat | n1 < s && n2 < s && Scramble(n1, m, s) == Scramble(n2, m, s)
      ensures n1 == n2
    {
      UnscrambleScramble(n1, m, s);
      UnscrambleScramble(n2, m, s);
    }
  }

  /** For a multiplier coprime to `s`, scrambling reaches every value of `[0, s)`. */
  lemma ScrambleSurjectiveIfCoprime(m: nat, s: nat)
    requires s >= 1 && Gcd(m, s) == 1
    ensures ScrambleSurjective(m, s)
  {
    forall k: nat | k < s
      ensures Reached(k, m, s)
    {
      ScrambleUnscramble(k, m, s);
      var n := Scramble(k, ModInverse(m, s), s);
      assert Scramble(n, m, s) == k;
    }
  }

  /**
    Scrambling by `m` is a permutation of `[0, s)` exactly when `m` is coprime
    to `s`; this is why the constructor insists on a coprime multiplier.
   */
  lemma ScramblePermutesIffCoprime(m: nat, s: nat)
    requires s >= 1
    ensures Gcd(m, s) == 1 <==> ScrambleInjective(m, s) && ScrambleSurjective(m, s)
  {
    if Gcd(m, s) == 1 {
      ScrambleInjectiveIfCoprime(m, s);
      ScrambleSurjectiveIfCoprime(m, s);
    } else {
      NotInjectiveIfShared(m, s);
    }
  }

  /** A multiplier that shares a factor with `s` maps two values of `[0, s)` together. */
  lemma NotInjectiveIfShared(m: nat, s: nat)
    requires s >= 1 && Gcd(m, s) != 1
    ensures !ScrambleInjective(m, s)
  {
    var q := SharedFactorWitness(m, s);
    var zero: nat := 0;
    assert Scramble(zero, m, s) == 0 by {
      assert zero * m == 0;
    }
    assert Scramble(q, m, s) == Scramble(zero, m, s);
  }

  /**
    A multiplier sharing a factor `g > 1` with `s` sends `s / g`, a non-zero
    value of `[0, s)`, to the same place as `0`.
   */
  lemma SharedFactorWitness(m: nat, s: nat) returns (q: nat)
    requires s >= 1 && Gcd(m, s) != 1
    ensures 0 < q < s && (q * m) % s == 0
  {
    var g := Gcd(m, s);
    GcdDivides(m, s);
    var p :| m == g * p;
    var q' :| s == g * q';
    PositiveFactor(g, q');
    BelowMultiple(g, q');
    assert q' * m == s * p by {
      assert q' * m == q' * (g * p);
      assert q' * (g * p) == (g * q') * p;
    }
    ModShift(0, s, p);
    q := q';
  }
}
