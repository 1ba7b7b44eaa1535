/**
  Integer facts the codec relies on: divisibility, uniqueness of quotient and
  remainder, and the greatest common divisor computed by `math.gcd`.
  All operands here are non-negative, so Dafny's Euclidean `/` and `%` agree
  with Python's floor division and modulo.
 */
module Arith {

  /** `d` divides `x`. */
  ghost predicate Divides(d: int, x: int) {
    exists k :: x == d * k
  }

  /** A multiple of a positive `m` that lies strictly between `-m` and `m` is zero. */
  lemma MultipleInOpenRange(m: int, t: int)
    requires m > 0
    requires -m < m * t < m
    ensures t == 0
  {
  }

  /** Quotient and remainder are the only pair with `n == m * q + r` and `0 <= r < m`. */
  lemma DivModUnique(n: int, m: int, q: int, r: int)
    requires m > 0
    requires n == m * q + r && 0 <= r < m
    ensures n / m == q && n % m == r
  {
    var q', r' := n / m, n % m;
    assert m * (q' - q) == r - r' by {
      assert m * q' + r' == m * q + r;
      assert m * (q' - q) == m * q' - m * q;
    }
    MultipleInOpenRange(m, q' - q);
  }

  /** Adding a multiple of `m` does not change the remainder modulo `m`. */
  lemma ModShift(x: int, m: int, k: int)
    requires m > 0
    ensures (x + m * k) % m == x % m
  {
    var q := x / m;
    assert x + m * k == m * (q + k) + x % m by {
      assert m * (q + k) == m * q + m * k;
    }
    DivModUnique(x + m * k, m, q + k, x % m);
  }

  /** Reducing the left factor modulo `s` does not change a product's remainder modulo `s`. */
  lemma ModMulLeft(x: int, y: int, s: int)
    requires s > 0
    ensures ((x % s) * y) % s == (x * y) % s
  {
    var q, r := x / s, x % s;
    assert x == s * q + r;
    assert x * y == r * y + s * (q * y) by {
      calc {
        x * y;
        (s * q + r) * y;
        s * q * y + r * y;
      }
    }
    ModShift(r * y, s, q * y);
  }

  /** Reducing the right factor modulo `s` does not change a product's remainder modulo `s`. */
  lemma ModMulRight(x: int, y: int, s: int)
    requires s > 0
    ensures (x * (y % s)) % s == (x * y) % s
  {
    ModMulLeft(y, x, s);
    assert x * (y % s) == (y % s) * x && x * y == y * x;
  }

  /** A positive number times `k` is positive only when `k` is positive. */
  lemma PositiveFactor(x: int, k: int)
    requires x > 0 && x * k > 0
    ensures k >= 1
  {
    assert k <= 0 ==> x * k <= 0 by {
      assert x * k == - (x * (- k));
    }
  }

  /** Multiplying a positive `q` by a factor of at least two makes it strictly larger. */
  lemma BelowMultiple(g: int, q: int)
    requires g >= 2 && q >= 1
    ensures q < g * q
  {
    assert g * q == q + (g - 1) * q;
  }

  /** Quotient and remainder of a non-negative number by a positive one are non-negative. */
  lemma DivModNonNegative(n: int, b: int)
    requires n >= 0 && b > 0
    ensures n / b >= 0 && 0 <= n % b < b
  {
  }

  /** Euclidean division: `x` is its quotient times `m` plus its remainder. */
  lemma DivModSplit(x: int, m: int)
    requires m > 0
    ensures x == (x / m) * m + x % m
  {
  }

  /** One Horner step stays below the next place value: `c * b + d < p * b`. */
  lemma HornerStepBound(c: nat, p: nat, d: nat, b: nat)
    requires c < p && d < b
    ensures c * b + d < p * b
  {
    var k := p - 1 - c;
    assert k * b >= 0;
    assert p * b == c * b + b + k * b by {
      assert p == c + 1 + k;
    }
  }

  /** Dividing a value below `p * b` by `b` leaves a quotient below `p`. */
  lemma QuotientBound(n: nat, p: nat, b: nat)
    requires b > 0 && n < p * b
    ensures n / b < p
  {
    var q := n / b;
    assert n == b * q + n % b;
    assert b * (p - q) > 0 by {
      assert b * p - b * q == b * (p - q);
    }
    PositiveFactor(b, p - q);
  }

  /** A non-negative divisor of 1 is 1. */
  lemma DividesOne(g: int)
    requires g >= 0 && Divides(g, 1)
    ensures g == 1
  {
    var k :| 1 == g * k;
  }

  /** A common divisor of `x` and `y` divides `x - c * y`. */
  lemma DividesCombination(d: int, x: int, y: int, c: int)
    requires Divides(d, x) && Divides(d, y)
    ensures Divides(d, x - c * y)
  {
    var kx :| x == d * kx;
    var ky :| y == d * ky;
    assert x - c * y == d * (kx - c * ky) by {
      assert c * y == d * (c * ky);
      assert d * (kx - c * ky) == d * kx - d * (c * ky);
    }
  }

  /**
    Greatest common divisor by Euclid's algorithm, the reference for `math.gcd`
    on non-negative operands (`Gcd(0, 0) == 0`).
   */
  function Gcd(a: nat, b: nat): (g: nat)
    ensures a > 0 || b > 0 ==> g > 0
    decreases a
  {
    if a == 0 then b else Gcd(b % a, a)
  }

  /** `Gcd(a, b)` is a common divisor of `a` and `b`. */
  lemma {:induction false} GcdDivides(a: nat, b: nat)
    ensures Divides(Gcd(a, b), a) && Divides(Gcd(a, b), b)
  {
    if a == 0 {
      assert a == b * 0 && b == b * 1;
    } else {
      var g := Gcd(b % a, a);
      GcdDivides(b % a, a);
      var k1 :| b % a == g * k1;
      var k2 :| a == g * k2;
      assert b == g * (k2 * (b / a) + k1) by {
        assert b == a * (b / a) + b % a;
        assert a * (b / a) == g * (k2 * (b / a));
        assert g * (k2 * (b / a) + k1) == g * (k2 * (b / a)) + g * k1;
      }
    }
  }

  /** Every common divisor of `a` and `b` divides `Gcd(a, b)`: it is the greatest one. */
  lemma {:induction false} GcdGreatest(a: nat, b: nat, d: int)
    requires Divides(d, a) && Divides(d, b)
    ensures Divides(d, Gcd(a, b))
  {
    if a != 0 {
      assert b % a == b - (b / a) * a;
      DividesCombination(d, b, a, b / a);
      GcdGreatest(b % a, a, d);
    }
  }

  /** Consecutive integers are coprime: `n - 1` is always a valid multiplier for `n >= 1`. */
  lemma GcdPredecessor(n: nat)
    requires n >= 1
    ensures Gcd(n - 1, n) == 1
  {
    if n >= 3 {
      DivModUnique(n, n - 1, 1, 1);
      assert Gcd(n - 1, n) == Gcd(1, n - 1);
    }
  }

  /** Every number is coprime to 1. */
  lemma GcdWithOne(c: nat)
    ensures Gcd(c, 1) == 1 && Gcd(1, c) == 1
  {
    assert c % 1 == 0;
    if c > 1 {
      assert 1 % c == 1 && c % 1 == 0;
      assert Gcd(c, 1) == Gcd(1, c) == Gcd(0, 1);
    }
  }
}
