/** The integer arithmetic that Python's built-in `pow` rests on: exponentiation,
    Euclidean division and remainder, greatest common divisor, the extended
    Euclidean algorithm, modular inverse and modular exponentiation.
    Dafny's `/` and `%` on `int` are Euclidean (the remainder is never
    negative); every use below has a positive divisor, where Euclidean and
    Python's floor division agree. */
module NumberTheory {

  function Abs(x: int): (r: nat)
    ensures r == x || r == -x
  {
    if x < 0 then -x else x
  }

  /** b to the power k: the reference definition of exponentiation. */
  function Pow(b: int, k: nat): int
    decreases k
  {
    if k == 0 then 1 else b * Pow(b, k - 1)
  }

  lemma {:induction false} PowAdd(b: int, i: nat, j: nat)
    ensures Pow(b, i + j) == Pow(b, i) * Pow(b, j)
    decreases i
  {
    if i > 0 {
      PowAdd(b, i - 1, j);
      assert Pow(b, i + j) == b * Pow(b, i - 1 + j);
      assert b * (Pow(b, i - 1) * Pow(b, j)) == (b * Pow(b, i - 1)) * Pow(b, j);
    }
  }

  lemma {:induction false} PowMul(b: int, i: nat, j: nat)
    ensures Pow(b, i * j) == Pow(Pow(b, i), j)
    decreases j
  {
    if j > 0 {
      PowMul(b, i, j - 1);
      assert i * j == i + i * (j - 1);
      PowAdd(b, i, i * (j - 1));
    }
  }

  lemma {:induction false} PowProduct(a: int, b: int, k: nat)
    ensures Pow(a * b, k) == Pow(a, k) * Pow(b, k)
    decreases k
  {
    if k > 0 {
      PowProduct(a, b, k - 1);
      Rearrange(a, b, Pow(a, k - 1), Pow(b, k - 1));
    }
  }

  lemma Rearrange(a: int, b: int, x: int, y: int)
    ensures (a * b) * (x * y) == (a * x) * (b * y)
  {
  }

  lemma {:induction false} PowOfOne(k: nat)
    ensures Pow(1, k) == 1
    decreases k
  {
    if k > 0 {
      PowOfOne(k - 1);
    }
  }

  lemma {:induction false} PowPositive(b: int, k: nat)
    requires b > 0
    ensures Pow(b, k) > 0
    decreases k
  {
    if k > 0 {
      PowPositive(b, k - 1);
      MulPositive(b, Pow(b, k - 1));
    }
  }

  /** Powers of a base above one grow strictly with the exponent. */
  lemma {:induction false} PowStrictlyIncreasing(b: int, i: nat, j: nat)
    requires b > 1 && i < j
    ensures Pow(b, i) < Pow(b, j)
    decreases j - i
  {
    PowPositive(b, j - 1);
    if i < j - 1 {
      PowStrictlyIncreasing(b, i, j - 1);
    }
    assert Pow(b, j) == b * Pow(b, j - 1);
    MulAtLeast(Pow(b, j - 1), b - 1);
  }

  lemma MulPositive(x: int, y: int)
    requires x > 0 && y > 0
    ensures x * y > 0
  {
  }

  lemma MulAtLeast(m: int, t: int)
    requires m > 0 && t >= 1
    ensures m * t >= m
  {
    assert m * t == m * (t - 1) + m;
    if t > 1 {
      MulPositive(m, t - 1);
    }
  }

  /** Euclidean division is unique: any quotient and remainder that fit are the ones. */
  lemma DivModUnique(n: int, m: int, q: int, r: int)
    requires m > 0 && n == m * q + r && 0 <= r < m
    ensures n / m == q && n % m == r
  {
    var q0, r0 := n / m, n % m;
    assert m * q0 + r0 == n;
    if q > q0 {
      assert m * (q - q0) == r0 - r;
      MulAtLeast(m, q - q0);
      assert false;
    } else if q < q0 {
      assert m * (q0 - q) == r - r0;
      MulAtLeast(m, q0 - q);
      assert false;
    }
  }

  /** Dividing a multiple of a non-zero divisor, of either sign, is exact. */
  lemma DivExact(m: int, q: int)
    requires m != 0
    ensures (m * q) % m == 0 && (m * q) / m == q
  {
    if m > 0 {
      DivModUnique(m * q, m, q, 0);
    } else {
      var n := m * q;
      var q0, r0 := n / m, n % m;
      assert n == m * q0 + r0 && 0 <= r0 < -m;
      var t := q0 - q;
      assert (-m) * t == r0;
      if t >= 1 {
        MulAtLeast(-m, t);
        assert false;
      } else if t <= -1 {
        MulAtLeast(-m, -t);
        assert false;
      }
    }
  }

  lemma ModAddMultiple(m: int, k: int, r: int)
    requires m > 0
    ensures (m * k + r) % m == r % m
    ensures (m * k + r) / m == k + r / m
  {
    assert m * k + r == m * (k + r / m) + r % m;
    DivModUnique(m * k + r, m, k + r / m, r % m);
  }

  lemma ModOfMod(x: int, m: int)
    requires m > 0
    ensures (x % m) % m == x % m
  {
    DivModUnique(x % m, m, 0, x % m);
  }

  lemma MulMod(x: int, y: int, m: int)
    requires m > 0
    ensures (x * y) % m == ((x % m) * (y % m)) % m
  {
    var qx, rx := x / m, x % m;
    var qy, ry := y / m, y % m;
    assert x == m * qx + rx;
    assert y == m * qy + ry;
    assert x * y == m * (qx * y + rx * qy) + rx * ry;
    ModAddMultiple(m, qx * y + rx * qy, rx * ry);
  }

  /** Reducing one factor modulo m first does not change the product modulo m. */
  lemma MulModRight(x: int, y: int, m: int)
    requires m > 0
    ensures (x * (y % m)) % m == (x * y) % m
  {
    MulMod(x, y % m, m);
    ModOfMod(y, m);
    MulMod(x, y, m);
  }

  lemma {:induction false} PowMod(b: int, k: nat, m: int)
    requires m > 0
    ensures Pow(b % m, k) % m == Pow(b, k) % m
    decreases k
  {
    if k > 0 {
      PowMod(b, k - 1, m);
      MulMod(b % m, Pow(b % m, k - 1), m);
      ModOfMod(b, m);
      MulMod(b, Pow(b, k - 1), m);
    }
  }

  lemma DividesCombination(u: int, k: int, v: int, g: int)
    requires g > 0 && u % g == 0 && v % g == 0
    ensures (u * k + v) % g == 0
  {
    var s := u / g;
    assert u == g * s;
    assert u * k + v == g * (s * k) + v;
    ModAddMultiple(g, s * k, v);
  }

  /** Greatest common divisor by Euclid's algorithm. */
  function Gcd(a: nat, b: nat): nat
    decreases b
  {
    if b == 0 then a else Gcd(b, a % b)
  }

  /** Gcd(a, b) is a positive common divisor of a and b. */
  lemma {:induction false} GcdDivides(a: nat, b: nat)
    requires a > 0 || b > 0
    ensures Gcd(a, b) > 0 && a % Gcd(a, b) == 0 && b % Gcd(a, b) == 0
    decreases b
  {
    if b > 0 {
      GcdDivides(b, a % b);
      assert a == b * (a / b) + a % b;
      DividesCombination(b, a / b, a % b, Gcd(a, b));
    }
  }

  /** The extended Euclidean algorithm: the gcd together with Bezout coefficients. */
  function ExtGcd(a: nat, b: nat): (r: (nat, int, int))
    ensures r.0 == Gcd(a, b)
    ensures r.1 * a + r.2 * b == r.0
    decreases b
  {
    if b == 0 then (a, 1, 0)
    else
      var (g, s, t) := ExtGcd(b, a % b);
      assert a % b == a - (a / b) * b;
      assert t * a + (s - (a / b) * t) * b == s * b + t * (a - (a / b) * b);
      (g, t, s - (a / b) * t)
  }

  /** An inverse of a modulo m (m > 1) is a residue d in [0, m) with a * d = 1 modulo m. */
  predicate IsInverse(a: int, d: int, m: int)
    requires m > 1
  {
    0 <= d < m && (a * d) % m == 1
  }

  /** The modular inverse of a modulo m: a Bezout coefficient reduced into [0, m). */
  function Inverse(a: int, m: int): (r: int)
    requires m > 1 && Gcd(a % m, m) == 1
    ensures IsInverse(a, r, m)
  {
    var (g, s, t) := ExtGcd(a % m, m);
    InverseFromBezout(a, m, s, t);
    s % m
  }

  lemma InverseFromBezout(a: int, m: int, s: int, t: int)
    requires m > 1 && s * (a % m) + t * m == 1
    ensures (a * (s % m)) % m == 1
  {
    var r, u := a % m, s % m;
    MulMod(a, u, m);
    ModOfMod(s, m);
    ModOfMod(a, m);
    assert (a * u) % m == (r * u) % m;
    MulModRight(r, s, m);
    assert (r * u) % m == (r * s) % m;
    assert r * s == m * (-t) + 1;
    ModAddMultiple(m, -t, 1);
    DivModUnique(1, m, 0, 1);
  }

  /** Modulo m there is at most one inverse of a. */
  lemma InverseUnique(a: int, d1: int, d2: int, m: int)
    requires m > 1 && IsInverse(a, d1, m) && IsInverse(a, d2, m)
    ensures d1 == d2
  {
    var x1, x2 := a * d1, a * d2;
    MulModRight(d1, x2, m);
    MulModRight(d2, x1, m);
    assert d1 * x2 == d2 * x1;
    DivModUnique(d1, m, 0, d1);
    DivModUnique(d2, m, 0, d2);
  }

  /** When a and m share a factor, a has no inverse modulo m. */
  lemma NoInverseWithoutCoprimality(a: int, d: int, m: int)
    requires m > 1 && Gcd(a % m, m) != 1
    ensures (a * d) % m != 1
  {
    var r := a % m;
    var g := Gcd(r, m);
    GcdDivides(r, m);
    if (a * d) % m == 1 {
      MulModRight(d, a, m);
      DividesCombination(r, d, 0, g);
      assert r * d == d * r;
      DivisorBlocksUnit(d * r, m, g);
      assert false;
    }
  }

  /** A multiple of a proper common factor g of m is never one more than a multiple of m. */
  lemma DivisorBlocksUnit(x: int, m: int, g: int)
    requires m > 1 && g > 1 && x % g == 0 && m % g == 0
    ensures x % m != 1
  {
    if x % m == 1 {
      var k := x / m;
      assert m * (-k) + x == 1;
      DivModUnique(1, g, 0, 1);
      DividesCombination(m, -k, x, g);
      assert false;
    }
  }

  /** Modular exponentiation by repeated squaring, reducing modulo m at every step. */
  function ModPow(b: int, k: nat, m: int): (r: int)
    requires m > 0
    ensures 0 <= r < m
    decreases k
  {
    if k == 0 then 1 % m
    else if k % 2 == 0 then
      var h := ModPow(b, k / 2, m);
      (h * h) % m
    else
      (b * ModPow(b, k - 1, m)) % m
  }

  /** Repeated squaring computes the power reduced modulo m. */
  lemma {:induction false} ModPowIsPow(b: int, k: nat, m: int)
    requires m > 0
    ensures ModPow(b, k, m) == Pow(b, k) % m
    decreases k
  {
    if k > 0 {
      if k % 2 == 0 {
        ModPowIsPow(b, k / 2, m);
        PowAdd(b, k / 2, k / 2);
        MulMod(Pow(b, k / 2), Pow(b, k / 2), m);
        ModOfMod(Pow(b, k / 2), m);
      } else {
        ModPowIsPow(b, k - 1, m);
        MulModRight(b, Pow(b, k - 1), m);
      }
    }
  }
}
