// The arithmetic behind the time-lock puzzle: congruences, Euclid's lemma, Fermat's little
// theorem and the combination of congruences modulo two distinct primes.
module NumberTheory {
  import Base

  function Pow(base: nat, exponent: nat): (r: nat) {
    if exponent == 0 then 1 else base * Pow(base, exponent - 1)
  }

  function Factorial(n: nat): (r: nat)
    ensures r > 0
  {
    if n == 0 then 1 else n * Factorial(n - 1)
  }

  predicate Prime(p: nat) {
    p >= 2 && forall d :: 2 <= d < p ==> p % d != 0
  }

  // ---------------------------------------------------------------- division and congruence

  lemma DivModUnique(x: int, m: int, k: int, r: int)
    requires m > 0 && 0 <= r < m && x == m * k + r
    ensures x / m == k && x % m == r
  {
    var q := x / m;
    assert x == m * q + x % m;
    assert m * (q - k) == r - x % m;
    if q > k {
      MulMonotone(m, 1, q - k);
    } else if q < k {
      MulMonotone(m, q - k, -1);
    }
  }

  lemma MulAssociates(x: int, y: int, z: int)
    ensures (x * y) * z == x * (y * z)
  {
  }

  lemma MulMonotone(m: int, x: int, y: int)
    requires m >= 0 && x <= y
    ensures m * x <= m * y
  {
  }

  lemma CongruentByMultiple(x: int, y: int, m: int, k: int)
    requires m > 0 && x == y + m * k
    ensures x % m == y % m
  {
    assert m * (y / m + k) == m * (y / m) + m * k;
    DivModUnique(x, m, y / m + k, y % m);
  }

  lemma MultipleOfCongruent(x: int, y: int, m: int) returns (k: int)
    requires m > 0 && x % m == y % m
    ensures x == y + m * k
  {
    k := x / m - y / m;
    assert m * k == m * (x / m) - m * (y / m);
  }

  lemma MultipleIsZero(m: int, k: int)
    requires m > 0
    ensures (m * k) % m == 0
  {
    DivModUnique(m * k, m, k, 0);
  }

  lemma ExpandProduct(x: int, y: int, m: int, j: int, k: int)
    ensures (x + m * j) * (y + m * k) == x * y + m * (x * k + j * y + m * (j * k))
  {
    MulSwap(x, m, k);
    MulAssociates(m, j, y);
    MulAssociates(m, j, m * k);
    MulSwap(j, m, k);
  }

  /** Congruent factors have congruent products. */
  lemma MulCongruent(x: int, x': int, y: int, y': int, m: int)
    requires m > 0 && x % m == x' % m && y % m == y' % m
    ensures (x * y) % m == (x' * y') % m
  {
    var j := MultipleOfCongruent(x, x', m);
    var k := MultipleOfCongruent(y, y', m);
    var c := x' * k + j * y' + m * (j * k);
    ExpandProduct(x', y', m, j, k);
    CongruentByMultiple(x * y, x' * y', m, c);
  }

  // ---------------------------------------------------------------- powers

  lemma {:induction false} PowAdd(b: nat, x: nat, y: nat)
    ensures Pow(b, x + y) == Pow(b, x) * Pow(b, y)
  {
    if x != 0 {
      PowAdd(b, x - 1, y);
      assert b * (Pow(b, x - 1) * Pow(b, y)) == (b * Pow(b, x - 1)) * Pow(b, y);
    }
  }

  lemma {:induction false} PowMul(b: nat, x: nat, y: nat)
    ensures Pow(b, x * y) == Pow(Pow(b, x), y)
  {
    if y != 0 {
      PowMul(b, x, y - 1);
      assert x * y == x + x * (y - 1);
      PowAdd(b, x, x * (y - 1));
    }
  }

  lemma {:induction false} PowOne(k: nat)
    ensures Pow(1, k) == 1
  {
    if k != 0 { PowOne(k - 1); }
  }

  lemma {:induction false} PowCongruent(x: nat, y: nat, e: nat, m: nat)
    requires m > 0 && x % m == y % m
    ensures Pow(x, e) % m == Pow(y, e) % m
  {
    if e != 0 {
      PowCongruent(x, y, e - 1, m);
      MulCongruent(x, y, Pow(x, e - 1), Pow(y, e - 1), m);
    }
  }

  // ---------------------------------------------------------------- Euclid's lemma

  /** A prime that divides a product divides one of the factors: remainders of p by a shrink a to 1. */
  lemma {:induction false} EuclidSmall(p: nat, a: nat, b: int)
    requires Prime(p) && 0 < a < p && (a * b) % p == 0
    ensures b % p == 0
    decreases a
  {
    if a > 1 {
      var r := p % a;
      assert r != 0;
      var k := p / a;
      assert p == a * k + r;
      // r * b = p * b - k * (a * b)
      var c := (a * b) / p;
      assert a * b == p * c;
      assert r * b == p * (b - k * c) by {
        assert r * b == (p - a * k) * b;
        assert (p - a * k) * b == p * b - (a * k) * b;
        assert (a * k) * b == k * (a * b);
        assert k * (p * c) == p * (k * c);
        assert p * (b - k * c) == p * b - p * (k * c);
      }
      MultipleIsZero(p, b - k * c);
      EuclidSmall(p, r, b);
    }
  }

  lemma Euclid(p: nat, a: int, b: int)
    requires Prime(p) && (a * b) % p == 0 && a % p != 0
    ensures b % p == 0
  {
    DivModUnique(a % p, p, 0, a % p);
    MulCongruent(a % p, a, b, b, p);
    EuclidSmall(p, a % p, b);
  }

  /** A factor prime to p cancels modulo p. */
  lemma CancelFactor(p: nat, c: int, x: int, y: int)
    requires Prime(p) && c % p != 0 && (c * x) % p == (c * y) % p
    ensures x % p == y % p
  {
    var k := MultipleOfCongruent(c * x, c * y, p);
    assert c * (x - y) == p * k by { assert c * (x - y) == c * x - c * y; }
    MultipleIsZero(p, k);
    Euclid(p, c, x - y);
    var j := (x - y) / p;
    assert x - y == p * j;
    CongruentByMultiple(x, y, p, j);
  }

  lemma {:induction false} FactorialPrimeTo(p: nat, n: nat)
    requires Prime(p) && n < p
    ensures Factorial(n) % p != 0
  {
    if n == 0 {
      DivModUnique(1, p, 0, 1);
    } else {
      FactorialPrimeTo(p, n - 1);
      if Factorial(n) % p == 0 {
        DivModUnique(n, p, 0, n);
        Euclid(p, n, Factorial(n - 1));
      }
    }
  }

  // ---------------------------------------------------------------- products over finite sets

  ghost function Max(s: set<nat>): (m: nat)
    requires s != {}
    ensures m in s && forall x :: x in s ==> x <= m
  {
    var x :| x in s;
    if s == {x} then x
    else
      assert s - {x} != {};
      var y := Max(s - {x});
      assert forall z :: z in s ==> z == x || z in s - {x};
      if x > y then x else y
  }

  ghost function Product(s: set<nat>): nat {
    if s == {} then 1 else Max(s) * Product(s - {Max(s)})
  }

  lemma {:induction false} ProductInsert(s: set<nat>, x: nat)
    requires x !in s
    ensures Product(s + {x}) == x * Product(s)
  {
    var t := s + {x};
    var m := Max(t);
    assert Product(t) == m * Product(t - {m});
    if m == x {
      assert t - {m} == s;
    } else {
      var rest := s - {m};
      assert Max(s) == m;
      assert t - {m} == rest + {x};
      ProductInsert(rest, x);
      MulSwap(m, x, Product(rest));
    }
  }

  lemma MulSwap(a: int, b: int, c: int)
    ensures a * (b * c) == b * (a * c)
  {
  }

  function UpTo(n: nat): (s: set<nat>)
    ensures forall x :: x in s <==> 1 <= x <= n
  {
    if n == 0 then {} else UpTo(n - 1) + {n}
  }

  lemma {:induction false} ProductUpTo(n: nat)
    ensures Product(UpTo(n)) == Factorial(n) && |UpTo(n)| == n
  {
    if n == 0 {
    } else {
      ProductUpTo(n - 1);
      ProductInsert(UpTo(n - 1), n);
    }
  }

  lemma {:induction false} SubsetOfSameSize(s: set<nat>, t: set<nat>)
    requires s <= t && |s| == |t|
    ensures s == t
  {
    if x :| x in t && x !in s {
      assert s <= t - {x};
      Base.SubsetSize(s, t - {x});
    }
  }

  // ---------------------------------------------------------------- Fermat's little theorem

  /** The residues of a, 2a, ..., na modulo p. */
  function Multiples(a: nat, p: nat, n: nat): (s: set<nat>)
    requires p > 0
  {
    if n == 0 then {} else Multiples(a, p, n - 1) + {(a * n) % p}
  }

  lemma {:induction false} MultiplesMember(a: nat, p: nat, n: nat, x: nat) returns (j: nat)
    requires p > 0 && x in Multiples(a, p, n)
    ensures 1 <= j <= n && x == (a * j) % p
  {
    if x == (a * n) % p {
      j := n;
    } else {
      j := MultiplesMember(a, p, n - 1, x);
    }
  }

  /** They are n distinct nonzero residues: i*a = j*a forces i = j for factors below p. */
  lemma {:induction false} MultiplesDistinct(a: nat, p: nat, n: nat)
    requires Prime(p) && a % p != 0 && n < p
    ensures Multiples(a, p, n) <= UpTo(p - 1) && |Multiples(a, p, n)| == n
    ensures n > 0 ==> (a * n) % p !in Multiples(a, p, n - 1)
  {
    if n != 0 {
      MultiplesDistinct(a, p, n - 1);
      DivModUnique(n, p, 0, n);
      if (a * n) % p == 0 {
        Euclid(p, a, n);
      }
      if (a * n) % p in Multiples(a, p, n - 1) {
        var j := MultiplesMember(a, p, n - 1, (a * n) % p);
        CancelFactor(p, a, n, j);
        DivModUnique(j, p, 0, j);
      }
    }
  }

  lemma {:induction false} MultiplesProduct(a: nat, p: nat, n: nat)
    requires Prime(p) && a % p != 0 && n < p
    ensures Product(Multiples(a, p, n)) % p == (Pow(a, n) * Factorial(n)) % p
  {
    if n != 0 {
      var before, x := Multiples(a, p, n - 1), (a * n) % p;
      MultiplesProduct(a, p, n - 1);
      assert Product(Multiples(a, p, n)) == x * Product(before) by {
        MultiplesDistinct(a, p, n);
        ProductInsert(before, x);
      }
      MultiplyStep(a, n, x, Product(before), Pow(a, n - 1), Factorial(n - 1), p);
    }
  }

  lemma MultiplyStep(a: int, n: int, x: int, product: int, power: int, factorial: int, p: nat)
    requires p > 0 && x == (a * n) % p && product % p == (power * factorial) % p
    ensures (x * product) % p == ((a * power) * (n * factorial)) % p
  {
    ModTwice(a * n, p);
    MulCongruent(x, a * n, product, power * factorial, p);
    RegroupFour(a, n, power, factorial);
  }

  lemma ModTwice(x: int, m: int)
    requires m > 0
    ensures (x % m) % m == x % m
  {
    DivModUnique(x % m, m, 0, x % m);
  }

  lemma RegroupFour(a: int, b: int, c: int, d: int)
    ensures (a * b) * (c * d) == (a * c) * (b * d)
  {
    assert (a * b) * (c * d) == a * (b * c) * d;
    assert (a * c) * (b * d) == a * (c * b) * d;
  }

  /** Multiplying every residue by a permutes them, so the product only gains the factor a^(p-1). */
  lemma ProductOfAllMultiples(a: nat, p: nat)
    requires Prime(p) && a % p != 0
    ensures (Pow(a, p - 1) * Factorial(p - 1)) % p == Factorial(p - 1) % p
  {
    var n := p - 1;
    MultiplesProduct(a, p, n);
    assert Multiples(a, p, n) == UpTo(n) by {
      MultiplesDistinct(a, p, n);
      ProductUpTo(n);
      SubsetOfSameSize(Multiples(a, p, n), UpTo(n));
    }
    ProductUpTo(n);
  }

  /** Fermat: a^(p-1) = 1 modulo a prime p that does not divide a. */
  lemma Fermat(a: nat, p: nat)
    requires Prime(p) && a % p != 0
    ensures Pow(a, p - 1) % p == 1
  {
    ProductOfAllMultiples(a, p);
    MulCommutes(Pow(a, p - 1), Factorial(p - 1));
    FactorialPrimeTo(p, p - 1);
    CancelFactor(p, Factorial(p - 1), Pow(a, p - 1), 1);
    DivModUnique(1, p, 0, 1);
  }

  lemma MulCommutes(x: int, y: int)
    ensures x * y == y * x
  {
  }

  /** The order p-1 annihilates: exponents that differ by a multiple of p-1 give the same power. */
  lemma PowModuloOrder(a: nat, p: nat, k: nat, r: nat)
    requires Prime(p) && a % p != 0
    ensures Pow(a, (p - 1) * k + r) % p == Pow(a, r) % p
  {
    Fermat(a, p);
    PowAdd(a, (p - 1) * k, r);
    PowMul(a, p - 1, k);
    DivModUnique(1, p, 0, 1);
    PowCongruent(Pow(a, p - 1), 1, k, p);
    PowOne(k);
    MulCongruent(Pow(a, (p - 1) * k), 1, Pow(a, r), Pow(a, r), p);
  }

  // ---------------------------------------------------------------- two primes at once

  /** Numbers congruent modulo two distinct primes are congruent modulo their product. */
  lemma CombineCongruences(x: int, y: int, p: nat, q: nat)
    requires Prime(p) && Prime(q) && p != q
    requires x % p == y % p && x % q == y % q
    ensures x % (p * q) == y % (p * q)
  {
    var k := MultipleOfCongruent(x, y, p);
    var j := MultipleOfCongruent(x, y, q);
    MultipleIsZero(q, j);
    assert p % q != 0 by {
      if q < p {
      } else {
        DivModUnique(p, q, 0, p);
      }
    }
    Euclid(q, p, k);
    var c := k / q;
    assert k == q * c;
    assert p * k == (p * q) * c;
    CongruentByMultiple(x, y, p * q, c);
  }

  // ---------------------------------------------------------------- greatest common divisor

  /** Euclid's algorithm. */
  function Gcd(a: nat, b: nat): (g: nat)
    requires a > 0 || b > 0
    ensures g > 0
    decreases b
  {
    if b == 0 then a else Gcd(b, a % b)
  }

  function Lcm(a: nat, b: nat): nat
    requires a > 0 && b > 0
  {
    a * b / Gcd(a, b)
  }

  lemma {:induction false} GcdDivides(a: nat, b: nat)
    requires a > 0 || b > 0
    ensures a % Gcd(a, b) == 0 && b % Gcd(a, b) == 0
    decreases b
  {
    if b == 0 {
      DivModUnique(a, a, 1, 0);
      DivModUnique(0, a, 0, 0);
    } else {
      var g := Gcd(b, a % b);
      GcdDivides(b, a % b);
      DivisorLifts(g, a, b);
    }
  }

  lemma DivisorLifts(g: int, a: int, b: int)
    requires g > 0 && b > 0 && b % g == 0 && (a % b) % g == 0
    ensures a % g == 0
  {
    var k, j, t := b / g, (a % b) / g, a / b;
    assert b == g * k && a % b == g * j;
    MulAssociates(g, k, t);
    assert a == g * (k * t + j) by {
      assert a == b * t + a % b;
      assert g * (k * t + j) == g * (k * t) + g * j;
    }
    MultipleIsZero(g, k * t + j);
  }

  /** Every common divisor divides the greatest one. */
  lemma {:induction false} CommonDivisor(d: nat, a: nat, b: nat)
    requires d > 0 && (a > 0 || b > 0) && a % d == 0 && b % d == 0
    ensures Gcd(a, b) % d == 0
    decreases b
  {
    if b != 0 {
      var j, k := a / d, b / d;
      assert a == d * j && b == d * k;
      var c := j - k * (a / b);
      assert a % b == d * c by {
        assert a == b * (a / b) + a % b;
        assert (d * k) * (a / b) == d * (k * (a / b));
      }
      MultipleIsZero(d, c);
      CommonDivisor(d, b, a % b);
    }
  }

  /** The least common multiple is positive and a multiple of both arguments. */
  lemma LcmMultiple(a: nat, b: nat) returns (j: nat, k: nat)
    requires a > 0 && b > 0
    ensures Lcm(a, b) > 0 && Lcm(a, b) == a * j && Lcm(a, b) == b * k && b == Gcd(a, b) * j
  {
    var g := Gcd(a, b);
    GcdDivides(a, b);
    j, k := b / g, a / g;
    assert a == g * k && b == g * j;
    MulSwap(a, g, j);
    DivModUnique(a * b, g, a * j, 0);
    assert a * j == b * k by {
      MulAssociates(g, k, j);
      MulAssociates(g, j, k);
      MulCommutes(j, k);
    }
    MulMonotone(a, 1, j);
  }

  /** The greatest common divisor is a combination of the two numbers. */
  lemma {:induction false} Bezout(a: nat, b: nat) returns (s: int, t: int)
    requires a > 0 || b > 0
    ensures Gcd(a, b) == a * s + b * t
    decreases b
  {
    if b == 0 {
      s, t := 1, 0;
    } else {
      var s', t' := Bezout(b, a % b);
      s, t := t', s' - (a / b) * t';
      RegroupBezout(a, b, a / b, a % b, s', t');
    }
  }

  lemma RegroupBezout(a: int, b: int, q: int, r: int, s: int, t: int)
    requires a == b * q + r
    ensures b * s + r * t == a * t + b * (s - q * t)
  {
    assert (b * q + r) * t == b * (q * t) + r * t;
    assert b * (s - q * t) == b * s - b * (q * t);
  }

  /** And the least common multiple divides every common multiple. */
  lemma LcmDivides(a: nat, b: nat, m: nat)
    requires a > 0 && b > 0 && m % a == 0 && m % b == 0
    ensures Lcm(a, b) > 0 && m % Lcm(a, b) == 0
  {
    var g, l := Gcd(a, b), Lcm(a, b);
    var j, k := LcmMultiple(a, b);
    var s, t := Bezout(a, b);
    var x, y := m / a, m / b;
    MultipleOfLcm(a, b, g, j, l, m, x, y, s, t);
    MultipleIsZero(l, x * t + y * s);
  }

  /** g m = (a s + b t) m = g l (y s + x t), so m is a multiple of l. */
  lemma MultipleOfLcm(a: int, b: int, g: int, d: int, l: int, m: int, x: int, y: int, s: int, t: int)
    requires g > 0 && b == g * d && l == a * d && m == a * x == b * y && g == a * s + b * t
    ensures m == l * (x * t + y * s)
  {
    assert m * g == g * (l * (x * t + y * s)) by {
      assert m * (a * s) == (b * y) * (a * s) == (a * b) * (y * s);
      assert m * (b * t) == (a * x) * (b * t) == (a * b) * (x * t);
      assert m * g == m * (a * s) + m * (b * t);
      assert a * b == g * l by { assert a * (g * d) == g * (a * d); }
      assert (g * l) * (y * s) + (g * l) * (x * t) == g * (l * (x * t + y * s)) by {
        Distribute(g, l, y * s, x * t);
      }
    }
    SameFactor(g, m, l * (x * t + y * s));
  }

  lemma Distribute(g: int, l: int, u: int, v: int)
    ensures (g * l) * u + (g * l) * v == g * (l * (v + u))
  {
  }

  lemma SameFactor(g: int, u: int, v: int)
    requires g > 0 && u * g == g * v
    ensures u == v
  {
    assert g * (u - v) == 0;
  }

  /** A number coprime to a product of primes is divisible by neither. */
  lemma CoprimeToFactor(a: nat, p: nat, q: nat)
    requires p >= 2 && q >= 2 && Gcd(a, p * q) == 1
    ensures a % p != 0
  {
    if a % p == 0 {
      MultipleIsZero(p, q);
      CommonDivisor(p, a, p * q);
      DivModUnique(1, p, 0, 1);
    }
  }
}
