/**
 * The arithmetic the time-lock puzzle rests on: powers, the modular exponentiation of
 * Go's big.Int.Exp, divisibility and primes, and the theorem that lets the owner reduce
 * the exponent 2^t modulo the totient (Fermat's little theorem, then Euler's theorem
 * for a product of two distinct primes).
 */
module NumberTheory {

  /** x to the power e. */
  function Pow(x: nat, e: nat): nat
  {
    if e == 0 then 1 else x * Pow(x, e - 1)
  }

  /** The reduction big.Int.Exp applies to its result: a zero modulus means no reduction. */
  function Reduce(x: nat, m: nat): (r: nat)
    ensures m > 0 ==> r < m
  {
    if m == 0 then x else x % m
  }

  /** big.Int.Exp(x, y, m) for non-negative x and y: x^y mod m, or x^y when m is 0. */
  function ModExp(x: nat, y: nat, m: nat): nat
  {
    Reduce(Pow(x, y), m)
  }

  function Abs(x: int): nat
  {
    if x < 0 then -x else x
  }

  /** d is a positive divisor of x. */
  predicate Divides(d: nat, x: int)
  {
    d > 0 && x % d == 0
  }

  ghost predicate IsPrime(p: nat)
  {
    p > 1 && forall d :: 1 < d < p ==> !Divides(d, p)
  }

  /** Euclid's algorithm. */
  function Gcd(x: nat, y: nat): nat
    decreases y
  {
    if y == 0 then x else Gcd(y, x % y)
  }

  // ---------------------------------------------------------------------------
  // Division and remainder

  lemma ModUnique(x: int, m: int, k: int, r: int)
    requires m > 0 && 0 <= r < m && x == m * k + r
    ensures x % m == r && x / m == k
  {
    var d := k - x / m;
    assert m * d == x % m - r;
  }

  lemma MulMod(x: int, y: int, m: int)
    requires m > 0
    ensures (x * y) % m == ((x % m) * (y % m)) % m
  {
    var qx, rx := x / m, x % m;
    var qy, ry := y / m, y % m;
    assert x * y == m * (qx * y + rx * qy) + rx * ry;
    var rr := (rx * ry) % m;
    assert rx * ry == m * ((rx * ry) / m) + rr;
    ModUnique(x * y, m, qx * y + rx * qy + (rx * ry) / m, rr);
  }

  lemma DividesLinear(d: nat, u: int, v: int, k: int)
    requires Divides(d, u) && Divides(d, v)
    ensures Divides(d, u + v * k)
  {
    var qu, qv := u / d, v / d;
    assert u + v * k == d * (qu + qv * k);
    ModUnique(u + v * k, d, qu + qv * k, 0);
  }

  lemma ModEqDivides(x: int, y: int, m: int)
    requires m > 0 && x % m == y % m
    ensures Divides(m, x - y)
  {
    assert x - y == m * (x / m - y / m);
    ModUnique(x - y, m, x / m - y / m, 0);
  }

  /** A positive number below m is not a multiple of m. */
  lemma NotDividesSmall(m: nat, x: int)
    requires 0 < x < m
    ensures !Divides(m, x)
  {
    ModUnique(x, m, 0, x);
  }

  // ---------------------------------------------------------------------------
  // Powers

  lemma {:induction false} PowAdd(x: nat, i: nat, j: nat)
    ensures Pow(x, i + j) == Pow(x, i) * Pow(x, j)
    decreases i
  {
    if i > 0 {
      PowAdd(x, i - 1, j);
      PowStep(x, i - 1 + j);
      PowStep(x, i - 1);
      MulAssoc(x, Pow(x, i - 1), Pow(x, j));
    }
  }

  lemma {:induction false} PowMul(x: nat, i: nat, j: nat)
    ensures Pow(x, i * j) == Pow(Pow(x, i), j)
    decreases j
  {
    if j > 0 {
      var y := Pow(x, i);
      PowMul(x, i, j - 1);
      MulStep(i, j);
      PowAdd(x, i * (j - 1), i);
      PowStep(y, j - 1);
      MulCommutes(Pow(y, j - 1), y);
    }
  }

  /** One unfolding of Pow, stated with the exponent as given. */
  lemma PowStep(x: nat, e: nat)
    ensures Pow(x, e + 1) == x * Pow(x, e)
  {
  }

  lemma MulAssoc(a: int, b: int, c: int)
    ensures a * (b * c) == (a * b) * c
  {
  }

  lemma MulCommutes(a: int, b: int)
    ensures a * b == b * a
  {
  }

  lemma MulStep(i: int, j: int)
    ensures i * j == i * (j - 1) + i
  {
  }

  lemma {:induction false} PowOne(e: nat)
    ensures Pow(1, e) == 1
  {
    if e > 0 {
      PowOne(e - 1);
    }
  }

  /** Reducing the base first does not change a power modulo m. */
  lemma {:induction false} PowMod(x: nat, e: nat, m: nat)
    requires m > 0
    ensures Pow(x, e) % m == Pow(x % m, e) % m
  {
    if e > 0 {
      PowMod(x, e - 1, m);
      PowStep(x, e - 1);
      PowStep(x % m, e - 1);
      MulCongruent(x, Pow(x, e - 1), Pow(x % m, e - 1), m);
    }
  }

  /** Multiplying congruent numbers by x, or by x reduced, gives congruent products. */
  lemma MulCongruent(x: int, y: int, z: int, m: int)
    requires m > 0 && y % m == z % m
    ensures (x * y) % m == ((x % m) * z) % m
  {
    MulMod(x, y, m);
    MulMod(x % m, z, m);
    ModIdempotent(x, m);
  }

  lemma ModIdempotent(x: int, m: int)
    requires m > 0
    ensures (x % m) % m == x % m
  {
    ModUnique(x % m, m, 0, x % m);
  }

  // ---------------------------------------------------------------------------
  // Divisors, Euclid's lemma

  /** Every common divisor of x and y divides Gcd(x, y). */
  lemma {:induction false} CommonDivisorDividesGcd(d: nat, x: nat, y: nat)
    requires Divides(d, x) && Divides(d, y)
    ensures Divides(d, Gcd(x, y))
    decreases y
  {
    if y > 0 {
      assert x % y == x + y * -(x / y);
      DividesLinear(d, x, y, -(x / y));
      CommonDivisorDividesGcd(d, y, x % y);
    }
  }

  /** Euclid's lemma for a factor strictly between 0 and p, by descent on that factor. */
  lemma {:induction false} EuclidBelow(p: nat, a: nat, b: int)
    requires IsPrime(p) && 0 < a < p && Divides(p, a * b)
    ensures Divides(p, b)
    decreases a
  {
    if a > 1 {
      var k, r := p / a, p % a;
      assert !Divides(a, p);
      assert 0 < r < a;
      assert r * b == p * b + (a * b) * -k;
      ModUnique(p * b, p, b, 0);
      DividesLinear(p, p * b, a * b, -k);
      EuclidBelow(p, r, b);
    }
  }

  /** Euclid's lemma: a prime dividing a product divides one of its factors. */
  lemma Euclid(p: nat, a: int, b: int)
    requires IsPrime(p) && Divides(p, a * b) && !Divides(p, a)
    ensures Divides(p, b)
  {
    var r := a % p;
    assert r * b == a * b + p * (-(a / p) * b);
    ModUnique(p, p, 1, 0);
    DividesLinear(p, a * b, p, -(a / p) * b);
    EuclidBelow(p, r, b);
  }

  lemma ProductNotDivisible(p: nat, a: int, b: int)
    requires IsPrime(p) && !Divides(p, a) && !Divides(p, b)
    ensures !Divides(p, a * b)
  {
    if Divides(p, a * b) {
      Euclid(p, a, b);
    }
  }

  lemma DistinctPrimesNotDivide(p: nat, q: nat)
    requires IsPrime(p) && IsPrime(q) && p != q
    ensures !Divides(q, p)
  {
    if p < q {
      NotDividesSmall(q, p);
    }
  }

  /** Two distinct primes that both divide y divide it together. */
  lemma CoprimeFactors(p: nat, q: nat, y: int)
    requires IsPrime(p) && IsPrime(q) && p != q && Divides(p, y) && Divides(q, y)
    ensures Divides(p * q, y)
  {
    var k := y / p;
    assert y == p * k;
    DistinctPrimesNotDivide(p, q);
    Euclid(q, p, k);
    var j := k / q;
    assert y == (p * q) * j;
    ModUnique(y, p * q, j, 0);
  }

  // ---------------------------------------------------------------------------
  // Fermat's little theorem, through the product of the residues a*1, ..., a*(p-1)

  function Fact(k: nat): nat
  {
    if k == 0 then 1 else k * Fact(k - 1)
  }

  function Prod(s: seq<int>): int
  {
    if s == [] then 1 else Prod(s[..|s| - 1]) * s[|s| - 1]
  }

  ghost predicate Distinct(s: seq<int>)
  {
    forall i, j :: 0 <= i < j < |s| ==> s[i] != s[j]
  }

  ghost predicate AllIn(s: seq<int>, lo: int, hi: int)
  {
    forall i :: 0 <= i < |s| ==> lo <= s[i] <= hi
  }

  function RemoveAt(s: seq<int>, j: nat): (r: seq<int>)
    requires j < |s|
    ensures |r| == |s| - 1
    ensures forall i :: 0 <= i < |r| ==> r[i] == if i < j then s[i] else s[i + 1]
  {
    s[..j] + s[j + 1..]
  }

  /** The residues a*1 mod p, ..., a*k mod p. */
  function Residues(a: nat, p: nat, k: nat): (r: seq<int>)
    requires p > 0
    ensures |r| == k
    ensures forall i :: 0 <= i < k ==> r[i] == (a * (i + 1)) % p
  {
    if k == 0 then [] else Residues(a, p, k - 1) + [(a * k) % p]
  }

  lemma {:induction false} ProdAppend(u: seq<int>, v: seq<int>)
    ensures Prod(u + v) == Prod(u) * Prod(v)
    decreases |v|
  {
    if v != [] {
      var w := v[..|v| - 1];
      assert (u + v)[..|u + v| - 1] == u + w;
      ProdAppend(u, w);
    } else {
      assert u + v == u;
    }
  }

  lemma ProdSnoc(u: seq<int>, x: int)
    ensures Prod(u + [x]) == Prod(u) * x
  {
    assert (u + [x])[..|u + [x]| - 1] == u;
  }

  lemma ProdRemoveAt(s: seq<int>, j: nat)
    requires j < |s|
    ensures Prod(s) == s[j] * Prod(RemoveAt(s, j))
  {
    var u, x, v := s[..j], s[j], s[j + 1..];
    SplitAt(s, j);
    ProdAppend(u + [x], v);
    ProdSnoc(u, x);
    ProdAppend(u, v);
    ReorderProduct(x, Prod(u), 1, Prod(v));
  }

  lemma SplitAt(s: seq<int>, j: nat)
    requires j < |s|
    ensures s == (s[..j] + [s[j]]) + s[j + 1..]
    ensures RemoveAt(s, j) == s[..j] + s[j + 1..]
  {
  }

  /** Removing the largest value m from a duplicate-free sequence over 1..m leaves one over 1..m-1. */
  lemma RemoveLargest(s: seq<int>, m: int, j: nat)
    requires Distinct(s) && AllIn(s, 1, m) && j < |s| && s[j] == m
    ensures Distinct(RemoveAt(s, j)) && AllIn(RemoveAt(s, j), 1, m - 1)
  {
    var r := RemoveAt(s, j);
    forall i | 0 <= i < |r|
      ensures 1 <= r[i] <= m - 1
    {
      var k := if i < j then i else i + 1;
      assert r[i] == s[k] && k != j;
    }
  }

  /** A duplicate-free sequence over 1..m has at most m elements. */
  lemma {:induction false} Pigeonhole(s: seq<int>, m: nat)
    requires Distinct(s) && AllIn(s, 1, m)
    ensures |s| <= m
    decreases m
  {
    if s != [] {
      assert 1 <= s[0] <= m;
      if m in s {
        var j :| 0 <= j < |s| && s[j] == m;
        RemoveLargest(s, m, j);
        Pigeonhole(RemoveAt(s, j), m - 1);
      } else {
        Pigeonhole(s, m - 1);
      }
    }
  }

  /** A duplicate-free sequence of m values from 1..m is a permutation of them: its product is m!. */
  lemma {:induction false} ProdOfFullRange(s: seq<int>, m: nat)
    requires Distinct(s) && AllIn(s, 1, m) && |s| == m
    ensures Prod(s) == Fact(m)
    decreases m
  {
    if m > 0 {
      if m !in s {
        Pigeonhole(s, m - 1);
        assert false;
      }
      var j :| 0 <= j < |s| && s[j] == m;
      RemoveLargest(s, m, j);
      ProdOfFullRange(RemoveAt(s, j), m - 1);
      ProdRemoveAt(s, j);
    }
  }

  lemma {:induction false} ResiduesProd(a: nat, p: nat, k: nat)
    requires p > 0
    ensures Prod(Residues(a, p, k)) % p == (Pow(a, k) * Fact(k)) % p
    decreases k
  {
    if k > 0 {
      var s' := Residues(a, p, k - 1);
      var c := (a * k) % p;
      ProdSnoc(s', c);
      ResiduesProd(a, p, k - 1);
      ModIdempotent(a * k, p);
      MulModBoth(Prod(s'), Pow(a, k - 1) * Fact(k - 1), c, a * k, p);
      ReorderProduct(a, Pow(a, k - 1), k, Fact(k - 1));
    }
  }

  /** Products of congruent factors are congruent. */
  lemma MulModBoth(y: int, x: int, c: int, w: int, m: int)
    requires m > 0 && y % m == x % m && c % m == w % m
    ensures (y * c) % m == (x * w) % m
  {
    MulMod(y, c, m);
    MulMod(x, w, m);
  }

  lemma ReorderProduct(a: int, b: int, c: int, d: int)
    ensures (b * d) * (a * c) == (a * b) * (c * d)
    ensures (b * a) * d == a * (b * d)
  {
  }

  lemma {:induction false} FactNotDivisible(p: nat, k: nat)
    requires IsPrime(p) && k < p
    ensures !Divides(p, Fact(k))
  {
    if k > 0 {
      FactNotDivisible(p, k - 1);
      NotDividesSmall(p, k);
      ProductNotDivisible(p, k, Fact(k - 1));
    } else {
      NotDividesSmall(p, 1);
    }
  }

  /** For p not dividing a, the residues a*1, ..., a*(p-1) mod p lie in 1..p-1. */
  lemma ResiduesInRange(p: nat, a: nat)
    requires IsPrime(p) && !Divides(p, a)
    ensures AllIn(Residues(a, p, p - 1), 1, p - 1)
  {
    var s := Residues(a, p, p - 1);
    forall i | 0 <= i < |s|
      ensures 1 <= s[i] <= p - 1
    {
      NotDividesSmall(p, i + 1);
      ProductNotDivisible(p, a, i + 1);
    }
  }

  /** For p not dividing a, the residues a*1, ..., a*(p-1) mod p are pairwise distinct. */
  lemma ResiduesDistinct(p: nat, a: nat)
    requires IsPrime(p) && !Divides(p, a)
    ensures Distinct(Residues(a, p, p - 1))
  {
    var s := Residues(a, p, p - 1);
    forall i, j | 0 <= i < j < |s|
      ensures s[i] != s[j]
    {
      NotDividesSmall(p, j - i);
      ProductNotDivisible(p, a, j - i);
      assert a * (j + 1) - a * (i + 1) == a * (j - i);
      if s[i] == s[j] {
        ModEqDivides(a * (j + 1), a * (i + 1), p);
      }
    }
  }

  /** Cancelling a factor f that p does not divide: x*f = f (mod p) gives x = 1 (mod p). */
  lemma CancelFactor(p: nat, x: int, f: int)
    requires IsPrime(p) && !Divides(p, f) && (x * f) % p == f % p
    ensures x % p == 1
  {
    ModEqDivides(x * f, f, p);
    assert x * f - f == f * (x - 1);
    Euclid(p, f, x - 1);
    var k := (x - 1) / p;
    assert x == p * k + 1;
    ModUnique(x, p, k, 1);
  }

  /** Fermat's little theorem: a^(p-1) = 1 (mod p) for a prime p not dividing a. */
  lemma Fermat(p: nat, a: nat)
    requires IsPrime(p) && !Divides(p, a)
    ensures Pow(a, p - 1) % p == 1
  {
    ResiduesInRange(p, a);
    ResiduesDistinct(p, a);
    ProdOfFullRange(Residues(a, p, p - 1), p - 1);
    ResiduesProd(a, p, p - 1);
    FactNotDivisible(p, p - 1);
    CancelFactor(p, Pow(a, p - 1), Fact(p - 1));
  }

  // ---------------------------------------------------------------------------
  // Euler's theorem for n = p*q, and the owner's exponent reduction

  /** A prime p divides p*q. */
  lemma DividesProduct(p: nat, q: nat)
    requires p > 0
    ensures Divides(p, p * q)
  {
    ModUnique(p * q, p, q, 0);
  }

  /** When Gcd(a, p*q) is 1, neither prime divides a. */
  lemma CoprimeToBothPrimes(p: nat, q: nat, a: nat)
    requires IsPrime(p) && IsPrime(q) && Gcd(a, p * q) == 1
    ensures !Divides(p, a) && !Divides(q, a)
  {
    NotDividesSmall(p, 1);
    NotDividesSmall(q, 1);
    DividesProduct(p, q);
    DividesProduct(q, p);
    assert q * p == p * q;
    if Divides(p, a) {
      CommonDivisorDividesGcd(p, a, p * q);
    }
    if Divides(q, a) {
      CommonDivisorDividesGcd(q, a, p * q);
    }
  }

  /** Every power of a number congruent to 1 is congruent to 1. */
  lemma PowOfUnit(b: nat, e: nat, m: nat)
    requires m > 1 && b % m == 1
    ensures Pow(b, e) % m == 1
  {
    PowMod(b, e, m);
    PowOne(e);
  }

  lemma MulAtLeast(x: int, y: int, lo: int)
    requires x >= lo > 0 && y >= 1
    ensures x * y >= lo
  {
  }

  /** a^e = 1 (mod p) whenever e is a multiple of p - 1, from Fermat's little theorem. */
  lemma FermatPower(p: nat, a: nat, k: nat, e: nat)
    requires IsPrime(p) && !Divides(p, a) && e == (p - 1) * k
    ensures Pow(a, e) % p == 1
  {
    Fermat(p, a);
    PowMul(a, p - 1, k);
    PowOfUnit(Pow(a, p - 1), k, p);
  }

  /** Euler's theorem for n = pq: a^((p-1)(q-1)) = 1 (mod n) when neither prime divides a. */
  lemma EulerTwoPrimes(p: nat, q: nat, n: nat, phi: nat, a: nat)
    requires IsPrime(p) && IsPrime(q) && p != q && !Divides(p, a) && !Divides(q, a)
    requires n == p * q && phi == (p - 1) * (q - 1)
    ensures ModExp(a, phi, n) == 1
  {
    var x := Pow(a, phi);
    assert Divides(p, x - 1) by {
      FermatPower(p, a, q - 1, phi);
      ModUnique(1, p, 0, 1);
      ModEqDivides(x, 1, p);
    }
    assert Divides(q, x - 1) by {
      FermatPower(q, a, p - 1, phi);
      ModUnique(1, q, 0, 1);
      ModEqDivides(x, 1, q);
    }
    CoprimeFactors(p, q, x - 1);
    MulAtLeast(p, q, 2);
    ModUnique(x, n, (x - 1) / n, 1);
  }

  /**
   * The trapdoor: for distinct primes p, q and a base a coprime to n = pq, an exponent may be
   * reduced modulo the totient phi = (p-1)(q-1) without changing a^exponent mod n.
   */
  lemma ReducedExponent(p: nat, q: nat, n: nat, phi: nat, a: nat, x: nat)
    requires IsPrime(p) && IsPrime(q) && p != q && Gcd(a, n) == 1
    requires n == p * q && phi == (p - 1) * (q - 1)
    ensures ModExp(a, Reduce(x, phi), n) == ModExp(a, x, n)
  {
    MulAtLeast(p, q, 2);
    MulAtLeast(p - 1, q - 1, 1);
    CoprimeToBothPrimes(p, q, a);
    EulerTwoPrimes(p, q, n, phi, a);
    var k, r := Split(x, phi);
    var y, z := Pow(Pow(a, phi), k), Pow(a, r);
    assert Pow(a, x) == y * z by {
      PowAdd(a, phi * k, r);
      PowMul(a, phi, k);
    }
    assert y % n == 1 by {
      PowOfUnit(Pow(a, phi), k, n);
    }
    MulMod(y, z, n);
    ModUnique(z % n, n, 0, z % n);
  }

  /** Division with remainder of a natural number. */
  lemma Split(x: nat, d: nat) returns (k: nat, r: nat)
    requires d > 0
    ensures x == d * k + r && r == x % d && r == Reduce(x, d)
  {
    k, r := x / d, x % d;
  }

  // ---------------------------------------------------------------------------
  // Repeated squaring

  /** s_0 = s, s_{i+1} = s_i * s_i reduced by n, as big.Int.Exp reduces: the solver's t squarings. */
  function Squarings(s: nat, t: nat, n: nat): nat
  {
    if t == 0 then s else Reduce(Squarings(s, t - 1, n) * Squarings(s, t - 1, n), n)
  }

  /** t squarings of a, reduced by n, give a^(2^t) reduced by n. */
  lemma {:induction false} SquaringsArePower(a: nat, t: nat, n: nat)
    ensures Reduce(Squarings(a, t, n), n) == ModExp(a, Pow(2, t), n)
  {
    if t == 0 {
      assert Pow(a, 1) == a * Pow(a, 0);
    } else {
      SquaringsArePower(a, t - 1, n);
      var s, e := Squarings(a, t - 1, n), Pow(2, t - 1);
      assert Pow(2, t) == e + e;
      PowAdd(a, e, e);
      var x := Pow(a, e);
      if n > 0 {
        MulMod(s, s, n);
        MulMod(x, x, n);
        ModUnique((s * s) % n, n, 0, (s * s) % n);
      }
    }
  }
}
