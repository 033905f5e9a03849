/**
 The number guesser's linear congruential generator: how its parameters are drawn, and
 when the sequence it produces runs through every residue before it repeats.
 */
module Mentalist {
  import opened NumberTheory

  const LOWER_BOUND := 1_000_000_000
  const UPPER_BOUND := 1_000_000_000_000_000
  const PRIMES: seq<int> := [2, 3, 5, 7, 11, 13]
  const PRIMORIAL := 30030

  // ---------------------------------------------------------------- the generator

  function Lcg(a: int, c: int, m: int, x: int): int
    requires m > 0
  {
    (x * a + c) % m
  }

  /** The n-th number after the seed. */
  function Orbit(a: int, c: int, m: int, seed: int, n: nat): int
    requires m > 0
  {
    if n == 0 then seed else Lcg(a, c, m, Orbit(a, c, m, seed, n - 1))
  }

  /** From every seed, the seed comes back exactly after the multiples of m. */
  ghost predicate FullPeriod(a: int, c: int, m: int)
    requires m > 0
  {
    forall seed, n: nat :: 0 <= seed < m ==> (Orbit(a, c, m, seed, n) == seed <==> Divides(m, n))
  }

  // ---------------------------------------------------------------- drawing the parameters

  function Product(ps: seq<int>): int {
    if ps == [] then 1 else ps[0] * Product(ps[1..])
  }

  predicate Listed(ps: seq<int>) {
    forall i :: 0 <= i < |ps| ==> ps[i] in PRIMES
  }

  /** What a run of the set-up can produce: the modulus is a product of listed primes that
      first reaches the target with its last factor, the multiplier is one more than a
      multiple of four times the primorial, and the increment is a drawn number divided by
      its greatest common divisor with the modulus. */
  ghost predicate Generated(picks: seq<int>, target: int, k: int, drawn: int, m: int, a: int, c: int, seed: int) {
    && LOWER_BOUND <= target < LOWER_BOUND + (UPPER_BOUND - LOWER_BOUND) / 13
    && Listed(picks) && picks != [] && m == Product(picks)
    && Product(picks[..|picks| - 1]) < target <= m
    && 1 <= k <= (m - 1) / (4 * PRIMORIAL) - 1 && a == 4 * PRIMORIAL * k + 1
    && 1 <= drawn < m && drawn == Gcd(drawn, m) * c
    && 0 <= seed < m
  }

  lemma {:induction false} ProductPositive(ps: seq<int>)
    requires Listed(ps)
    ensures Product(ps) >= 1
  {
    if ps != [] {
      ProductPositive(ps[1..]);
      MulAtLeast(Product(ps[1..]), ps[0]);
    }
  }

  lemma {:induction false} ProductSplit(ps: seq<int>, qs: seq<int>)
    ensures Product(ps + qs) == Product(ps) * Product(qs)
  {
    if ps == [] {
      assert ps + qs == qs;
    } else {
      assert (ps + qs)[1..] == ps[1..] + qs;
      ProductSplit(ps[1..], qs);
      MulAssoc(ps[0], Product(ps[1..]), Product(qs));
      MulAssoc(Product(ps[1..]), ps[0], Product(qs));
    }
  }

  lemma ProductAppend(ps: seq<int>, p: int)
    ensures Product(ps + [p]) == Product(ps) * p
  {
    ProductSplit(ps, [p]);
    assert Product([p]) == p * Product([p][1..]) == p;
  }

  /** The set-up, with a random draw from [0, n) as a choice of any number there. */
  method Generate()
    returns (m: int, a: int, c: int, seed: int, ghost picks: seq<int>, ghost target: int, ghost k: int,
        ghost drawn: int)
    ensures Generated(picks, target, k, drawn, m, a, c, seed)
    ensures 1 < a < m && 1 <= c < m
    ensures LOWER_BOUND <= m < UPPER_BOUND + 12 * LOWER_BOUND
  {
    m, picks, target := DrawModulus();
    a, k := DrawMultiplier(m);
    c, drawn := DrawIncrement(m);
    seed :| 0 <= seed < m;
  }

  method DrawModulus() returns (m: int, ghost picks: seq<int>, ghost target: int)
    ensures LOWER_BOUND <= target < LOWER_BOUND + (UPPER_BOUND - LOWER_BOUND) / 13
    ensures Listed(picks) && picks != [] && m == Product(picks)
    ensures Product(picks[..|picks| - 1]) < target <= m <= 13 * (target - 1)
  {
    var r := (UPPER_BOUND - LOWER_BOUND) / PRIMES[|PRIMES| - 1];
    var t :| 0 <= t < r;
    t := t + LOWER_BOUND;
    target := t;

    m := 1;
    picks := [];
    while m < t
      invariant Listed(picks) && m == Product(picks) && m >= 1
      invariant picks == [] ==> m < t
      invariant picks != [] ==> Product(picks[..|picks| - 1]) < t && m <= 13 * (t - 1)
      decreases t - m
    {
      var i: nat :| i < |PRIMES|;
      var p := PRIMES[i];
      assert p in PRIMES && 2 <= p <= 13;
      ProductAppend(picks, p);
      assert (picks + [p])[..|picks + [p]| - 1] == picks;
      picks := picks + [p];
      Growth(m, p, t);
      m := m * p;
    }
  }

  lemma Growth(m: int, p: int, t: int)
    requires 1 <= m < t && 2 <= p <= 13
    ensures m < m * p <= 13 * (t - 1)
  {
    assert m * p - m == m * (p - 1);
    assert 13 * m - m * p == m * (13 - p);
  }

  method DrawMultiplier(m: int) returns (a: int, ghost k: int)
    requires m >= LOWER_BOUND
    ensures 1 <= k <= (m - 1) / (4 * PRIMORIAL) - 1 && a == 4 * PRIMORIAL * k + 1
    ensures 1 < a < m
  {
    a := 4;
    for i := 0 to |PRIMES|
      invariant a == 4 * Product(PRIMES[..i])
    {
      assert PRIMES[..i + 1] == PRIMES[..i] + [PRIMES[i]];
      ProductAppend(PRIMES[..i], PRIMES[i]);
      a := a * PRIMES[i];
    }
    PrimorialValue();
    var l := (m - 1) / a - 1;
    var f :| 0 <= f < l;
    f := f + 1;
    k := f;
    a := a * f + 1;
  }

  method DrawIncrement(m: int) returns (c: int, ghost drawn: int)
    requires m > 1
    ensures 1 <= drawn < m && drawn == Gcd(drawn, m) * c
    ensures 1 <= c < m
  {
    var p :| 0 <= p < m - 1;
    c := p + 1;
    drawn := c;
    QuotientByGcd(c, m);
    c := c / Gcd(c, m);
  }

  lemma PrimorialValue()
    ensures Product(PRIMES[..|PRIMES|]) == PRIMORIAL
  {
    assert PRIMES[..|PRIMES|] == [2, 3, 5, 7, 11, 13];
    assert Product([13]) == 13;
    assert Product([11, 13]) == 11 * Product([11, 13][1..]) == 143;
    assert Product([7, 11, 13]) == 7 * Product([7, 11, 13][1..]) == 1001;
    assert Product([5, 7, 11, 13]) == 5 * Product([5, 7, 11, 13][1..]) == 5005;
    assert Product([3, 5, 7, 11, 13]) == 3 * Product([3, 5, 7, 11, 13][1..]) == 15015;
    assert Product([2, 3, 5, 7, 11, 13]) == 2 * Product([2, 3, 5, 7, 11, 13][1..]);
  }

  lemma QuotientByGcd(c: nat, m: nat)
    requires 0 < c
    ensures Gcd(c, m) > 0 && 1 <= c / Gcd(c, m) <= c && c == Gcd(c, m) * (c / Gcd(c, m))
  {
    GcdDivides(c, m);
    GcdPositive(c, m);
    var g := Gcd(c, m);
    ModZero(c, g);
    var q := c / g;
    assert c == g * q;
    QuotientBounds(g, q);
  }

  lemma QuotientBounds(g: int, q: int)
    requires g > 0 && g * q > 0
    ensures 1 <= q <= g * q
  {
    MulAtLeast(q, g);
  }

  // ---------------------------------------------------------------- the closed form

  /** 1 + a + ... + a^(n-1). */
  function Geometric(a: int, n: nat): int {
    if n == 0 then 0 else 1 + a * Geometric(a, n - 1)
  }

  lemma {:induction false} ClosedForm(a: int, c: int, m: int, seed: int, n: nat)
    requires m > 0
    ensures Cong(Orbit(a, c, m, seed, n), seed + ((a - 1) * seed + c) * Geometric(a, n), m)
  {
    var d := (a - 1) * seed + c;
    if n == 0 {
      CongRefl(seed, m);
    } else {
      var x, g := Orbit(a, c, m, seed, n - 1), Geometric(a, n - 1);
      ClosedForm(a, c, m, seed, n - 1);
      CongRefl(a, m);
      CongMul(x, seed + d * g, a, a, m);
      CongRefl(c, m);
      CongAdd(x * a, (seed + d * g) * a, c, c, m);
      CongMod(x * a + c, m);
      CongTrans(Orbit(a, c, m, seed, n), x * a + c, (seed + d * g) * a + c, m);
      Regroup(a, c, seed, d, g);
    }
  }

  lemma Regroup(a: int, c: int, seed: int, d: int, g: int)
    requires d == (a - 1) * seed + c
    ensures (seed + d * g) * a + c == seed + d * (1 + a * g)
  {
  }

  lemma OrbitReturns(a: int, c: int, m: int, seed: int, n: nat)
    requires 0 <= seed < m
    ensures Orbit(a, c, m, seed, n) == seed <==> Divides(m, ((a - 1) * seed + c) * Geometric(a, n))
  {
    var x, y := Orbit(a, c, m, seed, n), ((a - 1) * seed + c) * Geometric(a, n);
    ClosedForm(a, c, m, seed, n);
    assert 0 <= x < m;
    if x == seed {
      CongSym(x, seed + y, m);
      assert (seed + y) - x == y;
    }
    if Divides(m, y) {
      assert (seed + y) - seed == y;
      CongTrans(x, seed + y, seed, m);
      CongIffMod(x, seed, m);
      ModUnique(x, m, 0, x);
      ModUnique(seed, m, 0, seed);
    }
  }

  // ---------------------------------------------------------------- geometric sums

  lemma {:induction false} GeometricSplit(a: int, i: nat, j: nat)
    ensures Geometric(a, i + j) == Geometric(a, i) + Pow(a, i) * Geometric(a, j)
    decreases i
  {
    if i > 0 {
      GeometricSplit(a, i - 1, j);
      assert Geometric(a, i + j) == 1 + a * Geometric(a, (i - 1) + j);
      SplitStep(a, Geometric(a, i - 1), Pow(a, i - 1), Geometric(a, j));
    }
  }

  lemma SplitStep(a: int, g: int, w: int, h: int)
    ensures 1 + a * (g + w * h) == (1 + a * g) + (a * w) * h
  {
    MulAssoc(a, w, h);
  }

  lemma {:induction false} GeometricBlocks(a: int, p: nat, k: nat)
    ensures 0 <= p * k
    ensures Geometric(a, p * k) == Geometric(a, p) * Geometric(Pow(a, p), k)
    decreases k
  {
    NatProduct(p, k);
    if k > 0 {
      GeometricBlocks(a, p, k - 1);
      GeometricSplit(a, p, p * (k - 1));
      BlockStep(Geometric(a, p), Pow(a, p), Geometric(Pow(a, p), k - 1));
    }
  }

  lemma NatProduct(p: nat, k: nat)
    ensures 0 <= p * k
    ensures k > 0 ==> p * k == p + p * (k - 1)
  {
  }

  lemma BlockStep(s: int, w: int, t: int)
    ensures s + w * (s * t) == s * (1 + w * t)
  {
    MulAssoc(w, s, t);
    MulAssoc(s, w, t);
  }

  lemma {:induction false} PowFromGeometric(a: int, n: nat)
    ensures Pow(a, n) == 1 + (a - 1) * Geometric(a, n)
  {
    if n > 0 {
      PowFromGeometric(a, n - 1);
      var g := Geometric(a, n - 1);
      assert a * (1 + (a - 1) * g) == 1 + (a - 1) * (1 + a * g);
    }
  }

  /** Writing a = 1 + e, the sum is n + e * n(n-1)/2 up to a multiple of e * e. */
  lemma {:induction false} GeometricExpansion(e: int, n: nat) returns (tri: int, rest: int)
    ensures 2 * tri == n * (n - 1)
    ensures Geometric(1 + e, n) == n + e * tri + e * e * rest
  {
    if n == 0 {
      tri, rest := 0, 0;
    } else {
      var tri', rest' := GeometricExpansion(e, n - 1);
      tri, rest := tri' + (n - 1), tri' + (1 + e) * rest';
      ExpandStep(e, n - 1, tri', rest');
      TriangleStep(n, tri');
    }
  }

  lemma TriangleStep(n: int, t: int)
    requires 2 * t == (n - 1) * (n - 2)
    ensures 2 * (t + (n - 1)) == n * (n - 1)
  {
  }

  lemma ExpandStep(e: int, n: int, tri: int, rest: int)
    ensures 1 + (1 + e) * (n + e * tri + e * e * rest) == (n + 1) + e * (tri + n) + e * e * (tri + (1 + e) * rest)
  {
    var w := e * e;
    assert (1 + e) * (n + e * tri + w * rest) == (n + e * tri + w * rest) + (e * n + e * (e * tri) + e * (w * rest));
    assert e * (e * tri) == w * tri;
    assert w * ((1 + e) * rest) == w * rest + e * (w * rest);
  }

  /** A block of p terms is p times a number that is 1 modulo every listed prime. */
  lemma PrimeBlock(p: int, k: int) returns (z: int)
    requires p in PRIMES
    ensures Geometric(1 + 4 * PRIMORIAL * k, p) == p * (1 + PRIMORIAL * z)
  {
    var tri, rest := GeometricExpansion(4 * PRIMORIAL * k, p);
    var co := PRIMORIAL / p;
    assert PRIMORIAL == p * co;
    z := BlockQuotient(p, PRIMORIAL, co, k, tri, rest);
  }

  lemma BlockQuotient(p: int, n: int, co: int, k: int, tri: int, rest: int) returns (z: int)
    requires n == p * co && 2 * tri == p * (p - 1)
    ensures p + (4 * n * k) * tri + (4 * n * k) * (4 * n * k) * rest == p * (1 + n * z)
  {
    var u, y := k * (p - 1), 16 * (k * k * rest);
    z := 2 * u + co * y;
    assert (4 * n * k) * tri == p * (n * (2 * u)) by {
      assert (4 * n * k) * tri == (2 * n * k) * (2 * tri);
      assert (2 * n * k) * (p * (p - 1)) == p * (n * (2 * (k * (p - 1))));
    }
    assert (4 * n * k) * (4 * n * k) * rest == n * (n * y);
    assert n * (n * y) == p * (n * (co * y)) by {
      MulAssoc(p, co, n * y);
      MulAssoc(co, n, y);
    }
    Spread(p, n, 2 * u, co * y);
  }

  lemma Spread(p: int, n: int, x: int, y: int)
    ensures p * (1 + n * (x + y)) == p + p * (n * x) + p * (n * y)
  {
    assert n * (x + y) == n * x + n * y;
  }

  /** A factor that is 1 modulo every listed prime can be cancelled. */
  lemma {:induction false} UnitCancel(ps: seq<int>, z: int, y: int)
    requires Listed(ps) && Divides(Product(ps), (1 + PRIMORIAL * z) * y)
    ensures Divides(Product(ps), y)
  {
    if ps == [] {
      DividesIntro(1, y, y);
    } else {
      var p, m := ps[0], Product(ps[1..]);
      var j :| (1 + PRIMORIAL * z) * y == (p * m) * j;
      MulAssoc(p, m, j);
      var y' := UnitCancelPrime(p, z, y, m * j);
      DividesIntro(m, j, (1 + PRIMORIAL * z) * y');
      UnitCancel(ps[1..], z, y');
      ScaleDivides(p, m, y');
    }
  }

  lemma UnitCancelPrime(p: int, z: int, y: int, x: int) returns (y': int)
    requires p in PRIMES && (1 + PRIMORIAL * z) * y == p * x
    ensures y == p * y' && (1 + PRIMORIAL * z) * y' == x
  {
    var co := PRIMORIAL / p;
    assert PRIMORIAL == p * co;
    y' := x - co * (z * y);
    var u := 1 + PRIMORIAL * z;
    assert u * y == y + p * (co * (z * y));
    assert p * y' == p * x - p * (co * (z * y));
    MulAssoc(u, p, y');
    CancelLeft(p, u * y', x);
  }

  lemma CancelLeft(p: int, a: int, b: int)
    requires p != 0 && p * a == p * b
    ensures a == b
  {
    assert p * (a - b) == 0;
  }

  /** For a product m of listed primes, m divides the sum of n terms exactly when it divides n. */
  lemma {:induction false} GeometricDivisible(ps: seq<int>, k: int, n: nat)
    requires Listed(ps)
    ensures Divides(Product(ps), Geometric(1 + 4 * PRIMORIAL * k, n)) <==> Divides(Product(ps), n)
    decreases |ps|
  {
    var g := Geometric(1 + 4 * PRIMORIAL * k, n);
    if ps == [] {
      DividesIntro(1, n, n);
      DividesIntro(1, g, g);
    } else {
      var p, m := ps[0], Product(ps[1..]);
      if Divides(p * m, g) || Divides(p * m, n) {
        FirstPrimeDivides(p, m, k, n);
        var j, k', z := PeelPrime(p, k, n);
        GeometricDivisible(ps[1..], k', j);
        var s := Geometric(1 + 4 * PRIMORIAL * k', j);
        ScaleDivides(p, m, (1 + PRIMORIAL * z) * s);
        ScaleDivides(p, m, j);
        if Divides(m, (1 + PRIMORIAL * z) * s) {
          UnitCancel(ps[1..], z, s);
        }
        if Divides(m, s) {
          DividesMul(m, s, 1 + PRIMORIAL * z);
        }
      }
    }
  }

  /** A sum of p * j terms is p times a unit times a sum of j terms of the same family. */
  lemma PeelPrime(p: int, k: int, n: nat) returns (j: nat, k': int, z: int)
    requires p in PRIMES && Divides(p, n)
    ensures n == p * j
    ensures Geometric(1 + 4 * PRIMORIAL * k, n) == p * ((1 + PRIMORIAL * z) * Geometric(1 + 4 * PRIMORIAL * k', j))
  {
    var a := 1 + 4 * PRIMORIAL * k;
    ModZero(n, p);
    j := n / p;
    z := PrimeBlock(p, k);
    GeometricBlocks(a, p, j);
    var g := Geometric(a, p);
    k' := k * g;
    assert Pow(a, p) == 1 + 4 * PRIMORIAL * k' by {
      PowFromGeometric(a, p);
      MulAssoc(4 * PRIMORIAL, k, g);
    }
    MulAssoc(p, 1 + PRIMORIAL * z, Geometric(Pow(a, p), j));
  }

  lemma ScaleDivides(p: int, m: int, x: int)
    requires p > 0
    ensures Divides(p * m, p * x) <==> Divides(m, x)
  {
    if Divides(p * m, p * x) {
      var i :| p * x == (p * m) * i;
      MulAssoc(p, m, i);
      CancelLeft(p, x, m * i);
    }
    if Divides(m, x) {
      var i :| x == m * i;
      MulAssoc(p, m, i);
      DividesIntro(p * m, i, p * x);
    }
  }

  lemma FirstPrimeDivides(p: int, m: int, k: int, n: nat)
    requires p in PRIMES
    requires Divides(p * m, Geometric(1 + 4 * PRIMORIAL * k, n)) || Divides(p * m, n)
    ensures Divides(p, n)
  {
    DividesIntro(p, m, p * m);
    if Divides(p * m, n) {
      DividesTrans(p, p * m, n);
    } else {
      var e := 4 * PRIMORIAL * k;
      DividesTrans(p, p * m, Geometric(1 + e, n));
      var tri, rest := GeometricExpansion(e, n);
      ListedDividesMultiple(p, 4 * k);
      MulAssoc(e, e, rest);
      DividesMul(p, e, tri);
      DividesMul(p, e, e * rest);
      DividesAdd(p, e * tri, e * (e * rest));
      DividesAdd(p, n + (e * tri + e * (e * rest)), e * tri + e * (e * rest));
    }
  }

  lemma ListedDividesMultiple(p: int, x: int)
    requires p in PRIMES
    ensures Divides(p, PRIMORIAL * x)
  {
    assert PRIMORIAL == p * (PRIMORIAL / p);
    MulAssoc(p, PRIMORIAL / p, x);
    DividesIntro(p, (PRIMORIAL / p) * x, PRIMORIAL * x);
  }

  // ---------------------------------------------------------------- the primes themselves

  lemma ListedIsPrime(p: int)
    requires p in PRIMES
    ensures IsPrime(p)
  {
    forall d: int | 1 < d < p
      ensures !Divides(d, p)
    {
      ModZero(p, d);
      if d == 2 {} else if d == 3 {} else if d == 4 {} else if d == 5 {} else if d == 6 {} else if d == 7 {}
      else if d == 8 {} else if d == 9 {} else if d == 10 {} else if d == 11 {} else {}
    }
  }

  lemma {:induction false} CoprimeCancel(ps: seq<int>, d: int, y: int)
    requires Listed(ps) && Divides(Product(ps), d * y)
    requires forall i :: 0 <= i < |ps| ==> !Divides(ps[i], d)
    ensures Divides(Product(ps), y)
  {
    if ps == [] {
      DividesIntro(1, y, y);
    } else {
      var p, m := ps[0], Product(ps[1..]);
      ListedIsPrime(p);
      DividesIntro(p, m, p * m);
      DividesTrans(p, p * m, d * y);
      PrimeDividesProduct(p, d, y);
      var y' :| y == p * y';
      MulAssoc(d, p, y');
      ScaleDivides(p, m, d * y');
      CoprimeCancel(ps[1..], d, y');
      ScaleDivides(p, m, y');
    }
  }

  /** A divisor above 1 of a product of listed primes shares one of them. */
  lemma {:induction false} CommonPrime(ps: seq<int>, d: nat) returns (i: nat)
    requires Listed(ps) && d > 1 && Divides(d, Product(ps))
    ensures i < |ps| && Divides(ps[i], d)
  {
    i := 0;
    if ps == [] {
      DividesUpTo(d, 1);
      assert false;
    } else {
      ListedIsPrime(ps[0]);
      if !Divides(ps[0], d) {
        PrimeCoprime(ps[0], d);
        GcdSymmetric(ps[0], d);
        CoprimeDivides(d, ps[0], Product(ps[1..]));
        var j := CommonPrime(ps[1..], d);
        i := j + 1;
      }
    }
  }

  lemma GcdSymmetric(a: nat, b: nat)
    requires a > 0 && b > 0
    ensures Gcd(a, b) == Gcd(b, a)
  {
    GcdDivides(a, b);
    GcdDivides(b, a);
    GcdPositive(a, b);
    GcdPositive(b, a);
    GcdGreatest(a, b, Gcd(b, a));
    GcdGreatest(b, a, Gcd(a, b));
    DividesUpTo(Gcd(a, b), Gcd(b, a));
    DividesUpTo(Gcd(b, a), Gcd(a, b));
  }

  // ---------------------------------------------------------------- the period

  lemma ReturnsOnlyAtMultiples(ps: seq<int>, k: int, c: nat, seed: int, n: nat)
    requires Listed(ps) && Product(ps) >= 1 && Gcd(c, Product(ps)) == 1 && 0 <= seed < Product(ps)
    ensures Orbit(1 + 4 * PRIMORIAL * k, c, Product(ps), seed, n) == seed <==> Divides(Product(ps), n)
  {
    var a, m := 1 + 4 * PRIMORIAL * k, Product(ps);
    var d, g := (a - 1) * seed + c, Geometric(a, n);
    OrbitReturns(a, c, m, seed, n);
    GeometricDivisible(ps, k, n);
    if Divides(m, d * g) {
      forall i | 0 <= i < |ps|
        ensures !Divides(ps[i], d)
      {
        if Divides(ps[i], d) {
          ListedDividesIncrement(ps[i], k, c, seed);
          ElementDivides(ps, i);
          GcdGreatest(c, m, ps[i]);
          DividesUpTo(ps[i], 1);
        }
      }
      CoprimeCancel(ps, d, g);
    }
    if Divides(m, g) {
      DividesMul(m, g, d);
    }
  }

  /** The multiplier is 1 modulo a listed prime p, so p divides the increment exactly when
      it divides the first difference of the sequence. */
  lemma ListedDividesIncrement(p: int, k: int, c: int, seed: int)
    requires p in PRIMES
    ensures Divides(p, 4 * PRIMORIAL * k * seed + c) <==> Divides(p, c)
  {
    var e := 4 * PRIMORIAL * k * seed;
    ListedDividesMultiple(p, 4 * (k * seed));
    MulAssoc(4 * PRIMORIAL, k, seed);
    if Divides(p, c) { DividesAdd(p, e, c); }
    if Divides(p, e + c) { DividesAdd(p, e + c, e); }
  }

  lemma ElementDivides(ps: seq<int>, i: nat)
    requires i < |ps|
    ensures Product(ps) == ps[i] * Product(ps[..i] + ps[i + 1..])
    ensures Divides(ps[i], Product(ps))
  {
    assert ps == ps[..i] + ([ps[i]] + ps[i + 1..]);
    ProductSplit(ps[..i], [ps[i]] + ps[i + 1..]);
    ProductSplit(ps[..i], ps[i + 1..]);
    assert ([ps[i]] + ps[i + 1..])[1..] == ps[i + 1..];
    MulAssoc(Product(ps[..i]), ps[i], Product(ps[i + 1..]));
    DividesIntro(ps[i], Product(ps[..i] + ps[i + 1..]), Product(ps));
  }

  /** When a listed prime of the modulus divides the increment, every seed is back after
      m divided by that prime steps. */
  lemma RepeatsEarly(ps: seq<int>, k: int, c: int, i: nat, seed: int) returns (n: nat)
    requires Listed(ps) && i < |ps| && Divides(ps[i], c) && 0 <= seed < Product(ps)
    ensures n * ps[i] == Product(ps) && 0 < n < Product(ps)
    ensures Orbit(1 + 4 * PRIMORIAL * k, c, Product(ps), seed, n) == seed
  {
    var rest := ps[..i] + ps[i + 1..];
    var p, a, m := ps[i], 1 + 4 * PRIMORIAL * k, Product(ps);
    ElementDivides(ps, i);
    assert forall j :: 0 <= j < |rest| ==> rest[j] in ps;
    ProductPositive(rest);
    n := Product(rest);
    assert p in PRIMES && p >= 2;
    MulAtLeast(n, p - 1);
    assert p * n == n + n * (p - 1);
    DividesIntro(n, 1, n);
    GeometricDivisible(rest, k, n);
    ListedDividesIncrement(p, k, c, seed);
    var d, g := (a - 1) * seed + c, Geometric(a, n);
    DividesProduct(p, d, n, g);
    OrbitReturns(a, c, m, seed, n);
  }

  lemma DividesProduct(p: int, d: int, n: int, g: int)
    requires Divides(p, d) && Divides(n, g)
    ensures Divides(p * n, d * g)
  {
    var u :| d == p * u;
    var v :| g == n * v;
    MulAssoc(u, n, v);
    MulAssoc(p, n, u * v);
    MulAssoc(p, u, n * v);
    DividesIntro(p * n, u * v, d * g);
  }

  /** The Hull-Dobell condition for this family: whatever was drawn, the generator has full
      period exactly when the increment and the modulus have no common factor. */
  lemma FullPeriodIff(picks: seq<int>, target: int, k: int, drawn: int, m: int, a: int, c: int, seed: int)
    requires Generated(picks, target, k, drawn, m, a, c, seed)
    ensures c >= 0
    ensures FullPeriod(a, c, m) <==> Gcd(c, m) == 1
  {
    QuotientByGcd(drawn, m);
    if Gcd(c, m) == 1 {
      forall x, n: nat | 0 <= x < m
        ensures Orbit(a, c, m, x, n) == x <==> Divides(m, n)
      {
        ReturnsOnlyAtMultiples(picks, k, c, x, n);
      }
    } else {
      GcdDivides(c, m);
      GcdPositive(c, m);
      var i := CommonPrime(picks, Gcd(c, m));
      DividesTrans(picks[i], Gcd(c, m), c);
      var n := RepeatsEarly(picks, k, c, i, seed);
      if Divides(m, n) {
        DividesUpTo(m, n);
      }
    }
  }

  /** Dividing the drawn increment by its greatest common divisor with the modulus does not
      make the two coprime: one possible set-up draws 4 against 13^8 * 2 and keeps 2. */
  lemma FullPeriodNotGuaranteed()
    ensures exists picks, target, k, drawn, m, a, c, seed ::
      Generated(picks, target, k, drawn, m, a, c, seed) && !FullPeriod(a, c, m)
  {
    var picks := [13, 13, 13, 13, 13, 13, 13, 13, 2];
    var m := 1_631_461_442;
    assert Product([13, 13, 13, 13, 13, 13, 13, 13]) == 815_730_721 by {
      assert Product([13, 13, 13, 13]) == 28_561;
      assert [13, 13, 13, 13, 13, 13, 13, 13] == [13, 13, 13, 13] + [13, 13, 13, 13];
      ProductSplit([13, 13, 13, 13], [13, 13, 13, 13]);
    }
    assert picks[..8] == [13, 13, 13, 13, 13, 13, 13, 13];
    assert picks == picks[..8] + [2];
    ProductAppend(picks[..8], 2);
    assert Gcd(4, m) == Gcd(m, 4) == Gcd(4, 2) == Gcd(2, 0) == 2;
    assert Gcd(2, m) == Gcd(m, 2) == Gcd(2, 0) == 2;
    assert Generated(picks, LOWER_BOUND, 1, 4, m, 4 * PRIMORIAL + 1, 2, 0);
    FullPeriodIff(picks, LOWER_BOUND, 1, 4, m, 4 * PRIMORIAL + 1, 2, 0);
  }
}
