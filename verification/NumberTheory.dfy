/**
 Divisibility, congruence, greatest common divisors and primes over the unbounded
 integers. The other modules use it for residues modulo a prime, for the period of a
 linear congruential generator and for RSA exponents.
 */
module NumberTheory {

  // ---------------------------------------------------------------- divisibility

  ghost predicate Divides(d: int, n: int) {
    exists k: int :: n == d * k
  }

  lemma DividesIntro(d: int, k: int, n: int)
    requires n == d * k
    ensures Divides(d, n)
  {
  }

  lemma DividesAdd(d: int, a: int, b: int)
    requires Divides(d, a) && Divides(d, b)
    ensures Divides(d, a + b) && Divides(d, a - b)
  {
    var i :| a == d * i;
    var j :| b == d * j;
    assert d * (i + j) == d * i + d * j;
    assert d * (i - j) == d * i - d * j;
    DividesIntro(d, i + j, a + b);
    DividesIntro(d, i - j, a - b);
  }

  lemma DividesMul(d: int, a: int, b: int)
    requires Divides(d, a)
    ensures Divides(d, a * b) && Divides(d, b * a)
  {
    var i :| a == d * i;
    DividesIntro(d, i * b, a * b);
    DividesIntro(d, i * b, b * a);
  }

  lemma DividesTrans(a: int, b: int, c: int)
    requires Divides(a, b) && Divides(b, c)
    ensures Divides(a, c)
  {
    var i :| b == a * i;
    var j :| c == b * j;
    DividesIntro(a, i * j, c);
  }

  lemma DividesUpTo(d: int, n: int)
    requires d > 0 && n > 0 && Divides(d, n)
    ensures d <= n
  {
    var k :| n == d * k;
    if k <= 0 { assert false; }
    MulAtLeast(d, k);
  }

  // ---------------------------------------------------------------- quotient and remainder

  lemma QuotientUnique(d: int, q: int, r: int, q': int, r': int)
    requires 0 <= r < d && 0 <= r' < d && d * q + r == d * q' + r'
    ensures q == q' && r == r'
  {
    assert d * (q - q') == r' - r;
    if q > q' { MulAtLeast(d, q - q'); }
    if q < q' { assert d * (q' - q) == r - r'; MulAtLeast(d, q' - q); }
  }

  lemma MulAtLeast(d: int, k: int)
    requires d > 0 && k >= 1
    ensures d * k >= d
  {
  }

  lemma ModUnique(x: int, d: int, q: int, r: int)
    requires 0 <= r < d && x == d * q + r
    ensures x / d == q && x % d == r
  {
    QuotientUnique(d, q, r, x / d, x % d);
  }

  lemma ModZero(n: int, d: int)
    requires d > 0
    ensures n % d == 0 <==> Divides(d, n)
  {
    if n % d == 0 {
      DividesIntro(d, n / d, n);
    }
    if Divides(d, n) {
      var k :| n == d * k;
      ModUnique(n, d, k, 0);
    }
  }

  // ---------------------------------------------------------------- congruence

  ghost predicate Cong(a: int, b: int, m: int) {
    Divides(m, a - b)
  }

  lemma CongIntro(a: int, b: int, m: int, k: int)
    requires a - b == m * k
    ensures Cong(a, b, m) && Cong(b, a, m)
  {
    DividesIntro(m, k, a - b);
    DividesIntro(m, -k, b - a);
  }

  lemma CongRefl(a: int, m: int)
    ensures Cong(a, a, m)
  {
    CongIntro(a, a, m, 0);
  }

  lemma CongSym(a: int, b: int, m: int)
    requires Cong(a, b, m)
    ensures Cong(b, a, m)
  {
    var k :| a - b == m * k;
    CongIntro(a, b, m, k);
  }

  lemma CongTrans(a: int, b: int, c: int, m: int)
    requires Cong(a, b, m) && Cong(b, c, m)
    ensures Cong(a, c, m)
  {
    DividesAdd(m, a - b, b - c);
  }

  lemma CongAdd(a: int, a': int, b: int, b': int, m: int)
    requires Cong(a, a', m) && Cong(b, b', m)
    ensures Cong(a + b, a' + b', m) && Cong(a - b, a' - b', m)
  {
    DividesAdd(m, a - a', b - b');
    assert (a - a') + (b - b') == (a + b) - (a' + b');
    assert (a - a') - (b - b') == (a - b) - (a' - b');
  }

  lemma CongMul(a: int, a': int, b: int, b': int, m: int)
    requires Cong(a, a', m) && Cong(b, b', m)
    ensures Cong(a * b, a' * b', m)
  {
    var i :| a - a' == m * i;
    var j :| b - b' == m * j;
    calc {
      a * b - a' * b';
      (a - a') * b + a' * (b - b');
      (m * i) * b + a' * (m * j);
      m * (i * b + a' * j);
    }
    CongIntro(a * b, a' * b', m, i * b + a' * j);
  }

  lemma CongMod(a: int, m: int)
    requires m > 0
    ensures Cong(a % m, a, m) && Cong(a, a % m, m)
  {
    CongIntro(a, a % m, m, a / m);
  }

  /** Two integers are congruent exactly when their remainders are the same. */
  lemma CongIffMod(a: int, b: int, m: int)
    requires m > 0
    ensures Cong(a, b, m) <==> a % m == b % m
  {
    if a % m == b % m {
      CongMod(a, m);
      CongMod(b, m);
      CongTrans(a, a % m, b, m);
    }
    if Cong(a, b, m) {
      var k :| a - b == m * k;
      ModUnique(a, m, b / m + k, b % m);
    }
  }

  // ---------------------------------------------------------------- powers

  function Pow(b: int, e: nat): int {
    if e == 0 then 1 else b * Pow(b, e - 1)
  }

  lemma {:induction false} PowAdd(b: int, i: nat, j: nat)
    ensures Pow(b, i + j) == Pow(b, i) * Pow(b, j)
    decreases i
  {
    if i > 0 {
      PowAdd(b, i - 1, j);
      calc {
        Pow(b, i + j);
        b * Pow(b, i + j - 1);
        b * (Pow(b, i - 1) * Pow(b, j));
        (b * Pow(b, i - 1)) * Pow(b, j);
      }
    }
  }

  lemma {:induction false} PowPow(b: int, i: nat, j: nat)
    ensures 0 <= i * j
    ensures Pow(Pow(b, i), j) == Pow(b, i * j)
    decreases j
  {
    if j > 0 {
      PowPow(b, i, j - 1);
      assert i * j == i + i * (j - 1);
      PowAdd(b, i, i * (j - 1));
    }
  }

  lemma {:induction false} CongPow(a: int, b: int, e: nat, m: int)
    requires Cong(a, b, m)
    ensures Cong(Pow(a, e), Pow(b, e), m)
  {
    if e == 0 {
      CongRefl(1, m);
    } else {
      CongPow(a, b, e - 1, m);
      CongMul(a, b, Pow(a, e - 1), Pow(b, e - 1), m);
    }
  }

  lemma {:induction false} PowPositive(b: int, e: nat)
    requires b > 0
    ensures Pow(b, e) > 0
  {
    if e > 0 { PowPositive(b, e - 1); }
  }

  // ---------------------------------------------------------------- greatest common divisors

  /** Euclid's algorithm; Gcd(0, 0) is 0. */
  function Gcd(a: nat, b: nat): nat
    decreases b
  {
    if b == 0 then a else Gcd(b, a % b)
  }

  lemma {:induction false} GcdDivides(a: nat, b: nat)
    ensures Divides(Gcd(a, b), a) && Divides(Gcd(a, b), b)
    decreases b
  {
    if b == 0 {
      DividesIntro(a, 1, a);
      DividesIntro(a, 0, 0);
    } else {
      GcdDivides(b, a % b);
      DividesMul(Gcd(a, b), b, a / b);
      DividesAdd(Gcd(a, b), b * (a / b), a % b);
    }
  }

  /** Bezout's identity. */
  lemma {:induction false} Bezout(a: nat, b: nat) returns (x: int, y: int)
    ensures a * x + b * y == Gcd(a, b)
    decreases b
  {
    if b == 0 {
      x, y := 1, 0;
    } else {
      var x', y' := Bezout(b, a % b);
      x, y := y', x' - (a / b) * y';
      BezoutStep(a, b, a / b, a % b, x', y');
    }
  }

  lemma BezoutStep(a: int, b: int, q: int, r: int, x: int, y: int)
    requires a == b * q + r
    ensures a * y + b * (x - q * y) == b * x + r * y
  {
    MulAssoc(b, q, y);
    assert b * (x - q * y) == b * x - b * (q * y);
  }

  lemma GcdGreatest(a: nat, b: nat, d: int)
    requires Divides(d, a) && Divides(d, b)
    ensures Divides(d, Gcd(a, b))
  {
    var x, y := Bezout(a, b);
    DividesMul(d, a, x);
    DividesMul(d, b, y);
    DividesAdd(d, a * x, b * y);
  }

  lemma GcdPositive(a: nat, b: nat)
    requires a > 0 || b > 0
    ensures Gcd(a, b) > 0
  {
    GcdDivides(a, b);
    if Gcd(a, b) == 0 {
      var i: int :| a == 0 * i;
      var j: int :| b == 0 * j;
    }
  }

  /** A divisor of a product that shares no factor with one side divides the other. */
  lemma CoprimeDivides(m: nat, a: nat, b: int)
    requires Gcd(m, a) == 1 && Divides(m, a * b)
    ensures Divides(m, b)
  {
    var x, y := Bezout(m, a);
    DividesIntro(m, x * b, m * (x * b));
    DividesMul(m, a * b, y);
    DividesAdd(m, m * (x * b), (a * b) * y);
    Factor(m, x, a, y, b);
  }

  lemma Factor(m: int, x: int, a: int, y: int, b: int)
    ensures m * (x * b) + (a * b) * y == (m * x + a * y) * b
  {
  }

  lemma MulAssoc(a: int, b: int, c: int)
    ensures (a * b) * c == b * (a * c) == a * (b * c)
  {
  }

  // ---------------------------------------------------------------- primes

  ghost predicate IsPrime(p: int) {
    p >= 2 && forall d: int :: 1 < d < p ==> !Divides(d, p)
  }

  lemma PrimeCoprime(p: int, a: nat)
    requires IsPrime(p) && !Divides(p, a)
    ensures Gcd(p, a) == 1
  {
    GcdDivides(p, a);
    GcdPositive(p, a);
    DividesUpTo(Gcd(p, a), p);
  }

  /** Euclid's lemma. */
  lemma PrimeDividesProduct(p: int, a: int, b: int)
    requires IsPrime(p) && Divides(p, a * b)
    ensures Divides(p, a) || Divides(p, b)
  {
    if !Divides(p, a) {
      if a >= 0 {
        PrimeCoprime(p, a);
        CoprimeDivides(p, a, b);
      } else {
        if Divides(p, -a) { DividesMul(p, -a, -1); }
        PrimeCoprime(p, -a);
        DividesMul(p, a * b, -1);
        assert (a * b) * -1 == (-a) * b;
        CoprimeDivides(p, -a, b);
      }
    }
  }

  lemma DistinctPrimesCoprime(p: int, q: int)
    requires IsPrime(p) && IsPrime(q) && p != q
    ensures Gcd(p, q) == 1
  {
    if Divides(p, q) {
      DividesUpTo(p, q);
    }
    PrimeCoprime(p, q);
  }

  lemma MulFour(a: int, b: int, c: int, d: int)
    ensures (a * b) * (c * d) == (a * c) * (b * d)
    ensures (a * b) * (c * d) == (a * d) * (b * c)
  {
    MulAssoc(a, b, c * d);
    MulAssoc(b, c, d);
    MulAssoc(b, d, c);
    MulAssoc(a, c, b * d);
    MulAssoc(a, d, b * c);
    MulAssoc(c, b, d);
    MulAssoc(d, b, c);
  }

  lemma Distribute(a: int, b: int, c: int, d: int)
    ensures (a + b) * (c + d) == a * c + a * d + b * c + b * d
    ensures (a - b) * (c + d) == a * c + a * d - b * c - b * d
  {
  }

  /** Two coprime divisors of n divide it together. */
  lemma CoprimeProductDivides(a: nat, b: nat, n: int)
    requires Gcd(a, b) == 1 && Divides(a, n) && Divides(b, n)
    ensures Divides(a * b, n)
  {
    var k :| n == b * k;
    CoprimeDivides(a, b, k);
    var j :| k == a * j;
    MulAssoc(a, b, j);
    DividesIntro(a * b, j, n);
  }

  lemma RemainderCoprime(p: int, a: int)
    requires IsPrime(p) && !Divides(p, a)
    ensures Gcd(p, a % p) == 1
  {
    CongMod(a, p);
    if Divides(p, a % p) {
      DividesAdd(p, a - a % p, a % p);
    }
    PrimeCoprime(p, a % p);
  }

  /** Every a that p does not divide has an inverse modulo the prime p. */
  lemma PrimeInverse(p: int, a: int) returns (b: int)
    requires IsPrime(p) && !Divides(p, a)
    ensures 0 <= b < p && Cong(a * b, 1, p)
  {
    RemainderCoprime(p, a);
    var x, y := Bezout(p, a % p);
    b := y % p;
    InverseFromBezout(p, a, a % p, x, y, b);
  }

  lemma InverseFromBezout(p: int, a: int, r: int, x: int, y: int, b: int)
    requires p > 0 && r == a % p && b == y % p && p * x + r * y == 1
    ensures Cong(a * b, 1, p)
  {
    CongMod(a, p);
    CongMod(y, p);
    CongMul(a, r, b, y, p);
    CongIntro(r * y, 1, p, -x);
    CongTrans(a * b, r * y, 1, p);
  }
}
