/**
 Fermat's little theorem by the binomial expansion, and the statement about exponents
 that RSA decryption rests on.
 */
module Fermat {
  import opened NumberTheory

  /** Binomial coefficients by Pascal's rule. */
  function Choose(n: nat, k: nat): nat {
    if k == 0 then 1 else if n == 0 then 0 else Choose(n - 1, k - 1) + Choose(n - 1, k)
  }

  lemma {:induction false} ChooseBeyond(n: nat, k: nat)
    requires k > n
    ensures Choose(n, k) == 0
  {
    if n > 0 {
      ChooseBeyond(n - 1, k - 1);
      ChooseBeyond(n - 1, k);
    }
  }

  lemma {:induction false} Absorption(n: nat, k: nat)
    requires n > 0 && k > 0
    ensures k * Choose(n, k) == n * Choose(n - 1, k - 1)
  {
    if n == 1 {
      if k > 1 { ChooseBeyond(1, k); ChooseBeyond(0, k - 1); }
    } else {
      Absorption(n - 1, k);
      var x, y := Choose(n - 1, k - 1), Choose(n - 1, k);
      assert k * (x + y) == k * x + k * y;
      if k > 1 {
        Absorption(n - 1, k - 1);
        AbsorptionStep(n, k, x, Choose(n - 2, k - 2), Choose(n - 2, k - 1));
      }
    }
  }

  lemma AbsorptionStep(n: int, k: int, x: int, u: int, v: int)
    requires x == u + v && (k - 1) * x == (n - 1) * u
    ensures k * x + (n - 1) * v == n * x
  {
    assert (n - 1) * x == (n - 1) * u + (n - 1) * v;
  }

  /** The first m + 1 terms of the expansion of (1 + a)^n. */
  function RowSum(n: nat, m: nat, a: int): int {
    (if m == 0 then 0 else RowSum(n, m - 1, a)) + Choose(n, m) * Pow(a, m)
  }

  lemma {:induction false} RowSumPascal(n: nat, m: nat, a: int)
    ensures RowSum(n + 1, m, a) == RowSum(n, m, a) + (if m == 0 then 0 else a * RowSum(n, m - 1, a))
  {
    if m > 0 {
      RowSumPascal(n, m - 1, a);
      var s := if m == 1 then 0 else RowSum(n, m - 2, a);
      PascalStep(a, s, Choose(n, m - 1), Choose(n, m), Pow(a, m - 1));
    }
  }

  lemma PascalStep(a: int, s: int, c: int, c': int, w: int)
    ensures a * s + (c + c') * (a * w) == c' * (a * w) + a * (s + c * w)
  {
    MulAssoc(c, a, w);
    assert (c + c') * (a * w) == c * (a * w) + c' * (a * w);
    assert a * (s + c * w) == a * s + a * (c * w);
  }

  lemma RowSumStops(n: nat, a: int)
    ensures RowSum(n, n + 1, a) == RowSum(n, n, a)
  {
    ChooseBeyond(n, n + 1);
  }

  lemma {:induction false} BinomialTheorem(n: nat, a: int)
    ensures RowSum(n, n, a) == Pow(1 + a, n)
  {
    if n > 0 {
      BinomialTheorem(n - 1, a);
      RowSumPascal(n - 1, n, a);
      RowSumStops(n - 1, a);
      OneMore(a, RowSum(n - 1, n - 1, a));
    }
  }

  lemma OneMore(a: int, s: int)
    ensures (1 + a) * s == s + a * s
  {
  }

  lemma PrimeDividesChoose(p: int, k: nat)
    requires IsPrime(p) && 0 < k < p
    ensures Divides(p, Choose(p, k))
  {
    Absorption(p, k);
    DividesIntro(p, Choose(p - 1, k - 1), k * Choose(p, k));
    PrimeDividesProduct(p, k, Choose(p, k));
    if Divides(p, k) { DividesUpTo(p, k); }
  }

  lemma {:induction false} InnerTermsVanish(p: int, m: nat, a: int)
    requires IsPrime(p) && m < p
    ensures Cong(RowSum(p, m, a), 1, p)
  {
    if m == 0 {
      CongRefl(1, p);
    } else {
      InnerTermsVanish(p, m - 1, a);
      PrimeDividesChoose(p, m);
      DividesMul(p, Choose(p, m), Pow(a, m));
      DividesAdd(p, RowSum(p, m - 1, a) - 1, Choose(p, m) * Pow(a, m));
      assert RowSum(p, m, a) - 1 == (RowSum(p, m - 1, a) - 1) + Choose(p, m) * Pow(a, m);
    }
  }

  lemma {:induction false} ChooseSelf(n: nat)
    ensures Choose(n, n) == 1
  {
    if n > 0 {
      ChooseSelf(n - 1);
      ChooseBeyond(n - 1, n);
    }
  }

  /** Fermat's little theorem, for every a >= 0. */
  lemma {:induction false} FermatLittle(p: int, a: nat)
    requires IsPrime(p)
    ensures Cong(Pow(a, p), a, p)
  {
    if a == 0 {
      assert Pow(0, p) == 0;
      CongRefl(0, p);
    } else {
      FermatLittle(p, a - 1);
      BinomialTheorem(p, a - 1);
      InnerTermsVanish(p, p - 1, a - 1);
      ChooseSelf(p);
      CongAdd(RowSum(p, p - 1, a - 1), 1, Pow(a - 1, p), a - 1, p);
      assert RowSum(p, p, a - 1) == RowSum(p, p - 1, a - 1) + Pow(a - 1, p);
    }
  }

  /** Raising to a power that is 1 modulo p - 1 changes nothing modulo p. */
  lemma {:induction false} FermatExponent(p: int, a: nat, k: nat)
    requires IsPrime(p)
    ensures 0 <= k * (p - 1)
    ensures Cong(Pow(a, 1 + k * (p - 1)), a, p)
  {
    if k == 0 {
      assert Pow(a, 1) == a * Pow(a, 0) == a;
      CongRefl(a, p);
    } else {
      FermatExponent(p, a, k - 1);
      var i := 1 + (k - 1) * (p - 1);
      assert 1 + k * (p - 1) == i + (p - 1);
      PowAdd(a, i, p - 1);
      var w := Pow(a, p - 1);
      assert Pow(a, 1 + k * (p - 1)) == Pow(a, i) * w;
      CongRefl(w, p);
      CongMul(Pow(a, i), a, w, w, p);
      FermatLittle(p, a);
      CongTrans(Pow(a, i) * w, a * w, a, p);
    }
  }
}
