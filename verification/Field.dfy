/**
 The field operations the curve code calls: residues modulo an odd prime, with exact
 addition, subtraction and multiplication. The lemmas carry congruences through one
 operation at a time.
 */
module Field {
  import opened NumberTheory

  predicate Residue(p: int, x: int) {
    0 <= x < p
  }

  function Add(p: int, x: int, y: int): (r: int)
    requires p > 0
    ensures Residue(p, r)
  {
    (x + y) % p
  }

  function Sub(p: int, x: int, y: int): (r: int)
    requires p > 0
    ensures Residue(p, r)
  {
    (x - y) % p
  }

  function Mul(p: int, x: int, y: int): (r: int)
    requires p > 0
    ensures Residue(p, r)
  {
    (x * y) % p
  }

  lemma AddCong(p: int, x: int, x': int, y: int, y': int)
    requires p > 0 && Cong(x, x', p) && Cong(y, y', p)
    ensures Cong(Add(p, x, y), x' + y', p)
  {
    CongAdd(x, x', y, y', p);
    CongMod(x + y, p);
    CongTrans(Add(p, x, y), x + y, x' + y', p);
  }

  lemma SubCong(p: int, x: int, x': int, y: int, y': int)
    requires p > 0 && Cong(x, x', p) && Cong(y, y', p)
    ensures Cong(Sub(p, x, y), x' - y', p)
  {
    CongAdd(x, x', y, y', p);
    CongMod(x - y, p);
    CongTrans(Sub(p, x, y), x - y, x' - y', p);
  }

  lemma MulCong(p: int, x: int, x': int, y: int, y': int)
    requires p > 0 && Cong(x, x', p) && Cong(y, y', p)
    ensures Cong(Mul(p, x, y), x' * y', p)
  {
    CongMul(x, x', y, y', p);
    CongMod(x * y, p);
    CongTrans(Mul(p, x, y), x * y, x' * y', p);
  }

  /** Residues are congruent only when they are equal. */
  lemma ResidueUnique(p: int, x: int, y: int)
    requires Residue(p, x) && Residue(p, y) && Cong(x, y, p)
    ensures x == y
  {
    CongIffMod(x, y, p);
    ModUnique(x, p, 0, x);
    ModUnique(y, p, 0, y);
  }

  lemma ZeroIff(p: int, x: int)
    requires Residue(p, x)
    ensures x == 0 <==> Cong(x, 0, p)
  {
    if x == 0 { CongRefl(0, p); }
    if Cong(x, 0, p) { ResidueUnique(p, x, 0); }
  }

  /** A product is zero modulo a prime exactly when a factor is. */
  lemma ProductZero(p: int, x: int, y: int)
    requires IsPrime(p)
    ensures Cong(x * y, 0, p) <==> Cong(x, 0, p) || Cong(y, 0, p)
  {
    if Cong(x * y, 0, p) { PrimeDividesProduct(p, x, y); }
    if Cong(x, 0, p) { DividesMul(p, x, y); }
    if Cong(y, 0, p) { DividesMul(p, y, x); }
  }

  /** A factor that is not zero can be cancelled. */
  lemma Cancel(p: int, x: int, y: int, z: int)
    requires IsPrime(p) && !Cong(x, 0, p) && Cong(x * y, x * z, p)
    ensures Cong(y, z, p)
  {
    assert x * y - x * z == x * (y - z);
    PrimeDividesProduct(p, x, y - z);
  }

  lemma CancelRight(p: int, x: int, y: int, z: int)
    requires IsPrime(p) && !Cong(x, 0, p) && Cong(y * x, z * x, p)
    ensures Cong(y, z, p)
  {
    Cancel(p, x, y, z);
  }

  lemma CongZeroIff(p: int, x: int, y: int)
    requires Cong(x, y, p)
    ensures Cong(x, 0, p) <==> Cong(y, 0, p)
  {
    if Cong(x, 0, p) { CongSym(x, y, p); CongTrans(y, x, 0, p); }
    if Cong(y, 0, p) { CongTrans(x, y, 0, p); }
  }

  lemma CongBoth(p: int, x: int, y: int, z: int)
    requires Cong(x, z, p) && Cong(y, z, p)
    ensures Cong(x, y, p)
  {
    CongSym(y, z, p);
    CongTrans(x, z, y, p);
  }

  /** A non-zero slope or denominator can be divided by. */
  lemma Quotient(p: int, x: int, y: int) returns (q: int)
    requires IsPrime(p) && !Cong(x, 0, p)
    ensures Residue(p, q) && Cong(q * x, y, p)
  {
    var i := PrimeInverse(p, x);
    q := (y * i) % p;
    CongMod(y * i, p);
    CongRefl(x, p);
    CongMul(q, y * i, x, x, p);
    CongRefl(y, p);
    CongMul(y, y, i * x, 1, p);
    MulAssoc(y, i, x);
    CongTrans(q * x, y * (i * x), y, p);
  }
}
