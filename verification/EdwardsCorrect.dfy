/**
 The Edwards addition against the unified affine law, and the reason the code needs no
 special cases: on a curve whose a is a square and whose d is not, no denominator vanishes.
 */
module EdwardsCorrect {
  import opened NumberTheory
  import opened Field
  import opened Edwards

  const NEUTRAL := Affine(0, 1)

  ghost predicate Complete(c: Curve) {
    && (exists r: int :: Cong(r * r, c.a, c.p))
    && !Cong(c.a, 0, c.p)
    && forall s: int :: !Cong(s * s, c.d, c.p)
  }

  predicate AffineOk(c: Curve, A: Affine) {
    Residue(c.p, A.x) && Residue(c.p, A.y)
  }

  // ---------------------------------------------------------------- triples and affine points

  /** A point of the curve with a non-zero denominator stands for one affine point, which is
      on the affine curve. */
  lemma EveryPointStands(c: Curve, P: Extended) returns (A: Affine)
    requires CurveOk(c) && OnCurve(c, P) && !Cong(P.Z, 0, c.p)
    ensures AffineOk(c, A) && Stands(c, P, A) && AffineOnCurve(c, A)
    ensures forall A' :: AffineOk(c, A') && Stands(c, P, A') ==> A' == A
  {
    var p, z := c.p, P.Z;
    var x := Quotient(p, z, P.X);
    var y := Quotient(p, z, P.Y);
    A := Affine(x, y);
    CongSym(x * z, P.X, p);
    CongSym(y * z, P.Y, p);
    CongMul(P.X, x * z, P.Y, y * z, p);
    MulFour(x, z, y, z);
    MulAssoc(z, x * y, z);
    CongSym(P.X * P.Y, z * P.T, p);
    CongTrans(z * P.T, P.X * P.Y, z * ((x * y) * z), p);
    Cancel(p, z, P.T, (x * y) * z);
    DividedEquation(c, P, A);
    forall A' | AffineOk(c, A') && Stands(c, P, A')
      ensures A' == A
    {
      SamePoint(p, P.X, z, A'.x, x);
      SamePoint(p, P.Y, z, A'.y, y);
    }
  }

  lemma SamePoint(p: int, v: int, z: int, x: int, y: int)
    requires IsPrime(p) && !Cong(z, 0, p) && Residue(p, x) && Residue(p, y) && Cong(v, x * z, p) && Cong(v, y * z, p)
    ensures x == y
  {
    CongSym(v, x * z, p);
    CongTrans(x * z, v, y * z, p);
    CancelRight(p, z, x, y);
    ResidueUnique(p, x, y);
  }

  lemma DividedEquation(c: Curve, P: Extended, A: Affine)
    requires CurveOk(c) && OnCurve(c, P) && Stands(c, P, A)
    ensures AffineOnCurve(c, A)
  {
    var p, x, y, z := c.p, A.x, A.y, P.Z;
    var z2, t := z * z, x * y;
    CongMul(P.X, x * z, P.X, x * z, p);
    CongMul(P.Y, y * z, P.Y, y * z, p);
    CongMul(P.T, t * z, P.T, t * z, p);
    Square4(x, z, y, z);
    Square4(t, z, x, y);
    CongRefl(c.a, p);
    CongRefl(c.d, p);
    CongRefl(z2, p);
    CongMul(c.a, c.a, P.X * P.X, (x * x) * z2, p);
    CongMul(c.d, c.d, P.T * P.T, (t * t) * z2, p);
    CongAdd(c.a * (P.X * P.X), c.a * ((x * x) * z2), P.Y * P.Y, (y * y) * z2, p);
    CongAdd(z2, z2, c.d * (P.T * P.T), c.d * ((t * t) * z2), p);
    var l, r := c.a * (x * x) + y * y, 1 + c.d * (t * t);
    FactorSquare(c.a, x * x, y * y, z2);
    FactorSquare(c.d, t * t, 1, z2);
    CongSym(c.a * (P.X * P.X) + P.Y * P.Y, l * z2, p);
    CongTrans(l * z2, c.a * (P.X * P.X) + P.Y * P.Y, z2 + c.d * (P.T * P.T), p);
    CongTrans(l * z2, z2 + c.d * (P.T * P.T), r * z2, p);
    ProductZero(p, z, z);
    CancelRight(p, z2, l, r);
    MulFour(x, y, x, y);
  }

  lemma FactorSquare(a: int, x: int, y: int, z: int)
    ensures a * (x * z) + y * z == (a * x + y) * z
  {
    MulAssoc(a, x, z);
  }

  /** The comparison of two points is equality of what they stand for. */
  lemma PointEqIff(c: Curve, P: Extended, Q: Extended, A: Affine, B: Affine)
    requires CurveOk(c) && AffineOk(c, A) && AffineOk(c, B) && Stands(c, P, A) && Stands(c, Q, B)
    ensures PointEq(c, P, Q) <==> A == B
  {
    CrossMultiplied(c.p, P.X, P.Z, Q.X, Q.Z, A.x, B.x);
    CrossMultiplied(c.p, P.Y, P.Z, Q.Y, Q.Z, A.y, B.y);
  }

  lemma CrossMultiplied(p: int, u: int, z: int, v: int, w: int, x: int, y: int)
    requires IsPrime(p) && Residue(p, x) && Residue(p, y) && !Cong(z, 0, p) && !Cong(w, 0, p)
    requires Cong(u, x * z, p) && Cong(v, y * w, p)
    ensures Mul(p, u, w) == Mul(p, v, z) <==> x == y
  {
    CongRefl(w, p);
    CongRefl(z, p);
    MulCong(p, u, x * z, w, w);
    MulCong(p, v, y * w, z, z);
    MulAssoc(x, z, w);
    MulAssoc(y, w, z);
    ProductZero(p, z, w);
    if Mul(p, u, w) == Mul(p, v, z) {
      SamePoint(p, Mul(p, u, w), z * w, x, y);
    }
    if x == y {
      SameValue(p, Mul(p, u, w), Mul(p, v, z), x * (z * w));
    }
  }

  lemma SameValue(p: int, a: int, b: int, v: int)
    requires Residue(p, a) && Residue(p, b) && Cong(a, v, p) && Cong(b, v, p)
    ensures a == b
  {
    CongBoth(p, a, b, v);
    ResidueUnique(p, a, b);
  }

  // ---------------------------------------------------------------- the affine law

  lemma ScaledParts(c: Curve, P: Extended, Q: Extended, A: Affine, B: Affine)
    requires CurveOk(c) && Stands(c, P, A) && Stands(c, Q, B)
    ensures var s, w, D := SumParts(c, P, Q), P.Z * Q.Z, Delta(c, A, B);
      && Cong(s.e, (A.x * B.y + A.y * B.x) * w, c.p) && Cong(s.h, (A.y * B.y - c.a * (A.x * B.x)) * w, c.p)
      && Cong(s.f, (1 - D) * w, c.p) && Cong(s.g, (1 + D) * w, c.p)
  {
    hide Cong;
    ScaledNumerators(c, P, Q, A, B);
    ScaledDenominators(c, P, Q, A, B);
  }

  lemma ScaledNumerators(c: Curve, P: Extended, Q: Extended, A: Affine, B: Affine)
    requires CurveOk(c) && Stands(c, P, A) && Stands(c, Q, B)
    ensures var s, w := SumParts(c, P, Q), P.Z * Q.Z;
      Cong(s.e, (A.x * B.y + A.y * B.x) * w, c.p) && Cong(s.h, (A.y * B.y - c.a * (A.x * B.x)) * w, c.p)
  {
    hide Cong;
    var p, w := c.p, P.Z * Q.Z;
    ScaledProduct(p, P.X, Q.Y, A.x, B.y, P.Z, Q.Z);
    ScaledProduct(p, P.Y, Q.X, A.y, B.x, P.Z, Q.Z);
    CongAdd(P.X * Q.Y, (A.x * B.y) * w, P.Y * Q.X, (A.y * B.x) * w, p);
    SumFactor(A.x * B.y, A.y * B.x, w);
    ScaledProduct(p, P.Y, Q.Y, A.y, B.y, P.Z, Q.Z);
    ScaledProduct(p, P.X, Q.X, A.x, B.x, P.Z, Q.Z);
    ScaledCombination(p, c.a, P.X * Q.X, A.x * B.x, P.Y * Q.Y, A.y * B.y, w);
  }

  lemma ScaledDenominators(c: Curve, P: Extended, Q: Extended, A: Affine, B: Affine)
    requires CurveOk(c) && Stands(c, P, A) && Stands(c, Q, B)
    ensures var s, w, D := SumParts(c, P, Q), P.Z * Q.Z, Delta(c, A, B);
      Cong(s.f, (1 - D) * w, c.p) && Cong(s.g, (1 + D) * w, c.p)
  {
    hide Cong;
    var p, w := c.p, P.Z * Q.Z;
    var u := (A.x * B.x) * (A.y * B.y);
    assert Cong(P.T * Q.T, u * w, p) by {
      ScaledProduct(p, P.T, Q.T, A.x * A.y, B.x * B.y, P.Z, Q.Z);
      MulFour(A.x, A.y, B.x, B.y);
    }
    CongRefl(w, p);
    ScaledCombination(p, c.d, P.T * Q.T, u, w, 1, w);
  }

  lemma ScaledCombination(p: int, k: int, x: int, v: int, y: int, u: int, w: int)
    requires Cong(x, v * w, p) && Cong(y, u * w, p)
    ensures Cong(y - k * x, (u - k * v) * w, p) && Cong(y + k * x, (u + k * v) * w, p)
  {
    CongRefl(k, p);
    CongMul(k, k, x, v * w, p);
    CongAdd(y, u * w, k * x, k * (v * w), p);
    ScaledFactor(k, v, u, w);
  }

  lemma SumFactor(x: int, y: int, w: int)
    ensures x * w + y * w == (x + y) * w
  {
  }

  lemma ScaledFactor(a: int, v: int, u: int, w: int)
    ensures u * w - a * (v * w) == (u - a * v) * w
    ensures u * w + a * (v * w) == (u + a * v) * w
  {
    MulAssoc(a, v, w);
  }

  lemma ScaledProduct(p: int, u: int, v: int, x: int, y: int, z: int, z': int)
    requires Cong(u, x * z, p) && Cong(v, y * z', p)
    ensures Cong(u * v, (x * y) * (z * z'), p)
  {
    CongMul(u, x * z, v, y * z', p);
    MulFour(x, z, y, z');
  }

  /** Where neither denominator vanishes, the formula computes the unified law. */
  lemma AddAffine(c: Curve, P: Extended, Q: Extended, A: Affine, B: Affine, C: Affine)
    requires CurveOk(c) && Stands(c, P, A) && Stands(c, Q, B) && IsSum(c, A, B, C)
    requires !Cong(1 + Delta(c, A, B), 0, c.p) && !Cong(1 - Delta(c, A, B), 0, c.p)
    ensures Stands(c, PointAdd(c, P, Q), C)
  {
    hide Delta, SumParts, PointAdd;
    var p, w, D, s, S := c.p, P.Z * Q.Z, Delta(c, A, B), SumParts(c, P, Q), PointAdd(c, P, Q);
    AddParts(c, P, Q);
    ScaledParts(c, P, Q, A, B);
    var f, g := (1 - D) * w, (1 + D) * w;
    // the other two parts over the affine sum
    OverAffine(p, s.e, C.x, 1 + D, A.x * B.y + A.y * B.x, w);
    OverAffine(p, s.h, C.y, 1 - D, A.y * B.y - c.a * (A.x * B.x), w);
    ProductZero(p, P.Z, Q.Z);
    ProductZero(p, 1 - D, w);
    ProductZero(p, 1 + D, w);
    PartsOverZ(p, s, S, C, f, g);
  }

  lemma PartsOverZ(p: int, s: Parts, S: Extended, C: Affine, f: int, g: int)
    requires IsPrime(p) && !Cong(f, 0, p) && !Cong(g, 0, p)
    requires Cong(S.X, s.e * s.f, p) && Cong(S.Y, s.g * s.h, p) && Cong(S.Z, s.f * s.g, p) && Cong(S.T, s.h * s.e, p)
    requires Cong(s.f, f, p) && Cong(s.g, g, p) && Cong(s.e, C.x * g, p) && Cong(s.h, C.y * f, p)
    ensures !Cong(S.Z, 0, p) && Cong(S.X, C.x * S.Z, p) && Cong(S.Y, C.y * S.Z, p) && Cong(S.T, (C.x * C.y) * S.Z, p)
  {
    DenominatorPart(p, S.Z, s.f, s.g, f, g);
    CoordinateOverZ(p, S.X, s.e, s.f, C.x, g, f, S.Z);
    assert s.g * s.h == s.h * s.g && f * g == g * f;
    CoordinateOverZ(p, S.Y, s.h, s.g, C.y, f, g, S.Z);
    BothOverZ(p, S.T, s.h, s.e, C.y, C.x, f, g, S.Z);
  }

  lemma DenominatorPart(p: int, z: int, a: int, b: int, f: int, g: int)
    requires IsPrime(p) && !Cong(f, 0, p) && !Cong(g, 0, p) && Cong(z, a * b, p) && Cong(a, f, p) && Cong(b, g, p)
    ensures Cong(z, f * g, p) && !Cong(z, 0, p)
  {
    CongMul(a, f, b, g, p);
    CongTrans(z, a * b, f * g, p);
    ProductZero(p, f, g);
    CongZeroIff(p, z, f * g);
  }

  lemma CoordinateOverZ(p: int, v: int, a: int, b: int, x: int, g: int, f: int, z: int)
    requires Cong(v, a * b, p) && Cong(a, x * g, p) && Cong(b, f, p) && Cong(z, f * g, p)
    ensures Cong(v, x * z, p)
  {
    CongMul(a, x * g, b, f, p);
    MulAssoc(x, g, f);
    CongTrans(v, a * b, x * (f * g), p);
    OverZ(p, v, x, z, f * g);
  }

  lemma BothOverZ(p: int, v: int, h: int, e: int, y: int, x: int, f: int, g: int, z: int)
    requires Cong(v, h * e, p) && Cong(h, y * f, p) && Cong(e, x * g, p) && Cong(z, f * g, p)
    ensures Cong(v, (x * y) * z, p)
  {
    CongMul(h, y * f, e, x * g, p);
    MulFour(y, f, x, g);
    CongTrans(v, h * e, (y * f) * (x * g), p);
    OverZ(p, v, x * y, z, f * g);
  }

  lemma OverAffine(p: int, e: int, x: int, g: int, n: int, w: int)
    requires Cong(e, n * w, p) && Cong(x * g, n, p)
    ensures Cong(e, x * (g * w), p)
  {
    CongRefl(w, p);
    CongMul(x * g, n, w, w, p);
    MulAssoc(x, g, w);
    CongBoth(p, e, x * (g * w), n * w);
  }

  lemma OverZ(p: int, v: int, x: int, z: int, t: int)
    requires Cong(v, x * t, p) && Cong(z, t, p)
    ensures Cong(v, x * z, p)
  {
    CongRefl(x, p);
    CongMul(x, x, z, t, p);
    CongBoth(p, v, x * z, x * t);
  }

  // ---------------------------------------------------------------- completeness

  /** On a complete curve the denominators of the law never vanish. */
  lemma DenominatorsNonzero(c: Curve, A: Affine, B: Affine)
    requires CurveOk(c) && Complete(c) && AffineOnCurve(c, A) && AffineOnCurve(c, B)
    ensures !Cong(1 + Delta(c, A, B), 0, c.p) && !Cong(1 - Delta(c, A, B), 0, c.p)
  {
    var p, D := c.p, Delta(c, A, B);
    var r: int :| Cong(r * r, c.a, p);
    if Cong((1 + D) * (1 - D), 0, p) {
      SumAndProduct(D);
      CongSym(1, D * D, p);
      NonzeroParts(c, A, B, r);
      if Cong(r * B.x + B.y, 0, p) {
        OtherSign(p, r * B.x, B.y);
        var q := SquareRootOfD(c, A, B, r, -1);
      } else {
        var q := SquareRootOfD(c, A, B, r, 1);
      }
    }
    ProductZero(p, 1 + D, 1 - D);
  }

  lemma SumAndProduct(d: int)
    ensures (1 + d) * (1 - d) == 1 - d * d
  {
  }

  lemma NonzeroParts(c: Curve, A: Affine, B: Affine, r: int)
    requires CurveOk(c) && Cong(Delta(c, A, B) * Delta(c, A, B), 1, c.p)
    ensures !Cong(A.x * A.y, 0, c.p) && !Cong(B.y, 0, c.p)
  {
    var p, D := c.p, Delta(c, A, B);
    CongZeroIff(p, D * D, 1);
    if Divides(p, 1) { DividesUpTo(p, 1); }
    ProductZero(p, D, D);
    ProductZero(p, c.d, (A.x * B.x) * (A.y * B.y));
    ProductZero(p, A.x * B.x, A.y * B.y);
    ProductZero(p, A.x, B.x);
    ProductZero(p, A.y, B.y);
    ProductZero(p, A.x, A.y);
  }

  lemma OtherSign(p: int, u: int, y: int)
    requires IsPrime(p) && p > 2 && Cong(u + y, 0, p) && !Cong(y, 0, p)
    ensures !Cong(u + -1 * y, 0, p)
  {
    if Cong(u + -1 * y, 0, p) {
      DividesAdd(p, u + y, u + -1 * y);
      PrimeDividesProduct(p, 2, y);
      if Divides(p, 2) { DividesUpTo(p, 2); }
    }
  }

  /** If the denominators did vanish, d would be a square. */
  lemma SquareRootOfD(c: Curve, A: Affine, B: Affine, r: int, s: int) returns (q: int)
    requires CurveOk(c) && AffineOnCurve(c, A) && AffineOnCurve(c, B)
    requires Cong(r * r, c.a, c.p) && Cong(Delta(c, A, B) * Delta(c, A, B), 1, c.p)
    requires (s == 1 || s == -1) && !Cong(A.x * A.y, 0, c.p) && !Cong(r * B.x + s * B.y, 0, c.p)
    ensures Cong(q * q, c.d, c.p)
  {
    var k, m, l := A.x * A.y, r * B.x + s * B.y, r * A.x + s * (Delta(c, A, B) * A.y);
    SquareRelation(c, A, B, r, s);
    ProductZero(c.p, k, m);
    q := DivideSquares(c.p, c.d, l, k * m);
  }

  lemma DivideSquares(p: int, d: int, l: int, n: int) returns (q: int)
    requires IsPrime(p) && !Cong(n, 0, p) && Cong(l * l, d * (n * n), p)
    ensures Cong(q * q, d, p)
  {
    var i := PrimeInverse(p, n);
    q := l * i;
    CongRefl(i * i, p);
    CongRefl(d, p);
    CongMul(l * l, d * (n * n), i * i, i * i, p);
    CongMul(n * i, 1, n * i, 1, p);
    CongMul(d, d, (n * i) * (n * i), 1, p);
    MulFour(l, i, l, i);
    MulFour(n, i, n, i);
    MulAssoc(d, n * n, i * i);
    CongTrans(q * q, d * ((n * i) * (n * i)), d, p);
  }

  lemma SquareRelation(c: Curve, A: Affine, B: Affine, r: int, s: int)
    requires CurveOk(c) && AffineOnCurve(c, A) && AffineOnCurve(c, B)
    requires Cong(r * r, c.a, c.p) && Cong(Delta(c, A, B) * Delta(c, A, B), 1, c.p) && (s == 1 || s == -1)
    ensures var k, m, l := A.x * A.y, r * B.x + s * B.y, r * A.x + s * (Delta(c, A, B) * A.y);
      Cong(l * l, c.d * ((k * m) * (k * m)), c.p)
  {
    var k, m, l, D := A.x * A.y, r * B.x + s * B.y, r * A.x + s * (Delta(c, A, B) * A.y), Delta(c, A, B);
    var v, cross := c.d * (k * k), 2 * (s * (r * (B.x * B.y)));
    var u, w, n := (r * r) * (A.x * A.x), A.y * A.y, (r * r) * (B.x * B.x) + B.y * B.y;
    assert l * l == u + (D * D) * w + v * cross by {
      SquareWithSign(r, A.x, D, A.y, s);
      CrossTerm(c.d, k, r, s, A.x, A.y, B.x, B.y);
    }
    assert m * m == n + cross by { SquareWithSign(r, B.x, 1, B.y, s); }
    assert Cong(u + w, v * n, c.p) by { NormRelation(c, A, B, r * r); }
    assert c.d * ((k * m) * (k * m)) == v * (m * m) by {
      MulFour(k, m, k, m);
      MulAssoc(c.d, k * k, m * m);
    }
    NormsCombine(c.p, u, w, D * D, v, n, cross);
  }

  lemma NormsCombine(p: int, u: int, w: int, dd: int, v: int, n: int, x: int)
    requires Cong(dd, 1, p) && Cong(u + w, v * n, p)
    ensures Cong(u + dd * w + v * x, v * (n + x), p)
  {
    CongRefl(w, p);
    CongRefl(u, p);
    CongRefl(v * x, p);
    CongMul(dd, 1, w, w, p);
    CongAdd(u, u, dd * w, w, p);
    CongTrans(u + dd * w, u + w, v * n, p);
    CongAdd(u + dd * w, v * n, v * x, v * x, p);
    assert v * (n + x) == v * n + v * x;
  }

  lemma SquareWithSign(r: int, x: int, D: int, y: int, s: int)
    requires s == 1 || s == -1
    ensures (r * x + s * (D * y)) * (r * x + s * (D * y)) ==
        (r * r) * (x * x) + (D * D) * (y * y) + 2 * (s * (r * (D * (x * y))))
  {
    var u, v := r * x, D * y;
    assert (u + s * v) * (u + s * v) == u * u + v * v + 2 * (s * (u * v));
    Square4(r, x, D, y);
    assert u * v == r * (D * (x * y)) by {
      MulFour(r, x, D, y);
      MulAssoc(r, D, x * y);
    }
  }

  lemma CrossTerm(d: int, k: int, r: int, s: int, x1: int, y1: int, x2: int, y2: int)
    requires k == x1 * y1
    ensures 2 * (s * (r * ((d * ((x1 * x2) * (y1 * y2))) * k))) == (d * (k * k)) * (2 * (s * (r * (x2 * y2))))
  {
    var q, v := x2 * y2, d * (k * k);
    assert (d * ((x1 * x2) * (y1 * y2))) * k == v * q by {
      MulFour(x1, x2, y1, y2);
      MulAssoc(d, k * q, k);
      MulAssoc(k, q, k);
      MulAssoc(d, k * k, q);
      MulAssoc(k, k, q);
    }
    MulAssoc(r, v, q);
    MulAssoc(s, v, r * q);
    assert r * (v * q) == v * (r * q);
    assert s * (v * (r * q)) == v * (s * (r * q));
    assert 2 * (v * (s * (r * q))) == v * (2 * (s * (r * q)));
  }

  lemma NormRelation(c: Curve, A: Affine, B: Affine, rr: int)
    requires CurveOk(c) && AffineOnCurve(c, A) && AffineOnCurve(c, B)
    requires Cong(rr, c.a, c.p) && Cong(Delta(c, A, B) * Delta(c, A, B), 1, c.p)
    ensures var k := A.x * A.y;
      Cong(rr * (A.x * A.x) + A.y * A.y, (c.d * (k * k)) * (rr * (B.x * B.x) + B.y * B.y), c.p)
  {
    var p, d, k, D := c.p, c.d, A.x * A.y, Delta(c, A, B);
    var j := B.x * B.y;
    Norm(c, A, rr);
    Norm(c, B, rr);
    var v, w := d * (k * k), d * (j * j);
    assert v * w == D * D by { DeltaSquare(c, A, B); }
    NormStep(p, rr * (A.x * A.x) + A.y * A.y, rr * (B.x * B.x) + B.y * B.y, v, w);
  }

  lemma DeltaSquare(c: Curve, A: Affine, B: Affine)
    ensures var k, j := A.x * A.y, B.x * B.y;
      (c.d * (k * k)) * (c.d * (j * j)) == Delta(c, A, B) * Delta(c, A, B)
  {
    var k, j := A.x * A.y, B.x * B.y;
    assert Delta(c, A, B) == c.d * (k * j) by { MulFour(A.x, B.x, A.y, B.y); }
    MulFour(c.d, k * j, c.d, k * j);
    MulFour(k, j, k, j);
    MulFour(c.d, k * k, c.d, j * j);
  }

  lemma NormStep(p: int, n1: int, n2: int, v: int, w: int)
    requires Cong(n1, 1 + v, p) && Cong(n2, 1 + w, p) && Cong(v * w, 1, p)
    ensures Cong(n1, v * n2, p)
  {
    CongRefl(v, p);
    CongMul(v, v, n2, 1 + w, p);
    assert v * (1 + w) == v + v * w;
    CongAdd(v, v, v * w, 1, p);
    CongTrans(v * n2, v + v * w, v + 1, p);
    CongBoth(p, n1, v * n2, v + 1);
  }

  lemma Norm(c: Curve, A: Affine, rr: int)
    requires CurveOk(c) && AffineOnCurve(c, A) && Cong(rr, c.a, c.p)
    ensures var k := A.x * A.y; Cong(rr * (A.x * A.x) + A.y * A.y, 1 + c.d * (k * k), c.p)
  {
    var p := c.p;
    CongRefl(A.x * A.x, p);
    CongRefl(A.y * A.y, p);
    CongMul(rr, c.a, A.x * A.x, A.x * A.x, p);
    CongAdd(rr * (A.x * A.x), c.a * (A.x * A.x), A.y * A.y, A.y * A.y, p);
    MulFour(A.x, A.y, A.x, A.y);
    CongTrans(rr * (A.x * A.x) + A.y * A.y, c.a * (A.x * A.x) + A.y * A.y, 1 + c.d * ((A.x * A.x) * (A.y * A.y)), p);
  }

  // ---------------------------------------------------------------- the whole addition

  /** On a complete curve the addition of any two points, equal or not, is their sum, has a
      non-zero denominator and is on the curve. */
  lemma AddComplete(c: Curve, P: Extended, Q: Extended, A: Affine, B: Affine) returns (C: Affine)
    requires CurveOk(c) && Complete(c) && OnCurve(c, P) && OnCurve(c, Q) && Stands(c, P, A) && Stands(c, Q, B)
    ensures AffineOk(c, C) && IsSum(c, A, B, C) && AffineOnCurve(c, C)
    ensures forall C' :: AffineOk(c, C') && IsSum(c, A, B, C') ==> C' == C
    ensures OnCurve(c, PointAdd(c, P, Q)) && Stands(c, PointAdd(c, P, Q), C)
  {
    var p, D := c.p, Delta(c, A, B);
    DividedEquation(c, P, A);
    DividedEquation(c, Q, B);
    DenominatorsNonzero(c, A, B);
    C := AffineSum(c, A, B);
    AddAffine(c, P, Q, A, B, C);
    AddClosed(c, P, Q);
    DividedEquation(c, PointAdd(c, P, Q), C);
  }

  lemma AffineSum(c: Curve, A: Affine, B: Affine) returns (C: Affine)
    requires CurveOk(c) && !Cong(1 + Delta(c, A, B), 0, c.p) && !Cong(1 - Delta(c, A, B), 0, c.p)
    ensures AffineOk(c, C) && IsSum(c, A, B, C)
    ensures forall C' :: AffineOk(c, C') && IsSum(c, A, B, C') ==> C' == C
  {
    var p, D, n, m := c.p, Delta(c, A, B), A.x * B.y + A.y * B.x, A.y * B.y - c.a * (A.x * B.x);
    var x := Quotient(p, 1 + D, n);
    var y := Quotient(p, 1 - D, m);
    C := Affine(x, y);
    forall C' | AffineOk(c, C') && IsSum(c, A, B, C')
      ensures C' == C
    {
      SameQuotient(p, C'.x, x, 1 + D, n);
      SameQuotient(p, C'.y, y, 1 - D, m);
    }
  }

  lemma SameQuotient(p: int, x: int, y: int, d: int, n: int)
    requires IsPrime(p) && Residue(p, x) && Residue(p, y) && !Cong(d, 0, p) && Cong(x * d, n, p) && Cong(y * d, n, p)
    ensures x == y
  {
    CongBoth(p, x * d, y * d, n);
    CancelRight(p, d, x, y);
    ResidueUnique(p, x, y);
  }

  /** (0, 1) is neutral, and negating x gives the inverse. */
  lemma NeutralAndInverse(c: Curve, A: Affine)
    requires CurveOk(c) && AffineOnCurve(c, A)
    ensures IsSum(c, A, NEUTRAL, A) && IsSum(c, NEUTRAL, A, A)
    ensures IsSum(c, A, Affine(-A.x, A.y), NEUTRAL)
  {
    var p := c.p;
    assert Delta(c, A, NEUTRAL) == 0 && Delta(c, NEUTRAL, A) == 0;
    CongRefl(A.x, p);
    CongRefl(A.y, p);
    var M := Affine(-A.x, A.y);
    var q := (A.x * A.x) * (A.y * A.y);
    assert (A.x * -A.x) == -(A.x * A.x);
    assert (-(A.x * A.x)) * (A.y * A.y) == -q;
    assert Delta(c, A, M) == -(c.d * q);
    assert A.x * A.y + A.y * -A.x == 0;
    CongRefl(0, p);
    assert A.y * A.y - c.a * (A.x * -A.x) == c.a * (A.x * A.x) + A.y * A.y;
    CongSym(c.a * (A.x * A.x) + A.y * A.y, 1 + c.d * q, p);
  }
}
