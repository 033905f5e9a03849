/**
 The Montgomery formulas against the chord and tangent law: doubling, and the addition of two
 points whose difference is known.
 */
module MontgomeryCorrect {
  import opened NumberTheory
  import opened Field
  import opened Montgomery

  /** Infinity is (X : 0) with X not zero. */
  ghost predicate Proper(c: Curve, P: Projective, A: Affine) {
    PointOk(c, P) && Stands(c, P, A) && (P.Z == 0 ==> P.X != 0)
  }

  // ---------------------------------------------------------------- what the formulas compute

  lemma DoubleParts(c: Curve, P: Projective)
    requires CurveOk(c)
    ensures var x, z, D := P.X, P.Z, Double(c, P);
      && PointOk(c, D)
      && Cong(D.X, ((x - z) * (x - z)) * ((x + z) * (x + z)), c.p)
      && Cong(D.Z, (4 * (x * z)) * (x * x + c.a * (x * z) + z * z), c.p)
  {
    var p, x, z := c.p, P.X, P.Z;
    CongRefl(x, p);
    CongRefl(z, p);
    assert Cong(4 * c.aplus2over4, c.a + 2, p);
    hide Cong;
    SubCong(p, x, x, z, z);
    AddCong(p, x, x, z, z);
    var m, s := Sub(p, x, z), Add(p, x, z);
    MulCong(p, m, x - z, m, x - z);
    MulCong(p, s, x + z, s, x + z);
    var m2, s2 := Mul(p, m, m), Mul(p, s, s);
    MulCong(p, m2, (x - z) * (x - z), s2, (x + z) * (x + z));
    MulCong(p, x, x, z, z);
    DoubleDenominator(p, Mul(p, x, z), x * z, m2, (x - z) * (x - z), c.aplus2over4, c.a);
    Completed(x, z, c.a);
  }

  lemma DoubleDenominator(p: int, xz: int, w: int, m2: int, v: int, q: int, a: int)
    requires p > 0 && Cong(xz, w, p) && Cong(m2, v, p) && Cong(4 * q, a + 2, p)
    ensures var four := Add(p, Add(p, xz, xz), Add(p, xz, xz));
      Cong(Mul(p, four, Add(p, m2, Mul(p, four, q))), (4 * w) * (v + (a + 2) * w), p)
  {
    var two := Add(p, xz, xz);
    var four := Add(p, two, two);
    CongRefl(q, p);
    CongRefl(w, p);
    CongRefl(v, p);
    hide Cong;
    AddCong(p, xz, w, xz, w);
    AddCong(p, two, w + w, two, w + w);
    assert (w + w) + (w + w) == 4 * w;
    MulCong(p, four, 4 * w, q, q);
    AddCong(p, m2, v, Mul(p, four, q), (4 * w) * q);
    CongMul(4 * q, a + 2, w, w, p);
    assert (4 * w) * q == (4 * q) * w;
    CongAdd(v, v, (4 * q) * w, (a + 2) * w, p);
    var zpre := Add(p, m2, Mul(p, four, q));
    CongTrans(zpre, v + (4 * q) * w, v + (a + 2) * w, p);
    MulCong(p, four, 4 * w, zpre, v + (a + 2) * w);
  }

  lemma Completed(x: int, z: int, a: int)
    ensures (x - z) * (x - z) + (a + 2) * (x * z) == x * x + a * (x * z) + z * z
  {
    assert (a + 2) * (x * z) == a * (x * z) + 2 * (x * z);
  }

  lemma DiffAddParts(c: Curve, P: Projective, Q: Projective, D: Projective)
    requires CurveOk(c)
    ensures var S, u, v := DiffAdd(c, P, Q, D), 2 * (P.X * Q.X - P.Z * Q.Z), 2 * (P.X * Q.Z - P.Z * Q.X);
      PointOk(c, S) && Cong(S.X, (u * u) * D.Z, c.p) && Cong(S.Z, (v * v) * D.X, c.p)
  {
    var p := c.p;
    var x, z, x', z' := P.X, P.Z, Q.X, Q.Z;
    CongRefl(x, p);
    CongRefl(z, p);
    CongRefl(x', p);
    CongRefl(z', p);
    CongRefl(D.X, p);
    CongRefl(D.Z, p);
    hide Cong;
    SubCong(p, x, x, z, z);
    AddCong(p, x, x, z, z);
    SubCong(p, x', x', z', z');
    AddCong(p, x', x', z', z');
    MulCong(p, Sub(p, x, z), x - z, Add(p, x', z'), x' + z');
    MulCong(p, Add(p, x, z), x + z, Sub(p, x', z'), x' - z');
    var k, l := Mul(p, Sub(p, x, z), Add(p, x', z')), Mul(p, Add(p, x, z), Sub(p, x', z'));
    AddCong(p, k, (x - z) * (x' + z'), l, (x + z) * (x' - z'));
    SubCong(p, k, (x - z) * (x' + z'), l, (x + z) * (x' - z'));
    CrossTerms(x, z, x', z');
    var u, v := 2 * (x * x' - z * z'), 2 * (x * z' - z * x');
    var xpre, zpre := Add(p, k, l), Sub(p, k, l);
    MulCong(p, xpre, u, xpre, u);
    MulCong(p, zpre, v, zpre, v);
    MulCong(p, Mul(p, xpre, xpre), u * u, D.Z, D.Z);
    MulCong(p, Mul(p, zpre, zpre), v * v, D.X, D.X);
  }

  lemma CrossTerms(x: int, z: int, x': int, z': int)
    ensures (x - z) * (x' + z') + (x + z) * (x' - z') == 2 * (x * x' - z * z')
    ensures (x - z) * (x' + z') - (x + z) * (x' - z') == 2 * (x * z' - z * x')
  {
    assert (x - z) * (x' + z') == x * x' + x * z' - z * x' - z * z';
    assert (x + z) * (x' - z') == x * x' - x * z' + z * x' - z * z';
  }

  // ---------------------------------------------------------------- doubling

  /** Twice a point by x alone. */
  lemma DoubledX(c: Curve, A: Affine, C: Affine)
    requires CurveOk(c) && A.At? && Inside(c, A) && A.y != 0 && IsSum(c, A, A, C)
    ensures C.At? && Cong(C.x * (4 * Cubic(c, A.x)), (A.x * A.x - 1) * (A.x * A.x - 1), c.p)
    ensures !Cong(A.y, 0, c.p)
  {
    var p, b, x, y, g := c.p, c.b, A.x, A.y, 3 * (A.x * A.x) + 2 * (c.a * A.x) + 1;
    ZeroIff(p, y);
    ProductZero(p, 2, y);
    assert y + y == 2 * y;
    if Divides(p, 2) { DividesUpTo(p, 2); }
    var m :| Third(c, A, A, C, m);
    var f, r := Cubic(c, x), c.a + x + x;
    TangentX(p, b, x, y, f, r, m, g, C.x);
    TangentSquare(x, c.a);
  }

  lemma TangentX(p: int, b: int, x: int, y: int, f: int, r: int, m: int, g: int, t: int)
    requires Cong(b * (y * y), f, p) && Cong(m * (2 * (b * y)), g, p) && Cong(t, b * (m * m) - r, p)
    ensures Cong(t * (4 * f), g * g - r * (4 * f), p)
  {
    var h, k := b * (y * y), m * (2 * (b * y));
    CongRefl(4, p);
    CongRefl(b * (m * m), p);
    CongMul(4, 4, h, f, p);
    CongMul(b * (m * m), b * (m * m), 4 * h, 4 * f, p);
    assert (b * (m * m)) * (4 * h) == k * k by { SlopeSquared(b, m, y); }
    CongSym(k * k, (b * (m * m)) * (4 * f), p);
    CongMul(k, g, k, g, p);
    CongTrans((b * (m * m)) * (4 * f), k * k, g * g, p);
    CongRefl(r * (4 * f), p);
    CongAdd((b * (m * m)) * (4 * f), g * g, r * (4 * f), r * (4 * f), p);
    CongRefl(4 * f, p);
    CongMul(t, b * (m * m) - r, 4 * f, 4 * f, p);
    SplitProduct(b * (m * m), r, 4 * f);
    CongTrans(t * (4 * f), (b * (m * m) - r) * (4 * f), g * g - r * (4 * f), p);
  }

  lemma SplitProduct(x: int, y: int, z: int)
    ensures (x - y) * z == x * z - y * z
    ensures (x + y) * z == x * z + y * z
  {
  }

  lemma SlopeSquared(b: int, m: int, y: int)
    ensures (b * (m * m)) * (4 * (b * (y * y))) == (m * (2 * (b * y))) * (m * (2 * (b * y)))
  {
    var w := b * y;
    MulFour(m, 2 * w, m, 2 * w);
    MulFour(2, w, 2, w);
    MulFour(b, y, b, y);
    MulFour(b, m * m, b, y * y);
    MulAssoc(b * b, m * m, y * y);
    MulAssoc(m * m, b * b, y * y);
    MulAssoc(m * m, 4, w * w);
    MulAssoc(4, m * m, w * w);
    MulAssoc(b * (m * m), 4, b * (y * y));
    MulAssoc(4, b * (m * m), b * (y * y));
  }

  lemma TangentSquare(x: int, a: int)
    ensures var f, g := x * x * x + a * (x * x) + x, 3 * (x * x) + 2 * (a * x) + 1;
      g * g - (a + x + x) * (4 * f) == (x * x - 1) * (x * x - 1)
  {
    var f, g, v, w := x * x * x + a * (x * x) + x, 3 * (x * x) + 2 * (a * x) + 1, x * x, a * x;
    TangentTerms(v, w);
    CubicTimes(x, a);
    CubicScaled(x, a);
    FourTimes(a + x + x, f);
    DistributeThree(f, a, x, x);
  }

  lemma FourTimes(r: int, f: int)
    ensures r * (4 * f) == 4 * (f * r)
  {
  }

  lemma TangentTerms(v: int, w: int)
    ensures (3 * v + 2 * w + 1) * (3 * v + 2 * w + 1) == 9 * (v * v) + 4 * (w * w) + 1 + 12 * (v * w) + 6 * v + 4 * w
    ensures (v - 1) * (v - 1) == v * v - 2 * v + 1
  {
  }

  lemma CubicTimes(x: int, a: int)
    ensures x * (x * x * x + a * (x * x) + x) == (x * x) * (x * x) + (x * x) * (a * x) + x * x
  {
    var v := x * x;
    DistributeThree(x, v * x, a * v, x);
    MulAssoc(x, v, x);
    MulAssoc(v, x, x);
    MulAssoc(x, a, v);
    MulAssoc(v, a, x);
  }

  lemma CubicScaled(x: int, a: int)
    ensures a * (x * x * x + a * (x * x) + x) == (x * x) * (a * x) + (a * x) * (a * x) + a * x
  {
    var v := x * x;
    DistributeThree(a, v * x, a * v, x);
    MulAssoc(a, v, x);
    MulAssoc(v, a, x);
    MulFour(a, x, a, x);
    MulAssoc(a, a, v);
  }

  lemma OverFour(x: int, a: int, z: int)
    ensures var w := (z * z) * (z * z);
      && ((x * z - z) * (x * z - z)) * ((x * z + z) * (x * z + z)) == ((x * x - 1) * (x * x - 1)) * w
      && (4 * ((x * z) * z)) * ((x * z) * (x * z) + a * ((x * z) * z) + z * z) ==
          (4 * (x * x * x + a * (x * x) + x)) * w
  {
    var v := z * z;
    assert x * z - z == (x - 1) * z && x * z + z == (x + 1) * z;
    MulFour(x - 1, z, x - 1, z);
    MulFour(x + 1, z, x + 1, z);
    MulFour((x - 1) * (x - 1), v, (x + 1) * (x + 1), v);
    MulFour(x - 1, x - 1, x + 1, x + 1);
    assert (x - 1) * (x + 1) == x * x - 1;
    MulAssoc(x, z, z);
    MulFour(x, z, x, z);
    MulAssoc(a, x, v);
    assert (x * x) * v + (a * x) * v + v == (x * x + a * x + 1) * v;
    MulFour(4 * x, v, x * x + a * x + 1, v);
    assert (4 * x) * (x * x + a * x + 1) == 4 * (x * (x * x + a * x + 1));
    assert x * (x * x + a * x + 1) == x * x * x + a * (x * x) + x by { MulAssoc(a, x, x); }
    assert 4 * (x * v) == (4 * x) * v;
  }

  lemma OverFourCong(p: int, X: int, x: int, a: int, z: int)
    requires Cong(X, x * z, p)
    ensures Cong(((X - z) * (X - z)) * ((X + z) * (X + z)), ((x * z - z) * (x * z - z)) * ((x * z + z) * (x * z +
        z)), p)
    ensures Cong((4 * (X * z)) * (X * X + a * (X * z) + z * z), (4 * ((x * z) * z)) * ((x * z) * (x * z) +
        a * ((x * z) * z) + z * z), p)
  {
    var Y := x * z;
    CongRefl(z, p);
    CongRefl(4, p);
    CongRefl(a, p);
    CongRefl(z * z, p);
    hide Cong;
    CongAdd(X, Y, z, z, p);
    CongMul(X - z, Y - z, X - z, Y - z, p);
    CongMul(X + z, Y + z, X + z, Y + z, p);
    CongMul((X - z) * (X - z), (Y - z) * (Y - z), (X + z) * (X + z), (Y + z) * (Y + z), p);
    CongMul(X, Y, z, z, p);
    CongMul(X, Y, X, Y, p);
    CongMul(4, 4, X * z, Y * z, p);
    CongMul(a, a, X * z, Y * z, p);
    CongAdd(X * X, Y * Y, a * (X * z), a * (Y * z), p);
    CongAdd(X * X + a * (X * z), Y * Y + a * (Y * z), z * z, z * z, p);
    CongMul(4 * (X * z), 4 * (Y * z), X * X + a * (X * z) + z * z, Y * Y + a * (Y * z) + z * z, p);
  }

  /** On a smooth curve x^2 is not one where the cubic vanishes. */
  lemma NotBoth(c: Curve, x: int)
    requires CurveOk(c) && Smooth(c) && Cong(Cubic(c, x), 0, c.p)
    ensures !Cong((x * x - 1) * (x * x - 1), 0, c.p)
  {
    ProductZero(c.p, x * x - 1, x * x - 1);
    if Cong(x * x - 1, 0, c.p) {
      CommonRoot(c.p, x, c.a);
    }
  }

  lemma CommonRoot(p: int, x: int, a: int)
    requires IsPrime(p) && Cong(x * x - 1, 0, p) && Cong(x * x * x + a * (x * x) + x, 0, p)
    ensures Cong(a * a, 4, p)
  {
    var v, f := x * x - 1, x * x * x + a * (x * x) + x;
    ProductZero(p, x + a, v);
    ProductZero(p, 4, v);
    CongAdd(f, 0, (x + a) * v, 0, p);
    RootSum(x, a);
    ProductZero(p, 2 * x + a, a - 2 * x);
    Factored(x, a);
    CongAdd((2 * x + a) * (a - 2 * x), 0, 4 * v, 0, p);
    assert (a * a - 4) - 0 == a * a - 4;
  }

  lemma RootSum(x: int, a: int)
    ensures (x * x * x + a * (x * x) + x) - (x + a) * (x * x - 1) == 2 * x + a
  {
    assert x * (x * x - 1) == x * x * x - x;
    assert a * (x * x - 1) == a * (x * x) - a;
  }

  lemma Factored(x: int, a: int)
    ensures (2 * x + a) * (a - 2 * x) == a * a - 4 * (x * x)
  {
  }

  /** Doubling is right for every point, infinity and points of order two included. */
  lemma DoubleCorrect(c: Curve, P: Projective, A: Affine, C: Affine)
    requires CurveOk(c) && Smooth(c) && Proper(c, P, A) && Inside(c, A) && IsSum(c, A, A, C)
    ensures Proper(c, Double(c, P), C)
  {
    var p, D := c.p, Double(c, P);
    DoubleParts(c, P);
    if A.Infinity? {
      ZeroIff(p, P.X);
      InfinityDoubled(p, P.X, D.X, D.Z, c.a);
    } else {
      DoubleFinite(c, P, A, C, D);
    }
  }

  lemma DoubleFinite(c: Curve, P: Projective, A: Affine, C: Affine, D: Projective)
    requires CurveOk(c) && Smooth(c) && Proper(c, P, A) && A.At? && Inside(c, A) && IsSum(c, A, A, C) && PointOk(c, D)
    requires Cong(D.X, ((P.X - P.Z) * (P.X - P.Z)) * ((P.X + P.Z) * (P.X + P.Z)), c.p)
    requires Cong(D.Z, (4 * (P.X * P.Z)) * (P.X * P.X + c.a * (P.X * P.Z) + P.Z * P.Z), c.p)
    ensures Proper(c, D, C)
  {
    hide Cong, IsPrime, OnCurve, IsSum, Proper;
    var p, x, z := c.p, A.x, P.Z;
    var w, n, m := (z * z) * (z * z), (x * x - 1) * (x * x - 1), 4 * Cubic(c, x);
    ProperFinite(c, P, A);
    OverFourCong(p, P.X, x, c.a, z);
    OverFour(x, c.a, z);
    CongTrans(D.X, ((P.X - z) * (P.X - z)) * ((P.X + z) * (P.X + z)), n * w, p);
    CongTrans(D.Z, (4 * (P.X * z)) * (P.X * P.X + c.a * (P.X * z) + z * z), m * w, p);
    ZeroIff(p, z);
    ProductZero(p, z, z);
    ProductZero(p, z * z, z * z);
    DoubledOver(c, A, C, D, n, m, w);
  }

  lemma ProperFinite(c: Curve, P: Projective, A: Affine)
    requires Proper(c, P, A) && A.At?
    ensures PointOk(c, P) && P.Z != 0 && Cong(P.X, A.x * P.Z, c.p)
  {
  }

  lemma InfinityDoubled(p: int, x: int, X: int, Z: int, a: int)
    requires IsPrime(p) && Residue(p, X) && Residue(p, Z) && !Cong(x, 0, p)
    requires Cong(X, ((x - 0) * (x - 0)) * ((x + 0) * (x + 0)), p)
    requires Cong(Z, (4 * (x * 0)) * (x * x + a * (x * 0) + 0 * 0), p)
    ensures X != 0 && Z == 0
  {
    assert 4 * (x * 0) == 0 && x * x + a * (x * 0) + 0 * 0 == x * x;
    assert 0 * (x * x) == 0;
    ZeroIff(p, Z);
    ZeroIff(p, X);
    ProductZero(p, x, x);
    ProductZero(p, x * x, x * x);
    CongZeroIff(p, X, (x * x) * (x * x));
  }

  lemma DoubledOver(c: Curve, A: Affine, C: Affine, D: Projective, n: int, m: int, w: int)
    requires CurveOk(c) && Smooth(c) && A.At? && Inside(c, A) && IsSum(c, A, A, C) && PointOk(c, D)
    requires n == (A.x * A.x - 1) * (A.x * A.x - 1) && m == 4 * Cubic(c, A.x) && !Cong(w, 0, c.p)
    requires Cong(D.X, n * w, c.p) && Cong(D.Z, m * w, c.p)
    ensures Proper(c, D, C)
  {
    var p, f := c.p, Cubic(c, A.x);
    ZeroIff(p, A.y);
    ZeroIff(p, D.X);
    ZeroIff(p, D.Z);
    CongZeroIff(p, D.X, n * w);
    CongZeroIff(p, D.Z, m * w);
    ProductZero(p, n, w);
    ProductZero(p, m, w);
    ProductZero(p, 4, f);
    FourNonzero(p);
    ProductZero(p, c.b, A.y * A.y);
    ProductZero(p, A.y, A.y);
    CongZeroIff(p, c.b * (A.y * A.y), f);
    if A.y == 0 {
      CongRefl(0, p);
      NotBoth(c, A.x);
    } else {
      DoubledX(c, A, C);
      FractionIs(p, D.X, D.Z, C.x, n, m, w);
    }
  }

  lemma FourNonzero(p: int)
    requires IsPrime(p) && p > 2
    ensures !Cong(4, 0, p) && !Cong(2, 0, p)
  {
    if Divides(p, 2) { DividesUpTo(p, 2); }
    ProductZero(p, 2, 2);
  }

  lemma FractionIs(p: int, X: int, Z: int, t: int, n: int, m: int, w: int)
    requires Cong(t * m, n, p) && Cong(X, n * w, p) && Cong(Z, m * w, p)
    ensures Cong(X, t * Z, p)
  {
    CongRefl(w, p);
    CongMul(t * m, n, w, w, p);
    MulAssoc(t, m, w);
    CongRefl(t, p);
    CongMul(t, t, Z, m * w, p);
    CongBoth(p, X, t * (m * w), n * w);
    CongBoth(p, X, t * Z, t * (m * w));
  }

  // ---------------------------------------------------------------- differential addition

  /** The x of a sum of points with different x, over the square of their difference. */
  lemma ChordX(c: Curve, A: Affine, B: Affine, C: Affine)
    requires CurveOk(c) && A.At? && B.At? && A.x != B.x && IsSum(c, A, B, C)
    ensures C.At?
    ensures var d, e := B.x - A.x, B.y - A.y;
      Cong(C.x * (d * d), c.b * (e * e) - (c.a + A.x + B.x) * (d * d), c.p)
  {
    var p, b, d, e, r := c.p, c.b, B.x - A.x, B.y - A.y, c.a + A.x + B.x;
    var m :| Third(c, A, B, C, m);
    CongRefl(b, p);
    CongRefl(d * d, p);
    CongRefl(r * (d * d), p);
    assert C.At? && Cong(m * d, e, p) && Cong(C.x, b * (m * m) - r, p);
    hide Cong;
    CongMul(m * d, e, m * d, e, p);
    CongMul(b, b, (m * d) * (m * d), e * e, p);
    CongMul(C.x, b * (m * m) - r, d * d, d * d, p);
    SplitProduct(b * (m * m), r, d * d);
    assert (b * (m * m)) * (d * d) == b * ((m * d) * (m * d)) by {
      MulFour(m, d, m, d);
      MulAssoc(b, m * m, d * d);
    }
    CongAdd(b * ((m * d) * (m * d)), b * (e * e), r * (d * d), r * (d * d), p);
    CongTrans(C.x * (d * d), b * ((m * d) * (m * d)) - r * (d * d), b * (e * e) - r * (d * d), p);
  }

  /** The x of a sum and of a difference, multiplied: y is no longer needed. */
  lemma DifferentialLaw(c: Curve, A: Affine, B: Affine, S: Affine, T: Affine)
    requires CurveOk(c) && Smooth(c) && A.At? && B.At? && Inside(c, A) && Inside(c, B) && A.x != B.x
    requires IsSum(c, A, B, S) && IsSum(c, B, Neg(c, A), T)
    ensures S.At? && T.At?
    ensures var d, n := B.x - A.x, A.x * B.x - 1; Cong((S.x * T.x) * (d * d), n * n, c.p)
  {
    hide Cong;
    var u, v := Symmetric(c, A, B), c.b * (A.y * B.y);
    SumOver(c, A, B, S);
    DifferenceOver(c, A, B, T);
    SumOfSquares(c.p, c.b, A.y, B.y, Cubic(c, A.x), Cubic(c, B.x), v);
    ProductOfBoth(c, A, B, S.x, T.x, u, v);
  }

  function Symmetric(c: Curve, A: Affine, B: Affine): int
    requires A.At? && B.At?
  {
    Cubic(c, A.x) + Cubic(c, B.x) - (c.a + A.x + B.x) * ((B.x - A.x) * (B.x - A.x))
  }

  lemma SumOver(c: Curve, A: Affine, B: Affine, S: Affine)
    requires CurveOk(c) && A.At? && B.At? && OnCurve(c, A) && OnCurve(c, B) && A.x != B.x && IsSum(c, A, B, S)
    ensures S.At? && Cong(S.x * ((B.x - A.x) * (B.x - A.x)), Symmetric(c, A, B) - 2 * (c.b * (A.y * B.y)), c.p)
  {
    var p, b, d, e := c.p, c.b, B.x - A.x, B.y - A.y;
    var f, g, r, v := Cubic(c, A.x), Cubic(c, B.x), c.a + A.x + B.x, b * (A.y * B.y);
    ChordX(c, A, B, S);
    SumOfSquares(p, b, A.y, B.y, f, g, v);
    CongRefl(r * (d * d), p);
    hide Cong, Cubic;
    CongAdd(b * (e * e), f + g - 2 * v, r * (d * d), r * (d * d), p);
    CongTrans(S.x * (d * d), b * (e * e) - r * (d * d), f + g - 2 * v - r * (d * d), p);
  }

  lemma DifferenceOver(c: Curve, A: Affine, B: Affine, T: Affine)
    requires CurveOk(c) && A.At? && B.At? && OnCurve(c, A) && OnCurve(c, B) && A.x != B.x && IsSum(c, B, Neg(c, A), T)
    ensures T.At? && Cong(T.x * ((B.x - A.x) * (B.x - A.x)), Symmetric(c, A, B) + 2 * (c.b * (A.y * B.y)), c.p)
  {
    var p, b, d := c.p, c.b, B.x - A.x;
    var N := Neg(c, A);
    var e := N.y - B.y;
    var f, g, r, v := Cubic(c, A.x), Cubic(c, B.x), c.a + A.x + B.x, b * (A.y * B.y);
    ChordX(c, B, N, T);
    assert (A.x - B.x) * (A.x - B.x) == d * d;
    CongMod(-A.y, p);
    Reflected(p, b, A.y, B.y, N.y, f, g, v);
    CongRefl(r * (d * d), p);
    hide Cong, Cubic, IsSum;
    CongAdd(b * (e * e), f + g + 2 * v, r * (d * d), r * (d * d), p);
    assert (c.a + B.x + A.x) * (d * d) == r * (d * d);
    CongTrans(T.x * (d * d), b * (e * e) - r * (d * d), f + g + 2 * v - r * (d * d), p);
  }

  lemma SumOfSquares(p: int, b: int, y: int, z: int, f: int, g: int, v: int)
    requires Cong(b * (y * y), f, p) && Cong(b * (z * z), g, p) && v == b * (y * z)
    ensures Cong(b * ((z - y) * (z - y)), f + g - 2 * v, p)
    ensures Cong(b * ((z + y) * (z + y)), f + g + 2 * v, p)
    ensures Cong(v * v, f * g, p)
  {
    CongAdd(b * (y * y), f, b * (z * z), g, p);
    CongRefl(2 * v, p);
    CongAdd(b * (y * y) + b * (z * z), f + g, 2 * v, 2 * v, p);
    SpreadSquare(b, y, z);
    CongMul(b * (y * y), f, b * (z * z), g, p);
    MulFour(b, y * z, b, y * z);
    MulFour(y, z, y, z);
    MulFour(b, y * y, b, z * z);
  }

  lemma SpreadSquare(b: int, y: int, z: int)
    ensures b * ((z - y) * (z - y)) == b * (y * y) + b * (z * z) - 2 * (b * (y * z))
    ensures b * ((z + y) * (z + y)) == b * (y * y) + b * (z * z) + 2 * (b * (y * z))
  {
    var u, v, w := y * y, z * z, y * z;
    assert (z - y) * (z - y) == u + v - 2 * w && (z + y) * (z + y) == u + v + 2 * w;
    assert b * (u + v - 2 * w) == b * u + b * v - 2 * (b * w);
    assert b * (u + v + 2 * w) == b * u + b * v + 2 * (b * w);
  }

  lemma Reflected(p: int, b: int, y: int, z: int, y': int, f: int, g: int, v: int)
    requires Cong(b * (y * y), f, p) && Cong(b * (z * z), g, p) && v == b * (y * z) && Cong(y', -y, p)
    ensures Cong(b * ((y' - z) * (y' - z)), f + g + 2 * v, p)
  {
    SumOfSquares(p, b, y, z, f, g, v);
    CongRefl(z, p);
    CongRefl(b, p);
    CongAdd(y', -y, z, z, p);
    CongMul(y' - z, -y - z, y' - z, -y - z, p);
    assert (-y - z) * (-y - z) == (z + y) * (z + y);
    CongMul(b, b, (y' - z) * (y' - z), (z + y) * (z + y), p);
    CongTrans(b * ((y' - z) * (y' - z)), b * ((z + y) * (z + y)), f + g + 2 * v, p);
  }

  lemma ProductOfBoth(c: Curve, A: Affine, B: Affine, s: int, t: int, u: int, v: int)
    requires CurveOk(c) && A.At? && B.At? && AffineOk(c, A) && AffineOk(c, B) && A.x != B.x
    requires Cong(v * v, Cubic(c, A.x) * Cubic(c, B.x), c.p)
    requires var d := B.x - A.x;
      && u == Cubic(c, A.x) + Cubic(c, B.x) - (c.a + A.x + B.x) * (d * d)
      && Cong(s * (d * d), u - 2 * v, c.p) && Cong(t * (d * d), u + 2 * v, c.p)
    ensures var d, n := B.x - A.x, A.x * B.x - 1; Cong((s * t) * (d * d), n * n, c.p)
  {
    var p, d, n, h := c.p, B.x - A.x, A.x * B.x - 1, Cubic(c, A.x) * Cubic(c, B.x);
    assert !Cong(d, 0, p) by {
      if Cong(d, 0, p) { ResidueUnique(p, B.x, A.x); }
    }
    hide Cong;
    ProductZero(p, d, d);
    ChordSquare(A.x, B.x, c.a);
    ProductStep(p, d * d, s, t, u, v, h, n * n);
  }

  lemma ProductStep(p: int, w: int, s: int, t: int, u: int, v: int, h: int, r: int)
    requires IsPrime(p) && !Cong(w, 0, p) && Cong(s * w, u - 2 * v, p) && Cong(t * w, u + 2 * v, p)
    requires Cong(v * v, h, p) && u * u - 4 * h == w * r
    ensures Cong((s * t) * w, r, p)
  {
    CongRefl(u * u, p);
    CongRefl(4, p);
    hide Cong;
    CongMul(s * w, u - 2 * v, t * w, u + 2 * v, p);
    assert (u - 2 * v) * (u + 2 * v) == u * u - 4 * (v * v);
    CongMul(4, 4, v * v, h, p);
    CongAdd(u * u, u * u, 4 * (v * v), 4 * h, p);
    CongTrans((s * w) * (t * w), u * u - 4 * (v * v), u * u - 4 * h, p);
    MulFour(s, w, t, w);
    MulAssoc(s * t, w, w);
    assert w * r == r * w;
    CancelRight(p, w, (s * t) * w, r);
  }

  lemma ChordSquare(x: int, z: int, a: int)
    ensures var f, g := x * x * x + a * (x * x) + x, z * z * z + a * (z * z) + z;
      var d := z - x;
      var u, n := f + g - (a + x + z) * (d * d), x * z - 1;
      u * u - 4 * (f * g) == (d * d) * (n * n)
  {
    var s, q := x + z, x * z;
    var k, m := x * x + a * x + 1, z * z + a * z + 1;
    var f, g, d := x * x * x + a * (x * x) + x, z * z * z + a * (z * z) + z, z - x;
    assert d * d == s * s - 4 * q;
    assert f == x * k && g == z * m by { MulAssoc(a, x, x); MulAssoc(a, z, z); }
    MulFour(x, k, z, m);
    BothQuadratics(x, z, a);
    SumOfCubics(x, z, a);
    assert a + x + z == a + s;
    SymmetricForm(s, q, a);
  }

  lemma BothQuadratics(x: int, z: int, a: int)
    ensures var s, q := x + z, x * z;
      (x * x + a * x + 1) * (z * z + a * z + 1) == q * q + (a * s) * q + (s * s - 2 * q) + (a * a) * q + a * s + 1
  {
    var s, q, u, v, w, t := x + z, x * z, x * x, z * z, a * x, a * z;
    ThreeByThree(u, w, v, t);
    MulFour(x, x, z, z);
    MulFour(a, x, a, z);
    MulFour(x, x, a, z);
    MulFour(a, x, x, z);
    MulFour(a, x, z, z);
    MulFour(a, z, x, z);
    assert (w + t) * q == w * q + t * q;
    assert w + t == a * s;
    SquareSum(x, z);
  }

  lemma ThreeByThree(u: int, w: int, v: int, t: int)
    ensures (u + w + 1) * (v + t + 1) == u * v + u * t + u + w * v + w * t + w + v + t + 1
  {
  }

  lemma SquareSum(x: int, z: int)
    ensures x * x + z * z == (x + z) * (x + z) - 2 * (x * z)
    ensures (z - x) * (z - x) == x * x + z * z - 2 * (x * z)
  {
  }

  lemma SumOfCubics(x: int, z: int, a: int)
    ensures var s, q, d := x + z, x * z, z - x;
      (x * x * x + a * (x * x) + x) + (z * z * z + a * (z * z) + z) - (a + s) * (d * d) == s * (q + 1) + 2 * (a * q)
  {
    var s, q, w := x + z, x * z, x * x + z * z - 2 * (x * z);
    SquareSum(x, z);
    CubeSum(x, z, w);
    ScaledSum(a, s, w);
    ScaledSquares(a, x * x, z * z, q);
    DistributeThree(s, q, 1, 0);
  }

  lemma ScaledSum(a: int, s: int, w: int)
    ensures (a + s) * w == a * w + s * w
  {
  }

  lemma ScaledSquares(a: int, u: int, v: int, q: int)
    ensures a * (u + v - 2 * q) == a * u + a * v - 2 * (a * q)
  {
  }

  lemma CubeSum(x: int, z: int, w: int)
    requires w == x * x + z * z - 2 * (x * z)
    ensures x * x * x + z * z * z == (x + z) * w + (x + z) * (x * z)
  {
    var q := x * z;
    assert w + q == x * x + z * z - q;
    DistributeThree(x + z, w, q, 0);
    DistributeThree(x, x * x, z * z, -q);
    DistributeThree(z, x * x, z * z, -q);
    SplitProduct(x, -z, w + q);
    MulAssoc(x, z, z);
    MulAssoc(z, x, x);
    assert x * (z * z) == z * q && z * (x * x) == x * q;
  }

  lemma SymmetricForm(s: int, q: int, a: int)
    ensures var u := s * (q + 1) + 2 * (a * q);
      u * u - 4 * (q * (q * q + (a * s) * q + (s * s - 2 * q) + (a * a) * q + a * s + 1)) ==
          (s * s - 4 * q) * ((q - 1) * (q - 1))
  {
    FormSquared(s, q, a);
    FormProduct(s * s, q, a * s, a * a);
    FormResult(s * s, q);
  }

  lemma FormSquared(s: int, q: int, a: int)
    ensures var u := s * (q + 1) + 2 * (a * q);
      u * u == (s * s) * (q * q) + 2 * ((s * s) * q) + s * s + 4 * ((a * s) * (q * q)) + 4 * ((a * s) * q) +
          4 * ((a * a) * (q * q))
  {
    var u, v, t, ss, qq := s * (q + 1), a * q, a * s, s * s, q * q;
    assert (u + 2 * v) * (u + 2 * v) == u * u + 4 * (u * v) + 4 * (v * v);
    assert u * u == ss * qq + 2 * (ss * q) + ss by {
      MulFour(s, q + 1, s, q + 1);
      assert (q + 1) * (q + 1) == qq + 2 * q + 1;
      assert ss * (qq + 2 * q + 1) == ss * qq + 2 * (ss * q) + ss;
    }
    assert u * v == t * qq + t * q by {
      MulFour(s, q + 1, a, q);
      assert (q + 1) * q == qq + q;
      assert t * (qq + q) == t * qq + t * q;
    }
    assert v * v == (a * a) * qq by { MulFour(a, q, a, q); }
  }

  lemma FormProduct(ss: int, q: int, t: int, k: int)
    ensures q * (q * q + t * q + (ss - 2 * q) + k * q + t + 1)
      == q * (q * q) + t * (q * q) + ss * q - 2 * (q * q) + k * (q * q) + t * q + q
  {
    var qq := q * q;
    assert q * (t * q) == t * qq by { MulAssoc(q, t, q); MulAssoc(t, q, q); }
    assert q * (k * q) == k * qq by { MulAssoc(q, k, q); MulAssoc(k, q, q); }
    assert q * (qq + t * q + (ss - 2 * q) + k * q + t + 1)
        == q * qq + q * (t * q) + q * (ss - 2 * q) + q * (k * q) + q * t + q;
  }

  lemma FormResult(ss: int, q: int)
    ensures (ss - 4 * q) * ((q - 1) * (q - 1)) == ss * (q * q) - 2 * (ss * q) + ss - 4 * (q * (q * q)) +
        8 * (q * q) - 4 * q
  {
    var qq := q * q;
    assert (q - 1) * (q - 1) == qq - 2 * q + 1;
    SplitProduct(ss, 4 * q, qq - 2 * q + 1);
    assert ss * (qq - 2 * q + 1) == ss * qq - 2 * (ss * q) + ss;
    assert q * (qq - 2 * q + 1) == q * qq - 2 * qq + q;
    assert (4 * q) * (qq - 2 * q + 1) == 4 * (q * (qq - 2 * q + 1));
  }

  /** From a fraction over a common factor that is not zero. */
  lemma ProperFraction(c: Curve, R: Projective, C: Affine, n: int, m: int, w: int)
    requires CurveOk(c) && PointOk(c, R) && !Cong(w, 0, c.p) && Cong(R.X, n * w, c.p) && Cong(R.Z, m * w, c.p)
    requires if C.At? then !Cong(m, 0, c.p) && Cong(C.x * m, n, c.p) else Cong(m, 0, c.p) && !Cong(n, 0, c.p)
    ensures Proper(c, R, C)
  {
    var p := c.p;
    ZeroIff(p, R.X);
    ZeroIff(p, R.Z);
    CongZeroIff(p, R.X, n * w);
    CongZeroIff(p, R.Z, m * w);
    ProductZero(p, n, w);
    ProductZero(p, m, w);
    if C.At? {
      FractionIs(p, R.X, R.Z, C.x, n, m, w);
    }
  }

  /** Adding the base to infinity: the difference is the base itself, up to sign. */
  lemma AddInfinity(c: Curve, R: Projective, D: Projective, T: Affine, S: Affine, k: int, x: int, z: int, u: int,
        v: int)
    requires CurveOk(c) && PointOk(c, R) && Proper(c, D, T) && T.At? && !Cong(T.x, 0, c.p) && S.At? && S.x == T.x
    requires !Cong(k, 0, c.p) && !Cong(z, 0, c.p) && Cong(x, T.x * z, c.p)
    requires u == k * x && (v == k * z || v == -(k * z))
    requires Cong(R.X, (u * u) * D.Z, c.p) && Cong(R.Z, (v * v) * D.X, c.p)
    ensures Proper(c, R, S)
  {
    var p, t := c.p, T.x;
    var w := ((k * z) * (k * z)) * D.Z;
    ProperFinite(c, D, T);
    ZeroIff(p, D.Z);
    hide Cong, Proper;
    ProductZero(p, k, z);
    ProductZero(p, k * z, k * z);
    ProductZero(p, (k * z) * (k * z), D.Z);
    OverBase(p, R.X, R.Z, D.X, D.Z, t, k, x, z, u, v);
    CongRefl(t * t, p);
    ProperFraction(c, R, S, t * t, t, w);
  }

  lemma OverBase(p: int, X: int, Z: int, bx: int, bz: int, t: int, k: int, x: int, z: int, u: int, v: int)
    requires Cong(x, t * z, p) && Cong(bx, t * bz, p) && u == k * x && (v == k * z || v == -(k * z))
    requires Cong(X, (u * u) * bz, p) && Cong(Z, (v * v) * bx, p)
    ensures var w := ((k * z) * (k * z)) * bz; Cong(X, (t * t) * w, p) && Cong(Z, t * w, p)
  {
    var w := ((k * z) * (k * z)) * bz;
    CongRefl(k, p);
    CongRefl(bz, p);
    CongRefl(v * v, p);
    hide Cong;
    SameSquare(v, k * z);
    CongMul(k, k, x, t * z, p);
    CongMul(u, k * (t * z), u, k * (t * z), p);
    CongMul(u * u, (k * (t * z)) * (k * (t * z)), bz, bz, p);
    FactorOut(t, k, z, bz);
    CongTrans(X, (u * u) * bz, (t * t) * w, p);
    CongMul(v * v, v * v, bx, t * bz, p);
    CongTrans(Z, (v * v) * bx, t * w, p);
  }

  lemma SameSquare(v: int, w: int)
    requires v == w || v == -w
    ensures v * v == w * w
  {
  }

  lemma FactorOut(t: int, k: int, z: int, d: int)
    ensures ((k * (t * z)) * (k * (t * z))) * d == (t * t) * (((k * z) * (k * z)) * d)
    ensures ((k * z) * (k * z)) * (t * d) == t * (((k * z) * (k * z)) * d)
  {
    var v := (k * z) * (k * z);
    assert k * (t * z) == t * (k * z) by { MulAssoc(k, t, z); MulAssoc(t, k, z); }
    MulFour(t, k * z, t, k * z);
    MulAssoc(t * t, v, d);
    MulAssoc(v, t, d);
    MulAssoc(t, v, d);
  }

  /** Two finite points: both parts over the product of the denominators. */
  lemma BothFinite(p: int, X: int, Z: int, X': int, Z': int, x: int, x': int)
    requires Cong(X, x * Z, p) && Cong(X', x' * Z', p)
    ensures Cong(2 * (X * X' - Z * Z'), (x * x' - 1) * (2 * (Z * Z')), p)
    ensures Cong(2 * (X * Z' - Z * X'), (x - x') * (2 * (Z * Z')), p)
  {
    CongRefl(Z, p);
    CongRefl(Z', p);
    CongRefl(2, p);
    CongRefl(Z * Z', p);
    hide Cong;
    var w := Z * Z';
    CongMul(X, x * Z, X', x' * Z', p);
    CongMul(X, x * Z, Z', Z', p);
    CongMul(Z, Z, X', x' * Z', p);
    MulFour(x, Z, x', Z');
    MulAssoc(x, Z, Z');
    assert Z * (x' * Z') == x' * w by { MulAssoc(Z, x', Z'); MulAssoc(x', Z, Z'); }
    CongAdd(X * X', (x * x') * w, w, w, p);
    CongAdd(X * Z', x * w, Z * X', x' * w, p);
    CongMul(2, 2, X * X' - w, (x * x') * w - w, p);
    CongMul(2, 2, X * Z' - Z * X', x * w - x' * w, p);
    assert 2 * ((x * x') * w - w) == (x * x' - 1) * (2 * w);
    assert 2 * (x * w - x' * w) == (x - x') * (2 * w);
  }

  lemma ScaledSquare(p: int, r: int, u: int, n: int, w: int, d: int, e: int, t: int)
    requires Cong(r, (u * u) * e, p) && Cong(u, n * w, p) && Cong(e, t * d, p)
    ensures Cong(r, ((n * n) * t) * ((w * w) * d), p)
  {
    CongMul(u, n * w, u, n * w, p);
    MulFour(n, w, n, w);
    CongMul(u * u, (n * n) * (w * w), e, t * d, p);
    MulFour(n * n, w * w, t, d);
    CongTrans(r, (u * u) * e, ((n * n) * t) * ((w * w) * d), p);
  }

  lemma AddFinite(c: Curve, P: Projective, Q: Projective, D: Projective, A: Affine, B: Affine, S: Affine, T: Affine)
    requires CurveOk(c) && Smooth(c) && A.At? && B.At? && Inside(c, A) && Inside(c, B)
    requires Proper(c, P, A) && Proper(c, Q, B) && Proper(c, D, T) && T.At? && !Cong(T.x, 0, c.p)
    requires IsSum(c, A, B, S) && IsSum(c, B, Neg(c, A), T)
    ensures Proper(c, DiffAdd(c, P, Q, D), S)
  {
    var p, w := c.p, 2 * (P.Z * Q.Z);
    var R := DiffAdd(c, P, Q, D);
    ProperFinite(c, P, A);
    ProperFinite(c, Q, B);
    ProperFinite(c, D, T);
    DiffAddParts(c, P, Q, D);
    BothFinite(p, P.X, P.Z, Q.X, Q.Z, A.x, B.x);
    FiniteFactor(p, P.Z, Q.Z, D.Z);
    CongRefl(D.Z, p);
    var u, v := 2 * (P.X * Q.X - P.Z * Q.Z), 2 * (P.X * Q.Z - P.Z * Q.X);
    var n, d := A.x * B.x - 1, A.x - B.x;
    hide Cong, DiffAdd, Inside, Proper, IsSum;
    ScaledSquare(p, R.X, u, n, w, D.Z, D.Z, 1);
    ScaledSquare(p, R.Z, v, d, w, D.Z, D.X, T.x);
    FiniteFraction(c, A, B, S, T);
    ProperFraction(c, R, S, (n * n) * 1, (d * d) * T.x, (w * w) * D.Z);
  }

  lemma FiniteFactor(p: int, z: int, z': int, d: int)
    requires IsPrime(p) && p > 2 && Residue(p, z) && Residue(p, z') && Residue(p, d) && z != 0 && z' != 0 && d != 0
    ensures var w := 2 * (z * z'); !Cong((w * w) * d, 0, p)
  {
    var w := 2 * (z * z');
    ZeroIff(p, z);
    ZeroIff(p, z');
    ZeroIff(p, d);
    FourNonzero(p);
    ProductZero(p, z, z');
    ProductZero(p, 2, z * z');
    ProductZero(p, w, w);
    ProductZero(p, w * w, d);
  }

  lemma FiniteFraction(c: Curve, A: Affine, B: Affine, S: Affine, T: Affine)
    requires CurveOk(c) && Smooth(c) && A.At? && B.At? && T.At? && Inside(c, A) && Inside(c, B) && !Cong(T.x, 0, c.p)
    requires IsSum(c, A, B, S) && IsSum(c, B, Neg(c, A), T)
    ensures var n, d := (A.x * B.x - 1) * (A.x * B.x - 1) * 1, ((A.x - B.x) * (A.x - B.x)) * T.x;
      if S.At? then !Cong(d, 0, c.p) && Cong(S.x * d, n, c.p) else Cong(d, 0, c.p) && !Cong(n, 0, c.p)
  {
    var p := c.p;
    if A.x == B.x {
      OppositeFraction(c, A, B, S, T);
      assert (A.x - B.x) * (A.x - B.x) == 0;
      CongRefl(0, p);
    } else {
      DifferentFraction(c, A, B, S, T);
    }
  }

  lemma DifferentFraction(c: Curve, A: Affine, B: Affine, S: Affine, T: Affine)
    requires CurveOk(c) && Smooth(c) && A.At? && B.At? && T.At? && Inside(c, A) && Inside(c, B) && !Cong(T.x, 0, c.p)
    requires A.x != B.x && IsSum(c, A, B, S) && IsSum(c, B, Neg(c, A), T)
    ensures var n, d := (A.x * B.x - 1) * (A.x * B.x - 1), ((A.x - B.x) * (A.x - B.x)) * T.x;
      S.At? && !Cong(d, 0, c.p) && Cong(S.x * d, n, c.p)
  {
    var p := c.p;
    if Cong(A.x - B.x, 0, p) { ResidueUnique(p, A.x, B.x); }
    DifferentialLaw(c, A, B, S, T);
    hide Cong, IsSum, OnCurve;
    ProductZero(p, A.x - B.x, A.x - B.x);
    ProductZero(p, (A.x - B.x) * (A.x - B.x), T.x);
    var v := (B.x - A.x) * (B.x - A.x);
    assert v == (A.x - B.x) * (A.x - B.x);
    assert (S.x * T.x) * v == S.x * (v * T.x) by { MulAssoc(S.x, T.x, v); }
  }

  lemma OppositeFraction(c: Curve, A: Affine, B: Affine, S: Affine, T: Affine)
    requires CurveOk(c) && Smooth(c) && A.At? && B.At? && T.At? && Inside(c, A) && Inside(c, B) && !Cong(T.x, 0, c.p)
    requires A.x == B.x && IsSum(c, A, B, S) && IsSum(c, B, Neg(c, A), T)
    ensures S.Infinity? && !Cong((A.x * B.x - 1) * (A.x * B.x - 1), 0, c.p)
  {
    var p, N := c.p, Neg(c, A);
    NegInverse(c, A);
    SameXSameY(c, B, N);
    SameXSameY(c, A, B);
    CongMod(-A.y, p);
    assert B == N;
    if B.y == 0 { CongRefl(0, p); }
    DoubledX(c, B, T);
    var f := Cubic(c, B.x);
    ProductZero(p, B.y, B.y);
    ProductZero(p, c.b, B.y * B.y);
    CongZeroIff(p, c.b * (B.y * B.y), f);
    FourNonzero(p);
    ProductZero(p, 4, f);
    ProductZero(p, T.x, 4 * f);
    CongZeroIff(p, T.x * (4 * f), (B.x * B.x - 1) * (B.x * B.x - 1));
  }

  lemma OneTerm(k: int, x: int, z: int)
    ensures 2 * (k * x - 0 * z) == (2 * k) * x && 2 * (k * z - 0 * x) == (2 * k) * z
    ensures 2 * (x * k - z * 0) == (2 * k) * x && 2 * (x * 0 - z * k) == -((2 * k) * z)
  {
  }

  lemma AddToInfinity(c: Curve, P: Projective, Q: Projective, D: Projective, T: Affine, S: Affine)
    requires CurveOk(c) && PointOk(c, P) && PointOk(c, Q) && P.Z == 0 && P.X != 0 && Q.Z != 0
    requires Proper(c, D, T) && T.At? && !Cong(T.x, 0, c.p) && S.At? && S.x == T.x && Cong(Q.X, T.x * Q.Z, c.p)
    ensures Proper(c, DiffAdd(c, P, Q, D), S)
  {
    hide Proper, Cong, DiffAdd;
    DiffAddParts(c, P, Q, D);
    FourNonzero(c.p);
    ZeroIff(c.p, P.X);
    ZeroIff(c.p, Q.Z);
    ProductZero(c.p, 2, P.X);
    var u, v := 2 * (P.X * Q.X - P.Z * Q.Z), 2 * (P.X * Q.Z - P.Z * Q.X);
    OneTerm(P.X, Q.X, Q.Z);
    AddInfinity(c, DiffAdd(c, P, Q, D), D, T, S, 2 * P.X, Q.X, Q.Z, u, v);
  }

  lemma AddInfinityTo(c: Curve, P: Projective, Q: Projective, D: Projective, T: Affine, S: Affine)
    requires CurveOk(c) && PointOk(c, P) && PointOk(c, Q) && Q.Z == 0 && Q.X != 0 && P.Z != 0
    requires Proper(c, D, T) && T.At? && !Cong(T.x, 0, c.p) && S.At? && S.x == T.x && Cong(P.X, T.x * P.Z, c.p)
    ensures Proper(c, DiffAdd(c, P, Q, D), S)
  {
    hide Proper, Cong, DiffAdd;
    DiffAddParts(c, P, Q, D);
    FourNonzero(c.p);
    ZeroIff(c.p, Q.X);
    ZeroIff(c.p, P.Z);
    ProductZero(c.p, 2, Q.X);
    var u, v := 2 * (P.X * Q.X - P.Z * Q.Z), 2 * (P.X * Q.Z - P.Z * Q.X);
    OneTerm(Q.X, P.X, P.Z);
    AddInfinity(c, DiffAdd(c, P, Q, D), D, T, S, 2 * Q.X, P.X, P.Z, u, v);
  }

  /** Differential addition is right for every pair of points, infinity included, whose
      difference is finite with x not zero. */
  lemma DiffAddCorrect(c: Curve, P: Projective, Q: Projective, D: Projective, A: Affine, B: Affine, S: Affine,
        T: Affine)
    requires CurveOk(c) && Smooth(c) && Inside(c, A) && Inside(c, B)
    requires Proper(c, P, A) && Proper(c, Q, B) && Proper(c, D, T) && T.At? && !Cong(T.x, 0, c.p)
    requires IsSum(c, A, B, S) && IsSum(c, B, Neg(c, A), T)
    ensures Proper(c, DiffAdd(c, P, Q, D), S)
  {
    hide Cong, DiffAdd;
    if A.At? && B.At? {
      AddFinite(c, P, Q, D, A, B, S, T);
    } else if A.Infinity? {
      AddToInfinity(c, P, Q, D, T, S);
    } else {
      AddInfinityTo(c, P, Q, D, T, S);
    }
  }
}
