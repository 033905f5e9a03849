/**
 Montgomery curves by x coordinate alone: differential addition and doubling, and the chord
 and tangent law they follow.
 */
module Montgomery {
  import opened NumberTheory
  import opened Field

  /** b*y^2 = x^3 + a*x^2 + x; a fourth of a + 2 is kept as well. */
  datatype Curve = Curve(p: int, a: int, b: int, aplus2over4: int)

  /** x = X/Z, and Z is zero for the point at infinity. */
  datatype Projective = Projective(X: int, Z: int)

  datatype Affine = Infinity | At(x: int, y: int)

  ghost predicate CurveOk(c: Curve) {
    IsPrime(c.p) && c.p > 2 && Residue(c.p, c.a) && Residue(c.p, c.b) && Cong(4 * c.aplus2over4, c.a + 2, c.p)
  }

  /** What makes the equation that of a curve without singular points. */
  ghost predicate Smooth(c: Curve) {
    !Cong(c.b, 0, c.p) && !Cong(c.a * c.a, 4, c.p)
  }

  predicate PointOk(c: Curve, P: Projective) {
    Residue(c.p, P.X) && Residue(c.p, P.Z)
  }

  // ---------------------------------------------------------------- the code's operations

  function DiffAdd(c: Curve, P: Projective, Q: Projective, D: Projective): Projective
    requires c.p > 0
  {
    var pmqp := Mul(c.p, Sub(c.p, P.X, P.Z), Add(c.p, Q.X, Q.Z));
    var ppqm := Mul(c.p, Add(c.p, P.X, P.Z), Sub(c.p, Q.X, Q.Z));
    var xpre := Add(c.p, pmqp, ppqm);
    var zpre := Sub(c.p, pmqp, ppqm);
    Projective(Mul(c.p, Mul(c.p, xpre, xpre), D.Z), Mul(c.p, Mul(c.p, zpre, zpre), D.X))
  }

  function Double(c: Curve, P: Projective): Projective
    requires c.p > 0
  {
    var m, s := Sub(c.p, P.X, P.Z), Add(c.p, P.X, P.Z);
    var m2, s2 := Mul(c.p, m, m), Mul(c.p, s, s);
    var xz := Mul(c.p, P.X, P.Z);
    var twoxz := Add(c.p, xz, xz);
    var fourxz := Add(c.p, twoxz, twoxz);
    var zpre := Add(c.p, m2, Mul(c.p, fourxz, c.aplus2over4));
    Projective(Mul(c.p, m2, s2), Mul(c.p, fourxz, zpre))
  }

  // ---------------------------------------------------------------- the affine law

  function Cubic(c: Curve, x: int): int {
    x * x * x + c.a * (x * x) + x
  }

  ghost predicate OnCurve(c: Curve, A: Affine) {
    A.At? ==> Cong(c.b * (A.y * A.y), Cubic(c, A.x), c.p)
  }

  predicate AffineOk(c: Curve, A: Affine) {
    A.At? ==> Residue(c.p, A.x) && Residue(c.p, A.y)
  }

  ghost predicate Inside(c: Curve, A: Affine) {
    AffineOk(c, A) && OnCurve(c, A)
  }

  /** The slope of the chord, or of the tangent when the two points are one. */
  ghost predicate Line(c: Curve, A: Affine, B: Affine, m: int)
    requires A.At? && B.At?
  {
    if A.x == B.x then Cong(m * (2 * (c.b * A.y)), 3 * (A.x * A.x) + 2 * (c.a * A.x) + 1, c.p)
    else Cong(m * (B.x - A.x), B.y - A.y, c.p)
  }

  function ThirdX(c: Curve, A: Affine, B: Affine, m: int): int
    requires A.At? && B.At?
  {
    c.b * (m * m) - c.a - A.x - B.x
  }

  function ThirdY(c: Curve, A: Affine, B: Affine, m: int): int
    requires A.At? && B.At?
  {
    m * (A.x - ThirdX(c, A, B, m)) - A.y
  }

  ghost predicate Third(c: Curve, A: Affine, B: Affine, C: Affine, m: int)
    requires A.At? && B.At?
  {
    C.At? && Line(c, A, B, m) && Cong(C.x, ThirdX(c, A, B, m), c.p) && Cong(C.y, ThirdY(c, A, B, m), c.p)
  }

  ghost predicate Opposite(c: Curve, A: Affine, B: Affine)
    requires A.At? && B.At?
  {
    A.x == B.x && Cong(A.y + B.y, 0, c.p)
  }

  ghost predicate IsSum(c: Curve, A: Affine, B: Affine, C: Affine) {
    if A.Infinity? then C == B
    else if B.Infinity? then C == A
    else if Opposite(c, A, B) then C == Infinity
    else AffineOk(c, C) && exists m :: Third(c, A, B, C, m)
  }

  function Neg(c: Curve, A: Affine): Affine
    requires c.p > 0
  {
    if A.Infinity? then A else At(A.x, Sub(c.p, 0, A.y))
  }

  /** The pair stands for the affine point, up to its sign. */
  ghost predicate Stands(c: Curve, P: Projective, A: Affine) {
    if A.Infinity? then P.Z == 0 else P.Z != 0 && Cong(P.X, A.x * P.Z, c.p)
  }

  // ---------------------------------------------------------------- sums on the curve

  lemma SameXSameY(c: Curve, A: Affine, B: Affine)
    requires CurveOk(c) && Smooth(c) && A.At? && B.At? && Inside(c, A) && Inside(c, B) && A.x == B.x
    ensures A.y == B.y || Opposite(c, A, B)
  {
    CongBoth(c.p, c.b * (A.y * A.y), c.b * (B.y * B.y), Cubic(c, A.x));
    Cancel(c.p, c.b, A.y * A.y, B.y * B.y);
    assert A.y * A.y - B.y * B.y == (A.y - B.y) * (A.y + B.y);
    PrimeDividesProduct(c.p, A.y - B.y, A.y + B.y);
    if Divides(c.p, A.y - B.y) { ResidueUnique(c.p, A.y, B.y); }
  }

  /** What a slope is divided by is not zero. */
  lemma Slanted(c: Curve, A: Affine, B: Affine)
    requires CurveOk(c) && Smooth(c) && A.At? && B.At? && Inside(c, A) && Inside(c, B) && !Opposite(c, A, B)
    ensures if A.x == B.x then !Cong(2 * (c.b * A.y), 0, c.p) else !Cong(B.x - A.x, 0, c.p)
  {
    var p := c.p;
    if A.x == B.x {
      SameXSameY(c, A, B);
      assert A.y + B.y == 2 * A.y;
      ProductZero(p, 2, A.y);
      ProductZero(p, c.b, A.y);
      ProductZero(p, 2, c.b * A.y);
    } else if Cong(B.x - A.x, 0, p) {
      ResidueUnique(p, B.x, A.x);
    }
  }

  lemma SumExists(c: Curve, A: Affine, B: Affine) returns (C: Affine)
    requires CurveOk(c) && Smooth(c) && Inside(c, A) && Inside(c, B)
    ensures AffineOk(c, C) && IsSum(c, A, B, C)
  {
    if A.Infinity? {
      C := B;
    } else if B.Infinity? {
      C := A;
    } else if Opposite(c, A, B) {
      C := Infinity;
    } else {
      Slanted(c, A, B);
      var m;
      if A.x == B.x {
        m := Quotient(c.p, 2 * (c.b * A.y), 3 * (A.x * A.x) + 2 * (c.a * A.x) + 1);
      } else {
        m := Quotient(c.p, B.x - A.x, B.y - A.y);
      }
      C := At(ThirdX(c, A, B, m) % c.p, ThirdY(c, A, B, m) % c.p);
      CongMod(ThirdX(c, A, B, m), c.p);
      CongMod(ThirdY(c, A, B, m), c.p);
      assert Third(c, A, B, C, m);
    }
  }

  lemma SumUnique(c: Curve, A: Affine, B: Affine, C: Affine, D: Affine)
    requires CurveOk(c) && Smooth(c) && Inside(c, A) && Inside(c, B)
    requires IsSum(c, A, B, C) && IsSum(c, A, B, D)
    ensures C == D
  {
    if A.At? && B.At? && !Opposite(c, A, B) {
      var m :| Third(c, A, B, C, m);
      var n :| Third(c, A, B, D, n);
      Slanted(c, A, B);
      if A.x == B.x {
        CongBoth(c.p, m * (2 * (c.b * A.y)), n * (2 * (c.b * A.y)), 3 * (A.x * A.x) + 2 * (c.a * A.x) + 1);
        CancelRight(c.p, 2 * (c.b * A.y), m, n);
      } else {
        CongBoth(c.p, m * (B.x - A.x), n * (B.x - A.x), B.y - A.y);
        CancelRight(c.p, B.x - A.x, m, n);
      }
      ThirdCong(c, A, B, m, n);
      SameResidue(c.p, C.x, D.x, ThirdX(c, A, B, m), ThirdX(c, A, B, n));
      SameResidue(c.p, C.y, D.y, ThirdY(c, A, B, m), ThirdY(c, A, B, n));
    }
  }

  lemma SameResidue(p: int, x: int, y: int, x': int, y': int)
    requires Residue(p, x) && Residue(p, y) && Cong(x, x', p) && Cong(y, y', p) && Cong(x', y', p)
    ensures x == y
  {
    CongTrans(x, x', y', p);
    CongBoth(p, x, y, y');
    ResidueUnique(p, x, y);
  }

  lemma ThirdCong(c: Curve, A: Affine, B: Affine, m: int, n: int)
    requires A.At? && B.At? && Cong(m, n, c.p)
    ensures Cong(ThirdX(c, A, B, m), ThirdX(c, A, B, n), c.p) && Cong(ThirdY(c, A, B, m), ThirdY(c, A, B, n), c.p)
  {
    var p, r := c.p, c.a + A.x + B.x;
    CongMul(m, n, m, n, p);
    CongRefl(c.b, p);
    CongMul(c.b, c.b, m * m, n * n, p);
    CongRefl(r, p);
    CongAdd(c.b * (m * m), c.b * (n * n), r, r, p);
    CongRefl(A.x, p);
    CongRefl(A.y, p);
    var s, t := ThirdX(c, A, B, m), ThirdX(c, A, B, n);
    CongAdd(A.x, A.x, s, t, p);
    CongMul(m, n, A.x - s, A.x - t, p);
    CongAdd(m * (A.x - s), n * (A.x - t), A.y, A.y, p);
  }

  /** What makes the line through A of slope m meet the curve at x. */
  function Defect(c: Curve, A: Affine, x: int, m: int): int
    requires A.At?
  {
    (x * x + x * A.x + A.x * A.x + c.a * (x + A.x) + 1) - c.b * (m * (m * (x - A.x) + 2 * A.y))
  }

  lemma CubicDifference(c: Curve, x: int, z: int)
    ensures Cubic(c, z) - Cubic(c, x) == (z - x) * (z * z + z * x + x * x + c.a * (z + x) + 1)
  {
    var d := z - x;
    CubeDifference(x, z);
    assert c.a * (z * z) - c.a * (x * x) == d * (c.a * (z + x)) by {
      SquareDifference(x, z);
      DistributeThree(c.a, z * z, x * x, 0);
      MulAssoc(d, c.a, z + x);
      MulAssoc(c.a, d, z + x);
    }
    DistributeThree(d, z * z + z * x + x * x, c.a * (z + x), 1);
  }

  lemma CubeDifference(x: int, z: int)
    ensures z * z * z - x * x * x == (z - x) * (z * z + z * x + x * x)
  {
    var d := z - x;
    DistributeThree(d, z * z, z * x, x * x);
    assert d * (z * z) == z * z * z - x * (z * z);
    assert d * (z * x) == z * (z * x) - x * (z * x);
    assert d * (x * x) == z * (x * x) - x * x * x;
  }

  lemma SquareDifference(x: int, z: int)
    ensures z * z - x * x == (z - x) * (z + x)
  {
  }

  lemma DistributeThree(d: int, u: int, v: int, w: int)
    ensures d * (u + v + w) == d * u + d * v + d * w
    ensures d * (u - v) == d * u - d * v
  {
  }

  lemma LineSquared(b: int, m: int, d: int, y: int)
    ensures b * ((m * d + y) * (m * d + y)) == d * (b * (m * (m * d + 2 * y))) + b * (y * y)
  {
    var k := m * d;
    assert (k + y) * (k + y) == k * (k + 2 * y) + y * y;
    MulAssoc(m, d, k + 2 * y);
    MulAssoc(d, m, k + 2 * y);
    MulAssoc(b, d, m * (k + 2 * y));
    MulAssoc(d, b, m * (k + 2 * y));
    DistributeThree(b, k * (k + 2 * y), y * y, 0);
  }

  /** The curve equation at a point of the line, in terms of the defect. */
  lemma CubicOnLine(c: Curve, A: Affine, x: int, m: int)
    requires A.At?
    ensures var v := m * (x - A.x) + A.y;
      Cubic(c, x) - c.b * (v * v) == (x - A.x) * Defect(c, A, x, m) + (Cubic(c, A.x) - c.b * (A.y * A.y))
  {
    var d := x - A.x;
    CubicDifference(c, A.x, x);
    LineSquared(c.b, m, d, A.y);
    DistributeThree(d, x * x + x * A.x + A.x * A.x + c.a * (x + A.x) + 1, c.b * (m * (m * d + 2 * A.y)), 0);
  }

  /** The third point has the same defect as the second. */
  lemma ThirdRoot(c: Curve, A: Affine, B: Affine, m: int)
    requires A.At? && B.At?
    ensures Defect(c, A, ThirdX(c, A, B, m), m) == Defect(c, A, B.x, m)
  {
    var z, x, w, s := ThirdX(c, A, B, m), A.x, B.x, c.b * (m * m);
    SlopeTerm(c.b, m, z - x, A.y);
    SlopeTerm(c.b, m, w - x, A.y);
    Vieta(s, c.a, x, w, z);
  }

  lemma Vieta(s: int, a: int, x: int, w: int, z: int)
    requires z == s - a - x - w
    ensures z * z + z * x + a * (z + x) - s * (z - x) == w * w + w * x + a * (w + x) - s * (w - x)
  {
    VietaSide(z, x, a, s);
    VietaSide(w, x, a, s);
    NegatedFactor(z, z + x + a - s, w);
    NegatedFactor(w, w + x + a - s, z);
  }

  lemma VietaSide(z: int, x: int, a: int, s: int)
    ensures z * z + z * x + a * (z + x) - s * (z - x) == z * (z + x + a - s) + a * x + s * x
  {
    DistributeThree(z, z, x, a);
    DistributeThree(z, z + x + a, s, 0);
    DistributeThree(a, z, x, 0);
    DistributeThree(s, z, x, 0);
  }

  lemma NegatedFactor(z: int, r: int, w: int)
    requires r == -w
    ensures z * r == -(w * z)
  {
  }

  lemma SlopeTerm(b: int, m: int, d: int, y: int)
    ensures b * (m * (m * d + 2 * y)) == (b * (m * m)) * d + 2 * (b * (m * y))
  {
    MulAssoc(m, m, d);
    assert m * (m * d + 2 * y) == (m * m) * d + 2 * (m * y);
    MulAssoc(b, m * m, d);
    DistributeThree(b, (m * m) * d, 2 * (m * y), 0);
    MulAssoc(b, 2, m * y);
    MulAssoc(2, b, m * y);
  }

  lemma DefectVanishes(c: Curve, A: Affine, B: Affine, m: int)
    requires CurveOk(c) && Smooth(c) && A.At? && B.At? && Inside(c, A) && Inside(c, B) && Line(c, A, B, m)
    ensures Cong(Defect(c, A, B.x, m), 0, c.p)
  {
    var p := c.p;
    if A.x == B.x {
      TangentDefect(c, A, m);
    } else {
      if Cong(B.x - A.x, 0, p) { ResidueUnique(p, B.x, A.x); }
      ChordDefect(c, A, B, m);
    }
  }

  lemma TangentDefect(c: Curve, A: Affine, m: int)
    requires A.At? && Line(c, A, A, m)
    ensures Cong(Defect(c, A, A.x, m), 0, c.p)
  {
    var l, r := m * (2 * (c.b * A.y)), 3 * (A.x * A.x) + 2 * (c.a * A.x) + 1;
    assert m * (A.x - A.x) == 0;
    assert c.b * (m * (2 * A.y)) == l by { MulFour(c.b, m, 2, A.y); MulAssoc(c.b, m, 2 * A.y); MulAssoc(m, c.b,
        2 * A.y); MulAssoc(c.b, 2, A.y); MulAssoc(2, c.b, A.y); }
    assert c.a * (A.x + A.x) == 2 * (c.a * A.x);
    assert Defect(c, A, A.x, m) == r - l;
    CongSym(l, r, c.p);
  }

  lemma ChordDefect(c: Curve, A: Affine, B: Affine, m: int)
    requires IsPrime(c.p) && A.At? && B.At? && OnCurve(c, A) && OnCurve(c, B)
    requires !Cong(B.x - A.x, 0, c.p) && Cong(m * (B.x - A.x), B.y - A.y, c.p)
    ensures Cong(Defect(c, A, B.x, m), 0, c.p)
  {
    var p, d, f := c.p, B.x - A.x, Defect(c, A, B.x, m);
    var v := m * d + A.y;
    CubicOnLine(c, A, B.x, m);
    CongRefl(A.y, p);
    CongAdd(m * d, B.y - A.y, A.y, A.y, p);
    CongMul(v, B.y, v, B.y, p);
    CongRefl(c.b, p);
    CongMul(c.b, c.b, v * v, B.y * B.y, p);
    CongTrans(c.b * (v * v), c.b * (B.y * B.y), Cubic(c, B.x), p);
    CongAdd(c.b * (v * v), Cubic(c, B.x), c.b * (A.y * A.y), Cubic(c, A.x), p);
    var l := c.b * (v * v) - c.b * (A.y * A.y);
    assert d * f == (Cubic(c, B.x) - Cubic(c, A.x)) - l;
    CongSym(l, Cubic(c, B.x) - Cubic(c, A.x), p);
    assert d * f - 0 == d * f;
    ProductZero(p, d, f);
  }

  lemma SumOnCurve(c: Curve, A: Affine, B: Affine, C: Affine)
    requires CurveOk(c) && Smooth(c) && Inside(c, A) && Inside(c, B) && IsSum(c, A, B, C)
    ensures Inside(c, C)
  {
    if A.At? && B.At? && !Opposite(c, A, B) {
      var m :| Third(c, A, B, C, m);
      DefectVanishes(c, A, B, m);
      ThirdRoot(c, A, B, m);
      ThirdOnCurve(c, A, ThirdX(c, A, B, m), C, m);
    }
  }

  lemma ThirdOnCurve(c: Curve, A: Affine, x: int, C: Affine, m: int)
    requires IsPrime(c.p) && A.At? && C.At? && OnCurve(c, A) && Cong(Defect(c, A, x, m), 0, c.p)
    requires Cong(C.x, x, c.p) && Cong(C.y, m * (A.x - x) - A.y, c.p)
    ensures OnCurve(c, C)
  {
    var p, d, f := c.p, x - A.x, Defect(c, A, x, m);
    var v := m * d + A.y;
    CubicOnLine(c, A, x, m);
    ProductZero(p, d, f);
    CongSym(c.b * (A.y * A.y), Cubic(c, A.x), p);
    var l, r := Cubic(c, x), c.b * (v * v);
    assert d * f - 0 == d * f;
    DividesAdd(p, d * f, Cubic(c, A.x) - c.b * (A.y * A.y));
    assert Cong(l, r, p);
    assert m * (A.x - x) - A.y == -v;
    CongMul(C.y, -v, C.y, -v, p);
    assert (-v) * (-v) == v * v;
    CongRefl(c.b, p);
    CongMul(c.b, c.b, C.y * C.y, v * v, p);
    CubicCong(c, C.x, x);
    CongTrans(Cubic(c, C.x), l, r, p);
    CongBoth(p, c.b * (C.y * C.y), Cubic(c, C.x), r);
  }

  lemma CubicCong(c: Curve, x: int, y: int)
    requires Cong(x, y, c.p)
    ensures Cong(Cubic(c, x), Cubic(c, y), c.p)
  {
    CongMul(x, y, x, y, c.p);
    CongMul(x * x, y * y, x, y, c.p);
    CongRefl(c.a, c.p);
    CongMul(c.a, c.a, x * x, y * y, c.p);
    CongAdd(x * x * x, y * y * y, c.a * (x * x), c.a * (y * y), c.p);
    CongAdd(x * x * x + c.a * (x * x), y * y * y + c.a * (y * y), x, y, c.p);
  }

  lemma NegOnCurve(p: int, b: int, y: int, y': int, f: int)
    requires Cong(y', -y, p) && Cong(b * (y * y), f, p)
    ensures Cong(b * (y' * y'), f, p) && Cong(y + y', 0, p)
  {
    CongRefl(y, p);
    CongRefl(b, p);
    hide Cong;
    CongAdd(y, y, y', -y, p);
    CongMul(y', -y, y', -y, p);
    assert (-y) * (-y) == y * y;
    CongMul(b, b, y' * y', y * y, p);
    CongTrans(b * (y' * y'), b * (y * y), f, p);
  }

  /** A point and its negative add to infinity. */
  lemma NegInverse(c: Curve, A: Affine)
    requires CurveOk(c) && Inside(c, A)
    ensures Inside(c, Neg(c, A)) && IsSum(c, A, Neg(c, A), Infinity)
  {
    if A.At? {
      CongMod(-A.y, c.p);
      hide Cong;
      NegOnCurve(c.p, c.b, A.y, Sub(c.p, 0, A.y), Cubic(c, A.x));
    }
  }
}
