/**
 Twisted Edwards curves in extended coordinates: the single addition formula, which also
 doubles, and the comparison of two points.
 */
module Edwards {
  import opened NumberTheory
  import opened Field

  datatype Curve = Curve(p: int, d: int, a: int)

  /** x = X/Z, y = Y/Z, and T = XY/Z is stored as well. */
  datatype Extended = Extended(X: int, Y: int, Z: int, T: int)

  datatype Affine = Affine(x: int, y: int)

  ghost predicate CurveOk(c: Curve) {
    IsPrime(c.p) && c.p > 2 && Residue(c.p, c.d) && Residue(c.p, c.a)
  }

  predicate Residues(c: Curve, P: Extended) {
    Residue(c.p, P.X) && Residue(c.p, P.Y) && Residue(c.p, P.Z) && Residue(c.p, P.T)
  }

  function PointAdd(c: Curve, P: Extended, Q: Extended): Extended
    requires c.p > 0
  {
    var pxqx := Mul(c.p, P.X, Q.X);
    var pyqy := Mul(c.p, P.Y, Q.Y);
    var ptqt := Mul(c.p, P.T, Q.T);
    var pzqz := Mul(c.p, P.Z, Q.Z);
    var psum := Add(c.p, P.X, P.Y);
    var qsum := Add(c.p, Q.X, Q.Y);
    var apxqx := Mul(c.p, c.a, pxqx);
    var dptqt := Mul(c.p, c.d, ptqt);
    var sumprod := Mul(c.p, psum, qsum);
    var xxyy := Add(c.p, pxqx, pyqy);
    var E := Sub(c.p, sumprod, xxyy);
    var F := Sub(c.p, pzqz, dptqt);
    var G := Add(c.p, pzqz, dptqt);
    var H := Sub(c.p, pyqy, apxqx);
    Extended(Mul(c.p, E, F), Mul(c.p, G, H), Mul(c.p, F, G), Mul(c.p, H, E))
  }

  function ProjectiveEq(c: Curve, an: int, ad: int, bn: int, bd: int): bool
    requires c.p > 0
  {
    Mul(c.p, an, bd) == Mul(c.p, bn, ad)
  }

  function PointEq(c: Curve, P: Extended, Q: Extended): bool
    requires c.p > 0
  {
    ProjectiveEq(c, P.X, P.Z, Q.X, Q.Z) && ProjectiveEq(c, P.Y, P.Z, Q.Y, Q.Z)
  }

  // ---------------------------------------------------------------- the curve

  ghost predicate OnCurve(c: Curve, P: Extended) {
    && Cong(P.X * P.Y, P.Z * P.T, c.p)
    && Cong(c.a * (P.X * P.X) + P.Y * P.Y, P.Z * P.Z + c.d * (P.T * P.T), c.p)
  }

  ghost predicate AffineOnCurve(c: Curve, A: Affine) {
    Cong(c.a * (A.x * A.x) + A.y * A.y, 1 + c.d * ((A.x * A.x) * (A.y * A.y)), c.p)
  }

  ghost predicate Stands(c: Curve, P: Extended, A: Affine) {
    !Cong(P.Z, 0, c.p) && Cong(P.X, A.x * P.Z, c.p) && Cong(P.Y, A.y * P.Z, c.p) && Cong(P.T, (A.x * A.y) * P.Z, c.p)
  }

  function Delta(c: Curve, A: Affine, B: Affine): int {
    c.d * ((A.x * B.x) * (A.y * B.y))
  }

  /** The unified affine addition law. */
  ghost predicate IsSum(c: Curve, A: Affine, B: Affine, C: Affine) {
    && Cong(C.x * (1 + Delta(c, A, B)), A.x * B.y + A.y * B.x, c.p)
    && Cong(C.y * (1 - Delta(c, A, B)), A.y * B.y - c.a * (A.x * B.x), c.p)
  }

  // ---------------------------------------------------------------- what the formula computes

  datatype Parts = Parts(e: int, f: int, g: int, h: int)

  function SumParts(c: Curve, P: Extended, Q: Extended): Parts {
    Parts(P.X * Q.Y + P.Y * Q.X,
          P.Z * Q.Z - c.d * (P.T * Q.T),
          P.Z * Q.Z + c.d * (P.T * Q.T),
          P.Y * Q.Y - c.a * (P.X * Q.X))
  }

  /** The optimised multiplication pattern computes the four products of the plain formula. */
  lemma AddParts(c: Curve, P: Extended, Q: Extended)
    requires CurveOk(c)
    ensures var s, S := SumParts(c, P, Q), PointAdd(c, P, Q);
      && Residues(c, S)
      && Cong(S.X, s.e * s.f, c.p) && Cong(S.Y, s.g * s.h, c.p)
      && Cong(S.Z, s.f * s.g, c.p) && Cong(S.T, s.h * s.e, c.p)
  {
    var p, s := c.p, SumParts(c, P, Q);
    var pxqx, pyqy, ptqt, pzqz := Mul(p, P.X, Q.X), Mul(p, P.Y, Q.Y), Mul(p, P.T, Q.T), Mul(p, P.Z, Q.Z);
    CrossPart(p, P, Q);
    ScaledPart(p, c.d, P.Z, Q.Z, P.T, Q.T);
    ScaledPart(p, c.a, P.Y, Q.Y, P.X, Q.X);
    var e := Sub(p, Mul(p, Add(p, P.X, P.Y), Add(p, Q.X, Q.Y)), Add(p, pxqx, pyqy));
    var f, g, h := Sub(p, pzqz, Mul(p, c.d, ptqt)), Add(p, pzqz, Mul(p, c.d, ptqt)), Sub(p, pyqy, Mul(p, c.a, pxqx));
    MulCong(p, e, s.e, f, s.f);
    MulCong(p, g, s.g, h, s.h);
    MulCong(p, f, s.f, g, s.g);
    MulCong(p, h, s.h, e, s.e);
  }

  lemma ExactMul(p: int, x: int, y: int)
    requires p > 0
    ensures Cong(Mul(p, x, y), x * y, p) && Cong(Add(p, x, y), x + y, p)
  {
    CongMod(x * y, p);
    CongMod(x + y, p);
  }

  lemma ScaledPart(p: int, k: int, u: int, v: int, x: int, y: int)
    requires p > 0
    ensures var uv, kxy := Mul(p, u, v), Mul(p, k, Mul(p, x, y));
      Cong(Sub(p, uv, kxy), u * v - k * (x * y), p) && Cong(Add(p, uv, kxy), u * v + k * (x * y), p)
  {
    ExactMul(p, u, v);
    ExactMul(p, x, y);
    CongRefl(k, p);
    MulCong(p, k, k, Mul(p, x, y), x * y);
    var uv, kxy := Mul(p, u, v), Mul(p, k, Mul(p, x, y));
    SubCong(p, uv, u * v, kxy, k * (x * y));
    AddCong(p, uv, u * v, kxy, k * (x * y));
  }

  lemma CrossPart(p: int, P: Extended, Q: Extended)
    requires p > 0
    ensures Cong(Sub(p, Mul(p, Add(p, P.X, P.Y), Add(p, Q.X, Q.Y)), Add(p, Mul(p, P.X, Q.X), Mul(p, P.Y, Q.Y))),
        P.X * Q.Y + P.Y * Q.X, p)
  {
    ExactMul(p, P.X, P.Y);
    ExactMul(p, Q.X, Q.Y);
    ExactMul(p, P.X, Q.X);
    ExactMul(p, P.Y, Q.Y);
    var sumprod, xxyy := Mul(p, Add(p, P.X, P.Y), Add(p, Q.X, Q.Y)), Add(p, Mul(p, P.X, Q.X), Mul(p, P.Y, Q.Y));
    MulCong(p, Add(p, P.X, P.Y), P.X + P.Y, Add(p, Q.X, Q.Y), Q.X + Q.Y);
    AddCong(p, Mul(p, P.X, Q.X), P.X * Q.X, Mul(p, P.Y, Q.Y), P.Y * Q.Y);
    SubCong(p, sumprod, (P.X + P.Y) * (Q.X + Q.Y), xxyy, P.X * Q.X + P.Y * Q.Y);
    Distribute(P.X, P.Y, Q.X, Q.Y);
  }

  // ---------------------------------------------------------------- closure

  /** The sum of two points of the curve is on the curve, whatever their denominators. */
  lemma AddClosed(c: Curve, P: Extended, Q: Extended)
    requires CurveOk(c) && OnCurve(c, P) && OnCurve(c, Q)
    ensures Residues(c, PointAdd(c, P, Q)) && OnCurve(c, PointAdd(c, P, Q))
  {
    var p, s, S := c.p, SumParts(c, P, Q), PointAdd(c, P, Q);
    var X, Y, Z, T := s.e * s.f, s.g * s.h, s.f * s.g, s.h * s.e;
    AddParts(c, P, Q);
    CongMul(S.X, X, S.Y, Y, p);
    CongMul(S.Z, Z, S.T, T, p);
    assert X * Y == Z * T by { Crossed(s.e, s.f, s.g, s.h); }
    CongBoth(p, S.X * S.Y, S.Z * S.T, X * Y);
    CongMul(S.X, X, S.X, X, p);
    CongMul(S.Y, Y, S.Y, Y, p);
    CongMul(S.Z, Z, S.Z, Z, p);
    CongMul(S.T, T, S.T, T, p);
    CongRefl(c.a, p);
    CongRefl(c.d, p);
    CongMul(c.a, c.a, S.X * S.X, X * X, p);
    CongMul(c.d, c.d, S.T * S.T, T * T, p);
    CongAdd(c.a * (S.X * S.X), c.a * (X * X), S.Y * S.Y, Y * Y, p);
    CongAdd(S.Z * S.Z, Z * Z, c.d * (S.T * S.T), c.d * (T * T), p);
    SumEquation(c, P, Q);
    CongTrans(c.a * (S.X * S.X) + S.Y * S.Y, c.a * (X * X) + Y * Y, Z * Z + c.d * (T * T), p);
    CongBoth(p, c.a * (S.X * S.X) + S.Y * S.Y, S.Z * S.Z + c.d * (S.T * S.T), Z * Z + c.d * (T * T));
  }

  lemma Crossed(e: int, f: int, g: int, h: int)
    ensures (e * f) * (g * h) == (f * g) * (h * e)
  {
    MulAssoc(e, f, g * h);
    MulAssoc(f, g, h);
    MulAssoc(f, g, h * e);
    MulAssoc(g, h, e);
  }

  lemma SumEquation(c: Curve, P: Extended, Q: Extended)
    requires CurveOk(c) && OnCurve(c, P) && OnCurve(c, Q)
    ensures var s := SumParts(c, P, Q);
      var X, Y, Z, T := s.e * s.f, s.g * s.h, s.f * s.g, s.h * s.e;
      Cong(c.a * (X * X) + Y * Y, Z * Z + c.d * (T * T), c.p)
  {
    var p, a, d, s := c.p, c.a, c.d, SumParts(c, P, Q);
    var z, t := P.Z * Q.Z, d * (P.T * Q.T);
    var k1, k2 := P.Z * P.T, Q.Z * Q.T;
    var w1, w2 := P.Z * P.Z + d * (P.T * P.T), Q.Z * Q.Z + d * (Q.T * Q.T);
    var v1, v2 := P.Y * P.Y - a * (P.X * P.X), Q.Y * Q.Y - a * (Q.X * Q.X);
    var ee, hh, eh := s.e * s.e, s.h * s.h, s.h * s.e;

    assert Cong(a * ee + hh, w1 * w2, p) by { NormSum(c, P, Q); }
    assert Cong(hh - a * ee, v1 * v2 - 4 * (a * (k1 * k2)), p) by { NormDifference(c, P, Q); }
    assert Cong(eh * eh, (k1 * k1) * (w2 * w2) + (k2 * k2) * (w1 * w1) +
        2 * ((k1 * k2) * (v1 * v2)) - 8 * (a * ((k1 * k1) * (k2 * k2))), p) by {
      CrossSquare(c, P, Q);
    }
    Combine(p, a, d, s.e, s.h, z, t, k1, k2, w1, w2, v1 * v2, P.Z, P.T, Q.Z, Q.T);
  }

  lemma Brahmagupta(a: int, x1: int, y1: int, x2: int, y2: int)
    ensures var e, h := x1 * y2 + y1 * x2, y1 * y2 - a * (x1 * x2);
      a * (e * e) + h * h == (a * (x1 * x1) + y1 * y1) * (a * (x2 * x2) + y2 * y2)
    ensures var e, h := x1 * y2 + y1 * x2, y1 * y2 - a * (x1 * x2);
      h * h - a * (e * e) == (y1 * y1 - a * (x1 * x1)) * (y2 * y2 - a * (x2 * x2)) - 4 * (a * ((x1 * y1) * (x2 * y2)))
  {
    var q, r1, r2, q1, q2 := (x1 * y1) * (x2 * y2), x1 * x1, x2 * x2, y1 * y1, y2 * y2;
    var e, h := x1 * y2 + y1 * x2, y1 * y2 - a * (x1 * x2);
    var s, t, u, v := a * (r1 * q2), a * (q1 * r2), q1 * q2, a * (a * (r1 * r2));
    assert a * (e * e) == s + t + 2 * (a * q) by {
      SquareOfSum(x1, y2, y1, x2);
      MulFour(x1, y1, x2, y2);
      SpreadThree(a, r1 * q2, q1 * r2, q);
    }
    assert h * h == u - 2 * (a * q) + v by {
      MulFour(y1, y2, x1, x2);
      ScaledDifference(a, y1 * y2, x1 * x2, q);
      Square4(y1, y2, x1, x2);
    }
    assert (a * r1 + q1) * (a * r2 + q2) == v + s + t + u by { Expand(a, r1, q1, r2, q2); }
    assert (q1 - a * r1) * (q2 - a * r2) == v - s - t + u by {
      Expand(-a, r1, q1, r2, q2);
      ScaleNegated(a, r1 * r2);
    }
  }

  lemma SpreadThree(a: int, x: int, y: int, z: int)
    ensures a * (x + y + 2 * z) == a * x + a * y + 2 * (a * z)
  {
  }

  lemma ScaleNegated(a: int, x: int)
    ensures (-a) * ((-a) * x) == a * (a * x)
  {
  }

  lemma Square4(a: int, b: int, c: int, d: int)
    ensures (a * b) * (a * b) == (a * a) * (b * b) && (c * d) * (c * d) == (c * c) * (d * d)
  {
    MulAssoc(a, b, a * b);
    MulAssoc(b, a, b);
    MulAssoc(a, a, b * b);
    MulAssoc(c, d, c * d);
    MulAssoc(d, c, d);
    MulAssoc(c, c, d * d);
  }

  lemma ScaledDifference(a: int, u: int, v: int, q: int)
    requires u * v == q
    ensures (u - a * v) * (u - a * v) == u * u - 2 * (a * q) + a * (a * (v * v))
  {
    var w := a * v;
    assert (u - w) * (u - w) == u * u - 2 * (u * w) + w * w;
    MulAssoc(a, v, w);
    MulAssoc(v, a, v);
    MulAssoc(u, a, v);
    assert u * w == a * (u * v);
  }

  lemma Expand(a: int, r1: int, q1: int, r2: int, q2: int)
    ensures (a * r1 + q1) * (a * r2 + q2) == a * (a * (r1 * r2)) + a * (r1 * q2) + a * (q1 * r2) + q1 * q2
  {
    Distribute(a * r1, q1, a * r2, q2);
    MulFour(a, r1, a, r2);
    MulAssoc(a, a, r1 * r2);
    MulAssoc(a, r1, q2);
    MulAssoc(q1, a, r2);
    MulAssoc(a, q1, r2);
  }

  lemma CrossProduct(a: int, x1: int, y1: int, x2: int, y2: int)
    ensures (y1 * y2 - a * (x1 * x2)) * (x1 * y2 + y1 * x2)
         == (x1 * y1) * (y2 * y2 - a * (x2 * x2)) + (x2 * y2) * (y1 * y1 - a * (x1 * x1))
  {
    var k1, k2 := x1 * y1, x2 * y2;
    var A, B, C, D := x1 * y2, y1 * x2, y1 * y2, a * (x1 * x2);
    assert C * A == k1 * (y2 * y2) by { MulFour(y1, y2, x1, y2); }
    assert C * B == k2 * (y1 * y1) by { MulFour(y1, y2, y1, x2); }
    assert D * A == k2 * (a * (x1 * x1)) by { ScaledFour(a, x1, x2, x1, y2); }
    assert D * B == k1 * (a * (x2 * x2)) by { ScaledFour(a, x2, x1, x2, y1); }
    Distribute(C, D, A, B);
    DifferenceOf(k1, y2 * y2, a * (x2 * x2));
    DifferenceOf(k2, y1 * y1, a * (x1 * x1));
  }

  lemma ScaledFour(a: int, x: int, y: int, u: int, v: int)
    ensures (a * (x * y)) * (u * v) == (y * v) * (a * (x * u)) == (a * (y * x)) * (v * u)
  {
    MulAssoc(a, x * y, u * v);
    MulFour(x, y, u, v);
    MulAssoc(y * v, a, x * u);
    MulAssoc(a, x * u, y * v);
  }

  lemma DifferenceOf(k: int, x: int, y: int)
    ensures k * (x - y) == k * x - k * y
  {
  }

  lemma NormSum(c: Curve, P: Extended, Q: Extended)
    requires CurveOk(c) && OnCurve(c, P) && OnCurve(c, Q)
    ensures var s := SumParts(c, P, Q);
      Cong(c.a * (s.e * s.e) + s.h * s.h, (P.Z * P.Z + c.d * (P.T * P.T)) * (Q.Z * Q.Z + c.d * (Q.T * Q.T)), c.p)
  {
    Brahmagupta(c.a, P.X, P.Y, Q.X, Q.Y);
    CongMul(c.a * (P.X * P.X) + P.Y * P.Y, P.Z * P.Z + c.d * (P.T * P.T),
            c.a * (Q.X * Q.X) + Q.Y * Q.Y, Q.Z * Q.Z + c.d * (Q.T * Q.T), c.p);
  }

  lemma NormDifference(c: Curve, P: Extended, Q: Extended)
    requires CurveOk(c) && OnCurve(c, P) && OnCurve(c, Q)
    ensures var s, v1, v2 := SumParts(c, P, Q), P.Y * P.Y - c.a * (P.X * P.X), Q.Y * Q.Y - c.a * (Q.X * Q.X);
      Cong(s.h * s.h - c.a * (s.e * s.e), v1 * v2 - 4 * (c.a * ((P.Z * P.T) * (Q.Z * Q.T))), c.p)
  {
    var v1, v2 := P.Y * P.Y - c.a * (P.X * P.X), Q.Y * Q.Y - c.a * (Q.X * Q.X);
    var q, k := (P.X * P.Y) * (Q.X * Q.Y), (P.Z * P.T) * (Q.Z * Q.T);
    Brahmagupta(c.a, P.X, P.Y, Q.X, Q.Y);
    CongMul(P.X * P.Y, P.Z * P.T, Q.X * Q.Y, Q.Z * Q.T, c.p);
    CongRefl(c.a, c.p);
    CongMul(c.a, c.a, q, k, c.p);
    CongRefl(4, c.p);
    CongMul(4, 4, c.a * q, c.a * k, c.p);
    CongRefl(v1 * v2, c.p);
    CongAdd(v1 * v2, v1 * v2, 4 * (c.a * q), 4 * (c.a * k), c.p);
  }

  /** The square of Y^2 - aX^2 in terms of Z and T. */
  lemma ConjugateSquare(c: Curve, P: Extended)
    requires CurveOk(c) && OnCurve(c, P)
    ensures var v, w, k := P.Y * P.Y - c.a * (P.X * P.X), P.Z * P.Z + c.d * (P.T * P.T), P.Z * P.T;
      Cong(v * v, w * w - 4 * (c.a * (k * k)), c.p)
  {
    var p, x2, y2, j, k := c.p, c.a * (P.X * P.X), P.Y * P.Y, P.X * P.Y, P.Z * P.T;
    var u, v, w := x2 + y2, y2 - x2, P.Z * P.Z + c.d * (P.T * P.T);
    assert x2 * y2 == c.a * (j * j) by {
      MulFour(P.X, P.Y, P.X, P.Y);
      MulAssoc(c.a, P.X * P.X, y2);
    }
    SumAndDifference(x2, y2);
    CongMul(u, w, u, w, p);
    CongMul(j, k, j, k, p);
    CongRefl(c.a, p);
    CongMul(c.a, c.a, j * j, k * k, p);
    CongRefl(4, p);
    CongMul(4, 4, c.a * (j * j), c.a * (k * k), p);
    CongAdd(u * u, w * w, 4 * (c.a * (j * j)), 4 * (c.a * (k * k)), p);
  }

  lemma SumAndDifference(x: int, y: int)
    ensures (y - x) * (y - x) == (x + y) * (x + y) - 4 * (x * y)
  {
  }

  lemma CrossSquare(c: Curve, P: Extended, Q: Extended)
    requires CurveOk(c) && OnCurve(c, P) && OnCurve(c, Q)
    ensures var s, v1, v2 := SumParts(c, P, Q), P.Y * P.Y - c.a * (P.X * P.X), Q.Y * Q.Y - c.a * (Q.X * Q.X);
      var k1, k2, w1, w2 := P.Z * P.T, Q.Z * Q.T, P.Z * P.Z + c.d * (P.T * P.T), Q.Z * Q.Z + c.d * (Q.T * Q.T);
      Cong((s.h * s.e) * (s.h * s.e),
           (k1 * k1) * (w2 * w2) + (k2 * k2) * (w1 * w1) + 2 * ((k1 * k2) * (v1 * v2)) -
               8 * (c.a * ((k1 * k1) * (k2 * k2))), c.p)
  {
    var p, s, v1, v2 := c.p, SumParts(c, P, Q), P.Y * P.Y - c.a * (P.X * P.X), Q.Y * Q.Y - c.a * (Q.X * Q.X);
    var k1, k2, w1, w2 := P.Z * P.T, Q.Z * Q.T, P.Z * P.Z + c.d * (P.T * P.T), Q.Z * Q.Z + c.d * (Q.T * Q.T);
    var eh, u := s.h * s.e, k1 * v2 + k2 * v1;
    CrossProduct(c.a, P.X, P.Y, Q.X, Q.Y);
    CongRefl(v1, p);
    CongRefl(v2, p);
    CongMul(P.X * P.Y, k1, v2, v2, p);
    CongMul(Q.X * Q.Y, k2, v1, v1, p);
    CongAdd((P.X * P.Y) * v2, k1 * v2, (Q.X * Q.Y) * v1, k2 * v1, p);
    CongMul(eh, u, eh, u, p);
    var r1, r2, m := k1 * k1, k2 * k2, 2 * ((k1 * k2) * (v1 * v2));
    assert u * u == r1 * (v2 * v2) + r2 * (v1 * v1) + m by { SquareOfSum(k1, v2, k2, v1); }
    ConjugateSquare(c, P);
    ConjugateSquare(c, Q);
    ReplaceSquares(p, c.a, r1, r2, v1 * v1, v2 * v2, w1 * w1, w2 * w2, m);
    CongTrans(eh * eh, u * u, r1 * (w2 * w2) + r2 * (w1 * w1) + m - 8 * (c.a * (r1 * r2)), p);
  }

  lemma ReplaceSquares(p: int, a: int, r1: int, r2: int, v1: int, v2: int, w1: int, w2: int, m: int)
    requires Cong(v1, w1 - 4 * (a * r1), p) && Cong(v2, w2 - 4 * (a * r2), p)
    ensures Cong(r1 * v2 + r2 * v1 + m, r1 * w2 + r2 * w1 + m - 8 * (a * (r1 * r2)), p)
  {
    CongRefl(r1, p);
    CongRefl(r2, p);
    CongRefl(m, p);
    var u1, u2 := w1 - 4 * (a * r1), w2 - 4 * (a * r2);
    CongMul(r1, r1, v2, u2, p);
    CongMul(r2, r2, v1, u1, p);
    CongAdd(r1 * v2, r1 * u2, r2 * v1, r2 * u1, p);
    CongAdd(r1 * v2 + r2 * v1, r1 * u2 + r2 * u1, m, m, p);
    MulAssoc(r1, a, r2);
    MulAssoc(a, r1, r2);
    MulAssoc(r2, a, r1);
    MulAssoc(a, r2, r1);
    SpreadTerm(r1, w2, a * r2);
    SpreadTerm(r2, w1, a * r1);
  }

  lemma SpreadTerm(r: int, w: int, x: int)
    ensures r * (w - 4 * x) == r * w - 4 * (r * x)
  {
  }

  lemma SquareOfSum(a: int, b: int, c: int, d: int)
    ensures (a * b + c * d) * (a * b + c * d) == (a * a) * (b * b) + (c * c) * (d * d) + 2 * ((a * c) * (d * b))
  {
    var u, v := a * b, c * d;
    assert (u + v) * (u + v) == u * u + v * v + 2 * (u * v);
    Square4(a, b, c, d);
    MulAssoc(a, b, c * d);
    MulAssoc(b, c, d);
    MulAssoc(a, c, d * b);
  }

  lemma Combine(p: int, a: int, d: int, e: int, h: int, z: int, t: int, k1: int, k2: int, w1: int, w2: int, v: int,
                z1: int, t1: int, z2: int, t2: int)
    requires p > 0 && z == z1 * z2 && t == d * (t1 * t2) && k1 == z1 * t1 && k2 == z2 * t2
    requires w1 == z1 * z1 + d * (t1 * t1) && w2 == z2 * z2 + d * (t2 * t2)
    requires Cong(a * (e * e) + h * h, w1 * w2, p)
    requires Cong(h * h - a * (e * e), v - 4 * (a * (k1 * k2)), p)
    requires Cong((h * e) * (h * e), (k1 * k1) * (w2 * w2) + (k2 * k2) * (w1 * w1) +
        2 * ((k1 * k2) * v) - 8 * (a * ((k1 * k1) * (k2 * k2))), p)
    ensures var X, Y, Z, T := e * (z - t), (z + t) * h, (z - t) * (z + t), h * e;
      Cong(a * (X * X) + Y * Y, Z * Z + d * (T * T), p)
  {
    var X, Y, Z, T := e * (z - t), (z + t) * h, (z - t) * (z + t), h * e;
    var s, r, q, k := a * (e * e) + h * h, h * h - a * (e * e), (h * e) * (h * e), k1 * k2;
    var n, m := z * z + t * t, z * t;
    var kw := (k1 * k1) * (w2 * w2) + (k2 * k2) * (w1 * w1);
    var q' := kw + 2 * (k * v) - 8 * (a * (k * k));
    assert (k1 * k1) * (k2 * k2) == k * k by { Square4(k1, k2, k1, k2); }
    LeftSide(a, e, h, z, t);
    assert m == d * k by {
      MulAssoc(d, t1 * t2, z1 * z2);
      MulFour(z1, z2, t1, t2);
    }
    var left, right := (w1 * w2) * n + 2 * (m * (v - 4 * (a * k))), Z * Z + d * q';
    CongRefl(n, p);
    CongRefl(m, p);
    CongRefl(2, p);
    CongMul(s, w1 * w2, n, n, p);
    CongMul(m, m, r, v - 4 * (a * k), p);
    CongMul(2, 2, m * r, m * (v - 4 * (a * k)), p);
    CongAdd(s * n, (w1 * w2) * n, 2 * (m * r), 2 * (m * (v - 4 * (a * k))), p);
    CongRefl(d, p);
    CongMul(d, d, q, q', p);
    CongRefl(Z * Z, p);
    CongAdd(Z * Z, Z * Z, d * q, d * q', p);
    Quartic(d, z1, t1, z2, t2);
    assert left == right by {
      Remainders(d, a, k, v, kw);
    }
    CongBoth(p, a * (X * X) + Y * Y, Z * Z + d * (T * T), right);
  }

  lemma Remainders(d: int, a: int, k: int, v: int, kw: int)
    ensures 2 * ((d * k) * (v - 4 * (a * k))) + d * kw == d * (kw + 2 * (k * v) - 8 * (a * (k * k)))
  {
    var x, y := k * v, a * (k * k);
    MulAssoc(d, k, v - 4 * (a * k));
    assert k * (v - 4 * (a * k)) == x - 4 * y by { MulAssoc(a, k, k); }
  }

  lemma LeftSide(a: int, e: int, h: int, z: int, t: int)
    ensures a * ((e * (z - t)) * (e * (z - t))) + ((z + t) * h) * ((z + t) * h)
         == (a * (e * e) + h * h) * (z * z + t * t) + 2 * ((z * t) * (h * h - a * (e * e)))
  {
    var f, g, ee, hh, n, m := z - t, z + t, e * e, h * h, z * z + t * t, z * t;
    Square4(e, f, g, h);
    Distribute(z, t, z, t);
    assert f * f == n - 2 * m && g * g == n + 2 * m;
    LeftTerms(a, ee, hh, n, m);
  }

  lemma LeftTerms(a: int, ee: int, hh: int, n: int, m: int)
    ensures a * (ee * (n - 2 * m)) + (n + 2 * m) * hh == (a * ee + hh) * n + 2 * (m * (hh - a * ee))
  {
    var x := a * ee;
    MulAssoc(a, ee, n - 2 * m);
    assert x * (n - 2 * m) == x * n - 2 * (x * m);
    assert (n + 2 * m) * hh == hh * n + 2 * (hh * m);
  }

  lemma Quartic(d: int, z1: int, t1: int, z2: int, t2: int)
    ensures var z, t, k1, k2 := z1 * z2, d * (t1 * t2), z1 * t1, z2 * t2;
      var w1, w2, Z := z1 * z1 + d * (t1 * t1), z2 * z2 + d * (t2 * t2), (z - t) * (z + t);
      (w1 * w2) * (z * z + t * t) == Z * Z + d * ((k1 * k1) * (w2 * w2) + (k2 * k2) * (w1 * w1))
  {
    var z, t := z1 * z2, d * (t1 * t2);
    var u, b, g, n := z1 * z1, d * (t1 * t1), z2 * z2, d * (t2 * t2);
    var w1, w2 := u + b, g + n;
    assert z * z == u * g by { Square4(z1, z2, z1, z2); }
    assert t * t == b * n by {
      Square4(d, t1 * t2, d, d);
      Square4(t1, t2, t1, t2);
      Square4(d, d, t1, t2);
      MulAssoc(d, t1 * t1, n);
      MulAssoc(t1 * t1, d, t2 * t2);
      MulAssoc(d, d, (t1 * t1) * (t2 * t2));
    }
    var Z := (z - t) * (z + t);
    assert Z == u * g - b * n by { assert Z == z * z - t * t; }
    assert d * ((z1 * t1) * (z1 * t1)) == u * b by {
      Square4(z1, t1, z1, t1);
      MulAssoc(u, d, t1 * t1);
    }
    assert d * ((z2 * t2) * (z2 * t2)) == g * n by {
      Square4(z2, t2, z2, t2);
      MulAssoc(g, d, t2 * t2);
    }
    MulAssoc(d, (z1 * t1) * (z1 * t1), w2 * w2);
    MulAssoc(d, (z2 * t2) * (z2 * t2), w1 * w1);
    QuarticForm(u, b, g, n);
  }

  lemma QuarticForm(u: int, b: int, g: int, n: int)
    ensures ((u + b) * (g + n)) * (u * g + b * n)
         == (u * g - b * n) * (u * g - b * n) + ((u * b) * ((g + n) * (g + n)) + (g * n) * ((u + b) * (u + b)))
  {
    var A, B := u * g, b * n;
    assert (u + b) * (g + n) == A + B + u * n + b * g;
    assert (A + B + u * n + b * g) * (A + B) == (A + B) * (A + B) + (u * n + b * g) * (A + B);
    assert (A + B) * (A + B) == (A - B) * (A - B) + 4 * (A * B);
    var C, D := u * b, g * n;
    assert A * B == C * D by { MulAssoc(u, g, b * n); MulAssoc(g, b, n); MulAssoc(u, b, g * n); }
    assert C * ((g + n) * (g + n)) == C * (g * g) + C * (n * n) + 2 * (C * D);
    assert D * ((u + b) * (u + b)) == D * (u * u) + D * (b * b) + 2 * (C * D);
    CrossTerms(u, b, g, n);
  }

  lemma CrossTerms(u: int, b: int, g: int, n: int)
    ensures (u * n + b * g) * (u * g + b * n) == (u * b) * (g * g) + (u * b) * (n * n) + (g * n) * (u * u) +
        (g * n) * (b * b)
  {
    Distribute(u * n, b * g, u * g, b * n);
    MulFour(u, n, u, g);
    MulFour(u, n, b, n);
    MulFour(b, g, u, g);
    MulFour(b, g, b, n);
  }
}
