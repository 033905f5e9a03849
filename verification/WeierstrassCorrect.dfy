/**
 The Jacobian operations against the chord-and-tangent law: what addition, doubling and the
 general addition stand for, and exactly when the general addition doubles correctly.
 */
module WeierstrassCorrect {
  import opened NumberTheory
  import opened Field
  import opened Weierstrass

  // ---------------------------------------------------------------- reading a triple as a point

  lemma ScaledIff(p: int, v: int, x: int, x': int, z: int, t: int)
    requires IsPrime(p) && !Cong(t, 0, p) && Cong(z, t, p) && Cong(v, x' * t, p)
    ensures Cong(v, x * z, p) <==> Cong(x, x', p)
  {
    CongRefl(x, p);
    CongMul(x, x, z, t, p);
    if Cong(v, x * z, p) {
      CongTrans(v, x * z, x * t, p);
      CongSym(v, x * t, p);
      CongTrans(x * t, v, x' * t, p);
      CancelRight(p, t, x, x');
    }
    if Cong(x, x', p) {
      CongRefl(t, p);
      CongMul(x, x', t, t, p);
      CongTrans(x * z, x * t, x' * t, p);
      CongBoth(p, v, x * z, x' * t);
    }
  }

  lemma PowersOfDenominator(p: int, z: int, t: int)
    requires IsPrime(p) && Cong(z, t, p)
    ensures Cong(z * z, t * t, p) && Cong(z * z * z, t * t * t, p)
    ensures !Cong(t, 0, p) ==> !Cong(t * t, 0, p) && !Cong(t * t * t, 0, p)
  {
    CongMul(z, t, z, t, p);
    CongMul(z * z, t * t, z, t, p);
    ProductZero(p, t, t);
    ProductZero(p, t * t, t);
  }

  /** A triple over the denominator t stands for exactly the point it was computed from. */
  lemma StandsIff(c: Curve, E: Jacobian, t: int, C: Affine, x: int, y: int)
    requires CurveOk(c) && PointOk(c, E) && C.At? && Cong(E.Z, t, c.p) && !Cong(t, 0, c.p)
    requires Cong(E.X, x * (t * t), c.p) && Cong(E.Y, y * (t * t * t), c.p)
    ensures Stands(c, E, C) <==> Cong(C.x, x, c.p) && Cong(C.y, y, c.p)
  {
    PowersOfDenominator(c.p, E.Z, t);
    ScaledIff(c.p, E.X, C.x, x, E.Z * E.Z, t * t);
    ScaledIff(c.p, E.Y, C.y, y, E.Z * E.Z * E.Z, t * t * t);
    CongZeroIff(c.p, E.Z, t);
    ZeroIff(c.p, E.Z);
  }

  /** Every valid triple with Z not zero stands for one affine point, and that point is on
      the curve exactly when the code's own check passes. */
  lemma EveryPointStands(c: Curve, P: Jacobian) returns (A: Affine)
    requires CurveOk(c) && PointOk(c, P)
    ensures AffineOk(c, A) && Stands(c, P, A)
    ensures forall A' :: AffineOk(c, A') && Stands(c, P, A') ==> A' == A
    ensures A.At? ==> (PointValid(c, P) <==> OnCurve(c, A))
  {
    var p := c.p;
    if P.Z == 0 {
      A := Infinity;
    } else {
      ZeroIff(p, P.Z);
      CongRefl(P.Z, p);
      PowersOfDenominator(p, P.Z, P.Z);
      var x := Quotient(p, P.Z * P.Z, P.X);
      var y := Quotient(p, P.Z * P.Z * P.Z, P.Y);
      A := At(x, y);
      CongSym(x * (P.Z * P.Z), P.X, p);
      CongSym(y * (P.Z * P.Z * P.Z), P.Y, p);
      forall A' | AffineOk(c, A') && Stands(c, P, A')
        ensures A' == A
      {
        StandsIff(c, P, P.Z, A', x, y);
        ResidueUnique(p, A'.x, x);
        ResidueUnique(p, A'.y, y);
      }
      ValidIffOnCurve(c, P, A);
    }
  }

  lemma ValidIffOnCurve(c: Curve, P: Jacobian, A: Affine)
    requires CurveOk(c) && PointOk(c, P) && A.At? && Stands(c, P, A)
    ensures PointValid(c, P) <==> OnCurve(c, A)
  {
    var p, x, y, z := c.p, A.x, A.y, P.Z;
    var z2 := z * z;
    var z6 := z2 * (z2 * z2);
    CongRefl(z, p);
    CongRefl(c.a, p);
    CongRefl(c.b, p);
    MulCong(p, P.Y, y * (z2 * z), P.Y, y * (z2 * z));
    MulCong(p, P.X, x * z2, P.X, x * z2);
    MulCong(p, Mul(p, P.X, P.X), (x * z2) * (x * z2), P.X, x * z2);
    MulCong(p, z, z, z, z);
    var rz2 := Mul(p, z, z);
    MulCong(p, rz2, z2, rz2, z2);
    var rz4 := Mul(p, rz2, rz2);
    MulCong(p, c.a, c.a, rz4, z2 * z2);
    MulCong(p, Mul(p, c.a, rz4), c.a * (z2 * z2), P.X, x * z2);
    AddCong(p, Mul(p, Mul(p, P.X, P.X), P.X), (x * z2) * (x * z2) * (x * z2), Mul(p, Mul(p, c.a, rz4), P.X),
        (c.a * (z2 * z2)) * (x * z2));
    MulCong(p, rz2, z2, rz4, z2 * z2);
    MulCong(p, c.b, c.b, Mul(p, rz2, rz4), z6);
    AddCong(p, Add(p, Mul(p, Mul(p, P.X, P.X), P.X), Mul(p, Mul(p, c.a, rz4), P.X)),
        (x * z2) * (x * z2) * (x * z2) + (c.a * (z2 * z2)) * (x * z2),
      Mul(p, c.b, Mul(p, rz2, rz4)), c.b * z6);
    ProjectiveEquation(x, y, z, z2, c.a, c.b);
    var lhs, rhs := Mul(p, P.Y, P.Y),
      Add(p, Add(p, Mul(p, Mul(p, P.X, P.X), P.X), Mul(p, Mul(p, c.a, rz4), P.X)), Mul(p, c.b, Mul(p, rz2, rz4)));
    assert PointValid(c, P) <==> lhs == rhs;
    var l, r := y * y, x * x * x + c.a * x + c.b;
    PowersOfDenominator(p, z, z);
    ZeroIff(p, z);
    ProductZero(p, z2, z2);
    ProductZero(p, z2, z2 * z2);
    SidesAgree(p, lhs, rhs, l, r, z6);
  }

  /** With Z = 0 the curve's constants drop out: the check accepts (t^2, t^3, 0) and only that
      kind of triple, not just the triple of zeros. */
  lemma ValidAtInfinity(c: Curve, P: Jacobian)
    requires CurveOk(c) && PointOk(c, P) && P.Z == 0
    ensures PointValid(c, P) <==> Cong(P.Y * P.Y, P.X * P.X * P.X, c.p)
  {
    var p, x, y := c.p, P.X, P.Y;
    ModUnique(0, p, 0, 0);
    CongRefl(x, p);
    CongRefl(y, p);
    MulCong(p, y, y, y, y);
    MulCong(p, x, x, x, x);
    MulCong(p, Mul(p, x, x), x * x, x, x);
    var lhs, x3 := Mul(p, y, y), Mul(p, Mul(p, x, x), x);
    ModUnique(x3, p, 0, x3);
    assert PointValid(c, P) <==> lhs == x3;
    if lhs == x3 {
      CongSym(lhs, y * y, p);
      CongTrans(y * y, x3, x * x * x, p);
    }
    if Cong(y * y, x * x * x, p) {
      SameResidue(p, lhs, x3, y * y, x * x * x);
    }
  }

  /** A curve for examples. */
  const SEVEN := Curve(7, 1, 6)

  lemma SevenOk()
    ensures CurveOk(SEVEN)
  {
    forall d: int | 1 < d < 7
      ensures !Divides(d, 7)
    {
      ModZero(7, d);
      if d == 2 {} else if d == 3 {} else if d == 4 {} else if d == 5 {} else {}
    }
  }

  /** Two triples that are accepted though they are not all zeros. */
  lemma StrangeInfinities()
    ensures CurveOk(SEVEN) && PointValid(SEVEN, Jacobian(1, 1, 0)) && PointValid(SEVEN, Jacobian(4, 1, 0))
  {
    hide PointValid;
    SevenOk();
    CongIntro(1 * 1, 1 * 1 * 1, 7, 0);
    CongIntro(1 * 1, 4 * 4 * 4, 7, -9);
    ValidAtInfinity(SEVEN, Jacobian(1, 1, 0));
    ValidAtInfinity(SEVEN, Jacobian(4, 1, 0));
  }

  lemma SidesAgree(p: int, lhs: int, rhs: int, l: int, r: int, z: int)
    requires IsPrime(p) && Residue(p, lhs) && Residue(p, rhs) && !Cong(z, 0, p)
    requires Cong(lhs, l * z, p) && Cong(rhs, r * z, p)
    ensures lhs == rhs <==> Cong(l, r, p)
  {
    if lhs == rhs {
      CongSym(lhs, l * z, p);
      CongTrans(l * z, lhs, r * z, p);
      CancelRight(p, z, l, r);
    }
    if Cong(l, r, p) {
      CongRefl(z, p);
      CongMul(l, r, z, z, p);
      SameResidue(p, lhs, rhs, l * z, r * z);
    }
  }

  lemma ProjectiveEquation(x: int, y: int, z: int, w: int, a: int, b: int)
    requires w == z * z
    ensures var u := w * (w * w);
      && (y * (w * z)) * (y * (w * z)) == (y * y) * u
      && (x * w) * (x * w) * (x * w) + (a * (w * w)) * (x * w) + b * u == (x * x * x + a * x + b) * u
  {
    var u := w * (w * w);
    assert (w * z) * (w * z) == u by {
      MulAssoc(w, z, w * z);
      MulAssoc(z, w, z);
    }
    var v := w * z;
    assert (y * v) * (y * v) == (y * y) * (v * v) by {
      MulAssoc(y, v, y * v);
      MulAssoc(v, y, v);
      MulAssoc(y, y, v * v);
    }
    assert (x * w) * (x * w) * (x * w) == (x * x * x) * u by {
      CommonFactor(x, w);
    }
    assert (a * (w * w)) * (x * w) == (a * x) * u by {
      MulAssoc(a, w * w, x * w);
      MulAssoc(w * w, x, w);
      MulAssoc(a, x, u);
    }
    assert (x * x * x + a * x + b) * u == (x * x * x) * u + (a * x) * u + b * u;
  }

  lemma CommonFactor(x: int, w: int)
    ensures (x * w) * (x * w) * (x * w) == (x * x * x) * (w * (w * w))
  {
    ScaledCube(x, w);
  }

  // ---------------------------------------------------------------- addition of different points

  lemma ProductOfDenominators(c: Curve, P: Jacobian, Q: Jacobian)
    requires CurveOk(c) && PointOk(c, P) && PointOk(c, Q) && P.Z != 0 && Q.Z != 0
    ensures !Cong(P.Z * Q.Z, 0, c.p)
  {
    ZeroIff(c.p, P.Z);
    ZeroIff(c.p, Q.Z);
    ProductZero(c.p, P.Z, Q.Z);
  }

  /** The slope's numerator and denominator vanish exactly when the y and the x agree. */
  lemma SlopeZero(c: Curve, P: Jacobian, Q: Jacobian, A: Affine, B: Affine)
    requires CurveOk(c) && PointOk(c, P) && PointOk(c, Q) && A.At? && B.At? && AffineOk(c, A) && AffineOk(c, B)
    requires Stands(c, P, A) && Stands(c, Q, B)
    ensures var s := AddPrologue(c, P, Q).slope; (s.d == 0 <==> A.x == B.x) && (s.n == 0 <==> A.y == B.y)
  {
    var s, w := AddPrologue(c, P, Q).slope, P.Z * Q.Z;
    PrologueStands(c, P, Q, A, B);
    ProductOfDenominators(c, P, Q);
    CongRefl(w, c.p);
    PowersOfDenominator(c.p, w, w);
    DifferenceZero(c.p, s.d, A.x, B.x, w * w);
    DifferenceZero(c.p, s.n, A.y, B.y, w * w * w);
  }

  lemma DifferenceZero(p: int, v: int, x: int, y: int, w: int)
    requires IsPrime(p) && Residue(p, v) && Residue(p, x) && Residue(p, y) && !Cong(w, 0, p)
    requires Cong(v, (y - x) * w, p)
    ensures v == 0 <==> x == y
  {
    ZeroIff(p, v);
    CongZeroIff(p, v, (y - x) * w);
    ProductZero(p, y - x, w);
    if x == y { CongRefl(0, p); }
    if Cong(y - x, 0, p) { ResidueUnique(p, y, x); }
  }

  /** With different x, the common epilogue on the chord gives the sum. */
  lemma ChordEpilogue(c: Curve, P: Jacobian, Q: Jacobian, A: Affine, B: Affine, C: Affine, m: int)
    requires CurveOk(c) && PointOk(c, P) && PointOk(c, Q) && A.At? && B.At? && C.At? && AffineOk(c, A) && AffineOk(c, B)
    requires Stands(c, P, A) && Stands(c, Q, B) && A.x != B.x && Chord(c, A, B, m)
    requires Cong(C.x, ThirdX(A, B, m), c.p) && Cong(C.y, ThirdY(A, B, m), c.p)
    ensures var g := AddPrologue(c, P, Q); Stands(c, Epilogue(c, g.px, g.qx, g.py, g.denom, g.slope), C)
  {
    var g, w := AddPrologue(c, P, Q), P.Z * Q.Z;
    PrologueStands(c, P, Q, A, B);
    SlopeZero(c, P, Q, A, B);
    ProductOfDenominators(c, P, Q);
    ChordOverDenominator(c.p, g.slope, A.x, A.y, B.x, B.y, w, m);
    EpilogueStands(c, g.px, g.qx, g.py, g.denom, g.slope, A, B, w, m);
    ZeroIff(c.p, g.slope.d);
    ProductZero(c.p, w, g.slope.d);
    StandsIff(c, Epilogue(c, g.px, g.qx, g.py, g.denom, g.slope), w * g.slope.d, C, ThirdX(A, B, m), ThirdY(A, B, m));
  }

  lemma ChordOverDenominator(p: int, s: Slope, x1: int, y1: int, x2: int, y2: int, w: int, m: int)
    requires Cong(s.n, (y2 - y1) * (w * w * w), p)
    requires Cong(s.d, (x2 - x1) * (w * w), p) && Cong(m * (x2 - x1), y2 - y1, p)
    ensures Cong(s.n, m * (w * s.d), p)
  {
    var d, w2 := x2 - x1, w * w;
    CongRefl(w, p);
    CongRefl(m, p);
    CongRefl(w2 * w, p);
    CongMul(w, w, s.d, d * w2, p);
    CongMul(m, m, w * s.d, w * (d * w2), p);
    MulAssoc(w, d, w2);
    MulAssoc(m, d, w * w2);
    CongMul(m * d, y2 - y1, w2 * w, w2 * w, p);
    CongTrans(m * (w * s.d), (m * d) * (w2 * w), (y2 - y1) * (w2 * w), p);
    CongBoth(p, s.n, m * (w * s.d), (y2 - y1) * (w2 * w));
  }

  /** With a zero slope denominator the epilogue gives Z = 0. */
  lemma ZeroDenominator(c: Curve, px: int, qx: int, py: int, denom: int, s: Slope)
    requires CurveOk(c) && s.d == 0
    ensures Epilogue(c, px, qx, py, denom, s).Z == 0
  {
    ModUnique(0, c.p, 0, 0);
  }

  /** Addition of two finite points whose y differ over the common denominator: right also
      for P + (-P), where the code's comment says it must not be called. */
  lemma PointAddCorrect(c: Curve, P: Jacobian, Q: Jacobian, A: Affine, B: Affine) returns (C: Affine)
    requires CurveOk(c) && PointOk(c, P) && PointOk(c, Q) && A.At? && B.At? && AffineOk(c, A) && AffineOk(c, B)
    requires OnCurve(c, A) && OnCurve(c, B) && Stands(c, P, A) && Stands(c, Q, B)
    requires AddPrologue(c, P, Q).slope.n != 0
    ensures IsSum(c, A, B, C) && AffineOk(c, C) && OnCurve(c, C) && Stands(c, PointAdd(c, P, Q), C)
  {
    SlopeZero(c, P, Q, A, B);
    var m;
    C, m := SumExists(c, A, B);
    SumOnCurve(c, A, B, C);
    var g := AddPrologue(c, P, Q);
    if A.x == B.x {
      SameXSameY(c, A, B);
      ZeroDenominator(c, g.px, g.qx, g.py, g.denom, g.slope);
    } else {
      ChordEpilogue(c, P, Q, A, B, C, m);
    }
  }

  // ---------------------------------------------------------------- doubling

  lemma DoubleY(c: Curve, A: Affine)
    requires CurveOk(c) && A.At? && AffineOk(c, A)
    ensures Cong(2 * A.y, 0, c.p) <==> A.y == 0
    ensures A.y + A.y == 2 * A.y
  {
    ProductZero(c.p, 2, A.y);
    if Divides(c.p, 2) { DividesUpTo(c.p, 2); }
    ZeroIff(c.p, A.y);
  }

  /** The tangent slope's denominator vanishes exactly when y does. */
  lemma TangentZero(c: Curve, P: Jacobian, A: Affine)
    requires CurveOk(c) && PointOk(c, P) && A.At? && AffineOk(c, A) && Stands(c, P, A)
    ensures TangentSlope(c, P).d == 0 <==> A.y == 0
    ensures P.Y == 0 <==> A.y == 0
  {
    var p, z3 := c.p, P.Z * P.Z * P.Z;
    CongRefl(P.Z, p);
    PowersOfDenominator(p, P.Z, P.Z);
    ZeroIff(p, P.Z);
    ZeroIff(p, P.Y);
    CongZeroIff(p, P.Y, A.y * z3);
    ProductZero(p, A.y, z3);
    ZeroIff(p, A.y);
    AddCong(p, P.Y, A.y * z3, P.Y, A.y * z3);
    Twice(A.y, z3);
    var d := TangentSlope(c, P).d;
    ZeroIff(p, d);
    CongZeroIff(p, d, (2 * A.y) * z3);
    ProductZero(p, 2 * A.y, z3);
    DoubleY(c, A);
  }

  /** Doubling gives the sum of the point with itself, infinity included. */
  lemma DoubleCorrect(c: Curve, P: Jacobian, A: Affine) returns (C: Affine)
    requires CurveOk(c) && PointOk(c, P) && AffineOk(c, A) && OnCurve(c, A) && Stands(c, P, A)
    ensures IsSum(c, A, A, C) && AffineOk(c, C) && OnCurve(c, C) && Stands(c, Double(c, P), C)
  {
    var m;
    C, m := SumExists(c, A, A);
    SumOnCurve(c, A, A, C);
    var s := TangentSlope(c, P);
    if A.Infinity? {
      assert Double(c, P).Z == Mul(c.p, 0, s.d) == 0 by { ModUnique(0, c.p, 0, 0); }
    } else {
      DoubleY(c, A);
      TangentZero(c, P, A);
      if A.y == 0 {
        CongRefl(0, c.p);
        ZeroDenominator(c, P.X, P.X, P.Y, P.Z, s);
      } else {
        TangentStands(c, P, A, m);
        CongRefl(P.Z, c.p);
        EpilogueStands(c, P.X, P.X, P.Y, P.Z, s, A, A, P.Z, m);
        ZeroIff(c.p, s.d);
        ZeroIff(c.p, P.Z);
        ProductZero(c.p, P.Z, s.d);
        StandsIff(c, Double(c, P), P.Z * s.d, C, ThirdX(A, A, m), ThirdY(A, A, m));
      }
    }
  }

  // ---------------------------------------------------------------- general addition

  /** When the general addition of a point to itself comes out right: the tangent slope of P
      is used over the product of both denominators, so Q must have Z = 1, unless the slope
      is zero or vertical, or Q has Z = -1 and the point is one of order three. */
  ghost predicate DoublesRightly(c: Curve, P: Jacobian, Q: Jacobian)
    requires c.p > 0
  {
    var s := TangentSlope(c, P);
    || Q.Z == 1
    || P.Y == 0
    || s.n == 0
    || (Q.Z == c.p - 1 && Cong(s.n * s.n, (3 * P.X) * (s.d * s.d), c.p))
  }

  /** The general addition of any two points of the curve is their sum, if and only if they
      are not one finite point doubled in a way DoublesRightly excludes. */
  lemma AddGeneralCorrect(c: Curve, P: Jacobian, Q: Jacobian, A: Affine, B: Affine) returns (C: Affine)
    requires CurveOk(c) && PointOk(c, P) && PointOk(c, Q) && AffineOk(c, A) && AffineOk(c, B)
    requires OnCurve(c, A) && OnCurve(c, B) && Stands(c, P, A) && Stands(c, Q, B)
    ensures IsSum(c, A, B, C) && AffineOk(c, C) && OnCurve(c, C)
    ensures Stands(c, AddGeneral(c, P, Q), C) <==> (A.At? && A == B ==> DoublesRightly(c, P, Q))
    ensures C.Infinity? ==> AddGeneral(c, P, Q) == IDENTITY
    ensures A.Infinity? && B.At? ==> AddGeneral(c, P, Q) == Q
    ensures B.Infinity? && A.At? ==> AddGeneral(c, P, Q) == P
  {
    var m;
    C, m := SumExists(c, A, B);
    SumOnCurve(c, A, B, C);
    if A.At? && B.At? {
      SlopeZero(c, P, Q, A, B);
      if A.x != B.x {
        ChordEpilogue(c, P, Q, A, B, C, m);
      } else if A.y != B.y {
        SameXSameY(c, A, B);
        var g := AddPrologue(c, P, Q);
        ZeroDenominator(c, g.px, g.qx, g.py, g.denom, g.slope);
      } else {
        AddToItself(c, P, Q, A, C, m);
      }
    }
  }

  lemma AddToItself(c: Curve, P: Jacobian, Q: Jacobian, A: Affine, C: Affine, m: int)
    requires CurveOk(c) && PointOk(c, P) && PointOk(c, Q) && A.At? && AffineOk(c, A) && AffineOk(c, C)
    requires OnCurve(c, A) && Stands(c, P, A) && Stands(c, Q, A) && IsSum(c, A, A, C)
    requires C.At? ==> Tangent(c, A, m) && Cong(C.x, ThirdX(A, A, m), c.p) && Cong(C.y, ThirdY(A, A, m), c.p)
    ensures Stands(c, AddGeneral(c, P, Q), C) <==> DoublesRightly(c, P, Q)
    ensures C.Infinity? ==> AddGeneral(c, P, Q) == IDENTITY
  {
    var g, s := AddPrologue(c, P, Q), TangentSlope(c, P);
    SlopeZero(c, P, Q, A, A);
    TangentZero(c, P, A);
    DoubleY(c, A);
    if A.y == 0 {
      CongRefl(0, c.p);
      ZeroDenominator(c, g.px, g.qx, g.py, g.denom, s);
    } else {
      TangentBranch(c, P, Q, A, C, m);
    }
  }

  lemma TangentBranch(c: Curve, P: Jacobian, Q: Jacobian, A: Affine, C: Affine, m: int)
    requires CurveOk(c) && PointOk(c, P) && PointOk(c, Q) && A.At? && AffineOk(c, A) && C.At? && A.y != 0
    requires Stands(c, P, A) && Stands(c, Q, A) && Tangent(c, A, m)
    requires Cong(C.x, ThirdX(A, A, m), c.p) && Cong(C.y, ThirdY(A, A, m), c.p)
    ensures Stands(c, AddGeneral(c, P, Q), C) <==> DoublesRightly(c, P, Q)
  {
    var p, g, s, w := c.p, AddPrologue(c, P, Q), TangentSlope(c, P), P.Z * Q.Z;
    SlopeZero(c, P, Q, A, A);
    TangentZero(c, P, A);
    ZeroIff(p, P.Z);
    ZeroIff(p, Q.Z);
    ZeroIff(p, s.d);
    var u := PrimeInverse(p, Q.Z);
    TangentStands(c, P, A, m);
    PrologueStands(c, P, Q, A, A);
    SlopeOverBoth(p, s.n, m, u, P.Z, Q.Z, s.d);
    var E := Epilogue(c, g.px, g.qx, g.py, g.denom, s);
    EpilogueStands(c, g.px, g.qx, g.py, g.denom, s, A, A, w, m * u);
    ProductZero(p, P.Z, Q.Z);
    ProductZero(p, w, s.d);
    StandsIff(c, E, w * s.d, C, ThirdX(A, A, m * u), ThirdY(A, A, m * u));
    CongZeroIff(p, E.Z, w * s.d);
    ZeroIff(p, E.Z);
    assert AddGeneral(c, P, Q) == E;
    ThirdAgreement(p, A, C, m, u);
    ConditionInCoordinates(c, P, Q, A, m, u);
  }

  lemma SlopeOverBoth(p: int, n: int, m: int, u: int, z1: int, z2: int, d: int)
    requires Cong(n, m * (z1 * d), p) && Cong(z2 * u, 1, p)
    ensures Cong(n, (m * u) * ((z1 * z2) * d), p)
  {
    var k := m * (z1 * d);
    CongRefl(k, p);
    CongMul(k, k, z2 * u, 1, p);
    assert k * (z2 * u) == (m * u) * ((z1 * z2) * d) by {
      MulAssoc(m, z1 * d, z2 * u);
      MulAssoc(m, u, (z1 * z2) * d);
      Shuffle(z1, d, z2, u);
    }
    CongBoth(p, n, (m * u) * ((z1 * z2) * d), k);
  }

  lemma Shuffle(a: int, b: int, c: int, d: int)
    ensures (a * b) * (c * d) == d * ((a * c) * b)
  {
    MulAssoc(a, b, c * d);
    MulAssoc(a, c, b);
    MulAssoc(b, c, d);
    MulAssoc(c, b, d);
    MulAssoc(d, a, c * b);
  }

  /** Slopes m and m * u meet the curve at the same third point, in the sense the law needs,
      exactly when u is 1, or m is 0, or u is -1 and the third point has the x of the first. */
  lemma ThirdAgreement(p: int, A: Affine, C: Affine, m: int, u: int)
    requires IsPrime(p) && p > 2 && A.At? && C.At?
    requires Cong(C.x, ThirdX(A, A, m), p) && Cong(C.y, ThirdY(A, A, m), p)
    ensures (Cong(C.x, ThirdX(A, A, m * u), p) && Cong(C.y, ThirdY(A, A, m * u), p)) <==>
      (Cong(m, 0, p) || Cong(u, 1, p) || (Cong(u, -1, p) && Cong(m * m, 3 * A.x, p)))
  {
    var n, x := m * u, A.x;
    // both conditions in terms of the slopes alone
    SameSide(p, C.x, ThirdX(A, A, m), ThirdX(A, A, n));
    SameSide(p, C.y, ThirdY(A, A, m), ThirdY(A, A, n));
    var fm, fn := m * (x - ThirdX(A, A, m)), n * (x - ThirdX(A, A, n));
    assert ThirdX(A, A, m) - ThirdX(A, A, n) == m * m - n * n;
    assert ThirdY(A, A, m) - ThirdY(A, A, n) == fm - fn;
    assert x - ThirdX(A, A, m) == 3 * x - m * m && x - ThirdX(A, A, n) == 3 * x - n * n;
    SlopeAgreement(p, m, u, x);
  }

  lemma SameSide(p: int, v: int, a: int, b: int)
    requires Cong(v, a, p)
    ensures Cong(v, b, p) <==> Cong(a, b, p)
  {
    CongSym(v, a, p);
    if Cong(v, b, p) { CongTrans(a, v, b, p); }
    if Cong(a, b, p) { CongTrans(v, a, b, p); }
  }

  lemma SlopeAgreement(p: int, m: int, u: int, x: int)
    requires IsPrime(p) && p > 2
    ensures var n := m * u;
      (Cong(m * m, n * n, p) && Cong(m * (3 * x - m * m), n * (3 * x - n * n), p)) <==>
      (Cong(m, 0, p) || Cong(u, 1, p) || (Cong(u, -1, p) && Cong(m * m, 3 * x, p)))
  {
    var n := m * u;
    if Cong(m, 0, p) {
      ProductZero(p, m, u);
      BothZero(p, m, n, 3 * x);
    } else if Cong(u, 1, p) {
      CongRefl(m, p);
      CongMul(m, m, u, 1, p);
      CongSym(n, m, p);
      SlopeTerms(p, m, n, 3 * x);
    } else {
      if Cong(u, -1, p) && Cong(m * m, 3 * x, p) {
        OrderThree(p, m, u, x);
      }
      if Cong(m * m, n * n, p) && Cong(m * (3 * x - m * m), n * (3 * x - n * n), p) {
        SquaresAgree(p, m, u);
        NegatedSlope(p, m, u, x);
      }
    }
  }

  lemma SlopeTerms(p: int, m: int, n: int, v: int)
    requires Cong(m, n, p)
    ensures Cong(m * m, n * n, p) && Cong(m * (v - m * m), n * (v - n * n), p)
  {
    CongMul(m, n, m, n, p);
    CongRefl(v, p);
    CongAdd(v, v, m * m, n * n, p);
    CongMul(m, n, v - m * m, v - n * n, p);
  }

  lemma BothZero(p: int, m: int, n: int, v: int)
    requires Cong(m, 0, p) && Cong(n, 0, p)
    ensures Cong(m * m, n * n, p) && Cong(m * (v - m * m), n * (v - n * n), p)
  {
    CongBoth(p, m, n, 0);
    SlopeTerms(p, m, n, v);
  }

  lemma OrderThree(p: int, m: int, u: int, x: int)
    requires Cong(u, -1, p) && Cong(m * m, 3 * x, p)
    ensures var n := m * u; Cong(m * m, n * n, p) && Cong(m * (3 * x - m * m), n * (3 * x - n * n), p)
  {
    var n := m * u;
    CongRefl(m, p);
    CongMul(m, m, u, -1, p);
    CongMul(n, -m, n, -m, p);
    assert (-m) * (-m) == m * m;
    CongSym(n * n, m * m, p);
    CongTrans(n * n, m * m, 3 * x, p);
    CongSym(m * m, 3 * x, p);
    CongSym(n * n, 3 * x, p);
    DividesMul(p, 3 * x - m * m, m);
    DividesMul(p, 3 * x - n * n, n);
    CongBoth(p, m * (3 * x - m * m), n * (3 * x - n * n), 0);
  }

  lemma SquaresAgree(p: int, m: int, u: int)
    requires IsPrime(p) && !Cong(m, 0, p) && !Cong(u, 1, p) && Cong(m * m, (m * u) * (m * u), p)
    ensures Cong(u, -1, p)
  {
    SquaresFactor(m, u);
    ProductZero(p, m, m);
    PrimeDividesProduct(p, m * m, (1 - u) * (1 + u));
    PrimeDividesProduct(p, 1 - u, 1 + u);
    if Divides(p, 1 - u) { CongSym(1, u, p); }
  }

  lemma SquaresFactor(m: int, u: int)
    ensures m * m - (m * u) * (m * u) == (m * m) * ((1 - u) * (1 + u))
  {
    ScaledSquare(m, u);
    var s := m * m;
    assert (1 - u) * (1 + u) == 1 - u * u;
  }

  lemma NegatedSlope(p: int, m: int, u: int, x: int)
    requires IsPrime(p) && p > 2 && !Cong(m, 0, p) && Cong(u, -1, p) && Cong(m * m, (m * u) * (m * u), p)
    requires Cong(m * (3 * x - m * m), (m * u) * (3 * x - (m * u) * (m * u)), p)
    ensures Cong(m * m, 3 * x, p)
  {
    var n, v := m * u, 3 * x - m * m;
    CongRefl(m, p);
    CongMul(m, m, u, -1, p);
    CongSym(m * m, n * n, p);
    CongRefl(3 * x, p);
    CongAdd(3 * x, 3 * x, n * n, m * m, p);
    CongMul(n, -m, 3 * x - n * n, v, p);
    CongTrans(m * v, n * (3 * x - n * n), (-m) * v, p);
    assert m * v - (-m) * v == 2 * (m * v);
    PrimeDividesProduct(p, 2, m * v);
    if Divides(p, 2) { DividesUpTo(p, 2); }
    PrimeDividesProduct(p, m, v);
    CongSym(3 * x, m * m, p);
  }

  lemma ConditionInCoordinates(c: Curve, P: Jacobian, Q: Jacobian, A: Affine, m: int, u: int)
    requires CurveOk(c) && PointOk(c, P) && PointOk(c, Q) && A.At? && AffineOk(c, A) && A.y != 0
    requires Stands(c, P, A) && Stands(c, Q, A) && Tangent(c, A, m) && Cong(Q.Z * u, 1, c.p)
    ensures DoublesRightly(c, P, Q) <==>
      Cong(m, 0, c.p) || Cong(u, 1, c.p) || (Cong(u, -1, c.p) && Cong(m * m, 3 * A.x, c.p))
  {
    var p, s, k := c.p, TangentSlope(c, P), P.Z * TangentSlope(c, P).d;
    TangentStands(c, P, A, m);
    TangentZero(c, P, A);
    ZeroIff(p, P.Z);
    ZeroIff(p, s.d);
    ProductZero(p, P.Z, s.d);
    // the numerator
    ZeroIff(p, s.n);
    CongZeroIff(p, s.n, m * k);
    ProductZero(p, m, k);
    // the other denominator
    InverseOfUnit(p, Q.Z, u, 1);
    InverseOfUnit(p, Q.Z, u, p - 1);
    MinusOne(p, u);
    // the third x
    CongMul(s.n, m * k, s.n, m * k, p);
    SquareOverDenominator(p, s.n * s.n, P.X, A.x, m, k, P.Z, s.d);
  }

  lemma MinusOne(p: int, u: int)
    ensures Cong(u, p - 1, p) <==> Cong(u, -1, p)
  {
    CongIntro(p - 1, -1, p, 1);
    if Cong(u, p - 1, p) { CongTrans(u, p - 1, -1, p); }
    if Cong(u, -1, p) { CongTrans(u, -1, p - 1, p); }
  }

  /** For v = 1 and v = -1, which are their own inverses. */
  lemma InverseOfUnit(p: int, z: int, u: int, v: int)
    requires IsPrime(p) && Residue(p, z) && Cong(z * u, 1, p) && (v == 1 || v == p - 1)
    ensures z == v <==> Cong(u, v, p)
  {
    assert v * v == 1 + p * (if v == 1 then 0 else p - 2) by {
      if v == p - 1 { assert (p - 1) * (p - 1) == 1 + p * (p - 2); }
    }
    CongIntro(v * v, 1, p, if v == 1 then 0 else p - 2);
    CongBoth(p, z * u, v * v, 1);
    if Divides(p, v) {
      CongZeroIff(p, v * v, 1);
      ProductZero(p, v, v);
      DividesUpTo(p, 1);
    }
    if z == v {
      Cancel(p, v, u, v);
    }
    if Cong(u, v, p) {
      CongRefl(z, p);
      CongMul(z, z, u, v, p);
      CongSym(z * u, z * v, p);
      CongTrans(z * v, z * u, v * v, p);
      CancelRight(p, v, z, v);
      ResidueUnique(p, z, v);
    }
  }

  lemma SquareOverDenominator(p: int, n2: int, X: int, x: int, m: int, k: int, z: int, d: int)
    requires IsPrime(p) && k == z * d && !Cong(k, 0, p)
    requires Cong(n2, (m * k) * (m * k), p) && Cong(X, x * (z * z), p)
    ensures Cong(n2, (3 * X) * (d * d), p) <==> Cong(m * m, 3 * x, p)
  {
    var k2 := k * k;
    assert (m * k) * (m * k) == (m * m) * k2 by {
      MulAssoc(m, k, m * k);
      MulAssoc(k, m, k);
      MulAssoc(m, m, k2);
    }
    CongRefl(3, p);
    CongRefl(d * d, p);
    CongMul(3, 3, X, x * (z * z), p);
    CongMul(3 * X, 3 * (x * (z * z)), d * d, d * d, p);
    assert (3 * (x * (z * z))) * (d * d) == (3 * x) * k2 by {
      ScaledSquare(z, d);
      MulAssoc(x, z * z, d * d);
      MulAssoc(3, x * (z * z), d * d);
      MulAssoc(3, x, k2);
    }
    ProductZero(p, k, k);
    var r := (3 * X) * (d * d);
    if Cong(n2, r, p) {
      CongTrans(n2, r, (3 * x) * k2, p);
      CongSym(n2, (m * m) * k2, p);
      CongTrans((m * m) * k2, n2, (3 * x) * k2, p);
      CancelRight(p, k2, m * m, 3 * x);
    }
    if Cong(m * m, 3 * x, p) {
      CongRefl(k2, p);
      CongMul(m * m, 3 * x, k2, k2, p);
      CongTrans(n2, (m * m) * k2, (3 * x) * k2, p);
      CongBoth(p, n2, r, (3 * x) * k2);
    }
  }

  /** The general addition keeps the curve equation, unless it is a doubling in the branch
      that DoublesRightly excludes. */
  lemma AddGeneralValid(c: Curve, P: Jacobian, Q: Jacobian)
    requires CurveOk(c) && PointOk(c, P) && PointOk(c, Q) && PointValid(c, P) && PointValid(c, Q)
    requires P.Z != 0 && Q.Z != 0 && AddPrologue(c, P, Q).slope == Slope(0, 0) ==> DoublesRightly(c, P, Q)
    ensures PointOk(c, AddGeneral(c, P, Q)) && PointValid(c, AddGeneral(c, P, Q))
  {
    var A := EveryPointStands(c, P);
    var B := EveryPointStands(c, Q);
    IdentityValid(c);
    if A.At? && B.At? {
      SlopeZero(c, P, Q, A, B);
      var C := AddGeneralCorrect(c, P, Q, A, B);
      ValidWhenStands(c, AddGeneral(c, P, Q), C);
    } else {
      var C := AddGeneralCorrect(c, P, Q, A, B);
    }
  }

  lemma IdentityValid(c: Curve)
    requires CurveOk(c)
    ensures PointValid(c, IDENTITY)
  {
    ModUnique(0, c.p, 0, 0);
  }

  lemma ValidWhenStands(c: Curve, S: Jacobian, C: Affine)
    requires CurveOk(c) && PointOk(c, S) && OnCurve(c, C) && Stands(c, S, C) && (C.Infinity? ==> S == IDENTITY)
    ensures PointValid(c, S)
  {
    if C.At? {
      ValidIffOnCurve(c, S, C);
    } else {
      IdentityValid(c);
    }
  }

  /** The excluded branch is real: on y^2 = x^3 + x + 6 modulo 7, the point (1, 1) written
      once with Z = 1 and once with Z = 2 is not doubled by the general addition. */
  lemma AddGeneralMisdoubles()
    ensures exists c, P, Q, A, C ::
      && CurveOk(c) && PointOk(c, P) && PointOk(c, Q) && OnCurve(c, A) && Stands(c, P, A) && Stands(c, Q, A)
      && IsSum(c, A, A, C) && !Stands(c, AddGeneral(c, P, Q), C)
  {
    var c, P, Q, A := SEVEN, Jacobian(1, 1, 1), Jacobian(4, 1, 2), At(1, 1);
    SevenOk();
    CongIntro(1 * 1, 1 * 1 * 1 + 1 * 1 + 6, 7, -1);
    CongRefl(1, 7);
    CongRefl(4, 7);
    CongIntro(1, 1 * (2 * 2 * 2), 7, -1);
    assert TangentSlope(c, P).n == 4;
    var C := AddGeneralCorrect(c, P, Q, A, A);
  }
}
