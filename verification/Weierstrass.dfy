/**
 Short Weierstrass curves in Jacobian coordinates: the shared slope and epilogue code, the
 three arithmetic operations built on it, and the chord-and-tangent law they implement.
 */
module Weierstrass {
  import opened NumberTheory
  import opened Field

  datatype Curve = Curve(p: int, a: int, b: int)

  /** Affine coordinates are X/Z^2 and Y/Z^3; Z is zero for the point at infinity. */
  datatype Jacobian = Jacobian(X: int, Y: int, Z: int)

  datatype Affine = Infinity | At(x: int, y: int)

  const IDENTITY := Jacobian(0, 0, 0)

  ghost predicate CurveOk(c: Curve) {
    IsPrime(c.p) && c.p > 2 && Residue(c.p, c.a) && Residue(c.p, c.b)
  }

  predicate PointOk(c: Curve, P: Jacobian) {
    Residue(c.p, P.X) && Residue(c.p, P.Y) && Residue(c.p, P.Z)
  }

  // ---------------------------------------------------------------- the code's operations

  datatype Slope = Slope(n: int, d: int)

  datatype Prologue = Prologue(px: int, py: int, qx: int, denom: int, slope: Slope)

  function Epilogue(c: Curve, px: int, qx: int, py: int, denom: int, s: Slope): Jacobian
    requires c.p > 0
  {
    var n2 := Mul(c.p, s.n, s.n);
    var d2 := Mul(c.p, s.d, s.d);
    var d3 := Mul(c.p, s.d, d2);
    var xsum := Add(c.p, px, qx);
    var d2xsum := Mul(c.p, d2, xsum);
    var X := Sub(c.p, n2, d2xsum);
    var d2px := Mul(c.p, d2, px);
    var xdiff := Sub(c.p, d2px, X);
    var nxdiff := Mul(c.p, s.n, xdiff);
    var d3py := Mul(c.p, d3, py);
    var Y := Sub(c.p, nxdiff, d3py);
    var Z := Mul(c.p, denom, s.d);
    Jacobian(X, Y, Z)
  }

  function AddPrologue(c: Curve, P: Jacobian, Q: Jacobian): Prologue
    requires c.p > 0
  {
    var pz2 := Mul(c.p, P.Z, P.Z);
    var pz3 := Mul(c.p, pz2, P.Z);
    var qz2 := Mul(c.p, Q.Z, Q.Z);
    var qz3 := Mul(c.p, qz2, Q.Z);
    var px := Mul(c.p, P.X, qz2);
    var py := Mul(c.p, P.Y, qz3);
    var qx := Mul(c.p, Q.X, pz2);
    var qy := Mul(c.p, Q.Y, pz3);
    var denom := Mul(c.p, P.Z, Q.Z);
    Prologue(px, py, qx, denom, Slope(Sub(c.p, qy, py), Sub(c.p, qx, px)))
  }

  function TangentSlope(c: Curve, P: Jacobian): Slope
    requires c.p > 0
  {
    var x2 := Mul(c.p, P.X, P.X);
    var twox2 := Add(c.p, x2, x2);
    var threex2 := Add(c.p, twox2, x2);
    var z2 := Mul(c.p, P.Z, P.Z);
    var z4 := Mul(c.p, z2, z2);
    var az4 := Mul(c.p, c.a, z4);
    Slope(Add(c.p, threex2, az4), Add(c.p, P.Y, P.Y))
  }

  /** The operation for points known to be different: the code insists that the numerator of
      the slope is not zero. */
  function PointAdd(c: Curve, P: Jacobian, Q: Jacobian): Jacobian
    requires c.p > 0
    requires AddPrologue(c, P, Q).slope.n != 0
  {
    var g := AddPrologue(c, P, Q);
    Epilogue(c, g.px, g.qx, g.py, g.denom, g.slope)
  }

  function Double(c: Curve, P: Jacobian): Jacobian
    requires c.p > 0
  {
    Epilogue(c, P.X, P.X, P.Y, P.Z, TangentSlope(c, P))
  }

  function AddGeneral(c: Curve, P: Jacobian, Q: Jacobian): Jacobian
    requires c.p > 0
  {
    var g := AddPrologue(c, P, Q);
    var slope := if g.slope.d == 0 && g.slope.n == 0 then TangentSlope(c, P) else g.slope;
    var S := Epilogue(c, g.px, g.qx, g.py, g.denom, slope);
    var S1 := if P.Z == 0 then Q else S;
    var S2 := if Q.Z == 0 then P else S1;
    if S2.Z == 0 then Jacobian(0, 0, S2.Z) else S2
  }

  function PointValid(c: Curve, P: Jacobian): bool
    requires c.p > 0
  {
    var lhs := Mul(c.p, P.Y, P.Y);
    var x2 := Mul(c.p, P.X, P.X);
    var x3 := Mul(c.p, x2, P.X);
    var z2 := Mul(c.p, P.Z, P.Z);
    var z4 := Mul(c.p, z2, z2);
    var az4 := Mul(c.p, c.a, z4);
    var axz4 := Mul(c.p, az4, P.X);
    var x3axz4 := Add(c.p, x3, axz4);
    var z6 := Mul(c.p, z2, z4);
    var bz6 := Mul(c.p, c.b, z6);
    var rhs := Add(c.p, x3axz4, bz6);
    lhs == rhs
  }

  // ---------------------------------------------------------------- the affine law

  ghost predicate OnCurve(c: Curve, A: Affine) {
    A.At? ==> Cong(A.y * A.y, A.x * A.x * A.x + c.a * A.x + c.b, c.p)
  }

  predicate AffineOk(c: Curve, A: Affine) {
    A.At? ==> Residue(c.p, A.x) && Residue(c.p, A.y)
  }

  ghost predicate Chord(c: Curve, A: Affine, B: Affine, m: int)
    requires A.At? && B.At?
  {
    Cong(m * (B.x - A.x), B.y - A.y, c.p)
  }

  ghost predicate Tangent(c: Curve, A: Affine, m: int)
    requires A.At?
  {
    Cong(m * (2 * A.y), 3 * (A.x * A.x) + c.a, c.p)
  }

  /** The third intersection of the line of slope m through A with the curve, reflected. */
  function ThirdX(A: Affine, B: Affine, m: int): int
    requires A.At? && B.At?
  {
    m * m - A.x - B.x
  }

  function ThirdY(A: Affine, B: Affine, m: int): int
    requires A.At? && B.At?
  {
    m * (A.x - ThirdX(A, B, m)) - A.y
  }

  /** The chord-and-tangent law, independently of any projective formula. */
  ghost predicate IsSum(c: Curve, A: Affine, B: Affine, C: Affine) {
    if A.Infinity? then C == B
    else if B.Infinity? then C == A
    else if A.x == B.x && Cong(A.y + B.y, 0, c.p) then C == Infinity
    else C.At? && AffineOk(c, C) && exists m ::
        && (if A.x == B.x then Tangent(c, A, m) else Chord(c, A, B, m))
        && Cong(C.x, ThirdX(A, B, m), c.p) && Cong(C.y, ThirdY(A, B, m), c.p)
  }

  /** The triple stands for the affine point. */
  ghost predicate Stands(c: Curve, P: Jacobian, A: Affine) {
    match A
    case Infinity => P.Z == 0
    case At(x, y) => P.Z != 0 && Cong(P.X, x * (P.Z * P.Z), c.p) && Cong(P.Y, y * (P.Z * P.Z * P.Z), c.p)
  }

  // ---------------------------------------------------------------- what the pieces compute

  lemma ScaledSquare(w: int, d: int)
    ensures (w * d) * (w * d) == (d * d) * (w * w)
  {
    MulAssoc(w, d, w * d);
    MulAssoc(d, w, d);
    MulAssoc(w, w, d * d);
  }

  lemma ScaledCube(w: int, d: int)
    ensures (w * d) * (w * d) * (w * d) == (d * (d * d)) * (w * w * w)
  {
    ScaledSquare(w, d);
    Regroup(d * d, w * w, w, d);
  }

  lemma Regroup(s: int, t: int, w: int, d: int)
    ensures (s * t) * (w * d) == (d * s) * (t * w)
  {
    MulAssoc(s, t, w * d);
    MulAssoc(t, w, d);
    MulAssoc(d, s, t * w);
  }

  lemma ThirdXScaled(m: int, t: int, s: int, x1: int, x2: int, w: int)
    requires t * t == s * w
    ensures (m * t) * (m * t) - s * (x1 * w + x2 * w) == (m * m - x1 - x2) * (t * t)
  {
    MulAssoc(m, t, m * t);
    MulAssoc(t, m, t);
    MulAssoc(m, m, t * t);
    MulAssoc(s, x1, w);
    MulAssoc(s, x2, w);
    var v := t * t;
    assert (m * m - x1 - x2) * v == (m * m) * v - x1 * v - x2 * v;
  }

  lemma ThirdYScaled(m: int, t: int, s: int, x1: int, x3: int, y1: int, w: int, d3: int, w3: int)
    requires t * t == s * w && t * t * t == d3 * w3
    ensures (m * t) * (s * (x1 * w) - x3 * (t * t)) - d3 * (y1 * w3) == (m * (x1 - x3) - y1) * (t * t * t)
  {
    MulAssoc(s, x1, w);
    var v := t * t;
    assert s * (x1 * w) - x3 * v == (x1 - x3) * v;
    CubeSpread(m, t, v, x1 - x3);
    MulAssoc(d3, y1, w3);
    var u := v * t;
    assert (m * (x1 - x3) - y1) * u == (m * (x1 - x3)) * u - y1 * u;
  }

  lemma CubeSpread(m: int, t: int, v: int, x: int)
    ensures (m * t) * (x * v) == (m * x) * (v * t)
  {
    MulAssoc(m, t, x * v);
    MulAssoc(t, x, v);
    MulAssoc(m, x, v * t);
  }

  ghost predicate EpilogueInput(c: Curve, px: int, qx: int, py: int, denom: int, s: Slope, A: Affine, B: Affine,
        w: int, m: int)
    requires A.At? && B.At?
  {
    && Cong(px, A.x * (w * w), c.p) && Cong(qx, B.x * (w * w), c.p) && Cong(py, A.y * (w * w * w), c.p)
    && Cong(denom, w, c.p) && Cong(s.n, m * (w * s.d), c.p)
  }

  lemma EpilogueX(c: Curve, px: int, qx: int, py: int, denom: int, s: Slope, A: Affine, B: Affine, w: int, m: int)
    requires CurveOk(c) && A.At? && B.At? && EpilogueInput(c, px, qx, py, denom, s, A, B, w, m)
    ensures var t := w * s.d; Cong(Epilogue(c, px, qx, py, denom, s).X, ThirdX(A, B, m) * (t * t), c.p)
  {
    var p, d, t, w2 := c.p, s.d, w * s.d, w * w;
    CongRefl(d, p);
    ScaledSquare(w, d);
    MulCong(p, s.n, m * t, s.n, m * t);
    MulCong(p, d, d, d, d);
    AddCong(p, px, A.x * w2, qx, B.x * w2);
    MulCong(p, Mul(p, d, d), d * d, Add(p, px, qx), A.x * w2 + B.x * w2);
    SubCong(p, Mul(p, s.n, s.n), (m * t) * (m * t), Mul(p, Mul(p, d, d), Add(p, px, qx)), (d * d) * (A.x * w2 +
        B.x * w2));
    ThirdXScaled(m, t, d * d, A.x, B.x, w2);
  }

  lemma EpilogueY(c: Curve, px: int, qx: int, py: int, denom: int, s: Slope, A: Affine, B: Affine, w: int, m: int)
    requires CurveOk(c) && A.At? && B.At? && EpilogueInput(c, px, qx, py, denom, s, A, B, w, m)
    ensures var t := w * s.d; Cong(Epilogue(c, px, qx, py, denom, s).Y, ThirdY(A, B, m) * (t * t * t), c.p)
  {
    var p, d, t, w2, w3 := c.p, s.d, w * s.d, w * w, w * w * w;
    var E := Epilogue(c, px, qx, py, denom, s);
    EpilogueX(c, px, qx, py, denom, s, A, B, w, m);
    hide Cong;
    var X := ThirdX(A, B, m) * (t * t);
    CongRefl(d, p);
    MulCong(p, d, d, d, d);
    var d2 := Mul(p, d, d);
    MulCong(p, d, d, d2, d * d);
    MulCong(p, d2, d * d, px, A.x * w2);
    SubCong(p, Mul(p, d2, px), (d * d) * (A.x * w2), E.X, X);
    var xdiff := Sub(p, Mul(p, d2, px), E.X);
    MulCong(p, s.n, m * t, xdiff, (d * d) * (A.x * w2) - X);
    MulCong(p, Mul(p, d, d2), d * (d * d), py, A.y * w3);
    SubCong(p, Mul(p, s.n, xdiff), (m * t) * ((d * d) * (A.x * w2) - X), Mul(p, Mul(p, d, d2), py),
        (d * (d * d)) * (A.y * w3));
    ScaledSquare(w, d);
    ScaledCube(w, d);
    ThirdYScaled(m, t, d * d, A.x, ThirdX(A, B, m), A.y, w2, d * (d * d), w3);
  }

  /** The epilogue puts the reflected third intersection over the common denominator times
      the slope's denominator, whenever the slope it is handed is m over that denominator. */
  lemma EpilogueStands(c: Curve, px: int, qx: int, py: int, denom: int, s: Slope, A: Affine, B: Affine, w: int, m: int)
    requires CurveOk(c) && A.At? && B.At? && EpilogueInput(c, px, qx, py, denom, s, A, B, w, m)
    ensures var E, t := Epilogue(c, px, qx, py, denom, s), w * s.d;
      && PointOk(c, E) && Cong(E.Z, t, c.p)
      && Cong(E.X, ThirdX(A, B, m) * (t * t), c.p)
      && Cong(E.Y, ThirdY(A, B, m) * (t * t * t), c.p)
  {
    EpilogueX(c, px, qx, py, denom, s, A, B, w, m);
    EpilogueY(c, px, qx, py, denom, s, A, B, w, m);
    hide Cong;
    CongRefl(s.d, c.p);
    MulCong(c.p, denom, w, s.d, s.d);
  }

  /** The prologue brings both points over the product of their denominators. */
  lemma PrologueStands(c: Curve, P: Jacobian, Q: Jacobian, A: Affine, B: Affine)
    requires CurveOk(c) && A.At? && B.At? && Stands(c, P, A) && Stands(c, Q, B)
    ensures var g, w := AddPrologue(c, P, Q), P.Z * Q.Z;
      && Cong(g.px, A.x * (w * w), c.p) && Cong(g.qx, B.x * (w * w), c.p) && Cong(g.py, A.y * (w * w * w), c.p)
      && Cong(g.denom, w, c.p)
      && Cong(g.slope.n, (B.y - A.y) * (w * w * w), c.p) && Cong(g.slope.d, (B.x - A.x) * (w * w), c.p)
      && Residue(c.p, g.slope.n) && Residue(c.p, g.slope.d)
  {
    var p, z1, z2 := c.p, P.Z, Q.Z;
    var w := z1 * z2;
    CongRefl(z1, p);
    CongRefl(z2, p);
    MulCong(p, z1, z1, z1, z1);
    MulCong(p, Mul(p, z1, z1), z1 * z1, z1, z1);
    MulCong(p, z2, z2, z2, z2);
    MulCong(p, Mul(p, z2, z2), z2 * z2, z2, z2);
    var pz2, qz2 := Mul(p, z1, z1), Mul(p, z2, z2);
    var pz3, qz3 := Mul(p, pz2, z1), Mul(p, qz2, z2);
    MulCong(p, P.X, A.x * (z1 * z1), qz2, z2 * z2);
    MulCong(p, P.Y, A.y * (z1 * z1 * z1), qz3, z2 * z2 * z2);
    MulCong(p, Q.X, B.x * (z2 * z2), pz2, z1 * z1);
    MulCong(p, Q.Y, B.y * (z2 * z2 * z2), pz3, z1 * z1 * z1);
    CommonDenominator(A.x, z1, z2);
    CommonDenominator(B.x, z2, z1);
    CommonDenominator(A.y, z1, z2);
    CommonDenominator(B.y, z2, z1);
    MulCong(p, z1, z1, z2, z2);
    SubCong(p, Mul(p, Q.Y, pz3), B.y * (w * w * w), Mul(p, P.Y, qz3), A.y * (w * w * w));
    SubCong(p, Mul(p, Q.X, pz2), B.x * (w * w), Mul(p, P.X, qz2), A.x * (w * w));
    Difference(B.y, A.y, w * w * w);
    Difference(B.x, A.x, w * w);
  }

  lemma Difference(x: int, y: int, w: int)
    ensures x * w - y * w == (x - y) * w
  {
  }

  lemma CommonDenominator(x: int, z: int, z': int)
    ensures (x * (z * z)) * (z' * z') == x * ((z * z') * (z * z')) == x * ((z' * z) * (z' * z))
    ensures (x * (z * z * z)) * (z' * z' * z') == x * ((z * z') * (z * z') * (z * z')) ==
        x * ((z' * z) * (z' * z) * (z' * z))
  {
    ScaledSquare(z, z');
    ScaledCube(z, z');
    MulAssoc(x, z * z, z' * z');
    MulAssoc(x, z * z * z, z' * z' * z');
    MulAssoc(z', z', z');
  }

  /** The denominator of the tangent slope, over the point's own. */
  lemma TangentBelow(c: Curve, P: Jacobian, A: Affine)
    requires CurveOk(c) && A.At? && Stands(c, P, A)
    ensures Cong(TangentSlope(c, P).d, (2 * A.y) * (P.Z * P.Z * P.Z), c.p)
  {
    var p, z, y := c.p, P.Z, A.y;
    AddCong(p, P.Y, y * (z * z * z), P.Y, y * (z * z * z));
    Twice(y, z * z * z);
  }

  /** The numerator, which is three times the square of x and the curve's a, scaled. */
  lemma TangentAbove(c: Curve, P: Jacobian, A: Affine)
    requires CurveOk(c) && A.At? && Stands(c, P, A)
    ensures Cong(TangentSlope(c, P).n, (3 * (A.x * A.x) + c.a) * ((P.Z * P.Z) * (P.Z * P.Z)), c.p)
  {
    var p, z, x := c.p, P.Z, A.x;
    var z2 := z * z;
    CongRefl(z, p);
    CongRefl(c.a, p);
    MulCong(p, P.X, x * z2, P.X, x * z2);
    var x2 := Mul(p, P.X, P.X);
    var r := (x * z2) * (x * z2);
    AddCong(p, x2, r, x2, r);
    AddCong(p, Add(p, x2, x2), r + r, x2, r);
    MulCong(p, z, z, z, z);
    MulCong(p, Mul(p, z, z), z2, Mul(p, z, z), z2);
    var z4 := Mul(p, Mul(p, z, z), Mul(p, z, z));
    MulCong(p, c.a, c.a, z4, z2 * z2);
    AddCong(p, Add(p, Add(p, x2, x2), x2), r + r + r, Mul(p, c.a, z4), c.a * (z2 * z2));
    TangentNumerator(x, z2, c.a);
  }

  /** Over that denominator the slope of the tangent is the numerator. */
  lemma TangentStands(c: Curve, P: Jacobian, A: Affine, m: int)
    requires CurveOk(c) && A.At? && Stands(c, P, A) && Tangent(c, A, m)
    ensures Cong(TangentSlope(c, P).n, m * (P.Z * TangentSlope(c, P).d), c.p)
  {
    var p, z, x, y := c.p, P.Z, A.x, A.y;
    var z2, s := z * z, TangentSlope(c, P);
    TangentBelow(c, P, A);
    TangentAbove(c, P, A);
    CongRefl(z2 * z2, p);
    CongSym(m * (2 * y), 3 * (x * x) + c.a, p);
    CongMul(3 * (x * x) + c.a, m * (2 * y), z2 * z2, z2 * z2, p);
    CongTrans(s.n, (3 * (x * x) + c.a) * (z2 * z2), (m * (2 * y)) * (z2 * z2), p);
    CongRefl(z, p);
    CongMul(z, z, s.d, (2 * y) * (z2 * z), p);
    CongRefl(m, p);
    CongMul(m, m, z * s.d, z * ((2 * y) * (z2 * z)), p);
    assert m * (z * ((2 * y) * (z2 * z))) == (m * (2 * y)) * (z2 * z2) by { TangentDenominator(m, z, 2 * y, z2); }
    CongBoth(p, s.n, m * (z * s.d), (m * (2 * y)) * (z2 * z2));
  }

  lemma TangentNumerator(x: int, w: int, a: int)
    ensures (x * w) * (x * w) + (x * w) * (x * w) + (x * w) * (x * w) + a * (w * w) == (3 * (x * x) + a) * (w * w)
  {
    MulAssoc(x, w, x * w);
    MulAssoc(w, x, w);
    MulAssoc(x, x, w * w);
    var v := w * w;
    assert (3 * (x * x) + a) * v == 3 * ((x * x) * v) + a * v;
  }

  lemma Twice(y: int, w: int)
    ensures y * w + y * w == (2 * y) * w
  {
  }

  lemma TangentDenominator(m: int, z: int, y: int, w: int)
    requires w == z * z
    ensures m * (z * (y * (w * z))) == (m * y) * (w * w)
  {
    MulAssoc(z, y, w * z);
    MulAssoc(z, w, z);
    MulAssoc(m, y, w * w);
  }

  // ---------------------------------------------------------------- the affine law is a law on the curve

  /** The sum of two points on the curve is on the curve. */
  lemma SumOnCurve(c: Curve, A: Affine, B: Affine, C: Affine)
    requires CurveOk(c) && AffineOk(c, A) && AffineOk(c, B) && OnCurve(c, A) && OnCurve(c, B) && IsSum(c, A, B, C)
    ensures OnCurve(c, C)
  {
    if A.At? && B.At? && C.At? {
      var m :| (if A.x == B.x then Tangent(c, A, m) else Chord(c, A, B, m))
            && Cong(C.x, ThirdX(A, B, m), c.p) && Cong(C.y, ThirdY(A, B, m), c.p);
      LineMeetsCurve(c, A, B, m);
      var x3, y3 := ThirdX(A, B, m), ThirdY(A, B, m);
      CongMul(C.y, y3, C.y, y3, c.p);
      CongMul(C.x, x3, C.x, x3, c.p);
      CongMul(C.x * C.x, x3 * x3, C.x, x3, c.p);
      CongRefl(c.a, c.p);
      CongRefl(c.b, c.p);
      CongMul(c.a, c.a, C.x, x3, c.p);
      CongAdd(C.x * C.x * C.x, x3 * x3 * x3, c.a * C.x, c.a * x3, c.p);
      CongAdd(C.x * C.x * C.x + c.a * C.x, x3 * x3 * x3 + c.a * x3, c.b, c.b, c.p);
      CongTrans(C.y * C.y, y3 * y3, x3 * x3 * x3 + c.a * x3 + c.b, c.p);
      CongBoth(c.p, C.y * C.y, C.x * C.x * C.x + c.a * C.x + c.b, x3 * x3 * x3 + c.a * x3 + c.b);
    }
  }

  /** What makes the line through A and B of slope m meet the curve at both of them. */
  function Defect(A: Affine, B: Affine, a: int, m: int): int
    requires A.At? && B.At?
  {
    (B.x * B.x + A.x * B.x + A.x * A.x + a) - m * (m * (B.x - A.x) + 2 * A.y)
  }

  lemma LineMeetsCurve(c: Curve, A: Affine, B: Affine, m: int)
    requires CurveOk(c) && A.At? && B.At? && AffineOk(c, A) && AffineOk(c, B) && OnCurve(c, A) && OnCurve(c, B)
    requires if A.x == B.x then Tangent(c, A, m) else Chord(c, A, B, m)
    ensures var x3, y3 := ThirdX(A, B, m), ThirdY(A, B, m);
      Cong(y3 * y3, x3 * x3 * x3 + c.a * x3 + c.b, c.p)
  {
    DefectVanishes(c, A, B, m);
    CongSym(A.y * A.y, A.x * A.x * A.x + c.a * A.x + c.b, c.p);
    ThirdRoot(A.x, B.x, A.y, c.a, m);
    StaysOnCurve(c.p, A.x, A.y, ThirdX(A, B, m), c.a, c.b, m);
  }

  lemma StaysOnCurve(p: int, x: int, y: int, z: int, a: int, b: int, m: int)
    requires Divides(p, (x * x * x + a * x + b) - y * y)
    requires Divides(p, z * z + z * x + x * x + a - m * (m * (z - x) + 2 * y))
    ensures var v := m * (x - z) - y; Cong(v * v, z * z * z + a * z + b, p)
  {
    var v, f := m * (x - z) - y, z * z + z * x + x * x + a - m * (m * (z - x) + 2 * y);
    DividesMul(p, f, z - x);
    DividesAdd(p, (z - x) * f, (x * x * x + a * x + b) - y * y);
    CubicOnLine(x, y, z, a, b, m);
    CongSym(z * z * z + a * z + b, v * v, p);
  }

  lemma CubeDifference(x: int, z: int)
    ensures z * z * z - x * x * x == (z - x) * (z * z + z * x + x * x)
  {
    var d := z - x;
    assert d * (z * z + z * x + x * x) == d * (z * z) + d * (z * x) + d * (x * x);
    assert d * (z * z) == z * z * z - x * (z * z);
    assert d * (z * x) == z * (z * x) - x * (z * x);
    assert d * (x * x) == z * (x * x) - x * x * x;
  }

  lemma LineSquared(m: int, d: int, y: int)
    ensures (m * d + y) * (m * d + y) == d * (m * (m * d + 2 * y)) + y * y
  {
    var k := m * d;
    MulAssoc(d, m, k + 2 * y);
    assert (k + y) * (k + y) == k * (k + 2 * y) + y * y;
  }

  lemma CubicOnLine(x: int, y: int, z: int, a: int, b: int, m: int)
    ensures var v := m * (x - z) - y;
      z * z * z + a * z + b - v * v
        == (z - x) * (z * z + z * x + x * x + a - m * (m * (z - x) + 2 * y)) + (x * x * x + a * x + b - y * y)
  {
    var d, q := z - x, z * z + z * x + x * x;
    var v, l := m * (x - z) - y, m * (m * (z - x) + 2 * y);
    assert z * z * z - x * x * x == d * q by { CubeDifference(x, z); }
    assert v * v == d * l + y * y by {
      LineSquared(m, d, y);
      NegatedSquare(m, d, y);
    }
    assert a * z - a * x == a * d;
    Split3(d, q, a, l);
  }

  lemma NegatedSquare(m: int, d: int, y: int)
    ensures m * (-d) - y == -(m * d + y)
    ensures (m * (-d) - y) * (m * (-d) - y) == (m * d + y) * (m * d + y)
  {
    var v := m * d + y;
    assert m * (-d) - y == -v;
  }

  lemma Split3(d: int, u: int, a: int, w: int)
    ensures d * (u + a - w) == d * u + a * d - d * w
  {
  }

  lemma ThirdRoot(x1: int, x2: int, y: int, a: int, m: int)
    ensures var z := m * m - x1 - x2;
      z * z + z * x1 + x1 * x1 + a - m * (m * (z - x1) + 2 * y)
        == (x2 * x2 + x1 * x2 + x1 * x1 + a) - m * (m * (x2 - x1) + 2 * y)
  {
    var z, s := m * m - x1 - x2, m * m;
    SlopeTerm(m, z - x1, y);
    SlopeTerm(m, x2 - x1, y);
    VietaStep(s, x1, x2, z);
  }

  lemma SlopeTerm(m: int, d: int, y: int)
    ensures m * (m * d + 2 * y) == (m * m) * d + 2 * (m * y)
  {
    MulAssoc(m, m, d);
  }

  lemma VietaStep(s: int, x1: int, x2: int, z: int)
    requires s == z + x1 + x2
    ensures z * z + z * x1 - s * (z - x1) == x2 * x2 + x1 * x2 - s * (x2 - x1)
  {
    assert s * (z - x1) - s * (x2 - x1) == s * (z - x2);
    assert s * (z - x2) == z * (z - x2) + x1 * (z - x2) + x2 * (z - x2);
  }

  lemma DefectVanishes(c: Curve, A: Affine, B: Affine, m: int)
    requires CurveOk(c) && A.At? && B.At? && AffineOk(c, A) && AffineOk(c, B) && OnCurve(c, A) && OnCurve(c, B)
    requires if A.x == B.x then Tangent(c, A, m) else Chord(c, A, B, m)
    ensures Divides(c.p, Defect(A, B, c.a, m))
  {
    if A.x == B.x {
      TangentDefect(c.p, A.x, A.y, c.a, m);
    } else {
      if Cong(B.x - A.x, 0, c.p) { ResidueUnique(c.p, B.x, A.x); }
      CongSym(A.y * A.y, A.x * A.x * A.x + c.a * A.x + c.b, c.p);
      CongSym(B.y * B.y, B.x * B.x * B.x + c.a * B.x + c.b, c.p);
      ChordDefect(c.p, A.x, A.y, B.x, B.y, c.a, c.b, m);
    }
  }

  lemma TangentDefect(p: int, x: int, y: int, a: int, m: int)
    requires Cong(m * (2 * y), 3 * (x * x) + a, p)
    ensures Divides(p, (x * x + x * x + x * x + a) - m * (m * (x - x) + 2 * y))
  {
    CongSym(m * (2 * y), 3 * (x * x) + a, p);
    assert m * (x - x) == 0;
  }

  lemma ChordDefect(p: int, x: int, y: int, x2: int, y2: int, a: int, b: int, m: int)
    requires IsPrime(p) && !Cong(x2 - x, 0, p) && Divides(p, m * (x2 - x) - (y2 - y))
    requires Divides(p, (x * x * x + a * x + b) - y * y) && Divides(p, (x2 * x2 * x2 + a * x2 + b) - y2 * y2)
    ensures Divides(p, (x2 * x2 + x * x2 + x * x + a) - m * (m * (x2 - x) + 2 * y))
  {
    var d, e := x2 - x, y2 - y;
    var g1, g2, h := (x * x * x + a * x + b) - y * y, (x2 * x2 * x2 + a * x2 + b) - y2 * y2, m * d - e;
    var f := (x2 * x2 + x * x2 + x * x + a) - m * (m * d + 2 * y);
    var r := h * (m * d + e + 2 * y);
    assert Divides(p, r) by { DividesMul(p, h, m * d + e + 2 * y); }
    assert d * f == g2 - g1 - r by { ChordIdentity(x, y, x2, y2, a, b, m); }
    FromDifference(p, d, f, g1, g2, r);
  }

  lemma FromDifference(p: int, d: int, f: int, g1: int, g2: int, r: int)
    requires IsPrime(p) && !Cong(d, 0, p) && Divides(p, g1) && Divides(p, g2) && Divides(p, r) && d * f == g2 - g1 - r
    ensures Divides(p, f)
  {
    DividesAdd(p, g2, g1);
    DividesAdd(p, g2 - g1, r);
    PrimeDividesProduct(p, d, f);
  }

  /** The x-difference times the defect is the difference of the two curve equations, less a
      multiple of the chord relation. */
  lemma ChordIdentity(x: int, y: int, x2: int, y2: int, a: int, b: int, m: int)
    ensures var d, e := x2 - x, y2 - y;
      d * ((x2 * x2 + x * x2 + x * x + a) - m * (m * d + 2 * y))
        == ((x2 * x2 * x2 + a * x2 + b) - y2 * y2) - ((x * x * x + a * x + b) - y * y) - (m * d - e) * (m * d + e +
            2 * y)
  {
    var d, q, l := x2 - x, x2 * x2 + x * x2 + x * x, m * (m * (x2 - x) + 2 * y);
    assert x2 * x2 * x2 - x * x * x == d * q by { CubeDifference(x, x2); }
    assert d * l == (m * d + y) * (m * d + y) - y * y by { LineSquared(m, d, y); }
    assert a * x2 - a * x == a * d;
    Split3(d, q, a, l);
    DifferenceOfSquares(m * d, y, y2);
  }

  lemma DifferenceOfSquares(k: int, y: int, y2: int)
    ensures (k - (y2 - y)) * (k + (y2 - y) + 2 * y) == (k + y) * (k + y) - y2 * y2
  {
    var u := k + y;
    assert k - (y2 - y) == u - y2 && k + (y2 - y) + 2 * y == u + y2;
    assert (u - y2) * (u + y2) == u * u - y2 * y2;
  }

  /** There is a sum of any two points. */
  lemma SumExists(c: Curve, A: Affine, B: Affine) returns (C: Affine, m: int)
    requires CurveOk(c) && AffineOk(c, A) && AffineOk(c, B) && OnCurve(c, A) && OnCurve(c, B)
    ensures AffineOk(c, C) && IsSum(c, A, B, C)
    ensures A.At? && B.At? && C.At? ==>
      && (if A.x == B.x then Tangent(c, A, m) else Chord(c, A, B, m))
      && Cong(C.x, ThirdX(A, B, m), c.p) && Cong(C.y, ThirdY(A, B, m), c.p)
  {
    m := 0;
    if A.Infinity? {
      C := B;
    } else if B.Infinity? {
      C := A;
    } else if A.x == B.x && Cong(A.y + B.y, 0, c.p) {
      C := Infinity;
    } else {
      if A.x == B.x {
        SameXSameY(c, A, B);
        assert A.y + A.y == 2 * A.y;
        m := Quotient(c.p, 2 * A.y, 3 * (A.x * A.x) + c.a);
      } else {
        if Cong(B.x - A.x, 0, c.p) { ResidueUnique(c.p, B.x, A.x); }
        m := Quotient(c.p, B.x - A.x, B.y - A.y);
      }
      C := At(ThirdX(A, B, m) % c.p, ThirdY(A, B, m) % c.p);
      CongMod(ThirdX(A, B, m), c.p);
      CongMod(ThirdY(A, B, m), c.p);
    }
  }

  /** Two points of the curve with one x have the same or opposite y. */
  lemma SameXSameY(c: Curve, A: Affine, B: Affine)
    requires CurveOk(c) && A.At? && B.At? && AffineOk(c, A) && AffineOk(c, B) && OnCurve(c, A) && OnCurve(c, B)
    requires A.x == B.x
    ensures A.y == B.y || Cong(A.y + B.y, 0, c.p)
  {
    CongBoth(c.p, A.y * A.y, B.y * B.y, A.x * A.x * A.x + c.a * A.x + c.b);
    assert A.y * A.y - B.y * B.y == (A.y - B.y) * (A.y + B.y);
    PrimeDividesProduct(c.p, A.y - B.y, A.y + B.y);
    if Divides(c.p, A.y - B.y) { ResidueUnique(c.p, A.y, B.y); }
  }

  lemma ThirdCong(p: int, A: Affine, B: Affine, m: int, n: int)
    requires A.At? && B.At? && Cong(m, n, p)
    ensures Cong(ThirdX(A, B, m), ThirdX(A, B, n), p) && Cong(ThirdY(A, B, m), ThirdY(A, B, n), p)
  {
    CongMul(m, n, m, n, p);
    CongRefl(A.x, p);
    CongRefl(A.y, p);
    CongRefl(B.x, p);
    CongAdd(m * m, n * n, A.x, A.x, p);
    CongAdd(m * m - A.x, n * n - A.x, B.x, B.x, p);
    CongAdd(A.x, A.x, ThirdX(A, B, m), ThirdX(A, B, n), p);
    CongMul(m, n, A.x - ThirdX(A, B, m), A.x - ThirdX(A, B, n), p);
    CongAdd(m * (A.x - ThirdX(A, B, m)), n * (A.x - ThirdX(A, B, n)), A.y, A.y, p);
  }

  /** The law determines the sum. */
  lemma SumUnique(c: Curve, A: Affine, B: Affine, C: Affine, D: Affine)
    requires CurveOk(c) && AffineOk(c, A) && AffineOk(c, B) && OnCurve(c, A) && OnCurve(c, B)
    requires IsSum(c, A, B, C) && IsSum(c, A, B, D)
    ensures C == D
  {
    if A.At? && B.At? && C.At? {
      var m :| (if A.x == B.x then Tangent(c, A, m) else Chord(c, A, B, m))
            && Cong(C.x, ThirdX(A, B, m), c.p) && Cong(C.y, ThirdY(A, B, m), c.p);
      var n :| (if A.x == B.x then Tangent(c, A, n) else Chord(c, A, B, n))
            && Cong(D.x, ThirdX(A, B, n), c.p) && Cong(D.y, ThirdY(A, B, n), c.p);
      SlopeUnique(c, A, B, m, n);
      ThirdCong(c.p, A, B, m, n);
      SameResidue(c.p, C.x, D.x, ThirdX(A, B, m), ThirdX(A, B, n));
      SameResidue(c.p, C.y, D.y, ThirdY(A, B, m), ThirdY(A, B, n));
    }
  }

  lemma SameResidue(p: int, x: int, y: int, x': int, y': int)
    requires Residue(p, x) && Residue(p, y) && Cong(x, x', p) && Cong(y, y', p) && Cong(x', y', p)
    ensures x == y
  {
    CongTrans(x, x', y', p);
    CongBoth(p, x, y, y');
    ResidueUnique(p, x, y);
  }

  lemma SlopeUnique(c: Curve, A: Affine, B: Affine, m: int, n: int)
    requires CurveOk(c) && A.At? && B.At? && AffineOk(c, A) && AffineOk(c, B) && OnCurve(c, A) && OnCurve(c, B)
    requires !(A.x == B.x && Cong(A.y + B.y, 0, c.p))
    requires if A.x == B.x then Tangent(c, A, m) && Tangent(c, A, n) else Chord(c, A, B, m) && Chord(c, A, B, n)
    ensures Cong(m, n, c.p)
  {
    if A.x == B.x {
      SameXSameY(c, A, B);
      CongBoth(c.p, m * (2 * A.y), n * (2 * A.y), 3 * (A.x * A.x) + c.a);
      CancelRight(c.p, 2 * A.y, m, n);
    } else {
      if Cong(B.x - A.x, 0, c.p) { ResidueUnique(c.p, B.x, A.x); }
      CongBoth(c.p, m * (B.x - A.x), n * (B.x - A.x), B.y - A.y);
      CancelRight(c.p, B.x - A.x, m, n);
    }
  }
}
