/**
 The multiplication loop with the Jacobian formulas: which multipliers make its addition
 abort, and for which the result is the multiple that is asked for.
 */
module WeierstrassMultiply {
  import opened NumberTheory
  import opened Field
  import opened Weierstrass
  import opened WeierstrassCorrect
  import opened Ladder

  // ---------------------------------------------------------------- multiples on the curve

  ghost predicate Inside(c: Curve, A: Affine) {
    AffineOk(c, A) && OnCurve(c, A)
  }

  lemma SomeSum(c: Curve, A: Affine, B: Affine)
    requires CurveOk(c) && Inside(c, A) && Inside(c, B)
    ensures exists C :: Inside(c, C) && IsSum(c, A, B, C)
  {
    var C, m := SumExists(c, A, B);
    SumOnCurve(c, A, B, C);
    assert Inside(c, C) && IsSum(c, A, B, C);
  }

  /** The chord and tangent law as a function. */
  ghost function Sum(c: Curve, A: Affine, B: Affine): (C: Affine)
    requires CurveOk(c)
    ensures Inside(c, A) && Inside(c, B) ==> Inside(c, C) && IsSum(c, A, B, C)
  {
    if Inside(c, A) && Inside(c, B) then
      SomeSum(c, A, B);
      var C :| Inside(c, C) && IsSum(c, A, B, C);
      C
    else Infinity
  }

  lemma SumIs(c: Curve, A: Affine, B: Affine, C: Affine)
    requires CurveOk(c) && Inside(c, A) && Inside(c, B) && IsSum(c, A, B, C)
    ensures Sum(c, A, B) == C
  {
    SumUnique(c, A, B, Sum(c, A, B), C);
  }

  ghost function Points(c: Curve): Group<Affine>
    requires CurveOk(c)
  {
    Group((A, B) => Sum(c, A, B), Infinity, A => Inside(c, A))
  }

  lemma PointsClosed(c: Curve)
    requires CurveOk(c)
    ensures Closed(Points(c))
  {
    forall A | Inside(c, A)
      ensures Sum(c, Infinity, A) == A && Sum(c, A, Infinity) == A
    {
      SumIs(c, Infinity, A, A);
      SumIs(c, A, Infinity, A);
    }
  }

  ghost function Multiple(c: Curve, A: Affine, k: nat): Affine
    requires CurveOk(c)
  {
    Times(Points(c), k, A)
  }

  lemma MultiplesAdd(c: Curve, A: Affine, j: nat, k: nat, m: nat)
    requires CurveOk(c) && Associative(Points(c)) && Inside(c, A) && m == j + k
    ensures Inside(c, Multiple(c, A, j)) && Inside(c, Multiple(c, A, k))
    ensures Sum(c, Multiple(c, A, j), Multiple(c, A, k)) == Multiple(c, A, m)
  {
    hide Associative, Closed, Inside, Sum, IsSum, CurveOk, Times;
    PointsClosed(c);
    TimesInside(Points(c), j, A);
    TimesInside(Points(c), k, A);
    TimesAdd(Points(c), j, k, A);
  }

  // ---------------------------------------------------------------- points the loop meets

  /** A curve without a point where no tangent is defined. */
  ghost predicate Smooth(c: Curve) {
    forall x: int :: !SingularAt(c, x)
  }

  ghost predicate SingularAt(c: Curve, x: int) {
    Cong(x * x * x + c.a * x + c.b, 0, c.p) && Cong(3 * (x * x) + c.a, 0, c.p)
  }

  /** A point at infinity as the formulas produce it: Y is not zero and Y^2 = X^3. */
  ghost predicate Tame(c: Curve, P: Jacobian, A: Affine) {
    && PointOk(c, P) && Stands(c, P, A)
    && (P.Z == 0 ==> P.Y != 0 && Cong(P.Y * P.Y, P.X * P.X * P.X, c.p))
  }

  /** What the epilogue computes, for any slope. */
  lemma EpilogueValues(c: Curve, px: int, qx: int, py: int, denom: int, s: Slope)
    requires c.p > 0
    ensures var n, d, E := s.n, s.d, Epilogue(c, px, qx, py, denom, s);
      && PointOk(c, E) && Cong(E.X, n * n - (d * d) * (px + qx), c.p)
      && Cong(E.Y, n * ((d * d) * px - E.X) - (d * (d * d)) * py, c.p) && Cong(E.Z, denom * d, c.p)
  {
    var p, n, d, E := c.p, s.n, s.d, Epilogue(c, px, qx, py, denom, s);
    CongRefl(n, p);
    CongRefl(d, p);
    CongRefl(px, p);
    CongRefl(qx, p);
    CongRefl(py, p);
    CongRefl(denom, p);
    CongRefl(E.X, p);
    hide Cong;
    MulCong(p, n, n, n, n);
    MulCong(p, d, d, d, d);
    var n2, d2 := Mul(p, n, n), Mul(p, d, d);
    AddCong(p, px, px, qx, qx);
    MulCong(p, d2, d * d, Add(p, px, qx), px + qx);
    SubCong(p, n2, n * n, Mul(p, d2, Add(p, px, qx)), (d * d) * (px + qx));
    MulCong(p, d, d, d2, d * d);
    MulCong(p, d2, d * d, px, px);
    SubCong(p, Mul(p, d2, px), (d * d) * px, E.X, E.X);
    var xdiff := Sub(p, Mul(p, d2, px), E.X);
    MulCong(p, n, n, xdiff, (d * d) * px - E.X);
    MulCong(p, Mul(p, d, d2), d * (d * d), py, py);
    SubCong(p, Mul(p, n, xdiff), n * ((d * d) * px - E.X), Mul(p, Mul(p, d, d2), py), (d * (d * d)) * py);
    MulCong(p, denom, denom, d, d);
  }

  /** When the slope is vertical, the epilogue gives such a point. */
  lemma VerticalTame(c: Curve, px: int, qx: int, py: int, denom: int, s: Slope)
    requires CurveOk(c) && Residue(c.p, s.n) && s.d == 0 && s.n != 0
    ensures Tame(c, Epilogue(c, px, qx, py, denom, s), Infinity)
  {
    hide Cong, Epilogue, IsPrime;
    var n, E := s.n, Epilogue(c, px, qx, py, denom, s);
    EpilogueValues(c, px, qx, py, denom, s);
    NoDenominator(n, px, qx, py, denom, E.X);
    ZeroIff(c.p, E.Z);
    MinusCube(c.p, n, E.X);
    CongTrans(E.Y, n * -E.X, -(n * (n * n)), c.p);
    SquareIsCube(c.p, E.X, E.Y, n);
  }

  lemma NoDenominator(n: int, px: int, qx: int, py: int, denom: int, x: int)
    ensures n * n - (0 * 0) * (px + qx) == n * n && denom * 0 == 0
    ensures n * ((0 * 0) * px - x) - (0 * (0 * 0)) * py == n * -x
  {
  }

  lemma MinusCube(p: int, n: int, x: int)
    requires Cong(x, n * n, p)
    ensures Cong(n * -x, -(n * (n * n)), p)
  {
    CongRefl(-n, p);
    CongMul(-n, -n, x, n * n, p);
    assert (-n) * x == n * -x && (-n) * (n * n) == -(n * (n * n));
  }

  lemma SquareIsCube(p: int, x: int, y: int, n: int)
    requires IsPrime(p) && Residue(p, y) && Residue(p, n) && n != 0 && Cong(x, n * n, p) && Cong(y, -(n * (n * n)), p)
    ensures y != 0 && Cong(y * y, x * x * x, p)
  {
    var u := n * (n * n);
    CongMul(y, -u, y, -u, p);
    CongMul(x, n * n, x, n * n, p);
    CongMul(x * x, (n * n) * (n * n), x, n * n, p);
    assert (-u) * (-u) == u * u;
    ScaledCube(n, n);
    MulFour(n, n * n, n, n * n);
    CongBoth(p, y * y, x * x * x, u * u);
    ZeroIff(p, n);
    ZeroIff(p, y);
    CongZeroIff(p, y, -u);
    ProductZero(p, n, n);
    ProductZero(p, n, n * n);
    ProductZero(p, -1, u);
    if Divides(p, -1) { DividesMul(p, -1, -1); DividesUpTo(p, 1); }
  }

  lemma SumTame(c: Curve, P: Jacobian, Q: Jacobian, A: Affine, B: Affine)
    requires CurveOk(c) && A.At? && B.At? && Inside(c, A) && Inside(c, B) && A.y != B.y
    requires PointOk(c, P) && PointOk(c, Q) && Stands(c, P, A) && Stands(c, Q, B)
    ensures AddPrologue(c, P, Q).slope.n != 0 && Tame(c, PointAdd(c, P, Q), Sum(c, A, B))
  {
    hide Cong, Epilogue, AddPrologue;
    SlopeZero(c, P, Q, A, B);
    var C := PointAddCorrect(c, P, Q, A, B);
    SumIs(c, A, B, C);
    SumOk(c, P, Q);
    if C.Infinity? {
      var g := AddPrologue(c, P, Q);
      VerticalTame(c, g.px, g.qx, g.py, g.denom, g.slope);
    }
  }

  lemma SumOk(c: Curve, P: Jacobian, Q: Jacobian)
    requires CurveOk(c)
    ensures Residue(c.p, AddPrologue(c, P, Q).slope.n)
    ensures AddPrologue(c, P, Q).slope.n != 0 ==> PointOk(c, PointAdd(c, P, Q))
    ensures Residue(c.p, TangentSlope(c, P).n) && PointOk(c, Double(c, P))
  {
  }

  lemma DoubleTame(c: Curve, P: Jacobian, A: Affine)
    requires CurveOk(c) && Smooth(c) && A.At? && Inside(c, A) && PointOk(c, P) && Stands(c, P, A)
    ensures Tame(c, Double(c, P), Sum(c, A, A))
  {
    hide Cong, Epilogue, TangentSlope;
    var C := DoubleCorrect(c, P, A);
    SumIs(c, A, A, C);
    SumOk(c, P, P);
    if C.Infinity? {
      DoubleY(c, A);
      TangentZero(c, P, A);
      FlatTangent(c, P, A);
      VerticalTame(c, P.X, P.X, P.Y, P.Z, TangentSlope(c, P));
    }
  }

  /** On a smooth curve the tangent where y is zero is vertical, not undefined. */
  lemma FlatTangent(c: Curve, P: Jacobian, A: Affine)
    requires CurveOk(c) && Smooth(c) && A.At? && Inside(c, A) && A.y == 0 && PointOk(c, P) && Stands(c, P, A)
    ensures TangentSlope(c, P).n != 0
  {
    var p, n, z := c.p, TangentSlope(c, P).n, P.Z;
    TangentAbove(c, P, A);
    CongSym(A.y * A.y, A.x * A.x * A.x + c.a * A.x + c.b, p);
    assert !SingularAt(c, A.x);
    CongZeroIff(p, n, (3 * (A.x * A.x) + c.a) * ((z * z) * (z * z)));
    ZeroIff(p, z);
    ProductZero(p, z, z);
    ProductZero(p, z * z, z * z);
    ProductZero(p, 3 * (A.x * A.x) + c.a, (z * z) * (z * z));
    CongRefl(0, p);
  }

  // ---------------------------------------------------------------- additions with infinity

  /** The addition aborts when both points are at infinity, or one is the triple of zeros. */
  lemma ZerosRefused(c: Curve, P: Jacobian, Q: Jacobian)
    requires CurveOk(c) && PointOk(c, P) && PointOk(c, Q)
    requires (P.Z == 0 && Q.Z == 0) || P == IDENTITY || Q == IDENTITY
    ensures AddPrologue(c, P, Q).slope.n == 0
  {
    ModUnique(0, c.p, 0, 0);
  }

  /** The epilogue gives zero in each coordinate when these congruences hold. */
  lemma EpilogueVanishes(c: Curve, px: int, qx: int, py: int, denom: int, s: Slope)
    requires CurveOk(c) && Mul(c.p, denom, s.d) == 0
    requires Cong(s.n * s.n, (s.d * s.d) * (px + qx), c.p)
    requires Cong(s.n * ((s.d * s.d) * px), (s.d * (s.d * s.d)) * py, c.p)
    ensures Epilogue(c, px, qx, py, denom, s) == IDENTITY
  {
    hide Cong, Epilogue, IsPrime;
    var p, n, d, E := c.p, s.n, s.d, Epilogue(c, px, qx, py, denom, s);
    EpilogueValues(c, px, qx, py, denom, s);
    DifferenceVanishes(p, E.X, n * n, (d * d) * (px + qx));
    assert (d * d) * px - 0 == (d * d) * px;
    DifferenceVanishes(p, E.Y, n * ((d * d) * px), (d * (d * d)) * py);
    VanishingZ(c, px, qx, py, denom, s);
  }

  lemma VanishingZ(c: Curve, px: int, qx: int, py: int, denom: int, s: Slope)
    requires c.p > 0
    ensures Epilogue(c, px, qx, py, denom, s).Z == Mul(c.p, denom, s.d)
  {
  }

  lemma DifferenceVanishes(p: int, r: int, x: int, y: int)
    requires Residue(p, r) && Cong(r, x - y, p) && Cong(x, y, p)
    ensures r == 0
  {
    assert (x - y) - 0 == x - y;
    CongTrans(r, x - y, 0, p);
    ZeroIff(p, r);
  }

  /** What is left of the equation at infinity after scaling by the other point's Z. */
  lemma ScaledInfinity(p: int, X: int, Y: int, z: int)
    requires IsPrime(p) && Residue(p, Y) && Residue(p, z) && Y != 0 && z != 0 && Cong(Y * Y, X * X * X, p)
    ensures var z2 := Mul(p, z, z);
      var u, v := Mul(p, X, z2), Mul(p, Y, Mul(p, z2, z));
      v != 0 && Cong(v * v, u * u * u, p)
  {
    CongRefl(X, p);
    CongRefl(Y, p);
    CongRefl(z, p);
    MulCong(p, z, z, z, z);
    var z2 := Mul(p, z, z);
    MulCong(p, z2, z * z, z, z);
    MulCong(p, X, X, z2, z * z);
    MulCong(p, Y, Y, Mul(p, z2, z), z * z * z);
    var u, v := Mul(p, X, z2), Mul(p, Y, Mul(p, z2, z));
    var x', y' := X * (z * z), Y * (z * z * z);
    var z6 := (z * z * z) * (z * z * z);
    CongMul(v, y', v, y', p);
    CongMul(u, x', u, x', p);
    CongMul(u * u, x' * x', u, x', p);
    MulFour(Y, z * z * z, Y, z * z * z);
    CommonFactor(X, z * z);
    assert (z * z) * ((z * z) * (z * z)) == z6 by { MulAssoc(z * z, z, z * z * z); MulAssoc(z, z,
        z * z); MulAssoc(z * z, z * z, z * z); }
    CongRefl(z6, p);
    CongMul(Y * Y, X * X * X, z6, z6, p);
    CongTrans(v * v, (Y * Y) * z6, (X * X * X) * z6, p);
    CongBoth(p, v * v, u * u * u, (X * X * X) * z6);
    ZeroIff(p, Y);
    ZeroIff(p, z);
    ZeroIff(p, v);
    CongZeroIff(p, v, y');
    ProductZero(p, z, z);
    ProductZero(p, z * z, z);
    ProductZero(p, Y, z * z * z);
  }

  lemma Opposed(p: int, u: int, v: int, n: int, d: int)
    requires Cong(n, -v, p) && Cong(d, -u, p) && Cong(v * v, u * u * u, p)
    ensures Cong(n * n, (d * d) * (u + 0), p) && Cong(n * ((d * d) * u), (d * (d * d)) * v, p)
  {
    hide Cong;
    CongMul(n, -v, n, -v, p);
    CongMul(d, -u, d, -u, p);
    CongRefl(u, p);
    CongRefl(v, p);
    assert (-v) * (-v) == v * v && (-u) * (-u) == u * u;
    CongMul(d * d, u * u, u, u, p);
    CongTrans(n * n, v * v, u * u * u, p);
    CongBoth(p, n * n, (d * d) * u, u * u * u);
    var w := u * u * u;
    CongMul(n, -v, (d * d) * u, w, p);
    CongMul(d, -u, d * d, u * u, p);
    CongMul(d * (d * d), -u * (u * u), v, v, p);
    assert (-u * (u * u)) * v == (-v) * w by { assert -u * (u * u) == -w; }
    CongBoth(p, n * ((d * d) * u), (d * (d * d)) * v, (-v) * w);
  }

  lemma NegatedNonzero(p: int, v: int)
    requires IsPrime(p) && Residue(p, v)
    ensures Cong(Sub(p, 0, v), -v, p) && (Sub(p, 0, v) == 0 <==> v == 0)
  {
    var n := Sub(p, 0, v);
    CongMod(-v, p);
    ZeroIff(p, n);
    ZeroIff(p, v);
    CongZeroIff(p, n, -v);
    assert -v == -1 * v;
    ProductZero(p, -1, v);
    if Divides(p, -1) { DividesMul(p, -1, -1); DividesUpTo(p, 1); }
  }

  lemma InfinityFirst(c: Curve, P: Jacobian, Q: Jacobian)
    requires CurveOk(c) && PointOk(c, P) && PointOk(c, Q) && P.Z == 0 && Q.Z != 0
    requires P.Y != 0 && Cong(P.Y * P.Y, P.X * P.X * P.X, c.p)
    ensures AddPrologue(c, P, Q).slope.n != 0 && PointAdd(c, P, Q) == IDENTITY
  {
    hide Cong, IsPrime, Epilogue;
    var p, g := c.p, AddPrologue(c, P, Q);
    ScaledInfinity(p, P.X, P.Y, Q.Z);
    ModUnique(0, p, 0, 0);
    assert g.slope == Slope(Sub(p, 0, g.py), Sub(p, 0, g.px)) && g.qx == 0 && g.denom == 0;
    NegatedNonzero(p, g.py);
    NegatedNonzero(p, g.px);
    Opposed(p, g.px, g.py, g.slope.n, g.slope.d);
    assert Mul(p, g.denom, g.slope.d) == 0;
    EpilogueVanishes(c, g.px, 0, g.py, g.denom, g.slope);
  }

  lemma InfinitySecond(c: Curve, P: Jacobian, Q: Jacobian)
    requires CurveOk(c) && PointOk(c, P) && PointOk(c, Q) && P.Z != 0 && Q.Z == 0
    requires Q.Y != 0 && Cong(Q.Y * Q.Y, Q.X * Q.X * Q.X, c.p)
    ensures AddPrologue(c, P, Q).slope.n != 0 && PointAdd(c, P, Q) == IDENTITY
  {
    var p, g := c.p, AddPrologue(c, P, Q);
    ScaledInfinity(p, Q.X, Q.Y, P.Z);
    ModUnique(0, p, 0, 0);
    var u, v := Mul(p, Q.X, Mul(p, P.Z, P.Z)), Mul(p, Q.Y, Mul(p, Mul(p, P.Z, P.Z), P.Z));
    assert g.px == 0 && g.py == 0 && g.denom == 0 && g.qx == u;
    ModUnique(u, p, 0, u);
    ModUnique(v, p, 0, v);
    assert g.slope == Slope(v, u);
    assert u * u * u == (u * u) * (0 + u);
    CongRefl(0, p);
    assert v * ((u * u) * 0) == 0 && (u * (u * u)) * 0 == 0;
    EpilogueVanishes(c, 0, u, 0, g.denom, g.slope);
  }

  /** Adding infinity to a finite point passes the assertion and gives the triple of zeros,
      not the finite point. */
  lemma InfinityLost(c: Curve, P: Jacobian, Q: Jacobian, A: Affine, B: Affine)
    requires CurveOk(c) && Tame(c, P, A) && Tame(c, Q, B) && A.At? != B.At?
    ensures AddPrologue(c, P, Q).slope.n != 0 && PointAdd(c, P, Q) == IDENTITY
  {
    ModUnique(0, c.p, 0, 0);
    if A.Infinity? {
      InfinityFirst(c, P, Q);
    } else {
      InfinitySecond(c, P, Q);
    }
  }

  // ---------------------------------------------------------------- the loop

  function JacobianOps(c: Curve): Ops<Jacobian>
    requires c.p > 0
  {
    Ops((P, Q, D) => if AddPrologue(c, P, Q).slope.n == 0 then None else Some(PointAdd(c, P, Q)), P => Double(c, P))
  }

  ghost function TameMultiple(c: Curve, A: Affine): (Jacobian, nat) -> bool
    requires CurveOk(c)
  {
    (P: Jacobian, k: nat) => Tame(c, P, Multiple(c, A, k))
  }

  /** The multiples k and k + 1 are finite and have different y. */
  ghost predicate Apart(c: Curve, A: Affine, k: nat)
    requires CurveOk(c)
  {
    var K, L := Multiple(c, A, k), Multiple(c, A, k + 1);
    K.At? && L.At? && K.y != L.y
  }

  ghost predicate OneInfinite(c: Curve, A: Affine, k: nat)
    requires CurveOk(c)
  {
    Multiple(c, A, k).At? != Multiple(c, A, k + 1).At?
  }

  /** When the addition for bit i is not refused: its operands are apart, or one of them is at
      infinity and the sum is not added again. */
  ghost predicate TurnRuns(c: Curve, A: Affine, n: nat, i: nat)
    requires CurveOk(c)
  {
    || Apart(c, A, Operand(n, i))
    || (OneInfinite(c, A, Operand(n, i)) && (i == 0 || Prefix(n, i + 1) == 0))
  }

  ghost predicate Setting(c: Curve, P: Jacobian, A: Affine) {
    && CurveOk(c) && Smooth(c) && Associative(Points(c))
    && PointOk(c, P) && Inside(c, A) && Stands(c, P, A)
  }

  lemma ApartKeeps(c: Curve, P: Jacobian, A: Affine, k: nat)
    requires Setting(c, P, A) && Apart(c, A, k)
    ensures TurnKeeps(JacobianOps(c), P, TameMultiple(c, A), k)
  {
    hide PointAdd, Double, AddPrologue, Cong, Smooth, Associative;
    var ops, rep := JacobianOps(c), TameMultiple(c, A);
    MultiplesSum(c, A, k);
    forall R, S | rep(R, k) && rep(S, k + 1)
      ensures ops.add(R, S, P).Some? && rep(ops.add(R, S, P).value, 2 * k + 1)
      ensures rep(ops.double(R), 2 * k) && rep(ops.double(S), 2 * k + 2)
    {
      SumTame(c, R, S, Multiple(c, A, k), Multiple(c, A, k + 1));
      DoubleTame(c, R, Multiple(c, A, k));
      DoubleTame(c, S, Multiple(c, A, k + 1));
    }
  }

  lemma MultiplesSum(c: Curve, A: Affine, k: nat)
    requires CurveOk(c) && Associative(Points(c)) && Inside(c, A)
    ensures Inside(c, Multiple(c, A, k)) && Inside(c, Multiple(c, A, k + 1))
    ensures Sum(c, Multiple(c, A, k), Multiple(c, A, k + 1)) == Multiple(c, A, 2 * k + 1)
    ensures Sum(c, Multiple(c, A, k), Multiple(c, A, k)) == Multiple(c, A, 2 * k)
    ensures Sum(c, Multiple(c, A, k + 1), Multiple(c, A, k + 1)) == Multiple(c, A, 2 * k + 2)
  {
    hide Multiple, Associative, Sum;
    MultiplesAdd(c, A, k, k + 1, 2 * k + 1);
    MultiplesAdd(c, A, k, k, 2 * k);
    MultiplesAdd(c, A, k + 1, k + 1, 2 * k + 2);
  }

  lemma FirstMultiples(c: Curve, P: Jacobian, A: Affine)
    requires Setting(c, P, A)
    ensures Multiple(c, A, 1) == A && Multiple(c, A, 2) == Sum(c, A, A)
    ensures A.At? ==> Represents(Start(JacobianOps(c), P), TameMultiple(c, A), 1)
    ensures A.Infinity? ==> Multiple(c, A, 2) == Infinity && Double(c, P).Z == 0
  {
    PointsClosed(c);
    TimesOne(Points(c), A);
    MultiplesSum(c, A, 1);
    if A.At? {
      DoubleTame(c, P, A);
    } else {
      SumIs(c, A, A, A);
      var C := DoubleCorrect(c, P, A);
      SumUnique(c, A, A, A, C);
    }
  }

  /** Above the last turn, turns that run leave the two multiples in a tame form. */
  lemma RunsSoFar(c: Curve, P: Jacobian, A: Affine, n: nat, width: nat, i: nat)
    requires Setting(c, P, A) && A.At? && n < Pow(2, width) && 1 <= i <= width
    requires forall j :: i <= j < width ==> TurnRuns(c, A, n, j)
    ensures var ops, k := JacobianOps(c), if Prefix(n, i) == 0 then 1 else Prefix(n, i);
      && Pair(ops, P, n, width, i).Some? && Represents(Pair(ops, P, n, width, i).value, TameMultiple(c, A), k)
      && (Prefix(n, i) == 0 ==> Pair(ops, P, n, width, i).value == Start(ops, P))
  {
    var ops, rep := JacobianOps(c), TameMultiple(c, A);
    FirstMultiples(c, P, A);
    forall j | i <= j < width
      ensures TurnFine(ops, P, rep, n, j)
    {
      hide PointAdd, Double, AddPrologue, Cong, Smooth, Associative, Prefix;
      assert TurnRuns(c, A, n, j);
      if Prefix(n, j + 1) > 0 {
        ApartKeeps(c, P, A, Prefix(n, j + 1));
      } else if Apart(c, A, 1) {
        MultiplesSum(c, A, 1);
        SumTame(c, P, Double(c, P), A, Multiple(c, A, 2));
      } else {
        InfinityLost(c, P, Double(c, P), A, Multiple(c, A, 2));
      }
    }
    PairRepresents(ops, P, rep, n, width, i);
  }

  /** After a turn with a point at infinity the next addition is refused. */
  lemma RefusedNext(c: Curve, P: Jacobian, A: Affine, n: nat, width: nat, i: nat)
    requires CurveOk(c) && 1 <= i < width && Prefix(n, i + 1) > 0 && Pair(JacobianOps(c), P, n, width, i + 1).Some?
    requires var before, k := Pair(JacobianOps(c), P, n, width, i + 1).value, Prefix(n, i + 1);
      && Tame(c, before.0, Multiple(c, A, k)) && Tame(c, before.1, Multiple(c, A, k + 1)) && OneInfinite(c, A, k)
    ensures Pair(JacobianOps(c), P, n, width, 0).None?
  {
    hide PointAdd, Double, AddPrologue, Cong, Prefix, Bit, Multiple, Tame, IsPrime;
    var ops, k := JacobianOps(c), Prefix(n, i + 1);
    var before := Pair(ops, P, n, width, i + 1).value;
    InfinityLost(c, before.0, before.1, Multiple(c, A, k), Multiple(c, A, k + 1));
    PrefixStep(n, i);
    SumOk(c, before.0, before.0);
    SumOk(c, before.1, before.1);
    var after := Pair(ops, P, n, width, i).value;
    assert after.0 == IDENTITY || after.1 == IDENTITY;
    IdentityOk(c);
    ZerosRefused(c, after.0, after.1);
    StaysRefused(ops, P, n, width, i - 1, 0);
  }

  lemma IdentityOk(c: Curve)
    requires CurveOk(c)
    ensures PointOk(c, IDENTITY)
  {
  }

  /** The first turn that does not run makes the program abort, there or one turn later. */
  lemma AbortsAt(c: Curve, P: Jacobian, A: Affine, n: nat, width: nat, i: nat)
    requires Setting(c, P, A) && A.At? && n < Pow(2, width) && i < width
    requires !TurnRuns(c, A, n, i) && forall j :: i < j < width ==> TurnRuns(c, A, n, j)
    ensures Pair(JacobianOps(c), P, n, width, 0).None?
  {
    hide PointAdd, Double, AddPrologue, Cong, Smooth, Associative, Prefix, Bit, Multiple;
    var ops, k := JacobianOps(c), Operand(n, i);
    RunsSoFar(c, P, A, n, width, i + 1);
    MultiplesSum(c, A, k);
    var before := Pair(ops, P, n, width, i + 1).value;
    var K, L := Multiple(c, A, k), Multiple(c, A, k + 1);
    assert Tame(c, before.0, K) && Tame(c, before.1, L);
    if OneInfinite(c, A, k) {
      RefusedNext(c, P, A, n, width, i);
    } else {
      if K.At? {
        SlopeZero(c, before.0, before.1, K, L);
      } else {
        ZerosRefused(c, before.0, before.1);
      }
      StaysRefused(ops, P, n, width, i, 0);
    }
  }

  lemma LastRefused(c: Curve, P: Jacobian, A: Affine, n: nat, width: nat, i: nat)
    requires Setting(c, P, A) && A.At? && n < Pow(2, width) && i <= width
    requires exists j :: i <= j < width && !TurnRuns(c, A, n, j)
    ensures Pair(JacobianOps(c), P, n, width, 0).None?
    decreases width - i
  {
    if exists j :: i + 1 <= j < width && !TurnRuns(c, A, n, j) {
      LastRefused(c, P, A, n, width, i + 1);
    } else {
      AbortsAt(c, P, A, n, width, i);
    }
  }

  /** The outcome of a turn that runs, for either value of its bit. */
  lemma TurnOutcome(c: Curve, R: Jacobian, S: Jacobian, A: Affine, k: nat)
    requires CurveOk(c) && Smooth(c) && Associative(Points(c)) && Inside(c, A)
    requires Tame(c, R, Multiple(c, A, k)) && Tame(c, S, Multiple(c, A, k + 1))
    requires Apart(c, A, k) || OneInfinite(c, A, k)
    ensures AddPrologue(c, R, S).slope.n != 0
    ensures Stands(c, Double(c, R), Multiple(c, A, 2 * k))
    ensures Stands(c, PointAdd(c, R, S), Multiple(c, A, 2 * k + 1)) <==> Apart(c, A, k)
  {
    hide PointAdd, Double, AddPrologue, Cong, Smooth, Associative, Times;
    var K, L := Multiple(c, A, k), Multiple(c, A, k + 1);
    MultiplesSum(c, A, k);
    if Apart(c, A, k) {
      SumTame(c, R, S, K, L);
      DoubleTame(c, R, K);
    } else {
      InfinityLost(c, R, S, K, L);
      SumWithInfinity(c, K, L);
      if K.At? {
        DoubleTame(c, R, K);
      } else {
        DoubleAtInfinity(c, R, K);
      }
    }
  }

  /** The outcome of the last turn, given that all turns run. */
  lemma LastTurn(c: Curve, P: Jacobian, A: Affine, n: nat, width: nat)
    requires Setting(c, P, A) && A.At? && n < Pow(2, width) && width > 0
    requires forall j :: 0 <= j < width ==> TurnRuns(c, A, n, j)
    ensures Pair(JacobianOps(c), P, n, width, 0).Some?
    ensures var result := Pair(JacobianOps(c), P, n, width, 0).value.0;
      && (n == 0 ==> result == P)
      && (n >= 1 ==> (Stands(c, result, Multiple(c, A, n)) <==> n == 1 || n % 2 == 0 || Apart(c, A, n / 2)))
  {
    hide PointAdd, Double, AddPrologue, Cong, Smooth, Associative, Prefix, Bit, Stands, Times, Points, PointOk,
        AffineOk, OnCurve;
    var ops, half := JacobianOps(c), Prefix(n, 1);
    RunsSoFar(c, P, A, n, width, 1);
    PrefixStep(n, 0);
    PrefixAll(n);
    assert n == 2 * half + (if Bit(n, 0) then 1 else 0);
    var before := Pair(ops, P, n, width, 1).value;
    FirstMultiples(c, P, A);
    assert TurnRuns(c, A, n, 0);
    assert Represents(before, TameMultiple(c, A), Operand(n, 0));
    TurnOutcome(c, before.0, before.1, A, Operand(n, 0));
    assert half == n / 2;
  }

  lemma SumWithInfinity(c: Curve, K: Affine, L: Affine)
    requires CurveOk(c) && Inside(c, K) && Inside(c, L) && K.At? != L.At?
    ensures Sum(c, K, L).At?
  {
  }

  lemma DoubleAtInfinity(c: Curve, P: Jacobian, K: Affine)
    requires CurveOk(c) && PointOk(c, P) && Stands(c, P, K) && K.Infinity?
    ensures Stands(c, Double(c, P), Sum(c, K, K))
  {
    SumIs(c, K, K, K);
    var C := DoubleCorrect(c, P, K);
    SumUnique(c, K, K, K, C);
  }

  lemma InfiniteRefused(c: Curve, P: Jacobian, A: Affine, n: nat, width: nat)
    requires Setting(c, P, A) && A.Infinity? && n < Pow(2, width) && width > 0
    ensures Pair(JacobianOps(c), P, n, width, 0).None? && !TurnRuns(c, A, n, width - 1)
  {
    FirstMultiples(c, P, A);
    PrefixBeyond(n, width);
    SumOk(c, P, P);
    ZerosRefused(c, P, Double(c, P));
    StaysRefused(JacobianOps(c), P, n, width, width - 1, 0);
  }

  /** The multiplication comes to an end if and only if every turn's operands are finite and
      have different y, but for a point at infinity in a turn whose sum is not added again. */
  lemma CompletesIff(c: Curve, P: Jacobian, A: Affine, n: nat, width: nat)
    requires Setting(c, P, A) && n < Pow(2, width)
    ensures Pair(JacobianOps(c), P, n, width, 0).Some? <==> forall i :: 0 <= i < width ==> TurnRuns(c, A, n, i)
  {
    if width > 0 {
      if A.Infinity? {
        InfiniteRefused(c, P, A, n, width);
      } else if forall i :: 0 <= i < width ==> TurnRuns(c, A, n, i) {
        LastTurn(c, P, A, n, width);
      } else {
        LastRefused(c, P, A, n, width, 0);
      }
    }
  }

  /** What comes out then is n times the base if and only if n is one or even or the last
      addition was of finite points; for n = 0 it is the base. */
  lemma ResultIff(c: Curve, P: Jacobian, A: Affine, n: nat, width: nat)
    requires Setting(c, P, A) && n < Pow(2, width) && Pair(JacobianOps(c), P, n, width, 0).Some?
    ensures var result := Pair(JacobianOps(c), P, n, width, 0).value.0;
      && (n == 0 ==> result == P)
      && (n >= 1 ==> (Stands(c, result, Multiple(c, A, n)) <==> n == 1 || n % 2 == 0 || Apart(c, A, n / 2)))
  {
    CompletesIff(c, P, A, n, width);
    if width > 0 {
      if A.Infinity? {
        InfiniteRefused(c, P, A, n, width);
      } else {
        LastTurn(c, P, A, n, width);
      }
    }
  }

  /** In particular it is right whenever all additions are of finite points with different y. */
  lemma ApartMultiplies(c: Curve, P: Jacobian, A: Affine, n: nat, width: nat)
    requires Setting(c, P, A) && 1 <= n < Pow(2, width) && forall i :: 0 <= i < width ==> Apart(c, A, Operand(n, i))
    ensures var end := Pair(JacobianOps(c), P, n, width, 0); end.Some? && Stands(c, end.value.0, Multiple(c, A, n))
  {
    CompletesIff(c, P, A, n, width);
    ResultIff(c, P, A, n, width);
    PrefixAll(n);
    PrefixStep(n, 0);
    if n > 1 {
      assert Operand(n, 0) == n / 2;
    }
  }

  method EccWeierstrassMultiply(c: Curve, B: Point<Jacobian>, n: nat, width: nat, ghost A: Affine)
    returns (result: Option<Point<Jacobian>>)
    requires Setting(c, B.value, A) && n < Pow(2, width)
    ensures B.value == old(B.value) && (result.Some? ==> fresh(result.value))
    ensures result.Some? <==> forall i :: 0 <= i < width ==> TurnRuns(c, A, n, i)
    ensures result.Some? && n == 0 ==> result.value.value == B.value
    ensures result.Some? && n >= 1 ==>
      (Stands(c, result.value.value, Multiple(c, A, n)) <==> n == 1 || n % 2 == 0 || Apart(c, A, n / 2))
  {
    CompletesIff(c, B.value, A, n, width);
    result := Multiply(JacobianOps(c), B, n, width);
    if result.Some? {
      ResultIff(c, B.value, A, n, width);
    }
  }

  // ---------------------------------------------------------------- two multipliers that go wrong

  lemma SevenSum(A: Affine, B: Affine, C: Affine, m: int)
    requires A.At? && B.At? && C.At? && AffineOk(SEVEN, A) && AffineOk(SEVEN, B) && AffineOk(SEVEN, C)
    requires (A.y * A.y - (A.x * A.x * A.x + A.x + 6)) % 7 == 0 && (B.y * B.y - (B.x * B.x * B.x + B.x + 6)) % 7 == 0
    requires !(A.x == B.x && (A.y + B.y) % 7 == 0)
    requires if A.x == B.x then (m * (2 * A.y) - (3 * (A.x * A.x) + 1)) % 7 ==
        0 else (m * (B.x - A.x) - (B.y - A.y)) % 7 == 0
    requires (C.x - ThirdX(A, B, m)) % 7 == 0 && (C.y - ThirdY(A, B, m)) % 7 == 0
    ensures CurveOk(SEVEN) && Sum(SEVEN, A, B) == C
  {
    SevenOk();
    assert 1 * A.x == A.x && 1 * B.x == B.x;
    ModZero(A.y * A.y - (A.x * A.x * A.x + 1 * A.x + 6), 7);
    ModZero(B.y * B.y - (B.x * B.x * B.x + 1 * B.x + 6), 7);
    ModZero(A.y + B.y - 0, 7);
    ModZero(m * (2 * A.y) - (3 * (A.x * A.x) + 1), 7);
    ModZero(m * (B.x - A.x) - (B.y - A.y), 7);
    ModZero(C.x - ThirdX(A, B, m), 7);
    ModZero(C.y - ThirdY(A, B, m), 7);
    SumIs(SEVEN, A, B, C);
  }

  lemma SevenNext(k: nat, B: Affine, C: Affine, m: int)
    requires B.At? && C.At? && AffineOk(SEVEN, B) && AffineOk(SEVEN, C)
    requires CurveOk(SEVEN) && Multiple(SEVEN, At(1, 1), k) == B
    requires (B.y * B.y - (B.x * B.x * B.x + B.x + 6)) % 7 == 0 && !(1 == B.x && (1 + B.y) % 7 == 0)
    requires if 1 == B.x then (m * 2 - 4) % 7 == 0 else (m * (B.x - 1) - (B.y - 1)) % 7 == 0
    requires (C.x - ThirdX(At(1, 1), B, m)) % 7 == 0 && (C.y - ThirdY(At(1, 1), B, m)) % 7 == 0
    ensures Multiple(SEVEN, At(1, 1), k + 1) == C
  {
    hide Sum, Points;
    SevenSum(At(1, 1), B, C, m);
    NextMultiple(At(1, 1), k, B);
  }

  lemma FirstFive()
    requires CurveOk(SEVEN) && Multiple(SEVEN, At(1, 1), 1) == At(1, 1)
    ensures Multiple(SEVEN, At(1, 1), 3) == At(6, 5) && Multiple(SEVEN, At(1, 1), 4) == At(4, 5)
    ensures Multiple(SEVEN, At(1, 1), 6) == At(3, 6)
  {
    hide Multiple, CurveOk;
    SevenNext(1, At(1, 1), At(2, 4), 2);
    SevenNext(2, At(2, 4), At(6, 5), 3);
    SevenNext(3, At(6, 5), At(4, 5), 5);
    SevenNext(4, At(4, 5), At(3, 1), 6);
    SevenNext(5, At(3, 1), At(3, 6), 0);
  }

  lemma NextFour()
    requires CurveOk(SEVEN) && Multiple(SEVEN, At(1, 1), 6) == At(3, 6)
    ensures Multiple(SEVEN, At(1, 1), 10) == At(1, 6)
  {
    hide Multiple, CurveOk;
    SevenNext(6, At(3, 6), At(4, 2), 6);
    SevenNext(7, At(4, 2), At(6, 2), 5);
    SevenNext(8, At(6, 2), At(2, 3), 3);
    SevenNext(9, At(2, 3), At(1, 6), 2);
  }

  /** The point (1, 1) has order eleven. */
  lemma SevenMultiples()
    ensures CurveOk(SEVEN)
    ensures Multiple(SEVEN, At(1, 1), 3) == At(6, 5) && Multiple(SEVEN, At(1, 1), 4) == At(4, 5)
    ensures Multiple(SEVEN, At(1, 1), 11) == Infinity && Multiple(SEVEN, At(1, 1), 23) == At(1, 1)
  {
    SevenOk();
    PointsClosed(SEVEN);
    var A := At(1, 1);
    CongIntro(1 * 1, 1 * 1 * 1 + 1 * 1 + 6, 7, -1);
    TimesOne(Points(SEVEN), A);
    FirstFive();
    NextFour();
    CongIntro(6 * 6, 1 * 1 * 1 + 1 * 1 + 6, 7, 4);
    CongIntro(1 + 6, 0, 7, 1);
    SumIs(SEVEN, A, At(1, 6), Infinity);
    NextMultiple(A, 10, At(1, 6));
    EveryEleven(A, 1);
    EveryEleven(A, 12);
  }

  lemma NextMultiple(A: Affine, k: nat, K: Affine)
    requires CurveOk(SEVEN) && Multiple(SEVEN, A, k) == K
    ensures Multiple(SEVEN, A, k + 1) == Sum(SEVEN, A, K)
  {
  }

  lemma {:induction false} EveryEleven(A: Affine, k: nat)
    requires CurveOk(SEVEN) && Multiple(SEVEN, A, 11) == Multiple(SEVEN, A, 0)
    ensures Multiple(SEVEN, A, k + 11) == Multiple(SEVEN, A, k)
  {
    hide Multiple, Sum;
    if k > 0 {
      EveryEleven(A, k - 1);
      NextMultiple(A, k - 1, Multiple(SEVEN, A, k - 1));
      NextMultiple(A, k + 10, Multiple(SEVEN, A, k + 10));
    }
  }

  lemma SevenEpilogue(px: int, qx: int, py: int, denom: int, s: Slope, E: Jacobian)
    requires PointOk(SEVEN, E)
    requires (s.n * s.n - (s.d * s.d) * (px + qx) - E.X) % 7 == 0
    requires (s.n * ((s.d * s.d) * px - E.X) - (s.d * (s.d * s.d)) * py - E.Y) % 7 == 0
    requires (denom * s.d - E.Z) % 7 == 0
    ensures Epilogue(SEVEN, px, qx, py, denom, s) == E
  {
    hide Cong, Epilogue;
    var n, d, r := s.n, s.d, Epilogue(SEVEN, px, qx, py, denom, s);
    EpilogueValues(SEVEN, px, qx, py, denom, s);
    SevenSame(r.X, n * n - (d * d) * (px + qx), E.X);
    SevenSame(r.Y, n * ((d * d) * px - E.X) - (d * (d * d)) * py, E.Y);
    SevenSame(r.Z, denom * d, E.Z);
  }

  lemma SevenSame(x: int, v: int, e: int)
    requires Residue(7, x) && Residue(7, e) && Cong(x, v, 7) && (v - e) % 7 == 0
    ensures x == e
  {
    ModZero(v - e, 7);
    CongTrans(x, v, e, 7);
    ResidueUnique(7, x, e);
  }

  lemma SevenSlope(P: Jacobian, s: Slope)
    requires Residue(7, s.n) && Residue(7, s.d)
    requires (3 * (P.X * P.X) + (P.Z * P.Z) * (P.Z * P.Z) - s.n) % 7 == 0 && (2 * P.Y - s.d) % 7 == 0
    ensures TangentSlope(SEVEN, P) == s
  {
    var x, y, z, t := P.X, P.Y, P.Z, TangentSlope(SEVEN, P);
    CongRefl(x, 7);
    CongRefl(y, 7);
    CongRefl(z, 7);
    CongRefl(1, 7);
    hide Cong;
    MulCong(7, x, x, x, x);
    MulCong(7, z, z, z, z);
    var x2, z2 := Mul(7, x, x), Mul(7, z, z);
    AddCong(7, x2, x * x, x2, x * x);
    AddCong(7, Add(7, x2, x2), x * x + x * x, x2, x * x);
    MulCong(7, z2, z * z, z2, z * z);
    MulCong(7, 1, 1, Mul(7, z2, z2), (z * z) * (z * z));
    AddCong(7, Add(7, Add(7, x2, x2), x2), x * x + x * x + x * x, Mul(7, 1, Mul(7, z2, z2)), 1 * ((z * z) * (z * z)));
    SevenSame(t.n, x * x + x * x + x * x + (z * z) * (z * z), s.n);
    AddCong(7, y, y, y, y);
    SevenSame(t.d, y + y, s.d);
  }

  lemma SevenDouble(P: Jacobian, s: Slope, E: Jacobian)
    requires PointOk(SEVEN, E) && Residue(7, s.n) && Residue(7, s.d)
    requires (3 * (P.X * P.X) + (P.Z * P.Z) * (P.Z * P.Z) - s.n) % 7 == 0 && (2 * P.Y - s.d) % 7 == 0
    requires (s.n * s.n - (s.d * s.d) * (P.X + P.X) - E.X) % 7 == 0
    requires (s.n * ((s.d * s.d) * P.X - E.X) - (s.d * (s.d * s.d)) * P.Y - E.Y) % 7 == 0
    requires (P.Z * s.d - E.Z) % 7 == 0
    ensures JacobianOps(SEVEN).double(P) == E
  {
    hide Epilogue, TangentSlope;
    SevenSlope(P, s);
    SevenEpilogue(P.X, P.X, P.Y, P.Z, s, E);
  }

  lemma SevenAdd(P: Jacobian, Q: Jacobian, B: Jacobian, g: Prologue, E: Jacobian)
    requires PointOk(SEVEN, E) && AddPrologue(SEVEN, P, Q) == g && g.slope.n != 0
    requires (g.slope.n * g.slope.n - (g.slope.d * g.slope.d) * (g.px + g.qx) - E.X) % 7 == 0
    requires (g.slope.n * ((g.slope.d * g.slope.d) * g.px - E.X) - (g.slope.d * (g.slope.d * g.slope.d)) * g.py -
        E.Y) % 7 == 0
    requires (g.denom * g.slope.d - E.Z) % 7 == 0
    ensures JacobianOps(SEVEN).add(P, Q, B) == Some(E)
  {
    hide Epilogue, AddPrologue;
    SevenEpilogue(g.px, g.qx, g.py, g.denom, g.slope, E);
  }

  lemma SevenPrologue(P: Jacobian, Q: Jacobian, g: Prologue)
    requires Residue(7, g.px) && Residue(7, g.py) && Residue(7, g.qx) && Residue(7, g.denom)
    requires Residue(7, g.slope.n) && Residue(7, g.slope.d)
    requires (P.X * (Q.Z * Q.Z) - g.px) % 7 == 0 && (P.Y * (Q.Z * Q.Z * Q.Z) - g.py) % 7 == 0
    requires (Q.X * (P.Z * P.Z) - g.qx) % 7 == 0 && (P.Z * Q.Z - g.denom) % 7 == 0
    requires (Q.Y * (P.Z * P.Z * P.Z) - P.Y * (Q.Z * Q.Z * Q.Z) - g.slope.n) % 7 == 0
    requires (Q.X * (P.Z * P.Z) - P.X * (Q.Z * Q.Z) - g.slope.d) % 7 == 0
    ensures AddPrologue(SEVEN, P, Q) == g
  {
    var y, z, h := P.Z, Q.Z, AddPrologue(SEVEN, P, Q);
    var y2, z2 := Mul(7, y, y), Mul(7, z, z);
    var y3, z3 := Mul(7, y2, y), Mul(7, z2, z);
    CongRefl(P.X, 7);
    CongRefl(P.Y, 7);
    CongRefl(Q.X, 7);
    CongRefl(Q.Y, 7);
    CongRefl(y, 7);
    CongRefl(z, 7);
    hide Cong;
    MulCong(7, y, y, y, y);
    MulCong(7, z, z, z, z);
    MulCong(7, y2, y * y, y, y);
    MulCong(7, z2, z * z, z, z);
    MulCong(7, P.X, P.X, z2, z * z);
    MulCong(7, P.Y, P.Y, z3, z * z * z);
    MulCong(7, Q.X, Q.X, y2, y * y);
    MulCong(7, Q.Y, Q.Y, y3, y * y * y);
    MulCong(7, y, y, z, z);
    SubCong(7, Mul(7, Q.Y, y3), Q.Y * (y * y * y), Mul(7, P.Y, z3), P.Y * (z * z * z));
    SubCong(7, Mul(7, Q.X, y2), Q.X * (y * y), Mul(7, P.X, z2), P.X * (z * z));
    SevenSame(h.px, P.X * (z * z), g.px);
    SevenSame(h.py, P.Y * (z * z * z), g.py);
    SevenSame(h.qx, Q.X * (y * y), g.qx);
    SevenSame(h.denom, y * z, g.denom);
    SevenSame(h.slope.n, Q.Y * (y * y * y) - P.Y * (z * z * z), g.slope.n);
    SevenSame(h.slope.d, Q.X * (y * y) - P.X * (z * z), g.slope.d);
  }

  const BASE := Jacobian(1, 1, 1)

  lemma SevenStart()
    ensures Start(JacobianOps(SEVEN), BASE) == (BASE, Jacobian(1, 4, 2)) &&
        JacobianOps(SEVEN).double(BASE) == Jacobian(1, 4, 2)
    ensures JacobianOps(SEVEN).add(BASE, Jacobian(1, 4, 2), BASE) == Some(Jacobian(6, 5, 1))
  {
    hide AddPrologue, TangentSlope, Double, PointAdd;
    SevenPrologue(BASE, Jacobian(1, 4, 2), Prologue(4, 1, 1, 2, Slope(3, 4)));
    SevenDouble(BASE, Slope(4, 2), Jacobian(1, 4, 2));
    SevenAdd(BASE, Jacobian(1, 4, 2), BASE, Prologue(4, 1, 1, 2, Slope(3, 4)), Jacobian(6, 5, 1));
  }

  /** Six aborts, since 3 and 4 times the base have the same y. */
  lemma SixAborts(width: nat)
    requires width >= 3
    ensures Pair(JacobianOps(SEVEN), BASE, 6, width, 0).None?
  {
    hide PointAdd, Double, AddPrologue, TangentSlope;
    var ops := JacobianOps(SEVEN);
    var Q, R, T := Jacobian(1, 4, 2), Jacobian(6, 5, 1), Jacobian(2, 5, 2);
    SevenStart();
    SevenPrologue(R, T, Prologue(3, 5, 2, 2, Slope(0, 6)));
    SevenDouble(Q, Slope(5, 1), T);
    SixBits();
    NothingSet(ops, BASE, 6, width, 3);
    assert ops.add(R, T, BASE) == None;
    assert Pair(ops, BASE, 6, width, 2) == Some((BASE, Q));
    assert Pair(ops, BASE, 6, width, 1) == Some((R, T));
  }

  lemma SixBits()
    ensures 6 < Pow(2, 3) && Prefix(6, 3) == 0 && Prefix(6, 2) == 1 && Prefix(6, 1) == 3
    ensures Bit(6, 2) && Bit(6, 1) && !Bit(6, 0)
  {
  }

  lemma TwentyThreeBits()
    ensures 23 < Pow(2, 5) && Prefix(23, 5) == 0 && Prefix(23, 4) == 1 && Prefix(23, 3) == 2
    ensures Prefix(23, 2) == 5 && Prefix(23, 1) == 11
    ensures Bit(23, 4) && !Bit(23, 3) && Bit(23, 2) && Bit(23, 1) && Bit(23, 0)
  {
  }

  lemma TwentyThreeTurns()
    ensures var ops, Q, R, S, T := JacobianOps(SEVEN), Jacobian(1, 4, 2), Jacobian(6, 5, 1), Jacobian(6, 1, 4),
        Jacobian(6, 1, 3);
      && Next(ops, BASE, (BASE, Q), false) == Some((Q, R)) && Next(ops, BASE, (Q, R), true) == Some((S, T))
      && Next(ops, BASE, (S, T), true) == Some((Jacobian(4, 6, 0), Jacobian(1, 6, 6)))
      && Next(ops, BASE, (Jacobian(4, 6, 0), Jacobian(1, 6, 6)), true) == Some((IDENTITY, Q))
  {
    hide PointAdd, Double, AddPrologue, TangentSlope;
    var Q, R, S, T := Jacobian(1, 4, 2), Jacobian(6, 5, 1), Jacobian(6, 1, 4), Jacobian(6, 1, 3);
    SevenStart();
    SevenPrologue(Q, R, Prologue(1, 4, 3, 2, Slope(1, 2)));
    SevenPrologue(S, T, Prologue(5, 6, 5, 5, Slope(2, 0)));
    SevenPrologue(Jacobian(4, 6, 0), Jacobian(1, 6, 6), Prologue(4, 1, 0, 0, Slope(6, 3)));
    SevenAdd(Q, R, BASE, Prologue(1, 4, 3, 2, Slope(1, 2)), S);
    SevenDouble(R, Slope(4, 3), T);
    SevenAdd(S, T, BASE, Prologue(5, 6, 5, 5, Slope(2, 0)), Jacobian(4, 6, 0));
    SevenDouble(T, Slope(0, 2), Jacobian(1, 6, 6));
    SevenAdd(Jacobian(4, 6, 0), Jacobian(1, 6, 6), BASE, Prologue(4, 1, 0, 0, Slope(6, 3)), IDENTITY);
    SevenDouble(Jacobian(1, 6, 6), Slope(4, 5), Q);
  }

  /** Twenty-three gives the triple of zeros, since 11 times the base is infinity and is added
      to the next multiple, which is lost. */
  lemma TwentyThreeLost(width: nat)
    requires width >= 5
    ensures var end := Pair(JacobianOps(SEVEN), BASE, 23, width, 0); end.Some? && end.value.0 == IDENTITY
  {
    hide PointAdd, Double, AddPrologue, Next, Prefix, Bit, JacobianOps, Start;
    var ops := JacobianOps(SEVEN);
    var Q, R, S, T := Jacobian(1, 4, 2), Jacobian(6, 5, 1), Jacobian(6, 1, 4), Jacobian(6, 1, 3);
    SevenStart();
    TwentyThreeBits();
    TwentyThreeTurns();
    NothingSet(ops, BASE, 23, width, 5);
    FirstBit(ops, BASE, 23, width, 4);
    assert Pair(ops, BASE, 23, width, 3) == Some((Q, R));
    assert Pair(ops, BASE, 23, width, 2) == Some((S, T));
    assert Pair(ops, BASE, 23, width, 1) == Some((Jacobian(4, 6, 0), Jacobian(1, 6, 6)));
  }

  lemma FirstBit(ops: Ops<Jacobian>, base: Jacobian, n: nat, width: nat, i: nat)
    requires i < width && Prefix(n, i + 1) == 0 && Pair(ops, base, n, width, i + 1) == Some(Start(ops, base))
    requires ops.add(base, ops.double(base), base).Some?
    ensures Pair(ops, base, n, width, i) == Some(Start(ops, base))
  {
  }

  /** On y^2 = x^3 + x + 6 modulo 7 with base (1, 1): six aborts, since 3 and 4 times the base
      have the same y; twenty-three gives the triple of zeros, since 11 times the base is
      infinity and is added to the next multiple, but 23 times the base is the base. */
  lemma MultiplyFails(width: nat)
    ensures CurveOk(SEVEN) && Stands(SEVEN, BASE, At(1, 1))
    ensures width >= 3 ==> Pair(JacobianOps(SEVEN), BASE, 6, width, 0).None?
    ensures width >= 5 ==> Pair(JacobianOps(SEVEN), BASE, 23, width, 0).Some?
    ensures width >= 5 ==> Pair(JacobianOps(SEVEN), BASE, 23, width, 0).value.0 == IDENTITY
    ensures Multiple(SEVEN, At(1, 1), 23) == At(1, 1)
  {
    SevenMultiples();
    CongRefl(1, 7);
    if width >= 3 { SixAborts(width); }
    if width >= 5 { TwentyThreeLost(width); }
  }
}
