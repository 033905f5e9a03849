/**
 The multiplication loop with the Montgomery formulas: for which bases and multipliers it
 gives the x of the multiple that is asked for.
 */
module MontgomeryMultiply {
  import opened NumberTheory
  import opened Field
  import opened Montgomery
  import opened MontgomeryCorrect
  import opened Ladder

  // ---------------------------------------------------------------- multiples on the curve

  lemma SomeSum(c: Curve, A: Affine, B: Affine)
    requires CurveOk(c) && Smooth(c) && Inside(c, A) && Inside(c, B)
    ensures exists C :: Inside(c, C) && IsSum(c, A, B, C)
  {
    var C := SumExists(c, A, B);
    SumOnCurve(c, A, B, C);
    assert Inside(c, C) && IsSum(c, A, B, C);
  }

  /** The chord and tangent law as a function. */
  ghost function Sum(c: Curve, A: Affine, B: Affine): (C: Affine)
    requires CurveOk(c) && Smooth(c)
    ensures Inside(c, A) && Inside(c, B) ==> Inside(c, C) && IsSum(c, A, B, C)
  {
    if Inside(c, A) && Inside(c, B) then
      SomeSum(c, A, B);
      var C :| Inside(c, C) && IsSum(c, A, B, C);
      C
    else Infinity
  }

  lemma SumIs(c: Curve, A: Affine, B: Affine, C: Affine)
    requires CurveOk(c) && Smooth(c) && Inside(c, A) && Inside(c, B) && IsSum(c, A, B, C)
    ensures Sum(c, A, B) == C
  {
    SumUnique(c, A, B, Sum(c, A, B), C);
  }

  ghost function Points(c: Curve): Group<Affine>
    requires CurveOk(c) && Smooth(c)
  {
    Group((A, B) => Sum(c, A, B), Infinity, A => Inside(c, A))
  }

  lemma PointsClosed(c: Curve)
    requires CurveOk(c) && Smooth(c)
    ensures Closed(Points(c))
  {
    forall A | Inside(c, A)
      ensures Sum(c, Infinity, A) == A && Sum(c, A, Infinity) == A
    {
      SumIs(c, Infinity, A, A);
      SumIs(c, A, Infinity, A);
    }
  }

  ghost function Multiple(c: Curve, A: Affine, k: nat): Affine
    requires CurveOk(c) && Smooth(c)
  {
    Times(Points(c), k, A)
  }

  lemma MultiplesAdd(c: Curve, A: Affine, j: nat, k: nat, m: nat)
    requires CurveOk(c) && Smooth(c) && Associative(Points(c)) && Inside(c, A) && m == j + k
    ensures Inside(c, Multiple(c, A, j)) && Inside(c, Multiple(c, A, k))
    ensures Sum(c, Multiple(c, A, j), Multiple(c, A, k)) == Multiple(c, A, m)
  {
    hide Associative, Closed, Inside, Sum, IsSum, CurveOk, Times;
    PointsClosed(c);
    TimesInside(Points(c), j, A);
    TimesInside(Points(c), k, A);
    TimesAdd(Points(c), j, k, A);
  }

  /** Two successive multiples differ by the base. */
  lemma Difference(c: Curve, A: Affine, k: nat)
    requires CurveOk(c) && Smooth(c) && Associative(Points(c)) && Inside(c, A)
    ensures Inside(c, Multiple(c, A, k)) && Inside(c, Multiple(c, A, k + 1))
    ensures IsSum(c, Multiple(c, A, k + 1), Neg(c, Multiple(c, A, k)), A)
  {
    hide Closed, Inside, IsSum, Times, OnCurve;
    PointsClosed(c);
    TimesOne(Points(c), A);
    MultiplesAdd(c, A, 1, k, k + 1);
    MultiplesAdd(c, A, k + 1, 0, k + 1);
    var K := Multiple(c, A, k);
    NegInverse(c, K);
    SumIs(c, K, Neg(c, K), Infinity);
    SumIsLeft(c, A);
    var g := Points(c);
    assert g.add(g.add(A, K), Neg(c, K)) == g.add(A, g.add(K, Neg(c, K)));
    assert Sum(c, Multiple(c, A, k + 1), Neg(c, K)) == A;
  }

  lemma SumIsLeft(c: Curve, A: Affine)
    requires CurveOk(c) && Smooth(c) && Inside(c, A)
    ensures Sum(c, A, Infinity) == A
  {
    SumIs(c, A, Infinity, A);
  }

  // ---------------------------------------------------------------- the loop

  function XzOps(c: Curve): Ops<Projective>
    requires c.p > 0
  {
    Ops((P, Q, D) => Some(DiffAdd(c, P, Q, D)), P => Double(c, P))
  }

  ghost function ProperMultiple(c: Curve, A: Affine): (Projective, nat) -> bool
    requires CurveOk(c) && Smooth(c)
  {
    (P: Projective, k: nat) => Proper(c, P, Multiple(c, A, k))
  }

  lemma DoubledMultiple(c: Curve, A: Affine, R: Projective, k: nat)
    requires CurveOk(c) && Smooth(c) && Associative(Points(c)) && Inside(c, A) && Proper(c, R, Multiple(c, A, k))
    ensures Proper(c, Double(c, R), Multiple(c, A, 2 * k))
  {
    hide Proper, Double, IsSum, Times, Associative, OnCurve;
    MultiplesAdd(c, A, k, k, 2 * k);
    DoubleCorrect(c, R, Multiple(c, A, k), Multiple(c, A, 2 * k));
  }

  lemma AddedMultiples(c: Curve, P: Projective, A: Affine, R: Projective, S: Projective, k: nat)
    requires CurveOk(c) && Smooth(c) && Associative(Points(c)) && Inside(c, A) && A.At? && A.x != 0 && Proper(c, P, A)
    requires Proper(c, R, Multiple(c, A, k)) && Proper(c, S, Multiple(c, A, k + 1))
    ensures Proper(c, DiffAdd(c, R, S, P), Multiple(c, A, 2 * k + 1))
  {
    hide Proper, DiffAdd, IsSum, Times, Associative, OnCurve, Cong;
    MultiplesAdd(c, A, k, k + 1, 2 * k + 1);
    Difference(c, A, k);
    ZeroIff(c.p, A.x);
    DiffAddCorrect(c, R, S, P, Multiple(c, A, k), Multiple(c, A, k + 1), Multiple(c, A, 2 * k + 1), A);
  }

  lemma EveryTurnKeeps(c: Curve, P: Projective, A: Affine, k: nat)
    requires CurveOk(c) && Smooth(c) && Associative(Points(c)) && Inside(c, A) && A.At? && A.x != 0 && Proper(c, P, A)
    ensures TurnKeeps(XzOps(c), P, ProperMultiple(c, A), k)
  {
    hide Proper, DiffAdd, Double, Times, Associative, Inside, Multiple;
    var ops, rep := XzOps(c), ProperMultiple(c, A);
    forall R, S | rep(R, k) && rep(S, k + 1)
      ensures ops.add(R, S, P).Some? && rep(ops.add(R, S, P).value, 2 * k + 1)
      ensures rep(ops.double(R), 2 * k) && rep(ops.double(S), 2 * k + 2)
    {
      AddedMultiples(c, P, A, R, S, k);
      DoubledMultiple(c, A, R, k);
      DoubledMultiple(c, A, S, k + 1);
    }
  }

  /** For a base whose x is not zero the loop is right for every n of at least one. */
  lemma MultiplyRight(c: Curve, P: Projective, A: Affine, n: nat, width: nat)
    requires CurveOk(c) && Smooth(c) && Associative(Points(c)) && n < Pow(2, width)
    requires Inside(c, A) && A.At? && A.x != 0 && Proper(c, P, A)
    ensures var end := Pair(XzOps(c), P, n, width, 0); end.Some?
    ensures var result := Pair(XzOps(c), P, n, width, 0).value.0;
      if n == 0 then result == P else Proper(c, result, Multiple(c, A, n))
  {
    hide Associative, DiffAdd, Double, Proper, TurnKeeps, Times, Prefix, Inside;
    var ops, rep := XzOps(c), ProperMultiple(c, A);
    PointsClosed(c);
    TimesOne(Points(c), A);
    assert Multiple(c, A, 1) == A;
    assert rep(P, 1);
    DoubledMultiple(c, A, P, 1);
    forall j | 0 <= j < width
      ensures TurnFine(ops, P, rep, n, j)
    {
      EveryTurnKeeps(c, P, A, Prefix(n, j + 1));
    }
    PairResult(ops, P, rep, n, width);
  }

  // ---------------------------------------------------------------- bases with x zero

  /** Once the base is left, only infinity comes. */
  ghost function Lost(P: Projective): (Projective, nat) -> bool {
    (R: Projective, k: nat) => k >= 1 && (k == 1 ==> R == P) && (k >= 2 ==> R.Z == 0)
  }

  lemma ZeroParts(c: Curve, P: Projective, R: Projective, S: Projective)
    requires CurveOk(c) && PointOk(c, P) && (P.X == 0 || P.Z == 0)
    ensures P.X == 0 || (R.Z == 0 && S.Z == 0) ==> DiffAdd(c, R, S, P).Z == 0
    ensures R == P || R.Z == 0 ==> Double(c, R).Z == 0
  {
    hide IsPrime, Cong;
    DiffAddParts(c, R, S, P);
    DoubleParts(c, R);
    if P.X == 0 || (R.Z == 0 && S.Z == 0) {
      var v := 2 * (R.X * S.Z - R.Z * S.X);
      NothingLeft(v * v, P.X);
      ZeroOnly(c.p, DiffAdd(c, R, S, P).Z);
    }
    if R == P || R.Z == 0 {
      NothingLeft(R.X, R.Z);
      NothingLeft(4 * (R.X * R.Z), R.X * R.X + c.a * (R.X * R.Z) + R.Z * R.Z);
      ZeroOnly(c.p, Double(c, R).Z);
    }
  }

  lemma NothingLeft(x: int, y: int)
    requires x == 0 || y == 0
    ensures x * y == 0
  {
  }

  lemma ZeroOnly(p: int, x: int)
    requires Residue(p, x) && Cong(x, 0, p)
    ensures x == 0
  {
    ZeroIff(p, x);
  }

  lemma LostTurn(c: Curve, P: Projective, k: nat)
    requires CurveOk(c) && PointOk(c, P) && (P.X == 0 || P.Z == 0)
    ensures TurnKeeps(XzOps(c), P, Lost(P), k)
  {
    hide DiffAdd, Double;
    var ops, rep := XzOps(c), Lost(P);
    forall R, S | rep(R, k) && rep(S, k + 1)
      ensures ops.add(R, S, P).Some? && rep(ops.add(R, S, P).value, 2 * k + 1)
      ensures rep(ops.double(R), 2 * k) && rep(ops.double(S), 2 * k + 2)
    {
      ZeroParts(c, P, R, S);
      ZeroParts(c, P, S, R);
    }
  }

  lemma AllLost(c: Curve, P: Projective, n: nat, width: nat)
    requires CurveOk(c) && PointOk(c, P) && (P.X == 0 || P.Z == 0) && n < Pow(2, width)
    ensures Pair(XzOps(c), P, n, width, 0).Some?
    ensures var result := Pair(XzOps(c), P, n, width, 0).value.0; if n <= 1 then result == P else result.Z == 0
  {
    hide DiffAdd, Double, TurnKeeps, Prefix;
    var ops, rep := XzOps(c), Lost(P);
    assert rep(P, 1);
    ZeroParts(c, P, P, P);
    assert rep(ops.double(P), 2);
    forall j | 0 <= j < width
      ensures TurnFine(ops, P, rep, n, j)
    {
      LostTurn(c, P, Prefix(n, j + 1));
    }
    PairResult(ops, P, rep, n, width);
  }

  lemma NextMultiple(c: Curve, A: Affine, k: nat)
    requires CurveOk(c) && Smooth(c)
    ensures Multiple(c, A, 0) == Infinity && Multiple(c, A, k + 1) == Sum(c, A, Multiple(c, A, k))
  {
  }

  /** The multiples of a point that is its own negative. */
  lemma {:induction false} OrderTwo(c: Curve, A: Affine, k: nat)
    requires CurveOk(c) && Smooth(c) && Inside(c, A) && Sum(c, A, A) == Infinity
    ensures Multiple(c, A, k) == if k % 2 == 0 then Infinity else A
  {
    hide Sum, Inside, Multiple, CurveOk, Smooth;
    NextMultiple(c, A, if k > 0 then k - 1 else 0);
    if k > 0 {
      OrderTwo(c, A, k - 1);
      SumIsLeft(c, A);
    }
  }

  /** The point with x zero is its own negative. */
  lemma ZeroPoint(c: Curve, A: Affine)
    requires CurveOk(c) && Smooth(c) && Inside(c, A) && A.At? && A.x == 0
    ensures Sum(c, A, A) == Infinity
  {
    var p := c.p;
    assert Cubic(c, 0) == 0;
    ProductZero(p, c.b, A.y * A.y);
    ProductZero(p, A.y, A.y);
    CongAdd(A.y, 0, A.y, 0, p);
    SumIs(c, A, A, Infinity);
  }

  /** The loop always ends. What it gives for n of at least one stands for n times the base if
      and only if the x of the base is not zero, or n is one or even; for n = 0 it gives the
      base. */
  lemma MultiplyIff(c: Curve, P: Projective, A: Affine, n: nat, width: nat)
    requires CurveOk(c) && Smooth(c) && Associative(Points(c)) && n < Pow(2, width)
    requires Inside(c, A) && Proper(c, P, A)
    ensures Pair(XzOps(c), P, n, width, 0).Some?
    ensures var result := Pair(XzOps(c), P, n, width, 0).value.0;
      && (n == 0 ==> result == P)
      && (n >= 1 ==> (Stands(c, result, Multiple(c, A, n)) <==> A.Infinity? || A.x != 0 || n == 1 || n % 2 == 0))
  {
    hide Associative, DiffAdd, Double, Times, Prefix, Points, Sum, Pair;
    if A.At? && A.x != 0 {
      MultiplyRight(c, P, A, n, width);
    } else {
      if A.At? {
        ZeroPoint(c, A);
        assert 0 * P.Z == 0;
        ZeroIff(c.p, P.X);
      } else {
        SumIsLeft(c, A);
      }
      AllLost(c, P, n, width);
      OrderTwo(c, A, n);
    }
  }

  method EccMontgomeryMultiply(c: Curve, B: Point<Projective>, n: nat, width: nat, ghost A: Affine)
    returns (result: Option<Point<Projective>>)
    requires CurveOk(c) && Smooth(c) && Associative(Points(c)) && n < Pow(2, width)
    requires Inside(c, A) && Proper(c, B.value, A)
    ensures B.value == old(B.value) && result.Some? && fresh(result.value)
    ensures n == 0 ==> result.value.value == B.value
    ensures n >= 1 ==>
      (Stands(c, result.value.value, Multiple(c, A, n)) <==> A.Infinity? || A.x != 0 || n == 1 || n % 2 == 0)
  {
    hide Associative, Smooth, Proper, Inside, Stands;
    MultiplyIff(c, B.value, A, n, width);
    result := Multiply(XzOps(c), B, n, width);
  }
}
