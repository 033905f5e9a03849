/**
 The multiplication loop with the Edwards addition: on a complete curve it gives the multiple
 that is asked for, without exception.
 */
module EdwardsMultiply {
  import opened NumberTheory
  import opened Field
  import opened Edwards
  import opened EdwardsCorrect
  import opened Ladder

  // ---------------------------------------------------------------- multiples on the curve

  ghost predicate Inside(c: Curve, A: Affine) {
    AffineOk(c, A) && AffineOnCurve(c, A)
  }

  /** Every affine point has a representation. */
  lemma Lift(c: Curve, A: Affine) returns (P: Extended)
    requires CurveOk(c) && Inside(c, A)
    ensures OnCurve(c, P) && Stands(c, P, A)
  {
    P := Extended(A.x, A.y, 1, A.x * A.y);
    CongRefl(A.x * A.y, c.p);
    CongRefl(A.x, c.p);
    CongRefl(A.y, c.p);
    MulFour(A.x, A.y, A.x, A.y);
    if Divides(c.p, 1) { DividesUpTo(c.p, 1); }
  }

  lemma SomeSum(c: Curve, A: Affine, B: Affine)
    requires CurveOk(c) && Complete(c) && Inside(c, A) && Inside(c, B)
    ensures exists C :: Inside(c, C) && IsSum(c, A, B, C)
  {
    var P := Lift(c, A);
    var Q := Lift(c, B);
    var C := AddComplete(c, P, Q, A, B);
    assert Inside(c, C) && IsSum(c, A, B, C);
  }

  /** The unified addition law as a function. */
  ghost function Sum(c: Curve, A: Affine, B: Affine): (C: Affine)
    requires CurveOk(c) && Complete(c)
    ensures Inside(c, A) && Inside(c, B) ==> Inside(c, C) && IsSum(c, A, B, C)
  {
    if Inside(c, A) && Inside(c, B) then
      SomeSum(c, A, B);
      var C :| Inside(c, C) && IsSum(c, A, B, C);
      C
    else NEUTRAL
  }

  lemma SumIs(c: Curve, A: Affine, B: Affine, C: Affine)
    requires CurveOk(c) && Complete(c) && Inside(c, A) && Inside(c, B) && AffineOk(c, C) && IsSum(c, A, B, C)
    ensures Sum(c, A, B) == C
  {
    DenominatorsNonzero(c, A, B);
    var D := AffineSum(c, A, B);
  }

  ghost function Points(c: Curve): Group<Affine>
    requires CurveOk(c) && Complete(c)
  {
    Group((A, B) => Sum(c, A, B), NEUTRAL, A => Inside(c, A))
  }

  lemma PointsClosed(c: Curve)
    requires CurveOk(c) && Complete(c)
    ensures Closed(Points(c))
  {
    NeutralInside(c);
    forall A | Inside(c, A)
      ensures Sum(c, NEUTRAL, A) == A && Sum(c, A, NEUTRAL) == A
    {
      NeutralAndInverse(c, A);
      SumIs(c, NEUTRAL, A, A);
      SumIs(c, A, NEUTRAL, A);
    }
  }

  lemma NeutralInside(c: Curve)
    requires CurveOk(c)
    ensures Inside(c, NEUTRAL)
  {
    CongRefl(1, c.p);
    assert c.a * (0 * 0) + 1 * 1 == 1 && 1 + c.d * ((0 * 0) * (1 * 1)) == 1;
  }

  ghost function Multiple(c: Curve, A: Affine, k: nat): Affine
    requires CurveOk(c) && Complete(c)
  {
    Times(Points(c), k, A)
  }

  lemma MultiplesAdd(c: Curve, A: Affine, j: nat, k: nat, m: nat)
    requires CurveOk(c) && Complete(c) && Associative(Points(c)) && Inside(c, A) && m == j + k
    ensures Inside(c, Multiple(c, A, j)) && Inside(c, Multiple(c, A, k))
    ensures Sum(c, Multiple(c, A, j), Multiple(c, A, k)) == Multiple(c, A, m)
  {
    hide Associative, Closed, Inside, Sum, IsSum, CurveOk, Complete, Times;
    PointsClosed(c);
    TimesInside(Points(c), j, A);
    TimesInside(Points(c), k, A);
    TimesAdd(Points(c), j, k, A);
  }

  // ---------------------------------------------------------------- the loop

  function ExtendedOps(c: Curve): Ops<Extended>
    requires c.p > 0
  {
    Ops((P, Q, D) => Some(PointAdd(c, P, Q)), P => PointAdd(c, P, P))
  }

  ghost function StandsForMultiple(c: Curve, A: Affine): (Extended, nat) -> bool
    requires CurveOk(c) && Complete(c)
  {
    (P: Extended, k: nat) => OnCurve(c, P) && Stands(c, P, Multiple(c, A, k))
  }

  lemma AddMultiples(c: Curve, A: Affine, P: Extended, Q: Extended, j: nat, k: nat, m: nat)
    requires CurveOk(c) && Complete(c) && Associative(Points(c)) && Inside(c, A) && m == j + k
    requires StandsForMultiple(c, A)(P, j) && StandsForMultiple(c, A)(Q, k)
    ensures StandsForMultiple(c, A)(PointAdd(c, P, Q), m)
  {
    hide Associative, PointAdd, IsSum, Stands, OnCurve, AffineOnCurve, Complete, Times, Points;
    MultiplesAdd(c, A, j, k, m);
    var C := AddComplete(c, P, Q, Multiple(c, A, j), Multiple(c, A, k));
    SumIs(c, Multiple(c, A, j), Multiple(c, A, k), C);
  }

  lemma EveryTurnKeeps(c: Curve, P: Extended, A: Affine, k: nat)
    requires CurveOk(c) && Complete(c) && Associative(Points(c)) && Inside(c, A)
    ensures TurnKeeps(ExtendedOps(c), P, StandsForMultiple(c, A), k)
  {
    hide Associative, PointAdd, StandsForMultiple, Complete, Inside;
    var ops, rep := ExtendedOps(c), StandsForMultiple(c, A);
    forall R, S | rep(R, k) && rep(S, k + 1)
      ensures ops.add(R, S, P).Some? && rep(ops.add(R, S, P).value, 2 * k + 1)
      ensures rep(ops.double(R), 2 * k) && rep(ops.double(S), 2 * k + 2)
    {
      AddMultiples(c, A, R, S, k, k + 1, 2 * k + 1);
      AddMultiples(c, A, R, R, k, k, 2 * k);
      AddMultiples(c, A, S, S, k + 1, k + 1, 2 * k + 2);
    }
  }

  /** On a complete curve the loop ends with a point of the curve that stands for n times the
      base, for every base, every n of at least one and every nominal width; for n = 0 it ends
      with the base. */
  lemma MultiplyComplete(c: Curve, P: Extended, A: Affine, n: nat, width: nat)
    requires CurveOk(c) && Complete(c) && Associative(Points(c)) && n < Pow(2, width)
    requires OnCurve(c, P) && AffineOk(c, A) && Stands(c, P, A)
    ensures Pair(ExtendedOps(c), P, n, width, 0).Some?
    ensures var result := Pair(ExtendedOps(c), P, n, width, 0).value.0;
      if n == 0 then result == P else OnCurve(c, result) && Stands(c, result, Multiple(c, A, n))
  {
    hide Associative, PointAdd, Stands, OnCurve, Complete, TurnKeeps, Times, Prefix;
    var ops, rep := ExtendedOps(c), StandsForMultiple(c, A);
    DividedEquation(c, P, A);
    PointsClosed(c);
    TimesOne(Points(c), A);
    assert Multiple(c, A, 1) == A;
    assert rep(P, 1);
    AddMultiples(c, A, P, P, 1, 1, 2);
    forall j | 0 <= j < width
      ensures TurnFine(ops, P, rep, n, j)
    {
      EveryTurnKeeps(c, P, A, Prefix(n, j + 1));
    }
    PairResult(ops, P, rep, n, width);
  }

  method EccEdwardsMultiply(c: Curve, B: Point<Extended>, n: nat, width: nat, ghost A: Affine)
    returns (result: Option<Point<Extended>>)
    requires CurveOk(c) && Complete(c) && Associative(Points(c)) && n < Pow(2, width)
    requires OnCurve(c, B.value) && AffineOk(c, A) && Stands(c, B.value, A)
    ensures B.value == old(B.value) && result.Some? && fresh(result.value)
    ensures if n == 0 then result.value.value == B.value
            else OnCurve(c, result.value.value) && Stands(c, result.value.value, Multiple(c, A, n))
  {
    hide Associative, Complete, OnCurve, Stands;
    MultiplyComplete(c, B.value, A, n, width);
    result := Multiply(ExtendedOps(c), B, n, width);
  }
}
