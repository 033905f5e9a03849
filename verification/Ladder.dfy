/**
 The constant-time multiplication loop that the curve code repeats for its three kinds of
 curve: one addition and one doubling for every nominal bit of the multiplier, steered by
 conditional swaps and overwrites of the points themselves.
 */
module Ladder {
  import opened NumberTheory

  /** A point object; the conditional operations change it in place. */
  class Point<R> {
    var value: R

    constructor (value: R)
      ensures this.value == value
    {
      this.value := value;
    }
  }

  method CondSwap<R>(P: Point<R>, Q: Point<R>, swap: bool)
    modifies P, Q
    ensures P.value == old(if swap then Q.value else P.value)
    ensures Q.value == old(if swap then P.value else Q.value)
  {
    if swap {
      P.value, Q.value := Q.value, P.value;
    }
  }

  method CondOverwrite<R>(dest: Point<R>, src: Point<R>, overwrite: bool)
    modifies dest
    ensures dest.value == old(if overwrite then src.value else dest.value)
  {
    if overwrite {
      dest.value := src.value;
    }
  }

  datatype Option<+T> = None | Some(value: T)

  /** Addition is told the difference of its operands, which only the Montgomery form uses,
      and may refuse them, as only the Weierstrass form does. */
  datatype Ops<!R> = Ops(add: (R, R, R) -> Option<R>, double: R -> R)

  function Bit(n: nat, i: nat): bool {
    PowPositive(2, i);
    (n / Pow(2, i)) % 2 == 1
  }

  /** The number read off the bits of n from position i upwards. */
  function Prefix(n: nat, i: nat): (k: nat) {
    PowPositive(2, i);
    PrefixNat(n, Pow(2, i));
    n / Pow(2, i)
  }

  lemma PrefixNat(n: nat, m: int)
    requires m > 0
    ensures n / m >= 0
  {
  }

  lemma PrefixStep(n: nat, i: nat)
    ensures Prefix(n, i) == 2 * Prefix(n, i + 1) + (if Bit(n, i) then 1 else 0)
  {
    PowPositive(2, i);
    var m := Pow(2, i);
    var q, r := n / (2 * m), n % (2 * m);
    HalfQuotient(n, m, q, r);
  }

  lemma HalfQuotient(n: nat, m: int, q: int, r: int)
    requires m > 0 && q == n / (2 * m) && r == n % (2 * m)
    ensures n / m == 2 * q + (if (n / m) % 2 == 1 then 1 else 0)
  {
    assert n == (2 * m) * q + r;
    MulAssoc(2, m, q);
    if r < m {
      ModUnique(n, m, 2 * q, r);
    } else {
      assert n == m * (2 * q + 1) + (r - m) by { OneMore(m, 2 * q); MulAssoc(m, 2, q); }
      ModUnique(n, m, 2 * q + 1, r - m);
    }
  }

  lemma OneMore(m: int, x: int)
    ensures m * (x + 1) == m * x + m
  {
  }

  lemma PrefixBeyond(n: nat, width: nat)
    requires n < Pow(2, width)
    ensures Prefix(n, width) == 0
  {
    PowPositive(2, width);
    ModUnique(n, Pow(2, width), 0, n);
  }

  lemma PrefixAll(n: nat)
    ensures Prefix(n, 0) == n
  {
  }

  // ---------------------------------------------------------------- the loop on values

  function Start<R>(ops: Ops<R>, base: R): (R, R) {
    (base, ops.double(base))
  }

  /** One turn of the loop on the two points' values. */
  function Next<R>(ops: Ops<R>, base: R, pair: (R, R), nbit: bool): Option<(R, R)> {
    var sum := ops.add(pair.0, pair.1, base);
    if sum.None? then None
    else Some(if nbit then (sum.value, ops.double(pair.1)) else (ops.double(pair.0), sum.value))
  }

  /** The two points once the bits of n from position i upwards have been used, or nothing if
      an addition on the way was refused. Turns before the first bit that is set are made and
      their outcome is thrown away. */
  function Pair<R>(ops: Ops<R>, base: R, n: nat, width: nat, i: nat): Option<(R, R)>
    requires i <= width
    decreases width - i
  {
    if i == width then Some(Start(ops, base))
    else
      var before := Pair(ops, base, n, width, i + 1);
      if before.None? then None
      else
        var next := Next(ops, base, before.value, Bit(n, i));
        if next.None? then None
        else if Prefix(n, i + 1) == 0 then Some(Start(ops, base))
        else next
  }

  /** Which multiples of the base the turn for bit i adds: this one and the next. */
  function Operand(n: nat, i: nat): nat {
    if Prefix(n, i + 1) == 0 then 1 else Prefix(n, i + 1)
  }

  lemma {:induction false} StaysRefused<R>(ops: Ops<R>, base: R, n: nat, width: nat, j: nat, i: nat)
    requires i <= j <= width && Pair(ops, base, n, width, j).None?
    ensures Pair(ops, base, n, width, i).None?
    decreases j - i
  {
    if i < j {
      StaysRefused(ops, base, n, width, j, i + 1);
    }
  }

  /** rep(r, k) says that r stands for k times the base. The turn that adds the multiples k
      and k + 1 keeps that. */
  ghost predicate TurnKeeps<R(!new)>(ops: Ops<R>, base: R, rep: (R, nat) -> bool, k: nat) {
    forall r, s {:trigger rep(r, k), rep(s, k + 1)} :: rep(r, k) && rep(s, k + 1) ==>
      && ops.add(r, s, base).Some? && rep(ops.add(r, s, base).value, 2 * k + 1)
      && rep(ops.double(r), 2 * k) && rep(ops.double(s), 2 * k + 2)
  }

  /** What is asked of the turn for bit i: before the first bit that is set, only that its
      addition is not refused. */
  ghost predicate TurnFine<R(!new)>(ops: Ops<R>, base: R, rep: (R, nat) -> bool, n: nat, i: nat) {
    if Prefix(n, i + 1) == 0 then ops.add(base, ops.double(base), base).Some?
    else TurnKeeps(ops, base, rep, Prefix(n, i + 1))
  }

  ghost predicate Represents<R>(pair: (R, R), rep: (R, nat) -> bool, k: nat) {
    rep(pair.0, k) && rep(pair.1, k + 1)
  }

  /** While its turns are fine, the loop holds the multiples k and k + 1 of the base, k being
      the number read so far. */
  lemma {:induction false} PairRepresents<R(!new)>(ops: Ops<R>, base: R, rep: (R, nat) -> bool, n: nat, width: nat,
        i: nat)
    requires i <= width && n < Pow(2, width) && Represents(Start(ops, base), rep, 1)
    requires forall j :: i <= j < width ==> TurnFine(ops, base, rep, n, j)
    ensures Pair(ops, base, n, width, i).Some?
    ensures Represents(Pair(ops, base, n, width, i).value, rep, if Prefix(n, i) == 0 then 1 else Prefix(n, i))
    ensures Prefix(n, i) == 0 ==> Pair(ops, base, n, width, i).value == Start(ops, base)
    decreases width - i
  {
    hide Bit, Prefix;
    if i == width {
      PrefixBeyond(n, width);
    } else {
      PairRepresents(ops, base, rep, n, width, i + 1);
      PrefixStep(n, i);
      assert TurnFine(ops, base, rep, n, i);
      var k, before := Prefix(n, i + 1), Pair(ops, base, n, width, i + 1).value;
      assert rep(before.0, if k == 0 then 1 else k) && rep(before.1, if k == 0 then 2 else k + 1);
      assert k > 0 ==> Represents(before, rep, k);
      assert Next(ops, base, before, Bit(n, i)).Some?;
    }
  }

  lemma NothingSet<R(!new)>(ops: Ops<R>, base: R, n: nat, width: nat, i: nat)
    requires i <= width && n < Pow(2, i) && ops.add(base, ops.double(base), base).Some?
    ensures n < Pow(2, width) && Pair(ops, base, n, width, i) == Some(Start(ops, base))
  {
    PowMore(i, width);
    forall j | i <= j <= width
      ensures Prefix(n, j) == 0
    {
      PowMore(i, j);
      PrefixBeyond(n, j);
    }
    PairRepresents(ops, base, (r, k) => true, n, width, i);
  }

  lemma {:induction false} PowMore(i: nat, j: nat)
    requires i <= j
    ensures Pow(2, i) <= Pow(2, j)
  {
    if i < j {
      PowMore(i, j - 1);
      PowPositive(2, j - 1);
    }
  }

  /** If every turn is fine, the result stands for n times the base. */
  lemma PairResult<R(!new)>(ops: Ops<R>, base: R, rep: (R, nat) -> bool, n: nat, width: nat)
    requires n < Pow(2, width) && Represents(Start(ops, base), rep, 1)
    requires forall j :: 0 <= j < width ==> TurnFine(ops, base, rep, n, j)
    ensures var end := Pair(ops, base, n, width, 0);
      end.Some? && (if n == 0 then end.value.0 == base else rep(end.value.0, n))
  {
    PairRepresents(ops, base, rep, n, width, 0);
    PrefixAll(n);
  }

  // ---------------------------------------------------------------- the loop in place

  method Turn<R>(ops: Ops<R>, B: Point<R>, k_B: Point<R>, kplus1_B: Point<R>, nbit: bool)
    returns (pair: Option<(Point<R>, Point<R>)>)
    requires B != k_B && B != kplus1_B && k_B != kplus1_B
    modifies k_B, kplus1_B
    ensures pair.None? <==> old(Next(ops, B.value, (k_B.value, kplus1_B.value), nbit)).None?
    ensures pair.Some? ==>
      && fresh(pair.value.0) && fresh(pair.value.1) && pair.value.0 != pair.value.1
      && (pair.value.0.value, pair.value.1.value) == old(Next(ops, B.value, (k_B.value, kplus1_B.value), nbit)).value
  {
    var added := ops.add(k_B.value, kplus1_B.value, B.value);
    if added.None? {
      return None;
    }
    var sum := new Point(added.value);
    CondSwap(k_B, kplus1_B, nbit);
    var other := new Point(ops.double(k_B.value));
    CondSwap(other, sum, nbit);
    pair := Some((other, sum));
  }

  /** The multiplication: nothing if an addition is refused, and otherwise the first point of
      the last pair. */
  method Multiply<R>(ops: Ops<R>, B: Point<R>, n: nat, width: nat) returns (result: Option<Point<R>>)
    requires n < Pow(2, width)
    ensures B.value == old(B.value)
    ensures result.None? <==> Pair(ops, B.value, n, width, 0).None?
    ensures result.Some? ==> fresh(result.value) && result.value.value == Pair(ops, B.value, n, width, 0).value.0
  {
    hide Prefix, Bit;
    var two_B := new Point(ops.double(B.value));
    var k_B := new Point(B.value);
    var kplus1_B := new Point(two_B.value);
    var notStartedYet := true;
    PrefixBeyond(n, width);
    var bitindex := width;
    while bitindex > 0
      invariant 0 <= bitindex <= width
      invariant fresh(two_B) && fresh(k_B) && fresh(kplus1_B) && two_B != k_B && two_B != kplus1_B && k_B != kplus1_B
      invariant B.value == old(B.value) && two_B.value == ops.double(B.value)
      invariant notStartedYet <==> Prefix(n, bitindex) == 0
      invariant Pair(ops, B.value, n, width, bitindex) == Some((k_B.value, kplus1_B.value))
    {
      bitindex := bitindex - 1;
      PrefixStep(n, bitindex);
      var nbit := Bit(n, bitindex);

      var pair := Turn(ops, B, k_B, kplus1_B, nbit);
      if pair.None? {
        StaysRefused(ops, B.value, n, width, bitindex, 0);
        return None;
      }
      k_B, kplus1_B := pair.value.0, pair.value.1;

      CondOverwrite(k_B, B, notStartedYet);
      CondOverwrite(kplus1_B, two_B, notStartedYet);
      notStartedYet := notStartedYet && !nbit;
    }
    result := Some(k_B);
  }

  // ---------------------------------------------------------------- multiples in a group

  /** A set of points with an addition; what is outside is of no interest. */
  datatype Group<!G> = Group(add: (G, G) -> G, zero: G, inside: G -> bool)

  ghost predicate Associative<G(!new)>(g: Group<G>) {
    forall x, y, z {:trigger g.add(g.add(x, y), z)} {:trigger g.add(x, g.add(y, z))} ::
      g.inside(x) && g.inside(y) && g.inside(z) ==> g.add(g.add(x, y), z) == g.add(x, g.add(y, z))
  }

  ghost predicate Closed<G(!new)>(g: Group<G>) {
    && g.inside(g.zero)
    && (forall x, y {:trigger g.add(x, y)} :: g.inside(x) && g.inside(y) ==> g.inside(g.add(x, y)))
    && (forall x {:trigger g.add(g.zero, x)} :: g.inside(x) ==> g.add(g.zero, x) == x)
    && (forall x {:trigger g.add(x, g.zero)} :: g.inside(x) ==> g.add(x, g.zero) == x)
  }

  ghost function Times<G>(g: Group<G>, k: nat, x: G): G {
    if k == 0 then g.zero else g.add(x, Times(g, k - 1, x))
  }

  lemma {:induction false} TimesInside<G(!new)>(g: Group<G>, k: nat, x: G)
    requires Closed(g) && g.inside(x)
    ensures g.inside(Times(g, k, x))
  {
    if k > 0 {
      TimesInside(g, k - 1, x);
    }
  }

  lemma {:induction false} TimesAdd<G(!new)>(g: Group<G>, j: nat, k: nat, x: G)
    requires Closed(g) && Associative(g) && g.inside(x)
    ensures Times(g, j + k, x) == g.add(Times(g, j, x), Times(g, k, x))
  {
    TimesInside(g, k, x);
    if j > 0 {
      TimesInside(g, j - 1, x);
      TimesAdd(g, j - 1, k, x);
      assert Times(g, j + k, x) == g.add(x, Times(g, (j - 1) + k, x));
    }
  }

  lemma TimesOne<G(!new)>(g: Group<G>, x: G)
    requires Closed(g) && g.inside(x)
    ensures Times(g, 1, x) == x
  {
    assert Times(g, 1, x) == g.add(x, Times(g, 0, x));
  }
}
