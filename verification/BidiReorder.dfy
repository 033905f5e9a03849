/**
 The last step of the bidirectional algorithm: reversing runs of characters, pass by pass from
 the highest level down, while the levels stay where they are.
 */
module BidiReorder {
  import opened Marshal

  /** A character of the line: as it was, as it is shown, and where it came from. */
  datatype BidiChar = BidiChar(origwc: int, wc: int, index: int, nchars: int)

  // ---------------------------------------------------------------- runs of high levels

  /** Where the stretch of levels of at least t around a position begins. */
  function RunStart(level: Bytes, t: int, i: nat): (a: nat)
    requires i < |level| && level[i] as int >= t
    ensures a <= i && (a > 0 ==> level[a - 1] as int < t) && forall k :: a <= k <= i ==> level[k] as int >= t
  {
    if i == 0 || level[i - 1] as int < t then i else RunStart(level, t, i - 1)
  }

  function RunEnd(level: Bytes, t: int, i: nat): (b: nat)
    requires i < |level| && level[i] as int >= t
    ensures i < b <= |level| && (b < |level| ==> level[b] as int < t) && forall k :: i <= k < b ==> level[k] as int >= t
    decreases |level| - i
  {
    if i + 1 == |level| || level[i + 1] as int < t then i + 1 else RunEnd(level, t, i + 1)
  }

  /** The first position from a on whose level is exactly t, or b. */
  function FirstExact(level: Bytes, t: int, a: nat, b: nat): (p: nat)
    requires a <= b <= |level|
    ensures a <= p <= b && (p < b ==> level[p] as int == t) && forall k :: a <= k < p ==> level[k] as int != t
    decreases b - a
  {
    if a == b || level[a] as int == t then a else FirstExact(level, t, a + 1, b)
  }

  lemma RunIs(level: Bytes, t: int, a: nat, b: nat, i: nat)
    requires a <= i < b <= |level| && (forall k :: a <= k < b ==> level[k] as int >= t)
    requires (a > 0 ==> level[a - 1] as int < t) && (b < |level| ==> level[b] as int < t)
    ensures RunStart(level, t, i) == a && RunEnd(level, t, i) == b
  {
  }

  // ---------------------------------------------------------------- one pass

  /** Rule L2 of UAX #9 (section 3.4) for one level: the position that the character at i comes
      from when every run of that level or higher is reversed. */
  function L2Source(level: Bytes, t: int, i: nat): (k: nat)
    requires i < |level|
    ensures k < |level|
  {
    if level[i] as int < t then i else RunStart(level, t, i) + RunEnd(level, t, i) - 1 - i
  }

  /** The same for the pass of the program, which starts reversing a run only at its first
      character of exactly that level. */
  function FlipSource(level: Bytes, t: int, i: nat): (k: nat)
    requires i < |level|
    ensures k < |level|
  {
    if level[i] as int < t then i
    else
      var b := RunEnd(level, t, i);
      var p := FirstExact(level, t, RunStart(level, t, i), b);
      if i < p then i else p + b - 1 - i
  }

  function L2Pass(level: Bytes, t: int): (r: seq<nat>)
    ensures |r| == |level| && forall i :: 0 <= i < |r| ==> r[i] == L2Source(level, t, i)
  {
    seq(|level|, i requires 0 <= i < |level| => L2Source(level, t, i))
  }

  function FlipPass(level: Bytes, t: int): (r: seq<nat>)
    ensures |r| == |level| && forall i :: 0 <= i < |r| ==> r[i] == FlipSource(level, t, i)
  {
    seq(|level|, i requires 0 <= i < |level| => FlipSource(level, t, i))
  }

  /** A text with its characters taken from the given positions. */
  function Arrange<T>(text: seq<T>, order: seq<nat>): (r: seq<T>)
    requires forall i :: 0 <= i < |order| ==> order[i] < |text|
    ensures |r| == |order| && forall i :: 0 <= i < |r| ==> r[i] == text[order[i]]
  {
    seq(|order|, i requires 0 <= i < |order| => text[order[i]])
  }

  method FindIndexOfRun(level: array<Byte>, start: nat, count: nat, tlevel: int) returns (i: nat)
    requires start <= count == level.Length
    ensures i == FirstExact(level[..], tlevel, start, count)
  {
    i := start;
    while i < count
      invariant start <= i <= count && FirstExact(level[..], tlevel, start, count) ==
          FirstExact(level[..], tlevel, i, count)
    {
      if tlevel == level[i] as int {
        return;
      }
      i := i + 1;
    }
  }

  method EndOfRun(level: array<Byte>, start: nat, count: nat, tlevel: int) returns (i: nat)
    requires start <= count == level.Length
    ensures start <= i <= count && (forall k :: start <= k < i ==> level[k] as int >= tlevel)
    ensures i < count ==> level[i] as int < tlevel
  {
    i := start;
    while i < count && tlevel <= level[i] as int
      invariant start <= i <= count && forall k :: start <= k < i ==> level[k] as int >= tlevel
    {
      i := i + 1;
    }
  }

  method Reverse(from: array<BidiChar>, start: nat, end: nat)
    requires start <= end <= from.Length
    modifies from
    ensures forall k :: 0 <= k < from.Length ==>
      from[k] == old(from[if start <= k < end then start + end - 1 - k else k])
  {
    var j, k := start, end - 1;
    while k > j
      invariant start <= j <= k + 1 && k == start + end - 1 - j
      invariant forall m :: 0 <= m < from.Length ==>
        from[m] == old(from[if start <= m < j || k < m < end then start + end - 1 - m else m])
    {
      from[k], from[j] := from[j], from[k];
      k := k - 1;
      j := j + 1;
    }
  }

  /** One pass over the text. */
  method FlipThisRun(from: array<BidiChar>, level: array<Byte>, max: int)
    requires from.Length == level.Length
    modifies from
    ensures level[..] == old(level[..]) && from[..] == Arrange(old(from[..]), FlipPass(level[..], max))
  {
    hide FlipSource, FirstExact;
    ghost var text, levels := from[..], level[..];
    var count := from.Length;
    var i, j := 0, 0;
    while i < count && j < count
      invariant 0 <= i <= count && level[..] == levels && (j >= count ==> i >= count)
      invariant 0 < i < count ==> levels[i] as int < max
      invariant forall k :: 0 <= k < count ==> from[k] == text[if k < i then FlipSource(levels, max, k) else k]
      decreases count - i, count - j
    {
      ghost var before := i;
      j := FindIndexOfRun(level, i, count, max);
      i := EndOfRun(level, j, count, max);
      FlipStretch(levels, max, before, j, i);
      ghost var middle := from[..];
      Reverse(from, j, i);
      TurnDone(levels, max, text, middle, from[..], before, j, i);
    }
    assert from[..] == Arrange(text, FlipPass(levels, max));
  }

  lemma TurnDone(level: Bytes, t: int, text: seq<BidiChar>, middle: seq<BidiChar>, after: seq<BidiChar>, i: nat,
        p: nat, q: nat)
    requires i <= p <= q <= |level| == |text| == |middle| == |after|
    requires forall k :: 0 <= k < |text| ==> middle[k] == text[if k < i then FlipSource(level, t, k) else k]
    requires forall k :: 0 <= k < |text| ==> after[k] == middle[if p <= k < q then p + q - 1 - k else k]
    requires forall k :: i <= k < p ==> FlipSource(level, t, k) == k
    requires forall k :: p <= k < q ==> FlipSource(level, t, k) == p + q - 1 - k
    ensures forall k :: 0 <= k < |text| ==> after[k] == text[if k < q then FlipSource(level, t, k) else k]
  {
    hide FlipSource;
  }

  lemma {:induction false} ExactFrom(level: Bytes, t: int, a: nat, b: nat, p: nat)
    requires a <= p <= b <= |level| && (forall k :: a <= k < p ==> level[k] as int != t)
    requires p < b ==> level[p] as int == t
    ensures FirstExact(level, t, a, b) == p
    decreases p - a
  {
    if a < p { ExactFrom(level, t, a + 1, b, p); }
  }

  lemma NotMoved(level: Bytes, t: int, i: nat, p: nat, k: nat)
    requires i <= k < p <= |level| && (forall m :: i <= m < p ==> level[m] as int != t)
    requires 0 < i < |level| ==> level[i] as int < t
    ensures FlipSource(level, t, k) == k
  {
    hide FirstExact, RunStart, RunEnd;
    if level[k] as int >= t {
      StretchStart(level, t, i, k);
    }
  }

  lemma Turned(level: Bytes, t: int, i: nat, p: nat, q: nat, k: nat)
    requires i <= p <= k < q <= |level| && (forall m :: i <= m < p ==> level[m] as int != t) && level[p] as int == t
    requires 0 < i < |level| ==> level[i] as int < t
    requires (forall m :: p <= m < q ==> level[m] as int >= t) && (q < |level| ==> level[q] as int < t)
    ensures FlipSource(level, t, k) == p + q - 1 - k
  {
    hide FirstExact, RunStart, RunEnd;
    var a := RunStart(level, t, p);
    StretchStart(level, t, i, p);
    RunIs(level, t, a, q, k);
    ExactFrom(level, t, a, q, p);
  }

  /** What one turn of the pass covers: nothing moves up to the first exact level, and from
      there to the end of the run everything is reversed. */
  lemma FlipStretch(level: Bytes, t: int, i: nat, p: nat, q: nat)
    requires i <= p <= q <= |level| && p == FirstExact(level, t, i, |level|)
    requires 0 < i < |level| ==> level[i] as int < t
    requires (forall k :: p <= k < q ==> level[k] as int >= t) && (q < |level| ==> level[q] as int < t)
    ensures forall k :: i <= k < p ==> FlipSource(level, t, k) == k
    ensures forall k :: p <= k < q ==> FlipSource(level, t, k) == p + q - 1 - k
    ensures p < |level| ==> p < q
  {
    hide FirstExact, RunStart, RunEnd, FlipSource;
    forall k | i <= k < p
      ensures FlipSource(level, t, k) == k
    {
      NotMoved(level, t, i, p, k);
    }
    forall k | p <= k < q
      ensures FlipSource(level, t, k) == p + q - 1 - k
    {
      Turned(level, t, i, p, q, k);
    }
  }

  lemma StretchStart(level: Bytes, t: int, i: nat, k: nat)
    requires i <= k < |level| && level[k] as int >= t && (0 < i < |level| ==> level[i] as int < t)
    ensures RunStart(level, t, k) >= i
  {
  }

  // ---------------------------------------------------------------- when a pass is rule L2

  /** Every run of two or more characters of level at least t begins at level exactly t. */
  ghost predicate RunsBeginExactly(level: Bytes, t: int) {
    forall i :: 0 <= i < |level| - 1 && level[i] as int > t && level[i + 1] as int >= t ==>
      i > 0 && level[i - 1] as int >= t
  }

  /** The pass is rule L2 for every text just when all such runs begin at exactly its level. */
  lemma PassIsL2Iff(level: Bytes, t: int)
    ensures FlipPass(level, t) == L2Pass(level, t) <==> RunsBeginExactly(level, t)
  {
    hide FirstExact, RunStart, RunEnd, FlipSource, L2Source;
    if RunsBeginExactly(level, t) {
      forall i | 0 <= i < |level|
        ensures FlipSource(level, t, i) == L2Source(level, t, i)
      {
        SameSource(level, t, i);
      }
    } else {
      var i :| 0 <= i < |level| - 1 && level[i] as int > t && level[i + 1] as int >= t &&
          (i == 0 || level[i - 1] as int < t);
      DifferentSource(level, t, i);
      assert FlipPass(level, t)[i] != L2Pass(level, t)[i];
    }
  }

  lemma RunOfOne(level: Bytes, t: int, a: nat, b: nat)
    requires RunsBeginExactly(level, t) && a < b <= |level|
    requires level[a] as int > t && (a > 0 ==> level[a - 1] as int < t)
    requires forall k :: a <= k < b ==> level[k] as int >= t
    ensures b == a + 1
  {
    if a + 1 < b {
      NotExact(level, t, a);
      assert false;
    }
  }

  lemma NotExact(level: Bytes, t: int, a: nat)
    requires a + 1 < |level| && level[a] as int > t && level[a + 1] as int >= t && (a > 0 ==> level[a - 1] as int < t)
    ensures !RunsBeginExactly(level, t)
  {
  }

  lemma SameSource(level: Bytes, t: int, i: nat)
    requires RunsBeginExactly(level, t) && i < |level|
    ensures FlipSource(level, t, i) == L2Source(level, t, i)
  {
    if level[i] as int >= t {
      var a, b := RunStart(level, t, i), RunEnd(level, t, i);
      hide FirstExact, RunStart, RunEnd;
      if level[a] as int == t {
        ExactFrom(level, t, a, b, a);
      } else {
        RunOfOne(level, t, a, b);
      }
    }
  }

  lemma DifferentSource(level: Bytes, t: int, i: nat)
    requires i < |level| - 1 && level[i] as int > t && level[i + 1] as int >= t && (i == 0 || level[i - 1] as int < t)
    ensures FlipSource(level, t, i) == i && L2Source(level, t, i) > i
  {
    hide FirstExact;
    assert RunStart(level, t, i) == i && RunEnd(level, t, i) >= i + 2;
  }

  /** Different orders arrange some text differently: that of the characters' own positions. */
  lemma OrdersDiffer(p: seq<nat>, q: seq<nat>)
    requires |p| == |q| && p != q && forall i :: 0 <= i < |p| ==> p[i] < |p| && q[i] < |p|
    ensures Arrange(Identity(|p|), p) != Arrange(Identity(|p|), q)
  {
    var i :| 0 <= i < |p| && p[i] != q[i];
    assert Arrange(Identity(|p|), p)[i] != Arrange(Identity(|p|), q)[i];
  }

  /** The topmost pass is always right. */
  lemma TopPassIsL2(level: Bytes, t: int)
    requires forall k :: 0 <= k < |level| ==> level[k] as int <= t
    ensures FlipPass(level, t) == L2Pass(level, t)
  {
    PassIsL2Iff(level, t);
  }

  // ---------------------------------------------------------------- all passes

  predicate IsPermutation(order: seq<nat>) {
    && (forall i :: 0 <= i < |order| ==> order[i] < |order|)
    && forall i, j :: 0 <= i < j < |order| ==> order[i] != order[j]
  }

  /** A pass is its own inverse. */
  lemma FlipTwice(level: Bytes, t: int, i: nat)
    requires i < |level|
    ensures FlipSource(level, t, FlipSource(level, t, i)) == i
  {
    if level[i] as int >= t {
      var a, b := RunStart(level, t, i), RunEnd(level, t, i);
      var k := FlipSource(level, t, i);
      hide RunStart, RunEnd;
      assert a <= k < b;
      RunIs(level, t, a, b, k);
    }
  }

  lemma PassPermutes(level: Bytes, t: int)
    ensures IsPermutation(FlipPass(level, t))
  {
    hide FlipSource;
    var r := FlipPass(level, t);
    forall i, j | 0 <= i < j < |r|
      ensures r[i] != r[j]
    {
      FlipTwice(level, t, i);
      FlipTwice(level, t, j);
    }
  }

  /** The order of the characters after the passes from level t down to one, begun with an order. */
  function FlipDown(level: Bytes, t: nat, order: seq<nat>): (r: seq<nat>)
    requires |order| == |level|
    ensures |r| == |level|
    decreases t
  {
    if t == 0 then order else FlipDown(level, t - 1, Arrange(order, FlipPass(level, t)))
  }

  function L2Down(level: Bytes, t: nat, order: seq<nat>): (r: seq<nat>)
    requires |order| == |level|
    ensures |r| == |level|
    decreases t
  {
    if t == 0 then order else L2Down(level, t - 1, Arrange(order, L2Pass(level, t)))
  }

  function Identity(n: nat): (r: seq<nat>)
    ensures |r| == n && forall i :: 0 <= i < n ==> r[i] == i
  {
    seq(n, i => i)
  }

  lemma ArrangePermutes(order: seq<nat>, pass: seq<nat>)
    requires IsPermutation(order) && IsPermutation(pass) && |order| == |pass|
    ensures IsPermutation(Arrange(order, pass))
  {
    var r := Arrange(order, pass);
    forall i, j | 0 <= i < j < |r|
      ensures r[i] != r[j]
    {
      assert pass[i] != pass[j];
    }
  }

  /** Nothing is lost or doubled by any number of passes. */
  lemma {:induction false} FlipDownPermutes(level: Bytes, t: nat, order: seq<nat>)
    requires |order| == |level| && IsPermutation(order)
    ensures IsPermutation(FlipDown(level, t, order))
    decreases t
  {
    hide FlipSource, IsPermutation;
    if t > 0 {
      PassPermutes(level, t);
      ArrangePermutes(order, FlipPass(level, t));
      FlipDownPermutes(level, t - 1, Arrange(order, FlipPass(level, t)));
    }
  }

  /** If runs begin exactly at every level down to one, all passes together are rule L2. */
  lemma {:induction false} FlipDownIsL2(level: Bytes, t: nat, order: seq<nat>)
    requires |order| == |level| && forall u :: 1 <= u <= t ==> RunsBeginExactly(level, u)
    ensures FlipDown(level, t, order) == L2Down(level, t, order)
    decreases t
  {
    hide FlipSource, L2Source, RunsBeginExactly;
    if t > 0 {
      PassIsL2Iff(level, t);
      FlipDownIsL2(level, t - 1, Arrange(order, L2Pass(level, t)));
    }
  }

  // ---------------------------------------------------------------- how far down

  /** The lowest odd level, or one more than twice a bound when there is none. */
  function LowestOdd(level: Bytes): (m: nat)
    ensures m % 2 == 1 && (forall i :: 0 <= i < |level| && level[i] % 2 == 1 ==> m <= level[i] as int)
    ensures m == 257 || exists i :: 0 <= i < |level| && level[i] as int == m
  {
    if level == [] then 257
    else
      var m := LowestOdd(level[1..]);
      assert forall i :: 0 < i < |level| ==> level[i] == level[1..][i - 1];
      assert m == 257 || exists i :: 0 < i < |level| && level[i] as int == m;
      if level[0] % 2 == 1 && (level[0] as int) < m then level[0] as int else m
  }

  /** Rule L2 of UAX #9 (section 3.4): the passes from level t down to the lowest odd level. */
  function RuleL2(level: Bytes, t: nat, order: seq<nat>): (r: seq<nat>)
    requires |order| == |level|
    ensures |r| == |level|
    decreases t
  {
    if t < LowestOdd(level) then order else RuleL2(level, t - 1, Arrange(order, L2Pass(level, t)))
  }

  lemma L2Twice(level: Bytes, t: int, i: nat)
    requires i < |level|
    ensures L2Source(level, t, L2Source(level, t, i)) == i
  {
    if level[i] as int >= t {
      var a, b, k := RunStart(level, t, i), RunEnd(level, t, i), L2Source(level, t, i);
      hide RunStart, RunEnd;
      RunIs(level, t, a, b, k);
    }
  }

  /** Where no level lies in between, two passes are the same. */
  lemma SamePass(level: Bytes, t: int)
    requires forall i :: 0 <= i < |level| ==> level[i] as int != t
    ensures L2Pass(level, t) == L2Pass(level, t + 1)
  {
    forall i | 0 <= i < |level|
      ensures L2Source(level, t, i) == L2Source(level, t + 1, i)
    {
      if level[i] as int >= t {
        var a, b := RunStart(level, t, i), RunEnd(level, t, i);
        hide RunStart, RunEnd;
        RunIs(level, t + 1, a, b, i);
      }
    }
  }

  /** Below the lowest odd level the passes undo each other two by two. */
  lemma {:induction false} LowPassesCancel(level: Bytes, t: nat, order: seq<nat>)
    requires |order| == |level| && t % 2 == 0 && t < LowestOdd(level)
    ensures L2Down(level, t, order) == order
    decreases t
  {
    hide L2Source, LowestOdd;
    if t > 0 {
      assert forall i :: 0 <= i < |level| ==> level[i] as int != t - 1;
      SamePass(level, t - 1);
      var pass := L2Pass(level, t);
      var once := Arrange(order, pass);
      var twice := Arrange(once, L2Pass(level, t - 1));
      forall i | 0 <= i < |level|
        ensures twice[i] == order[i]
      {
        L2Twice(level, t, i);
      }
      assert twice == order;
      assert L2Down(level, t - 1, once) == L2Down(level, t - 2, twice);
      LowPassesCancel(level, t - 2, order);
    }
  }

  /** So going down to level one is rule L2, where it is used with the highest level or more. */
  lemma {:induction false} DownToOneIsRuleL2(level: Bytes, t: nat, order: seq<nat>)
    requires |order| == |level| && (t < LowestOdd(level) ==> t % 2 == 0)
    ensures L2Down(level, t, order) == RuleL2(level, t, order)
    decreases t
  {
    hide L2Source, LowestOdd;
    if t < LowestOdd(level) {
      LowPassesCancel(level, t, order);
    } else {
      DownToOneIsRuleL2(level, t - 1, Arrange(order, L2Pass(level, t)));
    }
  }

  lemma ArrangeInjective(order: seq<nat>, f: seq<nat>, g: seq<nat>)
    requires IsPermutation(order) && |f| == |g|
    requires forall i :: 0 <= i < |f| ==> f[i] < |order| && g[i] < |order|
    ensures Arrange(order, f) == Arrange(order, g) <==> f == g
  {
    if Arrange(order, f) == Arrange(order, g) {
      forall i | 0 <= i < |f|
        ensures f[i] == g[i]
      {
        assert Arrange(order, f)[i] == Arrange(order, g)[i];
      }
    }
  }

  /** With levels of two at most, the program's order is that of rule L2 if and only if every run
      of two or more raised characters begins at level one. */
  lemma LowLevelsIff(level: Bytes, t: nat)
    requires t <= 2 && (t == 0 || exists i :: 0 <= i < |level| && level[i] as int == t)
    requires forall i :: 0 <= i < |level| ==> level[i] as int <= t
    ensures FlipDown(level, t, Identity(|level|)) == RuleL2(level, t, Identity(|level|)) <==> RunsBeginExactly(level, 1)
  {
    hide FlipSource, L2Source;
    var id := Identity(|level|);
    DownToOneIsRuleL2(level, t, id);
    if t <= 1 {
      FlipDownIsL2(level, t, id);
    } else {
      FlipDownTwo(level, id);
      TopPassIsL2(level, 2);
      PassPermutes(level, 2);
      ArrangePermutes(id, FlipPass(level, 2));
      ArrangeInjective(Arrange(id, FlipPass(level, 2)), FlipPass(level, 1), L2Pass(level, 1));
      PassIsL2Iff(level, 1);
    }
  }

  // ---------------------------------------------------------------- exactly when all passes are rule L2

  /** The order after the passes from a top level down to t. */
  function FlipsFrom(level: Bytes, top: nat, t: nat): (r: seq<nat>)
    ensures |r| == |level|
    decreases top + 1 - t
  {
    if t > top then Identity(|level|) else Arrange(FlipsFrom(level, top, t + 1), FlipPass(level, t))
  }

  function L2From(level: Bytes, top: nat, t: nat): (r: seq<nat>)
    ensures |r| == |level|
    decreases top + 1 - t
  {
    if t > top then Identity(|level|) else Arrange(L2From(level, top, t + 1), L2Pass(level, t))
  }

  lemma {:induction false} DownIsFrom(level: Bytes, top: nat, t: nat)
    requires t <= top
    ensures FlipDown(level, t, FlipsFrom(level, top, t + 1)) == FlipsFrom(level, top, 1)
    ensures L2Down(level, t, L2From(level, top, t + 1)) == L2From(level, top, 1)
  {
    hide FlipPass, L2Pass;
    if t > 0 {
      DownIsFrom(level, top, t - 1);
    }
  }

  /** Whether the program arranges the run around a position as rule L2 does, once the passes down
      to level t are done: if the run begins at exactly that level, what is in it must be right;
      if nothing in it is at exactly that level, the program leaves out a reversal, so that it must
      be the other way round; and otherwise it is wrong. */
  predicate Right(level: Bytes, top: nat, t: nat, i: nat)
    requires i < |level|
    decreases top + 1 - t, 0
  {
    t > top || level[i] as int < t ||
    var a, b := RunStart(level, t, i), RunEnd(level, t, i);
    var p := FirstExact(level, t, a, b);
    if p == a then AllRight(level, top, t + 1, a, b)
    else p == b && Reversed(level, top, t + 1, i)
  }

  /** Whether it arranges the run in just the opposite order. */
  predicate Reversed(level: Bytes, top: nat, t: nat, i: nat)
    requires i < |level|
    decreases top + 1 - t, 0
  {
    t > top || level[i] as int < t ||
    var a, b := RunStart(level, t, i), RunEnd(level, t, i);
    var p := FirstExact(level, t, a, b);
    if p == a then b == a + 1
    else if p == b then Right(level, top, t + 1, i)
    else b == p + 1 && Right(level, top, t + 1, a)
  }

  predicate AllRight(level: Bytes, top: nat, t: nat, a: nat, b: nat)
    requires b <= |level|
    decreases top + 1 - t, 1
  {
    forall j :: a <= j < b ==> Right(level, top, t, j)
  }

  predicate IsRun(level: Bytes, t: int, a: nat, b: nat) {
    && a < b <= |level| && (forall k :: a <= k < b ==> level[k] as int >= t)
    && (a > 0 ==> level[a - 1] as int < t) && (b < |level| ==> level[b] as int < t)
  }

  lemma SourcesStay(level: Bytes, u: int, t: int, a: nat, b: nat, i: nat)
    requires IsRun(level, u, a, b) && u <= t && a <= i < b
    ensures a <= FlipSource(level, t, i) < b && a <= L2Source(level, t, i) < b
  {
    if level[i] as int >= t {
      var c, d := RunStart(level, t, i), RunEnd(level, t, i);
      hide RunStart, RunEnd;
      assert c >= a && d <= b;
    }
  }

  /** The passes down to t move nothing out of a run of that level or of a lower one. */
  lemma {:induction false} RunsStay(level: Bytes, top: nat, u: nat, t: nat, a: nat, b: nat, i: nat)
    requires IsRun(level, u, a, b) && u <= t && a <= i < b
    ensures a <= FlipsFrom(level, top, t)[i] < b && a <= L2From(level, top, t)[i] < b
    decreases top + 1 - t
  {
    assert b <= |level|;
    hide FlipSource, L2Source, IsRun;
    if t <= top {
      SourcesStay(level, u, t, a, b, i);
      RunsStay(level, top, u, t + 1, a, b, FlipSource(level, t, i));
      RunsStay(level, top, u, t + 1, a, b, L2Source(level, t, i));
    }
  }

  lemma {:induction false} LowStay(level: Bytes, top: nat, t: nat, i: nat)
    requires i < |level| && (level[i] as int) < t
    ensures FlipsFrom(level, top, t)[i] == i == L2From(level, top, t)[i]
    decreases top + 1 - t
  {
    hide RunStart, RunEnd, FirstExact;
    if t <= top { LowStay(level, top, t + 1, i); }
  }

  /** What is above a position of exactly level t stays on its side of it. */
  lemma AboveStays(level: Bytes, top: nat, t: nat, p: nat, j: nat)
    requires p < |level| && level[p] as int == t && j < |level| && level[j] as int >= t
    ensures var f, s := FlipsFrom(level, top, t + 1)[j], L2From(level, top, t + 1)[j];
      && (j > p ==> f > p && s > p) && (j < p ==> f < p && s < p) && (j == p ==> f == p == s)
  {
    hide FlipsFrom, L2From;
    if level[j] as int == t {
      LowStay(level, top, t + 1, j);
    } else {
      RunBeside(level, top, t, p, j);
    }
  }

  lemma RunBeside(level: Bytes, top: nat, t: nat, p: nat, j: nat)
    requires p < |level| && level[p] as int == t && j < |level| && level[j] as int > t
    ensures var f, s := FlipsFrom(level, top, t + 1)[j], L2From(level, top, t + 1)[j];
      (j > p ==> f > p && s > p) && (j < p ==> f < p && s < p) && j != p
  {
    var a, b := RunStart(level, t + 1, j), RunEnd(level, t + 1, j);
    hide RunStart, RunEnd, FlipsFrom, L2From;
    assert IsRun(level, t + 1, a, b);
    assert !(a <= p < b);
    hide IsRun;
    RunsStay(level, top, t + 1, t + 1, a, b, j);
  }

  ghost predicate Same(f: seq<nat>, s: seq<nat>, a: nat, b: nat)
    requires b <= |f| == |s|
  {
    forall j :: a <= j < b ==> f[j] == s[j]
  }

  ghost predicate Opposite(f: seq<nat>, s: seq<nat>, a: nat, b: nat)
    requires b <= |f| == |s|
  {
    forall j :: a <= j < b ==> f[j] == s[a + b - 1 - j]
  }

  ghost predicate SameOn(level: Bytes, top: nat, t: nat, a: nat, b: nat)
    requires b <= |level|
  {
    Same(FlipsFrom(level, top, t), L2From(level, top, t), a, b)
  }

  ghost predicate OppositeOn(level: Bytes, top: nat, t: nat, a: nat, b: nat)
    requires b <= |level|
  {
    Opposite(FlipsFrom(level, top, t), L2From(level, top, t), a, b)
  }

  /** One order is the other with everything from p on reversed. */
  ghost predicate TurnedFrom(f: seq<nat>, g: seq<nat>, a: nat, p: nat, b: nat)
    requires a <= p <= b <= |f| == |g|
  {
    (forall j :: a <= j < p ==> f[j] == g[j]) && forall j :: p <= j < b ==> f[j] == g[p + b - 1 - j]
  }

  lemma PassOnRun(level: Bytes, top: nat, t: nat, a: nat, b: nat)
    requires IsRun(level, t, a, b) && t <= top
    ensures TurnedFrom(FlipsFrom(level, top, t), FlipsFrom(level, top, t + 1), a, FirstExact(level, t, a, b), b)
    ensures TurnedFrom(L2From(level, top, t), L2From(level, top, t + 1), a, a, b)
  {
    assert b <= |level|;
    hide FirstExact, FlipsFrom, L2From, IsRun, TurnedFrom;
    FlipTurns(level, top, t, a, b, FirstExact(level, t, a, b), FlipsFrom(level, top, t), FlipsFrom(level, top, t + 1));
    L2Turns(level, top, t, a, b, L2From(level, top, t), L2From(level, top, t + 1));
  }

  lemma FlipTurns(level: Bytes, top: nat, t: nat, a: nat, b: nat, p: nat, f: seq<nat>, g: seq<nat>)
    requires IsRun(level, t, a, b) && t <= top && p == FirstExact(level, t, a, b)
    requires f == FlipsFrom(level, top, t) && g == FlipsFrom(level, top, t + 1)
    ensures TurnedFrom(f, g, a, p, b)
  {
    hide FirstExact, FlipsFrom, L2From;
    forall j | a <= j < p
      ensures f[j] == g[j]
    {
      PassAt(level, top, t, a, b, j);
    }
    forall j | p <= j < b
      ensures f[j] == g[p + b - 1 - j]
    {
      PassAt(level, top, t, a, b, j);
    }
  }

  lemma L2Turns(level: Bytes, top: nat, t: nat, a: nat, b: nat, s: seq<nat>, r: seq<nat>)
    requires IsRun(level, t, a, b) && t <= top && s == L2From(level, top, t) && r == L2From(level, top, t + 1)
    ensures TurnedFrom(s, r, a, a, b)
  {
    hide FirstExact, FlipsFrom, L2From;
    forall j | a <= j < b
      ensures s[j] == r[a + b - 1 - j]
    {
      PassAt(level, top, t, a, b, j);
    }
  }

  lemma PassAt(level: Bytes, top: nat, t: nat, a: nat, b: nat, j: nat)
    requires IsRun(level, t, a, b) && a <= j < b && t <= top
    ensures var p := FirstExact(level, t, a, b);
      FlipsFrom(level, top, t)[j] == FlipsFrom(level, top, t + 1)[if j < p then j else p + b - 1 - j]
    ensures L2From(level, top, t)[j] == L2From(level, top, t + 1)[a + b - 1 - j]
  {
    hide FlipSource, L2Source, FirstExact;
    SourcesOnRun(level, t, a, b, j);
  }

  lemma BothTurned(f: seq<nat>, g: seq<nat>, s: seq<nat>, r: seq<nat>, a: nat, b: nat)
    requires a <= b <= |f| == |g| == |s| == |r| && TurnedFrom(f, g, a, a, b) && TurnedFrom(s, r, a, a, b)
    ensures Same(f, s, a, b) <==> Same(g, r, a, b)
  {
    forall j | a <= j < b
      ensures f[a + b - 1 - j] == g[j] && s[a + b - 1 - j] == r[j]
    {
      var k := a + b - 1 - j;
      assert f[k] == g[a + b - 1 - k] && s[k] == r[a + b - 1 - k];
    }
  }

  lemma OneTurned(f: seq<nat>, g: seq<nat>, s: seq<nat>, r: seq<nat>, a: nat, b: nat)
    requires a <= b <= |f| == |g| == |s| == |r| && TurnedFrom(f, g, a, b, b) && TurnedFrom(s, r, a, a, b)
    ensures Same(f, s, a, b) <==> Opposite(g, r, a, b)
    ensures Opposite(f, s, a, b) <==> Same(g, r, a, b)
  {
    forall j | a <= j < b
      ensures s[a + b - 1 - j] == r[j]
    {
      var k := a + b - 1 - j;
      assert s[k] == r[a + b - 1 - k];
    }
  }

  lemma RestTurned(f: seq<nat>, g: seq<nat>, s: seq<nat>, r: seq<nat>, a: nat, p: nat, b: nat)
    requires a <= p < b <= |f| == |g| == |s| == |r| && TurnedFrom(f, g, a, p, b) && TurnedFrom(s, r, a, a, b)
    requires r[p] == g[p] && (p < b - 1 ==> g[b - 1] != g[p])
    ensures Opposite(f, s, a, b) <==> b == p + 1 && Same(g, r, a, p)
  {
    forall j | a <= j < b
      ensures s[a + b - 1 - j] == r[j]
    {
      var k := a + b - 1 - j;
      assert s[k] == r[a + b - 1 - k];
    }
    assert f[p] == g[b - 1] && s[a + b - 1 - p] == r[p];
  }

  lemma SourcesOnRun(level: Bytes, t: nat, a: nat, b: nat, j: nat)
    requires IsRun(level, t, a, b) && a <= j < b
    ensures var p := FirstExact(level, t, a, b); FlipSource(level, t, j) == if j < p then j else p + b - 1 - j
    ensures L2Source(level, t, j) == a + b - 1 - j
  {
    hide RunStart, RunEnd, FirstExact;
    RunIs(level, t, a, b, j);
  }
  /** A run that begins at exactly level t, or none of which is at it, or neither. */
  lemma RunFacts(level: Bytes, t: nat, i: nat) returns (a: nat, b: nat, p: nat)
    requires i < |level| && level[i] as int >= t
    ensures a == RunStart(level, t, i) && b == RunEnd(level, t, i) && p == FirstExact(level, t, a, b)
    ensures a <= i < b && IsRun(level, t, a, b) && a <= p <= b && (p < b ==> level[p] as int == t)
    ensures p > a ==> IsRun(level, t + 1, a, p) && RunStart(level, t + 1, a) == a && RunEnd(level, t + 1, a) == p
    ensures p == b ==> RunStart(level, t + 1, i) == a && RunEnd(level, t + 1, i) == b
  {
    a, b := RunStart(level, t, i), RunEnd(level, t, i);
    p := FirstExact(level, t, a, b);
    hide RunStart, RunEnd, FirstExact;
    if p > a {
      RunIs(level, t + 1, a, p, a);
      if p == b { RunIs(level, t + 1, a, b, i); }
    }
  }

  lemma RightStep(level: Bytes, top: nat, t: nat, i: nat, a: nat, b: nat, p: nat)
    requires i < |level| && level[i] as int >= t && t <= top
    requires a == RunStart(level, t, i) && b == RunEnd(level, t, i) && p == FirstExact(level, t, a, b)
    ensures Right(level, top, t, i)
      == if p == a then AllRight(level, top, t + 1, a, b) else p == b && Reversed(level, top, t + 1, i)
    ensures Reversed(level, top, t, i)
      == if p == a then b == a + 1
         else if p == b then Right(level, top, t + 1, i)
         else b == p + 1 && Right(level, top, t + 1, a)
  {
    hide RunStart, RunEnd, FirstExact, AllRight;
  }

  lemma RightIff(level: Bytes, top: nat, t: nat, i: nat)
    requires i < |level| && (forall k :: 0 <= k < |level| ==> level[k] as int <= top) && level[i] as int >= t
    ensures Right(level, top, t, i) <==> SameOn(level, top, t, RunStart(level, t, i), RunEnd(level, t, i))
    decreases top + 1 - t, 1
  {
    hide Right, Reversed, AllRight, SameOn, OppositeOn, RunStart, RunEnd, FirstExact;
    var a, b, p := RunFacts(level, t, i);
    assert level[i] as int <= top;
    RightStep(level, top, t, i, a, b, p);
    if p == a {
      ExactRun(level, top, t, a, b);
      AllRightIff(level, top, t + 1, a, b);
    } else if p == b {
      ReversedIff(level, top, t + 1, i);
      SkippedRun(level, top, t, a, b);
    } else {
      LateRun(level, top, t, a, b, p);
    }
  }

  lemma ReversedIff(level: Bytes, top: nat, t: nat, i: nat)
    requires i < |level| && (forall k :: 0 <= k < |level| ==> level[k] as int <= top) && level[i] as int >= t
    ensures Reversed(level, top, t, i) <==> OppositeOn(level, top, t, RunStart(level, t, i), RunEnd(level, t, i))
    decreases top + 1 - t, 1
  {
    hide Right, Reversed, AllRight, SameOn, OppositeOn, RunStart, RunEnd, FirstExact;
    var a, b, p := RunFacts(level, t, i);
    assert level[i] as int <= top;
    RightStep(level, top, t, i, a, b, p);
    if p == a {
      ExactRun(level, top, t, a, b);
    } else if p == b {
      RightIff(level, top, t + 1, i);
      SkippedRun(level, top, t, a, b);
    } else {
      RightIff(level, top, t + 1, a);
      LateRun(level, top, t, a, b, p);
    }
  }

  /** A position and the run of level u around it, if any, which lies between a and b. */
  ghost predicate Piece(level: Bytes, top: nat, u: nat, a: nat, b: nat, j: nat)
    requires j < |level|
  {
    if level[j] as int < u then Right(level, top, u, j) && FlipsFrom(level, top, u)[j] == L2From(level, top, u)[j]
    else
      && a <= RunStart(level, u, j) && RunEnd(level, u, j) <= b
      && (Right(level, top, u, j) <==> SameOn(level, top, u, RunStart(level, u, j), RunEnd(level, u, j)))
  }

  lemma PieceIs(level: Bytes, top: nat, u: nat, a: nat, b: nat, j: nat)
    requires a <= j < b <= |level| && (a > 0 ==> (level[a - 1] as int) < u) && (b < |level| ==> (level[b] as int) < u)
    requires forall k :: 0 <= k < |level| ==> level[k] as int <= top
    ensures Piece(level, top, u, a, b, j)
    decreases top + 1 - u, 2
  {
    if level[j] as int < u {
      LowStay(level, top, u, j);
    } else {
      RightIff(level, top, u, j);
      hide Right, FlipsFrom, L2From;
    }
  }

  lemma PiecesSame(level: Bytes, top: nat, u: nat, a: nat, b: nat)
    requires b <= |level| && forall j :: a <= j < b ==> Piece(level, top, u, a, b, j)
    ensures AllRight(level, top, u, a, b) <==> SameOn(level, top, u, a, b)
  {
    hide Right, FlipsFrom, L2From, RunStart, RunEnd;
    if AllRight(level, top, u, a, b) {
      forall j | a <= j < b
        ensures FlipsFrom(level, top, u)[j] == L2From(level, top, u)[j]
      {
        assert Piece(level, top, u, a, b, j) && Right(level, top, u, j);
      }
    }
    if SameOn(level, top, u, a, b) {
      forall j | a <= j < b
        ensures Right(level, top, u, j)
      {
        assert Piece(level, top, u, a, b, j);
      }
    }
  }

  lemma AllRightIff(level: Bytes, top: nat, u: nat, a: nat, b: nat)
    requires a <= b <= |level| && (0 < a < b ==> (level[a - 1] as int) < u)
    requires a < b < |level| ==> (level[b] as int) < u
    requires forall k :: 0 <= k < |level| ==> level[k] as int <= top
    ensures AllRight(level, top, u, a, b) <==> SameOn(level, top, u, a, b)
    decreases top + 1 - u, 3
  {
    hide Piece, AllRight, SameOn;
    forall j | a <= j < b
      ensures Piece(level, top, u, a, b, j)
    {
      PieceIs(level, top, u, a, b, j);
    }
    PiecesSame(level, top, u, a, b);
  }

  /** A run that begins at exactly level t: both passes reverse all of it. */
  lemma ExactRun(level: Bytes, top: nat, t: nat, a: nat, b: nat)
    requires IsRun(level, t, a, b) && t <= top && FirstExact(level, t, a, b) == a
    ensures SameOn(level, top, t, a, b) <==> SameOn(level, top, t + 1, a, b)
    ensures OppositeOn(level, top, t, a, b) <==> b == a + 1
  {
    assert b <= |level| && level[a] as int == t;
    hide FlipsFrom, L2From, FirstExact, IsRun, Same, Opposite, TurnedFrom;
    PassOnRun(level, top, t, a, b);
    ExactStays(level, top, t, a, b);
    ExactTurned(FlipsFrom(level, top, t), FlipsFrom(level, top, t +
        1), L2From(level, top, t), L2From(level, top, t + 1), a, b);
  }

  lemma ExactStays(level: Bytes, top: nat, t: nat, a: nat, b: nat)
    requires IsRun(level, t, a, b) && level[a] as int == t
    ensures FlipsFrom(level, top, t + 1)[a] == a == L2From(level, top, t + 1)[a]
    ensures a < b - 1 ==> FlipsFrom(level, top, t + 1)[b - 1] != a
  {
    hide FlipsFrom, L2From;
    AboveStays(level, top, t, a, a);
    AboveStays(level, top, t, a, b - 1);
  }

  lemma ExactTurned(f: seq<nat>, g: seq<nat>, s: seq<nat>, r: seq<nat>, a: nat, b: nat)
    requires a < b <= |f| == |g| == |s| == |r| && TurnedFrom(f, g, a, a, b) && TurnedFrom(s, r, a, a, b)
    requires r[a] == g[a] && (a < b - 1 ==> g[b - 1] != g[a])
    ensures Same(f, s, a, b) <==> Same(g, r, a, b)
    ensures Opposite(f, s, a, b) <==> b == a + 1
  {
    BothTurned(f, g, s, r, a, b);
    RestTurned(f, g, s, r, a, a, b);
    hide TurnedFrom;
  }

  /** A run in which nothing is at exactly level t: only rule L2 reverses it. */
  lemma SkippedRun(level: Bytes, top: nat, t: nat, a: nat, b: nat)
    requires IsRun(level, t, a, b) && t <= top && FirstExact(level, t, a, b) == b
    ensures SameOn(level, top, t, a, b) <==> OppositeOn(level, top, t + 1, a, b)
    ensures OppositeOn(level, top, t, a, b) <==> SameOn(level, top, t + 1, a, b)
  {
    PassOnRun(level, top, t, a, b);
    hide FlipsFrom, L2From, FirstExact;
    OneTurned(FlipsFrom(level, top, t), FlipsFrom(level, top, t + 1), L2From(level, top, t), L2From(level, top, t +
        1), a, b);
  }

  /** A run that reaches level t later than at its beginning: the program turns only the rest. */
  lemma LateRun(level: Bytes, top: nat, t: nat, a: nat, b: nat, p: nat)
    requires IsRun(level, t, a, b) && t <= top && p == FirstExact(level, t, a, b) && a < p < b
    ensures !SameOn(level, top, t, a, b)
    ensures OppositeOn(level, top, t, a, b) <==> b == p + 1 && SameOn(level, top, t + 1, a, p)
  {
    assert b <= |level|;
    hide FlipsFrom, L2From, FirstExact, IsRun, Same, Opposite, TurnedFrom;
    var f, g := FlipsFrom(level, top, t), FlipsFrom(level, top, t + 1);
    var s, r := L2From(level, top, t), L2From(level, top, t + 1);
    PassOnRun(level, top, t, a, b);
    LateStays(level, top, t, a, b, p);
    LateTurned(f, g, s, r, a, p, b);
    RestTurned(f, g, s, r, a, p, b);
  }

  lemma LateStays(level: Bytes, top: nat, t: nat, a: nat, b: nat, p: nat)
    requires IsRun(level, t, a, b) && a < p < b && level[p] as int == t
    ensures var g, r := FlipsFrom(level, top, t + 1), L2From(level, top, t + 1);
      g[p] == p == r[p] && g[a] < p && r[b - 1] >= p && (p < b - 1 ==> g[b - 1] != p)
  {
    hide FlipsFrom, L2From;
    AboveStays(level, top, t, p, p);
    AboveStays(level, top, t, p, a);
    AboveStays(level, top, t, p, b - 1);
  }

  lemma LateTurned(f: seq<nat>, g: seq<nat>, s: seq<nat>, r: seq<nat>, a: nat, p: nat, b: nat)
    requires a < p < b <= |f| == |g| == |s| == |r| && TurnedFrom(f, g, a, p, b) && TurnedFrom(s, r, a, a, b)
    requires g[a] < p <= r[b - 1]
    ensures !Same(f, s, a, b)
  {
    assert f[a] == g[a] && s[a] == r[b - 1];
  }

  /** For any levels, the program's order is that of rule L2 if and only if it arranges every run
      of raised characters rightly. */
  lemma FlipDownIff(level: Bytes, top: nat)
    requires (forall k :: 0 <= k < |level| ==> level[k] as int <= top) && (top < LowestOdd(level) ==> top % 2 == 0)
    ensures FlipDown(level, top, Identity(|level|)) == RuleL2(level, top, Identity(|level|)) <==> AllRight(level,
        top, 1, 0, |level|)
  {
    DownToOneIsRuleL2(level, top, Identity(|level|));
    DownIsFrom(level, top, top);
    AllRightIff(level, top, 1, 0, |level|);
    hide LowestOdd, RuleL2, FlipDown, L2Down, AllRight, FlipsFrom, L2From;
    assert FlipsFrom(level, top, 1) == L2From(level, top, 1) <==> SameOn(level, top, 1, 0, |level|);
  }

  /** A number at the start of right-to-left text: the standard puts it last, the program
      leaves it first. */
  lemma NumberStaysFirst()
    ensures FlipDown([2, 1], 2, [0, 1]) == [0, 1] && L2Down([2, 1], 2, [0, 1]) == [1, 0]
  {
    hide FlipPass, L2Pass, Arrange;
    NumberPasses();
    assert Arrange([0, 1], [0, 1]) == [0, 1] && Arrange([0, 1], [1, 0]) == [1, 0];
    FlipDownTwo([2, 1], [0, 1]);
  }

  lemma NumberPasses()
    ensures FlipPass([2, 1], 2) == [0, 1] && FlipPass([2, 1], 1) == [0, 1]
    ensures L2Pass([2, 1], 2) == [0, 1] && L2Pass([2, 1], 1) == [1, 0]
  {
    var level: Bytes := [2, 1];
    hide RunStart, RunEnd, FirstExact;
    RunIs(level, 2, 0, 1, 0);
    ExactFrom(level, 2, 0, 1, 0);
    assert FlipPass(level, 2) == [0, 1] && L2Pass(level, 2) == [0, 1];
    RunIs(level, 1, 0, 2, 0);
    RunIs(level, 1, 0, 2, 1);
    ExactFrom(level, 1, 0, 2, 1);
    assert FlipPass(level, 1) == [0, 1] && L2Pass(level, 1) == [1, 0];
  }

  lemma FlipDownTwo(level: Bytes, order: seq<nat>)
    requires |order| == |level|
    ensures FlipDown(level, 2, order) == Arrange(Arrange(order, FlipPass(level, 2)), FlipPass(level, 1))
    ensures L2Down(level, 2, order) == Arrange(Arrange(order, L2Pass(level, 2)), L2Pass(level, 1))
  {
    hide FlipSource, L2Source;
    var f, g := Arrange(order, FlipPass(level, 2)), Arrange(order, L2Pass(level, 2));
    assert FlipDown(level, 1, f) == FlipDown(level, 0, Arrange(f, FlipPass(level, 1)));
    assert L2Down(level, 1, g) == L2Down(level, 0, Arrange(g, L2Pass(level, 1)));
  }
}
