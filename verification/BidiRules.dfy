/**
 The weak, neutral and implicit rules of the bidirectional algorithm. Each runs through the
 types in place; each is shown to do at once, to the types as they were, what its rule says.
 */
module BidiRules {
  import opened Marshal

  const L: Byte := 0
  const LRE: Byte := 1
  const LRO: Byte := 2
  const R: Byte := 3
  const AL: Byte := 4
  const RLE: Byte := 5
  const RLO: Byte := 6
  const PDF: Byte := 7
  const EN: Byte := 8
  const ES: Byte := 9
  const ET: Byte := 10
  const AN: Byte := 11
  const CS: Byte := 12
  const NSM: Byte := 13
  const BN: Byte := 14
  const B: Byte := 15
  const S: Byte := 16
  const WS: Byte := 17
  const ON: Byte := 18

  // ---------------------------------------------------------------- looking around

  /** The last position before i whose type is not x, or -1. */
  function PrevNot(t: Bytes, i: int, x: Byte): (k: int)
    requires 0 <= i <= |t|
    ensures -1 <= k < i && (k >= 0 ==> t[k] != x) && forall m :: k < m < i ==> t[m] == x
    decreases i
  {
    if i == 0 then -1 else if t[i - 1] != x then i - 1 else PrevNot(t, i - 1, x)
  }

  /** The first position from i on whose type is not x, or the length. */
  function NextNot(t: Bytes, i: int, x: Byte): (k: int)
    requires 0 <= i <= |t|
    ensures i <= k <= |t| && (k < |t| ==> t[k] != x) && forall m :: i <= m < k ==> t[m] == x
    decreases |t| - i
  {
    if i == |t| || t[i] != x then i else NextNot(t, i + 1, x)
  }

  /** The type of the nearest strong character at or before a position; -1 if there is none. */
  function LastStrong(t: Bytes, i: int): (s: int)
    requires -1 <= i < |t|
    ensures s in {-1, L as int, R as int, AL as int}
  {
    if i < 0 then -1 else if t[i] in {L, R, AL} then t[i] as int else LastStrong(t, i - 1)
  }

  method SearchBack(types: array<Byte>, i: nat) returns (s: int)
    requires i < types.Length
    ensures s == LastStrong(types[..], i)
  {
    var j: int := i;
    while j >= 0
      invariant -1 <= j <= i && LastStrong(types[..], i) == LastStrong(types[..], j)
    {
      if types[j] == AL || types[j] == R || types[j] == L {
        return types[j] as int;
      }
      j := j - 1;
    }
    s := -1;
  }

  // ---------------------------------------------------------------- the weak rules

  /** W1: a non-spacing mark takes the type of the nearest character before it that is not one;
      at the start of the line the number of the paragraph level. */
  function W1At(t: Bytes, p: Byte, i: nat): Byte
    requires i < |t|
  {
    var k := PrevNot(t, i + 1, NSM);
    if k < 0 then p else t[k]
  }

  function RuleW1(t: Bytes, p: Byte): (r: Bytes)
    ensures |r| == |t| && forall i :: 0 <= i < |t| ==> r[i] == W1At(t, p, i)
  {
    seq(|t|, i requires 0 <= i < |t| => W1At(t, p, i))
  }

  method ApplyW1(types: array<Byte>, p: Byte)
    requires types.Length > 0
    modifies types
    ensures types[..] == RuleW1(old(types[..]), p)
  {
    ghost var t := types[..];
    if types[0] == NSM {
      types[0] := p;
    }
    var i := 1;
    while i < types.Length
      invariant 1 <= i <= types.Length
      invariant forall k :: 0 <= k < types.Length ==> types[k] == if k < i then W1At(t, p, k) else t[k]
    {
      if types[i] == NSM {
        types[i] := types[i - 1];
      }
      i := i + 1;
    }
    assert types[..] == RuleW1(t, p);
  }

  /** The type of the paragraph's direction. */
  function ParagraphDirection(p: Byte): Byte {
    if p % 2 == 0 then L else R
  }

  /** W1 should give a mark at the start of the line the direction of the paragraph. Storing the
      number of the level does so if and only if the level is zero, whose number is also that of
      the type L, or the line does not start with a mark. */
  lemma W1Iff(t: Bytes, p: Byte)
    requires p <= 1
    ensures RuleW1(t, p) == RuleW1(t, ParagraphDirection(p)) <==> p == 0 || t == [] || t[0] != NSM
  {
    if p != 0 && t != [] && t[0] == NSM {
      assert RuleW1(t, p)[0] != RuleW1(t, ParagraphDirection(p))[0];
    }
    if t != [] && t[0] != NSM {
      forall i | 0 <= i < |t|
        ensures W1At(t, p, i) == W1At(t, ParagraphDirection(p), i)
      {
        assert PrevNot(t, i + 1, NSM) >= 0;
      }
    }
  }

  /** W2: a European number after an Arabic letter becomes an Arabic number. */
  function W2At(t: Bytes, i: nat): Byte
    requires i < |t|
  {
    if t[i] == EN && LastStrong(t, i) == AL as int then AN else t[i]
  }

  function RuleW2(t: Bytes): (r: Bytes)
    ensures |r| == |t| && forall i :: 0 <= i < |t| ==> r[i] == W2At(t, i)
  {
    seq(|t|, i requires 0 <= i < |t| => W2At(t, i))
  }

  /** Changing numbers into Arabic ones hides no strong character. */
  lemma StrongUnchanged(t: Bytes, u: Bytes, i: int)
    requires |t| == |u| && -1 <= i < |t| && forall k :: 0 <= k <= i ==> u[k] == t[k] || (t[k] == EN && u[k] == AN)
    ensures LastStrong(u, i) == LastStrong(t, i)
    decreases i
  {
    if i >= 0 { StrongUnchanged(t, u, i - 1); }
  }

  method ApplyW2(types: array<Byte>)
    modifies types
    ensures types[..] == RuleW2(old(types[..]))
  {
    ghost var t := types[..];
    var i := 0;
    while i < types.Length
      invariant 0 <= i <= types.Length
      invariant forall k :: 0 <= k < types.Length ==> types[k] == if k < i then W2At(t, k) else t[k]
    {
      if types[i] == EN {
        StrongUnchanged(t, types[..], i);
        var s := SearchBack(types, i);
        if s == AL as int {
          types[i] := AN;
        }
      }
      i := i + 1;
    }
    assert types[..] == RuleW2(t);
  }

  /** W3: Arabic letters become R. */
  function W3At(t: Bytes, i: nat): Byte
    requires i < |t|
  {
    if t[i] == AL then R else t[i]
  }

  function RuleW3(t: Bytes): (r: Bytes)
    ensures |r| == |t| && forall i :: 0 <= i < |t| ==> r[i] == W3At(t, i)
  {
    seq(|t|, i requires 0 <= i < |t| => W3At(t, i))
  }

  method ApplyW3(types: array<Byte>)
    modifies types
    ensures types[..] == RuleW3(old(types[..]))
  {
    ghost var t := types[..];
    var i := 0;
    while i < types.Length
      invariant 0 <= i <= types.Length
      invariant forall k :: 0 <= k < types.Length ==> types[k] == if k < i then W3At(t, k) else t[k]
    {
      if types[i] == AL {
        types[i] := R;
      }
      i := i + 1;
    }
    assert types[..] == RuleW3(t);
  }

  /** W4: a single separator between two numbers of the same type becomes such a number; a
      European separator only between European numbers. */
  function W4At(t: Bytes, i: nat): Byte
    requires i < |t|
  {
    if 0 < i < |t| - 1 && t[i - 1] == t[i + 1] && ((t[i] in {ES, CS} && t[i - 1] == EN) || (t[i] == CS &&
        t[i - 1] == AN))
    then t[i - 1] else t[i]
  }

  function RuleW4(t: Bytes): (r: Bytes)
    ensures |r| == |t| && forall i :: 0 <= i < |t| ==> r[i] == W4At(t, i)
  {
    seq(|t|, i requires 0 <= i < |t| => W4At(t, i))
  }

  method ApplyW4(types: array<Byte>)
    modifies types
    ensures types[..] == RuleW4(old(types[..]))
  {
    ghost var t := types[..];
    var i := 1;
    while i < types.Length - 1
      invariant 1 <= i && (types.Length >= 2 ==> i <= types.Length - 1)
      invariant forall k :: 0 <= k < types.Length ==> types[k] == if k < i then W4At(t, k) else t[k]
    {
      if types[i] == ES {
        if types[i - 1] == EN && types[i + 1] == EN {
          types[i] := EN;
        }
      } else if types[i] == CS {
        if types[i - 1] == EN && types[i + 1] == EN {
          types[i] := EN;
        } else if types[i - 1] == AN && types[i + 1] == AN {
          types[i] := AN;
        }
      }
      i := i + 1;
    }
    assert types[..] == RuleW4(t);
  }

  /** W5: a sequence of European terminators next to a European number becomes numbers. */
  function W5At(t: Bytes, i: nat): Byte
    requires i < |t|
  {
    var a, b := PrevNot(t, i, ET), NextNot(t, i, ET);
    if t[i] == ET && ((a >= 0 && t[a] == EN) || (b < |t| && t[b] == EN)) then EN else t[i]
  }

  function RuleW5(t: Bytes): (r: Bytes)
    ensures |r| == |t| && forall i :: 0 <= i < |t| ==> r[i] == W5At(t, i)
  {
    seq(|t|, i requires 0 <= i < |t| => W5At(t, i))
  }

  lemma NextIs(t: Bytes, i: nat, j: nat, x: Byte)
    requires i <= j <= |t| && (forall k :: i <= k < j ==> t[k] == x) && (j < |t| ==> t[j] != x)
    ensures NextNot(t, i, x) == j
  {
  }

  lemma W5Step(t: Bytes, i: nat)
    requires i < |t|
    ensures i > 0 && t[i] == ET && t[i - 1] == ET ==> W5At(t, i) == W5At(t, i - 1)
    ensures i > 0 && t[i - 1] != ET ==> PrevNot(t, i, ET) == i - 1 && W5At(t, i - 1) == t[i - 1]
  {
  }

  /** Whether a terminator is to become a number, seen from the types as they are by then. */
  method NextToNumber(types: array<Byte>, i: nat, ghost t: Bytes) returns (yes: bool)
    requires i < types.Length == |t| && t[i] == ET
    requires forall k :: 0 <= k < |t| ==> types[k] == if k < i then W5At(t, k) else t[k]
    ensures W5At(t, i) == if yes then EN else ET
  {
    hide W5At;
    var count := types.Length;
    W5Step(t, i);
    W5Decision(t, i);
    if i > 0 && types[i - 1] == EN {
      return true;
    }
    if i < count - 1 && types[i + 1] == EN {
      NextIs(t, i, i + 1, ET);
      return true;
    }
    if i < count - 1 && types[i + 1] == ET {
      var j := i;
      while j < count - 1 && types[j] == ET
        invariant i <= j <= count - 1 && forall k :: i <= k < j ==> t[k] == ET
      {
        j := j + 1;
      }
      NextIs(t, i, if t[j] == ET then count else j, ET);
      return types[j] == EN;
    }
    NextIs(t, i, i + 1, ET);
    yes := false;
  }

  lemma W5Decision(t: Bytes, i: nat)
    requires i < |t| && t[i] == ET
    ensures var a, b := PrevNot(t, i, ET), NextNot(t, i, ET);
      W5At(t, i) == if (a >= 0 && t[a] == EN) || (b < |t| && t[b] == EN) then EN else ET
  {
  }

  method ApplyW5(types: array<Byte>)
    modifies types
    ensures types[..] == RuleW5(old(types[..]))
  {
    hide PrevNot, NextNot;
    ghost var t := types[..];
    var i := 0;
    while i < types.Length
      invariant 0 <= i <= types.Length
      invariant forall k :: 0 <= k < types.Length ==> types[k] == if k < i then W5At(t, k) else t[k]
    {
      if types[i] == ET {
        var yes := NextToNumber(types, i, t);
        if yes {
          types[i] := EN;
        }
      }
      i := i + 1;
    }
    assert types[..] == RuleW5(t);
  }

  /** W6: other separators and terminators become neutral. */
  function W6At(t: Bytes, i: nat): Byte
    requires i < |t|
  {
    if t[i] in {ES, ET, CS} then ON else t[i]
  }

  function RuleW6(t: Bytes): (r: Bytes)
    ensures |r| == |t| && forall i :: 0 <= i < |t| ==> r[i] == W6At(t, i)
  {
    seq(|t|, i requires 0 <= i < |t| => W6At(t, i))
  }

  method ApplyW6(types: array<Byte>)
    modifies types
    ensures types[..] == RuleW6(old(types[..]))
  {
    ghost var t := types[..];
    var i := 0;
    while i < types.Length
      invariant 0 <= i <= types.Length
      invariant forall k :: 0 <= k < types.Length ==> types[k] == if k < i then W6At(t, k) else t[k]
    {
      if types[i] == ES || types[i] == ET || types[i] == CS {
        types[i] := ON;
      }
      i := i + 1;
    }
    assert types[..] == RuleW6(t);
  }

  /** W7: a European number after an L becomes an L. */
  function W7At(t: Bytes, i: nat): Byte
    requires i < |t|
  {
    if t[i] == EN && LastStrong(t, i) == L as int then L else t[i]
  }

  function RuleW7(t: Bytes): (r: Bytes)
    ensures |r| == |t| && forall i :: 0 <= i < |t| ==> r[i] == W7At(t, i)
  {
    seq(|t|, i requires 0 <= i < |t| => W7At(t, i))
  }

  /** A number that has become an L is found where the L before it would be. */
  lemma StrongSpread(t: Bytes, u: Bytes, i: int)
    requires |t| == |u| && -1 <= i < |t| && forall k :: 0 <= k <= i ==> u[k] == W7At(t, k)
    ensures LastStrong(u, i) == LastStrong(t, i)
    decreases i
  {
    if i >= 0 { StrongSpread(t, u, i - 1); }
  }

  method ApplyW7(types: array<Byte>)
    modifies types
    ensures types[..] == RuleW7(old(types[..]))
  {
    ghost var t := types[..];
    var i := 0;
    while i < types.Length
      invariant 0 <= i <= types.Length
      invariant forall k :: 0 <= k < types.Length ==> types[k] == if k < i then W7At(t, k) else t[k]
    {
      if types[i] == EN {
        StrongSpread(t, types[..], i - 1);
        var s := SearchBack(types, i);
        if s == L as int {
          types[i] := L;
        }
      }
      i := i + 1;
    }
    assert types[..] == RuleW7(t);
  }

  // ---------------------------------------------------------------- the neutral rules

  /** The direction of strong text, numbers counting as R; ON for all else. */
  function Direction(x: Byte): Byte {
    if x == L then L else if x in {R, EN, AN} then R else ON
  }

  function N1First(t: Bytes): (r: Bytes)
    ensures |r| == |t|
  {
    if |t| >= 2 && t[0] == ON then t[0 := Direction(t[1])] else t
  }

  /** N1: neutrals between text of the same direction on both sides take that direction. */
  function N1At(t: Bytes, i: nat): Byte
    requires i < |t|
  {
    var a, b := PrevNot(t, i, ON), NextNot(t, i, ON);
    if 0 < i < |t| - 1 && t[i] == ON && a >= 0 && b < |t| &&
        Direction(t[a]) == Direction(t[b]) then Direction(t[a]) else t[i]
  }

  function N1Middle(t: Bytes): (r: Bytes)
    ensures |r| == |t| && forall i :: 0 <= i < |t| ==> r[i] == N1At(t, i)
  {
    seq(|t|, i requires 0 <= i < |t| => N1At(t, i))
  }

  function N1Last(t: Bytes): (r: Bytes)
    ensures |r| == |t|
  {
    var n := |t|;
    if n >= 2 && t[n - 1] == ON then t[n - 1 := Direction(t[n - 2])] else t
  }

  /** The first and the last character take the direction of their one neighbour. */
  function RuleN1(t: Bytes): (r: Bytes)
    ensures |r| == |t|
  {
    N1Last(N1Middle(N1First(t)))
  }

  method ApplyN1First(types: array<Byte>)
    modifies types
    ensures types[..] == N1First(old(types[..]))
  {
    var count := types.Length;
    if count >= 2 && types[0] == ON {
      if types[1] == R || types[1] == EN || types[1] == AN {
        types[0] := R;
      } else if types[1] == L {
        types[0] := L;
      }
    }
    assert types[..] == N1First(old(types[..]));
  }

  method ApplyN1Last(types: array<Byte>)
    modifies types
    ensures types[..] == N1Last(old(types[..]))
  {
    var count := types.Length;
    if count >= 2 && types[count - 1] == ON {
      if types[count - 2] == R || types[count - 2] == EN || types[count - 2] == AN {
        types[count - 1] := R;
      } else if types[count - 2] == L {
        types[count - 1] := L;
      }
    }
    assert types[..] == N1Last(old(types[..]));
  }

  method ApplyN1(types: array<Byte>)
    modifies types
    ensures types[..] == RuleN1(old(types[..]))
  {
    hide N1First, N1Middle, N1Last;
    ApplyN1First(types);
    ApplyN1Middle(types);
    ApplyN1Last(types);
  }

  method ApplyN1Middle(types: array<Byte>)
    modifies types
    ensures types[..] == N1Middle(old(types[..]))
  {
    hide N1At, Direction;
    ghost var t := types[..];
    var count := types.Length;
    N1Ends(t);
    var i := 1;
    while i < count - 1
      invariant 1 <= i && (count >= 2 ==> i <= count)
      invariant forall k :: 0 <= k < count ==> types[k] == if k < i then N1At(t, k) else t[k]
      invariant i <= count && t[i - 1] == ON ==> types[i - 1] == ON
    {
      N1Step(t, i);
      N1Ends(t);
      if types[i] == ON {
        var j, d := RunDirection(types, i, t);
        if d != ON {
          i := Fill(types, i, j, d);
        }
      }
      i := i + 1;
    }
    N1Ends(t);
    assert types[..] == N1Middle(t);
  }

  /** Where a run of neutrals that begins at i ends and what it becomes; ON if it stays. */
  method RunDirection(types: array<Byte>, i: nat, ghost t: Bytes) returns (j: nat, d: Byte)
    requires 0 < i < types.Length - 1 && |t| == types.Length && t[i] == ON
    requires forall k :: 0 <= k < |t| ==> types[k] == if k < i then N1At(t, k) else t[k]
    requires t[i - 1] == ON ==> types[i - 1] == ON
    ensures d == ON ==> N1At(t, i) == ON
    ensures d != ON ==> i < j < |t| && t[j] != ON && forall k :: i <= k < j ==> t[k] == ON && N1At(t, k) == d
  {
    hide N1At, PrevNot, NextNot;
    N1Step(t, i);
    N1Ends(t);
    j := i;
    d := Direction(types[i - 1]);
    if d == L || d == R {
      j := SkipNeutrals(types, i, types.Length - 1);
      if Direction(types[j]) == d {
        N1Run(t, i, j);
      } else {
        N1Unresolved(t, i, j);
        d := ON;
      }
    }
  }

  /** The ends of the line and what is not neutral keep their types. */
  lemma N1Ends(t: Bytes)
    ensures forall k :: 0 <= k < |t| && (k == 0 || k == |t| - 1 || t[k] != ON) ==> N1At(t, k) == t[k]
  {
  }

  method SkipNeutrals(types: array<Byte>, start: nat, limit: nat) returns (j: nat)
    requires start <= limit < types.Length
    ensures start <= j <= limit && (forall k :: start <= k < j ==> types[k] == ON) && (j == limit || types[j] != ON)
  {
    j := start;
    while j < limit && types[j] == ON
      invariant start <= j <= limit && forall k :: start <= k < j ==> types[k] == ON
    {
      j := j + 1;
    }
  }

  method Fill(types: array<Byte>, start: nat, end: nat, d: Byte) returns (i: nat)
    requires start <= end <= types.Length
    modifies types
    ensures i == end && forall k :: 0 <= k < types.Length ==> types[k] == if start <= k < end then d else old(types[k])
  {
    i := start;
    while i < end
      invariant start <= i <= end
      invariant forall k :: 0 <= k < types.Length ==> types[k] == if start <= k < i then d else old(types[k])
    {
      types[i] := d;
      i := i + 1;
    }
  }

  /** Inside a run of neutrals every position is decided as the one before it. */
  lemma N1Step(t: Bytes, i: nat)
    requires 0 < i < |t| - 1
    ensures t[i] == ON && t[i - 1] == ON ==> N1At(t, i) == (if i > 1 then N1At(t, i - 1) else ON)
    ensures t[i] == ON && t[i - 1] != ON && Direction(t[i - 1]) == ON ==> N1At(t, i) == ON
  {
  }

  lemma N1Run(t: Bytes, i: nat, j: nat)
    requires 0 < i < j < |t| && t[i - 1] != ON && t[j] != ON && (forall k :: i <= k < j ==> t[k] == ON)
    requires Direction(t[i - 1]) == Direction(t[j])
    ensures forall k :: i <= k < j ==> N1At(t, k) == Direction(t[i - 1])
  {
    forall k | i <= k < j
      ensures N1At(t, k) == Direction(t[i - 1])
    {
      assert PrevNot(t, k, ON) == i - 1 && NextNot(t, k, ON) == j;
    }
  }

  lemma N1Unresolved(t: Bytes, i: nat, j: nat)
    requires 0 < i <= j < |t| && t[i - 1] != ON && t[i] == ON && (forall k :: i <= k < j ==> t[k] == ON)
    requires (t[j] != ON || j == |t| - 1) && Direction(t[j]) != Direction(t[i - 1]) && Direction(t[i - 1]) != ON
    ensures N1At(t, i) == ON
  {
    assert PrevNot(t, i, ON) == i - 1;
    assert NextNot(t, i, ON) == if t[j] != ON then j else |t|;
  }

  /** N2: remaining neutrals take the direction of their embedding level. */
  function N2At(t: Byte, level: Byte): Byte {
    if t != ON then t else if level % 2 == 0 then L else R
  }

  function RuleN2(t: Bytes, levels: Bytes): (r: Bytes)
    requires |t| == |levels|
    ensures |r| == |t| && forall i :: 0 <= i < |t| ==> r[i] == N2At(t[i], levels[i])
  {
    seq(|t|, i requires 0 <= i < |t| => N2At(t[i], levels[i]))
  }

  method ApplyN2(types: array<Byte>, levels: array<Byte>)
    requires types.Length == levels.Length && types != levels
    modifies types
    ensures types[..] == RuleN2(old(types[..]), levels[..])
  {
    ghost var t := types[..];
    var i := 0;
    while i < types.Length
      invariant 0 <= i <= types.Length && levels[..] == old(levels[..])
      invariant forall k :: 0 <= k < types.Length ==>
        types[k] == if k < i then N2At(t[k], levels[k]) else t[k]
    {
      if types[i] == ON {
        if levels[i] % 2 == 0 {
          types[i] := L;
        } else {
          types[i] := R;
        }
      }
      i := i + 1;
    }
    assert types[..] == RuleN2(t, levels[..]);
  }

  // ---------------------------------------------------------------- the implicit levels

  /** I1 and I2 for one character. */
  function Implicit(level: Byte, t: Byte): Byte {
    if level % 2 == 0 then (if t == R then (level + 1) % 256 else if t in {AN, EN} then (level + 2) % 256 else level)
    else if t in {L, EN, AN} then (level + 1) % 256 else level
  }

  function RuleI(t: Bytes, levels: Bytes): (r: Bytes)
    requires |t| == |levels|
    ensures |r| == |t| && forall i :: 0 <= i < |t| ==> r[i] == Implicit(levels[i], t[i])
  {
    seq(|t|, i requires 0 <= i < |t| => Implicit(levels[i], t[i]))
  }

  function I1(level: Byte, t: Byte): Byte {
    if level % 2 == 0 then (if t == R then (level + 1) % 256 else if t in {AN, EN} then (level +
        2) % 256 else level) else level
  }

  /** The two loops, one after the other, do not interfere: no character is raised by both. */
  method ApplyImplicit(types: array<Byte>, levels: array<Byte>)
    requires types.Length == levels.Length && types != levels
    modifies levels
    ensures levels[..] == RuleI(types[..], old(levels[..]))
  {
    ghost var t, v := types[..], levels[..];
    var i := 0;
    while i < types.Length
      invariant 0 <= i <= types.Length && types[..] == t
      invariant forall k :: 0 <= k < types.Length ==> levels[k] == if k < i then I1(v[k], t[k]) else v[k]
    {
      if levels[i] % 2 == 0 {
        if types[i] == R {
          levels[i] := (levels[i] as int + 1) % 256;
        } else if types[i] == AN || types[i] == EN {
          levels[i] := (levels[i] as int + 2) % 256;
        }
      }
      i := i + 1;
    }
    i := 0;
    while i < types.Length
      invariant 0 <= i <= types.Length && types[..] == t
      invariant forall k :: 0 <= k < types.Length ==>
        levels[k] == if k < i then Implicit(v[k], t[k]) else I1(v[k], t[k])
    {
      if levels[i] % 2 == 1 {
        if types[i] == L || types[i] == EN || types[i] == AN {
          levels[i] := (levels[i] as int + 1) % 256;
        }
      }
      i := i + 1;
    }
    assert levels[..] == RuleI(t, v);
  }

  /** After rules I1 and I2 (section 3.3.6 of UAX #9) right-to-left text is at odd levels, and
      left-to-right text and numbers are at even ones, even where a level wraps around. */
  lemma Parity(t: Bytes, levels: Bytes, i: nat)
    requires |t| == |levels| && i < |t|
    ensures t[i] == R ==> RuleI(t, levels)[i] % 2 == 1
    ensures t[i] in {L, EN, AN} ==> RuleI(t, levels)[i] % 2 == 0
  {
  }

  // ---------------------------------------------------------------- all rules on types

  /** The types after the weak and neutral rules. */
  function Resolved(t: Bytes, levels: Bytes, p: Byte): (r: Bytes)
    requires |t| == |levels|
    ensures |r| == |t|
  {
    RuleN2(RuleN1(RuleW7(RuleW6(RuleW5(RuleW4(RuleW3(RuleW2(RuleW1(t, p)))))))), levels)
  }

  method Resolve(types: array<Byte>, levels: array<Byte>, p: Byte)
    requires 0 < types.Length == levels.Length && types != levels
    modifies types
    ensures types[..] == Resolved(old(types[..]), levels[..], p)
  {
    hide RuleW1, RuleW2, RuleW3, RuleW4, RuleW5, RuleW6, RuleW7, RuleN1, RuleN2;
    ApplyW1(types, p);
    ApplyW2(types);
    ApplyW3(types);
    ApplyW4(types);
    ApplyW5(types);
    ApplyW6(types);
    ApplyW7(types);
    ApplyN1(types);
    ApplyN2(types, levels);
  }
}
