/**
 What the rules come to on a line without embedding codes, said of the types of its characters and
 of their final levels alone: the level of every character, and from it what each kind of
 character can rely on.
 */
module BidiPlain {
  import opened Marshal
  import opened BidiRules
  import opened BidiReorder
  import opened Bidi

  // ---------------------------------------------------------------- what a character acts as

  predicate Plain(kinds: Bytes) {
    forall k :: k in kinds ==> !IsCode(k)
  }

  predicate Strong(kind: Byte) {
    kind in {L, R, AL}
  }

  /** The first strong character is right-to-left. */
  ghost predicate RightToLeft(kinds: Bytes) {
    exists k :: 0 <= k < |kinds| && kinds[k] in {R, AL} && forall m :: 0 <= m < k ==> !Strong(kinds[m])
  }

  /** The last strong character at or before a position is of some type. */
  ghost predicate LastIs(kinds: Bytes, i: int, x: Byte)
    requires i < |kinds|
  {
    exists k :: 0 <= k <= i && kinds[k] == x && forall m :: k < m <= i ==> !Strong(kinds[m])
  }

  /** European numbers at a position count as left-to-right text: they follow an L, or in a
      left-to-right paragraph nothing strong but a mark at the start of the line. */
  ghost predicate AfterL(kinds: Bytes, i: nat)
    requires i < |kinds|
  {
    || LastIs(kinds, i, L)
    || (!RightToLeft(kinds) && kinds[0] == NSM && forall m :: 0 <= m <= i ==> !Strong(kinds[m]))
  }

  /** The type that a character bears: its own or, for a mark, that of the last character before
      it that is not one. White space and segment separators are neutral; marks at the start of
      the line bear the number of the paragraph level. */
  ghost function Bears(kinds: Bytes, i: nat): Byte
    requires i < |kinds|
  {
    var k := PrevNot(kinds, i + 1, NSM);
    if k >= 0 then (if kinds[k] in {WS, S} then ON else kinds[k])
    else if RightToLeft(kinds) then 1 else 0
  }

  /** A European number, unless an Arabic letter was the last strong character. */
  ghost predicate European(kinds: Bytes, i: nat)
    requires i < |kinds|
  {
    Bears(kinds, i) == EN && !LastIs(kinds, i, AL)
  }

  ghost predicate Arabic(kinds: Bytes, i: nat)
    requires i < |kinds|
  {
    Bears(kinds, i) == AN || (Bears(kinds, i) == EN && LastIs(kinds, i, AL))
  }

  /** A single separator between European numbers, or a common one between Arabic numbers. */
  ghost predicate Joined(kinds: Bytes, i: nat)
    requires i < |kinds|
  {
    && 0 < i < |kinds| - 1
    && (|| (Bears(kinds, i) in {ES, CS} && European(kinds, i - 1) && European(kinds, i + 1))
        || (Bears(kinds, i) == CS && Arabic(kinds, i - 1) && Arabic(kinds, i + 1)))
  }

  /** Nothing but terminators from i up to j or from j down to i, where a European number stands. */
  ghost predicate Reaches(kinds: Bytes, i: nat, j: nat)
    requires i < |kinds| && j < |kinds|
  {
    && European(kinds, j)
    && forall m :: (i <= m < j || j < m <= i) ==> Bears(kinds, m) == ET
  }

  /** A terminator in a sequence of them next to a European number. */
  ghost predicate Counted(kinds: Bytes, i: nat)
    requires i < |kinds|
  {
    Bears(kinds, i) == ET && exists j: nat :: j < |kinds| && Reaches(kinds, i, j)
  }

  /** What a character acts as before the neutral ones are settled. */
  ghost function Acts(kinds: Bytes, i: nat): Byte
    requires i < |kinds|
  {
    var x := Bears(kinds, i);
    if x == AL then R
    else if Arabic(kinds, i) || (Joined(kinds, i) && Arabic(kinds, i - 1)) then AN
    else if European(kinds, i) || Joined(kinds, i) || Counted(kinds, i) then
      if AfterL(kinds, i) then L else EN
    else if x in {ES, ET, CS} then ON
    else x
  }

  // ---------------------------------------------------------------- the paragraph

  lemma {:induction false} FirstStrong(kinds: Bytes, i: nat)
    requires i <= |kinds| && forall m :: 0 <= m < i ==> !Strong(kinds[m])
    ensures ParagraphLevel(kinds, i) as int == if RightToLeft(kinds) then 1 else 0
    decreases |kinds| - i
  {
    if i < |kinds| && !Strong(kinds[i]) {
      FirstStrong(kinds, i + 1);
    }
  }

  /** The paragraph is right-to-left just when its first strong character is. */
  lemma ParagraphIff(kinds: Bytes)
    ensures ParagraphLevel(kinds, 0) as int == if RightToLeft(kinds) then 1 else 0
  {
    FirstStrong(kinds, 0);
  }

  // ---------------------------------------------------------------- through the weak rules

  lemma ExplicitType(kinds: Bytes, p: Byte, i: nat)
    requires Plain(kinds) && i < |kinds|
    ensures ExplicitTypes(p, kinds)[i] == if kinds[i] in {WS, S} then ON else kinds[i]
  {
    hide ExplicitRun;
    PlainText(p, kinds);
    assert kinds[i] in kinds;
  }

  lemma PrevIs(t: Bytes, i: nat, k: int, x: Byte)
    requires i <= |t| && -1 <= k < i && (k >= 0 ==> t[k] != x) && forall m :: k < m < i ==> t[m] == x
    ensures PrevNot(t, i, x) == k
  {
  }

  ghost predicate BearsAll(kinds: Bytes, t: Bytes) {
    |t| == |kinds| && forall i :: 0 <= i < |t| ==> t[i] == Bears(kinds, i)
  }

  lemma AfterW1(kinds: Bytes, p: Byte)
    requires Plain(kinds) && p == ParagraphLevel(kinds, 0)
    ensures BearsAll(kinds, RuleW1(ExplicitTypes(p, kinds), p))
  {
    hide ExplicitTypes, PrevNot, ParagraphLevel, RightToLeft;
    var t := ExplicitTypes(p, kinds);
    ParagraphIff(kinds);
    forall i | 0 <= i < |kinds|
      ensures t[i] == if kinds[i] in {WS, S} then ON else kinds[i]
    {
      ExplicitType(kinds, p, i);
    }
    forall i: nat | i < |kinds|
      ensures W1At(t, p, i) == Bears(kinds, i)
    {
      PrevIs(t, i + 1, PrevNot(kinds, i + 1, NSM), NSM);
    }
  }

  /** What the search for a strong character finds in the types that are borne. */
  ghost function Found(kinds: Bytes, i: int): int
    requires i < |kinds|
  {
    if i < 0 then -1
    else if LastIs(kinds, i, AL) then AL as int
    else if LastIs(kinds, i, R) then R as int
    else if AfterL(kinds, i) then L as int
    else -1
  }

  lemma LastOne(kinds: Bytes, i: nat, x: Byte)
    requires i < |kinds| && Strong(x)
    ensures LastIs(kinds, i, x) <==> if Strong(kinds[i]) then kinds[i] == x else i > 0 && LastIs(kinds, i - 1, x)
  {
    if !Strong(kinds[i]) && i > 0 && LastIs(kinds, i - 1, x) {
      var k :| 0 <= k <= i - 1 && kinds[k] == x && forall m :: k < m <= i - 1 ==> !Strong(kinds[m]);
      assert forall m :: k < m <= i ==> !Strong(kinds[m]);
    }
  }

  lemma NoneIsLast(kinds: Bytes, i: nat, x: Byte)
    requires i < |kinds| && Strong(x) && forall m :: 0 <= m <= i ==> !Strong(kinds[m])
    ensures !LastIs(kinds, i, x)
  {
  }

  lemma FoundAt(kinds: Bytes, i: nat)
    requires i < |kinds|
    ensures Strong(kinds[i]) ==> Found(kinds, i) == kinds[i] as int
    ensures !Strong(kinds[i]) && i > 0 ==> Found(kinds, i) == Found(kinds, i - 1)
    ensures !Strong(kinds[i]) && i == 0 ==>
      Found(kinds, i) == if kinds[0] == NSM && !RightToLeft(kinds) then L as int else -1
  {
    hide RightToLeft, LastIs;
    LastOne(kinds, i, L);
    LastOne(kinds, i, R);
    LastOne(kinds, i, AL);
  }

  lemma BearsMark(kinds: Bytes, i: nat)
    requires i < |kinds|
    ensures kinds[i] != NSM ==> Bears(kinds, i) == if kinds[i] in {WS, S} then ON else kinds[i]
    ensures kinds[i] == NSM && i > 0 ==> Bears(kinds, i) == Bears(kinds, i - 1)
    ensures kinds[i] == NSM && i == 0 ==> Bears(kinds, i) as int == if RightToLeft(kinds) then 1 else 0
  {
    hide RightToLeft;
  }

  lemma {:induction false} SearchFinds(kinds: Bytes, t: Bytes, i: int)
    requires BearsAll(kinds, t) && -1 <= i < |t|
    ensures LastStrong(t, i) == Found(kinds, i)
  {
    hide Found, Bears, RightToLeft;
    if i < 0 {
      FoundNone(kinds);
    } else {
      SearchFinds(kinds, t, i - 1);
      FoundAt(kinds, i);
      BearsMark(kinds, i);
      if i > 0 && kinds[i] == NSM {
        assert t[i] == t[i - 1];
      }
    }
  }

  lemma FoundNone(kinds: Bytes)
    ensures Found(kinds, -1) == -1
  {
  }

  /** The types after the first three rules: numbers after Arabic letters are Arabic and the
      letters are R. */
  ghost predicate AfterThree(kinds: Bytes, t: Bytes) {
    && |t| == |kinds|
    && forall i :: 0 <= i < |t| ==>
        t[i] == if Bears(kinds, i) == AL then R else if Arabic(kinds, i) then AN else Bears(kinds, i)
  }

  lemma AfterW3(kinds: Bytes, t: Bytes)
    requires BearsAll(kinds, t)
    ensures AfterThree(kinds, RuleW3(RuleW2(t)))
  {
    hide Bears, LastIs, AfterL, LastStrong;
    forall i: nat | i < |t|
      ensures W2At(t, i) == if Arabic(kinds, i) then AN else t[i]
    {
      SearchFinds(kinds, t, i);
    }
  }

  /** A number at one place is of one sort. */
  lemma NumberIs(kinds: Bytes, t: Bytes, i: nat)
    requires AfterThree(kinds, t) && i < |t| == |kinds|
    ensures t[i] == EN <==> European(kinds, i)
    ensures t[i] == AN <==> Arabic(kinds, i)
    ensures t[i] in {ES, ET, CS, AL, ON} ==> t[i] == Bears(kinds, i)
    ensures Bears(kinds, i) in {ES, ET, CS, ON, L} ==> t[i] == Bears(kinds, i)
    ensures t[i] != AL
  {
    hide Bears, LastIs;
  }

  ghost function Four(kinds: Bytes, t: Bytes, i: nat): Byte
    requires i < |t| == |kinds|
  {
    if Joined(kinds, i) then (if Arabic(kinds, i - 1) then AN else EN) else t[i]
  }

  lemma AfterW4(kinds: Bytes, t: Bytes, i: nat)
    requires AfterThree(kinds, t) && i < |t| == |kinds|
    ensures RuleW4(t)[i] == Four(kinds, t, i)
  {
    hide Bears, Arabic, European, AfterThree;
    NumberIs(kinds, t, i);
    if 0 < i < |t| - 1 {
      NumberIs(kinds, t, i - 1);
      NumberIs(kinds, t, i + 1);
    }
  }

  /** Where a European number or a separator that has become one stands next to a terminator,
      it is a number. */
  lemma NumberBeside(kinds: Bytes, t: Bytes, i: nat, j: nat)
    requires AfterThree(kinds, t) && i < |t| == |kinds| && j < |t| && (i == j + 1 || j == i + 1)
    requires Bears(kinds, i) == ET && Four(kinds, t, j) == EN
    ensures European(kinds, j)
  {
    hide Bears, LastIs, AfterThree;
    NumberIs(kinds, t, j);
  }

  ghost predicate FourAll(kinds: Bytes, t: Bytes, u: Bytes) {
    |t| == |u| == |kinds| && forall i :: 0 <= i < |u| ==> u[i] == Four(kinds, t, i)
  }

  lemma StillTerminator(kinds: Bytes, t: Bytes, u: Bytes, i: nat)
    requires AfterThree(kinds, t) && FourAll(kinds, t, u) && i < |u| == |kinds|
    ensures u[i] == ET <==> Bears(kinds, i) == ET
    ensures European(kinds, i) ==> u[i] == EN
  {
    hide Bears, LastIs, AfterThree;
    NumberIs(kinds, t, i);
  }

  lemma StillTerminators(kinds: Bytes, t: Bytes, u: Bytes)
    requires AfterThree(kinds, t) && FourAll(kinds, t, u) && |u| == |kinds|
    ensures forall i: nat :: i < |u| ==> (u[i] == ET <==> Bears(kinds, i) == ET)
  {
    hide *;
    forall i: nat | i < |u|
      ensures u[i] == ET <==> Bears(kinds, i) == ET
    {
      StillTerminator(kinds, t, u, i);
    }
  }

  lemma CountedIff(kinds: Bytes, t: Bytes, u: Bytes, i: nat)
    requires AfterThree(kinds, t) && FourAll(kinds, t, u) && i < |u| == |kinds|
    ensures RuleW5(u)[i] == if Counted(kinds, i) then EN else u[i]
  {
    hide Bears, LastIs, AfterThree, European, FourAll;
    StillTerminators(kinds, t, u);
    var a, b := PrevNot(u, i, ET), NextNot(u, i, ET);
    if Counted(kinds, i) {
      var j: nat :| j < |kinds| && Reaches(kinds, i, j);
      StillTerminator(kinds, t, u, j);
      NumberNot(kinds, j);
      if j < i {
        PrevIs(u, i, j, ET);
      } else {
        NextIs(u, i, j, ET);
      }
    } else if u[i] == ET {
      if a >= 0 && u[a] == EN {
        OneSide(kinds, t, u, i, a, a + 1);
      }
      if b < |u| && u[b] == EN {
        OneSide(kinds, t, u, i, b, b - 1);
      }
    }
  }

  lemma NumberNot(kinds: Bytes, j: nat)
    requires j < |kinds| && European(kinds, j)
    ensures Bears(kinds, j) == EN
  {
    hide Bears, LastIs;
  }

  lemma OneSide(kinds: Bytes, t: Bytes, u: Bytes, i: nat, j: nat, near: nat)
    requires AfterThree(kinds, t) && FourAll(kinds, t, u) && i < |u| == |kinds| && j < |u| && near < |u|
    requires u[i] == ET && u[j] == EN && (near == j + 1 <= i || i <= near == j - 1)
    requires forall m :: (i <= m < j || j < m <= i) ==> u[m] == ET
    ensures Counted(kinds, i)
  {
    hide Bears, LastIs, AfterThree, European;
    StillTerminators(kinds, t, u);
    NumberBeside(kinds, t, near, j);
    assert Reaches(kinds, i, j);
  }

  /** The types after rule W6. */
  ghost function Six(kinds: Bytes, i: nat): Byte
    requires i < |kinds|
  {
    var x := Bears(kinds, i);
    if x == AL then R
    else if Arabic(kinds, i) || (Joined(kinds, i) && Arabic(kinds, i - 1)) then AN
    else if European(kinds, i) || Joined(kinds, i) || Counted(kinds, i) then EN
    else if x in {ES, ET, CS} then ON
    else x
  }

  lemma AfterW4All(kinds: Bytes, t: Bytes)
    requires AfterThree(kinds, t) && |t| == |kinds|
    ensures FourAll(kinds, t, RuleW4(t))
  {
    hide AfterThree, Four, W4At;
    forall i: nat | i < |t|
      ensures RuleW4(t)[i] == Four(kinds, t, i)
    {
      AfterW4(kinds, t, i);
    }
  }

  lemma AfterW6(kinds: Bytes, t: Bytes, i: nat)
    requires AfterThree(kinds, t) && i < |t| == |kinds|
    ensures RuleW6(RuleW5(RuleW4(t)))[i] == Six(kinds, i)
  {
    hide RuleW4, Bears, LastIs, W5At;
    var u := RuleW4(t);
    AfterW4All(kinds, t);
    CountedIff(kinds, t, u, i);
    NumberIs(kinds, t, i);
  }

  /** The rules change no strong character but Arabic letters, and make no other strong. */
  lemma SixStrong(kinds: Bytes, i: nat)
    requires i < |kinds|
    ensures Bears(kinds, i) == L <==> Six(kinds, i) == L
    ensures Bears(kinds, i) in {R, AL} <==> Six(kinds, i) == R
    ensures Six(kinds, i) != AL
  {
    hide Bears, LastIs;
  }

  ghost predicate SixAll(kinds: Bytes, v: Bytes) {
    |v| == |kinds| && forall i :: 0 <= i < |v| ==> v[i] == Six(kinds, i)
  }

  lemma {:induction false} SearchAgain(kinds: Bytes, v: Bytes, i: int)
    requires SixAll(kinds, v) && -1 <= i < |v|
    ensures var s, f := LastStrong(v, i), Found(kinds, i);
      s == if f == AL as int then R as int else f
  {
    hide Found, Bears, RightToLeft, Six;
    if i < 0 {
      FoundNone(kinds);
    } else {
      SearchAgain(kinds, v, i - 1);
      FoundAt(kinds, i);
      BearsMark(kinds, i);
      SixStrong(kinds, i);
      if i > 0 {
        SixStrong(kinds, i - 1);
      }
    }
  }

  /** An L is found just where European numbers count as left-to-right. */
  lemma FoundL(kinds: Bytes, i: nat)
    requires i < |kinds|
    ensures Found(kinds, i) == L as int <==> AfterL(kinds, i)
  {
    hide RightToLeft;
    if AfterL(kinds, i) {
      if LastIs(kinds, i, L) {
        if LastIs(kinds, i, R) { OneLast(kinds, i, L, R); }
        if LastIs(kinds, i, AL) { OneLast(kinds, i, L, AL); }
      } else {
        NoneIsLast(kinds, i, R);
        NoneIsLast(kinds, i, AL);
      }
    }
  }

  lemma OneLast(kinds: Bytes, i: nat, x: Byte, y: Byte)
    requires i < |kinds| && Strong(x) && Strong(y) && LastIs(kinds, i, x) && LastIs(kinds, i, y)
    ensures x == y
  {
  }

  ghost predicate ActsAll(kinds: Bytes, t: Bytes) {
    |t| == |kinds| && forall i :: 0 <= i < |t| ==> t[i] == Acts(kinds, i)
  }

  lemma AfterW7(kinds: Bytes, v: Bytes)
    requires SixAll(kinds, v)
    ensures ActsAll(kinds, RuleW7(v))
  {
    hide Bears, AfterL, LastIs, LastStrong, Found, Joined, Counted;
    forall i: nat | i < |v|
      ensures W7At(v, i) == Acts(kinds, i)
    {
      SearchAgain(kinds, v, i);
      FoundL(kinds, i);
    }
  }

  // ---------------------------------------------------------------- neutral characters

  predicate Rightward(x: Byte) {
    x in {R, EN, AN}
  }

  /** Where two neighbours point, if they agree. */
  function Between(x: Byte, y: Byte): Byte {
    if x == L && y == L then L else if Rightward(x) && Rightward(y) then R else ON
  }

  /** What a character becomes: a neutral one takes the direction of its neighbours if they agree.
      At either end of the line it has one neighbour, and takes its direction only if it stands
      next to it. */
  function Settles(a: Bytes, i: nat): Byte
    requires i < |a|
  {
    if a[i] != ON then a[i]
    else
      var j, k := PrevNot(a, i, ON), NextNot(a, i, ON);
      if j >= 0 && k < |a| then Between(a[j], a[k])
      else if i == 0 && k == 1 < |a| then Between(a[1], a[1])
      else if i == |a| - 1 && 0 <= j == i - 1 then Between(a[j], a[j])
      else ON
  }

  lemma FirstNeutral(a: Bytes, i: nat)
    requires 0 < i < |a| && a[i] == ON
    ensures N1First(a)[i] == ON && NextNot(N1First(a), i, ON) == NextNot(a, i, ON)
    ensures PrevNot(N1First(a), i, ON) == PrevNot(a, i, ON)
    ensures PrevNot(a, i, ON) >= 0 ==> N1First(a)[PrevNot(a, i, ON)] == a[PrevNot(a, i, ON)]
  {
    var f := N1First(a);
    var j, k := PrevNot(a, i, ON), NextNot(a, i, ON);
    assert a[0] == ON && a[1] == ON ==> f[0] == ON;
    NextIs(f, i, k, ON);
    PrevIs(f, i, j, ON);
  }

  lemma MiddleNeutral(a: Bytes, i: nat)
    requires 0 < i < |a| - 1
    ensures N1Middle(N1First(a))[i] == Settles(a, i)
  {
    hide PrevNot, NextNot, N1First;
    if a[i] == ON {
      FirstNeutral(a, i);
      FirstOnly(a, i);
      var k := NextNot(a, i, ON);
      if k < |a| {
        FirstOnly(a, k);
      }
    } else {
      FirstOnly(a, i);
    }
  }

  lemma FirstOnly(a: Bytes, i: nat)
    requires 0 < i < |a|
    ensures N1First(a)[i] == a[i]
  {
  }

  lemma FirstSettles(a: Bytes)
    requires |a| > 0
    ensures N1First(a)[0] == if |a| == 1 then a[0] else Settles(a, 0)
  {
  }

  lemma LastOf(t: Bytes)
    requires |t| > 1
    ensures N1Last(t)[|t| - 1] == if t[|t| - 1] == ON then Direction(t[|t| - 2]) else t[|t| - 1]
  {
  }

  lemma LastSettles(a: Bytes)
    requires |a| > 1
    ensures N1Last(N1Middle(N1First(a)))[|a| - 1] == Settles(a, |a| - 1)
  {
    hide PrevNot, NextNot, N1First, N1Middle, N1Last, N1At;
    var n := |a|;
    LastOf(N1Middle(N1First(a)));
    N1Ends(N1First(a));
    FirstOnly(a, n - 1);
    if a[n - 1] == ON {
      NextIs(a, n - 1, n, ON);
      if n > 2 {
        MiddleNeutral(a, n - 2);
      } else {
        FirstSettles(a);
      }
      if a[n - 2] == ON {
        NextIs(a, n - 2, n, ON);
      }
    }
  }

  /** Rule N1 in one step. */
  lemma NeutralsSettle(a: Bytes, i: nat)
    requires i < |a|
    ensures RuleN1(a)[i] == Settles(a, i)
  {
    hide Settles, N1First, N1At;
    FirstSettles(a);
    if i == 0 {
      N1Ends(N1First(a));
      OnlyOne(a);
    } else if i < |a| - 1 {
      MiddleNeutral(a, i);
    } else {
      LastSettles(a);
    }
  }

  lemma OnlyOne(a: Bytes)
    requires |a| > 0
    ensures |a| == 1 ==> Settles(a, 0) == a[0]
  {
  }

  // ---------------------------------------------------------------- the final level

  /** Nothing but white space from i up to k, where there is a separator or the line ends. */
  predicate SpaceUpTo(kinds: Bytes, i: nat, k: nat) {
    i < k <= |kinds| && (forall m :: i <= m < k ==> kinds[m] == WS) && (k == |kinds| || kinds[k] in {B, S})
  }

  /** A separator, or white space with nothing but white space up to one or to the end of the line. */
  ghost predicate Trailing(kinds: Bytes, i: nat)
    requires i < |kinds|
  {
    kinds[i] in {B, S} || exists k :: SpaceUpTo(kinds, i, k)
  }

  lemma SpaceTrails(kinds: Bytes, i: nat)
    requires i < |kinds| && Trailing(kinds, i)
    ensures kinds[i] in {B, S, WS}
  {
  }

  lemma TrailingIff(kinds: Bytes, i: nat)
    requires i < |kinds|
    ensures Trailing(kinds, i) <==> Resets(kinds, i)
  {
    if kinds[i] == WS {
      var n := NextNot(kinds, i, WS);
      if Trailing(kinds, i) {
        var k :| SpaceUpTo(kinds, i, k);
        NextIs(kinds, i, k, WS);
      } else {
        assert !SpaceUpTo(kinds, i, n);
      }
    } else if Trailing(kinds, i) {
      SpaceTrails(kinds, i);
    }
  }

  ghost function Acting(kinds: Bytes): (r: Bytes)
    ensures ActsAll(kinds, r)
  {
    seq(|kinds|, i requires 0 <= i < |kinds| => Acts(kinds, i))
  }

  /** The level of the paragraph, and the one of left-to-right text in it. */
  ghost function Base(kinds: Bytes): int {
    if RightToLeft(kinds) then 1 else 0
  }

  ghost function LevelOf(kinds: Bytes, x: Byte): int {
    if x == L then 2 * Base(kinds) else if x == R then 1 else if x in {EN, AN} then 2 else Base(kinds)
  }

  lemma PlainTypesAre(kinds: Bytes, p: Byte, levels: Bytes, i: nat)
    requires Plain(kinds) && p == ParagraphLevel(kinds, 0) && i < |kinds| == |levels|
    ensures Resolved(ExplicitTypes(p, kinds), levels, p)[i] == N2At(Settles(Acting(kinds), i), levels[i])
  {
    hide ExplicitTypes, ParagraphLevel, Acts, Settles, RuleN1, RuleW1, RuleW2, RuleW3, RuleW4, RuleW5, RuleW6, RuleW7;
    var t := RuleW1(ExplicitTypes(p, kinds), p);
    AfterW1(kinds, p);
    AfterW3(kinds, t);
    var u := RuleW3(RuleW2(t));
    var v := RuleW6(RuleW5(RuleW4(u)));
    forall m: nat | m < |kinds|
      ensures v[m] == Six(kinds, m)
    {
      AfterW6(kinds, u, m);
    }
    AfterW7(kinds, v);
    assert RuleW7(v) == Acting(kinds);
    NeutralsSettle(Acting(kinds), i);
  }

  /** The final level of every character of a line without embedding codes. */
  lemma FinalLevelIs(kinds: Bytes, i: nat)
    requires Plain(kinds) && i < |kinds|
    ensures FinalLevels(kinds)[i] as int ==
      if Trailing(kinds, i) then Base(kinds) else LevelOf(kinds, Settles(Acting(kinds), i))
  {
    hide Resolved, Resets, ExplicitTypes, ExplicitLevels, ParagraphLevel, Settles, Acting, RightToLeft, Trailing;
    var p := ParagraphLevel(kinds, 0);
    ParagraphIff(kinds);
    PlainExplicit(p, kinds, i);
    PlainTypesAre(kinds, p, ExplicitLevels(p, kinds), i);
    TrailingIff(kinds, i);
  }

  // ---------------------------------------------------------------- what each kind of character gets

  /** A European number that counts as left-to-right text: the last strong character before it is an
      L, or there is none and the line starts with a mark. */
  ghost predicate Leftward(kinds: Bytes, i: nat)
    requires i < |kinds|
  {
    LastIs(kinds, i, L) || (kinds[0] == NSM && forall m :: 0 <= m <= i ==> !Strong(kinds[m]))
  }

  /** Only separators and terminators are made numbers. */
  lemma OnlySeparators(kinds: Bytes, i: nat)
    requires i < |kinds| && (Joined(kinds, i) || Counted(kinds, i))
    ensures Bears(kinds, i) in {ES, CS, ET}
  {
    hide European, Arabic, Bears, Reaches;
  }

  /** Numbers are at level two, or as left-to-right text. */
  lemma NumberActs(kinds: Bytes, i: nat)
    requires i < |kinds| && Bears(kinds, i) == EN
    ensures Acts(kinds, i) == if LastIs(kinds, i, AL) then AN else if AfterL(kinds, i) then L else EN
  {
    hide Bears, LastIs, AfterL, Joined, Counted;
    if Joined(kinds, i) || Counted(kinds, i) {
      OnlySeparators(kinds, i);
    }
  }

  lemma OthersAct(kinds: Bytes, i: nat)
    requires i < |kinds| && Bears(kinds, i) !in {EN, ES, ET, CS}
    ensures Acts(kinds, i) == if Bears(kinds, i) == AL then R else Bears(kinds, i)
  {
    hide Bears, LastIs, AfterL, Joined, Counted;
    if Joined(kinds, i) || Counted(kinds, i) {
      OnlySeparators(kinds, i);
    }
  }

  /** A line has text of one direction before a number. */
  lemma LeftwardIs(kinds: Bytes, i: nat)
    requires i < |kinds|
    ensures LastIs(kinds, i, AL) ==> !Leftward(kinds, i)
    ensures AfterL(kinds, i) ==> Leftward(kinds, i)
    ensures Leftward(kinds, i) && !RightToLeft(kinds) ==> AfterL(kinds, i)
  {
    hide RightToLeft;
    if LastIs(kinds, i, AL) && LastIs(kinds, i, L) {
      OneLast(kinds, i, L, AL);
    }
    if forall m :: 0 <= m <= i ==> !Strong(kinds[m]) {
      NoneIsLast(kinds, i, AL);
    }
  }

  /** Right-to-left text is at level one; left-to-right text at level two in a right-to-left
      paragraph, else at level zero; Arabic numbers at level two. A European number is at level two
      unless the paragraph is left-to-right and it counts as left-to-right text. */
  lemma TextLevels(kinds: Bytes, i: nat)
    requires Plain(kinds) && i < |kinds|
    ensures var level := FinalLevels(kinds)[i] as int;
      && (kinds[i] in {R, AL} ==> level == 1)
      && (kinds[i] == L ==> level == if RightToLeft(kinds) then 2 else 0)
      && (kinds[i] == AN ==> level == 2)
      && (kinds[i] == EN ==> level == if !RightToLeft(kinds) && Leftward(kinds, i) then 0 else 2)
  {
    hide FinalLevels, RightToLeft, LastIs, AfterL, Acts, Leftward, PrevNot, NextNot, Bears;
    if kinds[i] in {R, AL, L, AN, EN} {
      FinalLevelIs(kinds, i);
      BearsMark(kinds, i);
      LeftwardIs(kinds, i);
      if kinds[i] == EN {
        NumberActs(kinds, i);
      } else {
        OthersAct(kinds, i);
      }
    }
  }

  /** Segment and paragraph separators, and white space before them or at the end of the line, are
      at the level of the paragraph. So is what has no direction and is not neutral. */
  lemma BaseLevels(kinds: Bytes, i: nat)
    requires Plain(kinds) && i < |kinds| && (Trailing(kinds, i) || kinds[i] in {B, BN})
    ensures FinalLevels(kinds)[i] as int == if RightToLeft(kinds) then 1 else 0
  {
    hide FinalLevels, RightToLeft, LastIs, AfterL, Acts, Trailing, PrevNot, NextNot, Bears;
    FinalLevelIs(kinds, i);
    BearsMark(kinds, i);
    if !Trailing(kinds, i) {
      OthersAct(kinds, i);
    }
  }

  lemma MarkActs(kinds: Bytes, i: nat)
    requires 0 < i < |kinds| && kinds[i] == NSM
    ensures Acts(kinds, i) == Acts(kinds, i - 1)
  {
    hide Bears, RightToLeft, LastIs, Reaches;
    BearsMark(kinds, i);
    LastOne(kinds, i, L);
    LastOne(kinds, i, AL);
    CountedTogether(kinds, i);
    hide Counted;
  }

  lemma CountedTogether(kinds: Bytes, i: nat)
    requires 0 < i < |kinds| && Bears(kinds, i) == Bears(kinds, i - 1)
    ensures Counted(kinds, i) <==> Counted(kinds, i - 1)
  {
    hide Bears, LastIs;
    if Counted(kinds, i) {
      var j: nat :| j < |kinds| && Reaches(kinds, i, j);
      assert Reaches(kinds, i - 1, j);
    }
    if Counted(kinds, i - 1) {
      var j: nat :| j < |kinds| && Reaches(kinds, i - 1, j);
      assert Reaches(kinds, i, j);
    }
  }

  lemma SameSettles(a: Bytes, i: nat)
    requires 0 < i < |a| && a[i] == a[i - 1]
    ensures Settles(a, i) == Settles(a, i - 1)
  {
    if a[i] == ON {
      PrevIs(a, i, PrevNot(a, i - 1, ON), ON);
      NextIs(a, i - 1, NextNot(a, i, ON), ON);
    }
  }

  /** A mark is at the level of the character before it, unless that is a segment separator. */
  lemma MarkLevels(kinds: Bytes, i: nat)
    requires Plain(kinds) && 0 < i < |kinds| && kinds[i] == NSM && kinds[i - 1] != S
    ensures FinalLevels(kinds)[i] == FinalLevels(kinds)[i - 1]
  {
    hide FinalLevels, RightToLeft, LastIs, AfterL, Acts, PrevNot, NextNot, Bears, Settles;
    FinalLevelIs(kinds, i);
    FinalLevelIs(kinds, i - 1);
    MarkActs(kinds, i);
    SameSettles(Acting(kinds), i);
    if kinds[i - 1] == B {
      BearsMark(kinds, i - 1);
      OthersAct(kinds, i - 1);
      SettlesNot(Acting(kinds), i - 1);
    }
  }

  lemma SettlesNot(a: Bytes, i: nat)
    requires i < |a| && a[i] != ON
    ensures Settles(a, i) == a[i]
  {
  }

  /** Strong right-to-left text, and numbers that do not count as left-to-right. */
  ghost predicate PointsRight(kinds: Bytes, k: nat)
    requires k < |kinds|
  {
    kinds[k] in {R, AL, AN} || (kinds[k] == EN && !AfterL(kinds, k))
  }

  ghost predicate PointsLeft(kinds: Bytes, k: nat)
    requires k < |kinds|
  {
    kinds[k] == L || (kinds[k] == EN && AfterL(kinds, k))
  }

  lemma PointersAct(kinds: Bytes, k: nat)
    requires k < |kinds|
    ensures PointsRight(kinds, k) ==> Rightward(Acts(kinds, k))
    ensures PointsLeft(kinds, k) ==> Acts(kinds, k) == L
  {
    hide Bears, RightToLeft, LastIs, AfterL, Acts;
    if PointsRight(kinds, k) || PointsLeft(kinds, k) {
      BearsMark(kinds, k);
      LeftwardIs(kinds, k);
      if kinds[k] == EN {
        NumberActs(kinds, k);
        NotBoth(kinds, k);
      } else {
        OthersAct(kinds, k);
      }
    }
  }

  lemma NotBoth(kinds: Bytes, k: nat)
    requires k < |kinds|
    ensures AfterL(kinds, k) ==> !LastIs(kinds, k, AL)
  {
    hide LastIs;
    LeftwardIs(kinds, k);
  }

  /** The level that two neighbours give to what is neutral between them. */
  ghost predicate Agreed(kinds: Bytes, a: nat, b: nat, level: int)
    requires a < |kinds| && b < |kinds|
  {
    && (PointsRight(kinds, a) && PointsRight(kinds, b) ==> level == 1)
    && (PointsLeft(kinds, a) && PointsLeft(kinds, b) ==> level == if RightToLeft(kinds) then 2 else 0)
    && ((PointsLeft(kinds, a) && PointsRight(kinds, b)) || (PointsRight(kinds, a) && PointsLeft(kinds, b)) ==>
          level == if RightToLeft(kinds) then 1 else 0)
  }

  lemma RunLevels(kinds: Bytes, a: nat, i: nat, b: nat)
    requires Plain(kinds) && a < i < b < |kinds| && !Trailing(kinds, i)
    requires forall m: nat :: a < m < b ==> Acts(kinds, m) == ON
    ensures Agreed(kinds, a, b, FinalLevels(kinds)[i] as int)
  {
    hide FinalLevels, RightToLeft, AfterL, Acts, Trailing, PrevNot, NextNot, PointsRight, PointsLeft;
    var t := Acting(kinds);
    FinalLevelIs(kinds, i);
    PointersAct(kinds, a);
    PointersAct(kinds, b);
    if t[a] != ON && t[b] != ON {
      PrevIs(t, i, a, ON);
      NextIs(t, i, b, ON);
    }
  }

  /** White space that text follows is not reset. */
  lemma NotTrailing(kinds: Bytes, i: nat, b: nat)
    requires i < b < |kinds| && kinds[b] !in {WS, B, S} && forall m :: i <= m < b ==> kinds[m] !in {B, S}
    ensures !Trailing(kinds, i)
  {
  }

  predicate IsNeutral(kind: Byte) {
    kind in {ON, WS}
  }

  lemma NeutralActs(kinds: Bytes, i: nat)
    requires i < |kinds| && IsNeutral(kinds[i])
    ensures Acts(kinds, i) == ON
  {
    hide Acts, Bears;
    BearsMark(kinds, i);
    OthersAct(kinds, i);
  }

  /** Neutral characters between right-to-left text or numbers are at level one, between
      left-to-right text at its level, and between the two at the level of the paragraph. */
  lemma NeutralLevels(kinds: Bytes, a: nat, i: nat, b: nat)
    requires Plain(kinds) && a < i < b < |kinds| && forall m :: a < m < b ==> IsNeutral(kinds[m])
    ensures Agreed(kinds, a, b, FinalLevels(kinds)[i] as int)
  {
    hide FinalLevels, RightToLeft, AfterL, Acts, Trailing;
    if kinds[b] in {WS, B, S} {
    } else {
      NotTrailing(kinds, i, b);
      forall m: nat | a < m < b
        ensures Acts(kinds, m) == ON
      {
        NeutralActs(kinds, m);
      }
      RunLevels(kinds, a, i, b);
    }
  }

  /** A single neutral character at the start of the line goes by the one after it. */
  lemma StartLevel(kinds: Bytes)
    requires Plain(kinds) && 1 < |kinds| && IsNeutral(kinds[0])
    ensures Agreed(kinds, 1, 1, FinalLevels(kinds)[0] as int)
  {
    hide FinalLevels, RightToLeft, AfterL, Acts, Trailing, PrevNot, NextNot;
    var t := Acting(kinds);
    if PointsRight(kinds, 1) || PointsLeft(kinds, 1) {
      FinalLevelIs(kinds, 0);
      NeutralActs(kinds, 0);
      PointersAct(kinds, 1);
      NotTrailing(kinds, 0, 1);
      PrevIs(t, 0, -1, ON);
      NextIs(t, 0, 1, ON);
    }
  }

  /** One at the end of the line goes by the one before it. */
  lemma EndLevel(kinds: Bytes)
    requires Plain(kinds) && 1 < |kinds| && kinds[|kinds| - 1] == ON
    ensures Agreed(kinds, |kinds| - 2, |kinds| - 2, FinalLevels(kinds)[|kinds| - 1] as int)
  {
    hide FinalLevels, RightToLeft, AfterL, Acts, PrevNot, NextNot;
    var t, i := Acting(kinds), |kinds| - 1;
    FinalLevelIs(kinds, i);
    NeutralActs(kinds, i);
    PointersAct(kinds, i - 1);
    if t[i - 1] != ON {
      PrevIs(t, i, i - 1, ON);
      NextIs(t, i, |kinds|, ON);
    }
  }

  /** Two or more neutral characters at the start or at the end of the line stay at the level of the
      paragraph, whatever follows or goes before. */
  lemma LongEnds(kinds: Bytes, i: nat, b: nat)
    requires Plain(kinds) && i < |kinds| && b <= |kinds|
    requires (i < b && 1 < b && forall m :: 0 <= m < b ==> IsNeutral(kinds[m])) ||
      (b <= i && b < |kinds| - 1 && forall m :: b <= m < |kinds| ==> IsNeutral(kinds[m]))
    ensures FinalLevels(kinds)[i] as int == if RightToLeft(kinds) then 1 else 0
  {
    hide FinalLevels, RightToLeft, AfterL, Acts, Trailing, PrevNot, NextNot;
    var t := Acting(kinds);
    FinalLevelIs(kinds, i);
    forall m: nat | m < |kinds| && IsNeutral(kinds[m])
      ensures t[m] == ON
    {
      NeutralActs(kinds, m);
    }
    if i < b {
      PrevIs(t, i, -1, ON);
    } else {
      NextIs(t, i, |kinds|, ON);
    }
  }

  // ---------------------------------------------------------------- separators and terminators

  predicate IsNumber(kind: Byte) {
    kind in {EN, AN}
  }

  /** A number that is Arabic, by its type or by the Arabic letter before it. */
  ghost predicate IsArabic(kinds: Bytes, k: nat)
    requires k < |kinds|
  {
    kinds[k] == AN || LastIs(kinds, k, AL)
  }

  lemma NumberBears(kinds: Bytes, k: nat)
    requires k < |kinds| && IsNumber(kinds[k])
    ensures Arabic(kinds, k) <==> IsArabic(kinds, k)
    ensures European(kinds, k) <==> !IsArabic(kinds, k)
    ensures PointsRight(kinds, k) <==> !PointsLeft(kinds, k)
  {
    hide Bears, LastIs, AfterL;
    BearsMark(kinds, k);
  }

  lemma JoinedIff(kinds: Bytes, i: nat)
    requires 0 < i < |kinds| - 1 && kinds[i] in {ES, CS} && IsNumber(kinds[i - 1]) && IsNumber(kinds[i + 1])
    ensures Joined(kinds, i) <==>
      (IsArabic(kinds, i - 1) == IsArabic(kinds, i + 1) && (kinds[i] == CS || !IsArabic(kinds, i - 1)))
  {
    hide Bears, Arabic, European, IsArabic;
    BearsMark(kinds, i);
    NumberBears(kinds, i - 1);
    NumberBears(kinds, i + 1);
  }

  lemma AfterStep(kinds: Bytes, i: nat)
    requires 0 < i < |kinds| && !Strong(kinds[i])
    ensures AfterL(kinds, i) == AfterL(kinds, i - 1) && LastIs(kinds, i, AL) == LastIs(kinds, i - 1, AL)
  {
    hide RightToLeft, LastIs;
    LastOne(kinds, i, L);
    LastOne(kinds, i, AL);
  }

  lemma {:induction false} AfterSteps(kinds: Bytes, i: nat, j: nat)
    requires i <= j < |kinds| && forall m :: i < m <= j ==> !Strong(kinds[m])
    ensures AfterL(kinds, i) == AfterL(kinds, j)
  {
    hide AfterL, LastIs;
    if i < j {
      AfterSteps(kinds, i, j - 1);
      AfterStep(kinds, j);
    }
  }

  lemma SeparatorActs(kinds: Bytes, i: nat)
    requires 0 < i < |kinds| - 1 && kinds[i] in {ES, CS} && IsNumber(kinds[i - 1]) && IsNumber(kinds[i + 1])
    ensures var a, b := IsArabic(kinds, i - 1), IsArabic(kinds, i + 1);
      if a && b && kinds[i] == CS then Acts(kinds, i) == AN
      else if !a && !b then Acts(kinds, i - 1) == Acts(kinds, i) == Acts(kinds, i + 1) && Acts(kinds, i) in {L, EN}
      else Acts(kinds, i) == ON
  {
    hide Bears, LastIs, AfterL, Joined, Counted;
    JoinedIff(kinds, i);
    BearsMark(kinds, i);
    NumberBears(kinds, i - 1);
    NumberBears(kinds, i + 1);
    AfterStep(kinds, i);
    AfterStep(kinds, i + 1);
    if Counted(kinds, i) {
      CountedBears(kinds, i);
    }
    if !IsArabic(kinds, i - 1) && !IsArabic(kinds, i + 1) {
      NumberActs(kinds, i - 1);
      NumberActs(kinds, i + 1);
    }
  }

  lemma CountedBears(kinds: Bytes, i: nat)
    requires i < |kinds| && Counted(kinds, i)
    ensures Bears(kinds, i) == ET
  {
    hide Bears, Reaches;
  }

  lemma NumberedLevel(kinds: Bytes, i: nat)
    requires Plain(kinds) && i < |kinds| && kinds[i] !in {B, S, WS} && Acts(kinds, i) != ON
    ensures FinalLevels(kinds)[i] as int == LevelOf(kinds, Acts(kinds, i))
  {
    hide FinalLevels, RightToLeft, Acts, Trailing, PrevNot, NextNot, LevelOf;
    FinalLevelIs(kinds, i);
    SettlesNot(Acting(kinds), i);
    if Trailing(kinds, i) {
      SpaceTrails(kinds, i);
    }
  }

  /** A separator between two numbers is at level two or with them if both are European, or if both
      are Arabic and it is a common one. Any other is neutral. */
  lemma SeparatorLevels(kinds: Bytes, i: nat)
    requires Plain(kinds) && 0 < i < |kinds| - 1 && kinds[i] in {ES, CS}
    requires IsNumber(kinds[i - 1]) && IsNumber(kinds[i + 1])
    ensures var levels, a, b := FinalLevels(kinds), IsArabic(kinds, i - 1), IsArabic(kinds, i + 1);
      if a && b && kinds[i] == CS then levels[i] == 2
      else if !a && !b then levels[i - 1] == levels[i] == levels[i + 1]
      else Agreed(kinds, i - 1, i + 1, levels[i] as int)
  {
    hide FinalLevels, RightToLeft, Acts, Trailing, Agreed, IsArabic;
    SeparatorActs(kinds, i);
    if IsArabic(kinds, i - 1) == IsArabic(kinds, i + 1) && (kinds[i] == CS || !IsArabic(kinds, i - 1)) {
      NumberedLevel(kinds, i);
      if !IsArabic(kinds, i - 1) {
        NumberedLevel(kinds, i - 1);
        NumberedLevel(kinds, i + 1);
      }
    } else {
      NotTrailing(kinds, i, i + 1);
      RunLevels(kinds, i - 1, i, i + 1);
    }
  }

  lemma ReachesNumber(kinds: Bytes, i: nat, j: nat)
    requires i < |kinds| && j < |kinds| && i != j && kinds[j] == EN && !LastIs(kinds, j, AL)
    requires forall m :: (i <= m < j || j < m <= i) ==> kinds[m] == ET
    ensures Acts(kinds, i) == Acts(kinds, j) && Acts(kinds, i) in {EN, L}
  {
    hide Bears, LastIs, AfterL;
    forall m: nat | m < |kinds|
      ensures kinds[m] in {ET, EN} ==> Bears(kinds, m) == kinds[m]
    {
      BearsMark(kinds, m);
    }
    assert Reaches(kinds, i, j);
    AfterSteps(kinds, if i < j then i else j, if i < j then j else i);
    NumberActs(kinds, j);
  }

  /** Terminators next to a European number are with it, however many they are. */
  lemma TerminatorLevels(kinds: Bytes, i: nat, j: nat)
    requires Plain(kinds) && i < |kinds| && j < |kinds| && kinds[j] == EN && !LastIs(kinds, j, AL)
    requires forall m :: (i <= m < j || j < m <= i) ==> kinds[m] == ET
    ensures FinalLevels(kinds)[i] == FinalLevels(kinds)[j]
  {
    hide FinalLevels, RightToLeft, Acts, LastIs;
    if i != j {
      ReachesNumber(kinds, i, j);
      NumberedLevel(kinds, i);
      NumberedLevel(kinds, j);
    }
  }

  /** What ends a sequence of terminators without making it a number. */
  ghost predicate Stops(kinds: Bytes, k: nat)
    requires k < |kinds|
  {
    kinds[k] !in {ET, NSM} && (kinds[k] == EN ==> LastIs(kinds, k, AL))
  }

  lemma NotCounted(kinds: Bytes, a: nat, i: nat, b: nat)
    requires a < i < b < |kinds| && Stops(kinds, a) && Stops(kinds, b)
    requires forall m :: a < m < b ==> kinds[m] == ET
    ensures Acts(kinds, i) == ON
  {
    hide Bears, LastIs, AfterL;
    BearsMark(kinds, a);
    BearsMark(kinds, b);
    BearsMark(kinds, i);
    if Counted(kinds, i) {
      var j: nat :| j < |kinds| && Reaches(kinds, i, j);
      BearsMark(kinds, j);
    }
  }

  /** Terminators between text or Arabic numbers are neutral. */
  lemma LooseTerminators(kinds: Bytes, a: nat, i: nat, b: nat)
    requires Plain(kinds) && a < i < b < |kinds| && Stops(kinds, a) && Stops(kinds, b)
    requires forall m :: a < m < b ==> kinds[m] == ET
    ensures Agreed(kinds, a, b, FinalLevels(kinds)[i] as int)
  {
    hide FinalLevels, RightToLeft, Acts, Agreed, Trailing, Stops;
    forall m: nat | a < m < b
      ensures Acts(kinds, m) == ON
    {
      NotCounted(kinds, a, m, b);
    }
    if Trailing(kinds, i) {
      SpaceTrails(kinds, i);
    }
    RunLevels(kinds, a, i, b);
  }

  // ---------------------------------------------------------------- the order of words

  predicate AllStrong(kinds: Bytes) {
    forall kind :: kind in kinds ==> kind in {L, R, AL}
  }

  /** With levels of one at most there is one pass. */
  lemma OnePass(levels: Bytes, i: nat)
    requires i < |levels| && forall k :: 0 <= k < |levels| ==> levels[k] <= 1
    ensures FlipDown(levels, Highest(levels), Identity(|levels|))[i] == FlipSource(levels, 1, i)
  {
    hide FlipSource;
    var n, top := |levels|, Highest(levels);
    if top == 0 {
      assert levels[i] <= top;
      LowStays(levels, i);
    } else {
      var order := Arrange(Identity(n), FlipPass(levels, 1));
      assert top == 1 && FlipDown(levels, 0, order) == order;
    }
  }

  lemma LowStays(levels: Bytes, i: nat)
    requires i < |levels| && levels[i] == 0
    ensures FlipSource(levels, 1, i) == i
  {
  }

  lemma RunTurns(levels: Bytes, a: nat, i: nat, b: nat)
    requires a <= i < b <= |levels| && forall k :: a <= k < b ==> levels[k] == 1
    requires (a > 0 ==> levels[a - 1] == 0) && (b < |levels| ==> levels[b] == 0)
    ensures FlipSource(levels, 1, i) == a + b - 1 - i
  {
    RunIs(levels, 1, a, b, i);
  }

  lemma StrongLevels(kinds: Bytes)
    requires AllStrong(kinds)
    ensures var levels := FinalLevels(kinds);
      forall k :: 0 <= k < |kinds| ==>
        levels[k] as int == if kinds[k] != L then 1 else if RightToLeft(kinds) then 2 else 0
  {
    hide FinalLevels, RightToLeft, LastIs, Leftward;
    forall k: nat | k < |kinds|
      ensures FinalLevels(kinds)[k] as int == if kinds[k] != L then 1 else if RightToLeft(kinds) then 2 else 0
    {
      assert kinds[k] in kinds;
      TextLevels(kinds, k);
    }
  }

  /** A line of strong text that begins left-to-right: each right-to-left word is turned round where it
      stands, and the rest stays. */
  lemma WordsTurned(kinds: Bytes, a: nat, i: nat, b: nat)
    requires AllStrong(kinds) && !RightToLeft(kinds) && a <= i < b <= |kinds|
    requires (forall k :: a <= k < b ==> kinds[k] != L) && (a > 0 ==> kinds[a - 1] == L) &&
      (b < |kinds| ==> kinds[b] == L)
    ensures Order(kinds)[i] == a + b - 1 - i
    ensures forall k: nat :: k < |kinds| && kinds[k] == L ==> Order(kinds)[k] == k
  {
    hide FinalLevels, RightToLeft, FlipDown, Highest, FlipSource;
    var levels := FinalLevels(kinds);
    StrongLevels(kinds);
    OnePass(levels, i);
    RunTurns(levels, a, i, b);
    forall k: nat | k < |kinds| && kinds[k] == L
      ensures Order(kinds)[k] == k
    {
      OnePass(levels, k);
      LowStays(levels, k);
    }
  }

  /** A line of right-to-left text alone is turned round as a whole. */
  lemma LineTurned(kinds: Bytes, i: nat)
    requires i < |kinds| && forall kind :: kind in kinds ==> kind in {R, AL}
    ensures Order(kinds)[i] == |kinds| - 1 - i
  {
    hide FinalLevels, RightToLeft, FlipDown, Highest, FlipSource;
    var levels := FinalLevels(kinds);
    StrongLevels(kinds);
    assert forall k :: 0 <= k < |kinds| ==> kinds[k] in kinds;
    OnePass(levels, i);
    RunTurns(levels, 0, i, |kinds|);
  }
}
