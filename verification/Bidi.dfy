/**
 The bidirectional algorithm on one line: explicit levels, the rules of BidiRules, resetting the
 levels of white space, mirroring, and reordering. The classification of characters and their
 mirror images are parameters.
 */
module Bidi {
  import opened Marshal
  import opened BidiRules
  import opened BidiReorder

  // ---------------------------------------------------------------- explicit levels

  /** The state of the pass over the embedding codes, with the levels and types it has stored. */
  datatype Explicit = Explicit(embedding: Byte, override: Byte, bover: bool, levels: Bytes, types: Bytes)

  function LeastGreaterOdd(x: Byte): Byte {
    ((x as int + 1) - (x as int + 1) % 2 + 1) % 256
  }

  function LeastGreaterEven(x: Byte): Byte {
    ((x as int + 2) - (x as int + 2) % 2) % 256
  }

  /** Marks a level with an override in its two highest bits. */
  function SetOverrideBits(level: Byte, override: Byte): Byte {
    if override == R then (if level / 64 % 2 == 1 then level else level as int + 64)
    else if override == L then (if level >= 128 then level else level as int + 128)
    else level
  }

  /** The value before the most recent run of equal levels, or -1. */
  function PreviousLevel(levels: Bytes): int {
    if levels == [] then -1
    else
      var k := PrevNot(levels, |levels|, levels[|levels| - 1]);
      if k < 0 then -1 else levels[k] as int
  }

  method GetPreviousLevel(levels: array<Byte>, from: nat) returns (r: int)
    requires from <= levels.Length
    ensures r == PreviousLevel(levels[..from])
  {
    if from > 0 {
      var current := levels[from - 1];
      ghost var v := levels[..from];
      var k: int := from - 1;
      while k >= 0 && levels[k] == current
        invariant -1 <= k < from && PrevNot(v, from, current) == PrevNot(v, k + 1, current)
      {
        k := k - 1;
      }
      if k >= 0 {
        return levels[k] as int;
      }
      r := -1;
    } else {
      assert levels[..from] == [];
      r := -1;
    }
  }

  /** What a character of some type does to the pass. */
  function ExplicitStep(p: Byte, s: Explicit, kind: Byte): Explicit {
    var overridden := if s.override != ON then s.override else kind;
    if kind == RLE then
      var e := LeastGreaterOdd(s.embedding);
      Explicit(e, ON, s.bover, s.levels + [SetOverrideBits(e, s.override)], s.types + [RLE])
    else if kind == LRE then
      var e := LeastGreaterEven(s.embedding);
      Explicit(e, ON, s.bover, s.levels + [SetOverrideBits(e, s.override)], s.types + [LRE])
    else if kind == RLO then
      var e := LeastGreaterOdd(s.embedding);
      Explicit(e, R, true, s.levels + [e], s.types + [R])
    else if kind == LRO then
      var e := LeastGreaterEven(s.embedding);
      Explicit(e, L, true, s.levels + [e], s.types + [L])
    else if kind == PDF then
      if PreviousLevel(s.levels) == -1 then Explicit(p, ON, s.bover, s.levels + [p], s.types + [PDF])
      else
        var e: Byte := s.embedding % 64;
        Explicit(e, s.embedding - e, s.bover, s.levels + [e], s.types + [PDF])
    else if kind in {WS, S} then
      Explicit(s.embedding, s.override, s.bover, s.levels + [s.embedding], s.types +
          [if s.override != ON then s.override else ON])
    else
      Explicit(s.embedding, s.override, s.bover, s.levels + [s.embedding], s.types + [overridden])
  }

  function ExplicitRun(p: Byte, kinds: Bytes): (s: Explicit)
    ensures |s.levels| == |s.types| == |kinds|
  {
    if kinds == [] then Explicit(p, ON, false, [], [])
    else ExplicitStep(p, ExplicitRun(p, kinds[..|kinds| - 1]), kinds[|kinds| - 1])
  }

  /** X9: embedding codes become boundary neutrals. */
  function X9(t: Byte): Byte {
    if t in {RLE, LRE, RLO, LRO, PDF} then BN else t
  }

  function ExplicitLevels(p: Byte, kinds: Bytes): (r: Bytes)
    ensures |r| == |kinds|
  {
    var s := ExplicitRun(p, kinds);
    if s.bover then seq(|kinds|, i requires 0 <= i < |kinds| => s.levels[i] % 64) else s.levels
  }

  function ExplicitTypes(p: Byte, kinds: Bytes): (r: Bytes)
    ensures |r| == |kinds|
  {
    var s := ExplicitRun(p, kinds);
    seq(|kinds|, i requires 0 <= i < |kinds| => X9(s.types[i]))
  }

  predicate IsCode(kind: Byte) {
    kind in {RLE, LRE, RLO, LRO, PDF}
  }

  /** Without embedding codes every character is at the paragraph level and keeps its type,
      white space and separators being neutral. */
  lemma {:induction false} PlainText(p: Byte, kinds: Bytes)
    requires forall k :: k in kinds ==> !IsCode(k)
    ensures var s := ExplicitRun(p, kinds);
      && s.embedding == p && s.override == ON && !s.bover
      && forall i :: 0 <= i < |kinds| ==> s.levels[i] == p && s.types[i] == if kinds[i] in {WS, S} then ON else kinds[i]
  {
    hide PreviousLevel, SetOverrideBits, LeastGreaterOdd, LeastGreaterEven;
    if kinds != [] {
      var front := kinds[..|kinds| - 1];
      assert kinds[|kinds| - 1] in kinds && forall k :: k in front ==> k in kinds;
      PlainText(p, front);
      assert forall i :: 0 <= i < |front| ==> front[i] == kinds[i];
    }
  }

  /** The level that a code opens. */
  function Opened(code: Byte, embedding: Byte): Byte {
    if code in {RLE, RLO} then LeastGreaterOdd(embedding) else LeastGreaterEven(embedding)
  }

  /** Without the marks, the last level stored is the current one. */
  lemma LastLevel(p: Byte, kinds: Bytes)
    requires p <= 1 && kinds != []
    ensures var s := ExplicitRun(p, kinds); s.levels[|kinds| - 1] % 64 == s.embedding % 64
  {
    hide PreviousLevel, LeastGreaterOdd, LeastGreaterEven, SetOverrideBits;
    var before := ExplicitRun(p, kinds[..|kinds| - 1]);
    MarkedLevel(LeastGreaterOdd(before.embedding), before.override);
    MarkedLevel(LeastGreaterEven(before.embedding), before.override);
  }

  lemma MarkedLevel(level: Byte, override: Byte)
    ensures SetOverrideBits(level, override) % 64 == level % 64
  {
  }

  /** A code changes the level, also when the highest two bits are cleared, and where it wraps. */
  lemma OpenedDiffers(code: Byte, embedding: Byte)
    ensures Opened(code, embedding) % 64 != embedding % 64
    ensures embedding < 62 ==> Opened(code, embedding) < 64
  {
  }

  /** After a code the rest of an embedding without codes stays at its level. */
  lemma {:induction false} InsideEmbedding(p: Byte, before: Bytes, code: Byte, mid: Bytes)
    requires code in {RLE, LRE, RLO, LRO} && forall k :: k in mid ==> !IsCode(k)
    ensures var s, e := ExplicitRun(p, before + [code] + mid), Opened(code, ExplicitRun(p, before).embedding);
      && s.embedding == e && |s.levels| == |before| + 1 + |mid|
      && s.levels[..|before|] == ExplicitRun(p, before).levels
      && (before == [] ==> forall i :: 0 <= i < |s.levels| ==> s.levels[i] == e)
      && s.levels[|before|] % 64 == e % 64
  {
    hide ExplicitStep, ExplicitRun, LeastGreaterOdd, LeastGreaterEven, SetOverrideBits;
    if mid == [] {
      assert before + [code] + [] == before + [code];
      ExplicitNext(p, before, code, before + [code]);
      FirstInside(p, ExplicitRun(p, before), code);
    } else {
      var front, kind := mid[..|mid| - 1], mid[|mid| - 1];
      assert kind in mid && forall k :: k in front ==> k in mid;
      ExplicitNext(p, before + [code] + front, kind, before + [code] + mid);
      InsideEmbedding(p, before, code, front);
      PlainStep(p, ExplicitRun(p, before + [code] + front), kind);
    }
  }

  lemma FirstInside(p: Byte, s: Explicit, code: Byte)
    requires code in {RLE, LRE, RLO, LRO}
    ensures var t, e := ExplicitStep(p, s, code), Opened(code, s.embedding);
      && t.embedding == e && |t.levels| == |s.levels| + 1 && t.levels[..|s.levels|] == s.levels
      && t.levels[|s.levels|] % 64 == e % 64 && (s.override == ON ==> t.levels[|s.levels|] == e)
  {
    hide LeastGreaterOdd, LeastGreaterEven, SetOverrideBits;
    MarkedLevel(Opened(code, s.embedding), s.override);
    Unmarked(Opened(code, s.embedding));
  }

  lemma PlainStep(p: Byte, s: Explicit, kind: Byte)
    requires !IsCode(kind)
    ensures var t := ExplicitStep(p, s, kind); t.embedding == s.embedding && t.levels == s.levels + [s.embedding]
  {
  }

  lemma Unmarked(level: Byte)
    ensures SetOverrideBits(level, ON) == level
  {
  }

  /** There is a level before the most recent run exactly if not all levels are the same. */
  lemma SomePrevious(levels: Bytes)
    requires levels != []
    ensures PreviousLevel(levels) == -1 <==> forall i :: 0 <= i < |levels| ==> levels[i] == levels[|levels| - 1]
  {
  }

  /** Closing an embedding without codes, which should restore the level and the override from
      before it, does so if and only if nothing stands before the code that opened it. Otherwise
      the level stays and, unless it is 64 or more, all that follows is treated as left-to-right. */
  lemma InnermostPopIff(p: Byte, before: Bytes, code: Byte, mid: Bytes)
    requires p <= 1 && code in {RLE, LRE, RLO, LRO} && (forall k :: k in mid ==> !IsCode(k))
    ensures var s, s' := ExplicitRun(p, before), ExplicitRun(p, before + [code] + mid + [PDF]);
      && ((s'.embedding == s.embedding && s'.override == s.override) <==> before == [])
      && (before != [] ==> var e := Opened(code, s.embedding);
           s'.embedding == e % 64 && s'.override == e - e % 64 && (s.embedding < 62 ==> e < 64 && s'.override == L))
  {
    hide LeastGreaterOdd, LeastGreaterEven, SetOverrideBits, PreviousLevel, ExplicitRun;
    var s, within := ExplicitRun(p, before), before + [code] + mid;
    var kinds := within + [PDF];
    ExplicitNext(p, within, PDF, kinds);
    if before == [] { ExplicitNext(p, before, PDF, [PDF]); }
    var inside := ExplicitRun(p, within);
    InsideEmbedding(p, before, code, mid);
    OpenedDiffers(code, s.embedding);
    SomePrevious(inside.levels);
    if before != [] {
      LastLevel(p, before);
      assert inside.levels[|before| - 1] == s.levels[|before| - 1];
      assert inside.levels[|before| - 1] % 64 != inside.levels[|before|] % 64;
    }
  }

  predicate Opens(kind: Byte) {
    kind in {RLE, LRE, RLO, LRO}
  }

  /** Every code that closes an embedding follows one that opens it. */
  predicate ClosesInside(mid: Bytes) {
    forall k :: 0 <= k < |mid| && mid[k] == PDF ==> exists j :: 0 <= j < k && Opens(mid[j])
  }

  /** The levels stay within the six bits that are kept for them; UAX #9 allows no more than 61. */
  predicate LevelsFit(p: Byte, before: Bytes, mid: Bytes) {
    forall k :: 0 <= k <= |mid| ==> ExplicitRun(p, before + mid[..k]).embedding < 64
  }

  /** Not all levels are the same, so there is one before the most recent run. */
  predicate Mixed(levels: Bytes) {
    exists i, j :: 0 <= i < |levels| && 0 <= j < |levels| && levels[i] != levels[j]
  }

  lemma TwoLevels(levels: Bytes)
    requires |levels| >= 2 && levels[0] != levels[1]
    ensures Mixed(levels)
  {
  }

  lemma MixedHasPrevious(levels: Bytes)
    requires Mixed(levels)
    ensures PreviousLevel(levels) != -1
  {
    SomePrevious(levels);
  }

  lemma MixedMore(levels: Bytes, more: Bytes)
    requires Mixed(levels)
    ensures Mixed(levels + more)
  {
    var i, j :| 0 <= i < |levels| && 0 <= j < |levels| && levels[i] != levels[j];
    assert (levels + more)[i] != (levels + more)[j];
  }

  /** One more character adds a level; a code that opens an embedding adds a different one. */
  lemma StepExtends(p: Byte, s: Explicit, kind: Byte)
    ensures var t := ExplicitStep(p, s, kind);
      && |t.levels| == |s.levels| + 1 && t.levels[..|s.levels|] == s.levels
      && (Opens(kind) ==> t.levels[|s.levels|] % 64 != s.embedding % 64)
  {
    hide PreviousLevel, LeastGreaterOdd, LeastGreaterEven, SetOverrideBits;
    OpenedDiffers(kind, s.embedding);
    MarkedLevel(LeastGreaterOdd(s.embedding), s.override);
    MarkedLevel(LeastGreaterEven(s.embedding), s.override);
  }

  lemma OutsideDiffers(p: Byte, before: Bytes, code: Byte)
    requires p <= 1 && before != [] && Opens(code)
    ensures Mixed(ExplicitRun(p, before + [code]).levels)
  {
    hide SetOverrideBits, LeastGreaterOdd, LeastGreaterEven, ExplicitRun;
    var s, t := ExplicitRun(p, before), ExplicitRun(p, before + [code]);
    LastLevel(p, before);
    OpenedDiffers(code, s.embedding);
    assert before + [code] + [] == before + [code];
    InsideEmbedding(p, before, code, []);
    assert t.levels[|before| - 1] == s.levels[|before| - 1];
    assert t.levels[|before| - 1] % 64 != t.levels[|before|] % 64;
  }

  ghost predicate HasOpening(mid: Bytes) {
    exists k :: k in mid && Opens(k)
  }

  lemma ClosesFront(mid: Bytes)
    requires ClosesInside(mid) && mid != []
    ensures var front := mid[..|mid| - 1];
      ClosesInside(front) && (!HasOpening(front) ==> mid[|mid| - 1] != PDF && forall k :: k in front ==> !IsCode(k))
  {
    var front := mid[..|mid| - 1];
    forall k | 0 <= k < |front| && front[k] == PDF
      ensures exists j :: 0 <= j < k && Opens(front[j])
    {
      var j :| 0 <= j < k && Opens(mid[j]);
      assert front[j] == mid[j];
    }
    forall k | 0 <= k < |mid| && mid[k] == PDF
      ensures HasOpening(front)
    {
      var j :| 0 <= j < k && Opens(mid[j]);
      assert front[j] == mid[j] && front[j] in front;
    }
    hide ClosesInside;
    forall k | 0 <= k < |front|
      ensures IsCode(front[k]) ==> HasOpening(front)
    {
      assert front[k] in front && front[k] == mid[k];
    }
  }

  /** Once there is something before an embedding or a code within it, not all levels are the
      same, so no end of an embedding finds the start of the line. */
  lemma {:induction false} InsideMixed(p: Byte, before: Bytes, code: Byte, mid: Bytes)
    requires p <= 1 && Opens(code) && ClosesInside(mid) && (before != [] || HasOpening(mid))
    ensures Mixed(ExplicitRun(p, before + [code] + mid).levels)
    decreases |mid|
  {
    hide ExplicitStep, ExplicitRun, Mixed, LeastGreaterOdd, LeastGreaterEven, ClosesInside;
    if mid == [] {
      assert before + [code] + mid == before + [code];
      OutsideDiffers(p, before, code);
    } else {
      var front, kind := mid[..|mid| - 1], mid[|mid| - 1];
      var s, t := ExplicitRun(p, before + [code] + front), ExplicitRun(p, before + [code] + mid);
      ExplicitNext(p, before + [code] + front, kind, before + [code] + mid);
      StepExtends(p, s, kind);
      ClosesFront(mid);
      if before != [] || HasOpening(front) {
        InsideMixed(p, before, code, front);
        MixedMore(s.levels, t.levels[|s.levels|..]);
        assert t.levels == s.levels + t.levels[|s.levels|..];
      } else {
        assert Opens(kind);
        InsideEmbedding(p, before, code, front);
        DifferentEnds(t.levels, s.embedding);
      }
    }
  }

  lemma DifferentEnds(levels: Bytes, e: Byte)
    requires |levels| >= 2 && levels[0] == e && levels[|levels| - 1] % 64 != e % 64
    ensures Mixed(levels)
  {
    assert levels[0] != levels[|levels| - 1];
  }

  /** Inside an embedding the level never falls below that of the embedding. */
  lemma {:induction false} InsideRises(p: Byte, before: Bytes, code: Byte, mid: Bytes)
    requires p <= 1 && Opens(code) && ClosesInside(mid) && LevelsFit(p, before + [code], mid)
    ensures Opened(code, ExplicitRun(p, before).embedding) <= ExplicitRun(p, before + [code] + mid).embedding < 64
    decreases |mid|
  {
    hide ExplicitStep, ExplicitRun, Mixed, LeastGreaterOdd, LeastGreaterEven, ClosesInside;
    var outer := before + [code];
    assert mid[..|mid|] == mid && mid[..0] == [] && outer + [] == outer;
    if mid == [] {
      InsideEmbedding(p, before, code, []);
    } else {
      var front, kind := mid[..|mid| - 1], mid[|mid| - 1];
      assert forall k :: 0 <= k <= |front| ==> front[..k] == mid[..k];
      ClosesFront(mid);
      InsideRises(p, before, code, front);
      ExplicitNext(p, outer + front, kind, outer + mid);
      if kind == PDF { InsideMixed(p, before, code, front); }
      StepRaises(p, ExplicitRun(p, outer + front), kind);
    }
  }

  /** One more character never lowers the level once there is one before the last run. */
  lemma StepRaises(p: Byte, s: Explicit, kind: Byte)
    requires s.embedding < 64 && ExplicitStep(p, s, kind).embedding < 64 && (kind == PDF ==> Mixed(s.levels))
    ensures ExplicitStep(p, s, kind).embedding >= s.embedding
  {
    hide SetOverrideBits, PreviousLevel, Mixed;
    if kind == PDF {
      MixedHasPrevious(s.levels);
    }
  }

  /** Closing any embedding, whatever it holds, restores the level and the override from before it
      if and only if nothing stands before the code that opened it and no other code inside it. */
  lemma PopRestoresIff(p: Byte, before: Bytes, code: Byte, mid: Bytes)
    requires p <= 1 && Opens(code) && ClosesInside(mid)
    requires ExplicitRun(p, before).override in {ON, R} || LevelsFit(p, before + [code], mid)
    ensures var s, s' := ExplicitRun(p, before), ExplicitRun(p, before + [code] + mid + [PDF]);
      s'.embedding == s.embedding && s'.override == s.override <==> before == [] && forall k :: k in mid ==> !IsCode(k)
  {
    hide LeastGreaterOdd, LeastGreaterEven, SetOverrideBits, PreviousLevel, ExplicitRun, LevelsFit, ExplicitStep, Mixed;
    if forall k :: k in mid ==> !IsCode(k) {
      InnermostPopIff(p, before, code, mid);
    } else {
      CodesOpen(mid);
      InsideMixed(p, before, code, mid);
      NestedPop(p, before + [code] + mid);
      if ExplicitRun(p, before).override !in {ON, R} {
        InsideRises(p, before, code, mid);
        LevelRises(code, ExplicitRun(p, before).embedding);
      }
    }
  }

  lemma CodesOpen(mid: Bytes)
    requires ClosesInside(mid) && exists k :: k in mid && IsCode(k)
    ensures HasOpening(mid)
  {
    var i :| 0 <= i < |mid| && IsCode(mid[i]);
    assert mid[i] in mid;
    if mid[i] == PDF {
      var j :| 0 <= j < i && Opens(mid[j]);
      assert mid[j] in mid;
    }
  }

  lemma LevelRises(code: Byte, embedding: Byte)
    ensures embedding < Opened(code, embedding) || embedding >= 64
  {
  }

  /** An end of an embedding with something before the last run keeps the level but for its
      highest two bits, which become the override; that is never neutral or right-to-left. */
  lemma NestedPop(p: Byte, within: Bytes)
    requires Mixed(ExplicitRun(p, within).levels)
    ensures var s, s' := ExplicitRun(p, within), ExplicitRun(p, within + [PDF]);
      && s'.embedding == s.embedding % 64 && s'.override == s.embedding - s.embedding % 64 && s'.override !in {ON, R}
  {
    hide PreviousLevel, ExplicitRun, Mixed;
    MixedHasPrevious(ExplicitRun(p, within).levels);
    ExplicitNext(p, within, PDF, within + [PDF]);
    HighBits(ExplicitRun(p, within).embedding);
  }

  lemma HighBits(e: Byte)
    ensures e - e % 64 in {0, 64, 128, 192}
  {
  }

  /** A right-to-left letter after a closed embedding: it should be at the paragraph level, but
      is at that of the embedding and counts as left-to-right. */
  lemma PopFails()
    ensures ParagraphLevel([L, RLE, R, PDF, R], 0) == 0
    ensures ExplicitLevels(0, [L, RLE, R, PDF, R]) == [0, 1, 1, 1, 1]
    ensures ExplicitTypes(0, [L, RLE, R, PDF, R]) == [L, BN, R, BN, L]
  {
    hide ExplicitRun;
    FlatPrefix();
    FlatPop();
    ExplicitNext(0, [L, RLE, R, PDF], R, [L, RLE, R, PDF, R]);
  }

  lemma FlatPrefix()
    ensures ExplicitRun(0, [L, RLE, R]) == Explicit(1, ON, false, [0, 1, 1], [L, RLE, R])
  {
    hide ExplicitRun;
    ExplicitNext(0, [], L, [L]);
    ExplicitNext(0, [L], RLE, [L, RLE]);
    ExplicitNext(0, [L, RLE], R, [L, RLE, R]);
  }

  lemma FlatPop()
    requires ExplicitRun(0, [L, RLE, R]) == Explicit(1, ON, false, [0, 1, 1], [L, RLE, R])
    ensures ExplicitRun(0, [L, RLE, R, PDF]) == Explicit(1, L, false, [0, 1, 1, 1], [L, RLE, R, PDF])
  {
    hide ExplicitRun, PreviousLevel;
    ExplicitNext(0, [L, RLE, R], PDF, [L, RLE, R, PDF]);
    TwoLevels([0, 1, 1]);
    MixedHasPrevious([0, 1, 1]);
  }

  /** An embedding within one that starts the line: after both are closed the level is still that
      of the inner one. */
  lemma NestedPopFails()
    ensures ExplicitRun(0, [RLE, RLE, PDF, PDF]) == Explicit(3, L, false, [1, 3, 3, 3], [RLE, RLE, PDF, PDF])
  {
    hide ExplicitRun, PreviousLevel;
    NestedPrefix();
    ExplicitNext(0, [RLE, RLE], PDF, [RLE, RLE, PDF]);
    TwoLevels([1, 3]);
    MixedHasPrevious([1, 3]);
    MixedMore([1, 3], [3]);
    assert [1, 3] + [3] == [1, 3, 3];
    MixedHasPrevious([1, 3, 3]);
    ExplicitNext(0, [RLE, RLE, PDF], PDF, [RLE, RLE, PDF, PDF]);
  }

  lemma NestedPrefix()
    ensures ExplicitRun(0, [RLE, RLE]) == Explicit(3, ON, false, [1, 3], [RLE, RLE])
  {
    hide ExplicitRun;
    ExplicitNext(0, [], RLE, [RLE]);
    ExplicitNext(0, [RLE], RLE, [RLE, RLE]);
  }

  // ---------------------------------------------------------------- marks of an override

  /** Without a code for an override the marks are not cleared in the end, and an override can
      only come from closing an embedding. */
  lemma {:induction false} NoOverrides(p: Byte, kinds: Bytes)
    requires forall k :: k in kinds ==> k !in {RLO, LRO}
    ensures !ExplicitRun(p, kinds).bover && ExplicitRun(p, kinds).override in {ON, 0, 64, 128, 192}
  {
    hide PreviousLevel, LeastGreaterOdd, LeastGreaterEven, SetOverrideBits;
    if kinds != [] {
      var front := kinds[..|kinds| - 1];
      assert kinds[|kinds| - 1] in kinds && forall k :: k in front ==> k in kinds;
      NoOverrides(p, front);
      HighBits(ExplicitRun(p, front).embedding);
    }
  }

  /** What is stored for a character does not change later. */
  lemma {:induction false} LevelStays(p: Byte, kinds: Bytes, i: nat)
    requires i < |kinds|
    ensures ExplicitRun(p, kinds).levels[i] == ExplicitStep(p, ExplicitRun(p, kinds[..i]), kinds[i]).levels[i]
    decreases |kinds|
  {
    hide ExplicitStep, ExplicitRun;
    var front := kinds[..|kinds| - 1];
    ExplicitNext(p, front, kinds[|kinds| - 1], kinds);
    if i < |front| {
      assert front[..i] == kinds[..i];
      LevelStays(p, front, i);
      StepExtends(p, ExplicitRun(p, front), kinds[|front|]);
    } else {
      assert front == kinds[..i];
    }
  }

  /** In such a line the code that opens an embedding keeps a mark in its level, to the end of the
      algorithm, if and only if the end of an earlier embedding has left an override. */
  lemma MarksStay(p: Byte, kinds: Bytes, i: nat)
    requires i < |kinds| && kinds[i] in {RLE, LRE} && forall k :: k in kinds ==> k !in {RLO, LRO}
    requires Opened(kinds[i], ExplicitRun(p, kinds[..i]).embedding) < 64
    ensures ExplicitLevels(p, kinds)[i] >= 64 <==> ExplicitRun(p, kinds[..i]).override == L
    ensures ExplicitRun(p, kinds[..i]).override == L ==>
      ExplicitLevels(p, kinds)[i] as int == Opened(kinds[i], ExplicitRun(p, kinds[..i]).embedding) as int + 128
  {
    hide ExplicitRun, LeastGreaterOdd, LeastGreaterEven;
    NoOverrides(p, kinds);
    assert forall k :: k in kinds[..i] ==> k in kinds;
    NoOverrides(p, kinds[..i]);
    LevelStays(p, kinds, i);
  }

  /** A line in which that happens. */
  lemma MarkRemains()
    ensures ExplicitLevels(0, [L, RLE, PDF, RLE]) == [0, 1, 1, 131]
  {
    hide ExplicitRun, PreviousLevel;
    MarkPrefix();
    ExplicitNext(0, [L, RLE], PDF, [L, RLE, PDF]);
    TwoLevels([0, 1]);
    MixedHasPrevious([0, 1]);
    ExplicitNext(0, [L, RLE, PDF], RLE, [L, RLE, PDF, RLE]);
  }

  lemma MarkPrefix()
    ensures ExplicitRun(0, [L, RLE]) == Explicit(1, ON, false, [0, 1], [L, RLE])
  {
    hide ExplicitRun;
    ExplicitNext(0, [], L, [L]);
    ExplicitNext(0, [L], RLE, [L, RLE]);
  }

  lemma ExplicitNext(p: Byte, kinds: Bytes, kind: Byte, longer: Bytes)
    requires longer == kinds + [kind]
    ensures ExplicitRun(p, longer) == ExplicitStep(p, ExplicitRun(p, kinds), kind)
    ensures ExplicitRun(p, []) == Explicit(p, ON, false, [], [])
  {
    assert longer[..|longer| - 1] == kinds;
  }

  // ---------------------------------------------------------------- the line

  function Kinds(getType: int -> Byte, line: seq<BidiChar>): (r: Bytes)
    ensures |r| == |line| && forall i :: 0 <= i < |line| ==> r[i] == getType(line[i].wc)
  {
    seq(|line|, i requires 0 <= i < |line| => getType(line[i].wc))
  }

  predicate HasRtl(kinds: Bytes) {
    exists i :: 0 <= i < |kinds| && kinds[i] in {R, AL}
  }

  /** P2 and P3: the direction of the first strong character. */
  function ParagraphLevel(kinds: Bytes, i: nat): Byte
    requires i <= |kinds|
    decreases |kinds| - i
  {
    if i == |kinds| || kinds[i] == L then 0 else if kinds[i] in {R, AL} then 1 else ParagraphLevel(kinds, i + 1)
  }

  /** L1: separators, and white space before them or at the end of the line. */
  predicate Resets(kinds: Bytes, i: nat)
    requires i < |kinds|
  {
    kinds[i] in {B, S} || (kinds[i] == WS && var k := NextNot(kinds, i, WS); k == |kinds| || kinds[k] in {B, S})
  }

  function L1At(kinds: Bytes, levels: Bytes, p: Byte, i: nat): Byte
    requires i < |kinds| == |levels|
  {
    if Resets(kinds, i) then p else levels[i]
  }

  function RuleL1(kinds: Bytes, levels: Bytes, p: Byte): (r: Bytes)
    requires |kinds| == |levels|
    ensures |r| == |levels| && forall i :: 0 <= i < |r| ==> r[i] == L1At(kinds, levels, p, i)
  {
    seq(|levels|, i requires 0 <= i < |levels| => L1At(kinds, levels, p, i))
  }

  /** The levels by which the line is mirrored and reordered. */
  function FinalLevels(kinds: Bytes): (r: Bytes)
    ensures |r| == |kinds|
  {
    var p := ParagraphLevel(kinds, 0);
    var levels := ExplicitLevels(p, kinds);
    RuleL1(kinds, RuleI(Resolved(ExplicitTypes(p, kinds), levels, p), levels), p)
  }

  function Mirrored(doMirror: int -> int, line: seq<BidiChar>, levels: Bytes): (r: seq<BidiChar>)
    requires |line| == |levels|
    ensures |r| == |line| && forall i :: 0 <= i < |r| ==> r[i] == if levels[i] % 2 ==
        1 then line[i].(wc := doMirror(line[i].wc)) else line[i]
  {
    seq(|line|, i requires 0 <= i < |line| => if levels[i] % 2 ==
        1 then line[i].(wc := doMirror(line[i].wc)) else line[i])
  }

  function Highest(levels: Bytes): (m: Byte)
    ensures forall i :: 0 <= i < |levels| ==> levels[i] <= m
    ensures m == 0 || exists i :: 0 <= i < |levels| && levels[i] == m
  {
    if levels == [] then 0
    else
      var m := Highest(levels[..|levels| - 1]);
      var last := levels[|levels| - 1];
      assert levels == levels[..|levels| - 1] + [last];
      if last > m then last else m
  }

  /** Where each character of the result comes from. */
  function Order(kinds: Bytes): (r: seq<nat>)
    ensures |r| == |kinds|
  {
    var levels := FinalLevels(kinds);
    FlipDown(levels, Highest(levels), Identity(|kinds|))
  }

  // ---------------------------------------------------------------- the program

  /** The pass over one character. */
  method ExplicitChar(levels: array<Byte>, types: array<Byte>, i: nat, kind: Byte, p: Byte, embedding: Byte,
        override: Byte, bover: bool)
    returns (embedding': Byte, override': Byte, bover': bool)
    requires i < levels.Length == types.Length && levels != types
    modifies levels, types
    ensures Explicit(embedding', override', bover', levels[..i + 1], types[..i + 1])
      == ExplicitStep(p, old(Explicit(embedding, override, bover, levels[..i], types[..i])), kind)
  {
    hide PreviousLevel, SetOverrideBits, LeastGreaterEven, LeastGreaterOdd;
    var tempType := kind;
    embedding', override', bover' := embedding, override, bover;
    if kind == RLE {
      embedding' := LeastGreaterOdd(embedding);
      levels[i] := SetOverrideBits(embedding', override);
      override' := ON;
    } else if kind == LRE {
      embedding' := LeastGreaterEven(embedding);
      levels[i] := SetOverrideBits(embedding', override);
      override' := ON;
    } else if kind == RLO {
      embedding' := LeastGreaterOdd(embedding);
      levels[i] := embedding';
      override', tempType, bover' := R, R, true;
    } else if kind == LRO {
      embedding' := LeastGreaterEven(embedding);
      levels[i] := embedding';
      override', tempType, bover' := L, L, true;
    } else if kind == PDF {
      var prevlevel := GetPreviousLevel(levels, i);
      if prevlevel == -1 {
        embedding', override' := p, ON;
      } else {
        override' := embedding as int - embedding as int % 64;
        embedding' := embedding as int % 64;
      }
      levels[i] := embedding';
    } else if kind == WS || kind == S {
      levels[i] := embedding;
      tempType := if override != ON then override else ON;
    } else {
      levels[i] := embedding;
      if override != ON {
        tempType := override;
      }
    }
    types[i] := tempType;
    assert levels[..i + 1] == levels[..i] + [levels[i]] && types[..i + 1] == types[..i] + [types[i]];
  }

  method ComputeExplicit(getType: int -> Byte, line: array<BidiChar>, levels: array<Byte>, types: array<Byte>, p: Byte)
    requires line.Length == levels.Length == types.Length && levels != types
    modifies levels, types
    ensures line[..] == old(line[..])
    ensures levels[..] == ExplicitLevels(p, Kinds(getType, line[..])) &&
        types[..] == ExplicitTypes(p, Kinds(getType, line[..]))
  {
    hide ExplicitStep;
    ghost var text, kinds := line[..], Kinds(getType, line[..]);
    var embedding, override, bover := p, ON, false;
    var count := line.Length;
    var i := 0;
    while i < count
      invariant 0 <= i <= count && line[..] == text
      invariant Explicit(embedding, override, bover, levels[..i], types[..i]) == ExplicitRun(p, kinds[..i])
    {
      assert kinds[..i + 1][..i] == kinds[..i];
      embedding, override, bover := ExplicitChar(levels, types, i, getType(line[i].wc), p, embedding, override, bover);
      i := i + 1;
    }
    assert kinds[..count] == kinds && levels[..count] == levels[..] && types[..count] == types[..];
    if bover {
      ClearOverrides(levels);
    }
    RemoveCodes(types);
    assert levels[..] == ExplicitLevels(p, kinds) && types[..] == ExplicitTypes(p, kinds);
  }

  method ClearOverrides(levels: array<Byte>)
    modifies levels
    ensures forall k :: 0 <= k < levels.Length ==> levels[k] == old(levels[k]) % 64
  {
    var i := 0;
    while i < levels.Length
      invariant 0 <= i <= levels.Length
      invariant forall k :: 0 <= k < levels.Length ==>
        levels[k] == if k < i then old(levels[k]) % 64 else old(levels[k])
    {
      levels[i] := levels[i] % 64;
      i := i + 1;
    }
  }

  method RemoveCodes(types: array<Byte>)
    modifies types
    ensures forall k :: 0 <= k < types.Length ==> types[k] == X9(old(types[k]))
  {
    var i := 0;
    while i < types.Length
      invariant 0 <= i <= types.Length
      invariant forall k :: 0 <= k < types.Length ==> types[k] == if k < i then X9(old(types[k])) else old(types[k])
    {
      if types[i] in {RLE, LRE, RLO, LRO, PDF} {
        types[i] := BN;
      }
      i := i + 1;
    }
  }

  method FindRtl(getType: int -> Byte, line: array<BidiChar>) returns (yes: bool)
    ensures yes == HasRtl(Kinds(getType, line[..]))
  {
    ghost var kinds := Kinds(getType, line[..]);
    var i := 0;
    while i < line.Length
      invariant 0 <= i <= line.Length && forall k :: 0 <= k < i ==> kinds[k] !in {R, AL}
    {
      var kind := getType(line[i].wc);
      if kind == R || kind == AL {
        assert kinds[i] in {R, AL};
        return true;
      }
      i := i + 1;
    }
    yes := false;
  }

  method FindParagraphLevel(getType: int -> Byte, line: array<BidiChar>) returns (p: Byte)
    ensures p == ParagraphLevel(Kinds(getType, line[..]), 0)
  {
    ghost var kinds := Kinds(getType, line[..]);
    p := 0;
    var i := 0;
    while i < line.Length
      invariant 0 <= i <= line.Length && p == 0 && ParagraphLevel(kinds, 0) == ParagraphLevel(kinds, i)
    {
      var kind := getType(line[i].wc);
      if kind == R || kind == AL {
        return 1;
      } else if kind == L {
        return 0;
      }
      i := i + 1;
    }
  }

  /** The two loops of rule L1. */
  method ResetLevels(getType: int -> Byte, line: array<BidiChar>, levels: array<Byte>, p: Byte)
    requires line.Length == levels.Length > 0
    modifies levels
    ensures line[..] == old(line[..]) && levels[..] == RuleL1(Kinds(getType, line[..]), old(levels[..]), p)
  {
    ghost var text, kinds, v := line[..], Kinds(getType, line[..]), levels[..];
    var count := line.Length;
    var j := count - 1;
    while j > 0 && getType(line[j].wc) == WS
      invariant 0 <= j < count && forall k :: j < k < count ==> kinds[k] == WS
    {
      j := j - 1;
    }
    ghost var last := j;
    j := j + 1;
    while j < count
      invariant last < j <= count && line[..] == text
      invariant forall k :: 0 <= k < count ==> levels[k] == if last < k < j then p else v[k]
    {
      levels[j] := p;
      j := j + 1;
    }
    ResetTrailing(kinds, last);
    var i := 0;
    while i < count
      invariant 0 <= i <= count && line[..] == text
      invariant forall k :: 0 <= k < i ==> levels[k] == L1At(kinds, v, p, k)
      invariant forall k :: i <= k < count ==> levels[k] in {v[k], L1At(kinds, v, p, k)}
    {
      var tempType := getType(line[i].wc);
      if tempType == WS {
        var resets, end := WhiteSpace(getType, line, i);
        if resets {
          Reset(levels, i, end, p);
        }
      } else if tempType == B || tempType == S {
        levels[i] := p;
      }
      i := i + 1;
    }
    assert levels[..] == RuleL1(kinds, v, p);
  }

  lemma ResetTrailing(kinds: Bytes, last: nat)
    requires forall k :: last < k < |kinds| ==> kinds[k] == WS
    ensures forall k :: last < k < |kinds| ==> Resets(kinds, k)
  {
    forall k | last < k < |kinds|
      ensures Resets(kinds, k)
    {
      NextIs(kinds, k, |kinds|, WS);
    }
  }

  /** Where white space that begins at i ends, and whether it is to be reset. */
  method WhiteSpace(getType: int -> Byte, line: array<BidiChar>, i: nat) returns (resets: bool, end: nat)
    requires i < line.Length && getType(line[i].wc) == WS
    ensures var kinds := Kinds(getType, line[..]);
      i < end <= line.Length && (forall k :: i <= k < end ==> kinds[k] == WS && Resets(kinds, k) == resets)
  {
    ghost var kinds := Kinds(getType, line[..]);
    end := i;
    while end < line.Length && getType(line[end].wc) == WS
      invariant i <= end <= line.Length && forall k :: i <= k < end ==> kinds[k] == WS
    {
      end := end + 1;
    }
    resets := end == line.Length || getType(line[end].wc) == B || getType(line[end].wc) == S;
    forall k | i <= k < end
      ensures Resets(kinds, k) == resets
    {
      NextIs(kinds, k, end, WS);
    }
  }

  method Reset(levels: array<Byte>, i: nat, end: nat, p: Byte)
    requires i <= end <= levels.Length
    modifies levels
    ensures forall k :: 0 <= k < levels.Length ==> levels[k] == if i <= k < end then p else old(levels[k])
  {
    var j: int := end - 1;
    while j >= i
      invariant i - 1 <= j < end
      invariant forall k :: 0 <= k < levels.Length ==> levels[k] == if j < k < end then p else old(levels[k])
    {
      levels[j] := p;
      j := j - 1;
    }
  }

  method Mirror(doMirror: int -> int, line: array<BidiChar>, levels: array<Byte>)
    requires line.Length == levels.Length
    modifies line
    ensures levels[..] == old(levels[..]) && line[..] == Mirrored(doMirror, old(line[..]), levels[..])
  {
    ghost var text, v := line[..], levels[..];
    var i := 0;
    while i < line.Length
      invariant 0 <= i <= line.Length && levels[..] == v
      invariant forall k :: 0 <= k < line.Length ==>
        line[k] == if k < i && v[k] % 2 == 1 then text[k].(wc := doMirror(text[k].wc)) else text[k]
    {
      if levels[i] % 2 == 1 {
        line[i] := line[i].(wc := doMirror(line[i].wc));
      }
      i := i + 1;
    }
    assert line[..] == Mirrored(doMirror, text, v);
  }

  method FindHighest(levels: array<Byte>) returns (m: Byte)
    requires levels.Length > 0
    ensures m == Highest(levels[..])
  {
    m := levels[0];
    ghost var v := levels[..];
    assert v[..1] == [v[0]] && v[..1][..0] == [];
    assert Highest(v[..0]) == 0;
    var i := 0;
    while i < levels.Length
      invariant 0 <= i <= levels.Length && m == (if i == 0 then v[0] else Highest(v[..i]))
    {
      assert v[..i + 1][..i] == v[..i];
      if levels[i] > m {
        m := levels[i];
      }
      i := i + 1;
    }
    assert v[..levels.Length] == v;
  }

  lemma ArrangeTwice<T>(text: seq<T>, order: seq<nat>, pass: seq<nat>)
    requires |text| == |order| == |pass| && IsPermutation(order) && IsPermutation(pass)
    ensures Arrange(Arrange(text, order), pass) == Arrange(text, Arrange(order, pass))
  {
  }

  /** All passes, from the highest level down to one. */
  method Reorder(line: array<BidiChar>, levels: array<Byte>, top: Byte)
    requires line.Length == levels.Length
    modifies line
    ensures levels[..] == old(levels[..]) && IsPermutation(FlipDown(levels[..], top, Identity(line.Length)))
    ensures line[..] == Arrange(old(line[..]), FlipDown(levels[..], top, Identity(line.Length)))
  {
    hide FlipSource;
    ghost var text, v, n := line[..], levels[..], line.Length;
    ghost var order := Identity(n);
    FlipDownPermutes(v, top, order);
    var t: nat := top;
    assert text == Arrange(text, order);
    while t > 0
      invariant 0 <= t && levels[..] == v && |order| == n && IsPermutation(order)
      invariant line[..] == Arrange(text, order)
      invariant FlipDown(v, t, order) == FlipDown(v, top, Identity(n))
    {
      FlipThisRun(line, levels, t);
      PassPermutes(v, t);
      ArrangeTwice(text, order, FlipPass(v, t));
      ArrangePermutes(order, FlipPass(v, t));
      order := Arrange(order, FlipPass(v, t));
      t := t - 1;
    }
  }

  /** The whole algorithm. A line without right-to-left characters is left alone; any other is
      mirrored and reordered by its final levels. The result says which. */
  method DoBidi(getType: int -> Byte, doMirror: int -> int, line: array<BidiChar>) returns (r: Byte)
    modifies line
    ensures var kinds := Kinds(getType, old(line[..]));
      && IsPermutation(Order(kinds))
      && r == (if HasRtl(kinds) then R else L)
      && (r == R <==> exists i :: 0 <= i < line.Length && getType(old(line[..])[i].wc) in {R, AL})
      && line[..] == if HasRtl(kinds) then Arrange(Mirrored(doMirror, old(line[..]), FinalLevels(kinds)),
          Order(kinds)) else old(line[..])
  {
    hide HasRtl, ParagraphLevel, ExplicitLevels, ExplicitTypes, Resolved, RuleI, RuleL1, Mirrored, FlipDown,
        Highest, IsPermutation;
    ghost var kinds := Kinds(getType, line[..]);
    HasRtlIff(getType, line[..]);
    OrderPermutes(kinds);
    var yes := FindRtl(getType, line);
    if !yes {
      return L;
    }
    NotEmpty(kinds);
    var count := line.Length;
    var types, levels := new Byte[count], new Byte[count];
    var p := FindParagraphLevel(getType, line);
    ComputeExplicit(getType, line, levels, types, p);
    Resolve(types, levels, p);
    ApplyImplicit(types, levels);
    ResetLevels(getType, line, levels, p);
    assert levels[..] == FinalLevels(kinds);
    Mirror(doMirror, line, levels);
    var top := FindHighest(levels);
    Reorder(line, levels, top);
    r := R;
  }

  lemma HasRtlIff(getType: int -> Byte, line: seq<BidiChar>)
    ensures HasRtl(Kinds(getType, line)) <==> exists i :: 0 <= i < |line| && getType(line[i].wc) in {R, AL}
  {
    if HasRtl(Kinds(getType, line)) {
      var i :| 0 <= i < |line| && Kinds(getType, line)[i] in {R, AL};
      assert getType(line[i].wc) in {R, AL};
    }
    if i :| 0 <= i < |line| && getType(line[i].wc) in {R, AL} {
      assert Kinds(getType, line)[i] in {R, AL};
    }
  }

  lemma NotEmpty(kinds: Bytes)
    requires HasRtl(kinds)
    ensures kinds != []
  {
  }

  lemma OrderPermutes(kinds: Bytes)
    ensures IsPermutation(Order(kinds))
  {
    hide FinalLevels, Highest, FlipDown;
    FlipDownPermutes(FinalLevels(kinds), Highest(FinalLevels(kinds)), Identity(|kinds|));
  }

  /** What the result is made of: each character of the line exactly once, mirrored just when its
      resolved level is odd. */
  lemma ResultIsPermutation(getType: int -> Byte, doMirror: int -> int, line: seq<BidiChar>, k: nat)
    requires k < |line|
    ensures var kinds := Kinds(getType, line);
      var levels, order := FinalLevels(kinds), Order(kinds);
      && IsPermutation(order)
      && var c := line[order[k]];
      Arrange(Mirrored(doMirror, line, levels), order)[k] == if levels[order[k]] % 2 ==
          1 then c.(wc := doMirror(c.wc)) else c
  {
    hide FinalLevels;
    OrderPermutes(Kinds(getType, line));
  }

  /** The order that rule L2 gives. */
  function StandardOrder(kinds: Bytes): (r: seq<nat>)
    ensures |r| == |kinds|
  {
    var levels := FinalLevels(kinds);
    RuleL2(levels, Highest(levels), Identity(|kinds|))
  }

  /** The order is that of rule L2 whenever at every level all runs begin exactly at that level. */
  lemma OrderIsL2(kinds: Bytes)
    requires var levels := FinalLevels(kinds);
      forall u :: 1 <= u <= Highest(levels) as int ==> RunsBeginExactly(levels, u)
    ensures Order(kinds) == StandardOrder(kinds)
  {
    hide FinalLevels, Highest, LowestOdd, RuleL2, FlipDown, L2Down;
    var levels := FinalLevels(kinds);
    FlipDownIsL2(levels, Highest(levels), Identity(|kinds|));
    DownToOneIsRuleL2(levels, Highest(levels), Identity(|kinds|));
  }

  /** For every line, embedding codes or not: the order is that of rule L2 if and only if each run
      of raised characters, judged by its final levels, is arranged rightly. */
  lemma OrderIsL2Iff(kinds: Bytes)
    ensures var levels := FinalLevels(kinds);
      Order(kinds) == StandardOrder(kinds) <==> AllRight(levels, Highest(levels), 1, 0, |kinds|)
  {
    hide FinalLevels, Highest, LowestOdd, RuleL2, FlipDown, AllRight;
    FlipDownIff(FinalLevels(kinds), Highest(FinalLevels(kinds)));
  }

  // ---------------------------------------------------------------- lines without embedding codes

  /** The resolved types of such a line. */
  function PlainTypes(kinds: Bytes): (r: Bytes)
    ensures |r| == |kinds|
  {
    var p := ParagraphLevel(kinds, 0);
    Resolved(ExplicitTypes(p, kinds), ExplicitLevels(p, kinds), p)
  }

  /** At level one or two: right-to-left text and numbers, and in a right-to-left paragraph
      everything. */
  predicate Raised(kinds: Bytes, i: nat)
    requires i < |kinds|
  {
    ParagraphLevel(kinds, 0) == 1 || (!Resets(kinds, i) && PlainTypes(kinds)[i] in {R, EN, AN})
  }

  /** At level two: numbers, and in a right-to-left paragraph left-to-right text as well. */
  predicate RaisedTwice(kinds: Bytes, i: nat)
    requires i < |kinds|
  {
    !Resets(kinds, i) && (PlainTypes(kinds)[i] in {EN, AN} || (ParagraphLevel(kinds, 0) == 1 &&
        PlainTypes(kinds)[i] == L))
  }

  predicate RaisedTo(kinds: Bytes, i: nat, level: Byte)
    requires i < |kinds|
  {
    level <= 2 && (level >= 1 <==> Raised(kinds, i)) && (level == 2 <==> RaisedTwice(kinds, i))
  }

  lemma {:induction false} ParagraphLevelIs(kinds: Bytes, i: nat)
    requires i <= |kinds|
    ensures ParagraphLevel(kinds, i) <= 1
    decreases |kinds| - i
  {
    if i < |kinds| { ParagraphLevelIs(kinds, i + 1); }
  }

  /** The levels of a line without embedding codes are the paragraph level raised by rules I1
      and I2, and two at most. */
  lemma PlainLevels(kinds: Bytes, i: nat)
    requires i < |kinds| && forall k :: k in kinds ==> !IsCode(k)
    ensures RaisedTo(kinds, i, FinalLevels(kinds)[i])
  {
    hide Resolved, Resets, ExplicitTypes, ExplicitLevels, ParagraphLevel;
    ParagraphLevelIs(kinds, 0);
    PlainExplicit(ParagraphLevel(kinds, 0), kinds, i);
  }

  lemma PlainExplicit(p: Byte, kinds: Bytes, i: nat)
    requires i < |kinds| && forall k :: k in kinds ==> !IsCode(k)
    ensures ExplicitLevels(p, kinds)[i] == p
  {
    hide ExplicitRun;
    PlainText(p, kinds);
  }

  /** For a line without embedding codes the order is that of rule L2 if and only if wherever two
      raised characters stand together, of which the first is raised twice, another raised one
      stands before them. */
  lemma PlainOrderIff(kinds: Bytes)
    requires forall k :: k in kinds ==> !IsCode(k)
    ensures Order(kinds) == StandardOrder(kinds) <==>
      forall i :: 0 <= i < |kinds| - 1 && RaisedTwice(kinds, i) && Raised(kinds, i + 1) ==>
        i > 0 && Raised(kinds, i - 1)
  {
    hide FinalLevels, LowestOdd, RuleL2, FlipDown, Raised, RaisedTwice;
    var levels := FinalLevels(kinds);
    forall i | 0 <= i < |kinds|
      ensures RaisedTo(kinds, i, levels[i])
    {
      PlainLevels(kinds, i);
    }
    LowLevelsIff(levels, Highest(levels));
    LeadsIff(kinds, levels);
  }

  lemma LeadsIff(kinds: Bytes, levels: Bytes)
    requires |levels| == |kinds|
    requires forall i :: 0 <= i < |kinds| ==> RaisedTo(kinds, i, levels[i])
    ensures RunsBeginExactly(levels, 1) <==>
      forall i :: 0 <= i < |kinds| - 1 && RaisedTwice(kinds, i) && Raised(kinds, i + 1) ==>
        i > 0 && Raised(kinds, i - 1)
  {
    hide Raised, RaisedTwice;
    forall i | 0 <= i < |kinds|
      ensures levels[i] <= 2 && (levels[i] as int >= 1 <==> Raised(kinds, i))
      ensures levels[i] as int == 2 <==> RaisedTwice(kinds, i)
    {
      assert RaisedTo(kinds, i, levels[i]);
    }
  }

  /** A number before right-to-left text resolves to levels whose reordering goes wrong: the
      number stays to the left of the text that it precedes. */
  lemma NumberBeforeText()
    ensures FinalLevels([EN, R]) == [2, 1]
    ensures Order([EN, R]) == [0, 1] && StandardOrder([EN, R]) == [1, 0]
  {
    hide ExplicitLevels, ExplicitTypes, FlipDown, L2Down, Resolved, ParagraphLevel, Highest, RuleL2, LowestOdd;
    NumberExplicit();
    NumberResolves();
    assert RuleI([EN, R], [1, 1]) == [2, 1];
    assert FinalLevels([EN, R]) == [2, 1];
    NumberStaysFirst();
    NumberHighest();
    DownToOneIsRuleL2([2, 1], 2, [0, 1]);
    assert Identity(2) == [0, 1];
  }

  lemma NumberExplicit()
    ensures ParagraphLevel([EN, R], 0) == 1 && ExplicitLevels(1, [EN, R]) == [1, 1] &&
        ExplicitTypes(1, [EN, R]) == [EN, R]
  {
    assert ParagraphLevel([EN, R], 1) == 1;
    PlainText(1, [EN, R]);
  }

  lemma NumberHighest()
    ensures Highest([2, 1]) == 2
  {
    assert [2, 1][..1] == [2] && [2][..0] == [];
    assert Highest([]) == 0 && Highest([2]) == 2;
  }

  lemma NumberResolves()
    ensures Resolved([EN, R], [1, 1], 1) == [EN, R]
  {
    var t: Bytes := [EN, R];
    assert LastStrong(t, -1) == -1 && LastStrong(t, 0) == -1;
    assert RuleW1(t, 1) == t;
    assert RuleW2(t) == t;
    assert RuleW3(t) == t;
    assert RuleW4(t) == t;
    assert RuleW5(t) == t;
    assert RuleW6(t) == t;
    assert RuleW7(t) == t;
    assert RuleN1(t) == t by { assert N1First(t) == t && N1Middle(t) == t && N1Last(t) == t; }
    assert RuleN2(t, [1, 1]) == t;
  }
}
