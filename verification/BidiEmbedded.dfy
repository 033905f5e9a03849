/**
 What an embedding code does to the text after it, up to the next code: the final level of every
 character there that is strong or made so by an override.
 */
module BidiEmbedded {
  import opened Marshal
  import opened BidiRules
  import opened Bidi

  /** A code opens the least level above the current one that is odd for right-to-left, even for
      left-to-right. */
  lemma OpenedIs(code: Byte, embedding: Byte)
    requires Opens(code) && embedding < 254
    ensures embedding < Opened(code, embedding) <= embedding as int + 2
    ensures Opened(code, embedding) % 2 == 1 <==> code in {RLE, RLO}
  {
  }

  /** What a code makes of a character of some type: an override makes it strong, and white space
      and segment separators are neutral. */
  function Within(code: Byte, kind: Byte): Byte {
    if code == RLO then R else if code == LRO then L else if kind in {WS, S} then ON else kind
  }

  function OverrideOf(code: Byte): Byte {
    if code == RLO then R else if code == LRO then L else ON
  }

  lemma {:induction false} RunInside(p: Byte, before: Bytes, code: Byte, mid: Bytes)
    requires Opens(code) && forall k :: k in mid ==> !IsCode(k)
    ensures var s, e := ExplicitRun(p, before + [code] + mid), Opened(code, ExplicitRun(p, before).embedding);
      s.embedding == e && s.override == OverrideOf(code)
  {
    hide ExplicitRun, LeastGreaterOdd, LeastGreaterEven, SetOverrideBits, PreviousLevel;
    if mid == [] {
      assert before + [code] + [] == before + [code];
      ExplicitNext(p, before, code, before + [code]);
    } else {
      var front, kind := mid[..|mid| - 1], mid[|mid| - 1];
      assert kind in mid && forall k :: k in front ==> k in mid;
      ExplicitNext(p, before + [code] + front, kind, before + [code] + mid);
      RunInside(p, before, code, front);
    }
  }

  /** What is stored for a character does not change later. */
  lemma {:induction false} TypeStays(p: Byte, kinds: Bytes, i: nat)
    requires i < |kinds|
    ensures ExplicitRun(p, kinds).types[i] == ExplicitStep(p, ExplicitRun(p, kinds[..i]), kinds[i]).types[i]
    ensures ExplicitStep(p, ExplicitRun(p, kinds[..i]), kinds[i]).bover ==> ExplicitRun(p, kinds).bover
    decreases |kinds|
  {
    hide ExplicitRun, LeastGreaterOdd, LeastGreaterEven, SetOverrideBits, PreviousLevel;
    var front := kinds[..|kinds| - 1];
    ExplicitNext(p, front, kinds[|kinds| - 1], kinds);
    if i < |front| {
      assert front[..i] == kinds[..i];
      TypeStays(p, front, i);
    } else {
      assert front == kinds[..i];
    }
  }

  /** A character inside an embedding is stored with its level, and as its code has it. */
  lemma StoredInside(p: Byte, before: Bytes, code: Byte, mid: Bytes, kinds: Bytes)
    requires Opens(code) && |kinds| > |before + [code] + mid|
    requires kinds[..|before + [code] + mid|] == before + [code] + mid
    requires var kind := kinds[|before + [code] + mid|]; !IsCode(kind) && forall k :: k in mid ==> !IsCode(k)
    requires Opened(code, ExplicitRun(p, before).embedding) < 64
    ensures var i, e := |before + [code] + mid|, Opened(code, ExplicitRun(p, before).embedding);
      ExplicitLevels(p, kinds)[i] == e && ExplicitTypes(p, kinds)[i] == Within(code, kinds[i])
  {
    hide ExplicitRun, LeastGreaterOdd, LeastGreaterEven, SetOverrideBits, PreviousLevel;
    var i := |before + [code] + mid|;
    RunInside(p, before, code, mid);
    TypeStays(p, kinds, i);
    LevelStays(p, kinds, i);
  }

  /** Text with a direction keeps it through all rules; Arabic letters are right-to-left. */
  lemma StrongStays(t: Bytes, levels: Bytes, p: Byte, i: nat)
    requires i < |t| == |levels| && t[i] in {L, R, AL}
    ensures Resolved(t, levels, p)[i] == if t[i] == L then L else R
  {
    hide LastStrong, NextNot, RuleN1;
    assert RuleW1(t, p)[i] == t[i];
    var u := RuleW7(RuleW6(RuleW5(RuleW4(RuleW3(RuleW2(RuleW1(t, p)))))));
    NeutralsOnly(u, i);
  }

  lemma NeutralsOnly(t: Bytes, i: nat)
    requires i < |t| && t[i] != ON
    ensures RuleN1(t)[i] == t[i]
  {
    hide PrevNot, NextNot;
  }

  /** Text with a direction, or given one by an override, is at the level of its embedding if that
      has its direction, else at the next one. That is so whatever stands outside the embedding. */
  lemma EmbeddedLevels(before: Bytes, code: Byte, mid: Bytes, kinds: Bytes)
    requires Opens(code) && |kinds| > |before + [code] + mid|
    requires kinds[..|before + [code] + mid|] == before + [code] + mid
    requires var kind := kinds[|before + [code] + mid|]; !IsCode(kind) && forall k :: k in mid ==> !IsCode(k)
    requires Within(code, kinds[|before + [code] + mid|]) in {L, R, AL}
    requires Opened(code, ExplicitRun(ParagraphLevel(kinds, 0), before).embedding) < 64
    requires !Resets(kinds, |before + [code] + mid|)
    ensures var i := |before + [code] + mid|;
      var e := Opened(code, ExplicitRun(ParagraphLevel(kinds, 0), before).embedding);
      FinalLevels(kinds)[i] as int ==
        if (e % 2 == 1) == (Within(code, kinds[i]) != L) then e as int else e as int + 1
  {
    hide ExplicitRun, LeastGreaterOdd, LeastGreaterEven, Resolved, ExplicitLevels, ExplicitTypes, ParagraphLevel,
        Resets;
    var p, i := ParagraphLevel(kinds, 0), |before + [code] + mid|;
    StoredInside(p, before, code, mid, kinds);
    StrongStays(ExplicitTypes(p, kinds), ExplicitLevels(p, kinds), p, i);
  }
}
