/**
 Numbers as balanced ternary text, in which the digit 2 stands for minus one: an encoder that
 adds a number of all ones and takes one off each digit, and two decoders.
 */
module BalancedTernary {

  predicate IsDigit(c: char) {
    c == '0' || c == '1' || c == '2'
  }

  predicate Digits(s: string) {
    forall c :: c in s ==> IsDigit(c)
  }

  function Pow3(n: nat): (p: int)
    ensures p > 0
  {
    if n == 0 then 1 else 3 * Pow3(n - 1)
  }

  /** The number written as n ones. */
  function Ones(n: nat): (r: int)
    ensures r >= 0 && 2 * r + 1 == Pow3(n)
  {
    if n == 0 then 0 else 3 * Ones(n - 1) + 1
  }

  function DigitValue(c: char): (d: nat)
    ensures d < 3
  {
    if c == '1' then 1 else if c == '2' then 2 else 0
  }

  function DigitChar(d: nat): (c: char)
    requires d < 3
    ensures IsDigit(c) && DigitValue(c) == d
  {
    if d == 0 then '0' else if d == 1 then '1' else '2'
  }

  /** The ordinary value of a ternary text. */
  function Value3(s: string): (v: int)
    ensures 0 <= v < Pow3(|s|)
  {
    if s == "" then 0 else 3 * Value3(s[..|s| - 1]) + DigitValue(s[|s| - 1])
  }

  /** The ternary text of a number, without leading zeros but for zero itself. */
  function Text3(x: nat): (s: string)
    ensures s != "" && Digits(s) && (s[0] == '0' <==> x == 0)
  {
    if x < 3 then [DigitChar(x)] else Text3(x / 3) + [DigitChar(x % 3)]
  }

  /** What a balanced text stands for. */
  function BalancedValue(s: string): int {
    if s == "" then 0
    else
      var d := DigitValue(s[|s| - 1]);
      3 * BalancedValue(s[..|s| - 1]) + (if d == 2 then -1 else d)
  }

  // ---------------------------------------------------------------- ternary texts

  lemma {:induction false} TextValue(x: nat)
    ensures Value3(Text3(x)) == x
    decreases x
  {
    if x < 3 {
      assert Value3([DigitChar(x)][..0]) == 0;
    } else {
      TextValue(x / 3);
      var s := Text3(x);
      assert s[..|s| - 1] == Text3(x / 3);
    }
  }

  /** The length of the text of a number is the number of its digits. */
  lemma {:induction false} TextLength(x: nat, n: nat)
    requires n > 0 && (Pow3(n - 1) <= x || (n == 1 && x == 0)) && x < Pow3(n)
    ensures |Text3(x)| == n
    decreases x
  {
    if x >= 3 {
      assert n >= 2 && Pow3(n - 1) == 3 * Pow3(n - 2) && Pow3(n) == 3 * Pow3(n - 1);
      TextLength(x / 3, n - 1);
    }
  }

  lemma {:induction false} TextRange(x: nat)
    ensures x < Pow3(|Text3(x)|) && (x > 0 ==> Pow3(|Text3(x)| - 1) <= x)
    decreases x
  {
    if x < 3 {
      assert Pow3(0) == 1 && Pow3(1) == 3;
    } else {
      TextRange(x / 3);
    }
  }

  lemma {:induction false} ValueOfOnes(s: string)
    requires forall i :: 0 <= i < |s| ==> s[i] == '1'
    ensures Value3(s) == Ones(|s|)
    decreases |s|
  {
    if s != "" {
      ValueOfOnes(s[..|s| - 1]);
    }
  }

  /** Subtracting one from each digit takes the number of all ones from the value. */
  lemma {:induction false} ShiftValue(t: string, s: string)
    requires OneMore(t, s)
    ensures |t| == |s| && BalancedValue(s) + Ones(|s|) == Value3(t)
    decreases |s|
  {
    if s != "" { ShiftValue(t[..|t| - 1], s[..|s| - 1]); }
  }

  /** No two texts of the same length stand for the same number. */
  lemma {:induction false} BalancedUnique(s: string, t: string)
    requires |s| == |t| && Digits(s) && Digits(t) && BalancedValue(s) == BalancedValue(t)
    ensures s == t
    decreases |s|
  {
    if s != "" {
      var n := |s| - 1;
      var a, b := BalancedValue(s[..n]), BalancedValue(t[..n]);
      assert s[n] in s && t[n] in t;
      assert 3 * a - 3 * b <= 2 && 3 * b - 3 * a <= 2;
      assert a == b && s[n] == t[n];
      BalancedUnique(s[..n], t[..n]);
      assert s == s[..n] + [s[n]] && t == t[..n] + [t[n]];
    }
  }

  // ---------------------------------------------------------------- the encoder

  method Filled(n: nat, c: char) returns (slice: array<char>)
    ensures fresh(slice) && slice.Length == n && forall i :: 0 <= i < n ==> slice[i] == c
  {
    slice := new char[n];
    var i := 0;
    while i < n
      invariant 0 <= i <= n && forall k :: 0 <= k < i ==> slice[k] == c
    {
      slice[i] := c;
      i := i + 1;
    }
  }

  /** What the encoder's text is to be for a number of some digits: the number itself, if there is
      room for adding all ones; if not, one digit more and three to that power too little. */
  predicate Encodes(x: nat, s: string) {
    var n := |Text3(x)|;
    && Digits(s)
    && |s| == (if x <= Ones(n) then n else n + 1)
    && BalancedValue(s) == (if x <= Ones(n) then x else x - Pow3(n))
  }

  /** Each digit of one text is one more than that of another, two being followed by zero. */
  predicate OneMore(t: string, s: string) {
    |t| == |s| && forall i :: 0 <= i < |s| ==> DigitValue(t[i]) == (DigitValue(s[i]) + 1) % 3
  }

  method SubtractWithoutCarry(newslice: string) returns (s: string)
    requires Digits(newslice)
    ensures Digits(s) && OneMore(newslice, s)
  {
    var btslice := new char[|newslice|];
    var i := 0;
    while i < |newslice|
      invariant 0 <= i <= |newslice|
      invariant forall k :: 0 <= k < i ==>
        IsDigit(btslice[k]) && DigitValue(newslice[k]) == (DigitValue(btslice[k]) + 1) % 3
    {
      assert newslice[i] in newslice;
      var v := newslice[i];
      if v == '0' {
        btslice[i] := '2';
      } else if v == '1' {
        btslice[i] := '0';
      } else {
        btslice[i] := '1';
      }
      i := i + 1;
    }
    s := btslice[..];
  }

  method Encode(x: nat) returns (s: string)
    ensures Encodes(x, s)
  {
    hide Text3, Ones, Value3, BalancedValue, Pow3, OneMore;
    var trislice := Text3(x);
    var oneslice := Filled(|trislice|, '1');
    var oneint := Value3(oneslice[..]);
    ValueOfOnes(oneslice[..]);
    var fileint := x + oneint;
    var newslice := Text3(fileint);
    s := SubtractWithoutCarry(newslice);
    SumLength(x);
    TextValue(fileint);
    ShiftValue(newslice, s);
    OnesStep(|trislice|);
  }

  lemma OnesStep(n: nat)
    ensures Ones(n + 1) == Ones(n) + Pow3(n)
  {
  }

  /** Whether adding all ones carries. */
  lemma SumLength(x: nat)
    ensures var n := |Text3(x)|; |Text3(x + Ones(n))| == if x <= Ones(n) then n else n + 1
  {
    var n := |Text3(x)|;
    TextRange(x);
    var y := x + Ones(n);
    if x <= Ones(n) {
      if x > 0 || n > 1 {
        TextLength(y, n);
      } else {
        assert Ones(1) == 1 && Pow3(1) == 3 && Pow3(0) == 1;
        TextLength(y, n);
      }
    } else {
      TextLength(y, n + 1);
    }
  }

  // ---------------------------------------------------------------- the decoders

  function LeadingTwos(s: string): (k: nat)
    ensures k <= |s| && (forall i :: 0 <= i < k ==> s[i] == '2') && (k < |s| ==> s[k] != '2')
  {
    if s == "" || s[0] != '2' then 0 else 1 + LeadingTwos(s[1..])
  }

  method AddWithoutCarry(s: string) returns (t: string, dig: nat)
    requires Digits(s)
    ensures OneMore(t, s) && Digits(t) && dig == |s|
  {
    var tslice := new char[|s|];
    dig := 0;
    var i := 0;
    while i < |s|
      invariant 0 <= i <= |s| && dig == i
      invariant forall k :: 0 <= k < i ==> IsDigit(tslice[k]) && DigitValue(tslice[k]) == (DigitValue(s[k]) + 1) % 3
    {
      assert s[i] in s;
      var v := s[i];
      if v == '0' {
        tslice[i] := '1';
      } else if v == '1' {
        tslice[i] := '2';
      } else {
        tslice[i] := '0';
      }
      dig := dig + 1;
      i := i + 1;
    }
    t := tslice[..];
  }

  /** The leading zeros of the text with one added are the leading twos of the text. */
  method CountStart(t: string, ghost s: string) returns (start: nat)
    requires OneMore(t, s) && Digits(t) && Digits(s)
    ensures start == LeadingTwos(s)
  {
    start := 0;
    while start < |t| && t[start] == '0'
      invariant 0 <= start <= |s| && forall k :: 0 <= k < start ==> s[k] == '2'
    {
      assert s[start] in s;
      start := start + 1;
    }
    assert start < |t| ==> t[start] in t && s[start] in s;
    LeadingIs(s, start);
  }

  /** Adds one to every digit, reads the text, and takes off a number of all ones that leaves out
      the digits that have become leading zeros. */
  method DecodeAddOnes(s: string) returns (r: int)
    requires s != "" && Digits(s)
    ensures r == AddOnes(s)
  {
    hide Ones, Value3, BalancedValue, LeadingTwos, OneMore;
    var tri, dig := AddWithoutCarry(s);
    var fileint := Value3(tri);
    ShiftValue(tri, s);
    var start := CountStart(tri, s);
    var oneslice := Filled(dig - start, '1');
    var oneint := Value3(oneslice[..]);
    ValueOfOnes(oneslice[..]);
    r := fileint - oneint;
  }

  /** What the add-ones decoder gives: the number that the text stands for, and too much for each
      two it starts with. */
  function AddOnes(s: string): int
  {
    BalancedValue(s) + Ones(|s|) - Ones(|s| - LeadingTwos(s))
  }

  lemma {:induction false} LeadingIs(s: string, k: nat)
    requires k <= |s| && (forall i :: 0 <= i < k ==> s[i] == '2') && (k < |s| ==> s[k] != '2')
    ensures LeadingTwos(s) == k
  {
    if k > 0 { LeadingIs(s[1..], k - 1); }
  }

  /** Reads the ones and the twos as two numbers, and subtracts. */
  method DecodeSplit(s: string) returns (r: int)
    requires s != "" && Digits(s)
    ensures r == BalancedValue(s)
  {
    var pslice, nslice := new char[|s|], new char[|s|];
    var i := 0;
    while i < |s|
      invariant 0 <= i <= |s|
      invariant forall k :: 0 <= k < i ==>
        pslice[k] == (if s[k] == '1' then '1' else '0') && nslice[k] == (if s[k] == '2' then '1' else '0')
    {
      assert s[i] in s;
      var v := s[i];
      if v == '0' {
        pslice[i], nslice[i] := '0', '0';
      } else if v == '1' {
        pslice[i], nslice[i] := '1', '0';
      } else {
        pslice[i], nslice[i] := '0', '1';
      }
      i := i + 1;
    }
    SplitValue(s, pslice[..], nslice[..]);
    r := Value3(pslice[..]) - Value3(nslice[..]);
  }

  lemma {:induction false} SplitValue(s: string, p: string, n: string)
    requires |s| == |p| == |n|
    requires forall k :: 0 <= k < |s| ==>
      p[k] == (if s[k] == '1' then '1' else '0') && n[k] == (if s[k] == '2' then '1' else '0')
    ensures Value3(p) - Value3(n) == BalancedValue(s)
    decreases |s|
  {
    if s != "" { SplitValue(s[..|s| - 1], p[..|p| - 1], n[..|n| - 1]); }
  }

  // ---------------------------------------------------------------- what comes back

  lemma {:induction false} OnesIncrease(m: nat, n: nat)
    requires m < n
    ensures Ones(m) < Ones(n)
    decreases n
  {
    if m < n - 1 { OnesIncrease(m, n - 1); }
  }

  /** The decoders give the same on just those texts that do not start with 2. */
  lemma DecodersAgreeIff(s: string)
    requires s != ""
    ensures AddOnes(s) == BalancedValue(s) <==> s[0] != '2'
  {
    hide Ones, BalancedValue;
    LeadingFirst(s);
    if LeadingTwos(s) > 0 { OnesIncrease(|s| - LeadingTwos(s), |s|); }
  }

  lemma LeadingFirst(s: string)
    requires s != ""
    ensures LeadingTwos(s) > 0 <==> s[0] == '2'
  {
  }

  /** The encoder never writes a leading 2, so both decoders give the same on its texts. */
  lemma NeverLeadingTwo(x: nat, s: string)
    requires Encodes(x, s)
    ensures s != "" && s[0] != '2' && AddOnes(s) == BalancedValue(s)
  {
    var n := |Text3(x)|;
    TextRange(x);
    if s[0] == '2' {
      LeadingTwoNegative(s);
      assert false;
    }
    DecodersAgreeIff(s);
  }

  lemma {:induction false} LeadingTwoNegative(s: string)
    requires s != "" && s[0] == '2'
    ensures BalancedValue(s) <= Ones(|s| - 1) - Pow3(|s| - 1) < 0
    decreases |s|
  {
    if |s| == 1 {
      assert s[..0] == "" && Ones(0) == 0 && Pow3(0) == 1;
    } else {
      LeadingTwoNegative(s[..|s| - 1]);
      assert Pow3(|s| - 1) == 3 * Pow3(|s| - 2) && Ones(|s| - 1) == 3 * Ones(|s| - 2) + 1;
    }
  }

  /** Encoding and decoding a number, by either decoder, gives it back just when adding all ones
      to it does not carry; if it does, the result is three to the number of digits too small. */
  lemma RoundTripIff(x: nat, s: string)
    requires Encodes(x, s)
    ensures var n := |Text3(x)|;
      && (BalancedValue(s) == x <==> x <= Ones(n))
      && (AddOnes(s) == x <==> x <= Ones(n))
      && (x > Ones(n) ==> BalancedValue(s) == AddOnes(s) == x - Pow3(n) < 0)
  {
    TextRange(x);
    NeverLeadingTwo(x, s);
  }

  /** The decoders write the absolute value; that does not save any number that carried. */
  lemma WrittenIff(x: nat, s: string)
    requires Encodes(x, s)
    ensures Abs(BalancedValue(s)) == x <==> x <= Ones(|Text3(x)|)
  {
    RoundTripIff(x, s);
    assert Pow3(|Text3(x)|) == 2 * Ones(|Text3(x)|) + 1;
  }

  function Abs(x: int): nat {
    if x < 0 then -x else x
  }
}
