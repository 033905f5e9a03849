/**
 A blackjack table: a deck that is shuffled in place, a game of one hand, and a session that
 takes bets and pays out.
 */
module Blackjack {

  // ---------------------------------------------------------------- cards and the deck

  datatype Card = Card(suit: nat, rank: nat)

  const ACE := 1
  const DECK_SIZE := 52

  predicate IsCard(c: Card) {
    c.suit < 4 && 1 <= c.rank <= 13
  }

  function CardValue(c: Card): (v: int)
    ensures IsCard(c) ==> 1 <= v <= 10
  {
    if c.rank == ACE then 1 else if c.rank > 10 then 10 else c.rank
  }

  function FullDeck(): (r: seq<Card>)
    ensures |r| == DECK_SIZE && forall i :: 0 <= i < |r| ==> r[i] == Card(i / 13, i % 13 + 1) && IsCard(r[i])
  {
    seq(DECK_SIZE, i requires 0 <= i < DECK_SIZE => Card(i / 13, i % 13 + 1))
  }

  /** All 52 cards are there, each once. */
  ghost predicate IsDeck(s: seq<Card>) {
    multiset(s) == multiset(FullDeck())
  }

  lemma DeckDistinct(i: nat, j: nat)
    requires i < j < DECK_SIZE
    ensures FullDeck()[i] != FullDeck()[j]
  {
    assert i == 13 * (i / 13) + i % 13 && j == 13 * (j / 13) + j % 13;
  }

  function Swapped<T>(s: seq<T>, p: nat): (r: seq<T>)
    requires p < |s|
    ensures |r| == |s|
  {
    s[0 := s[p]][p := s[0]]
  }

  predicate Choices(ps: seq<nat>, n: nat) {
    |ps| == n && forall i :: 0 <= i < n ==> ps[i] < n - i
  }

  /** Swapping each card in turn with a chosen one at or after it. */
  function Shuffled<T>(s: seq<T>, ps: seq<nat>): (r: seq<T>)
    requires Choices(ps, |s|)
    ensures |r| == |s|
    decreases |s|
  {
    if s == [] then [] else [Swapped(s, ps[0])[0]] + Shuffled(Swapped(s, ps[0])[1..], ps[1..])
  }

  lemma SwapSame<T>(s: seq<T>, p: nat)
    requires p < |s|
    ensures multiset(Swapped(s, p)) == multiset(s)
  {
  }

  /** No choices lose or double a card. */
  lemma {:induction false} ShuffledSame<T>(s: seq<T>, ps: seq<nat>)
    requires Choices(ps, |s|)
    ensures multiset(Shuffled(s, ps)) == multiset(s)
    decreases |s|
  {
    if s != [] {
      var t := Swapped(s, ps[0]);
      SwapSame(s, ps[0]);
      ShuffledSame(t[1..], ps[1..]);
      assert t == [t[0]] + t[1..];
    }
  }

  lemma TailsSame<T>(s: seq<T>, t: seq<T>)
    requires s != [] && t != [] && multiset(s) == multiset(t) && s[0] == t[0]
    ensures multiset(s[1..]) == multiset(t[1..])
  {
    assert s == [s[0]] + s[1..] && t == [t[0]] + t[1..];
    assert multiset(s[1..]) == multiset(s) - multiset{s[0]};
    assert multiset(t[1..]) == multiset(t) - multiset{t[0]};
  }

  /** Every order of the cards can come out. */
  lemma {:induction false} EveryOrder<T>(s: seq<T>, target: seq<T>) returns (ps: seq<nat>)
    requires multiset(s) == multiset(target)
    ensures Choices(ps, |s|) && Shuffled(s, ps) == target
    decreases |s|
  {
    hide Shuffled, Swapped;
    SameSize(s, target);
    if s == [] {
      ps := [];
      NoChoice(s);
    } else {
      assert target[0] in multiset(s);
      var p :| 0 <= p < |s| && s[p] == target[0];
      var t := Swapped(s, p);
      SwapSame(s, p);
      FirstSwapped(s, p);
      TailsSame(t, target);
      var rest := EveryOrder(t[1..], target[1..]);
      ps := [p] + rest;
      FirstChoice(s, p, rest);
      assert target == [target[0]] + target[1..];
    }
  }

  lemma NoChoice<T>(s: seq<T>)
    requires s == []
    ensures Shuffled(s, []) == []
  {
  }

  lemma FirstSwapped<T>(s: seq<T>, p: nat)
    requires p < |s|
    ensures Swapped(s, p)[0] == s[p]
  {
  }

  lemma FirstChoice<T>(s: seq<T>, p: nat, rest: seq<nat>)
    requires p < |s| && Choices(rest, |s| - 1)
    ensures Choices([p] + rest, |s|) && Shuffled(s, [p] + rest) == [s[p]] + Shuffled(Swapped(s, p)[1..], rest)
  {
    assert ([p] + rest)[1..] == rest;
  }

  lemma SameSize<T>(s: seq<T>, t: seq<T>)
    requires multiset(s) == multiset(t)
    ensures |s| == |t|
  {
    assert |multiset(s)| == |s| && |multiset(t)| == |t|;
  }

  predicate Distinct<T(==)>(s: seq<T>) {
    forall i, j :: 0 <= i < j < |s| ==> s[i] != s[j]
  }

  /** And it comes out of just one list of choices, so equally likely choices make equally
      likely orders. */
  lemma {:induction false} EachOrderOnce<T>(s: seq<T>, ps: seq<nat>, qs: seq<nat>)
    requires Distinct(s) && Choices(ps, |s|) && Choices(qs, |s|) && Shuffled(s, ps) == Shuffled(s, qs)
    ensures ps == qs
    decreases |s|
  {
    if s != [] {
      var r := Shuffled(s, ps);
      assert r[0] == s[ps[0]] && r[0] == s[qs[0]];
      assert ps[0] == qs[0];
      var t := Swapped(s, ps[0]);
      assert Shuffled(t[1..], ps[1..]) == r[1..] == Shuffled(t[1..], qs[1..]);
      EachOrderOnce(t[1..], ps[1..], qs[1..]);
      assert ps == [ps[0]] + ps[1..] && qs == [qs[0]] + qs[1..];
    }
  }

  lemma {:induction false} Occurrences<T>(s: seq<T>, x: T)
    ensures Distinct(s) ==> multiset(s)[x] <= 1
    ensures forall i, j :: 0 <= i < j < |s| && s[i] == x == s[j] ==> multiset(s)[x] >= 2
  {
    if s != [] {
      Occurrences(s[1..], x);
      assert s == [s[0]] + s[1..];
      assert Distinct(s) ==> Distinct(s[1..]) && (s[0] == x ==> x !in s[1..]);
      assert multiset(s) == multiset{s[0]} + multiset(s[1..]);
      forall i, j | 0 <= i < j < |s| && s[i] == x == s[j]
        ensures multiset(s)[x] >= 2
      {
        assert s[1..][j - 1] == x;
        assert x in multiset(s[1..]);
      }
    }
  }

  lemma DeckIsDistinct(s: seq<Card>)
    requires IsDeck(s)
    ensures Distinct(s)
  {
    forall i, j | 0 <= i < j < DECK_SIZE
      ensures FullDeck()[i] != FullDeck()[j]
    {
      DeckDistinct(i, j);
    }
    forall i, j | 0 <= i < j < |s|
      ensures s[i] != s[j]
    {
      Occurrences(FullDeck(), s[i]);
      Occurrences(s, s[i]);
    }
  }

  /** From any order of the 52 cards each order comes out of exactly one list of choices. */
  lemma FairShuffle(start: seq<Card>, target: seq<Card>) returns (ps: seq<nat>)
    requires IsDeck(start) && IsDeck(target)
    ensures Choices(ps, |start|) && Shuffled(start, ps) == target
    ensures forall qs :: Choices(qs, |start|) && Shuffled(start, qs) == target ==> qs == ps
  {
    ps := EveryOrder(start, target);
    DeckIsDistinct(start);
    forall qs | Choices(qs, |start|) && Shuffled(start, qs) == target
      ensures qs == ps
    {
      EachOrderOnce(start, ps, qs);
    }
  }

  class Deck {
    const cards: array<Card>
    var pos: nat

    ghost predicate Valid()
      reads this, cards
    {
      cards.Length == DECK_SIZE && pos < DECK_SIZE && IsDeck(cards[..])
    }

    /** The cards that have not been dealt. */
    ghost function Rest(): seq<Card>
      requires Valid()
      reads this, cards
    {
      cards[pos..]
    }

    constructor ()
      ensures Valid() && pos == 0 && cards[..] == FullDeck() && fresh(cards)
    {
      cards := new Card[DECK_SIZE];
      pos := 0;
      new;
      var i := 0;
      while i < DECK_SIZE
        invariant 0 <= i <= DECK_SIZE && pos == 0
        invariant forall k :: 0 <= k < i ==> cards[k] == FullDeck()[k]
      {
        cards[i] := Card(i / 13, i % 13 + 1);
        i := i + 1;
      }
      assert cards[..] == FullDeck();
    }

    method Shuffle() returns (ghost ps: seq<nat>)
      requires Valid()
      modifies this, cards
      ensures Valid() && pos == 0 && Choices(ps, DECK_SIZE) && cards[..] == Shuffled(old(cards[..]), ps)
    {
      ghost var start := cards[..];
      ps := ShuffleCards(cards);
      ShuffledSame(start, ps);
      pos := 0;
    }

    /** The next card; taking the last one shuffles the deck again. */
    method Next() returns (c: Card)
      requires Valid()
      modifies this, cards
      ensures Valid() && c == old(cards[pos])
      ensures old(pos) + 1 < DECK_SIZE ==> cards[..] == old(cards[..]) && pos == old(pos) + 1
      ensures old(pos) + 1 >= DECK_SIZE ==> pos == 0
    {
      c := cards[pos];
      if pos + 1 >= cards.Length {
        ghost var ps := Shuffle();
      } else {
        pos := pos + 1;
      }
    }
  }

  method ShuffleCards(cards: array<Card>) returns (ghost ps: seq<nat>)
    modifies cards
    ensures Choices(ps, cards.Length) && cards[..] == Shuffled(old(cards[..]), ps)
  {
    hide Turns;
    ghost var start, n := cards[..], cards.Length;
    ps := [];
    TurnsNone(start);
    var i := 0;
    while i < cards.Length
      invariant 0 <= i <= n && |ps| == i && FirstChoices(ps, n) && cards[..] == Turns(start, ps)
    {
      var p: nat :| i <= p < cards.Length;
      TurnsSnoc(start, ps, p - i);
      ghost var before := cards[..];
      cards[i], cards[p] := cards[p], cards[i];
      assert cards[..] == SwapAt(before, i, p);
      ps := ps + [p - i];
      i := i + 1;
    }
    TurnsAll(start, ps);
  }

  lemma TurnsNone<T>(s: seq<T>)
    ensures Turns(s, []) == s
  {
  }

  predicate FirstChoices(ps: seq<nat>, n: nat) {
    |ps| <= n && forall i :: 0 <= i < |ps| ==> ps[i] < n - i
  }

  /** The cards after some turns of the loop. */
  function Turns<T>(s: seq<T>, ps: seq<nat>): (r: seq<T>)
    requires FirstChoices(ps, |s|)
    ensures |r| == |s|
  {
    if ps == [] then s
    else
      var i := |ps| - 1;
      var t := Turns(s, ps[..i]);
      SwapAt(t, i, i + ps[i])
  }

  function SwapAt<T>(s: seq<T>, i: nat, j: nat): (r: seq<T>)
    requires i < |s| && j < |s|
    ensures |r| == |s|
  {
    s[i := s[j]][j := s[i]]
  }

  lemma {:induction false} TurnsLast<T>(s: seq<T>, ps: seq<nat>)
    requires FirstChoices(ps, |s|) && ps != []
    ensures var i := |ps| - 1; FirstChoices(ps[..i], |s|) && Turns(s, ps) == SwapAt(Turns(s, ps[..i]), i, i + ps[i])
  {
  }

  lemma {:induction false} TurnsSnoc<T>(s: seq<T>, ps: seq<nat>, q: nat)
    requires FirstChoices(ps, |s|) && |ps| + q < |s|
    ensures FirstChoices(ps + [q], |s|) && Turns(s, ps + [q]) == SwapAt(Turns(s, ps), |ps|, |ps| + q)
  {
    hide Turns, SwapAt;
    var r := ps + [q];
    assert r[..|ps|] == ps && r[|ps|] == q;
    TurnsLast(s, r);
  }

  /** The first turn, and then the others on the cards after the first. */
  lemma {:induction false} TurnsFirst<T>(s: seq<T>, p: nat, rest: seq<nat>)
    requires p < |s| && FirstChoices(rest, |s| - 1)
    ensures var t := Swapped(s, p);
      FirstChoices([p] + rest, |s|) && Turns(s, [p] + rest) == [t[0]] + Turns(t[1..], rest)
    decreases |rest|
  {
    hide Turns, Swapped;
    if rest == [] {
      assert [p] + rest == [p];
      TurnsOne(s, p);
    } else {
      var mid, q := rest[..|rest| - 1], rest[|rest| - 1];
      TurnsFirst(s, p, mid);
      assert rest == mid + [q];
      TurnsStep(s, Swapped(s, p), p, mid, q);
    }
  }

  lemma TurnsOne<T>(s: seq<T>, p: nat)
    requires p < |s|
    ensures var t := Swapped(s, p); FirstChoices([p], |s|) && Turns(s, [p]) == [t[0]] + Turns(t[1..], [])
  {
    hide Turns;
    assert [p] == [] + [p];
    TurnsSnoc(s, [], p);
    TurnsNone(s);
    TurnsNone(Swapped(s, p)[1..]);
  }

  lemma {:induction false} TurnsStep<T>(s: seq<T>, t: seq<T>, p: nat, mid: seq<nat>, q: nat)
    requires |t| == |s| > |mid| + 1 + q && FirstChoices(mid, |s| - 1) && FirstChoices([p] + mid, |s|)
    requires Turns(s, [p] + mid) == [t[0]] + Turns(t[1..], mid)
    ensures FirstChoices(mid + [q], |s| - 1) && FirstChoices([p] + (mid + [q]), |s|)
    ensures Turns(s, [p] + (mid + [q])) == [t[0]] + Turns(t[1..], mid + [q])
  {
    assert [p] + (mid + [q]) == ([p] + mid) + [q];
    hide *;
    TurnsSnoc(s, [p] + mid, q);
    TurnsSnoc(t[1..], mid, q);
    SwapLater(t[0], Turns(t[1..], mid), |mid| + 1, |mid| + 1 + q);
  }

  lemma SwapLater<T>(x: T, u: seq<T>, i: nat, j: nat)
    requires 1 <= i <= j <= |u|
    ensures SwapAt([x] + u, i, j) == [x] + SwapAt(u, i - 1, j - 1)
  {
  }

  lemma {:induction false} TurnsAll<T>(s: seq<T>, ps: seq<nat>)
    requires Choices(ps, |s|)
    ensures Turns(s, ps) == Shuffled(s, ps)
    decreases |s|
  {
    if s != [] {
      assert ps == [ps[0]] + ps[1..];
      TurnsFirst(s, ps[0], ps[1..]);
      TurnsAll(Swapped(s, ps[0])[1..], ps[1..]);
    } else {
      assert ps == [];
    }
  }

  // ---------------------------------------------------------------- hands

  datatype HandState = Under | Bust | Natural

  datatype GameState = Playing | DealerWins | PlayerWins | PlayerWinsBlackjack | Push | Idle

  /** The sum with every ace counted as one. */
  function Hard(hand: seq<Card>): int {
    if hand == [] then 0 else Hard(hand[..|hand| - 1]) + CardValue(hand[|hand| - 1])
  }

  function Aces(hand: seq<Card>): nat {
    if hand == [] then 0 else Aces(hand[..|hand| - 1]) + if hand[|hand| - 1].rank == ACE then 1 else 0
  }

  /** An ace counts as eleven when that does not exceed twenty-one. */
  function Value(hand: seq<Card>): int {
    if Aces(hand) > 0 && Hard(hand) <= 11 then Hard(hand) + 10 else Hard(hand)
  }

  lemma HardAtLeast(hand: seq<Card>)
    requires forall c :: c in hand ==> IsCard(c)
    ensures Aces(hand) <= |hand| <= Hard(hand)
  {
    if hand != [] { HardAtLeast(hand[..|hand| - 1]); }
  }

  /** Raising aces while there is room raises at most one of them. */
  method HandValue(hand: seq<Card>) returns (value: int)
    requires forall c :: c in hand ==> IsCard(c)
    ensures value == Value(hand)
  {
    var aces := 0;
    value := 0;
    var i := 0;
    while i < |hand|
      invariant 0 <= i <= |hand| && value == Hard(hand[..i]) && aces == Aces(hand[..i])
    {
      assert hand[..i + 1][..i] == hand[..i];
      if hand[i].rank == ACE {
        aces := aces + 1;
      }
      value := value + CardValue(hand[i]);
      i := i + 1;
    }
    assert hand[..|hand|] == hand;
    HardAtLeast(hand);
    AcesInHard(hand);
    while value <= 11 && aces > 0
      invariant 0 <= aces <= Aces(hand)
      invariant (value == Hard(hand) && aces == Aces(hand)) || (value == Value(hand) == Hard(hand) + 10 &&
          (aces == 0 || value > 11))
      decreases aces
    {
      value := value + 10;
      aces := aces - 1;
    }
  }

  /** Aces count one or eleven each, court cards ten, others their rank. */
  predicate Totals(hand: seq<Card>, total: int)
    decreases |hand|
  {
    if hand == [] then total == 0
    else
      var front, rank := hand[..|hand| - 1], hand[|hand| - 1].rank;
      if rank == 1 then Totals(front, total - 1) || Totals(front, total - 11)
      else Totals(front, total - if rank in {11, 12, 13} then 10 else rank)
  }

  lemma {:induction false} TotalsIff(hand: seq<Card>, total: int)
    requires forall c :: c in hand ==> IsCard(c)
    ensures Totals(hand, total) <==>
      Hard(hand) <= total <= Hard(hand) + 10 * Aces(hand) && (total - Hard(hand)) % 10 == 0
    decreases |hand|
  {
    if hand != [] {
      var front, card := hand[..|hand| - 1], hand[|hand| - 1];
      assert card in hand && forall c :: c in front ==> c in hand;
      TotalsIff(front, total - CardValue(card));
      if card.rank == ACE { TotalsIff(front, total - 11); }
    }
  }

  /** A hand is worth the highest total of at most twenty-one that its cards can make, or the lowest
      if all are higher. */
  lemma BestTotal(hand: seq<Card>, total: int)
    requires (forall c :: c in hand ==> IsCard(c)) && Totals(hand, total)
    ensures Totals(hand, Value(hand))
    ensures total <= 21 ==> total <= Value(hand) <= 21
    ensures Value(hand) > 21 ==> Value(hand) <= total
  {
    TotalsIff(hand, total);
    TotalsIff(hand, Value(hand));
    HardAtLeast(hand);
  }

  lemma AcesInHard(hand: seq<Card>)
    requires forall c :: c in hand ==> IsCard(c)
    ensures Hard(hand) >= Aces(hand)
  {
    HardAtLeast(hand);
  }

  function StateOfHand(hand: seq<Card>): HandState {
    if Value(hand) == 21 && |hand| == 2 then Natural else if Value(hand) > 21 then Bust else Under
  }

  // ---------------------------------------------------------------- the game

  /** The hands, whether the player has stood, the bet, and the cards not yet dealt. */
  datatype Table = Table(player: seq<Card>, dealer: seq<Card>, stood: bool, bet: int, rest: seq<Card>)

  /** Both hands and the undealt cards are the 52 cards. */
  ghost predicate AllThere(t: Table) {
    IsDeck(t.player + t.dealer + t.rest)
  }

  function StateOfGame(t: Table): GameState {
    if t.player == [] then Idle
    else if StateOfHand(t.player) == Bust then DealerWins
    else if StateOfHand(t.player) == Natural && StateOfHand(t.dealer) == Natural then Push
    else if StateOfHand(t.player) == Natural then PlayerWinsBlackjack
    else if StateOfHand(t.dealer) == Natural then DealerWins
    else if StateOfHand(t.dealer) == Bust then PlayerWins
    else if !t.stood then Playing
    else if Value(t.player) == Value(t.dealer) then Push
    else if Value(t.player) > Value(t.dealer) then PlayerWins
    else DealerWins
  }

  predicate Soft17(hand: seq<Card>) {
    Aces(hand) > 0 && Value(hand) == 17
  }

  predicate DealerDraws(hand: seq<Card>) {
    Value(hand) < 17 || Soft17(hand)
  }

  function DealerDrawn(t: Table): Table
    decreases |t.rest|
  {
    if t.rest == [] || !DealerDraws(t.dealer) then t
    else DealerDrawn(t.(dealer := t.dealer + [t.rest[0]], rest := t.rest[1..]))
  }

  function DealerPlayed(t: Table): Table {
    if StateOfHand(t.player) == Bust then t else DealerDrawn(t)
  }

  function StoodTable(t: Table): Table {
    if t.stood then t else DealerPlayed(t.(stood := true))
  }

  function HitTable(t: Table): Table
    requires t.rest != []
  {
    var t1 := t.(player := t.player + [t.rest[0]], rest := t.rest[1..]);
    if Value(t1.player) >= 21 then StoodTable(t1) else t1
  }

  function DealtTable(cards: seq<Card>, bet: int): Table
    requires |cards| >= 4
  {
    Table([cards[0], cards[2]], [cards[1], cards[3]], false, bet, cards[4..])
  }

  /** Room for all the cards the dealer may take: every card counts at least one. */
  predicate Room(t: Table) {
    |t.rest| + Hard(t.dealer) > 18
  }

  lemma DealerStops(hand: seq<Card>)
    requires (forall c :: c in hand ==> IsCard(c)) && DealerDraws(hand)
    ensures Hard(hand) <= 17
  {
  }

  lemma HardMore(hand: seq<Card>, c: Card)
    ensures Hard(hand + [c]) == Hard(hand) + CardValue(c) &&
        Aces(hand + [c]) == Aces(hand) + if c.rank == ACE then 1 else 0
  {
    assert (hand + [c])[..|hand|] == hand;
  }

  predicate HasAce(hand: seq<Card>) {
    exists c :: c in hand && c.rank == 1
  }

  lemma {:induction false} AcesIff(hand: seq<Card>)
    ensures Aces(hand) > 0 <==> HasAce(hand)
  {
    if hand != [] {
      var front, last := hand[..|hand| - 1], hand[|hand| - 1];
      AcesIff(front);
      assert forall c :: c in hand <==> c in front || c == last;
    }
  }

  /** The dealer goes on below seventeen, and at seventeen with an ace in the hand. */
  predicate GoesOn(hand: seq<Card>) {
    Value(hand) < 17 || (Value(hand) == 17 && HasAce(hand))
  }

  /** Some cards have been taken from the top of the deck, each when the dealer was to go on. */
  predicate HasTaken(t: Table, u: Table, k: nat) {
    && k <= |t.rest| && u == t.(dealer := t.dealer + t.rest[..k], rest := t.rest[k..])
    && forall j :: 0 <= j < k ==> GoesOn(t.dealer + t.rest[..j])
  }

  lemma TakenMore(t: Table, t1: Table, u: Table, k: nat)
    requires t.rest != [] && GoesOn(t.dealer) && HasTaken(t1, u, k)
    requires t1 == t.(dealer := t.dealer + [t.rest[0]], rest := t.rest[1..])
    ensures HasTaken(t, u, k + 1)
  {
    hide GoesOn;
    assert t.dealer + t.rest[..0] == t.dealer;
    assert t1.dealer + t1.rest[..k] == t.dealer + t.rest[..k + 1];
    forall j | 0 < j < k + 1
      ensures GoesOn(t.dealer + t.rest[..j])
    {
      assert t1.dealer + t1.rest[..j - 1] == t.dealer + t.rest[..j];
    }
  }

  /** The dealer takes cards just as long as there is a reason to go on. */
  lemma {:induction false} DealerStands(t: Table) returns (k: nat)
    ensures HasTaken(t, DealerDrawn(t), k)
    ensures DealerDrawn(t).rest != [] ==> !GoesOn(DealerDrawn(t).dealer)
    decreases |t.rest|
  {
    hide Value, HasAce, HasTaken;
    AcesIff(t.dealer);
    if t.rest == [] || !DealerDraws(t.dealer) {
      k := 0;
      NoneTaken(t);
    } else {
      var t1 := t.(dealer := t.dealer + [t.rest[0]], rest := t.rest[1..]);
      k := DealerStands(t1);
      TakenMore(t, t1, DealerDrawn(t), k);
      k := k + 1;
    }
  }

  lemma NoneTaken(t: Table)
    ensures HasTaken(t, t, 0)
  {
    assert t.dealer + t.rest[..0] == t.dealer;
  }

  // ---------------------------------------------------------------- the rule for a soft seventeen

  /** Seventeen in which an ace counts eleven. */
  predicate Soft(hand: seq<Card>) {
    Aces(hand) > 0 && Hard(hand) <= 11 && Value(hand) == 17
  }

  /** The rule the dealer should follow. */
  predicate ShouldDraw(hand: seq<Card>) {
    Value(hand) < 17 || Soft(hand)
  }

  /** Seventeen in which there is an ace but it counts one. */
  predicate HardSeventeen(hand: seq<Card>) {
    Aces(hand) > 0 && Hard(hand) == 17
  }

  /** The code's test is that rule just when the hand is not such a seventeen. */
  lemma DealerRuleIff(hand: seq<Card>)
    ensures DealerDraws(hand) == ShouldDraw(hand) <==> !HardSeventeen(hand)
  {
  }

  /** What the dealer should draw. */
  function ShouldHaveDrawn(t: Table): Table
    decreases |t.rest|
  {
    if t.rest == [] || !ShouldDraw(t.dealer) then t else ShouldHaveDrawn(OneMore(t))
  }

  function OneMore(t: Table): Table
    requires t.rest != []
  {
    t.(dealer := t.dealer + [t.rest[0]], rest := t.rest[1..])
  }

  /** The dealer draws what the rule says, and then exactly one card more if and only if that
      leaves a seventeen in which the ace counts one. */
  lemma {:induction false} DealerDrawsMore(t: Table)
    requires forall c :: c in t.rest ==> IsCard(c)
    ensures var t' := ShouldHaveDrawn(t); DealerDrawn(t) == if t'.rest != [] &&
        HardSeventeen(t'.dealer) then OneMore(t') else t'
    decreases |t.rest|
  {
    hide Aces, Hard;
    if t.rest != [] {
      DealerRuleIff(t.dealer);
      var after := OneMore(t);
      assert t.rest[0] in t.rest && forall c :: c in after.rest ==> c in t.rest;
      if ShouldDraw(t.dealer) {
        DealerDrawsMore(after);
      } else if DealerDraws(t.dealer) {
        HardMore(t.dealer, t.rest[0]);
        assert !DealerDraws(after.dealer);
      }
    }
  }

  /** A hand that is concerned. */
  lemma HardSeventeenDraws()
    ensures var hand := [Card(0, 10), Card(0, 6), Card(0, ACE)];
      HardSeventeen(hand) && DealerDraws(hand) && !ShouldDraw(hand)
  {
    var hand := [Card(0, 10), Card(0, 6), Card(0, ACE)];
    assert hand[..2] == [Card(0, 10), Card(0, 6)] && hand[..2][..1] == [Card(0, 10)] && [Card(0, 10)][..0] == [];
    assert Hard(hand[..2]) == 16 && Aces(hand) > 0;
  }

  predicate Cards(s: seq<Card>) {
    forall c :: c in s ==> IsCard(c)
  }

  function EverySecond(cards: seq<Card>, first: nat, n: nat): (r: seq<Card>)
    requires first + 2 * n <= |cards| + 1
  {
    seq(n, k requires 0 <= k < n => cards[first + 2 * k])
  }

  lemma EveryMore(cards: seq<Card>, first: nat, i: nat)
    requires first < 2 && 2 * i + 2 <= |cards|
    ensures cards[2 * i..][2..] == cards[2 * (i + 1)..]
    ensures EverySecond(cards, first, i + 1) == EverySecond(cards, first, i) + [cards[2 * i..][first]]
  {
  }

  lemma EveryEnds(cards: seq<Card>, first: nat)
    requires first < 2 && |cards| >= 4
    ensures EverySecond(cards, first, 0) == [] && EverySecond(cards, first, 2) == [cards[first], cards[first + 2]]
  {
  }

  class Game {
    const deck: Deck
    var player: seq<Card>
    var dealer: seq<Card>
    var stood: bool
    var bet: int

    ghost predicate Valid()
      reads this, deck, deck.cards
    {
      deck.Valid() && (if player == [] then dealer == [] && deck.pos == 0 && !stood else AllThere(View()))
    }

    ghost function View(): Table
      requires deck.Valid()
      reads this, deck, deck.cards
    {
      Table(player, dealer, stood, bet, deck.Rest())
    }

    constructor ()
      ensures Valid() && fresh(deck) && fresh(deck.cards) && player == [] && bet == 0
    {
      deck := new Deck();
      player, dealer, stood, bet := [], [], false, 0;
    }

    method Draw() returns (c: Card)
      requires deck.Valid() && |deck.Rest()| >= 2
      modifies deck, deck.cards
      ensures deck.Valid() && c == old(deck.Rest())[0] && deck.Rest() == old(deck.Rest())[1..]
    {
      c := deck.Next();
    }

    /** A card for the player and one for the dealer. */
    method DealRound()
      requires deck.Valid() && |deck.Rest()| >= 3
      modifies this`player, this`dealer, deck, deck.cards
      ensures deck.Valid() && deck.Rest() == old(deck.Rest())[2..]
      ensures player == old(player) + [old(deck.Rest())[0]] && dealer == old(dealer) + [old(deck.Rest())[1]]
    {
      hide IsDeck;
      var c := Draw();
      player := player + [c];
      c := Draw();
      dealer := dealer + [c];
    }

    /** Two cards each from a new shuffle. */
    method Deal() returns (ghost cards: seq<Card>)
      requires deck.Valid()
      modifies this`player, this`dealer, deck, deck.cards
      ensures deck.Valid() && IsDeck(cards) && |cards| == DECK_SIZE
      ensures player == [cards[0], cards[2]] && dealer == [cards[1], cards[3]] && deck.Rest() == cards[4..]
    {
      hide IsDeck, EverySecond;
      player, dealer := [], [];
      ghost var ps := deck.Shuffle();
      cards := deck.cards[..];
      assert deck.Rest() == cards[0..];
      EveryEnds(cards, 0);
      EveryEnds(cards, 1);
      var i := 0;
      while i < 2
        invariant 0 <= i <= 2 && deck.Valid() && deck.Rest() == cards[2 * i..]
        invariant player == EverySecond(cards, 0, i) && dealer == EverySecond(cards, 1, i)
      {
        EveryMore(cards, 0, i);
        EveryMore(cards, 1, i);
        DealRound();
        i := i + 1;
      }
    }

    method DealerPlay()
      requires deck.Valid() && Cards(player) && Cards(dealer) && Cards(deck.Rest()) && Room(View())
      modifies this`dealer, deck, deck.cards
      ensures deck.Valid() && View() == DealerPlayed(old(View()))
    {
      if StateOfHand(player) == Bust {
        return;
      }
      ghost var goal := DealerDrawn(View());
      while DealerDraws(dealer)
        invariant deck.Valid() && Cards(dealer) && Cards(deck.Rest()) && Room(View()) && DealerDrawn(View()) == goal
        invariant player == old(player) && stood == old(stood) && bet == old(bet)
        decreases |deck.Rest()|
      {
        DealerStops(dealer);
        ghost var rest := deck.Rest();
        var c := Draw();
        assert c == rest[0] && c in rest;
        HardMore(dealer, c);
        dealer := dealer + [c];
      }
    }

    method Stand()
      requires deck.Valid() && Cards(player) && Cards(dealer) && Cards(deck.Rest()) && (!stood ==> Room(View()))
      modifies this`dealer, this`stood, deck, deck.cards
      ensures deck.Valid() && View() == StoodTable(old(View()))
    {
      if stood {
        return;
      }
      stood := true;
      DealerPlay();
    }

    method Hit()
      requires deck.Valid() && Cards(player) && Cards(dealer) && Cards(deck.Rest())
      requires |deck.Rest()| + Hard(dealer) > 19 && |deck.Rest()| >= 2
      modifies this`player, this`dealer, this`stood, deck, deck.cards
      ensures deck.Valid() && View() == HitTable(old(View()))
    {
      ghost var rest := deck.Rest();
      var c := Draw();
      assert c == rest[0] && c in rest;
      player := player + [c];
      if Value(player) >= 21 {
        Stand();
      }
    }

    /** Twice the bet, one more card, and no other. */
    method DoubleBet()
      requires deck.Valid() && Cards(player) && Cards(dealer) && Cards(deck.Rest())
      requires |deck.Rest()| + Hard(dealer) > 19 && |deck.Rest()| >= 2
      requires Ready(HitTable(View().(bet := 2 * bet)))
      modifies this`player, this`dealer, this`stood, this`bet, deck, deck.cards
      ensures deck.Valid() && View() == StoodTable(HitTable(old(View()).(bet := 2 * old(bet))))
      ensures View().bet == bet && View().player == player
    {
      hide HitTable, StoodTable, Hard, Deck.Valid, Deck.Rest;
      bet := bet * 2;
      Hit();
      Stand();
    }
  }

  /** Valid cards, and room for the dealer if the player has not stood. */
  predicate Ready(t: Table) {
    Cards(t.player) && Cards(t.dealer) && Cards(t.rest) && (!t.stood ==> Room(t))
  }

  // ---------------------------------------------------------------- what a hand keeps

  /** A hand under way or over: all cards are there; until the player stands the dealer has two
      cards, and a player with more than two has less than twenty-one. */
  ghost predicate InHand(t: Table) {
    && AllThere(t) && |t.player| >= 2 && |t.dealer| >= 2
    && (!t.stood ==> |t.dealer| == 2 && (|t.player| > 2 ==> Value(t.player) < 21))
  }

  lemma AllCards(t: Table)
    requires AllThere(t)
    ensures Cards(t.player) && Cards(t.dealer) && Cards(t.rest) && |t.player| + |t.dealer| + |t.rest| == DECK_SIZE
  {
    var all := t.player + t.dealer + t.rest;
    SameSize(all, FullDeck());
    forall c | c in all
      ensures IsCard(c)
    {
      assert c in multiset(all);
      assert c in multiset(FullDeck());
      var i :| 0 <= i < DECK_SIZE && FullDeck()[i] == c;
    }
  }

  /** While the player may still act, fewer than forty cards can come to be dealt. */
  lemma RoomToPlay(t: Table)
    requires InHand(t) && StateOfGame(t) == Playing
    ensures Cards(t.player) && Cards(t.dealer) && Cards(t.rest) && |t.player| <= 20 && |t.rest| >= 30 &&
        Hard(t.dealer) >= 2
  {
    AllCards(t);
    HardAtLeast(t.player);
    HardAtLeast(t.dealer);
  }

  lemma DealerTakes(t: Table)
    requires t.rest != []
    ensures AllThere(t) ==> AllThere(t.(dealer := t.dealer + [t.rest[0]], rest := t.rest[1..]))
  {
    assert t.rest == [t.rest[0]] + t.rest[1..];
    assert t.player + t.dealer + t.rest == t.player + (t.dealer + [t.rest[0]]) + t.rest[1..];
  }

  lemma PlayerTakes(t: Table)
    requires t.rest != []
    ensures AllThere(t) ==> AllThere(t.(player := t.player + [t.rest[0]], rest := t.rest[1..]))
  {
    assert t.rest == [t.rest[0]] + t.rest[1..];
    var p, d, c, r := multiset(t.player), multiset(t.dealer), multiset([t.rest[0]]), multiset(t.rest[1..]);
    assert multiset(t.player + t.dealer + t.rest) == p + d + (c + r);
    assert multiset(t.player + [t.rest[0]] + t.dealer + t.rest[1..]) == (p + c) + d + r;
  }

  lemma {:induction false} DealerKeeps(t: Table)
    requires AllThere(t)
    ensures var u := DealerDrawn(t);
      && AllThere(u) && u.player == t.player && u.stood == t.stood && u.bet == t.bet && |u.dealer| >= |t.dealer|
      && (u.rest != [] ==> !DealerDraws(u.dealer))
    decreases |t.rest|
  {
    hide AllThere, DealerDraws;
    if t.rest != [] && DealerDraws(t.dealer) {
      DealerTakes(t);
      DealerKeeps(t.(dealer := t.dealer + [t.rest[0]], rest := t.rest[1..]));
    }
  }

  lemma SameCards(t: Table)
    requires AllThere(t)
    ensures AllThere(t.(stood := true))
  {
  }

  lemma HitKeeps(t: Table)
    requires InHand(t) && !t.stood && t.rest != []
    ensures var u := HitTable(t);
      InHand(u) && u.bet == t.bet && |u.player| == |t.player| + 1 && (!u.stood ==>
        u.dealer == t.dealer && u.rest == t.rest[1..])
  {
    hide AllThere, StoodTable, Value;
    var t1 := t.(player := t.player + [t.rest[0]], rest := t.rest[1..]);
    PlayerTakes(t);
    if Value(t1.player) >= 21 {
      StandKeeps(t1);
    }
  }

  /** Standing with all cards there, whatever the player holds. */
  lemma StandKeeps(t: Table)
    requires AllThere(t) && !t.stood && |t.player| >= 2 && |t.dealer| >= 2
    ensures var u := StoodTable(t); InHand(u) && u.stood && u.bet == t.bet && u.player == t.player
  {
    hide AllThere, DealerDrawn;
    assert AllThere(t.(stood := true)) by { SameCards(t); }
    DealerKeeps(t.(stood := true));
  }

  lemma {:induction false} DealerCount(t: Table)
    requires Cards(t.dealer) && Cards(t.rest)
    ensures var u := DealerDrawn(t); |u.dealer| <= |t.dealer| || |u.dealer| + Hard(t.dealer) <= |t.dealer| + 18
    decreases |t.rest|
  {
    if t.rest != [] && DealerDraws(t.dealer) {
      DealerStops(t.dealer);
      HardMore(t.dealer, t.rest[0]);
      assert t.rest[0] in t.rest;
      hide Hard, DealerDraws;
      DealerCount(t.(dealer := t.dealer + [t.rest[0]], rest := t.rest[1..]));
    }
  }

  /** However a hand goes on, at most 39 cards are dealt in it, so the deck never runs out. */
  lemma AtMost39(t: Table)
    requires InHand(t) && StateOfGame(t) == Playing
    ensures var u := StoodTable(t); |u.player| + |u.dealer| <= 39
    ensures t.rest != [] ==> var u := HitTable(t); |u.player| + |u.dealer| <= 39
  {
    RoomToPlay(t);
    hide Hard, Value, DealerDrawn, StateOfHand;
    DealerCount(t.(stood := true));
    DealerCount(t.(player := t.player + [t.rest[0]], rest := t.rest[1..], stood := true));
    DealerPlayer(t.(stood := true));
    DealerPlayer(t.(player := t.player + [t.rest[0]], rest := t.rest[1..], stood := true));
  }

  lemma {:induction false} DealerPlayer(t: Table)
    ensures DealerDrawn(t).player == t.player
    decreases |t.rest|
  {
    if t.rest != [] && DealerDraws(t.dealer) {
      DealerPlayer(t.(dealer := t.dealer + [t.rest[0]], rest := t.rest[1..]));
    }
  }

  lemma DealKeeps(cards: seq<Card>, bet: int)
    requires IsDeck(cards) && |cards| == DECK_SIZE
    ensures InHand(DealtTable(cards, bet))
  {
    var t := DealtTable(cards, bet);
    var four := cards[..4];
    assert cards == four + cards[4..];
    FourSame(four);
    assert t.player + t.dealer == [four[0], four[2], four[1], four[3]];
    hide *;
    assert multiset(t.player + t.dealer + t.rest) == multiset(t.player + t.dealer) + multiset(t.rest);
    assert multiset(four + cards[4..]) == multiset(four) + multiset(cards[4..]);
  }

  lemma FourSame(s: seq<Card>)
    requires |s| == 4
    ensures multiset([s[0], s[2], s[1], s[3]]) == multiset(s)
  {
    assert s == [s[0]] + ([s[1]] + [s[2]]) + [s[3]];
    assert [s[0], s[2], s[1], s[3]] == [s[0]] + ([s[2]] + [s[1]]) + [s[3]];
  }

  // ---------------------------------------------------------------- the session

  const PLAYER_STARTS := 1000
  const PLAYER_WINS := 100000
  const MIN_BET := 10
  const MAX_BET := 500

  datatype Result = Ok | Error(message: string)

  datatype SessionState = InSession | Broke | Won

  /** What a hand that ends this way pays back, the stake included. */
  function Payout(s: GameState, bet: int): int {
    match s
    case PlayerWinsBlackjack => bet * 5 / 2
    case PlayerWins => bet * 2
    case Push => bet
    case _ => 0
  }

  function Sum(xs: seq<int>): int {
    if xs == [] then 0 else xs[0] + Sum(xs[1..])
  }

  predicate Finished(s: GameState) {
    s != Idle && s != Playing
  }

  /** The chips: what was there before the hand, less the stake, plus what the hand has paid. It
      pays once, by its outcome, when it is over; but a doubled hand never pays. */
  ghost predicate Ledger(t: Table, balance: int, before: int, paid: seq<int>, doubled: bool) {
    && balance >= 0 && t.bet >= 0 && balance == before - t.bet + Sum(paid)
    && paid == (if Finished(StateOfGame(t)) && !doubled then [Payout(StateOfGame(t), t.bet)] else [])
    && (doubled ==> Finished(StateOfGame(t)))
    && (StateOfGame(t) == Idle ==> t.bet == 0)
  }

  predicate TwentyOneInTwo(hand: seq<Card>) {
    |hand| == 2 && Value(hand) == 21
  }

  lemma LedgerPays(t: Table, balance: int, before: int, paid: seq<int>)
    requires Ledger(t, balance, before, paid, false)
    ensures balance == before - t.bet + Payout(StateOfGame(t), t.bet)
  {
    hide StateOfGame;
    assert Sum([Payout(StateOfGame(t), t.bet)]) == Payout(StateOfGame(t), t.bet) by {
      assert [Payout(StateOfGame(t), t.bet)][1..] == [];
    }
  }

  /** What the player has gained by a hand, told from the cards. A bust player loses the bet. Twenty-one
      in two cards wins three halves of the bet, rounded down, against anything else, and nothing against
      the same; against it anything else loses the bet. Of other hands on which the player has stood the
      higher wins the bet, and a dealer over twenty-one loses. */
  lemma GainIs(t: Table, balance: int, before: int, paid: seq<int>)
    requires Ledger(t, balance, before, paid, false) && t.player != []
    ensures var p, d, gain := Value(t.player), Value(t.dealer), balance - before;
      if p > 21 then gain == -t.bet
      else if TwentyOneInTwo(t.player) then gain == if TwentyOneInTwo(t.dealer) then 0 else 3 * t.bet / 2
      else if TwentyOneInTwo(t.dealer) then gain == -t.bet
      else if d > 21 then gain == t.bet
      else if t.stood then gain == if p > d then t.bet else if p == d then 0 else -t.bet
      else gain == -t.bet
  {
    hide Value;
    LedgerPays(t, balance, before, paid);
  }

  /** A hand is being played while the player has not stood, neither side is over twenty-one, and neither
      has it in two cards. */
  lemma PlayingIff(t: Table)
    ensures StateOfGame(t) == Playing <==>
      && t.player != [] && !t.stood && Value(t.player) <= 21 && Value(t.dealer) <= 21
      && !TwentyOneInTwo(t.player) && !TwentyOneInTwo(t.dealer)
  {
    hide Value;
  }

  /** After standing on such a hand neither side has twenty-one in two cards. */
  lemma StoodPlain(t: Table)
    requires StateOfGame(t) == Playing && |t.dealer| >= 2
    ensures var u := StoodTable(t);
      u.player == t.player && u.stood && u.bet == t.bet && !TwentyOneInTwo(u.dealer)
  {
    hide Value;
    DealerExtends(t.(stood := true));
  }

  lemma HitPlain(t: Table)
    requires StateOfGame(t) == Playing && InHand(t) && t.rest != []
    ensures var u := HitTable(t);
      && |u.player| >= 3 && !TwentyOneInTwo(u.dealer) && u.bet == t.bet
      && (!u.stood ==> Value(u.dealer) <= 21 && Value(u.player) < 21)
  {
    hide Value, AllThere, Hard, Aces;
    PlayingIff(t);
    DealerExtends(t.(player := t.player + [t.rest[0]], rest := t.rest[1..], stood := true));
  }

  lemma TwoCards(t: Table)
    requires InHand(t) && |t.player| == 2 && |t.dealer| == 2
    ensures Value(t.player) <= 21 && Value(t.dealer) <= 21
  {
    AllCards(t);
    TwoAtMost21(t.player);
    TwoAtMost21(t.dealer);
  }

  lemma TwoAtMost21(hand: seq<Card>)
    requires Cards(hand) && |hand| == 2
    ensures Value(hand) <= 21
  {
    assert hand[..1][..0] == [] && hand[0] in hand && hand[1] in hand;
    assert Hard(hand[..1]) == CardValue(hand[0]);
  }

  lemma {:induction false} DealerExtends(t: Table)
    requires |t.dealer| >= 2
    ensures var u := DealerDrawn(t);
      && u.player == t.player && u.stood == t.stood && u.bet == t.bet && |u.dealer| >= |t.dealer|
      && (|u.dealer| == |t.dealer| ==> u.dealer == t.dealer)
    decreases |t.rest|
  {
    hide DealerDraws;
    if t.rest != [] && DealerDraws(t.dealer) {
      DealerExtends(t.(dealer := t.dealer + [t.rest[0]], rest := t.rest[1..]));
    }
  }

  class Session {
    const game: Game
    var balance: int
    var bet: int
    ghost var before: int
    ghost var paid: seq<int>
    ghost var doubled: bool

    ghost predicate Valid()
      reads this, game, game.deck, game.deck.cards
    {
      && game.deck.Valid() && Ledger(game.View(), balance, before, paid, doubled)
      && (game.player != [] ==> InHand(game.View()))
    }

    constructor ()
      ensures Valid() && balance == 1000 && StateOfGame(game.View()) == Idle
      ensures fresh(game) && fresh(game.deck) && fresh(game.deck.cards)
    {
      hide IsDeck, Deck.Valid, Deck.Rest, InHand, AllThere, Value;
      game := new Game();
      balance, bet, before, paid, doubled := PLAYER_STARTS, 0, PLAYER_STARTS, [], false;
    }

    /** Pays for a hand that is over. */
    method Score()
      requires game.deck.Valid() && paid == []
      modifies this`balance, this`paid
      ensures var s := StateOfGame(game.View());
        balance == old(balance) + Payout(s, game.bet) && paid == if Finished(s) then [Payout(s, game.bet)] else []
    {
      ghost var now := StateOfGame(game.View());
      var s := CurrentState();
      match s {
        case Idle =>
        case Playing =>
        case PlayerWinsBlackjack => balance := balance + game.bet * 5 / 2;
        case PlayerWins => balance := balance + game.bet * 2;
        case DealerWins =>
        case Push => balance := balance + game.bet;
      }
      if Finished(s) {
        paid := [Payout(s, game.bet)];
      }
    }

    method CurrentState() returns (s: GameState)
      requires game.deck.Valid()
      ensures s == StateOfGame(game.View())
    {
      s := StateOfGame(Table(game.player, game.dealer, game.stood, game.bet, []));
    }

    /** The client chooses what to bet next; any number at all. */
    method ChooseBet(b: int)
      requires Valid()
      modifies this`bet
      ensures Valid() && bet == b
    {
      bet := b;
    }

    /** Starts a new hand, giving up one that is under way. */
    method Deal() returns (r: Result)
      requires Valid()
      modifies this, game, game.deck, game.deck.cards
      ensures Valid()
      ensures r == Ok <==> 10 <= old(bet) <= 500 && old(bet) <= old(balance)
      ensures r != Ok ==> balance == old(balance) && game.View() == old(game.View()) && paid == old(paid)
      ensures r == Ok ==>
        && before == old(balance) && game.bet == old(bet) == bet && !doubled && |game.player| == 2 && |game.dealer| == 2
        && var p, d, gain := TwentyOneInTwo(game.player), TwentyOneInTwo(game.dealer), balance - old(balance);
        gain == if p && d then 0 else if p then 3 * bet / 2 else -bet
    {
      hide StateOfGame, Payout, InHand, Deck.Valid, Deck.Rest, Ledger, Value;
      if bet > balance {
        return Error("Invalid bet: not enough chips!");
      }
      if bet > MAX_BET || bet < MIN_BET {
        return Error("Invalid bet!");
      }
      StartHand();
      GainIs(game.View(), balance, before, paid);
      TwoCards(game.View());
      r := Ok;
    }

    method StartHand()
      requires game.deck.Valid() && 0 <= bet <= balance
      modifies this, game, game.deck, game.deck.cards
      ensures Valid() && bet == old(bet) && before == old(balance) && game.bet == bet && !doubled
      ensures |game.player| == 2 && |game.dealer| == 2 && !game.stood
    {
      hide StateOfGame, Payout, InHand, IsDeck, Deck.Valid, Deck.Rest, Ledger, Finished;
      before, paid, doubled := balance, [], false;
      game.stood := false;
      ghost var cards := game.Deal();
      game.bet := bet;
      DealKeeps(cards, bet);
      balance := balance - bet;
      Score();
      LedgerScored(game.View(), before, paid);
    }

    method Hit() returns (r: Result)
      requires Valid()
      modifies this`balance, this`paid, game, game.deck, game.deck.cards
      ensures Valid() && doubled == old(doubled)
      ensures r == Ok <==> StateOfGame(old(game.View())) == Playing
      ensures r == Ok ==> game.View() == HitTable(old(game.View()))
      ensures r == Ok ==> var p, d, gain := Value(game.player), Value(game.dealer), balance - before;
        gain == if !game.stood || p > 21 then -game.bet
                else if d > 21 || p > d then game.bet else if p == d then 0 else -game.bet
      ensures r != Ok ==> game.View() == old(game.View()) && balance == old(balance)
    {
      var s := CurrentState();
      if s != Playing {
        return Error("Not playing!");
      }
      LedgerPlaying(game.View(), balance, before, paid, doubled);
      HitKeeps(game.View());
      HitPlain(game.View());
      hide StateOfGame, Payout, InHand, Deck.Valid, Deck.Rest, HitTable, Ledger, Hard, Value, Cards, Finished;
      game.Hit();
      ScoreHand();
      GainIs(game.View(), balance, before, paid);
      r := Ok;
    }

    /** Scores a hand after the player's move and enters it in the ledger. */
    method ScoreHand()
      requires game.deck.Valid() && InHand(game.View()) && game.player != []
      requires paid == [] && !doubled && game.bet >= 0 && 0 <= balance == before - game.bet
      modifies this`balance, this`paid
      ensures Valid()
    {
      hide StateOfGame, Payout, InHand, Deck.Valid, Deck.Rest, Ledger, Finished;
      Score();
      LedgerScored(game.View(), before, paid);
    }

    method Stand() returns (r: Result)
      requires Valid()
      modifies this`balance, this`paid, game, game.deck, game.deck.cards
      ensures Valid() && doubled == old(doubled)
      ensures r == Ok <==> StateOfGame(old(game.View())) == Playing
      ensures r == Ok ==> game.View() == StoodTable(old(game.View())) && Finished(StateOfGame(game.View()))
      ensures r == Ok ==> var p, d, gain := Value(game.player), Value(game.dealer), balance - before;
        gain == if d > 21 || p > d then game.bet else if p == d then 0 else -game.bet
      ensures r != Ok ==> game.View() == old(game.View()) && balance == old(balance)
    {
      var s := CurrentState();
      if s != Playing {
        return Error("Not playing!");
      }
      LedgerPlaying(game.View(), balance, before, paid, doubled);
      StandKeeps(game.View());
      StoodIsOver(StoodTable(game.View()));
      PlayingIff(game.View());
      StoodPlain(game.View());
      hide StateOfGame, Payout, InHand, Deck.Valid, Deck.Rest, StoodTable, Ledger, Hard, Value, Cards, Finished, Room;
      game.Stand();
      ScoreHand();
      GainIs(game.View(), balance, before, paid);
      r := Ok;
    }

    /** One more card at twice the stake; whatever comes of it, it is not scored. */
    method Double() returns (r: Result)
      requires Valid()
      modifies this`balance, this`doubled, game, game.deck, game.deck.cards
      ensures Valid()
      ensures r == Ok <==>
        StateOfGame(old(game.View())) == Playing && old(game.bet) <= old(balance) && |old(game.player)| == 2
      ensures r == Ok ==>
        doubled && game.bet == 2 * old(game.bet) && balance == old(balance) - old(game.bet) && paid == []
      ensures r == Ok ==> Finished(StateOfGame(game.View())) && |game.player| == 3
      ensures r != Ok ==> game.View() == old(game.View()) && balance == old(balance) && doubled == old(doubled)
    {
      var s := CurrentState();
      if s != Playing {
        return Error("Not playing!");
      }
      if game.bet > balance {
        return Error("Invalid bet: not enough chips!");
      }
      if |game.player| != 2 {
        return Error("Can't double after first cards.");
      }
      DoubleUp();
      r := Ok;
    }

    method DoubleUp()
      requires Valid() && StateOfGame(game.View()) == Playing && game.bet <= balance && |game.player| == 2
      modifies this`balance, this`doubled, game, game.deck, game.deck.cards
      ensures Valid() && doubled && paid == [] && game.bet == 2 * old(game.bet) &&
          balance == old(balance) - old(game.bet)
      ensures Finished(StateOfGame(game.View())) && |game.player| == 3
    {
      hide StateOfGame, Payout, InHand, Deck.Valid, Deck.Rest, HitTable, StoodTable, Ledger, Hard, Value, Cards,
          Finished, Room, Ready, IsDeck, AllThere;
      ghost var t := game.View();
      DoubleReady(t, balance, before, paid, doubled);
      balance := balance - game.bet;
      game.DoubleBet();
      doubled := true;
      LedgerDoubled(game.View(), before);
    }

    /** No sequence of commands breaks the bank. */
    method State() returns (s: SessionState)
      requires Valid()
      ensures s != Broke && (s == Won <==> balance > 100000)
    {
      s := if balance < 0 then Broke else if balance > PLAYER_WINS then Won else InSession;
    }
  }

  /** A hand that is being played: nothing is paid yet, and there are cards enough. */
  lemma LedgerPlaying(t: Table, balance: int, before: int, paid: seq<int>, doubled: bool)
    requires Ledger(t, balance, before, paid, doubled) && StateOfGame(t) == Playing && (t.player != [] ==> InHand(t))
    ensures paid == [] && !doubled && t.bet >= 0 && balance == before - t.bet && balance >= 0
    ensures InHand(t) && !t.stood && t.player != [] && t.rest != [] && |t.rest| >= 2 && Room(t)
    ensures Cards(t.player) && Cards(t.dealer) && Cards(t.rest) && |t.rest| + Hard(t.dealer) > 19
  {
    hide InHand, AllThere, Value;
    assert t.player != [] && !t.stood;
    RoomToPlay(t);
  }

  lemma LedgerDoubled(t: Table, before: int)
    requires t.bet >= 0 && t.bet <= before && Finished(StateOfGame(t))
    ensures Ledger(t, before - t.bet, before, [], true)
  {
  }

  lemma StoodIsOver(t: Table)
    requires t.stood && t.player != []
    ensures Finished(StateOfGame(t))
  {
  }

  lemma LedgerScored(t: Table, before: int, paid: seq<int>)
    requires t.bet >= 0 && t.bet <= before && t.player != []
    requires paid == if Finished(StateOfGame(t)) then [Payout(StateOfGame(t), t.bet)] else []
    ensures Ledger(t, before - t.bet + Payout(StateOfGame(t), t.bet), before, paid, false)
  {
  }

  lemma BetChanges(t: Table, bet: int)
    requires InHand(t)
    ensures InHand(t.(bet := bet)) && StateOfGame(t.(bet := bet)) == StateOfGame(t) &&
        (Room(t) ==> Room(t.(bet := bet)))
  {
  }

  lemma DoubleReady(t: Table, balance: int, before: int, paid: seq<int>, doubled: bool)
    requires Ledger(t, balance, before, paid, doubled) && StateOfGame(t) == Playing
    requires (t.player != [] ==> InHand(t)) && |t.player| == 2
    ensures paid == [] && t.bet >= 0 && balance == before - t.bet
    ensures var t2 := t.(bet := 2 * t.bet);
      && |t2.rest| >= 2 && Ready(HitTable(t2)) && Cards(t.rest) && Cards(t.player) && Cards(t.dealer)
      && |t.rest| + Hard(t.dealer) > 19
      && var u := StoodTable(HitTable(t2));
      InHand(u) && Finished(StateOfGame(u)) && u.bet == t2.bet && |u.player| == 3
  {
    LedgerPlaying(t, balance, before, paid, doubled);
    BetChanges(t, 2 * t.bet);
    DoubledTable(t.(bet := 2 * t.bet));
  }

  lemma DoubledTable(t: Table)
    requires InHand(t) && !t.stood && t.rest != [] && |t.player| == 2
    requires Cards(t.dealer) && Cards(t.rest) && Cards(t.player)
    requires |t.rest| + Hard(t.dealer) > 19
    ensures Ready(HitTable(t))
    ensures var u := StoodTable(HitTable(t));
      InHand(u) && Finished(StateOfGame(u)) && u.bet == t.bet && |u.player| == 3 && u.player != []
  {
    HitKeeps(t);
    var u1 := HitTable(t);
    hide StateOfGame, AllThere, DealerPlayed, Value, Hard;
    AllCards(u1);
    if !u1.stood { StandKeeps(u1); }
    StoodIsOver(StoodTable(u1));
  }
}
