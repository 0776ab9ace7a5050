/** Dealing: draws without replacement from an ordered deck. */
module Dealer {

  datatype Card = Card(suit: nat, rank: nat)

  predicate Distinct(cards: seq<Card>) {
    forall i, j :: 0 <= i < j < |cards| ==> cards[i] != cards[j]
  }

  function RemoveAt(deck: seq<Card>, i: nat): seq<Card>
    requires i < |deck|
  {
    deck[..i] + deck[i + 1..]
  }

  /** Every choice is below the number of cards left when it is made. */
  predicate Legal(choices: seq<nat>, left: nat) {
    |choices| <= left && forall i :: 0 <= i < |choices| ==> choices[i] < left - i
  }

  lemma LegalTail(choices: seq<nat>, left: nat)
    requires Legal(choices, left) && choices != []
    ensures choices[0] < left && Legal(choices[1..], left - 1)
  {
    assert forall i :: 0 <= i < |choices| - 1 ==> choices[1..][i] == choices[i + 1];
  }

  /** The cards drawn by a sequence of choices, and the cards left. */
  function Draw(deck: seq<Card>, choices: seq<nat>): (r: seq<Card>)
    requires Legal(choices, |deck|)
    ensures |r| == |choices|
  {
    if choices == [] then []
    else
      LegalTail(choices, |deck|);
      [deck[choices[0]]] + Draw(RemoveAt(deck, choices[0]), choices[1..])
  }

  function Rest(deck: seq<Card>, choices: seq<nat>): (r: seq<Card>)
    requires Legal(choices, |deck|)
    ensures |r| == |deck| - |choices|
    decreases |choices|
  {
    if choices == [] then deck
    else
      LegalTail(choices, |deck|);
      Rest(RemoveAt(deck, choices[0]), choices[1..])
  }

  function IndexOf(deck: seq<Card>, card: Card): (i: nat)
    requires card in deck
    ensures i < |deck| && deck[i] == card
  {
    if deck[0] == card then 0 else 1 + IndexOf(deck[1..], card)
  }

  /** The choices that deal these cards. */
  function Choices(deck: seq<Card>, drawn: seq<Card>): seq<nat>
    requires Distinct(deck) && Distinct(drawn) && forall c <- drawn :: c in deck
    decreases |drawn|
  {
    if drawn == [] then []
    else
      var i := IndexOf(deck, drawn[0]);
      RemovedContents(deck, i);
      DistinctTail(drawn);
      [i] + Choices(RemoveAt(deck, i), drawn[1..])
  }

  lemma DistinctTail(cards: seq<Card>)
    requires Distinct(cards) && cards != []
    ensures Distinct(cards[1..]) && cards[0] !in cards[1..]
  {
    forall c | c in cards[1..]
      ensures c != cards[0]
    {
      var k :| 0 <= k < |cards[1..]| && cards[1..][k] == c;
      assert cards[k + 1] == c;
    }
  }

  lemma RemovedContents(deck: seq<Card>, i: nat)
    requires Distinct(deck) && i < |deck|
    ensures Distinct(RemoveAt(deck, i))
    ensures forall c :: c in RemoveAt(deck, i) <==> c in deck && c != deck[i]
  {
    var left := RemoveAt(deck, i);
    assert forall k :: 0 <= k < |left| ==> left[k] == if k < i then deck[k] else deck[k + 1];
    forall c | c in deck && c != deck[i]
      ensures c in left
    {
      var k :| 0 <= k < |deck| && deck[k] == c;
      assert left[if k < i then k else k - 1] == c;
    }
  }

  lemma ConsDistinct(card: Card, cards: seq<Card>)
    requires card !in cards && Distinct(cards)
    ensures Distinct([card] + cards)
  {
  }

  /** What is drawn is distinct and comes from the deck. */
  lemma {:induction false} DrawnFromDeck(deck: seq<Card>, choices: seq<nat>)
    requires Distinct(deck) && Legal(choices, |deck|)
    ensures Distinct(Draw(deck, choices)) && forall c <- Draw(deck, choices) :: c in deck
    decreases |choices|
  {
    if choices != [] {
      LegalTail(choices, |deck|);
      RemovedContents(deck, choices[0]);
      DrawnFromDeck(RemoveAt(deck, choices[0]), choices[1..]);
      ConsDistinct(deck[choices[0]], Draw(RemoveAt(deck, choices[0]), choices[1..]));
    }
  }

  /** Different choices deal different cards: the choices can be read off the deal. */
  lemma {:induction false} ChoicesOfDraw(deck: seq<Card>, choices: seq<nat>)
    requires Distinct(deck) && Legal(choices, |deck|)
    ensures Distinct(Draw(deck, choices)) && forall c <- Draw(deck, choices) :: c in deck
    ensures Choices(deck, Draw(deck, choices)) == choices
    decreases |choices|
  {
    DrawnFromDeck(deck, choices);
    if choices != [] {
      LegalTail(choices, |deck|);
      var i := choices[0];
      assert IndexOf(deck, deck[i]) == i;
      var drawn := Draw(deck, choices);
      assert drawn[1..] == Draw(RemoveAt(deck, i), choices[1..]);
      RemovedContents(deck, i);
      ChoicesOfDraw(RemoveAt(deck, i), choices[1..]);
    }
  }

  /** Every ordered deal of distinct cards of the deck comes from some choices. */
  lemma {:induction false} DrawOfChoices(deck: seq<Card>, drawn: seq<Card>)
    requires Distinct(deck) && Distinct(drawn) && forall c <- drawn :: c in deck
    ensures Legal(Choices(deck, drawn), |deck|) && |Choices(deck, drawn)| == |drawn|
    ensures Draw(deck, Choices(deck, drawn)) == drawn
    decreases |drawn|
  {
    if drawn != [] {
      var i := IndexOf(deck, drawn[0]);
      RemovedContents(deck, i);
      DistinctTail(drawn);
      DrawOfChoices(RemoveAt(deck, i), drawn[1..]);
      var later := Choices(RemoveAt(deck, i), drawn[1..]);
      assert Choices(deck, drawn) == [i] + later;
      assert ([i] + later)[1..] == later;
      assert [drawn[0]] + drawn[1..] == drawn;
    }
  }

  /** The deck without some cards, in deck order. */
  function Without(deck: seq<Card>, cards: seq<Card>): seq<Card> {
    if deck == [] then []
    else if deck[0] in cards then Without(deck[1..], cards)
    else [deck[0]] + Without(deck[1..], cards)
  }

  lemma {:induction false} WithoutConcat(a: seq<Card>, b: seq<Card>, cards: seq<Card>)
    ensures Without(a + b, cards) == Without(a, cards) + Without(b, cards)
  {
    if a == [] {
      assert a + b == b;
    } else {
      assert (a + b)[1..] == a[1..] + b;
      WithoutConcat(a[1..], b, cards);
    }
  }

  /** Only which of the deck's own cards are excluded matters. */
  lemma {:induction false} WithoutSame(deck: seq<Card>, cards: seq<Card>, others: seq<Card>)
    requires forall c <- deck :: c in cards <==> c in others
    ensures Without(deck, cards) == Without(deck, others)
  {
    if deck != [] {
      assert deck[0] in deck;
      WithoutSame(deck[1..], cards, others);
    }
  }

  lemma {:induction false} WithoutNone(deck: seq<Card>)
    ensures Without(deck, []) == deck
  {
    if deck != [] {
      WithoutNone(deck[1..]);
    }
  }

  lemma WithoutRemoved(deck: seq<Card>, i: nat, later: seq<Card>)
    requires Distinct(deck) && i < |deck|
    ensures Without(deck, [deck[i]] + later) == Without(RemoveAt(deck, i), later)
  {
    var cards := [deck[i]] + later;
    var front, back := deck[..i], deck[i + 1..];
    assert deck == front + ([deck[i]] + back);
    WithoutConcat(front, [deck[i]] + back, cards);
    assert ([deck[i]] + back)[1..] == back;
    RemovedContents(deck, i);
    assert forall c <- front + back :: c != deck[i];
    WithoutSame(front, cards, later);
    WithoutSame(back, cards, later);
    WithoutConcat(front, back, later);
  }

  /** The cards left are the deck without the drawn ones, still in deck order. */
  lemma {:induction false} RestInDeckOrder(deck: seq<Card>, choices: seq<nat>)
    requires Distinct(deck) && Legal(choices, |deck|)
    ensures Rest(deck, choices) == Without(deck, Draw(deck, choices))
    decreases |choices|
  {
    if choices == [] {
      WithoutNone(deck);
    } else {
      LegalTail(choices, |deck|);
      RemovedContents(deck, choices[0]);
      RestInDeckOrder(RemoveAt(deck, choices[0]), choices[1..]);
      WithoutRemoved(deck, choices[0], Draw(RemoveAt(deck, choices[0]), choices[1..]));
    }
  }

  lemma RemovedMultiset(deck: seq<Card>, i: nat)
    requires i < |deck|
    ensures multiset(deck) == multiset{deck[i]} + multiset(RemoveAt(deck, i))
  {
    assert deck == deck[..i] + [deck[i]] + deck[i + 1..];
  }

  /** Drawn and left together are the deck. */
  lemma {:induction false} NothingLost(deck: seq<Card>, choices: seq<nat>)
    requires Legal(choices, |deck|)
    ensures multiset(Draw(deck, choices)) + multiset(Rest(deck, choices)) == multiset(deck)
    decreases |choices|
  {
    if choices != [] {
      LegalTail(choices, |deck|);
      var i := choices[0];
      NothingLost(RemoveAt(deck, i), choices[1..]);
      RemovedMultiset(deck, i);
      var drawn := Draw(RemoveAt(deck, i), choices[1..]);
      assert Draw(deck, choices) == [deck[i]] + drawn;
      assert multiset([deck[i]] + drawn) == multiset{deck[i]} + multiset(drawn);
    }
  }

  // ----- the 54 cards -----

  /** Where a multimap inserts: behind the cards of the same and of smaller suits. */
  function UpperBound(cards: seq<Card>, suit: nat): (i: nat)
    ensures i <= |cards|
  {
    if cards == [] || cards[0].suit > suit then 0 else 1 + UpperBound(cards[1..], suit)
  }

  function Emplaced(cards: seq<Card>, card: Card): seq<Card> {
    var i := UpperBound(cards, card.suit);
    cards[..i] + [card] + cards[i..]
  }

  function SuitCards(suit: nat, n: nat): (r: seq<Card>)
    ensures |r| == n && forall k :: 0 <= k < n ==> r[k] == Card(suit, k + 1)
  {
    seq(n, k requires 0 <= k < n => Card(suit, k + 1))
  }

  /** The deck in the order the multimap keeps it: the two jokers, then the suits by rank. */
  const JOKERS: seq<Card> := [Card(0, 14), Card(0, 15)]

  function Suits(n: nat): (r: seq<Card>)
    ensures |r| == 13 * n
    ensures forall k :: 0 <= k < 13 * n ==> r[k] == Card(k / 13 + 1, k % 13 + 1)
  {
    if n == 0 then [] else Suits(n - 1) + SuitCards(n, 13)
  }

  function FullDeck(): (r: seq<Card>)
    ensures |r| == 54
  {
    JOKERS + Suits(4)
  }

  /** A card goes behind those of its own suit and of smaller ones, and before the others. */
  lemma {:induction false} EmplacedPlace(cards: seq<Card>, card: Card) returns (i: nat)
    requires forall j, k :: 0 <= j < k < |cards| ==> cards[j].suit <= cards[k].suit
    ensures i <= |cards| && Emplaced(cards, card) == cards[..i] + [card] + cards[i..]
    ensures forall j :: 0 <= j < |cards| ==> (cards[j].suit <= card.suit <==> j < i)
  {
    i := UpperBound(cards, card.suit);
    BoundExact(cards, card.suit);
  }

  lemma {:induction false} BoundExact(cards: seq<Card>, suit: nat)
    requires forall j, k :: 0 <= j < k < |cards| ==> cards[j].suit <= cards[k].suit
    ensures forall j :: 0 <= j < |cards| ==> (cards[j].suit <= suit <==> j < UpperBound(cards, suit))
  {
    if cards != [] && cards[0].suit <= suit {
      BoundExact(cards[1..], suit);
      assert forall j :: 0 < j < |cards| ==> cards[j] == cards[1..][j - 1];
    }
  }

  predicate Precedes(a: Card, b: Card) {
    a.suit < b.suit || (a.suit == b.suit && a.rank < b.rank)
  }

  /** Each of the 54 cards once, by suit and then by rank. */
  lemma FullDeckDistinct()
    ensures Distinct(FullDeck())
    ensures forall i, j :: 0 <= i < j < 54 ==> Precedes(FullDeck()[i], FullDeck()[j])
    ensures forall c :: c in FullDeck() <==>
                        (c.suit == 0 && 14 <= c.rank <= 15) || (1 <= c.suit <= 4 && 1 <= c.rank <= 13)
  {
    var suits := Suits(4);
    forall c: Card | 1 <= c.suit <= 4 && 1 <= c.rank <= 13
      ensures c in suits
    {
      var k := 13 * (c.suit - 1) + (c.rank - 1);
      assert suits[k] == c;
    }
  }

  lemma {:induction false} UpperBoundAtEnd(cards: seq<Card>, suit: nat)
    requires forall c <- cards :: c.suit <= suit
    ensures UpperBound(cards, suit) == |cards|
  {
    if cards != [] {
      assert cards[0] in cards;
      UpperBoundAtEnd(cards[1..], suit);
    }
  }

  /** Suit 0 sorts before the others, and the second joker behind the first. */
  lemma JokersInFront(suits: seq<Card>)
    requires suits != [] && suits[0].suit > 0
    ensures Emplaced(Emplaced(suits, Card(0, 14)), Card(0, 15)) == JOKERS + suits
  {
    var one := [Card(0, 14)] + suits;
    assert Emplaced(suits, Card(0, 14)) == one;
    assert one[1..] == suits;
    assert UpperBound(one, 0) == 1;
    assert one[..1] == [Card(0, 14)];
  }

  class Deck {
    var cards: seq<Card>

    constructor ()
      ensures cards == []
    {
      cards := [];
    }

    method Emplace(card: Card)
      modifies this
      ensures cards == Emplaced(old(cards), card)
    {
      var i := 0;
      while i < |cards| && cards[i].suit <= card.suit
        invariant i <= |cards| && UpperBound(cards, card.suit) == i + UpperBound(cards[i..], card.suit)
      {
        assert cards[i..][1..] == cards[i + 1..];
        i := i + 1;
      }
      cards := cards[..i] + [card] + cards[i..];
    }

    method InitSuit(suit: nat)
      requires suit > 0 && cards == Suits(suit - 1)
      modifies this
      ensures cards == Suits(suit)
    {
      for rank := 1 to 14
        invariant cards == Suits(suit - 1) + SuitCards(suit, rank - 1)
      {
        UpperBoundAtEnd(cards, suit);
        Emplace(Card(suit, rank));
        assert SuitCards(suit, rank) == SuitCards(suit, rank - 1) + [Card(suit, rank)];
      }
    }

    method InitCards()
      modifies this
      ensures cards == FullDeck()
    {
      cards := [];
      for suit := 1 to 5
        invariant cards == Suits(suit - 1)
      {
        InitSuit(suit);
      }
      JokersInFront(cards);
      Emplace(Card(0, 14));
      Emplace(Card(0, 15));
    }

    /** Steps to the chosen card, removes and returns it. */
    method TakeOneCard(random: nat) returns (card: Card)
      requires random < |cards|
      modifies this
      ensures card == old(cards)[random] && cards == RemoveAt(old(cards), random)
    {
      var at := 0;
      while at < random
        invariant at <= random
      {
        at := at + 1;
      }
      card := cards[at];
      cards := cards[..at] + cards[at + 1..];
    }

    /** Fifty-one cards by the given random choices; the other three stay. */
    method DealCards(choices: seq<nat>) returns (dealt: seq<Card>)
      requires |choices| == 51 && Legal(choices, 54)
      modifies this
      ensures dealt == Draw(FullDeck(), choices) && cards == Rest(FullDeck(), choices)
      ensures |dealt| == 51 && |cards| == 3
      ensures multiset(dealt) + multiset(cards) == multiset(FullDeck())
      ensures Distinct(dealt) && cards == Without(FullDeck(), dealt)
    {
      InitCards();
      dealt := [];
      var i := 0;
      while i < 51
        invariant i <= 51 && |cards| == 54 - i
        invariant Legal(choices[i..], |cards|)
        invariant dealt + Draw(cards, choices[i..]) == Draw(FullDeck(), choices)
        invariant Rest(cards, choices[i..]) == Rest(FullDeck(), choices)
      {
        LegalTail(choices[i..], |cards|);
        assert choices[i..][0] == choices[i] && choices[i..][1..] == choices[i + 1..];
        var card := TakeOneCard(choices[i]);
        dealt := dealt + [card];
        i := i + 1;
      }
      FullDeckDistinct();
      NothingLost(FullDeck(), choices);
      RestInDeckOrder(FullDeck(), choices);
      DrawnFromDeck(FullDeck(), choices);
    }
  }
}
