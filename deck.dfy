/** The deck: an ordered list of cards and a cursor on the next card to deal. */
module Decks {
  import opened Cards
  import opened DeckOrder

  class Deck {
    var cards: seq<Card>
    /** Index of the next card to deal; the cards before it are dealt. */
    var topCard: int

    /** The cursor never runs past the end of the deck. */
    ghost predicate Valid()
      reads this
    {
      0 <= topCard <= |cards|
    }

    /** The cards not dealt yet, in dealing order. */
    ghost function Undealt(): (u: seq<Card>)
      reads this
      requires Valid()
      ensures |u| == |cards| - topCard
      ensures cards[..topCard] + u == cards
    {
      cards[topCard..]
    }

    /** Builds every suit/number pair, suit-major, with nothing dealt. */
    constructor (nSuit: int, nNum: int)
      ensures Valid()
      ensures cards == NewDeckOrder(nSuit, nNum) && topCard == 0
    {
      cards := [];
      topCard := 0;
      new;
      var i := 0;
      while i < nSuit
        invariant 0 <= i && (i <= nSuit || i == 0)
        invariant cards == NewDeckOrder(i, nNum) && topCard == 0
      {
        var j := 0;
        while j < nNum
          invariant 0 <= j && (j <= nNum || j == 0)
          invariant cards == NewDeckOrder(i, nNum) + SuitRow(i, j) && topCard == 0
        {
          assert SuitRow(i, j + 1) == SuitRow(i, j) + [Card(i, j)];
          cards := cards + [Card(i, j)];
          j := j + 1;
        }
        assert SuitRow(i, j) == SuitRow(i, nNum);
        i := i + 1;
      }
    }

    /** A copy of another deck, as the dealer's by-value member holds. */
    constructor Copy(other: Deck)
      ensures cards == other.cards && topCard == other.topCard
    {
      cards := other.cards;
      topCard := other.topCard;
    }

    /** Fisher-Yates: for i = 1 .. n-1, swap card i with card js[i] (js[i] <= i),
        then restart dealing from the first card. */
    method Shuffle(js: seq<nat>)
      requires |js| == |cards| && PicksBounded(js, |cards|)
      modifies this
      ensures Valid()
      ensures cards == Shuffled(old(cards), js) && topCard == 0
      ensures |cards| == |old(cards)| && multiset(cards) == multiset(old(cards))
    {
      ghost var original := cards;
      var i := 1;
      while i < |cards|
        invariant |cards| == |original|
        invariant 1 <= i <= |cards| || |cards| == 0
        invariant cards == ShuffleSteps(original, js, if |cards| == 0 then 0 else i)
      {
        var j := js[i];
        var card := cards[i];
        cards := cards[i := cards[j]];
        cards := cards[j := card];
        i := i + 1;
      }
      topCard := 0;
      ShuffledPermutes(original, js);
    }

    /** True iff every card has been dealt. */
    function Empty(): (b: bool)
      reads this
      requires Valid()
      ensures b <==> Undealt() == []
    {
      topCard == |cards|
    }

    /** Returns the card under the cursor and moves the cursor past it.
        Callers check Empty() first. */
    method Deal() returns (card: Card)
      requires Valid() && !Empty()
      modifies this
      ensures Valid()
      ensures card == old(Undealt())[0] && Undealt() == old(Undealt())[1..]
      ensures cards == old(cards) && topCard == old(topCard) + 1
    {
      card := cards[topCard];
      topCard := topCard + 1;
    }
  }
}
