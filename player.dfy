/** A player: a hand of cards, a name and a score that lasts across rounds. */
module Players {
  import opened Cards
  import opened HandOps

  class Player {
    var hand: seq<Card>
    var name: string
    var score: int

    /** A new player holds no cards and has score 0. */
    constructor (name: string)
      ensures this.name == name && hand == [] && score == 0
    {
      this.name := name;
      hand := [];
      score := 0;
    }

    /** A copy of another player, as the dealer's by-value list holds. */
    constructor Copy(other: Player)
      ensures name == other.name && hand == other.hand && score == other.score
    {
      name := other.name;
      hand := other.hand;
      score := other.score;
    }

    /** The hand's value: the sum of its card values. */
    method TotalValue() returns (value: int)
      ensures value == HandValue(hand)
    {
      value := 0;
      var i := 0;
      while i < |hand|
        invariant 0 <= i <= |hand|
        invariant value == HandValue(hand[..i])
      {
        assert hand[..i + 1][..i] == hand[..i];
        var card := hand[i];
        if card.num == 0 || card.num >= 9 {
          value := value + 10;
        } else {
          value := value + card.num + 1;
        }
        i := i + 1;
      }
      assert hand[..i] == hand;
    }

    method ClearCards()
      modifies this
      ensures hand == [] && name == old(name) && score == old(score)
    {
      hand := [];
    }

    function GetScore(): int
      reads this
    {
      score
    }

    method IncrementScore()
      modifies this
      ensures score == old(score) + 1 && hand == old(hand) && name == old(name)
    {
      score := score + 1;
    }

    /** Puts a card at the end of the hand. */
    method GetCard(card: Card)
      modifies this
      ensures hand == old(hand) + [card] && name == old(name) && score == old(score)
    {
      hand := hand + [card];
    }

    /** Removes the card at index i (the random choice, i < |hand|); the
        remaining cards keep their order. */
    method DiscardCard(i: nat)
      requires i < |hand|
      modifies this
      ensures hand == Erase(old(hand), i)
      ensures IsSubsequence(hand, old(hand))
      ensures multiset(hand) + multiset{old(hand)[i]} == multiset(old(hand))
      ensures name == old(name) && score == old(score)
    {
      hand := hand[..i] + hand[i + 1..];
      EraseIsSubsequence(old(hand), i);
    }
  }
}
