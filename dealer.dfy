/** The dealer: runs rounds over its own deck and players and decides when
    the game has a winner. */
module Dealers {
  import opened Cards
  import opened DeckOrder
  import opened Decks
  import opened HandOps
  import opened Players
  import opened Scoring
  import opened RoundSpec
  import opened GameErrors

  class Dealer {
    const deck: Deck
    const players: seq<Player>
    const numCardsToDeal: int
    /** Index of the first player found with 10 points; -1 until then. */
    var winner: int

    /** At least two players, each a separate object. */
    ghost predicate Valid()
      reads deck
    {
      deck.Valid() && |players| >= 2 &&
      forall i, j :: 0 <= i < j < |players| ==> players[i] != players[j]
    }

    ghost function Hands(): (hands: seq<seq<Card>>)
      reads players
      ensures |hands| == |players|
    {
      seq(|players|, r reads players requires 0 <= r < |players| => players[r].hand)
    }

    ghost function Scores(): (scores: seq<int>)
      reads players
      ensures |scores| == |players|
    {
      seq(|players|, r reads players requires 0 <= r < |players| => players[r].score)
    }

    ghost function Names(): (names: seq<string>)
      reads players
      ensures |names| == |players|
    {
      seq(|players|, r reads players requires 0 <= r < |players| => players[r].name)
    }

    /** Every card in the players' hands, counted with multiplicity, is
        among the cards dealt so far: discarded cards never go back. */
    ghost predicate Conserved()
      reads deck, players
    {
      deck.Valid() && Pooled(Hands()) <= multiset(deck.cards[..deck.topCard])
    }

    /** Keeps its own copies of the deck and the players. Callers of the
        game go through Create, which rejects fewer than two players. */
    constructor (deck: Deck, players: seq<Player>, numCardsToDeal: int)
      requires deck.Valid() && |players| >= 2
      ensures Valid() && fresh(this.deck)
      ensures this.deck.cards == deck.cards && this.deck.topCard == deck.topCard
      ensures |this.players| == |players|
      ensures forall r :: 0 <= r < |players| ==> fresh(this.players[r])
      ensures forall r :: 0 <= r < |players| ==>
        this.players[r].hand == players[r].hand &&
        this.players[r].score == players[r].score &&
        this.players[r].name == players[r].name
      ensures this.numCardsToDeal == numCardsToDeal && winner == -1
    {
      var copies: seq<Player> := [];
      var i := 0;
      while i < |players|
        invariant 0 <= i <= |players| && |copies| == i
        invariant forall r :: 0 <= r < i ==> fresh(copies[r])
        invariant forall r :: 0 <= r < i ==>
          copies[r].hand == players[r].hand && copies[r].score == players[r].score &&
          copies[r].name == players[r].name
        invariant forall a, b :: 0 <= a < b < i ==> copies[a] != copies[b]
      {
        var copy := new Player.Copy(players[i]);
        copies := copies + [copy];
        i := i + 1;
      }
      this.deck := new Deck.Copy(deck);
      this.players := copies;
      this.numCardsToDeal := numCardsToDeal;
      winner := -1;
    }

    /** Builds a dealer, or fails with NotEnoughPlayers when fewer than two
        players are given. */
    static method Create(deck: Deck, players: seq<Player>, numCardsToDeal: int) returns (r: Result<Dealer>)
      requires deck.Valid()
      ensures r.Err? <==> |players| < 2
      ensures r.Err? ==> r.error == NotEnoughPlayers
      ensures r.Ok? ==> fresh(r.value) && r.value.Valid() && fresh(r.value.deck)
      ensures r.Ok? ==> r.value.deck.cards == deck.cards && r.value.deck.topCard == deck.topCard
      ensures r.Ok? ==> |r.value.players| == |players|
      ensures r.Ok? ==> forall i :: 0 <= i < |players| ==>
        (fresh(r.value.players[i]) &&
         r.value.players[i].hand == players[i].hand &&
         r.value.players[i].score == players[i].score &&
         r.value.players[i].name == players[i].name)
      ensures r.Ok? ==> r.value.numCardsToDeal == numCardsToDeal
    {
      if |players| < 2 {
        return Err(NotEnoughPlayers);
      }
      var dealer := new Dealer(deck, players, numCardsToDeal);
      return Ok(dealer);
    }

    /** One round: every player's hand is cleared, the deck is shuffled
        (js holds the values rand() % (i + 1) takes), the cards are dealt,
        each player exchanges (picks[r] holds player r's discard indices,
        one per exchanged card), and the round is scored. The round stops
        with OutOfCards where dealCards or exchangeCards would throw. */
    method Play(js: seq<nat>, picks: seq<seq<nat>>) returns (out: Outcome)
      requires Valid()
      requires |js| == |deck.cards| && PicksBounded(js, |deck.cards|)
      requires |picks| == |players| && forall r :: 0 <= r < |picks| ==> DiscardPicks(Quota(numCardsToDeal), picks[r])
      modifies deck, players
      ensures Valid() && Names() == old(Names()) && Conserved()
      ensures deck.cards == Shuffled(old(deck.cards), js)
      ensures out.Pass? <==> BlockStart(|players|, Quota(numCardsToDeal)) + DrawsBefore(picks, |picks|) <= |deck.cards|
      ensures out.Fail? ==> out.error == OutOfCards && Scores() == old(Scores())
      ensures out.Pass? ==> deck.topCard == BlockStart(|players|, Quota(numCardsToDeal)) + DrawsBefore(picks, |picks|)
      ensures out.Fail? ==> deck.topCard == |deck.cards|
      ensures Hands() == RoundHands(|players|, deck.cards, Quota(numCardsToDeal), picks)
      ensures out.Pass? ==> RoundScored(old(Scores()), Scores(), HandValues(Hands()))
    {
      StartRound(js);
      out := PlayShuffled(picks);
    }

    /** Play after the hands are cleared and the deck is shuffled: deal,
        exchange and, when neither ran out of cards, score the round. */
    method PlayShuffled(picks: seq<seq<nat>>) returns (out: Outcome)
      requires Valid() && deck.topCard == 0 && Hands() == EmptyHands(|players|)
      requires |picks| == |players| && forall r :: 0 <= r < |picks| ==> DiscardPicks(Quota(numCardsToDeal), picks[r])
      modifies deck, players
      ensures Valid() && Names() == old(Names()) && Conserved() && deck.cards == old(deck.cards)
      ensures out.Pass? <==> BlockStart(|players|, Quota(numCardsToDeal)) + DrawsBefore(picks, |picks|) <= |deck.cards|
      ensures out.Fail? ==> out.error == OutOfCards && Scores() == old(Scores())
      ensures out.Pass? ==> deck.topCard == BlockStart(|players|, Quota(numCardsToDeal)) + DrawsBefore(picks, |picks|)
      ensures out.Fail? ==> deck.topCard == |deck.cards|
      ensures Hands() == RoundHands(|players|, deck.cards, Quota(numCardsToDeal), picks)
      ensures out.Pass? ==> RoundScored(old(Scores()), Scores(), HandValues(Hands()))
    {
      out := DealAndExchange(picks);
      if out.Fail? {
        return;
      }
      ghost var hands, cards := Hands(), deck.cards;
      UpdateScore();
      assert Hands() == hands && deck.cards == cards;
    }

    /** The middle of play on a freshly shuffled deck with empty hands:
        dealCards followed by exchangeCards, stopping at the first one that
        runs out of cards. */
    method DealAndExchange(picks: seq<seq<nat>>) returns (out: Outcome)
      requires Valid() && deck.topCard == 0 && Hands() == EmptyHands(|players|)
      requires |picks| == |players| && forall r :: 0 <= r < |picks| ==> DiscardPicks(Quota(numCardsToDeal), picks[r])
      modifies deck, players
      ensures Valid() && Conserved() && deck.cards == old(deck.cards)
      ensures Scores() == old(Scores()) && Names() == old(Names())
      ensures out.Pass? <==> BlockStart(|players|, Quota(numCardsToDeal)) + DrawsBefore(picks, |picks|) <= |deck.cards|
      ensures out.Fail? ==> out.error == OutOfCards
      ensures out.Pass? ==> deck.topCard == BlockStart(|players|, Quota(numCardsToDeal)) + DrawsBefore(picks, |picks|)
      ensures out.Fail? ==> deck.topCard == |deck.cards|
      ensures Hands() == RoundHands(|players|, deck.cards, Quota(numCardsToDeal), picks)
    {
      out := DealShuffled();
      ghost var n, q := |players|, Quota(numCardsToDeal);
      if out.Fail? {
        return;
      }
      ghost var dealt := Hands();
      DealtPicksFit(n, deck.cards, q, picks);
      out := ExchangeDealt(picks, dealt);
    }

    /** exchangeCards on the dealt hands, which hold only dealt cards:
        afterwards they still do. */
    method ExchangeDealt(picks: seq<seq<nat>>, ghost dealt: seq<seq<Card>>) returns (out: Outcome)
      requires Valid() && Conserved() && Hands() == dealt && ValidPicks(dealt, picks)
      modifies deck, players
      ensures Valid() && Conserved() && deck.cards == old(deck.cards)
      ensures Scores() == old(Scores()) && Names() == old(Names())
      ensures out.Pass? <==> old(deck.topCard) + DrawsBefore(picks, |picks|) <= |deck.cards|
      ensures out.Fail? ==> out.error == OutOfCards
      ensures out.Pass? ==> deck.topCard == old(deck.topCard) + DrawsBefore(picks, |picks|)
      ensures out.Fail? ==> deck.topCard == |deck.cards|
      ensures Hands() == ExchangeRound(dealt, deck.cards[old(deck.topCard)..], picks)
    {
      ghost var cards, top, draws := deck.cards, deck.topCard, DrawsBefore(picks, |picks|);
      assert deck.Undealt() == cards[top..] && |deck.Undealt()| == |cards| - top;
      out := ExchangeCards(picks);
      ExchangeKeepsConserved(dealt, Hands(), cards, top, deck.topCard, picks);
    }

    /** dealCards on a freshly shuffled deck with empty hands. */
    method DealShuffled() returns (out: Outcome)
      requires Valid() && deck.topCard == 0 && Hands() == EmptyHands(|players|)
      modifies deck, players
      ensures Valid() && Conserved() && deck.cards == old(deck.cards)
      ensures Scores() == old(Scores()) && Names() == old(Names())
      ensures out.Pass? <==> BlockStart(|players|, Quota(numCardsToDeal)) <= |deck.cards|
      ensures out.Fail? ==> out.error == OutOfCards
      ensures out.Pass? ==> deck.topCard == BlockStart(|players|, Quota(numCardsToDeal))
      ensures out.Fail? ==> deck.topCard == |deck.cards|
      ensures Hands() == DealRound(EmptyHands(|players|), deck.cards, Quota(numCardsToDeal))
    {
      ghost var n, q := |players|, Quota(numCardsToDeal);
      ghost var cards := deck.cards;
      assert deck.Undealt() == cards;
      out := DealCards();
      ghost var dealt, top := DealRound(EmptyHands(n), cards, q), deck.topCard;
      assert Hands() == dealt && top == Min(BlockStart(n, q), |cards|);
      assert Pooled(dealt) <= multiset(cards[..top]) by {
        PooledEmpty(EmptyHands(n));
        DealKeepsConserved(EmptyHands(n), dealt, cards, 0, top, q);
      }
    }

    /** The start of play: every player's hand is cleared and the deck is
        shuffled and restarted from its first card. */
    method StartRound(js: seq<nat>)
      requires Valid()
      requires |js| == |deck.cards| && PicksBounded(js, |deck.cards|)
      modifies deck, players
      ensures Valid()
      ensures deck.cards == Shuffled(old(deck.cards), js) && deck.topCard == 0
      ensures Hands() == EmptyHands(|players|)
      ensures Scores() == old(Scores()) && Names() == old(Names())
    {
      ClearHands();
      ghost var hands, scores, names := Hands(), Scores(), Names();
      deck.Shuffle(js);
      assert Hands() == hands && Scores() == scores && Names() == names;
    }

    /** The first loop of play: every player's hand is emptied. */
    method ClearHands()
      requires Valid()
      modifies players
      ensures Valid() && Hands() == EmptyHands(|players|)
      ensures Scores() == old(Scores()) && Names() == old(Names())
    {
      ghost var scores, names := Scores(), Names();
      var i := 0;
      while i < |players|
        invariant 0 <= i <= |players| && Valid()
        invariant forall r :: 0 <= r < i ==> players[r].hand == []
        invariant forall r :: 0 <= r < |players| ==> players[r].score == scores[r] && players[r].name == names[r]
      {
        label Before:
        players[i].ClearCards();
        forall r | 0 <= r < |players| && r != i
          ensures players[r].hand == old@Before(players[r].hand)
        {
          assert players[r] != players[i] by {
            if r < i { assert players[r] != players[i]; } else { assert players[i] != players[r]; }
          }
        }
        i := i + 1;
      }
      ghost var handsNow, scoresNow, namesNow := Hands(), Scores(), Names();
      assert forall r :: 0 <= r < |handsNow| ==> handsNow[r] == EmptyHands(|players|)[r];
      assert handsNow == EmptyHands(|players|);
      assert forall r :: 0 <= r < |scoresNow| ==> scoresNow[r] == scores[r];
      assert scoresNow == scores;
      assert forall r :: 0 <= r < |namesNow| ==> namesNow[r] == names[r];
      assert namesNow == names;
    }

    /** True iff some player has at least 10 points; the first such player
        becomes the winner. */
    method IsThereAWinner() returns (found: bool)
      requires Valid()
      modifies this`winner
      ensures Valid()
      ensures found <==> exists i :: 0 <= i < |players| && Scores()[i] >= 10
      ensures found ==> 0 <= winner < |players| && Scores()[winner] >= 10
      ensures found ==> forall j :: 0 <= j < winner ==> Scores()[j] < 10
      ensures !found ==> winner == old(winner)
    {
      var i := 0;
      while i < |players|
        invariant 0 <= i <= |players|
        invariant forall j :: 0 <= j < i ==> players[j].score < 10
        invariant winner == old(winner)
      {
        if players[i].GetScore() >= 10 {
          winner := i;
          assert Scores()[i] >= 10;
          return true;
        }
        i := i + 1;
      }
      return false;
    }

    /** player.getCard(deck.deal()): moves the next undealt card to the end
        of player p's hand. */
    method GiveNextCard(p: nat) returns (card: Card)
      requires Valid() && p < |players| && !deck.Empty()
      modifies deck, players[p]
      ensures Valid() && deck.cards == old(deck.cards) && deck.topCard == old(deck.topCard) + 1
      ensures card == old(deck.cards[deck.topCard])
      ensures Hands() == old(Hands())[p := old(Hands())[p] + [card]]
      ensures Scores() == old(Scores()) && Names() == old(Names())
    {
      ghost var hands, scores, names := Hands(), Scores(), Names();
      card := deck.Deal();
      players[p].GetCard(card);
      forall r | 0 <= r < |players| && r != p
        ensures players[r].hand == hands[r] && players[r].score == scores[r] && players[r].name == names[r]
      {
        assert players[r] != players[p] by {
          if r < p { assert players[r] != players[p]; } else { assert players[p] != players[r]; }
        }
      }
      ghost var handsNow, scoresNow, namesNow := Hands(), Scores(), Names();
      assert forall r :: 0 <= r < |handsNow| ==> handsNow[r] == hands[p := hands[p] + [card]][r];
      assert handsNow == hands[p := hands[p] + [card]];
      assert forall r :: 0 <= r < |scoresNow| ==> scoresNow[r] == scores[r];
      assert scoresNow == scores;
      assert forall r :: 0 <= r < |namesNow| ==> namesNow[r] == names[r];
      assert namesNow == names;
    }

    /** Deals n cards, one at a time, to player p, or fails with
        OutOfCards as soon as the deck is empty; the cards given before
        the failure stay given. This is the inner loop shared by
        dealCards and the drawing half of exchangeCards. */
    method GiveCards(p: nat, n: int) returns (out: Outcome)
      requires Valid() && p < |players|
      modifies deck, players[p]
      ensures Valid() && deck.cards == old(deck.cards)
      ensures out.Pass? <==> Quota(n) <= |old(deck.Undealt())|
      ensures out.Fail? ==> out.error == OutOfCards
      ensures deck.topCard == old(deck.topCard) + Min(Quota(n), |old(deck.Undealt())|)
      ensures Hands() == old(Hands())[p := old(Hands())[p] + old(deck.Undealt())[..Min(Quota(n), |old(deck.Undealt())|)]]
      ensures Scores() == old(Scores()) && Names() == old(Names())
    {
      ghost var u, start, hands := deck.Undealt(), deck.topCard, Hands();
      assert hands[p] + u[..0] == hands[p];
      assert hands[p := hands[p] + u[..0]] == hands;
      var i := 0;
      while i < n
        invariant 0 <= i <= Quota(n) && i <= |u|
        invariant Valid() && deck.cards == old(deck.cards) && deck.topCard == start + i
        invariant Hands() == hands[p := hands[p] + u[..i]]
        invariant Scores() == old(Scores()) && Names() == old(Names())
      {
        if deck.Empty() {
          return Fail(OutOfCards);
        }
        var card := GiveNextCard(p);
        assert u[..i + 1] == u[..i] + [card];
        assert hands[p] + u[..i + 1] == (hands[p] + u[..i]) + [card];
        i := i + 1;
      }
      return Pass;
    }

    /** Deals numCardsToDeal cards to each player in turn, or fails with
        OutOfCards as soon as the deck is empty; the cards dealt before
        the failure stay dealt. */
    method DealCards() returns (out: Outcome)
      requires Valid()
      modifies deck, players
      ensures Valid() && deck.cards == old(deck.cards)
      ensures Scores() == old(Scores()) && Names() == old(Names())
      ensures out.Pass? <==> BlockStart(|players|, Quota(numCardsToDeal)) <= |old(deck.Undealt())|
      ensures out.Fail? ==> out.error == OutOfCards
      ensures deck.topCard == old(deck.topCard) + Min(BlockStart(|players|, Quota(numCardsToDeal)), |old(deck.Undealt())|)
      ensures Hands() == DealRound(old(Hands()), old(deck.Undealt()), Quota(numCardsToDeal))
    {
      ghost var u, start, q := deck.Undealt(), deck.topCard, Quota(numCardsToDeal);
      ghost var hands, scores, names := Hands(), Scores(), Names();
      DealRoundNothing(hands, u, q);
      var p := 0;
      while p < |players|
        invariant 0 <= p <= |players|
        invariant Valid() && deck.cards == old(deck.cards)
        invariant BlockStart(p, q) <= |u| && deck.topCard == start + BlockStart(p, q)
        invariant Hands() == DealRound(hands, u[..BlockStart(p, q)], q)
        invariant Scores() == scores && Names() == names
      {
        out := DealStep(p, hands, u);
        if out.Fail? {
          return;
        }
        p := p + 1;
      }
      DealRoundDone(hands, u, q);
      return Pass;
    }

    /** Player p's share of dealCards, stated against the shares that
        come before it: the hands so far are the first p blocks of the
        deal and the deck has given exactly those blocks. */
    method DealStep(p: nat, ghost hands: seq<seq<Card>>, ghost u: seq<Card>) returns (out: Outcome)
      requires Valid() && p < |players| && |hands| == |players|
      requires BlockStart(p, Quota(numCardsToDeal)) <= |u|
      requires deck.Undealt() == u[BlockStart(p, Quota(numCardsToDeal))..]
      requires Hands() == DealRound(hands, u[..BlockStart(p, Quota(numCardsToDeal))], Quota(numCardsToDeal))
      modifies deck, players[p]
      ensures Valid() && deck.cards == old(deck.cards)
      ensures Scores() == old(Scores()) && Names() == old(Names())
      ensures out.Pass? <==> BlockStart(p + 1, Quota(numCardsToDeal)) <= |u|
      ensures out.Pass? ==> deck.topCard == old(deck.topCard) + Quota(numCardsToDeal)
      ensures out.Pass? ==> Hands() == DealRound(hands, u[..BlockStart(p + 1, Quota(numCardsToDeal))], Quota(numCardsToDeal))
      ensures out.Fail? ==> out.error == OutOfCards && |u| < BlockStart(|players|, Quota(numCardsToDeal))
      ensures out.Fail? ==> deck.topCard == |deck.cards| && Hands() == DealRound(hands, u, Quota(numCardsToDeal))
    {
      DealRoundAdvance(hands, u, Quota(numCardsToDeal), p);
      out := GiveCards(p, numCardsToDeal);
    }

    /** player.discardCard(): removes the card at index i, the value rand()
        % hand.size() takes, from player p's hand. */
    method DiscardOne(p: nat, i: nat)
      requires Valid() && p < |players| && i < |players[p].hand|
      modifies players[p]
      ensures Valid()
      ensures Hands() == old(Hands())[p := Erase(old(Hands())[p], i)]
      ensures Scores() == old(Scores()) && Names() == old(Names())
    {
      ghost var hands, scores, names := Hands(), Scores(), Names();
      players[p].DiscardCard(i);
      forall r | 0 <= r < |players| && r != p
        ensures players[r].hand == hands[r] && players[r].score == scores[r] && players[r].name == names[r]
      {
        assert players[r] != players[p] by {
          if r < p { assert players[r] != players[p]; } else { assert players[p] != players[r]; }
        }
      }
      ghost var handsNow, scoresNow, namesNow := Hands(), Scores(), Names();
      assert forall r :: 0 <= r < |handsNow| ==> handsNow[r] == hands[p := Erase(hands[p], i)][r];
      assert handsNow == hands[p := Erase(hands[p], i)];
      assert forall r :: 0 <= r < |scoresNow| ==> scoresNow[r] == scores[r];
      assert scoresNow == scores;
      assert forall r :: 0 <= r < |namesNow| ==> namesNow[r] == names[r];
      assert namesNow == names;
    }

    /** The first loop of exchangeCards for player p: one discard per
        choice in picks, each at an index below the hand's size then. */
    method DiscardCards(p: nat, picks: seq<nat>)
      requires Valid() && p < |players| && DiscardPicks(|players[p].hand|, picks)
      modifies players[p]
      ensures Valid()
      ensures Hands() == old(Hands())[p := Discarded(old(Hands())[p], picks)]
      ensures Scores() == old(Scores()) && Names() == old(Names())
    {
      ghost var hands := Hands();
      assert picks[..0] == [];
      assert hands[p := hands[p]] == hands;
      var i := 0;
      while i < |picks|
        invariant 0 <= i <= |picks| && DiscardPicks(|hands[p]|, picks[..i])
        invariant Valid()
        invariant Hands() == hands[p := Discarded(hands[p], picks[..i])]
        invariant Scores() == old(Scores()) && Names() == old(Names())
      {
        assert picks[..i + 1][..i] == picks[..i];
        assert players[p].hand == Hands()[p];
        DiscardOne(p, picks[i]);
        i := i + 1;
      }
      assert picks[..i] == picks;
    }

    /** One turn of exchangeCards: player p discards at the indices in
        picks, then draws as many cards, or fails with OutOfCards as soon
        as the deck is empty. */
    method ExchangeTurn(p: nat, picks: seq<nat>) returns (out: Outcome)
      requires Valid() && p < |players| && DiscardPicks(|players[p].hand|, picks)
      modifies deck, players[p]
      ensures Valid() && deck.cards == old(deck.cards)
      ensures Scores() == old(Scores()) && Names() == old(Names())
      ensures out.Pass? <==> |picks| <= |old(deck.Undealt())|
      ensures out.Fail? ==> out.error == OutOfCards
      ensures deck.topCard == old(deck.topCard) + Min(|picks|, |old(deck.Undealt())|)
      ensures Hands() == old(Hands())[p := Discarded(old(Hands())[p], picks) + old(deck.Undealt())[..Min(|picks|, |old(deck.Undealt())|)]]
    {
      ghost var before, u := Hands(), deck.Undealt();
      DiscardCards(p, picks);
      ghost var kept := Discarded(before[p], picks);
      out := GiveCards(p, |picks|);
      UpdateTwice(before, p, kept, kept + u[..Min(|picks|, |u|)]);
    }

    /** Each player in turn discards |picks[p]| cards (the number rand() %
        (numCardsToDeal + 1) takes) and then draws as many, or fails with
        OutOfCards as soon as the deck is empty. */
    method ExchangeCards(picks: seq<seq<nat>>) returns (out: Outcome)
      requires Valid() && ValidPicks(Hands(), picks)
      modifies deck, players
      ensures Valid() && deck.cards == old(deck.cards)
      ensures Scores() == old(Scores()) && Names() == old(Names())
      ensures out.Pass? <==> DrawsBefore(picks, |picks|) <= |old(deck.Undealt())|
      ensures out.Fail? ==> out.error == OutOfCards
      ensures deck.topCard == old(deck.topCard) + Min(DrawsBefore(picks, |picks|), |old(deck.Undealt())|)
      ensures Hands() == ExchangeRound(old(Hands()), old(deck.Undealt()), picks)
    {
      ghost var u, start := deck.Undealt(), deck.topCard;
      ghost var hands, scores, names := Hands(), Scores(), Names();
      var p := 0;
      while p < |players|
        invariant 0 <= p <= |players|
        invariant Valid() && deck.cards == old(deck.cards)
        invariant DrawsBefore(picks, p) <= |u| && deck.topCard == start + DrawsBefore(picks, p)
        invariant deck.Undealt() == u[DrawsBefore(picks, p)..]
        invariant Hands() == ExchangeSteps(hands, u, picks, p)
        invariant Scores() == scores && Names() == names
      {
        out := ExchangeStep(p, picks, hands, u);
        if out.Fail? {
          assert deck.topCard == start + |u|;
          return;
        }
        p := p + 1;
      }
      assert ExchangeSteps(hands, u, picks, p) == ExchangeRound(hands, u, picks);
      return Pass;
    }

    /** Player p's turn within exchangeCards, stated against the
        turns that come before it: the hands so far are the first p turns
        of the exchange and the deck has given exactly their draws. */
    method ExchangeStep(p: nat, picks: seq<seq<nat>>, ghost hands: seq<seq<Card>>, ghost u: seq<Card>) returns (out: Outcome)
      requires Valid() && p < |players| && |hands| == |players| && ValidPicks(hands, picks)
      requires DrawsBefore(picks, p) <= |u| && deck.Undealt() == u[DrawsBefore(picks, p)..]
      requires Hands() == ExchangeSteps(hands, u, picks, p)
      modifies deck, players[p]
      ensures Valid() && deck.cards == old(deck.cards)
      ensures Scores() == old(Scores()) && Names() == old(Names())
      ensures Hands() == ExchangeSteps(hands, u, picks, p + 1)
      ensures out.Pass? <==> DrawsBefore(picks, p + 1) <= |u|
      ensures out.Pass? ==> deck.topCard == old(deck.topCard) + |picks[p]| && deck.Undealt() == u[DrawsBefore(picks, p + 1)..]
      ensures out.Fail? ==> out.error == OutOfCards && |u| < DrawsBefore(picks, |picks|)
      ensures out.Fail? ==> deck.topCard == |deck.cards| && Hands() == ExchangeRound(hands, u, picks)
    {
      assert players[p].hand == hands[p] by {
        ExchangeStepsAt(hands, u, picks, p, p);
      }
      ghost var cards, top := deck.cards, deck.topCard;
      DrawnByIsNext(u, picks, p);
      out := ExchangeTurn(p, picks[p]);
      assert Hands() == ExchangeSteps(hands, u, picks, p + 1);
      if out.Fail? {
        ExchangeStopsAt(hands, u, picks, p);
      } else {
        DropTwice(u, DrawsBefore(picks, p), |picks[p]|);
        DropTwice(cards, top, |picks[p]|);
      }
    }

    /** The hand value of each player, in player order. */
    method CollectValues() returns (values: seq<int>)
      ensures values == HandValues(Hands())
    {
      values := [];
      var p := 0;
      while p < |players|
        invariant 0 <= p <= |players|
        invariant values == HandValues(Hands())[..p]
      {
        var value := players[p].TotalValue();
        values := values + [value];
        p := p + 1;
      }
    }

    /** players[w].incrementScore(): player w gains one point and
        nothing else changes. */
    method AwardPoint(w: nat)
      requires Valid() && w < |players|
      modifies players[w]
      ensures Valid()
      ensures Scores() == old(Scores())[w := old(Scores())[w] + 1]
      ensures Hands() == old(Hands()) && Names() == old(Names())
      ensures unchanged(deck)
    {
      ghost var hands, scores, names := Hands(), Scores(), Names();
      players[w].IncrementScore();
      forall r | 0 <= r < |players| && r != w
        ensures players[r].hand == hands[r] && players[r].score == scores[r] && players[r].name == names[r]
      {
        assert players[r] != players[w] by {
          if r < w { assert players[r] != players[w]; } else { assert players[w] != players[r]; }
        }
      }
      ghost var handsNow, scoresNow, namesNow := Hands(), Scores(), Names();
      assert forall r :: 0 <= r < |handsNow| ==> handsNow[r] == hands[r];
      assert handsNow == hands;
      assert forall r :: 0 <= r < |scoresNow| ==> scoresNow[r] == scores[w := scores[w] + 1][r];
      assert scoresNow == scores[w := scores[w] + 1];
      assert forall r :: 0 <= r < |namesNow| ==> namesNow[r] == names[r];
      assert namesNow == names;
    }

    /** Scores the round: the one player whose hand value is strictly the
        highest gains a point; on a tie at the top nobody does. The
        dealer's winner field is not touched. */
    method UpdateScore()
      requires Valid()
      modifies players
      ensures Valid()
      ensures Hands() == old(Hands()) && Names() == old(Names())
      ensures RoundScored(old(Scores()), Scores(), HandValues(Hands()))
      ensures unchanged(deck)
    {
      var values := CollectValues();
      ScoreValues(values);
    }

    /** The scoring half of updateScore, given the hand values of the
        players in order. */
    method ScoreValues(values: seq<int>)
      requires Valid() && values == HandValues(Hands())
      modifies players
      ensures Valid()
      ensures Hands() == old(Hands()) && Names() == old(Names())
      ensures RoundScored(old(Scores()), Scores(), values)
      ensures unchanged(deck)
    {
      var winner, count := HighestValue(values);  // a local: the field keeps its value
      ghost var before := Scores();
      if count == 1 {
        AwardPoint(winner);
      }
      ghost var after := if count == 1 then before[winner := before[winner] + 1] else before;
      assert RoundScored(before, after, values) by {
        ScanDecidesRound(values, winner, count, before, after);
      }
    }
  }
}
