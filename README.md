# Card game: deck, players and dealer

A model of a small console card game. A `Deck` holds `nSuit * nNum` cards, each
a `(suit, num)` pair, built suit by suit, and a cursor `topCard` on the next card
to deal. A `Player` holds a hand, a name and a score that carries over from round
to round. A `Dealer` owns its own copies of a deck and of at least two players,
and plays rounds:

1. Every hand is cleared.
2. The deck is shuffled, Fisher-Yates style.
3. Each player in turn is dealt `numCardsToDeal` cards.
4. Each player in turn discards a random number of cards at random positions and
   then draws as many replacements.
5. The one player with the strictly highest hand value gains a point. On a tie at
   the top, nobody scores.

The game ends once some player has 10 points; the first such player is the
winner. A hand's value counts 10 for the ace (number 0) and for numbers 9 and up,
and `num + 1` for every other card.

The model keeps the program's form:

- `Deck`, `Player` and `Dealer` are classes whose methods change their fields.
- The loops are `while` loops with invariants.
- Every method is proved against reference functions on plain values, in the
  modules `DeckOrder`, `HandOps`, `RoundSpec` and `Scoring`:
  - `NewDeckOrder` is the order of a new deck.
  - `Shuffled` is the shuffle loop.
  - `Discarded` gives a hand after its discards.
  - `DealRound` and `ExchangeRound` give every hand after dealing and after
    exchanging.
  - `RoundScored` is the scoring rule.
- Lemmas then state what the game promises about those functions.

`rand()` is not modelled as a generator. Its results are passed in as arguments,
each bounded as the program's `%` bounds it:

- `js[i] <= i` for the shuffle.
- `picks[p]` lists player `p`'s discard indices. The `i`-th index is below the
  hand's size at that moment, and there are at most `numCardsToDeal` of them.

The exceptions the program throws are the values `Fail(OutOfCards)` and
`Err(NotEnoughPlayers)`. After an `OutOfCards`, the state is whatever the
interrupted loop left behind, as in the program.

A recurring invariant is `Dealer.Conserved`:

- Every card held by any player, counted with multiplicity, is among the cards
  dealt so far.
- Discarded cards leave the game; they never return to the deck.

## Model

| member | source | states |
|---|---|---|
| Cards.CardValue | CardGame/Source.cpp:74-79 | the ace and numbers from 9 up are worth 10, numbers 1..8 are worth one more than themselves; every real card is worth 2..10 |
| Cards.HandValue | CardGame/Source.cpp:71-82 | reference definition of a hand's value: the sum of its card values |
| Cards.HandValueAppend | CardGame/Source.cpp:71-82 | the value of two hands put together is the sum of their values |
| Cards.HandValuePermutation | CardGame/Source.cpp:71-82 | a hand's value does not depend on the order of its cards (equal multisets give equal values) |
| Cards.HandValueBounds | CardGame/Source.cpp:71-82 | a hand of real cards is worth between 2 and 10 per card |
| Cards.FaceHandValue | CardGame/Source.cpp:74-76 | an ace and the numbers 9, 10, 11, 12 are worth 50 together |
| Cards.LowHandValue | CardGame/Source.cpp:77-79 | the numbers 1 to 8 are worth 44 together |
| DeckOrder.SuitRow | CardGame/Source.cpp:26-28 | one suit's cards are the numbers 0..nNum-1 in increasing order |
| DeckOrder.NewDeckOrder | CardGame/Source.cpp:24-30 | reference order of a new deck: suit 0's row, then suit 1's, and so on (empty when nSuit <= 0) |
| DeckOrder.NewDeckSize | CardGame/Source.cpp:24-30 | a new deck holds nSuit * nNum cards, none when either count is not positive |
| DeckOrder.NewDeckPosition | CardGame/Source.cpp:25-29 | card (i, j) sits at position i * nNum + j |
| DeckOrder.NewDeckMembers | CardGame/Source.cpp:25-29 | a card is in a new deck iff 0 <= suit < nSuit and 0 <= num < nNum |
| DeckOrder.NewDeckDistinct | CardGame/Source.cpp:25-29 | a new deck has no repeated card |
| Decks.Deck.constructor | CardGame/Source.cpp:24-30 | the cards are the suit-major order of every (suit, num) pair and nothing is dealt |
| Decks.Deck.Copy | CardGame/Source.cpp:125 | the dealer's own deck has the same cards and cursor as the one it was given |
| DeckOrder.Swap | CardGame/Source.cpp:36-38 | the two positions are exchanged and every other position is kept |
| DeckOrder.ShuffleSteps | CardGame/Source.cpp:33-39 | the deck after the swap loop's steps 1 .. n-1, each swapping position i with js[i]; the length is kept |
| DeckOrder.Shuffled | CardGame/Source.cpp:33-41 | the deck after the whole swap loop |
| Decks.Deck.Shuffle | CardGame/Source.cpp:32-42 | the in-place loop produces Shuffled(old cards, js), keeps the size and the multiset of cards, and resets the cursor to 0 |
| DeckOrder.ShuffleStepsPermutes | CardGame/Source.cpp:33-39 | every prefix of the swap loop only rearranges the cards |
| DeckOrder.ShuffledPermutes | CardGame/Source.cpp:32-42 | a shuffle keeps the deck's size and its multiset of cards |
| DeckOrder.ShuffleReachesEveryOrder | CardGame/Source.cpp:33-39 | conversely, every rearrangement of the cards is the result of some choices js with js[i] <= i |
| DeckOrder.ShuffleKeepsDistinct | CardGame/Source.cpp:32-42 | a deck with no repeated card still has none after shuffling |
| Decks.Deck.Empty | CardGame/Source.cpp:51-53 | true iff no undealt card remains (the cursor is at the end) |
| Decks.Deck.Deal | CardGame/Source.cpp:44-49 | on a non-empty deck, returns the first undealt card, advances the cursor by exactly one and leaves the cards unchanged |
| Players.Player.constructor | CardGame/Source.cpp:69 | a new player has the given name, no cards and score 0 |
| Players.Player.Copy | CardGame/Source.cpp:125 | the dealer's own player has the same hand, name and score |
| Players.Player.TotalValue | CardGame/Source.cpp:71-82 | the loop's sum is HandValue(hand) |
| Players.Player.ClearCards | CardGame/Source.cpp:84-86 | the hand becomes empty; name and score are kept |
| Players.Player.IncrementScore | CardGame/Source.cpp:92-94 | the score rises by one; hand and name are kept |
| Players.Player.GetCard | CardGame/Source.cpp:96-98 | the card is appended at the end of the hand |
| Players.Player.DiscardCard | CardGame/Source.cpp:100-103 | the card at index i < hand size is removed, the rest keep their order (a subsequence), and exactly that card leaves the multiset |
| HandOps.Erase | CardGame/Source.cpp:102 | one card shorter; cards before i stay in place, cards after it move down by one; the multiset loses exactly hand[i] |
| HandOps.EraseIsSubsequence | CardGame/Source.cpp:102 | erasing one card leaves a subsequence of the hand |
| HandOps.Discarded | CardGame/Source.cpp:175-177 | a run of k discards leaves |hand| - k cards |
| HandOps.DiscardedIsSubsequence | CardGame/Source.cpp:175-177 | after any run of discards, the cards left are a subsequence and a sub-multiset of the hand |
| Dealers.Dealer.constructor | CardGame/Source.cpp:125-127 | with at least two players, the dealer holds fresh, equal copies of the deck and of every player, and the given hand size |
| Dealers.Dealer.Create | CardGame/Source.cpp:125-127 | fails with NotEnoughPlayers iff fewer than two players are given; otherwise builds a dealer holding equal copies and the hand size |
| Dealers.Dealer.Play | CardGame/Source.cpp:129-139 | after a round the deck is Shuffled(old, js) and every held card is a dealt one; the round passes iff the deck holds enough cards for the deal and every draw; the hands are RoundHands of the shuffled deck, the partial deal or exchange included when the deck runs out; the cursor is past the deal and every draw on a pass and at the end of the deck on OutOfCards; on a pass the scores follow RoundScored, on OutOfCards they are unchanged; names never change |
| Dealers.Dealer.StartRound | CardGame/Source.cpp:131-134 | every hand is emptied, the deck is shuffled and restarted, scores and names are kept |
| Dealers.Dealer.ClearHands | CardGame/Source.cpp:131-133 | every hand is emptied, scores and names are kept |
| Dealers.Dealer.PlayShuffled | CardGame/Source.cpp:136-138 | on a shuffled deck with empty hands: deal, exchange and score, with the outcome, cursor, hands and scores as in Play |
| Dealers.Dealer.DealAndExchange | CardGame/Source.cpp:136-137 | dealing then exchanging passes iff the deck suffices for both; the hands are RoundHands, including after OutOfCards; the cursor is past the deal and every draw, or at the end of the deck on OutOfCards; every held card is a dealt one; scores are kept |
| Dealers.Dealer.DealShuffled | CardGame/Source.cpp:136 | dealing to empty hands passes iff |players| * q cards exist; the hands are DealRound of the deck, the partial deal included on OutOfCards; the cursor is at |players| * q, or at the end on OutOfCards; every held card is a dealt one |
| Dealers.Dealer.ExchangeDealt | CardGame/Source.cpp:137 | exchangeCards on hands that hold only dealt cards: the hands become ExchangeRound of the undealt cards, the cursor advances by every draw or to the end on OutOfCards, and every held card is still a dealt one |
| Dealers.Dealer.IsThereAWinner | CardGame/Source.cpp:141-149 | true iff some score is at least 10; then winner is the smallest such index; otherwise winner is unchanged; nothing else changes |
| Dealers.Dealer.GiveNextCard | CardGame/Source.cpp:163 | the next undealt card moves to the end of player p's hand and the cursor advances by one |
| Dealers.Dealer.GiveCards | CardGame/Source.cpp:158-165 | player p receives the next n undealt cards (or what is left of them) in order; it fails iff fewer than n remain |
| Dealers.Dealer.DealCards | CardGame/Source.cpp:156-167 | the hands become DealRound(old hands, old undealt cards, q); the cursor advances by |players| * q (or to the end); fails with OutOfCards iff fewer than |players| * q cards remain |
| Dealers.Dealer.DealStep | CardGame/Source.cpp:157-166 | one pass of the outer loop: player p's block is appended to its hand, or the deck runs out and the whole deal is what was dealt |
| RoundSpec.Quota | CardGame/Source.cpp:158 | the number of cards the dealing loop gives each player: numCardsToDeal, or none when it is negative |
| RoundSpec.DealtTo | CardGame/Source.cpp:157-165 | the cards player r receives: block r of q consecutive undealt cards, cut short where the cards run out |
| RoundSpec.BlockStartIsProduct | CardGame/Source.cpp:157-158 | player r's cards start r * q cards into the deal |
| RoundSpec.DealRound | CardGame/Source.cpp:156-167 | each hand is the old hand followed by exactly the cards dealt to that player |
| RoundSpec.DealtToWhole | CardGame/Source.cpp:157-165 | when enough cards remain, player r receives exactly the q consecutive cards of block r |
| RoundSpec.DealStoppedAt | CardGame/Source.cpp:159-160 | when the cards run out inside player p's block, p keeps what it got, later players get nothing, and no full deal would have fitted |
| RoundSpec.DealtInOrder | CardGame/Source.cpp:156-167 | the dealt cards in player order are the first p * q undealt cards (or all of them): nothing skipped, nothing dealt twice |
| RoundSpec.DealRoundFull | CardGame/Source.cpp:156-167 | when the deck suffices, every hand grows by exactly q cards, namely its own block |
| RoundSpec.DealRoundAdvance | CardGame/Source.cpp:157-165 | one turn of the dealing loop moves to the next player, or, when the cards run out, has produced the whole deal |
| RoundSpec.PooledDealRound | CardGame/Source.cpp:156-167 | the deal adds to the hands exactly the multiset of the cards taken from the top |
| RoundSpec.DealKeepsConserved | CardGame/Source.cpp:156-167 | if the held cards were among the dealt ones before dealing, they are among the dealt ones after it |
| RoundSpec.DealOneKeepsConserved | CardGame/Source.cpp:163 | giving one dealt card to one player keeps every held card among the dealt ones |
| Dealers.Dealer.DiscardOne | CardGame/Source.cpp:176 | player p's hand loses the card at index i; nothing else changes |
| Dealers.Dealer.DiscardCards | CardGame/Source.cpp:175-177 | player p's hand becomes Discarded(old hand, picks); nothing else changes |
| Dealers.Dealer.ExchangeTurn | CardGame/Source.cpp:172-185 | player p first discards at every pick, then draws as many cards (or what is left), in order; fails iff fewer remain |
| Dealers.Dealer.ExchangeCards | CardGame/Source.cpp:169-187 | the hands become ExchangeRound(old hands, old undealt cards, picks); the cursor advances by the total number of exchanged cards (or to the end); fails iff the deck cannot cover every draw |
| Dealers.Dealer.ExchangeStep | CardGame/Source.cpp:170-186 | one pass of the outer loop: the hands so far are the first p + 1 turns, or the deck ran out and they are the whole round |
| RoundSpec.DrawnBy | CardGame/Source.cpp:178-185 | the replacement cards player r draws: the next |picks[r]| undealt cards after the earlier players' draws, cut short at the end of the deck |
| RoundSpec.ExchangedHand | CardGame/Source.cpp:175-185 | one player's hand after its turn: its discards, then its draws; unchanged when the deck ran out before its turn |
| RoundSpec.ExchangeSteps | CardGame/Source.cpp:170-186 | the hands after the loop's first p turns, each turn replacing one player's hand; the number of hands is kept |
| RoundSpec.ExchangeRound | CardGame/Source.cpp:169-187 | the hands after the whole exchange loop |
| RoundSpec.ExchangeComplete | CardGame/Source.cpp:169-187 | when the deck covers every draw, each player is reached and draws exactly as many cards as it discarded, from its own block |
| RoundSpec.ExchangeKeepsHandShape | CardGame/Source.cpp:173-185 | an exchange keeps the hand size, its last k cards are exactly the drawn ones, and the first |hand| - k form a subsequence of the old hand |
| RoundSpec.ExchangeStepsAt | CardGame/Source.cpp:170-186 | after p turns of the loop, the players handled hold their exchanged hands and the others their old ones |
| RoundSpec.ExchangeRoundAt | CardGame/Source.cpp:169-187 | after the round every player holds its discards followed by its draws, or its old hand if the deck ran out before its turn |
| RoundSpec.ExchangeStepsFrozen | CardGame/Source.cpp:179-180 | once the draws have run the deck out, later turns change nothing |
| RoundSpec.ExchangeStopsAt | CardGame/Source.cpp:179-180 | when player p's draws run the deck out, the loop's hands are the whole round's and the round's draws did not fit |
| RoundSpec.ExchangedHandWithin | CardGame/Source.cpp:175-185 | after its exchange a player holds only cards it held or drew |
| RoundSpec.PooledExchangeSteps | CardGame/Source.cpp:169-187 | the exchange brings into the hands no card other than those drawn from the top |
| RoundSpec.ExchangeKeepsConserved | CardGame/Source.cpp:169-187 | if the held cards were among the dealt ones before the exchange, they are among the dealt ones after it |
| RoundSpec.DiscardLeavesPool | CardGame/Source.cpp:100-103 | a discarded card leaves the pool of held cards and goes nowhere else |
| RoundSpec.HeldCardsAreDealt | CardGame/Source.cpp:44-53 | with a deck without repeats, no card is held twice and no undealt card is held |
| RoundSpec.RoundHands | CardGame/Source.cpp:156-187 | the hands at the end of dealing and exchanging from the shuffled deck: the partial deal when the deck is too short for the deal, otherwise the deal followed by the exchange round |
| RoundSpec.DealtPicksFit | CardGame/Source.cpp:156-172 | after a complete deal every hand holds q cards, so discard choices made for q cards fit every hand |
| RoundSpec.RoundHandSizes | CardGame/Source.cpp:156-187 | in a round that completes, RoundHands holds one hand per player and every player ends with exactly q cards |
| RoundSpec.EmptyHands | CardGame/Source.cpp:131-133 | n hands, each empty |
| RoundSpec.PooledUpdate | CardGame/Source.cpp:96-103 | replacing one hand changes the pool of held cards by exactly that hand's difference |
| RoundSpec.HandValues | CardGame/Source.cpp:190-195 | one value per player, each the value of that player's hand |
| Dealers.Dealer.CollectValues | CardGame/Source.cpp:190-195 | the values are HandValues of the hands, in player order |
| Scoring.RoundScored | CardGame/Source.cpp:211-215 | the scoring rule: a value strictly above all others gives its holder one point; when no value is, the scores stay as they were |
| Scoring.HighestValue | CardGame/Source.cpp:196-209 | the scan returns the first index holding the highest value and the number of players holding it; the count is 1 iff that index is strictly above every other |
| Scoring.SingleHighestIsUnique | CardGame/Source.cpp:211-212 | for a highest value, being its only holder is the same as being strictly above everyone else |
| Scoring.ScanDecidesRound | CardGame/Source.cpp:211-215 | awarding a point when the count is 1, and nothing otherwise, is exactly RoundScored |
| Dealers.Dealer.AwardPoint | CardGame/Source.cpp:213 | player w's score rises by one; no other score, hand, name or deck field changes |
| Dealers.Dealer.ScoreValues | CardGame/Source.cpp:196-215 | the scores follow RoundScored for the given values; the dealer's winner field and the deck are untouched |
| Dealers.Dealer.UpdateScore | CardGame/Source.cpp:189-216 | the unique highest hand gains a point and nobody else's score changes; on a tie at the top no score changes; hands, names, the deck and the winner field are kept |
| Scoring.TotalIncrement | CardGame/Source.cpp:92-94 | one more point for one player is one more point in total |
| Scoring.RoundAddsAtMostOne | CardGame/Source.cpp:211-215 | a round raises the total score by at most one and never lowers it |
| Scoring.TieAtTopScoresNobody | CardGame/Source.cpp:206-212 | values 12, 15, 15, 10 have no unique maximum, so nobody scores |
| Scoring.SingleTopScores | CardGame/Source.cpp:201-213 | values 12, 18, 15, 10 have the unique maximum at player 1 |

## Left out

- Console output is not modelled: `printCards`, `printHand`, `printWinner` and the `cout` lines in `updateScore`.
- `main` is not modelled: seeding with `srand(time(nullptr))`, the fixed four players and 4 x 13 deck, and the `while (!isThereAWinner())` loop, whose termination depends on the random choices.
- `rand()` is not modelled; its values are arguments with the bounds `%` gives them. Uniformity and modulo bias are out of scope.
- The default constructors `Card()` and `Deck()` leave fields uninitialised and are not modelled.
- `getName` is a plain field read and is used as the field `name`; `getScore` is `Players.Player.GetScore`.
- The `winner` field is set to -1 by the constructor. The program leaves it uninitialised, and `printWinner` reads it.
- Copies by value (`const Deck&`, `const vector<Player>&` into members) become fresh objects with equal fields. The caller's objects are never changed.
- Dealers.Dealer.constructor requires at least two players. The throwing path is `Dealers.Dealer.Create`, which returns `Err(NotEnoughPlayers)` instead.
- A negative `numCardsToDeal` makes the dealing loop give nothing (`Quota` is 0), so every hand is empty when the exchange starts.
  - The program's `rand() % (numCardsToDeal + 1)` divides by zero when `numCardsToDeal` is -1.
  - For `numCardsToDeal <= -2`, C++ `%` takes the sign of the dividend, so the exchange count lies between 0 and `-numCardsToDeal - 2`; for -3 or below it can be positive. A positive count then calls `discardCard` on an empty hand, where `rand() % hand.size()` divides by zero.
  - Both division-by-zero cases are undefined behaviour and are not modelled: `Play` requires at most `Quota(numCardsToDeal)` discards per player, so with a negative `numCardsToDeal` only an exchange count of 0, the one well-defined outcome, is admitted.
- `int` overflow of scores, hand values and the cursor is not modelled; integers are unbounded.
- Several methods are split out of the program's loops and calls, each proved with its own contract: `GiveNextCard`, `GiveCards`, `DealStep`, `DiscardOne`, `DiscardCards`, `ExchangeTurn`, `ExchangeStep`, `StartRound`, `ClearHands`, `PlayShuffled`, `DealAndExchange`, `DealShuffled`, `ExchangeDealt`, `CollectValues`, `ScoreValues` and `AwardPoint`.
- Decks.Deck: the vector of cards is a `seq` field that the shuffle reassigns swap by swap, not an array updated in place.
- Dealers.Dealer.DealCards: does not state that every held card stays among the dealt ones. That follows from its result through `RoundSpec.DealKeepsConserved`, and `Play` states it.
- Dealers.Dealer.ExchangeCards: likewise, conservation follows through `RoundSpec.ExchangeKeepsConserved`.
- Dealers.Dealer.GiveCards: does not state that held cards stay among the dealt ones. The model proves that only for the whole deal and the whole exchange, which contain every card `GiveCards` gives.
- Dealers.Dealer.GiveNextCard: does not state it either. `RoundSpec.DealOneKeepsConserved` states the fact for one dealt card on values, but no method applies it.
