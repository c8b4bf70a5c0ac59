/** Reference definitions for one round's dealing and exchanging, on
    plain values: what each player receives from the undealt cards, and
    the multiset of all cards held. */
module RoundSpec {
  import opened Cards
  import opened HandOps

  /** How many cards the dealing loop gives each player: it runs
      numCardsToDeal times, so not at all when that is negative. */
  function Quota(numCardsToDeal: int): nat
  {
    if numCardsToDeal < 0 then 0 else numCardsToDeal
  }

  function Min(a: int, b: int): int
  {
    if a <= b then a else b
  }

  lemma MulSucc(a: int, n: int)
    ensures (a + 1) * n == a * n + n
  {
  }

  /** Where player r's block starts among the undealt cards when each
      player receives q cards: r blocks of q come before it. */
  function BlockStart(r: nat, q: nat): nat
  {
    if r == 0 then 0 else BlockStart(r - 1, q) + q
  }

  /** The r-th block starts at r * q. */
  lemma {:induction false} BlockStartIsProduct(r: nat, q: nat)
    ensures BlockStart(r, q) == r * q
  {
    if r > 0 {
      BlockStartIsProduct(r - 1, q);
      MulSucc(r - 1, q);
    }
  }

  /** Later blocks start after earlier ones end. */
  lemma {:induction false} BlockStartMonotone(a: nat, b: nat, q: nat)
    requires a < b
    ensures BlockStart(a, q) + q <= BlockStart(b, q)
    decreases b - a
  {
    if a + 1 < b {
      BlockStartMonotone(a + 1, b, q);
    }
  }

  /** The cards player r receives when the undealt cards u are dealt q at
      a time to each player in turn, stopping where u runs out. */
  function DealtTo(u: seq<Card>, q: nat, r: nat): seq<Card>
  {
    u[Min(BlockStart(r, q), |u|)..Min(BlockStart(r, q) + q, |u|)]
  }

  /** Everything players 0 .. p-1 receive, in player order. */
  function DealtToFirst(u: seq<Card>, q: nat, p: nat): seq<Card>
  {
    if p == 0 then [] else DealtToFirst(u, q, p - 1) + DealtTo(u, q, p - 1)
  }

  /** When enough cards remain, player r receives exactly q cards: the
      r-th block of q consecutive undealt cards. */
  lemma DealtToWhole(u: seq<Card>, q: nat, r: nat)
    requires (r + 1) * q <= |u|
    ensures DealtTo(u, q, r) == u[r * q..(r + 1) * q]
    ensures |DealtTo(u, q, r)| == q
  {
    BlockStartIsProduct(r, q);
    MulSucc(r, q);
  }

  /** When the deck runs out while player p has received i < q of its
      cards, player p keeps what it got, later players receive nothing,
      and no deal to more than p players would have fitted. */
  lemma DealStoppedAt(u: seq<Card>, q: nat, p: nat, i: nat)
    requires BlockStart(p, q) + i == |u| && i < q
    ensures DealtTo(u, q, p) == u[BlockStart(p, q)..]
    ensures forall r: nat :: p < r ==> DealtTo(u, q, r) == []
    ensures forall n: nat :: p < n ==> |u| < BlockStart(n, q)
  {
    forall r: nat | p < r ensures |u| < BlockStart(r, q) {
      BlockStartMonotone(p, r, q);
    }
  }

  /** Dealing from the first k cards only: the blocks are cut at k. */
  lemma DealtToCut(u: seq<Card>, q: nat, r: nat, k: nat)
    requires k <= |u|
    ensures DealtTo(u[..k], q, r) == u[Min(BlockStart(r, q), k)..Min(BlockStart(r, q) + q, k)]
  {
  }

  /** Every player's hand after the deal: its old hand followed by the
      cards it receives from u. */
  function DealRound(hands: seq<seq<Card>>, u: seq<Card>, q: nat): (dealt: seq<seq<Card>>)
    ensures |dealt| == |hands|
    ensures forall r :: 0 <= r < |hands| ==> dealt[r] == hands[r] + DealtTo(u, q, r)
  {
    seq(|hands|, r requires 0 <= r < |hands| => hands[r] + DealtTo(u, q, r))
  }

  /** Dealing from no cards changes nothing. */
  lemma DealRoundNothing(hands: seq<seq<Card>>, u: seq<Card>, q: nat)
    ensures DealRound(hands, u[..0], q) == hands
  {
    assert forall r :: 0 <= r < |hands| ==> DealRound(hands, u[..0], q)[r] == hands[r];
  }

  /** A player seated before p already holds a full block: cards dealt
      into p's block do not reach them. */
  lemma DealtToBefore(u: seq<Card>, q: nat, p: nat, m: nat, r: nat)
    requires m <= q && BlockStart(p, q) + m <= |u| && r < p
    ensures var k := BlockStart(p, q); DealtTo(u[..k + m], q, r) == DealtTo(u[..k], q, r)
  {
    var k := BlockStart(p, q);
    DealtToCut(u, q, r, k);
    DealtToCut(u, q, r, k + m);
    BlockStartMonotone(r, p, q);
  }

  /** A player seated after p has received nothing yet, before or after
      cards are dealt into p's block. */
  lemma DealtToAfter(u: seq<Card>, q: nat, p: nat, m: nat, r: nat)
    requires m <= q && BlockStart(p, q) + m <= |u| && p < r
    ensures var k := BlockStart(p, q); DealtTo(u[..k + m], q, r) == DealtTo(u[..k], q, r) == []
  {
    var k := BlockStart(p, q);
    DealtToCut(u, q, r, k);
    DealtToCut(u, q, r, k + m);
    BlockStartMonotone(p, r, q);
  }

  /** Player p's share is the first m cards of its block once they are
      dealt, and nothing before. */
  lemma DealtToAt(u: seq<Card>, q: nat, p: nat, m: nat)
    requires m <= q && BlockStart(p, q) + m <= |u|
    ensures var k := BlockStart(p, q);
      DealtTo(u[..k], q, p) == [] && DealtTo(u[..k + m], q, p) == u[k..k + m]
  {
    var k := BlockStart(p, q);
    DealtToCut(u, q, p, k);
    DealtToCut(u, q, p, k + m);
  }

  /** Player p's hand gains exactly the first m cards of its block. */
  lemma DealRoundGrows(hands: seq<seq<Card>>, u: seq<Card>, q: nat, p: nat, m: nat)
    requires p < |hands| && m <= q && BlockStart(p, q) + m <= |u|
    ensures var k := BlockStart(p, q);
      DealRound(hands, u[..k + m], q)[p] == DealRound(hands, u[..k], q)[p] + u[k..k + m]
  {
    var k := BlockStart(p, q);
    DealtToAt(u, q, p, m);
    var before, after := DealRound(hands, u[..k], q), DealRound(hands, u[..k + m], q);
    assert after[p] == hands[p] + u[k..k + m];
    assert hands[p] + [] == hands[p];
    assert before[p] == hands[p];
  }

  /** Player r's hand, for r other than p, is untouched by p's block. */
  lemma DealRoundKeeps(hands: seq<seq<Card>>, u: seq<Card>, q: nat, p: nat, m: nat, r: nat)
    requires p < |hands| && m <= q && BlockStart(p, q) + m <= |u| && r < |hands| && r != p
    ensures var k := BlockStart(p, q);
      DealRound(hands, u[..k + m], q)[r] == DealRound(hands, u[..k], q)[r]
  {
    var k := BlockStart(p, q);
    if r < p {
      DealtToBefore(u, q, p, m, r);
    } else {
      DealtToAfter(u, q, p, m, r);
    }
    assert DealRound(hands, u[..k + m], q)[r] == hands[r] + DealtTo(u[..k + m], q, r);
    assert DealRound(hands, u[..k], q)[r] == hands[r] + DealtTo(u[..k], q, r);
  }

  /** The same, for every other player at once. */
  lemma DealRoundKeepsOthers(hands: seq<seq<Card>>, u: seq<Card>, q: nat, p: nat, m: nat)
    requires p < |hands| && m <= q && BlockStart(p, q) + m <= |u|
    ensures var k := BlockStart(p, q);
      forall r :: 0 <= r < |hands| && r != p ==> DealRound(hands, u[..k + m], q)[r] == DealRound(hands, u[..k], q)[r]
  {
    var k := BlockStart(p, q);
    forall r | 0 <= r < |hands| && r != p
      ensures DealRound(hands, u[..k + m], q)[r] == DealRound(hands, u[..k], q)[r]
    {
      DealRoundKeeps(hands, u, q, p, m, r);
    }
  }

  /** Dealing the first m cards of player p's block appends them to player
      p's hand and changes no other hand. */
  lemma DealRoundBlock(hands: seq<seq<Card>>, u: seq<Card>, q: nat, p: nat, m: nat)
    requires p < |hands| && m <= q && BlockStart(p, q) + m <= |u|
    ensures var k := BlockStart(p, q);
      DealRound(hands, u[..k + m], q) == DealRound(hands, u[..k], q)[p := DealRound(hands, u[..k], q)[p] + u[k..k + m]]
  {
    DealRoundKeepsOthers(hands, u, q, p, m);
    DealRoundGrows(hands, u, q, p, m);
  }

  /** Once every block has been dealt, the partial deal is the whole deal. */
  lemma DealRoundDone(hands: seq<seq<Card>>, u: seq<Card>, q: nat)
    requires BlockStart(|hands|, q) <= |u|
    ensures DealRound(hands, u[..BlockStart(|hands|, q)], q) == DealRound(hands, u, q)
  {
    var k := BlockStart(|hands|, q);
    forall r | 0 <= r < |hands| ensures DealtTo(u[..k], q, r) == DealtTo(u, q, r) {
      BlockStartMonotone(r, |hands|, q);
    }
  }

  /** When the cards run out inside player p's block, the partial deal is
      the whole deal, and a full deal to every player would not have fitted. */
  lemma DealRoundStopped(hands: seq<seq<Card>>, u: seq<Card>, q: nat, p: nat, i: nat)
    requires p < |hands| && BlockStart(p, q) + i == |u| && i < q
    ensures |u| < BlockStart(|hands|, q)
    ensures DealRound(hands, u[..BlockStart(p, q) + i], q) == DealRound(hands, u, q)
  {
    DealStoppedAt(u, q, p, i);
    assert u[..BlockStart(p, q) + i] == u;
  }

  /** One turn of the dealing loop: player p receives the next q cards,
      or what is left of them. The loop either moves on to player p + 1
      or, when the cards ran out, has produced the whole deal, and a full
      deal to every player would not have fitted. */
  lemma DealRoundAdvance(hands: seq<seq<Card>>, u: seq<Card>, q: nat, p: nat)
    requires p < |hands| && BlockStart(p, q) <= |u|
    ensures var k, m := BlockStart(p, q), Min(q, |u| - BlockStart(p, q));
      var before := DealRound(hands, u[..k], q);
      var after := before[p := before[p] + u[k..][..m]];
      && (q <= |u| - k ==> BlockStart(p + 1, q) <= |u| && after == DealRound(hands, u[..BlockStart(p + 1, q)], q))
      && (|u| - k < q ==> |u| < BlockStart(|hands|, q) && after == DealRound(hands, u, q))
  {
    var k, m := BlockStart(p, q), Min(q, |u| - BlockStart(p, q));
    assert u[k..][..m] == u[k..k + m];
    DealRoundBlock(hands, u, q, p, m);
    if m < q {
      DealRoundStopped(hands, u, q, p, m);
    }
  }

  /** The dealt cards, read in player order, are the first p * q undealt
      cards (or all of them when they run out): nothing is skipped and
      nothing is dealt twice. */
  lemma {:induction false} DealtInOrder(u: seq<Card>, q: nat, p: nat)
    ensures DealtToFirst(u, q, p) == u[..Min(p * q, |u|)]
  {
    BlockStartIsProduct(p, q);
    if p > 0 {
      DealtInOrder(u, q, p - 1);
      BlockStartIsProduct(p - 1, q);
      assert u[..Min(BlockStart(p, q), |u|)] == u[..Min(BlockStart(p - 1, q), |u|)] + DealtTo(u, q, p - 1);
    }
  }

  /** Number of replacement cards drawn by players 0 .. r-1 (picks[i] lists
      player i's discard choices, one per exchanged card). */
  function DrawsBefore(picks: seq<seq<nat>>, r: nat): nat
    requires r <= |picks|
  {
    if r == 0 then 0 else DrawsBefore(picks, r - 1) + |picks[r - 1]|
  }

  lemma {:induction false} DrawsBeforeMonotone(picks: seq<seq<nat>>, a: nat, b: nat)
    requires a <= b <= |picks|
    ensures DrawsBefore(picks, a) + (if a < b then |picks[a]| else 0) <= DrawsBefore(picks, b)
    decreases b - a
  {
    if a < b {
      DrawsBeforeMonotone(picks, a + 1, b);
      if a + 1 < b {
        assert DrawsBefore(picks, a + 1) <= DrawsBefore(picks, b);
      }
    }
  }

  /** Player r is reached by the exchange loop when no earlier player ran
      the deck out. */
  predicate Reached(u: seq<Card>, picks: seq<seq<nat>>, r: nat)
    requires r <= |picks|
  {
    DrawsBefore(picks, r) <= |u|
  }

  /** The replacement cards player r draws from the undealt cards u: the
      block after the earlier players' draws, cut short at the end of u. */
  function DrawnBy(u: seq<Card>, picks: seq<seq<nat>>, r: nat): seq<Card>
    requires r < |picks|
  {
    var start := DrawsBefore(picks, r);
    u[Min(start, |u|)..Min(start + |picks[r]|, |u|)]
  }

  /** Player r's hand after the exchange: its discards, then its draws; a
      player the loop did not reach keeps its hand. */
  function ExchangedHand(hand: seq<Card>, u: seq<Card>, picks: seq<seq<nat>>, r: nat): seq<Card>
    requires r < |picks| && DiscardPicks(|hand|, picks[r])
  {
    if Reached(u, picks, r) then Discarded(hand, picks[r]) + DrawnBy(u, picks, r) else hand
  }

  /** When the deck suffices for every draw, every player is reached and
      draws exactly as many cards as it discarded, from its own block. */
  lemma ExchangeComplete(u: seq<Card>, picks: seq<seq<nat>>, r: nat)
    requires DrawsBefore(picks, |picks|) <= |u| && r < |picks|
    ensures Reached(u, picks, r)
    ensures DrawsBefore(picks, r + 1) <= |u|
    ensures DrawnBy(u, picks, r) == u[DrawsBefore(picks, r)..DrawsBefore(picks, r + 1)]
    ensures |DrawnBy(u, picks, r)| == |picks[r]|
  {
    DrawsBeforeMonotone(picks, r + 1, |picks|);
  }

  /** An exchange keeps the hand size and puts the drawn cards last, after
      a subsequence of the old hand. */
  lemma ExchangeKeepsHandShape(hand: seq<Card>, u: seq<Card>, picks: seq<seq<nat>>, r: nat)
    requires r < |picks| && DiscardPicks(|hand|, picks[r])
    requires DrawsBefore(picks, |picks|) <= |u|
    ensures |ExchangedHand(hand, u, picks, r)| == |hand|
    ensures ExchangedHand(hand, u, picks, r)[|hand| - |picks[r]|..] == DrawnBy(u, picks, r)
    ensures IsSubsequence(ExchangedHand(hand, u, picks, r)[..|hand| - |picks[r]|], hand)
  {
    ExchangeComplete(u, picks, r);
    DiscardedIsSubsequence(hand, picks[r]);
    var kept := Discarded(hand, picks[r]);
    assert (kept + DrawnBy(u, picks, r))[..|hand| - |picks[r]|] == kept;
  }

  /** Discard choices that fit every player's hand, one list per player. */
  predicate ValidPicks(hands: seq<seq<Card>>, picks: seq<seq<nat>>)
  {
    |picks| == |hands| && forall r :: 0 <= r < |hands| ==> DiscardPicks(|hands[r]|, picks[r])
  }

  /** The hands once the exchange loop has handled players 0 .. p-1, turn
      by turn: a reached player discards and then draws the next cards,
      as many as it discarded or what is left of them. */
  function ExchangeSteps(hands: seq<seq<Card>>, u: seq<Card>, picks: seq<seq<nat>>, p: nat): (after: seq<seq<Card>>)
    requires ValidPicks(hands, picks) && p <= |hands|
    ensures |after| == |hands|
    decreases p
  {
    if p == 0 then hands
    else
      var before, r := ExchangeSteps(hands, u, picks, p - 1), p - 1;
      if Reached(u, picks, r) then before[r := Discarded(hands[r], picks[r]) + DrawnBy(u, picks, r)]
      else before
  }

  /** Every player's hand after the exchange round, drawing from the
      undealt cards u. */
  function ExchangeRound(hands: seq<seq<Card>>, u: seq<Card>, picks: seq<seq<nat>>): seq<seq<Card>>
    requires ValidPicks(hands, picks)
  {
    ExchangeSteps(hands, u, picks, |hands|)
  }

  /** The turn-by-turn loop agrees with the per-player description: the
      players already handled hold their exchanged hands, the others
      their old ones. */
  lemma {:induction false} ExchangeStepsAt(hands: seq<seq<Card>>, u: seq<Card>, picks: seq<seq<nat>>, p: nat, r: nat)
    requires ValidPicks(hands, picks) && p <= |hands| && r < |hands|
    ensures ExchangeSteps(hands, u, picks, p)[r] == if r < p then ExchangedHand(hands[r], u, picks, r) else hands[r]
    decreases p
  {
    if p > 0 {
      ExchangeStepsAt(hands, u, picks, p - 1, r);
    }
  }

  /** A reached player draws the next |picks[r]| undealt cards, or what is
      left of them. */
  lemma DrawnByIsNext(u: seq<Card>, picks: seq<seq<nat>>, r: nat)
    requires r < |picks| && Reached(u, picks, r)
    ensures var k := DrawsBefore(picks, r);
      DrawnBy(u, picks, r) == u[k..][..Min(|picks[r]|, |u| - k)]
  {
    var k := DrawsBefore(picks, r);
    var m := Min(|picks[r]|, |u| - k);
    DrawnByAt(u, picks, r, k, m);
    TakeOfDrop(u, k, m);
  }

  lemma DrawnByAt(u: seq<Card>, picks: seq<seq<nat>>, r: nat, k: nat, m: nat)
    requires r < |picks| && k == DrawsBefore(picks, r) && k <= |u| && m == Min(|picks[r]|, |u| - k)
    ensures DrawnBy(u, picks, r) == u[k..k + m]
  {
  }

  /** The first m cards after the first k are the cards from k to k + m. */
  lemma TakeOfDrop(u: seq<Card>, k: nat, m: nat)
    requires k + m <= |u|
    ensures u[k..][..m] == u[k..k + m]
  {
  }

  /** After the exchange round, player r holds its exchanged hand: its
      discards, then its draws, or its old hand when the deck ran out
      before its turn. */
  lemma ExchangeRoundAt(hands: seq<seq<Card>>, u: seq<Card>, picks: seq<seq<nat>>, r: nat)
    requires ValidPicks(hands, picks) && r < |hands|
    ensures |ExchangeRound(hands, u, picks)| == |hands|
    ensures ExchangeRound(hands, u, picks)[r] == ExchangedHand(hands[r], u, picks, r)
  {
    ExchangeStepsAt(hands, u, picks, |hands|, r);
  }

  /** Once the draws have run the deck out, later turns change nothing. */
  lemma {:induction false} ExchangeStepsFrozen(hands: seq<seq<Card>>, u: seq<Card>, picks: seq<seq<nat>>, a: nat, b: nat)
    requires ValidPicks(hands, picks) && a <= b <= |hands| && |u| < DrawsBefore(picks, a)
    ensures ExchangeSteps(hands, u, picks, b) == ExchangeSteps(hands, u, picks, a)
    decreases b
  {
    if a < b {
      ExchangeStepsFrozen(hands, u, picks, a, b - 1);
      DrawsBeforeMonotone(picks, a, b - 1);
    }
  }

  /** When player p's draws run the deck out, the loop's hands are the
      whole round's, and the round's draws did not fit. */
  lemma ExchangeStopsAt(hands: seq<seq<Card>>, u: seq<Card>, picks: seq<seq<nat>>, p: nat)
    requires ValidPicks(hands, picks) && p < |hands| && |u| < DrawsBefore(picks, p + 1)
    ensures |u| < DrawsBefore(picks, |picks|)
    ensures ExchangeSteps(hands, u, picks, p + 1) == ExchangeRound(hands, u, picks)
  {
    DrawsBeforeMonotone(picks, p + 1, |picks|);
    ExchangeStepsFrozen(hands, u, picks, p + 1, |hands|);
  }

  /** Dropping a cards and then b more drops a + b. */
  lemma DropTwice(s: seq<Card>, a: nat, b: nat)
    requires a + b <= |s|
    ensures s[a..][b..] == s[a + b..]
  {
  }

  /** The cards up to the end of player r's draws are those up to its
      start followed by its draws. */
  lemma DrawsAppend(u: seq<Card>, picks: seq<seq<nat>>, r: nat)
    requires r < |picks|
    ensures u[..Min(DrawsBefore(picks, r + 1), |u|)] == u[..Min(DrawsBefore(picks, r), |u|)] + DrawnBy(u, picks, r)
  {
  }

  /** One player's exchange: what it holds afterwards is among what it
      held and what it drew. */
  lemma ExchangedHandWithin(hand: seq<Card>, u: seq<Card>, picks: seq<seq<nat>>, r: nat)
    requires r < |picks| && DiscardPicks(|hand|, picks[r])
    ensures multiset(ExchangedHand(hand, u, picks, r)) <= multiset(hand) + multiset(DrawnBy(u, picks, r))
  {
    DiscardedIsSubsequence(hand, picks[r]);
  }

  /** Multiset bookkeeping for replacing one hand by a hand drawn from it
      and from new cards. */
  lemma PoolReplaceBound(pool: multiset<Card>, newPool: multiset<Card>, oldHand: multiset<Card>, newHand: multiset<Card>,
                         drawn: multiset<Card>, bound: multiset<Card>)
    requires newPool + oldHand == pool + newHand
    requires pool <= bound && newHand <= oldHand + drawn
    ensures newPool <= bound + drawn
  {
    forall c ensures newPool[c] <= (bound + drawn)[c] {
      assert (newPool + oldHand)[c] == (pool + newHand)[c];
    }
  }

  /** The exchange takes into the hands no card other than the ones drawn
      from the top of the undealt cards: discarded cards leave the pool. */
  lemma {:induction false} PooledExchangeSteps(hands: seq<seq<Card>>, u: seq<Card>, picks: seq<seq<nat>>, p: nat)
    requires ValidPicks(hands, picks) && p <= |hands|
    ensures Pooled(ExchangeSteps(hands, u, picks, p)) <= Pooled(hands) + multiset(u[..Min(DrawsBefore(picks, p), |u|)])
    decreases p
  {
    if p > 0 {
      var r := p - 1;
      var before := ExchangeSteps(hands, u, picks, r);
      var h := ExchangedHand(hands[r], u, picks, r);
      PooledExchangeSteps(hands, u, picks, r);
      ExchangeStepsAt(hands, u, picks, r, r);
      assert ExchangeSteps(hands, u, picks, p) == before[r := h] by {
        ExchangeStepsAt(hands, u, picks, p, r);
        forall i | 0 <= i < |hands| ensures ExchangeSteps(hands, u, picks, p)[i] == before[r := h][i] {
          ExchangeStepsAt(hands, u, picks, p, i);
          ExchangeStepsAt(hands, u, picks, r, i);
        }
      }
      PooledUpdate(before, r, h);
      ExchangedHandWithin(hands[r], u, picks, r);
      DrawsAppend(u, picks, r);
      var a := Min(DrawsBefore(picks, r), |u|);
      PoolReplaceBound(Pooled(before), Pooled(before[r := h]), multiset(hands[r]), multiset(h),
                       multiset(DrawnBy(u, picks, r)), Pooled(hands) + multiset(u[..a]));
    }
  }

  /** Exchanging keeps every held card among the dealt ones. */
  lemma {:induction false} ExchangeKeepsConserved(hands: seq<seq<Card>>, after: seq<seq<Card>>, cards: seq<Card>, top: nat, newTop: nat, picks: seq<seq<nat>>)
    requires ValidPicks(hands, picks)
    requires top <= |cards| && Pooled(hands) <= multiset(cards[..top])
    requires after == ExchangeRound(hands, cards[top..], picks)
    requires newTop == top + Min(DrawsBefore(picks, |picks|), |cards| - top)
    ensures Pooled(after) <= multiset(cards[..newTop])
  {
    var u := cards[top..];
    var m := Min(DrawsBefore(picks, |picks|), |u|);
    assert Pooled(after) <= Pooled(hands) + multiset(u[..m]) by {
      PooledExchangeSteps(hands, u, picks, |hands|);
    }
    assert newTop == top + m;
    var pool := Pooled(after);
    assert pool <= multiset(cards[..top + m]) by {
      TakingKeepsConserved(Pooled(hands), pool, cards, top, m);
    }
    assert cards[..newTop] == cards[..top + m];
  }

  /** n players holding no cards, as at the start of a round. */
  function EmptyHands(n: nat): (hands: seq<seq<Card>>)
    ensures |hands| == n && forall r :: 0 <= r < n ==> hands[r] == []
  {
    seq(n, r => [])
  }

  /** When the deck suffices for the whole deal, player r receives the
      r-th block of q undealt cards, so every hand grows by exactly q. */
  lemma {:induction false} DealRoundFull(hands: seq<seq<Card>>, u: seq<Card>, q: nat)
    requires BlockStart(|hands|, q) <= |u|
    ensures forall r :: 0 <= r < |hands| ==>
      BlockStart(r, q) + q <= |u| &&
      DealRound(hands, u, q)[r] == hands[r] + u[BlockStart(r, q)..BlockStart(r, q) + q]
    ensures forall r :: 0 <= r < |hands| ==> |DealRound(hands, u, q)[r]| == |hands[r]| + q
  {
    forall r | 0 <= r < |hands|
      ensures BlockStart(r, q) + q <= |u|
      ensures DealRound(hands, u, q)[r] == hands[r] + u[BlockStart(r, q)..BlockStart(r, q) + q]
    {
      DealtToFull(u, q, r, |hands|);
    }
  }

  /** When the deck suffices for n players, each of them gets a whole block. */
  lemma DealtToFull(u: seq<Card>, q: nat, r: nat, n: nat)
    requires r < n && BlockStart(n, q) <= |u|
    ensures BlockStart(r, q) + q <= |u| && DealtTo(u, q, r) == u[BlockStart(r, q)..BlockStart(r, q) + q]
  {
    BlockStartMonotone(r, n, q);
  }

  /** When the deck suffices for the deal, every dealt hand holds q cards,
      so discard choices made for q cards fit every hand. */
  lemma DealtPicksFit(n: nat, cards: seq<Card>, q: nat, picks: seq<seq<nat>>)
    requires |picks| == n && forall r :: 0 <= r < n ==> DiscardPicks(q, picks[r])
    requires BlockStart(n, q) <= |cards|
    ensures ValidPicks(DealRound(EmptyHands(n), cards, q), picks)
  {
    DealRoundFull(EmptyHands(n), cards, q);
  }

  /** The n hands at the end of a round's dealing and exchanging, from the
      deck cards in its shuffled order: each player is dealt q cards and
      then exchanges as picks says. When the deck is too short for the
      deal, the hands are the partial deal and no exchange happens; the
      exchange itself stops where the deck runs out. */
  function RoundHands(n: nat, cards: seq<Card>, q: nat, picks: seq<seq<nat>>): seq<seq<Card>>
    requires |picks| == n && forall r :: 0 <= r < n ==> DiscardPicks(q, picks[r])
  {
    var dealt := DealRound(EmptyHands(n), cards, q);
    if |cards| < BlockStart(n, q) then dealt
    else
      DealtPicksFit(n, cards, q, picks);
      ExchangeRound(dealt, cards[BlockStart(n, q)..], picks)
  }

  /** A round that does not run out of cards leaves every one of the n
      players with exactly q cards: the q dealt, less the discards, plus as
      many drawn. */
  lemma {:induction false} RoundHandSizes(n: nat, cards: seq<Card>, q: nat, picks: seq<seq<nat>>)
    requires |picks| == n && forall r :: 0 <= r < n ==> DiscardPicks(q, picks[r])
    requires BlockStart(n, q) + DrawsBefore(picks, n) <= |cards|
    ensures |RoundHands(n, cards, q, picks)| == n
    ensures forall r :: 0 <= r < n ==> |RoundHands(n, cards, q, picks)[r]| == q
  {
    var dealt := DealRound(EmptyHands(n), cards, q);
    var u := cards[BlockStart(n, q)..];
    DealRoundFull(EmptyHands(n), cards, q);
    assert RoundHands(n, cards, q, picks) == ExchangeRound(dealt, u, picks);
    forall r | 0 <= r < n ensures |ExchangeRound(dealt, u, picks)[r]| == q {
      ExchangeRoundAt(dealt, u, picks, r);
      ExchangeKeepsHandShape(dealt[r], u, picks, r);
    }
  }

  /** All cards held by the players together. */
  function Pooled(hands: seq<seq<Card>>): multiset<Card>
  {
    if hands == [] then multiset{} else Pooled(hands[..|hands| - 1]) + multiset(hands[|hands| - 1])
  }

  /** Replacing one hand changes the pool by exactly that hand's difference. */
  lemma {:induction false} PooledUpdate(hands: seq<seq<Card>>, p: nat, h: seq<Card>)
    requires p < |hands|
    ensures Pooled(hands[p := h]) + multiset(hands[p]) == Pooled(hands) + multiset(h)
    decreases |hands|
  {
    var n := |hands| - 1;
    var after := hands[p := h];
    assert Pooled(after) == Pooled(after[..n]) + multiset(after[n]);
    assert Pooled(hands) == Pooled(hands[..n]) + multiset(hands[n]);
    if p < n {
      assert after[..n] == hands[..n][p := h];
      assert hands[..n][p] == hands[p] && after[n] == hands[n];
      PooledUpdate(hands[..n], p, h);
      var a, b, x, y := Pooled(hands[..n][p := h]), Pooled(hands[..n]), multiset(hands[n]), multiset(hands[p]);
      forall c ensures (a + x + y)[c] == (b + x + multiset(h))[c] {
        assert (a + y)[c] == (b + multiset(h))[c];
      }
      assert a + x + y == b + x + multiset(h);
    } else {
      assert after[..n] == hands[..n];
    }
  }

  /** Players with empty hands hold nothing. */
  lemma {:induction false} PooledEmpty(hands: seq<seq<Card>>)
    requires forall r :: 0 <= r < |hands| ==> hands[r] == []
    ensures Pooled(hands) == multiset{}
    decreases |hands|
  {
    if hands != [] {
      PooledEmpty(hands[..|hands| - 1]);
    }
  }

  lemma MultisetCancel(a: multiset<Card>, b: multiset<Card>, m: multiset<Card>)
    requires a + m == b + m
    ensures a == b
  {
    forall c ensures a[c] == b[c] {
      assert (a + m)[c] == (b + m)[c];
    }
  }

  /** Dealing the next card to a player keeps every held card among the
      dealt ones. */
  lemma DealOneKeepsConserved(hands: seq<seq<Card>>, p: nat, card: Card, dealt: seq<Card>)
    requires p < |hands| && Pooled(hands) <= multiset(dealt)
    ensures Pooled(hands[p := hands[p] + [card]]) <= multiset(dealt + [card])
  {
    var after := hands[p := hands[p] + [card]];
    PooledUpdate(hands, p, hands[p] + [card]);
    assert multiset(hands[p] + [card]) == multiset(hands[p]) + multiset{card};
    MultisetCancel(Pooled(after), Pooled(hands) + multiset{card}, multiset(hands[p]));
  }

  /** The deal adds to the players' hands exactly the cards taken from
      the top of the undealt ones: the first |hands| * q of them, or all
      of them when they run out. */
  lemma {:induction false} PooledDealRound(hands: seq<seq<Card>>, u: seq<Card>, q: nat)
    ensures Pooled(DealRound(hands, u, q)) == Pooled(hands) + multiset(u[..Min(BlockStart(|hands|, q), |u|)])
    decreases |hands|
  {
    if hands == [] {
      assert DealRound(hands, u, q) == [];
    } else {
      var n := |hands| - 1;
      PooledDealRound(hands[..n], u, q);
      PooledDealRoundLast(hands, u, q);
      DealtToExtends(u, q, n);
      assert Pooled(hands) == Pooled(hands[..n]) + multiset(hands[n]);
    }
  }

  /** Dealing to one more player adds that player's hand and share. */
  lemma PooledDealRoundLast(hands: seq<seq<Card>>, u: seq<Card>, q: nat)
    requires |hands| > 0
    ensures var n := |hands| - 1;
      Pooled(DealRound(hands, u, q)) == Pooled(DealRound(hands[..n], u, q)) + multiset(hands[n]) + multiset(DealtTo(u, q, n))
  {
    var n, dealt := |hands| - 1, DealRound(hands, u, q);
    assert dealt[..n] == DealRound(hands[..n], u, q);
    assert Pooled(dealt) == Pooled(dealt[..n]) + multiset(dealt[n]);
  }

  /** The cards dealt to the first n + 1 players are those dealt to the
      first n followed by player n's share. */
  lemma DealtToExtends(u: seq<Card>, q: nat, n: nat)
    ensures multiset(u[..Min(BlockStart(n + 1, q), |u|)]) == multiset(u[..Min(BlockStart(n, q), |u|)]) + multiset(DealtTo(u, q, n))
  {
    var a, b := Min(BlockStart(n, q), |u|), Min(BlockStart(n + 1, q), |u|);
    assert u[..b] == u[..a] + u[a..b];
  }

  /** Taking the next m cards from the deck into the pool keeps every
      held card among the dealt ones. */
  lemma TakingKeepsConserved(pool: multiset<Card>, after: multiset<Card>, cards: seq<Card>, top: nat, m: nat)
    requires top + m <= |cards| && pool <= multiset(cards[..top])
    requires after <= pool + multiset(cards[top..][..m])
    ensures after <= multiset(cards[..top + m])
  {
    var before, added := multiset(cards[..top]), multiset(cards[top..][..m]);
    assert cards[..top + m] == cards[..top] + cards[top..][..m];
    forall c ensures after[c] <= (before + added)[c] {
      assert pool[c] <= before[c];
      assert after[c] <= (pool + added)[c];
    }
  }

  /** Dealing from the deck keeps every held card among the dealt ones:
      if the hands before the deal hold only cards from cards[..top], the
      hands after it hold only cards from above the new top. */
  lemma {:induction false} DealKeepsConserved(hands: seq<seq<Card>>, dealt: seq<seq<Card>>, cards: seq<Card>, top: nat, newTop: nat, q: nat)
    requires top <= |cards| && Pooled(hands) <= multiset(cards[..top])
    requires dealt == DealRound(hands, cards[top..], q)
    requires newTop == top + Min(BlockStart(|hands|, q), |cards| - top)
    ensures Pooled(dealt) <= multiset(cards[..newTop])
  {
    var u := cards[top..];
    var m := Min(BlockStart(|hands|, q), |u|);
    assert newTop == top + m;
    assert Pooled(dealt) == Pooled(hands) + multiset(u[..m]) by {
      PooledDealRound(hands, u, q);
    }
    var pool := Pooled(dealt);
    assert pool <= multiset(cards[..top + m]) by {
      TakingKeepsConserved(Pooled(hands), pool, cards, top, m);
    }
    assert cards[..newTop] == cards[..top + m];
  }

  /** A discarded card leaves the pool and goes nowhere else. */
  lemma DiscardLeavesPool(hands: seq<seq<Card>>, p: nat, i: nat)
    requires p < |hands| && i < |hands[p]|
    ensures Pooled(hands[p := Erase(hands[p], i)]) + multiset{hands[p][i]} == Pooled(hands)
  {
    var kept := Erase(hands[p], i);
    PooledUpdate(hands, p, kept);
    assert Pooled(hands[p := kept]) + multiset{hands[p][i]} + multiset(kept)
        == Pooled(hands) + multiset(kept);
    MultisetCancel(Pooled(hands[p := kept]) + multiset{hands[p][i]}, Pooled(hands), multiset(kept));
  }

  /** If the deck has no repeated card and every held card is among the
      dealt ones, then no card is held twice (in one hand or in two) and
      no undealt card is held. */
  lemma HeldCardsAreDealt(cards: seq<Card>, top: nat, hands: seq<seq<Card>>)
    requires Distinct(cards) && top <= |cards|
    requires Pooled(hands) <= multiset(cards[..top])
    ensures forall c :: Pooled(hands)[c] <= 1
    ensures forall k :: top <= k < |cards| ==> cards[k] !in Pooled(hands)
  {
    DistinctByMultiset(cards);
    assert cards == cards[..top] + cards[top..];
    forall k | top <= k < |cards| ensures cards[k] !in Pooled(hands) {
      var c := cards[k];
      assert multiset(cards)[c] == multiset(cards[..top])[c] + multiset(cards[top..])[c];
      assert c in multiset(cards[top..]) by {
        assert cards[top..][k - top] == c;
      }
    }
    forall c ensures Pooled(hands)[c] <= 1 {
      assert multiset(cards)[c] == multiset(cards[..top])[c] + multiset(cards[top..])[c];
    }
  }

  lemma UpdateTwice(hands: seq<seq<Card>>, p: nat, a: seq<Card>, b: seq<Card>)
    requires p < |hands|
    ensures hands[p := a][p := b] == hands[p := b]
  {
    var twice := hands[p := a][p := b];
    assert forall r :: 0 <= r < |hands| ==> twice[r] == hands[p := b][r];
  }

  /** The hand value of every player, in player order. */
  function HandValues(hands: seq<seq<Card>>): (values: seq<int>)
    ensures |values| == |hands|
    ensures forall r :: 0 <= r < |hands| ==> values[r] == HandValue(hands[r])
  {
    seq(|hands|, r requires 0 <= r < |hands| => HandValue(hands[r]))
  }
}
