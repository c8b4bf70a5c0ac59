/** The end-of-round scoring rule: only a strict, unique highest hand value
    earns a point. */
module Scoring {

  /** values[w] is at least every value. */
  predicate IsHighest(values: seq<int>, w: int)
  {
    0 <= w < |values| && forall i :: 0 <= i < |values| ==> values[i] <= values[w]
  }

  /** values[w] is strictly above every other value. */
  predicate UniqueMax(values: seq<int>, w: int)
  {
    0 <= w < |values| && forall i :: 0 <= i < |values| && i != w ==> values[i] < values[w]
  }

  /** after is before with the round's point awarded: one more for the
      unique highest value, or no change when the highest value is shared. */
  ghost predicate RoundScored(before: seq<int>, after: seq<int>, values: seq<int>)
  {
    |before| == |values| &&
    (forall w :: UniqueMax(values, w) ==> after == before[w := before[w] + 1]) &&
    ((forall w :: !UniqueMax(values, w)) ==> after == before)
  }

  /** Sum of all scores. */
  function Total(scores: seq<int>): int
  {
    if scores == [] then 0 else Total(scores[..|scores| - 1]) + scores[|scores| - 1]
  }

  /** The scan over the round's values: the first index with the highest
      value, and how many players share that value. */
  method HighestValue(values: seq<int>) returns (winner: nat, count: nat)
    requires |values| >= 1
    ensures IsHighest(values, winner)
    ensures forall i :: 0 <= i < winner ==> values[i] < values[winner]
    ensures count == multiset(values)[values[winner]]
    ensures count == 1 <==> UniqueMax(values, winner)
  {
    var highest := values[0];
    winner := 0;
    count := 1;
    var i := 1;
    while i < |values|
      invariant 1 <= i <= |values| && winner < i
      invariant highest == values[winner]
      invariant forall k :: 0 <= k < i ==> values[k] <= highest
      invariant forall k :: 0 <= k < winner ==> values[k] < highest
      invariant count == multiset(values[..i])[highest]
    {
      assert values[..i + 1] == values[..i] + [values[i]];
      if values[i] > highest {
        assert values[i] !in multiset(values[..i]);
        highest := values[i];
        winner := i;
        count := 1;
      } else if values[i] == highest {
        count := count + 1;
      }
      i := i + 1;
    }
    assert values[..i] == values;
    SingleHighestIsUnique(values, winner);
  }

  /** For a highest value, being the only index that holds it is the same
      as being strictly above all others. */
  lemma SingleHighestIsUnique(values: seq<int>, w: int)
    requires IsHighest(values, w)
    ensures multiset(values)[values[w]] == 1 <==> UniqueMax(values, w)
  {
    var x := values[w];
    assert values == values[..w] + [x] + values[w + 1..];
    assert multiset(values)[x] == multiset(values[..w])[x] + 1 + multiset(values[w + 1..])[x];
    if multiset(values)[x] == 1 {
      forall i | 0 <= i < |values| && i != w ensures values[i] < x {
        if i < w {
          assert values[i] == values[..w][i];
        } else {
          assert values[i] == values[w + 1..][i - w - 1];
        }
      }
    }
    if UniqueMax(values, w) {
      assert x !in values[..w];
      assert x !in values[w + 1..];
    }
  }

  /** The result of the scan decides the round: a single holder of the
      highest value gains a point, several holders gain nothing. */
  lemma ScanDecidesRound(values: seq<int>, w: int, count: int, before: seq<int>, after: seq<int>)
    requires IsHighest(values, w) && (count == 1 <==> UniqueMax(values, w))
    requires |before| == |values|
    requires after == if count == 1 then before[w := before[w] + 1] else before
    ensures RoundScored(before, after, values)
  {
  }

  /** Adding one to a single score adds one to the total. */
  lemma {:induction false} TotalIncrement(scores: seq<int>, w: nat)
    requires w < |scores|
    ensures Total(scores[w := scores[w] + 1]) == Total(scores) + 1
    decreases |scores|
  {
    var n := |scores| - 1;
    var after := scores[w := scores[w] + 1];
    if w < n {
      assert after[..n] == scores[..n][w := scores[w] + 1];
      TotalIncrement(scores[..n], w);
    } else {
      assert after[..n] == scores[..n];
    }
  }

  /** A round adds at most one point to the total score. */
  lemma RoundAddsAtMostOne(before: seq<int>, after: seq<int>, values: seq<int>)
    requires RoundScored(before, after, values)
    ensures |after| == |before|
    ensures Total(before) <= Total(after) <= Total(before) + 1
  {
    if w :| UniqueMax(values, w) {
      TotalIncrement(before, w);
    }
  }

  /** A shared highest value awards no point. */
  lemma TieAtTopScoresNobody()
    ensures forall w :: !UniqueMax([12, 15, 15, 10], w)
  {
    var v := [12, 15, 15, 10];
    forall w ensures !UniqueMax(v, w) {
      if 0 <= w < |v| {
        var other := if w == 1 then 2 else 1;
        assert other != w && v[other] >= v[w];
      }
    }
  }

  /** A single highest value awards the point to its holder only. */
  lemma SingleTopScores()
    ensures UniqueMax([12, 18, 15, 10], 1)
  {
  }
}
