/** Removing cards from a hand: erasing at an index, and a run of erasures
    chosen one after another. */
module HandOps {
  import opened Cards

  /** a can be obtained from b by deleting elements, keeping the order of
      the rest. */
  predicate IsSubsequence(a: seq<Card>, b: seq<Card>)
    decreases |b|
  {
    if a == [] then true
    else if b == [] then false
    else (a[0] == b[0] && IsSubsequence(a[1..], b[1..])) || IsSubsequence(a, b[1..])
  }

  /** The hand with the card at index i removed; the others keep their order. */
  function Erase(hand: seq<Card>, i: nat): (r: seq<Card>)
    requires i < |hand|
    ensures |r| == |hand| - 1
    ensures multiset(r) + multiset{hand[i]} == multiset(hand)
    ensures forall k :: 0 <= k < |r| ==> r[k] == if k < i then hand[k] else hand[k + 1]
  {
    assert hand == hand[..i] + [hand[i]] + hand[i + 1..];
    hand[..i] + hand[i + 1..]
  }

  /** Discard choices for a hand of size len: the i-th discard picks an
      index below the hand's size at that moment, len - i. */
  predicate DiscardPicks(len: nat, picks: seq<nat>)
  {
    |picks| <= len && forall i :: 0 <= i < |picks| ==> picks[i] < len - i
  }

  /** The hand after discarding at picks[0], then picks[1], and so on. */
  function Discarded(hand: seq<Card>, picks: seq<nat>): (r: seq<Card>)
    requires DiscardPicks(|hand|, picks)
    ensures |r| == |hand| - |picks|
  {
    if picks == [] then hand
    else
      var n := |picks| - 1;
      assert DiscardPicks(|hand|, picks[..n]);
      Erase(Discarded(hand, picks[..n]), picks[n])
  }

  lemma {:induction false} SubsequenceReflexive(a: seq<Card>)
    ensures IsSubsequence(a, a)
    decreases |a|
  {
    if a != [] {
      SubsequenceReflexive(a[1..]);
    }
  }

  lemma {:induction false} SubsequenceTransitive(a: seq<Card>, b: seq<Card>, c: seq<Card>)
    requires IsSubsequence(a, b) && IsSubsequence(b, c)
    ensures IsSubsequence(a, c)
    decreases |c|
  {
    if a != [] {
      assert b != [] && c != [];
      if IsSubsequence(b, c[1..]) {
        SubsequenceTransitive(a, b, c[1..]);
      } else if a[0] == b[0] && IsSubsequence(a[1..], b[1..]) {
        SubsequenceTransitive(a[1..], b[1..], c[1..]);
      } else {
        SubsequenceTransitive(a, b[1..], c[1..]);
      }
    }
  }

  /** Erasing one card leaves a subsequence of the hand. */
  lemma {:induction false} EraseIsSubsequence(hand: seq<Card>, i: nat)
    requires i < |hand|
    ensures IsSubsequence(Erase(hand, i), hand)
    decreases i
  {
    if i == 0 {
      assert Erase(hand, i) == hand[1..];
      SubsequenceReflexive(hand[1..]);
    } else {
      var r := Erase(hand, i);
      assert r[0] == hand[0];
      assert r[1..] == Erase(hand[1..], i - 1);
      EraseIsSubsequence(hand[1..], i - 1);
    }
  }

  /** After any run of discards, the remaining cards are a subsequence of
      the hand and a sub-multiset of it. */
  lemma {:induction false} DiscardedIsSubsequence(hand: seq<Card>, picks: seq<nat>)
    requires DiscardPicks(|hand|, picks)
    ensures IsSubsequence(Discarded(hand, picks), hand)
    ensures multiset(Discarded(hand, picks)) <= multiset(hand)
    decreases |picks|
  {
    if picks == [] {
      SubsequenceReflexive(hand);
    } else {
      var n := |picks| - 1;
      assert DiscardPicks(|hand|, picks[..n]);
      var before, after := Discarded(hand, picks[..n]), Discarded(hand, picks);
      assert after == Erase(before, picks[n]);
      DiscardedIsSubsequence(hand, picks[..n]);
      assert IsSubsequence(after, before) by {
        EraseIsSubsequence(before, picks[n]);
      }
      SubsequenceTransitive(after, before, hand);
      assert multiset(after) <= multiset(before);
    }
  }
}
