/** The card orders a deck goes through: the suit-major order it is built
    in, and the order produced by the shuffle's sequence of swaps. */
module DeckOrder {
  import opened Cards

  /** The cards of one suit, numbers 0 .. nNum-1 in order (none when nNum <= 0). */
  function SuitRow(suit: int, nNum: int): (row: seq<Card>)
    ensures |row| == if nNum > 0 then nNum else 0
    ensures forall j :: 0 <= j < |row| ==> row[j] == Card(suit, j)
  {
    if nNum <= 0 then [] else seq(nNum, j => Card(suit, j))
  }

  /** Reference order of a freshly built deck: suit 0 first, and within
      each suit the numbers in increasing order. */
  function NewDeckOrder(nSuit: int, nNum: int): seq<Card>
    decreases nSuit
  {
    if nSuit <= 0 then [] else NewDeckOrder(nSuit - 1, nNum) + SuitRow(nSuit - 1, nNum)
  }

  lemma MulMonotone(a: int, b: int, n: int)
    requires 0 <= a <= b && 0 <= n
    ensures a * n <= b * n
  {
  }

  /** A new deck holds nSuit * nNum cards (none if either count is not positive). */
  lemma {:induction false} NewDeckSize(nSuit: int, nNum: int)
    ensures |NewDeckOrder(nSuit, nNum)| == if nSuit > 0 && nNum > 0 then nSuit * nNum else 0
    decreases nSuit
  {
    if nSuit > 0 {
      NewDeckSize(nSuit - 1, nNum);
      if nNum > 0 {
        assert (nSuit - 1) * nNum + nNum == nSuit * nNum;
      }
    }
  }

  /** In a new deck, card (i, j) sits at position i * nNum + j. */
  lemma {:induction false} NewDeckPosition(nSuit: int, nNum: int, i: int, j: int)
    requires 0 <= i < nSuit && 0 <= j < nNum
    ensures 0 <= i * nNum + j < |NewDeckOrder(nSuit, nNum)|
    ensures NewDeckOrder(nSuit, nNum)[i * nNum + j] == Card(i, j)
    decreases nSuit
  {
    NewDeckSize(nSuit, nNum);
    NewDeckSize(nSuit - 1, nNum);
    MulMonotone(i, nSuit - 1, nNum);
    if i < nSuit - 1 {
      NewDeckPosition(nSuit - 1, nNum, i, j);
      MulMonotone(i + 1, nSuit - 1, nNum);
      assert i * nNum + j < (nSuit - 1) * nNum;
    }
  }

  /** Exactly the pairs (suit, number) with 0 <= suit < nSuit and
      0 <= number < nNum are in a new deck. */
  lemma {:induction false} NewDeckMembers(nSuit: int, nNum: int, c: Card)
    ensures c in NewDeckOrder(nSuit, nNum) <==> 0 <= c.suit < nSuit && 0 <= c.num < nNum
    decreases nSuit
  {
    if nSuit > 0 {
      NewDeckMembers(nSuit - 1, nNum, c);
      var row := SuitRow(nSuit - 1, nNum);
      if c.suit == nSuit - 1 && 0 <= c.num < nNum {
        assert row[c.num] == c;
      }
    }
  }

  /** A new deck holds every card at most once. */
  lemma {:induction false} NewDeckDistinct(nSuit: int, nNum: int)
    ensures Distinct(NewDeckOrder(nSuit, nNum))
    decreases nSuit
  {
    if nSuit > 0 {
      var prefix := NewDeckOrder(nSuit - 1, nNum);
      var row := SuitRow(nSuit - 1, nNum);
      var d := prefix + row;
      NewDeckDistinct(nSuit - 1, nNum);
      forall a, b | 0 <= a < b < |d| ensures d[a] != d[b] {
        if b >= |prefix| && a < |prefix| {
          NewDeckMembers(nSuit - 1, nNum, d[a]);
          assert d[a] in prefix;
        }
      }
    }
  }

  /** The Fisher-Yates choices made while shuffling n cards: at step i the
      card at i is swapped with the one at js[i], with js[i] <= i. */
  predicate PicksBounded(js: seq<nat>, n: nat)
  {
    n <= |js| && forall i :: 0 <= i < n ==> js[i] <= i
  }

  /** The sequence with the elements at i and j exchanged. */
  function Swap(s: seq<Card>, i: nat, j: nat): (r: seq<Card>)
    requires i < |s| && j < |s|
    ensures |r| == |s| && r[i] == s[j] && r[j] == s[i]
    ensures forall k :: 0 <= k < |s| && k != i && k != j ==> r[k] == s[k]
  {
    s[i := s[j]][j := s[i]]
  }

  /** The deck after the first n steps of the shuffle loop (steps 1 .. n-1). */
  function ShuffleSteps(s: seq<Card>, js: seq<nat>, n: nat): (r: seq<Card>)
    requires n <= |s| && PicksBounded(js, n)
    ensures |r| == |s|
  {
    if n <= 1 then s else Swap(ShuffleSteps(s, js, n - 1), n - 1, js[n - 1])
  }

  /** The deck after the whole shuffle loop. */
  function Shuffled(s: seq<Card>, js: seq<nat>): seq<Card>
    requires |js| == |s| && PicksBounded(js, |s|)
  {
    ShuffleSteps(s, js, |s|)
  }

  /** Every step of the shuffle only moves cards: the result is a
      permutation of the input. */
  lemma {:induction false} ShuffleStepsPermutes(s: seq<Card>, js: seq<nat>, n: nat)
    requires n <= |s| && PicksBounded(js, n)
    ensures multiset(ShuffleSteps(s, js, n)) == multiset(s)
  {
    if n > 1 {
      ShuffleStepsPermutes(s, js, n - 1);
    }
  }

  /** A shuffle keeps the deck's size and its multiset of cards. */
  lemma ShuffledPermutes(s: seq<Card>, js: seq<nat>)
    requires |js| == |s| && PicksBounded(js, |s|)
    ensures |Shuffled(s, js)| == |s|
    ensures multiset(Shuffled(s, js)) == multiset(s)
  {
    ShuffleStepsPermutes(s, js, |s|);
  }

  /** The first n steps touch only the first n positions. */
  lemma {:induction false} ShuffleStepsAppend(s: seq<Card>, y: Card, js: seq<nat>, n: nat)
    requires n <= |s| && PicksBounded(js, n)
    ensures ShuffleSteps(s + [y], js, n) == ShuffleSteps(s, js, n) + [y]
  {
    if n > 1 {
      ShuffleStepsAppend(s, y, js, n - 1);
    }
  }

  /** The first n steps read only the first n choices. */
  lemma {:induction false} ShuffleStepsExtend(s: seq<Card>, js: seq<nat>, j: nat, n: nat)
    requires n <= |s| && PicksBounded(js, n)
    ensures PicksBounded(js + [j], n)
    ensures ShuffleSteps(s, js + [j], n) == ShuffleSteps(s, js, n)
  {
    if n > 1 {
      ShuffleStepsExtend(s, js, j, n - 1);
    }
  }

  /** Swapping the same two positions twice restores the sequence. */
  lemma SwapTwice(t: seq<Card>, i: nat, j: nat)
    requires i < |t| && j < |t|
    ensures Swap(Swap(t, i, j), j, i) == t
  {
  }

  /** Taking the last card out of two equal multisets leaves equal multisets. */
  lemma DropLastSameMultiset(s: seq<Card>, b: seq<Card>)
    requires |s| == |b| > 0 && s[|s| - 1] == b[|b| - 1]
    requires multiset(s) == multiset(b)
    ensures multiset(s[..|s| - 1]) == multiset(b[..|b| - 1])
  {
    var n := |s| - 1;
    assert s == s[..n] + [s[n]];
    assert b == b[..n] + [b[n]];
    assert multiset(b[..n]) == multiset(b) - multiset{b[n]};
    assert multiset(s[..n]) == multiset(s) - multiset{s[n]};
  }

  /** The last step of a shuffle acts on the shuffled prefix followed by
      the untouched last card. */
  lemma ShuffledLastStep(s: seq<Card>, js: seq<nat>, j: nat)
    requires |s| > 1 && |js| == |s| - 1 && PicksBounded(js, |s| - 1) && j < |s|
    ensures |js + [j]| == |s| && PicksBounded(js + [j], |s|)
    ensures Shuffled(s, js + [j]) == Swap(Shuffled(s[..|s| - 1], js) + [s[|s| - 1]], |s| - 1, j)
  {
    var n := |s| - 1;
    ShuffleStepsExtend(s, js, j, n);
    ShuffleStepsAppend(s[..n], s[n], js, n);
    assert s[..n] + [s[n]] == s;
  }

  /** Some position of t holds the last card of s; moving it to the end
      leaves the rest of t with the same cards as the rest of s. */
  lemma PickLast(s: seq<Card>, t: seq<Card>) returns (j: nat)
    requires |s| > 1 && multiset(t) == multiset(s)
    ensures |t| == |s| && j < |t| && t[j] == s[|s| - 1]
    ensures multiset(Swap(t, j, |s| - 1)[..|s| - 1]) == multiset(s[..|s| - 1])
  {
    assert |t| == |multiset(t)| == |s|;
    var n := |s| - 1;
    assert s[n] in multiset(t);
    j :| 0 <= j < |t| && t[j] == s[n];
    SwapPermutes(t, j, n);
    DropLastSameMultiset(s, Swap(t, j, n));
  }

  /** Swapping two positions keeps the multiset of cards. */
  lemma SwapPermutes(t: seq<Card>, i: nat, j: nat)
    requires i < |t| && j < |t|
    ensures multiset(Swap(t, i, j)) == multiset(t)
  {
  }

  /** If the first steps arrange the rest of s as t with its last card
      moved to the end, one more step with choice j arranges s as t. */
  lemma ReachLast(s: seq<Card>, t: seq<Card>, js: seq<nat>, j: nat)
    requires |s| > 1 && |t| == |s| && j < |t| && t[j] == s[|s| - 1]
    requires |js| == |s| - 1 && PicksBounded(js, |s| - 1)
    requires Shuffled(s[..|s| - 1], js) == Swap(t, j, |s| - 1)[..|s| - 1]
    ensures PicksBounded(js + [j], |s|) && Shuffled(s, js + [j]) == t
  {
    var n, b := |s| - 1, Swap(t, j, |s| - 1);
    ShuffledLastStep(s, js, j);
    assert b[..n] + [s[n]] == b;
    SwapTwice(t, j, n);
  }

  /** Conversely, every arrangement of the deck's cards is the outcome of
      some sequence of choices: the shuffle can produce every ordering. */
  lemma {:induction false} ShuffleReachesEveryOrder(s: seq<Card>, t: seq<Card>) returns (js: seq<nat>)
    requires multiset(t) == multiset(s)
    ensures |js| == |s| && PicksBounded(js, |s|)
    ensures Shuffled(s, js) == t
    decreases |s|
  {
    assert |t| == |multiset(t)| == |s|;
    if |s| <= 1 {
      js := seq(|s|, i => 0);
      if |s| == 1 {
        assert s[0] in multiset(t);
        assert t == [s[0]];
      }
    } else {
      var n := |s| - 1;
      var j := PickLast(s, t);
      var js' := ShuffleReachesEveryOrder(s[..n], Swap(t, j, n)[..n]);
      ReachLast(s, t, js', j);
      js := js' + [j];
    }
  }

  /** Shuffling a deck without repeated cards leaves it without repeats. */
  lemma ShuffleKeepsDistinct(s: seq<Card>, js: seq<nat>)
    requires |js| == |s| && PicksBounded(js, |s|)
    requires Distinct(s)
    ensures Distinct(Shuffled(s, js))
  {
    ShuffledPermutes(s, js);
    DistinctByMultiset(s);
    DistinctByMultiset(Shuffled(s, js));
  }
}
