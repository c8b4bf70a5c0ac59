/** Cards and the value of a hand. */
module Cards {

  /** A card is a plain pair of integers: its suit and its number within
      the suit (0 is the ace, 9..12 are the face cards of a 13-card suit). */
  datatype Card = Card(suit: int, num: int)

  /** Value of one card: the ace and every number from 9 upwards count 10,
      every other number counts one more than itself. */
  function CardValue(c: Card): (v: int)
    ensures c.num == 0 || c.num >= 9 ==> v == 10
    ensures 0 <= c.num ==> 2 <= v <= 10
    ensures 1 <= c.num <= 8 ==> v == c.num + 1
  {
    if c.num == 0 || c.num >= 9 then 10 else c.num + 1
  }

  /** Reference definition of a hand's total value: the sum of its card
      values, accumulated from the front. */
  function HandValue(hand: seq<Card>): int
  {
    if hand == [] then 0 else HandValue(hand[..|hand| - 1]) + CardValue(hand[|hand| - 1])
  }

  /** Every card number is a real rank (non-negative). */
  predicate WellFormed(hand: seq<Card>)
  {
    forall i :: 0 <= i < |hand| ==> 0 <= hand[i].num
  }

  /** No card occurs twice. */
  predicate Distinct(cards: seq<Card>)
  {
    forall a, b :: 0 <= a < b < |cards| ==> cards[a] != cards[b]
  }

  /** The value of two hands put together is the sum of their values. */
  lemma {:induction false} HandValueAppend(a: seq<Card>, b: seq<Card>)
    ensures HandValue(a + b) == HandValue(a) + HandValue(b)
    decreases |b|
  {
    if b == [] {
      assert a + b == a;
    } else {
      var n := |b| - 1;
      assert (a + b)[..|a + b| - 1] == a + b[..n];
      HandValueAppend(a, b[..n]);
      assert b == b[..n] + [b[n]];
      assert HandValue(b) == HandValue(b[..n]) + CardValue(b[n]);
    }
  }

  /** The value of a hand does not depend on the order of its cards. */
  lemma {:induction false} HandValuePermutation(a: seq<Card>, b: seq<Card>)
    requires multiset(a) == multiset(b)
    ensures HandValue(a) == HandValue(b)
    decreases |a|
  {
    if a == [] {
      assert |b| == |multiset(b)| == 0;
    } else {
      var n := |a| - 1;
      var x := a[n];
      assert a == a[..n] + [x];
      assert x in multiset(b);
      var k :| 0 <= k < |b| && b[k] == x;
      var rest := b[..k] + b[k + 1..];
      assert b == b[..k] + [x] + b[k + 1..];
      assert multiset(a) == multiset(a[..n]) + multiset{x};
      assert multiset(b) == multiset(b[..k]) + multiset{x} + multiset(b[k + 1..]);
      assert multiset(rest) == multiset(b[..k]) + multiset(b[k + 1..]);
      assert multiset(a[..n]) == multiset(a) - multiset{x};
      assert multiset(rest) == multiset(b) - multiset{x};
      HandValuePermutation(a[..n], rest);
      HandValueAppend(b[..k] + [x], b[k + 1..]);
      HandValueAppend(b[..k], [x]);
      HandValueAppend(b[..k], b[k + 1..]);
      assert HandValue([x]) == CardValue(x) by {
        assert [x][..0] == [];
      }
    }
  }

  /** A hand of well-formed cards is worth between 2 and 10 per card. */
  lemma {:induction false} HandValueBounds(hand: seq<Card>)
    requires WellFormed(hand)
    ensures 2 * |hand| <= HandValue(hand) <= 10 * |hand|
    decreases |hand|
  {
    if hand != [] {
      var n := |hand| - 1;
      HandValueBounds(hand[..n]);
      assert 2 <= CardValue(hand[n]) <= 10;
    }
  }

  /** An ace and the four highest numbers of a 13-card suit, whatever
      their suits, are worth 50. */
  lemma FaceHandValue(s0: int, s1: int, s2: int, s3: int, s4: int)
    ensures HandValue([Card(s0, 0), Card(s1, 9), Card(s2, 10), Card(s3, 11), Card(s4, 12)]) == 50
  {
    var h := [Card(s0, 0), Card(s1, 9), Card(s2, 10), Card(s3, 11), Card(s4, 12)];
    assert HandValue(h[..1]) == 10 by { assert h[..1][..0] == []; }
    assert HandValue(h[..2]) == 20 by { assert h[..2][..1] == h[..1]; }
    assert HandValue(h[..3]) == 30 by { assert h[..3][..2] == h[..2]; }
    assert HandValue(h[..4]) == 40 by { assert h[..4][..3] == h[..3]; }
    assert h[..5] == h;
  }

  /** The numbers 1 to 8, one card each, are worth 2 + 3 + ... + 9 = 44. */
  lemma LowHandValue(s: int)
    ensures HandValue(seq(8, i => Card(s, i + 1))) == 44
  {
    var h := seq(8, i => Card(s, i + 1));
    assert HandValue(h[..1]) == 2 by { assert h[..1][..0] == []; }
    assert HandValue(h[..2]) == 5 by { assert h[..2][..1] == h[..1]; }
    assert HandValue(h[..3]) == 9 by { assert h[..3][..2] == h[..2]; }
    assert HandValue(h[..4]) == 14 by { assert h[..4][..3] == h[..3]; }
    assert HandValue(h[..5]) == 20 by { assert h[..5][..4] == h[..4]; }
    assert HandValue(h[..6]) == 27 by { assert h[..6][..5] == h[..5]; }
    assert HandValue(h[..7]) == 35 by { assert h[..7][..6] == h[..6]; }
    assert h[..8] == h;
  }

  /** A sequence has no repeated card exactly when every card occurs at
      most once in its multiset. */
  lemma {:induction false} DistinctByMultiset(cards: seq<Card>)
    ensures Distinct(cards) <==> forall c :: multiset(cards)[c] <= 1
    decreases |cards|
  {
    if cards != [] {
      var n := |cards| - 1;
      var x := cards[n];
      assert cards == cards[..n] + [x];
      DistinctByMultiset(cards[..n]);
      if Distinct(cards) {
        assert Distinct(cards[..n]);
        assert x !in cards[..n];
      }
      if forall c :: multiset(cards)[c] <= 1 {
        forall c ensures multiset(cards[..n])[c] <= 1 {
          assert multiset(cards)[c] == multiset(cards[..n])[c] + multiset{x}[c];
        }
        forall a, b | 0 <= a < b < |cards| ensures cards[a] != cards[b] {
          if b < n {
            assert cards[a] == cards[..n][a] && cards[b] == cards[..n][b];
          } else {
            assert cards[a] in multiset(cards[..n]);
            assert multiset(cards)[x] == multiset(cards[..n])[x] + 1;
          }
        }
      }
    }
  }
}
