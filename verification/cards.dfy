/**
 * Cards and the deck (poker_backend.py, `Card` and `Deck`).
 *
 * A card is a suit and a value: 2..10 for the pip ranks, 11 for the jack,
 * 12 queen, 13 king and 14 ace (the rank table `RANK_VALUES`). The rank
 * symbol and the value are in one-to-one correspondence, so the model keeps
 * the value only.
 */
module Cards {

  datatype Suit = Spades | Hearts | Diamonds | Clubs

  type Value = v: int | 2 <= v <= 14 witness 2

  datatype Card = Card(suit: Suit, value: Value)

  datatype Option<T> = None | Some(value: T)

  /** The suits in the order the source lists them. */
  function SuitAt(k: int): Suit
    requires 0 <= k < 4
  {
    if k == 0 then Spades else if k == 1 then Hearts else if k == 2 then Diamonds else Clubs
  }

  function SuitIndex(s: Suit): int
  {
    match s
    case Spades => 0
    case Hearts => 1
    case Diamonds => 2
    case Clubs => 3
  }

  /** The value sequence of a card sequence. */
  function Values(cs: seq<Card>): seq<int>
  {
    seq(|cs|, i requires 0 <= i < |cs| => cs[i].value)
  }

  /** Every card is worth at least as much as every card after it. */
  predicate Descending(cs: seq<Card>)
  {
    forall i, j :: 0 <= i < j < |cs| ==> cs[i].value >= cs[j].value
  }

  /** No card occurs twice. */
  predicate Distinct(cs: seq<Card>)
  {
    forall i, j :: 0 <= i < j < |cs| ==> cs[i] != cs[j]
  }

  /**
   * The unshuffled deck: for each suit in order, the thirteen ranks from two
   * to ace. Position `13 * s + r` holds suit `s`, value `r + 2`.
   */
  function NewDeck(): (d: seq<Card>)
    ensures |d| == 52
    ensures Distinct(d)
    ensures forall c: Card :: c in d
  {
    var d := seq(52, i requires 0 <= i < 52 => Card(SuitAt(i / 13), i % 13 + 2));
    forall c: Card ensures c in d {
      var k := 13 * SuitIndex(c.suit) + c.value - 2;
      assert d[k] == c;
    }
    d
  }

  /** A deck as the table uses it: some ordering of the 52 cards. */
  predicate IsShuffledDeck(d: seq<Card>)
  {
    multiset(d) == multiset(NewDeck())
  }

  /**
   * `Deck.deal`: removes and returns the last card, or returns nothing and
   * leaves an empty deck as it is.
   */
  function Deal(deck: seq<Card>): (r: (Option<Card>, seq<Card>))
    ensures |deck| == 0 <==> r.0 == None
    ensures |deck| == 0 ==> r.1 == deck
    ensures r.0.Some? ==> r.1 + [r.0.value] == deck
  {
    if |deck| == 0 then (None, deck) else (Some(deck[|deck| - 1]), deck[..|deck| - 1])
  }

  /** Dealing neither creates nor loses cards, and a dealt card of a deck without repeats leaves it. */
  lemma DealConservesCards(deck: seq<Card>)
    ensures Deal(deck).0.Some? ==>
              multiset(Deal(deck).1) + multiset{Deal(deck).0.value} == multiset(deck)
    ensures Deal(deck).0.Some? && Distinct(deck) ==>
              Deal(deck).0.value !in Deal(deck).1 && Distinct(Deal(deck).1)
  {
    var r := Deal(deck);
    if r.0.Some? {
      assert r.1 + [r.0.value] == deck;
      calc {
        multiset(deck);
        multiset(r.1 + [r.0.value]);
        multiset(r.1) + multiset{r.0.value};
      }
      if Distinct(deck) {
        forall k | 0 <= k < |r.1| ensures r.1[k] != r.0.value {
          assert r.1[k] == deck[k] && r.0.value == deck[|deck| - 1];
        }
      }
    }
  }

  /** A shuffled deck holds 52 different cards. */
  lemma ShuffledDeckIsDistinct(d: seq<Card>)
    requires IsShuffledDeck(d)
    ensures |d| == 52 && Distinct(d)
  {
    var full := NewDeck();
    assert |d| == |multiset(d)| == |multiset(full)| == 52;
    forall i, j | 0 <= i < j < |d| ensures d[i] != d[j] {
      if d[i] == d[j] {
        var c := d[i];
        assert multiset(d)[c] >= 2 by {
          assert d == d[..i] + [d[i]] + d[i + 1..];
          assert d[j] in d[i + 1..] by { assert d[i + 1..][j - i - 1] == d[j]; }
        }
        DistinctCountsOnce(full, c);
        assert false;
      }
    }
  }

  lemma DistinctCountsOnce(d: seq<Card>, c: Card)
    requires Distinct(d)
    ensures multiset(d)[c] <= 1
  {
    if |d| > 0 {
      assert d == [d[0]] + d[1..];
      DistinctCountsOnce(d[1..], c);
      if d[0] == c {
        assert c !in d[1..];
      }
    }
  }
}
