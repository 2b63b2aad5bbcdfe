/**
 * Ranking exactly five cards and comparing two ranked card orderings
 * (poker_backend.py, `_calculate_hand_rank` and `_compare_hands`).
 *
 * Categories: 10 Royal Flush, 9 Straight Flush, 8 Four of a Kind,
 * 7 Full House, 6 Flush, 5 Straight, 4 Three of a Kind, 3 Two Pair,
 * 2 One Pair, 1 High Card. The ranked cards are the tie-break ordering that
 * `Compare` reads left to right. Three behaviours of the source are kept:
 * grouped categories put their kickers FIRST, the wheel A-2-3-4-5 is ordered
 * ace first (so it compares as ace-high), and a suited wheel scores 10.
 */
module HandRank {
  import opened Cards

  datatype Ranked = Ranked(category: int, cards: seq<Card>)

  // ---------------------------------------------------------------------
  // Sorting: `hand.sort(key=value, reverse=True)`, a stable sort.
  // ---------------------------------------------------------------------

  /** Inserts `c` in front of the first card that is not worth more, so equal cards keep their input order. */
  function Insert(c: Card, s: seq<Card>): (r: seq<Card>)
    requires Descending(s)
    ensures Descending(r)
    ensures multiset(r) == multiset(s) + multiset{c}
    ensures |r| == |s| + 1
  {
    if |s| == 0 || s[0].value <= c.value then [c] + s
    else
      var rest := Insert(c, s[1..]);
      InsertBelow(c, s, rest);
      assert s == [s[0]] + s[1..];
      [s[0]] + rest
  }

  /** Inserting a card below the head of `s` into its tail keeps every card at or below that head. */
  lemma InsertBelow(c: Card, s: seq<Card>, rest: seq<Card>)
    requires Descending(s) && |s| > 0 && c.value < s[0].value
    requires multiset(rest) == multiset(s[1..]) + multiset{c}
    ensures forall k :: 0 <= k < |rest| ==> rest[k].value <= s[0].value
  {
    forall k | 0 <= k < |rest| ensures rest[k].value <= s[0].value {
      assert rest[k] in multiset(rest);
      if rest[k] != c {
        assert rest[k] in multiset(s[1..]);
        var j :| 0 <= j < |s[1..]| && s[1..][j] == rest[k];
        assert s[0].value >= s[j + 1].value;
      }
    }
  }

  function SortDesc(h: seq<Card>): (r: seq<Card>)
    ensures Descending(r)
    ensures multiset(r) == multiset(h)
    ensures |r| == |h|
  {
    if |h| == 0 then []
    else
      assert h == [h[0]] + h[1..];
      Insert(h[0], SortDesc(h[1..]))
  }

  // ---------------------------------------------------------------------
  // The shape of a hand: `Counter(ranks)` and the tests read from it.
  // ---------------------------------------------------------------------

  /** How many cards carry value `v` (the `Counter` entry of that rank). */
  function Count(h: seq<Card>, v: int): nat
  {
    if |h| == 0 then 0 else (if h[0].value == v then 1 else 0) + Count(h[1..], v)
  }

  function Max(a: int, b: int): int { if a >= b then a else b }

  /** The largest multiplicity among values v..14. */
  function TopFrom(h: seq<Card>, v: int): nat
    requires 2 <= v
    decreases 15 - v
  {
    if v > 14 then 0 else Max(Count(h, v), TopFrom(h, v + 1))
  }

  /** `counts_vals[0]`: the largest multiplicity of any value. */
  function TopCount(h: seq<Card>): nat
  {
    TopFrom(h, 2)
  }

  function ValueSet(h: seq<Card>): set<int>
  {
    set c | c in h :: c.value
  }

  /** `len(counts)`: the number of different values. */
  function DistinctCount(h: seq<Card>): nat
  {
    |ValueSet(h)|
  }

  /**
   * For five cards the sorted count list `counts_vals` is fixed by its head
   * and its length: [4,1] is TopCount 4; [3,2] is TopCount 3 with two values;
   * [3,1,1] is TopCount 3 with three; [2,2,1] is TopCount 2 with three values;
   * [2,1,1,1] is TopCount 2 with four.
   */
  predicate IsFlush(h: seq<Card>)
  {
    forall c, d :: c in h && d in h ==> c.suit == d.suit
  }

  /** `set(ranks) == {'A','2','3','4','5'}` */
  predicate IsWheel(h: seq<Card>)
  {
    ValueSet(h) == {14, 2, 3, 4, 5}
  }

  /** Five values, each one less than the one before. */
  predicate Consecutive(vs: seq<int>)
  {
    |vs| == 5 && forall i :: 0 <= i < 4 ==> vs[i] - 1 == vs[i + 1]
  }

  /** Straight as the source tests it on the value-sorted hand. */
  predicate IsStraight(hand: seq<Card>)
  {
    Consecutive(Values(SortDesc(hand))) || IsWheel(hand)
  }

  /**
   * `sorted(hand, key=lambda c: (c.value != 14, c.value))` applied to a wheel
   * sorted as A,5,4,3,2: the values are different, so the result is the ace
   * followed by the rest in ascending order.
   */
  function WheelOrder(h: seq<Card>): seq<Card>
    requires |h| == 5
  {
    [h[0], h[4], h[3], h[2], h[1]]
  }

  /**
   * The cards of `rest`, in order, whose value occurs `m` times in `full`
   * (when `grouped`) or does not (when not `grouped`).
   */
  function Pick(full: seq<Card>, rest: seq<Card>, m: nat, grouped: bool): seq<Card>
  {
    if |rest| == 0 then []
    else if (Count(full, rest[0].value) == m) == grouped then [rest[0]] + Pick(full, rest[1..], m, grouped)
    else Pick(full, rest[1..], m, grouped)
  }

  lemma {:induction false} PickFacts(full: seq<Card>, rest: seq<Card>, m: nat, grouped: bool)
    ensures forall x :: x in Pick(full, rest, m, grouped) ==> x in rest && ((Count(full, x.value) == m) == grouped)
    ensures Descending(rest) ==> Descending(Pick(full, rest, m, grouped))
  {
    if |rest| > 0 {
      PickFacts(full, rest[1..], m, grouped);
      var tail := Pick(full, rest[1..], m, grouped);
      assert forall x :: x in tail ==> x in rest[1..];
    }
  }

  /**
   * `sorted(hand, key=lambda c: (c.rank != g, c.value), reverse=True)` on a
   * value-descending hand, where g is the rank occurring `m` times: Python's
   * sort keeps equal keys in input order also when reversed, so the result is
   * the other cards followed by the grouped ones, each part as in `h`.
   */
  function KickersFirst(h: seq<Card>, m: nat): seq<Card>
  {
    Pick(h, h, m, false) + Pick(h, h, m, true)
  }

  /** The multiplicity that the grouped categories move to the back. */
  function GroupSize(category: int): nat
  {
    if category == 8 then 4 else if category == 4 then 3 else 2
  }

  /**
   * The tie-break layout of categories 8, 4, 3 and 2: a descending run of
   * cards whose value does not occur `m` times, then a descending run of the
   * cards whose value does.
   */
  predicate KickersThenGroup(cs: seq<Card>, hand: seq<Card>, m: nat)
  {
    exists k :: 0 <= k <= |cs|
      && Descending(cs[..k]) && Descending(cs[k..])
      && (forall i :: 0 <= i < k ==> Count(hand, cs[i].value) != m)
      && (forall i :: k <= i < |cs| ==> Count(hand, cs[i].value) == m)
  }

  /**
   * The locals `_calculate_hand_rank` computes from the value-sorted hand:
   * `is_flush`, `is_straight`, the wheel test, `counts_vals[0]` and
   * `len(counts)`.
   */
  datatype Shape = Shape(flush: bool, straight: bool, wheel: bool, top: nat, distinct: nat)

  function ShapeOf(h: seq<Card>): Shape
  {
    Shape(IsFlush(h), Consecutive(Values(h)) || IsWheel(h), IsWheel(h), TopCount(h), DistinctCount(h))
  }

  /**
   * The category chain of `_calculate_hand_rank`, on the value-sorted hand
   * `h` and its shape. `ordered` is the hand after the wheel re-sort.
   */
  function Classify(h: seq<Card>, s: Shape): Ranked
    requires |h| == 5
  {
    var ordered := Reordered(h, s);
    if s.straight && s.flush then Ranked(if h[0].value == 14 then 10 else 9, ordered)
    else if s.top == 4 then Ranked(8, KickersFirst(ordered, 4))
    else if s.top == 3 && s.distinct == 2 then Ranked(7, ordered)
    else if s.flush then Ranked(6, ordered)
    else if s.straight then Ranked(5, ordered)
    else if s.top == 3 then Ranked(4, KickersFirst(ordered, 3))
    else if s.top == 2 && s.distinct == 3 then Ranked(3, KickersFirst(ordered, 2))
    else if s.top == 2 then Ranked(2, KickersFirst(ordered, 2))
    else Ranked(1, ordered)
  }

  /** `hand` after the wheel re-sort: only a straight that is a wheel moves. */
  function Reordered(h: seq<Card>, s: Shape): seq<Card>
    requires |h| == 5
  {
    if s.straight && s.wheel then WheelOrder(h) else h
  }

  /** `_calculate_hand_rank`: the category of five cards and their tie-break ordering. */
  function RankOfFive(hand: seq<Card>): (r: Ranked)
    requires |hand| == 5
    ensures 1 <= r.category <= 10
    ensures |r.cards| == 5 && multiset(r.cards) == multiset(hand)
  {
    var h := SortDesc(hand);
    ClassifyPermutes(h, ShapeOf(h));
    Classify(h, ShapeOf(h))
  }

  /** Which ordering each category returns. */
  lemma ClassifyCases(h: seq<Card>, s: Shape)
    requires |h| == 5
    ensures var r := Classify(h, s);
      && 1 <= r.category <= 10
      && (r.category in {1, 5, 6, 7, 9, 10} ==> r.cards == Reordered(h, s))
      && (r.category in {2, 3, 4, 8} ==> r.cards == KickersFirst(Reordered(h, s), GroupSize(r.category)))
  {
  }

  lemma ClassifyPermutes(h: seq<Card>, s: Shape)
    requires |h| == 5
    ensures 1 <= Classify(h, s).category <= 10
    ensures |Classify(h, s).cards| == 5 && multiset(Classify(h, s).cards) == multiset(h)
  {
    WheelOrderPermutes(h);
    var ordered := Reordered(h, s);
    assert |ordered| == 5 && multiset(ordered) == multiset(h);
    ClassifyCases(h, s);
    var r := Classify(h, s);
    if r.category in {2, 3, 4, 8} {
      PickSplits(ordered, ordered, GroupSize(r.category));
    }
  }

  lemma WheelOrderPermutes(h: seq<Card>)
    requires |h| == 5
    ensures |WheelOrder(h)| == 5 && multiset(WheelOrder(h)) == multiset(h)
  {
    var w := WheelOrder(h);
    assert h == [h[0]] + [h[1]] + [h[2]] + [h[3]] + [h[4]];
    assert w == [h[0]] + [h[4]] + [h[3]] + [h[2]] + [h[1]];
    calc {
      multiset(w);
      multiset([h[0]]) + multiset([h[4]]) + multiset([h[3]]) + multiset([h[2]]) + multiset([h[1]]);
      multiset([h[0]]) + multiset([h[1]]) + multiset([h[2]]) + multiset([h[3]]) + multiset([h[4]]);
      multiset(h);
    }
  }

  /**
   * The tie-break layout: categories 8, 4, 3 and 2 put the cards that are not
   * part of the group first, each part in descending value order; the other
   * categories keep the whole hand in descending value order, except the
   * wheel, which comes out as A,2,3,4,5.
   */
  lemma RankLayout(hand: seq<Card>)
    requires |hand| == 5
    ensures var r := RankOfFive(hand);
      && (r.category in {2, 3, 4, 8} ==> KickersThenGroup(r.cards, hand, GroupSize(r.category)))
      && (r.category in {1, 6, 7} ==> Descending(r.cards))
      && (!IsWheel(hand) && r.category !in {2, 3, 4, 8} ==> Descending(r.cards))
      && (r.category in {2, 3, 4, 8} ==> Count(hand, r.cards[4].value) == GroupSize(r.category))
  {
    SortedShape(hand);
    var h := SortDesc(hand);
    ClassifyLayout(h, ShapeOf(h), hand);
    TopFromSame(h, hand, 2);
    LayoutGroup(h, ShapeOf(h), hand);
  }

  lemma LayoutGroup(h: seq<Card>, s: Shape, hand: seq<Card>)
    requires |h| == 5 && multiset(h) == multiset(hand) && s.top == TopCount(hand)
    requires var r := Classify(h, s);
      r.category in {2, 3, 4, 8} ==> KickersThenGroup(r.cards, hand, GroupSize(r.category))
    ensures |Classify(h, s).cards| == 5
    ensures var r := Classify(h, s);
      r.category in {2, 3, 4, 8} ==> Count(hand, r.cards[4].value) == GroupSize(r.category)
  {
    var r := Classify(h, s);
    ClassifyPermutes(h, s);
    if r.category in {2, 3, 4, 8} {
      ClassifyGroup(h, s);
      GroupOccurs(r.cards, hand, GroupSize(r.category));
    }
  }

  /** Categories 8, 4, 3 and 2 group the value that occurs most often. */
  lemma ClassifyGroup(h: seq<Card>, s: Shape)
    requires |h| == 5
    ensures Classify(h, s).category in {2, 3, 4, 8} ==> GroupSize(Classify(h, s).category) == s.top
  {
  }

  /** The group of a `KickersThenGroup` layout is not empty when some card of the hand has `m` of its value. */
  lemma GroupOccurs(cs: seq<Card>, hand: seq<Card>, m: nat)
    requires |cs| == 5 && multiset(cs) == multiset(hand) && m == TopCount(hand)
    requires KickersThenGroup(cs, hand, m)
    ensures Count(hand, cs[4].value) == m
  {
    TopCountIsLargest(hand);
    var v :| 2 <= v <= 14 && Count(hand, v) == m;
    assert Count(hand, hand[0].value) >= 1;
    CountSameMultiset(cs, hand);
    var j := CountedAt(cs, v);
    var k :| 0 <= k <= |cs|
      && Descending(cs[..k]) && Descending(cs[k..])
      && (forall i :: 0 <= i < k ==> Count(hand, cs[i].value) != m)
      && (forall i :: k <= i < |cs| ==> Count(hand, cs[i].value) == m);
    assert Count(hand, cs[j].value) == m;
  }

  /** A value that is counted is carried by some card. */
  lemma {:induction false} CountedAt(h: seq<Card>, v: int) returns (j: nat)
    requires Count(h, v) > 0
    ensures j < |h| && h[j].value == v
  {
    if h[0].value == v {
      j := 0;
    } else {
      var j' := CountedAt(h[1..], v);
      j := j' + 1;
    }
  }

  /**
   * A-2-3-4-5 is a straight whose ordering is A,2,3,4,5; unsuited it scores 5,
   * suited it scores 10 because the royal test reads the top value before
   * the ace is moved.
   */
  lemma WheelRank(hand: seq<Card>)
    requires |hand| == 5 && IsWheel(hand)
    ensures IsStraight(hand)
    ensures Values(RankOfFive(hand).cards) == [14, 2, 3, 4, 5]
    ensures RankOfFive(hand).category == (if IsFlush(hand) then 10 else 5)
  {
    SortedShape(hand);
    var h := SortDesc(hand);
    ClassifyWheel(h, ShapeOf(h));
  }

  /** What the value sort tells about the shape, and that the ranking is `Classify` of it. */
  lemma SortedShape(hand: seq<Card>)
    requires |hand| == 5
    ensures var h := SortDesc(hand); var s := ShapeOf(h);
      && |h| == 5 && Descending(h)
      && RankOfFive(hand) == Classify(h, s)
      && s.flush == IsFlush(hand) && s.wheel == IsWheel(hand) && s.straight == IsStraight(hand)
      && (s.wheel ==> Values(h) == [14, 5, 4, 3, 2] && s.top <= 1)
      && (forall v :: Count(h, v) == Count(hand, v))
  {
    var h := SortDesc(hand);
    SameMembers(h, hand);
    WheelFacts(h);
    CountSameMultiset(h, hand);
  }

  lemma ClassifyLayout(h: seq<Card>, s: Shape, hand: seq<Card>)
    requires |h| == 5 && Descending(h)
    requires s.wheel ==> s.top <= 1
    requires forall v :: Count(h, v) == Count(hand, v)
    ensures var r := Classify(h, s);
      && (r.category in {2, 3, 4, 8} ==> KickersThenGroup(r.cards, hand, GroupSize(r.category)))
      && (r.category in {1, 6, 7} ==> Descending(r.cards))
      && (!s.wheel && r.category !in {2, 3, 4, 8} ==> Descending(r.cards))
  {
    ClassifyCases(h, s);
    var r := Classify(h, s);
    if r.category in {2, 3, 4, 8} {
      assert Reordered(h, s) == h;
      KickersFirstLayout(h, hand, GroupSize(r.category));
    } else if r.category in {1, 6, 7} {
      assert Reordered(h, s) == h;
    }
  }

  lemma ClassifyWheel(h: seq<Card>, s: Shape)
    requires |h| == 5 && s.wheel && s.straight && s.top <= 1 && Values(h) == [14, 5, 4, 3, 2]
    ensures Classify(h, s).category == (if s.flush then 10 else 5)
    ensures Values(Classify(h, s).cards) == [14, 2, 3, 4, 5]
  {
    assert h[0].value == Values(h)[0] == 14;
    WheelOrderValues(h);
  }

  lemma WheelOrderValues(h: seq<Card>)
    requires |h| == 5
    ensures Values(WheelOrder(h)) == [Values(h)[0], Values(h)[4], Values(h)[3], Values(h)[2], Values(h)[1]]
  {
  }

  // ---------------------------------------------------------------------
  // Lemmas behind the ranking's properties.
  // ---------------------------------------------------------------------

  lemma SameElements(a: seq<Card>, b: seq<Card>)
    requires multiset(a) == multiset(b)
    ensures forall c :: c in a <==> c in b
  {
    forall c ensures c in a <==> c in b {
      assert c in a <==> c in multiset(a);
      assert c in b <==> c in multiset(b);
    }
  }

  /** Two orderings of the same cards agree on flush, wheel and value set. */
  lemma SameMembers(a: seq<Card>, b: seq<Card>)
    requires multiset(a) == multiset(b)
    ensures ValueSet(a) == ValueSet(b)
    ensures IsFlush(a) == IsFlush(b)
    ensures IsWheel(a) == IsWheel(b)
  {
    SameElements(a, b);
  }

  /** `Count` only depends on how many copies of each card there are. */
  lemma {:induction false} CountBySuit(h: seq<Card>, v: Value)
    ensures Count(h, v) == multiset(h)[Card(Spades, v)] + multiset(h)[Card(Hearts, v)]
                           + multiset(h)[Card(Diamonds, v)] + multiset(h)[Card(Clubs, v)]
  {
    if |h| > 0 {
      assert h == [h[0]] + h[1..];
      assert multiset(h) == multiset{h[0]} + multiset(h[1..]);
      CountBySuit(h[1..], v);
      match h[0].suit
      case Spades =>
      case Hearts =>
      case Diamonds =>
      case Clubs =>
    }
  }

  lemma {:induction false} CountOutOfRange(h: seq<Card>, v: int)
    requires v < 2 || v > 14
    ensures Count(h, v) == 0
  {
    if |h| > 0 {
      CountOutOfRange(h[1..], v);
    }
  }

  lemma CountSameMultiset(a: seq<Card>, b: seq<Card>)
    requires multiset(a) == multiset(b)
    ensures forall v :: Count(a, v) == Count(b, v)
  {
    forall v ensures Count(a, v) == Count(b, v) {
      if 2 <= v <= 14 {
        CountBySuit(a, v);
        CountBySuit(b, v);
      } else {
        CountOutOfRange(a, v);
        CountOutOfRange(b, v);
      }
    }
  }

  lemma {:induction false} CountIsValueMultiplicity(h: seq<Card>, v: int)
    ensures Count(h, v) == multiset(Values(h))[v]
  {
    if |h| > 0 {
      assert Values(h) == [h[0].value] + Values(h[1..]);
      CountIsValueMultiplicity(h[1..], v);
    }
  }

  lemma {:induction false} TopFromBound(h: seq<Card>, v: int, b: nat)
    requires 2 <= v
    requires forall w :: 2 <= w <= 14 ==> Count(h, w) <= b
    ensures TopFrom(h, v) <= b
    decreases 15 - v
  {
    if v <= 14 {
      TopFromBound(h, v + 1, b);
    }
  }

  lemma WheelFacts(h: seq<Card>)
    requires |h| == 5 && Descending(h)
    ensures IsWheel(h) ==> Values(h) == [14, 5, 4, 3, 2] && TopCount(h) <= 1
  {
    if IsWheel(h) {
      SortedWheel(h);
    }
  }

  lemma ValueAt(h: seq<Card>, x: int) returns (i: nat)
    requires x in ValueSet(h)
    ensures i < |h| && h[i].value == x
  {
    var c :| c in h && c.value == x;
    i :| i < |h| && h[i] == c;
  }

  /** A value-sorted wheel reads A,5,4,3,2 and has no repeated value. */
  lemma SortedWheel(h: seq<Card>)
    requires |h| == 5 && Descending(h) && IsWheel(h)
    ensures Values(h) == [14, 5, 4, 3, 2]
    ensures TopCount(h) <= 1
  {
    var i14 := ValueAt(h, 14);
    var i5 := ValueAt(h, 5);
    var i4 := ValueAt(h, 4);
    var i3 := ValueAt(h, 3);
    var i2 := ValueAt(h, 2);
    assert Values(h) == [14, 5, 4, 3, 2];
    forall w | 2 <= w <= 14 ensures Count(h, w) <= 1 {
      CountIsValueMultiplicity(h, w);
    }
    TopFromBound(h, 2, 1);
  }

  /** `KickersFirst` of a descending hand has the kickers-then-group layout. */
  lemma KickersFirstLayout(h: seq<Card>, hand: seq<Card>, m: nat)
    requires Descending(h)
    requires forall v :: Count(h, v) == Count(hand, v)
    ensures KickersThenGroup(KickersFirst(h, m), hand, m)
  {
    var kick := Pick(h, h, m, false);
    var grp := Pick(h, h, m, true);
    PickFacts(h, h, m, false);
    PickFacts(h, h, m, true);
    var cs := kick + grp;
    assert cs[..|kick|] == kick;
    assert cs[|kick|..] == grp;
    forall i | 0 <= i < |kick| ensures Count(hand, cs[i].value) != m {
      assert cs[i] in kick;
    }
    forall i | |kick| <= i < |cs| ensures Count(hand, cs[i].value) == m {
      assert cs[i] == grp[i - |kick|];
      assert cs[i] in grp;
    }
  }

  lemma {:induction false} PickSplits(full: seq<Card>, rest: seq<Card>, m: nat)
    ensures multiset(Pick(full, rest, m, false)) + multiset(Pick(full, rest, m, true)) == multiset(rest)
    ensures |Pick(full, rest, m, false)| + |Pick(full, rest, m, true)| == |rest|
  {
    if |rest| > 0 {
      assert rest == [rest[0]] + rest[1..];
      PickSplits(full, rest[1..], m);
    }
  }

  // ---------------------------------------------------------------------
  // Straights and the order-independence of the ranking.
  // ---------------------------------------------------------------------

  /**
   * A straight flush scores 10 exactly when its top card after the value sort
   * is an ace and 9 otherwise, so a suited wheel also scores 10.
   */
  lemma StraightFlushCategory(hand: seq<Card>)
    requires |hand| == 5
    requires IsStraight(hand) && IsFlush(hand)
    ensures RankOfFive(hand).category == (if SortDesc(hand)[0].value == 14 then 10 else 9)
  {
    SortedShape(hand);
  }

  /** Only a straight flush reaches categories 9 and 10; 6 is a flush and 5 a straight without the other. */
  lemma StraightAndFlushCategories(hand: seq<Card>)
    requires |hand| == 5
    ensures RankOfFive(hand).category >= 9 <==> IsStraight(hand) && IsFlush(hand)
    ensures RankOfFive(hand).category == 5 ==> IsStraight(hand) && !IsFlush(hand)
    ensures RankOfFive(hand).category == 6 ==> IsFlush(hand) && !IsStraight(hand)
  {
    SortedShape(hand);
    var h := SortDesc(hand);
    ClassifyCategories(h, ShapeOf(h));
  }

  lemma ClassifyCategories(h: seq<Card>, s: Shape)
    requires |h| == 5
    ensures Classify(h, s).category >= 9 <==> s.straight && s.flush
    ensures Classify(h, s).category == 5 ==> s.straight && !s.flush
    ensures Classify(h, s).category == 6 ==> s.flush && !s.straight
  {
  }

  /** Two descending integer sequences holding the same values are equal. */
  lemma {:induction false} SortedIntsUnique(x: seq<int>, y: seq<int>)
    requires forall i, j :: 0 <= i < j < |x| ==> x[i] >= x[j]
    requires forall i, j :: 0 <= i < j < |y| ==> y[i] >= y[j]
    requires multiset(x) == multiset(y)
    ensures x == y
  {
    assert |y| == |multiset(y)| == |multiset(x)| == |x|;
    if |x| > 0 {
      SortedHeads(x, y);
      TailMultiset(x);
      TailMultiset(y);
      SortedIntsUnique(x[1..], y[1..]);
      assert x == [x[0]] + x[1..];
      assert y == [y[0]] + y[1..];
    }
  }

  /** Two non-increasing orderings of the same numbers start with the same, largest, one. */
  lemma SortedHeads(x: seq<int>, y: seq<int>)
    requires |x| > 0 && |y| > 0
    requires forall i, j :: 0 <= i < j < |x| ==> x[i] >= x[j]
    requires forall i, j :: 0 <= i < j < |y| ==> y[i] >= y[j]
    requires multiset(x) == multiset(y)
    ensures x[0] == y[0]
  {
    assert x[0] in multiset(y);
    assert y[0] in multiset(x);
    var i :| 0 <= i < |y| && y[i] == x[0];
    var j :| 0 <= j < |x| && x[j] == y[0];
    assert y[0] >= y[i];
    assert x[0] >= x[j];
  }

  lemma TailMultiset(x: seq<int>)
    requires |x| > 0
    ensures multiset(x[1..]) == multiset(x) - multiset{x[0]}
  {
    assert x == [x[0]] + x[1..];
  }

  lemma ValuesSameMultiset(a: seq<Card>, b: seq<Card>)
    requires multiset(a) == multiset(b)
    ensures multiset(Values(a)) == multiset(Values(b))
  {
    CountSameMultiset(a, b);
    forall v ensures multiset(Values(a))[v] == multiset(Values(b))[v] {
      CountIsValueMultiplicity(a, v);
      CountIsValueMultiplicity(b, v);
    }
  }

  lemma SortedValuesUnique(a: seq<Card>, b: seq<Card>)
    requires Descending(a) && Descending(b) && multiset(a) == multiset(b)
    ensures Values(a) == Values(b)
  {
    ValuesSameMultiset(a, b);
    SortedIntsUnique(Values(a), Values(b));
  }

  lemma {:induction false} PickSameValues(f1: seq<Card>, f2: seq<Card>, r1: seq<Card>, r2: seq<Card>, m: nat, g: bool)
    requires forall v :: Count(f1, v) == Count(f2, v)
    requires Values(r1) == Values(r2)
    ensures Values(Pick(f1, r1, m, g)) == Values(Pick(f2, r2, m, g))
  {
    assert |r2| == |Values(r2)| == |r1|;
    if |r1| > 0 {
      assert r1[0].value == Values(r1)[0] == Values(r2)[0] == r2[0].value;
      assert Values(r1[1..]) == Values(r1)[1..];
      assert Values(r2[1..]) == Values(r2)[1..];
      PickSameValues(f1, f2, r1[1..], r2[1..], m, g);
      var t1 := Pick(f1, r1[1..], m, g);
      var t2 := Pick(f2, r2[1..], m, g);
      if (Count(f1, r1[0].value) == m) == g {
        assert Values([r1[0]] + t1) == [r1[0].value] + Values(t1);
        assert Values([r2[0]] + t2) == [r2[0].value] + Values(t2);
      }
    }
  }

  /**
   * The ranking does not depend on the order the five cards arrive in: any
   * two orderings of the same cards get the same category and the same
   * tie-break value sequence.
   */
  lemma RankOrderIndependent(a: seq<Card>, b: seq<Card>)
    requires |a| == 5 && multiset(a) == multiset(b)
    ensures |b| == 5
    ensures RankOfFive(a).category == RankOfFive(b).category
    ensures Values(RankOfFive(a).cards) == Values(RankOfFive(b).cards)
  {
    assert |b| == |multiset(b)| == |multiset(a)| == 5;
    SortedShape(a);
    SortedShape(b);
    var ha, hb := SortDesc(a), SortDesc(b);
    SortedValuesUnique(ha, hb);
    SameMembers(ha, hb);
    CountSameMultiset(ha, hb);
    TopFromSame(ha, hb, 2);
    assert ShapeOf(ha) == ShapeOf(hb);
    ClassifySameValues(ha, hb, ShapeOf(ha));
  }

  lemma ClassifySameValues(ha: seq<Card>, hb: seq<Card>, s: Shape)
    requires |ha| == 5 && Values(ha) == Values(hb)
    requires forall v :: Count(ha, v) == Count(hb, v)
    ensures |hb| == 5
    ensures Classify(ha, s).category == Classify(hb, s).category
    ensures Values(Classify(ha, s).cards) == Values(Classify(hb, s).cards)
  {
    assert |hb| == |Values(hb)| == 5;
    assert ha[0].value == Values(ha)[0] == Values(hb)[0] == hb[0].value;
    ReorderedSameValues(ha, hb, s);
    ClassifyCases(ha, s);
    ClassifyCases(hb, s);
    var c := Classify(ha, s).category;
    if c in {2, 3, 4, 8} {
      KickersSameValues(Reordered(ha, s), Reordered(hb, s), GroupSize(c));
    }
  }

  lemma ReorderedSameValues(ha: seq<Card>, hb: seq<Card>, s: Shape)
    requires |ha| == 5 && |hb| == 5 && Values(ha) == Values(hb)
    requires forall v :: Count(ha, v) == Count(hb, v)
    ensures Values(Reordered(ha, s)) == Values(Reordered(hb, s))
    ensures forall v :: Count(Reordered(ha, s), v) == Count(Reordered(hb, s), v)
  {
    WheelOrderValues(ha);
    WheelOrderValues(hb);
    var oa, ob := Reordered(ha, s), Reordered(hb, s);
    if s.straight && s.wheel {
      CountSameMultiset(ha, oa) by { WheelOrderPermutes(ha); }
      CountSameMultiset(hb, ob) by { WheelOrderPermutes(hb); }
    }
  }

  lemma KickersSameValues(oa: seq<Card>, ob: seq<Card>, m: nat)
    requires Values(oa) == Values(ob)
    requires forall v :: Count(oa, v) == Count(ob, v)
    ensures Values(KickersFirst(oa, m)) == Values(KickersFirst(ob, m))
  {
    PickSameValues(oa, ob, oa, ob, m, false);
    PickSameValues(oa, ob, oa, ob, m, true);
    ValuesConcat(Pick(oa, oa, m, false), Pick(oa, oa, m, true));
    ValuesConcat(Pick(ob, ob, m, false), Pick(ob, ob, m, true));
  }

  lemma {:induction false} TopFromSame(a: seq<Card>, b: seq<Card>, v: int)
    requires 2 <= v
    requires forall w :: Count(a, w) == Count(b, w)
    ensures TopFrom(a, v) == TopFrom(b, v)
    decreases 15 - v
  {
    if v <= 14 {
      TopFromSame(a, b, v + 1);
    }
  }

  lemma ValuesConcat(a: seq<Card>, b: seq<Card>)
    ensures Values(a + b) == Values(a) + Values(b)
  {
  }

  // ---------------------------------------------------------------------
  // The categories in poker's own terms, read from the value counts.
  // ---------------------------------------------------------------------

  /**
   * Which five cards of one deck score what: a straight flush 9 or 10, four
   * of a kind 8, a full house 7 (three of a value and two of another), a
   * flush 6, a straight 5, three of a kind 4, two pair 3, one pair 2, and
   * otherwise 1. Categories 8, 7, 4, 3 and 2 are read from the largest
   * number of cards sharing a value (`TopCount`) and the number of different
   * values (`DistinctCount`).
   */
  lemma RankCategories(hand: seq<Card>)
    requires |hand| == 5 && Distinct(hand)
    ensures var c := RankOfFive(hand).category;
      var top := TopCount(hand); var d := DistinctCount(hand);
      var flush := IsFlush(hand); var straight := IsStraight(hand);
      && (c >= 9 <==> straight && flush)
      && (c == 8 <==> top == 4)
      && (c == 7 <==> top == 3 && d == 2)
      && (c == 6 <==> flush && !straight)
      && (c == 5 <==> straight && !flush)
      && (c == 4 <==> top == 3 && d == 3)
      && (c == 3 <==> top == 2 && d == 3)
      && (c == 2 <==> top == 2 && d == 4)
      && (c == 1 <==> d == 5 && !flush && !straight)
  {
    SortedShape(hand);
    var h := SortDesc(hand);
    var s := ShapeOf(h);
    SameMembers(h, hand);
    TopFromSame(h, hand, 2);
    FiveCardCounts(hand);
    OneDeckTop(hand);
    if IsFlush(hand) {
      FlushNoRepeat(hand);
    }
    if IsStraight(hand) {
      StraightNoRepeat(hand);
    }
    ClassifyStandard(h, s);
  }

  /** `TopCount` is the largest number of cards sharing one value, and some value reaches it. */
  lemma TopCountIsLargest(h: seq<Card>)
    ensures forall v :: Count(h, v) <= TopCount(h)
    ensures |h| > 0 ==> exists v :: 2 <= v <= 14 && Count(h, v) == TopCount(h)
  {
    TopFromFacts(h, 2);
    forall v ensures Count(h, v) <= TopCount(h) {
      if v < 2 || v > 14 {
        CountOutOfRange(h, v);
      }
    }
    if |h| > 0 {
      assert Count(h, h[0].value) >= 1;
    }
  }

  lemma {:induction false} TopFromFacts(h: seq<Card>, lo: int)
    requires 2 <= lo
    ensures forall v :: lo <= v <= 14 ==> Count(h, v) <= TopFrom(h, lo)
    ensures TopFrom(h, lo) > 0 ==> exists v :: lo <= v <= 14 && Count(h, v) == TopFrom(h, lo)
    decreases 15 - lo
  {
    if lo <= 14 {
      TopFromFacts(h, lo + 1);
    }
  }

  /** The category chain on a shape whose counts are those of five cards from one deck. */
  lemma ClassifyStandard(h: seq<Card>, s: Shape)
    requires |h| == 5
    requires 1 <= s.top <= 4 && 1 <= s.distinct
    requires s.top * s.distinct >= 5 && s.top + s.distinct <= 6
    requires s.flush ==> s.top <= 1
    requires s.straight ==> s.top <= 1
    ensures var c := Classify(h, s).category;
      && (c >= 9 <==> s.straight && s.flush)
      && (c == 8 <==> s.top == 4)
      && (c == 7 <==> s.top == 3 && s.distinct == 2)
      && (c == 6 <==> s.flush && !s.straight)
      && (c == 5 <==> s.straight && !s.flush)
      && (c == 4 <==> s.top == 3 && s.distinct == 3)
      && (c == 3 <==> s.top == 2 && s.distinct == 3)
      && (c == 2 <==> s.top == 2 && s.distinct == 4)
      && (c == 1 <==> s.distinct == 5 && !s.flush && !s.straight)
  {
    ShapeArithmetic(s.top, s.distinct);
  }

  /** What `top * d >= 5` and `top + d <= 6` leave for the largest count `top` and the number of values `d`. */
  lemma ShapeArithmetic(top: int, d: int)
    requires 1 <= top <= 4 && 1 <= d
    requires top * d >= 5 && top + d <= 6
    ensures top == 1 <==> d == 5
    ensures top == 2 ==> 3 <= d <= 4
    ensures top == 3 ==> 2 <= d <= 3
    ensures top == 4 ==> d == 2
  {
    if top == 1 {
      assert d >= 5;
    } else if top == 2 {
      assert 2 * d >= 5;
    } else if top == 3 {
      assert 3 * d >= 5;
    } else {
      assert 4 * d >= 5;
    }
  }

  /** Cards with a value in `lo..14`. */
  function CountFrom(h: seq<Card>, lo: int): nat
    requires 2 <= lo
    decreases 15 - lo
  {
    if lo > 14 then 0 else Count(h, lo) + CountFrom(h, lo + 1)
  }

  /** Different values in `lo..14` that occur. */
  function ValuesFrom(h: seq<Card>, lo: int): nat
    requires 2 <= lo
    decreases 15 - lo
  {
    if lo > 14 then 0 else (if Count(h, lo) > 0 then 1 else 0) + ValuesFrom(h, lo + 1)
  }

  /**
   * Splitting `r` cards among `d` values, none with more than `t`: at most
   * `t * d` cards, and at least `t` for the largest value plus one for each
   * other.
   */
  lemma {:induction false} CountsBounds(h: seq<Card>, lo: int)
    requires 2 <= lo
    ensures var r, t, d := CountFrom(h, lo), TopFrom(h, lo), ValuesFrom(h, lo);
      && r <= t * d
      && (d == 0 ==> r == 0 && t == 0)
      && (d >= 1 ==> t >= 1 && r + 1 >= t + d)
    decreases 15 - lo
  {
    if lo <= 14 {
      CountsBounds(h, lo + 1);
      BoundsStep(Count(h, lo), CountFrom(h, lo + 1), TopFrom(h, lo + 1), ValuesFrom(h, lo + 1));
    }
  }

  /** Adding `c` cards of one more value to `r` cards over `d` values, none above `t`. */
  lemma BoundsStep(c: nat, r: nat, t: nat, d: nat)
    requires r <= t * d
    requires d == 0 ==> r == 0 && t == 0
    requires d >= 1 ==> t >= 1 && r + 1 >= t + d
    ensures var t2, d2 := Max(c, t), d + (if c > 0 then 1 else 0);
      && c + r <= t2 * d2
      && (d2 == 0 ==> c + r == 0 && t2 == 0)
      && (d2 >= 1 ==> t2 >= 1 && c + r + 1 >= t2 + d2)
  {
    var t2 := Max(c, t);
    if c > 0 {
      MulMono(t, t2, d);
      assert t2 * (d + 1) == t2 * d + t2;
    }
  }

  lemma MulMono(a: int, b: int, k: nat)
    requires a <= b
    ensures a * k <= b * k
  {
  }

  lemma {:induction false} CountFromCons(h: seq<Card>, lo: int)
    requires 2 <= lo && |h| > 0
    ensures CountFrom(h, lo) == (if lo <= h[0].value then 1 else 0) + CountFrom(h[1..], lo)
    decreases 15 - lo
  {
    if lo <= 14 {
      CountFromCons(h, lo + 1);
    }
  }

  lemma {:induction false} CountFromLength(h: seq<Card>)
    ensures CountFrom(h, 2) == |h|
  {
    if |h| == 0 {
      CountFromEmpty(h, 2);
    } else {
      CountFromCons(h, 2);
      CountFromLength(h[1..]);
    }
  }

  lemma {:induction false} CountFromEmpty(h: seq<Card>, lo: int)
    requires 2 <= lo && |h| == 0
    ensures CountFrom(h, lo) == 0
    decreases 15 - lo
  {
    if lo <= 14 {
      CountFromEmpty(h, lo + 1);
    }
  }

  /** The values that occur, from `lo` on. */
  function OccurringFrom(h: seq<Card>, lo: int): set<int>
  {
    set v | lo <= v <= 14 && Count(h, v) > 0
  }

  lemma {:induction false} ValuesFromSize(h: seq<Card>, lo: int)
    requires 2 <= lo
    ensures |OccurringFrom(h, lo)| == ValuesFrom(h, lo)
    decreases 15 - lo
  {
    if lo > 14 {
      assert OccurringFrom(h, lo) == {};
    } else {
      ValuesFromSize(h, lo + 1);
      OccurringStep(h, lo);
    }
  }

  lemma OccurringStep(h: seq<Card>, lo: int)
    requires 2 <= lo <= 14
    ensures lo !in OccurringFrom(h, lo + 1)
    ensures OccurringFrom(h, lo) == (if Count(h, lo) > 0 then {lo} else {}) + OccurringFrom(h, lo + 1)
  {
  }

  /** A value occurs exactly when some card carries it. */
  lemma ValueSetIsOccurring(h: seq<Card>)
    ensures ValueSet(h) == OccurringFrom(h, 2)
  {
    forall v ensures v in ValueSet(h) <==> v in OccurringFrom(h, 2) {
      CountIsValueMultiplicity(h, v);
      if v in ValueSet(h) {
        var i := ValueAt(h, v);
        assert Values(h)[i] == v;
      }
      if v in OccurringFrom(h, 2) {
        assert v in multiset(Values(h));
        var i :| 0 <= i < |Values(h)| && Values(h)[i] == v;
        assert h[i] in h;
      }
    }
  }

  /** Five cards: their largest count and number of values fit together as a split of five. */
  lemma FiveCardCounts(h: seq<Card>)
    requires |h| == 5
    ensures 1 <= TopCount(h) && 1 <= DistinctCount(h)
    ensures TopCount(h) * DistinctCount(h) >= 5 && TopCount(h) + DistinctCount(h) <= 6
  {
    CountFromLength(h);
    CountsBounds(h, 2);
    ValuesFromSize(h, 2);
    ValueSetIsOccurring(h);
  }

  /** One deck has four cards of each value. */
  lemma OneDeckTop(h: seq<Card>)
    requires Distinct(h)
    ensures TopCount(h) <= 4
  {
    forall w | 2 <= w <= 14 ensures Count(h, w) <= 4 {
      CountBySuit(h, w);
      DistinctCountsOnce(h, Card(Spades, w));
      DistinctCountsOnce(h, Card(Hearts, w));
      DistinctCountsOnce(h, Card(Diamonds, w));
      DistinctCountsOnce(h, Card(Clubs, w));
    }
    TopFromBound(h, 2, 4);
  }

  /** Different cards of one suit carry different values. */
  lemma FlushNoRepeat(h: seq<Card>)
    requires Distinct(h) && IsFlush(h) && |h| > 0
    ensures TopCount(h) <= 1
  {
    var s := h[0].suit;
    forall w | 2 <= w <= 14 ensures Count(h, w) <= 1 {
      CountBySuit(h, w);
      forall t: Suit | t != s ensures multiset(h)[Card(t, w)] == 0 {
        assert Card(t, w) !in h;
      }
      DistinctCountsOnce(h, Card(s, w));
    }
    TopFromBound(h, 2, 1);
  }

  /** A straight has five different values. */
  lemma StraightNoRepeat(hand: seq<Card>)
    requires |hand| == 5 && IsStraight(hand)
    ensures TopCount(hand) <= 1
  {
    SortedShape(hand);
    var h := SortDesc(hand);
    TopFromSame(h, hand, 2);
    if !IsWheel(hand) {
      ConsecutiveOnce(Values(h));
      OnceEach(h);
    }
  }

  /** No value repeats: no count above one. */
  lemma OnceEach(h: seq<Card>)
    requires forall w :: multiset(Values(h))[w] <= 1
    ensures TopCount(h) <= 1
  {
    forall w | 2 <= w <= 14 ensures Count(h, w) <= 1 {
      CountIsValueMultiplicity(h, w);
    }
    TopFromBound(h, 2, 1);
  }

  lemma ConsecutiveOnce(vs: seq<int>)
    requires Consecutive(vs)
    ensures forall w :: multiset(vs)[w] <= 1
  {
    assert forall i, j :: 0 <= i < j < 5 ==> vs[i] - vs[j] == j - i by {
      forall i, j | 0 <= i < j < 5 ensures vs[i] - vs[j] == j - i {
        var k := i;
        while k < j
          invariant i <= k <= j
          invariant vs[i] - vs[k] == k - i
        {
          k := k + 1;
        }
      }
    }
    forall w ensures multiset(vs)[w] <= 1 {
      StrictOnce(vs, w);
    }
  }

  lemma {:induction false} StrictOnce(vs: seq<int>, w: int)
    requires forall i, j :: 0 <= i < j < |vs| ==> vs[i] > vs[j]
    ensures multiset(vs)[w] <= 1
  {
    if |vs| > 0 {
      assert vs == [vs[0]] + vs[1..];
      StrictOnce(vs[1..], w);
      if vs[0] == w {
        assert w !in vs[1..];
      }
    }
  }

  // ---------------------------------------------------------------------
  // `_compare_hands`
  // ---------------------------------------------------------------------

  /**
   * Walks both orderings in step (as `zip` does, stopping at the shorter)
   * and answers 1 or -1 at the first position whose values differ, 0 when
   * there is none.
   */
  function Compare(a: seq<Card>, b: seq<Card>): (r: int)
    ensures r in {-1, 0, 1}
  {
    if |a| == 0 || |b| == 0 then 0
    else if a[0].value > b[0].value then 1
    else if a[0].value < b[0].value then -1
    else Compare(a[1..], b[1..])
  }

  /** The first differing position decides. */
  lemma {:induction false} CompareDecidedAt(a: seq<Card>, b: seq<Card>, k: nat)
    requires k < |a| && k < |b|
    requires forall i :: 0 <= i < k ==> a[i].value == b[i].value
    requires a[k].value != b[k].value
    ensures Compare(a, b) == (if a[k].value > b[k].value then 1 else -1)
  {
    if k > 0 {
      assert a[0].value == b[0].value;
      CompareDecidedAt(a[1..], b[1..], k - 1);
    }
  }

  /** With no differing position in the common prefix the result is 0; in particular on equal value sequences. */
  lemma {:induction false} CompareNoDifference(a: seq<Card>, b: seq<Card>)
    requires forall i :: 0 <= i < |a| && i < |b| ==> a[i].value == b[i].value
    ensures Compare(a, b) == 0
  {
    if |a| > 0 && |b| > 0 {
      assert a[0].value == b[0].value;
      CompareNoDifference(a[1..], b[1..]);
    }
  }

  lemma {:induction false} CompareAntisymmetric(a: seq<Card>, b: seq<Card>)
    ensures Compare(a, b) == -Compare(b, a)
  {
    if |a| > 0 && |b| > 0 && a[0].value == b[0].value {
      CompareAntisymmetric(a[1..], b[1..]);
    }
  }

  /** On orderings of equal length, 0 means exactly equal value sequences. */
  lemma {:induction false} CompareZeroIffSameValues(a: seq<Card>, b: seq<Card>)
    requires |a| == |b|
    ensures Compare(a, b) == 0 <==> Values(a) == Values(b)
  {
    if |a| > 0 {
      assert Values(a) == [a[0].value] + Values(a[1..]);
      assert Values(b) == [b[0].value] + Values(b[1..]);
      CompareZeroIffSameValues(a[1..], b[1..]);
      if Values(a) == Values(b) {
        assert Values(a)[0] == Values(b)[0];
        assert Values(a)[1..] == Values(b)[1..];
      }
    }
  }

  /** `Compare` orders equal-length orderings transitively. */
  lemma {:induction false} CompareTransitive(a: seq<Card>, b: seq<Card>, c: seq<Card>)
    requires |a| == |b| == |c|
    requires Compare(a, b) <= 0 && Compare(b, c) <= 0
    ensures Compare(a, c) <= 0
    ensures Compare(a, b) < 0 || Compare(b, c) < 0 ==> Compare(a, c) < 0
  {
    if |a| > 0 && a[0].value == b[0].value == c[0].value {
      CompareTransitive(a[1..], b[1..], c[1..]);
    }
  }
}
