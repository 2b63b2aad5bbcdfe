/**
 * The best five-card hand out of a player's cards (poker_backend.py,
 * `evaluate_hand`): every 5-card subset, in the order
 * `itertools.combinations` yields them, is ranked, and the running best is
 * replaced by a higher category or, within the same category, by an
 * ordering that `_compare_hands` puts strictly ahead.
 */
module BestHand {
  import opened Cards
  import opened HandRank

  /** `(best_rank, best_hand_cards, name)`. */
  datatype HandResult = HandResult(category: int, cards: seq<Card>, name: string)

  /** `HAND_NAMES.get(category, "Unknown")`. */
  function HandName(category: int): (name: string)
    ensures name == "Unknown" <==> !(1 <= category <= 10)
  {
    match category
    case 10 => "Royal Flush"
    case 9 => "Straight Flush"
    case 8 => "Four of a Kind"
    case 7 => "Full House"
    case 6 => "Flush"
    case 5 => "Straight"
    case 4 => "Three of a Kind"
    case 3 => "Two Pair"
    case 2 => "One Pair"
    case 1 => "High Card"
    case _ => "Unknown"
  }

  // ---------------------------------------------------------------------
  // `itertools.combinations(hand, k)`.
  // ---------------------------------------------------------------------

  function Prefix(c: Card, xs: seq<seq<Card>>): (r: seq<seq<Card>>)
  {
    seq(|xs|, i requires 0 <= i < |xs| => [c] + xs[i])
  }

  /**
   * The k-element selections of `s` in lexicographic order of their
   * positions: those that take `s[0]` come first.
   */
  function Combinations(s: seq<Card>, k: nat): seq<seq<Card>>
    decreases |s|
  {
    if k == 0 then [[]]
    else if |s| < k then []
    else Prefix(s[0], Combinations(s[1..], k - 1)) + Combinations(s[1..], k)
  }

  /** Strictly increasing positions below `n`: a selection without repeats. */
  predicate Increasing(idx: seq<int>, n: int)
  {
    (forall i, j :: 0 <= i < j < |idx| ==> idx[i] < idx[j])
    && (forall i :: 0 <= i < |idx| ==> 0 <= idx[i] < n)
  }

  /** The cards of `s` at the positions `idx`, in that order. */
  function Choose(s: seq<Card>, idx: seq<int>): seq<Card>
    requires Increasing(idx, |s|)
  {
    seq(|idx|, j requires 0 <= j < |idx| => s[idx[j]])
  }

  function Binomial(n: nat, k: nat): nat
  {
    if k == 0 then 1 else if n == 0 then 0 else Binomial(n - 1, k - 1) + Binomial(n - 1, k)
  }

  /** There are `n choose k` combinations. */
  lemma {:induction false} CombinationsCount(s: seq<Card>, k: nat)
    ensures |Combinations(s, k)| == Binomial(|s|, k)
    decreases |s|
  {
    if k > 0 {
      if |s| < k {
        BinomialZero(|s|, k);
      } else {
        CombinationsCount(s[1..], k - 1);
        CombinationsCount(s[1..], k);
      }
    }
  }

  lemma {:induction false} BinomialZero(n: nat, k: nat)
    requires n < k
    ensures Binomial(n, k) == 0
  {
    if n > 0 {
      BinomialZero(n - 1, k - 1);
      BinomialZero(n - 1, k);
    }
  }

  function Shift(idx: seq<int>): seq<int>
  {
    seq(|idx|, j requires 0 <= j < |idx| => idx[j] - 1)
  }

  function Lift(idx: seq<int>): seq<int>
  {
    seq(|idx|, j requires 0 <= j < |idx| => idx[j] + 1)
  }

  /** A selection that takes the first card: that card, then a selection from the rest. */
  lemma ChooseTakesFirst(s: seq<Card>, idx: seq<int>)
    requires Increasing(idx, |s|) && |idx| > 0 && idx[0] == 0
    ensures Increasing(Shift(idx[1..]), |s| - 1)
    ensures Choose(s, idx) == [s[0]] + Choose(s[1..], Shift(idx[1..]))
  {
    var rest := Shift(idx[1..]);
    forall i | 0 <= i < |rest| ensures 0 <= rest[i] < |s| - 1 {
      assert idx[0] < idx[i + 1];
    }
    assert Increasing(rest, |s| - 1);
    var c := Choose(s, idx);
    var d := [s[0]] + Choose(s[1..], rest);
    assert |c| == |d|;
    forall j | 0 <= j < |c| ensures c[j] == d[j] {
      if j > 0 {
        assert rest[j - 1] == idx[j] - 1;
      }
    }
  }

  /** A selection that skips the first card is a selection from the rest. */
  lemma ChooseSkipsFirst(s: seq<Card>, idx: seq<int>)
    requires Increasing(idx, |s|) && |idx| > 0 && idx[0] > 0
    ensures Increasing(Shift(idx), |s| - 1)
    ensures Choose(s, idx) == Choose(s[1..], Shift(idx))
  {
    var rest := Shift(idx);
    forall i | 0 <= i < |rest| ensures 0 <= rest[i] < |s| - 1 {
      assert idx[0] <= idx[i];
    }
    assert Increasing(rest, |s| - 1);
    var c := Choose(s, idx);
    var d := Choose(s[1..], rest);
    assert |c| == |d|;
    forall j | 0 <= j < |c| ensures c[j] == d[j] {
      assert rest[j] == idx[j] - 1;
    }
  }

  lemma PrefixHolds(c: Card, xs: seq<seq<Card>>, x: seq<Card>)
    requires x in xs
    ensures [c] + x in Prefix(c, xs)
  {
    var j :| 0 <= j < |xs| && xs[j] == x;
    assert Prefix(c, xs)[j] == [c] + x;
  }

  /** Every selection by increasing positions is one of the combinations. */
  lemma {:induction false} ChosenIsCombination(s: seq<Card>, idx: seq<int>)
    requires Increasing(idx, |s|)
    ensures Choose(s, idx) in Combinations(s, |idx|)
    decreases |s|
  {
    var k := |idx|;
    if k == 0 {
      assert Choose(s, idx) == [];
    } else {
      IncreasingBound(idx, |s|);
      assert Combinations(s, k) == Prefix(s[0], Combinations(s[1..], k - 1)) + Combinations(s[1..], k);
      if idx[0] == 0 {
        ChooseTakesFirst(s, idx);
        var rest := Shift(idx[1..]);
        assert |rest| == k - 1;
        ChosenIsCombination(s[1..], rest);
        PrefixHolds(s[0], Combinations(s[1..], k - 1), Choose(s[1..], rest));
      } else {
        ChooseSkipsFirst(s, idx);
        ChosenIsCombination(s[1..], Shift(idx));
      }
    }
  }

  /** `k` increasing positions below `n` need `k <= n`. */
  lemma {:induction false} IncreasingBound(idx: seq<int>, n: nat)
    requires Increasing(idx, n)
    ensures |idx| <= n
    decreases |idx|
  {
    if |idx| > 0 {
      assert 0 <= idx[0] < n;
      var rest := Shift(idx[1..]);
      forall i | 0 <= i < |rest| ensures 0 <= rest[i] < n - 1 {
        assert idx[0] < idx[i + 1];
      }
      forall i, j | 0 <= i < j < |rest| ensures rest[i] < rest[j] {
        assert idx[i + 1] < idx[j + 1];
      }
      assert Increasing(rest, n - 1);
      IncreasingBound(rest, n - 1);
    }
  }

  /** Positions of a selection from `s[1..]`, moved up by one, select the same cards from `s`. */
  lemma LiftChoose(s: seq<Card>, rest: seq<int>, first: bool)
    requires |s| > 0 && Increasing(rest, |s| - 1)
    ensures var idx := if first then [0] + Lift(rest) else Lift(rest);
      && Increasing(idx, |s|)
      && Choose(s, idx) == (if first then [s[0]] else []) + Choose(s[1..], rest)
  {
    LiftSelects(s, rest);
    if first {
      LiftWithFirst(s, rest);
    }
  }

  lemma LiftSelects(s: seq<Card>, rest: seq<int>)
    requires |s| > 0 && Increasing(rest, |s| - 1)
    ensures Increasing(Lift(rest), |s|)
    ensures Choose(s, Lift(rest)) == Choose(s[1..], rest)
  {
    var idx := Lift(rest);
    assert Increasing(idx, |s|);
    var c := Choose(s, idx);
    var d := Choose(s[1..], rest);
    forall j | 0 <= j < |c| ensures c[j] == d[j] {
      assert idx[j] == rest[j] + 1;
    }
  }

  lemma LiftWithFirst(s: seq<Card>, rest: seq<int>)
    requires |s| > 0 && Increasing(rest, |s| - 1) && Increasing(Lift(rest), |s|)
    ensures Increasing([0] + Lift(rest), |s|)
    ensures Choose(s, [0] + Lift(rest)) == [s[0]] + Choose(s, Lift(rest))
  {
    var l := Lift(rest);
    var idx := [0] + l;
    forall i | 0 <= i < |idx| ensures 0 <= idx[i] < |s| {
      if i > 0 {
        assert idx[i] == l[i - 1];
      }
    }
    forall i, j | 0 <= i < j < |idx| ensures idx[i] < idx[j] {
      assert idx[j] == l[j - 1] == rest[j - 1] + 1;
      if i > 0 {
        assert idx[i] == l[i - 1];
      }
    }
    var c := Choose(s, idx);
    var d := [s[0]] + Choose(s, l);
    forall j | 0 <= j < |c| ensures c[j] == d[j] {
      if j > 0 {
        assert idx[j] == l[j - 1];
      }
    }
  }

  /** Every combination is a selection by increasing positions. */
  lemma {:induction false} CombinationIsChosen(s: seq<Card>, k: nat, c: seq<Card>) returns (idx: seq<int>)
    requires c in Combinations(s, k)
    ensures Increasing(idx, |s|) && |idx| == k && Choose(s, idx) == c
    decreases |s|
  {
    if k == 0 {
      idx := [];
    } else {
      var tail := Combinations(s[1..], k - 1);
      if c in Prefix(s[0], tail) {
        var j :| 0 <= j < |tail| && Prefix(s[0], tail)[j] == c;
        var rest := CombinationIsChosen(s[1..], k - 1, tail[j]);
        LiftChoose(s, rest, true);
        idx := [0] + Lift(rest);
      } else {
        var rest := CombinationIsChosen(s[1..], k, c);
        LiftChoose(s, rest, false);
        idx := Lift(rest);
        assert [] + Choose(s[1..], rest) == c;
      }
    }
  }

  /** A selection by increasing positions takes a sub-multiset of the cards. */
  lemma {:induction false} ChosenIsSubMultiset(s: seq<Card>, idx: seq<int>)
    requires Increasing(idx, |s|)
    ensures multiset(Choose(s, idx)) <= multiset(s)
    decreases |s|
  {
    if |idx| > 0 {
      assert 0 <= idx[0] < |s|;
      assert s == [s[0]] + s[1..];
      if idx[0] == 0 {
        ChooseTakesFirst(s, idx);
        ChosenIsSubMultiset(s[1..], Shift(idx[1..]));
      } else {
        ChooseSkipsFirst(s, idx);
        ChosenIsSubMultiset(s[1..], Shift(idx));
      }
    }
  }

  /** Each combination has `k` cards drawn from `s`. */
  lemma CombinationShape(s: seq<Card>, k: nat, c: seq<Card>)
    requires c in Combinations(s, k)
    ensures |c| == k && multiset(c) <= multiset(s)
  {
    var idx := CombinationIsChosen(s, k, c);
    ChosenIsSubMultiset(s, idx);
  }

  lemma AllCombinationsShape(s: seq<Card>, k: nat)
    ensures forall c :: c in Combinations(s, k) ==> |c| == k && multiset(c) <= multiset(s)
  {
    forall c | c in Combinations(s, k) ensures |c| == k && multiset(c) <= multiset(s) {
      CombinationShape(s, k, c);
    }
  }

  // ---------------------------------------------------------------------
  // The search loop of `evaluate_hand`.
  // ---------------------------------------------------------------------

  /** The replacement test of the loop: a higher category, or the same one with a strictly better ordering. */
  predicate Beats(r: Ranked, best: Ranked)
  {
    r.category > best.category || (r.category == best.category && Compare(r.cards, best.cards) > 0)
  }

  /** `best` is at least as good as `r`: neither a higher category nor a better ordering in the same one. */
  predicate Dominates(best: Ranked, r: Ranked)
  {
    r.category < best.category || (r.category == best.category && Compare(r.cards, best.cards) <= 0)
  }

  /** The loop's running best: the starting `(-1, [])`, or a ranking of five cards. */
  predicate RunningBest(best: Ranked)
  {
    (best.category == -1 && best.cards == []) || (1 <= best.category <= 10 && |best.cards| == 5)
  }

  predicate AllFive(combos: seq<seq<Card>>)
  {
    forall i :: 0 <= i < |combos| ==> |combos[i]| == 5
  }

  function Search(combos: seq<seq<Card>>, best: Ranked): Ranked
    requires AllFive(combos)
  {
    if |combos| == 0 then best
    else
      var r := RankOfFive(combos[0]);
      Search(combos[1..], if Beats(r, best) then r else best)
  }

  /** One loop step keeps a running best that dominates both the old best and the ranked combination. */
  lemma StepIsBest(best: Ranked, r: Ranked)
    requires RunningBest(best) && 1 <= r.category <= 10 && |r.cards| == 5
    ensures var next := if Beats(r, best) then r else best;
      RunningBest(next) && Dominates(next, best) && Dominates(next, r)
  {
    CompareNoDifference(best.cards, best.cards);
    CompareNoDifference(r.cards, r.cards);
    CompareAntisymmetric(r.cards, best.cards);
  }

  /** The search ends on a running best that dominates where it started and every ranked combination. */
  lemma {:induction false} SearchDominates(combos: seq<seq<Card>>, best: Ranked)
    requires AllFive(combos) && RunningBest(best)
    ensures var res := Search(combos, best);
      && RunningBest(res)
      && Dominates(res, best)
      && (forall i :: 0 <= i < |combos| ==> Dominates(res, RankOfFive(combos[i])))
  {
    if |combos| == 0 {
      CompareNoDifference(best.cards, best.cards);
    } else {
      var res := Search(combos, best);
      var r := RankOfFive(combos[0]);
      var next := if Beats(r, best) then r else best;
      StepIsBest(best, r);
      SearchDominates(combos[1..], next);
      assert res == Search(combos[1..], next);
      DominatesTransitive(res, next, best);
      DominatesTransitive(res, next, r);
      forall i | 0 < i < |combos| ensures Dominates(res, RankOfFive(combos[i])) {
        assert combos[1..][i - 1] == combos[i];
      }
    }
  }

  lemma DominatesTransitive(a: Ranked, b: Ranked, c: Ranked)
    requires RunningBest(a) && RunningBest(b) && RunningBest(c)
    requires Dominates(a, b) && Dominates(b, c)
    ensures Dominates(a, c)
  {
    if a.category == b.category == c.category {
      CompareTransitive(c.cards, b.cards, a.cards);
    }
  }

  /** The search ends on where it started or on the ranking of one of the combinations. */
  lemma {:induction false} SearchPicks(combos: seq<seq<Card>>, best: Ranked)
    requires AllFive(combos)
    ensures var res := Search(combos, best);
      res == best || exists i :: 0 <= i < |combos| && res == RankOfFive(combos[i])
  {
    if |combos| > 0 {
      var res := Search(combos, best);
      var r := RankOfFive(combos[0]);
      var next := if Beats(r, best) then r else best;
      SearchPicks(combos[1..], next);
      if res != next {
        var i :| 0 <= i < |combos[1..]| && res == RankOfFive(combos[1..][i]);
        assert res == RankOfFive(combos[i + 1]);
      }
    }
  }

  /** `evaluate_hand`: the best ranked 5-card subset and its name. */
  function Evaluate(hand: seq<Card>): (r: HandResult)
    ensures |hand| < 5 ==> r == HandResult(-1, [], "Unknown")
    ensures |hand| >= 5 ==> 1 <= r.category <= 10 && |r.cards| == 5 && r.name == HandName(r.category)
  {
    SearchFromStart(hand);
    var best := Search(Combinations(hand, 5), Ranked(-1, []));
    HandResult(best.category, best.cards, HandName(best.category))
  }

  lemma SearchFromStart(hand: seq<Card>)
    ensures AllFive(Combinations(hand, 5))
    ensures var best := Search(Combinations(hand, 5), Ranked(-1, []));
      && (|hand| < 5 ==> best == Ranked(-1, []))
      && (|hand| >= 5 ==> 1 <= best.category <= 10 && |best.cards| == 5)
  {
    var combos := Combinations(hand, 5);
    CombinationsAllFive(hand);
    var start := Ranked(-1, []);
    if |hand| >= 5 {
      var first := seq(5, i => i);
      ChosenIsCombination(hand, first);
      assert |combos| > 0;
      SearchDominates(combos, start);
      var best := Search(combos, start);
      assert Dominates(best, RankOfFive(combos[0]));
    } else {
      assert combos == [];
    }
  }

  lemma CombinationsAllFive(hand: seq<Card>)
    ensures AllFive(Combinations(hand, 5))
  {
    var combos := Combinations(hand, 5);
    AllCombinationsShape(hand, 5);
    forall i | 0 <= i < |combos| ensures |combos[i]| == 5 {
      assert combos[i] in combos;
    }
  }

  /**
   * For five or more cards the result is the ranking of one 5-card subset,
   * its category is the highest any subset reaches, and no subset of that
   * category has an ordering that compares ahead of it.
   */
  lemma EvaluateIsBest(hand: seq<Card>)
    requires |hand| >= 5
    ensures var r := Evaluate(hand);
      && (exists c :: c in Combinations(hand, 5) && |c| == 5 && RankOfFive(c) == Ranked(r.category, r.cards))
      && multiset(r.cards) <= multiset(hand)
      && (forall idx :: Increasing(idx, |hand|) && |idx| == 5 ==>
            var other := RankOfFive(Choose(hand, idx));
            other.category <= r.category
            && (other.category == r.category ==> Compare(other.cards, r.cards) <= 0))
  {
    EvaluateIsSubset(hand);
    forall idx | Increasing(idx, |hand|) && |idx| == 5
      ensures var other := RankOfFive(Choose(hand, idx));
        var r := Evaluate(hand);
        other.category <= r.category && (other.category == r.category ==> Compare(other.cards, r.cards) <= 0)
    {
      EvaluateBeatsChoice(hand, idx);
    }
  }

  lemma EvaluateIsSubset(hand: seq<Card>)
    requires |hand| >= 5
    ensures var r := Evaluate(hand);
      && (exists c :: c in Combinations(hand, 5) && |c| == 5 && RankOfFive(c) == Ranked(r.category, r.cards))
      && multiset(r.cards) <= multiset(hand)
  {
    var combos := Combinations(hand, 5);
    SearchFromStart(hand);
    var best := Search(combos, Ranked(-1, []));
    SearchPicks(combos, Ranked(-1, []));
    assert best != Ranked(-1, []);
    var i :| 0 <= i < |combos| && best == RankOfFive(combos[i]);
    CombinationShape(hand, 5, combos[i]);
  }

  lemma EvaluateBeatsChoice(hand: seq<Card>, idx: seq<int>)
    requires |hand| >= 5 && Increasing(idx, |hand|) && |idx| == 5
    ensures var other := RankOfFive(Choose(hand, idx));
      var r := Evaluate(hand);
      other.category <= r.category && (other.category == r.category ==> Compare(other.cards, r.cards) <= 0)
  {
    var combos := Combinations(hand, 5);
    SearchFromStart(hand);
    SearchDominates(combos, Ranked(-1, []));
    ChosenIsCombination(hand, idx);
    var j :| 0 <= j < |combos| && combos[j] == Choose(hand, idx);
  }
}
