/**
 * A betting round (poker_backend.py, `Game.betting_round`): the opening
 * reset and board cards, the rule that skips a round nobody can bet in, and
 * the body of the `while True` loop as a single step that takes the acting
 * seat's action as an input.
 *
 * The loop ends a lap when the seat scan lands exactly on the seat that
 * opened the action. The scan only lands on seats that can still act, so once
 * that seat has folded or gone all-in and nobody raises, the lap never ends.
 * `Step` is given a flag: `false` is the test as written, `true` the
 * corrected test, which ends the lap when the scan passes the opener's seat.
 */
module Betting {
  import opened Cards
  import opened Table

  // ---------------------------------------------------------------------
  // Opening a round.
  // ---------------------------------------------------------------------

  /** `k` successive `Deck.deal` calls: the last `k` cards, top (end) first. */
  function DealMany(deck: seq<Card>, k: nat): (r: (seq<Card>, seq<Card>))
    requires |deck| >= k
    ensures |r.0| == k && r.1 == deck[..|deck| - k]
    ensures forall i :: 0 <= i < k ==> r.0[i] == deck[|deck| - 1 - i]
  {
    if k == 0 then ([], deck)
    else
      var (c, d) := Deal(deck);
      var (cs, rest) := DealMany(d, k - 1);
      assert forall i :: 0 <= i < k - 1 ==> cs[i] == deck[|deck| - 2 - i];
      ([c.value] + cs, rest)
  }

  /** Enough cards for the burn and the `k` board cards. */
  predicate CanOpen(t: Table, k: nat)
  {
    |t.players| > 0 && 0 <= t.dealerPos < |t.players| && (k > 0 ==> |t.deck| >= k + 1)
  }

  /**
   * After the pre-flop, bets and the bet to match restart from zero, the
   * minimum raise from the big blind, and the first seat after the dealer
   * acts first.
   */
  function ResetRound(t: Table, stage: Stage): Table
    requires |t.players| > 0
  {
    var t1 := t.(stage := stage);
    if stage != PreFlop then
      t1.(currentBet := 0, lastRaise := t.bigBlind, players := ClearBets(t.players),
          current := NextActive(ClearBets(t.players), t.dealerPos))
    else t1
  }

  /** One card burned and `k` turned face up. */
  function TurnCards(t: Table, k: nat): Table
    requires k > 0 ==> |t.deck| >= k + 1
  {
    if k > 0 then
      var (_, d) := Deal(t.deck);
      var (cs, rest) := DealMany(d, k);
      t.(deck := rest, community := t.community + cs)
    else t
  }

  function OpenRound(t: Table, stage: Stage, k: nat): Table
    requires CanOpen(t, k)
  {
    TurnCards(ResetRound(t, stage), k)
  }

  /**
   * After the pre-flop every bet and the bet to match are zero and the turn
   * goes to the first seat after the dealer that can act; with no bets out
   * no chip moves.
   */
  lemma ResetRoundSpec(t: Table, stage: Stage)
    requires |t.players| > 0 && 0 <= t.dealerPos < |t.players|
    ensures var r := ResetRound(t, stage);
      && r.stage == stage
      && |r.players| == |t.players|
      && r.deck == t.deck && r.community == t.community && r.pot == t.pot
      && (stage != PreFlop ==>
            && r.currentBet == 0 && r.lastRaise == t.bigBlind
            && r.current == NextActive(t.players, t.dealerPos)
            && forall j :: 0 <= j < |r.players| ==> r.players[j] == t.players[j].(bet := 0))
      && (stage == PreFlop ==> r.players == t.players && r.current == t.current && r.currentBet == t.currentBet)
      && ((forall j :: 0 <= j < |t.players| ==> t.players[j].bet == 0) ==> TableChips(r) == TableChips(t))
  {
    var cleared := ClearBets(t.players);
    ScanSameActivity(cleared, t.players, t.dealerPos, 1);
    if forall j :: 0 <= j < |t.players| ==> t.players[j].bet == 0 {
      assert cleared == t.players;
    }
  }

  /**
   * The board gains the `k` cards below the burned one, top first, and the
   * deck loses those `k + 1`; nothing else changes.
   */
  lemma TurnCardsSpec(t: Table, k: nat)
    requires k > 0 ==> |t.deck| >= k + 1
    ensures var r := TurnCards(t, k); var n := |t.deck|;
      && r.players == t.players && r.pot == t.pot && r.current == t.current
      && r.currentBet == t.currentBet && r.stage == t.stage
      && (k > 0 ==>
            && r.deck == t.deck[..n - 1 - k]
            && |r.community| == |t.community| + k
            && r.community[..|t.community|] == t.community
            && forall i :: |t.community| <= i < |r.community| ==> r.community[i] == t.deck[n - 2 - (i - |t.community|)])
      && (k == 0 ==> r == t)
  {
  }

  /** The round is skipped when fewer than two seats can act and there is no bet to match. */
  predicate SkipRound(t: Table)
  {
    CountActive(t.players) < 2 && t.currentBet == 0
  }

  /** `collect_bets()` and whether two or more seats are still in the hand. */
  datatype RoundEnd = RoundEnd(table: Table, goOn: bool)

  function FinishRound(t: Table): RoundEnd
  {
    RoundEnd(CollectBets(t), InHandCount(t.players) > 1)
  }

  // ---------------------------------------------------------------------
  // One pass of the betting loop.
  // ---------------------------------------------------------------------

  /** The table between steps: the seat to act and the seat that opened the action. */
  datatype Pass = Pass(table: Table, starter: int, done: bool)

  predicate Seated(t: Table)
  {
    |t.players| > 0 && 0 <= t.current < |t.players|
  }

  /** Bets, now, of the seats that were in the hand at the top of the pass. */
  function InHandBets(before: seq<Player>, after: seq<Player>): (bs: seq<int>)
    requires |before| == |after|
    ensures |bs| == InHandCount(before)
  {
    if |before| == 0 then []
    else (if before[0].inHand then [after[0].bet] else []) + InHandBets(before[1..], after[1..])
  }

  function Highest(bs: seq<int>): (m: int)
    requires |bs| > 0
    ensures m in bs && forall i :: 0 <= i < |bs| ==> bs[i] <= m
  {
    if |bs| == 1 then bs[0]
    else
      var rest := Highest(bs[1..]);
      assert forall i :: 1 <= i < |bs| ==> bs[i] == bs[1..][i - 1];
      if bs[0] >= rest then bs[0] else rest
  }

  /** Every seat matched the highest bet, or is out of the hand, or is all-in. */
  predicate Settled(ps: seq<Player>, highest: int)
  {
    forall j :: 0 <= j < |ps| ==> ps[j].bet == highest || !ps[j].inHand || ps[j].isAllIn
  }

  /**
   * Whether moving the turn from `cur` to `next` ends the lap opened at
   * `starter`. As written: the scan landed on `starter`. Corrected: the
   * scan reached or passed `starter`'s seat.
   */
  predicate LapEnds(n: int, cur: int, next: int, starter: int, corrected: bool)
    requires n > 0
  {
    if corrected then Offset(n, cur, starter) <= Offset(n, cur, next) else next == starter
  }

  lemma NextActiveInRange(ps: seq<Player>, start: int)
    requires 0 <= start < |ps|
    ensures 0 <= NextActive(ps, start) < |ps|
  {
    NextActiveIsFirst(ps, start);
  }

  /** The seat to act plays `a` when it can act; a seat that cannot act is passed over. */
  function Acted(t: Table, a: Action): (r: ActionResult)
    requires Seated(t)
    ensures |r.table.players| == |t.players|
  {
    if Active(t.players[t.current]) then HandleAction(t, t.current, a) else ActionResult(t, false)
  }

  /**
   * One pass of `while True`: stop with one seat left in the hand; otherwise
   * let the seat act if it can, make a raiser the new opener, move the turn
   * on, and stop when the lap has ended and, after an action, the bets are
   * settled.
   */
  function Step(t: Table, starter: int, a: Action, corrected: bool): (r: Pass)
    requires Seated(t) && 0 <= starter < |t.players|
    ensures Seated(r.table) && |r.table.players| == |t.players| && 0 <= r.starter < |t.players|
  {
    var n := |t.players|;
    var cur := t.current;
    if InHandCount(t.players) <= 1 then Pass(t, starter, true)
    else
      var res := Acted(t, a);
      var s := if res.isRaise then cur else starter;
      NextActiveInRange(res.table.players, cur);
      var next := NextActive(res.table.players, cur);
      var t' := res.table.(current := next);
      var settled := !Active(t.players[cur]) || Settled(t'.players, Highest(InHandBets(t.players, t'.players)));
      Pass(t', s, LapEnds(n, cur, next, s, corrected) && settled)
  }

  /** A step moves no chip off the table and, for non-negative amounts, keeps the range invariant. */
  lemma StepConserves(t: Table, starter: int, a: Action, corrected: bool)
    requires Seated(t) && 0 <= starter < |t.players|
    ensures TableChips(Step(t, starter, a, corrected).table) == TableChips(t)
    ensures Bounded(t) && ((a.Bet? || a.Raise?) ==> a.amount >= 0) ==> Bounded(Step(t, starter, a, corrected).table)
  {
    HandleActionSpec(t, t.current, a);
    if Bounded(t) && ((a.Bet? || a.Raise?) ==> a.amount >= 0) {
      HandleActionBounded(t, t.current, a);
    }
  }

  // ---------------------------------------------------------------------
  // The finding: the lap test as written.
  // ---------------------------------------------------------------------

  /**
   * As written, once the opener can no longer act and someone else holds
   * the turn, a pass that does not raise never ends the round while two
   * seats are in the hand, and leaves the table in that same situation: the
   * only ways out are a raise or folds down to one seat.
   */
  lemma AsWrittenNeverCloses(t: Table, starter: int, a: Action)
    requires Seated(t) && 0 <= starter < |t.players|
    requires InHandCount(t.players) >= 2 && t.current != starter && !Active(t.players[starter])
    ensures var r := Step(t, starter, a, false);
      r.starter == starter ==>
        && !r.done
        && r.table.current != starter
        && !Active(r.table.players[starter])
  {
    var cur := t.current;
    if Active(t.players[cur]) {
      HandleActionSpec(t, cur, a);
    }
    NextActiveIsFirst(Acted(t, a).table.players, cur);
  }

  /** As written, with two seats in the hand and none able to act, a pass changes nothing: the loop spins without input. */
  lemma AsWrittenSpins(t: Table, starter: int, a: Action)
    requires Seated(t) && 0 <= starter < |t.players|
    requires InHandCount(t.players) >= 2 && !SomeActive(t.players) && t.current != starter
    ensures Step(t, starter, a, false) == Pass(t, starter, false)
  {
    NextActiveIsFirst(t.players, t.current);
  }

  function Seat(inHand: bool, bet: int): Player
  {
    Player(100, bet, inHand, false, [])
  }

  /** Three seats on the flop, nobody has bet, seat 0 opens the action. */
  function FlopExample(): Table
  {
    Table([Seat(true, 0), Seat(true, 0), Seat(true, 0)], [], [], 60, 2, 0, 0, 20, 10, 20, Flop)
  }

  /**
   * On `FlopExample`, seat 0 folds and the other two check: as written the
   * turn goes 1, 2, 1, 2, ... and the same table comes back after every two
   * checks, so the round never ends.
   */
  lemma AsWrittenCycles()
    ensures var s1 := Step(FlopExample(), 0, Fold, false);
      var s2 := Step(s1.table, s1.starter, Check, false);
      var s3 := Step(s2.table, s2.starter, Check, false);
      && !s1.done && !s2.done && !s3.done
      && s1.table.current == 1 && s2.table.current == 2
      && s3 == s1
  {
    var t0 := FlopExample();
    var s1 := Step(t0, 0, Fold, false);
    var ps := s1.table.players;
    assert ps == [Seat(false, 0), Seat(true, 0), Seat(true, 0)];
    assert NextActive(HandleAction(t0, 0, Fold).table.players, 0) == 1;
    assert NextActive(ps, 1) == 2;
    assert NextActive(ps, 2) == 1;
  }

  // ---------------------------------------------------------------------
  // The corrected lap test.
  // ---------------------------------------------------------------------

  /** Corrected, the same fold and two checks end the round with the bets settled. */
  lemma CorrectedClosesExample()
    ensures var s1 := Step(FlopExample(), 0, Fold, true);
      var s2 := Step(s1.table, s1.starter, Check, true);
      var s3 := Step(s2.table, s2.starter, Check, true);
      !s1.done && !s2.done && s3.done
  {
    var t0 := FlopExample();
    var s1 := Step(t0, 0, Fold, true);
    var ps := s1.table.players;
    assert ps == [Seat(false, 0), Seat(true, 0), Seat(true, 0)];
    assert NextActive(HandleAction(t0, 0, Fold).table.players, 0) == 1;
    assert NextActive(ps, 1) == 2;
    assert NextActive(ps, 2) == 1;
    assert InHandBets(ps, ps) == [0, 0];
  }

  /** While the opener can still act, the scan lands on it exactly when it reaches or passes it. */
  lemma LapEndsAgree(ps: seq<Player>, cur: int, starter: int)
    requires 0 <= cur < |ps| && 0 <= starter < |ps| && Active(ps[starter])
    ensures LapEnds(|ps|, cur, NextActive(ps, cur), starter, true) == LapEnds(|ps|, cur, NextActive(ps, cur), starter, false)
  {
    var n := |ps|;
    var next := NextActive(ps, cur);
    NextActiveIsFirst(ps, cur);
    OffsetReaches(n, cur, starter);
    OffsetReaches(n, cur, next);
  }

  /** The scan lands back on the seat it started from exactly when it goes all the way round. */
  lemma LapEndsAtSelf(ps: seq<Player>, cur: int)
    requires 0 <= cur < |ps|
    ensures LapEnds(|ps|, cur, NextActive(ps, cur), cur, true) == LapEnds(|ps|, cur, NextActive(ps, cur), cur, false)
  {
    NextActiveInRange(ps, cur);
    OffsetFull(|ps|, cur, NextActive(ps, cur));
  }

  /** Only the starting seat itself is a full round of `n` steps away. */
  lemma OffsetFull(n: int, cur: int, j: int)
    requires n > 0 && 0 <= cur < n && 0 <= j < n
    ensures Offset(n, cur, j) == n <==> j == cur
  {
    OffsetSelf(n, cur);
    OffsetReaches(n, cur, j);
    if Offset(n, cur, j) == n {
      ModUnique(cur + n, 1, cur, n);
    }
  }

  /** The correction changes nothing while the opener can still act after the pass. */
  lemma CorrectedAgrees(t: Table, starter: int, a: Action)
    requires Seated(t) && 0 <= starter < |t.players|
    requires Active(Acted(t, a).table.players[starter])
    ensures Step(t, starter, a, true) == Step(t, starter, a, false)
  {
    var res := Acted(t, a);
    if res.isRaise {
      LapEndsAtSelf(res.table.players, t.current);
    } else {
      LapEndsAgree(res.table.players, t.current, starter);
    }
  }

  /**
   * Corrected, a pass that does not raise either ends the lap or moves the
   * turn strictly closer to the opener's seat, so without raises the lap
   * ends within `n` passes; and a pass when nobody can act ends the round.
   */
  lemma CorrectedProgress(t: Table, starter: int, a: Action)
    requires Seated(t) && 0 <= starter < |t.players|
    ensures var r := Step(t, starter, a, true); var n := |t.players|;
      r.starter == starter && !r.done && InHandCount(t.players) > 1 ==>
        || LapEnds(n, t.current, r.table.current, starter, true)
        || Offset(n, r.table.current, starter) < Offset(n, t.current, starter)
    ensures !SomeActive(t.players) ==> Step(t, starter, a, true).done
  {
    var n := |t.players|;
    var cur := t.current;
    var r := Step(t, starter, a, true);
    if r.starter == starter && !r.done && InHandCount(t.players) > 1 && !LapEnds(n, cur, r.table.current, starter, true) {
      OffsetReaches(n, cur, r.table.current);
      OffsetReaches(n, cur, starter);
      OffsetSplit(n, cur, r.table.current, starter);
    }
    if !SomeActive(t.players) {
      NextActiveIsFirst(t.players, cur);
      OffsetSelf(n, cur);
      OffsetReaches(n, cur, starter);
    }
  }

  /** Walking `Offset(cur, next)` seats and then on to `starter` adds up, when `next` comes first. */
  lemma OffsetSplit(n: int, cur: int, next: int, starter: int)
    requires n > 0 && 0 <= cur < n && 0 <= next < n && 0 <= starter < n
    requires Offset(n, cur, next) < Offset(n, cur, starter)
    ensures Offset(n, next, starter) == Offset(n, cur, starter) - Offset(n, cur, next)
  {
    var o1 := Offset(n, cur, next);
    var o2 := Offset(n, cur, starter);
    OffsetReaches(n, cur, next);
    OffsetReaches(n, cur, starter);
    var q1 := (cur + o1) / n;
    var q2 := (cur + o2) / n;
    assert cur + o1 == q1 * n + next;
    assert cur + o2 == q2 * n + starter;
    assert starter - next - 1 == (q1 - q2) * n + (o2 - o1 - 1);
    ModUnique(starter - next - 1, q1 - q2, o2 - o1 - 1, n);
  }

  // ---------------------------------------------------------------------
  // A whole round, one input per pass.
  // ---------------------------------------------------------------------

  datatype Outcome = Closed(end: RoundEnd) | Waiting(table: Table, starter: int)

  /** Passes of the loop, one input each (a pass that skips a seat ignores its input), until the round ends or the inputs run out. */
  function Run(t: Table, starter: int, actions: seq<Action>, corrected: bool): Outcome
    requires Seated(t) && 0 <= starter < |t.players|
    decreases |actions|
  {
    if |actions| == 0 then Waiting(t, starter)
    else
      var r := Step(t, starter, actions[0], corrected);
      if r.done then Closed(FinishRound(r.table)) else Run(r.table, r.starter, actions[1..], corrected)
  }

  /** `betting_round`: open, skip if nobody can bet, else play passes from the seat to act. */
  function BettingRound(t: Table, stage: Stage, k: nat, actions: seq<Action>, corrected: bool): Outcome
    requires CanOpen(t, k) && (stage == PreFlop ==> 0 <= t.current < |t.players|)
  {
    var o := OpenRound(t, stage, k);
    NextActiveInRange(ClearBets(t.players), t.dealerPos);
    assert Seated(ResetRound(t, stage));
    if SkipRound(o) then Closed(FinishRound(o)) else Run(o, o.current, actions, corrected)
  }

  /**
   * A skipped round asks nobody to act: whatever the inputs, it ends at once
   * with the bets collected, and play goes on exactly when two or more seats
   * are still in the hand.
   */
  lemma SkippedRound(t: Table, stage: Stage, k: nat, actions: seq<Action>, corrected: bool)
    requires CanOpen(t, k) && (stage == PreFlop ==> 0 <= t.current < |t.players|)
    requires SkipRound(OpenRound(t, stage, k))
    ensures var o := OpenRound(t, stage, k); var r := BettingRound(t, stage, k, actions, corrected);
      && r == BettingRound(t, stage, k, [], corrected)
      && r.Closed?
      && r.end.table.pot == o.pot + Sum(Bets(o.players))
      && (forall j :: 0 <= j < |r.end.table.players| ==> r.end.table.players[j].bet == 0)
      && (r.end.goOn <==> InHandCount(t.players) >= 2)
  {
    var o := OpenRound(t, stage, k);
    CollectBetsSpec(o);
    ResetRoundSpec(t, stage);
    TurnCardsSpec(ResetRound(t, stage), k);
    if stage != PreFlop {
      InHandCountSame(ClearBets(t.players), t.players);
    }
  }

  /** Non-negative amounts in every bet and raise. */
  predicate SaneAmounts(actions: seq<Action>)
  {
    forall i :: 0 <= i < |actions| ==> (actions[i].Bet? || actions[i].Raise?) ==> actions[i].amount >= 0
  }

  /**
   * A round moves chips between stacks, bets and the pot and nowhere else; a
   * closed round has every bet collected; and the range invariant holds
   * throughout when no amount is negative.
   */
  lemma {:induction false} RunConserves(t: Table, starter: int, actions: seq<Action>, corrected: bool)
    requires Seated(t) && 0 <= starter < |t.players|
    ensures var o := Run(t, starter, actions, corrected);
      && (o.Waiting? ==> TableChips(o.table) == TableChips(t))
      && (o.Closed? ==>
            && TableChips(o.end.table) == TableChips(t)
            && forall j :: 0 <= j < |o.end.table.players| ==> o.end.table.players[j].bet == 0)
      && (Bounded(t) && SaneAmounts(actions) ==>
            (o.Waiting? ==> Bounded(o.table)) && (o.Closed? ==> Bounded(o.end.table)))
    decreases |actions|
  {
    if |actions| > 0 {
      var r := Step(t, starter, actions[0], corrected);
      StepConserves(t, starter, actions[0], corrected);
      if r.done {
        CollectBetsSpec(r.table);
      } else {
        RunConserves(r.table, r.starter, actions[1..], corrected);
        assert SaneAmounts(actions) ==> SaneAmounts(actions[1..]) by {
          forall i | 0 <= i < |actions| - 1 ensures actions[1..][i] == actions[i + 1] {}
        }
      }
    }
  }
}
