/**
 * The showdown (poker_backend.py, `Game.showdown`): every seat still in the
 * hand is evaluated on its hole cards plus the board, the winners are the
 * seats whose result no other contender beats, each winner receives the pot
 * floor-divided by the number of winners, and the pot is emptied, so the
 * remainder of that division leaves the table.
 */
module Payout {
  import opened Cards
  import opened HandRank
  import opened BestHand
  import opened Table

  /** The seats from `i` on that are still in the hand, in seat order. */
  function SeatsFrom(ps: seq<Player>, i: nat): seq<int>
    decreases |ps| - i
  {
    if i >= |ps| then [] else (if ps[i].inHand then [i] else []) + SeatsFrom(ps, i + 1)
  }

  /** `[p for p in self.players if p.in_hand]`, as seat positions. */
  function Contenders(ps: seq<Player>): seq<int>
  {
    SeatsFrom(ps, 0)
  }

  /** The contenders are exactly the seats in the hand, each once, and there are `InHandCount` of them. */
  lemma {:induction false} SeatsFromSpec(ps: seq<Player>, i: nat)
    ensures forall j :: j in SeatsFrom(ps, i) <==> i <= j < |ps| && ps[j].inHand
    ensures Ascending(SeatsFrom(ps, i))
    ensures i <= |ps| ==> |SeatsFrom(ps, i)| == InHandCount(ps[i..])
    decreases |ps| - i
  {
    if i < |ps| {
      SeatsFromSpec(ps, i + 1);
      assert ps[i..][0] == ps[i];
      assert ps[i..][1..] == ps[i + 1..];
      var rest := SeatsFrom(ps, i + 1);
      var all := SeatsFrom(ps, i);
      if ps[i].inHand {
        forall a, b | 0 <= a < b < |all| ensures all[a] < all[b] {
          assert all[b] == rest[b - 1];
          if a > 0 {
            assert all[a] == rest[a - 1];
          } else {
            assert rest[b - 1] in rest;
          }
        }
      } else {
        assert all == rest;
      }
    } else if i == |ps| {
      assert ps[i..] == [];
    }
  }

  lemma ContendersSpec(ps: seq<Player>)
    ensures forall j :: j in Contenders(ps) <==> 0 <= j < |ps| && ps[j].inHand
    ensures Ascending(Contenders(ps))
    ensures |Contenders(ps)| == InHandCount(ps)
  {
    SeatsFromSpec(ps, 0);
    assert ps[0..] == ps;
  }

  /** A usable `evaluate_hand` result: a category 1..10 and five ordered cards. */
  predicate Valid(r: Ranked)
  {
    1 <= r.category <= 10 && |r.cards| == 5
  }

  /** Every listed seat has a usable result in `rs`. */
  predicate Showable(rs: seq<Ranked>, xs: seq<int>)
  {
    forall k :: 0 <= k < |xs| ==> 0 <= xs[k] < |rs| && Valid(rs[xs[k]])
  }

  /**
   * The winner loop over the seats `order`, with `rs[j]` the result of seat
   * `j`: a higher category starts a new list, an equal category with an
   * ordering ahead of the first winner's starts a new list, an equal
   * ordering joins the list, anything else is passed over.
   */
  function PickWinners(rs: seq<Ranked>, order: seq<int>, best: int, winners: seq<int>): seq<int>
    requires Showable(rs, order) && Showable(rs, winners)
    requires best != -1 ==> |winners| > 0
    decreases |order|
  {
    if |order| == 0 then winners
    else
      var next := Step(rs, order[0], best, winners);
      PickWinners(rs, order[1..], next.0, next.1)
  }

  /** One pass of the loop for seat `p`: the new best category and winner list. */
  function Step(rs: seq<Ranked>, p: int, best: int, winners: seq<int>): (next: (int, seq<int>))
    requires 0 <= p < |rs| && Valid(rs[p]) && Showable(rs, winners)
    requires best != -1 ==> |winners| > 0
    ensures Showable(rs, next.1) && |next.1| > 0
  {
    var r := rs[p];
    if r.category > best then (r.category, [p])
    else if r.category == best then
      var c := Compare(r.cards, rs[winners[0]].cards);
      if c == 1 then (best, [p])
      else if c == 0 then (best, winners + [p])
      else (best, winners)
    else (best, winners)
  }

  /** Same category and the same tie-break values: results that tie. */
  predicate Ties(a: Ranked, b: Ranked)
  {
    a.category == b.category && Values(a.cards) == Values(b.cards)
  }

  /** `_compare_hands` reads values only. */
  lemma {:induction false} CompareByValues(a: seq<Card>, b: seq<Card>, a': seq<Card>, b': seq<Card>)
    requires Values(a) == Values(a') && Values(b) == Values(b')
    ensures Compare(a, b) == Compare(a', b')
  {
    assert |a| == |Values(a)| == |a'|;
    assert |b| == |Values(b)| == |b'|;
    if |a| > 0 && |b| > 0 {
      assert a[0].value == Values(a)[0] == a'[0].value;
      assert b[0].value == Values(b)[0] == b'[0].value;
      assert Values(a[1..]) == Values(a)[1..] == Values(a'[1..]);
      assert Values(b[1..]) == Values(b)[1..] == Values(b'[1..]);
      CompareByValues(a[1..], b[1..], a'[1..], b'[1..]);
    }
  }

  /** Two five-card results that dominate each other tie. */
  lemma MutualDominanceTies(a: Ranked, b: Ranked)
    requires |a.cards| == 5 && |b.cards| == 5
    requires Dominates(a, b) && Dominates(b, a)
    ensures Ties(a, b)
  {
    CompareAntisymmetric(a.cards, b.cards);
    CompareZeroIffSameValues(a.cards, b.cards);
  }

  /** Domination only sees the tie class of each side. */
  lemma DominatesByTies(a: Ranked, a': Ranked, b: Ranked)
    requires Ties(a, a')
    ensures Dominates(a, b) == Dominates(a', b)
    ensures Dominates(b, a) == Dominates(b, a')
  {
    CompareByValues(b.cards, a.cards, b.cards, a'.cards);
    CompareByValues(a.cards, b.cards, a'.cards, b.cards);
  }

  predicate NoDup(xs: seq<int>)
  {
    forall a, b :: 0 <= a < b < |xs| ==> xs[a] != xs[b]
  }

  /**
   * What the loop has established after the seats `done`: the list holds
   * exactly the seats of `done` that tie with its first entry, each once,
   * and that entry dominates every seat of `done`.
   */
  predicate WinnersSoFar(rs: seq<Ranked>, done: seq<int>, best: int, winners: seq<int>)
    requires Showable(rs, done) && Showable(rs, winners)
  {
    && (|done| == 0 ==> best == -1 && winners == [])
    && (|done| > 0 ==>
          && |winners| > 0 && best == rs[winners[0]].category
          && NoDup(winners)
          && (forall k :: 0 <= k < |winners| ==> winners[k] in done && Ties(rs[winners[k]], rs[winners[0]]))
          && (forall k :: 0 <= k < |done| ==> Dominates(rs[winners[0]], rs[done[k]]))
          && (forall k :: 0 <= k < |done| && Ties(rs[done[k]], rs[winners[0]]) ==> done[k] in winners))
  }

  /** A new best: only the new seat ties with it, and it dominates all earlier ones. */
  lemma StepNewLeader(rs: seq<Ranked>, done: seq<int>, p: int, best: int, winners: seq<int>)
    requires Showable(rs, done) && Showable(rs, winners) && 0 <= p < |rs| && Valid(rs[p])
    requires p !in done
    requires WinnersSoFar(rs, done, best, winners)
    requires |done| == 0 || rs[p].category > best
      || (rs[p].category == best && Compare(rs[p].cards, rs[winners[0]].cards) == 1)
    ensures Showable(rs, done + [p]) && WinnersSoFar(rs, done + [p], rs[p].category, [p])
  {
    var r := rs[p];
    var done' := done + [p];
    CompareNoDifference(r.cards, r.cards);
    forall k | 0 <= k < |done'| ensures Dominates(r, rs[done'[k]]) && (Ties(rs[done'[k]], r) ==> done'[k] == p) {
      if k < |done| {
        assert done'[k] == done[k];
        var q := rs[done[k]];
        var w0 := rs[winners[0]];
        assert Dominates(w0, q);
        if q.category == r.category {
          CompareAntisymmetric(r.cards, w0.cards);
          CompareTransitive(q.cards, w0.cards, r.cards);
          CompareZeroIffSameValues(q.cards, r.cards);
        }
      }
    }
  }

  /** A tie with the leader joins the list. */
  lemma StepJoin(rs: seq<Ranked>, done: seq<int>, p: int, best: int, winners: seq<int>)
    requires Showable(rs, done) && Showable(rs, winners) && 0 <= p < |rs| && Valid(rs[p])
    requires p !in done && |done| > 0
    requires WinnersSoFar(rs, done, best, winners)
    requires rs[p].category == best && Compare(rs[p].cards, rs[winners[0]].cards) == 0
    ensures Showable(rs, done + [p]) && Showable(rs, winners + [p])
    ensures WinnersSoFar(rs, done + [p], best, winners + [p])
  {
    var r := rs[p];
    var w0 := rs[winners[0]];
    var done' := done + [p];
    var ws := winners + [p];
    CompareZeroIffSameValues(r.cards, w0.cards);
    CompareAntisymmetric(r.cards, w0.cards);
    assert ws[0] == winners[0];
    forall k | 0 <= k < |ws| ensures ws[k] in done' && Ties(rs[ws[k]], w0) {
      if k < |winners| {
        assert ws[k] == winners[k];
      }
    }
    forall a, b | 0 <= a < b < |ws| ensures ws[a] != ws[b] {
      if b == |winners| {
        assert ws[a] == winners[a] && winners[a] in done;
      } else {
        assert ws[a] == winners[a] && ws[b] == winners[b];
      }
    }
    forall k | 0 <= k < |done'| ensures Dominates(w0, rs[done'[k]]) {
      if k < |done| {
        assert done'[k] == done[k];
      }
    }
    forall k | 0 <= k < |done'| && Ties(rs[done'[k]], w0) ensures done'[k] in ws {
      if k < |done| {
        assert done'[k] == done[k];
        assert done[k] in winners;
      }
    }
  }

  /** A seat behind the leader is passed over. */
  lemma StepPass(rs: seq<Ranked>, done: seq<int>, p: int, best: int, winners: seq<int>)
    requires Showable(rs, done) && Showable(rs, winners) && 0 <= p < |rs| && Valid(rs[p])
    requires p !in done && |done| > 0
    requires WinnersSoFar(rs, done, best, winners)
    requires rs[p].category < best || (rs[p].category == best && Compare(rs[p].cards, rs[winners[0]].cards) == -1)
    ensures Showable(rs, done + [p])
    ensures WinnersSoFar(rs, done + [p], best, winners)
  {
    var r := rs[p];
    var w0 := rs[winners[0]];
    var done' := done + [p];
    CompareZeroIffSameValues(r.cards, w0.cards);
    forall k | 0 <= k < |winners| ensures winners[k] in done' {
      assert winners[k] in done;
    }
    forall k | 0 <= k < |done'| ensures Dominates(w0, rs[done'[k]]) && (Ties(rs[done'[k]], w0) ==> done'[k] in winners) {
      if k < |done| {
        assert done'[k] == done[k];
      }
    }
  }

  /** One pass of the loop keeps `WinnersSoFar`. */
  lemma StepKeeps(rs: seq<Ranked>, done: seq<int>, p: int, best: int, winners: seq<int>)
    requires Showable(rs, done) && Showable(rs, winners) && 0 <= p < |rs| && Valid(rs[p])
    requires p !in done
    requires WinnersSoFar(rs, done, best, winners)
    ensures Showable(rs, done + [p])
    ensures var next := Step(rs, p, best, winners); WinnersSoFar(rs, done + [p], next.0, next.1)
  {
    var r := rs[p];
    if |done| == 0 || r.category > best {
      StepNewLeader(rs, done, p, best, winners);
    } else {
      var c := Compare(r.cards, rs[winners[0]].cards);
      if r.category == best && c == 1 {
        StepNewLeader(rs, done, p, best, winners);
      } else if r.category == best && c == 0 {
        StepJoin(rs, done, p, best, winners);
      } else {
        StepPass(rs, done, p, best, winners);
      }
    }
  }

  /** The loop ends with `WinnersSoFar` over all the seats it was given. */
  lemma {:induction false} PickWinnersInvariant(rs: seq<Ranked>, done: seq<int>, order: seq<int>, best: int, winners: seq<int>)
    requires Showable(rs, done) && Showable(rs, order) && Showable(rs, winners)
    requires NoDup(done + order)
    requires WinnersSoFar(rs, done, best, winners)
    ensures best != -1 ==> |winners| > 0
    ensures Showable(rs, done + order)
    ensures var w := PickWinners(rs, order, best, winners);
      && Showable(rs, w)
      && (|done + order| > 0 ==> |w| > 0 && WinnersSoFar(rs, done + order, rs[w[0]].category, w))
    decreases |order|
  {
    if |order| == 0 {
      assert done + order == done;
    } else {
      var p := order[0];
      assert (done + order)[|done|] == p;
      assert p !in done by {
        forall k | 0 <= k < |done| ensures done[k] != p {
          assert (done + order)[k] == done[k];
        }
      }
      StepKeeps(rs, done, p, best, winners);
      var next := Step(rs, p, best, winners);
      assert done + [p] + order[1..] == done + order;
      PickWinnersInvariant(rs, done + [p], order[1..], next.0, next.1);
    }
  }

  /** `pot // len(winners)` added to each listed seat once. */
  function PayEach(ps: seq<Player>, ws: seq<int>, amount: int): seq<Player>
    requires forall k :: 0 <= k < |ws| ==> 0 <= ws[k] < |ps|
    decreases |ws|
  {
    if |ws| == 0 then ps
    else PayEach(ps[ws[0] := ps[ws[0]].(chips := ps[ws[0]].chips + amount)], ws[1..], amount)
  }

  /** Paying distinct seats: each listed seat gains `amount`, the others nothing. */
  lemma {:induction false} PayEachSeats(ps: seq<Player>, ws: seq<int>, amount: int)
    requires forall k :: 0 <= k < |ws| ==> 0 <= ws[k] < |ps|
    requires NoDup(ws)
    ensures |PayEach(ps, ws, amount)| == |ps|
    ensures forall j :: 0 <= j < |ps| ==>
      PayEach(ps, ws, amount)[j] == ps[j].(chips := ps[j].chips + (if j in ws then amount else 0))
    decreases |ws|
  {
    if |ws| > 0 {
      var w := ws[0];
      var ps1 := ps[w := ps[w].(chips := ps[w].chips + amount)];
      assert NoDup(ws[1..]);
      PayEachSeats(ps1, ws[1..], amount);
      forall j | 0 <= j < |ps|
        ensures PayEach(ps, ws, amount)[j] == ps[j].(chips := ps[j].chips + (if j in ws then amount else 0))
      {
        if j == w {
          assert j !in ws[1..] by {
            forall k | 0 <= k < |ws[1..]| ensures ws[1..][k] != w {
              assert ws[k + 1] != ws[0];
            }
          }
        } else {
          assert (j in ws) == (j in ws[1..]);
        }
      }
    }
  }

  /** Paying `|ws|` seats adds `amount` times `|ws|` to the stacks and leaves the bets alone. */
  lemma {:induction false} PayEachSums(ps: seq<Player>, ws: seq<int>, amount: int)
    requires forall k :: 0 <= k < |ws| ==> 0 <= ws[k] < |ps|
    ensures Sum(Chips(PayEach(ps, ws, amount))) == Sum(Chips(ps)) + amount * |ws|
    ensures Sum(Bets(PayEach(ps, ws, amount))) == Sum(Bets(ps))
    decreases |ws|
  {
    if |ws| > 0 {
      var w := ws[0];
      var ps1 := ps[w := ps[w].(chips := ps[w].chips + amount)];
      UpdatePlayer(ps, w, ps1[w]);
      PayEachSums(ps1, ws[1..], amount);
      var k := |ws[1..]|;
      assert |ws| == k + 1;
      assert amount * (k + 1) == amount * k + amount;
    }
  }

  /** Every seat in the hand holds five or more cards with the board (so each can be evaluated). */
  predicate ReadyToShow(t: Table)
  {
    forall j :: 0 <= j < |t.players| && t.players[j].inHand ==> |t.players[j].hand| + |t.community| >= 5
  }

  /**
   * `p.hand_result` of every seat: `evaluate_hand(p.hand + community_cards)`
   * as a category and tie-break ordering (never read for a seat out of the hand).
   */
  function Results(t: Table): (rs: seq<Ranked>)
    ensures |rs| == |t.players|
    ensures forall j :: 0 <= j < |t.players| && |t.players[j].hand| + |t.community| >= 5 ==> Valid(rs[j])
  {
    seq(|t.players|, j requires 0 <= j < |t.players| =>
      var e := Evaluate(t.players[j].hand + t.community);
      Ranked(e.category, e.cards))
  }

  lemma ContendersShowable(t: Table)
    requires ReadyToShow(t)
    ensures Showable(Results(t), Contenders(t.players))
    ensures NoDup(Contenders(t.players))
  {
    var cs := Contenders(t.players);
    ContendersSpec(t.players);
    forall k | 0 <= k < |cs| ensures 0 <= cs[k] < |t.players| && t.players[cs[k]].inHand {
      assert cs[k] in cs;
    }
  }

  function Winners(t: Table): (w: seq<int>)
    requires ReadyToShow(t)
  {
    ContendersShowable(t);
    PickWinners(Results(t), Contenders(t.players), -1, [])
  }

  /** `showdown`: with fewer than two contenders the pot goes to the last one standing. */
  function Showdown(t: Table): Table
    requires ReadyToShow(t)
  {
    var cs := Contenders(t.players);
    if |cs| < 2 then AwardPot(t)
    else
      var w := Winners(t);
      ContendersSpec(t.players);
      WinnersSpec(t);
      t.(players := PayEach(t.players, w, t.pot / |w|), pot := 0)
  }

  /**
   * Over any list of distinct seats with usable results, the loop returns
   * exactly the listed seats whose result dominates every listed seat's, each
   * once, and at least one when the list is not empty.
   */
  lemma PickWinnersSpec(rs: seq<Ranked>, cs: seq<int>)
    requires Showable(rs, cs) && NoDup(cs)
    ensures var w := PickWinners(rs, cs, -1, []);
      && NoDup(w)
      && (|cs| > 0 ==> |w| > 0)
      && Showable(rs, w)
      && forall j :: j in w <==> j in cs && forall i :: i in cs ==> Dominates(rs[j], rs[i])
  {
    var w := PickWinners(rs, cs, -1, []);
    assert [] + cs == cs;
    PickWinnersInvariant(rs, [], cs, -1, []);
    if |cs| > 0 {
      forall j ensures j in w <==> j in cs && forall i :: i in cs ==> Dominates(rs[j], rs[i]) {
        FinalWinner(rs, cs, rs[w[0]].category, w, j);
      }
    }
  }

  /** Read at the end of the loop, `WinnersSoFar` says who the winners are. */
  lemma FinalWinner(rs: seq<Ranked>, cs: seq<int>, best: int, w: seq<int>, j: int)
    requires Showable(rs, cs) && Showable(rs, w) && |cs| > 0
    requires WinnersSoFar(rs, cs, best, w)
    ensures j in w <==> j in cs && forall i :: i in cs ==> Dominates(rs[j], rs[i])
  {
    var w0 := rs[w[0]];
    if j in w {
      var k :| 0 <= k < |w| && w[k] == j;
      forall i | i in cs ensures Dominates(rs[j], rs[i]) {
        var m :| 0 <= m < |cs| && cs[m] == i;
        DominatesByTies(rs[j], w0, rs[i]);
      }
    } else if j in cs {
      var m :| 0 <= m < |cs| && cs[m] == j;
      assert w[0] in cs;
      if Dominates(rs[j], w0) {
        MutualDominanceTies(rs[j], w0);
      }
    }
  }

  /**
   * The winners are the seats in the hand whose result dominates every
   * other contender's (no higher category, no better ordering in the same
   * one); there is at least one when anyone is in the hand, and none twice.
   */
  lemma WinnersSpec(t: Table)
    requires ReadyToShow(t)
    ensures var w := Winners(t); var rs := Results(t);
      && NoDup(w)
      && (InHandCount(t.players) > 0 ==> |w| > 0)
      && (forall k :: 0 <= k < |w| ==> 0 <= w[k] < |t.players|)
      && forall j :: j in w <==>
           && 0 <= j < |t.players| && t.players[j].inHand
           && forall i :: 0 <= i < |t.players| && t.players[i].inHand ==> Dominates(rs[j], rs[i])
  {
    var cs := Contenders(t.players);
    var rs := Results(t);
    ContendersSpec(t.players);
    ContendersShowable(t);
    PickWinnersSpec(rs, cs);
  }

  /**
   * The showdown pays `pot // |winners|` to each winner and nothing to anyone
   * else and empties the pot: the table loses exactly `pot % |winners|` chips.
   */
  lemma ShowdownSpec(t: Table)
    requires ReadyToShow(t)
    ensures |Contenders(t.players)| < 2 ==> Showdown(t) == AwardPot(t)
    ensures |Contenders(t.players)| >= 2 ==>
      var w := Winners(t); var r := Showdown(t);
      && |w| > 0
      && r.pot == 0
      && |r.players| == |t.players|
      && (forall j :: 0 <= j < |t.players| ==>
            r.players[j] == t.players[j].(chips := t.players[j].chips + (if j in w then t.pot / |w| else 0)))
      && TableChips(r) == TableChips(t) - t.pot % |w|
  {
    ContendersSpec(t.players);
    if |Contenders(t.players)| >= 2 {
      WinnersSpec(t);
      SplitPot(t, Winners(t));
    }
  }

  /** Paying `pot // |w|` to each of the distinct seats `w` and emptying the pot loses `pot % |w|`. */
  lemma SplitPot(t: Table, w: seq<int>)
    requires |w| > 0 && NoDup(w) && forall k :: 0 <= k < |w| ==> 0 <= w[k] < |t.players|
    ensures var r := t.(players := PayEach(t.players, w, t.pot / |w|), pot := 0);
      && |r.players| == |t.players|
      && (forall j :: 0 <= j < |t.players| ==>
            r.players[j] == t.players[j].(chips := t.players[j].chips + (if j in w then t.pot / |w| else 0)))
      && TableChips(r) == TableChips(t) - t.pot % |w|
  {
    PayEachSeats(t.players, w, t.pot / |w|);
    PayEachSums(t.players, w, t.pot / |w|);
    assert t.pot == (t.pot / |w|) * |w| + t.pot % |w|;
  }
}
