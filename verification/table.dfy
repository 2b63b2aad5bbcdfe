/**
 * The table's chip and turn bookkeeping (poker_backend.py, `Player` and
 * `Game`): the circular seat scan, blinds, hole cards, a player's action,
 * collecting bets into the pot, and the reset at the start of a hand.
 *
 * Every operation is a function from one table record to the next. Chips are
 * conserved: `TableChips` (the pot plus every player's chips and bet) is the
 * same before and after each of them, under the conditions stated.
 */
module Table {
  import opened Cards

  /** A seat: the display name, session id, bot flag and status text are left out. */
  datatype Player = Player(chips: int, bet: int, inHand: bool, isAllIn: bool, hand: seq<Card>)

  datatype Stage = Idle | PreFlop | Flop | Turn | River

  datatype Table = Table(
    players: seq<Player>,
    deck: seq<Card>,
    community: seq<Card>,
    pot: int,
    dealerPos: int,
    current: int,
    currentBet: int,
    lastRaise: int,
    smallBlind: int,
    bigBlind: int,
    stage: Stage)

  /** A seat that still has decisions to make: in the hand and not all-in. */
  predicate Active(p: Player)
  {
    p.inHand && !p.isAllIn
  }

  // ---------------------------------------------------------------------
  // Chip totals.
  // ---------------------------------------------------------------------

  function Sum(xs: seq<int>): int
  {
    if |xs| == 0 then 0 else xs[0] + Sum(xs[1..])
  }

  function Chips(ps: seq<Player>): seq<int>
  {
    seq(|ps|, i requires 0 <= i < |ps| => ps[i].chips)
  }

  function Bets(ps: seq<Player>): seq<int>
  {
    seq(|ps|, i requires 0 <= i < |ps| => ps[i].bet)
  }

  /** Every chip on the table: in the pot, in front of a player, or in a stack. */
  function TableChips(t: Table): int
  {
    t.pot + Sum(Chips(t.players)) + Sum(Bets(t.players))
  }

  lemma {:induction false} SumUpdate(xs: seq<int>, i: int, v: int)
    requires 0 <= i < |xs|
    ensures Sum(xs[i := v]) == Sum(xs) - xs[i] + v
  {
    if i > 0 {
      assert xs[i := v][1..] == xs[1..][i - 1 := v];
      SumUpdate(xs[1..], i - 1, v);
    }
  }

  lemma {:induction false} SumZeros(n: nat)
    ensures Sum(seq(n, _ => 0)) == 0
  {
    if n > 0 {
      assert seq(n, _ => 0)[1..] == seq(n - 1, _ => 0);
      SumZeros(n - 1);
    }
  }

  lemma {:induction false} SumConcat(xs: seq<int>, ys: seq<int>)
    ensures Sum(xs + ys) == Sum(xs) + Sum(ys)
  {
    if |xs| > 0 {
      assert (xs + ys)[0] == xs[0];
      assert (xs + ys)[1..] == xs[1..] + ys;
      SumConcat(xs[1..], ys);
    } else {
      assert xs + ys == ys;
    }
  }

  lemma {:induction false} SumNonNegative(xs: seq<int>)
    requires forall i :: 0 <= i < |xs| ==> xs[i] >= 0
    ensures Sum(xs) >= 0
  {
    if |xs| > 0 {
      SumNonNegative(xs[1..]);
    }
  }

  /** Replacing one player changes the totals by that player's differences only. */
  lemma UpdatePlayer(ps: seq<Player>, i: int, p: Player)
    requires 0 <= i < |ps|
    ensures Sum(Chips(ps[i := p])) == Sum(Chips(ps)) - ps[i].chips + p.chips
    ensures Sum(Bets(ps[i := p])) == Sum(Bets(ps)) - ps[i].bet + p.bet
  {
    assert Chips(ps[i := p]) == Chips(ps)[i := p.chips];
    assert Bets(ps[i := p]) == Bets(ps)[i := p.bet];
    SumUpdate(Chips(ps), i, p.chips);
    SumUpdate(Bets(ps), i, p.bet);
  }

  // ---------------------------------------------------------------------
  // `get_next_active_player`.
  // ---------------------------------------------------------------------

  /** The seat the scan looks at in step `step` from `start`: `(start + step) % n`, Python's `%` on a positive modulus. */
  function SeatAt(n: int, start: int, step: int): int
    requires n > 0
  {
    (start + step) % n
  }

  /**
   * Steps `step`..`n + 1` of the scan: the seat `SeatAt(n, start, step)` is
   * looked at in step `step`, as `i = (i + 1) % n` does from `i = start`.
   */
  function Scan(ps: seq<Player>, start: int, step: nat): int
    requires |ps| > 0 && step >= 1
    decreases |ps| + 2 - step
  {
    if step > |ps| + 1 then start
    else if Active(ps[SeatAt(|ps|, start, step)]) then SeatAt(|ps|, start, step)
    else Scan(ps, start, step + 1)
  }

  function NextActive(ps: seq<Player>, start: int): int
    requires |ps| > 0
  {
    Scan(ps, start, 1)
  }

  /** How many steps of the scan from `start` reach seat `j`: 1..n, `start` itself last. */
  function Offset(n: int, start: int, j: int): int
    requires n > 0
  {
    (j - start - 1) % n + 1
  }

  predicate SomeActive(ps: seq<Player>)
  {
    exists j :: 0 <= j < |ps| && Active(ps[j])
  }

  /** `y % n` is the remainder of any division of `y` by `n`. */
  lemma ModUnique(y: int, d: int, r: int, n: int)
    requires n > 0 && 0 <= r < n && y == d * n + r
    ensures y % n == r
  {
    var d' := y / n;
    var r' := y % n;
    assert (d - d') * n == r' - r;
    assert (d' - d) * n == r - r';
    if d - d' >= 1 {
      MulAtLeast(d - d', n);
    } else if d' - d >= 1 {
      MulAtLeast(d' - d, n);
    }
  }

  lemma MulAtLeast(k: int, n: int)
    requires k >= 1 && n > 0
    ensures k * n >= n
  {
  }

  lemma OffsetReaches(n: int, start: int, j: int)
    requires n > 0 && 0 <= j < n
    ensures 1 <= Offset(n, start, j) <= n
    ensures SeatAt(n, start, Offset(n, start, j)) == j
  {
    var o := (j - start - 1) % n;
    var q := (j - start - 1) / n;
    assert j - start - 1 == q * n + o;
    ModUnique(start + o + 1, -q, j, n);
  }

  lemma OffsetOfStep(n: int, start: int, step: int)
    requires n > 0 && 1 <= step <= n
    ensures Offset(n, start, SeatAt(n, start, step)) == step
  {
    var j := (start + step) % n;
    var q := (start + step) / n;
    assert start + step == q * n + j;
    ModUnique(j - start - 1, -q, step - 1, n);
  }

  /** Where the scan from step `step` stops: at step `s` on the seat it returns, or (`s == 0`) nowhere. */
  lemma {:induction false} ScanResult(ps: seq<Player>, start: int, step: nat) returns (s: int)
    requires |ps| > 0 && step >= 1
    ensures var r := Scan(ps, start, step);
      && (s == 0 ==> r == start && forall k :: step <= k <= |ps| + 1 ==> !Active(ps[SeatAt(|ps|, start, k)]))
      && (s != 0 ==>
            && step <= s <= |ps| + 1 && r == SeatAt(|ps|, start, s) && Active(ps[r])
            && forall k :: step <= k < s ==> !Active(ps[SeatAt(|ps|, start, k)]))
    decreases |ps| + 2 - step
  {
    if step > |ps| + 1 {
      s := 0;
    } else if Active(ps[SeatAt(|ps|, start, step)]) {
      s := step;
    } else {
      s := ScanResult(ps, start, step + 1);
    }
  }

  /**
   * The scan returns the first active seat in circular order after `start`,
   * looking at `start` itself last, and returns `start` when no seat is active.
   */
  lemma NextActiveIsFirst(ps: seq<Player>, start: int)
    requires |ps| > 0
    ensures var r := NextActive(ps, start);
      && (SomeActive(ps) ==>
            && 0 <= r < |ps| && Active(ps[r])
            && forall j :: 0 <= j < |ps| && Active(ps[j]) ==> Offset(|ps|, start, r) <= Offset(|ps|, start, j))
      && (!SomeActive(ps) ==> r == start)
  {
    var n := |ps|;
    var r := NextActive(ps, start);
    var s := ScanResult(ps, start, 1);
    if SomeActive(ps) {
      var j0 :| 0 <= j0 < n && Active(ps[j0]);
      OffsetReaches(n, start, j0);
      var o0 := Offset(n, start, j0);
      assert s != 0 && s <= o0;
      OffsetOfStep(n, start, s);
      forall j | 0 <= j < n && Active(ps[j]) ensures Offset(n, start, r) <= Offset(n, start, j) {
        OffsetReaches(n, start, j);
      }
    }
  }

  /** The scan depends on who is active only. */
  lemma {:induction false} ScanSameActivity(ps: seq<Player>, qs: seq<Player>, start: int, step: nat)
    requires |ps| == |qs| > 0 && step >= 1
    requires forall j :: 0 <= j < |ps| ==> Active(ps[j]) == Active(qs[j])
    ensures Scan(ps, start, step) == Scan(qs, start, step)
    decreases |ps| + 2 - step
  {
    if step <= |ps| + 1 {
      ScanSameActivity(ps, qs, start, step + 1);
    }
  }

  // ---------------------------------------------------------------------
  // `post_blinds`.
  // ---------------------------------------------------------------------

  function Min(a: int, b: int): int { if a <= b then a else b }

  /** The seat posts `min(amount, chips)`: its chips drop by that and its bet BECOMES it. */
  function PostBlind(p: Player, amount: int): Player
  {
    var paid := Min(amount, p.chips);
    p.(chips := p.chips - paid, bet := paid)
  }

  /**
   * Small blind on the first active seat after the dealer, big blind on the
   * next one; the bet to match is the full big blind even when the big blind
   * was short, and the turn goes to the seat after the big blind.
   */
  function PostBlinds(t: Table): (r: Table)
    requires 0 <= t.dealerPos < |t.players|
  {
    var ps := t.players;
    var sb := NextActive(ps, t.dealerPos);
    NextActiveIsFirst(ps, t.dealerPos);
    var bb := NextActive(ps, sb);
    NextActiveIsFirst(ps, sb);
    var ps1 := ps[sb := PostBlind(ps[sb], t.smallBlind)];
    var ps2 := ps1[bb := PostBlind(ps1[bb], t.bigBlind)];
    t.(players := ps2, currentBet := t.bigBlind, lastRaise := t.bigBlind, current := NextActive(ps2, bb))
  }

  function BlindSeats(t: Table): (int, int)
    requires 0 <= t.dealerPos < |t.players|
  {
    var sb := NextActive(t.players, t.dealerPos);
    (sb, NextActive(t.players, sb))
  }

  function CountActive(ps: seq<Player>): nat
  {
    if |ps| == 0 then 0 else (if Active(ps[0]) then 1 else 0) + CountActive(ps[1..])
  }

  lemma {:induction false} CountActiveWitness(ps: seq<Player>, j: int) returns (k: int)
    requires 0 <= j < |ps| && Active(ps[j]) && CountActive(ps) >= 2
    ensures 0 <= k < |ps| && k != j && Active(ps[k])
  {
    if Active(ps[0]) && j != 0 {
      k := 0;
    } else if j == 0 {
      assert CountActive(ps[1..]) >= 1;
      k := CountActiveSome(ps[1..]);
      k := k + 1;
    } else {
      var k' := CountActiveWitness(ps[1..], j - 1);
      k := k' + 1;
    }
  }

  lemma {:induction false} CountActiveSome(ps: seq<Player>) returns (k: int)
    requires CountActive(ps) >= 1
    ensures 0 <= k < |ps| && Active(ps[k])
  {
    if Active(ps[0]) {
      k := 0;
    } else {
      k := CountActiveSome(ps[1..]);
      k := k + 1;
    }
  }

  /**
   * The blinds move chips from stacks to bets and nothing else: with two or
   * more active seats they land on two different active seats, each pays
   * `min(blind, chips)`, and when no bets were out the table's chips are
   * unchanged.
   */
  lemma PostBlindsSpec(t: Table)
    requires 0 <= t.dealerPos < |t.players| && CountActive(t.players) >= 2
    ensures var (sb, bb) := BlindSeats(t); var r := PostBlinds(t);
      && 0 <= sb < |t.players| && 0 <= bb < |t.players| && sb != bb
      && Active(t.players[sb]) && Active(t.players[bb])
      && r.players[sb] == PostBlind(t.players[sb], t.smallBlind)
      && r.players[bb] == PostBlind(t.players[bb], t.bigBlind)
      && (forall j :: 0 <= j < |t.players| && j != sb && j != bb ==> r.players[j] == t.players[j])
      && r.currentBet == r.lastRaise == t.bigBlind
      && r.current == NextActive(t.players, bb)
      && ((forall j :: 0 <= j < |t.players| ==> t.players[j].bet == 0) ==> TableChips(r) == TableChips(t))
  {
    var ps := t.players;
    var (sb, bb) := BlindSeats(t);
    BlindSeatsDiffer(t);
    var r := PostBlinds(t);
    var ps1 := ps[sb := PostBlind(ps[sb], t.smallBlind)];
    var ps2 := ps1[bb := PostBlind(ps1[bb], t.bigBlind)];
    assert r.players == ps2;
    assert ps1[bb] == ps[bb];
    ScanSameActivity(ps2, ps, bb, 1);
    UpdatePlayer(ps, sb, PostBlind(ps[sb], t.smallBlind));
    UpdatePlayer(ps1, bb, PostBlind(ps1[bb], t.bigBlind));
  }

  /** With two active seats the scan from the small blind reaches the other one before coming back. */
  lemma BlindSeatsDiffer(t: Table)
    requires 0 <= t.dealerPos < |t.players| && CountActive(t.players) >= 2
    ensures var (sb, bb) := BlindSeats(t);
      && 0 <= sb < |t.players| && 0 <= bb < |t.players| && sb != bb
      && Active(t.players[sb]) && Active(t.players[bb])
  {
    var ps := t.players;
    var (sb, bb) := BlindSeats(t);
    var j0 := CountActiveSome(ps);
    NextActiveIsFirst(ps, t.dealerPos);
    NextActiveIsFirst(ps, sb);
    var other := CountActiveWitness(ps, sb);
    OffsetReaches(|ps|, sb, other);
    OffsetReaches(|ps|, sb, sb);
    OffsetSelf(|ps|, sb);
    assert Offset(|ps|, sb, bb) <= Offset(|ps|, sb, other);
  }

  /** The scan reaches its own start last, in step n. */
  lemma OffsetSelf(n: int, start: int)
    requires n > 0
    ensures Offset(n, start, start) == n
  {
    ModUnique(-1, -1, n - 1, n);
  }

  // ---------------------------------------------------------------------
  // `deal_hole_cards`.
  // ---------------------------------------------------------------------

  function InHandCount(ps: seq<Player>): nat
  {
    if |ps| == 0 then 0 else (if ps[0].inHand then 1 else 0) + InHandCount(ps[1..])
  }

  /** One pass over the seats: each seat in the hand takes the card `Deck.deal` pops. */
  function DealPass(ps: seq<Player>, deck: seq<Card>): (seq<Player>, seq<Card>)
    requires |deck| >= InHandCount(ps)
  {
    if |ps| == 0 then (ps, deck)
    else if ps[0].inHand then
      var (c, d) := Deal(deck);
      var (rest, d') := DealPass(ps[1..], d);
      ([ps[0].(hand := ps[0].hand + [c.value])] + rest, d')
    else
      var (rest, d') := DealPass(ps[1..], deck);
      ([ps[0]] + rest, d')
  }

  /** The seats in the hand before seat `j` leave room for seat `j` among all of them. */
  lemma {:induction false} InHandPrefix(ps: seq<Player>, j: int)
    requires 0 <= j < |ps|
    ensures InHandCount(ps[..j]) + (if ps[j].inHand then 1 else 0) <= InHandCount(ps)
    ensures j > 0 ==> InHandCount(ps[..j]) == (if ps[0].inHand then 1 else 0) + InHandCount(ps[1..][..j - 1])
  {
    if j > 0 {
      assert ps[..j][0] == ps[0];
      assert ps[..j][1..] == ps[1..][..j - 1];
      InHandPrefix(ps[1..], j - 1);
    } else {
      assert ps[..j] == [];
    }
  }

  lemma InHandPrefixAll(ps: seq<Player>)
    ensures forall j :: 0 <= j < |ps| ==> InHandCount(ps[..j]) + (if ps[j].inHand then 1 else 0) <= InHandCount(ps)
  {
    forall j | 0 <= j < |ps| ensures InHandCount(ps[..j]) + (if ps[j].inHand then 1 else 0) <= InHandCount(ps) {
      InHandPrefix(ps, j);
    }
  }

  /** The card the k-th seat in the hand takes in a pass: the k-th from the end of the deck. */
  function DealtTo(ps: seq<Player>, deck: seq<Card>, j: int): Card
    requires 0 <= j < |ps| && ps[j].inHand && |deck| >= InHandCount(ps)
  {
    InHandPrefix(ps, j);
    deck[|deck| - 1 - InHandCount(ps[..j])]
  }

  /**
   * After one pass the k-th seat in the hand (in seat order) holds one more
   * card, the k-th card from the top (end) of the deck, and those cards are
   * gone from the deck; seats out of the hand are untouched.
   */
  lemma {:induction false} DealPassSpec(ps: seq<Player>, deck: seq<Card>)
    requires |deck| >= InHandCount(ps)
    ensures var (qs, d) := DealPass(ps, deck);
      && |qs| == |ps|
      && d == deck[..|deck| - InHandCount(ps)]
      && forall j :: 0 <= j < |ps| ==>
           qs[j] == if ps[j].inHand then ps[j].(hand := ps[j].hand + [DealtTo(ps, deck, j)]) else ps[j]
  {
    if |ps| > 0 {
      var (qs, d) := DealPass(ps, deck);
      var m := if ps[0].inHand then 1 else 0;
      var deck1 := deck[..|deck| - m];
      DealPassSpec(ps[1..], deck1);
      var (rest, d') := DealPass(ps[1..], deck1);
      var head := if ps[0].inHand then ps[0].(hand := ps[0].hand + [deck[|deck| - 1]]) else ps[0];
      if ps[0].inHand {
        assert Deal(deck).0 == Some(deck[|deck| - 1]);
        assert Deal(deck).1 == deck1;
        assert DealPass(ps, deck).0 == [head] + DealPass(ps[1..], deck1).0;
      } else {
        assert deck1 == deck;
      }
      assert qs == [head] + rest;
      forall j | 0 <= j < |ps|
        ensures qs[j] == if ps[j].inHand then ps[j].(hand := ps[j].hand + [DealtTo(ps, deck, j)]) else ps[j]
      {
        if j > 0 {
          assert ps[1..][j - 1] == ps[j];
          assert rest[j - 1] == qs[j];
          if ps[j].inHand {
            DealtToShift(ps, deck, j);
          }
        } else {
          assert ps[..0] == [];
        }
      }
    }
  }

  /** A later seat's card is the same whether the first seat has taken its card or not. */
  lemma DealtToShift(ps: seq<Player>, deck: seq<Card>, j: int)
    requires 0 < j < |ps| && ps[j].inHand && |deck| >= InHandCount(ps)
    ensures var deck1 := deck[..|deck| - (if ps[0].inHand then 1 else 0)];
      |deck1| >= InHandCount(ps[1..]) && DealtTo(ps[1..], deck1, j - 1) == DealtTo(ps, deck, j)
  {
    InHandPrefix(ps, j);
    InHandPrefix(ps[1..], j - 1);
    assert ps[1..][j - 1] == ps[j];
  }

  lemma {:induction false} DealPassKeepsInHand(ps: seq<Player>, deck: seq<Card>)
    requires |deck| >= InHandCount(ps)
    ensures |DealPass(ps, deck).0| == |ps|
    ensures forall j :: 0 <= j < |ps| ==> DealPass(ps, deck).0[j].inHand == ps[j].inHand
    ensures InHandCount(DealPass(ps, deck).0) == InHandCount(ps)
  {
    DealPassSpec(ps, deck);
    InHandCountSame(ps, DealPass(ps, deck).0);
  }

  lemma {:induction false} InHandCountSame(ps: seq<Player>, qs: seq<Player>)
    requires |ps| == |qs|
    requires forall j :: 0 <= j < |ps| ==> ps[j].inHand == qs[j].inHand
    ensures InHandCount(ps) == InHandCount(qs)
  {
    if |ps| > 0 {
      InHandCountSame(ps[1..], qs[1..]);
    }
  }

  /** `deal_hole_cards`: two passes round the table. */
  function DealHoleCards(t: Table): Table
    requires |t.deck| >= 2 * InHandCount(t.players)
  {
    var (ps1, d1) := DealPass(t.players, t.deck);
    DealPassKeepsInHand(t.players, t.deck);
    DealPassSpec(t.players, t.deck);
    var (ps2, d2) := DealPass(ps1, d1);
    t.(players := ps2, deck := d2)
  }

  /**
   * With m seats in the hand, the k-th of them gets the k-th and the
   * (m + k)-th card from the end of the deck, in that order, and the deck
   * loses its last 2m cards; the chips are untouched.
   */
  function HoleCards(ps: seq<Player>, deck: seq<Card>, j: int): seq<Card>
    requires 0 <= j < |ps| && ps[j].inHand && |deck| >= 2 * InHandCount(ps)
  {
    var m := InHandCount(ps);
    var k := InHandCount(ps[..j]);
    InHandPrefix(ps, j);
    [deck[|deck| - 1 - k], deck[|deck| - 1 - m - k]]
  }

  lemma DealHoleCardsSpec(t: Table)
    requires |t.deck| >= 2 * InHandCount(t.players)
    ensures var r := DealHoleCards(t);
      && |r.players| == |t.players|
      && r.deck == t.deck[..|t.deck| - 2 * InHandCount(t.players)]
      && (forall j :: 0 <= j < |t.players| ==>
            r.players[j] == if t.players[j].inHand
                            then t.players[j].(hand := t.players[j].hand + HoleCards(t.players, t.deck, j))
                            else t.players[j])
      && TableChips(r) == TableChips(t)
  {
    var ps := t.players;
    DealPassKeepsInHand(ps, t.deck);
    DealPassSpec(ps, t.deck);
    DealPassSpec(DealPass(ps, t.deck).0, DealPass(ps, t.deck).1);
    var r := DealHoleCards(t);
    forall j | 0 <= j < |ps|
      ensures r.players[j] == if ps[j].inHand then ps[j].(hand := ps[j].hand + HoleCards(ps, t.deck, j)) else ps[j]
    {
      DealHoleCardsSeat(t, j);
    }
    assert Chips(r.players) == Chips(ps);
    assert Bets(r.players) == Bets(ps);
  }

  lemma DealHoleCardsSeat(t: Table, j: int)
    requires |t.deck| >= 2 * InHandCount(t.players) && 0 <= j < |t.players|
    ensures |DealHoleCards(t).players| == |t.players|
    ensures var p := t.players[j];
      DealHoleCards(t).players[j] == if p.inHand then p.(hand := p.hand + HoleCards(t.players, t.deck, j)) else p
  {
    var ps := t.players;
    var (ps1, d1) := DealPass(ps, t.deck);
    DealPassKeepsInHand(ps, t.deck);
    DealPassSpec(ps, t.deck);
    DealPassSpec(ps1, d1);
    var ps2 := DealPass(ps1, d1).0;
    assert DealHoleCards(t).players == ps2;
    if ps[j].inHand {
      InHandCountSame(ps[..j], ps1[..j]);
      TwoPassCards(ps, t.deck, ps1, d1, ps2, j);
    }
  }

  /** Seat `j` takes one card in each pass, and together they are its hole cards. */
  lemma TwoPassCards(ps: seq<Player>, deck: seq<Card>, ps1: seq<Player>, d1: seq<Card>, ps2: seq<Player>, j: int)
    requires |deck| >= 2 * InHandCount(ps) && 0 <= j < |ps| && ps[j].inHand
    requires d1 == deck[..|deck| - InHandCount(ps)]
    requires |ps1| == |ps| == |ps2| && ps1[j].inHand
    requires InHandCount(ps1) == InHandCount(ps) && InHandCount(ps1[..j]) == InHandCount(ps[..j])
    requires ps1[j] == ps[j].(hand := ps[j].hand + [DealtTo(ps, deck, j)])
    requires ps2[j] == ps1[j].(hand := ps1[j].hand + [DealtTo(ps1, d1, j)])
    ensures ps2[j] == ps[j].(hand := ps[j].hand + HoleCards(ps, deck, j))
  {
    var n := |deck|;
    var m := InHandCount(ps);
    var k := InHandCount(ps[..j]);
    InHandPrefix(ps, j);
    assert DealtTo(ps, deck, j) == deck[n - 1 - k];
    assert DealtTo(ps1, d1, j) == d1[n - m - 1 - k] == deck[n - 1 - m - k];
  }

  // ---------------------------------------------------------------------
  // `handle_player_action`.
  // ---------------------------------------------------------------------

  /** The action a seat sends; anything unrecognised does nothing but the all-in check. */
  datatype Action = Fold | Check | Call | Bet(amount: int) | Raise(amount: int) | Other

  datatype ActionResult = ActionResult(table: Table, isRaise: bool)

  function HandleAction(t: Table, i: int, a: Action): ActionResult
    requires 0 <= i < |t.players|
  {
    var p := t.players[i];
    var toCall := t.currentBet - p.bet;
    var (q, bet, lastRaise, isRaise) :=
      match a
      case Fold => (p.(inHand := false), t.currentBet, t.lastRaise, false)
      case Check => (p, t.currentBet, t.lastRaise, false)
      case Call =>
        var paid := Min(toCall, p.chips);
        (p.(chips := p.chips - paid, bet := p.bet + paid), t.currentBet, t.lastRaise, false)
      case Bet(amount) => Wager(t, p, amount)
      case Raise(amount) => Wager(t, p, amount)
      case Other => (p, t.currentBet, t.lastRaise, false);
    var q' := if q.chips == 0 then q.(isAllIn := true) else q;
    ActionResult(t.(players := t.players[i := q'], currentBet := bet, lastRaise := lastRaise), isRaise)
  }

  /**
   * A bet or raise to `amount`: the seat's bet becomes `min(amount, chips + bet)`
   * (lower than the current bet gives chips back) and, when that tops the
   * bet to match, it becomes the new bet to match and a raise.
   */
  function Wager(t: Table, p: Player, amount: int): (Player, int, int, bool)
  {
    var total := Min(amount, p.chips + p.bet);
    var additional := total - p.bet;
    var q := p.(chips := p.chips - additional, bet := p.bet + additional);
    if q.bet > t.currentBet then (q, q.bet, q.bet - t.currentBet, true)
    else (q, t.currentBet, t.lastRaise, false)
  }

  /**
   * What an action does to the table: only the acting seat changes, its
   * chips plus bet stay the same, a call moves `min(to call, chips)`, a bet
   * or raise sets the bet to `min(amount, chips + bet)`, the bet to match
   * never drops and rises exactly on a raise, which records the increase,
   * a fold leaves the hand, and no chips left means all-in.
   */
  lemma HandleActionSpec(t: Table, i: int, a: Action)
    requires 0 <= i < |t.players|
    ensures var res := HandleAction(t, i, a); var r := res.table;
      var p := t.players[i]; var q := r.players[i];
      && |r.players| == |t.players|
      && (forall j :: 0 <= j < |t.players| && j != i ==> r.players[j] == t.players[j])
      && r.pot == t.pot && r.deck == t.deck && r.community == t.community
      && r.dealerPos == t.dealerPos && r.current == t.current && r.stage == t.stage
      && r.smallBlind == t.smallBlind && r.bigBlind == t.bigBlind
      && q.chips + q.bet == p.chips + p.bet
      && q.hand == p.hand
      && q.inHand == (p.inHand && !a.Fold?)
      && q.isAllIn == (p.isAllIn || q.chips == 0)
      && (a.Call? ==> q.bet - p.bet == Min(t.currentBet - p.bet, p.chips))
      && ((a.Bet? || a.Raise?) ==> q.bet == Min(a.amount, p.chips + p.bet))
      && (!(a.Call? || a.Bet? || a.Raise?) ==> q.bet == p.bet)
      && r.currentBet >= t.currentBet
      && (res.isRaise <==> r.currentBet > t.currentBet)
      && (res.isRaise ==> r.currentBet == q.bet && r.lastRaise == r.currentBet - t.currentBet)
      && (!res.isRaise ==> r.currentBet == t.currentBet && r.lastRaise == t.lastRaise)
      && TableChips(r) == TableChips(t)
  {
    var r := HandleAction(t, i, a).table;
    UpdatePlayer(t.players, i, r.players[i]);
  }

  /**
   * The range invariant of the bookkeeping: no negative pot, stack or bet,
   * and no bet above the bet to match.
   */
  predicate Bounded(t: Table)
  {
    && t.pot >= 0 && t.currentBet >= 0
    && forall j :: 0 <= j < |t.players| ==>
         t.players[j].chips >= 0 && 0 <= t.players[j].bet <= t.currentBet
  }

  /** Actions keep the range invariant as long as a bet or raise names a non-negative amount. */
  lemma HandleActionBounded(t: Table, i: int, a: Action)
    requires 0 <= i < |t.players| && Bounded(t)
    requires (a.Bet? || a.Raise?) ==> a.amount >= 0
    ensures Bounded(HandleAction(t, i, a).table)
  {
    HandleActionSpec(t, i, a);
  }

  /** A negative amount is clamped to itself: the bet goes below zero and the stack grows. */
  lemma NegativeBetGrowsStack(t: Table, i: int, amount: int)
    requires 0 <= i < |t.players| && amount < 0 && t.players[i].chips >= 0 && t.players[i].bet >= 0
    ensures var q := HandleAction(t, i, Bet(amount)).table.players[i];
      q.bet == amount && q.chips > t.players[i].chips
  {
    HandleActionSpec(t, i, Bet(amount));
  }

  // ---------------------------------------------------------------------
  // `collect_bets`.
  // ---------------------------------------------------------------------

  function ClearBets(ps: seq<Player>): (qs: seq<Player>)
  {
    seq(|ps|, j requires 0 <= j < |ps| => ps[j].(bet := 0))
  }

  function CollectBets(t: Table): Table
  {
    t.(pot := t.pot + Sum(Bets(t.players)), players := ClearBets(t.players))
  }

  /** The pot grows by exactly the bets on the table, every bet is zero afterwards, and stacks do not move. */
  lemma CollectBetsSpec(t: Table)
    ensures var r := CollectBets(t);
      && r.pot == t.pot + Sum(Bets(t.players))
      && |r.players| == |t.players|
      && (forall j :: 0 <= j < |r.players| ==> r.players[j].bet == 0 && r.players[j] == t.players[j].(bet := 0))
      && TableChips(r) == TableChips(t)
      && (Bounded(t) ==> Bounded(r))
  {
    var r := CollectBets(t);
    assert Bets(r.players) == seq(|t.players|, _ => 0);
    SumZeros(|t.players|);
    assert Chips(r.players) == Chips(t.players);
    if Bounded(t) {
      SumNonNegative(Bets(t.players));
    }
  }

  // ---------------------------------------------------------------------
  // `award_pot_to_winner`.
  // ---------------------------------------------------------------------

  /** The position of the first seat still in the hand. */
  function FirstInHand(ps: seq<Player>): (k: int)
    requires InHandCount(ps) >= 1
    ensures 0 <= k < |ps| && ps[k].inHand
    ensures forall j :: 0 <= j < k ==> !ps[j].inHand
  {
    if ps[0].inHand then 0 else 1 + FirstInHand(ps[1..])
  }

  function AwardPot(t: Table): Table
  {
    if InHandCount(t.players) == 1 then
      var w := FirstInHand(t.players);
      t.(players := t.players[w := t.players[w].(chips := t.players[w].chips + t.pot)], pot := 0)
    else t
  }

  lemma {:induction false} OnlyInHand(ps: seq<Player>, j: int)
    requires InHandCount(ps) == 1 && 0 <= j < |ps| && ps[j].inHand
    ensures j == FirstInHand(ps)
  {
    if j > 0 && !ps[0].inHand {
      OnlyInHand(ps[1..], j - 1);
    } else if j > 0 {
      assert ps[1..][j - 1].inHand;
      InHandPositive(ps[1..], j - 1);
      assert false;
    }
  }

  lemma {:induction false} InHandPositive(ps: seq<Player>, j: int)
    requires 0 <= j < |ps| && ps[j].inHand
    ensures InHandCount(ps) >= 1
  {
    if j > 0 && !ps[0].inHand {
      InHandPositive(ps[1..], j - 1);
    }
  }

  /**
   * With exactly one seat in the hand, that seat takes the whole pot and the
   * pot empties; otherwise nothing changes. Chips are conserved either way.
   */
  lemma AwardPotSpec(t: Table)
    ensures var r := AwardPot(t);
      && |r.players| == |t.players|
      && (InHandCount(t.players) == 1 ==>
            r.pot == 0
            && forall j :: 0 <= j < |t.players| ==>
                 r.players[j] == if t.players[j].inHand
                                 then t.players[j].(chips := t.players[j].chips + t.pot)
                                 else t.players[j])
      && (InHandCount(t.players) != 1 ==> r == t)
      && TableChips(r) == TableChips(t)
  {
    if InHandCount(t.players) == 1 {
      var w := FirstInHand(t.players);
      forall j | 0 <= j < |t.players| && t.players[j].inHand ensures j == w {
        OnlyInHand(t.players, j);
      }
      UpdatePlayer(t.players, w, t.players[w].(chips := t.players[w].chips + t.pot));
    }
  }

  // ---------------------------------------------------------------------
  // The start of `play_hand`.
  // ---------------------------------------------------------------------

  /** `Player.reset_for_hand`. */
  function ResetForHand(p: Player): (q: Player)
  {
    p.(hand := [], bet := 0, inHand := true, isAllIn := false)
  }

  /**
   * Nothing of the previous hand survives a reset but the stack: two seats
   * come out the same exactly when their stacks agree, a second reset
   * changes nothing, and the seat is back in the hand.
   */
  lemma ResetForHandSpec(p: Player, q: Player)
    ensures ResetForHand(p) == ResetForHand(q) <==> p.chips == q.chips
    ensures ResetForHand(ResetForHand(p)) == ResetForHand(p)
    ensures ResetForHand(p).chips == p.chips && Active(ResetForHand(p))
  {
  }

  /** The seats that still have chips, in seat order. */
  function WithChips(ps: seq<Player>): seq<Player>
  {
    if |ps| == 0 then []
    else if ps[0].chips > 0 then [ps[0]] + WithChips(ps[1..])
    else WithChips(ps[1..])
  }

  /**
   * The seats kept are exactly those with chips, in their order, and when no
   * stack is negative no chips are lost.
   */
  lemma {:induction false} WithChipsSpec(ps: seq<Player>)
    ensures forall p :: p in WithChips(ps) <==> p in ps && p.chips > 0
    ensures |WithChips(ps)| <= |ps|
    ensures (forall j :: 0 <= j < |ps| ==> ps[j].chips >= 0) ==> Sum(Chips(WithChips(ps))) == Sum(Chips(ps))
  {
    if |ps| > 0 {
      WithChipsSpec(ps[1..]);
      var w := WithChips(ps[1..]);
      assert Chips(ps) == [ps[0].chips] + Chips(ps[1..]);
      if ps[0].chips > 0 {
        assert Chips([ps[0]] + w) == [ps[0].chips] + Chips(w);
      }
    } else {
      assert Chips(ps) == [];
    }
  }

  /** Strictly increasing, as the positions of a selection are. */
  predicate Ascending(xs: seq<int>)
  {
    forall a, b :: 0 <= a < b < |xs| ==> xs[a] < xs[b]
  }

  /** `idx` lists, in increasing order, the positions of `ps` that `WithChips` keeps. */
  ghost predicate Selects(ps: seq<Player>, idx: seq<int>)
  {
    && Ascending(idx) && |idx| == |WithChips(ps)|
    && (forall j :: j in idx <==> 0 <= j < |ps| && ps[j].chips > 0)
    && (forall k :: 0 <= k < |idx| ==> 0 <= idx[k] < |ps| && WithChips(ps)[k] == ps[idx[k]])
  }

  /**
   * `WithChips` is the order-preserving selection of the seats with chips:
   * `idx` lists the kept positions in increasing order, every position with
   * chips is among them, and the k-th kept seat is the seat at `idx[k]`.
   */
  lemma {:induction false} WithChipsSelects(ps: seq<Player>) returns (idx: seq<int>)
    ensures Ascending(idx) && |idx| == |WithChips(ps)|
    ensures forall j :: j in idx <==> 0 <= j < |ps| && ps[j].chips > 0
    ensures forall k :: 0 <= k < |idx| ==> 0 <= idx[k] < |ps| && WithChips(ps)[k] == ps[idx[k]]
  {
    if |ps| == 0 {
      idx := [];
    } else {
      var rest := WithChipsSelects(ps[1..]);
      assert Selects(ps[1..], rest);
      var shifted := ShiftSelection(ps, rest);
      if ps[0].chips > 0 {
        idx := KeepFirst(ps, shifted);
      } else {
        idx := shifted;
        assert WithChips(ps) == WithChips(ps[1..]);
      }
      assert Selects(ps, idx);
    }
  }

  /** The selection of `ps[1..]`, moved to positions in `ps`. */
  lemma ShiftSelection(ps: seq<Player>, rest: seq<int>) returns (shifted: seq<int>)
    requires |ps| > 0 && Selects(ps[1..], rest)
    ensures Ascending(shifted) && |shifted| == |WithChips(ps[1..])|
    ensures forall j :: j in shifted <==> 1 <= j < |ps| && ps[j].chips > 0
    ensures forall k :: 0 <= k < |shifted| ==> 1 <= shifted[k] < |ps| && WithChips(ps[1..])[k] == ps[shifted[k]]
  {
    shifted := Bump(rest);
    ShiftedMembers(ps, ps[1..], rest);
  }

  function Bump(xs: seq<int>): (ys: seq<int>)
    ensures |ys| == |xs| && forall k :: 0 <= k < |xs| ==> ys[k] == xs[k] + 1
  {
    seq(|xs|, k requires 0 <= k < |xs| => xs[k] + 1)
  }

  lemma ShiftedMembers(ps: seq<Player>, q: seq<Player>, rest: seq<int>)
    requires |ps| > 0 && q == ps[1..]
    requires forall j :: j in rest <==> 0 <= j < |q| && q[j].chips > 0
    ensures forall j :: j in Bump(rest) <==> 1 <= j < |ps| && ps[j].chips > 0
  {
    var shifted := Bump(rest);
    forall j | j in shifted ensures 1 <= j < |ps| && ps[j].chips > 0 {
      var k :| 0 <= k < |shifted| && shifted[k] == j;
      assert rest[k] in rest;
      assert q[j - 1] == ps[j];
    }
    forall j | 1 <= j < |ps| && ps[j].chips > 0 ensures j in shifted {
      assert q[j - 1] == ps[j];
      var k :| 0 <= k < |rest| && rest[k] == j - 1;
      assert shifted[k] == j;
    }
  }

  /** A first seat with chips comes first in the selection. */
  lemma KeepFirst(ps: seq<Player>, shifted: seq<int>) returns (idx: seq<int>)
    requires |ps| > 0 && ps[0].chips > 0
    requires Ascending(shifted) && |shifted| == |WithChips(ps[1..])|
    requires forall j :: j in shifted <==> 1 <= j < |ps| && ps[j].chips > 0
    requires forall k :: 0 <= k < |shifted| ==> 1 <= shifted[k] < |ps| && WithChips(ps[1..])[k] == ps[shifted[k]]
    ensures Selects(ps, idx)
  {
    idx := [0] + shifted;
    var w := WithChips(ps);
    assert w == [ps[0]] + WithChips(ps[1..]);
    forall k | 1 <= k < |idx| ensures idx[k] == shifted[k - 1] && w[k] == ps[idx[k]] {
      assert w[k] == WithChips(ps[1..])[k - 1];
    }
    forall j ensures j in idx <==> 0 <= j < |ps| && ps[j].chips > 0 {
      assert j in idx <==> j == 0 || j in shifted;
    }
  }

  function ResetAll(ps: seq<Player>): seq<Player>
  {
    seq(|ps|, j requires 0 <= j < |ps| => ResetForHand(ps[j]))
  }

  datatype HandStart = HandStart(table: Table, started: bool)

  /**
   * `play_hand` up to the blinds: drop the seats without chips; with fewer
   * than two left the hand does not start; otherwise every seat is reset, a
   * fresh deck comes in, the pot, bet to match and board are cleared and the
   * dealer button moves one seat on (modulo the new seat count).
   */
  function StartHand(t: Table, deck: seq<Card>): HandStart
  {
    var ps := WithChips(t.players);
    if |ps| < 2 then HandStart(t.(players := ps), false)
    else HandStart(t.(players := ResetAll(ps), deck := deck, community := [], pot := 0, currentBet := 0,
                      dealerPos := (t.dealerPos + 1) % |ps|), true)
  }

  /**
   * A started hand has at least two seats, all active and with chips, the
   * button on one of them, and no bets out; the chips on the table are
   * those of the previous hand when its pot and bets were settled and no
   * stack was negative.
   */
  lemma StartHandSpec(t: Table, deck: seq<Card>)
    ensures var res := StartHand(t, deck); var r := res.table;
      && (res.started <==> |WithChips(t.players)| >= 2)
      && (!res.started ==> r.players == WithChips(t.players))
      && (res.started ==>
            && |r.players| >= 2
            && 0 <= r.dealerPos < |r.players|
            && r.dealerPos == (t.dealerPos + 1) % |r.players|
            && r.pot == 0 && r.currentBet == 0 && r.community == [] && r.deck == deck
            && CountActive(r.players) == |r.players|
            && |r.players| == |WithChips(t.players)|
            && (forall j :: 0 <= j < |r.players| ==>
                  Active(r.players[j]) && r.players[j].chips == WithChips(t.players)[j].chips
                  && r.players[j].chips > 0 && r.players[j].bet == 0 && r.players[j].hand == []))
      && ((t.pot == 0 && (forall j :: 0 <= j < |t.players| ==> t.players[j].chips >= 0 && t.players[j].bet == 0)) ==>
            TableChips(r) == TableChips(t))
  {
    WithChipsKept(t.players);
    if |WithChips(t.players)| >= 2 {
      StartedSeats(t, deck);
    }
    StartHandChips(t, deck);
  }

  lemma WithChipsKept(ps: seq<Player>)
    ensures forall j :: 0 <= j < |WithChips(ps)| ==> WithChips(ps)[j].chips > 0
  {
    WithChipsSpec(ps);
    var w := WithChips(ps);
    forall j | 0 <= j < |w| ensures w[j].chips > 0 {
      assert w[j] in w;
    }
  }

  lemma StartedSeats(t: Table, deck: seq<Card>)
    requires |WithChips(t.players)| >= 2
    requires forall j :: 0 <= j < |WithChips(t.players)| ==> WithChips(t.players)[j].chips > 0
    ensures var r := StartHand(t, deck).table;
      && CountActive(r.players) == |r.players|
      && |r.players| == |WithChips(t.players)|
      && forall j :: 0 <= j < |r.players| ==>
           Active(r.players[j]) && r.players[j].chips == WithChips(t.players)[j].chips
           && r.players[j].chips > 0 && r.players[j].bet == 0 && r.players[j].hand == []
  {
    CountActiveAll(StartHand(t, deck).table.players);
  }

  lemma StartHandChips(t: Table, deck: seq<Card>)
    ensures (t.pot == 0 && (forall j :: 0 <= j < |t.players| ==> t.players[j].chips >= 0 && t.players[j].bet == 0)) ==>
      TableChips(StartHand(t, deck).table) == TableChips(t)
  {
    var ps := WithChips(t.players);
    var r := StartHand(t, deck).table;
    if t.pot == 0 && forall j :: 0 <= j < |t.players| ==> t.players[j].chips >= 0 && t.players[j].bet == 0 {
      WithChipsSpec(t.players);
      assert Bets(t.players) == seq(|t.players|, _ => 0);
      SumZeros(|t.players|);
      SumZeros(|ps|);
      forall j | 0 <= j < |ps| ensures ps[j].bet == 0 {
        assert ps[j] in ps;
      }
      assert Bets(ps) == seq(|ps|, _ => 0);
      if |ps| >= 2 {
        assert Chips(r.players) == Chips(ps);
        assert Bets(r.players) == seq(|ps|, _ => 0);
      }
    }
  }

  /**
   * With at most four seats (`add_player` turns away a fifth), a freshly
   * shuffled deck always covers the two hole cards of every seat once the
   * hand has started and the blinds are posted, leaving at least 44 cards.
   */
  lemma FreshDeckSuffices(t: Table, deck: seq<Card>)
    requires IsShuffledDeck(deck) && |t.players| <= 4
    ensures var res := StartHand(t, deck); var r := res.table;
      res.started ==>
        && 0 <= r.dealerPos < |r.players|
        && var b := PostBlinds(r);
           && |b.deck| >= 2 * InHandCount(b.players)
           && |DealHoleCards(b).deck| == 52 - 2 * |r.players| >= 44
  {
    var res := StartHand(t, deck);
    var r := res.table;
    if res.started {
      StartHandSpec(t, deck);
      WithChipsSpec(t.players);
      ShuffledDeckIsDistinct(deck);
      PostBlindsSpec(r);
      var b := PostBlinds(r);
      InHandCountAll(b.players);
      DealHoleCardsSpec(b);
    }
  }

  lemma {:induction false} InHandCountAll(ps: seq<Player>)
    requires forall j :: 0 <= j < |ps| ==> ps[j].inHand
    ensures InHandCount(ps) == |ps|
  {
    if |ps| > 0 {
      InHandCountAll(ps[1..]);
    }
  }

  lemma {:induction false} CountActiveAll(ps: seq<Player>)
    requires forall j :: 0 <= j < |ps| ==> Active(ps[j])
    ensures CountActive(ps) == |ps|
  {
    if |ps| > 0 {
      CountActiveAll(ps[1..]);
    }
  }
}
