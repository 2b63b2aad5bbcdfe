# Poker table core in Dafny

A model of the game logic in `poker_backend.py`. This is the single-table Texas hold'em server behind a browser client: up to four seats, human or bot. The model covers two parts:

- **The hand evaluator.** It ranks five cards into a category (1 High Card … 10 Royal Flush) plus a tie-break ordering. It compares two orderings card by card. It searches every five-card subset of a player's cards for the best one.
- **The table bookkeeping.** This covers:
  - the deck;
  - the circular seat scan that finds the next seat able to act;
  - blinds, hole cards and a player's action;
  - collecting bets, awarding the pot and the showdown split;
  - the reset at the start of a hand;
  - the opening and single passes of a betting round.

Every operation is a pure function from one immutable record to the next. Chips are integers. Python's floor division and modulo by a positive number coincide with Dafny's `/` and `%`, and the model uses them only in that case.

Modules, in dependency order:

| module | file | models |
|---|---|---|
| `Cards` | `cards.dfy` | `Card`, `Deck`, `Deck.deal` |
| `HandRank` | `hand_rank.dfy` | `_calculate_hand_rank`, `_compare_hands` |
| `BestHand` | `best_hand.dfy` | `evaluate_hand`, `HAND_NAMES` |
| `Table` | `table.dfy` | `Player`, `Game` fields, `get_next_active_player`, `post_blinds`, `deal_hole_cards`, `handle_player_action`, `collect_bets`, `award_pot_to_winner`, `reset_for_hand`, the start of `play_hand` |
| `Payout` | `payout.dfy` | `showdown` |
| `Betting` | `betting.dfy` | `betting_round`: opening, skip rule, one pass of its loop |

Three behaviours of the evaluator are kept as the code has them, not as textbook poker has them:
- **Grouped categories put their kickers first.** Four of a kind, three of a kind, two pair and one pair return the cards outside the group ahead of the grouped cards.
- **The wheel is ordered ace first.** A-2-3-4-5 is returned as A,2,3,4,5, so it compares as ace-high.
- **A suited wheel scores 10 (Royal Flush).** The royal test reads the top value before the ace is moved.

## Model

| member | source | states |
|---|---|---|
| Cards.NewDeck | poker_backend.py:32-34 | The fresh deck holds 52 cards, no card twice, and every card of the 4 suits × 13 values. |
| Cards.Deal | poker_backend.py:40-41 | `deal` returns nothing exactly when the deck is empty, and then leaves it empty. Otherwise it returns the last card, and that card appended to the remaining deck gives back the old deck. |
| Cards.DealConservesCards | poker_backend.py:40-41 | Dealing neither creates nor loses a card: remaining deck plus dealt card is the old deck as a multiset. From a deck without repeats, the dealt card is no longer in the deck. |
| Cards.ShuffledDeckIsDistinct | poker_backend.py:32-38 | Any ordering of the 52 cards, which is what the shuffle produces, has 52 different cards. |
| HandRank.SortDesc | poker_backend.py:57 | The value sort returns a permutation of the hand in non-increasing value order. |
| HandRank.RankOfFive | poker_backend.py:56-83 | Any five cards get a category between 1 and 10 and an ordering that is a permutation of exactly those five cards. |
| HandRank.RankLayout | poker_backend.py:57-83 | Categories 8, 4, 3 and 2 return the cards outside the group, descending, then the grouped cards, descending. Categories 7, 6 and 1 return the whole hand descending. So does every other category except on a wheel. The group is never empty: the last card of a category 8, 4, 3 or 2 ordering carries a value that occurs 4, 3, 2 or 2 times. |
| HandRank.RankCategories | poker_backend.py:58-83 | For five different cards, each category is read from the hand's value counts. Here the top count is the most cards sharing one value and d is the number of different values. 9 or 10 exactly for a straight flush. 8 exactly when the top count is 4. 7 exactly when the top count is 3 and d is 2. 6 exactly for a flush that is not a straight. 5 exactly for a straight that is not a flush. 4 exactly when the top count is 3 and d is 3. 3 exactly when the top count is 2 and d is 3. 2 exactly when the top count is 2 and d is 4. 1 exactly when d is 5 with neither flush nor straight. |
| HandRank.TopCountIsLargest | poker_backend.py:66-67 | The top count (`counts_vals[0]`) is at least the number of cards of every value, and some value reaches it when the hand is not empty. |
| HandRank.WheelRank | poker_backend.py:62-65 | A-2-3-4-5 is a straight whose ordering has values 14,2,3,4,5. It scores 5 unsuited and 10 suited. |
| HandRank.StraightFlushCategory | poker_backend.py:58-65 | A straight flush scores 10 exactly when its top value after the sort is an ace, otherwise 9. This includes the suited wheel. |
| HandRank.StraightAndFlushCategories | poker_backend.py:61-73 | A category of 9 or more means straight and flush, in both directions. Category 5 means a straight without a flush. Category 6 means a flush without a straight. |
| HandRank.RankOrderIndependent | poker_backend.py:56-83 | Two orderings of the same five cards get the same category and the same tie-break value sequence. |
| HandRank.Compare | poker_backend.py:85-89 | The comparison answers only -1, 0 or 1. |
| HandRank.CompareDecidedAt | poker_backend.py:85-89 | The first position whose values differ decides the answer: 1 if the first ordering's card is worth more, -1 otherwise. |
| HandRank.CompareNoDifference | poker_backend.py:85-89 | With no differing value over the common length (`zip` stops at the shorter), the answer is 0. |
| HandRank.CompareAntisymmetric | poker_backend.py:85-89 | Swapping the arguments negates the answer. |
| HandRank.CompareZeroIffSameValues | poker_backend.py:85-89 | On orderings of equal length, 0 holds exactly when the value sequences are equal. |
| HandRank.CompareTransitive | poker_backend.py:85-89 | On equal-length orderings, "not ahead" is transitive, and it stays strict if either step is strict. |
| BestHand.HandName | poker_backend.py:17-21 | The name is "Unknown" exactly for categories outside 1..10. |
| BestHand.Evaluate | poker_backend.py:44-54 | Fewer than five cards give (-1, [], "Unknown"). Otherwise the result has a category 1..10, five cards, and the category's name. |
| BestHand.EvaluateIsBest | poker_backend.py:44-54 | For five or more cards: the result is the ranking of one five-card subset, and its cards come from the hand. No subset reaches a higher category. No subset of the same category has an ordering that compares ahead of it. |
| BestHand.CombinationsCount | poker_backend.py:45-46 | The subset enumeration yields n choose k selections. |
| BestHand.ChosenIsCombination | poker_backend.py:45-46 | Every selection by strictly increasing positions is one of the enumerated subsets. |
| BestHand.CombinationIsChosen | poker_backend.py:45-46 | Every enumerated subset is a selection by strictly increasing positions, so the two descriptions agree. |
| BestHand.SearchDominates | poker_backend.py:47-53 | The replace-if-better loop ends on a result that no ranked subset beats, neither by category nor by ordering. |
| BestHand.SearchPicks | poker_backend.py:47-53 | The loop's result is its starting value or the ranking of one of the subsets. |
| Table.NextActiveIsFirst | poker_backend.py:256-261 | When some seat is in the hand and not all-in, the scan returns the first such seat in circular order after `start`, with `start` looked at last. Otherwise it returns `start`. |
| Table.ScanResult | poker_backend.py:256-261 | The scan looks at seats in steps 1..n+1 and stops at the first seat able to act. If it never finds one, it falls through to `start`. |
| Table.PostBlindsSpec | poker_backend.py:263-269 | With two seats able to act, the blinds land on two different such seats. Each blind posts `min(blind, chips)` as its bet. The bet to match and the minimum raise are the full big blind even when it was short. The turn goes to the seat after the big blind. No other seat changes. When no bets were out beforehand, no chip leaves the table. |
| Table.DealPassSpec | poker_backend.py:272-274 | One pass gives the k-th seat in the hand the k-th card from the top of the deck. The deck loses exactly those cards. Seats out of the hand are untouched. |
| Table.FreshDeckSuffices | poker_backend.py:129-135 | With at most four seats (the cap of `add_player`, line 111), the fresh deck of a started hand holds the two hole cards of every seat after the blinds, and at least 44 cards remain. |
| Table.DealHoleCardsSpec | poker_backend.py:271-274 | With m seats in the hand, the k-th gets the k-th and the (m+k)-th card from the top, in that order. The deck loses 2m cards and the chips are untouched. |
| Table.HandleActionSpec | poker_backend.py:215-231 | Only the acting seat changes, and its chips plus bet stay the same. A call moves `min(to call, chips)`. A bet or raise sets the bet to `min(amount, chips + bet)`. The bet to match never drops, and rises exactly on a raise, which records the increase as the minimum raise. A fold leaves the hand. No chips left means all-in. The table's chips are unchanged. |
| Table.HandleActionBounded | poker_backend.py:215-231 | From a table with no negative pot, stack or bet and no bet above the bet to match, an action keeps all four, provided a bet or raise names a non-negative amount. |
| Table.NegativeBetGrowsStack | poker_backend.py:224-225 | A negative bet amount is not rejected: the seat's bet becomes that amount and its stack grows. |
| Table.CollectBetsSpec | poker_backend.py:233-234 | The pot grows by exactly the sum of the bets and every bet becomes 0. Stacks and the table's chips are unchanged. |
| Table.FirstInHand | poker_backend.py:147-149 | The seat chosen is in the hand and no earlier seat is. |
| Table.AwardPotSpec | poker_backend.py:146-153 | With exactly one seat in the hand, that seat gains the whole pot and the pot empties. Otherwise nothing changes. Chips are conserved. |
| Table.ResetForHandSpec | poker_backend.py:97-98 | Only the stack survives a reset: two seats come out equal exactly when their stacks agree. A second reset changes nothing, and the seat is back in the hand and able to act. |
| Table.WithChipsSelects | poker_backend.py:129 | The filter is an order-preserving selection. There are strictly increasing positions `idx` holding exactly the seats with chips, and the k-th kept seat is the seat at `idx[k]`. |
| Table.WithChipsSpec | poker_backend.py:129 | The seats kept are exactly those with chips. When no stack is negative, the chips in stacks are the same. |
| Table.StartHandSpec | poker_backend.py:129-133 | The hand starts exactly when two or more seats have chips. A started hand has one seat per kept seat, each with the stack of the kept seat at its position, able to act, with chips, no bet and no cards, the button moved one seat on modulo the new seat count, and an empty pot, board and bet to match. A settled table keeps its chips. |
| Payout.ContendersSpec | poker_backend.py:238 | The contenders are exactly the seats in the hand, in seat order, each once. |
| Payout.PickWinnersSpec | poker_backend.py:243-250 | Over any distinct seats with results, the winner loop returns exactly those seats whose result no listed seat beats, each once. The list is not empty when any seat was listed. |
| Payout.WinnersSpec | poker_backend.py:238-250 | The winners are exactly the seats in the hand whose result dominates every seat in the hand's result. They hold no duplicates and are not empty when anyone is in the hand. |
| Payout.ShowdownSpec | poker_backend.py:236-254 | With fewer than two contenders the pot goes to the last one standing. Otherwise each winner gains `pot // winners`, nobody else gains, the pot empties, and the table loses exactly `pot % winners` chips. |
| Payout.SplitPot | poker_backend.py:252-254 | Paying `pot // k` to k distinct seats and emptying the pot removes exactly `pot % k` chips from the table. |
| Payout.PayEachSeats | poker_backend.py:253 | Each listed seat gains the amount once and every other seat is unchanged. |
| Payout.PayEachSums | poker_backend.py:253 | The stacks grow by the amount times the number of seats paid, and the bets do not move. |
| Betting.DealMany | poker_backend.py:167 | Dealing k cards takes the last k cards of the deck, top first, and leaves the rest in order. |
| Betting.ResetRoundSpec | poker_backend.py:156-163 | After the pre-flop, the opening zeroes every bet and the bet to match, sets the minimum raise to the big blind, and gives the turn to the first seat after the dealer that can act. The pre-flop keeps the bets. With no bets out, no chip moves. |
| Betting.TurnCardsSpec | poker_backend.py:165-167 | One card is burned and the next k go onto the board, top first. The deck loses k+1 cards. Nothing else changes. |
| Betting.SkippedRound | poker_backend.py:169-172 | When fewer than two seats can act and there is no bet to match, the round ends without asking anyone, whatever the inputs. The bets go into the pot, and play continues exactly when two or more seats are in the hand. |
| Betting.StepConserves | poker_backend.py:176-205 | A pass of the betting loop moves no chip off the table. With non-negative amounts it keeps the range invariant. |
| Betting.RunConserves | poker_backend.py:176-208 | Over any sequence of inputs the round conserves the table's chips. A round that ends has every bet collected. With non-negative amounts the range invariant holds throughout. |
| Betting.AsWrittenNeverCloses | poker_backend.py:183-205 | Take the lap test as written, with the opener folded or all-in and another seat to act. Then a pass without a raise never ends the round while two seats are in the hand, and leaves the table in that same situation. |
| Betting.AsWrittenSpins | poker_backend.py:183-188 | Take the lap test as written, with two seats in the hand, nobody able to act and the turn away from the opener. Then a pass changes nothing, so the loop spins without input. |
| Betting.AsWrittenCycles | poker_backend.py:176-205 | Three seats on the flop: the opener folds and the others check. The same table then comes back every two passes and the round never ends. |
| Betting.CorrectedClosesExample | poker_backend.py:176-205 | Under the corrected lap test, the same fold and two checks end the round. |
| Betting.CorrectedAgrees | poker_backend.py:183-205 | While the opener can still act after the pass, the corrected lap test gives exactly the pass as written. |
| Betting.CorrectedProgress | poker_backend.py:183-205 | Under the corrected test, a pass that does not raise either ends the lap or moves the turn strictly closer to the opener's seat, so a lap ends within n passes. A pass when nobody can act ends the round. |

## Findings

| source | as written | input that shows it | evidently intended | confidence | as-written member | corrected member |
|---|---|---|---|---|---|---|
| poker_backend.py:183-205 | The loop ends a lap only when the seat scan lands exactly on `action_starter_index`. The scan only lands on seats that can act, so once the opener folds or goes all-in (with no later raise), the test can never succeed. | Three seats on the flop, nobody has bet, seat 0 opens. Seat 0 folds and seats 1 and 2 check: the turn goes 1, 2, 1, 2, … and the round never ends. The same happens after an opener's all-in bet that the others call. With everyone all-in, the loop spins without asking anyone. | The lap ends once the action has come round to or past the opener's seat, and the round ends there when the bets are settled. | not executed | Betting.AsWrittenNeverCloses, Betting.AsWrittenCycles, Betting.AsWrittenSpins | Betting.CorrectedProgress, Betting.CorrectedAgrees, Betting.CorrectedClosesExample |

`Betting.Step` takes a flag choosing between the two lap tests. The betting round used with the rest of the model, `Betting.BettingRound`, is meant to be run with the corrected one.

## Left out

- Flask/Socket.IO transport, logging, `emit_game_state`, `get_state`, `to_dict` and all sleeps and timers: they are I/O or display.
- `wait_for_player_action` and its eventlet hand-off: a seat's action is an input value of `Betting.Step`.
- `get_bot_action`: its thresholds use floating point. Bot actions are inputs like human ones.
- `run`'s endless loop between hands and `start_game`'s random first dealer: scheduling and randomness. The dealer position is a field.
- `Deck.shuffle`: the deck is a parameter, any ordering of the 52 cards (`Cards.IsShuffledDeck`).
- Player names, session ids, the bot flag and the status text: they do not affect chips or turns.
- The chaining of rounds in `play_hand` (lines 134-144): it only sequences `BettingRound`, `AwardPot` and `Showdown`, each modelled on its own.
- `betting_round`'s unbounded loop: `Betting.Run` plays one pass per input. A pass that skips a seat also uses up an input, so "waiting" means the inputs ran out.
- Table.DealHoleCardsSpec: requires enough cards in the deck. Table.FreshDeckSuffices shows that a fresh deck always has enough with four seats at most; the `None` the source would append to a hand is not modelled.
- Betting.TurnCardsSpec: requires the deck to hold the burn card and the board cards, for the same reason.
- Payout.ShowdownSpec: requires every seat in the hand to hold five or more cards with the board (`Payout.ReadyToShow`). With fewer, the source's evaluator returns category -1 and its winner loop would index an empty list.
- Table.PostBlindsSpec: requires the dealer position to be a seat and two seats able to act, which `play_hand` guarantees. The initial dealer position -1 is only ever used after the rotation.
- Table.HandleActionBounded: holds only for non-negative bet and raise amounts. The source accepts any integer, and `Table.NegativeBetGrowsStack` shows what a negative one does.
