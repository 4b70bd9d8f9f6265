# Set: the dealer and the players

A model of the bookkeeping of a multi-player game of Set. A dealer deals
cards from a deck into the slots of a table. Players press keys to place
and remove tokens on slots. A player whose tokens lie on `setSize` (3)
cards claims a set. The claim goes into a first-in first-out request
queue, and the dealer judges it with the validity test:

- A legal claim takes its three cards out of the game. Every token on
  them is removed, the countdown restarts and the player scores a point.
- An illegal claim earns the player a penalty freeze.

When the countdown runs out, every card on the table goes back to the
deck. The game ends when no set is left. The winners are the players with
the highest score.

Modules:

- `Cards`: card ids, the slot/card mapping and its inverse, and how many
  times a card occurs in the deck, on the table or out of the game. It also
  has `Deal`, the specification of filling empty slots from the front of
  the deck, with its lemmas.
- `Tokens`: the token relation, kept twice, as the per-player slot lists
  `playerToSlot` and the per-slot player lists `slotToPlayer`.
  - `Mirrored` says that the two lists agree, that neither lists an entry
    twice, and that no player holds more than `SetSize` tokens.
  - `Toggle` is a key press as the table applies it.
- `TableModel`: the class `Table`, holding the four arrays as sequence
  fields. It provides the table operations the dealer and the players
  call.
- `Countdown`: `Update`, one update of the timer fields and of the display,
  as a function of the old timer fields and the time `now`.
- `Winners`: the highest score and the top scorers, as functions, with
  their lemmas.
- `Game`: the classes `Player` and `Dealer`.
  - Each method is one step that the game runs either under the table's
    lock or inside the thread that owns the data.
  - `Dealer.Valid` bundles these invariants:
    - the table is consistent;
    - every card id below the deck size is in exactly one place: the deck,
      one slot, or out of the game (a ghost multiset `discarded`);
    - every token lies on a slot that holds a card;
    - every request names a player.
  - `Player.Valid` says that at most `SetSize` presses are pending.
  - `PendingPressesHeld` says that a player at the token limit that is not
    waiting for a verdict has pending presses only on slots it holds, so
    draining them never places a token past the limit.

The validity test and the "is any set among these cards" test are
parameters of type `seq<nat> -> bool`. The order that shuffling produces
is a parameter too:

- a reordering `shuffled` of the deck, with the same multiset;
- a `slotOrder` that visits every slot.

Wall-clock time is the parameter `now`.

`MaxTokensPlaced` is the predicate "the player's slot list has exactly
`SetSize` entries". `ShouldFinish` and `RoundContinues` are the loop
conditions of the dealer's game loop and round loop, stated as
predicates. `StartRound` and `EndRound` are the steps of the game loop
around the round loop.

## Model

| member | source | states |
|---|---|---|
| Cards.RangeHoldsEachCardOnce | src/ex/Dealer.java:60 | the starting deck holds every card id below the deck size exactly once, and no other id |
| Cards.NoCardInTwoSlots | src/ex/Dealer.java:270-274 | while the slot/card mapping and its inverse agree, no card lies in two slots |
| Cards.LinkKeepsLinked | src/ex/Dealer.java:190 | placing a card that is on no slot into an empty slot keeps the mapping and its inverse in agreement |
| Cards.UnlinkKeepsLinked | src/ex/Dealer.java:142 | emptying a slot and clearing its card's back-pointer keeps the mapping and its inverse in agreement |
| Cards.DeckCardFree | src/ex/Dealer.java:188-190 | when every card is in exactly one place, the front card of the deck is a valid id that lies on no slot, so it can be placed |
| Cards.CardInOnePlace | src/ex/Dealer.java:185-193 | a card counted at most once overall occurs at most once in the deck, and never both in the deck and on a slot |
| Cards.PlaceKeepsTotals | src/ex/Dealer.java:188-190 | moving the front card of the deck into an empty slot leaves every card's count of occurrences unchanged |
| Cards.ReturnKeepsTotals | src/ex/Dealer.java:272-274 | moving a slot's card to the back of the deck leaves every card's count unchanged |
| Cards.DiscardKeepsTotals | src/ex/Dealer.java:141-143 | taking a slot's card out of the game leaves every card's count unchanged |
| Cards.ClaimCards | src/ex/Dealer.java:329-335 | the array handed to the validity test has `setSize` entries: entry k is the card under the k-th claimed slot, and unused entries are 0 |
| Cards.Deal | src/ex/Dealer.java:185-193 | dealing keeps the number of slots; occupied and unvisited slots keep their contents; slots only gain cards; the cards come from the front of the deck |
| Cards.DealConservesCards | src/ex/Dealer.java:185-193 | for every card, its number of occurrences in the deck plus on the table is the same before and after dealing |
| Cards.DealCountsCards | src/ex/Dealer.java:185-193 | the deck shrinks by exactly the number of slots that gained a card |
| Cards.DealLeavesNoGap | src/ex/Dealer.java:185-193 | after dealing, either the deck is empty or every visited slot holds a card |
| Cards.DealFillsTable | src/ex/Dealer.java:169-193 | when the visit order covers every slot, dealing leaves the table full or the deck empty |
| Cards.DealOnFullTable | src/ex/Dealer.java:175-181 | when no visited slot is empty, dealing changes neither the table nor the deck |
| Cards.CardsInHoldsTableCards | src/ex/Dealer.java:270-276 | the cards on the table, in slot order, are exactly the cards of the occupied slots, one per occupied slot |
| Tokens.Without | src/ex/Dealer.java:348 | removing a player from a list keeps exactly the other entries, and leaves a list without that player unchanged |
| Tokens.WithoutAll | src/ex/Dealer.java:342-351 | removing a list of slots keeps exactly the entries that are not among them |
| Tokens.WithoutNoDup | src/ex/Dealer.java:348 | removing an entry from a list without duplicates keeps it duplicate-free, and one entry shorter if the entry was present |
| Tokens.EraseKeepsMirrored | src/ex/Dealer.java:348 | removing one token from both lists keeps them mirrored |
| Tokens.AddKeepsMirrored | src/ex/Player.java:114 | adding a token that the player does not hold, while it holds fewer than `setSize`, keeps the lists mirrored |
| Tokens.Toggle | src/ex/Player.java:114 | a key press changes only the presser's slot list and the pressed slot's player list; the presser holds the slot afterwards iff it did not before and the slot holds a card |
| Tokens.ToggleKeepsMirrored | src/ex/Player.java:114-118 | a key press made while the presser holds the slot or is below the limit keeps the lists mirrored, so no player ever holds more than `setSize` tokens |
| Tokens.ToggleTwice | src/ex/Player.java:114 | after a press on a slot with a card, a second press on it respects the limit too, and the two presses restore the token relation; if the first press placed a token, both lists are exactly restored |
| Tokens.WithoutAppended | src/ex/Player.java:114 | removing a token that was just appended restores the list |
| Tokens.EmptyMirrored | src/ex/Dealer.java:268 | a table with no tokens is mirrored |
| Tokens.ToggleKeepsTokensOnCards | src/ex/Player.java:114 | a key press never leaves a token on a slot without a card |
| Tokens.PendingHeldAfterRemoval | src/ex/Dealer.java:340-352 | taking any slots away from a token list of at most `setSize` entries keeps the player's pending presses held |
| TableModel.Table.PlaceCard | src/ex/Dealer.java:190 | the card goes into the slot, the slot becomes the card's back-pointer, and the table stays consistent |
| TableModel.Table.RemoveCard | src/ex/Dealer.java:142 | the slot is emptied, its card's back-pointer is cleared, and the table stays consistent |
| TableModel.Table.RemoveToken | src/ex/Dealer.java:348 | the token is taken out of both lists, and the lists stay mirrored |
| TableModel.Table.RemoveAllTokens | src/ex/Dealer.java:268 | afterwards no player and no slot lists any token |
| TableModel.Table.Wrapper | src/ex/Player.java:114 | for a press on a slot the player holds, or made below the limit, the token lists become the result of `Toggle` on that slot and stay mirrored |
| TableModel.Table.SetOnTable | src/ex/Dealer.java:99 | the "any set" test is applied to the cards on the table; on an empty table it is applied to no card at all |
| Countdown.Update | src/ex/Dealer.java:217-255 | without a timer, nothing changes; an elapsed-time round shows what it computed; a countdown is never shown below 0 and shows the time left; the sleep interval is one of the two configured ones; the time-out flag is only raised, and only near the end of a countdown |
| Countdown.ResetRestartsCountdown | src/ex/Dealer.java:230-239 | after a reset, the countdown shows the full duration minus the time since the reset, floored at 0 |
| Countdown.ResetRestartsElapsed | src/ex/Dealer.java:219-227 | after a reset, an elapsed-time round shows the time since the reset |
| Countdown.StartedRoundRuns | src/ex/Dealer.java:78-79 | a round whose end is set the full duration after its start runs: before its last 50 ms an update raises no time-out, keeps the end, and shows the time left |
| Countdown.ResetTwice | src/ex/Dealer.java:146 | two resets at the same `now` leave the timer fields as one reset does, so several legal claims in one pass reset the countdown once |
| Countdown.TimeoutRearms | src/ex/Dealer.java:246-251 | a time-out raises the flag, restores the default sleep, and rearms the round for the full duration |
| Countdown.CountdownNonIncreasing | src/ex/Dealer.java:231-239 | of the same clock, so within a round before a time-out or reset, a later update never shows more time left than an earlier one |
| Countdown.WarningExactly | src/ex/Dealer.java:239 | the warning is shown exactly when the time left is below the warning threshold |
| Countdown.ShortSleepExactly | src/ex/Dealer.java:240-251 | the 10 ms sleep is used exactly when the time left is above 50 ms and at most the warning threshold |
| Winners.MaxScore | src/ex/Dealer.java:292-297 | the result bounds every score and is either 0 or a score that some player has |
| Winners.TopScorersMembers | src/ex/Dealer.java:298-312 | a player is listed iff its score is the given top score |
| Winners.TopScorersAscending | src/ex/Dealer.java:306-312 | players are listed in strictly increasing id order, each once |
| Winners.TopScorersStep | src/ex/Dealer.java:306-311 | looking at one more player appends that player exactly when its score is the top score |
| Winners.TopScorersGrow | src/ex/Dealer.java:304-311 | a prefix of the players has no more top scorers than all of them, so the winners array never overflows |
| Winners.WinnersAreBest | src/ex/Dealer.java:291-313 | a player is a winner iff no player has a higher score |
| Winners.WinnersNonEmpty | src/ex/Dealer.java:291-313 | a game with at least one player has at least one winner |
| Winners.NoPointsAllWin | src/ex/Dealer.java:292-302 | when nobody scored, every player is a winner, in id order |
| Winners.AllAtTop | src/ex/Dealer.java:298-311 | when every player has the top score, all of them are listed in id order |
| Game.Player.constructor | src/ex/Player.java:75-84 | a new player has no pending presses, no verdicts, a score of 0, and is neither frozen nor under review |
| Game.Player.MaxTokensPlaced | src/ex/Player.java:272-278 | on a consistent table, the predicate holds iff the player holds at least `setSize` tokens, the most it can hold |
| Game.Player.KeyPressed | src/ex/Player.java:201-220 | a press is appended to the queue, or nothing changes. It is appended iff four things hold: the player is not under review, has fewer than `setSize` pending presses, and is not frozen; the slot holds a card; and the player is below the token limit or has a token on that slot. At the limit, only a slot the player holds is queued. The queue never exceeds `setSize`, and pending presses stay held |
| Game.Player.DrainStep | src/ex/Player.java:109-128 | the oldest press leaves the queue. It toggles that slot's token unless the player is under review; since pending presses are held, the press never goes past the limit. When the player then holds `setSize` tokens, the player goes under review, its id is appended once to the request queue, and it waits for the verdict. The table stays consistent |
| Game.Player.Wake | src/ex/Player.java:125-138 | the player stops waiting, the pending presses are dropped and at most the oldest verdict is consumed: `true` adds one point, `false` only freezes |
| Game.Player.Point | src/ex/Player.java:228-232 | the score goes up by exactly 1, and a positive freeze ends unfrozen |
| Game.Player.Penalty | src/ex/Player.java:237-239 | the score is untouched, and a positive freeze ends unfrozen |
| Game.Player.Freeze | src/ex/Player.java:241-266 | a non-positive duration changes nothing, and a positive one ends with the player not frozen |
| Game.Dealer.constructor | src/ex/Dealer.java:56-67 | the deck is 0 .. deckSize-1 in order, the request queue is empty, the sleep is 200 ms, the elapsed-time start is `now`, and every card is in exactly one place |
| Game.Dealer.Shuffle | src/ex/Dealer.java:323-325 | the deck becomes the given reordering, and every card is still in exactly one place |
| Game.Dealer.UpdateTimerDisplay | src/ex/Dealer.java:217-255 | the timer fields and the value shown are exactly those that `Countdown.Update` gives for the old timer fields |
| Game.Dealer.CheckIfLegalSet | src/ex/Dealer.java:327-338 | the verdict is the validity test applied to the cards under the player's tokens, in token order |
| Game.Dealer.DealFront | src/ex/Dealer.java:184-191 | the front card of the deck moves into the empty slot, and every card is still in exactly one place |
| Game.Dealer.NeedToPlace | src/ex/Dealer.java:175-179 | the result is true iff some slot in the visit order is empty |
| Game.Dealer.FillSlots | src/ex/Dealer.java:184-193 | the table and deck afterwards are exactly `Cards.Deal` of the table and deck before |
| Game.Dealer.PlaceCardsOnTable | src/ex/Dealer.java:166-201 | the table and deck afterwards are `Cards.Deal` of the old table and the shuffled deck; the table is full or the deck empty; every card is still in exactly one place |
| Game.Dealer.ClearSlot | src/ex/Dealer.java:343-349 | every player loses its token on that slot, the slot's player list becomes empty, and nothing else changes |
| Game.Dealer.RemoveTokensFromLegalSet | src/ex/Dealer.java:340-352 | every player loses its tokens on the claimed slots and keeps the others; those slots list nobody; other slots are unchanged; the claimant ends with no token |
| Game.Dealer.DiscardCard | src/ex/Dealer.java:142 | the slot is emptied and its card leaves the game; every card is still in exactly one place |
| Game.Dealer.DiscardCards | src/ex/Dealer.java:141-143 | exactly the claimed slots are emptied, and every card is still in exactly one place |
| Game.Dealer.AcceptClaim | src/ex/Dealer.java:140-146 | the claimed slots lose their cards and tokens, and nothing else on the table changes. The countdown is reset, and the dealer invariant is kept |
| Game.Dealer.Judge | src/ex/Dealer.java:139-153 | one verdict is appended iff the claimant holds `setSize` tokens, and it is the validity test of the claimed cards. A legal claim is taken and resets the countdown. Otherwise the table and timer are unchanged. Either way cards only leave the table, and the countdown is kept or reset at `now` |
| Game.Dealer.ResolveNextClaim | src/ex/Dealer.java:134-158 | the oldest request is popped and judged as `Judge` states. The claimant's review flag ends false and every other player's flag is untouched. Every player's queue, score and frozen flag are untouched, and verdicts are only appended. Cards only leave the table, and the countdown is kept or reset at `now`. Pending presses stay held |
| Game.ClaimKeepsPendingHeld | src/ex/Dealer.java:340-352 | appending verdicts and taking a claim's slots out of some players' token lists keeps every player's pending presses held |
| Game.Dealer.RemoveCardsFromTable | src/ex/Dealer.java:133-161 | every pending request is resolved in arrival order, until the queue is empty, and the dealer invariant is kept. Every claimant's review flag ends false and every other player keeps its flag. Every player's queue, score and frozen flag are untouched, its old verdicts are a prefix of its new ones, and pending presses stay held. A player with no pending request gets no verdict: its whole state is unchanged. Cards only leave the table, and the countdown is kept or reset at `now`. With no request pending, the table and the countdown are unchanged |
| Game.ResolvedAllStep | src/ex/Dealer.java:134-158 | resolving one more request after a run of resolved requests is again a run of resolved requests: flags, verdicts, cards and the countdown compose |
| Game.Dealer.SetChecking | src/ex/Dealer.java:265-266 | every player's review flag becomes the given value, and the players' other fields are untouched |
| Game.Dealer.Unfreeze | src/ex/Dealer.java:282-284 | no player is frozen afterwards, and the players' other fields are untouched |
| Game.Dealer.ReturnCard | src/ex/Dealer.java:271-275 | the slot's card is appended to the deck and the slot emptied; every card is still in exactly one place |
| Game.Dealer.ReturnAllCards | src/ex/Dealer.java:270-277 | the deck grows by exactly the cards on the table, in slot order, and every slot is empty |
| Game.Dealer.RemoveAllCardsFromTable | src/ex/Dealer.java:260-286 | every slot is empty and no token is left. The deck grows by exactly the cards on the table. No player is frozen or under review, and scores, verdicts and pending presses are untouched. Pending presses are held |
| Game.Dealer.StartRound | src/ex/Dealer.java:78 | the round is due to end the full duration after `now`, and no other timer field changes |
| Game.Dealer.EndRound | src/ex/Dealer.java:80-81 | the time-out flag is lowered and the display updated as `Countdown.Update` gives; the flag is up again only if the countdown has run out at `now` |
| Game.Dealer.ShouldFinish | src/ex/Dealer.java:125-127 | the game-loop condition: the game ends iff it was terminated from outside or no set is left in the deck. Its partner `DeckHoldsCardsInGame` shows that the deck it searches holds every card still in play |
| Game.Dealer.DeckHoldsCardsInGame | src/ex/Dealer.java:125-127 | once the table is cleared (src/ex/Dealer.java:82), every card id below the deck size is once in the deck or once out of the game, and no other id is in the deck, so the end-of-game search over the deck sees every card still in play |
| Game.Dealer.RoundContinues | src/ex/Dealer.java:97-99 | the round-loop condition: the round ends on a termination, a time-out or the reshuffle time; an untimed round ends when no set is on the table; a timed round goes on whatever the cards. Its partners are `TimeOutEndsRound` and `StartedRoundContinues` |
| Game.Dealer.TimeOutEndsRound | src/ex/Dealer.java:97-101 | once an update of a timed round finds at most 50 ms left, the time-out flag is up and the round loop's condition is false, whatever the cards |
| Game.Dealer.StartedRoundContinues | src/ex/Dealer.java:77-101 | a timed round whose end was set the full duration after its start keeps its end, and the round loop's condition stays true through every update before its last 50 ms, until a termination |
| Game.Dealer.HighestScore | src/ex/Dealer.java:292-297 | the result is `Winners.MaxScore` of the players' scores |
| Game.Dealer.CountWinners | src/ex/Dealer.java:298-302 | the result is the number of players whose score is the top score |
| Game.Dealer.ListTopScorers | src/ex/Dealer.java:304-312 | a new array whose contents are exactly the top scorers' ids, in player order |
| Game.Dealer.AnnounceWinners | src/ex/Dealer.java:291-314 | the result is exactly `Winners.Winners` of the players' scores, that is, the ids of the players with the highest score, in order |

## Left out

- Threads and their coordination are not modelled. Each region that the
  game runs under the table's lock, or inside one thread, is one method:
  - creating the player and computer threads;
  - `wait`, `notifyAll`, `interrupt` and `join`;
  - `sleepUntilWokenOrTimeout`;
  - the `terminate` methods and how termination spreads;
  - the read/write lock.
- The interrupt after a verdict (src/ex/Dealer.java:156-157) is the call
  to `Player.Wake` that the caller makes. The dealer sends it only to a
  player that is not frozen; the model leaves that choice to the caller.
  The order in which steps of different threads interleave is not
  modelled.
- `run()` of the dealer and of the player is modelled as the steps it
  repeats. The dealer's loop conditions are the predicates `ShouldFinish`
  and `RoundContinues`; `DeckHoldsCardsInGame`, `TimeOutEndsRound` and
  `StartedRoundContinues` state what they mean at the points where the
  loops test them. Setting the round's end (src/ex/Dealer.java:78) is
  `StartRound`. Lowering the time-out flag and the display update after the
  round (src/ex/Dealer.java:80-81) are `EndRound`. The loops themselves
  are not modelled.
- The player's wait for a verdict (src/ex/Player.java:128) is the ghost
  flag `awaitingVerdict`. `DrainStep` sets it when it submits a claim, and
  `Wake` clears it. A wake-up by `terminate` is not modelled.
- The user interface calls, hints, `countCards`, logging and the computer
  player's random key presses are left out. They are output only, or
  randomness.
- `System.currentTimeMillis` becomes the parameter `now`. Each update uses
  one `now`, whereas the game reads the clock several times.
- `Collections.shuffle` becomes the parameters `shuffled` and `slotOrder`.
  The properties hold for every order.
- The validity test, the "any set" search and `SetOnTable` are functions
  passed in. Their internals are not part of this model.
- Table.java is not part of this model. Its constructor, `placeCard`,
  `removeCard`, `removeToken`, `removeAllTokens`, `wrapper` and
  `SetOnTable` are given the contracts their callers rely on.
  - `wrapper` takes the player's token away if it has one. Otherwise it
    places one if the slot holds a card. The model gives it no check of the
    token limit of its own. The players' own checks keep every press
    within it: `Wrapper` demands that the press respects the limit, and
    `DrainStep` meets that demand through `PendingHeld`, which the steps of
    both threads keep.
- Tokens.Toggle: placing a token only on a slot that holds a card is an
  assumption about Table.java, which is not part of this model. The
  invariant `TokensOnCards` rests on it. Without it, a token could lie on
  an empty slot. Then the unboxing of `slotToCard[i]` in
  `checkIfLegalSet` (src/ex/Dealer.java:333) would fail on a null, and the
  model cannot show that.
- Game.Player.Freeze: the wait loop is collapsed into one step. A positive
  freeze sets the flag and clears it again, so the model does not capture
  the time spent frozen or an early end through termination.
- Countdown.Update: `long` arithmetic is modelled as unbounded, so
  wrap-around on overflow is not modelled.
- Game.Dealer.PlaceCardsOnTable: the facts about how many cards were dealt
  and that occupied slots are kept are not in its own `ensures`. They
  follow from the `ensures` that ties the method to `Cards.Deal`, through
  `Cards.DealCountsCards`, `Cards.DealConservesCards` and `Cards.Deal`'s
  contract.
- The `discarded` and `resolved` fields of the dealer are ghost. They
  record which cards left the game and which claims were resolved.
