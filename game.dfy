/**
 * The dealer and the players. Each method is one step that the game runs
 * atomically (under the table's write lock or inside the owning thread); the
 * threads, locks, waits and interrupts around those steps are not modelled.
 * Dealer and players live in one module because each refers to the other.
 */
module Game {
  import opened Cards
  import opened Tokens
  import opened TableModel
  import Countdown
  import Winners

  /** `reshuffleTime`: never lowered from `Long.MAX_VALUE`. */
  const ReshuffleTime: int := 0x7FFF_FFFF_FFFF_FFFF

  /** What the dealer may observe or change of one player, as a value. */
  datatype PlayerState = PlayerState(queue: seq<nat>, isScore: seq<bool>, score: nat, isFreezed: bool, awaitingVerdict: bool)

  /** From a to b, each player only had verdicts appended to its `isScore`. */
  ghost predicate OnlyVerdictsAdded(a: seq<PlayerState>, b: seq<PlayerState>)
  {
    |a| == |b|
    && forall i :: 0 <= i < |a| ==> b[i] == a[i].(isScore := b[i].isScore) && a[i].isScore <= b[i].isScore
  }

  lemma OnlyVerdictsAddedTrans(a: seq<PlayerState>, b: seq<PlayerState>, c: seq<PlayerState>)
    requires OnlyVerdictsAdded(a, b) && OnlyVerdictsAdded(b, c)
    ensures OnlyVerdictsAdded(a, c)
  {
    forall i | 0 <= i < |a| ensures c[i] == a[i].(isScore := c[i].isScore) && a[i].isScore <= c[i].isScore {
      assert a[i].isScore <= b[i].isScore <= c[i].isScore;
    }
  }

  /** What resolving claims may change, as a value: the timer fields, the table and the players. */
  datatype Snapshot = Snapshot(clock: Countdown.Clock, slotToCard: seq<Option<nat>>, cardToSlot: seq<Option<nat>>,
                               playerToSlot: seq<seq<nat>>, slotToPlayer: seq<seq<nat>>,
                               states: seq<PlayerState>, checking: seq<bool>)

  /**
   * From a to b one claim of player pid was resolved at `now`: its review
   * flag went down and no other flag changed, verdicts were only appended,
   * and only to pid, cards only left the table, the countdown was kept or
   * reset, and pending presses stayed held.
   */
  ghost predicate ResolvedOne(a: Snapshot, b: Snapshot, pid: nat, now: int, duration: int, warning: int)
  {
    OnlyVerdictsAdded(a.states, b.states)
    && (forall i :: 0 <= i < |a.states| && i != pid ==> b.states[i] == a.states[i])
    && pid < |a.checking| && b.checking == a.checking[pid := false]
    && OnlyCardsLeave(a.slotToCard, b.slotToCard)
    && (b.clock == a.clock || b.clock == Countdown.Update(a.clock, true, now, duration, warning).0)
    && (AllPendingHeld(a.states, a.playerToSlot) ==> AllPendingHeld(b.states, b.playerToSlot))
  }

  /**
   * From a to b the claims of `done` were resolved at `now`: exactly their
   * players left review, verdicts were only appended, and only to their
   * players, cards only left the table, the countdown was kept or reset,
   * pending presses stayed held, and with no claim nothing changed.
   */
  ghost predicate ResolvedAll(a: Snapshot, b: Snapshot, done: seq<nat>, now: int, duration: int, warning: int)
  {
    OnlyVerdictsAdded(a.states, b.states)
    && (forall i :: 0 <= i < |a.states| && i !in done ==> b.states[i] == a.states[i])
    && |b.checking| == |a.checking|
    && (forall i :: 0 <= i < |a.checking| ==> b.checking[i] == if i in done then false else a.checking[i])
    && OnlyCardsLeave(a.slotToCard, b.slotToCard)
    && (b.clock == a.clock || b.clock == Countdown.Update(a.clock, true, now, duration, warning).0)
    && (AllPendingHeld(a.states, a.playerToSlot) ==> AllPendingHeld(b.states, b.playerToSlot))
    && (done == [] ==> b == a)
  }

  /** Concatenation regroups freely. */
  lemma Regroup(a: seq<nat>, b: seq<nat>, c: seq<nat>)
    ensures a + (b + c) == (a + b) + c
  {
  }

  /** Resolving one more claim extends `ResolvedAll` by its player. */
  lemma ResolvedAllStep(a: Snapshot, b: Snapshot, c: Snapshot, done: seq<nat>, pid: nat, now: int, duration: int, warning: int)
    requires ResolvedAll(a, b, done, now, duration, warning) && ResolvedOne(b, c, pid, now, duration, warning)
    ensures ResolvedAll(a, c, done + [pid], now, duration, warning)
  {
    OnlyVerdictsAddedTrans(a.states, b.states, c.states);
    OnlyCardsLeaveTrans(a.slotToCard, b.slotToCard, c.slotToCard);
    if b.clock != a.clock {
      Countdown.ResetTwice(a.clock, now, duration, warning);
    }
    forall i | 0 <= i < |a.checking| ensures c.checking[i] == if i in done + [pid] then false else a.checking[i] {
      assert i in done + [pid] <==> i in done || i == pid;
    }
    forall i | 0 <= i < |a.states| && i !in done + [pid] ensures c.states[i] == a.states[i] {
      assert i !in done && i != pid;
    }
  }

  /**
   * Every player at the token limit that is not waiting for a verdict has
   * pending presses only on its own tokens, so draining them never asks the
   * table to place a token past the limit.
   */
  ghost predicate AllPendingHeld(states: seq<PlayerState>, tokens: seq<seq<nat>>)
  {
    forall i :: 0 <= i < |states| && i < |tokens| ==>
      PendingHeld(states[i].awaitingVerdict, states[i].queue, tokens[i])
  }

  /**
   * Appending verdicts and taking the slots of a claim out of token lists
   * (some or all of them) keeps pending presses held.
   */
  lemma {:induction false} ClaimKeepsPendingHeld(a: seq<PlayerState>, b: seq<PlayerState>,
                                                  tokens0: seq<seq<nat>>, tokens1: seq<seq<nat>>, claim: seq<nat>)
    requires OnlyVerdictsAdded(a, b) && AllPendingHeld(a, tokens0)
    requires SlotListsBounded(tokens0) && |tokens1| == |tokens0|
    requires forall q :: 0 <= q < |tokens0| ==> tokens1[q] == tokens0[q] || tokens1[q] == WithoutAll(tokens0[q], claim)
    ensures AllPendingHeld(b, tokens1)
  {
    forall i | 0 <= i < |b| && i < |tokens1|
      ensures PendingHeld(b[i].awaitingVerdict, b[i].queue, tokens1[i])
    {
      assert b[i].awaitingVerdict == a[i].awaitingVerdict && b[i].queue == a[i].queue;
      if tokens1[i] != tokens0[i] {
        PendingHeldAfterRemoval(a[i].awaitingVerdict, a[i].queue, tokens0[i], claim);
      }
    }
  }

  class Player {
    const id: nat
    const table: Table
    const pointFreezeMillis: int
    const penaltyFreezeMillis: int
    /** Slots pressed and not yet processed. */
    var queue: seq<nat>
    /** Verdicts the dealer has given on this player's claims, oldest first. */
    var isScore: seq<bool>
    var dealerIsChecking: bool
    var isFreezed: bool
    var score: nat
    /** Suspended after submitting a claim, until woken with the verdict. */
    ghost var awaitingVerdict: bool

    /** The pending queue holds at most `SetSize` presses, each on a slot of the table. */
    ghost predicate Valid()
      reads this
    {
      |queue| <= SetSize && forall k :: 0 <= k < |queue| ==> queue[k] < table.tableSize
    }

    constructor (id: nat, table: Table, pointFreezeMillis: int, penaltyFreezeMillis: int)
      ensures Valid()
      ensures this.id == id && this.table == table
      ensures this.pointFreezeMillis == pointFreezeMillis && this.penaltyFreezeMillis == penaltyFreezeMillis
      ensures queue == [] && isScore == [] && !dealerIsChecking && !isFreezed && score == 0 && !awaitingVerdict
    {
      this.id, this.table := id, table;
      this.pointFreezeMillis, this.penaltyFreezeMillis := pointFreezeMillis, penaltyFreezeMillis;
      queue, isScore := [], [];
      dealerIsChecking, isFreezed, score := false, false, 0;
      awaitingVerdict := false;
    }

    /** The player holds the full `SetSize` tokens. */
    predicate MaxTokensPlaced()
      reads table
      requires id < |table.playerToSlot|
      // on a consistent table, holding exactly `SetSize` tokens is holding as many as allowed
      ensures table.Valid() ==> (MaxTokensPlaced() <==> |table.playerToSlot[id]| >= SetSize)
    {
      |table.playerToSlot[id]| == SetSize
    }

    /**
     * A key press on a slot. It is queued unless the dealer is checking this
     * player, the queue is full, the player is frozen or the slot is empty;
     * a player holding `SetSize` tokens may only press a slot it has a token on.
     */
    method KeyPressed(slot: nat)
      requires Valid() && table.Valid() && id < table.numPlayers && slot < table.tableSize
      requires PendingHeld(awaitingVerdict, queue, table.playerToSlot[id])
      modifies this`queue
      ensures Valid() && PendingHeld(awaitingVerdict, queue, table.playerToSlot[id])
      ensures queue == old(queue) || queue == old(queue) + [slot]
      ensures queue == old(queue) + [slot] <==>
        !dealerIsChecking && |old(queue)| < SetSize && !isFreezed && table.slotToCard[slot].Some?
        && (!MaxTokensPlaced() || id in table.slotToPlayer[slot])
      // at the limit, only a press that takes one of the player's tokens away is queued
      ensures queue != old(queue) && MaxTokensPlaced() ==> slot in table.playerToSlot[id]
    {
      if dealerIsChecking || |queue| >= SetSize || isFreezed || table.slotToCard[slot].None? {
        return;
      }
      if !MaxTokensPlaced() || (MaxTokensPlaced() && id in table.slotToPlayer[slot]) {
        queue := queue + [slot];
        assert MaxTokensPlaced() ==> Has(table.slotToPlayer, slot, id);
      }
    }

    /**
     * One round of the drain loop: take the oldest press, toggle a token there
     * unless the dealer is checking this player, and submit a claim (and wait
     * for its verdict) once the player holds `SetSize` tokens. A player waiting
     * for a verdict drains nothing until it is woken.
     */
    method DrainStep(dealer: Dealer)
      requires Valid() && queue != [] && !awaitingVerdict
      requires dealer.Valid() && id < |dealer.players| && dealer.players[id] == this
      requires PendingHeld(awaitingVerdict, queue, table.playerToSlot[id])
      modifies this`queue, this`dealerIsChecking, this`awaitingVerdict
      modifies table`playerToSlot, table`slotToPlayer, dealer`playersRequests
      ensures Valid() && dealer.Valid()
      ensures PendingHeld(awaitingVerdict, queue, table.playerToSlot[id])
      ensures awaitingVerdict == MaxTokensPlaced()
      ensures queue == old(queue)[1..]
      ensures old(dealerIsChecking) ==>
        table.playerToSlot == old(table.playerToSlot) && table.slotToPlayer == old(table.slotToPlayer)
      ensures !old(dealerIsChecking) ==>
        (table.playerToSlot, table.slotToPlayer)
        == Toggle(old(table.playerToSlot), old(table.slotToPlayer), table.slotToCard, id, old(queue)[0])
      ensures dealerIsChecking == (old(dealerIsChecking) || MaxTokensPlaced())
      ensures dealer.playersRequests == old(dealer.playersRequests) + if MaxTokensPlaced() then [id] else []
    {
      var slot := queue[0];
      queue := queue[1..];
      if !dealerIsChecking {
        // the key-press filter kept every pending press of a player at the limit on its own tokens
        assert slot in table.playerToSlot[id] || |table.playerToSlot[id]| < SetSize;
        ToggleKeepsTokensOnCards(table.playerToSlot, table.slotToPlayer, table.slotToCard, id, slot);
        table.Wrapper(id, slot);
      }
      if MaxTokensPlaced() {
        dealerIsChecking := true;
        dealer.playersRequests := dealer.playersRequests + [id];
        awaitingVerdict := true;
      }
    }

    /**
     * Woken after a claim: drop the pending presses and act on the oldest
     * verdict, if there is one.
     */
    method Wake()
      modifies this`queue, this`isScore, this`score, this`isFreezed, this`awaitingVerdict
      ensures Valid()
      ensures queue == [] && !awaitingVerdict
      ensures old(isScore) == [] ==> isScore == [] && score == old(score) && isFreezed == old(isFreezed)
      ensures old(isScore) != [] ==> isScore == old(isScore)[1..]
      ensures old(isScore) != [] && old(isScore)[0] ==>
        score == old(score) + 1 && isFreezed == (old(isFreezed) && pointFreezeMillis <= 0)
      ensures old(isScore) != [] && !old(isScore)[0] ==>
        score == old(score) && isFreezed == (old(isFreezed) && penaltyFreezeMillis <= 0)
    {
      queue := [];
      awaitingVerdict := false;
      if isScore != [] {
        var verdict := isScore[0];
        isScore := isScore[1..];
        if verdict {
          Point();
        } else {
          Penalty();
        }
      }
    }

    /** A legal claim: one more point, then the point freeze. */
    method Point()
      modifies this`score, this`isFreezed
      ensures score == old(score) + 1
      ensures isFreezed == (old(isFreezed) && pointFreezeMillis <= 0)
    {
      score := score + 1;
      Freeze(pointFreezeMillis);
    }

    /** An illegal claim: the penalty freeze. */
    method Penalty()
      modifies this`isFreezed
      ensures isFreezed == (old(isFreezed) && penaltyFreezeMillis <= 0)
    {
      Freeze(penaltyFreezeMillis);
    }

    /** Freeze for `millis` milliseconds; a non-positive duration does nothing. */
    method Freeze(millis: int)
      modifies this`isFreezed
      ensures isFreezed == (old(isFreezed) && millis <= 0)
    {
      if millis > 0 {
        isFreezed := true;
        // the player waits here until the freeze has run out
        isFreezed := false;
      }
    }
  }

  class Dealer {
    const table: Table
    const players: seq<Player>
    /** `turnTimeoutMillis`: negative for no timer, 0 for elapsed time, positive for a countdown. */
    const duration: int
    const warning: int
    var deck: seq<nat>
    var playersRequests: seq<nat>
    var timer: int
    var sleepTime: int
    var roundTime: int
    var elapsedTime: int
    var terminateTimeRunOut: bool
    var terminateOfExternal: bool
    /** Cards taken out of the game by legal claims. */
    ghost var discarded: multiset<nat>
    /** Ids of the claims resolved so far, in the order they were resolved. */
    ghost var resolved: seq<nat>

    /** Player i has id i and plays at this dealer's table. */
    ghost predicate Wired()
    {
      |players| == table.numPlayers
      && forall i :: 0 <= i < |players| ==> players[i].id == i && players[i].table == table
    }

    /** Every card id below the deck size is in exactly one place: the deck, a slot, or out of the game. */
    ghost predicate CardsConserved()
      reads this, table
    {
      forall c: nat :: Total(deck, table.slotToCard, discarded, c) == if c < table.deckSize then 1 else 0
    }

    /**
     * The table is consistent, every request names a player, every card is
     * in exactly one place and every token lies on a card.
     */
    ghost predicate Valid()
      reads this, table
    {
      Wired() && table.Valid()
      && (forall k :: 0 <= k < |playersRequests| ==> playersRequests[k] < |players|)
      && CardsConserved()
      && TokensOnCards(table.playerToSlot, table.slotToCard)
    }

    /** The players' state, in player order. */
    ghost function States(): (states: seq<PlayerState>)
      reads players
      ensures |states| == |players|
    {
      seq(|players|, i reads players requires 0 <= i < |players| =>
        PlayerState(players[i].queue, players[i].isScore, players[i].score, players[i].isFreezed, players[i].awaitingVerdict))
    }

    /** The players' `dealerIsChecking` flags, in player order. */
    ghost function Checking(): (flags: seq<bool>)
      reads players
      ensures |flags| == |players|
    {
      seq(|players|, i reads players requires 0 <= i < |players| => players[i].dealerIsChecking)
    }

    /** The state that resolving claims may change, as a value. */
    ghost function Snap(): Snapshot
      reads this, table, players
    {
      Snapshot(Clock(), table.slotToCard, table.cardToSlot, table.playerToSlot, table.slotToPlayer, States(), Checking())
    }

    /** `AllPendingHeld` of the live players and table. */
    ghost predicate PendingPressesHeld()
      reads this, table, players
    {
      AllPendingHeld(States(), table.playerToSlot)
    }

    /** The timer fields, as one value. */
    function Clock(): Countdown.Clock
      reads this
    {
      Countdown.Clock(timer, sleepTime, roundTime, elapsedTime, terminateTimeRunOut)
    }

    /** A dealer at an empty table, holding the whole deck in order. */
    constructor (table: Table, players: seq<Player>, duration: int, warning: int, now: int)
      requires table.Valid()
      requires table.slotToCard == NoCards(table.tableSize) && table.playerToSlot == NoTokens(table.numPlayers)
      requires |players| == table.numPlayers
      requires forall i :: 0 <= i < |players| ==> players[i].id == i && players[i].table == table
      ensures Valid()
      ensures this.table == table && this.players == players && this.duration == duration && this.warning == warning
      ensures deck == Range(table.deckSize) && playersRequests == [] && discarded == multiset{} && resolved == []
      ensures sleepTime == Countdown.DefaultSleep && elapsedTime == now && timer == 0
      ensures !terminateOfExternal && !terminateTimeRunOut
    {
      this.table, this.players, this.duration, this.warning := table, players, duration, warning;
      deck := Range(table.deckSize);
      playersRequests := [];
      timer, sleepTime, roundTime, elapsedTime := 0, Countdown.DefaultSleep, 0, now;
      terminateTimeRunOut, terminateOfExternal := false, false;
      discarded, resolved := multiset{}, [];
      new;
      RangeHoldsEachCardOnce(table.deckSize);
      forall c: nat ensures Total(deck, table.slotToCard, discarded, c) == if c < table.deckSize then 1 else 0 {
        CountEmpty(table.tableSize, c);
        if c >= table.deckSize {
          assert c !in deck;
        }
      }
    }

    /** Reorder the deck; `shuffled` is the order the shuffle produced. */
    method Shuffle(shuffled: seq<nat>)
      requires Valid() && multiset(shuffled) == multiset(deck)
      modifies this`deck
      ensures Valid() && deck == shuffled
    {
      assert forall c: nat :: Total(shuffled, table.slotToCard, discarded, c) == Total(deck, table.slotToCard, discarded, c);
      deck := shuffled;
    }

    /**
     * Update the timer and its display at time `now` (restarting the round if
     * `reset`); returns what is shown.
     */
    method UpdateTimerDisplay(reset: bool, now: int) returns (shown: Countdown.Display)
      modifies this`timer, this`sleepTime, this`roundTime, this`elapsedTime, this`terminateTimeRunOut
      ensures (Clock(), shown) == Countdown.Update(old(Clock()), reset, now, duration, warning)
    {
      shown := Countdown.Hidden;
      if duration >= 0 {
        if duration == 0 {
          if reset {
            timer := 0;
            shown := Countdown.Elapsed(timer);
            elapsedTime := now;
          } else {
            timer := now - elapsedTime;
            shown := Countdown.Elapsed(timer);
          }
        }
        if duration > 0 {
          timer := roundTime - now;
          if reset {
            roundTime := now + duration;
            timer := duration;
            shown := Countdown.Remaining(timer, false);
          } else {
            shown := Countdown.Remaining(Countdown.Max(timer, 0), warning > timer);
            if timer > warning {
              sleepTime := Countdown.DefaultSleep;
            } else {
              sleepTime := Countdown.WarningSleep;
            }
            if timer <= Countdown.TimeoutMargin {
              terminateTimeRunOut := true;
              sleepTime := Countdown.DefaultSleep;
              roundTime := now + duration;
              timer := duration;
            }
          }
        }
      }
    }

    /** Start a round at `now`: the countdown is due to end `duration` later. */
    method StartRound(now: int)
      modifies this`roundTime
      ensures Clock() == old(Clock()).(roundTime := now + duration)
    {
      roundTime := now + duration;
    }

    /**
     * After a round: lower the time-out flag, so that the next round can run,
     * and update the display at `now`.
     */
    method EndRound(now: int) returns (shown: Countdown.Display)
      modifies this`timer, this`sleepTime, this`roundTime, this`elapsedTime, this`terminateTimeRunOut
      ensures (Clock(), shown) == Countdown.Update(old(Clock()).(timedOut := false), false, now, duration, warning)
      // the flag is up again only if the countdown has already run out
      ensures terminateTimeRunOut ==> duration > 0 && old(roundTime) - now <= Countdown.TimeoutMargin
    {
      terminateTimeRunOut := false;
      shown := UpdateTimerDisplay(false, now);
    }

    /** Judge player pid's claim: the validity test applied to the cards under its tokens. */
    method CheckIfLegalSet(pid: nat, isSet: seq<nat> -> bool) returns (legal: bool)
      requires Valid() && pid < |players|
      ensures |table.playerToSlot[pid]| <= SetSize
      ensures legal == isSet(ClaimCards(table.slotToCard, table.playerToSlot[pid]))
    {
      var slots := table.playerToSlot[pid];
      assert |slots| <= SetSize;
      var card := new nat[SetSize](_ => 0);
      var counter := 0;
      while counter < |slots|
        invariant counter <= |slots| <= SetSize
        invariant forall k :: 0 <= k < |slots| ==> slots[k] < |table.slotToCard| && table.slotToCard[slots[k]].Some?
        invariant forall k :: 0 <= k < SetSize ==> card[k] == if k < counter then table.slotToCard[slots[k]].value else 0
      {
        card[counter] := table.slotToCard[slots[counter]].value;
        counter := counter + 1;
      }
      assert card[..] == ClaimCards(table.slotToCard, slots);
      legal := isSet(card[..]);
    }

    /** Move the front card of the deck into the empty slot `slot`. */
    method DealFront(slot: nat)
      requires Valid() && slot < table.tableSize && table.slotToCard[slot].None? && deck != []
      modifies this`deck, table`slotToCard, table`cardToSlot
      ensures Valid()
      ensures deck == old(deck)[1..] && table.slotToCard == old(table.slotToCard)[slot := Some(old(deck)[0])]
    {
      DeckCardFree(deck, table.slotToCard, table.cardToSlot, discarded, table.deckSize);
      PlaceKeepsTotals(deck, table.slotToCard, discarded, slot);
      ghost var deck0, slots0 := deck, table.slotToCard;
      var newCard := deck[0];
      deck := deck[1..];
      table.PlaceCard(newCard, slot);
      forall c: nat ensures Total(deck, table.slotToCard, discarded, c) == if c < table.deckSize then 1 else 0 {
        assert Total(deck, table.slotToCard, discarded, c) == Total(deck0, slots0, discarded, c);
      }
    }

    /** Whether some slot of `slotOrder` is empty. */
    method NeedToPlace(slotOrder: seq<nat>) returns (needToPlace: bool)
      requires table.Valid() && forall k :: 0 <= k < |slotOrder| ==> slotOrder[k] < table.tableSize
      ensures needToPlace <==> HasEmptySlot(table.slotToCard, slotOrder)
    {
      needToPlace := false;
      for k := 0 to |slotOrder|
        invariant needToPlace <==> HasEmptySlot(table.slotToCard, slotOrder[..k])
      {
        assert slotOrder[..k + 1] == slotOrder[..k] + [slotOrder[k]];
        if table.slotToCard[slotOrder[k]].None? {
          needToPlace := true;
        }
      }
      assert slotOrder[..|slotOrder|] == slotOrder;
    }

    /** Visit the slots in `slotOrder`, filling each empty one from the front of the deck while cards remain. */
    method FillSlots(slotOrder: seq<nat>)
      requires Valid() && forall k :: 0 <= k < |slotOrder| ==> slotOrder[k] < table.tableSize
      modifies this`deck, table`slotToCard, table`cardToSlot
      ensures Valid()
      ensures Dealt(table.slotToCard, deck) == Deal(old(table.slotToCard), old(deck), slotOrder)
    {
      for k := 0 to |slotOrder|
        invariant Valid()
        invariant Deal(table.slotToCard, deck, slotOrder[k..]) == Deal(old(table.slotToCard), old(deck), slotOrder)
      {
        var i := slotOrder[k];
        assert slotOrder[k..][1..] == slotOrder[k + 1..];
        if table.slotToCard[i].None? {
          if deck != [] {
            DealFront(i);
          }
        }
      }
      assert slotOrder[|slotOrder|..] == [];
    }

    /**
     * Deal: reorder the deck into `shuffled`, then, if some slot is empty,
     * visit the slots in `slotOrder` and fill each empty one with the front
     * card of the deck.
     */
    method PlaceCardsOnTable(shuffled: seq<nat>, slotOrder: seq<nat>)
      requires Valid() && multiset(shuffled) == multiset(deck)
      requires forall k :: 0 <= k < |slotOrder| ==> slotOrder[k] < table.tableSize
      requires forall s :: 0 <= s < table.tableSize ==> s in slotOrder
      modifies this`deck, table`slotToCard, table`cardToSlot
      ensures Valid()
      ensures Dealt(table.slotToCard, deck) == Deal(old(table.slotToCard), shuffled, slotOrder)
      // afterwards the table is full or the deck is empty
      ensures deck == [] || forall s :: 0 <= s < table.tableSize ==> table.slotToCard[s].Some?
    {
      ghost var before := table.slotToCard;
      Shuffle(shuffled);
      var needToPlace := NeedToPlace(slotOrder);
      if needToPlace {
        FillSlots(slotOrder);
      } else {
        DealOnFullTable(before, shuffled, slotOrder);
      }
      DealtFillsTable(before, shuffled, slotOrder, table.slotToCard, deck);
    }

    /** Take every token off `slot`, the first player listed there first. */
    method ClearSlot(slot: nat)
      requires table.Valid() && slot < table.tableSize
      modifies table`playerToSlot, table`slotToPlayer
      ensures table.Valid()
      ensures forall q :: 0 <= q < table.numPlayers ==> table.playerToSlot[q] == Without(old(table.playerToSlot)[q], slot)
      ensures table.slotToPlayer == old(table.slotToPlayer)[slot := []]
    {
      ghost var before, listed := table.playerToSlot, table.slotToPlayer[slot];
      assert NoDup(listed);
      var size := |table.slotToPlayer[slot]|;
      for k := 0 to size
        invariant table.Valid()
        invariant table.slotToPlayer == old(table.slotToPlayer)[slot := listed[k..]]
        invariant forall q :: 0 <= q < table.numPlayers ==>
          table.playerToSlot[q] == if q in listed[..k] then Without(before[q], slot) else before[q]
      {
        var q0 := table.slotToPlayer[slot][0];
        assert Has(table.slotToPlayer, slot, q0);
        assert q0 !in listed[..k];
        WithoutHead(listed[k..]);
        assert listed[k..][1..] == listed[k + 1..];
        assert listed[..k + 1] == listed[..k] + [q0];
        ghost var tokens := table.playerToSlot;
        table.RemoveToken(q0, slot);
        forall q | 0 <= q < table.numPlayers
          ensures table.playerToSlot[q] == if q in listed[..k + 1] then Without(before[q], slot) else before[q]
        {
          if q != q0 {
            assert table.playerToSlot[q] == tokens[q];
            assert q in listed[..k + 1] <==> q in listed[..k];
          }
        }
      }
      assert listed[..size] == listed;
      forall q | 0 <= q < table.numPlayers ensures table.playerToSlot[q] == Without(before[q], slot) {
        if q !in listed {
          assert !Has(old(table.slotToPlayer), slot, q);
        }
      }
    }

    /** Take every token off the slots of player pid's claim, one slot after the other. */
    method RemoveTokensFromLegalSet(pid: nat)
      requires table.Valid() && pid < table.numPlayers && |table.playerToSlot[pid]| == SetSize
      modifies table`playerToSlot, table`slotToPlayer
      ensures table.Valid()
      ensures forall q :: 0 <= q < table.numPlayers ==>
        table.playerToSlot[q] == WithoutAll(old(table.playerToSlot)[q], old(table.playerToSlot)[pid])
      ensures forall s :: 0 <= s < table.tableSize ==>
        table.slotToPlayer[s] == if s in old(table.playerToSlot)[pid] then [] else old(table.slotToPlayer)[s]
      ensures table.playerToSlot[pid] == []
    {
      ghost var claim, before, listed := table.playerToSlot[pid], table.playerToSlot, table.slotToPlayer;
      var counter := 0;
      while counter < SetSize
        invariant 0 <= counter <= SetSize
        invariant table.Valid()
        invariant table.playerToSlot[pid] == claim[counter..]
        invariant forall q :: 0 <= q < table.numPlayers ==> table.playerToSlot[q] == WithoutAll(before[q], claim[..counter])
        invariant forall s :: 0 <= s < table.tableSize ==>
          table.slotToPlayer[s] == if s in claim[..counter] then [] else listed[s]
      {
        var slot := table.playerToSlot[pid][0];
        assert Has(table.playerToSlot, pid, slot);
        WithoutHead(table.playerToSlot[pid]);
        assert claim[counter..][1..] == claim[counter + 1..];
        assert claim[..counter + 1] == claim[..counter] + [slot];
        assert claim[..counter + 1][..counter] == claim[..counter];
        ghost var tokens := table.playerToSlot;
        ClearSlot(slot);
        forall q | 0 <= q < table.numPlayers
          ensures table.playerToSlot[q] == WithoutAll(before[q], claim[..counter + 1])
        {
          assert table.playerToSlot[q] == Without(tokens[q], slot);
        }
        forall s | 0 <= s < table.tableSize
          ensures table.slotToPlayer[s] == if s in claim[..counter + 1] then [] else listed[s]
        {
          if s != slot {
            assert s in claim[..counter + 1] <==> s in claim[..counter];
          }
        }
        counter := counter + 1;
      }
      assert claim[..SetSize] == claim;
    }

    /** Take the card in `slot` out of the game. */
    method DiscardCard(slot: nat)
      requires table.Valid() && CardsConserved() && slot < table.tableSize && table.slotToCard[slot].Some?
      modifies table`slotToCard, table`cardToSlot, this`discarded
      ensures table.Valid() && CardsConserved()
      ensures table.slotToCard == old(table.slotToCard)[slot := None]
    {
      DiscardKeepsTotals(deck, table.slotToCard, discarded, slot);
      ghost var slots0, discarded0 := table.slotToCard, discarded;
      discarded := discarded + multiset{table.slotToCard[slot].value};
      table.RemoveCard(slot);
      forall c: nat ensures Total(deck, table.slotToCard, discarded, c) == if c < table.deckSize then 1 else 0 {
        assert Total(deck, table.slotToCard, discarded, c) == Total(deck, slots0, discarded0, c);
      }
    }

    /** Take the cards of a legal claim out of the game. */
    method DiscardCards(claim: seq<nat>)
      requires table.Valid() && CardsConserved() && NoDup(claim)
      requires forall k :: 0 <= k < |claim| ==> claim[k] < table.tableSize && table.slotToCard[claim[k]].Some?
      modifies table`slotToCard, table`cardToSlot, this`discarded
      ensures table.Valid() && CardsConserved()
      ensures forall s :: 0 <= s < table.tableSize ==>
        table.slotToCard[s] == if s in claim then None else old(table.slotToCard)[s]
    {
      ghost var before := table.slotToCard;
      for i := 0 to |claim|
        invariant table.Valid() && CardsConserved()
        invariant forall s :: 0 <= s < table.tableSize ==>
          table.slotToCard[s] == if s in claim[..i] then None else before[s]
      {
        var slot := claim[i];
        assert slot !in claim[..i];
        assert claim[..i + 1] == claim[..i] + [slot];
        DiscardCard(slot);
      }
      assert claim[..|claim|] == claim;
    }

    /**
     * The table after the claim on slots `claim` was taken from the table
     * (slots0, playerToSlot0, slotToPlayer0): the claimed slots are empty and
     * carry no token, and nothing else changed.
     */
    ghost predicate ClaimTaken(claim: seq<nat>, slots0: seq<Option<nat>>, playerToSlot0: seq<seq<nat>>, slotToPlayer0: seq<seq<nat>>)
      reads table
      requires |slots0| == |slotToPlayer0| == table.tableSize && |playerToSlot0| == table.numPlayers
      requires table.Valid()
    {
      (forall s :: 0 <= s < table.tableSize ==>
         table.slotToCard[s] == if s in claim then None else slots0[s])
      && (forall s :: 0 <= s < table.tableSize ==>
            table.slotToPlayer[s] == if s in claim then [] else slotToPlayer0[s])
      && (forall q :: 0 <= q < table.numPlayers ==> table.playerToSlot[q] == WithoutAll(playerToSlot0[q], claim))
    }

    /**
     * A legal claim of player pid: its cards leave the game, every token on
     * them goes and the countdown restarts.
     */
    method AcceptClaim(pid: nat, now: int)
      requires Valid() && pid < |players| && |table.playerToSlot[pid]| == SetSize
      modifies this`discarded, this`timer, this`sleepTime, this`roundTime, this`elapsedTime, this`terminateTimeRunOut
      modifies table`slotToCard, table`cardToSlot, table`playerToSlot, table`slotToPlayer
      ensures Valid()
      ensures Clock() == Countdown.Update(old(Clock()), true, now, duration, warning).0
      ensures ClaimTaken(old(table.playerToSlot)[pid], old(table.slotToCard), old(table.playerToSlot), old(table.slotToPlayer))
    {
      var claim := table.playerToSlot[pid];
      ghost var cardsBefore, tokensBefore := table.slotToCard, table.playerToSlot;
      forall k | 0 <= k < |claim| ensures claim[k] < table.tableSize && table.slotToCard[claim[k]].Some? {
        TokenOnCard(tokensBefore, cardsBefore, pid, claim[k]);
      }
      DiscardCards(claim);
      RemoveTokensFromLegalSet(pid);
      forall q, k | 0 <= q < |table.playerToSlot| && 0 <= k < |table.playerToSlot[q]|
        ensures table.playerToSlot[q][k] < |table.slotToCard| && table.slotToCard[table.playerToSlot[q][k]].Some?
      {
        var t := table.playerToSlot[q][k];
        assert t in WithoutAll(tokensBefore[q], claim);
        TokenOnCard(tokensBefore, cardsBefore, q, t);
      }
      var _ := UpdateTimerDisplay(true, now);
    }

    /**
     * The verdict on player pid's claim: a player still holding `SetSize`
     * tokens gets the validity test's verdict and a legal claim is accepted.
     * A player holding fewer tokens gets no verdict and the table stays as it is.
     */
    method Judge(pid: nat, player: Player, isSet: seq<nat> -> bool, now: int)
      requires Valid() && pid < |players| && player == players[pid]
      modifies this`discarded, this`timer, this`sleepTime, this`roundTime, this`elapsedTime, this`terminateTimeRunOut
      modifies table`slotToCard, table`cardToSlot, table`playerToSlot, table`slotToPlayer, player`isScore
      ensures Valid()
      // cards only leave the table, and the countdown is kept or reset at `now`
      ensures OnlyCardsLeave(old(table.slotToCard), table.slotToCard)
      ensures Clock() == old(Clock()) || Clock() == Countdown.Update(old(Clock()), true, now, duration, warning).0
      ensures var claim := old(table.playerToSlot)[pid];
        player.isScore == old(player.isScore)
          + (if |claim| == SetSize then [isSet(ClaimCards(old(table.slotToCard), claim))] else [])
      ensures var claim := old(table.playerToSlot)[pid];
        !(|claim| == SetSize && isSet(ClaimCards(old(table.slotToCard), claim))) ==>
          Clock() == old(Clock())
          && table.slotToCard == old(table.slotToCard) && table.cardToSlot == old(table.cardToSlot)
          && table.playerToSlot == old(table.playerToSlot) && table.slotToPlayer == old(table.slotToPlayer)
      ensures var claim := old(table.playerToSlot)[pid];
        |claim| == SetSize && isSet(ClaimCards(old(table.slotToCard), claim)) ==>
          Clock() == Countdown.Update(old(Clock()), true, now, duration, warning).0
          && ClaimTaken(claim, old(table.slotToCard), old(table.playerToSlot), old(table.slotToPlayer))
    {
      if |table.playerToSlot[pid]| == SetSize {
        var legal := CheckIfLegalSet(pid, isSet);
        if legal {
          AcceptClaim(pid, now);
          player.isScore := player.isScore + [true];
        } else {
          player.isScore := player.isScore + [false];
        }
      }
    }

    /**
     * Resolve the oldest claim: take its player off the request queue, mark
     * the dealer as checking that player while the verdict is given, and
     * record the claim as resolved.
     */
    method ResolveNextClaim(isSet: seq<nat> -> bool, now: int) returns (pid: nat)
      requires Valid() && playersRequests != []
      modifies this`playersRequests, this`discarded, this`resolved
      modifies this`timer, this`sleepTime, this`roundTime, this`elapsedTime, this`terminateTimeRunOut
      modifies table`slotToCard, table`cardToSlot, table`playerToSlot, table`slotToPlayer, players[playersRequests[0]]
      ensures Valid()
      ensures pid == old(playersRequests)[0] && playersRequests == old(playersRequests)[1..]
      ensures old(playersRequests) == [pid] + playersRequests
      ensures resolved == old(resolved) + [pid]
      ensures !players[pid].dealerIsChecking
      ensures ResolvedOne(old(Snap()), Snap(), pid, now, duration, warning)
      ensures var claim := old(table.playerToSlot)[pid];
        players[pid].isScore == old(players[pid].isScore)
          + (if |claim| == SetSize then [isSet(ClaimCards(old(table.slotToCard), claim))] else [])
      ensures var claim := old(table.playerToSlot)[pid];
        !(|claim| == SetSize && isSet(ClaimCards(old(table.slotToCard), claim))) ==>
          Clock() == old(Clock())
          && table.slotToCard == old(table.slotToCard) && table.cardToSlot == old(table.cardToSlot)
          && table.playerToSlot == old(table.playerToSlot) && table.slotToPlayer == old(table.slotToPlayer)
      ensures var claim := old(table.playerToSlot)[pid];
        |claim| == SetSize && isSet(ClaimCards(old(table.slotToCard), claim)) ==>
          Clock() == Countdown.Update(old(Clock()), true, now, duration, warning).0
          && ClaimTaken(claim, old(table.slotToCard), old(table.playerToSlot), old(table.slotToPlayer))
    {
      ghost var states0, tokens0 := States(), table.playerToSlot;
      pid := playersRequests[0];
      playersRequests := playersRequests[1..];
      var player := players[pid];
      player.dealerIsChecking := true;
      Judge(pid, player, isSet, now);
      player.dealerIsChecking := false;
      resolved := resolved + [pid];
      forall i | 0 <= i < |players| && i != pid ensures unchanged(players[i]) {
        assert players[i].id != player.id;
      }
      OnlyClaimantChanged(pid);
      if AllPendingHeld(states0, tokens0) {
        ClaimKeepsPendingHeld(states0, States(), tokens0, table.playerToSlot, tokens0[pid]);
      }
    }

    /** Resolve every pending claim, oldest first, until none is left. */
    method RemoveCardsFromTable(isSet: seq<nat> -> bool, now: int)
      requires Valid()
      modifies this`playersRequests, this`discarded, this`resolved
      modifies this`timer, this`sleepTime, this`roundTime, this`elapsedTime, this`terminateTimeRunOut
      modifies table`slotToCard, table`cardToSlot, table`playerToSlot, table`slotToPlayer, players
      ensures Valid()
      ensures playersRequests == [] && resolved == old(resolved) + old(playersRequests)
      ensures ResolvedAll(old(Snap()), Snap(), old(playersRequests), now, duration, warning)
      ensures old(PendingPressesHeld()) ==> PendingPressesHeld()
      // every claimant leaves review; every other player keeps its flag
      ensures forall i :: 0 <= i < |players| ==>
        players[i].dealerIsChecking == if i in old(playersRequests) then false else old(players[i].dealerIsChecking)
      // a player with no pending request gets no verdict
      ensures forall i :: 0 <= i < |players| && i !in old(playersRequests) ==> players[i].isScore == old(players[i].isScore)
      // cards only leave the table, and the countdown is kept or reset once at `now`
      ensures OnlyCardsLeave(old(table.slotToCard), table.slotToCard)
      ensures Clock() == old(Clock()) || Clock() == Countdown.Update(old(Clock()), true, now, duration, warning).0
      // with no request pending, nothing changes on the table or the clock
      ensures old(playersRequests) == [] ==>
        Clock() == old(Clock())
        && table.slotToCard == old(table.slotToCard) && table.cardToSlot == old(table.cardToSlot)
        && table.playerToSlot == old(table.playerToSlot) && table.slotToPlayer == old(table.slotToPlayer)
    {
      ghost var start := Snap();
      SnapMeans(start);
      ghost var done: seq<nat> := [];
      while playersRequests != []
        invariant Valid()
        invariant old(playersRequests) == done + playersRequests && resolved == old(resolved) + done
        invariant ResolvedAll(start, Snap(), done, now, duration, warning)
        decreases |playersRequests|
      {
        ghost var snap := Snap();
        var pid := ResolveNextClaim(isSet, now);
        Regroup(done, [pid], playersRequests);
        Regroup(old(resolved), done, [pid]);
        ResolvedAllStep(start, snap, Snap(), done, pid, now, duration, warning);
        done := done + [pid];
      }
      SnapMeans(Snap());
    }

    /** What a snapshot of the current state says about the dealer's own fields. */
    lemma SnapMeans(snap: Snapshot)
      requires snap == Snap()
      ensures |snap.checking| == |players|
      ensures forall i :: 0 <= i < |players| ==> snap.checking[i] == players[i].dealerIsChecking
      ensures snap.clock == Clock() && snap.slotToCard == table.slotToCard && snap.cardToSlot == table.cardToSlot
        && snap.playerToSlot == table.playerToSlot && snap.slotToPlayer == table.slotToPlayer
      ensures AllPendingHeld(snap.states, snap.playerToSlot) == PendingPressesHeld()
    {
    }

    /**
     * When only the claimant's verdicts grew and its review flag went down,
     * the players' state only gained verdicts and only that flag changed.
     */
    twostate lemma OnlyClaimantChanged(pid: nat)
      requires Wired() && pid < |players|
      requires forall i :: 0 <= i < |players| && i != pid ==> unchanged(players[i])
      requires players[pid].queue == old(players[pid].queue) && players[pid].score == old(players[pid].score)
        && players[pid].isFreezed == old(players[pid].isFreezed)
        && players[pid].awaitingVerdict == old(players[pid].awaitingVerdict)
        && old(players[pid].isScore) <= players[pid].isScore && !players[pid].dealerIsChecking
      ensures OnlyVerdictsAdded(old(States()), States()) && Checking() == old(Checking())[pid := false]
      ensures forall i :: 0 <= i < |players| && i != pid ==> States()[i] == old(States())[i]
    {
    }

    /** Set every player's `dealerIsChecking` flag to b. */
    method SetChecking(b: bool)
      requires Wired()
      modifies players
      ensures forall i :: 0 <= i < |players| ==> players[i].dealerIsChecking == b
      ensures forall i :: 0 <= i < |players| ==>
        players[i].queue == old(players[i].queue) && players[i].isScore == old(players[i].isScore)
        && players[i].score == old(players[i].score) && players[i].isFreezed == old(players[i].isFreezed)
        && players[i].awaitingVerdict == old(players[i].awaitingVerdict)
    {
      for j := 0 to |players|
        invariant forall i :: 0 <= i < j ==> players[i].dealerIsChecking == b
        invariant forall i :: 0 <= i < |players| ==>
          players[i].queue == old(players[i].queue) && players[i].isScore == old(players[i].isScore)
          && players[i].score == old(players[i].score) && players[i].isFreezed == old(players[i].isFreezed)
          && players[i].awaitingVerdict == old(players[i].awaitingVerdict)
      {
        players[j].dealerIsChecking := b;
      }
    }

    /** Release every player from a freeze. */
    method Unfreeze()
      requires Wired()
      modifies players
      ensures forall i :: 0 <= i < |players| ==> !players[i].isFreezed
      ensures forall i :: 0 <= i < |players| ==>
        players[i].queue == old(players[i].queue) && players[i].isScore == old(players[i].isScore)
        && players[i].score == old(players[i].score) && players[i].dealerIsChecking == old(players[i].dealerIsChecking)
        && players[i].awaitingVerdict == old(players[i].awaitingVerdict)
    {
      for j := 0 to |players|
        invariant forall i :: 0 <= i < j ==> !players[i].isFreezed
        invariant forall i :: 0 <= i < |players| ==>
          players[i].queue == old(players[i].queue) && players[i].isScore == old(players[i].isScore)
          && players[i].score == old(players[i].score) && players[i].dealerIsChecking == old(players[i].dealerIsChecking)
          && players[i].awaitingVerdict == old(players[i].awaitingVerdict)
      {
        players[j].isFreezed := false;
      }
    }

    /** Move the card in `slot` to the back of the deck. */
    method ReturnCard(slot: nat)
      requires table.Valid() && CardsConserved() && slot < table.tableSize && table.slotToCard[slot].Some?
      modifies this`deck, table`slotToCard, table`cardToSlot
      ensures table.Valid() && CardsConserved()
      ensures deck == old(deck) + [old(table.slotToCard)[slot].value]
      ensures table.slotToCard == old(table.slotToCard)[slot := None]
    {
      var currCard := table.slotToCard[slot].value;
      ReturnKeepsTotals(deck, table.slotToCard, discarded, slot);
      ghost var deck0, slots0 := deck, table.slotToCard;
      deck := deck + [currCard];
      table.RemoveCard(table.cardToSlot[currCard].value);
      forall c: nat ensures Total(deck, table.slotToCard, discarded, c) == if c < table.deckSize then 1 else 0 {
        assert Total(deck, table.slotToCard, discarded, c) == Total(deck0, slots0, discarded, c);
      }
    }

    /** Move every card on the table, slot by slot, to the back of the deck. */
    method ReturnAllCards()
      requires table.Valid() && CardsConserved()
      modifies this`deck, table`slotToCard, table`cardToSlot
      ensures table.Valid() && CardsConserved()
      ensures deck == old(deck) + CardsIn(old(table.slotToCard))
      ensures table.slotToCard == NoCards(table.tableSize)
    {
      ghost var before := table.slotToCard;
      var i := 0;
      while i < |table.slotToCard|
        invariant 0 <= i <= table.tableSize
        invariant table.Valid() && CardsConserved()
        invariant deck == old(deck) + CardsIn(before[..i])
        invariant forall s :: 0 <= s < table.tableSize ==> table.slotToCard[s] == if s < i then None else before[s]
      {
        CardsInStep(before, i);
        if table.slotToCard[i].Some? {
          ReturnCard(i);
        }
        i := i + 1;
      }
      assert before[..i] == before;
      assert table.slotToCard == NoCards(table.tableSize);
    }

    /** End a round: every card on the table goes to the back of the deck, every token goes, nobody stays frozen. */
    method RemoveAllCardsFromTable()
      requires Valid()
      modifies this`deck, table`slotToCard, table`cardToSlot, table`playerToSlot, table`slotToPlayer, players
      ensures Valid()
      ensures deck == old(deck) + CardsIn(old(table.slotToCard))
      ensures table.slotToCard == NoCards(table.tableSize)
      ensures table.playerToSlot == NoTokens(table.numPlayers) && table.slotToPlayer == NoTokens(table.tableSize)
      ensures forall i :: 0 <= i < |players| ==> !players[i].dealerIsChecking && !players[i].isFreezed
      ensures forall i :: 0 <= i < |players| ==>
        players[i].queue == old(players[i].queue) && players[i].isScore == old(players[i].isScore)
        && players[i].score == old(players[i].score) && players[i].awaitingVerdict == old(players[i].awaitingVerdict)
      // with no token left, no pending press can exceed the limit
      ensures PendingPressesHeld()
    {
      SetChecking(true);
      table.RemoveAllTokens();
      ReturnAllCards();
      SetChecking(false);
      Unfreeze();
    }

    /** The players' scores, in player order. */
    function Scores(): (scores: seq<nat>)
      reads players
      ensures |scores| == |players| && forall i :: 0 <= i < |players| ==> scores[i] == players[i].score
    {
      seq(|players|, i reads players requires 0 <= i < |players| => players[i].score)
    }

    /** The highest score of any player, 0 without players. */
    method HighestScore() returns (highestScore: nat)
      ensures highestScore == Winners.MaxScore(Scores())
    {
      ghost var scores := Scores();
      highestScore := 0;
      for i := 0 to |players|
        invariant highestScore == Winners.MaxScore(scores[..i])
      {
        assert scores[..i + 1][..i] == scores[..i];
        if players[i].score > highestScore {
          highestScore := players[i].score;
        }
      }
      assert scores[..|players|] == scores;
    }

    /** How many players reach the score `top`. */
    method CountWinners(top: nat) returns (winnersCounter: nat)
      ensures winnersCounter == |Winners.TopScorers(Scores(), top)|
    {
      ghost var scores := Scores();
      winnersCounter := 0;
      for i := 0 to |players|
        invariant winnersCounter == |Winners.TopScorers(scores[..i], top)|
      {
        Winners.TopScorersStep(scores, top, i);
        if players[i].score == top {
          winnersCounter := winnersCounter + 1;
        }
      }
      assert scores[..|players|] == scores;
    }

    /** An array of exactly `count` entries holding, in player order, the ids of the players with score `top`. */
    method ListTopScorers(top: nat, count: nat, ghost scores: seq<nat>) returns (ids: array<nat>)
      requires Wired() && scores == Scores() && count == |Winners.TopScorers(scores, top)|
      ensures fresh(ids) && ids[..] == Winners.TopScorers(scores, top)
    {
      ids := new nat[count];
      var winnersCounter := 0;
      for i := 0 to |players|
        invariant winnersCounter == |Winners.TopScorers(scores[..i], top)| <= ids.Length
        invariant forall j :: 0 <= j < winnersCounter ==> ids[j] == Winners.TopScorers(scores[..i], top)[j]
      {
        Winners.TopScorersStep(scores, top, i);
        Winners.TopScorersGrow(scores, top, i + 1);
        if players[i].score == top {
          ids[winnersCounter] := players[i].id;
          winnersCounter := winnersCounter + 1;
        }
      }
      assert scores[..|players|] == scores;
      assert ids[..] == Winners.TopScorers(scores, top);
    }

    /** The winners: the ids of the players with the highest score, in player order. */
    method AnnounceWinners() returns (winners: seq<nat>)
      requires Wired()
      ensures winners == Winners.Winners(Scores())
    {
      ghost var scores := Scores();
      var highestScore := HighestScore();
      var winnersCounter := CountWinners(highestScore);
      var ids := ListTopScorers(highestScore, winnersCounter, scores);
      winners := ids[..];
      assert forall j :: 0 <= j < |players| ==> Scores()[j] == scores[j];
      assert Scores() == scores;
    }

    /** The game is over when terminated from outside or no set is left among the cards of the deck. */
    predicate ShouldFinish(anySet: seq<nat> -> bool)
      reads this
      ensures terminateOfExternal ==> ShouldFinish(anySet)
      ensures !anySet(deck) ==> ShouldFinish(anySet)
      ensures !terminateOfExternal && anySet(deck) ==> !ShouldFinish(anySet)
    {
      terminateOfExternal || !anySet(deck)
    }

    /**
     * The round goes on while nothing terminated it, the countdown has not
     * timed out, and either the round is timed or a set is on the table.
     */
    predicate RoundContinues(now: int, anySet: seq<nat> -> bool)
      reads this, table
      // a termination or a time-out ends the round
      ensures RoundContinues(now, anySet) ==> !terminateOfExternal && !terminateTimeRunOut && now < ReshuffleTime
      // an untimed round ends once no set is on the table
      ensures RoundContinues(now, anySet) && duration <= 0 ==> table.SetOnTable(anySet)
      // a timed round goes on whatever the cards
      ensures !terminateOfExternal && !terminateTimeRunOut && now < ReshuffleTime && duration > 0 ==> RoundContinues(now, anySet)
    {
      !terminateOfExternal && !terminateTimeRunOut && now < ReshuffleTime
      && (duration > 0 || table.SetOnTable(anySet))
    }

    /**
     * Once an update of a timed round finds at most `TimeoutMargin` ms left,
     * the round is over, whatever the cards on the table.
     */
    lemma TimeOutEndsRound(c0: Countdown.Clock, now: int, anySet: seq<nat> -> bool)
      requires duration > 0 && c0.roundTime - now <= Countdown.TimeoutMargin
      requires Clock() == Countdown.Update(c0, false, now, duration, warning).0
      ensures terminateTimeRunOut && !RoundContinues(now, anySet)
    {
    }

    /**
     * A timed round started at `start` with the time-out flag down goes on,
     * through any update made before its last `TimeoutMargin` ms, until a
     * termination.
     */
    lemma StartedRoundContinues(c0: Countdown.Clock, start: int, now: int, anySet: seq<nat> -> bool)
      requires duration > 0 && !c0.timedOut && now - start < duration - Countdown.TimeoutMargin
      requires Clock() == Countdown.Update(c0.(roundTime := start + duration), false, now, duration, warning).0
      requires !terminateOfExternal && now < ReshuffleTime
      ensures RoundContinues(now, anySet) && roundTime == start + duration
    {
      Countdown.StartedRoundRuns(c0, start, now, duration, warning);
    }

    /**
     * With the table cleared, every card of the game is in the deck or
     * discarded, exactly once, and no other card is in the deck: the
     * end-of-game test on the deck sees every card still in play.
     */
    lemma DeckHoldsCardsInGame()
      requires Valid() && table.slotToCard == NoCards(table.tableSize)
      ensures forall c: nat :: c < table.deckSize ==> multiset(deck)[c] + discarded[c] == 1
      ensures forall c: nat :: c >= table.deckSize ==> multiset(deck)[c] == 0
    {
      forall c: nat ensures multiset(deck)[c] + discarded[c] == if c < table.deckSize then 1 else 0 {
        CountEmpty(table.tableSize, c);
        assert Total(deck, table.slotToCard, discarded, c) == if c < table.deckSize then 1 else 0;
      }
    }
  }
}
