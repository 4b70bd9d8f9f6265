/**
 * The shared table: which card lies in which slot, and which player holds a
 * token on which slot. Only the operations the dealer and the players call are
 * modelled, each with the contract those callers rely on.
 */
module TableModel {
  import opened Cards
  import opened Tokens

  class Table {
    const tableSize: nat
    const deckSize: nat
    const numPlayers: nat
    var slotToCard: seq<Option<nat>>
    var cardToSlot: seq<Option<nat>>
    var playerToSlot: seq<seq<nat>>
    var slotToPlayer: seq<seq<nat>>

    /** The four arrays have their configured sizes and agree with each other. */
    ghost predicate Valid()
      reads this
    {
      |slotToCard| == tableSize && |cardToSlot| == deckSize
      && |playerToSlot| == numPlayers && |slotToPlayer| == tableSize
      && CardsLinked(slotToCard, cardToSlot)
      && Mirrored(playerToSlot, slotToPlayer)
    }

    /** An empty table: no card in any slot, no token anywhere. */
    constructor (tableSize: nat, deckSize: nat, numPlayers: nat)
      ensures Valid()
      ensures this.tableSize == tableSize && this.deckSize == deckSize && this.numPlayers == numPlayers
      ensures slotToCard == NoCards(tableSize) && cardToSlot == NoCards(deckSize)
      ensures playerToSlot == NoTokens(numPlayers) && slotToPlayer == NoTokens(tableSize)
    {
      this.tableSize, this.deckSize, this.numPlayers := tableSize, deckSize, numPlayers;
      slotToCard, cardToSlot := NoCards(tableSize), NoCards(deckSize);
      playerToSlot, slotToPlayer := NoTokens(numPlayers), NoTokens(tableSize);
      EmptyMirrored(numPlayers, tableSize);
    }

    /** Put a card that is not on the table into an empty slot. */
    method PlaceCard(card: nat, slot: nat)
      requires Valid() && card < deckSize && slot < tableSize
      requires slotToCard[slot].None? && cardToSlot[card].None?
      modifies this`slotToCard, this`cardToSlot
      ensures Valid()
      ensures slotToCard == old(slotToCard)[slot := Some(card)]
      ensures cardToSlot == old(cardToSlot)[card := Some(slot)]
    {
      LinkKeepsLinked(slotToCard, cardToSlot, slot, card);
      slotToCard := slotToCard[slot := Some(card)];
      cardToSlot := cardToSlot[card := Some(slot)];
    }

    /** Empty a slot; the tokens on it are left alone. */
    method RemoveCard(slot: nat)
      requires Valid() && slot < tableSize
      modifies this`slotToCard, this`cardToSlot
      ensures Valid()
      ensures slotToCard == old(slotToCard)[slot := None]
      ensures cardToSlot == if old(slotToCard)[slot].Some? then old(cardToSlot)[old(slotToCard)[slot].value := None]
                            else old(cardToSlot)
    {
      UnlinkKeepsLinked(slotToCard, cardToSlot, slot);
      if slotToCard[slot].Some? {
        cardToSlot := cardToSlot[slotToCard[slot].value := None];
      }
      slotToCard := slotToCard[slot := None];
    }

    /** Take away the token of a player on a slot, from both indexes. */
    method RemoveToken(player: nat, slot: nat)
      requires Valid() && player < numPlayers && slot < tableSize
      modifies this`playerToSlot, this`slotToPlayer
      ensures Valid()
      ensures playerToSlot == Erase(old(playerToSlot), player, slot)
      ensures slotToPlayer == Erase(old(slotToPlayer), slot, player)
    {
      EraseKeepsMirrored(playerToSlot, slotToPlayer, player, slot);
      playerToSlot := Erase(playerToSlot, player, slot);
      slotToPlayer := Erase(slotToPlayer, slot, player);
    }

    /** Take every token off the table. */
    method RemoveAllTokens()
      requires Valid()
      modifies this`playerToSlot, this`slotToPlayer
      ensures Valid()
      ensures playerToSlot == NoTokens(numPlayers) && slotToPlayer == NoTokens(tableSize)
    {
      EmptyMirrored(numPlayers, tableSize);
      playerToSlot, slotToPlayer := NoTokens(numPlayers), NoTokens(tableSize);
    }

    /**
     * A key press of a player on a slot: take the player's token there away,
     * or place one. Placing a token past `SetSize` is the caller's to prevent.
     */
    method Wrapper(player: nat, slot: nat)
      requires Valid() && player < numPlayers && slot < tableSize
      requires slot in playerToSlot[player] || |playerToSlot[player]| < SetSize
      modifies this`playerToSlot, this`slotToPlayer
      ensures Valid()
      ensures (playerToSlot, slotToPlayer) == Toggle(old(playerToSlot), old(slotToPlayer), slotToCard, player, slot)
    {
      ToggleKeepsMirrored(playerToSlot, slotToPlayer, slotToCard, player, slot);
      playerToSlot, slotToPlayer := Toggle(playerToSlot, slotToPlayer, slotToCard, player, slot).0,
                                    Toggle(playerToSlot, slotToPlayer, slotToCard, player, slot).1;
    }

    /** Some set can be formed from the cards on the table, as `anySet` judges it. */
    predicate SetOnTable(anySet: seq<nat> -> bool)
      reads this
      // an empty table offers the test no card at all
      ensures (forall s :: 0 <= s < |slotToCard| ==> slotToCard[s].None?) ==> (SetOnTable(anySet) <==> anySet([]))
    {
      CardsInHoldsTableCards(slotToCard);
      var cards := CardsIn(slotToCard);
      assert cards != [] ==> cards[0] in cards;
      anySet(cards)
    }
  }
}
