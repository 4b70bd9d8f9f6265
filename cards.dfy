/** Cards, the deck and the slot/card half of the table. */
module Cards {

  datatype Option<T> = None | Some(value: T)

  /** Number of cards in a match (`setSize`). */
  const SetSize: nat := 3

  /** The deck the dealer starts with: card ids 0 .. n-1 in order. */
  function Range(n: nat): (deck: seq<nat>)
  {
    seq(n, i => i)
  }

  /** The initial deck holds every card id below n exactly once, and nothing else. */
  lemma {:induction false} RangeHoldsEachCardOnce(n: nat)
    ensures |Range(n)| == n
    ensures forall c :: c in Range(n) ==> c < n
    ensures forall c :: 0 <= c < n ==> multiset(Range(n))[c] == 1
  {
    if n > 0 {
      RangeHoldsEachCardOnce(n - 1);
      assert Range(n) == Range(n - 1) + [n - 1];
    }
  }

  /**
   * The slot/card mapping and its inverse form a partial bijection: a card in a
   * slot points back to that slot, and a slot a card points to holds that card.
   */
  ghost predicate CardsLinked(slotToCard: seq<Option<nat>>, cardToSlot: seq<Option<nat>>)
  {
    (forall s :: 0 <= s < |slotToCard| && slotToCard[s].Some? ==>
       slotToCard[s].value < |cardToSlot| && cardToSlot[slotToCard[s].value] == Some(s))
    && (forall c :: 0 <= c < |cardToSlot| && cardToSlot[c].Some? ==>
          cardToSlot[c].value < |slotToCard| && slotToCard[cardToSlot[c].value] == Some(c))
  }

  /** No card lies in two slots. */
  lemma NoCardInTwoSlots(slotToCard: seq<Option<nat>>, cardToSlot: seq<Option<nat>>, s1: nat, s2: nat)
    requires CardsLinked(slotToCard, cardToSlot)
    requires s1 < |slotToCard| && s2 < |slotToCard|
    requires slotToCard[s1].Some? && slotToCard[s1] == slotToCard[s2]
    ensures s1 == s2
  {
  }

  /** True iff some slot visited by `order` has no card. */
  predicate HasEmptySlot(slots: seq<Option<nat>>, order: seq<nat>)
    requires forall k :: 0 <= k < |order| ==> order[k] < |slots|
  {
    exists k :: 0 <= k < |order| && slots[order[k]].None?
  }

  /** 1 if the slot holds a card, else 0. */
  function Used(slot: Option<nat>): nat
  {
    if slot.Some? then 1 else 0
  }

  /** Number of slots holding a card. */
  function Occupied(slots: seq<Option<nat>>): (n: nat)
    ensures n <= |slots|
  {
    if slots == [] then 0
    else Occupied(slots[..|slots| - 1]) + Used(slots[|slots| - 1])
  }

  /** The cards lying on the table, in slot order. */
  function CardsIn(slots: seq<Option<nat>>): (cards: seq<nat>)
  {
    if slots == [] then []
    else
      var last := slots[|slots| - 1];
      CardsIn(slots[..|slots| - 1]) + (if last.Some? then [last.value] else [])
  }

  /** The cards on the table are exactly those in some slot, one per occupied slot. */
  lemma {:induction false} CardsInHoldsTableCards(slots: seq<Option<nat>>)
    ensures |CardsIn(slots)| == Occupied(slots)
    ensures forall c :: c in CardsIn(slots) <==> Some(c) in slots
  {
    if slots != [] {
      var n := |slots| - 1;
      CardsInHoldsTableCards(slots[..n]);
      assert slots == slots[..n] + [slots[n]];
    }
  }

  /** 1 if the slot holds card c, else 0. */
  function Holds(slot: Option<nat>, c: nat): nat
  {
    if slot == Some(c) then 1 else 0
  }

  /** Number of slots holding card c. */
  function Count(slots: seq<Option<nat>>, c: nat): nat
  {
    if slots == [] then 0 else Count(slots[..|slots| - 1], c) + Holds(slots[|slots| - 1], c)
  }

  /** Putting `x` into slot i swaps that slot's contribution to the count of card c. */
  lemma {:induction false} CountUpdate(slots: seq<Option<nat>>, i: nat, x: Option<nat>, c: nat)
    requires i < |slots|
    ensures Count(slots[i := x], c) + Holds(slots[i], c) == Count(slots, c) + Holds(x, c)
    decreases |slots|
  {
    var n := |slots| - 1;
    var u := slots[i := x];
    assert Count(u, c) == Count(u[..n], c) + Holds(u[n], c);
    assert Count(slots, c) == Count(slots[..n], c) + Holds(slots[n], c);
    if i == n {
      assert u[..n] == slots[..n];
    } else {
      assert u[..n] == slots[..n][i := x];
      assert slots[..n][i] == slots[i];
      assert u[n] == slots[n];
      CountUpdate(slots[..n], i, x, c);
    }
  }

  /** Putting `x` into slot i changes the number of occupied slots accordingly. */
  lemma {:induction false} OccupiedUpdate(slots: seq<Option<nat>>, i: nat, x: Option<nat>)
    requires i < |slots|
    ensures Occupied(slots[i := x]) + Used(slots[i]) == Occupied(slots) + Used(x)
    decreases |slots|
  {
    var n := |slots| - 1;
    var u := slots[i := x];
    if i == n {
      assert u[..n] == slots[..n];
    } else {
      assert u[..n] == slots[..n][i := x];
      assert slots[..n][i] == slots[i];
      assert u[n] == slots[n];
      OccupiedUpdate(slots[..n], i, x);
      assert Occupied(u) == Occupied(u[..n]) + Used(u[n]);
      assert Occupied(slots) == Occupied(slots[..n]) + Used(slots[n]);
    }
  }

  /** A slot holding card c counts it at least once. */
  lemma {:induction false} CountHeld(slots: seq<Option<nat>>, s: nat, c: nat)
    requires s < |slots| && slots[s] == Some(c)
    ensures Count(slots, c) >= 1
  {
    CountUpdate(slots, s, None, c);
  }

  /** A table of n empty slots. */
  function NoCards(n: nat): (slots: seq<Option<nat>>)
    ensures |slots| == n && forall s :: 0 <= s < n ==> slots[s].None?
  {
    seq(n, _ => None)
  }

  /** From a to b, slots only lost their cards: no card was placed or moved. */
  ghost predicate OnlyCardsLeave(a: seq<Option<nat>>, b: seq<Option<nat>>)
  {
    |a| == |b| && forall s :: 0 <= s < |a| ==> b[s] == a[s] || b[s].None?
  }

  lemma OnlyCardsLeaveTrans(a: seq<Option<nat>>, b: seq<Option<nat>>, c: seq<Option<nat>>)
    requires OnlyCardsLeave(a, b) && OnlyCardsLeave(b, c)
    ensures OnlyCardsLeave(a, c)
  {
  }

  /** An empty table holds no card. */
  lemma {:induction false} CountEmpty(n: nat, c: nat)
    ensures Count(NoCards(n), c) == 0
  {
    if n > 0 {
      var slots := NoCards(n);
      assert slots[..n - 1] == NoCards(n - 1);
      CountEmpty(n - 1, c);
      assert Count(slots, c) == Count(slots[..n - 1], c) + Holds(slots[n - 1], c);
    }
  }

  /** The cards of the first i+1 slots are those of the first i slots, then slot i's card, if any. */
  lemma CardsInStep(slots: seq<Option<nat>>, i: nat)
    requires i < |slots|
    ensures CardsIn(slots[..i + 1]) == CardsIn(slots[..i]) + (if slots[i].Some? then [slots[i].value] else [])
  {
    assert slots[..i + 1][..i] == slots[..i];
  }

  /** Linking an unplaced card to an empty slot keeps the slot/card mapping a partial bijection. */
  lemma LinkKeepsLinked(slotToCard: seq<Option<nat>>, cardToSlot: seq<Option<nat>>, s: nat, c: nat)
    requires CardsLinked(slotToCard, cardToSlot)
    requires s < |slotToCard| && c < |cardToSlot| && slotToCard[s].None? && cardToSlot[c].None?
    ensures CardsLinked(slotToCard[s := Some(c)], cardToSlot[c := Some(s)])
  {
  }

  /** Emptying a slot, and forgetting where its card was, keeps the mapping a partial bijection. */
  lemma UnlinkKeepsLinked(slotToCard: seq<Option<nat>>, cardToSlot: seq<Option<nat>>, s: nat)
    requires CardsLinked(slotToCard, cardToSlot) && s < |slotToCard|
    ensures var cts := if slotToCard[s].Some? then cardToSlot[slotToCard[s].value := None] else cardToSlot;
      CardsLinked(slotToCard[s := None], cts)
  {
  }

  /**
   * How often card c occurs in the deck, on the table and among the cards that
   * left the game.
   */
  function Total(deck: seq<nat>, slots: seq<Option<nat>>, gone: multiset<nat>, c: nat): nat
  {
    multiset(deck)[c] + Count(slots, c) + gone[c]
  }

  /**
   * When every card below deckSize is in exactly one place, the front card of
   * the deck is a valid card id that lies in no slot.
   */
  lemma DeckCardFree(deck: seq<nat>, slotToCard: seq<Option<nat>>, cardToSlot: seq<Option<nat>>, gone: multiset<nat>, deckSize: nat)
    requires deck != [] && CardsLinked(slotToCard, cardToSlot) && |cardToSlot| == deckSize
    requires forall c: nat :: Total(deck, slotToCard, gone, c) == if c < deckSize then 1 else 0
    ensures deck[0] < deckSize && cardToSlot[deck[0]].None?
  {
    var c := deck[0];
    assert multiset(deck)[c] >= 1;
    assert Total(deck, slotToCard, gone, c) >= 1;
    if cardToSlot[c].Some? {
      CountHeld(slotToCard, cardToSlot[c].value, c);
      assert false;
    }
  }

  /**
   * A card counted at most once is never both in the deck and on the table,
   * and occurs at most once in the deck.
   */
  lemma CardInOnePlace(deck: seq<nat>, slots: seq<Option<nat>>, gone: multiset<nat>, c: nat)
    requires Total(deck, slots, gone, c) <= 1
    ensures multiset(deck)[c] <= 1
    ensures c in deck ==> forall s :: 0 <= s < |slots| ==> slots[s] != Some(c)
  {
    if c in deck {
      forall s | 0 <= s < |slots| ensures slots[s] != Some(c) {
        if slots[s] == Some(c) {
          CountHeld(slots, s, c);
          assert false;
        }
      }
    }
  }

  /** Moving the front card of the deck into the empty slot s changes no card's total. */
  lemma PlaceKeepsTotals(deck: seq<nat>, slots: seq<Option<nat>>, gone: multiset<nat>, s: nat)
    requires deck != [] && s < |slots| && slots[s].None?
    ensures forall c: nat :: Total(deck[1..], slots[s := Some(deck[0])], gone, c) == Total(deck, slots, gone, c)
  {
    forall c: nat ensures Total(deck[1..], slots[s := Some(deck[0])], gone, c) == Total(deck, slots, gone, c) {
      CountUpdate(slots, s, Some(deck[0]), c);
      FrontCard(deck, c);
    }
  }

  /** Moving the card of slot s to the back of the deck changes no card's total. */
  lemma ReturnKeepsTotals(deck: seq<nat>, slots: seq<Option<nat>>, gone: multiset<nat>, s: nat)
    requires s < |slots| && slots[s].Some?
    ensures forall c: nat :: Total(deck + [slots[s].value], slots[s := None], gone, c) == Total(deck, slots, gone, c)
  {
    forall c: nat ensures Total(deck + [slots[s].value], slots[s := None], gone, c) == Total(deck, slots, gone, c) {
      CountUpdate(slots, s, None, c);
      assert multiset(deck + [slots[s].value]) == multiset(deck) + multiset{slots[s].value};
    }
  }

  /** Taking the card of slot s out of the game changes no card's total. */
  lemma DiscardKeepsTotals(deck: seq<nat>, slots: seq<Option<nat>>, gone: multiset<nat>, s: nat)
    requires s < |slots| && slots[s].Some?
    ensures forall c: nat :: Total(deck, slots[s := None], gone + multiset{slots[s].value}, c) == Total(deck, slots, gone, c)
  {
    forall c: nat ensures Total(deck, slots[s := None], gone + multiset{slots[s].value}, c) == Total(deck, slots, gone, c) {
      CountUpdate(slots, s, None, c);
    }
  }

  /**
   * The cards a claim submits: the card under each claimed slot, in claim
   * order, in an array of `SetSize` entries whose unused tail stays 0.
   */
  function ClaimCards(slotToCard: seq<Option<nat>>, slots: seq<nat>): (cards: seq<nat>)
    requires |slots| <= SetSize
    requires forall k :: 0 <= k < |slots| ==> slots[k] < |slotToCard| && slotToCard[slots[k]].Some?
    ensures |cards| == SetSize
    ensures forall k :: 0 <= k < |slots| ==> slotToCard[slots[k]] == Some(cards[k])
    ensures forall k :: |slots| <= k < SetSize ==> cards[k] == 0
  {
    seq(SetSize, k requires 0 <= k < SetSize => if k < |slots| then slotToCard[slots[k]].value else 0)
  }

  /** Result of dealing: the new slot contents and what is left of the deck. */
  datatype Dealt = Dealt(slots: seq<Option<nat>>, deck: seq<nat>)

  /**
   * Visit the slots in `order`; every visited empty slot takes the card at the
   * front of the deck, while the deck lasts.
   */
  function Deal(slots: seq<Option<nat>>, deck: seq<nat>, order: seq<nat>): (r: Dealt)
    requires forall k :: 0 <= k < |order| ==> order[k] < |slots|
    ensures |r.slots| == |slots|
    // occupied slots keep their card, and slots not visited are left alone
    ensures forall s :: 0 <= s < |slots| && (slots[s].Some? || s !in order) ==> r.slots[s] == slots[s]
    // slots only ever gain a card
    ensures forall s :: 0 <= s < |slots| && slots[s].Some? ==> r.slots[s].Some?
    // the cards are taken from the front of the deck
    ensures |r.deck| <= |deck| && r.deck == deck[|deck| - |r.deck|..]
    decreases |order|
  {
    if order == [] then Dealt(slots, deck)
    else
      var s := order[0];
      if slots[s].None? && deck != [] then
        Deal(slots[s := Some(deck[0])], deck[1..], order[1..])
      else
        Deal(slots, deck, order[1..])
  }

  /** The front card of a deck counts once, the rest of the deck counts the rest. */
  lemma FrontCard(deck: seq<nat>, c: nat)
    requires deck != []
    ensures multiset(deck)[c] == multiset(deck[1..])[c] + (if deck[0] == c then 1 else 0)
  {
    assert deck == [deck[0]] + deck[1..];
  }

  /**
   * Dealing moves cards from the deck to the table: every card is, before and
   * after, as often in the deck plus on the table.
   */
  lemma {:induction false} DealConservesCards(slots: seq<Option<nat>>, deck: seq<nat>, order: seq<nat>, c: nat)
    requires forall k :: 0 <= k < |order| ==> order[k] < |slots|
    ensures var r := Deal(slots, deck, order);
      multiset(r.deck)[c] + Count(r.slots, c) == multiset(deck)[c] + Count(slots, c)
    decreases |order|
  {
    if order != [] {
      var s := order[0];
      if slots[s].None? && deck != [] {
        DealConservesCards(slots[s := Some(deck[0])], deck[1..], order[1..], c);
        CountUpdate(slots, s, Some(deck[0]), c);
        FrontCard(deck, c);
      } else {
        DealConservesCards(slots, deck, order[1..], c);
      }
    }
  }

  /** The deck shrinks by exactly the number of slots that were filled. */
  lemma {:induction false} DealCountsCards(slots: seq<Option<nat>>, deck: seq<nat>, order: seq<nat>)
    requires forall k :: 0 <= k < |order| ==> order[k] < |slots|
    ensures var r := Deal(slots, deck, order);
      |deck| - |r.deck| == Occupied(r.slots) - Occupied(slots)
    decreases |order|
  {
    if order != [] {
      var s := order[0];
      if slots[s].None? && deck != [] {
        DealCountsCards(slots[s := Some(deck[0])], deck[1..], order[1..]);
        OccupiedUpdate(slots, s, Some(deck[0]));
      } else {
        DealCountsCards(slots, deck, order[1..]);
      }
    }
  }

  /** After dealing, every visited slot holds a card, unless the deck ran out. */
  lemma {:induction false} DealLeavesNoGap(slots: seq<Option<nat>>, deck: seq<nat>, order: seq<nat>)
    requires forall k :: 0 <= k < |order| ==> order[k] < |slots|
    ensures var r := Deal(slots, deck, order);
      r.deck == [] || forall k :: 0 <= k < |order| ==> r.slots[order[k]].Some?
    decreases |order|
  {
    if order != [] {
      var s := order[0];
      var r := Deal(slots, deck, order);
      if slots[s].None? && deck != [] {
        DealLeavesNoGap(slots[s := Some(deck[0])], deck[1..], order[1..]);
      } else {
        DealLeavesNoGap(slots, deck, order[1..]);
      }
      if r.deck != [] {
        forall k | 0 <= k < |order|
          ensures r.slots[order[k]].Some?
        {
          if k > 0 {
            assert order[1..][k - 1] == order[k];
          }
        }
      }
    }
  }

  /** When the visit order covers every slot, a deal leaves the table full or the deck empty. */
  lemma DealFillsTable(slots: seq<Option<nat>>, deck: seq<nat>, order: seq<nat>)
    requires forall k :: 0 <= k < |order| ==> order[k] < |slots|
    requires forall s :: 0 <= s < |slots| ==> s in order
    ensures var r := Deal(slots, deck, order);
      r.deck == [] || forall s :: 0 <= s < |slots| ==> r.slots[s].Some?
  {
    DealLeavesNoGap(slots, deck, order);
    var r := Deal(slots, deck, order);
    if r.deck != [] {
      forall s | 0 <= s < |slots| ensures r.slots[s].Some? {
        assert s in order;
        var k :| 0 <= k < |order| && order[k] == s;
      }
    }
  }

  /** A table and deck equal to a deal's outcome are full, or the deck is spent. */
  lemma DealtFillsTable(slots: seq<Option<nat>>, deck: seq<nat>, order: seq<nat>, after: seq<Option<nat>>, rest: seq<nat>)
    requires forall k :: 0 <= k < |order| ==> order[k] < |slots|
    requires forall s :: 0 <= s < |slots| ==> s in order
    requires Dealt(after, rest) == Deal(slots, deck, order)
    ensures rest == [] || forall s :: 0 <= s < |slots| ==> after[s].Some?
  {
    DealFillsTable(slots, deck, order);
  }

  /** When every visited slot already holds a card, dealing changes nothing. */
  lemma {:induction false} DealOnFullTable(slots: seq<Option<nat>>, deck: seq<nat>, order: seq<nat>)
    requires forall k :: 0 <= k < |order| ==> order[k] < |slots|
    requires !HasEmptySlot(slots, order)
    ensures Deal(slots, deck, order) == Dealt(slots, deck)
    decreases |order|
  {
    if order != [] {
      assert slots[order[0]].Some?;
      assert !HasEmptySlot(slots, order[1..]) by {
        forall k | 0 <= k < |order[1..]| ensures slots[order[1..][k]].Some? {
          assert order[1..][k] == order[k + 1];
        }
      }
      DealOnFullTable(slots, deck, order[1..]);
    }
  }
}
