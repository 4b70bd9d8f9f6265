/**
 * Tokens: the (player, slot) relation kept twice, as the per-player slot lists
 * `playerToSlot` and the per-slot player lists `slotToPlayer`.
 */
module Tokens {
  import opened Cards

  /** No element occurs twice. */
  predicate NoDup(xs: seq<nat>)
  {
    forall i, j :: 0 <= i < j < |xs| ==> xs[i] != xs[j]
  }

  /** `xs` with `x` taken out (List.remove(Object) on a list without duplicates). */
  function Without(xs: seq<nat>, x: nat): (r: seq<nat>)
    ensures forall y :: y in r <==> y in xs && y != x
    ensures x !in xs ==> r == xs
  {
    if xs == [] then []
    else if xs[0] == x then Without(xs[1..], x)
    else [xs[0]] + Without(xs[1..], x)
  }

  /** The tail of a duplicate-free list is duplicate-free and does not hold the head. */
  lemma TailNoDup(xs: seq<nat>)
    requires NoDup(xs) && xs != []
    ensures NoDup(xs[1..]) && xs[0] !in xs[1..]
  {
    var tail := xs[1..];
    forall i, j | 0 <= i < j < |tail| ensures tail[i] != tail[j] {
      assert tail[i] == xs[i + 1] && tail[j] == xs[j + 1];
    }
  }

  /** Putting in front an element a duplicate-free list does not hold keeps it duplicate-free. */
  lemma ConsNoDup(x: nat, xs: seq<nat>)
    requires NoDup(xs) && x !in xs
    ensures NoDup([x] + xs)
  {
    var r := [x] + xs;
    forall i, j | 0 <= i < j < |r| ensures r[i] != r[j] {
      assert r[j] == xs[j - 1];
      if i > 0 {
        assert r[i] == xs[i - 1];
      }
    }
  }

  /** Taking an element out of a duplicate-free list keeps it duplicate-free and one shorter. */
  lemma {:induction false} WithoutNoDup(xs: seq<nat>, x: nat)
    requires NoDup(xs)
    ensures NoDup(Without(xs, x))
    ensures x in xs ==> |Without(xs, x)| == |xs| - 1
  {
    if xs != [] {
      TailNoDup(xs);
      WithoutNoDup(xs[1..], x);
      if xs[0] != x {
        ConsNoDup(xs[0], Without(xs[1..], x));
        assert x in xs ==> x in xs[1..];
      }
    }
  }

  /** `xs` with every element of `ys` taken out, one after the other. */
  function WithoutAll(xs: seq<nat>, ys: seq<nat>): (r: seq<nat>)
    ensures forall y :: y in r <==> y in xs && y !in ys
  {
    if ys == [] then xs else Without(WithoutAll(xs, ys[..|ys| - 1]), ys[|ys| - 1])
  }

  /** Taking an element out never lengthens a list, and shortens it when the element is there. */
  lemma {:induction false} WithoutShorter(xs: seq<nat>, x: nat)
    ensures |Without(xs, x)| <= |xs|
    ensures x in xs ==> |Without(xs, x)| < |xs|
  {
    if xs != [] {
      WithoutShorter(xs[1..], x);
      if xs[0] != x {
        assert x in xs ==> x in xs[1..];
      }
    }
  }

  /**
   * Taking a list of elements out never lengthens a list, and a list that
   * keeps its length keeps its contents.
   */
  lemma {:induction false} WithoutAllShrinks(xs: seq<nat>, ys: seq<nat>)
    ensures |WithoutAll(xs, ys)| <= |xs|
    ensures |WithoutAll(xs, ys)| == |xs| ==> WithoutAll(xs, ys) == xs
  {
    if ys != [] {
      var rest := WithoutAll(xs, ys[..|ys| - 1]);
      WithoutAllShrinks(xs, ys[..|ys| - 1]);
      WithoutShorter(rest, ys[|ys| - 1]);
    }
  }

  /** Removing the head of a duplicate-free list leaves its tail. */
  lemma {:induction false} WithoutHead(xs: seq<nat>)
    requires NoDup(xs) && xs != []
    ensures Without(xs, xs[0]) == xs[1..]
  {
    assert xs[0] !in xs[1..];
  }

  /** Index `index` with `x` appended to entry i. */
  function Add(index: seq<seq<nat>>, i: nat, x: nat): (r: seq<seq<nat>>)
    requires i < |index|
  {
    index[i := index[i] + [x]]
  }

  /** Index `index` with `x` taken out of entry i. */
  function Erase(index: seq<seq<nat>>, i: nat, x: nat): (r: seq<seq<nat>>)
    requires i < |index|
  {
    index[i := Without(index[i], x)]
  }

  /** Entry i of the index exists and lists x. */
  ghost predicate Has(index: seq<seq<nat>>, i: nat, x: nat)
  {
    i < |index| && x in index[i]
  }

  /** No player holds more than `SetSize` tokens, nor two on one slot. */
  ghost predicate SlotListsBounded(playerToSlot: seq<seq<nat>>)
  {
    forall p :: 0 <= p < |playerToSlot| ==> |playerToSlot[p]| <= SetSize && NoDup(playerToSlot[p])
  }

  /** No slot lists a player twice. */
  ghost predicate PlayerListsDistinct(slotToPlayer: seq<seq<nat>>)
  {
    forall s :: 0 <= s < |slotToPlayer| ==> NoDup(slotToPlayer[s])
  }

  /** Player p holds a token on slot s according to one index iff according to the other. */
  ghost predicate SameRelation(playerToSlot: seq<seq<nat>>, slotToPlayer: seq<seq<nat>>)
  {
    forall p: nat, s: nat :: Has(playerToSlot, p, s) <==> Has(slotToPlayer, s, p)
  }

  /**
   * The two indexes describe the same relation, neither lists an entry twice,
   * and no player holds more than `SetSize` tokens.
   */
  ghost predicate Mirrored(playerToSlot: seq<seq<nat>>, slotToPlayer: seq<seq<nat>>)
  {
    SlotListsBounded(playerToSlot) && PlayerListsDistinct(slotToPlayer)
    && SameRelation(playerToSlot, slotToPlayer)
  }

  /** After erasing x from entry i, exactly that one pair has left the index. */
  lemma HasErase(index: seq<seq<nat>>, i: nat, x: nat, j: nat, y: nat)
    requires i < |index|
    ensures Has(Erase(index, i, x), j, y) <==> Has(index, j, y) && !(j == i && y == x)
  {
    if j == i {
      assert Erase(index, i, x)[j] == Without(index[i], x);
    } else if j < |index| {
      assert Erase(index, i, x)[j] == index[j];
    }
  }

  /** After appending x to entry i, exactly that one pair has joined the index. */
  lemma HasAdd(index: seq<seq<nat>>, i: nat, x: nat, j: nat, y: nat)
    requires i < |index|
    ensures Has(Add(index, i, x), j, y) <==> Has(index, j, y) || (j == i && y == x)
  {
    if j == i {
      assert Add(index, i, x)[j] == index[i] + [x];
    } else if j < |index| {
      assert Add(index, i, x)[j] == index[j];
    }
  }

  /** Taking one token away keeps the indexes mirrored. */
  lemma EraseKeepsMirrored(playerToSlot: seq<seq<nat>>, slotToPlayer: seq<seq<nat>>, p: nat, s: nat)
    requires Mirrored(playerToSlot, slotToPlayer)
    requires p < |playerToSlot| && s < |slotToPlayer|
    ensures Mirrored(Erase(playerToSlot, p, s), Erase(slotToPlayer, s, p))
  {
    EraseKeepsBounded(playerToSlot, p, s);
    EraseKeepsDistinct(slotToPlayer, s, p);
    var pts, stp := Erase(playerToSlot, p, s), Erase(slotToPlayer, s, p);
    forall q: nat, t: nat ensures Has(pts, q, t) <==> Has(stp, t, q) {
      HasErase(playerToSlot, p, s, q, t);
      HasErase(slotToPlayer, s, p, t, q);
    }
  }

  lemma {:induction false} EraseKeepsBounded(playerToSlot: seq<seq<nat>>, p: nat, s: nat)
    requires SlotListsBounded(playerToSlot) && p < |playerToSlot|
    ensures SlotListsBounded(Erase(playerToSlot, p, s))
  {
    var pts := Erase(playerToSlot, p, s);
    WithoutNoDup(playerToSlot[p], s);
    forall q | 0 <= q < |pts| ensures |pts[q]| <= SetSize && NoDup(pts[q]) {
      if q == p {
        assert pts[q] == Without(playerToSlot[p], s);
      } else {
        assert pts[q] == playerToSlot[q];
      }
    }
  }

  lemma {:induction false} EraseKeepsDistinct(slotToPlayer: seq<seq<nat>>, s: nat, p: nat)
    requires PlayerListsDistinct(slotToPlayer) && s < |slotToPlayer|
    ensures PlayerListsDistinct(Erase(slotToPlayer, s, p))
  {
    var stp := Erase(slotToPlayer, s, p);
    WithoutNoDup(slotToPlayer[s], p);
    forall t | 0 <= t < |stp| ensures NoDup(stp[t]) {
      if t == s {
        assert stp[t] == Without(slotToPlayer[s], p);
      } else {
        assert stp[t] == slotToPlayer[t];
      }
    }
  }

  /** Adding a token the player does not hold, below the limit, keeps the indexes mirrored. */
  lemma AddKeepsMirrored(playerToSlot: seq<seq<nat>>, slotToPlayer: seq<seq<nat>>, p: nat, s: nat)
    requires Mirrored(playerToSlot, slotToPlayer)
    requires p < |playerToSlot| && s < |slotToPlayer|
    requires s !in playerToSlot[p] && |playerToSlot[p]| < SetSize
    ensures Mirrored(Add(playerToSlot, p, s), Add(slotToPlayer, s, p))
  {
    assert !Has(playerToSlot, p, s);
    assert p !in slotToPlayer[s] by {
      assert !Has(slotToPlayer, s, p);
    }
    AddKeepsBounded(playerToSlot, p, s);
    AddKeepsDistinct(slotToPlayer, s, p);
    var pts, stp := Add(playerToSlot, p, s), Add(slotToPlayer, s, p);
    forall q: nat, t: nat ensures Has(pts, q, t) <==> Has(stp, t, q) {
      HasAdd(playerToSlot, p, s, q, t);
      HasAdd(slotToPlayer, s, p, t, q);
    }
  }

  lemma {:induction false} AddKeepsBounded(playerToSlot: seq<seq<nat>>, p: nat, s: nat)
    requires SlotListsBounded(playerToSlot) && p < |playerToSlot|
    requires s !in playerToSlot[p] && |playerToSlot[p]| < SetSize
    ensures SlotListsBounded(Add(playerToSlot, p, s))
  {
    var pts := Add(playerToSlot, p, s);
    AppendNoDup(playerToSlot[p], s);
    forall q | 0 <= q < |pts| ensures |pts[q]| <= SetSize && NoDup(pts[q]) {
      if q == p {
        assert pts[q] == playerToSlot[p] + [s];
      } else {
        assert pts[q] == playerToSlot[q];
      }
    }
  }

  lemma {:induction false} AddKeepsDistinct(slotToPlayer: seq<seq<nat>>, s: nat, p: nat)
    requires PlayerListsDistinct(slotToPlayer) && s < |slotToPlayer| && p !in slotToPlayer[s]
    ensures PlayerListsDistinct(Add(slotToPlayer, s, p))
  {
    var stp := Add(slotToPlayer, s, p);
    AppendNoDup(slotToPlayer[s], p);
    forall t | 0 <= t < |stp| ensures NoDup(stp[t]) {
      if t == s {
        assert stp[t] == slotToPlayer[s] + [p];
      } else {
        assert stp[t] == slotToPlayer[t];
      }
    }
  }

  /** Appending an element a list does not hold keeps it duplicate-free. */
  lemma {:induction false} AppendNoDup(xs: seq<nat>, x: nat)
    requires NoDup(xs) && x !in xs
    ensures NoDup(xs + [x])
  {
    var r := xs + [x];
    forall i, j | 0 <= i < j < |r| ensures r[i] != r[j] {
      if j == |xs| { assert r[i] == xs[i]; }
    }
  }

  /**
   * A key press of player p on slot s, as the table applies it: the player's
   * token there is taken away, or else one is placed if the slot holds a card.
   * The table does not enforce the token limit itself: the caller may press a
   * slot it holds no token on only while it is below `SetSize` tokens.
   */
  function Toggle(playerToSlot: seq<seq<nat>>, slotToPlayer: seq<seq<nat>>, slotToCard: seq<Option<nat>>, p: nat, s: nat)
    : (r: (seq<seq<nat>>, seq<seq<nat>>))
    requires p < |playerToSlot| && s < |slotToPlayer| && s < |slotToCard|
    requires s in playerToSlot[p] || |playerToSlot[p]| < SetSize
    ensures |r.0| == |playerToSlot| && |r.1| == |slotToPlayer|
    // only the presser's slot list and the slot's player list change
    ensures forall q :: 0 <= q < |playerToSlot| && q != p ==> r.0[q] == playerToSlot[q]
    ensures forall t :: 0 <= t < |slotToPlayer| && t != s ==> r.1[t] == slotToPlayer[t]
    // the presser holds the slot afterwards iff it did not before and the slot holds a card
    ensures s in r.0[p] <==> s !in playerToSlot[p] && slotToCard[s].Some?
  {
    if s in playerToSlot[p] then (Erase(playerToSlot, p, s), Erase(slotToPlayer, s, p))
    else if slotToCard[s].Some? then (Add(playerToSlot, p, s), Add(slotToPlayer, s, p))
    else (playerToSlot, slotToPlayer)
  }

  /**
   * A toggle keeps the indexes mirrored, so a caller that respects the limit
   * never makes a player hold more than `SetSize` tokens.
   */
  lemma {:induction false} ToggleKeepsMirrored(playerToSlot: seq<seq<nat>>, slotToPlayer: seq<seq<nat>>, slotToCard: seq<Option<nat>>, p: nat, s: nat)
    requires Mirrored(playerToSlot, slotToPlayer)
    requires p < |playerToSlot| && s < |slotToPlayer| && s < |slotToCard|
    requires s in playerToSlot[p] || |playerToSlot[p]| < SetSize
    ensures var r := Toggle(playerToSlot, slotToPlayer, slotToCard, p, s);
      Mirrored(r.0, r.1)
  {
    if s in playerToSlot[p] {
      EraseKeepsMirrored(playerToSlot, slotToPlayer, p, s);
    } else if slotToCard[s].Some? {
      AddKeepsMirrored(playerToSlot, slotToPlayer, p, s);
    }
  }

  /**
   * Toggling the same slot twice gives the player back the same set of tokens;
   * if the first toggle placed a token, both indexes are back exactly as they
   * were.
   */
  lemma {:induction false} ToggleTwice(playerToSlot: seq<seq<nat>>, slotToPlayer: seq<seq<nat>>, slotToCard: seq<Option<nat>>, p: nat, s: nat)
    requires Mirrored(playerToSlot, slotToPlayer)
    requires p < |playerToSlot| && s < |slotToPlayer| && s < |slotToCard|
    requires s in playerToSlot[p] || |playerToSlot[p]| < SetSize
    requires slotToCard[s].Some?
    // the second press respects the limit too
    ensures var once := Toggle(playerToSlot, slotToPlayer, slotToCard, p, s);
      s in once.0[p] || |once.0[p]| < SetSize
    ensures var once := Toggle(playerToSlot, slotToPlayer, slotToCard, p, s);
      var twice := Toggle(once.0, once.1, slotToCard, p, s);
      (forall q, t :: Has(twice.0, q, t) <==> Has(playerToSlot, q, t))
      && (forall q, t :: Has(twice.1, t, q) <==> Has(slotToPlayer, t, q))
      && (s !in playerToSlot[p] ==> twice == (playerToSlot, slotToPlayer))
  {
    var once := Toggle(playerToSlot, slotToPlayer, slotToCard, p, s);
    WithoutNoDup(playerToSlot[p], s);
    var twice := Toggle(once.0, once.1, slotToCard, p, s);
    if s in playerToSlot[p] {
      assert once == (Erase(playerToSlot, p, s), Erase(slotToPlayer, s, p));
      assert s !in once.0[p] && |once.0[p]| < SetSize;
      assert twice == (Add(once.0, p, s), Add(once.1, s, p));
      assert Has(slotToPlayer, s, p);
      forall q: nat, t: nat ensures Has(twice.0, q, t) <==> Has(playerToSlot, q, t) {
        HasErase(playerToSlot, p, s, q, t);
        HasAdd(once.0, p, s, q, t);
      }
      forall q: nat, t: nat ensures Has(twice.1, t, q) <==> Has(slotToPlayer, t, q) {
        HasErase(slotToPlayer, s, p, t, q);
        HasAdd(once.1, s, p, t, q);
      }
    } else {
      assert !Has(slotToPlayer, s, p);
      assert once == (Add(playerToSlot, p, s), Add(slotToPlayer, s, p));
      assert s in once.0[p];
      assert twice == (Erase(once.0, p, s), Erase(once.1, s, p));
      WithoutAppended(playerToSlot[p], s);
      WithoutAppended(slotToPlayer[s], p);
      assert twice.0 == playerToSlot;
      assert twice.1 == slotToPlayer;
    }
  }

  /** Taking away an element that was just appended to a list not holding it restores the list. */
  lemma {:induction false} WithoutAppended(xs: seq<nat>, x: nat)
    requires x !in xs
    ensures Without(xs + [x], x) == xs
  {
    if xs != [] {
      assert (xs + [x])[1..] == xs[1..] + [x];
      WithoutAppended(xs[1..], x);
    }
  }

  /** An index of n empty lists. */
  function NoTokens(n: nat): (index: seq<seq<nat>>)
    ensures |index| == n && forall i :: 0 <= i < n ==> index[i] == []
  {
    seq(n, _ => [])
  }

  /** Two indexes without any token are mirrored. */
  lemma EmptyMirrored(players: nat, slots: nat)
    ensures Mirrored(NoTokens(players), NoTokens(slots))
  {
    forall p: nat, s: nat ensures !Has(NoTokens(players), p, s) && !Has(NoTokens(slots), s, p) {
    }
  }

  /**
   * A player that holds `SetSize` tokens and is not waiting for a verdict has
   * pending presses only on slots it holds a token on; `tokens` is its slot
   * list.
   */
  ghost predicate PendingHeld(awaiting: bool, queue: seq<nat>, tokens: seq<nat>)
  {
    !awaiting && |tokens| == SetSize ==> forall k :: 0 <= k < |queue| ==> queue[k] in tokens
  }

  /** Taking tokens away from a player never breaks the previous property. */
  lemma PendingHeldAfterRemoval(awaiting: bool, queue: seq<nat>, tokens: seq<nat>, ys: seq<nat>)
    requires PendingHeld(awaiting, queue, tokens) && |tokens| <= SetSize
    ensures PendingHeld(awaiting, queue, WithoutAll(tokens, ys))
  {
    WithoutAllShrinks(tokens, ys);
  }

  /** Every token lies on a slot that holds a card. */
  ghost predicate TokensOnCards(playerToSlot: seq<seq<nat>>, slotToCard: seq<Option<nat>>)
  {
    forall p, k :: 0 <= p < |playerToSlot| && 0 <= k < |playerToSlot[p]| ==>
      playerToSlot[p][k] < |slotToCard| && slotToCard[playerToSlot[p][k]].Some?
  }

  /** The same, stated for token membership. */
  lemma TokenOnCard(playerToSlot: seq<seq<nat>>, slotToCard: seq<Option<nat>>, p: nat, s: nat)
    requires TokensOnCards(playerToSlot, slotToCard) && Has(playerToSlot, p, s)
    ensures s < |slotToCard| && slotToCard[s].Some?
  {
    var k :| 0 <= k < |playerToSlot[p]| && playerToSlot[p][k] == s;
  }

  /** A key press never puts a token on a slot without a card. */
  lemma ToggleKeepsTokensOnCards(playerToSlot: seq<seq<nat>>, slotToPlayer: seq<seq<nat>>, slotToCard: seq<Option<nat>>, p: nat, s: nat)
    requires TokensOnCards(playerToSlot, slotToCard)
    requires p < |playerToSlot| && s < |slotToPlayer| && s < |slotToCard|
    requires s in playerToSlot[p] || |playerToSlot[p]| < SetSize
    ensures TokensOnCards(Toggle(playerToSlot, slotToPlayer, slotToCard, p, s).0, slotToCard)
  {
    var r := Toggle(playerToSlot, slotToPlayer, slotToCard, p, s).0;
    forall q, k | 0 <= q < |r| && 0 <= k < |r[q]| ensures r[q][k] < |slotToCard| && slotToCard[r[q][k]].Some? {
      var t := r[q][k];
      assert Has(r, q, t);
      if s in playerToSlot[p] {
        HasErase(playerToSlot, p, s, q, t);
        TokenOnCard(playerToSlot, slotToCard, q, t);
      } else if slotToCard[s].Some? {
        HasAdd(playerToSlot, p, s, q, t);
        if !(q == p && t == s) {
          TokenOnCard(playerToSlot, slotToCard, q, t);
        }
      } else {
        TokenOnCard(playerToSlot, slotToCard, q, t);
      }
    }
  }
}
