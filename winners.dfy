/** Who wins: every player whose score equals the highest score, in player order. */
module Winners {
  import opened Cards

  /** The highest of the scores, or 0 when there are none. */
  function MaxScore(scores: seq<nat>): (m: nat)
    ensures forall i :: 0 <= i < |scores| ==> scores[i] <= m
    ensures m == 0 || exists i :: 0 <= i < |scores| && scores[i] == m
  {
    if scores == [] then 0
    else
      var rest := MaxScore(scores[..|scores| - 1]);
      if scores[|scores| - 1] > rest then scores[|scores| - 1] else rest
  }

  /** The positions, in increasing order, whose score is `top`. */
  function TopScorers(scores: seq<nat>, top: nat): (ids: seq<nat>)
    ensures |ids| <= |scores|
  {
    if scores == [] then []
    else
      var n := |scores| - 1;
      TopScorers(scores[..n], top) + (if scores[n] == top then [n] else [])
  }

  /** A position is listed exactly when its score is `top`. */
  lemma {:induction false} TopScorersMembers(scores: seq<nat>, top: nat)
    ensures forall i :: i in TopScorers(scores, top) <==> 0 <= i < |scores| && scores[i] == top
  {
    if scores != [] {
      var n := |scores| - 1;
      TopScorersMembers(scores[..n], top);
    }
  }

  predicate Ascending(xs: seq<nat>)
  {
    forall j, k :: 0 <= j < k < |xs| ==> xs[j] < xs[k]
  }

  /** The top scorers are listed in strictly increasing order, so each at most once. */
  lemma {:induction false} TopScorersAscending(scores: seq<nat>, top: nat)
    ensures Ascending(TopScorers(scores, top))
  {
    if scores != [] {
      var n := |scores| - 1;
      var rest := TopScorers(scores[..n], top);
      TopScorersAscending(scores[..n], top);
      TopScorersMembers(scores[..n], top);
      var ids := TopScorers(scores, top);
      assert ids == rest + (if scores[n] == top then [n] else []);
      forall j, k | 0 <= j < k < |ids| ensures ids[j] < ids[k] {
        assert ids[j] == rest[j] && rest[j] in rest;
        assert rest[j] < |scores[..n]|;
        if k < |rest| {
          assert ids[k] == rest[k];
          assert rest[j] < rest[k];
        } else {
          assert ids[k] == n;
        }
      }
    }
  }

  /** Looking at one more score adds that player to the top scorers exactly when the score is `top`. */
  lemma TopScorersStep(scores: seq<nat>, top: nat, i: nat)
    requires i < |scores|
    ensures TopScorers(scores[..i + 1], top) == TopScorers(scores[..i], top) + (if scores[i] == top then [i] else [])
  {
    assert scores[..i + 1][..i] == scores[..i];
  }

  /** The winners of a game with these scores. */
  function Winners(scores: seq<nat>): (ids: seq<nat>)
  {
    TopScorers(scores, MaxScore(scores))
  }

  /** A player wins iff no player has a higher score. */
  lemma WinnersAreBest(scores: seq<nat>, i: nat)
    ensures i in Winners(scores) <==> i < |scores| && forall j :: 0 <= j < |scores| ==> scores[j] <= scores[i]
  {
    var m := MaxScore(scores);
    TopScorersMembers(scores, m);
    if i < |scores| && forall j :: 0 <= j < |scores| ==> scores[j] <= scores[i] {
      if m != 0 {
        var k :| 0 <= k < |scores| && scores[k] == m;
        assert scores[k] <= scores[i];
      }
    }
  }

  /** A game with at least one player has at least one winner. */
  lemma WinnersNonEmpty(scores: seq<nat>)
    requires |scores| > 0
    ensures |Winners(scores)| > 0
  {
    var m := MaxScore(scores);
    TopScorersMembers(scores, m);
    if m == 0 {
      assert 0 in Winners(scores);
    } else {
      var k :| 0 <= k < |scores| && scores[k] == m;
      assert k in Winners(scores);
    }
  }

  /** When nobody scored, everybody wins. */
  lemma {:induction false} NoPointsAllWin(scores: seq<nat>)
    requires forall i :: 0 <= i < |scores| ==> scores[i] == 0
    ensures Winners(scores) == Range(|scores|)
  {
    assert MaxScore(scores) == 0;
    AllAtTop(scores, 0);
  }

  lemma {:induction false} AllAtTop(scores: seq<nat>, top: nat)
    requires forall i :: 0 <= i < |scores| ==> scores[i] == top
    ensures TopScorers(scores, top) == Range(|scores|)
  {
    if scores != [] {
      var n := |scores| - 1;
      AllAtTop(scores[..n], top);
      assert Range(n + 1) == Range(n) + [n];
    }
  }

  /** A prefix of the scores has no more top scorers than the whole. */
  lemma {:induction false} TopScorersGrow(scores: seq<nat>, top: nat, i: nat)
    requires i <= |scores|
    ensures |TopScorers(scores[..i], top)| <= |TopScorers(scores, top)|
  {
    if i < |scores| {
      var n := |scores| - 1;
      assert scores[..n][..i] == scores[..i];
      TopScorersGrow(scores[..n], top, i);
    } else {
      assert scores[..i] == scores;
    }
  }
}
