/**
 * Win counts and tie-break scores over the match history
 * (src/lib/match.ts, the four counters).
 *
 * Each counter is a method with the source's nested loops and early
 * `break`, proved equal to a recursive specification function; the
 * properties of the scores are lemmas about those functions.
 */
module Standings {
  import opened Types
  import opened PairOps

  /** `id` is the winner of some pair of the match. */
  predicate WonMatch(id: PlayerId, m: Match)
  {
    exists j :: 0 <= j < |m.pairList| && GetWinnerId(m.pairList[j]) == Some(id)
  }

  /**
   * The number of matches `id` won a pair in: at most one win is counted
   * per match, so the count never exceeds the number of matches.
   */
  function WinCount(id: PlayerId, matches: seq<Match>): (r: nat)
    ensures r <= |matches|
  {
    if matches == [] then 0
    else WinCount(id, matches[..|matches| - 1]) + (if WonMatch(id, matches[|matches| - 1]) then 1 else 0)
  }

  /** `getPlayerWinCount`. */
  method GetPlayerWinCount(playerId: PlayerId, matches: seq<Match>) returns (count: nat)
    ensures count == WinCount(playerId, matches)
  {
    count := 0;
    for i := 0 to |matches|
      invariant count == WinCount(playerId, matches[..i])
    {
      assert matches[..i + 1][..i] == matches[..i];
      var pairs := matches[i].pairList;
      var j := 0;
      while j < |pairs|
        invariant 0 <= j <= |pairs|
        invariant count == WinCount(playerId, matches[..i])
        invariant forall k :: 0 <= k < j ==> GetWinnerId(pairs[k]) != Some(playerId)
      {
        if GetWinnerId(pairs[j]) == Some(playerId) {
          count := count + 1;
          break;
        }
        j := j + 1;
      }
    }
    assert matches[..|matches|] == matches;
  }

  /**
   * The matches before the first one whose id is `matchId`; the whole
   * history when no match has that id.
   */
  function UntilMatch(matchId: MatchId, matches: seq<Match>): (r: seq<Match>)
    ensures r <= matches
    ensures forall k :: 0 <= k < |r| ==> r[k].id != matchId
    ensures |r| < |matches| ==> matches[|r|].id == matchId
  {
    if matches == [] || matches[0].id == matchId then []
    else [matches[0]] + UntilMatch(matchId, matches[1..])
  }

  lemma UntilMatchIsPrefix(matchId: MatchId, matches: seq<Match>, i: nat)
    requires i <= |matches|
    requires forall k :: 0 <= k < i ==> matches[k].id != matchId
    requires i < |matches| ==> matches[i].id == matchId
    ensures UntilMatch(matchId, matches) == matches[..i]
  {
    var r := UntilMatch(matchId, matches);
    if |r| < i {
      assert false;
    } else if |r| > i {
      assert false;
    }
  }

  /** `getPlayerWinCountUntilMatchId`: wins in the matches before `matchId`. */
  method GetPlayerWinCountUntilMatchId(playerId: PlayerId, matchId: MatchId, matches: seq<Match>)
    returns (count: nat)
    ensures count == WinCount(playerId, UntilMatch(matchId, matches))
  {
    count := 0;
    var i := 0;
    while i < |matches|
      invariant 0 <= i <= |matches|
      invariant forall k :: 0 <= k < i ==> matches[k].id != matchId
      invariant count == WinCount(playerId, matches[..i])
    {
      if matches[i].id == matchId {
        break;
      }
      assert matches[..i + 1][..i] == matches[..i];
      var pairs := matches[i].pairList;
      var j := 0;
      while j < |pairs|
        invariant 0 <= j <= |pairs|
        invariant count == WinCount(playerId, matches[..i])
        invariant forall k :: 0 <= k < j ==> GetWinnerId(pairs[k]) != Some(playerId)
      {
        if GetWinnerId(pairs[j]) == Some(playerId) {
          count := count + 1;
          break;
        }
        j := j + 1;
      }
      i := i + 1;
    }
    UntilMatchIsPrefix(matchId, matches, i);
  }

  /** When no match has the id, the wins before it are all the wins. */
  lemma UntilAbsentMatchCountsAll(playerId: PlayerId, matchId: MatchId, matches: seq<Match>)
    requires forall k :: 0 <= k < |matches| ==> matches[k].id != matchId
    ensures WinCount(playerId, UntilMatch(matchId, matches)) == WinCount(playerId, matches)
  {
    UntilMatchIsPrefix(matchId, matches, |matches|);
    assert matches[..|matches|] == matches;
  }

  /** Wins over a prefix of the history never exceed wins over all of it. */
  lemma {:induction false} WinCountPrefixMonotone(id: PlayerId, matches: seq<Match>, i: nat)
    requires i <= |matches|
    ensures WinCount(id, matches[..i]) <= WinCount(id, matches)
  {
    if i < |matches| {
      var init := matches[..|matches| - 1];
      assert init[..i] == matches[..i];
      WinCountPrefixMonotone(id, init, i);
    } else {
      assert matches[..i] == matches;
    }
  }

  /** The wins before a given match never exceed the total wins. */
  lemma WinsUntilAtMostWins(id: PlayerId, matchId: MatchId, matches: seq<Match>)
    ensures WinCount(id, UntilMatch(matchId, matches)) <= WinCount(id, matches)
  {
    var r := UntilMatch(matchId, matches);
    assert r == matches[..|r|];
    WinCountPrefixMonotone(id, matches, |r|);
  }

  /**
   * The opponent of `id` in the first pair of the list that yields a
   * truthy opponent id.
   */
  function FirstOpponent(id: PlayerId, pairs: seq<Pair>): (r: Option<PlayerId>)
    ensures r.Some? ==> Truthy(r)
    ensures r.Some? ==> exists j :: 0 <= j < |pairs| && GetOpponentId(pairs[j], id) == r
                          && forall k :: 0 <= k < j ==> !Truthy(GetOpponentId(pairs[k], id))
    ensures r.None? <==> forall j :: 0 <= j < |pairs| ==> !Truthy(GetOpponentId(pairs[j], id))
  {
    if pairs == [] then None
    else if Truthy(GetOpponentId(pairs[0], id)) then GetOpponentId(pairs[0], id)
    else
      var r := FirstOpponent(id, pairs[1..]);
      assert forall j :: 1 <= j < |pairs| ==> pairs[j] == pairs[1..][j - 1];
      if r.Some? then
        var j :| 0 <= j < |pairs[1..]| && GetOpponentId(pairs[1..][j], id) == r
                 && forall k :: 0 <= k < j ==> !Truthy(GetOpponentId(pairs[1..][k], id));
        assert GetOpponentId(pairs[j + 1], id) == r
               && forall k :: 0 <= k < j + 1 ==> !Truthy(GetOpponentId(pairs[k], id));
        r
      else r
  }

  /** The total wins of `id`'s opponent in each of `matches`, counted over `all`. */
  function OpponentWinSum(id: PlayerId, matches: seq<Match>, all: seq<Match>): nat
  {
    if matches == [] then 0
    else
      OpponentWinSum(id, matches[..|matches| - 1], all)
      + match FirstOpponent(id, matches[|matches| - 1].pairList)
        case Some(o) => WinCount(o, all)
        case None => 0
  }

  /** The opponents' wins (Buchholz-style score) of `id`. */
  function OpponentWinCount(id: PlayerId, matches: seq<Match>): nat
  {
    OpponentWinSum(id, matches, matches)
  }

  /** `getOpponentWinCount`. */
  method GetOpponentWinCount(id: PlayerId, matches: seq<Match>) returns (count: nat)
    ensures count == OpponentWinCount(id, matches)
  {
    count := 0;
    for i := 0 to |matches|
      invariant count == OpponentWinSum(id, matches[..i], matches)
    {
      assert matches[..i + 1][..i] == matches[..i];
      var pairs := matches[i].pairList;
      var j := 0;
      while j < |pairs|
        invariant 0 <= j <= |pairs|
        invariant count == OpponentWinSum(id, matches[..i], matches)
        invariant FirstOpponent(id, pairs) == FirstOpponent(id, pairs[j..])
      {
        assert pairs[j..][1..] == pairs[j + 1..];
        var opponentId := GetOpponentId(pairs[j], id);
        if Truthy(opponentId) {
          var wins := GetPlayerWinCount(opponentId.value, matches);
          count := count + wins;
          break;
        }
        j := j + 1;
      }
    }
    assert matches[..|matches|] == matches;
  }

  /**
   * The opponent of `id` in the first pair the list records `id` as
   * winning, with a truthy opponent id.
   */
  function FirstDefeated(id: PlayerId, pairs: seq<Pair>): (r: Option<PlayerId>)
    ensures r.Some? ==> Truthy(r)
    ensures r.Some? ==> exists j :: 0 <= j < |pairs| && GetWinnerId(pairs[j]) == Some(id) && GetOpponentId(pairs[j], id) == r
                          && forall k :: 0 <= k < j ==> !Defeats(id, pairs[k])
    ensures r.None? <==> forall j :: 0 <= j < |pairs| && GetWinnerId(pairs[j]) == Some(id) ==> !Truthy(GetOpponentId(pairs[j], id))
  {
    if pairs == [] then None
    else if Defeats(id, pairs[0]) then GetOpponentId(pairs[0], id)
    else
      var r := FirstDefeated(id, pairs[1..]);
      assert forall j :: 1 <= j < |pairs| ==> pairs[j] == pairs[1..][j - 1];
      if r.Some? then
        var j :| 0 <= j < |pairs[1..]| && GetWinnerId(pairs[1..][j]) == Some(id) && GetOpponentId(pairs[1..][j], id) == r
                 && forall k :: 0 <= k < j ==> !Defeats(id, pairs[1..][k]);
        assert GetWinnerId(pairs[j + 1]) == Some(id) && GetOpponentId(pairs[j + 1], id) == r
               && forall k :: 0 <= k < j + 1 ==> !Defeats(id, pairs[k]);
        r
      else r
  }

  /** `id` is recorded as the winner of `p`, against a truthy opponent id. */
  predicate Defeats(id: PlayerId, p: Pair)
  {
    GetWinnerId(p) == Some(id) && Truthy(GetOpponentId(p, id))
  }

  function DefeatedWinSum(id: PlayerId, matches: seq<Match>, all: seq<Match>): nat
  {
    if matches == [] then 0
    else
      DefeatedWinSum(id, matches[..|matches| - 1], all)
      + match FirstDefeated(id, matches[|matches| - 1].pairList)
        case Some(o) => WinCount(o, all)
        case None => 0
  }

  /** The wins of the opponents `id` defeated. */
  function DefeatedOpponentWinCount(id: PlayerId, matches: seq<Match>): nat
  {
    DefeatedWinSum(id, matches, matches)
  }

  /** `getDefeatedOpponentWinCount`. */
  method GetDefeatedOpponentWinCount(playerId: PlayerId, matches: seq<Match>) returns (count: nat)
    ensures count == DefeatedOpponentWinCount(playerId, matches)
  {
    count := 0;
    for i := 0 to |matches|
      invariant count == DefeatedWinSum(playerId, matches[..i], matches)
    {
      assert matches[..i + 1][..i] == matches[..i];
      var pairs := matches[i].pairList;
      var j := 0;
      while j < |pairs|
        invariant 0 <= j <= |pairs|
        invariant count == DefeatedWinSum(playerId, matches[..i], matches)
        invariant FirstDefeated(playerId, pairs) == FirstDefeated(playerId, pairs[j..])
      {
        assert pairs[j..][1..] == pairs[j + 1..];
        if GetWinnerId(pairs[j]) == Some(playerId) {
          var opponentId := GetOpponentId(pairs[j], playerId);
          if Truthy(opponentId) {
            var wins := GetPlayerWinCount(opponentId.value, matches);
            count := count + wins;
            break;
          }
          // The source reports a failed console assertion here and goes on.
        }
        j := j + 1;
      }
    }
    assert matches[..|matches|] == matches;
  }

  /** `id` is on at most one pair of the list. */
  predicate AtMostOnce(id: PlayerId, pairs: seq<Pair>)
  {
    forall j, k :: 0 <= j < k < |pairs| ==> !(HasPlayerInPair(id, pairs[j]) && HasPlayerInPair(id, pairs[k]))
  }

  /** In a match where `id` plays once, the defeated opponent is the opponent. */
  lemma {:induction false} DefeatedIsOpponent(id: PlayerId, pairs: seq<Pair>)
    requires AtMostOnce(id, pairs)
    requires FirstDefeated(id, pairs).Some?
    ensures FirstOpponent(id, pairs) == FirstDefeated(id, pairs)
  {
    var tail := pairs[1..];
    assert forall j :: 1 <= j < |pairs| ==> pairs[j] == tail[j - 1];
    if HasPlayerInPair(id, pairs[0]) {
      assert forall j :: 0 <= j < |tail| ==> !HasPlayerInPair(id, tail[j]);
      if !(GetWinnerId(pairs[0]) == Some(id) && Truthy(GetOpponentId(pairs[0], id))) {
        assert false;
      }
    } else {
      assert AtMostOnce(id, tail);
      DefeatedIsOpponent(id, tail);
    }
  }

  /** Every player is on at most one pair of every match. */
  ghost predicate OncePerMatch(matches: seq<Match>)
  {
    forall i, id :: 0 <= i < |matches| ==> AtMostOnce(id, matches[i].pairList)
  }

  lemma {:induction false} DefeatedSumAtMostOpponentSum(id: PlayerId, matches: seq<Match>, all: seq<Match>)
    requires forall i :: 0 <= i < |matches| ==> AtMostOnce(id, matches[i].pairList)
    ensures DefeatedWinSum(id, matches, all) <= OpponentWinSum(id, matches, all)
  {
    if matches != [] {
      var last := matches[|matches| - 1].pairList;
      DefeatedSumAtMostOpponentSum(id, matches[..|matches| - 1], all);
      if FirstDefeated(id, last).Some? {
        DefeatedIsOpponent(id, last);
      }
    }
  }

  /**
   * When nobody plays twice in one match, the defeated opponents' wins are
   * a part of the opponents' wins.
   */
  lemma DefeatedAtMostOpponentWins(id: PlayerId, matches: seq<Match>)
    requires OncePerMatch(matches)
    ensures DefeatedOpponentWinCount(id, matches) <= OpponentWinCount(id, matches)
  {
    DefeatedSumAtMostOpponentSum(id, matches, matches);
  }
}
