/**
 * The standings table (src/components/rankTable.tsx): one row per player
 * with the three scores, sorted by wins, then opponents' wins, then the
 * wins of defeated opponents, then the head-to-head result.
 *
 * The last resort of the comparator, `Math.random() - 0.5`, is read as 0
 * (either order will do).
 */
module RankTable {
  import opened Types
  import opened PairOps
  import opened Sorting
  import opened Standings

  /** One row of the table. */
  datatype CellInfo = CellInfo(
    name: string,
    id: PlayerId,
    winCount: nat,
    opponentWinCount: nat,
    defeatedOpponentWinCount: nat)

  /** `cellInfos`: the rows, in player order, each with its player's scores. */
  function CellInfos(players: seq<Player>, matches: seq<Match>): (rows: seq<CellInfo>)
    ensures |rows| == |players|
    ensures forall i :: 0 <= i < |players| ==>
      && rows[i].name == players[i].name && rows[i].id == players[i].id
      && rows[i].winCount == WinCount(players[i].id, matches)
      && rows[i].opponentWinCount == OpponentWinCount(players[i].id, matches)
      && rows[i].defeatedOpponentWinCount == DefeatedOpponentWinCount(players[i].id, matches)
  {
    seq(|players|, i requires 0 <= i < |players| =>
      CellInfo(players[i].name, players[i].id,
               WinCount(players[i].id, matches),
               OpponentWinCount(players[i].id, matches),
               DefeatedOpponentWinCount(players[i].id, matches)))
  }

  /** The winner of the first decided pair of `a` and `b` in a pair list. */
  function FirstDecidedIn(a: PlayerId, b: PlayerId, pairs: seq<Pair>): (r: Option<PlayerId>)
    ensures r.Some? ==> r.value != "" && (r.value == a || r.value == b)
    ensures r.Some? ==> exists j :: 0 <= j < |pairs| && Decided(a, b, pairs[j]) && GetWinnerId(pairs[j]) == r
                                  && forall k :: 0 <= k < j ==> !Decided(a, b, pairs[k])
    ensures r.Some? <==> exists k :: 0 <= k < |pairs| && Decided(a, b, pairs[k])
  {
    if pairs == [] then None
    else if Decided(a, b, pairs[0]) then GetWinnerId(pairs[0])
    else
      var r := FirstDecidedIn(a, b, pairs[1..]);
      assert forall k :: 1 <= k < |pairs| ==> pairs[k] == pairs[1..][k - 1];
      if r.Some? then
        var j :| 0 <= j < |pairs[1..]| && Decided(a, b, pairs[1..][j]) && GetWinnerId(pairs[1..][j]) == r
                 && forall k :: 0 <= k < j ==> !Decided(a, b, pairs[1..][k]);
        assert Decided(a, b, pairs[j + 1]) && GetWinnerId(pairs[j + 1]) == r
               && forall k :: 0 <= k < j + 1 ==> !Decided(a, b, pairs[k]);
        r
      else r
  }

  /** `p` is a pair of `a` and `b` with a recorded winner. */
  predicate Decided(a: PlayerId, b: PlayerId, p: Pair)
  {
    ExistPair(a, b, p) && Truthy(GetWinnerId(p))
  }

  /**
   * The winner of the first decided game between `a` and `b`, scanning the
   * matches in order and each match's pairs in order.
   */
  function FirstDecided(a: PlayerId, b: PlayerId, matches: seq<Match>): (r: Option<PlayerId>)
    ensures r.Some? ==> r.value != "" && (r.value == a || r.value == b)
    ensures r.Some? ==> exists i :: 0 <= i < |matches| && FirstDecidedIn(a, b, matches[i].pairList) == r
                                  && forall k :: 0 <= k < i ==> Undecided(a, b, matches[k])
    ensures r.None? <==> forall i :: 0 <= i < |matches| ==> Undecided(a, b, matches[i])
  {
    if matches == [] then None
    else if !Undecided(a, b, matches[0]) then FirstDecidedIn(a, b, matches[0].pairList)
    else
      var r := FirstDecided(a, b, matches[1..]);
      if r.Some? then
        var i :| 0 <= i < |matches[1..]| && FirstDecidedIn(a, b, matches[1..][i].pairList) == r
                 && forall k :: 0 <= k < i ==> Undecided(a, b, matches[1..][k]);
        UndecidedPrefixShift(a, b, matches, i);
        r
      else
        UndecidedAllShift(a, b, matches);
        r
  }

  /** A first decided match of the tail, behind an undecided head, is first in the whole list. */
  lemma UndecidedPrefixShift(a: PlayerId, b: PlayerId, matches: seq<Match>, i: nat)
    requires 0 <= i < |matches| - 1 && Undecided(a, b, matches[0])
    requires forall k :: 0 <= k < i ==> Undecided(a, b, matches[1..][k])
    ensures matches[i + 1] == matches[1..][i]
    ensures forall k :: 0 <= k < i + 1 ==> Undecided(a, b, matches[k])
  {
    assert forall k :: 1 <= k < i + 1 ==> matches[k] == matches[1..][k - 1];
  }

  /** An undecided head in front of an all-undecided tail leaves the whole list undecided. */
  lemma UndecidedAllShift(a: PlayerId, b: PlayerId, matches: seq<Match>)
    requires matches != [] && Undecided(a, b, matches[0])
    ensures (forall k :: 0 <= k < |matches| - 1 ==> Undecided(a, b, matches[1..][k]))
            <==> (forall k :: 0 <= k < |matches| ==> Undecided(a, b, matches[k]))
  {
    assert forall k :: 1 <= k < |matches| ==> matches[k] == matches[1..][k - 1];
  }

  /** `a` and `b` have no decided pair in match `m`. */
  predicate Undecided(a: PlayerId, b: PlayerId, m: Match)
  {
    FirstDecidedIn(a, b, m.pairList).None?
  }

  /** Who scans first does not matter: a pair of `a` and `b` is a pair of `b` and `a`. */
  lemma {:induction false} FirstDecidedInSymmetric(a: PlayerId, b: PlayerId, pairs: seq<Pair>)
    ensures FirstDecidedIn(a, b, pairs) == FirstDecidedIn(b, a, pairs)
  {
    if pairs != [] {
      FirstDecidedInSymmetric(a, b, pairs[1..]);
    }
  }

  lemma {:induction false} FirstDecidedSymmetric(a: PlayerId, b: PlayerId, matches: seq<Match>)
    ensures FirstDecided(a, b, matches) == FirstDecided(b, a, matches)
  {
    if matches != [] {
      FirstDecidedInSymmetric(a, b, matches[0].pairList);
      FirstDecidedSymmetric(a, b, matches[1..]);
    }
  }

  /** The head-to-head step: -1 when `a` won, 1 when `b` won, 0 when they never finished a game. */
  function HeadToHead(a: PlayerId, b: PlayerId, matches: seq<Match>): (c: int)
    ensures c == -1 <==> FirstDecided(a, b, matches) == Some(a)
    ensures a != b ==> (c == 1 <==> FirstDecided(a, b, matches) == Some(b))
    ensures c == 0 <==> FirstDecided(a, b, matches) == None
  {
    match FirstDecided(a, b, matches)
    case None => 0
    case Some(w) => if w == a then -1 else if w == b then 1 else 0
  }

  /** The head-to-head loops, with their early returns. */
  method HeadToHeadLoop(a: PlayerId, b: PlayerId, matches: seq<Match>) returns (c: int)
    ensures c == HeadToHead(a, b, matches)
  {
    for i := 0 to |matches|
      invariant FirstDecided(a, b, matches[i..]) == FirstDecided(a, b, matches)
    {
      assert matches[i..][1..] == matches[i + 1..];
      var pairs := matches[i].pairList;
      for j := 0 to |pairs|
        invariant FirstDecidedIn(a, b, pairs[j..]) == FirstDecidedIn(a, b, pairs)
      {
        assert pairs[j..][1..] == pairs[j + 1..];
        if ExistPair(a, b, pairs[j]) {
          var winner := GetWinnerId(pairs[j]);
          if Truthy(winner) {
            if winner.value == a {
              return -1;
            } else if winner.value == b {
              return 1;
            } else {
              return 0;
            }
          }
        }
      }
      assert pairs[|pairs|..] == [];
    }
    assert matches[|matches|..] == [];
    return 0;
  }

  /** `a` ranks strictly above `b` by the three scores, compared in order, larger first. */
  predicate ScoreAbove(a: CellInfo, b: CellInfo)
  {
    || a.winCount > b.winCount
    || (a.winCount == b.winCount && a.opponentWinCount > b.opponentWinCount)
    || (a.winCount == b.winCount && a.opponentWinCount == b.opponentWinCount
        && a.defeatedOpponentWinCount > b.defeatedOpponentWinCount)
  }

  predicate SameScores(a: CellInfo, b: CellInfo)
  {
    a.winCount == b.winCount && a.opponentWinCount == b.opponentWinCount
    && a.defeatedOpponentWinCount == b.defeatedOpponentWinCount
  }

  /**
   * The comparator of `rankedCellInfos`: the row with the better scores
   * first; on equal scores, the winner of the first finished game between
   * the two.
   */
  function RankCompare(matches: seq<Match>, a: CellInfo, b: CellInfo): (c: int)
    ensures ScoreAbove(a, b) ==> c < 0
    ensures ScoreAbove(b, a) ==> c > 0
    ensures SameScores(a, b) ==> (c < 0 <==> FirstDecided(a.id, b.id, matches) == Some(a.id))
    ensures SameScores(a, b) && a.id != b.id ==> (c > 0 <==> FirstDecided(a.id, b.id, matches) == Some(b.id))
  {
    if b.winCount != a.winCount then b.winCount - a.winCount
    else if b.opponentWinCount != a.opponentWinCount then b.opponentWinCount - a.opponentWinCount
    else if b.defeatedOpponentWinCount != a.defeatedOpponentWinCount then
      b.defeatedOpponentWinCount - a.defeatedOpponentWinCount
    else HeadToHead(a.id, b.id, matches)
  }

  /** Swapping the two rows negates the comparator, for rows of different players. */
  lemma RankCompareAntisymmetric(matches: seq<Match>, a: CellInfo, b: CellInfo)
    requires a.id != b.id
    ensures RankCompare(matches, b, a) == -RankCompare(matches, a, b)
  {
    FirstDecidedSymmetric(a.id, b.id, matches);
  }

  /** `a` may stand before `b` in the ranking: its scores are not worse. */
  predicate RanksFirst(a: CellInfo, b: CellInfo)
  {
    !ScoreAbove(b, a)
  }

  /** `rankedCellInfos`. */
  function RankedCellInfos(players: seq<Player>, matches: seq<Match>): (ranked: seq<CellInfo>)
    ensures multiset(ranked) == multiset(CellInfos(players, matches))
  {
    Sort(CellInfos(players, matches), (a, b) => RankCompare(matches, a, b))
  }

  /**
   * The ranking holds every row once and orders the rows by the three
   * scores: a row never stands above one with better scores.
   */
  lemma RankingOrdered(players: seq<Player>, matches: seq<Match>)
    ensures |RankedCellInfos(players, matches)| == |players|
    ensures SortedBy(RankedCellInfos(players, matches), RanksFirst)
  {
    var rows := CellInfos(players, matches);
    var cmp := (a, b) => RankCompare(matches, a, b);
    assert TotalPreorderOn(rows, RanksFirst);
    assert RespectsOn(rows, cmp, RanksFirst);
    SortSorted(rows, cmp, RanksFirst);
    assert |multiset(RankedCellInfos(players, matches))| == |multiset(rows)|;
  }
}
