/**
 * The tournament page's two match handlers (src/app/page.tsx): making the
 * next match and recording a result by clicking a player.
 *
 * The page keeps the players and the match history as component state; it
 * is modelled as a class whose two fields the handlers reassign. `alert`
 * becomes the handler's returned `Notice`; `makeId` becomes the `matchId`
 * and `newId` parameters handed to the draw.
 */
module Page {
  import opened Types
  import opened Util
  import opened PairOps
  import opened History
  import opened SwissPairing

  // ---------------------------------------------------------------------
  // Recording a result

  /**
   * The `handleWin` update of one pair: clicking the current winner clears
   * the result; clicking anyone else gives the win to the side they are on
   * (and clears it when they are on neither side).
   */
  function ToggledPair(pair: Pair, newWinnerId: PlayerId): (r: Pair)
    ensures r.left == pair.left && r.right == pair.right && r.id == pair.id
    ensures GetWinnerId(pair) == Some(newWinnerId) ==> r.winner == NoWinner
    ensures GetWinnerId(pair) != Some(newWinnerId) && pair.left == newWinnerId ==> r.winner == Left
    ensures GetWinnerId(pair) != Some(newWinnerId) && pair.left != newWinnerId && pair.right == newWinnerId ==> r.winner == Right
    ensures pair.left != newWinnerId && pair.right != newWinnerId ==> r.winner == NoWinner
  {
    if GetWinnerId(pair) == Some(newWinnerId) then pair.(winner := NoWinner)
    else pair.(winner := GetSide(pair, newWinnerId))
  }

  /** Clicking the same player twice restores a pair that was undecided or already won by that player's side. */
  lemma ToggleTwiceRestores(pair: Pair, id: PlayerId)
    requires pair.winner == NoWinner || pair.winner == GetSide(pair, id)
    ensures ToggledPair(ToggledPair(pair, id), id) == pair
  {
  }

  /**
   * A pair the other side had won is not restored: the first click gives
   * the win to the clicked player, the second clears it.
   */
  lemma ToggleTwiceOverridesOtherSide(pair: Pair, id: PlayerId)
    requires pair.left == id && pair.right != id && pair.winner == Right
    ensures ToggledPair(pair, id).winner == Left
    ensures ToggledPair(ToggledPair(pair, id), id).winner == NoWinner
    ensures ToggledPair(ToggledPair(pair, id), id) != pair
  {
  }

  /** The pair list of one match after the click: only the pair with `pairId` is toggled. */
  function ToggledPairs(pairs: seq<Pair>, newWinnerId: PlayerId, pairId: PairId): (r: seq<Pair>)
    ensures |r| == |pairs|
    ensures forall k :: 0 <= k < |pairs| ==>
      r[k] == (if pairs[k].id == pairId then ToggledPair(pairs[k], newWinnerId) else pairs[k])
  {
    seq(|pairs|, k requires 0 <= k < |pairs| =>
      if pairs[k].id == pairId then ToggledPair(pairs[k], newWinnerId) else pairs[k])
  }

  /** The history after `handleWin`: the targeted pair of the targeted match is toggled. */
  function WinToggled(matches: seq<Match>, newWinnerId: PlayerId, matchId: MatchId, pairId: PairId): (r: seq<Match>)
    ensures |r| == |matches|
    ensures forall i :: 0 <= i < |matches| ==>
      r[i] == (if matches[i].id == matchId then matches[i].(pairList := ToggledPairs(matches[i].pairList, newWinnerId, pairId))
               else matches[i])
  {
    seq(|matches|, i requires 0 <= i < |matches| =>
      if matches[i].id == matchId then matches[i].(pairList := ToggledPairs(matches[i].pairList, newWinnerId, pairId))
      else matches[i])
  }

  /**
   * Only the pair with the matching match id and pair id changes, and only
   * its winner; every match keeps its id and its number of pairs, and the
   * order of matches and pairs is kept.
   */
  lemma OnlyTargetChanges(matches: seq<Match>, newWinnerId: PlayerId, matchId: MatchId, pairId: PairId)
    ensures var r := WinToggled(matches, newWinnerId, matchId, pairId);
      && |r| == |matches|
      && (forall i :: 0 <= i < |matches| ==> r[i].id == matches[i].id && |r[i].pairList| == |matches[i].pairList|)
      && (forall i, k :: 0 <= i < |matches| && 0 <= k < |matches[i].pairList| ==>
            var p := matches[i].pairList[k];
            var q := r[i].pairList[k];
            && q.left == p.left && q.right == p.right && q.id == p.id
            && (q.winner != p.winner ==> matches[i].id == matchId && p.id == pairId))
  {
  }

  // ---------------------------------------------------------------------
  // Making the next match

  /** Some pair of the history is still undecided. */
  predicate AnyUndecided(matches: seq<Match>)
  {
    exists i, k :: 0 <= i < |matches| && 0 <= k < |matches[i].pairList| && matches[i].pairList[k].winner == NoWinner
  }

  /** The history check of `handleMakeMatch`: the nested loops with their early return. */
  method HasUndecidedPair(matches: seq<Match>) returns (undecided: bool)
    ensures undecided <==> AnyUndecided(matches)
  {
    for i := 0 to |matches|
      invariant forall i', k :: 0 <= i' < i && 0 <= k < |matches[i'].pairList| ==> matches[i'].pairList[k].winner != NoWinner
    {
      var pairs := matches[i].pairList;
      for k := 0 to |pairs|
        invariant forall k' :: 0 <= k' < k ==> pairs[k'].winner != NoWinner
      {
        if pairs[k].winner == NoWinner {
          return true;
        }
      }
    }
    return false;
  }

  /**
   * The bye step for an odd field: a pair with the ghost on the left is won
   * by the right side, one with the ghost on the right by the left side.
   */
  function ResolveByes(pairs: seq<Pair>, ghostId: PlayerId): (r: seq<Pair>)
    ensures |r| == |pairs|
    ensures forall k :: 0 <= k < |pairs| ==>
      && r[k].left == pairs[k].left && r[k].right == pairs[k].right && r[k].id == pairs[k].id
      && (pairs[k].left == ghostId ==> r[k].winner == Right)
      && (pairs[k].left != ghostId && pairs[k].right == ghostId ==> r[k].winner == Left)
      && (pairs[k].left != ghostId && pairs[k].right != ghostId ==> r[k] == pairs[k])
  {
    seq(|pairs|, k requires 0 <= k < |pairs| =>
      if pairs[k].left == ghostId then pairs[k].(winner := Right)
      else if pairs[k].right == ghostId then pairs[k].(winner := Left)
      else pairs[k])
  }

  /** The bye loop of `handleMakeMatch`, assigning `winner` in place on each pair of the drawn match. */
  method ResolveByesInPlace(pairs: array<Pair>, ghostId: PlayerId)
    modifies pairs
    ensures pairs[..] == ResolveByes(old(pairs[..]), ghostId)
  {
    for k := 0 to pairs.Length
      invariant pairs[k..] == old(pairs[k..])
      invariant pairs[..k] == ResolveByes(old(pairs[..]), ghostId)[..k]
    {
      if pairs[k].left == ghostId {
        pairs[k] := pairs[k].(winner := Right);
      } else if pairs[k].right == ghostId {
        pairs[k] := pairs[k].(winner := Left);
      }
    }
  }

  /** A ghost's opponent wins the bye: the pair's winner is the player who is not the ghost. */
  lemma ByeGoesToOpponent(pairs: seq<Pair>, ghostId: PlayerId, k: nat)
    requires k < |pairs| && HasPlayerInPair(ghostId, pairs[k]) && pairs[k].left != pairs[k].right
    ensures var w := GetWinnerId(ResolveByes(pairs, ghostId)[k]);
      w.Some? && w.value != ghostId && HasPlayerInPair(w.value, pairs[k])
  {
  }

  /** What `handleMakeMatch` tells the user. */
  datatype Notice =
    | PreviousRoundIncomplete   // a pair of the history is undecided
    | AllRoundsDone             // the draw found no new match
    | DrawFailed                // the draw's Error escapes the handler uncaught:
                                // nothing is added and no dialog is shown
    | MatchAdded

  /** The match `handleMakeMatch` appends once the draw produced `m`. */
  function NewMatch(players: seq<Player>, m: Match, ghostPlayer: Player): (r: Match)
    ensures r.id == m.id
    ensures IsEven(players) ==> r == m
    ensures !IsEven(players) ==> r.pairList == ResolveByes(m.pairList, ghostPlayer.id)
  {
    if !IsEven(players) then m.(pairList := ResolveByes(m.pairList, ghostPlayer.id)) else m
  }

  /** The odd-field step of `handleMakeMatch`: on an odd field the byes of the drawn match are resolved. */
  method ByeStep(players: seq<Player>, m: Match, ghostPlayer: Player) returns (r: Match)
    ensures r == NewMatch(players, m, ghostPlayer)
  {
    r := m;
    if !IsEven(players) {
      var pairs := new Pair[|m.pairList|](k requires 0 <= k < |m.pairList| => m.pairList[k]);
      assert pairs[..] == m.pairList;
      ResolveByesInPlace(pairs, ghostPlayer.id);
      r := m.(pairList := pairs[..]);
    }
  }

  class TournamentPage {
    var players: seq<Player>
    var matches: seq<Match>
    const ghostPlayer: Player

    constructor (players: seq<Player>, matches: seq<Match>, ghostPlayer: Player)
      ensures this.players == players && this.matches == matches && this.ghostPlayer == ghostPlayer
    {
      this.players := players;
      this.matches := matches;
      this.ghostPlayer := ghostPlayer;
    }

    /**
     * `handleMakeMatch`: nothing happens while a pair of the history is
     * undecided, when the draw finds nothing or when it throws; otherwise the
     * drawn match, with byes resolved on an odd field, is appended.
     */
    method HandleMakeMatch(matchId: MatchId, newId: nat -> PairId) returns (notice: Notice)
      modifies this
      ensures players == old(players)
      ensures matches == AfterMakeMatch(old(players), old(matches), ghostPlayer, matchId, newId)
      ensures AnyUndecided(old(matches)) ==> notice == PreviousRoundIncomplete && matches == old(matches)
      ensures !AnyUndecided(old(matches)) ==>
        match SwissDraw(players, old(matches), ghostPlayer, matchId, newId)
        case Thrown => notice == DrawFailed && matches == old(matches)
        case Undefined => notice == AllRoundsDone && matches == old(matches)
        case Defined(m) => notice == MatchAdded && matches == old(matches) + [NewMatch(players, m, ghostPlayer)]
    {
      var undecided := HasUndecidedPair(matches);
      if undecided {
        return PreviousRoundIncomplete;
      }
      var drawn := SwissDraw(players, matches, ghostPlayer, matchId, newId);
      if drawn.Thrown? {
        return DrawFailed;
      }
      if drawn.Undefined? {
        return AllRoundsDone;
      }
      var newMatch := ByeStep(players, drawn.value, ghostPlayer);
      matches := matches + [newMatch];
      return MatchAdded;
    }

    /** `handleWin`: the history with the clicked pair toggled. */
    method HandleWin(newWinnerId: PlayerId, matchId: MatchId, pairId: PairId)
      modifies this
      ensures players == old(players)
      ensures matches == WinToggled(old(matches), newWinnerId, matchId, pairId)
    {
      matches := WinToggled(matches, newWinnerId, matchId, pairId);
    }
  }

  /**
   * What one call of `handleMakeMatch` does to the history: unchanged or
   * with one match appended at the end.
   */
  function AfterMakeMatch(players: seq<Player>, matches: seq<Match>, ghostPlayer: Player, matchId: MatchId, newId: nat -> PairId)
    : (r: seq<Match>)
    ensures r == matches || (|r| == |matches| + 1 && r[..|matches|] == matches)
  {
    if AnyUndecided(matches) then matches
    else
      match SwissDraw(players, matches, ghostPlayer, matchId, newId)
      case Defined(m) => matches + [NewMatch(players, m, ghostPlayer)]
      case _ => matches
  }

  /**
   * Since the draw throws on an odd field, `handleMakeMatch` never adds a
   * match for one; the bye step is never reached.
   */
  lemma OddFieldAddsNothing(players: seq<Player>, matches: seq<Match>, ghostPlayer: Player, matchId: MatchId, newId: nat -> PairId)
    requires !IsEven(players)
    ensures AfterMakeMatch(players, matches, ghostPlayer, matchId, newId) == matches
  {
    SwissDrawThrowsIffBadSize(players, matches, ghostPlayer, matchId, newId);
  }

  /**
   * When a match is added, the history was fully decided, and the new match
   * seats every player once, repeats no past pair and is undecided.
   */
  lemma AddedMatchIsSound(players: seq<Player>, matches: seq<Match>, ghostPlayer: Player, matchId: MatchId, newId: nat -> PairId)
    requires AfterMakeMatch(players, matches, ghostPlayer, matchId, newId) != matches
    ensures !AnyUndecided(matches)
    ensures var m := AfterMakeMatch(players, matches, ghostPlayer, matchId, newId)[|matches|];
      && m.id == matchId
      && IsPairingOf(m.pairList, multiset(Ids(players)))
      && NoRematch(m.pairList, matches)
      && forall k :: 0 <= k < |m.pairList| ==> m.pairList[k].winner == NoWinner
  {
    var drawn := SwissDraw(players, matches, ghostPlayer, matchId, newId);
    SwissDrawThrowsIffBadSize(players, matches, ghostPlayer, matchId, newId);
    SwissDrawSound(players, matches, ghostPlayer, matchId, newId);
    assert NoRematch(drawn.value.pairList, matches) by {
      UniqueIffNoPairPlayed(drawn.value, matches);
    }
  }
}
