/**
 * Look-ups in the match history (src/lib/match.ts): has a pair of two
 * players already been played, does a new match repeat any past pair, and
 * which pair of a match a player is on. Each is a loop with an early
 * return, proved against a predicate over the whole history.
 */
module History {
  import opened Types
  import opened PairOps

  /** Some pair of the match is {l, r}. */
  predicate PairInMatch(l: PlayerId, r: PlayerId, m: Match)
  {
    exists j :: 0 <= j < |m.pairList| && ExistPair(l, r, m.pairList[j])
  }

  /** Some match of the history has played {l, r}. */
  predicate PairInMatches(l: PlayerId, r: PlayerId, matches: seq<Match>)
  {
    exists i :: 0 <= i < |matches| && PairInMatch(l, r, matches[i])
  }

  /** `existPairInMatch`. */
  method ExistPairInMatch(left: PlayerId, right: PlayerId, m: Match) returns (b: bool)
    ensures b <==> PairInMatch(left, right, m)
  {
    for j := 0 to |m.pairList|
      invariant forall k :: 0 <= k < j ==> !ExistPair(left, right, m.pairList[k])
    {
      if ExistPair(left, right, m.pairList[j]) {
        return true;
      }
    }
    return false;
  }

  /** `existPairInMatches`. */
  method ExistPairInMatches(left: PlayerId, right: PlayerId, matches: seq<Match>) returns (b: bool)
    ensures b <==> PairInMatches(left, right, matches)
  {
    for i := 0 to |matches|
      invariant forall k :: 0 <= k < i ==> !PairInMatch(left, right, matches[k])
    {
      var found := ExistPairInMatch(left, right, matches[i]);
      if found {
        return true;
      }
    }
    return false;
  }

  /** Whether a pair was played does not depend on the order of the two players. */
  lemma PairInMatchesSymmetric(l: PlayerId, r: PlayerId, matches: seq<Match>)
    ensures PairInMatches(l, r, matches) <==> PairInMatches(r, l, matches)
  {
    if PairInMatches(l, r, matches) {
      var i :| 0 <= i < |matches| && PairInMatch(l, r, matches[i]);
      var j :| 0 <= j < |matches[i].pairList| && ExistPair(l, r, matches[i].pairList[j]);
      assert ExistPair(r, l, matches[i].pairList[j]);
    }
    if PairInMatches(r, l, matches) {
      var i :| 0 <= i < |matches| && PairInMatch(r, l, matches[i]);
      var j :| 0 <= j < |matches[i].pairList| && ExistPair(r, l, matches[i].pairList[j]);
      assert ExistPair(l, r, matches[i].pairList[j]);
    }
  }

  /** No pair of the new match repeats a pair of any past match. */
  predicate IsUnique(newMatch: Match, pastMatches: seq<Match>)
  {
    forall i, k, j ::
      0 <= i < |pastMatches| && 0 <= k < |pastMatches[i].pairList| && 0 <= j < |newMatch.pairList| ==>
        !ExistPair(newMatch.pairList[j].left, newMatch.pairList[j].right, pastMatches[i].pairList[k])
  }

  /** `isUniqueMatch`: three nested loops that return false on the first repeat. */
  method IsUniqueMatch(newMatch: Match, pastMatches: seq<Match>) returns (b: bool)
    ensures b <==> IsUnique(newMatch, pastMatches)
  {
    var news := newMatch.pairList;
    for i := 0 to |pastMatches|
      invariant forall i', k, j ::
        0 <= i' < i && 0 <= k < |pastMatches[i'].pairList| && 0 <= j < |news| ==>
          !ExistPair(news[j].left, news[j].right, pastMatches[i'].pairList[k])
    {
      var pastPairs := pastMatches[i].pairList;
      for k := 0 to |pastPairs|
        invariant forall i', k', j ::
          0 <= i' < i && 0 <= k' < |pastMatches[i'].pairList| && 0 <= j < |news| ==>
            !ExistPair(news[j].left, news[j].right, pastMatches[i'].pairList[k'])
        invariant forall k', j :: 0 <= k' < k && 0 <= j < |news| ==> !ExistPair(news[j].left, news[j].right, pastPairs[k'])
      {
        for j := 0 to |news|
          invariant forall i', k', j' ::
            0 <= i' < i && 0 <= k' < |pastMatches[i'].pairList| && 0 <= j' < |news| ==>
              !ExistPair(news[j'].left, news[j'].right, pastMatches[i'].pairList[k'])
          invariant forall k', j' :: 0 <= k' < k && 0 <= j' < |news| ==> !ExistPair(news[j'].left, news[j'].right, pastPairs[k'])
          invariant forall j' :: 0 <= j' < j ==> !ExistPair(news[j'].left, news[j'].right, pastPairs[k])
        {
          if ExistPair(news[j].left, news[j].right, pastPairs[k]) {
            return false;
          }
        }
      }
    }
    return true;
  }

  /** A match is unique exactly when none of its pairs was played before. */
  lemma UniqueIffNoPairPlayed(newMatch: Match, pastMatches: seq<Match>)
    ensures IsUnique(newMatch, pastMatches) <==>
      forall j :: 0 <= j < |newMatch.pairList| ==>
        !PairInMatches(newMatch.pairList[j].left, newMatch.pairList[j].right, pastMatches)
  {
    if !IsUnique(newMatch, pastMatches) {
      var i, k, j :| 0 <= i < |pastMatches| && 0 <= k < |pastMatches[i].pairList| && 0 <= j < |newMatch.pairList| &&
        ExistPair(newMatch.pairList[j].left, newMatch.pairList[j].right, pastMatches[i].pairList[k]);
      assert PairInMatch(newMatch.pairList[j].left, newMatch.pairList[j].right, pastMatches[i]);
    }
  }

  /** `getPairInMatch`: the first pair of the match that `playerId` is on. */
  method GetPairInMatch(playerId: PlayerId, m: Match) returns (r: Option<Pair>)
    ensures r.None? <==> forall j :: 0 <= j < |m.pairList| ==> !HasPlayerInPair(playerId, m.pairList[j])
    ensures r.Some? ==>
      exists j :: 0 <= j < |m.pairList| && m.pairList[j] == r.value && HasPlayerInPair(playerId, r.value) &&
                  forall k :: 0 <= k < j ==> !HasPlayerInPair(playerId, m.pairList[k])
  {
    for j := 0 to |m.pairList|
      invariant forall k :: 0 <= k < j ==> !HasPlayerInPair(playerId, m.pairList[k])
    {
      if HasPlayerInPair(playerId, m.pairList[j]) {
        return Some(m.pairList[j]);
      }
    }
    return None;
  }
}
