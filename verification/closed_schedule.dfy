/**
 * The closed-schedule variant (src/lib/match.ts, makeAllMatches to
 * swissDraw2): every round of a round-robin over the shuffled field is
 * generated up front, and each later round picks, among the rounds still
 * to play, the one whose pairs are closest in wins.
 *
 * `shuffle` is random: `MakeAllMatches` takes the already shuffled list,
 * and the lemmas that speak about the original players assume only that
 * it is a rearrangement of them. Pair and match ids (`makeId`) come from
 * `pairId(round, k)` and `matchId(round)`.
 */
module ClosedSchedule {
  import opened Types
  import opened Util
  import opened PairOps
  import opened Sorting
  import opened Standings
  import opened RoundRobin

  // ---------------------------------------------------------------------
  // makeAllMatches

  /** `evenPlayers`: an odd field gets the ghost player in front. */
  function EvenPlayers(shuffled: seq<Player>, ghostPlayer: Player): (r: seq<Player>)
    ensures IsEven(r)
    ensures IsEven(shuffled) ==> r == shuffled
    ensures !IsEven(shuffled) ==> |r| == |shuffled| + 1 && r[0] == ghostPlayer && r[1..] == shuffled
  {
    if IsEven(shuffled) then shuffled else [ghostPlayer] + shuffled
  }

  /** Every index pair of `round` points inside a field of `n` players. */
  predicate InRange(round: seq<IndexPair>, n: nat)
  {
    forall k :: 0 <= k < |round| ==> round[k].left < n && round[k].right < n
  }

  lemma ScheduleInRange(n: nat, i: nat)
    requires n % 2 == 0 && n > 1 && i < n - 1
    ensures |Schedule(n)[i]| == n / 2 && InRange(Schedule(n)[i], n)
  {
  }

  /** The pairs of one round: index pair `k` seats the padded players at its two positions. */
  function RoundPairs(evenPlayers: seq<Player>, round: seq<IndexPair>, i: nat, pairId: (nat, nat) -> PairId): (r: seq<Pair>)
    requires InRange(round, |evenPlayers|)
    ensures |r| == |round|
    ensures forall k :: 0 <= k < |round| ==>
      r[k].left == evenPlayers[round[k].left].id && r[k].right == evenPlayers[round[k].right].id &&
      r[k].winner == NoWinner && r[k].id == pairId(i, k)
  {
    seq(|round|, k requires 0 <= k < |round| =>
      Pair(evenPlayers[round[k].left].id, evenPlayers[round[k].right].id, NoWinner, pairId(i, k)))
  }

  /**
   * `makeAllMatches`: one match per round of `roundRobin(evenPlayers.length)`.
   * An empty field gives no rounds (the loop of `roundRobin(0)` never runs).
   */
  function MakeAllMatches(shuffled: seq<Player>, ghostPlayer: Player, pairId: (nat, nat) -> PairId, matchId: nat -> MatchId)
    : (r: seq<Match>)
    ensures var n := |EvenPlayers(shuffled, ghostPlayer)|;
      && |r| == (if n == 0 then 0 else n - 1)
      && forall i :: 0 <= i < |r| ==> r[i].id == matchId(i)
  {
    var evenPlayers := EvenPlayers(shuffled, ghostPlayer);
    var n := |evenPlayers|;
    if n == 0 then []
    else
      var schedule := Schedule(n);
      seq(n - 1, i requires 0 <= i < n - 1 =>
        ScheduleInRange(n, i);
        Match(RoundPairs(evenPlayers, schedule[i], i, pairId), matchId(i)))
  }

  /** Match `i` holds the pairs of round `i` of the schedule. */
  lemma MatchIsRound(shuffled: seq<Player>, ghostPlayer: Player, pairId: (nat, nat) -> PairId, matchId: nat -> MatchId, i: nat)
    requires i < |MakeAllMatches(shuffled, ghostPlayer, pairId, matchId)|
    ensures var evenPlayers := EvenPlayers(shuffled, ghostPlayer);
      var n := |evenPlayers|;
      && n >= 2 && n % 2 == 0 && i < n - 1
      && |Schedule(n)[i]| == n / 2 && InRange(Schedule(n)[i], n)
      && MakeAllMatches(shuffled, ghostPlayer, pairId, matchId)[i].pairList
         == RoundPairs(evenPlayers, Schedule(n)[i], i, pairId)
  {
  }

  /** Every generated match has one pair per two padded players. */
  lemma EveryMatchHasHalfTheField(shuffled: seq<Player>, ghostPlayer: Player, pairId: (nat, nat) -> PairId, matchId: nat -> MatchId)
    ensures var ms := MakeAllMatches(shuffled, ghostPlayer, pairId, matchId);
      forall i :: 0 <= i < |ms| ==> |ms[i].pairList| == |EvenPlayers(shuffled, ghostPlayer)| / 2
  {
    var ms := MakeAllMatches(shuffled, ghostPlayer, pairId, matchId);
    forall i | 0 <= i < |ms| ensures |ms[i].pairList| == |EvenPlayers(shuffled, ghostPlayer)| / 2 {
      MatchIsRound(shuffled, ghostPlayer, pairId, matchId, i);
    }
  }

  /** Every generated pair is undecided. */
  lemma AllMatchesUndecided(shuffled: seq<Player>, ghostPlayer: Player, pairId: (nat, nat) -> PairId, matchId: nat -> MatchId)
    ensures var ms := MakeAllMatches(shuffled, ghostPlayer, pairId, matchId);
      forall i, k :: 0 <= i < |ms| && 0 <= k < |ms[i].pairList| ==> ms[i].pairList[k].winner == NoWinner
  {
    var ms := MakeAllMatches(shuffled, ghostPlayer, pairId, matchId);
    forall i, k | 0 <= i < |ms| && 0 <= k < |ms[i].pairList| ensures ms[i].pairList[k].winner == NoWinner {
      MatchIsRound(shuffled, ghostPlayer, pairId, matchId, i);
    }
  }

  /** The players of a round, two per pair, are the padded players seated at the round's entrants. */
  lemma FlattenOfRound(evenPlayers: seq<Player>, pairs: seq<Pair>, round: seq<IndexPair>)
    requires |pairs| == |round|
    requires forall k :: 0 <= k < |round| ==> round[k].left < |evenPlayers| && round[k].right < |evenPlayers|
    requires forall k :: 0 <= k < |round| ==>
      pairs[k].left == evenPlayers[round[k].left].id && pairs[k].right == evenPlayers[round[k].right].id
    ensures |Flatten(pairs)| == |Entrants(round)|
    ensures forall i :: 0 <= i < |Entrants(round)| ==>
      Entrants(round)[i] < |evenPlayers| && Flatten(pairs)[i] == evenPlayers[Entrants(round)[i]].id
  {
    FlattenByIndex(pairs);
    var e := Entrants(round);
    forall i | 0 <= i < |e| ensures e[i] < |evenPlayers| && Flatten(pairs)[i] == evenPlayers[e[i]].id {
      EntrantIndex(round, i);
    }
  }

  lemma EntrantIndex(round: seq<IndexPair>, i: nat)
    requires i < 2 * |round|
    ensures (i % 2 == 0 && i == 2 * (i / 2) && Entrants(round)[i] == round[i / 2].left) ||
            (i % 2 == 1 && i == 2 * (i / 2) + 1 && Entrants(round)[i] == round[i / 2].right)
  {
    var k := i / 2;
    if i % 2 == 0 {
      assert i == 2 * k;
    } else {
      assert i == 2 * k + 1;
    }
  }

  lemma {:induction false} FlattenByIndex(pairs: seq<Pair>)
    ensures forall k :: 0 <= k < |pairs| ==>
      Flatten(pairs)[2 * k] == pairs[k].left && Flatten(pairs)[2 * k + 1] == pairs[k].right
  {
    if pairs != [] {
      FlattenByIndex(pairs[1..]);
      forall k | 1 <= k < |pairs|
        ensures Flatten(pairs)[2 * k] == pairs[k].left && Flatten(pairs)[2 * k + 1] == pairs[k].right
      {
        assert pairs[1..][k - 1] == pairs[k];
      }
    }
  }

  /** Each generated match seats every padded player exactly once. */
  lemma EachMatchSeatsEveryoneOnce(shuffled: seq<Player>, ghostPlayer: Player, pairId: (nat, nat) -> PairId, matchId: nat -> MatchId, i: nat)
    requires i < |MakeAllMatches(shuffled, ghostPlayer, pairId, matchId)|
    ensures multiset(Flatten(MakeAllMatches(shuffled, ghostPlayer, pairId, matchId)[i].pairList))
            == multiset(Ids(EvenPlayers(shuffled, ghostPlayer)))
  {
    var evenPlayers := EvenPlayers(shuffled, ghostPlayer);
    var n := |evenPlayers|;
    MatchIsRound(shuffled, ghostPlayer, pairId, matchId, i);
    var round := Schedule(n)[i];
    var pairs := RoundPairs(evenPlayers, round, i, pairId);
    FlattenOfRound(evenPlayers, pairs, round);
    RoundEntrantsArePermutation(n, i);
    SeatsArePermutation(evenPlayers, Flatten(pairs), Entrants(round));
  }

  /** Players seated at a rearrangement of all positions are a rearrangement of all players. */
  lemma SeatsArePermutation(evenPlayers: seq<Player>, flat: seq<PlayerId>, e: seq<nat>)
    requires multiset(e) == multiset(MakeSequentialArray(|evenPlayers|))
    requires |flat| == |e|
    requires forall i :: 0 <= i < |e| ==> e[i] < |evenPlayers| && flat[i] == evenPlayers[e[i]].id
    ensures multiset(flat) == multiset(Ids(evenPlayers))
  {
    var n := |evenPlayers|;
    var f := (j: nat) => if j < n then evenPlayers[j].id else [];
    assert flat == MapSeq(f, e);
    MapOfPermutation(f, e, MakeSequentialArray(n));
    assert MapSeq(f, MakeSequentialArray(n)) == Ids(evenPlayers);
  }

  /** The padded players are the original ones, plus the ghost for an odd field. */
  lemma EvenPlayersAreThePlayers(players: seq<Player>, shuffled: seq<Player>, ghostPlayer: Player)
    requires IsShuffleOf(shuffled, players)
    ensures multiset(EvenPlayers(shuffled, ghostPlayer))
            == multiset(players) + (if IsEven(players) then multiset{} else multiset{ghostPlayer})
  {
    assert |shuffled| == |multiset(shuffled)| == |multiset(players)| == |players|;
    if !IsEven(shuffled) {
      assert multiset([ghostPlayer] + shuffled) == multiset{ghostPlayer} + multiset(shuffled);
    }
  }

  /**
   * On a field of distinct players, any two different padded players meet
   * in exactly one pair of exactly one generated match.
   */
  lemma EveryTwoPlayersMeetOnce(shuffled: seq<Player>, ghostPlayer: Player, pairId: (nat, nat) -> PairId, matchId: nat -> MatchId, a: nat, b: nat)
    requires Distinct(Ids(EvenPlayers(shuffled, ghostPlayer)))
    requires a < |EvenPlayers(shuffled, ghostPlayer)| && b < |EvenPlayers(shuffled, ghostPlayer)| && a != b
    ensures var ms := MakeAllMatches(shuffled, ghostPlayer, pairId, matchId);
      var x := EvenPlayers(shuffled, ghostPlayer)[a].id;
      var y := EvenPlayers(shuffled, ghostPlayer)[b].id;
      && (exists i, k :: 0 <= i < |ms| && 0 <= k < |ms[i].pairList| && ExistPair(x, y, ms[i].pairList[k]))
      && (forall i1, k1, i2, k2 ::
           (0 <= i1 < |ms| && 0 <= k1 < |ms[i1].pairList| && 0 <= i2 < |ms| && 0 <= k2 < |ms[i2].pairList| &&
            ExistPair(x, y, ms[i1].pairList[k1]) && ExistPair(x, y, ms[i2].pairList[k2])) ==> i1 == i2 && k1 == k2)
  {
    TwoPlayersMeet(shuffled, ghostPlayer, pairId, matchId, a, b);
    TwoPlayersMeetAtMostOnce(shuffled, ghostPlayer, pairId, matchId, a, b);
  }

  /** Any two different padded players meet in some pair of the generated matches. */
  lemma TwoPlayersMeet(shuffled: seq<Player>, ghostPlayer: Player, pairId: (nat, nat) -> PairId, matchId: nat -> MatchId, a: nat, b: nat)
    requires Distinct(Ids(EvenPlayers(shuffled, ghostPlayer)))
    requires a < |EvenPlayers(shuffled, ghostPlayer)| && b < |EvenPlayers(shuffled, ghostPlayer)| && a != b
    ensures var ms := MakeAllMatches(shuffled, ghostPlayer, pairId, matchId);
      var x := EvenPlayers(shuffled, ghostPlayer)[a].id;
      var y := EvenPlayers(shuffled, ghostPlayer)[b].id;
      exists i, k :: 0 <= i < |ms| && 0 <= k < |ms[i].pairList| && ExistPair(x, y, ms[i].pairList[k])
  {
    var evenPlayers := EvenPlayers(shuffled, ghostPlayer);
    var n := |evenPlayers|;
    var ms := MakeAllMatches(shuffled, ghostPlayer, pairId, matchId);
    EveryPairMeetsOnce(n, a, b);
    var r, k :| 0 <= r < n - 1 && 0 <= k < n / 2 && Meets(Schedule(n)[r][k], a, b);
    assert r < |ms|;
    MatchIsRound(shuffled, ghostPlayer, pairId, matchId, r);
    assert k < |ms[r].pairList|;
    MeetingIsScheduled(shuffled, ghostPlayer, pairId, matchId, a, b, r, k);
    assert ExistPair(evenPlayers[a].id, evenPlayers[b].id, ms[r].pairList[k]);
  }

  /** Two pairs of the generated matches that seat the same two different padded players are the same pair. */
  lemma TwoPlayersMeetAtMostOnce(shuffled: seq<Player>, ghostPlayer: Player, pairId: (nat, nat) -> PairId, matchId: nat -> MatchId, a: nat, b: nat)
    requires Distinct(Ids(EvenPlayers(shuffled, ghostPlayer)))
    requires a < |EvenPlayers(shuffled, ghostPlayer)| && b < |EvenPlayers(shuffled, ghostPlayer)| && a != b
    ensures var ms := MakeAllMatches(shuffled, ghostPlayer, pairId, matchId);
      var x := EvenPlayers(shuffled, ghostPlayer)[a].id;
      var y := EvenPlayers(shuffled, ghostPlayer)[b].id;
      forall i1, k1, i2, k2 ::
        (0 <= i1 < |ms| && 0 <= k1 < |ms[i1].pairList| && 0 <= i2 < |ms| && 0 <= k2 < |ms[i2].pairList| &&
         ExistPair(x, y, ms[i1].pairList[k1]) && ExistPair(x, y, ms[i2].pairList[k2])) ==> i1 == i2 && k1 == k2
  {
    var evenPlayers := EvenPlayers(shuffled, ghostPlayer);
    var n := |evenPlayers|;
    var ms := MakeAllMatches(shuffled, ghostPlayer, pairId, matchId);
    var x := evenPlayers[a].id;
    var y := evenPlayers[b].id;
    forall i1, k1, i2, k2 |
      0 <= i1 < |ms| && 0 <= k1 < |ms[i1].pairList| && 0 <= i2 < |ms| && 0 <= k2 < |ms[i2].pairList| &&
      ExistPair(x, y, ms[i1].pairList[k1]) && ExistPair(x, y, ms[i2].pairList[k2])
      ensures i1 == i2 && k1 == k2
    {
      MeetingIsScheduled(shuffled, ghostPlayer, pairId, matchId, a, b, i1, k1);
      MeetingIsScheduled(shuffled, ghostPlayer, pairId, matchId, a, b, i2, k2);
      SameMeeting(n, a, b, i1, k1, i2, k2);
    }
  }

  lemma SameMeeting(n: nat, a: nat, b: nat, r1: nat, k1: nat, r2: nat, k2: nat)
    requires n % 2 == 0 && n > 1 && a < n && b < n && a != b
    requires r1 < n - 1 && k1 < n / 2 && r2 < n - 1 && k2 < n / 2
    requires Meets(Schedule(n)[r1][k1], a, b) && Meets(Schedule(n)[r2][k2], a, b)
    ensures r1 == r2 && k1 == k2
  {
    EveryPairMeetsOnce(n, a, b);
  }

  /** Pair `k` of match `i` brings the two players together exactly when index pair `k` of round `i` does. */
  lemma MeetingIsScheduled(shuffled: seq<Player>, ghostPlayer: Player, pairId: (nat, nat) -> PairId, matchId: nat -> MatchId,
                           a: nat, b: nat, i: nat, k: nat)
    requires Distinct(Ids(EvenPlayers(shuffled, ghostPlayer)))
    requires a < |EvenPlayers(shuffled, ghostPlayer)| && b < |EvenPlayers(shuffled, ghostPlayer)|
    requires i < |MakeAllMatches(shuffled, ghostPlayer, pairId, matchId)|
    requires k < |MakeAllMatches(shuffled, ghostPlayer, pairId, matchId)[i].pairList|
    ensures var evenPlayers := EvenPlayers(shuffled, ghostPlayer);
      var n := |evenPlayers|;
      && n % 2 == 0 && n > 1 && i < n - 1 && k < n / 2
      && (ExistPair(evenPlayers[a].id, evenPlayers[b].id, MakeAllMatches(shuffled, ghostPlayer, pairId, matchId)[i].pairList[k])
          <==> Meets(Schedule(n)[i][k], a, b))
  {
    var evenPlayers := EvenPlayers(shuffled, ghostPlayer);
    var n := |evenPlayers|;
    MatchIsRound(shuffled, ghostPlayer, pairId, matchId, i);
    var p := MakeAllMatches(shuffled, ghostPlayer, pairId, matchId)[i].pairList[k];
    if ExistPair(evenPlayers[a].id, evenPlayers[b].id, p) {
      SeatedAt(evenPlayers, p, Schedule(n)[i][k], a, b);
    }
  }

  /** With distinct ids, a pair of the two players comes from an index pair of their two positions. */
  lemma SeatedAt(evenPlayers: seq<Player>, p: Pair, ip: IndexPair, a: nat, b: nat)
    requires Distinct(Ids(evenPlayers)) && a < |evenPlayers| && b < |evenPlayers|
    requires ip.left < |evenPlayers| && ip.right < |evenPlayers|
    requires p.left == evenPlayers[ip.left].id && p.right == evenPlayers[ip.right].id
    requires ExistPair(evenPlayers[a].id, evenPlayers[b].id, p)
    ensures Meets(ip, a, b)
  {
    var ids := Ids(evenPlayers);
    assert ids[ip.left] == p.left && ids[ip.right] == p.right && ids[a] == evenPlayers[a].id && ids[b] == evenPlayers[b].id;
  }
}
