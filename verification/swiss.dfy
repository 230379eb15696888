/**
 * The Swiss pairing search (src/lib/match.ts, makeSortedPlayers to
 * makePairRecursive): sort the players by wins, then search, in list
 * order and with backtracking, for the first pairing of all of them in
 * which no pair has been played before.
 *
 * Fresh pair ids come from `newId`: the pair created at recursion depth
 * `d` gets `newId(d)`.
 */
module SwissPairing {
  import opened Types
  import opened PairOps
  import opened Standings
  import opened History
  import opened Sorting
  import opened Util

  /** The comparator of `makeSortedPlayers`, with its random tie-break read as "keep the order". */
  function ByWinsDescending(matches: seq<Match>): (Player, Player) -> int
  {
    (a: Player, b: Player) => WinCount(b.id, matches) - WinCount(a.id, matches)
  }

  /** `a` has at least as many wins as `b`. */
  function AtLeastAsManyWins(matches: seq<Match>): (Player, Player) -> bool
  {
    (a: Player, b: Player) => WinCount(a.id, matches) >= WinCount(b.id, matches)
  }

  /** `makeSortedPlayers`: the players rearranged with win counts non-increasing. */
  function MakeSortedPlayers(players: seq<Player>, matches: seq<Match>): (r: seq<Player>)
    ensures multiset(r) == multiset(players)
    ensures forall i, j :: 0 <= i < j < |r| ==> WinCount(r[i].id, matches) >= WinCount(r[j].id, matches)
  {
    var r := Sort(players, ByWinsDescending(matches));
    SortSorted(players, ByWinsDescending(matches), AtLeastAsManyWins(matches));
    assert SortedBy(r, AtLeastAsManyWins(matches));
    r
  }

  /**
   * `toEven`: both branches return the players themselves; the ghost player
   * is never added, so an odd field stays odd.
   */
  function ToEven(players: seq<Player>, ghostPlayer: Player): (r: seq<Player>)
    ensures r == players
  {
    if IsEven(players) then players else players[..]
  }

  /** `makePairRecursive`: throws on fewer than two or an odd number of players. */
  function MakePairRecursive(players: seq<Player>, matches: seq<Match>, newId: nat -> PairId, depth: nat)
    : Outcome<seq<Pair>>
    decreases |players|, 1
  {
    if |players| <= 1 then Thrown
    else if |players| % 2 != 0 then Thrown
    else TryChallengers(players, 0, matches, newId, depth)
  }

  /** The players left after `players[0]` is paired with its `i`-th challenger. */
  function Rests(players: seq<Player>, i: nat): (r: seq<Player>)
    requires 1 <= |players| && i < |players| - 1
    ensures |r| == |players| - 2
  {
    var challengers := players[1..];
    challengers[..i] + challengers[i + 1..]
  }

  /**
   * The loop over the challengers of `players[0]`, from the `i`-th on:
   * the first challenger not met before whose remaining field can be
   * paired wins; a thrown error propagates.
   */
  function TryChallengers(players: seq<Player>, i: nat, matches: seq<Match>, newId: nat -> PairId, depth: nat)
    : Outcome<seq<Pair>>
    requires |players| >= 2
    decreases |players|, 0, |players| - i
  {
    if i >= |players| - 1 then Undefined
    else if PairInMatches(players[0].id, players[1..][i].id, matches) then
      TryChallengers(players, i + 1, matches, newId, depth)
    else
      var newPair := Pair(players[0].id, players[1..][i].id, NoWinner, newId(depth));
      var rests := Rests(players, i);
      if |rests| >= 2 then
        match MakePairRecursive(rests, matches, newId, depth + 1)
        case Defined(restPair) => Defined([newPair] + restPair)
        case Thrown => Thrown
        case Undefined => TryChallengers(players, i + 1, matches, newId, depth)
      else
        Defined([newPair])
  }

  // ---------------------------------------------------------------------
  // What a returned pairing is

  /** No pair of the list was played in the history. */
  ghost predicate NoRematch(pairs: seq<Pair>, matches: seq<Match>)
  {
    forall k :: 0 <= k < |pairs| ==> !PairInMatches(pairs[k].left, pairs[k].right, matches)
  }

  /** The pairs hold exactly the given players, each once per occurrence. */
  ghost predicate IsPairingOf(pairs: seq<Pair>, ids: multiset<PlayerId>)
  {
    multiset(Flatten(pairs)) == ids
  }

  /** Some pairing of exactly these players repeats no past pair. */
  ghost predicate HasFreshPairing(ids: multiset<PlayerId>, matches: seq<Match>)
  {
    exists pairs :: IsPairingOf(pairs, ids) && NoRematch(pairs, matches)
  }

  /** A player with id `a` comes before one with id `b` in the list. */
  ghost predicate Precedes(players: seq<Player>, a: PlayerId, b: PlayerId)
  {
    exists x, y :: 0 <= x < y < |players| && players[x].id == a && players[y].id == b
  }

  /** Everything a successful search promises about its result. */
  ghost predicate SoundPairing(pairs: seq<Pair>, players: seq<Player>, matches: seq<Match>, newId: nat -> PairId, depth: nat)
  {
    && |pairs| == |players| / 2
    && IsPairingOf(pairs, multiset(Ids(players)))
    && NoRematch(pairs, matches)
    && (forall k :: 0 <= k < |pairs| ==> pairs[k].winner == NoWinner && pairs[k].id == newId(depth + k))
    && (forall k :: 0 <= k < |pairs| ==> Precedes(players, pairs[k].left, pairs[k].right))
    && (|pairs| > 0 ==> pairs[0].left == players[0].id)
  }

  lemma PrecedesLift(players: seq<Player>, i: nat, a: PlayerId, b: PlayerId)
    requires 1 <= |players| && i < |players| - 1
    requires Precedes(Rests(players, i), a, b)
    ensures Precedes(players, a, b)
  {
    var rests := Rests(players, i);
    var x, y :| 0 <= x < y < |rests| && rests[x].id == a && rests[y].id == b;
    var x' := if x < i then x + 1 else x + 2;
    var y' := if y < i then y + 1 else y + 2;
    assert players[x'] == rests[x] && players[y'] == rests[y];
  }

  // ---------------------------------------------------------------------
  // The search throws exactly on a bad field size

  lemma {:induction false} MakePairNeverThrows(players: seq<Player>, matches: seq<Match>, newId: nat -> PairId, depth: nat)
    requires |players| >= 2 && |players| % 2 == 0
    ensures MakePairRecursive(players, matches, newId, depth) != Thrown
    decreases |players|, 1
  {
    TryNeverThrows(players, 0, matches, newId, depth);
  }

  lemma {:induction false} TryNeverThrows(players: seq<Player>, i: nat, matches: seq<Match>, newId: nat -> PairId, depth: nat)
    requires |players| >= 2 && |players| % 2 == 0
    ensures TryChallengers(players, i, matches, newId, depth) != Thrown
    decreases |players|, 0, |players| - i
  {
    if i < |players| - 1 {
      var rests := Rests(players, i);
      if !PairInMatches(players[0].id, players[1..][i].id, matches) && |rests| >= 2 {
        MakePairNeverThrows(rests, matches, newId, depth + 1);
      }
      TryNeverThrows(players, i + 1, matches, newId, depth);
    }
  }

  /** `makePairRecursive` throws exactly when the list is shorter than two or odd. */
  lemma MakePairThrowsIffBadSize(players: seq<Player>, matches: seq<Match>, newId: nat -> PairId, depth: nat)
    ensures MakePairRecursive(players, matches, newId, depth) == Thrown <==> |players| <= 1 || |players| % 2 != 0
  {
    if |players| >= 2 && |players| % 2 == 0 {
      MakePairNeverThrows(players, matches, newId, depth);
    }
  }

  // ---------------------------------------------------------------------
  // Soundness: a returned pairing is complete, new, undecided and ordered

  lemma {:induction false} MakePairSound(players: seq<Player>, matches: seq<Match>, newId: nat -> PairId, depth: nat)
    ensures MakePairRecursive(players, matches, newId, depth).Defined? ==>
      SoundPairing(MakePairRecursive(players, matches, newId, depth).value, players, matches, newId, depth)
    decreases |players|, 1
  {
    if |players| >= 2 && |players| % 2 == 0 {
      TrySound(players, 0, matches, newId, depth);
    }
  }

  lemma {:induction false} TrySound(players: seq<Player>, i: nat, matches: seq<Match>, newId: nat -> PairId, depth: nat)
    requires |players| >= 2 && |players| % 2 == 0
    ensures TryChallengers(players, i, matches, newId, depth).Defined? ==>
      SoundPairing(TryChallengers(players, i, matches, newId, depth).value, players, matches, newId, depth)
    decreases |players|, 0, |players| - i
  {
    var r := TryChallengers(players, i, matches, newId, depth);
    if i >= |players| - 1 {
      assert r == Undefined;
    } else if PairInMatches(players[0].id, players[1..][i].id, matches) {
      assert r == TryChallengers(players, i + 1, matches, newId, depth);
      TrySound(players, i + 1, matches, newId, depth);
    } else {
      var newPair := Pair(players[0].id, players[1..][i].id, NoWinner, newId(depth));
      var rests := Rests(players, i);
      if |rests| >= 2 {
        var sub := MakePairRecursive(rests, matches, newId, depth + 1);
        if sub.Defined? {
          assert r == Defined([newPair] + sub.value);
          MakePairSound(rests, matches, newId, depth + 1);
          ConsSound(players, i, matches, newId, depth, sub.value);
        } else if sub.Undefined? {
          assert r == TryChallengers(players, i + 1, matches, newId, depth);
          TrySound(players, i + 1, matches, newId, depth);
        } else {
          assert r == Thrown;
        }
      } else {
        assert r == Defined([newPair]);
        assert [newPair] + [] == [newPair];
        ConsSound(players, i, matches, newId, depth, []);
      }
    }
  }

  /** Removing the first player and the `i`-th challenger removes their two ids. */
  lemma RestsIds(players: seq<Player>, i: nat)
    requires 1 <= |players| && i < |players| - 1
    ensures multiset(Ids(players)) == multiset(Ids(Rests(players, i))) + multiset{players[0].id, players[1..][i].id}
  {
    IdsHead(players);
    IdsRemove(players[1..], i);
  }

  /** A fresh pair of the first player and a challenger, followed by a sound pairing of the rest, is sound. */
  lemma ConsSound(players: seq<Player>, i: nat, matches: seq<Match>, newId: nat -> PairId, depth: nat, sub: seq<Pair>)
    requires 2 <= |players| && i < |players| - 1
    requires !PairInMatches(players[0].id, players[1..][i].id, matches)
    requires SoundPairing(sub, Rests(players, i), matches, newId, depth + 1)
    ensures SoundPairing([Pair(players[0].id, players[1..][i].id, NoWinner, newId(depth))] + sub, players, matches, newId, depth)
  {
    var pairs := [Pair(players[0].id, players[1..][i].id, NoWinner, newId(depth))] + sub;
    HalfOfTwoMore(|players|);
    assert |pairs| == |players| / 2;
    ConsPairing(players, i, sub);
    assert IsPairingOf(pairs, multiset(Ids(players)));
    ConsPrecedes(players, i, sub);
    assert forall k :: 0 <= k < |pairs| ==> Precedes(players, pairs[k].left, pairs[k].right);
    forall k | 0 <= k < |pairs|
      ensures !PairInMatches(pairs[k].left, pairs[k].right, matches)
      ensures pairs[k].winner == NoWinner && pairs[k].id == newId(depth + k)
    {
      if k > 0 {
        assert pairs[k] == sub[k - 1];
      }
    }
    assert NoRematch(pairs, matches);
  }

  lemma HalfOfTwoMore(n: nat)
    requires n >= 2
    ensures (n - 2) / 2 + 1 == n / 2
  {
  }

  lemma ConsPairing(players: seq<Player>, i: nat, sub: seq<Pair>)
    requires 2 <= |players| && i < |players| - 1
    requires IsPairingOf(sub, multiset(Ids(Rests(players, i))))
    ensures forall p :: IsPairingOf([Pair(players[0].id, players[1..][i].id, NoWinner, p)] + sub, multiset(Ids(players)))
  {
    RestsIds(players, i);
    forall p ensures IsPairingOf([Pair(players[0].id, players[1..][i].id, NoWinner, p)] + sub, multiset(Ids(players))) {
      var pairs := [Pair(players[0].id, players[1..][i].id, NoWinner, p)] + sub;
      assert pairs[1..] == sub;
      assert Flatten(pairs) == [players[0].id, players[1..][i].id] + Flatten(sub);
    }
  }

  lemma ConsPrecedes(players: seq<Player>, i: nat, sub: seq<Pair>)
    requires 2 <= |players| && i < |players| - 1
    requires forall k :: 0 <= k < |sub| ==> Precedes(Rests(players, i), sub[k].left, sub[k].right)
    ensures forall p, k :: 0 <= k < |sub| + 1 ==>
      var pairs := [Pair(players[0].id, players[1..][i].id, NoWinner, p)] + sub;
      Precedes(players, pairs[k].left, pairs[k].right)
  {
    assert Precedes(players, players[0].id, players[1..][i].id) by {
      assert players[i + 1] == players[1..][i];
    }
    forall k | 0 <= k < |sub| ensures Precedes(players, sub[k].left, sub[k].right) {
      PrecedesLift(players, i, sub[k].left, sub[k].right);
    }
  }

  // ---------------------------------------------------------------------
  // Completeness: the search fails only when no fresh pairing exists

  /**
   * If the `k`-th challenger can be taken, the loop started at any `i <= k`
   * returns a pairing.
   */
  lemma {:induction false} TryReaches(players: seq<Player>, i: nat, k: nat, matches: seq<Match>, newId: nat -> PairId, depth: nat)
    requires |players| >= 2 && |players| % 2 == 0
    requires i <= k < |players| - 1
    requires !PairInMatches(players[0].id, players[1..][k].id, matches)
    requires |Rests(players, k)| >= 2 ==> MakePairRecursive(Rests(players, k), matches, newId, depth + 1).Defined?
    ensures TryChallengers(players, i, matches, newId, depth).Defined?
    decreases k - i
  {
    if i < k {
      var rests := Rests(players, i);
      if !PairInMatches(players[0].id, players[1..][i].id, matches) && |rests| >= 2 {
        MakePairNeverThrows(rests, matches, newId, depth + 1);
      }
      TryReaches(players, i + 1, k, matches, newId, depth);
    }
  }

  lemma {:induction false} MakePairComplete(players: seq<Player>, matches: seq<Match>, newId: nat -> PairId, depth: nat, pairs: seq<Pair>)
    requires |players| >= 2 && |players| % 2 == 0
    requires IsPairingOf(pairs, multiset(Ids(players))) && NoRematch(pairs, matches)
    ensures MakePairRecursive(players, matches, newId, depth).Defined?
    decreases |players|
  {
    var k, others := PartnerOfFirst(players, matches, pairs);
    var rests := Rests(players, k);
    if |rests| >= 2 {
      MakePairComplete(rests, matches, newId, depth + 1, others);
    }
    TryReaches(players, 0, k, matches, newId, depth);
  }

  /**
   * In a fresh pairing of the field, the first player's partner is some
   * challenger `k` not met before, and the other pairs form a fresh pairing
   * of the rest.
   */
  lemma PartnerOfFirst(players: seq<Player>, matches: seq<Match>, pairs: seq<Pair>) returns (k: nat, others: seq<Pair>)
    requires |players| >= 2
    requires IsPairingOf(pairs, multiset(Ids(players))) && NoRematch(pairs, matches)
    ensures k < |players| - 1
    ensures !PairInMatches(players[0].id, players[1..][k].id, matches)
    ensures IsPairingOf(others, multiset(Ids(Rests(players, k)))) && NoRematch(others, matches)
  {
    var p0 := players[0].id;
    var challengers := players[1..];
    IdsHead(players);
    assert p0 in multiset(Flatten(pairs));
    var c;
    c, others := RemovePairOf(pairs, matches, p0);
    CancelFirst(multiset(Ids(challengers)), multiset(Flatten(others)), p0, c);
    assert c in multiset(Ids(challengers));
    k :| 0 <= k < |challengers| && Ids(challengers)[k] == c;
    IdsRemove(challengers, k);
    assert Rests(players, k) == challengers[..k] + challengers[k + 1..];
    MultisetCancel(multiset(Ids(Rests(players, k))), multiset(Flatten(others)), c);
  }

  lemma CancelFirst(a: multiset<PlayerId>, b: multiset<PlayerId>, x: PlayerId, c: PlayerId)
    requires multiset{x} + a == b + multiset{x, c}
    ensures a == b + multiset{c}
  {
    forall y ensures a[y] == (b + multiset{c})[y] {
      assert (multiset{x} + a)[y] == (b + multiset{x, c})[y];
    }
  }

  /**
   * Taking out of a fresh pairing the pair that holds `x` leaves a fresh
   * pairing of the others; `x`'s partner `c` was not met before.
   */
  lemma RemovePairOf(pairs: seq<Pair>, matches: seq<Match>, x: PlayerId) returns (c: PlayerId, others: seq<Pair>)
    requires x in multiset(Flatten(pairs)) && NoRematch(pairs, matches)
    ensures multiset(Flatten(pairs)) == multiset(Flatten(others)) + multiset{x, c}
    ensures NoRematch(others, matches)
    ensures !PairInMatches(x, c, matches)
  {
    var q;
    q, c := PairOf(pairs, x);
    others := pairs[..q] + pairs[q + 1..];
    assert !PairInMatches(pairs[q].left, pairs[q].right, matches);
    if pairs[q].left != x {
      PairInMatchesSymmetric(x, c, matches);
    }
    NoRematchRemove(pairs, q, matches);
  }

  /** The pair `q` that holds `x`, and `x`'s partner `c` on it. */
  lemma PairOf(pairs: seq<Pair>, x: PlayerId) returns (q: nat, c: PlayerId)
    requires x in multiset(Flatten(pairs))
    ensures q < |pairs|
    ensures (pairs[q].left == x && pairs[q].right == c) || (pairs[q].right == x && pairs[q].left == c)
    ensures multiset(Flatten(pairs)) == multiset(Flatten(pairs[..q] + pairs[q + 1..])) + multiset{x, c}
  {
    assert x in Flatten(pairs);
    FlattenHasPairOf(pairs, x);
    q :| 0 <= q < |pairs| && (pairs[q].left == x || pairs[q].right == x);
    if pairs[q].left == x {
      c := pairs[q].right;
    } else {
      c := pairs[q].left;
    }
    FlattenRemovePartner(pairs, q, x, c);
  }

  lemma NoRematchRemove(pairs: seq<Pair>, q: nat, matches: seq<Match>)
    requires q < |pairs| && NoRematch(pairs, matches)
    ensures NoRematch(pairs[..q] + pairs[q + 1..], matches)
  {
    var others := pairs[..q] + pairs[q + 1..];
    forall t | 0 <= t < |others| ensures !PairInMatches(others[t].left, others[t].right, matches) {
      assert others[t] == if t < q then pairs[t] else pairs[t + 1];
    }
  }

  /**
   * On an even field of at least two, the search returns `undefined` exactly
   * when no pairing of these players avoids every past pair.
   */
  lemma MakePairUndefinedIffNoFreshPairing(players: seq<Player>, matches: seq<Match>, newId: nat -> PairId, depth: nat)
    requires |players| >= 2 && |players| % 2 == 0
    ensures MakePairRecursive(players, matches, newId, depth) == Undefined
            <==> !HasFreshPairing(multiset(Ids(players)), matches)
  {
    MakePairNeverThrows(players, matches, newId, depth);
    var r := MakePairRecursive(players, matches, newId, depth);
    if HasFreshPairing(multiset(Ids(players)), matches) {
      var pairs: seq<Pair> :| IsPairingOf(pairs, multiset(Ids(players))) && NoRematch(pairs, matches);
      MakePairComplete(players, matches, newId, depth, pairs);
    }
    if r.Defined? {
      MakePairSound(players, matches, newId, depth);
    }
  }

  // ---------------------------------------------------------------------
  // swissDraw

  /**
   * `swissDraw`: sort by wins, (do not) pad with the ghost player, search;
   * an error thrown by the search propagates.
   */
  function SwissDraw(players: seq<Player>, matches: seq<Match>, ghostPlayer: Player, matchId: MatchId, newId: nat -> PairId)
    : Outcome<Match>
  {
    var sortedPlayers := ToEven(MakeSortedPlayers(players, matches), ghostPlayer);
    match MakePairRecursive(sortedPlayers, matches, newId, 0)
    case Thrown => Thrown
    case Undefined => Undefined
    case Defined(pairList) => Defined(Match(pairList, matchId))
  }

  /** The draw throws exactly on fewer than two players or an odd field. */
  lemma SwissDrawThrowsIffBadSize(players: seq<Player>, matches: seq<Match>, ghostPlayer: Player, matchId: MatchId, newId: nat -> PairId)
    ensures SwissDraw(players, matches, ghostPlayer, matchId, newId) == Thrown <==> |players| <= 1 || |players| % 2 != 0
  {
    var sorted := MakeSortedPlayers(players, matches);
    assert |sorted| == |multiset(sorted)| == |multiset(players)| == |players|;
    MakePairThrowsIffBadSize(sorted, matches, newId, 0);
  }

  /**
   * A drawn match pairs every player once, repeats no past pair (so it
   * passes `isUniqueMatch`), is undecided, and its first pair is led by a
   * player with the most wins.
   */
  lemma SwissDrawSound(players: seq<Player>, matches: seq<Match>, ghostPlayer: Player, matchId: MatchId, newId: nat -> PairId)
    requires SwissDraw(players, matches, ghostPlayer, matchId, newId).Defined?
    ensures var m := SwissDraw(players, matches, ghostPlayer, matchId, newId).value;
      && m.id == matchId
      && |m.pairList| == |players| / 2
      && IsPairingOf(m.pairList, multiset(Ids(players)))
      && IsUnique(m, matches)
      && (forall k :: 0 <= k < |m.pairList| ==> m.pairList[k].winner == NoWinner)
      && (forall p :: p in players ==> WinCount(m.pairList[0].left, matches) >= WinCount(p.id, matches))
  {
    var sorted := MakeSortedPlayers(players, matches);
    assert |sorted| == |multiset(sorted)| == |multiset(players)| == |players|;
    MakePairSound(sorted, matches, newId, 0);
    IdsOfPermutation(sorted, players);
    var m := SwissDraw(players, matches, ghostPlayer, matchId, newId).value;
    UniqueIffNoPairPlayed(m, matches);
    forall p | p in players ensures WinCount(m.pairList[0].left, matches) >= WinCount(p.id, matches) {
      assert p in multiset(sorted);
      var j :| 0 <= j < |sorted| && sorted[j] == p;
    }
  }

  /**
   * On an even field of at least two, the draw returns `undefined` exactly
   * when no pairing of the players avoids every past pair.
   */
  lemma SwissDrawUndefinedIffExhausted(players: seq<Player>, matches: seq<Match>, ghostPlayer: Player, matchId: MatchId, newId: nat -> PairId)
    requires |players| >= 2 && |players| % 2 == 0
    ensures SwissDraw(players, matches, ghostPlayer, matchId, newId) == Undefined
            <==> !HasFreshPairing(multiset(Ids(players)), matches)
  {
    var sorted := MakeSortedPlayers(players, matches);
    assert |sorted| == |multiset(sorted)| == |multiset(players)| == |players|;
    IdsOfPermutation(sorted, players);
    MakePairUndefinedIffNoFreshPairing(sorted, matches, newId, 0);
  }

  /** Every two distinct players of the field have met in the history. */
  ghost predicate AllPairsPlayed(players: seq<Player>, matches: seq<Match>)
  {
    forall x, y :: 0 <= x < y < |players| ==> PairInMatches(players[x].id, players[y].id, matches)
  }

  /** The ids of the players are distinct. */
  ghost predicate DistinctIds(players: seq<Player>)
  {
    forall x, y :: 0 <= x < y < |players| ==> players[x].id != players[y].id
  }

  /**
   * Once every two players have met, the next draw on an even field of
   * distinct players finds nothing.
   */
  lemma ExhaustedHistoryDrawsNothing(players: seq<Player>, matches: seq<Match>, ghostPlayer: Player, matchId: MatchId, newId: nat -> PairId)
    requires |players| >= 2 && |players| % 2 == 0
    requires DistinctIds(players) && AllPairsPlayed(players, matches)
    ensures SwissDraw(players, matches, ghostPlayer, matchId, newId) == Undefined
  {
    SwissDrawUndefinedIffExhausted(players, matches, ghostPlayer, matchId, newId);
    if HasFreshPairing(multiset(Ids(players)), matches) {
      var pairs: seq<Pair> :| IsPairingOf(pairs, multiset(Ids(players))) && NoRematch(pairs, matches);
      var x, y := FirstPairPositions(players, pairs);
      PairInMatchesSymmetric(pairs[0].right, pairs[0].left, matches);
    }
  }

  /** In a pairing of a field of distinct players, the first pair's two players sit at two different positions. */
  lemma FirstPairPositions(players: seq<Player>, pairs: seq<Pair>) returns (x: nat, y: nat)
    requires |players| >= 2 && DistinctIds(players)
    requires IsPairingOf(pairs, multiset(Ids(players)))
    ensures |pairs| > 0
    ensures x < |players| && y < |players| && x != y
    ensures players[x].id == pairs[0].left && players[y].id == pairs[0].right
  {
    assert |Flatten(pairs)| == |multiset(Ids(players))| == |players|;
    var a, b := pairs[0].left, pairs[0].right;
    FlattenMember(pairs, 0);
    assert a in multiset(Ids(players)) && b in multiset(Ids(players));
    x :| 0 <= x < |players| && Ids(players)[x] == a;
    y :| 0 <= y < |players| && Ids(players)[y] == b;
    if x == y {
      assert Flatten(pairs) == [a, a] + Flatten(pairs[1..]);
      assert multiset(Flatten(pairs))[a] >= 2;
      IdOnce(players, x);
      assert false;
    }
  }

  lemma IdOnce(players: seq<Player>, x: nat)
    requires DistinctIds(players) && x < |players|
    ensures multiset(Ids(players))[players[x].id] == 1
  {
    var s := players[..x];
    var t := players[x + 1..];
    assert players == s + [players[x]] + t;
    IdsConcat(s + [players[x]], t);
    IdsConcat(s, [players[x]]);
    assert players[x].id !in Ids(s);
    assert players[x].id !in Ids(t) by {
      forall j | 0 <= j < |t| ensures Ids(t)[j] != players[x].id {
        assert t[j] == players[x + 1 + j];
      }
    }
  }
}
