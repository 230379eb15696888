# swiss_draw: a verified model of the pairing and ranking engine

swiss_draw is a small web application for running a Swiss-system tournament.
It keeps a list of players and a history of matches. A match is one round. It
holds a list of pairs, and each pair is one game between a left and a right
player with a winner: `left`, `right` or `none`. This project models the engine
behind the pages in Dafny and proves what the engine promises. The engine has
these parts:

- the pair primitives (`src/lib/pair.ts`): who won, which side a player is on,
  who the opponent is;
- the standings counters (`src/lib/match.ts`): wins, wins up to a round, the
  opponents' wins (a Buchholz-style score) and the wins of defeated opponents;
- the Swiss draw (`src/lib/match.ts`): sort the players by wins, then search
  with backtracking for the first pairing, in list order, that repeats no game
  of the history;
- the closed-schedule variant (`makeAllMatches`, `swissDraw2`): build every
  round of a round-robin up front, then pick the remaining round whose pairs
  are closest in wins;
- the round-robin generator (`src/lib/roundRobin.ts`): the circle method on an
  index array that is rotated in place;
- the standings table comparator (`src/components/rankTable.tsx`);
- the page's two handlers (`src/app/page.tsx`): making the next match, with
  byes awarded on an odd field, and recording a result by clicking a player;
- player name validation and look-up (`src/lib/player.ts`) and the list helpers
  (`src/lib/util.ts`).

Files and modules:

| file | module | contents |
|---|---|---|
| `types.dfy` | `Types` | records, `Option`, `Outcome` (thrown / `undefined` / a value), list lemmas |
| `util.dfy` | `Util` | `isEven`, `isEmpty`, `makeSequentialArray`, `shuffle` as a rearrangement |
| `pair.dfy` | `PairOps` | `getWinnerId`, `getSide`, `getOpponentId` |
| `sorting.dfy` | `Sorting` | `toSorted` as a stable insertion sort, and its sortedness lemma |
| `standings.dfy` | `Standings` | the four counters: loops proved against recursive definitions |
| `history.dfy` | `History` | `existPairInMatch(es)`, `isUniqueMatch`, `getPairInMatch` |
| `swiss.dfy` | `SwissPairing` | `makeSortedPlayers`, `toEven`, `makePairRecursive`, `swissDraw` |
| `roundrobin.dfy` | `RoundRobin` | `roundRobin` with its in-place rotation, and the circle-method proofs |
| `closed_schedule.dfy` | `ClosedSchedule` | `makeAllMatches` |
| `closed_draw.dfy` | `ClosedDraw` | `getMinMax`, `swissDraw2` |
| `rank_table.dfy` | `RankTable` | the table rows and the ranking comparator |
| `player.dfy` | `Players` | name validation and look-up |
| `page.dfy` | `Page` | `handleMakeMatch` and `handleWin` on a page object |

Modelling choices:

- Ids are strings. `makeId` is random, so the model takes the new ids as
  parameters: `newId(depth)` for the pair created at recursion depth `depth`,
  `pairId(round, k)` and `matchId(round)` for the schedule, and a `matchId` for
  the drawn match.
- `toSorted` is stable for a consistent comparator. The last-resort
  tie-break `Math.random() - 0.5` makes the comparator inconsistent, so
  ECMAScript leaves the order implementation-defined. The model reads the
  tie-break as 0 and sorts with a stable insertion sort, which gives one of
  the orders the application can produce. Every ordering property below is
  stated only over the comparator's deterministic keys.
- `shuffle` is random. `MakeAllMatches` takes the already shuffled list, and
  the lemmas about the original players assume only that it is a
  rearrangement of them (`Util.IsShuffleOf`).
- A thrown `Error` becomes `Outcome.Thrown`, and `undefined` becomes
  `Outcome.Undefined` or `Option.None`.
- JavaScript truthiness of a possibly undefined id is `PairOps.Truthy`: defined
  and not the empty string.
- The page is a class `Page.TournamentPage` whose `players` and `matches`
  fields stand for the React state. `alert` becomes a returned `Notice`;
  `Notice.DrawFailed` stands for the draw's `Error`, which escapes
  `handleMakeMatch` uncaught, so the application shows no dialog for it.

Where the code and its documented intent differ, the model follows the code:

- `toEven` returns the players unchanged in both branches. It never adds the
  ghost player, so an odd field reaches the odd-length error of
  `makePairRecursive`, and the draw throws. The page's bye step therefore
  never runs in the real flow. `Page.OddFieldAddsNothing` proves this. The bye
  step is still modelled and proved (`Page.ResolveByes`, `Page.ByeStep`).
- `getMinMax` builds `{min: left, max: right}` in both branches, so it is the
  identity and never reorders. The pair comparator of `swissDraw2` therefore
  sorts by the right player's wins, then the left player's wins.
- Clicking a player who is on neither side of a pair clears its winner, since
  `getSide` answers `none`. It is not a no-op.
- The bounds guards in `roundRobin` join two impossible conditions with `&&`,
  so they never fire. The model has no such branch. Instead every array access
  is proved in bounds.

## Model

| member | source | states |
|---|---|---|
| `Util.IsEmptyIsEmptySeq` | src/lib/util.ts:9-11 | `isEmpty` holds exactly for the empty list |
| `Util.MakeSequentialArray` | src/lib/util.ts:17-19 | the result has length `n` and holds `i` at index `i` |
| `Util.SequentialArrayIsRange` | src/lib/util.ts:17-19 | every number below `n` occurs exactly once, and no other number occurs |
| `PairOps.GetWinnerId` | src/lib/pair.ts:1-10 | defined exactly when the pair is decided; the left id for `left`, the right id for `right` |
| `PairOps.GetSide` | src/lib/pair.ts:12-20 | `left` exactly for the left id; `right` exactly for a right id that is not also the left id; `none` exactly for an id on neither side |
| `PairOps.GetOpponentId` | src/lib/pair.ts:22-30 | undefined exactly when the id is on neither side; otherwise the id on the other side, with the left side checked first |
| `PairOps.WinnerIsOnWinningSide` | src/lib/pair.ts:1-20 | for a decided pair with two different players, the side of the winner is the recorded winner |
| `PairOps.OpponentSwapsSides` | src/lib/pair.ts:22-30 | with two different players, the opponent of each side is the other side |
| `PairOps.OpponentInvolutive` | src/lib/pair.ts:22-30 | the opponent of the opponent of a seated player is that player |
| `PairOps.ExistPairSymmetric` | src/lib/match.ts:2 | the assumed `existPair` does not depend on the order of the two ids |
| `Standings.WinCount` | src/lib/match.ts:31-42 | a player wins at most once per match, so the win count is at most the number of matches |
| `Standings.GetPlayerWinCount` | src/lib/match.ts:31-42 | the loop with its `break` returns the number of matches in which the player won some pair |
| `Standings.UntilMatch` | src/lib/match.ts:45-64 | the counted matches are a prefix of the history, hold no match with the given id, and stop just before the first one that has it |
| `Standings.UntilMatchIsPrefix` | src/lib/match.ts:45-64 | that prefix is exactly the matches before the first match with the id, or all of them |
| `Standings.GetPlayerWinCountUntilMatchId` | src/lib/match.ts:45-64 | the loop returns the win count over the matches before the first one with the given id |
| `Standings.UntilAbsentMatchCountsAll` | src/lib/match.ts:45-64 | for an id that is not in the history, the count equals the full win count |
| `Standings.WinCountPrefixMonotone` | src/lib/match.ts:31-42 | a prefix of the history never holds more wins than the whole |
| `Standings.WinsUntilAtMostWins` | src/lib/match.ts:45-64 | the wins up to a round never exceed the total wins |
| `Standings.FirstOpponent` | src/lib/match.ts:67-79 | the opponent found in a match is truthy and is the opponent in pair `j`, and no pair before `j` yields a truthy opponent (the loop's `break`); none exactly when no pair has one |
| `Standings.GetOpponentWinCount` | src/lib/match.ts:67-79 | the loop returns the sum, over the matches, of the total wins of the player's opponent in that match |
| `Standings.FirstDefeated` | src/lib/match.ts:82-101 | the defeated opponent found in a match is the truthy opponent in a pair `j` the player won, and no pair before `j` is a won pair with a truthy opponent (the loop's `break`); none exactly when no won pair has one |
| `Standings.GetDefeatedOpponentWinCount` | src/lib/match.ts:82-101 | the loop returns the sum, over the matches, of the total wins of the opponent the player beat in that match |
| `Standings.DefeatedIsOpponent` | src/lib/match.ts:67-101 | when the player sits in at most one pair of a match, the opponent it beat there is its opponent there |
| `Standings.DefeatedSumAtMostOpponentSum` | src/lib/match.ts:67-101 | under that condition, the defeated sum is at most the opponent sum, over any stretch of matches |
| `Standings.DefeatedAtMostOpponentWins` | src/lib/match.ts:67-101 | when every player sits at most once per match, the defeated opponents' wins never exceed the opponents' wins |
| `History.ExistPairInMatch` | src/lib/match.ts:103-114 | true exactly when some pair of the match holds the two players, in either order |
| `History.ExistPairInMatches` | src/lib/match.ts:116-127 | true exactly when some match of the history holds such a pair |
| `History.PairInMatchesSymmetric` | src/lib/match.ts:116-127 | whether two players met does not depend on their order |
| `History.IsUniqueMatch` | src/lib/match.ts:343-354 | the three nested loops return true exactly when no pair of the new match repeats a pair of any past match |
| `History.UniqueIffNoPairPlayed` | src/lib/match.ts:343-354 | a match is unique exactly when none of its pairs was played before, as `existPairInMatches` sees it |
| `History.GetPairInMatch` | src/lib/match.ts:206-213 | the first pair holding the player, or undefined exactly when no pair holds it |
| `SwissPairing.MakeSortedPlayers` | src/lib/match.ts:130-141 | the result is a rearrangement of the players with win counts non-increasing |
| `SwissPairing.ToEven` | src/lib/match.ts:143-145 | the players come back unchanged in both branches, so an odd field is not padded |
| `SwissPairing.MakePairThrowsIffBadSize` | src/lib/match.ts:168-204 | the search throws exactly for fewer than two players or an odd number; a throw deeper down never happens |
| `SwissPairing.MakePairSound` | src/lib/match.ts:180-199 | a found pairing has `n/2` pairs, holds every player exactly once, has no pair played before, has every pair undecided with the id of its depth, puts each left player before its right player in the list, and starts with the first player on the left |
| `SwissPairing.MakePairComplete` | src/lib/match.ts:180-203 | on an even field of at least two, if any pairing of the players avoids every past pair, the backtracking search finds one |
| `SwissPairing.MakePairUndefinedIffNoFreshPairing` | src/lib/match.ts:168-204 | on an even field of at least two, the search returns `undefined` exactly when no pairing of the players avoids every past pair |
| `SwissPairing.SwissDrawThrowsIffBadSize` | src/lib/match.ts:147-178 | the draw throws exactly for fewer than two players or an odd field, because `toEven` does not pad |
| `SwissPairing.SwissDrawSound` | src/lib/match.ts:147-166 | a drawn match has the given id and `n/2` undecided pairs, seats every player exactly once, passes `isUniqueMatch` against the history, and its first player has the most wins |
| `SwissPairing.SwissDrawUndefinedIffExhausted` | src/lib/match.ts:147-166 | on an even field of at least two, the draw is `undefined` exactly when no pairing avoids every past pair |
| `SwissPairing.ExhaustedHistoryDrawsNothing` | src/lib/match.ts:147-204 | once every two players of an even field with distinct ids have met, the draw finds nothing |
| `RoundRobin.Rotated` | src/lib/roundRobin.ts:59-63 | the rotation keeps the elements as a multiset; above three elements it keeps the head, moves the last element to position 1 and shifts the rest right by one |
| `RoundRobin.RotateLastToSecond` | src/lib/roundRobin.ts:59-63 | the two splices on the array leave it equal to the rotation of its old contents |
| `RoundRobin.IndicesAt` | src/lib/roundRobin.ts:29-63 | the index list has `n` entries below `n` in every round |
| `RoundRobin.RoundOf` | src/lib/roundRobin.ts:39-56 | a round has `n/2` index pairs |
| `RoundRobin.RoundOfAt` | src/lib/roundRobin.ts:41-55 | pair `k` of a round is (position `n/2 + k`, position `n/2 - k - 1`) |
| `RoundRobin.Schedule` | src/lib/roundRobin.ts:31-64 | `n - 1` rounds of `n/2` pairs, with every index below `n` |
| `RoundRobin.ReadRound` | src/lib/roundRobin.ts:39-56 | the inner loop reads the round off the array, with every access in bounds |
| `RoundRobin.RoundRobin` | src/lib/roundRobin.ts:4-66 | for an even length of at least two, the nested loops over the rotating array return the whole schedule |
| `RoundRobin.IndicesClosedForm` | src/lib/roundRobin.ts:29-63 | after `r` rotations, position 0 holds 0 and position `j > 0` holds `1 + (j - 1 - r) mod (n - 1)` |
| `RoundRobin.RoundIsPerfectMatching` | src/lib/roundRobin.ts:40-56 | each round seats every index below `n` exactly once |
| `RoundRobin.RoundEntrantsArePermutation` | src/lib/roundRobin.ts:29-56 | the seats of a round are a rearrangement of `makeSequentialArray(n)` |
| `RoundRobin.LastPairHoldsZero` | src/lib/roundRobin.ts:53-55 | the last pair of round `r` is (`n - 1 - r`, 0): index 0 is always its right side |
| `RoundRobin.EveryPairMeetsOnce` | src/lib/roundRobin.ts:34-64 | every two different indices meet in some round, and in exactly one pair of the whole schedule |
| `RoundRobin.SixPlayerExample` | src/lib/roundRobin.ts:6-24 | for six players the first round is (3,2), (4,1), (5,0) and the rotated array is 0, 5, 1, 2, 3, 4 |
| `ClosedSchedule.EvenPlayers` | src/lib/match.ts:216-219 | an even field is kept; an odd field gets the ghost player in front; the result is even |
| `ClosedSchedule.RoundPairs` | src/lib/match.ts:222-230 | each index pair becomes an undecided pair of the players at those indices, with its own id |
| `ClosedSchedule.MakeAllMatches` | src/lib/match.ts:215-234 | `n - 1` matches for the padded field of `n`, none for an empty one; match `i` has id `matchId(i)` |
| `ClosedSchedule.MatchIsRound` | src/lib/match.ts:221-233 | match `i` is round `i` of the round-robin over the padded field |
| `ClosedSchedule.EveryMatchHasHalfTheField` | src/lib/match.ts:221-233 | every match has half as many pairs as the padded field has players |
| `ClosedSchedule.AllMatchesUndecided` | src/lib/match.ts:222-230 | every generated pair is undecided |
| `ClosedSchedule.EachMatchSeatsEveryoneOnce` | src/lib/match.ts:215-234 | every match seats each player of the padded field exactly once |
| `ClosedSchedule.EvenPlayersAreThePlayers` | src/lib/match.ts:215-219 | for a shuffle of the players, the padded field is the players, plus the ghost when their number is odd |
| `ClosedSchedule.MeetingIsScheduled` | src/lib/match.ts:221-233 | with distinct ids, a generated pair holds two players exactly when the round-robin pair holds their indices |
| `ClosedSchedule.TwoPlayersMeet` | src/lib/match.ts:215-234 | with distinct ids, any two different players of the padded field meet in some generated pair |
| `ClosedSchedule.TwoPlayersMeetAtMostOnce` | src/lib/match.ts:215-234 | with distinct ids, two generated pairs that seat the same two players are the same pair of the same match |
| `ClosedSchedule.EveryTwoPlayersMeetOnce` | src/lib/match.ts:215-234 | with distinct ids, every two players of the padded field meet in exactly one pair of the generated matches |
| `ClosedDraw.GetMinMax` | src/lib/match.ts:236-245 | the result is `min = left`, `max = right` in both branches, so `min <= max` holds exactly when `left <= right` |
| `ClosedDraw.WinCountMap` | src/lib/match.ts:260-263 | the map has a key for exactly the players' ids |
| `ClosedDraw.BuildWinCountMap` | src/lib/match.ts:260-263 | the loop fills a map whose keys are the players' ids, each mapped to its win count over the past matches |
| `ClosedDraw.PairCompare` | src/lib/match.ts:269-289 | for two rated pairs, the pair with more right-side wins comes first, then the one with more left-side wins; 0 when either pair has an unrated player |
| `ClosedDraw.SortPairs` | src/lib/match.ts:266-291 | sorting a match's pairs keeps its id and its pairs as a multiset |
| `ClosedDraw.SortPairsOrdered` | src/lib/match.ts:266-291 | when every player is rated, the sorted pairs are ordered by the pair comparator |
| `ClosedDraw.WinGap` | src/lib/match.ts:312-313 | the win difference of a pair is the absolute difference of its two win counts |
| `ClosedDraw.MatchCompare` | src/lib/match.ts:298-320 | for two fully rated matches, the comparator is the lexicographic order of their lists of win differences, up to the shorter list |
| `ClosedDraw.CompareMatches` | src/lib/match.ts:298-320 | the loop with its early return computes the match comparator |
| `ClosedDraw.DiffOrderIsKeyCmp` | src/lib/match.ts:298-320 | on rated matches the comparator is the comparison of the two lists of win differences |
| `ClosedDraw.KeyCmpIsLexicographic` | src/lib/match.ts:301-319 | that comparison is negative exactly when the lists agree up to an index where the first is smaller |
| `ClosedDraw.KeyCmpAntisymmetric` | src/lib/match.ts:301-319 | swapping the two lists negates the comparison |
| `ClosedDraw.KeyCmpTransitive` | src/lib/match.ts:301-319 | on lists of equal length, the comparison is transitive |
| `ClosedDraw.DrawOrder` | src/lib/match.ts:294-320 | the sorted remaining matches are a rearrangement of the remaining matches with their pairs sorted |
| `ClosedDraw.DrawOrderKeepsMatches` | src/lib/match.ts:294-320 | the sorted matches have the same ids, and each keeps the pairs of a remaining match as a multiset |
| `ClosedDraw.DrawOrderFirstIsClosest` | src/lib/match.ts:294-323 | on remaining matches of equal size where every player is rated, the chosen match's win-difference list is lexicographically no larger than that of any remaining match |
| `ClosedDraw.SwissDraw2` | src/lib/match.ts:247-324 | nothing for no remaining match; the only one for one, with nothing left; otherwise the first match of the draw order, with the rest of that order left, which is one shorter |
| `RankTable.CellInfos` | src/components/rankTable.tsx:14-16 | one row per player, in player order, with its name, id, wins, opponents' wins and defeated opponents' wins |
| `RankTable.FirstDecidedIn` | src/components/rankTable.tsx:36-48 | the result is the recorded winner of a decided pair `j` of the two players, and no pair before `j` is one; it is one of the two; none exactly when they have no decided pair in the match |
| `RankTable.FirstDecided` | src/components/rankTable.tsx:35-50 | the result is that of the first match `i` in which the two players have a decided pair, every earlier match having none; it is one of the two; none exactly when no match has one |
| `RankTable.FirstDecidedSymmetric` | src/components/rankTable.tsx:35-50 | the first decided game between two players does not depend on their order |
| `RankTable.HeadToHead` | src/components/rankTable.tsx:34-50 | -1 exactly when `a` won their first decided game; 1 exactly when `b` won it; 0 exactly when they have none |
| `RankTable.HeadToHeadLoop` | src/components/rankTable.tsx:34-50 | the nested loops with their early returns compute the head-to-head result |
| `RankTable.RankCompare` | src/components/rankTable.tsx:18-50 | better wins, then opponents' wins, then defeated opponents' wins rank first; with all three equal, the winner of the first decided game ranks first |
| `RankTable.RankCompareAntisymmetric` | src/components/rankTable.tsx:18-50 | for rows of two different players, swapping the rows negates the comparator |
| `RankTable.RankedCellInfos` | src/components/rankTable.tsx:18-52 | the ranking is a rearrangement of the rows |
| `RankTable.RankingOrdered` | src/components/rankTable.tsx:18-52 | the ranking has one row per player, and no row stands above a row with better scores |
| `Players.CountNameTwice` | src/lib/player.ts:14-22 | more than one player carries the name exactly when two different players carry it |
| `Players.HasDuplicatedPlayerName` | src/lib/player.ts:14-22 | the counting loop answers true exactly when two different players carry the name |
| `Players.IsValidPlayerName` | src/lib/player.ts:24-35 | `empty` exactly for the empty name; `duplicated` exactly for a non-empty name two players carry; `valid` otherwise |
| `Players.SmallFieldHasNoDuplicate` | src/lib/player.ts:14-35 | a field of at most one player never makes a name a duplicate |
| `Players.GetHelperTextForNameValidation` | src/lib/player.ts:37-49 | the text is non-empty exactly for a duplicated name, and then it is the "already in use" message |
| `Players.FindPlayerById` | src/lib/player.ts:51-53 | the first player with the id, or undefined exactly when no player has it |
| `Players.GetPlayerName` | src/lib/player.ts:55-62 | the name of the first player with the id, or "" when no player has it |
| `Players.NameOfListedPlayer` | src/lib/player.ts:51-62 | with distinct ids, a player's name is found by its id |
| `Page.ToggledPair` | src/app/page.tsx:182-186 | clicking the current winner clears the result; clicking anyone else sets the winner to their side, which is `none` for an id on neither side; players and id are kept |
| `Page.ToggleTwiceRestores` | src/app/page.tsx:182-186 | two clicks on the same player restore a pair that was undecided or won by that player's side |
| `Page.ToggleTwiceOverridesOtherSide` | src/app/page.tsx:182-186 | a pair the other side had won is not restored: the first click hands the win over, the second clears it |
| `Page.ToggledPairs` | src/app/page.tsx:180-190 | only the pair with the given id is toggled, in place |
| `Page.WinToggled` | src/app/page.tsx:176-196 | only the match with the given id has its pairs toggled; the other matches are kept |
| `Page.OnlyTargetChanges` | src/app/page.tsx:176-196 | after a click, every match keeps its id, size and order, every pair keeps its players and id, and only the targeted pair's winner can change |
| `Page.HasUndecidedPair` | src/app/page.tsx:135-143 | the nested loops answer true exactly when some pair of the history is undecided |
| `Page.ResolveByes` | src/app/page.tsx:153-165 | a pair with the ghost on the left is won by the right side, one with the ghost on the right by the left side, and every other pair is unchanged |
| `Page.ResolveByesInPlace` | src/app/page.tsx:156-163 | assigning the winner pair by pair in the array leaves it equal to the bye-resolved pairs |
| `Page.ByeGoesToOpponent` | src/app/page.tsx:153-165 | in a pair of the ghost and another player, the winner is the player who is not the ghost |
| `Page.NewMatch` | src/app/page.tsx:153-167 | the appended match keeps the drawn id; it is the drawn match on an even field and has its byes resolved on an odd one |
| `Page.ByeStep` | src/app/page.tsx:153-165 | the bye loop over an array of the drawn pairs yields the appended match |
| `Page.TournamentPage.HandleMakeMatch` | src/app/page.tsx:134-169 | with an undecided pair in the history, nothing is added; when the draw throws or finds nothing, nothing is added; otherwise the new match is appended at the end; the players never change; the new history is `AfterMakeMatch` of the old state, so `OddFieldAddsNothing` and `AddedMatchIsSound` hold of the page itself |
| `Page.TournamentPage.HandleWin` | src/app/page.tsx:171-197 | the history becomes the toggled history; the players never change |
| `Page.AfterMakeMatch` | src/app/page.tsx:134-169 | one call leaves the history unchanged or appends exactly one match after it |
| `Page.OddFieldAddsNothing` | src/app/page.tsx:145-165 | on an odd field the draw throws, so the handler never adds a match and the bye step is never reached |
| `Page.AddedMatchIsSound` | src/app/page.tsx:134-169 | when a match is added, the history was fully decided, and the new match has the given id, seats every player once, repeats no past pair and is undecided |

## Left out

- Randomness: `makeId` (`crypto.randomUUID`) and `shuffle` are not modelled.
  Ids are parameters, and a shuffle is any rearrangement of the players.
- The random last tie-break of the rank comparator and of `makeSortedPlayers`
  is read as 0.
- `RankTable.RankingOrdered` states sortedness only by the three scores, not
  by the head-to-head step, because that step is not transitive: three
  players can beat each other in a circle.
- `RankTable.RankCompare`: with equal scores and the same id on both rows, it
  states only the `-1` direction. Two rows of one player do not occur.
- `toSorted` is modelled by a stable insertion sort. `toSorted` is stable only
  for a consistent comparator. Some comparators here are not consistent: the
  random tie-break, head-to-head cycles in the ranking, and the `swissDraw2`
  comparators. `PairCompare` returns 0 whenever a pair is unrated (the ghost
  player's pair), and `MatchCompare` inherits that. For such a comparator
  ECMAScript leaves the whole result order implementation-defined. The
  orderings that `RankTable.RankingOrdered`, `SwissPairing.MakeSortedPlayers`,
  `ClosedDraw.SortPairs` and `ClosedDraw.DrawOrder` give are proved for the
  insertion-sort model, which is one order the application can produce.
- `ExistPair` and `HasPlayerInPair` are imported from `src/lib/pair.ts` but
  are not defined in it. The model assumes unordered equality of the two
  players for `existPair`, and membership for `hasPlayerInPair`.
- `RoundRobin.RoundRobin` requires an even length of at least two. That is what
  the `console.assert` at the top of the function demands. For other lengths
  the source only logs a message and goes on; that path is not modelled.
- `ClosedDraw.SwissDraw2` requires every remaining match to have the same
  number of pairs. That is what its `console.assert` demands. With unequal
  sizes the source either throws on a missing pair or compares a prefix; that
  path is not modelled.
- `ClosedDraw.CompareMatches` requires the first match to have no more pairs
  than the second. Otherwise the source reads past the end of the second
  list and throws.
- `ClosedDraw.DrawOrderFirstIsClosest`: the chosen match is proved minimal
  only when every seated player has a win count in the map. Unrated pairs are
  skipped by the comparator, and that skipping does not make it an order.
- `ClosedSchedule.MakeAllMatches` states the number and ids of the matches.
  Their contents are stated through `ClosedSchedule.MatchIsRound` and the
  lemmas after it.
- `Page.ByeStep`: the source assigns `winner` on the pair objects of the drawn
  match in place. The model copies the pairs into a fresh array and updates
  that array, so aliasing of those objects is not captured. Nothing else
  holds them at that point.
- The type guards (`isPair`, `isPairs`, `isMatch`, `isMatches`, `isPlayer`,
  `isPlayers`) and the `printMatch` debugging helper are not modelled. They
  check or print data and decide nothing about pairings.
- React state, rendering, local storage, `alert` dialogs, scrolling and the QR
  code components are not modelled. `alert` becomes a returned notice.
- `src/lib/game.ts` is not part of this model.
