/**
 * `swissDraw2` (src/lib/match.ts): choosing the next round among the
 * rounds of the precomputed schedule that are still to play.
 *
 * Every player's win count is read into a map; the pairs of each
 * remaining match are sorted by the win counts of their players; then
 * the matches are sorted by the win differences of their pairs, index by
 * index, smallest first, and the first one is played next.
 */
module ClosedDraw {
  import opened Types
  import opened Util
  import opened Sorting
  import opened Standings

  /** The win counts of the field, keyed by player id. */
  type WinMap = map<PlayerId, nat>

  datatype MinMax = MinMax(min: int, max: int)

  /**
   * `getMinMax`. Both branches build the record from `left` as `min` and
   * `right` as `max`, so the result is never reordered: for `left > right`
   * its `min` exceeds its `max`.
   */
  function GetMinMax(left: int, right: int): (r: MinMax)
    ensures r.min == left && r.max == right
    ensures r.min <= r.max <==> left <= right
  {
    if left < right then MinMax(left, right) else MinMax(left, right)
  }

  // ---------------------------------------------------------------------
  // The win-count map

  /** The map `playerWinCountMap` holds once it is filled. */
  function WinCountMap(players: seq<Player>, pastMatches: seq<Match>): (m: WinMap)
    ensures forall id :: id in m <==> id in Ids(players)
  {
    map id | id in Ids(players) :: WinCount(id, pastMatches)
  }

  /** The loop that fills `playerWinCountMap`, one `set` per player. */
  method BuildWinCountMap(players: seq<Player>, pastMatches: seq<Match>) returns (m: WinMap)
    ensures forall id :: id in m <==> id in Ids(players)
    ensures forall id :: id in m ==> m[id] == WinCount(id, pastMatches)
    ensures m == WinCountMap(players, pastMatches)
  {
    m := map[];
    for i := 0 to |players|
      invariant forall id :: id in m <==> id in Ids(players[..i])
      invariant forall id :: id in m ==> m[id] == WinCount(id, pastMatches)
    {
      var count := GetPlayerWinCount(players[i].id, pastMatches);
      assert Ids(players[..i + 1]) == Ids(players[..i]) + [players[i].id];
      m := m[players[i].id := count];
    }
    assert players[..|players|] == players;
  }

  /** Both players of the pair have a win count in the map. */
  predicate Rated(w: WinMap, p: Pair)
  {
    p.left in w && p.right in w
  }

  predicate AllRated(w: WinMap, pairs: seq<Pair>)
  {
    forall k :: 0 <= k < |pairs| ==> Rated(w, pairs[k])
  }

  // ---------------------------------------------------------------------
  // Sorting the pairs of one match

  /**
   * The comparator of `toSortedMatchWithWinCount`. Because `getMinMax`
   * never swaps its arguments, it orders pairs by the right player's wins,
   * most first, then by the left player's wins, most first; a pair with a
   * player missing from the map ties with everything.
   */
  function PairCompare(w: WinMap, a: Pair, b: Pair): (c: int)
    ensures Rated(w, a) && Rated(w, b) ==>
      (c < 0 <==> w[a.right] > w[b.right] || (w[a.right] == w[b.right] && w[a.left] > w[b.left]))
    ensures Rated(w, a) && Rated(w, b) ==> (c == 0 <==> w[a.right] == w[b.right] && w[a.left] == w[b.left])
    ensures !(Rated(w, a) && Rated(w, b)) ==> c == 0
  {
    if a.left in w && a.right in w && b.left in w && b.right in w then
      var am := GetMinMax(w[a.left], w[a.right]);
      var bm := GetMinMax(w[b.left], w[b.right]);
      if am.max != bm.max then bm.max - am.max else bm.min - am.min
    else 0
  }

  /** `a` may stand before `b` in a sorted pair list. */
  ghost predicate PairFirst(w: WinMap, a: Pair, b: Pair)
  {
    Rated(w, a) && Rated(w, b) ==>
      w[a.right] > w[b.right] || (w[a.right] == w[b.right] && w[a.left] >= w[b.left])
  }

  /** `toSortedMatchWithWinCount`: the match with its pairs sorted, id unchanged. */
  function SortPairs(w: WinMap, m: Match): (r: Match)
    ensures r.id == m.id
    ensures multiset(r.pairList) == multiset(m.pairList)
  {
    Match(Sort(m.pairList, (a, b) => PairCompare(w, a, b)), m.id)
  }

  /** On a match whose players all have win counts, the sorted pairs are in `PairFirst` order. */
  lemma SortPairsOrdered(w: WinMap, m: Match)
    requires AllRated(w, m.pairList)
    ensures SortedBy(SortPairs(w, m).pairList, (a, b) => PairFirst(w, a, b))
  {
    var s := m.pairList;
    var le := (a, b) => PairFirst(w, a, b);
    var cmp := (a, b) => PairCompare(w, a, b);
    assert forall p :: p in s ==> Rated(w, p);
    assert TotalPreorderOn(s, le);
    assert RespectsOn(s, cmp, le);
    SortSorted(s, cmp, le);
  }

  // ---------------------------------------------------------------------
  // Sorting the matches

  function Abs(x: int): (r: nat)
    ensures r == x || r == -x
  {
    if x < 0 then -x else x
  }

  /** `Math.abs(left - right)` on the win counts of a rated pair. */
  function WinGap(w: WinMap, p: Pair): (r: nat)
    requires Rated(w, p)
    ensures r == w[p.left] as int - w[p.right] as int || r == w[p.right] as int - w[p.left] as int
  {
    Abs(w[p.left] as int - w[p.right] as int)
  }

  /**
   * The comparator of the match sort: at the first index where both pairs
   * are rated and their win differences differ, the difference of the two
   * differences; zero when there is none. It stops at the end of the
   * shorter list.
   */
  function DiffOrder(w: WinMap, a: seq<Pair>, b: seq<Pair>): (c: int)
    ensures a == [] || b == [] ==> c == 0
    decreases |a|
  {
    if a == [] || b == [] then 0
    else if Rated(w, a[0]) && Rated(w, b[0])
            && WinGap(w, a[0]) != WinGap(w, b[0]) then
      WinGap(w, a[0]) as int - WinGap(w, b[0]) as int
    else DiffOrder(w, a[1..], b[1..])
  }

  /**
   * The match comparator. Where every pair of both matches is rated it
   * orders the matches by their lists of win differences, compared
   * lexicographically up to the shorter list.
   */
  function MatchCompare(w: WinMap, a: Match, b: Match): (c: int)
    ensures AllRated(w, a.pairList) && AllRated(w, b.pairList)
            ==> c == KeyCmp(DiffKey(w, a.pairList), DiffKey(w, b.pairList))
  {
    if AllRated(w, a.pairList) && AllRated(w, b.pairList) then
      DiffOrderIsKeyCmp(w, a.pairList, b.pairList);
      DiffOrder(w, a.pairList, b.pairList)
    else DiffOrder(w, a.pairList, b.pairList)
  }

  /**
   * The comparator's loop over the pair indices, with its early return.
   * The loop runs over the first list; it reads the second at the same
   * indices, so the second must be at least as long.
   */
  method CompareMatches(w: WinMap, a: Match, b: Match) returns (c: int)
    requires |a.pairList| <= |b.pairList|
    ensures c == MatchCompare(w, a, b)
  {
    var len := |a.pairList|;
    for i := 0 to len
      invariant DiffOrder(w, a.pairList[i..], b.pairList[i..]) == DiffOrder(w, a.pairList, b.pairList)
    {
      var pa := a.pairList[i];
      var pb := b.pairList[i];
      assert a.pairList[i..][1..] == a.pairList[i + 1..] && b.pairList[i..][1..] == b.pairList[i + 1..];
      if pa.left in w && pa.right in w && pb.left in w && pb.right in w {
        var aDiff: int := Abs(w[pa.left] as int - w[pa.right] as int);
        var bDiff: int := Abs(w[pb.left] as int - w[pb.right] as int);
        if aDiff != bDiff {
          return aDiff - bDiff;
        }
      }
    }
    assert a.pairList[len..] == [];
    return 0;
  }

  /** The win differences of a fully rated pair list, in list order. */
  function DiffKey(w: WinMap, pairs: seq<Pair>): (key: seq<int>)
    requires AllRated(w, pairs)
    ensures |key| == |pairs|
    ensures forall k :: 0 <= k < |pairs| ==> key[k] >= 0
  {
    seq(|pairs|, k requires 0 <= k < |pairs| => WinGap(w, pairs[k]) as int)
  }

  /** Three-way lexicographic comparison of two lists of numbers, stopping at the shorter. */
  function KeyCmp(x: seq<int>, y: seq<int>): (c: int)
    ensures x == [] || y == [] ==> c == 0
  {
    if x == [] || y == [] then 0
    else if x[0] != y[0] then x[0] - y[0]
    else KeyCmp(x[1..], y[1..])
  }

  /** `KeyCmp` is negative exactly when `x` is smaller at the first index where the lists differ. */
  lemma {:induction false} KeyCmpIsLexicographic(x: seq<int>, y: seq<int>)
    ensures KeyCmp(x, y) < 0 <==> exists j :: 0 <= j < |x| && j < |y| && x[..j] == y[..j] && x[j] < y[j]
  {
    if x != [] && y != [] {
      if x[0] != y[0] {
        if x[0] >= y[0] {
          forall j | 0 <= j < |x| && j < |y| && x[..j] == y[..j] ensures x[j] >= y[j] {
          }
        } else {
          assert x[..0] == y[..0];
        }
      } else {
        KeyCmpIsLexicographic(x[1..], y[1..]);
        if KeyCmp(x, y) < 0 {
          var j :| 0 <= j < |x[1..]| && j < |y[1..]| && x[1..][..j] == y[1..][..j] && x[1..][j] < y[1..][j];
          assert x[..j + 1] == [x[0]] + x[1..][..j];
          assert y[..j + 1] == [y[0]] + y[1..][..j];
        } else {
          forall j | 0 <= j < |x| && j < |y| && x[..j] == y[..j] ensures x[j] >= y[j] {
            if j > 0 {
              assert x[1..][..j - 1] == x[..j][1..];
              assert y[1..][..j - 1] == y[..j][1..];
              assert x[1..][j - 1] == x[j] && y[1..][j - 1] == y[j];
            }
          }
        }
      }
    }
  }

  lemma {:induction false} KeyCmpAntisymmetric(x: seq<int>, y: seq<int>)
    ensures KeyCmp(y, x) == -KeyCmp(x, y)
  {
    if x != [] && y != [] && x[0] == y[0] {
      KeyCmpAntisymmetric(x[1..], y[1..]);
    }
  }

  lemma {:induction false} KeyCmpTransitive(x: seq<int>, y: seq<int>, z: seq<int>)
    requires |x| == |y| == |z|
    requires KeyCmp(x, y) <= 0 && KeyCmp(y, z) <= 0
    ensures KeyCmp(x, z) <= 0
  {
    if x != [] && x[0] == y[0] && y[0] == z[0] {
      KeyCmpTransitive(x[1..], y[1..], z[1..]);
    }
  }

  /** On fully rated lists, the comparator is the lexicographic comparison of the win differences. */
  lemma {:induction false} DiffOrderIsKeyCmp(w: WinMap, a: seq<Pair>, b: seq<Pair>)
    requires AllRated(w, a) && AllRated(w, b)
    ensures DiffOrder(w, a, b) == KeyCmp(DiffKey(w, a), DiffKey(w, b))
    decreases |a|
  {
    if a != [] && b != [] {
      assert Rated(w, a[0]) && Rated(w, b[0]);
      assert AllRated(w, a[1..]) by {
        forall k | 0 <= k < |a[1..]| ensures Rated(w, a[1..][k]) {
          assert a[1..][k] == a[k + 1];
        }
      }
      assert AllRated(w, b[1..]) by {
        forall k | 0 <= k < |b[1..]| ensures Rated(w, b[1..][k]) {
          assert b[1..][k] == b[k + 1];
        }
      }
      DiffOrderIsKeyCmp(w, a[1..], b[1..]);
      assert DiffKey(w, a)[1..] == DiffKey(w, a[1..]);
      assert DiffKey(w, b)[1..] == DiffKey(w, b[1..]);
    }
  }

  /** All matches have pair lists of one common length (the comparator's `console.assert`). */
  predicate SameShape(matches: seq<Match>)
  {
    forall i, j :: 0 <= i < |matches| && 0 <= j < |matches| ==> |matches[i].pairList| == |matches[j].pairList|
  }

  /** Every player seated in the matches has a win count in the map. */
  predicate AllMatchesRated(w: WinMap, matches: seq<Match>)
  {
    forall i :: 0 <= i < |matches| ==> AllRated(w, matches[i].pairList)
  }

  /** The match sort of `swissDraw2`, after the pairs of each match are sorted. */
  function DrawOrder(w: WinMap, restMatches: seq<Match>): (order: seq<Match>)
    ensures |order| == |restMatches|
    ensures multiset(order) == multiset(MapSeq(m => SortPairs(w, m), restMatches))
  {
    Sort(MapSeq(m => SortPairs(w, m), restMatches), (a, b) => MatchCompare(w, a, b))
  }

  /** `a` may stand before `b` in the sorted match list. */
  ghost predicate MatchFirst(w: WinMap, a: Match, b: Match)
  {
    MatchCompare(w, a, b) <= 0
  }

  /** Sorting a rated pair list keeps it rated. */
  lemma SortPairsRated(w: WinMap, m: Match)
    requires AllRated(w, m.pairList)
    ensures AllRated(w, SortPairs(w, m).pairList) && |SortPairs(w, m).pairList| == |m.pairList|
  {
    var s := SortPairs(w, m).pairList;
    forall k | 0 <= k < |s| ensures Rated(w, s[k]) {
      assert s[k] in multiset(m.pairList);
    }
  }

  /** Every sorted match comes from a remaining match, rated and of the common length when that one is. */
  lemma SortedMatchesShape(w: WinMap, restMatches: seq<Match>, len: nat)
    requires AllMatchesRated(w, restMatches)
    requires forall i :: 0 <= i < |restMatches| ==> |restMatches[i].pairList| == len
    ensures forall m :: m in MapSeq(m => SortPairs(w, m), restMatches) ==> AllRated(w, m.pairList) && |m.pairList| == len
  {
    var s := MapSeq(m => SortPairs(w, m), restMatches);
    forall m | m in s ensures AllRated(w, m.pairList) && |m.pairList| == len {
      var i :| 0 <= i < |s| && s[i] == m;
      SortPairsRated(w, restMatches[i]);
    }
  }

  /** On rated matches of one shape, `MatchFirst` is a total preorder the comparator respects. */
  lemma MatchFirstIsPreorder(w: WinMap, s: seq<Match>, len: nat)
    requires forall m :: m in s ==> AllRated(w, m.pairList) && |m.pairList| == len
    ensures TotalPreorderOn(s, (a, b) => MatchFirst(w, a, b))
    ensures RespectsOn(s, (a, b) => MatchCompare(w, a, b), (a, b) => MatchFirst(w, a, b))
  {
    forall a, b | a in s && b in s ensures MatchCompare(w, b, a) == -MatchCompare(w, a, b) {
      DiffOrderIsKeyCmp(w, a.pairList, b.pairList);
      DiffOrderIsKeyCmp(w, b.pairList, a.pairList);
      KeyCmpAntisymmetric(DiffKey(w, a.pairList), DiffKey(w, b.pairList));
    }
    forall a, b, c | a in s && b in s && c in s && MatchFirst(w, a, b) && MatchFirst(w, b, c)
      ensures MatchFirst(w, a, c)
    {
      DiffOrderIsKeyCmp(w, a.pairList, b.pairList);
      DiffOrderIsKeyCmp(w, b.pairList, c.pairList);
      DiffOrderIsKeyCmp(w, a.pairList, c.pairList);
      KeyCmpTransitive(DiffKey(w, a.pairList), DiffKey(w, b.pairList), DiffKey(w, c.pairList));
    }
  }

  /**
   * When every seated player has a win count and the matches share one
   * shape, the first match of the draw order has, at the first index where
   * they differ, a smaller win difference than every remaining match (its
   * pairs sorted the same way).
   */
  lemma DrawOrderFirstIsClosest(w: WinMap, restMatches: seq<Match>)
    requires |restMatches| > 0 && SameShape(restMatches) && AllMatchesRated(w, restMatches)
    ensures var first := DrawOrder(w, restMatches)[0];
      && AllRated(w, first.pairList)
      && forall m :: m in restMatches ==>
           AllRated(w, SortPairs(w, m).pairList) &&
           KeyCmp(DiffKey(w, first.pairList), DiffKey(w, SortPairs(w, m).pairList)) <= 0
  {
    var len := |restMatches[0].pairList|;
    var s := MapSeq(m => SortPairs(w, m), restMatches);
    var order := DrawOrder(w, restMatches);
    assert forall i :: 0 <= i < |restMatches| ==> |restMatches[i].pairList| == len;
    DrawOrderHeadFirst(w, restMatches, len);
    var first := order[0];
    assert first in multiset(order);
    assert first in s;
    forall m | m in restMatches
      ensures AllRated(w, SortPairs(w, m).pairList)
      ensures KeyCmp(DiffKey(w, first.pairList), DiffKey(w, SortPairs(w, m).pairList)) <= 0
    {
      var i :| 0 <= i < |restMatches| && restMatches[i] == m;
      var sm := SortPairs(w, m);
      assert s[i] == sm;
      assert sm in multiset(order);
      assert MatchFirst(w, first, sm);
      DiffOrderIsKeyCmp(w, first.pairList, sm.pairList);
    }
  }

  /** The first match of the draw order may precede every match of it. */
  lemma DrawOrderHeadFirst(w: WinMap, restMatches: seq<Match>, len: nat)
    requires |restMatches| > 0 && AllMatchesRated(w, restMatches)
    requires forall i :: 0 <= i < |restMatches| ==> |restMatches[i].pairList| == len
    ensures var order := DrawOrder(w, restMatches);
      && (forall m :: m in MapSeq(m => SortPairs(w, m), restMatches) ==> AllRated(w, m.pairList) && |m.pairList| == len)
      && forall e :: e in order ==> MatchFirst(w, order[0], e)
  {
    var s := MapSeq(m => SortPairs(w, m), restMatches);
    SortedMatchesShape(w, restMatches, len);
    MatchFirstIsPreorder(w, s, len);
    var le := (a, b) => MatchFirst(w, a, b);
    var order := DrawOrder(w, restMatches);
    SortSorted(s, (a, b) => MatchCompare(w, a, b), le);
    forall m | m in order ensures m in s {
      assert m in multiset(order);
    }
    assert TotalPreorderOn(order, le);
    SortedHeadFirst(order, le);
  }

  /** The draw order holds the remaining matches, each with its id and its pairs, and no others. */
  lemma DrawOrderKeepsMatches(w: WinMap, restMatches: seq<Match>)
    ensures var order := DrawOrder(w, restMatches);
      && multiset(MapSeq((m: Match) => m.id, order)) == multiset(MapSeq((m: Match) => m.id, restMatches))
      && forall o :: o in order ==>
           exists m :: m in restMatches && o.id == m.id && multiset(o.pairList) == multiset(m.pairList)
  {
    var order := DrawOrder(w, restMatches);
    var s := MapSeq(m => SortPairs(w, m), restMatches);
    var id := (m: Match) => m.id;
    MapOfPermutation(id, order, s);
    assert MapSeq(id, s) == MapSeq(id, restMatches);
    forall o | o in order
      ensures exists m :: m in restMatches && o.id == m.id && multiset(o.pairList) == multiset(m.pairList)
    {
      assert o in multiset(order);
      var i :| 0 <= i < |s| && s[i] == o;
      assert restMatches[i] in restMatches;
    }
  }

  /**
   * `swissDraw2`: no remaining match gives nothing; a single one is played
   * as it stands; otherwise the first match of the draw order is played
   * and the others remain, in that order.
   */
  method SwissDraw2(players: seq<Player>, pastMatches: seq<Match>, restMatches: seq<Match>)
    returns (newMatch: Option<Match>, rest: seq<Match>)
    requires SameShape(restMatches)
    ensures |restMatches| == 0 ==> newMatch == None && rest == []
    ensures |restMatches| == 1 ==> newMatch == Some(restMatches[0]) && rest == []
    ensures |restMatches| >= 2 ==>
      var order := DrawOrder(WinCountMap(players, pastMatches), restMatches);
      newMatch == Some(order[0]) && rest == order[1..]
    ensures newMatch.Some? ==> |rest| == |restMatches| - 1
  {
    if |restMatches| <= 0 {
      return None, [];
    }
    if |restMatches| == 1 {
      return Some(restMatches[0]), [];
    }
    var w := BuildWinCountMap(players, pastMatches);
    var order := DrawOrder(w, restMatches);
    newMatch := Some(order[0]);
    rest := order[1..];
  }
}
