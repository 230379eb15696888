/**
 * The round-robin generator (src/lib/roundRobin.ts), the circle method:
 * the index list 0..n-1 is laid out in two rows, position 0 stays fixed
 * and the others rotate one step per round. Round `r` pairs position
 * `n/2 + k` (left) with position `n/2 - k - 1` (right).
 *
 * The method keeps the index list in an array that it rotates in place;
 * it is proved equal to `Schedule`, and the round-robin properties are
 * proved about `Schedule` through the closed form `Slot`.
 */
module RoundRobin {
  import opened Types
  import opened Util

  /** One rotation: the last entry moves to position 1 (only on lists longer than three). */
  function Rotated(s: seq<nat>): (r: seq<nat>)
    ensures |r| == |s|
    ensures multiset(r) == multiset(s)
    ensures |s| > 3 ==> r[0] == s[0] && r[1] == s[|s| - 1] && forall j :: 2 <= j < |s| ==> r[j] == s[j - 1]
  {
    if |s| > 3 then
      assert s == [s[0]] + s[1..|s| - 1] + [s[|s| - 1]];
      [s[0], s[|s| - 1]] + s[1..|s| - 1]
    else s
  }

  /** The index list after `r` rotations. */
  function IndicesAt(n: nat, r: nat): (s: seq<nat>)
    ensures |s| == n
    ensures forall j :: 0 <= j < n ==> s[j] < n
  {
    if r == 0 then MakeSequentialArray(n) else Rotated(IndicesAt(n, r - 1))
  }

  /** The pairs of one round, read off an index list of even length. */
  function RoundOf(s: seq<nat>): (round: seq<IndexPair>)
    requires |s| % 2 == 0
    ensures |round| == |s| / 2
  {
    var matchCount := |s| / 2;
    seq(matchCount, k requires 0 <= k < matchCount => IndexPair(s[matchCount + k], s[matchCount - k - 1]))
  }

  lemma RoundOfAt(s: seq<nat>, k: nat)
    requires |s| % 2 == 0 && k < |s| / 2
    ensures RoundOf(s)[k] == IndexPair(s[|s| / 2 + k], s[|s| / 2 - k - 1])
  {
  }

  /** The whole schedule for an even field of `n`: `n - 1` rounds of `n / 2` pairs. */
  function Schedule(n: nat): (t: seq<seq<IndexPair>>)
    requires n % 2 == 0 && n > 1
    ensures |t| == n - 1
    ensures forall r :: 0 <= r < n - 1 ==> |t[r]| == n / 2
    ensures forall r, k :: 0 <= r < n - 1 && 0 <= k < n / 2 ==> t[r][k].left < n && t[r][k].right < n
  {
    seq(n - 1, r requires 0 <= r < n - 1 => RoundOf(IndicesAt(n, r)))
  }

  /** The two `splice` calls: take the last entry out and insert it at position 1. */
  method RotateLastToSecond(a: array<nat>)
    modifies a
    ensures a[..] == Rotated(old(a[..]))
  {
    if a.Length > 3 {
      var last := a[a.Length - 1];
      var i := a.Length - 1;
      while i > 1
        invariant 1 <= i <= a.Length - 1
        invariant forall j :: 0 <= j <= i ==> a[j] == old(a[j])
        invariant forall j :: i < j < a.Length ==> a[j] == old(a[j - 1])
      {
        a[i] := a[i - 1];
        i := i - 1;
      }
      a[1] := last;
    }
  }

  /**
   * `roundRobin(length)`. `Math.ceil(length / 2)` is `length / 2` on the
   * even lengths the function asserts. The two range guards of the source
   * (`index < 0 && index >= length`) can never hold and are left out; the
   * array accesses below are proved in range instead.
   */
  method RoundRobin(length: nat) returns (tournament: seq<seq<IndexPair>>)
    requires length % 2 == 0 && length > 1
    ensures tournament == Schedule(length)
  {
    var sequential := MakeSequentialArray(length);
    var indices := new nat[length](i requires 0 <= i < length => sequential[i]);
    var matchCount := length / 2;
    var tournamentCount := length - 1;
    tournament := [];
    for tournamentIndex := 0 to tournamentCount
      invariant indices[..] == IndicesAt(length, tournamentIndex)
      invariant tournament == Schedule(length)[..tournamentIndex]
    {
      var round := ReadRound(indices, matchCount);
      PrefixExtend(Schedule(length), tournamentIndex);
      tournament := tournament + [round];
      RotateLastToSecond(indices);
    }
  }

  /** The inner loop of `roundRobin`: one round read off the current index list. */
  method ReadRound(indices: array<nat>, matchCount: nat) returns (round: seq<IndexPair>)
    requires indices.Length == 2 * matchCount
    ensures round == RoundOf(indices[..])
  {
    round := [];
    for matchIndex := 0 to matchCount
      invariant |round| == matchIndex
      invariant forall k :: 0 <= k < matchIndex ==> round[k] == IndexPair(indices[matchCount + k], indices[matchCount - k - 1])
    {
      var leftIndex := matchCount + matchIndex;
      var rightIndex := matchCount - matchIndex - 1;
      round := round + [IndexPair(indices[leftIndex], indices[rightIndex])];
    }
  }

  // ---------------------------------------------------------------------
  // Closed form of the index list

  /**
   * The entry at position `j` in round `r`: position 0 holds 0 throughout,
   * and the entries 1..n-1 move one position to the right per round,
   * the last wrapping round to position 1.
   */
  function Slot(n: nat, r: nat, j: nat): nat
    requires n >= 2 && r < n - 1 && j < n
  {
    if j == 0 then 0 else if j - 1 >= r then j - r else j - r + (n - 1)
  }

  lemma {:induction false} IndicesClosedForm(n: nat, r: nat)
    requires n % 2 == 0 && n > 1 && r < n - 1
    ensures forall j :: 0 <= j < n ==> IndicesAt(n, r)[j] == Slot(n, r, j)
  {
    if r > 0 {
      IndicesClosedForm(n, r - 1);
      RotationAdvancesSlots(n, r, IndicesAt(n, r - 1));
    }
  }

  /** Rotating the list of round `r - 1` gives the list of round `r`. */
  lemma RotationAdvancesSlots(n: nat, r: nat, prev: seq<nat>)
    requires n % 2 == 0 && n > 1 && 0 < r < n - 1
    requires |prev| == n && forall j :: 0 <= j < n ==> prev[j] == Slot(n, r - 1, j)
    ensures forall j :: 0 <= j < n ==> Rotated(prev)[j] == Slot(n, r, j)
  {
    var s := Rotated(prev);
    forall j | 0 <= j < n ensures s[j] == Slot(n, r, j) {
      if j >= 2 {
        assert s[j] == prev[j - 1];
      } else if j == 1 {
        assert s[1] == prev[n - 1];
      }
    }
  }

  /** Position 0 holds 0 and the other positions hold 1..n-1. */
  lemma SlotRange(n: nat, r: nat, j: nat)
    requires n >= 2 && r < n - 1 && j < n
    ensures Slot(n, r, j) < n
    ensures Slot(n, r, j) == 0 <==> j == 0
  {
  }

  /** Different positions of one round hold different entries. */
  lemma SlotInjective(n: nat, r: nat, j1: nat, j2: nat)
    requires n >= 2 && r < n - 1 && j1 < n && j2 < n
    requires Slot(n, r, j1) == Slot(n, r, j2)
    ensures j1 == j2
  {
  }

  /** The position of entry `v` in round `r`. */
  function SlotOf(n: nat, r: nat, v: nat): (j: nat)
    requires n >= 2 && r < n - 1 && v < n
    ensures j < n && Slot(n, r, j) == v
  {
    if v == 0 then 0 else if v + r <= n - 1 then v + r else v + r - (n - 1)
  }

  /** Pair `k` of round `r` in closed form. */
  function SlotPair(n: nat, r: nat, k: nat): IndexPair
    requires n % 2 == 0 && n > 1 && r < n - 1 && k < n / 2
  {
    IndexPair(Slot(n, r, n / 2 + k), Slot(n, r, n / 2 - k - 1))
  }

  lemma SchedulePair(n: nat, r: nat, k: nat)
    requires n % 2 == 0 && n > 1 && r < n - 1 && k < n / 2
    ensures Schedule(n)[r][k] == SlotPair(n, r, k)
  {
    var s := IndicesAt(n, r);
    assert Schedule(n)[r] == RoundOf(s);
    RoundOfAt(s, k);
    IndicesClosedForm(n, r);
  }

  /** A whole round in closed form. */
  lemma ScheduleRound(n: nat, r: nat)
    requires n % 2 == 0 && n > 1 && r < n - 1
    ensures Schedule(n)[r] == seq(n / 2, k requires 0 <= k < n / 2 => SlotPair(n, r, k))
  {
    forall k | 0 <= k < n / 2 ensures Schedule(n)[r][k] == SlotPair(n, r, k) {
      SchedulePair(n, r, k);
    }
  }

  // ---------------------------------------------------------------------
  // Each round is a perfect matching of 0..n-1

  /** The players of a round, two per pair, in pair order. */
  function Entrants(round: seq<IndexPair>): (e: seq<nat>)
    ensures |e| == 2 * |round|
    ensures forall k :: 0 <= k < |round| ==> e[2 * k] == round[k].left && e[2 * k + 1] == round[k].right
  {
    seq(2 * |round|, i requires 0 <= i < 2 * |round| => if i % 2 == 0 then round[i / 2].left else round[i / 2].right)
  }

  /** The position in the index list of the `i`-th entrant. */
  function EntrantPosition(mc: nat, i: nat): nat
    requires i < 2 * mc
  {
    if i % 2 == 0 then mc + i / 2 else mc - i / 2 - 1
  }

  /**
   * Every round seats each index below `n` exactly once: the entrants are
   * `n` distinct indices below `n`, and every index below `n` is one of them.
   */
  lemma RoundIsPerfectMatching(n: nat, r: nat)
    requires n % 2 == 0 && n > 1 && r < n - 1
    ensures var e := Entrants(Schedule(n)[r]);
      && |e| == n
      && (forall i :: 0 <= i < n ==> e[i] < n)
      && (forall i, j :: 0 <= i < j < n ==> e[i] != e[j])
      && (forall v :: 0 <= v < n ==> v in e)
  {
    ScheduleRound(n, r);
    ClosedRoundIsPerfectMatching(n, r, Schedule(n)[r]);
  }

  lemma ClosedRoundIsPerfectMatching(n: nat, r: nat, round: seq<IndexPair>)
    requires n % 2 == 0 && n > 1 && r < n - 1
    requires round == seq(n / 2, k requires 0 <= k < n / 2 => SlotPair(n, r, k))
    ensures var e := Entrants(round);
      && |e| == n
      && (forall i :: 0 <= i < n ==> e[i] < n)
      && (forall i, j :: 0 <= i < j < n ==> e[i] != e[j])
      && (forall v :: 0 <= v < n ==> v in e)
  {
    var e := Entrants(round);
    var mc := n / 2;
    forall i | 0 <= i < n ensures e[i] < n {
      EntrantAt(n, r, round, i);
      SlotRange(n, r, EntrantPosition(mc, i));
    }
    forall i, j | 0 <= i < j < n ensures e[i] != e[j] {
      EntrantAt(n, r, round, i);
      EntrantAt(n, r, round, j);
      if e[i] == e[j] {
        SlotInjective(n, r, EntrantPosition(mc, i), EntrantPosition(mc, j));
      }
    }
    forall v | 0 <= v < n ensures v in e {
      var i := EntrantOf(n, r, round, v);
    }
  }

  /** Where entry `v` is seated in the round. */
  lemma EntrantOf(n: nat, r: nat, round: seq<IndexPair>, v: nat) returns (i: nat)
    requires n % 2 == 0 && n > 1 && r < n - 1 && v < n
    requires round == seq(n / 2, k requires 0 <= k < n / 2 => SlotPair(n, r, k))
    ensures i < n && Entrants(round)[i] == v
  {
    var mc := n / 2;
    var p := SlotOf(n, r, v);
    if p >= mc {
      i := 2 * (p - mc);
      assert i % 2 == 0 && i / 2 == p - mc;
    } else {
      i := 2 * (mc - 1 - p) + 1;
      assert i % 2 == 1 && i / 2 == mc - 1 - p;
    }
    assert EntrantPosition(mc, i) == p;
    EntrantAt(n, r, round, i);
  }

  /** The `i`-th entrant of a round sits at position `EntrantPosition(n / 2, i)`. */
  lemma EntrantAt(n: nat, r: nat, round: seq<IndexPair>, i: nat)
    requires n % 2 == 0 && n > 1 && r < n - 1 && i < n
    requires round == seq(n / 2, k requires 0 <= k < n / 2 => SlotPair(n, r, k))
    ensures Entrants(round)[i] == Slot(n, r, EntrantPosition(n / 2, i))
  {
    var e := Entrants(round);
    var k := i / 2;
    if i % 2 == 0 {
      assert i == 2 * k;
      assert e[2 * k] == round[k].left;
    } else {
      assert i == 2 * k + 1;
      assert e[2 * k + 1] == round[k].right;
    }
  }

  // ---------------------------------------------------------------------
  // Every two indices meet exactly once

  /** The pair seats `a` and `b`, in either order. */
  predicate Meets(p: IndexPair, a: nat, b: nat)
  {
    (p.left == a && p.right == b) || (p.left == b && p.right == a)
  }

  /** Entry 0 always sits on the right of a round's last pair, against `n - 1 - r`. */
  lemma LastPairHoldsZero(n: nat, r: nat)
    requires n % 2 == 0 && n > 1 && r < n - 1
    ensures Schedule(n)[r][n / 2 - 1] == IndexPair(n - 1 - r, 0)
  {
    SchedulePair(n, r, n / 2 - 1);
  }

  /**
   * A pair other than the last one never holds entry 0, and its two entries
   * plus `2r` make a multiple of `n - 1`.
   */
  lemma InnerPairSum(n: nat, r: nat, k: nat)
    requires n % 2 == 0 && n > 1 && r < n - 1 && k < n / 2 - 1
    ensures var p := SlotPair(n, r, k);
      && p.left != 0 && p.right != 0
      && (p.left + p.right + 2 * r == n - 1 || p.left + p.right + 2 * r == 2 * (n - 1) || p.left + p.right + 2 * r == 3 * (n - 1))
  {
  }

  /** The round and pair in which `a` and `b` meet; they exist whenever `a != b`. */
  lemma MeetingRound(n: nat, a: nat, b: nat) returns (r: nat, k: nat)
    requires n % 2 == 0 && n > 1 && a < n && b < n && a != b
    ensures r < n - 1 && k < n / 2 && Meets(SlotPair(n, r, k), a, b)
  {
    if a == 0 || b == 0 {
      var v := if a == 0 then b else a;
      r, k := n - 1 - v, n / 2 - 1;
    } else {
      r, k := InnerMeetingRound(n, a, b);
    }
  }

  lemma InnerMeetingRound(n: nat, a: nat, b: nat) returns (r: nat, k: nat)
    requires n % 2 == 0 && n > 1 && 0 < a < n && 0 < b < n && a != b
    ensures r < n - 1 && k < n / 2 && Meets(SlotPair(n, r, k), a, b)
  {
    var big := n - 1;
    var mc := n / 2;
    r := RoundFor(big, a + b);
    var pa := SlotOf(n, r, a);
    var pb := SlotOf(n, r, b);
    if pa == pb {
      assert false;
    }
    assert pa + pb == big;
    if pa > pb {
      k := pa - mc;
      assert SlotPair(n, r, k) == IndexPair(a, b);
    } else {
      k := pb - mc;
      assert SlotPair(n, r, k) == IndexPair(b, a);
    }
  }

  /** A round `r` with `s + 2r` a multiple of the odd number `big`. */
  function RoundFor(big: nat, s: nat): (r: nat)
    requires big % 2 == 1 && 3 <= s < 2 * big
    ensures r < big && (s + 2 * r == big || s + 2 * r == 2 * big || s + 2 * r == 3 * big)
  {
    if s <= big then
      if (big - s) % 2 == 0 then (big - s) / 2 else (2 * big - s) / 2
    else
      if (2 * big - s) % 2 == 0 then (2 * big - s) / 2 else (3 * big - s) / 2
  }

  /** Two pairs of the schedule that seat the same two different indices are the same pair of the same round. */
  lemma MeetingUnique(n: nat, a: nat, b: nat, r1: nat, k1: nat, r2: nat, k2: nat)
    requires n % 2 == 0 && n > 1 && a != b
    requires r1 < n - 1 && k1 < n / 2 && r2 < n - 1 && k2 < n / 2
    requires Meets(SlotPair(n, r1, k1), a, b) && Meets(SlotPair(n, r2, k2), a, b)
    ensures r1 == r2 && k1 == k2
  {
    var mc := n / 2;
    if k1 < mc - 1 && k2 < mc - 1 {
      InnerMeetingUnique(n, a, b, r1, k1, r2, k2);
    } else if k1 < mc - 1 {
      // Pair k2 seats 0; pair k1 does not.
      InnerPairSum(n, r1, k1);
    } else if k2 < mc - 1 {
      InnerPairSum(n, r2, k2);
    }
  }

  /** Two inner pairs that seat the same two indices are the same pair of the same round. */
  lemma InnerMeetingUnique(n: nat, a: nat, b: nat, r1: nat, k1: nat, r2: nat, k2: nat)
    requires n % 2 == 0 && n > 1 && a != b
    requires r1 < n - 1 && k1 < n / 2 - 1 && r2 < n - 1 && k2 < n / 2 - 1
    requires Meets(SlotPair(n, r1, k1), a, b) && Meets(SlotPair(n, r2, k2), a, b)
    ensures r1 == r2 && k1 == k2
  {
    InnerPairSum(n, r1, k1);
    InnerPairSum(n, r2, k2);
    assert SlotPair(n, r1, k1).left + SlotPair(n, r1, k1).right == a + b;
    assert SlotPair(n, r2, k2).left + SlotPair(n, r2, k2).right == a + b;
    SameRoundFromSum(n - 1, a + b, r1, r2);
    SamePairInRound(n, a, b, r1, k1, k2);
  }

  /** Within one round, two pairs that seat the same two different indices are the same pair. */
  lemma SamePairInRound(n: nat, a: nat, b: nat, r: nat, k1: nat, k2: nat)
    requires n % 2 == 0 && n > 1 && a != b && r < n - 1 && k1 < n / 2 && k2 < n / 2
    requires Meets(SlotPair(n, r, k1), a, b) && Meets(SlotPair(n, r, k2), a, b)
    ensures k1 == k2
  {
    var mc := n / 2;
    var p1 := SlotPair(n, r, k1);
    var p2 := SlotPair(n, r, k2);
    assert p1.left == Slot(n, r, mc + k1) && p1.right == Slot(n, r, mc - k1 - 1);
    assert p2.left == Slot(n, r, mc + k2) && p2.right == Slot(n, r, mc - k2 - 1);
    if p1.left == p2.left {
      SlotInjective(n, r, mc + k1, mc + k2);
    }
  }

  /** Two rounds below the odd number `big` that make `s + 2r` a multiple of `big` are the same round. */
  lemma SameRoundFromSum(big: nat, s: nat, r1: nat, r2: nat)
    requires big % 2 == 1 && r1 < big && r2 < big
    requires s + 2 * r1 == big || s + 2 * r1 == 2 * big || s + 2 * r1 == 3 * big
    requires s + 2 * r2 == big || s + 2 * r2 == 2 * big || s + 2 * r2 == 3 * big
    ensures r1 == r2
  {
  }

  /**
   * The round-robin promise: any two different indices below `n` meet in
   * exactly one pair of exactly one round.
   */
  lemma EveryPairMeetsOnce(n: nat, a: nat, b: nat)
    requires n % 2 == 0 && n > 1 && a < n && b < n && a != b
    ensures exists r, k :: 0 <= r < n - 1 && 0 <= k < n / 2 && Meets(Schedule(n)[r][k], a, b)
    ensures forall r1, k1, r2, k2 ::
      (0 <= r1 < n - 1 && 0 <= k1 < n / 2 && 0 <= r2 < n - 1 && 0 <= k2 < n / 2 &&
       Meets(Schedule(n)[r1][k1], a, b) && Meets(Schedule(n)[r2][k2], a, b)) ==> r1 == r2 && k1 == k2
  {
    var r, k := MeetingRound(n, a, b);
    SchedulePair(n, r, k);
    forall r1, k1, r2, k2 |
      0 <= r1 < n - 1 && 0 <= k1 < n / 2 && 0 <= r2 < n - 1 && 0 <= k2 < n / 2 &&
      Meets(Schedule(n)[r1][k1], a, b) && Meets(Schedule(n)[r2][k2], a, b)
      ensures r1 == r2 && k1 == k2
    {
      SchedulePair(n, r1, k1);
      SchedulePair(n, r2, k2);
      MeetingUnique(n, a, b, r1, k1, r2, k2);
    }
  }

  /** The six-player layout drawn in the source's comment: the first round and the first rotation. */
  lemma SixPlayerExample()
    ensures Schedule(6)[0] == [IndexPair(3, 2), IndexPair(4, 1), IndexPair(5, 0)]
    ensures IndicesAt(6, 1) == [0, 5, 1, 2, 3, 4]
  {
    ScheduleRound(6, 0);
    IndicesClosedForm(6, 1);
  }

  /** The entrants of a round are a rearrangement of 0..n-1. */
  lemma RoundEntrantsArePermutation(n: nat, r: nat)
    requires n % 2 == 0 && n > 1 && r < n - 1
    ensures multiset(Entrants(Schedule(n)[r])) == multiset(MakeSequentialArray(n))
  {
    var e: seq<nat> := Entrants(Schedule(n)[r]);
    var range: seq<nat> := MakeSequentialArray(n);
    RoundIsPerfectMatching(n, r);
    SequentialArrayIsRange(n);
    assert Distinct(e);
    forall v: nat ensures multiset(e)[v] == multiset(range)[v] {
      if v < n {
        DistinctCount(e, v);
      } else {
        assert v !in e;
      }
    }
  }
}
