/**
 * The records the tournament engine works on: players, pairs (one game
 * between two players), matches (one round of pairs) and the index pairs
 * of the round-robin generator, plus the small result types that stand
 * for JavaScript's `undefined` and thrown errors.
 */
module Types {

  /** Identifiers are opaque strings (random UUIDs in the application). */
  type PlayerId = string
  type PairId = string
  type MatchId = string

  /** The outcome of one pair: "left", "right" or "none" (undecided). */
  datatype Winner = Left | Right | NoWinner

  datatype Pair = Pair(left: PlayerId, right: PlayerId, winner: Winner, id: PairId)

  /** One round: an ordered list of pairs. */
  datatype Match = Match(pairList: seq<Pair>, id: MatchId)

  datatype Player = Player(name: string, id: PlayerId)

  /** A pair of positions produced by the round-robin generator. */
  datatype IndexPair = IndexPair(left: nat, right: nat)

  datatype NameValidation = Valid | Empty | Duplicated

  /** A value that may be `undefined`. */
  datatype Option<T> = None | Some(value: T)

  /**
   * The three ways a search can end: it throws an error, it returns
   * `undefined`, or it returns a value.
   */
  datatype Outcome<T> = Thrown | Undefined | Defined(value: T)

  /** The identifiers of a list of players, in list order. */
  function Ids(players: seq<Player>): (r: seq<PlayerId>)
    ensures |r| == |players|
    ensures forall i :: 0 <= i < |players| ==> r[i] == players[i].id
  {
    seq(|players|, i requires 0 <= i < |players| => players[i].id)
  }

  /** The players of a pair list, two per pair, in list order. */
  function Flatten(pairs: seq<Pair>): (r: seq<PlayerId>)
    ensures |r| == 2 * |pairs|
  {
    if pairs == [] then [] else [pairs[0].left, pairs[0].right] + Flatten(pairs[1..])
  }

  lemma {:induction false} FlattenAppend(a: seq<Pair>, b: seq<Pair>)
    ensures Flatten(a + b) == Flatten(a) + Flatten(b)
  {
    if a == [] {
      assert a + b == b;
    } else {
      assert (a + b)[1..] == a[1..] + b;
      FlattenAppend(a[1..], b);
    }
  }

  /** Both players of the k-th pair occur in the flattened list. */
  lemma {:induction false} FlattenMember(pairs: seq<Pair>, k: nat)
    requires k < |pairs|
    ensures pairs[k].left in Flatten(pairs) && pairs[k].right in Flatten(pairs)
  {
    if k > 0 {
      FlattenMember(pairs[1..], k - 1);
    }
  }

  lemma IdsConcat(a: seq<Player>, b: seq<Player>)
    ensures Ids(a + b) == Ids(a) + Ids(b)
  {
  }

  lemma IdsRemove(s: seq<Player>, i: nat)
    requires i < |s|
    ensures multiset(Ids(s[..i] + s[i + 1..])) + multiset{s[i].id} == multiset(Ids(s))
  {
    SplitAt(s, i);
    IdsConcat(s[..i], s[i + 1..]);
    IdsConcat(s[..i] + [s[i]], s[i + 1..]);
    IdsConcat(s[..i], [s[i]]);
  }

  lemma IdsHead(s: seq<Player>)
    requires |s| >= 1
    ensures multiset(Ids(s)) == multiset{s[0].id} + multiset(Ids(s[1..]))
  {
    var t := [s[0].id] + Ids(s[1..]);
    forall i | 0 <= i < |s| ensures t[i] == Ids(s)[i] {
      if i > 0 {
        assert t[i] == Ids(s[1..])[i - 1];
      }
    }
    assert t == Ids(s);
    assert multiset(t) == multiset{s[0].id} + multiset(Ids(s[1..]));
  }

  /** Rearranging the players rearranges their ids. */
  lemma {:induction false} IdsOfPermutation(a: seq<Player>, b: seq<Player>)
    requires multiset(a) == multiset(b)
    ensures multiset(Ids(a)) == multiset(Ids(b))
    decreases |a|
  {
    if a != [] {
      assert a[0] in multiset(b);
      var k :| 0 <= k < |b| && b[k] == a[0];
      var b' := b[..k] + b[k + 1..];
      SplitAt(b, k);
      assert multiset(b) == multiset(b') + multiset{a[0]};
      assert a == [a[0]] + a[1..];
      assert multiset(a) == multiset{a[0]} + multiset(a[1..]);
      assert multiset(a[1..]) == multiset(b') by {
        forall x ensures multiset(a[1..])[x] == multiset(b')[x] {
          assert multiset(a)[x] == multiset(b)[x];
        }
      }
      IdsOfPermutation(a[1..], b');
      IdsRemove(b, k);
      IdsHead(a);
    }
  }

  lemma PrefixExtend<X>(s: seq<X>, i: nat)
    requires i < |s|
    ensures s[..i + 1] == s[..i] + [s[i]]
  {
  }

  /** Adding the same element to two multisets keeps them equal or unequal. */
  lemma MultisetCancel<X>(a: multiset<X>, b: multiset<X>, x: X)
    requires a + multiset{x} == b + multiset{x}
    ensures a == b
  {
    forall y ensures a[y] == b[y] {
      assert (a + multiset{x})[y] == (b + multiset{x})[y];
    }
  }

  lemma SplitAt<X>(s: seq<X>, q: nat)
    requires q < |s|
    ensures s[..q] + [s[q]] + s[q + 1..] == s
    ensures multiset(s) == multiset(s[..q] + s[q + 1..]) + multiset{s[q]}
  {
    assert multiset(s[..q] + [s[q]] + s[q + 1..]) == multiset(s[..q]) + multiset{s[q]} + multiset(s[q + 1..]);
  }

  lemma FlattenThree(a: seq<Pair>, x: Pair, b: seq<Pair>)
    ensures Flatten(a + [x] + b) == Flatten(a) + [x.left, x.right] + Flatten(b)
    ensures Flatten(a + b) == Flatten(a) + Flatten(b)
  {
    FlattenAppend(a + [x], b);
    FlattenAppend(a, [x]);
    FlattenAppend(a, b);
    assert Flatten([x]) == [x.left, x.right] by {
      assert [x][1..] == [];
    }
  }

  lemma FlattenSplit(pairs: seq<Pair>, q: nat)
    requires q < |pairs|
    ensures Flatten(pairs) == Flatten(pairs[..q]) + [pairs[q].left, pairs[q].right] + Flatten(pairs[q + 1..])
    ensures Flatten(pairs[..q] + pairs[q + 1..]) == Flatten(pairs[..q]) + Flatten(pairs[q + 1..])
  {
    SplitAt(pairs, q);
    FlattenThree(pairs[..q], pairs[q], pairs[q + 1..]);
  }

  lemma MultisetMiddle(fa: seq<PlayerId>, l: PlayerId, r: PlayerId, fb: seq<PlayerId>)
    ensures multiset(fa + fb) + multiset{l, r} == multiset(fa + [l, r] + fb)
  {
  }

  lemma FlattenRemove(pairs: seq<Pair>, q: nat)
    requires q < |pairs|
    ensures multiset(Flatten(pairs[..q] + pairs[q + 1..])) + multiset{pairs[q].left, pairs[q].right}
            == multiset(Flatten(pairs))
  {
    FlattenSplit(pairs, q);
    MultisetMiddle(Flatten(pairs[..q]), pairs[q].left, pairs[q].right, Flatten(pairs[q + 1..]));
  }

  /** Removing the pair of `x` and `c`, in either order, removes `x` and `c`. */
  lemma FlattenRemovePartner(pairs: seq<Pair>, q: nat, x: PlayerId, c: PlayerId)
    requires q < |pairs|
    requires (pairs[q].left == x && pairs[q].right == c) || (pairs[q].right == x && pairs[q].left == c)
    ensures multiset(Flatten(pairs)) == multiset(Flatten(pairs[..q] + pairs[q + 1..])) + multiset{x, c}
  {
    FlattenRemove(pairs, q);
    assert multiset{pairs[q].left, pairs[q].right} == multiset{x, c};
  }

  lemma {:induction false} FlattenHasPairOf(pairs: seq<Pair>, x: PlayerId)
    requires x in Flatten(pairs)
    ensures exists q :: 0 <= q < |pairs| && (pairs[q].left == x || pairs[q].right == x)
  {
    if pairs[0].left != x && pairs[0].right != x {
      FlattenHasPairOf(pairs[1..], x);
      var q :| 0 <= q < |pairs[1..]| && (pairs[1..][q].left == x || pairs[1..][q].right == x);
      assert pairs[q + 1] == pairs[1..][q];
    }
  }
}
