/**
 * Operations on one pair (src/lib/pair.ts): its winner, the side a player
 * is on and that player's opponent.
 *
 * `ExistPair` and `HasPlayerInPair` are imported from this file by the
 * rest of the application but are not defined in it; their definitions
 * below are ASSUMED (unordered equality of the two players, and
 * membership), because the source does not define them.
 */
module PairOps {
  import opened Types

  /** `getWinnerId`: the id on the winning side, or undefined while undecided. */
  function GetWinnerId(pair: Pair): (r: Option<PlayerId>)
    ensures r.Some? <==> pair.winner != NoWinner
    ensures pair.winner == Left ==> r == Some(pair.left)
    ensures pair.winner == Right ==> r == Some(pair.right)
  {
    match pair.winner
    case Left => Some(pair.left)
    case Right => Some(pair.right)
    case NoWinner => None
  }

  /** `getSide`: the side `id` is on; the left side is checked first. */
  function GetSide(pair: Pair, id: PlayerId): (r: Winner)
    ensures r == Left <==> pair.left == id
    ensures r == Right <==> pair.left != id && pair.right == id
    ensures r == NoWinner <==> pair.left != id && pair.right != id
  {
    if pair.left == id then Left
    else if pair.right == id then Right
    else NoWinner
  }

  /** `getOpponentId`: the id on the other side, or undefined. */
  function GetOpponentId(pair: Pair, id: PlayerId): (r: Option<PlayerId>)
    ensures r.None? <==> pair.left != id && pair.right != id
    ensures pair.left == id ==> r == Some(pair.right)
    ensures pair.left != id && pair.right == id ==> r == Some(pair.left)
  {
    if pair.left == id then Some(pair.right)
    else if pair.right == id then Some(pair.left)
    else None
  }

  /** JavaScript truthiness of a possibly-undefined id: defined and not "". */
  predicate Truthy(o: Option<PlayerId>)
  {
    o.Some? && o.value != ""
  }

  /** ASSUMED `existPair(l, r, pair)`: {l, r} equals {pair.left, pair.right}. */
  predicate ExistPair(l: PlayerId, r: PlayerId, pair: Pair)
  {
    (pair.left == l && pair.right == r) || (pair.left == r && pair.right == l)
  }

  /** ASSUMED `hasPlayerInPair(id, pair)`: `id` is on one of the two sides. */
  predicate HasPlayerInPair(id: PlayerId, pair: Pair)
  {
    pair.left == id || pair.right == id
  }

  /** The winner is on the side the pair records, when the sides differ. */
  lemma WinnerIsOnWinningSide(pair: Pair)
    requires pair.left != pair.right && pair.winner != NoWinner
    ensures GetWinnerId(pair).Some?
    ensures GetSide(pair, GetWinnerId(pair).value) == pair.winner
  {
  }

  /** With distinct sides, the opponent of one side is the other side. */
  lemma OpponentSwapsSides(pair: Pair)
    requires pair.left != pair.right
    ensures GetOpponentId(pair, pair.left) == Some(pair.right)
    ensures GetOpponentId(pair, pair.right) == Some(pair.left)
  {
  }

  /** The opponent of the opponent is the player itself. */
  lemma OpponentInvolutive(pair: Pair, id: PlayerId)
    requires pair.left != pair.right && HasPlayerInPair(id, pair)
    ensures GetOpponentId(pair, id).Some?
    ensures GetOpponentId(pair, GetOpponentId(pair, id).value) == Some(id)
  {
  }

  /** `existPair` does not depend on the order of the two ids. */
  lemma ExistPairSymmetric(l: PlayerId, r: PlayerId, pair: Pair)
    ensures ExistPair(l, r, pair) <==> ExistPair(r, l, pair)
  {
  }
}
