/** Small list helpers (src/lib/util.ts). */
module Util {

  /** `isEven`: the list has an even number of elements. */
  predicate IsEven<T>(a: seq<T>)
  {
    |a| % 2 == 0
  }

  /** `isEmpty`: a length of at most zero. */
  predicate IsEmpty<T>(a: seq<T>)
  {
    |a| <= 0
  }

  lemma IsEmptyIsEmptySeq<T>(a: seq<T>)
    ensures IsEmpty(a) <==> a == []
  {
  }

  /** `makeSequentialArray(n)`: the list 0, 1, ..., n-1. */
  function MakeSequentialArray(length: nat): (r: seq<nat>)
    ensures |r| == length
    ensures forall i :: 0 <= i < length ==> r[i] == i
  {
    seq(length, i => i)
  }

  /** The sequential array holds every number below its length once. */
  lemma SequentialArrayIsRange(length: nat)
    ensures forall v: nat :: multiset(MakeSequentialArray(length))[v] == (if v < length then 1 else 0)
  {
    var r := MakeSequentialArray(length);
    SeqOfDistinctCounts(r, length);
  }

  lemma {:induction false} SeqOfDistinctCounts(r: seq<nat>, n: nat)
    requires |r| == n && forall i :: 0 <= i < n ==> r[i] == i
    ensures forall v: nat :: multiset(r)[v] == (if v < n then 1 else 0)
  {
    if n > 0 {
      var p := r[..n - 1];
      SeqOfDistinctCounts(p, n - 1);
      assert r == p + [r[n - 1]];
      var last: nat := n - 1;
      assert multiset(r) == multiset(p) + multiset{last};
    }
  }

  /**
   * `shuffle` returns the list sorted by a random comparator; the model only
   * keeps that its result is a rearrangement of its input.
   */
  ghost predicate IsShuffleOf<T>(shuffled: seq<T>, a: seq<T>)
  {
    multiset(shuffled) == multiset(a)
  }

  /** The elements of `s` are pairwise different. */
  predicate Distinct<T(==)>(s: seq<T>)
  {
    forall i, j :: 0 <= i < j < |s| ==> s[i] != s[j]
  }

  /** In a list without repeats, every element occurs exactly once. */
  lemma {:induction false} DistinctCount<T>(s: seq<T>, v: T)
    requires Distinct(s) && v in s
    ensures multiset(s)[v] == 1
  {
    assert s == [s[0]] + s[1..];
    if s[0] == v {
      assert v !in s[1..] by {
        forall j | 0 <= j < |s[1..]| ensures s[1..][j] != v {
          assert s[1..][j] == s[j + 1];
        }
      }
    } else {
      DistinctCount(s[1..], v);
    }
  }

  /** `array.map(f)`. */
  function MapSeq<A, B>(f: A -> B, s: seq<A>): (r: seq<B>)
    ensures |r| == |s|
    ensures forall i :: 0 <= i < |s| ==> r[i] == f(s[i])
  {
    seq(|s|, i requires 0 <= i < |s| => f(s[i]))
  }

  lemma MapSeqConcat<A, B>(f: A -> B, a: seq<A>, b: seq<A>)
    ensures MapSeq(f, a + b) == MapSeq(f, a) + MapSeq(f, b)
  {
  }

  /** Mapping a rearrangement gives a rearrangement of the mapped list. */
  lemma {:induction false} MapOfPermutation<A, B>(f: A -> B, a: seq<A>, b: seq<A>)
    requires multiset(a) == multiset(b)
    ensures multiset(MapSeq(f, a)) == multiset(MapSeq(f, b))
    decreases |a|
  {
    if a != [] {
      assert a[0] in multiset(b);
      var k :| 0 <= k < |b| && b[k] == a[0];
      var b' := b[..k] + b[k + 1..];
      RemoveFirstMatch(a, b, k);
      MapOfPermutation(f, a[1..], b');
      MapSeqCons(f, a);
      MapSeqRemove(f, b, k);
    }
  }

  lemma MapSeqCons<A, B>(f: A -> B, a: seq<A>)
    requires a != []
    ensures multiset(MapSeq(f, a)) == multiset{f(a[0])} + multiset(MapSeq(f, a[1..]))
  {
    assert a == [a[0]] + a[1..];
    MapSeqConcat(f, [a[0]], a[1..]);
  }

  lemma MapSeqRemove<A, B>(f: A -> B, b: seq<A>, k: nat)
    requires k < |b|
    ensures multiset(MapSeq(f, b)) == multiset(MapSeq(f, b[..k] + b[k + 1..])) + multiset{f(b[k])}
  {
    assert b == b[..k] + [b[k]] + b[k + 1..];
    MapSeqConcat(f, b[..k], [b[k]]);
    MapSeqConcat(f, b[..k] + [b[k]], b[k + 1..]);
    MapSeqConcat(f, b[..k], b[k + 1..]);
  }

  /** Taking the head of `a` off `a` and off a rearrangement `b` of it leaves rearrangements. */
  lemma RemoveFirstMatch<A>(a: seq<A>, b: seq<A>, k: nat)
    requires multiset(a) == multiset(b) && a != [] && k < |b| && b[k] == a[0]
    ensures multiset(a[1..]) == multiset(b[..k] + b[k + 1..])
  {
    var b' := b[..k] + b[k + 1..];
    assert a == [a[0]] + a[1..];
    assert b == b[..k] + [b[k]] + b[k + 1..];
    forall x ensures multiset(a[1..])[x] == multiset(b')[x] {
      assert multiset(a)[x] == multiset(b)[x];
    }
  }
}
