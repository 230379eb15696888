/**
 * `Array.prototype.toSorted` with a comparator, as used throughout the
 * engine. JavaScript's sort is stable; it is modelled by a stable insertion
 * sort. A comparator returns a negative number when its first argument
 * goes first, a positive one when it goes second, and zero when either
 * order will do.
 */
module Sorting {

  /** Insert `x` into `t` before the first element it may precede. */
  function Insert<T>(x: T, t: seq<T>, cmp: (T, T) -> int): (r: seq<T>)
    ensures |r| == |t| + 1
    ensures multiset(r) == multiset(t) + multiset{x}
  {
    if t == [] || cmp(x, t[0]) <= 0 then [x] + t
    else
      assert t == [t[0]] + t[1..];
      [t[0]] + Insert(x, t[1..], cmp)
  }

  /** `toSorted(cmp)`: a rearrangement of `s`, ordered by `cmp`. */
  function Sort<T>(s: seq<T>, cmp: (T, T) -> int): (r: seq<T>)
    ensures |r| == |s|
    ensures multiset(r) == multiset(s)
  {
    if s == [] then []
    else
      assert s == [s[0]] + s[1..];
      Insert(s[0], Sort(s[1..], cmp), cmp)
  }

  /** `le(a, b)`: `a` may be placed before `b`. */
  ghost predicate SortedBy<T>(s: seq<T>, le: (T, T) -> bool)
  {
    forall i, j :: 0 <= i < j < |s| ==> le(s[i], s[j])
  }

  /** `le` is total and transitive on the elements of `dom`. */
  ghost predicate TotalPreorderOn<T>(dom: seq<T>, le: (T, T) -> bool)
  {
    && (forall a, b :: a in dom && b in dom ==> le(a, b) || le(b, a))
    && (forall a, b, c :: a in dom && b in dom && c in dom && le(a, b) && le(b, c) ==> le(a, c))
  }

  /**
   * `cmp` agrees with `le` wherever `le` is strict: when `a` must come
   * before `b`, `cmp(a, b)` is negative and `cmp(b, a)` positive.
   */
  ghost predicate RespectsOn<T>(dom: seq<T>, cmp: (T, T) -> int, le: (T, T) -> bool)
  {
    forall a, b :: a in dom && b in dom && !le(b, a) ==> cmp(a, b) < 0 && cmp(b, a) > 0
  }

  lemma {:induction false} InsertSorted<T>(x: T, t: seq<T>, cmp: (T, T) -> int, le: (T, T) -> bool, dom: seq<T>)
    requires TotalPreorderOn(dom, le) && RespectsOn(dom, cmp, le)
    requires x in dom && forall y :: y in t ==> y in dom
    requires SortedBy(t, le)
    ensures SortedBy(Insert(x, t, cmp), le)
  {
    if t == [] {
    } else if cmp(x, t[0]) <= 0 {
      assert le(x, t[0]);
      var r := Insert(x, t, cmp);
      forall i, j | 0 <= i < j < |r| ensures le(r[i], r[j]) {
        if i == 0 {
          assert r[j] == t[j - 1];
          if j > 1 {
            assert le(t[0], t[j - 1]);
          }
        } else {
          assert r[i] == t[i - 1] && r[j] == t[j - 1];
        }
      }
    } else {
      assert le(t[0], x);
      var rest := Insert(x, t[1..], cmp);
      InsertSorted(x, t[1..], cmp, le, dom);
      var r := [t[0]] + rest;
      forall e | e in rest ensures le(t[0], e) {
        assert e in multiset(rest);
        if e != x {
          assert e in t[1..];
          var k :| 0 <= k < |t[1..]| && t[1..][k] == e;
          assert t[k + 1] == e;
        }
      }
      forall i, j | 0 <= i < j < |r| ensures le(r[i], r[j]) {
        if i == 0 {
          assert r[j] == rest[j - 1];
          assert rest[j - 1] in rest;
        } else {
          assert r[i] == rest[i - 1] && r[j] == rest[j - 1];
        }
      }
    }
  }

  /** Under a comparator that respects a total preorder, the result is ordered. */
  lemma {:induction false} SortSorted<T>(s: seq<T>, cmp: (T, T) -> int, le: (T, T) -> bool)
    requires TotalPreorderOn(s, le) && RespectsOn(s, cmp, le)
    ensures SortedBy(Sort(s, cmp), le)
  {
    if s != [] {
      var tail := s[1..];
      assert forall y :: y in tail ==> y in s;
      assert TotalPreorderOn(tail, le);
      assert RespectsOn(tail, cmp, le);
      SortSorted(tail, cmp, le);
      var t := Sort(tail, cmp);
      forall y | y in t ensures y in s {
        assert y in multiset(t);
      }
      InsertSorted(s[0], t, cmp, le, s);
    }
  }

  /** The head of a sorted non-empty result may precede every element. */
  lemma SortedHeadFirst<T>(r: seq<T>, le: (T, T) -> bool)
    requires |r| > 0 && SortedBy(r, le) && TotalPreorderOn(r, le)
    ensures forall e :: e in r ==> le(r[0], e)
  {
    forall e | e in r ensures le(r[0], e) {
      var k :| 0 <= k < |r| && r[k] == e;
      assert r[0] in r;
    }
  }
}
