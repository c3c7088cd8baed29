/** The array built-ins the shelf logic relies on (filter, slice, splice,
    reverse), as functions on sequences, and what "order-preserving" means. */
module JsArray {

  /** `a` can be read off `b` left to right by skipping elements of `b`. */
  ghost predicate IsSubsequence<T>(a: seq<T>, b: seq<T>)
    decreases |b|
  {
    a == [] || (b != [] && ((a[0] == b[0] && IsSubsequence(a[1..], b[1..])) || IsSubsequence(a, b[1..])))
  }

  /** Array.prototype.filter: the elements satisfying `p`, each as often as
      in `s`. */
  function Filter<T(!new)>(s: seq<T>, p: T -> bool): (r: seq<T>)
    ensures |r| <= |s|
  {
    if s == [] then []
    else
      var rest := Filter(s[1..], p);
      if p(s[0]) then [s[0]] + rest else rest
  }

  /** What a filter keeps: exactly the elements of `s` that pass. */
  lemma {:induction false} FilterMembers<T(!new)>(s: seq<T>, p: T -> bool)
    ensures forall x :: x in Filter(s, p) <==> x in s && p(x)
  {
    if s != [] {
      FilterMembers(s[1..], p);
      assert s == [s[0]] + s[1..];
    }
  }

  /** Filtering keeps each passing element as often as it occurs and drops
      every other one. */
  lemma {:induction false} FilterCount<T(!new)>(s: seq<T>, p: T -> bool)
    ensures forall x :: multiset(Filter(s, p))[x] == if p(x) then multiset(s)[x] else 0
  {
    if s != [] {
      FilterCount(s[1..], p);
      assert s == [s[0]] + s[1..];
    }
  }

  /** Filtering keeps the order of what it keeps. */
  lemma {:induction false} FilterIsSubsequence<T(!new)>(s: seq<T>, p: T -> bool)
    ensures IsSubsequence(Filter(s, p), s)
  {
    if s != [] {
      FilterIsSubsequence(s[1..], p);
      var r := Filter(s, p);
      if p(s[0]) {
        assert r[0] == s[0] && r[1..] == Filter(s[1..], p);
      }
    }
  }

  /** Filtering by `p` and by its negation splits `s` without loss: every
      element lands in exactly one of the two results. */
  lemma FilterSplit<T(!new)>(s: seq<T>, p: T -> bool, q: T -> bool)
    requires forall x :: q(x) == !p(x)
    ensures multiset(Filter(s, p)) + multiset(Filter(s, q)) == multiset(s)
    ensures |Filter(s, p)| + |Filter(s, q)| == |s|
  {
    FilterCount(s, p);
    FilterCount(s, q);
    var a, b := multiset(Filter(s, p)), multiset(Filter(s, q));
    assert forall x :: (a + b)[x] == multiset(s)[x];
    assert a + b == multiset(s);
    assert |a + b| == |a| + |b|;
  }

  /** Two filters in a row are one filter by the conjunction. */
  lemma {:induction false} FilterFilter<T(!new)>(s: seq<T>, p: T -> bool, q: T -> bool, pq: T -> bool)
    requires forall x :: pq(x) == (p(x) && q(x))
    ensures Filter(Filter(s, p), q) == Filter(s, pq)
  {
    if s != [] {
      FilterFilter(s[1..], p, q, pq);
      if p(s[0]) {
        assert Filter(s, p) == [s[0]] + Filter(s[1..], p);
        assert Filter(s, p)[1..] == Filter(s[1..], p);
      }
    }
  }

  /** Filtering distributes over concatenation. */
  lemma {:induction false} FilterConcat<T(!new)>(a: seq<T>, b: seq<T>, p: T -> bool)
    ensures Filter(a + b, p) == Filter(a, p) + Filter(b, p)
  {
    if a == [] {
      assert a + b == b;
    } else {
      var ab := a + b;
      assert ab[0] == a[0];
      assert ab[1..] == a[1..] + b;
      FilterConcat(a[1..], b, p);
      var fa, fb := Filter(a[1..], p), Filter(b, p);
      if p(a[0]) {
        assert Filter(ab, p) == [a[0]] + (fa + fb);
        assert Filter(a, p) == [a[0]] + fa;
        assert [a[0]] + (fa + fb) == ([a[0]] + fa) + fb;
      } else {
        assert Filter(ab, p) == fa + fb;
        assert Filter(a, p) == fa;
      }
    }
  }

  /** A filter every element passes changes nothing. */
  lemma {:induction false} FilterKeepsAll<T(!new)>(s: seq<T>, p: T -> bool)
    requires forall i :: 0 <= i < |s| ==> p(s[i])
    ensures Filter(s, p) == s
  {
    if s != [] {
      FilterKeepsAll(s[1..], p);
      assert s == [s[0]] + s[1..];
    }
  }

  /** Where a relative start index lands in an array of length `len`, as
      slice and splice compute it: a negative start counts from the end,
      and the result is clamped to 0..len. */
  function RelativeStart(len: nat, start: int): (k: nat)
    ensures k <= len
  {
    if start < 0 then (if len + start < 0 then 0 else len + start)
    else if start > len then len
    else start
  }

  /** Array.prototype.slice(start): the elements from the relative start on. */
  function SliceFrom<T>(s: seq<T>, start: int): seq<T>
  {
    s[RelativeStart(|s|, start)..]
  }

  /** Array.prototype.splice(start, 1): removes the one element at the
      relative start, if there is one there. */
  function SpliceOne<T>(s: seq<T>, start: int): seq<T>
  {
    var k := RelativeStart(|s|, start);
    if k < |s| then s[..k] + s[k + 1..] else s
  }

  /** slice(-m) keeps the last m elements, or all of them when there are
      fewer; splice(-1, 1) drops the last element; splice(k, 1) at a
      position inside the array cuts exactly that element out. */
  lemma SliceSpliceEnds<T>(s: seq<T>, m: nat)
    ensures 0 < m ==> SliceFrom(s, -(m as int)) == s[(if m < |s| then |s| - m else 0)..]
    ensures s != [] ==> SpliceOne(s, -1) == s[..|s| - 1]
    ensures forall k :: 0 <= k < |s| ==> SpliceOne(s, k) == s[..k] + s[k + 1..]
  {
  }

  /** Array.prototype.reverse on a fresh copy. */
  function Reverse<T>(s: seq<T>): (r: seq<T>)
    ensures |r| == |s|
    ensures forall i :: 0 <= i < |s| ==> r[i] == s[|s| - 1 - i]
  {
    if s == [] then [] else [s[|s| - 1]] + Reverse(s[..|s| - 1])
  }

  /** Writing back the element already at a position changes nothing. */
  lemma UpdateWithSelf<T>(s: seq<T>, k: nat)
    requires k < |s|
    ensures s[k := s[k]] == s
  {
  }
}
