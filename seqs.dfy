/** Sequence helpers shared by the handlers: JavaScript's `filter` and
    `findIndex`, with the facts the rest of the model relies on. */
module Seqs {
  import opened Types

  /** `s.filter(p)`: the elements satisfying `p`, in their original order. */
  function Filter<T(!new)>(s: seq<T>, p: T -> bool): (r: seq<T>)
    ensures |r| <= |s|
    ensures forall k :: 0 <= k < |r| ==> p(r[k])
  {
    if s == [] then [] else (if p(s[0]) then [s[0]] else []) + Filter(s[1..], p)
  }

  /** The filtered sequence holds exactly the elements of `s` satisfying `p`. */
  lemma {:induction false} FilterMembers<T(!new)>(s: seq<T>, p: T -> bool)
    ensures forall x :: x in Filter(s, p) <==> x in s && p(x)
  {
    if s != [] {
      FilterMembers(s[1..], p);
      assert s == [s[0]] + s[1..];
    }
  }

  /** Filtering distributes over concatenation. */
  lemma {:induction false} FilterAppend<T(!new)>(a: seq<T>, b: seq<T>, p: T -> bool)
    ensures Filter(a + b, p) == Filter(a, p) + Filter(b, p)
  {
    if a == [] {
      assert a + b == b;
    } else {
      assert (a + b)[0] == a[0];
      assert (a + b)[1..] == a[1..] + b;
      FilterAppend(a[1..], b, p);
    }
  }

  /** An element failing `p` is dropped, so the filter is strictly shorter. */
  lemma {:induction false} FilterRemovesRejected<T(!new)>(s: seq<T>, p: T -> bool, x: T)
    requires x in s && !p(x)
    ensures |Filter(s, p)| < |s|
  {
    if s[0] != x {
      FilterRemovesRejected(s[1..], p, x);
    }
  }

  /** When no element satisfies `p`, nothing is kept. */
  lemma {:induction false} FilterNone<T(!new)>(s: seq<T>, p: T -> bool)
    requires forall k :: 0 <= k < |s| ==> !p(s[k])
    ensures Filter(s, p) == []
  {
    if s != [] {
      FilterNone(s[1..], p);
    }
  }

  /** When every element satisfies `p`, filtering changes nothing. */
  lemma {:induction false} FilterAll<T(!new)>(s: seq<T>, p: T -> bool)
    requires forall k :: 0 <= k < |s| ==> p(s[k])
    ensures Filter(s, p) == s
  {
    if s != [] {
      FilterAll(s[1..], p);
    }
  }

  /** Every element satisfies exactly one of `p` and `q`, so the two
      filters together are as long as the sequence. */
  lemma {:induction false} FilterSplitLength<T(!new)>(s: seq<T>, p: T -> bool, q: T -> bool)
    requires forall x :: p(x) <==> !q(x)
    ensures |Filter(s, p)| + |Filter(s, q)| == |s|
  {
    if s != [] {
      FilterSplitLength(s[1..], p, q);
    }
  }

  /** When no element satisfying `q` comes before one satisfying `p`, and
      every element satisfies exactly one of them, the `p` elements followed
      by the `q` elements are the sequence itself. */
  lemma {:induction false} FilterSplitConcat<T(!new)>(s: seq<T>, p: T -> bool, q: T -> bool)
    requires forall x :: p(x) <==> !q(x)
    requires forall i, j :: 0 <= i < j < |s| && q(s[i]) ==> !p(s[j])
    ensures Filter(s, p) + Filter(s, q) == s
  {
    if s != [] {
      var t := s[1..];
      if p(s[0]) {
        FilterSplitConcat(t, p, q);
        FilterConsKept(s, p, q);
      } else {
        FilterSplitAfterQ(s, p, q);
      }
    }
  }

  /** The inductive step of `FilterSplitConcat` when the head satisfies `p`. */
  lemma FilterConsKept<T(!new)>(s: seq<T>, p: T -> bool, q: T -> bool)
    requires s != [] && p(s[0]) && !q(s[0])
    requires Filter(s[1..], p) + Filter(s[1..], q) == s[1..]
    ensures Filter(s, p) + Filter(s, q) == s
  {
    var t := s[1..];
    FilterKeepsHead(s, p);
    FilterDropsHead(s, q);
    ConsConcat(s[0], Filter(t, p), Filter(t, q), t);
    HeadTail(s);
  }

  /** A non-empty sequence is its head followed by its tail. */
  lemma HeadTail<T>(s: seq<T>)
    requires s != []
    ensures s == [s[0]] + s[1..]
  {
  }

  /** A head satisfying `p` is kept in front. */
  lemma FilterKeepsHead<T(!new)>(s: seq<T>, p: T -> bool)
    requires s != [] && p(s[0])
    ensures Filter(s, p) == [s[0]] + Filter(s[1..], p)
  {
  }

  /** A head failing `p` is dropped. */
  lemma FilterDropsHead<T(!new)>(s: seq<T>, p: T -> bool)
    requires s != [] && !p(s[0])
    ensures Filter(s, p) == Filter(s[1..], p)
  {
    assert Filter(s, p) == [] + Filter(s[1..], p);
  }

  /** Putting an element in front of the first of two halves puts it in front of the whole. */
  lemma ConsConcat<T>(x: T, a: seq<T>, b: seq<T>, t: seq<T>)
    requires a + b == t
    ensures ([x] + a) + b == [x] + t
  {
  }

  /** Once the head satisfies `q`, nothing after it satisfies `p`. */
  lemma FilterSplitAfterQ<T(!new)>(s: seq<T>, p: T -> bool, q: T -> bool)
    requires s != [] && q(s[0])
    requires forall x :: p(x) <==> !q(x)
    requires forall j :: 0 < j < |s| ==> !p(s[j])
    ensures Filter(s, p) == [] && Filter(s, q) == s
  {
    FilterNone(s, p);
    FilterAll(s, q);
  }

  /** `s.findIndex(p)`: the first index whose element satisfies `p`, or -1. */
  function FirstIndex<T>(s: seq<T>, p: T -> bool): (i: int)
    ensures -1 <= i < |s|
    ensures i == -1 <==> forall k :: 0 <= k < |s| ==> !p(s[k])
    ensures 0 <= i ==> p(s[i]) && forall k :: 0 <= k < i ==> !p(s[k])
  {
    if s == [] then -1
    else if p(s[0]) then 0
    else
      var j := FirstIndex(s[1..], p);
      if j == -1 then -1 else j + 1
  }

  /** An index whose element is the first to satisfy `p` is what `findIndex` returns. */
  lemma FirstIndexAt<T>(s: seq<T>, p: T -> bool, i: int)
    requires 0 <= i < |s| && p(s[i])
    requires forall k :: 0 <= k < i ==> !p(s[k])
    ensures FirstIndex(s, p) == i
  {
  }

  /** `s.map(x => p(x) ? f(x) : x)`: applies `f` to the elements satisfying `p`. */
  function MapWhere<T>(s: seq<T>, p: T -> bool, f: T -> T): (r: seq<T>)
    ensures |r| == |s|
    ensures forall k :: 0 <= k < |s| && p(s[k]) ==> r[k] == f(s[k])
    ensures forall k :: 0 <= k < |s| && !p(s[k]) ==> r[k] == s[k]
  {
    if s == [] then [] else [if p(s[0]) then f(s[0]) else s[0]] + MapWhere(s[1..], p, f)
  }

  /** Replacing an element by one that `p` judges alike keeps the filtered length. */
  lemma {:induction false} FilterUpdateLength<T(!new)>(s: seq<T>, i: int, y: T, p: T -> bool)
    requires 0 <= i < |s| && p(y) == p(s[i])
    ensures |Filter(s[i := y], p)| == |Filter(s, p)|
  {
    if i > 0 {
      assert s[i := y][1..] == s[1..][i - 1 := y];
      FilterUpdateLength(s[1..], i - 1, y, p);
    }
  }

  /** The number of elements satisfying `p`. */
  function Count<T(!new)>(s: seq<T>, p: T -> bool): nat
  {
    |Filter(s, p)|
  }
}
