/** Order-preserving filters, counts and a newest-first sort over sequences.
    Every repository query of the backend is a filter of its table in store
    order (optionally re-ordered by a descending key), and every client list
    filter keeps the order of the list it starts from. */
module Seqs {

  /** The elements of `xs` that satisfy `p`, in their original order. */
  function Filter<T>(xs: seq<T>, p: T -> bool): (r: seq<T>)
    ensures |r| <= |xs|
    ensures forall i :: 0 <= i < |r| ==> r[i] in xs && p(r[i])
    ensures forall i :: 0 <= i < |xs| && p(xs[i]) ==> xs[i] in r
  {
    if xs == [] then []
    else if p(xs[0]) then [xs[0]] + Filter(xs[1..], p)
    else Filter(xs[1..], p)
  }

  /** The elements of `xs` that do NOT satisfy `p`, in their original order. */
  function Reject<T>(xs: seq<T>, p: T -> bool): (r: seq<T>)
    ensures |r| <= |xs|
    ensures forall i :: 0 <= i < |r| ==> r[i] in xs && !p(r[i])
    ensures forall i :: 0 <= i < |xs| && !p(xs[i]) ==> xs[i] in r
  {
    if xs == [] then []
    else if p(xs[0]) then Reject(xs[1..], p)
    else [xs[0]] + Reject(xs[1..], p)
  }

  /** How many elements of `xs` satisfy `p`. */
  function Count<T>(xs: seq<T>, p: T -> bool): nat
  {
    |Filter(xs, p)|
  }

  /** The position of the first element that satisfies `p`, or -1 when none does. */
  function FirstIndex<T>(xs: seq<T>, p: T -> bool): (k: int)
    ensures -1 <= k < |xs|
    ensures k >= 0 ==> p(xs[k]) && forall j :: 0 <= j < k ==> !p(xs[j])
    ensures k == -1 ==> forall j :: 0 <= j < |xs| ==> !p(xs[j])
  {
    if xs == [] then -1
    else if p(xs[0]) then 0
    else
      var k := FirstIndex(xs[1..], p);
      if k == -1 then -1 else k + 1
  }

  /** `a` can be obtained from `b` by deleting elements: it keeps their relative order. */
  ghost predicate IsSubsequence<T>(a: seq<T>, b: seq<T>)
    decreases |b|
  {
    if a == [] then true
    else if b == [] then false
    else if a[0] == b[0] then IsSubsequence(a[1..], b[1..])
    else IsSubsequence(a, b[1..])
  }

  lemma {:induction false} FilterIsSubsequence<T>(xs: seq<T>, p: T -> bool)
    ensures IsSubsequence(Filter(xs, p), xs)
    decreases |xs|
  {
    if xs != [] {
      FilterIsSubsequence(xs[1..], p);
      var r := Filter(xs[1..], p);
      if p(xs[0]) {
        assert Filter(xs, p) == [xs[0]] + r;
        assert ([xs[0]] + r)[1..] == r;
      } else {
        SubsequenceIgnoresHead(Filter(xs, p), xs);
      }
    }
  }

  lemma {:induction false} SubsequenceIgnoresHead<T>(a: seq<T>, b: seq<T>)
    requires b != [] && IsSubsequence(a, b[1..])
    ensures IsSubsequence(a, b)
    decreases |b|, 0
  {
    if a != [] && a[0] == b[0] {
      // a[1..] is a subsequence of b[1..] because a is
      SubsequenceDropHead(a, b[1..]);
    }
  }

  lemma {:induction false} SubsequenceDropHead<T>(a: seq<T>, b: seq<T>)
    requires a != [] && IsSubsequence(a, b)
    ensures IsSubsequence(a[1..], b)
    decreases |b|, 1
  {
    if b != [] {
      if a[0] == b[0] {
        SubsequenceIgnoresHead(a[1..], b);
      } else {
        SubsequenceDropHead(a, b[1..]);
        SubsequenceIgnoresHead(a[1..], b);
      }
    }
  }

  /** A subsequence of a subsequence is a subsequence. */
  lemma {:induction false} SubsequenceTransitive<T>(a: seq<T>, b: seq<T>, c: seq<T>)
    requires IsSubsequence(a, b) && IsSubsequence(b, c)
    ensures IsSubsequence(a, c)
    decreases |c|
  {
    if a != [] && c != [] {
      if b[0] == c[0] {
        if a[0] == b[0] {
          SubsequenceTransitive(a[1..], b[1..], c[1..]);
        } else {
          SubsequenceTransitive(a, b[1..], c[1..]);
        }
      } else {
        SubsequenceTransitive(a, b, c[1..]);
        SubsequenceIgnoresHead(a, c);
      }
    }
  }

  /** Filtering twice with the same predicate changes nothing the second time. */
  lemma {:induction false} FilterIdempotent<T>(xs: seq<T>, p: T -> bool)
    ensures Filter(Filter(xs, p), p) == Filter(xs, p)
    decreases |xs|
  {
    if xs != [] {
      FilterIdempotent(xs[1..], p);
      if p(xs[0]) {
        var r := Filter(xs[1..], p);
        assert ([xs[0]] + r)[1..] == r;
      }
    }
  }

  /** Rejecting twice with the same predicate changes nothing the second time. */
  lemma {:induction false} RejectIdempotent<T>(xs: seq<T>, p: T -> bool)
    ensures Reject(Reject(xs, p), p) == Reject(xs, p)
    decreases |xs|
  {
    if xs != [] {
      RejectIdempotent(xs[1..], p);
      if !p(xs[0]) {
        var r := Reject(xs[1..], p);
        assert ([xs[0]] + r)[1..] == r;
      }
    }
  }

  /** Two different positions that pass `p` make the filter at least two long. */
  lemma {:induction false} FilterTwoHits<T>(xs: seq<T>, p: T -> bool, i: int, j: int)
    requires 0 <= i < j < |xs| && p(xs[i]) && p(xs[j])
    ensures |Filter(xs, p)| >= 2
    decreases |xs|
  {
    if i > 0 {
      FilterTwoHits(xs[1..], p, i - 1, j - 1);
    } else {
      assert xs[1..][j - 1] == xs[j];
      assert xs[j] in Filter(xs[1..], p);
    }
  }

  /** Every element either passes or fails `p`: the two parts add up to the whole. */
  lemma {:induction false} FilterRejectPartition<T>(xs: seq<T>, p: T -> bool)
    ensures |Filter(xs, p)| + |Reject(xs, p)| == |xs|
    decreases |xs|
  {
    if xs != [] {
      FilterRejectPartition(xs[1..], p);
    }
  }

  /** A filter keeps an element exactly as often as the input holds it, when it passes. */
  lemma {:induction false} FilterMultiset<T>(xs: seq<T>, p: T -> bool)
    ensures multiset(Filter(xs, p)) + multiset(Reject(xs, p)) == multiset(xs)
    decreases |xs|
  {
    if xs != [] {
      FilterMultiset(xs[1..], p);
      assert xs == [xs[0]] + xs[1..];
    }
  }

  /** A filter holds each passing element as often as the input does, and no failing one. */
  lemma FilterOccurrences<T>(xs: seq<T>, p: T -> bool)
    ensures forall x :: multiset(Filter(xs, p))[x] == if p(x) then multiset(xs)[x] else 0
  {
    FilterMultiset(xs, p);
    forall x
      ensures multiset(Filter(xs, p))[x] == if p(x) then multiset(xs)[x] else 0
    {
      if p(x) {
        assert x !in multiset(Reject(xs, p));
      } else {
        assert x !in multiset(Filter(xs, p));
      }
    }
  }

  /** A reject holds each failing element as often as the input does, and no passing one. */
  lemma RejectOccurrences<T>(xs: seq<T>, p: T -> bool)
    ensures forall x :: multiset(Reject(xs, p))[x] == if p(x) then 0 else multiset(xs)[x]
  {
    FilterMultiset(xs, p);
    forall x
      ensures multiset(Reject(xs, p))[x] == if p(x) then 0 else multiset(xs)[x]
    {
      if p(x) {
        assert x !in multiset(Reject(xs, p));
      } else {
        assert x !in multiset(Filter(xs, p));
      }
    }
  }

  lemma {:induction false} RejectIsSubsequence<T>(xs: seq<T>, p: T -> bool)
    ensures IsSubsequence(Reject(xs, p), xs)
    decreases |xs|
  {
    if xs != [] {
      RejectIsSubsequence(xs[1..], p);
      var r := Reject(xs[1..], p);
      if !p(xs[0]) {
        assert Reject(xs, p) == [xs[0]] + r;
        assert ([xs[0]] + r)[1..] == r;
      } else {
        SubsequenceIgnoresHead(Reject(xs, p), xs);
      }
    }
  }

  /** Reordering a sequence does not change how many of its elements pass a filter. */
  lemma CountPermutation<T>(xs: seq<T>, ys: seq<T>, p: T -> bool)
    requires multiset(xs) == multiset(ys)
    ensures Count(xs, p) == Count(ys, p)
  {
    FilterOccurrences(xs, p);
    FilterOccurrences(ys, p);
    assert multiset(Filter(xs, p)) == multiset(Filter(ys, p));
    assert |multiset(Filter(xs, p))| == |Filter(xs, p)|;
    assert |multiset(Filter(ys, p))| == |Filter(ys, p)|;
  }

  /** A filter by `q` of a filter by `p` is the filter by both. */
  lemma {:induction false} FilterOfFilter<T>(xs: seq<T>, p: T -> bool, q: T -> bool, pq: T -> bool)
    requires forall x :: pq(x) == (p(x) && q(x))
    ensures Filter(Filter(xs, p), q) == Filter(xs, pq)
    decreases |xs|
  {
    if xs != [] {
      FilterOfFilter(xs[1..], p, q, pq);
      if p(xs[0]) {
        var r := Filter(xs[1..], p);
        assert ([xs[0]] + r)[1..] == r;
      }
    }
  }

  /** Filtering by a predicate that every element satisfies is the identity. */
  lemma {:induction false} FilterAll<T>(xs: seq<T>, p: T -> bool)
    requires forall i :: 0 <= i < |xs| ==> p(xs[i])
    ensures Filter(xs, p) == xs
    decreases |xs|
  {
    if xs != [] {
      FilterAll(xs[1..], p);
    }
  }

  /** Filtering by a predicate that no element satisfies leaves nothing. */
  lemma {:induction false} FilterNone<T>(xs: seq<T>, p: T -> bool)
    requires forall i :: 0 <= i < |xs| ==> !p(xs[i])
    ensures Filter(xs, p) == []
    decreases |xs|
  {
    if xs != [] {
      FilterNone(xs[1..], p);
    }
  }

  /** Filters distribute over concatenation. */
  lemma {:induction false} FilterAppend<T>(xs: seq<T>, ys: seq<T>, p: T -> bool)
    ensures Filter(xs + ys, p) == Filter(xs, p) + Filter(ys, p)
    decreases |xs|
  {
    if xs == [] {
      assert xs + ys == ys;
    } else {
      var t := xs[1..];
      FilterAppend(t, ys, p);
      assert (xs + ys)[0] == xs[0] && (xs + ys)[1..] == t + ys;
      if p(xs[0]) {
        calc {
          Filter(xs + ys, p);
          [xs[0]] + Filter(t + ys, p);
          [xs[0]] + (Filter(t, p) + Filter(ys, p));
          ([xs[0]] + Filter(t, p)) + Filter(ys, p);
        }
      }
    }
  }

  /** Two complementary predicates split a sequence: their counts add up to its length. */
  lemma {:induction false} CountComplement<T>(xs: seq<T>, p: T -> bool, q: T -> bool)
    requires forall x :: q(x) == !p(x)
    ensures Count(xs, p) + Count(xs, q) == |xs|
    decreases |xs|
  {
    if xs != [] {
      CountComplement(xs[1..], p, q);
    }
  }

  /** Appending one element adds one to the count exactly when it passes. */
  lemma CountSnoc<T>(xs: seq<T>, x: T, p: T -> bool)
    ensures Count(xs + [x], p) == Count(xs, p) + (if p(x) then 1 else 0)
  {
    FilterAppend(xs, [x], p);
  }

  /** Replacing one element changes the count by what the old and new element contribute. */
  lemma {:induction false} CountUpdate<T>(xs: seq<T>, k: int, y: T, p: T -> bool)
    requires 0 <= k < |xs|
    ensures Count(xs[k := y], p) + (if p(xs[k]) then 1 else 0) == Count(xs, p) + (if p(y) then 1 else 0)
    decreases |xs|
  {
    if k == 0 {
      assert xs[k := y][1..] == xs[1..];
    } else {
      CountUpdate(xs[1..], k - 1, y, p);
      assert xs[k := y][1..] == xs[1..][k - 1 := y];
    }
  }

  // ---------------------------------------------------------------------------
  // Newest-first ordering (ORDER BY <key> DESC)

  ghost predicate SortedDesc<T>(xs: seq<T>, key: T -> int)
  {
    forall i, j :: 0 <= i < j < |xs| ==> key(xs[i]) >= key(xs[j])
  }

  /** Inserts `x` before the first element whose key is strictly smaller. */
  function InsertDesc<T>(x: T, xs: seq<T>, key: T -> int): (r: seq<T>)
    requires SortedDesc(xs, key)
    ensures SortedDesc(r, key)
    ensures multiset(r) == multiset(xs) + multiset{x}
    ensures |r| == |xs| + 1
  {
    if xs == [] then [x]
    else if key(x) >= key(xs[0]) then [x] + xs
    else
      var rest := InsertDesc(x, xs[1..], key);
      assert xs == [xs[0]] + xs[1..];
      assert forall k :: 0 <= k < |rest| ==> key(rest[k]) <= key(xs[0]) by {
        forall k | 0 <= k < |rest|
          ensures key(rest[k]) <= key(xs[0])
        {
          assert rest[k] in multiset(rest);
          if rest[k] != x {
            assert rest[k] in multiset(xs[1..]);
            var m :| 0 <= m < |xs[1..]| && xs[1..][m] == rest[k];
            assert xs[m + 1] == rest[k];
          }
        }
      }
      [xs[0]] + rest
  }

  /** The elements of `xs` ordered by decreasing `key`; ties keep no promised order. */
  function SortDesc<T>(xs: seq<T>, key: T -> int): (r: seq<T>)
    ensures SortedDesc(r, key)
    ensures multiset(r) == multiset(xs)
    ensures |r| == |xs|
  {
    if xs == [] then []
    else
      assert xs == [xs[0]] + xs[1..];
      InsertDesc(xs[0], SortDesc(xs[1..], key), key)
  }

  /** Sorting does not add or drop elements: membership is unchanged. */
  lemma SortDescSameElements<T>(xs: seq<T>, key: T -> int)
    ensures forall x :: x in SortDesc(xs, key) <==> x in xs
  {
    var r := SortDesc(xs, key);
    forall x
      ensures x in r <==> x in xs
    {
      assert x in r <==> x in multiset(r);
      assert x in xs <==> x in multiset(xs);
    }
  }
}
