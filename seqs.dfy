/**
 * Generic sequence helpers: flattening, joining parts with a separator
 * (itertools' intersperse followed by flatten) and splitting at the
 * elements that satisfy a predicate (slice::split).
 */
module Seqs {

  /** Concatenation of all the parts, in order. */
  function Flatten<T>(parts: seq<seq<T>>): (r: seq<T>)
    decreases |parts|
  {
    if |parts| == 0 then [] else Flatten(parts[..|parts| - 1]) + parts[|parts| - 1]
  }

  lemma {:induction false} FlattenAppend<T>(a: seq<seq<T>>, b: seq<seq<T>>)
    ensures Flatten(a + b) == Flatten(a) + Flatten(b)
    decreases |b|
  {
    if |b| == 0 {
      assert a + b == a;
    } else {
      assert (a + b)[..|a + b| - 1] == a + b[..|b| - 1];
      FlattenAppend(a, b[..|b| - 1]);
    }
  }

  lemma FlattenCons<T>(x: seq<T>, rest: seq<seq<T>>)
    ensures Flatten([x] + rest) == x + Flatten(rest)
  {
    FlattenAppend([x], rest);
    assert Flatten([x]) == Flatten([]) + x;
  }

  /** The parts joined, with one `sep` between each two consecutive parts. */
  function Intersperse<T>(parts: seq<seq<T>>, sep: T): (r: seq<T>)
    decreases |parts|
  {
    if |parts| == 0 then []
    else if |parts| == 1 then parts[0]
    else parts[0] + [sep] + Intersperse(parts[1..], sep)
  }

  lemma IntersperseCons<T>(x: seq<T>, rest: seq<seq<T>>, sep: T)
    requires |rest| >= 1
    ensures Intersperse([x] + rest, sep) == x + [sep] + Intersperse(rest, sep)
  {
    assert ([x] + rest)[1..] == rest;
  }

  /** A property every part and the separator have holds throughout the joined sequence. */
  lemma {:induction false} IntersperseAll<T>(parts: seq<seq<T>>, sep: T, p: T -> bool)
    requires p(sep)
    requires forall i, j :: 0 <= i < |parts| && 0 <= j < |parts[i]| ==> p(parts[i][j])
    ensures forall k :: 0 <= k < |Intersperse(parts, sep)| ==> p(Intersperse(parts, sep)[k])
    decreases |parts|
  {
    if |parts| > 1 {
      IntersperseAll(parts[1..], sep, p);
      var head := parts[0] + [sep];
      var tail := Intersperse(parts[1..], sep);
      assert Intersperse(parts, sep) == head + tail;
      assert forall k :: 0 <= k < |head| ==> p(head[k]) by {
        assert forall k :: 0 <= k < |parts[0]| ==> head[k] == parts[0][k];
      }
      assert forall k :: |head| <= k < |head| + |tail| ==> (head + tail)[k] == tail[k - |head|];
    } else if |parts| == 1 {
      assert forall j :: 0 <= j < |parts[0]| ==> p(parts[0][j]);
    }
  }

  /** Number of elements of `s` that satisfy `p`. */
  function Count<T>(s: seq<T>, p: T -> bool): (n: nat)
    ensures n <= |s|
    decreases |s|
  {
    if |s| == 0 then 0 else (if p(s[0]) then 1 else 0) + Count(s[1..], p)
  }

  lemma {:induction false} CountAppend<T>(a: seq<T>, b: seq<T>, p: T -> bool)
    ensures Count(a + b, p) == Count(a, p) + Count(b, p)
    decreases |a|
  {
    if |a| == 0 {
      assert a + b == b;
    } else {
      assert (a + b)[1..] == a[1..] + b;
      CountAppend(a[1..], b, p);
    }
  }

  /** True when no element of `s` satisfies `p`. */
  predicate NoneOf<T>(s: seq<T>, p: T -> bool)
  {
    forall i :: 0 <= i < |s| ==> !p(s[i])
  }

  /** Position of the first element satisfying `p`, or `|s|` when there is none. */
  function FirstWhere<T>(s: seq<T>, p: T -> bool): (k: nat)
    ensures k <= |s|
    ensures NoneOf(s[..k], p)
    ensures k < |s| ==> p(s[k])
    decreases |s|
  {
    if |s| == 0 then 0
    else if p(s[0]) then 0
    else
      var k := 1 + FirstWhere(s[1..], p);
      assert s[..k] == [s[0]] + s[1..][..k - 1];
      k
  }

  /** `FirstWhere` stops no later than any element that satisfies `p`. */
  lemma {:induction false} FirstWhereAtMost<T>(s: seq<T>, p: T -> bool, m: nat)
    requires m < |s| && p(s[m])
    ensures FirstWhere(s, p) <= m
    decreases |s|
  {
    if !p(s[0]) {
      assert s[1..][m - 1] == s[m];
      FirstWhereAtMost(s[1..], p, m - 1);
    }
  }

  /** `FirstWhere` is the one position with no match before it and a match at it (or the end). */
  lemma {:induction false} FirstWhereIs<T>(s: seq<T>, p: T -> bool, k: nat)
    requires k <= |s|
    requires forall i :: 0 <= i < k ==> !p(s[i])
    requires k < |s| ==> p(s[k])
    ensures FirstWhere(s, p) == k
    decreases |s|
  {
    if |s| > 0 && k > 0 {
      assert !p(s[0]);
      assert forall i :: 0 <= i < k - 1 ==> s[1..][i] == s[i + 1];
      FirstWhereIs(s[1..], p, k - 1);
    }
  }

  /** The least `j` in `[i, n)` with `p(j)`, or `n` when there is none. */
  function FirstIndexFrom(p: nat -> bool, i: nat, n: nat): (k: nat)
    requires i <= n
    ensures i <= k <= n
    ensures k < n ==> p(k)
    ensures forall j :: i <= j < k ==> !p(j)
    decreases n - i
  {
    if i == n then n else if p(i) then i else FirstIndexFrom(p, i + 1, n)
  }

  /** `FirstIndexFrom` is the one position with no match before it and a match at it (or `n`). */
  lemma {:induction false} FirstIndexFromIs(p: nat -> bool, i: nat, n: nat, k: nat)
    requires i <= k <= n
    requires forall j :: i <= j < k ==> !p(j)
    requires k < n ==> p(k)
    ensures FirstIndexFrom(p, i, n) == k
    decreases n - i
  {
    if i < k {
      FirstIndexFromIs(p, i + 1, n, k);
    }
  }

  /**
   * The maximal runs of `s` between elements that satisfy `p`; the
   * separating elements themselves are dropped. There is always at least
   * one part, as with Rust's `slice::split`.
   */
  function SplitWhere<T>(s: seq<T>, p: T -> bool): (parts: seq<seq<T>>)
    ensures |parts| >= 1
    decreases |s|
  {
    var k := FirstWhere(s, p);
    if k == |s| then [s] else [s[..k]] + SplitWhere(s[k + 1..], p)
  }

  /** Splitting yields one more part than there are separators. */
  lemma {:induction false} SplitWhereCount<T>(s: seq<T>, p: T -> bool)
    ensures |SplitWhere(s, p)| == Count(s, p) + 1
    decreases |s|
  {
    var k := FirstWhere(s, p);
    if k == |s| {
      assert s[..k] == s;
      CountNone(s, p);
    } else {
      SplitWhereCount(s[k + 1..], p);
      assert s == s[..k] + ([s[k]] + s[k + 1..]);
      CountAppend(s[..k], [s[k]] + s[k + 1..], p);
      CountAppend([s[k]], s[k + 1..], p);
      CountNone(s[..k], p);
    }
  }

  /** No part of a split holds a separator. */
  lemma {:induction false} SplitWhereParts<T>(s: seq<T>, p: T -> bool)
    ensures forall i :: 0 <= i < |SplitWhere(s, p)| ==> NoneOf(SplitWhere(s, p)[i], p)
    decreases |s|
  {
    var k := FirstWhere(s, p);
    if k == |s| {
      assert s[..k] == s;
    } else {
      SplitWhereParts(s[k + 1..], p);
      var rest := SplitWhere(s[k + 1..], p);
      assert SplitWhere(s, p) == [s[..k]] + rest;
      forall i | 0 <= i < |SplitWhere(s, p)|
        ensures NoneOf(SplitWhere(s, p)[i], p)
      {
        if i > 0 {
          assert SplitWhere(s, p)[i] == rest[i - 1];
        }
      }
    }
  }

  lemma {:induction false} CountNone<T>(s: seq<T>, p: T -> bool)
    requires NoneOf(s, p)
    ensures Count(s, p) == 0
    decreases |s|
  {
    if |s| > 0 {
      CountNone(s[1..], p);
    }
  }

  /** The suffix from `i` is its slice up to `j` followed by the suffix from `j`. */
  lemma SuffixSplit<T>(s: seq<T>, i: nat, j: nat)
    requires i <= j <= |s|
    ensures s[i..] == s[i..j] + s[j..]
  {
  }

  /** A sequence is its three slices at `i` and `j`, put together. */
  lemma SliceThree<T>(s: seq<T>, i: nat, j: nat)
    requires i <= j <= |s|
    ensures s == s[..i] + s[i..j] + s[j..]
  {
    assert s[..j] == s[..i] + s[i..j];
    assert s == s[..j] + s[j..];
  }

  /** Joining the parts of a split with the separator gives back the sequence. */
  lemma {:induction false} IntersperseSplit<T>(s: seq<T>, p: T -> bool, sep: T)
    requires forall i :: 0 <= i < |s| && p(s[i]) ==> s[i] == sep
    ensures Intersperse(SplitWhere(s, p), sep) == s
    decreases |s|
  {
    var k := FirstWhere(s, p);
    if k == |s| {
      assert s[..k] == s;
    } else {
      var rest := s[k + 1..];
      IntersperseSplit(rest, p, sep);
      assert SplitWhere(s, p) == [s[..k]] + SplitWhere(rest, p);
      IntersperseAround(s, k, SplitWhere(rest, p), sep);
    }
  }

  /** Putting back the separator at `k` between the part before it and the parts after it. */
  lemma IntersperseAround<T>(s: seq<T>, k: nat, parts: seq<seq<T>>, sep: T)
    requires k < |s| && s[k] == sep && |parts| >= 1
    requires Intersperse(parts, sep) == s[k + 1..]
    ensures Intersperse([s[..k]] + parts, sep) == s
  {
    IntersperseCons(s[..k], parts, sep);
    assert s[k..] == [sep] + s[k + 1..];
    assert s == s[..k] + s[k..];
  }

  /** Splitting a joined sequence at the separator gives back the parts. */
  lemma {:induction false} SplitIntersperse<T>(parts: seq<seq<T>>, p: T -> bool, sep: T)
    requires |parts| >= 1 && p(sep)
    requires forall i :: 0 <= i < |parts| ==> NoneOf(parts[i], p)
    ensures SplitWhere(Intersperse(parts, sep), p) == parts
    decreases |parts|
  {
    var s := Intersperse(parts, sep);
    var k := FirstWhere(s, p);
    if |parts| == 1 {
      assert s == parts[0];
    } else {
      var tail := Intersperse(parts[1..], sep);
      assert s == parts[0] + [sep] + tail;
      assert forall i :: 0 <= i < |parts[0]| ==> s[i] == parts[0][i];
      assert s[|parts[0]|] == sep;
      assert k == |parts[0]|;
      assert s[..k] == parts[0];
      assert s[k + 1..] == tail;
      SplitIntersperse(parts[1..], p, sep);
      assert [parts[0]] + parts[1..] == parts;
    }
  }

  /** The elements of `s` that satisfy `p`, in their original order. */
  function Filter<T>(s: seq<T>, p: T -> bool): (r: seq<T>)
    ensures |r| <= |s|
    decreases |s|
  {
    if |s| == 0 then [] else (if p(s[0]) then [s[0]] else []) + Filter(s[1..], p)
  }

  /** `Filter` keeps exactly the elements that satisfy `p`. */
  lemma {:induction false} FilterMembers<T>(s: seq<T>, p: T -> bool)
    ensures forall i :: 0 <= i < |Filter(s, p)| ==> Filter(s, p)[i] in s && p(Filter(s, p)[i])
    ensures forall i :: 0 <= i < |s| && p(s[i]) ==> s[i] in Filter(s, p)
    decreases |s|
  {
    if |s| > 0 {
      FilterMembers(s[1..], p);
      var head := if p(s[0]) then [s[0]] else [];
      var r := Filter(s, p);
      assert r == head + Filter(s[1..], p);
      forall i | 0 <= i < |r|
        ensures r[i] in s && p(r[i])
      {
        if i >= |head| {
          assert r[i] == Filter(s[1..], p)[i - |head|];
        }
      }
      forall i | 0 <= i < |s| && p(s[i])
        ensures s[i] in r
      {
        if i > 0 {
          assert s[i] == s[1..][i - 1];
        }
      }
    }
  }

  lemma {:induction false} FilterAppend<T>(a: seq<T>, b: seq<T>, p: T -> bool)
    ensures Filter(a + b, p) == Filter(a, p) + Filter(b, p)
    decreases |a|
  {
    if |a| == 0 {
      assert a + b == b;
    } else {
      var ab := a + b;
      assert ab[0] == a[0];
      assert ab[1..] == a[1..] + b;
      FilterAppend(a[1..], b, p);
      var head := if p(a[0]) then [a[0]] else [];
      assert Filter(ab, p) == head + Filter(a[1..] + b, p);
      assert Filter(a, p) == head + Filter(a[1..], p);
    }
  }

  /** Filtering twice is filtering once by the conjunction. */
  lemma {:induction false} FilterRefine<T>(s: seq<T>, p: T -> bool, q: T -> bool, r: T -> bool)
    requires forall x :: r(x) == (p(x) && q(x))
    ensures Filter(Filter(s, p), q) == Filter(s, r)
    decreases |s|
  {
    if |s| > 0 {
      FilterRefine(s[1..], p, q, r);
      FilterAppend(if p(s[0]) then [s[0]] else [], Filter(s[1..], p), q);
      assert Filter([s[0]], q) == (if q(s[0]) then [s[0]] else []) + Filter([s[0]][1..], q);
    }
  }

  /** Filters by pointwise equal predicates agree. */
  lemma {:induction false} FilterSame<T>(s: seq<T>, p: T -> bool, q: T -> bool)
    requires forall x :: p(x) == q(x)
    ensures Filter(s, p) == Filter(s, q)
    decreases |s|
  {
    if |s| > 0 {
      FilterSame(s[1..], p, q);
    }
  }

  /** A filter that every element passes keeps the whole sequence. */
  lemma {:induction false} FilterAll<T>(s: seq<T>, p: T -> bool)
    requires forall i :: 0 <= i < |s| ==> p(s[i])
    ensures Filter(s, p) == s
    decreases |s|
  {
    if |s| > 0 {
      assert forall i :: 0 <= i < |s| - 1 ==> s[1..][i] == s[i + 1];
      FilterAll(s[1..], p);
    }
  }

  /** Filtering by a weaker predicate first does not change a filter. */
  lemma {:induction false} FilterNarrower<T>(s: seq<T>, p: T -> bool, q: T -> bool)
    requires forall x :: q(x) ==> p(x)
    ensures Filter(Filter(s, p), q) == Filter(s, q)
    decreases |s|
  {
    if |s| > 0 {
      FilterNarrower(s[1..], p, q);
      FilterAppend(if p(s[0]) then [s[0]] else [], Filter(s[1..], p), q);
      assert Filter([s[0]], q) == (if q(s[0]) then [s[0]] else []) + Filter([s[0]][1..], q);
    }
  }

  /** The first element kept by `Filter` is the first element that satisfies `p`. */
  lemma {:induction false} FilterHead<T>(s: seq<T>, p: T -> bool)
    ensures |Filter(s, p)| > 0 <==> FirstWhere(s, p) < |s|
    ensures FirstWhere(s, p) < |s| ==> Filter(s, p)[0] == s[FirstWhere(s, p)]
    decreases |s|
  {
    if |s| > 0 && !p(s[0]) {
      FilterHead(s[1..], p);
    }
  }

  /** True when all elements of `s` are pairwise distinct. */
  predicate Distinct<T(==)>(s: seq<T>)
  {
    forall i, j :: 0 <= i < j < |s| ==> s[i] != s[j]
  }

  /** The distinct elements of `s`, each at the place of its first occurrence. */
  function Dedup<T(==)>(s: seq<T>): (r: seq<T>)
    ensures forall i :: 0 <= i < |r| ==> r[i] in s
    ensures forall i :: 0 <= i < |s| ==> s[i] in r
    ensures Distinct(r)
    ensures |r| <= |s|
    decreases |s|
  {
    if |s| == 0 then []
    else
      var r := Dedup(s[..|s| - 1]);
      assert forall i :: 0 <= i < |s| - 1 ==> s[i] == s[..|s| - 1][i];
      if s[|s| - 1] in r then r else r + [s[|s| - 1]]
  }

  /**
   * The map a sequence of key/value pairs collects into, a later pair
   * overriding an earlier one with the same key.
   */
  function MapOfPairs<K(==), V>(pairs: seq<(K, V)>): (m: map<K, V>)
    ensures forall i :: 0 <= i < |pairs| ==> pairs[i].0 in m
    ensures forall k :: k in m ==> exists i :: 0 <= i < |pairs| && pairs[i].0 == k
    decreases |pairs|
  {
    if |pairs| == 0 then map[]
    else
      var n := |pairs| - 1;
      var m := MapOfPairs(pairs[..n]);
      assert forall i :: 0 <= i < n ==> pairs[..n][i] == pairs[i];
      m[pairs[n].0 := pairs[n].1]
  }

  /** Every entry of the map comes from a pair, and the last pair with a key decides its value. */
  lemma {:induction false} MapOfPairsLast<K, V>(pairs: seq<(K, V)>, i: nat)
    requires i < |pairs|
    requires forall j :: i < j < |pairs| ==> pairs[j].0 != pairs[i].0
    ensures MapOfPairs(pairs)[pairs[i].0] == pairs[i].1
    decreases |pairs|
  {
    var n := |pairs| - 1;
    if i < n {
      assert pairs[..n][i] == pairs[i];
      forall j | i < j < n
        ensures pairs[..n][j].0 != pairs[..n][i].0
      {
        assert pairs[..n][j] == pairs[j];
      }
      MapOfPairsLast(pairs[..n], i);
    }
  }

  /** The value stored under a key is the value of some pair with that key. */
  lemma {:induction false} MapOfPairsSource<K, V>(pairs: seq<(K, V)>, k: K)
    requires k in MapOfPairs(pairs)
    ensures exists i :: 0 <= i < |pairs| && pairs[i].0 == k && pairs[i].1 == MapOfPairs(pairs)[k]
    decreases |pairs|
  {
    var n := |pairs| - 1;
    if pairs[n].0 != k {
      MapOfPairsSource(pairs[..n], k);
      var i :| 0 <= i < n && pairs[..n][i].0 == k && pairs[..n][i].1 == MapOfPairs(pairs[..n])[k];
      assert pairs[i] == pairs[..n][i];
    }
  }

  /** True when some element of `s` lies in `xs`. */
  function ContainsAny<T(==)>(s: seq<T>, xs: set<T>): (b: bool)
    ensures b <==> exists i :: 0 <= i < |s| && s[i] in xs
    decreases |s|
  {
    if |s| == 0 then false
    else
      assert forall i :: 1 <= i < |s| ==> s[i] == s[1..][i - 1];
      s[0] in xs || ContainsAny(s[1..], xs)
  }
}
