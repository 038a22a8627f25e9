/** Sequence operations shared by the JavaScript, pandas and SQL code: sums, Python-style
    slicing, stable sorting (descending by a number, ascending by a string), top-k
    selection and keep-first de-duplication. */
module Seqs {
  import opened Wrappers
  import opened Strings

  function Min(a: int, b: int): int {
    if a <= b then a else b
  }

  function Max(a: int, b: int): int {
    if a >= b then a else b
  }

  /** `g` applied to every element (JavaScript `map`). */
  function Map<A, B>(xs: seq<A>, g: A -> B): (r: seq<B>)
    ensures |r| == |xs|
    ensures forall i :: 0 <= i < |xs| ==> r[i] == g(xs[i])
  {
    seq(|xs|, i requires 0 <= i < |xs| => g(xs[i]))
  }

  /** The sum of `f` over `xs` (JavaScript `reduce` from 0, SQL and pandas `SUM`). */
  function Sum<T>(xs: seq<T>, f: T -> int): int {
    if |xs| == 0 then 0 else f(xs[0]) + Sum(xs[1..], f)
  }

  lemma {:induction false} SumConcat<T>(a: seq<T>, b: seq<T>, f: T -> int)
    ensures Sum(a + b, f) == Sum(a, f) + Sum(b, f)
  {
    if |a| == 0 {
      assert a + b == b;
    } else {
      assert (a + b)[1..] == a[1..] + b;
      SumConcat(a[1..], b, f);
    }
  }

  /** Reordering does not change a sum. */
  lemma {:induction false} SumPermutation<T>(a: seq<T>, b: seq<T>, f: T -> int)
    requires multiset(a) == multiset(b)
    ensures Sum(a, f) == Sum(b, f)
  {
    if |a| == 0 {
      assert |b| == |multiset(b)| == 0;
    } else {
      var i := IndexIn(b, a[0]);
      var rest := b[..i] + b[i + 1..];
      PermutationTail(a, b, i);
      SumPermutation(a[1..], rest, f);
      SumRemove(b, i, f);
    }
  }

  lemma {:induction false} IndexIn<T>(b: seq<T>, x: T) returns (i: int)
    requires x in multiset(b)
    ensures 0 <= i < |b| && b[i] == x
  {
    assert b == [b[0]] + b[1..];
    if b[0] == x {
      i := 0;
    } else {
      assert x in multiset(b[1..]);
      i := IndexIn(b[1..], x);
      i := i + 1;
    }
  }

  /** Removing the same value from two permutations of each other leaves permutations. */
  lemma PermutationTail<T>(a: seq<T>, b: seq<T>, i: int)
    requires multiset(a) == multiset(b) && |a| > 0 && 0 <= i < |b| && b[i] == a[0]
    ensures multiset(a[1..]) == multiset(b[..i] + b[i + 1..])
  {
    MultisetRemove(a, 0);
    assert a[..0] + a[1..] == a[1..];
    MultisetRemove(b, i);
  }

  lemma MultisetRemove<T>(b: seq<T>, i: int)
    requires 0 <= i < |b|
    ensures multiset(b[..i] + b[i + 1..]) == multiset(b) - multiset{b[i]}
  {
    assert b == b[..i] + [b[i]] + b[i + 1..];
  }

  lemma SumRemove<T>(b: seq<T>, i: int, f: T -> int)
    requires 0 <= i < |b|
    ensures Sum(b, f) == f(b[i]) + Sum(b[..i] + b[i + 1..], f)
  {
    assert b == b[..i] + b[i..];
    SumConcat(b[..i], b[i..], f);
    assert b[i..][1..] == b[i + 1..];
    SumConcat(b[..i], b[i + 1..], f);
  }

  /** No value occurs twice. */
  ghost predicate Distinct<T>(xs: seq<T>) {
    forall i, j :: 0 <= i < j < |xs| ==> xs[i] != xs[j]
  }

  /** A sequence without repetitions has as many elements as its set of values. */
  lemma {:induction false} DistinctCard<T>(xs: seq<T>)
    requires Distinct(xs)
    ensures |set x | x in xs| == |xs|
  {
    if |xs| > 0 {
      var t := xs[1..];
      assert Distinct(t) by {
        forall i, j | 0 <= i < j < |t| ensures t[i] != t[j] { assert t[i] == xs[i + 1] && t[j] == xs[j + 1]; }
      }
      DistinctCard(t);
      assert (set x | x in xs) == (set x | x in t) + {xs[0]};
      assert xs[0] !in t by {
        forall j | 0 <= j < |t| ensures t[j] != xs[0] { assert t[j] == xs[j + 1]; }
      }
    }
  }

  /** No two elements share a key. */
  ghost predicate KeyDistinct<T, K>(xs: seq<T>, key: T -> K) {
    forall i, j :: 0 <= i < j < |xs| ==> key(xs[i]) != key(xs[j])
  }

  lemma CountAtTwoPositions<T>(xs: seq<T>, i: int, j: int)
    requires 0 <= i < j < |xs| && xs[i] == xs[j]
    ensures multiset(xs)[xs[i]] >= 2
  {
    assert xs == xs[..j] + [xs[j]] + xs[j + 1..];
    assert xs[i] in multiset(xs[..j]);
  }

  lemma CountAtOnePosition<T, K>(xs: seq<T>, key: T -> K, p: int)
    requires KeyDistinct(xs, key) && 0 <= p < |xs|
    ensures multiset(xs)[xs[p]] == 1
  {
    assert xs == xs[..p] + [xs[p]] + xs[p + 1..];
    assert forall q :: 0 <= q < p ==> xs[..p][q] != xs[p];
    assert forall q :: p < q < |xs| ==> xs[q] != xs[p];
    var tail := xs[p + 1..];
    assert forall q :: 0 <= q < |tail| ==> tail[q] != xs[p];
    assert xs[p] !in multiset(xs[..p]);
    assert xs[p] !in multiset(xs[p + 1..]);
  }

  /** Reordering keeps keys distinct. */
  lemma PermutationKeepsKeyDistinct<T, K>(a: seq<T>, b: seq<T>, key: T -> K)
    requires multiset(a) == multiset(b) && KeyDistinct(a, key)
    ensures KeyDistinct(b, key)
  {
    forall i, j | 0 <= i < j < |b| ensures key(b[i]) != key(b[j]) {
      if key(b[i]) == key(b[j]) {
        assert b[i] in multiset(a) && b[j] in multiset(a);
        var p :| 0 <= p < |a| && a[p] == b[i];
        var q :| 0 <= q < |a| && a[q] == b[j];
        assert p == q;
        CountAtTwoPositions(b, i, j);
        CountAtOnePosition(a, key, p);
      }
    }
  }

  /** Python's normalisation of a slice bound against a sequence of length `len`. */
  function SliceBound(i: int, len: nat): (r: nat)
    ensures r <= len
  {
    if i < 0 then (if i + len < 0 then 0 else i + len) else if i > len then len else i
  }

  /** Python `xs[a:b]` (step 1): negative bounds count from the end, bounds are clamped,
      and an empty range gives the empty list. */
  function Slice<T>(xs: seq<T>, a: int, b: int): (r: seq<T>)
    ensures SliceBound(a, |xs|) + |r| <= |xs|
    ensures forall k :: 0 <= k < |r| ==> r[k] == xs[SliceBound(a, |xs|) + k]
  {
    var lo := SliceBound(a, |xs|);
    var hi := SliceBound(b, |xs|);
    if lo < hi then xs[lo..hi] else []
  }

  /** Python `xs[:n]` and JavaScript `xs.slice(0, n)`. */
  function Prefix<T>(xs: seq<T>, n: int): (r: seq<T>)
    ensures |r| <= |xs| && r == xs[..|r|]
    ensures n >= 0 ==> |r| == Min(n, |xs|)
    ensures n < 0 ==> |r| == Max(0, |xs| + n)
  {
    Slice(xs, 0, n)
  }

  predicate SortedDesc<T>(xs: seq<T>, score: T -> int) {
    forall i, j :: 0 <= i < j < |xs| ==> score(xs[i]) >= score(xs[j])
  }

  /** In a descending list, an element that is not among the first `m` scores no higher than
      any of them. */
  lemma PrefixDominates<T>(all: seq<T>, m: int, y: T, score: T -> int)
    requires SortedDesc(all, score) && 0 <= m <= |all| && y in all
    ensures y in all[..m] || forall r :: r in all[..m] ==> score(r) >= score(y)
  {
    var p :| 0 <= p < |all| && all[p] == y;
    if p < m {
      assert all[..m][p] == y;
    } else {
      forall r | r in all[..m] ensures score(r) >= score(y) {
        var q :| 0 <= q < m && all[..m][q] == r;
      }
    }
  }

  /** Places `x` before the first element that does not outscore it. */
  function InsertDesc<T>(x: T, s: seq<T>, score: T -> int): (r: seq<T>)
    ensures multiset(r) == multiset(s) + multiset{x}
    ensures |r| == |s| + 1
  {
    if |s| == 0 || score(x) >= score(s[0]) then [x] + s
    else
      assert s == [s[0]] + s[1..];
      [s[0]] + InsertDesc(x, s[1..], score)
  }

  lemma {:induction false} InsertDescSorted<T>(x: T, s: seq<T>, score: T -> int)
    requires SortedDesc(s, score)
    ensures SortedDesc(InsertDesc(x, s, score), score)
  {
    if |s| > 0 && score(x) < score(s[0]) {
      var t := InsertDesc(x, s[1..], score);
      InsertDescSorted(x, s[1..], score);
      forall y | y in t ensures score(s[0]) >= score(y) {
        assert y in multiset(t);
      }
      var r := [s[0]] + t;
      forall i, j | 0 <= i < j < |r| ensures score(r[i]) >= score(r[j]) {
        assert r[j] == t[j - 1];
        if i > 0 {
          assert r[i] == t[i - 1];
        }
      }
    }
  }

  /** Stable insertion sort by descending score: the model of `sort((a, b) => b.k - a.k)`
      and of pandas `sort_values(ascending=False)` and SQL `ORDER BY k DESC`. */
  function SortDesc<T>(xs: seq<T>, score: T -> int): (r: seq<T>)
    ensures SortedDesc(r, score)
    ensures multiset(r) == multiset(xs)
    ensures |r| == |xs|
  {
    if |xs| == 0 then []
    else
      assert xs == [xs[0]] + xs[1..];
      var t := SortDesc(xs[1..], score);
      InsertDescSorted(xs[0], t, score);
      InsertDesc(xs[0], t, score)
  }

  /** The first `k` elements by descending score, `sort(...).slice(0, k)`: at most `k` of
      them, drawn from `xs`, in descending order, and none of the elements left out
      outscores one taken. */
  function TopK<T>(xs: seq<T>, k: int, score: T -> int): (r: seq<T>)
    requires k >= 0
    ensures |r| == Min(k, |xs|)
    ensures SortedDesc(r, score)
    ensures multiset(r) <= multiset(xs)
    ensures forall x, i :: x in multiset(xs) - multiset(r) && 0 <= i < |r| ==> score(x) <= score(r[i])
  {
    var s := SortDesc(xs, score);
    var r := Prefix(s, k);
    TopKRest(s, r, score);
    r
  }

  /** Anything a prefix of a descending list leaves out scores no higher than what it keeps. */
  lemma TopKRest<T>(s: seq<T>, r: seq<T>, score: T -> int)
    requires SortedDesc(s, score) && |r| <= |s| && r == s[..|r|]
    ensures multiset(r) <= multiset(s)
    ensures forall x, i :: x in multiset(s) - multiset(r) && 0 <= i < |r| ==> score(x) <= score(r[i])
  {
    var t := s[|r|..];
    assert s == r + t;
    assert multiset(s) == multiset(r) + multiset(t);
    forall x, i | x in multiset(s) - multiset(r) && 0 <= i < |r| ensures score(x) <= score(r[i]) {
      assert x in multiset(t);
      var p :| 0 <= p < |t| && t[p] == x;
      assert s[|r| + p] == x && s[i] == r[i];
    }
  }

  /** Taking the first element off one side and the same element off the other keeps
      two permutations permutations of each other. */
  lemma RemoveMatching<T>(a: seq<T>, b: seq<T>, i: int)
    requires multiset(a) == multiset(b) && |a| > 0 && 0 <= i < |b| && b[i] == a[0]
    ensures multiset(a[1..]) == multiset(b[..i] + b[i + 1..])
  {
    var rest := b[..i] + b[i + 1..];
    assert b == b[..i] + ([b[i]] + b[i + 1..]);
    assert a == [a[0]] + a[1..];
    assert multiset(b) == multiset(b[..i]) + multiset{b[i]} + multiset(b[i + 1..]);
    assert multiset(a) == multiset{a[0]} + multiset(a[1..]);
    assert multiset(rest) == multiset(b[..i]) + multiset(b[i + 1..]);
    calc {
      multiset(a[1..]);
      multiset(a) - multiset{a[0]};
      multiset(b) - multiset{b[i]};
      multiset(rest);
    }
  }

  lemma MapConcat<A, B>(a: seq<A>, b: seq<A>, g: A -> B)
    ensures Map(a + b, g) == Map(a, g) + Map(b, g)
  {
  }

  lemma MapSplitAt<A, B>(b: seq<A>, i: int, g: A -> B)
    requires 0 <= i < |b|
    ensures multiset(Map(b, g)) == multiset{g(b[i])} + multiset(Map(b[..i] + b[i + 1..], g))
  {
    assert b == b[..i] + ([b[i]] + b[i + 1..]);
    MapConcat(b[..i], [b[i]] + b[i + 1..], g);
    MapConcat([b[i]], b[i + 1..], g);
    MapConcat(b[..i], b[i + 1..], g);
    assert Map([b[i]], g) == [g(b[i])];
  }

  /** Reordering a sequence reorders its image the same way. */
  lemma {:induction false} MapPermutation<A, B>(a: seq<A>, b: seq<A>, g: A -> B)
    requires multiset(a) == multiset(b)
    ensures multiset(Map(a, g)) == multiset(Map(b, g))
  {
    if |a| == 0 {
      assert |b| == |multiset(b)| == 0;
      assert Map(a, g) == Map(b, g);
    } else {
      var i := PositionOf(a[0], b);
      RemoveMatching(a, b, i);
      MapPermutation(a[1..], b[..i] + b[i + 1..], g);
      MapPermutationStep(a, b, i, g);
    }
  }

  lemma MapPermutationStep<A, B>(a: seq<A>, b: seq<A>, i: int, g: A -> B)
    requires |a| > 0 && 0 <= i < |b| && b[i] == a[0]
    requires multiset(Map(a[1..], g)) == multiset(Map(b[..i] + b[i + 1..], g))
    ensures multiset(Map(a, g)) == multiset(Map(b, g))
  {
    MapHead(a, g);
    MapSplitAt(b, i, g);
  }

  lemma MapHead<A, B>(a: seq<A>, g: A -> B)
    requires |a| > 0
    ensures multiset(Map(a, g)) == multiset{g(a[0])} + multiset(Map(a[1..], g))
  {
    assert a == [a[0]] + a[1..];
    MapConcat([a[0]], a[1..], g);
    assert Map([a[0]], g) == [g(a[0])];
  }

  /** A position at which an element of `b` occurs. */
  lemma PositionOf<T>(x: T, b: seq<T>) returns (i: int)
    requires x in multiset(b)
    ensures 0 <= i < |b| && b[i] == x
  {
    i :| 0 <= i < |b| && b[i] == x;
  }

  /** Descending integers. */
  predicate NonIncreasing(u: seq<int>) {
    forall i, j :: 0 <= i < j < |u| ==> u[i] >= u[j]
  }

  /** The first element of a descending sequence is its largest. */
  lemma HeadIsMax(u: seq<int>, x: int)
    requires NonIncreasing(u) && x in multiset(u)
    ensures |u| > 0 && u[0] >= x
  {
    var j :| 0 <= j < |u| && u[j] == x;
    if j > 0 {
      assert u[0] >= u[j];
    }
  }

  /** Descending sequences with the same elements start with the same element. */
  lemma SameHead(u: seq<int>, v: seq<int>)
    requires NonIncreasing(u) && NonIncreasing(v)
    requires multiset(u) == multiset(v) && |u| > 0
    ensures |v| > 0 && u[0] == v[0]
  {
    assert u[0] in multiset(u);
    HeadIsMax(v, u[0]);
    assert v[0] in multiset(v);
    HeadIsMax(u, v[0]);
  }

  lemma SameTail<T>(u: seq<T>, v: seq<T>)
    requires multiset(u) == multiset(v) && |u| > 0 && |v| > 0 && u[0] == v[0]
    ensures multiset(u[1..]) == multiset(v[1..])
  {
    assert u == [u[0]] + u[1..] && v == [v[0]] + v[1..];
    assert multiset(u) == multiset{u[0]} + multiset(u[1..]);
    assert multiset(v) == multiset{v[0]} + multiset(v[1..]);
    calc {
      multiset(u[1..]);
      multiset(u) - multiset{u[0]};
      multiset(v) - multiset{v[0]};
      multiset(v[1..]);
    }
  }

  /** Two descending integer sequences with the same elements are equal. */
  lemma {:induction false} SortedIntsUnique(u: seq<int>, v: seq<int>)
    requires NonIncreasing(u) && NonIncreasing(v)
    requires multiset(u) == multiset(v)
    ensures u == v
  {
    if |u| == 0 {
      assert |v| == |multiset(v)| == 0;
    } else {
      SameHead(u, v);
      SameTail(u, v);
      SortedIntsUnique(u[1..], v[1..]);
      assert u == [u[0]] + u[1..] && v == [v[0]] + v[1..];
    }
  }

  /** Sorting by descending score fixes the sequence of scores: the input order only
      decides which of several equal-scoring elements comes first. */
  lemma SortDescScores<T>(a: seq<T>, b: seq<T>, score: T -> int)
    requires multiset(a) == multiset(b)
    ensures Map(SortDesc(a, score), score) == Map(SortDesc(b, score), score)
  {
    var sa, sb := SortDesc(a, score), SortDesc(b, score);
    MapPermutation(sa, sb, score);
    var u, v := Map(sa, score), Map(sb, score);
    assert NonIncreasing(u) && NonIncreasing(v);
    SortedIntsUnique(u, v);
  }

  /** The scores of the top `k` do not depend on the order of the input. */
  lemma TopKScores<T>(a: seq<T>, b: seq<T>, k: int, score: T -> int)
    requires k >= 0 && multiset(a) == multiset(b)
    ensures Map(TopK(a, k, score), score) == Map(TopK(b, k, score), score)
  {
    var sa, sb := SortDesc(a, score), SortDesc(b, score);
    SortDescScores(a, b, score);
    var n := Min(k, |a|);
    assert |a| == |multiset(a)| == |b|;
    assert TopK(a, k, score) == sa[..n] && TopK(b, k, score) == sb[..n];
    forall i | 0 <= i < n ensures score(sa[i]) == score(sb[i]) {
      assert Map(sa, score)[i] == Map(sb, score)[i];
    }
  }

  predicate SortedAsc<T>(xs: seq<T>, key: T -> string) {
    forall i, j :: 0 <= i < j < |xs| ==> LessEq(key(xs[i]), key(xs[j]))
  }

  predicate StrictlyAsc<T>(xs: seq<T>, key: T -> string) {
    forall i, j :: 0 <= i < j < |xs| ==> Less(key(xs[i]), key(xs[j]))
  }

  /** Places `x` before the first element whose key is not smaller. */
  function InsertAsc<T>(x: T, s: seq<T>, key: T -> string): (r: seq<T>)
    ensures multiset(r) == multiset(s) + multiset{x}
    ensures |r| == |s| + 1
  {
    if |s| == 0 || LessEq(key(x), key(s[0])) then [x] + s
    else
      assert s == [s[0]] + s[1..];
      [s[0]] + InsertAsc(x, s[1..], key)
  }

  lemma {:induction false} InsertAscSorted<T>(x: T, s: seq<T>, key: T -> string)
    requires SortedAsc(s, key)
    ensures SortedAsc(InsertAsc(x, s, key), key)
  {
    if |s| == 0 || LessEq(key(x), key(s[0])) {
      var r := [x] + s;
      forall i, j | 0 <= i < j < |r| ensures LessEq(key(r[i]), key(r[j])) {
        if i == 0 && j > 1 {
          LessEqTransitive(key(x), key(s[0]), key(s[j - 1]));
        }
      }
    } else {
      var t := InsertAsc(x, s[1..], key);
      InsertAscSorted(x, s[1..], key);
      LessTotal(key(x), key(s[0]));
      LessAsymmetric(key(x), key(s[0]));
      forall y | y in t ensures LessEq(key(s[0]), key(y)) {
        assert y in multiset(t);
      }
      var r := [s[0]] + t;
      forall i, j | 0 <= i < j < |r| ensures LessEq(key(r[i]), key(r[j])) {
        assert r[j] == t[j - 1];
        if i > 0 {
          assert r[i] == t[i - 1];
        }
      }
    }
  }

  /** Stable insertion sort by ascending string key (JavaScript's default `sort()` on
      strings, SQL `ORDER BY` on text). */
  function SortAsc<T>(xs: seq<T>, key: T -> string): (r: seq<T>)
    ensures SortedAsc(r, key)
    ensures multiset(r) == multiset(xs)
    ensures |r| == |xs|
  {
    if |xs| == 0 then []
    else
      assert xs == [xs[0]] + xs[1..];
      var t := SortAsc(xs[1..], key);
      InsertAscSorted(xs[0], t, key);
      InsertAsc(xs[0], t, key)
  }

  /** A sorted sequence whose keys are all different is strictly ascending. */
  lemma SortedDistinctIsStrict<T>(xs: seq<T>, key: T -> string)
    requires SortedAsc(xs, key) && KeyDistinct(xs, key)
    ensures StrictlyAsc(xs, key)
  {
    forall i, j | 0 <= i < j < |xs| ensures Less(key(xs[i]), key(xs[j])) {
      LessTotal(key(xs[i]), key(xs[j]));
    }
  }

  /** `a` is `b` with some elements removed. */
  ghost predicate IsSubseq<T>(a: seq<T>, b: seq<T>) {
    |a| == 0
    || (|b| > 0 && ((a[0] == b[0] && IsSubseq(a[1..], b[1..])) || IsSubseq(a, b[1..])))
  }

  /** The first element of `xs` with key `k`. */
  function FirstWithKey<T, K(==)>(xs: seq<T>, key: T -> K, k: K): Option<T> {
    if |xs| == 0 then None
    else if key(xs[0]) == k then Some(xs[0])
    else FirstWithKey(xs[1..], key, k)
  }

  /** What `FirstWithKey` finds is an element with that key. */
  lemma {:induction false} FirstWithKeyIn<T, K>(xs: seq<T>, key: T -> K, k: K)
    ensures FirstWithKey(xs, key, k).Some? ==>
      FirstWithKey(xs, key, k).value in xs && key(FirstWithKey(xs, key, k).value) == k
  {
    if |xs| > 0 && key(xs[0]) != k {
      FirstWithKeyIn(xs[1..], key, k);
    }
  }

  /** Keeps the first element of each key not yet in `seen`. */
  function DedupFrom<T, K(==)>(xs: seq<T>, key: T -> K, seen: set<K>): seq<T> {
    if |xs| == 0 then []
    else if key(xs[0]) in seen then DedupFrom(xs[1..], key, seen)
    else [xs[0]] + DedupFrom(xs[1..], key, seen + {key(xs[0])})
  }

  /** pandas `drop_duplicates(subset=...)` with the default `keep='first'`. */
  function Dedup<T, K(==)>(xs: seq<T>, key: T -> K): seq<T> {
    DedupFrom(xs, key, {})
  }

  lemma {:induction false} DedupFromSpec<T, K>(xs: seq<T>, key: T -> K, seen: set<K>)
    ensures var r := DedupFrom(xs, key, seen);
      && KeyDistinct(r, key)
      && IsSubseq(r, xs)
      && (forall y :: y in r ==> key(y) !in seen && FirstWithKey(xs, key, key(y)) == Some(y))
      && (forall x :: x in xs ==> key(x) in seen || exists y :: y in r && key(y) == key(x))
  {
    if |xs| > 0 {
      var k0 := key(xs[0]);
      if k0 in seen {
        DedupFromSpec(xs[1..], key, seen);
      } else {
        var t := DedupFrom(xs[1..], key, seen + {k0});
        DedupFromSpec(xs[1..], key, seen + {k0});
        var r := [xs[0]] + t;
        assert r[1..] == t;
        forall i, j | 0 <= i < j < |r| ensures key(r[i]) != key(r[j]) {
          if i == 0 {
            assert r[j] in t;
          } else {
            assert r[i] == t[i - 1] && r[j] == t[j - 1];
          }
        }
      }
    }
  }

  /** De-duplication keeps, in input order, exactly the first element of every key. */
  lemma DedupSpec<T, K>(xs: seq<T>, key: T -> K)
    ensures var r := Dedup(xs, key);
      && KeyDistinct(r, key)
      && IsSubseq(r, xs)
      && (forall y :: y in r ==> FirstWithKey(xs, key, key(y)) == Some(y))
      && (forall x :: x in xs ==> exists y :: y in r && key(y) == key(x))
  {
    DedupFromSpec(xs, key, {});
  }
}
