/** The column statistics the cleaning scripts fill missing values with: pandas `median`
    and `mean`, both of which skip missing cells and are missing themselves when no cell
    is present. */
module Stats {
  import opened Wrappers
  import opened Seqs

  /** The present values of a column, in row order. */
  function Present(col: seq<Option<real>>): (r: seq<real>)
    ensures |r| <= |col|
    ensures forall x :: x in r <==> Some(x) in col
  {
    if |col| == 0 then []
    else (if col[0].Some? then [col[0].value] else []) + Present(col[1..])
  }

  function SumR(xs: seq<real>): real {
    if |xs| == 0 then 0.0 else xs[0] + SumR(xs[1..])
  }

  predicate SortedReals(s: seq<real>) {
    forall i, j :: 0 <= i < j < |s| ==> s[i] <= s[j]
  }

  function InsertReal(x: real, s: seq<real>): (r: seq<real>)
    ensures multiset(r) == multiset(s) + multiset{x}
    ensures |r| == |s| + 1
  {
    if |s| == 0 || x <= s[0] then [x] + s
    else
      assert s == [s[0]] + s[1..];
      [s[0]] + InsertReal(x, s[1..])
  }

  lemma {:induction false} InsertRealSorted(x: real, s: seq<real>)
    requires SortedReals(s)
    ensures SortedReals(InsertReal(x, s))
  {
    if |s| > 0 && x > s[0] {
      InsertRealSorted(x, s[1..]);
      InsertedAbove(x, s);
      ConsSorted(s[0], InsertReal(x, s[1..]));
    }
  }

  /** Inserting into the tail of a sorted list above its head keeps every element above
      the head. */
  lemma InsertedAbove(x: real, s: seq<real>)
    requires SortedReals(s) && |s| > 0 && x > s[0]
    ensures forall y :: y in InsertReal(x, s[1..]) ==> s[0] <= y
  {
    var t := InsertReal(x, s[1..]);
    forall y | y in t ensures s[0] <= y {
      assert y in multiset(t);
    }
  }

  lemma ConsSorted(a: real, t: seq<real>)
    requires SortedReals(t) && forall y :: y in t ==> a <= y
    ensures SortedReals([a] + t)
  {
    var r := [a] + t;
    forall i, j | 0 <= i < j < |r| ensures r[i] <= r[j] {
      assert r[j] == t[j - 1] && t[j - 1] in t;
      if i > 0 {
        assert r[i] == t[i - 1];
      }
    }
  }

  /** Ascending insertion sort. */
  function SortReals(xs: seq<real>): (r: seq<real>)
    ensures SortedReals(r)
    ensures multiset(r) == multiset(xs)
    ensures |r| == |xs|
  {
    if |xs| == 0 then []
    else
      assert xs == [xs[0]] + xs[1..];
      var t := SortReals(xs[1..]);
      InsertRealSorted(xs[0], t);
      InsertReal(xs[0], t)
  }

  /** The middle value of the sorted values, or the average of the two middle ones. */
  function Median(xs: seq<real>): real
    requires |xs| > 0
  {
    var s := SortReals(xs);
    var h := |s| / 2;
    if |s| % 2 == 1 then s[h] else (s[h - 1] + s[h]) / 2.0
  }

  function Mean(xs: seq<real>): real
    requires |xs| > 0
  {
    SumR(xs) / |xs| as real
  }

  /** `series.median()`: missing when no value is present. */
  function ColumnMedian(col: seq<Option<real>>): Option<real> {
    var xs := Present(col);
    if |xs| == 0 then None else Some(Median(xs))
  }

  /** `series.mean()`: missing when no value is present. */
  function ColumnMean(col: seq<Option<real>>): Option<real> {
    var xs := Present(col);
    if |xs| == 0 then None else Some(Mean(xs))
  }

  function AtMost(m: real): real -> bool { x => x <= m }
  function AtLeast(m: real): real -> bool { x => x >= m }

  /** 1 for values satisfying `p`, 0 for the others. */
  function Indicator(p: real -> bool): real -> int { x => if p(x) then 1 else 0 }

  /** How many values satisfy `p`. */
  function Count(xs: seq<real>, p: real -> bool): int {
    Sum(xs, Indicator(p))
  }

  lemma {:induction false} CountBounds(xs: seq<real>, p: real -> bool)
    ensures 0 <= Count(xs, p) <= |xs|
    ensures (forall i :: 0 <= i < |xs| ==> p(xs[i])) ==> Count(xs, p) == |xs|
  {
    if |xs| > 0 {
      CountBounds(xs[1..], p);
      assert forall i :: 0 <= i < |xs[1..]| ==> xs[1..][i] == xs[i + 1];
    }
  }

  /** Counting over the front and the back of a split. */
  lemma CountSplit(s: seq<real>, k: int, p: real -> bool)
    requires 0 <= k <= |s|
    ensures Count(s, p) == Count(s[..k], p) + Count(s[k..], p)
  {
    assert s == s[..k] + s[k..];
    SumConcat(s[..k], s[k..], Indicator(p));
  }

  /** Values that all satisfy `p` at the front of `s` count towards `p`. */
  lemma CountPrefix(s: seq<real>, k: int, p: real -> bool)
    requires 0 <= k <= |s| && forall i :: 0 <= i < k ==> p(s[i])
    ensures Count(s, p) >= k
  {
    CountSplit(s, k, p);
    CountBounds(s[..k], p);
    CountBounds(s[k..], p);
  }

  /** Values that all satisfy `p` at the back of `s` count towards `p`. */
  lemma CountSuffix(s: seq<real>, k: int, p: real -> bool)
    requires 0 <= k <= |s| && forall i :: k <= i < |s| ==> p(s[i])
    ensures Count(s, p) >= |s| - k
  {
    CountSplit(s, k, p);
    CountBounds(s[..k], p);
    assert forall i :: 0 <= i < |s[k..]| ==> s[k..][i] == s[k + i];
    CountBounds(s[k..], p);
  }

  /** The median splits the values in halves: at least half of them are at most the
      median and at least half are at least the median. */
  lemma MedianHalves(xs: seq<real>)
    requires |xs| > 0
    ensures 2 * Count(xs, AtMost(Median(xs))) >= |xs|
    ensures 2 * Count(xs, AtLeast(Median(xs))) >= |xs|
  {
    var s := SortReals(xs);
    var m := Median(xs);
    SortedHalves(s, m);
    SumPermutation(s, xs, Indicator(AtMost(m)));
    SumPermutation(s, xs, Indicator(AtLeast(m)));
  }

  /** The middle of sorted values splits them in halves. */
  lemma SortedHalves(s: seq<real>, m: real)
    requires |s| > 0 && SortedReals(s)
    requires m == if |s| % 2 == 1 then s[|s| / 2] else (s[|s| / 2 - 1] + s[|s| / 2]) / 2.0
    ensures 2 * Count(s, AtMost(m)) >= |s|
    ensures 2 * Count(s, AtLeast(m)) >= |s|
  {
    var h := |s| / 2;
    if |s| % 2 == 1 {
      CountPrefix(s, h + 1, AtMost(m));
      CountSuffix(s, h, AtLeast(m));
    } else {
      CountPrefix(s, h, AtMost(m));
      CountSuffix(s, h, AtLeast(m));
    }
  }

  /** The median lies between the smallest and the largest value. */
  lemma MedianBetween(xs: seq<real>)
    requires |xs| > 0
    ensures exists i :: 0 <= i < |xs| && xs[i] <= Median(xs)
    ensures exists j :: 0 <= j < |xs| && Median(xs) <= xs[j]
  {
    var s := SortReals(xs);
    assert s[0] in multiset(xs) && s[|s| - 1] in multiset(xs);
    assert s[0] <= Median(xs) <= s[|s| - 1];
  }

  /** A position holding a smallest value. */
  function ArgMin(xs: seq<real>): (i: nat)
    requires |xs| > 0
    ensures i < |xs| && forall j :: 0 <= j < |xs| ==> xs[i] <= xs[j]
  {
    if |xs| == 1 then 0
    else
      var k := ArgMin(xs[1..]) + 1;
      if xs[0] <= xs[k] then 0 else k
  }

  /** A position holding a largest value. */
  function ArgMax(xs: seq<real>): (i: nat)
    requires |xs| > 0
    ensures i < |xs| && forall j :: 0 <= j < |xs| ==> xs[j] <= xs[i]
  {
    if |xs| == 1 then 0
    else
      var k := ArgMax(xs[1..]) + 1;
      if xs[0] >= xs[k] then 0 else k
  }

  lemma {:induction false} SumRBounds(xs: seq<real>, lo: real, hi: real)
    requires forall i :: 0 <= i < |xs| ==> lo <= xs[i] <= hi
    ensures |xs| as real * lo <= SumR(xs) <= |xs| as real * hi
  {
    if |xs| > 0 {
      SumRBounds(xs[1..], lo, hi);
    }
  }

  /** The mean lies within any bounds all the values lie within. */
  lemma MeanWithin(xs: seq<real>, lo: real, hi: real)
    requires |xs| > 0
    requires forall i :: 0 <= i < |xs| ==> lo <= xs[i] <= hi
    ensures lo <= Mean(xs) <= hi
  {
    SumRBounds(xs, lo, hi);
    DivideBounds(SumR(xs), |xs| as real, lo, hi);
  }

  /** The mean lies between the smallest and the largest value. */
  lemma MeanBetween(xs: seq<real>)
    requires |xs| > 0
    ensures xs[ArgMin(xs)] <= Mean(xs) <= xs[ArgMax(xs)]
  {
    MeanWithin(xs, xs[ArgMin(xs)], xs[ArgMax(xs)]);
  }

  lemma DivideBounds(total: real, n: real, lo: real, hi: real)
    requires n > 0.0 && n * lo <= total <= n * hi
    ensures lo <= total / n <= hi
  {
    var q := total / n;
    assert total == n * q;
    assert n * lo <= n * q && n * q <= n * hi;
  }
}
