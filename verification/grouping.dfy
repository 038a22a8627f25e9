/** Grouping of rows by a key, as SQL `GROUP BY` and the dashboard's object-keyed
    accumulation do it: the distinct keys in first-occurrence order, the rows of one key,
    and per-key sums, which together partition the total. */
module Grouping {
  import opened Seqs

  /** The distinct keys of `xs`, in order of first occurrence. */
  function Keys<T, K(==)>(xs: seq<T>, key: T -> K): (ks: seq<K>)
    ensures Distinct(ks)
    ensures forall k :: k in ks ==> exists i :: 0 <= i < |xs| && key(xs[i]) == k
    ensures forall i :: 0 <= i < |xs| ==> key(xs[i]) in ks
    ensures |ks| <= |xs|
  {
    if |xs| == 0 then []
    else
      var init := xs[..|xs| - 1];
      var ks := Keys(init, key);
      assert forall i :: 0 <= i < |init| ==> init[i] == xs[i];
      if key(xs[|xs| - 1]) in ks then ks else ks + [key(xs[|xs| - 1])]
  }

  /** The values the key takes on the rows. */
  ghost function Image<T, K>(xs: seq<T>, key: T -> K): set<K> {
    set x | x in xs :: key(x)
  }

  /** There are as many keys as distinct values of the key among the rows
      (`COUNT(DISTINCT key)`). */
  lemma KeysCount<T, K>(xs: seq<T>, key: T -> K)
    ensures |Keys(xs, key)| == |Image(xs, key)|
  {
    var ks := Keys(xs, key);
    assert (set k | k in ks) == Image(xs, key);
    DistinctCard(ks);
  }

  /** The rows of `xs` whose key is `k`, in input order (`WHERE key = k`). */
  function Select<T, K(==)>(xs: seq<T>, key: T -> K, k: K): (r: seq<T>)
    ensures forall y :: y in r ==> y in xs && key(y) == k
  {
    if |xs| == 0 then []
    else (if key(xs[0]) == k then [xs[0]] else []) + Select(xs[1..], key, k)
  }

  /** Every row with key `k` is selected. */
  lemma {:induction false} SelectHas<T, K>(xs: seq<T>, key: T -> K, k: K, i: int)
    requires 0 <= i < |xs| && key(xs[i]) == k
    ensures xs[i] in Select(xs, key, k)
  {
    if i > 0 {
      SelectHas(xs[1..], key, k, i - 1);
    }
  }

  lemma {:induction false} SelectConcat<T, K>(a: seq<T>, b: seq<T>, key: T -> K, k: K)
    ensures Select(a + b, key, k) == Select(a, key, k) + Select(b, key, k)
  {
    if |a| == 0 {
      assert a + b == b;
    } else {
      assert (a + b)[1..] == a[1..] + b;
      SelectConcat(a[1..], b, key, k);
    }
  }

  /** A key that occurs nowhere selects nothing. */
  lemma {:induction false} SelectAbsent<T, K>(xs: seq<T>, key: T -> K, k: K)
    requires forall i :: 0 <= i < |xs| ==> key(xs[i]) != k
    ensures Select(xs, key, k) == []
  {
    if |xs| > 0 {
      SelectAbsent(xs[1..], key, k);
    }
  }

  /** The sum of `f` over the rows with key `k` (`SUM(f) ... GROUP BY key`). */
  function GroupSum<T, K(==)>(xs: seq<T>, key: T -> K, f: T -> int, k: K): int {
    Sum(Select(xs, key, k), f)
  }

  /** The per-key sums added up over the keys `ks`. */
  function SumGroups<T, K(==)>(ks: seq<K>, xs: seq<T>, key: T -> K, f: T -> int): int {
    if |ks| == 0 then 0 else GroupSum(xs, key, f, ks[0]) + SumGroups(ks[1..], xs, key, f)
  }

  lemma GroupSumAppend<T, K>(xs: seq<T>, x: T, key: T -> K, f: T -> int, k: K)
    ensures GroupSum(xs + [x], key, f, k) == GroupSum(xs, key, f, k) + (if key(x) == k then f(x) else 0)
  {
    SelectConcat(xs, [x], key, k);
    assert Select([x], key, k) == if key(x) == k then [x] else [];
    SumConcat(Select(xs, key, k), Select([x], key, k), f);
  }

  lemma {:induction false} SumGroupsAppendRow<T, K>(ks: seq<K>, xs: seq<T>, x: T, key: T -> K, f: T -> int)
    requires Distinct(ks)
    ensures SumGroups(ks, xs + [x], key, f)
         == SumGroups(ks, xs, key, f) + (if key(x) in ks then f(x) else 0)
  {
    if |ks| > 0 {
      GroupSumAppend(xs, x, key, f, ks[0]);
      SumGroupsAppendRow(ks[1..], xs, x, key, f);
      assert key(x) in ks <==> key(x) == ks[0] || key(x) in ks[1..];
      if key(x) == ks[0] {
        assert key(x) !in ks[1..];
      }
    }
  }

  lemma {:induction false} SumGroupsAppendKey<T, K>(ks: seq<K>, k: K, xs: seq<T>, key: T -> K, f: T -> int)
    ensures SumGroups(ks + [k], xs, key, f) == SumGroups(ks, xs, key, f) + GroupSum(xs, key, f, k)
  {
    if |ks| == 0 {
      assert [k][1..] == [];
    } else {
      assert (ks + [k])[1..] == ks[1..] + [k];
      SumGroupsAppendKey(ks[1..], k, xs, key, f);
    }
  }

  /** The per-key sums over the distinct keys add up to the sum over all rows: grouping
      neither loses nor double-counts a row. */
  lemma {:induction false} PartitionSum<T, K>(xs: seq<T>, key: T -> K, f: T -> int)
    ensures SumGroups(Keys(xs, key), xs, key, f) == Sum(xs, f)
  {
    if |xs| > 0 {
      var init := xs[..|xs| - 1];
      var x := xs[|xs| - 1];
      assert xs == init + [x];
      var ks := Keys(init, key);
      PartitionSum(init, key, f);
      SumGroupsAppendRow(ks, init, x, key, f);
      SumConcat(init, [x], f);
      if key(x) !in ks {
        SumGroupsAppendKey(ks, key(x), xs, key, f);
        GroupSumAppend(init, x, key, f, key(x));
        SelectAbsent(init, key, key(x));
      }
    }
  }

  /** Rows made one per key: if each row's score is that key's group sum, the scores add
      up to the per-key sums. */
  lemma {:induction false} SumOfGroupRows<T, K, R>(ks: seq<K>, mk: K -> R, score: R -> int,
                                                 xs: seq<T>, key: T -> K, f: T -> int)
    requires forall k :: k in ks ==> score(mk(k)) == GroupSum(xs, key, f, k)
    ensures Sum(Map(ks, mk), score) == SumGroups(ks, xs, key, f)
  {
    if |ks| > 0 {
      assert Map(ks, mk)[1..] == Map(ks[1..], mk);
      SumOfGroupRows(ks[1..], mk, score, xs, key, f);
    }
  }

  /** `rows` holds one row made by `mk` for every distinct key of `xs`, in some order. */
  predicate GroupedBy<T, K(==), R(==)>(xs: seq<T>, key: T -> K, mk: K -> R, rows: seq<R>) {
    multiset(rows) == multiset(Map(Keys(xs, key), mk))
  }

  /** `GROUP BY key ... ORDER BY score DESC`: one row per distinct key, made by `mk`, in
      descending order of score. */
  function Report<T, K(==), R(==)>(xs: seq<T>, key: T -> K, mk: K -> R, score: R -> int): (rows: seq<R>)
    ensures |rows| == |Keys(xs, key)|
    ensures SortedDesc(rows, score)
    ensures GroupedBy(xs, key, mk, rows)
  {
    SortDesc(Map(Keys(xs, key), mk), score)
  }

  /** `GROUP BY key ... ORDER BY sortKey`: one row per distinct key in ascending order of a
      text sort key. */
  function ReportAsc<T, K(==), R(==)>(xs: seq<T>, key: T -> K, mk: K -> R, sortKey: R -> string): (rows: seq<R>)
    ensures |rows| == |Keys(xs, key)|
    ensures SortedAsc(rows, sortKey)
    ensures GroupedBy(xs, key, mk, rows)
  {
    SortAsc(Map(Keys(xs, key), mk), sortKey)
  }

  /** Every row stands for a key that occurs, every key that occurs has a row, and no two
      rows stand for the same key. */
  lemma GroupRows<T, K, R>(xs: seq<T>, key: T -> K, mk: K -> R, rows: seq<R>, rowKey: R -> K)
    requires GroupedBy(xs, key, mk, rows)
    requires forall k :: rowKey(mk(k)) == k
    ensures KeyDistinct(rows, rowKey)
    ensures forall r :: r in rows ==> r == mk(rowKey(r)) && exists i :: 0 <= i < |xs| && key(xs[i]) == rowKey(r)
    ensures forall i :: 0 <= i < |xs| ==> exists r :: r in rows && rowKey(r) == key(xs[i])
  {
    var ks := Keys(xs, key);
    var m := Map(ks, mk);
    forall i, j | 0 <= i < j < |m| ensures rowKey(m[i]) != rowKey(m[j]) {
      assert rowKey(m[i]) == ks[i] && rowKey(m[j]) == ks[j];
    }
    PermutationKeepsKeyDistinct(m, rows, rowKey);
    forall r | r in rows
      ensures r == mk(rowKey(r)) && exists i :: 0 <= i < |xs| && key(xs[i]) == rowKey(r)
    {
      assert r in multiset(m);
      var p :| 0 <= p < |m| && m[p] == r;
      assert rowKey(r) == ks[p] && ks[p] in ks;
    }
    forall i | 0 <= i < |xs| ensures exists r :: r in rows && rowKey(r) == key(xs[i]) {
      var p :| 0 <= p < |ks| && ks[p] == key(xs[i]);
      assert m[p] in multiset(rows);
      assert rowKey(m[p]) == key(xs[i]);
    }
  }

  /** When each row carries its key's group sum, the rows add up to the sum over all input
      rows. */
  lemma GroupRowsSum<T, K, R>(xs: seq<T>, key: T -> K, mk: K -> R, rows: seq<R>,
                              f: T -> int, rowSum: R -> int)
    requires GroupedBy(xs, key, mk, rows)
    requires forall k :: rowSum(mk(k)) == GroupSum(xs, key, f, k)
    ensures Sum(rows, rowSum) == Sum(xs, f)
  {
    var ks := Keys(xs, key);
    SumPermutation(rows, Map(ks, mk), rowSum);
    SumOfGroupRows(ks, mk, rowSum, xs, key, f);
    PartitionSum(xs, key, f);
  }

  /** A grouped report has one row per distinct key (`COUNT(DISTINCT key)` rows). */
  lemma GroupRowsCount<T, K, R>(xs: seq<T>, key: T -> K, mk: K -> R, rows: seq<R>)
    requires GroupedBy(xs, key, mk, rows)
    ensures |rows| == |Image(xs, key)|
  {
    assert |rows| == |multiset(rows)| == |Map(Keys(xs, key), mk)|;
    KeysCount(xs, key);
  }

  /** The rows are exactly the rows made for the keys that occur. */
  lemma GroupRowsMembers<T, K, R>(xs: seq<T>, key: T -> K, mk: K -> R, rows: seq<R>)
    requires GroupedBy(xs, key, mk, rows)
    ensures forall r :: r in rows <==> exists i :: 0 <= i < |xs| && r == mk(key(xs[i]))
  {
    var ks := Keys(xs, key);
    var m := Map(ks, mk);
    forall r ensures r in rows <==> exists i :: 0 <= i < |xs| && r == mk(key(xs[i])) {
      if r in rows {
        assert r in multiset(m);
        var p :| 0 <= p < |m| && m[p] == r;
        assert ks[p] in ks;
        var i :| 0 <= i < |xs| && key(xs[i]) == ks[p];
      }
      if exists i :: 0 <= i < |xs| && r == mk(key(xs[i])) {
        var i :| 0 <= i < |xs| && r == mk(key(xs[i]));
        var p :| 0 <= p < |ks| && ks[p] == key(xs[i]);
        assert m[p] == r;
        assert r in multiset(rows);
      }
    }
  }
}
