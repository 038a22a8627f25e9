/** The figures of the dashboard page: the summary counts and revenue, the monthly sales
    chart built by grouping sales on the first seven characters of their date, and the
    two top-five charts. Money is in integer cents. */
module Dashboard {
  import opened Strings
  import opened Seqs
  import opened Grouping

  /** A sale as the page receives it from the sales list endpoint. */
  datatype SaleEntry = SaleEntry(date: string, quantity: int, totalAmount: int)

  /** A row of the sales-by-book endpoint. */
  datatype BookTotal = BookTotal(bookId: int, title: string, totalSold: int)

  /** A row of the best-selling-authors endpoint. */
  datatype AuthorTotal = AuthorTotal(author: string, totalSold: int, totalRevenue: int)

  function Quantity(s: SaleEntry): int { s.quantity }
  function Amount(s: SaleEntry): int { s.totalAmount }
  function TotalSold(b: BookTotal): int { b.totalSold }
  function TotalRevenue(a: AuthorTotal): int { a.totalRevenue }

  // ---------------------------------------------------------------- summary cards

  datatype Summary = Summary(totalBooks: nat, totalSales: nat, totalCustomers: nat, totalRevenue: int)

  /** `sales.reduce((sum, sale) => sum + sale.total_amount, acc)`: a left fold. */
  function RevenueFrom(acc: int, sales: seq<SaleEntry>): int
    decreases |sales|
  {
    if |sales| == 0 then acc else RevenueFrom(acc + sales[0].totalAmount, sales[1..])
  }

  /** The left fold from `acc` is `acc` plus the sum of the amounts. */
  lemma {:induction false} RevenueFromIsSum(acc: int, sales: seq<SaleEntry>)
    ensures RevenueFrom(acc, sales) == acc + Sum(sales, Amount)
    decreases |sales|
  {
    if |sales| > 0 {
      RevenueFromIsSum(acc + sales[0].totalAmount, sales[1..]);
    }
  }

  /** `loadSummaryStats`: three list lengths and the revenue reduced from 0. */
  function SummaryStats<B, C>(books: seq<B>, customers: seq<C>, sales: seq<SaleEntry>): (r: Summary)
    ensures r.totalBooks == |books| && r.totalSales == |sales| && r.totalCustomers == |customers|
    ensures r.totalRevenue == Sum(sales, Amount)
  {
    RevenueFromIsSum(0, sales);
    Summary(|books|, |sales|, |customers|, RevenueFrom(0, sales))
  }

  // ---------------------------------------------------------------- monthly chart

  /** `date.substring(0, 7)`: the `YYYY-MM` part of an ISO date, or the whole of a shorter
      string. */
  function MonthKey(date: string): (m: string)
    ensures |m| <= 7 && |m| <= |date| && m == date[..|m|]
    ensures |date| >= 7 ==> |m| == 7
    ensures |date| < 7 ==> m == date
  {
    date[..Min(7, |date|)]
  }

  function MonthOf(s: SaleEntry): string { MonthKey(s.date) }

  /** The running totals kept for one month. */
  datatype MonthTotals = MonthTotals(totalSales: int, totalRevenue: int)

  /** The `monthlySales` object: its keys in the order they were created, and its entries.
      JavaScript lists integer-like keys first in numeric order; the month key of an ISO
      date (`YYYY-MM`) is never integer-like, and the chart sorts the keys before use. */
  datatype MonthTable = MonthTable(order: seq<string>, totals: map<string, MonthTotals>)

  /** One step of the `forEach`: create the month's entry at zero if it is missing, then add
      the sale's quantity and amount to it. */
  function AddSale(t: MonthTable, s: SaleEntry): MonthTable {
    var m := MonthOf(s);
    var cur := if m in t.totals then t.totals[m] else MonthTotals(0, 0);
    MonthTable(if m in t.totals then t.order else t.order + [m],
               t.totals[m := MonthTotals(cur.totalSales + s.quantity, cur.totalRevenue + s.totalAmount)])
  }

  /** The table after the `forEach` over `sales`. */
  function Accumulate(sales: seq<SaleEntry>): MonthTable {
    if |sales| == 0 then MonthTable([], map[])
    else AddSale(Accumulate(sales[..|sales| - 1]), sales[|sales| - 1])
  }

  /** A month no sale falls in has zero totals. */
  lemma GroupSumOfAbsentKey<T>(xs: seq<T>, key: T -> string, f: T -> int, k: string)
    requires k !in Keys(xs, key)
    ensures GroupSum(xs, key, f, k) == 0
  {
    SelectAbsent(xs, key, k);
  }

  /** The table's keys are the distinct month keys in order of first occurrence, and
      they are exactly the months it has an entry for. */
  lemma {:induction false} AccumulateKeys(sales: seq<SaleEntry>)
    ensures var t := Accumulate(sales);
      && t.order == Keys(sales, MonthOf)
      && (forall m :: m in t.totals <==> m in t.order)
  {
    if |sales| > 0 {
      AccumulateKeys(sales[..|sales| - 1]);
    }
  }

  /** Each entry of the table carries its month's quantity and revenue sums. */
  lemma {:induction false} AccumulateTotals(sales: seq<SaleEntry>)
    ensures var t := Accumulate(sales);
      forall m :: m in t.totals ==>
        t.totals[m] == MonthTotals(GroupSum(sales, MonthOf, Quantity, m), GroupSum(sales, MonthOf, Amount, m))
  {
    if |sales| > 0 {
      var init, x := sales[..|sales| - 1], sales[|sales| - 1];
      assert sales == init + [x];
      AccumulateTotals(init);
      AccumulateKeys(init);
      var t0 := Accumulate(init);
      var t := AddSale(t0, x);
      forall m | m in t.totals
        ensures t.totals[m] == MonthTotals(GroupSum(sales, MonthOf, Quantity, m), GroupSum(sales, MonthOf, Amount, m))
      {
        AddSaleStep(t0, init, x, m);
      }
    }
  }

  /** Adding one sale to a table that is right for `init` makes the entry of month `m`
      right for `init + [x]`. */
  lemma AddSaleStep(t0: MonthTable, init: seq<SaleEntry>, x: SaleEntry, m: string)
    requires m in t0.totals ==>
      t0.totals[m] == MonthTotals(GroupSum(init, MonthOf, Quantity, m), GroupSum(init, MonthOf, Amount, m))
    requires m !in t0.totals ==> m !in Keys(init, MonthOf)
    requires m in AddSale(t0, x).totals
    ensures AddSale(t0, x).totals[m]
         == MonthTotals(GroupSum(init + [x], MonthOf, Quantity, m), GroupSum(init + [x], MonthOf, Amount, m))
  {
    GroupSumAppend(init, x, MonthOf, Quantity, m);
    GroupSumAppend(init, x, MonthOf, Amount, m);
    if m !in t0.totals {
      GroupSumOfAbsentKey(init, MonthOf, Quantity, m);
      GroupSumOfAbsentKey(init, MonthOf, Amount, m);
    }
  }

  /** The data of the monthly chart: one label per month and, at the same position, that
      month's quantity and revenue. */
  datatype MonthlyChart = MonthlyChart(labels: seq<string>, salesData: seq<int>, revenueData: seq<int>)

  function Id(s: string): string { s }

  /** `loadMonthlySalesChart` up to the chart configuration: the keys sorted with the
      default `sort`, then the two totals read off per key. */
  function MonthlySalesChart(sales: seq<SaleEntry>): (c: MonthlyChart)
    ensures |c.labels| == |c.salesData| == |c.revenueData|
    ensures StrictlyAsc(c.labels, Id)
    ensures forall m :: m in c.labels <==> exists i :: 0 <= i < |sales| && MonthOf(sales[i]) == m
    ensures forall i :: 0 <= i < |c.labels| ==>
      c.salesData[i] == GroupSum(sales, MonthOf, Quantity, c.labels[i])
      && c.revenueData[i] == GroupSum(sales, MonthOf, Amount, c.labels[i])
    ensures multiset(c.labels) == multiset(Keys(sales, MonthOf))
  {
    var t := Accumulate(sales);
    var months := SortAsc(t.order, Id);
    MonthLabels(sales);
    ChartColumns(sales, t, months);
    MonthlyChart(months, Map(months, SalesOf(t)), Map(months, RevenueOf(t)))
  }

  /** `monthlySales[month].totalSales`, read for each label. */
  function SalesOf(t: MonthTable): string -> int {
    m => if m in t.totals then t.totals[m].totalSales else 0
  }

  /** `monthlySales[month].totalRevenue`, read for each label. */
  function RevenueOf(t: MonthTable): string -> int {
    m => if m in t.totals then t.totals[m].totalRevenue else 0
  }

  /** Reading the table at months it has entries for gives those months' sums. */
  lemma ChartColumns(sales: seq<SaleEntry>, t: MonthTable, months: seq<string>)
    requires t == Accumulate(sales)
    requires forall m :: m in months ==> m in t.totals
    ensures forall i :: 0 <= i < |months| ==>
      Map(months, SalesOf(t))[i] == GroupSum(sales, MonthOf, Quantity, months[i])
      && Map(months, RevenueOf(t))[i] == GroupSum(sales, MonthOf, Amount, months[i])
  {
    AccumulateTotals(sales);
    forall i | 0 <= i < |months|
      ensures Map(months, SalesOf(t))[i] == GroupSum(sales, MonthOf, Quantity, months[i])
      ensures Map(months, RevenueOf(t))[i] == GroupSum(sales, MonthOf, Amount, months[i])
    {
      assert months[i] in months;
    }
  }

  /** The sorted keys of the table: strictly ascending, one per month key of the input,
      each with an entry in the table. */
  lemma MonthLabels(sales: seq<SaleEntry>)
    ensures var t := Accumulate(sales); var months := SortAsc(t.order, Id);
      && StrictlyAsc(months, Id)
      && multiset(months) == multiset(Keys(sales, MonthOf))
      && (forall m :: m in months ==> m in t.totals)
      && (forall m :: m in months <==> exists i :: 0 <= i < |sales| && MonthOf(sales[i]) == m)
  {
    var t := Accumulate(sales);
    var months := SortAsc(t.order, Id);
    AccumulateKeys(sales);
    LabelsStrict(t.order, months);
    forall m ensures m in months <==> m in t.order {
      assert m in months <==> m in multiset(months);
    }
  }

  /** Sorting distinct keys gives strictly ascending labels. */
  lemma LabelsStrict(keys: seq<string>, months: seq<string>)
    requires Distinct(keys) && multiset(months) == multiset(keys) && SortedAsc(months, Id)
    ensures StrictlyAsc(months, Id)
  {
    assert KeyDistinct(keys, Id);
    PermutationKeepsKeyDistinct(keys, months, Id);
    SortedDistinctIsStrict(months, Id);
  }

  /** `SumGroups` is the sum, over the keys, of each key's group sum. */
  lemma {:induction false} SumGroupsIsSum<T>(ks: seq<string>, xs: seq<T>, key: T -> string, f: T -> int)
    ensures SumGroups(ks, xs, key, f) == Sum(ks, k => GroupSum(xs, key, f, k))
  {
    if |ks| > 0 {
      SumGroupsIsSum(ks[1..], xs, key, f);
    }
  }

  /** Adding up per-key values listed in any order of the distinct keys gives the total. */
  lemma ChartColumnSum<T>(ks: seq<string>, col: seq<int>, xs: seq<T>, key: T -> string, f: T -> int)
    requires multiset(ks) == multiset(Keys(xs, key))
    requires |col| == |ks| && forall i :: 0 <= i < |ks| ==> col[i] == GroupSum(xs, key, f, ks[i])
    ensures Sum(col, (v: int) => v) == Sum(xs, f)
  {
    var g := k => GroupSum(xs, key, f, k);
    assert col == Map(ks, g);
    SumOfGroupRows(ks, g, (v: int) => v, xs, key, f);
    SumGroupsIsSum(ks, xs, key, f);
    SumGroupsIsSum(Keys(xs, key), xs, key, f);
    SumPermutation(ks, Keys(xs, key), g);
    PartitionSum(xs, key, f);
  }

  /** Every sale is counted in exactly one bar: the bars add up to the total quantity and
      the total revenue. */
  lemma MonthlyChartTotals(sales: seq<SaleEntry>)
    ensures var c := MonthlySalesChart(sales);
      Sum(c.salesData, (v: int) => v) == Sum(sales, Quantity)
      && Sum(c.revenueData, (v: int) => v) == Sum(sales, Amount)
  {
    var c := MonthlySalesChart(sales);
    ChartColumnSum(c.labels, c.salesData, sales, MonthOf, Quantity);
    ChartColumnSum(c.labels, c.revenueData, sales, MonthOf, Amount);
  }

  // ---------------------------------------------------------------- top-five charts

  /** `loadTopBooksChart`: sorted by `TotalSold`, highest first, the first five kept. */
  function TopBooks(rows: seq<BookTotal>): (r: seq<BookTotal>)
    ensures |r| == Min(5, |rows|)
    ensures SortedDesc(r, TotalSold)
    ensures multiset(r) <= multiset(rows)
    ensures forall x, i :: x in multiset(rows) - multiset(r) && 0 <= i < |r| ==> x.totalSold <= r[i].totalSold
  {
    TopK(rows, 5, TotalSold)
  }

  /** `loadAuthorRevenueChart`: sorted by `TotalRevenue`, highest first, the first five
      kept. */
  function TopAuthors(rows: seq<AuthorTotal>): (r: seq<AuthorTotal>)
    ensures |r| == Min(5, |rows|)
    ensures SortedDesc(r, TotalRevenue)
    ensures multiset(r) <= multiset(rows)
    ensures forall x, i :: x in multiset(rows) - multiset(r) && 0 <= i < |r| ==> x.totalRevenue <= r[i].totalRevenue
  {
    TopK(rows, 5, TotalRevenue)
  }

  /** The bars of the author chart are the same whatever order the rows arrive in. */
  lemma TopAuthorsOrderFree(a: seq<AuthorTotal>, b: seq<AuthorTotal>)
    requires multiset(a) == multiset(b)
    ensures Map(TopAuthors(a), TotalRevenue) == Map(TopAuthors(b), TotalRevenue)
  {
    TopKScores(a, b, 5, TotalRevenue);
  }

  /** The bars of the book chart are the same whatever order the rows arrive in. */
  lemma TopBooksOrderFree(a: seq<BookTotal>, b: seq<BookTotal>)
    requires multiset(a) == multiset(b)
    ensures Map(TopBooks(a), TotalSold) == Map(TopBooks(b), TotalSold)
  {
    TopKScores(a, b, 5, TotalSold);
  }
}
