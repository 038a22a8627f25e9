/** The report queries of the stand-alone analysis script (`sales_analysis.py`): top-selling
    books with a `LIMIT`, sales by author, sales by month, customer spending and sales by
    price range. Each is a join of the sales with their books (and customers), grouped and
    ordered; prices are whole cents. */
module SalesAnalysis {
  import opened Wrappers
  import opened Strings
  import opened Numbers
  import opened Seqs
  import opened Grouping
  import opened Stats
  import opened Dates
  import opened Store
  import Dashboard

  function BookOf(x: BookSale): Book { x.book }
  function BookIdOf(x: BookSale): int { x.book.id }
  function AuthorOf(x: BookSale): string { x.book.author }

  // ---------------------------------------------------------------- LIMIT

  /** SQLite's `LIMIT n`: at most `n` rows from the front; a negative limit means no limit. */
  function Limit<T>(xs: seq<T>, n: int): (r: seq<T>)
    ensures |r| <= |xs| && r == xs[..|r|]
    ensures n < 0 ==> r == xs
    ensures n >= 0 ==> |r| == Min(n, |xs|)
  {
    if n < 0 || n >= |xs| then xs else xs[..n]
  }

  // ---------------------------------------------------------------- top-selling books

  datatype TopBookRow = TopBookRow(title: string, author: string, totalSold: int, totalRevenue: int)

  function TopBookSold(r: TopBookRow): int { r.totalSold }

  /** The row of one book. Grouping on the joined book is grouping on `BookID`, since every
      sale of one book id joins the same book row. */
  function TopBookRowOf(xs: seq<BookSale>, b: Book): TopBookRow {
    TopBookRow(b.title, b.author, GroupSum(xs, BookOf, Quantity, b), GroupSum(xs, BookOf, Revenue, b))
  }

  function TopBookMaker(xs: seq<BookSale>): Book -> TopBookRow { b => TopBookRowOf(xs, b) }

  /** All groups of `top_selling_books`, before the `LIMIT`. */
  function BookTotals(db: Db): (rows: seq<TopBookRow>)
    ensures SortedDesc(rows, TopBookSold)
  {
    var xs := BookJoin(db);
    Report(xs, BookOf, TopBookMaker(xs), TopBookSold)
  }

  /** `top_selling_books(limit)`: `GROUP BY b.BookID ORDER BY TotalSold DESC LIMIT ?`. */
  function TopSellingBooks(db: Db, limit: int): (rows: seq<TopBookRow>)
    ensures limit >= 0 ==> |rows| <= limit
    ensures SortedDesc(rows, TopBookSold)
  {
    Limit(BookTotals(db), limit)
  }

  /** Every row is the row of a book with sales, and a book with sales that is left out
      sold no more than any book that is kept. */
  lemma TopSellingBooksSpec(db: Db, limit: int)
    ensures var xs := BookJoin(db); var rows := TopSellingBooks(db, limit);
      && (forall r :: r in rows ==> exists i :: 0 <= i < |xs| && r == TopBookRowOf(xs, xs[i].book))
      && (forall i :: 0 <= i < |xs| ==>
            (TopBookRowOf(xs, xs[i].book) in rows
             || forall r :: r in rows ==> r.totalSold >= TopBookRowOf(xs, xs[i].book).totalSold))
  {
    var xs := BookJoin(db);
    TopCut(xs, BookTotals(db), TopSellingBooks(db, limit));
  }

  lemma TopCut(xs: seq<BookSale>, all: seq<TopBookRow>, rows: seq<TopBookRow>)
    requires GroupedBy(xs, BookOf, TopBookMaker(xs), all) && SortedDesc(all, TopBookSold)
    requires |rows| <= |all| && rows == all[..|rows|]
    ensures forall r :: r in rows ==> exists i :: 0 <= i < |xs| && r == TopBookRowOf(xs, xs[i].book)
    ensures forall i :: 0 <= i < |xs| ==>
              (TopBookRowOf(xs, xs[i].book) in rows
               || forall r :: r in rows ==> r.totalSold >= TopBookRowOf(xs, xs[i].book).totalSold)
  {
    GroupRowsMembers(xs, BookOf, TopBookMaker(xs), all);
    forall r | r in rows ensures exists i :: 0 <= i < |xs| && r == TopBookRowOf(xs, xs[i].book) {
      var q :| 0 <= q < |rows| && rows[q] == r;
      assert r == all[q] && all[q] in all;
      var i :| 0 <= i < |xs| && r == TopBookMaker(xs)(BookOf(xs[i]));
    }
    forall i | 0 <= i < |xs|
      ensures TopBookRowOf(xs, xs[i].book) in rows
              || forall r :: r in rows ==> r.totalSold >= TopBookRowOf(xs, xs[i].book).totalSold
    {
      var y := TopBookRowOf(xs, xs[i].book);
      assert y == TopBookMaker(xs)(BookOf(xs[i]));
      PrefixDominates(all, |rows|, y, TopBookSold);
    }
  }

  /** Without a cut-off every book with sales is listed once, and the quantities add up. */
  lemma TopSellingBooksAll(db: Db, limit: int)
    requires limit < 0 || limit >= |Keys(BookJoin(db), BookOf)|
    ensures var xs := BookJoin(db); var rows := TopSellingBooks(db, limit);
      && |rows| == |Image(xs, BookOf)|
      && Sum(rows, TopBookSold) == Sum(xs, Quantity)
  {
    var xs := BookJoin(db);
    KeysCount(xs, BookOf);
    GroupRowsSum(xs, BookOf, TopBookMaker(xs), BookTotals(db), Quantity, TopBookSold);
  }

  // ---------------------------------------------------------------- sales by author

  datatype AuthorSalesRow = AuthorSalesRow(author: string, bookCount: int, totalSold: int, totalRevenue: int)

  function AuthorSalesKey(r: AuthorSalesRow): string { r.author }
  function AuthorSalesRevenue(r: AuthorSalesRow): int { r.totalRevenue }
  function AuthorSalesSold(r: AuthorSalesRow): int { r.totalSold }

  function AuthorSalesRowOf(xs: seq<BookSale>, a: string): AuthorSalesRow {
    AuthorSalesRow(a, |Keys(Select(xs, AuthorOf, a), BookIdOf)|,
                   GroupSum(xs, AuthorOf, Quantity, a), GroupSum(xs, AuthorOf, Revenue, a))
  }

  function AuthorSalesMaker(xs: seq<BookSale>): string -> AuthorSalesRow { a => AuthorSalesRowOf(xs, a) }

  /** `sales_by_author`: `GROUP BY b.Author ORDER BY TotalRevenue DESC`. */
  function SalesByAuthor(db: Db): (rows: seq<AuthorSalesRow>)
    ensures SortedDesc(rows, AuthorSalesRevenue)
  {
    var xs := BookJoin(db);
    Report(xs, AuthorOf, AuthorSalesMaker(xs), AuthorSalesRevenue)
  }

  /** One row per author with sales; `BookCount` is the number of distinct book ids among
      that author's sales (`COUNT(DISTINCT b.BookID)`), and the revenues add up to the
      revenue of all joined sales. */
  lemma SalesByAuthorSpec(db: Db)
    ensures var xs := BookJoin(db); var rows := SalesByAuthor(db);
      && KeyDistinct(rows, AuthorSalesKey)
      && (forall i :: 0 <= i < |xs| ==> exists r :: r in rows && r.author == xs[i].book.author)
      && (forall r :: r in rows ==>
            && (exists i :: 0 <= i < |xs| && xs[i].book.author == r.author)
            && r.bookCount == |AuthorBookIds(xs, r.author)|
            && r.totalSold == GroupSum(xs, AuthorOf, Quantity, r.author)
            && r.totalRevenue == GroupSum(xs, AuthorOf, Revenue, r.author))
      && Sum(rows, AuthorSalesRevenue) == Sum(xs, Revenue)
  {
    AuthorRowsFacts(BookJoin(db), SalesByAuthor(db));
  }

  lemma AuthorRowsFacts(xs: seq<BookSale>, rows: seq<AuthorSalesRow>)
    requires GroupedBy(xs, AuthorOf, AuthorSalesMaker(xs), rows)
    ensures KeyDistinct(rows, AuthorSalesKey)
    ensures forall i :: 0 <= i < |xs| ==> exists r :: r in rows && r.author == xs[i].book.author
    ensures forall r :: r in rows ==>
              && (exists i :: 0 <= i < |xs| && xs[i].book.author == r.author)
              && r.bookCount == |AuthorBookIds(xs, r.author)|
              && r.totalSold == GroupSum(xs, AuthorOf, Quantity, r.author)
              && r.totalRevenue == GroupSum(xs, AuthorOf, Revenue, r.author)
    ensures Sum(rows, AuthorSalesRevenue) == Sum(xs, Revenue)
  {
    GroupRows(xs, AuthorOf, AuthorSalesMaker(xs), rows, AuthorSalesKey);
    GroupRowsSum(xs, AuthorOf, AuthorSalesMaker(xs), rows, Revenue, AuthorSalesRevenue);
    forall r | r in rows
      ensures r.bookCount == |AuthorBookIds(xs, r.author)|
    {
      BookCountIsDistinctIds(xs, r.author);
    }
  }

  /** The ids of the books of author `a` that have sales. */
  ghost function AuthorBookIds(xs: seq<BookSale>, a: string): set<int> {
    set x | x in xs && x.book.author == a :: x.book.id
  }

  lemma BookCountIsDistinctIds(xs: seq<BookSale>, a: string)
    ensures |Keys(Select(xs, AuthorOf, a), BookIdOf)| == |AuthorBookIds(xs, a)|
  {
    var sel := Select(xs, AuthorOf, a);
    KeysCount(sel, BookIdOf);
    var lhs := Image(sel, BookIdOf);
    var rhs := AuthorBookIds(xs, a);
    forall id | id in rhs ensures id in lhs {
      var x :| x in xs && x.book.author == a && x.book.id == id;
      var i :| 0 <= i < |xs| && xs[i] == x;
      SelectHas(xs, AuthorOf, a, i);
    }
    forall id | id in lhs ensures id in rhs {
      var x :| x in sel && BookIdOf(x) == id;
    }
    assert lhs == rhs;
  }

  // ---------------------------------------------------------------- monthly sales

  /** `strftime('%Y-%m', Date)` on text of the form `YYYY-MM-DD`: SQLite reads a month of
      1..12 and a day of 1..31, and a day past the end of the month rolls over into the next
      month. Anything else gives `NULL`. */
  function SqliteMonth(s: string): (r: Option<string>)
    ensures r.Some? ==> |s| == 10 && |r.value| == 7 && r.value[..4] == s[..4] && r.value[4] == '-'
  {
    if |s| == 10 && s[4] == '-' && s[7] == '-'
       && AllChars(s[..4], IsDigit) && AllChars(s[5..7], IsDigit) && AllChars(s[8..], IsDigit)
    then
      var y, m, d := DigitsValue(s[..4], 10), DigitsValue(s[5..7], 10), DigitsValue(s[8..], 10);
      if 1 <= m <= 12 && 1 <= d <= 31 then
        if d <= DaysIn(y, m) then Some(s[..7])
        else Some(s[..4] + "-" + Padded(m + 1, 2))
      else None
    else None
  }

  /** A real calendar date falls in its own month, which is the month the dashboard's
      monthly chart files it under. */
  lemma SqliteMonthOfDate(s: string)
    requires ParseIso(s).Some?
    ensures SqliteMonth(s) == Some(s[..7])
    ensures SqliteMonth(s) == Some(Dashboard.MonthKey(s))
  {
  }

  /** SQLite rolls an impossible day over into the following month. */
  lemma SqliteMonthRollsOver()
    ensures SqliteMonth("2023-02-30") == Some("2023-03")
  {
    FebruaryThirtieth();
    DayPastMonthEnd("2023", "02", "30");
    assert "2023" + "-" + "02" + "-" + "30" == "2023-02-30";
    assert "2023" + "-" + "03" == "2023-03";
  }

  /** The field values of the date 2023-02-30, which does not exist. */
  lemma FebruaryThirtieth()
    ensures DigitsValue("02", 10) == 2 && DigitsValue("30", 10) == 30 && Padded(3, 2) == "03"
    ensures AllChars("2023", IsDigit) && AllChars("02", IsDigit) && AllChars("30", IsDigit)
  {
    assert "02"[..1] == "0" && "30"[..1] == "3" && "0"[..0] == "" && "3"[..0] == "";
  }

  /** A well-formed date whose day lies past the end of its month is filed under the next
      month. */
  lemma DayPastMonthEnd(y: string, m: string, d: string)
    requires |y| == 4 && |m| == 2 && |d| == 2
    requires AllChars(y, IsDigit) && AllChars(m, IsDigit) && AllChars(d, IsDigit)
    requires 1 <= DigitsValue(m, 10) <= 12
    requires DaysIn(DigitsValue(y, 10), DigitsValue(m, 10)) < DigitsValue(d, 10) <= 31
    ensures SqliteMonth(y + "-" + m + "-" + d) == Some(y + "-" + Padded(DigitsValue(m, 10) + 1, 2))
  {
    var s := y + "-" + m + "-" + d;
    assert s[..4] == y && s[5..7] == m && s[8..] == d;
  }

  datatype MonthRow = MonthRow(month: Option<string>, transactionCount: int, booksSold: int, revenue: int)

  function MonthOf(x: BookSale): Option<string> { SqliteMonth(x.sale.date) }
  function MonthRowKey(r: MonthRow): Option<string> { r.month }
  function MonthRowCount(r: MonthRow): int { r.transactionCount }
  function MonthRowRevenue(r: MonthRow): int { r.revenue }
  function OneSale(x: BookSale): int { 1 }

  /** SQLite sorts `NULL` before all text: the empty string sorts before any marked month. */
  function MonthSortKey(r: MonthRow): string {
    if r.month.None? then "" else "M" + r.month.value
  }

  function MonthRowOf(xs: seq<BookSale>, m: Option<string>): MonthRow {
    MonthRow(m, GroupSum(xs, MonthOf, OneSale, m), GroupSum(xs, MonthOf, Quantity, m),
             GroupSum(xs, MonthOf, Revenue, m))
  }

  function MonthMaker(xs: seq<BookSale>): Option<string> -> MonthRow { m => MonthRowOf(xs, m) }

  /** `monthly_sales`: `GROUP BY Month ORDER BY Month`. */
  function MonthlySales(db: Db): (rows: seq<MonthRow>)
    ensures SortedAsc(rows, MonthSortKey)
  {
    var xs := BookJoin(db);
    ReportAsc(xs, MonthOf, MonthMaker(xs), MonthSortKey)
  }

  /** The order SQLite gives the month column: `NULL` first, then text ascending. */
  predicate MonthBefore(a: Option<string>, b: Option<string>) {
    (a.None? && b.Some?) || (a.Some? && b.Some? && Less(a.value, b.value))
  }

  /** Months come out strictly ascending, each once; `TransactionCount` is the number of sales
      in the month; counts and revenues add up to those of all joined sales. */
  lemma MonthlySalesSpec(db: Db)
    ensures var xs := BookJoin(db); var rows := MonthlySales(db);
      && (forall i, j :: 0 <= i < j < |rows| ==> MonthBefore(rows[i].month, rows[j].month))
      && (forall i :: 0 <= i < |xs| ==> exists r :: r in rows && r.month == MonthOf(xs[i]))
      && (forall r :: r in rows ==>
            && (exists i :: 0 <= i < |xs| && MonthOf(xs[i]) == r.month)
            && r.transactionCount == |Select(xs, MonthOf, r.month)|
            && r.booksSold == GroupSum(xs, MonthOf, Quantity, r.month)
            && r.revenue == GroupSum(xs, MonthOf, Revenue, r.month))
      && Sum(rows, MonthRowCount) == |xs|
      && Sum(rows, MonthRowRevenue) == Sum(xs, Revenue)
  {
    MonthRowsFacts(BookJoin(db), MonthlySales(db));
  }

  lemma MonthRowsFacts(xs: seq<BookSale>, rows: seq<MonthRow>)
    requires GroupedBy(xs, MonthOf, MonthMaker(xs), rows) && SortedAsc(rows, MonthSortKey)
    ensures forall i, j :: 0 <= i < j < |rows| ==> MonthBefore(rows[i].month, rows[j].month)
    ensures forall i :: 0 <= i < |xs| ==> exists r :: r in rows && r.month == MonthOf(xs[i])
    ensures forall r :: r in rows ==>
              && (exists i :: 0 <= i < |xs| && MonthOf(xs[i]) == r.month)
              && r.transactionCount == |Select(xs, MonthOf, r.month)|
              && r.booksSold == GroupSum(xs, MonthOf, Quantity, r.month)
              && r.revenue == GroupSum(xs, MonthOf, Revenue, r.month)
    ensures Sum(rows, MonthRowCount) == |xs|
    ensures Sum(rows, MonthRowRevenue) == Sum(xs, Revenue)
  {
    var mk := MonthMaker(xs);
    GroupRows(xs, MonthOf, mk, rows, MonthRowKey);
    GroupRowsSum(xs, MonthOf, mk, rows, OneSale, MonthRowCount);
    GroupRowsSum(xs, MonthOf, mk, rows, Revenue, MonthRowRevenue);
    OnesCount(xs);
    forall r | r in rows ensures r.transactionCount == |Select(xs, MonthOf, r.month)| {
      OnesCount(Select(xs, MonthOf, r.month));
    }
    MonthsAscending(rows);
  }

  lemma {:induction false} OnesCount(xs: seq<BookSale>)
    ensures Sum(xs, OneSale) == |xs|
  {
    if |xs| > 0 {
      OnesCount(xs[1..]);
    }
  }

  lemma MonthsAscending(rows: seq<MonthRow>)
    requires SortedAsc(rows, MonthSortKey) && KeyDistinct(rows, MonthRowKey)
    ensures forall i, j :: 0 <= i < j < |rows| ==> MonthBefore(rows[i].month, rows[j].month)
  {
    forall i, j | 0 <= i < j < |rows| ensures MonthBefore(rows[i].month, rows[j].month) {
      var a, b := rows[i].month, rows[j].month;
      var ka, kb := MonthSortKey(rows[i]), MonthSortKey(rows[j]);
      assert LessEq(ka, kb);
      LessTotal(ka, kb);
      if a.Some? && b.Some? {
        assert ka[1..] == a.value && kb[1..] == b.value;
      }
    }
  }

  // ---------------------------------------------------------------- customer spending

  datatype SpendingRow = SpendingRow(name: string, email: string, purchaseCount: int, booksBought: int,
                                     totalSpent: int, avgBookPrice: real)

  function SpendingTotal(r: SpendingRow): int { r.totalSpent }
  function SpendingCount(r: SpendingRow): int { r.purchaseCount }

  function CustomerOf(x: FullSale): Customer { x.customer }
  function OneFull(x: FullSale): int { 1 }
  function PriceOf(x: FullSale): real { x.book.price as real }

  /** `AVG(b.Price)` over a customer's sales. */
  function AvgPrice(ys: seq<FullSale>): real {
    if |ys| == 0 then 0.0 else Mean(Map(ys, PriceOf))
  }

  /** The row of one customer; grouping on the joined customer is grouping on `CustomerID`. */
  function SpendingRowOf(xs: seq<FullSale>, c: Customer): SpendingRow {
    SpendingRow(c.name, c.email, GroupSum(xs, CustomerOf, OneFull, c),
                GroupSum(xs, CustomerOf, FullQuantity, c), GroupSum(xs, CustomerOf, FullRevenue, c),
                AvgPrice(Select(xs, CustomerOf, c)))
  }

  function SpendingMaker(xs: seq<FullSale>): Customer -> SpendingRow { c => SpendingRowOf(xs, c) }

  /** `customer_spending`: `GROUP BY c.CustomerID ORDER BY TotalSpent DESC`. */
  function CustomerSpending(db: Db): (rows: seq<SpendingRow>)
    ensures SortedDesc(rows, SpendingTotal)
  {
    var xs := FullJoin(db);
    Report(xs, CustomerOf, SpendingMaker(xs), SpendingTotal)
  }

  /** One row per customer with sales; purchase counts add up to the number of joined sales
      and the amounts spent to their revenue. */
  lemma CustomerSpendingSpec(db: Db)
    ensures var xs := FullJoin(db); var rows := CustomerSpending(db);
      && |rows| == |Image(xs, CustomerOf)|
      && (forall r :: r in rows <==> exists i :: 0 <= i < |xs| && r == SpendingRowOf(xs, xs[i].customer))
      && Sum(rows, SpendingCount) == |xs|
      && Sum(rows, SpendingTotal) == Sum(xs, FullRevenue)
  {
    var xs := FullJoin(db);
    SpendingRowsFacts(xs, CustomerSpending(db));
  }

  lemma SpendingRowsFacts(xs: seq<FullSale>, rows: seq<SpendingRow>)
    requires GroupedBy(xs, CustomerOf, SpendingMaker(xs), rows)
    ensures |rows| == |Image(xs, CustomerOf)|
    ensures forall r :: r in rows <==> exists i :: 0 <= i < |xs| && r == SpendingRowOf(xs, xs[i].customer)
    ensures Sum(rows, SpendingCount) == |xs|
    ensures Sum(rows, SpendingTotal) == Sum(xs, FullRevenue)
  {
    var mk := SpendingMaker(xs);
    GroupRowsCount(xs, CustomerOf, mk, rows);
    GroupRowsMembers(xs, CustomerOf, mk, rows);
    SpendingSums(xs, rows);
  }

  lemma SpendingSums(xs: seq<FullSale>, rows: seq<SpendingRow>)
    requires GroupedBy(xs, CustomerOf, SpendingMaker(xs), rows)
    ensures Sum(rows, SpendingCount) == |xs|
    ensures Sum(rows, SpendingTotal) == Sum(xs, FullRevenue)
  {
    var mk := SpendingMaker(xs);
    GroupRowsSum(xs, CustomerOf, mk, rows, OneFull, SpendingCount);
    GroupRowsSum(xs, CustomerOf, mk, rows, FullRevenue, SpendingTotal);
    FullOnesCount(xs);
  }

  lemma {:induction false} FullOnesCount(xs: seq<FullSale>)
    ensures Sum(xs, OneFull) == |xs|
  {
    if |xs| > 0 {
      FullOnesCount(xs[1..]);
    }
  }

  /** A customer's average book price lies between the cheapest and the dearest book among
      their purchases. */
  lemma AvgPriceBetween(xs: seq<FullSale>, c: Customer)
    requires exists i :: 0 <= i < |xs| && xs[i].customer == c
    ensures var ys := Select(xs, CustomerOf, c); var avg := SpendingRowOf(xs, c).avgBookPrice;
      exists i, j :: 0 <= i < |ys| && 0 <= j < |ys|
        && ys[i].book.price as real <= avg <= ys[j].book.price as real
  {
    var ys := Select(xs, CustomerOf, c);
    var k :| 0 <= k < |xs| && xs[k].customer == c;
    SelectHas(xs, CustomerOf, c, k);
    var ps := Map(ys, PriceOf);
    MeanBetween(ps);
    var i, j := ArgMin(ps), ArgMax(ps);
    assert ps[i] == ys[i].book.price as real && ps[j] == ys[j].book.price as real;
  }

  // ---------------------------------------------------------------- price ranges

  /** The `CASE` of `price_range_analysis`, on a price in cents: 0 is under $10, then
      $10-$15, $15-$20, $20-$30, and 4 is $30 and over. */
  function Bucket(price: int): (b: int)
    ensures 0 <= b < 5
  {
    if price < 1000 then 0
    else if price < 1500 then 1
    else if price < 2000 then 2
    else if price < 3000 then 3
    else 4
  }

  /** The lower bound of each range in cents; the first range has none. */
  function Floor(b: int): int
    requires 1 <= b < 5
  {
    [1000, 1500, 2000, 3000][b - 1]
  }

  /** The price interval range `b` stands for. */
  predicate InRange(price: int, b: int) {
    0 <= b < 5 && (b == 0 || Floor(b) <= price) && (b == 4 || price < Floor(b + 1))
  }

  /** Every price falls in exactly one range, and the `CASE` picks it. */
  lemma BucketExactlyOne(price: int, b: int)
    ensures InRange(price, Bucket(price))
    ensures InRange(price, b) ==> b == Bucket(price)
  {
  }

  /** A dearer book never lands in an earlier range. */
  lemma BucketMonotone(p: int, q: int)
    requires p <= q
    ensures Bucket(p) <= Bucket(q)
  {
  }

  function Label(b: int): string
    requires 0 <= b < 5
  {
    ["Under $10", "$10-$15", "$15-$20", "$20-$30", "Over $30"][b]
  }

  /** The range a label names; the labels are pairwise different. */
  function LabelIndex(name: string): (b: int)
    ensures 0 <= b < 5
  {
    if name == "$10-$15" then 1
    else if name == "$15-$20" then 2
    else if name == "$20-$30" then 3
    else if name == "Over $30" then 4
    else 0
  }

  lemma LabelRoundTrip(b: int)
    requires 0 <= b < 5
    ensures LabelIndex(Label(b)) == b
  {
  }

  function RangeOf(x: BookSale): string { Label(Bucket(x.book.price)) }

  datatype RangeRow = RangeRow(priceRange: string, bookCount: int, unitsSold: int, revenue: int)

  function RangeRowKey(r: RangeRow): string { r.priceRange }
  function RangeRowRevenue(r: RangeRow): int { r.revenue }

  /** `MIN(b.Price)` over some sales; 0 for none. */
  function MinPrice(ys: seq<BookSale>): (m: int)
    ensures forall i :: 0 <= i < |ys| ==> m <= ys[i].book.price
    ensures |ys| > 0 ==> exists i :: 0 <= i < |ys| && m == ys[i].book.price
  {
    if |ys| == 0 then 0
    else if |ys| == 1 then ys[0].book.price
    else
      var rest := MinPrice(ys[1..]);
      assert forall i :: 1 <= i < |ys| ==> ys[i] == ys[1..][i - 1];
      Min(ys[0].book.price, rest)
  }

  function RangeRowOf(xs: seq<BookSale>, name: string): RangeRow {
    var ys := Select(xs, RangeOf, name);
    RangeRow(name, |Keys(ys, BookIdOf)|, Sum(ys, Quantity), Sum(ys, Revenue))
  }

  function RangeMaker(xs: seq<BookSale>): string -> RangeRow { l => RangeRowOf(xs, l) }

  /** `ORDER BY MIN(b.Price)` as a descending sort on the negated minimum. */
  function RangeScore(xs: seq<BookSale>): RangeRow -> int {
    (r: RangeRow) => -MinPrice(Select(xs, RangeOf, r.priceRange))
  }

  /** `price_range_analysis`: `GROUP BY PriceRange ORDER BY MIN(b.Price)`. */
  function PriceRangeAnalysis(db: Db): (rows: seq<RangeRow>)
    ensures |rows| <= 5
  {
    var xs := BookJoin(db);
    KeysAtMostFive(xs);
    Report(xs, RangeOf, RangeMaker(xs), RangeScore(xs))
  }

  /** The ranges that have sales come out in the order of their price intervals, each
      once, and their revenues add up to the revenue of all joined sales. */
  lemma PriceRangeSpec(db: Db)
    ensures var xs := BookJoin(db); var rows := PriceRangeAnalysis(db);
      && (forall i, j :: 0 <= i < j < |rows| ==> LabelIndex(rows[i].priceRange) < LabelIndex(rows[j].priceRange))
      && (forall i :: 0 <= i < |xs| ==> exists r :: r in rows && r.priceRange == RangeOf(xs[i]))
      && (forall r :: r in rows ==> r.unitsSold == GroupSum(xs, RangeOf, Quantity, r.priceRange))
      && Sum(rows, RangeRowRevenue) == Sum(xs, Revenue)
  {
    RangeRowsFacts(BookJoin(db), PriceRangeAnalysis(db));
  }

  lemma RangeRowsFacts(xs: seq<BookSale>, rows: seq<RangeRow>)
    requires GroupedBy(xs, RangeOf, RangeMaker(xs), rows) && SortedDesc(rows, RangeScore(xs))
    ensures forall i, j :: 0 <= i < j < |rows| ==> LabelIndex(rows[i].priceRange) < LabelIndex(rows[j].priceRange)
    ensures forall i :: 0 <= i < |xs| ==> exists r :: r in rows && r.priceRange == RangeOf(xs[i])
    ensures forall r :: r in rows ==> r.unitsSold == GroupSum(xs, RangeOf, Quantity, r.priceRange)
    ensures Sum(rows, RangeRowRevenue) == Sum(xs, Revenue)
  {
    var mk := RangeMaker(xs);
    GroupRows(xs, RangeOf, mk, rows, RangeRowKey);
    GroupRowsSum(xs, RangeOf, mk, rows, Revenue, RangeRowRevenue);
    forall i, j | 0 <= i < j < |rows|
      ensures LabelIndex(rows[i].priceRange) < LabelIndex(rows[j].priceRange)
    {
      RowsInRangeOrder(xs, rows, i, j);
    }
  }

  /** The minimum price of a range that has sales lies in that range, and the range's name
      is one of the five labels. */
  lemma MinPriceInRange(xs: seq<BookSale>, name: string)
    requires exists i :: 0 <= i < |xs| && RangeOf(xs[i]) == name
    ensures Bucket(MinPrice(Select(xs, RangeOf, name))) == LabelIndex(name)
    ensures Label(LabelIndex(name)) == name
  {
    var ys := Select(xs, RangeOf, name);
    var k :| 0 <= k < |xs| && RangeOf(xs[k]) == name;
    LabelRoundTrip(Bucket(xs[k].book.price));
    SelectHas(xs, RangeOf, name, k);
    var m := MinPrice(ys);
    var p :| 0 <= p < |ys| && m == ys[p].book.price;
    assert ys[p] in ys;
    LabelRoundTrip(Bucket(ys[p].book.price));
  }

  lemma RowsInRangeOrder(xs: seq<BookSale>, rows: seq<RangeRow>, i: int, j: int)
    requires SortedDesc(rows, RangeScore(xs))
    requires 0 <= i < j < |rows|
    requires KeyDistinct(rows, RangeRowKey)
    requires forall r :: r in rows ==> exists k :: 0 <= k < |xs| && RangeOf(xs[k]) == r.priceRange
    ensures LabelIndex(rows[i].priceRange) < LabelIndex(rows[j].priceRange)
  {
    var a, b := rows[i].priceRange, rows[j].priceRange;
    assert RangeRowKey(rows[i]) != RangeRowKey(rows[j]);
    assert rows[i] in rows && rows[j] in rows;
    assert RangeScore(xs)(rows[i]) >= RangeScore(xs)(rows[j]);
    MinPriceInRange(xs, a);
    MinPriceInRange(xs, b);
    RangeIndexOrder(a, b, MinPrice(Select(xs, RangeOf, a)), MinPrice(Select(xs, RangeOf, b)));
  }

  /** Two different ranges whose minimum prices are ordered have their labels in the same
      order. */
  lemma RangeIndexOrder(a: string, b: string, ma: int, mb: int)
    requires a != b && Label(LabelIndex(a)) == a && Label(LabelIndex(b)) == b
    requires Bucket(ma) == LabelIndex(a) && Bucket(mb) == LabelIndex(b) && ma <= mb
    ensures LabelIndex(a) < LabelIndex(b)
  {
    BucketMonotone(ma, mb);
  }

  /** There are only five labels, so at most five groups. */
  lemma KeysAtMostFive(xs: seq<BookSale>)
    ensures |Keys(xs, RangeOf)| <= 5
  {
    var ks := Keys(xs, RangeOf);
    var labels := Labels();
    forall k | k in ks ensures k in labels {
      var i :| 0 <= i < |xs| && RangeOf(xs[i]) == k;
    }
    DistinctCard(ks);
    SetCardMono((set k | k in ks), labels);
  }

  function Labels(): (ls: set<string>)
    ensures |ls| <= 5
    ensures forall b :: 0 <= b < 5 ==> Label(b) in ls
  {
    {Label(0), Label(1), Label(2), Label(3), Label(4)}
  }

  lemma SetCardMono<T>(a: set<T>, b: set<T>)
    requires a <= b
    ensures |a| <= |b|
  {
    assert b == a + (b - a);
  }
}
