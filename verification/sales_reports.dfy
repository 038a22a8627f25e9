/** The analytics queries of the back end (`get_sales_by_book`, `get_bestselling_authors`,
    `get_top_customers`): an inner join, a `GROUP BY`, per-group sums and counts, and an
    `ORDER BY ... DESC`. Rows that tie on the sort column keep first-occurrence order; SQL
    leaves that order open, so no contract depends on it. */
module SalesReports {
  import opened Seqs
  import opened Grouping
  import opened Store

  // ---------------------------------------------------------------- sales by book

  datatype BookKey = BookKey(id: int, title: string)

  datatype BookRow = BookRow(bookId: int, title: string, totalSold: int, totalRevenue: int)

  function BookKeyOf(x: BookSale): BookKey { BookKey(x.book.id, x.book.title) }
  function BookRowKey(r: BookRow): BookKey { BookKey(r.bookId, r.title) }
  function BookRowSold(r: BookRow): int { r.totalSold }
  function BookRowRevenue(r: BookRow): int { r.totalRevenue }

  function BookRowOf(xs: seq<BookSale>, k: BookKey): BookRow {
    BookRow(k.id, k.title, GroupSum(xs, BookKeyOf, Quantity, k), GroupSum(xs, BookKeyOf, Revenue, k))
  }

  function BookRowMaker(xs: seq<BookSale>): BookKey -> BookRow { k => BookRowOf(xs, k) }

  /** `get_sales_by_book`: `GROUP BY b.BookID, b.Title ORDER BY TotalSold DESC`. */
  function SalesByBook(db: Db): (rows: seq<BookRow>)
    ensures SortedDesc(rows, BookRowSold)
  {
    var xs := BookJoin(db);
    Report(xs, BookKeyOf, BookRowMaker(xs), BookRowSold)
  }

  /** One row per book that has sales, carrying that book's summed quantity and revenue;
      the quantities over all rows add up to the quantity of all joined sales. */
  lemma SalesByBookSpec(db: Db)
    ensures var xs := BookJoin(db); var rows := SalesByBook(db);
      && KeyDistinct(rows, BookRowKey)
      && (forall r :: r in rows ==>
            && (exists i :: 0 <= i < |xs| && BookKeyOf(xs[i]) == BookRowKey(r))
            && r.totalSold == GroupSum(xs, BookKeyOf, Quantity, BookRowKey(r))
            && r.totalRevenue == GroupSum(xs, BookKeyOf, Revenue, BookRowKey(r)))
      && (forall i :: 0 <= i < |xs| ==> exists r :: r in rows && BookRowKey(r) == BookKeyOf(xs[i]))
      && Sum(rows, BookRowSold) == Sum(xs, Quantity)
      && Sum(rows, BookRowRevenue) == Sum(xs, Revenue)
  {
    var xs := BookJoin(db);
    var rows := SalesByBook(db);
    BookRowsMatchGroups(xs, rows);
    BookRowsAddUp(xs, rows);
  }

  lemma BookRowsMatchGroups(xs: seq<BookSale>, rows: seq<BookRow>)
    requires GroupedBy(xs, BookKeyOf, BookRowMaker(xs), rows)
    ensures KeyDistinct(rows, BookRowKey)
    ensures forall r :: r in rows ==>
      && (exists i :: 0 <= i < |xs| && BookKeyOf(xs[i]) == BookRowKey(r))
      && r.totalSold == GroupSum(xs, BookKeyOf, Quantity, BookRowKey(r))
      && r.totalRevenue == GroupSum(xs, BookKeyOf, Revenue, BookRowKey(r))
    ensures forall i :: 0 <= i < |xs| ==> exists r :: r in rows && BookRowKey(r) == BookKeyOf(xs[i])
  {
    GroupRows(xs, BookKeyOf, BookRowMaker(xs), rows, BookRowKey);
  }

  lemma BookRowsAddUp(xs: seq<BookSale>, rows: seq<BookRow>)
    requires GroupedBy(xs, BookKeyOf, BookRowMaker(xs), rows)
    ensures Sum(rows, BookRowSold) == Sum(xs, Quantity)
    ensures Sum(rows, BookRowRevenue) == Sum(xs, Revenue)
  {
    GroupRowsSum(xs, BookKeyOf, BookRowMaker(xs), rows, Quantity, BookRowSold);
    GroupRowsSum(xs, BookKeyOf, BookRowMaker(xs), rows, Revenue, BookRowRevenue);
  }

  // ---------------------------------------------------------------- best-selling authors

  datatype AuthorRow = AuthorRow(author: string, totalSold: int, totalRevenue: int)

  function AuthorOf(x: BookSale): string { x.book.author }
  function AuthorRowKey(r: AuthorRow): string { r.author }
  function AuthorRowSold(r: AuthorRow): int { r.totalSold }

  function AuthorRowOf(xs: seq<BookSale>, a: string): AuthorRow {
    AuthorRow(a, GroupSum(xs, AuthorOf, Quantity, a), GroupSum(xs, AuthorOf, Revenue, a))
  }

  function AuthorRowMaker(xs: seq<BookSale>): string -> AuthorRow { a => AuthorRowOf(xs, a) }

  /** `get_bestselling_authors`: `GROUP BY b.Author ORDER BY TotalSold DESC`. */
  function BestsellingAuthors(db: Db): (rows: seq<AuthorRow>)
    ensures SortedDesc(rows, AuthorRowSold)
  {
    var xs := BookJoin(db);
    Report(xs, AuthorOf, AuthorRowMaker(xs), AuthorRowSold)
  }

  /** One row per author with sales, each with the author's summed quantity and revenue;
      the authors' totals add up to the quantity of all joined sales. */
  lemma BestsellingAuthorsSpec(db: Db)
    ensures var xs := BookJoin(db); var rows := BestsellingAuthors(db);
      && KeyDistinct(rows, AuthorRowKey)
      && (forall r :: r in rows ==>
            && (exists i :: 0 <= i < |xs| && xs[i].book.author == r.author)
            && r.totalSold == GroupSum(xs, AuthorOf, Quantity, r.author)
            && r.totalRevenue == GroupSum(xs, AuthorOf, Revenue, r.author))
      && (forall i :: 0 <= i < |xs| ==> exists r :: r in rows && r.author == xs[i].book.author)
      && Sum(rows, AuthorRowSold) == Sum(xs, Quantity)
  {
    AuthorRowsFacts(BookJoin(db), BestsellingAuthors(db));
  }

  lemma AuthorRowsFacts(xs: seq<BookSale>, rows: seq<AuthorRow>)
    requires GroupedBy(xs, AuthorOf, AuthorRowMaker(xs), rows)
    ensures KeyDistinct(rows, AuthorRowKey)
    ensures forall r :: r in rows ==>
              && (exists i :: 0 <= i < |xs| && xs[i].book.author == r.author)
              && r.totalSold == GroupSum(xs, AuthorOf, Quantity, r.author)
              && r.totalRevenue == GroupSum(xs, AuthorOf, Revenue, r.author)
    ensures forall i :: 0 <= i < |xs| ==> exists r :: r in rows && r.author == xs[i].book.author
    ensures Sum(rows, AuthorRowSold) == Sum(xs, Quantity)
  {
    var mk := AuthorRowMaker(xs);
    GroupRows(xs, AuthorOf, mk, rows, AuthorRowKey);
    GroupRowsSum(xs, AuthorOf, mk, rows, Quantity, AuthorRowSold);
  }

  // ---------------------------------------------------------------- top customers

  datatype CustomerKey = CustomerKey(id: int, name: string)

  datatype CustomerRow = CustomerRow(customerId: int, name: string, totalTransactions: int,
                                     totalBooksBought: int, totalSpent: int)

  function CustomerKeyOf(x: FullSale): CustomerKey { CustomerKey(x.customer.id, x.customer.name) }
  function CustomerRowKey(r: CustomerRow): CustomerKey { CustomerKey(r.customerId, r.name) }
  function CustomerRowSpent(r: CustomerRow): int { r.totalSpent }
  function CustomerRowCount(r: CustomerRow): int { r.totalTransactions }
  function One(x: FullSale): int { 1 }

  function CustomerRowOf(xs: seq<FullSale>, k: CustomerKey): CustomerRow {
    CustomerRow(k.id, k.name, GroupSum(xs, CustomerKeyOf, One, k),
                GroupSum(xs, CustomerKeyOf, FullQuantity, k), GroupSum(xs, CustomerKeyOf, FullRevenue, k))
  }

  function CustomerRowMaker(xs: seq<FullSale>): CustomerKey -> CustomerRow { k => CustomerRowOf(xs, k) }

  /** `get_top_customers`: `GROUP BY c.CustomerID, c.Name ORDER BY TotalSpent DESC`. */
  function TopCustomers(db: Db): (rows: seq<CustomerRow>)
    ensures SortedDesc(rows, CustomerRowSpent)
  {
    var xs := FullJoin(db);
    Report(xs, CustomerKeyOf, CustomerRowMaker(xs), CustomerRowSpent)
  }

  /** The number of sales of one customer: the size of its group. */
  lemma {:induction false} GroupCount<T, K>(xs: seq<T>, key: T -> K, f: T -> int, k: K)
    requires forall x :: f(x) == 1
    ensures GroupSum(xs, key, f, k) == |Select(xs, key, k)|
  {
    SumOfOnes(Select(xs, key, k), f);
  }

  lemma {:induction false} SumOfOnes<T>(xs: seq<T>, f: T -> int)
    requires forall x :: f(x) == 1
    ensures Sum(xs, f) == |xs|
  {
    if |xs| > 0 {
      SumOfOnes(xs[1..], f);
    }
  }

  /** One row per customer with sales; its transaction count is the number of that
      customer's joined sales, and the counts add up to the number of joined sales. */
  lemma TopCustomersSpec(db: Db)
    ensures var xs := FullJoin(db); var rows := TopCustomers(db);
      && KeyDistinct(rows, CustomerRowKey)
      && (forall r :: r in rows ==>
            && (exists i :: 0 <= i < |xs| && CustomerKeyOf(xs[i]) == CustomerRowKey(r))
            && r.totalTransactions == |Select(xs, CustomerKeyOf, CustomerRowKey(r))|
            && r.totalBooksBought == GroupSum(xs, CustomerKeyOf, FullQuantity, CustomerRowKey(r))
            && r.totalSpent == GroupSum(xs, CustomerKeyOf, FullRevenue, CustomerRowKey(r)))
      && (forall i :: 0 <= i < |xs| ==> exists r :: r in rows && CustomerRowKey(r) == CustomerKeyOf(xs[i]))
      && Sum(rows, CustomerRowCount) == |xs|
  {
    CustomerRowsFacts(FullJoin(db), TopCustomers(db));
  }

  lemma CustomerRowsFacts(xs: seq<FullSale>, rows: seq<CustomerRow>)
    requires GroupedBy(xs, CustomerKeyOf, CustomerRowMaker(xs), rows)
    ensures KeyDistinct(rows, CustomerRowKey)
    ensures forall r :: r in rows ==>
              && (exists i :: 0 <= i < |xs| && CustomerKeyOf(xs[i]) == CustomerRowKey(r))
              && r.totalTransactions == |Select(xs, CustomerKeyOf, CustomerRowKey(r))|
              && r.totalBooksBought == GroupSum(xs, CustomerKeyOf, FullQuantity, CustomerRowKey(r))
              && r.totalSpent == GroupSum(xs, CustomerKeyOf, FullRevenue, CustomerRowKey(r))
    ensures forall i :: 0 <= i < |xs| ==> exists r :: r in rows && CustomerRowKey(r) == CustomerKeyOf(xs[i])
    ensures Sum(rows, CustomerRowCount) == |xs|
  {
    var mk := CustomerRowMaker(xs);
    GroupRows(xs, CustomerKeyOf, mk, rows, CustomerRowKey);
    GroupRowsSum(xs, CustomerKeyOf, mk, rows, One, CustomerRowCount);
    SumOfOnes(xs, One);
    forall r | r in rows ensures r.totalTransactions == |Select(xs, CustomerKeyOf, CustomerRowKey(r))| {
      GroupCount(xs, CustomerKeyOf, One, CustomerRowKey(r));
    }
  }
}
