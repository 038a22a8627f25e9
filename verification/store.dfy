/** The sales queries of the back end (`app/models/sales.py`) over an abstract store of the
    three tables. Joins are inner joins on the book and customer ids; prices are integer
    cents; rows come out in table order where the query has no `ORDER BY`. */
module Store {
  import opened Wrappers
  import opened Seqs
  import opened Grouping

  datatype Book = Book(id: int, title: string, author: string, price: int)
  datatype Customer = Customer(id: int, name: string, email: string)
  datatype Sale = Sale(id: int, bookId: int, customerId: int, date: string, quantity: int)

  /** The three tables and the highest sale id handed out so far (`sqlite_sequence`). */
  datatype Db = Db(books: seq<Book>, customers: seq<Customer>, sales: seq<Sale>, lastSaleId: int)

  function BookId(b: Book): int { b.id }
  function CustomerId(c: Customer): int { c.id }
  function SaleId(s: Sale): int { s.id }

  /** The primary keys are unique, and no sale id exceeds the last one handed out. */
  ghost predicate Keyed(db: Db) {
    && KeyDistinct(db.books, BookId)
    && KeyDistinct(db.customers, CustomerId)
    && KeyDistinct(db.sales, SaleId)
    && forall i :: 0 <= i < |db.sales| ==> db.sales[i].id <= db.lastSaleId
  }

  function FindBook(books: seq<Book>, id: int): (r: Option<Book>)
    ensures r.Some? ==> r.value in books && r.value.id == id
    ensures r.None? <==> forall i :: 0 <= i < |books| ==> books[i].id != id
  {
    if |books| == 0 then None
    else if books[0].id == id then Some(books[0])
    else FindBook(books[1..], id)
  }

  function FindCustomer(customers: seq<Customer>, id: int): (r: Option<Customer>)
    ensures r.Some? ==> r.value in customers && r.value.id == id
    ensures r.None? <==> forall i :: 0 <= i < |customers| ==> customers[i].id != id
  {
    if |customers| == 0 then None
    else if customers[0].id == id then Some(customers[0])
    else FindCustomer(customers[1..], id)
  }

  /** A row of `get_all_sales` and `get_sale_by_id`. */
  datatype SaleDetail = SaleDetail(saleId: int, bookId: int, bookTitle: string, bookPrice: int,
                                   customerId: int, customerName: string, date: string,
                                   quantity: int, totalAmount: int)

  /** The joined row of one sale, if both its book and its customer exist. */
  function Detail(db: Db, s: Sale): (r: Option<SaleDetail>)
    ensures r.Some? <==> FindBook(db.books, s.bookId).Some? && FindCustomer(db.customers, s.customerId).Some?
    ensures r.Some? ==>
      && r.value.saleId == s.id && r.value.bookId == s.bookId
      && r.value.customerId == s.customerId && r.value.date == s.date && r.value.quantity == s.quantity
      && r.value.totalAmount == s.quantity * r.value.bookPrice
    ensures r.Some? ==>
      && r.value.bookTitle == FindBook(db.books, s.bookId).value.title
      && r.value.bookPrice == FindBook(db.books, s.bookId).value.price
      && r.value.customerName == FindCustomer(db.customers, s.customerId).value.name
  {
    match (FindBook(db.books, s.bookId), FindCustomer(db.customers, s.customerId))
    case (Some(b), Some(c)) =>
      Some(SaleDetail(s.id, s.bookId, b.title, b.price, s.customerId, c.name, s.date,
                      s.quantity, s.quantity * b.price))
    case _ => None
  }

  /** The joined rows of some sales, in order. */
  function Details(db: Db, sales: seq<Sale>): (r: seq<SaleDetail>)
    ensures |r| <= |sales|
    ensures forall d :: d in r <==> exists s :: s in sales && Detail(db, s) == Some(d)
  {
    if |sales| == 0 then []
    else
      var rest := Details(db, sales[1..]);
      assert forall s :: s in sales <==> s == sales[0] || s in sales[1..];
      match Detail(db, sales[0])
      case Some(d) => [d] + rest
      case None => rest
  }

  /** `get_all_sales`: the sales whose book and customer both exist, joined. */
  function AllSales(db: Db): seq<SaleDetail> {
    Details(db, db.sales)
  }

  /** Every returned row charges quantity times the book's price, and a sale appears exactly
      when both its book and its customer exist. */
  lemma AllSalesSpec(db: Db)
    ensures forall d :: d in AllSales(db) ==> d.totalAmount == d.quantity * d.bookPrice
    ensures forall s :: s in db.sales ==>
      ((exists d :: d in AllSales(db) && d.saleId == s.id && d.bookId == s.bookId
                    && d.customerId == s.customerId && d.date == s.date && d.quantity == s.quantity)
       <== (FindBook(db.books, s.bookId).Some? && FindCustomer(db.customers, s.customerId).Some?))
    ensures forall d :: d in AllSales(db) ==>
      && FindBook(db.books, d.bookId).Some? && FindCustomer(db.customers, d.customerId).Some?
      && d.bookTitle == FindBook(db.books, d.bookId).value.title
      && d.bookPrice == FindBook(db.books, d.bookId).value.price
      && d.customerName == FindCustomer(db.customers, d.customerId).value.name
  {
    forall s | s in db.sales && FindBook(db.books, s.bookId).Some? && FindCustomer(db.customers, s.customerId).Some?
      ensures exists d :: d in AllSales(db) && d.saleId == s.id && d.bookId == s.bookId
                    && d.customerId == s.customerId && d.date == s.date && d.quantity == s.quantity
    {
      assert Detail(db, s).value in AllSales(db);
    }
  }

  /** Joining keeps the sale id, so unique sale ids stay unique. */
  lemma {:induction false} DetailsKeyDistinct(db: Db, sales: seq<Sale>)
    requires KeyDistinct(sales, SaleId)
    ensures KeyDistinct(Details(db, sales), DetailId)
  {
    if |sales| > 0 {
      TailKeyDistinct(sales);
      DetailsKeyDistinct(db, sales[1..]);
      if Detail(db, sales[0]).Some? {
        HeadDetailDistinct(db, sales, Detail(db, sales[0]).value);
      }
    }
  }

  lemma TailKeyDistinct(sales: seq<Sale>)
    requires |sales| > 0 && KeyDistinct(sales, SaleId)
    ensures KeyDistinct(sales[1..], SaleId)
  {
    var tail := sales[1..];
    forall i, j | 0 <= i < j < |tail| ensures tail[i].id != tail[j].id {
      assert tail[i] == sales[i + 1] && tail[j] == sales[j + 1];
    }
  }

  /** The first sale's joined row has an id that no later joined row shares. */
  lemma HeadDetailDistinct(db: Db, sales: seq<Sale>, d: SaleDetail)
    requires |sales| > 0 && KeyDistinct(sales, SaleId) && Detail(db, sales[0]) == Some(d)
    requires KeyDistinct(Details(db, sales[1..]), DetailId)
    ensures KeyDistinct([d] + Details(db, sales[1..]), DetailId)
  {
    var rest := Details(db, sales[1..]);
    HeadIdUnused(db, sales, d);
    ConsKeyDistinct(d, rest);
  }

  lemma HeadIdUnused(db: Db, sales: seq<Sale>, d: SaleDetail)
    requires |sales| > 0 && KeyDistinct(sales, SaleId) && Detail(db, sales[0]) == Some(d)
    ensures forall e :: e in Details(db, sales[1..]) ==> e.saleId != d.saleId
  {
    var tail := sales[1..];
    forall e | e in Details(db, tail) ensures e.saleId != d.saleId {
      var q := DetailFrom(db, tail, e);
      assert tail[q] == sales[q + 1] && SaleId(sales[0]) != SaleId(sales[q + 1]);
    }
  }

  lemma ConsKeyDistinct(d: SaleDetail, rest: seq<SaleDetail>)
    requires KeyDistinct(rest, DetailId)
    requires forall e :: e in rest ==> e.saleId != d.saleId
    ensures KeyDistinct([d] + rest, DetailId)
  {
    var r := [d] + rest;
    forall i, j | 0 <= i < j < |r| ensures r[i].saleId != r[j].saleId {
      assert r[j] == rest[j - 1];
      if i > 0 {
        assert r[i] == rest[i - 1];
      }
    }
  }

  function DetailId(d: SaleDetail): int { d.saleId }

  /** Every joined row comes from a sale with its id. */
  lemma DetailFrom(db: Db, sales: seq<Sale>, d: SaleDetail) returns (q: int)
    requires d in Details(db, sales)
    ensures 0 <= q < |sales| && sales[q].id == d.saleId
  {
    var s :| s in sales && Detail(db, s) == Some(d);
    q :| 0 <= q < |sales| && sales[q] == s;
  }

  /** `get_sale_by_id`: the first joined row with that sale id, or nothing. */
  function SaleById(db: Db, id: int): (r: Option<SaleDetail>)
    ensures r.Some? ==> r.value.saleId == id && r.value in AllSales(db)
    ensures r.None? <==> forall d :: d in AllSales(db) ==> d.saleId != id
  {
    FirstDetail(AllSales(db), id)
  }

  function FirstDetail(ds: seq<SaleDetail>, id: int): (r: Option<SaleDetail>)
    ensures r.Some? ==> r.value.saleId == id && r.value in ds
    ensures r.None? <==> forall d :: d in ds ==> d.saleId != id
  {
    if |ds| == 0 then None
    else if ds[0].saleId == id then Some(ds[0])
    else
      assert forall d :: d in ds <==> d == ds[0] || d in ds[1..];
      FirstDetail(ds[1..], id)
  }

  /** With unique sale ids the row found is the only joined row with that id. */
  lemma SaleByIdOnly(db: Db, id: int)
    requires Keyed(db)
    ensures forall d :: d in AllSales(db) && d.saleId == id ==> SaleById(db, id) == Some(d)
  {
    var all := AllSales(db);
    DetailsKeyDistinct(db, db.sales);
    forall d | d in all && d.saleId == id ensures SaleById(db, id) == Some(d) {
      var e := SaleById(db, id).value;
      var i :| 0 <= i < |all| && all[i] == d;
      var j :| 0 <= j < |all| && all[j] == e;
      assert DetailId(all[i]) == DetailId(all[j]);
    }
  }

  /** `update_sale`: sets the four fields of every sale with that id and reports whether
      one matched. The book and customer ids are not checked against their tables. */
  function UpdateSale(db: Db, id: int, bookId: int, customerId: int, date: string, quantity: int): (r: (Db, bool))
    ensures r.1 <==> exists i :: 0 <= i < |db.sales| && db.sales[i].id == id
    ensures r.0.books == db.books && r.0.customers == db.customers && r.0.lastSaleId == db.lastSaleId
    ensures |r.0.sales| == |db.sales|
    ensures forall i :: 0 <= i < |db.sales| ==>
      r.0.sales[i] == (if db.sales[i].id == id then Sale(id, bookId, customerId, date, quantity) else db.sales[i])
  {
    var sales := Map(db.sales, (s: Sale) => if s.id == id then Sale(id, bookId, customerId, date, quantity) else s);
    (db.(sales := sales), exists i :: 0 <= i < |db.sales| && db.sales[i].id == id)
  }

  /** `delete_sale`: removes every sale with that id and reports whether one matched. */
  function DeleteSale(db: Db, id: int): (r: (Db, bool))
    ensures r.1 <==> exists i :: 0 <= i < |db.sales| && db.sales[i].id == id
    ensures r.0.books == db.books && r.0.customers == db.customers && r.0.lastSaleId == db.lastSaleId
    ensures forall s :: s in r.0.sales <==> s in db.sales && s.id != id
    ensures IsSubseq(r.0.sales, db.sales)
  {
    (db.(sales := Without(db.sales, id)), exists i :: 0 <= i < |db.sales| && db.sales[i].id == id)
  }

  /** The sales whose id is not `id`, in order. */
  function Without(sales: seq<Sale>, id: int): (r: seq<Sale>)
    ensures forall s :: s in r <==> s in sales && s.id != id
    ensures IsSubseq(r, sales)
    ensures |r| <= |sales|
  {
    if |sales| == 0 then []
    else
      var rest := Without(sales[1..], id);
      assert forall s :: s in sales <==> s == sales[0] || s in sales[1..];
      if sales[0].id == id then rest else [sales[0]] + rest
  }

  /** With unique ids, deleting an existing sale removes exactly one row. */
  lemma {:induction false} WithoutOne(sales: seq<Sale>, id: int)
    requires KeyDistinct(sales, SaleId)
    ensures |Without(sales, id)| == |sales| - (if exists i :: 0 <= i < |sales| && sales[i].id == id then 1 else 0)
  {
    if |sales| > 0 {
      assert KeyDistinct(sales[1..], SaleId) by {
        forall i, j | 0 <= i < j < |sales[1..]| ensures sales[1..][i].id != sales[1..][j].id {
          assert sales[1..][i] == sales[i + 1] && sales[1..][j] == sales[j + 1];
        }
      }
      WithoutOne(sales[1..], id);
      if sales[0].id == id {
        forall i | 0 <= i < |sales[1..]| ensures sales[1..][i].id != id {
          assert sales[1..][i] == sales[i + 1];
        }
      } else {
        assert (exists i :: 0 <= i < |sales| && sales[i].id == id)
           <==> (exists i :: 0 <= i < |sales[1..]| && sales[1..][i].id == id) by {
          forall i | 0 <= i < |sales[1..]| ensures sales[1..][i] == sales[i + 1] {}
          if exists i :: 0 <= i < |sales| && sales[i].id == id {
            var i :| 0 <= i < |sales| && sales[i].id == id;
            assert sales[1..][i - 1].id == id;
          }
        }
      }
    }
  }

  /** After a delete the sale is not found, whatever was there before. */
  lemma DeleteThenGet(db: Db, id: int)
    ensures SaleById(DeleteSale(db, id).0, id).None?
  {
    var db' := DeleteSale(db, id).0;
    forall d | d in AllSales(db') ensures d.saleId != id {
      var s :| s in db'.sales && Detail(db', s) == Some(d);
    }
  }

  /** After an update of an existing sale, reading it gives the new values, provided the
      new book and customer exist; if either is missing the sale drops out of every joined
      query. */
  lemma UpdateThenGet(db: Db, id: int, bookId: int, customerId: int, date: string, quantity: int)
    requires Keyed(db)
    requires exists i :: 0 <= i < |db.sales| && db.sales[i].id == id
    ensures var db' := UpdateSale(db, id, bookId, customerId, date, quantity).0;
      var r := SaleById(db', id);
      && (r.Some? <==> FindBook(db.books, bookId).Some? && FindCustomer(db.customers, customerId).Some?)
      && (r.Some? ==> r.value.bookId == bookId && r.value.customerId == customerId
                      && r.value.date == date && r.value.quantity == quantity)
  {
    var db' := UpdateSale(db, id, bookId, customerId, date, quantity).0;
    var s := Sale(id, bookId, customerId, date, quantity);
    var i :| 0 <= i < |db.sales| && db.sales[i].id == id;
    assert db'.sales[i] == s;
    forall d | d in AllSales(db') && d.saleId == id
      ensures d.bookId == bookId && d.customerId == customerId && d.date == date && d.quantity == quantity
    {
      var t :| t in db'.sales && Detail(db', t) == Some(d);
      var j :| 0 <= j < |db'.sales| && db'.sales[j] == t;
      assert t == s;
    }
    if FindBook(db.books, bookId).Some? && FindCustomer(db.customers, customerId).Some? {
      assert Detail(db', s).value in AllSales(db');
    }
  }

  /** `add_sale`: appends a sale under the next id and returns that id; the id comes from
      the `AUTOINCREMENT` counter. */
  function AddSale(db: Db, bookId: int, customerId: int, date: string, quantity: int): (r: (Db, int))
    ensures r.1 == db.lastSaleId + 1 && r.0.lastSaleId == r.1
    ensures r.0.sales == db.sales + [Sale(r.1, bookId, customerId, date, quantity)]
    ensures r.0.books == db.books && r.0.customers == db.customers
  {
    var id := db.lastSaleId + 1;
    (db.(sales := db.sales + [Sale(id, bookId, customerId, date, quantity)], lastSaleId := id), id)
  }

  /** Adding keeps the keys unique, and the new sale can be read back exactly when its book
      and customer exist. */
  lemma AddThenGet(db: Db, bookId: int, customerId: int, date: string, quantity: int)
    requires Keyed(db)
    ensures var (db', id) := AddSale(db, bookId, customerId, date, quantity);
      && Keyed(db')
      && (SaleById(db', id).Some? <==> FindBook(db.books, bookId).Some? && FindCustomer(db.customers, customerId).Some?)
  {
    var (db', id) := AddSale(db, bookId, customerId, date, quantity);
    var s := Sale(id, bookId, customerId, date, quantity);
    assert db'.sales[|db.sales|] == s;
    forall d | d in AllSales(db') && d.saleId == id ensures d.bookId == bookId && d.customerId == customerId {
      var t :| t in db'.sales && Detail(db', t) == Some(d);
      var j :| 0 <= j < |db'.sales| && db'.sales[j] == t;
      assert t == s;
    }
    if FindBook(db.books, bookId).Some? && FindCustomer(db.customers, customerId).Some? {
      assert Detail(db', s).value in AllSales(db');
    }
  }

  /** A sale joined with its book (`Sales s JOIN Books b ON s.BookID = b.BookID`). */
  datatype BookSale = BookSale(sale: Sale, book: Book)

  /** A sale joined with its customer and its book. */
  datatype FullSale = FullSale(sale: Sale, customer: Customer, book: Book)

  function BookJoinOf(db: Db, sales: seq<Sale>): (r: seq<BookSale>)
    ensures |r| <= |sales|
    ensures forall x :: x in r <==> x.sale in sales && FindBook(db.books, x.sale.bookId) == Some(x.book)
  {
    if |sales| == 0 then []
    else
      var rest := BookJoinOf(db, sales[1..]);
      assert forall s :: s in sales <==> s == sales[0] || s in sales[1..];
      match FindBook(db.books, sales[0].bookId)
      case Some(b) => [BookSale(sales[0], b)] + rest
      case None => rest
  }

  /** The sales that have a book, each with it. */
  function BookJoin(db: Db): seq<BookSale> {
    BookJoinOf(db, db.sales)
  }

  function FullJoinOf(db: Db, sales: seq<Sale>): (r: seq<FullSale>)
    ensures |r| <= |sales|
    ensures forall x :: x in r <==>
      x.sale in sales && FindBook(db.books, x.sale.bookId) == Some(x.book)
      && FindCustomer(db.customers, x.sale.customerId) == Some(x.customer)
  {
    if |sales| == 0 then []
    else
      var rest := FullJoinOf(db, sales[1..]);
      assert forall s :: s in sales <==> s == sales[0] || s in sales[1..];
      match (FindBook(db.books, sales[0].bookId), FindCustomer(db.customers, sales[0].customerId))
      case (Some(b), Some(c)) => [FullSale(sales[0], c, b)] + rest
      case _ => rest
  }

  /** The sales that have both a customer and a book, each with them. */
  function FullJoin(db: Db): seq<FullSale> {
    FullJoinOf(db, db.sales)
  }

  function Quantity(x: BookSale): int { x.sale.quantity }
  function Revenue(x: BookSale): int { x.sale.quantity * x.book.price }
  function FullQuantity(x: FullSale): int { x.sale.quantity }
  function FullRevenue(x: FullSale): int { x.sale.quantity * x.book.price }
}
