/** The stand-alone sales cleaning script (`bookstore_data_cleaning.py`): de-duplication on
    (BookID, CustomerID, Quantity, Date) keeping the first row, missing prices filled with the
    mean price, missing quantities filled with 1, and the `High_Value_Purchase` flag. */
module SalesCleaning {
  import opened Wrappers
  import opened Seqs
  import opened Stats

  /** A row of the raw sales file; a missing cell is `None`. `others` holds the columns the
      script does not name. */
  datatype SaleRow = SaleRow(bookId: Option<real>, customerId: Option<real>, quantity: Option<real>,
                             date: Option<string>, price: Option<real>, others: seq<Option<string>>)

  /** The columns duplicates are judged on. */
  datatype SaleKey = SaleKey(bookId: Option<real>, customerId: Option<real>, quantity: Option<real>,
                             date: Option<string>)

  function KeyOf(r: SaleRow): SaleKey {
    SaleKey(r.bookId, r.customerId, r.quantity, r.date)
  }

  /** A cleaned row. The price stays missing only when no row has a price. */
  datatype CleanSale = CleanSale(bookId: Option<real>, customerId: Option<real>, quantity: real,
                                 date: Option<string>, price: Option<real>, highValue: bool,
                                 others: seq<Option<string>>)

  /** `drop_duplicates(subset=["BookID", "CustomerID", "Quantity", "Date"])`. */
  function Deduplicated(rows: seq<SaleRow>): seq<SaleRow> {
    Dedup(rows, KeyOf)
  }

  function Prices(rows: seq<SaleRow>): seq<Option<real>> {
    Map(rows, (r: SaleRow) => r.price)
  }

  /** `fillna(mean)` on the price, `fillna(1)` on the quantity, then `Price > 40`, which is
      false for a missing price. */
  function CleanOne(mean: Option<real>, r: SaleRow): CleanSale {
    var price := if r.price.Some? then r.price else mean;
    CleanSale(r.bookId, r.customerId, r.quantity.GetOr(1.0), r.date, price,
              price.Some? && price.value > 40.0, r.others)
  }

  /** The whole script between reading and writing the file. */
  function CleanSales(rows: seq<SaleRow>): seq<CleanSale> {
    var kept := Deduplicated(rows);
    var mean := ColumnMean(Prices(kept));
    Map(kept, (r: SaleRow) => CleanOne(mean, r))
  }

  /** De-duplication keeps, in file order, the first row of every key, and no two kept rows
      share a key. */
  lemma DeduplicatedSpec(rows: seq<SaleRow>)
    ensures var kept := Deduplicated(rows);
      && KeyDistinct(kept, KeyOf)
      && IsSubseq(kept, rows)
      && (forall y :: y in kept ==> FirstWithKey(rows, KeyOf, KeyOf(y)) == Some(y))
      && (forall x :: x in rows ==> exists y :: y in kept && KeyOf(y) == KeyOf(x))
  {
    DedupSpec(rows, KeyOf);
  }

  /** Row `i` of the output is kept row `i` with its present cells unchanged, a missing
      quantity made 1, a missing price made the mean of the kept rows' prices, and the flag
      set exactly when the price is above 40. */
  lemma CleanSalesSpec(rows: seq<SaleRow>)
    ensures var kept := Deduplicated(rows);
      var out := CleanSales(rows);
      var mean := ColumnMean(Prices(kept));
      && |out| == |kept|
      && (forall i :: 0 <= i < |kept| ==>
            && out[i].bookId == kept[i].bookId && out[i].customerId == kept[i].customerId
            && out[i].date == kept[i].date && out[i].others == kept[i].others
            && (kept[i].quantity.Some? ==> out[i].quantity == kept[i].quantity.value)
            && (kept[i].quantity.None? ==> out[i].quantity == 1.0)
            && (kept[i].price.Some? ==> out[i].price == kept[i].price)
            && (kept[i].price.None? ==> out[i].price == mean)
            && (out[i].highValue <==> out[i].price.Some? && out[i].price.value > 40.0))
  {
  }

  /** A filled-in price lies between the lowest and the highest price present, and it is
      missing only when no kept row has a price. */
  lemma FilledPriceBetween(rows: seq<SaleRow>, i: int)
    requires 0 <= i < |Deduplicated(rows)| && Deduplicated(rows)[i].price.None?
    ensures var kept := Deduplicated(rows);
      var p := CleanSales(rows)[i].price;
      && (p.None? <==> forall j :: 0 <= j < |kept| ==> kept[j].price.None?)
      && (p.Some? ==>
            exists j, k :: (0 <= j < |kept| && 0 <= k < |kept|
              && kept[j].price.Some? && kept[k].price.Some?
              && kept[j].price.value <= p.value <= kept[k].price.value))
  {
    var kept := Deduplicated(rows);
    var col := Prices(kept);
    var xs := Present(col);
    var p := CleanSales(rows)[i].price;
    assert p == ColumnMean(col);
    forall j | 0 <= j < |kept| && kept[j].price.Some? ensures kept[j].price.value in xs {
      assert col[j] == kept[j].price;
    }
    if |xs| > 0 {
      var lo, hi := xs[ArgMin(xs)], xs[ArgMax(xs)];
      MeanBetween(xs);
      assert lo in xs && hi in xs;
      var j := PresentAt(col, lo);
      var k := PresentAt(col, hi);
      assert kept[j].price == Some(lo) && kept[k].price == Some(hi);
    }
  }

  /** A present value sits in some cell of the column. */
  lemma PresentAt(col: seq<Option<real>>, x: real) returns (j: int)
    requires x in Present(col)
    ensures 0 <= j < |col| && col[j] == Some(x)
  {
    assert Some(x) in col;
    j :| 0 <= j < |col| && col[j] == Some(x);
  }

  /** Filling a missing quantity after de-duplication can make two kept rows agree on the
      de-duplication key, so the written file may repeat a key. */
  lemma FilledQuantityMayRepeatKey()
    ensures var rows := [SaleRow(Some(1.0), Some(2.0), None, Some("2023-01-05"), Some(10.0), []),
                         SaleRow(Some(1.0), Some(2.0), Some(1.0), Some("2023-01-05"), Some(10.0), [])];
      var out := CleanSales(rows);
      && |out| == 2
      && out[0].bookId == out[1].bookId && out[0].customerId == out[1].customerId
      && out[0].quantity == out[1].quantity && out[0].date == out[1].date
  {
    var rows := [SaleRow(Some(1.0), Some(2.0), None, Some("2023-01-05"), Some(10.0), []),
                 SaleRow(Some(1.0), Some(2.0), Some(1.0), Some("2023-01-05"), Some(10.0), [])];
    var k0 := KeyOf(rows[0]);
    assert k0 != KeyOf(rows[1]);
    assert rows[1..] == [rows[1]] && rows[1..][1..] == [];
    assert DedupFrom(rows[1..], KeyOf, {k0}) == [rows[1]] + DedupFrom([], KeyOf, {k0, KeyOf(rows[1])});
    var none: set<SaleKey> := {};
    assert none + {k0} == {k0};
    assert Deduplicated(rows) == DedupFrom(rows, KeyOf, none);
    assert DedupFrom(rows, KeyOf, none) == [rows[0]] + DedupFrom(rows[1..], KeyOf, {k0});
  }
}
