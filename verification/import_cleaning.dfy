/** The cleaning half of the sales import script (`clean_and_import_data` in
    `data/bookstore_data_cleaning.py`): whole-row de-duplication, column-name normalisation,
    default values for missing cells, clamping, date rewriting, the derived columns, the
    drop of rows missing a critical value, and the customer list with synthesised e-mail
    addresses. Writing to the database is not modelled.

    A raw row carries one cell for each column the script knows by its normalised name;
    `Layout` records which of those columns the file has. A column the file lacks is `None`
    in every cleaned row. */
module ImportCleaning {
  import opened Wrappers
  import opened Strings
  import opened Seqs
  import opened Stats
  import opened Dates

  /** `col.strip().lower().replace(' ', '_')`. */
  function NormalizeColumn(col: string): (r: string)
    ensures |r| <= |col|
    ensures forall k :: 0 <= k < |r| ==> r[k] != ' ' && !IsUpper(r[k])
    ensures |r| > 0 ==> !IsPySpace(r[0]) && !IsPySpace(r[|r| - 1])
    ensures r == [] <==> AllChars(col, IsPySpace)
  {
    var t := Trim(col, IsPySpace);
    TrimIsSlice(col, IsPySpace);
    TrimEmptyIff(col, IsPySpace);
    LowerReplaceFacts(t);
    ReplaceChar(Lower(t), ' ', '_')
  }

  lemma LowerReplaceFacts(t: string)
    ensures var r := ReplaceChar(Lower(t), ' ', '_');
      && |r| == |t|
      && (forall k :: 0 <= k < |r| ==> r[k] != ' ' && !IsUpper(r[k]))
      && (forall k :: 0 <= k < |t| && !IsPySpace(t[k]) ==> !IsPySpace(r[k]))
  {
    var u := Lower(t);
    var r := ReplaceChar(u, ' ', '_');
    forall k | 0 <= k < |t| ensures r[k] != ' ' && !IsUpper(r[k]) && (!IsPySpace(t[k]) ==> !IsPySpace(r[k])) {
      assert u[k] == LowerChar(t[k]);
    }
  }

  lemma TrimUnchanged(s: string)
    requires |s| > 0 ==> !IsPySpace(s[0]) && !IsPySpace(s[|s| - 1])
    ensures Trim(s, IsPySpace) == s
  {
  }

  lemma LowerUnchanged(s: string)
    requires forall k :: 0 <= k < |s| ==> !IsUpper(s[k])
    ensures Lower(s) == s
  {
  }

  lemma ReplaceUnchanged(s: string, a: char, b: char)
    requires forall k :: 0 <= k < |s| ==> s[k] != a
    ensures ReplaceChar(s, a, b) == s
  {
  }

  /** Normalising a normalised name changes nothing. */
  lemma NormalizeIdempotent(col: string)
    ensures NormalizeColumn(NormalizeColumn(col)) == NormalizeColumn(col)
  {
    var r := NormalizeColumn(col);
    TrimUnchanged(r);
    LowerUnchanged(r);
    ReplaceUnchanged(r, ' ', '_');
  }

  /** Whether the file has a column that normalises to `name`. */
  predicate Has(header: seq<string>, name: string) {
    name in Map(header, NormalizeColumn)
  }

  /** The columns the script looks for, and whether the file has each. */
  datatype Layout = Layout(title: bool, author: bool, price: bool, quantity: bool, date: bool,
                           customerName: bool, customerEmail: bool)

  function LayoutOf(header: seq<string>): Layout
  {
    Layout(Has(header, "title"), Has(header, "author"), Has(header, "price"),
           Has(header, "quantity"), Has(header, "date"),
           Has(header, "customer_name"), Has(header, "customer_email"))
  }

  /** A column counts as present exactly when some header cell normalises to its name. */
  lemma LayoutOfSpec(header: seq<string>)
    ensures var l := LayoutOf(header);
      && (l.price <==> exists i :: 0 <= i < |header| && NormalizeColumn(header[i]) == "price")
      && (l.title <==> exists i :: 0 <= i < |header| && NormalizeColumn(header[i]) == "title")
      && (l.author <==> exists i :: 0 <= i < |header| && NormalizeColumn(header[i]) == "author")
      && (l.quantity <==> exists i :: 0 <= i < |header| && NormalizeColumn(header[i]) == "quantity")
      && (l.date <==> exists i :: 0 <= i < |header| && NormalizeColumn(header[i]) == "date")
      && (l.customerName <==> exists i :: 0 <= i < |header| && NormalizeColumn(header[i]) == "customer_name")
      && (l.customerEmail <==> exists i :: 0 <= i < |header| && NormalizeColumn(header[i]) == "customer_email")
  {
  }

  /** A row as read from the file: a missing cell is `None`; `others` holds the cells of the
      columns the script does not name. Prices and quantities are numeric columns. */
  datatype RawRow = RawRow(title: Option<string>, author: Option<string>, price: Option<real>,
                           quantity: Option<real>, date: Option<string>,
                           customerName: Option<string>, customerEmail: Option<string>,
                           others: seq<Option<string>>)

  /** The cells of the row that the file actually has. */
  function Mask(l: Layout, r: RawRow): RawRow {
    RawRow(if l.title then r.title else None, if l.author then r.author else None,
           if l.price then r.price else None, if l.quantity then r.quantity else None,
           if l.date then r.date else None,
           if l.customerName then r.customerName else None,
           if l.customerEmail then r.customerEmail else None, r.others)
  }

  /** A row after cleaning; `None` for a column the file does not have. */
  datatype CleanRow = CleanRow(title: Option<string>, author: Option<string>, price: Option<real>,
                               quantity: Option<int>, date: Option<string>,
                               highValue: Option<bool>, totalAmount: Option<real>,
                               customerName: Option<string>, customerEmail: Option<string>,
                               others: seq<Option<string>>)

  /** Python `int(x)` on a float: truncation toward zero. */
  function Truncate(x: real): (n: int)
    ensures x >= 0.0 ==> n as real <= x < n as real + 1.0
    ensures x < 0.0 ==> n as real - 1.0 < x <= n as real
  {
    if x >= 0.0 then x.Floor else -((-x).Floor)
  }

  /** `fillna(1)` followed by `max(1, int(x))`. */
  function CleanQuantity(q: Option<real>): (n: int)
    ensures n >= 1
    ensures q.None? ==> n == 1
    ensures q.Some? && q.value < 1.0 ==> n == 1
    ensures q.Some? && q.value >= 1.0 ==> n as real <= q.value < n as real + 1.0
  {
    Max(1, Truncate(q.GetOr(1.0)))
  }

  /** A whole quantity of at least one passes through unchanged. */
  lemma CleanQuantityKeepsWhole(n: int)
    requires n >= 1
    ensures CleanQuantity(Some(n as real)) == n
  {
  }

  /** `fillna(median)`, then `to_numeric(errors='coerce')`, which leaves a numeric column
      as it is, then `max(0, x)`, and 0 for a value still missing (the median of a column
      with no value is itself missing). */
  function CleanPrice(p: Option<real>, median: Option<real>): (x: real)
    ensures x >= 0.0
    ensures p.Some? ==> x == (if p.value >= 0.0 then p.value else 0.0)
    ensures p.None? && median.Some? ==> x == (if median.value >= 0.0 then median.value else 0.0)
    ensures p.None? && median.None? ==> x == 0.0
  {
    match if p.Some? then p else median
    case None => 0.0
    case Some(v) => if v < 0.0 then 0.0 else v
  }

  /** `to_datetime(..., errors='coerce').dt.strftime('%Y-%m-%d')` and then `fillna(today)`.
      `parse` is how pandas reads the column's text (the format it infers); a day outside
      what a `Timestamp` can hold is `NaT` as well. */
  function CleanDate(cell: Option<string>, parse: string -> Option<Date>, today: string): (r: string)
    ensures r == today || (ParseIso(r).Some? && InTimestampRange(ParseIso(r).value))
    ensures cell.None? ==> r == today
  {
    if cell.None? then today
    else
      match parse(cell.value)
      case Some(d) =>
        if ValidDate(d) && InTimestampRange(d) then
          ParseRender(d);
          Render(d)
        else today
      case None => today
  }

  /** Text already written as an ISO date of the `Timestamp` span is kept as it is. */
  lemma CleanDateKeepsIso(s: string, today: string)
    requires ParseIso(s).Some? && InTimestampRange(ParseIso(s).value)
    ensures CleanDate(Some(s), ParseIso, today) == s
  {
    RenderParse(s);
  }

  /** Every price cell of a column, in row order. */
  function PriceColumn(rows: seq<RawRow>): seq<Option<real>> {
    Map(rows, (r: RawRow) => r.price)
  }

  /** One row through the fill, clamp, date and derived-column steps. */
  function CleanOne(l: Layout, median: Option<real>, parse: string -> Option<Date>, today: string,
                    r: RawRow): (c: CleanRow)
    ensures c.price.Some? <==> l.price
    ensures c.quantity.Some? <==> l.quantity
    ensures c.date.Some? <==> l.date
    ensures c.title.Some? <==> l.title
    ensures c.author.Some? <==> l.author
    ensures c.highValue.Some? <==> l.price
    ensures c.totalAmount.Some? <==> l.price && l.quantity
  {
    var price := CleanPrice(r.price, median);
    var quantity := CleanQuantity(r.quantity);
    CleanRow(if l.title then Some(r.title.GetOr("Unknown")) else None,
             if l.author then Some(r.author.GetOr("Unknown")) else None,
             if l.price then Some(price) else None,
             if l.quantity then Some(quantity) else None,
             if l.date then Some(CleanDate(r.date, parse, today)) else None,
             if l.price then Some(price > 50.0) else None,
             if l.price && l.quantity then Some(price * quantity as real) else None,
             if l.customerName then r.customerName else None,
             if l.customerEmail then r.customerEmail else None,
             r.others)
  }

  /** What the cleaned columns promise about every row. */
  predicate CleanFacts(c: CleanRow) {
    && (c.quantity.Some? ==> c.quantity.value >= 1)
    && (c.price.Some? ==> c.price.value >= 0.0 && c.highValue == Some(c.price.value > 50.0))
    && (c.totalAmount.Some? ==>
          c.price.Some? && c.quantity.Some? && c.totalAmount.value == c.price.value * c.quantity.value as real)
  }

  lemma CleanOneFacts(l: Layout, median: Option<real>, parse: string -> Option<Date>, today: string,
                      r: RawRow)
    ensures var c := CleanOne(l, median, parse, today, r);
      && CleanFacts(c)
      && c.others == r.others
      && (l.title ==> c.title == Some(r.title.GetOr("Unknown")))
      && (l.author ==> c.author == Some(r.author.GetOr("Unknown")))
  {
  }

  /** Why the script stops: `dropna` names a column the file does not have. */
  datatype Error = KeyError(missing: seq<string>) | AttributeError

  /** `dropna(subset=critical)`: drops the rows with a missing cell in any of the columns;
      naming a column the file lacks raises `KeyError`. */
  function DropMissing(l: Layout, rows: seq<CleanRow>): Result<seq<CleanRow>, Error> {
    if !l.price then Success(rows)
    else if !l.title || !l.author then
      Failure(KeyError((if l.title then [] else ["title"]) + (if l.author then [] else ["author"])))
    else Success(Filter(rows, (c: CleanRow) => c.title.Some? && c.author.Some? && c.price.Some?))
  }

  function Filter<T>(xs: seq<T>, keep: T -> bool): (r: seq<T>)
    ensures |r| <= |xs|
    ensures forall x :: x in r ==> x in xs && keep(x)
  {
    if |xs| == 0 then [] else (if keep(xs[0]) then [xs[0]] else []) + Filter(xs[1..], keep)
  }

  lemma {:induction false} FilterAll<T>(xs: seq<T>, keep: T -> bool)
    requires forall i :: 0 <= i < |xs| ==> keep(xs[i])
    ensures Filter(xs, keep) == xs
  {
    if |xs| > 0 {
      FilterAll(xs[1..], keep);
    }
  }

  /** The rows `drop_duplicates()` keeps: whole rows compare equal when every cell the file
      has is equal. */
  function Kept(l: Layout, rows: seq<RawRow>): seq<RawRow> {
    Dedup(rows, (r: RawRow) => Mask(l, r))
  }

  /** The kept rows through the per-column steps; the median is that of the kept rows. */
  function CleanRows(l: Layout, rows: seq<RawRow>, parse: string -> Option<Date>, today: string): seq<CleanRow> {
    var kept := Kept(l, rows);
    var median := ColumnMedian(PriceColumn(kept));
    Map(kept, Cleaner(l, median, parse, today))
  }

  function Cleaner(l: Layout, median: Option<real>, parse: string -> Option<Date>, today: string): RawRow -> CleanRow {
    (r: RawRow) => CleanOne(l, median, parse, today, r)
  }

  /** The whole cleaning pass of `clean_and_import_data`, up to the database import. */
  function CleanImport(header: seq<string>, rows: seq<RawRow>, parse: string -> Option<Date>,
                       today: string): Result<seq<CleanRow>, Error>
  {
    var l := LayoutOf(header);
    DropMissing(l, CleanRows(l, rows, parse, today))
  }

  /** The import fails exactly when the file has a price column but lacks the title or the
      author column. */
  lemma CleanImportFailsIff(header: seq<string>, rows: seq<RawRow>, parse: string -> Option<Date>,
                            today: string)
    ensures var l := LayoutOf(header);
      CleanImport(header, rows, parse, today).Failure? <==> l.price && !(l.title && l.author)
  {
  }

  /** When the import goes through, no row is dropped for a missing value. */
  lemma CleanImportDropsNothing(header: seq<string>, rows: seq<RawRow>, parse: string -> Option<Date>,
                                today: string)
    requires CleanImport(header, rows, parse, today).Success?
    ensures CleanImport(header, rows, parse, today).value == CleanRows(LayoutOf(header), rows, parse, today)
  {
    var l := LayoutOf(header);
    var cleaned := CleanRows(l, rows, parse, today);
    if l.price {
      FilterAll(cleaned, (c: CleanRow) => c.title.Some? && c.author.Some? && c.price.Some?);
    }
  }

  /** Every cleaned row obeys the cleaned-column facts, keeps the unnamed cells, and has
      `Unknown` in place of a missing title or author; row `i` comes from kept row `i`. */
  lemma CleanRowsSpec(l: Layout, rows: seq<RawRow>, parse: string -> Option<Date>, today: string)
    ensures var kept := Kept(l, rows);
      var cleaned := CleanRows(l, rows, parse, today);
      && |cleaned| == |kept|
      && (forall i :: 0 <= i < |kept| ==>
            CleanFacts(cleaned[i])
            && cleaned[i].others == kept[i].others
            && (l.title ==> cleaned[i].title == Some(kept[i].title.GetOr("Unknown")))
            && (l.author ==> cleaned[i].author == Some(kept[i].author.GetOr("Unknown"))))
  {
    var kept := Kept(l, rows);
    CleanedRows(l, kept, ColumnMedian(PriceColumn(kept)), parse, today);
  }

  lemma CleanedRows(l: Layout, kept: seq<RawRow>, median: Option<real>, parse: string -> Option<Date>,
                    today: string)
    ensures var cleaned := Map(kept, Cleaner(l, median, parse, today));
      forall i :: 0 <= i < |kept| ==>
        CleanFacts(cleaned[i])
        && cleaned[i].others == kept[i].others
        && (l.title ==> cleaned[i].title == Some(kept[i].title.GetOr("Unknown")))
        && (l.author ==> cleaned[i].author == Some(kept[i].author.GetOr("Unknown")))
  {
    var cleaned := Map(kept, Cleaner(l, median, parse, today));
    forall i | 0 <= i < |kept|
      ensures CleanFacts(cleaned[i])
        && cleaned[i].others == kept[i].others
        && (l.title ==> cleaned[i].title == Some(kept[i].title.GetOr("Unknown")))
        && (l.author ==> cleaned[i].author == Some(kept[i].author.GetOr("Unknown")))
    {
      assert cleaned[i] == CleanOne(l, median, parse, today, kept[i]);
      CleanOneFacts(l, median, parse, today, kept[i]);
    }
  }

  /** De-duplication compares the cells the file has: the kept rows are pairwise different
      and every raw row has an equal kept row. */
  lemma CleanImportDedup(header: seq<string>, rows: seq<RawRow>)
    ensures var l := LayoutOf(header);
      var kept := Kept(l, rows);
      && KeyDistinct(kept, (r: RawRow) => Mask(l, r))
      && (forall x :: x in rows ==> exists y :: y in kept && Mask(l, y) == Mask(l, x))
  {
    var l := LayoutOf(header);
    DedupSpec(rows, (r: RawRow) => Mask(l, r));
  }

  /** The placeholder address for a customer without one:
      `f"{name.lower().replace(' ', '.')}@example.com"`. */
  function DummyEmail(name: string): (r: string)
    ensures |r| == |name| + 12
    ensures r[|name|..] == "@example.com"
    ensures forall k :: 0 <= k < |name| ==>
      r[k] == (if LowerChar(name[k]) == ' ' then '.' else LowerChar(name[k]))
  {
    ReplaceChar(Lower(name), ' ', '.') + "@example.com"
  }

  /** Names that differ only in letter case, or in a space against a dot, get the same
      placeholder address. */
  lemma DummyEmailCollides()
    ensures DummyEmail("Ann Lee") == DummyEmail("ann.lee")
  {
    var e := "ann.lee";
    LowerSample();
    LowerSampleUnchanged();
    ReplaceSample();
    assert ReplaceChar(Lower("Ann Lee"), ' ', '.') == e;
    assert ReplaceChar(Lower("ann.lee"), ' ', '.') == e;
  }

  /** A Latin-1 capital is lower-cased as Python does it. */
  lemma DummyEmailAccented()
    ensures DummyEmail("\U{00C9}va") == "\U{00E9}va@example.com"
  {
    LowerAccented();
    ReplaceAccented();
    assert "\U{00E9}va" + "@example.com" == "\U{00E9}va@example.com";
  }

  lemma LowerAccented()
    ensures Lower("\U{00C9}va") == "\U{00E9}va"
  {
    var a, b := "\U{00C9}va", "\U{00E9}va";
    forall k | 0 <= k < |a| ensures LowerChar(a[k]) == b[k] {
    }
  }

  lemma ReplaceAccented()
    ensures ReplaceChar("\U{00E9}va", ' ', '.') == "\U{00E9}va"
  {
    var a := "\U{00E9}va";
    assert forall k :: 0 <= k < |a| ==> a[k] != ' ';
  }

  lemma LowerSample()
    ensures Lower("Ann Lee") == "ann lee"
  {
    var a, b := "Ann Lee", "ann lee";
    forall k | 0 <= k < |a| ensures LowerChar(a[k]) == b[k] {
    }
  }

  lemma LowerSampleUnchanged()
    ensures Lower("ann.lee") == "ann.lee"
  {
    var b := "ann.lee";
    forall k | 0 <= k < |b| ensures LowerChar(b[k]) == b[k] {
    }
  }

  lemma ReplaceSample()
    ensures ReplaceChar("ann lee", ' ', '.') == "ann.lee"
    ensures ReplaceChar("ann.lee", ' ', '.') == "ann.lee"
  {
    var a, b := "ann lee", "ann.lee";
    assert forall k :: 0 <= k < |a| ==> (if a[k] == ' ' then '.' else a[k]) == b[k];
    assert forall k :: 0 <= k < |b| ==> b[k] != ' ';
  }

  datatype Customer = Customer(name: Option<string>, email: Option<string>)

  /** The customers to import: one per distinct name, taken from its first row; the e-mail
      is that row's when the file has the column, and otherwise made up from the name, which
      fails (`AttributeError` on a missing name) when a kept name is missing. */
  function Customers(l: Layout, rows: seq<CleanRow>): Result<seq<Customer>, Error> {
    if !l.customerName then Success([])
    else
      var firsts := Dedup(rows, RowName);
      if l.customerEmail then Success(Map(firsts, WithEmail))
      else if exists i :: 0 <= i < |firsts| && firsts[i].customerName.None? then Failure(AttributeError)
      else Success(Map(firsts, WithDummyEmail))
  }

  function RowName(r: CleanRow): Option<string> { r.customerName }
  function NameOf(c: Customer): Option<string> { c.name }
  function WithEmail(r: CleanRow): Customer { Customer(r.customerName, r.customerEmail) }
  function WithDummyEmail(r: CleanRow): Customer {
    Customer(r.customerName, Some(DummyEmail(r.customerName.GetOr(""))))
  }

  /** The e-mail a customer made from row `r` gets. */
  function EmailFor(l: Layout, r: CleanRow): Option<string> {
    if l.customerEmail then r.customerEmail else Some(DummyEmail(r.customerName.GetOr("")))
  }

  /** Some customer of `cs` carries the name `n`. */
  ghost predicate HasCustomerNamed(cs: seq<Customer>, n: Option<string>) {
    exists j :: 0 <= j < |cs| && cs[j].name == n
  }

  /** `c` carries the name of a row of `rows` and the e-mail made from the first row with
      that name. */
  ghost predicate MadeFromFirstRow(l: Layout, rows: seq<CleanRow>, c: Customer) {
    exists r :: r in rows && r.customerName == c.name
      && FirstWithKey(rows, RowName, c.name) == Some(r) && c.email == EmailFor(l, r)
  }

  /** On success there is one customer per distinct name of the rows, each with the e-mail
      of the name's first row or the placeholder made from the name; the import fails
      exactly when the placeholder is needed for a row without a name. */
  lemma CustomersSpec(l: Layout, rows: seq<CleanRow>)
    requires l.customerName
    ensures var res := Customers(l, rows);
      && (res.Failure? <==> !l.customerEmail && exists i :: 0 <= i < |rows| && rows[i].customerName.None?)
      && (res.Success? ==>
        && KeyDistinct(res.value, NameOf)
        && (forall i :: 0 <= i < |rows| ==> HasCustomerNamed(res.value, rows[i].customerName))
        && (forall c :: c in res.value ==> MadeFromFirstRow(l, rows, c)))
  {
    var firsts := Dedup(rows, RowName);
    DedupSpec(rows, RowName);
    FirstsLackName(rows, firsts);
    var res := Customers(l, rows);
    if res.Success? {
      FirstsCustomers(l, rows, firsts, res.value);
    }
  }

  /** Some kept row lacks a name exactly when some row does: the first such row is kept. */
  lemma FirstsLackName(rows: seq<CleanRow>, firsts: seq<CleanRow>)
    requires forall y :: y in firsts ==> FirstWithKey(rows, RowName, RowName(y)) == Some(y)
    requires forall x :: x in rows ==> exists y :: y in firsts && RowName(y) == RowName(x)
    ensures (exists j :: 0 <= j < |firsts| && firsts[j].customerName.None?)
        <==> (exists i :: 0 <= i < |rows| && rows[i].customerName.None?)
  {
    if i :| 0 <= i < |rows| && rows[i].customerName.None? {
      assert rows[i] in rows;
      var y :| y in firsts && RowName(y) == RowName(rows[i]);
      var j :| 0 <= j < |firsts| && firsts[j] == y;
      assert firsts[j].customerName.None?;
    }
    if j :| 0 <= j < |firsts| && firsts[j].customerName.None? {
      assert firsts[j] in firsts;
      FirstWithKeyIn(rows, RowName, RowName(firsts[j]));
      var i :| 0 <= i < |rows| && rows[i] == firsts[j];
    }
  }

  /** Customers made from the first row of each name, with `mk` keeping the name. */
  lemma FirstsCustomers(l: Layout, rows: seq<CleanRow>, firsts: seq<CleanRow>,
                        cs: seq<Customer>)
    requires KeyDistinct(firsts, RowName)
    requires forall y :: y in firsts ==> FirstWithKey(rows, RowName, RowName(y)) == Some(y)
    requires forall x :: x in rows ==> exists y :: y in firsts && RowName(y) == RowName(x)
    requires |cs| == |firsts|
    requires forall j :: 0 <= j < |cs| ==> cs[j].name == firsts[j].customerName && cs[j].email == EmailFor(l, firsts[j])
    ensures KeyDistinct(cs, NameOf)
    ensures forall i :: 0 <= i < |rows| ==> HasCustomerNamed(cs, rows[i].customerName)
    ensures forall c :: c in cs ==> MadeFromFirstRow(l, rows, c)
  {
    DistinctNames(firsts, cs);
    NamesCovered(rows, firsts, cs);
    AllFromFirstRows(l, rows, firsts, cs);
  }

  /** Each customer is made from the row of `firsts` at its own position. */
  lemma AllFromFirstRows(l: Layout, rows: seq<CleanRow>, firsts: seq<CleanRow>, cs: seq<Customer>)
    requires forall y :: y in firsts ==> FirstWithKey(rows, RowName, RowName(y)) == Some(y)
    requires |cs| == |firsts|
    requires forall j :: 0 <= j < |cs| ==> cs[j].name == firsts[j].customerName && cs[j].email == EmailFor(l, firsts[j])
    ensures forall c :: c in cs ==> MadeFromFirstRow(l, rows, c)
  {
    forall c | c in cs ensures MadeFromFirstRow(l, rows, c) {
      var k :| 0 <= k < |cs| && cs[k] == c;
      assert firsts[k] in firsts;
      FromFirstRow(l, rows, firsts[k], c);
    }
  }

  /** Every row's name is carried by the customer made from the first row of that name. */
  lemma NamesCovered(rows: seq<CleanRow>, firsts: seq<CleanRow>, cs: seq<Customer>)
    requires forall x :: x in rows ==> exists y :: y in firsts && RowName(y) == RowName(x)
    requires |cs| == |firsts|
    requires forall j :: 0 <= j < |cs| ==> cs[j].name == firsts[j].customerName
    ensures forall i :: 0 <= i < |rows| ==> HasCustomerNamed(cs, rows[i].customerName)
  {
    forall i | 0 <= i < |rows| ensures HasCustomerNamed(cs, rows[i].customerName) {
      assert rows[i] in rows;
      var k :| 0 <= k < |firsts| && RowName(firsts[k]) == RowName(rows[i]);
      assert cs[k].name == rows[i].customerName;
    }
  }

  /** A customer with the name and e-mail of the first row of its name is made from it. */
  lemma FromFirstRow(l: Layout, rows: seq<CleanRow>, first: CleanRow, c: Customer)
    requires FirstWithKey(rows, RowName, RowName(first)) == Some(first)
    requires c.name == first.customerName && c.email == EmailFor(l, first)
    ensures MadeFromFirstRow(l, rows, c)
  {
    FirstWithKeyIn(rows, RowName, RowName(first));
  }

  /** Customers named after rows of distinct names have distinct names. */
  lemma DistinctNames(firsts: seq<CleanRow>, cs: seq<Customer>)
    requires KeyDistinct(firsts, RowName)
    requires |cs| == |firsts|
    requires forall j :: 0 <= j < |cs| ==> cs[j].name == firsts[j].customerName
    ensures KeyDistinct(cs, NameOf)
  {
    forall i, j | 0 <= i < j < |cs| ensures NameOf(cs[i]) != NameOf(cs[j]) {
      assert RowName(firsts[i]) != RowName(firsts[j]);
    }
  }
}
