/** The form handling of the sales, books and customers pages: what `validateQuantity`
    writes back into the quantity input, which submissions the save and update handlers
    accept, the payload they send, and the option lists of the sale form's dropdowns.
    Form fields are the raw text of the inputs; a rejected submission is `None`. */
module Forms {
  import opened Wrappers
  import opened Strings
  import opened Numbers

  // ---------------------------------------------------------------- quantity input

  /** `validateQuantity`: the text left in the quantity input after an edit. A value that
      does not parse, or parses below 1, is replaced by 1; otherwise the parsed integer is
      written back (`Math.floor` leaves an integer alone). */
  function ValidateQuantity(value: string): (r: string)
    ensures ParseInt(r).Some? && ParseInt(r).value >= 1
    ensures ParseInt(value).None? || ParseInt(value).value < 1 ==> ParseInt(r) == Some(1)
    ensures ParseInt(value).Some? && ParseInt(value).value >= 1 ==> ParseInt(r) == ParseInt(value)
  {
    match ParseInt(value)
    case Some(v) =>
      if v < 1 then
        ParseIntRoundTrip(1);
        IntToString(1)
      else
        ParseIntRoundTrip(v);
        IntToString(v)
    case None =>
      ParseIntRoundTrip(1);
      IntToString(1)
  }

  /** Running the validator again changes nothing. */
  lemma ValidateQuantityIdempotent(value: string)
    ensures ValidateQuantity(ValidateQuantity(value)) == ValidateQuantity(value)
  {
  }

  /** The decimal text of a whole number of at least 1 is left as it is. */
  lemma ValidateQuantityKeepsWhole(n: int)
    requires n >= 1
    ensures ValidateQuantity(IntToString(n)) == IntToString(n)
  {
    ParseIntRoundTrip(n);
  }

  // ---------------------------------------------------------------- sales form

  /** The four inputs of the new-sale and edit-sale forms. */
  datatype SaleForm = SaleForm(bookId: string, customerId: string, date: string, quantity: string)

  /** The object `saveSale` and `updateSale` send. */
  datatype SalePayload = SalePayload(bookId: int, customerId: int, date: string, quantity: int)

  /** What an edit submits: the sale id from the hidden input and the new fields. */
  datatype SaleUpdate = SaleUpdate(id: string, sale: SalePayload)

  /** JavaScript truthiness of a `parseInt` result: `NaN` and `0` are falsy. */
  predicate Truthy(v: Option<int>) {
    v.Some? && v.value != 0
  }

  /** `saveSale`: the three numeric fields through `parseInt`, the date as typed; the
      submission is refused when any of them is falsy. */
  function SaveSale(f: SaleForm): (r: Option<SalePayload>)
    ensures r.Some? <==> (Truthy(ParseInt(f.bookId)) && Truthy(ParseInt(f.customerId))
                          && f.date != "" && Truthy(ParseInt(f.quantity)))
    ensures r.Some? ==> r.value.bookId != 0 && r.value.customerId != 0 && r.value.quantity != 0
    ensures r.Some? ==> r.value == SalePayload(ParseInt(f.bookId).value, ParseInt(f.customerId).value,
                                               f.date, ParseInt(f.quantity).value)
  {
    var bookId := ParseInt(f.bookId);
    var customerId := ParseInt(f.customerId);
    var quantity := ParseInt(f.quantity);
    if !Truthy(bookId) || !Truthy(customerId) || f.date == "" || !Truthy(quantity) then None
    else Some(SalePayload(bookId.value, customerId.value, f.date, quantity.value))
  }

  /** `updateSale`: the same reading and rule as `saveSale`, with the id of the edited sale. */
  function UpdateSale(id: string, f: SaleForm): Option<SaleUpdate> {
    var bookId := ParseInt(f.bookId);
    var customerId := ParseInt(f.customerId);
    var quantity := ParseInt(f.quantity);
    if !Truthy(bookId) || !Truthy(customerId) || f.date == "" || !Truthy(quantity) then None
    else Some(SaleUpdate(id, SalePayload(bookId.value, customerId.value, f.date, quantity.value)))
  }

  /** The edit form accepts exactly what the new-sale form accepts, with the same payload. */
  lemma UpdateSaleLikeSave(id: string, f: SaleForm)
    ensures UpdateSale(id, f).Some? <==> SaveSale(f).Some?
    ensures UpdateSale(id, f).Some? ==> UpdateSale(id, f).value == SaleUpdate(id, SaveSale(f).value)
  {
  }

  /** A form filled with the decimal text of a sale's fields yields exactly that sale,
      provided no numeric field is 0 and the date is not empty. */
  lemma SaveSaleRoundTrip(p: SalePayload)
    requires p.bookId != 0 && p.customerId != 0 && p.quantity != 0 && p.date != ""
    ensures SaveSale(SaleForm(IntToString(p.bookId), IntToString(p.customerId), p.date,
                              IntToString(p.quantity))) == Some(p)
  {
    ParseIntRoundTrip(p.bookId);
    ParseIntRoundTrip(p.customerId);
    ParseIntRoundTrip(p.quantity);
  }

  /** Once `validateQuantity` has run on the quantity input, the quantity never stops a
      submission: acceptance depends on the two ids and the date alone. */
  lemma ValidatedQuantityAccepted(f: SaleForm)
    ensures var g := f.(quantity := ValidateQuantity(f.quantity));
      SaveSale(g).Some? <==> Truthy(ParseInt(f.bookId)) && Truthy(ParseInt(f.customerId)) && f.date != ""
  {
  }

  // ---------------------------------------------------------------- books form

  /** The three inputs of the add-book and edit-book forms. */
  datatype BookForm = BookForm(title: string, author: string, price: string)

  /** The object `saveBook` and `updateBook` send. */
  datatype BookPayload = BookPayload(title: string, author: string, price: JsNumber)

  /** What an edit submits: the book id from the hidden input and the new fields. */
  datatype BookUpdate = BookUpdate(id: string, book: BookPayload)

  /** Text with white space on neither end, as `trim` leaves it. */
  predicate Trimmed(s: string) {
    |s| > 0 ==> !IsJsSpace(s[0]) && !IsJsSpace(s[|s| - 1])
  }

  /** `saveBook`: title and author trimmed, the price through `parseFloat`; refused when
      the trimmed title or author is empty or the price is `NaN`. */
  function SaveBook(f: BookForm): (r: Option<BookPayload>)
    ensures r.Some? <==> (!AllChars(f.title, IsJsSpace) && !AllChars(f.author, IsJsSpace)
                          && ParseFloat(f.price).Some?)
    ensures r.Some? ==> (r.value.title != "" && Trimmed(r.value.title)
                         && r.value.author != "" && Trimmed(r.value.author))
    ensures r.Some? ==> Some(r.value.price) == ParseFloat(f.price)
    ensures r.Some? ==> r.value.title == Trim(f.title, IsJsSpace) && r.value.author == Trim(f.author, IsJsSpace)
  {
    var title := Trim(f.title, IsJsSpace);
    var author := Trim(f.author, IsJsSpace);
    var price := ParseFloat(f.price);
    TrimEmptyIff(f.title, IsJsSpace);
    TrimEmptyIff(f.author, IsJsSpace);
    TrimIsSlice(f.title, IsJsSpace);
    TrimIsSlice(f.author, IsJsSpace);
    if title == "" || author == "" || price.None? then None
    else Some(BookPayload(title, author, price.value))
  }

  /** `updateBook`: the same reading and rule as `saveBook`, with the id of the edited book. */
  function UpdateBook(id: string, f: BookForm): Option<BookUpdate> {
    var title := Trim(f.title, IsJsSpace);
    var author := Trim(f.author, IsJsSpace);
    var price := ParseFloat(f.price);
    if title == "" || author == "" || price.None? then None
    else Some(BookUpdate(id, BookPayload(title, author, price.value)))
  }

  lemma UpdateBookLikeSave(id: string, f: BookForm)
    ensures UpdateBook(id, f).Some? <==> SaveBook(f).Some?
    ensures UpdateBook(id, f).Some? ==> UpdateBook(id, f).value == BookUpdate(id, SaveBook(f).value)
  {
  }

  /** Submitting the fields of an accepted book again, with the same price text, gives the
      same book. */
  lemma SaveBookIdempotent(f: BookForm)
    requires SaveBook(f).Some?
    ensures var b := SaveBook(f).value;
      SaveBook(BookForm(b.title, b.author, f.price)) == Some(b)
  {
    TrimIdempotent(f.title, IsJsSpace);
    TrimIdempotent(f.author, IsJsSpace);
  }

  /** A form holding a trimmed title and author and a price in `toFixed(2)` form yields
      that book with the price in dollars. */
  lemma SaveBookRoundTrip(title: string, author: string, cents: int)
    requires title != "" && Trimmed(title) && author != "" && Trimmed(author)
    ensures SaveBook(BookForm(title, author, CentsToFixed2(cents)))
         == Some(BookPayload(title, author, Finite(cents as real / 100.0)))
  {
    ParseFloatFixed2(cents);
    TrimmedFixed(title);
    TrimmedFixed(author);
  }

  /** Trimming leaves trimmed text alone. */
  lemma TrimmedFixed(s: string)
    requires Trimmed(s)
    ensures Trim(s, IsJsSpace) == s
  {
    assert TrimStart(s, IsJsSpace) == s;
  }

  // ---------------------------------------------------------------- customers form

  /** The two inputs of the add-customer and edit-customer forms. */
  datatype CustomerForm = CustomerForm(name: string, email: string)

  /** The object `saveCustomer` and `updateCustomer` send. */
  datatype CustomerPayload = CustomerPayload(name: string, email: string)

  datatype CustomerUpdate = CustomerUpdate(id: string, customer: CustomerPayload)

  /** `saveCustomer`: name and email trimmed; refused when either is empty. The email is
      not checked for form. */
  function SaveCustomer(f: CustomerForm): (r: Option<CustomerPayload>)
    ensures r.Some? <==> !AllChars(f.name, IsJsSpace) && !AllChars(f.email, IsJsSpace)
    ensures r.Some? ==> (r.value.name != "" && Trimmed(r.value.name)
                         && r.value.email != "" && Trimmed(r.value.email))
    ensures r.Some? ==> r.value == CustomerPayload(Trim(f.name, IsJsSpace), Trim(f.email, IsJsSpace))
  {
    var name := Trim(f.name, IsJsSpace);
    var email := Trim(f.email, IsJsSpace);
    TrimEmptyIff(f.name, IsJsSpace);
    TrimEmptyIff(f.email, IsJsSpace);
    TrimIsSlice(f.name, IsJsSpace);
    TrimIsSlice(f.email, IsJsSpace);
    if name == "" || email == "" then None else Some(CustomerPayload(name, email))
  }

  /** `updateCustomer`: the same reading and rule, with the id of the edited customer. */
  function UpdateCustomer(id: string, f: CustomerForm): Option<CustomerUpdate> {
    var name := Trim(f.name, IsJsSpace);
    var email := Trim(f.email, IsJsSpace);
    if name == "" || email == "" then None else Some(CustomerUpdate(id, CustomerPayload(name, email)))
  }

  lemma UpdateCustomerLikeSave(id: string, f: CustomerForm)
    ensures UpdateCustomer(id, f).Some? <==> SaveCustomer(f).Some?
    ensures UpdateCustomer(id, f).Some? ==> UpdateCustomer(id, f).value == CustomerUpdate(id, SaveCustomer(f).value)
  {
  }

  /** Submitting the fields of an accepted customer again gives the same customer. */
  lemma SaveCustomerIdempotent(f: CustomerForm)
    requires SaveCustomer(f).Some?
    ensures var c := SaveCustomer(f).value;
      SaveCustomer(CustomerForm(c.name, c.email)) == Some(c)
  {
    TrimIdempotent(f.name, IsJsSpace);
    TrimIdempotent(f.email, IsJsSpace);
  }

  /** Exactly the trimmed, non-empty names and emails come through unchanged: what an
      accepted form sends is what the same form sends again. */
  lemma SaveCustomerRoundTrip(name: string, email: string)
    ensures SaveCustomer(CustomerForm(name, email)) == Some(CustomerPayload(name, email))
        <==> name != "" && Trimmed(name) && email != "" && Trimmed(email)
  {
    if name != "" && Trimmed(name) && email != "" && Trimmed(email) {
      TrimmedFixed(name);
      TrimmedFixed(email);
    }
  }

  // ---------------------------------------------------------------- dropdowns

  /** An `<option>` of a `<select>`: its value and its text. */
  datatype SelectOption = SelectOption(value: string, text: string)

  /** A book as the books endpoint returns it, price in cents. */
  datatype BookRecord = BookRecord(id: int, title: string, author: string, priceCents: int)

  /** A customer as the customers endpoint returns it. */
  datatype CustomerRecord = CustomerRecord(id: int, name: string, email: string)

  function BookOptionText(b: BookRecord): string {
    b.title + " (" + b.author + ") - $" + CentsToFixed2(b.priceCents)
  }

  function CustomerOptionText(c: CustomerRecord): string {
    c.name + " (" + c.email + ")"
  }

  /** Removes option 1 until only the first option (if any) is left. */
  method KeepFirstOption(options: seq<SelectOption>) returns (r: seq<SelectOption>)
    ensures |options| == 0 ==> r == []
    ensures |options| > 0 ==> r == [options[0]]
  {
    r := options;
    while |r| > 1
      invariant |r| <= |options|
      invariant |options| == 0 <==> |r| == 0
      invariant |r| > 0 ==> r[0] == options[0]
    {
      r := r[..1] + r[2..];
    }
  }

  /** The shared body of the two populate functions: keep the first option, then append one
      option per record, in order, whose value is the record's id as text. */
  method Populate<T>(options: seq<SelectOption>, items: seq<T>, id: T -> int, text: T -> string)
    returns (r: seq<SelectOption>)
    ensures var k := if |options| == 0 then 0 else 1;
      && |r| == k + |items|
      && r[..k] == options[..k]
      && (forall i :: 0 <= i < |items| ==> r[k + i] == SelectOption(IntToString(id(items[i])), text(items[i])))
      && (forall i :: 0 <= i < |items| ==> ParseInt(r[k + i].value) == Some(id(items[i])))
  {
    r := KeepFirstOption(options);
    var k := |r|;
    for j := 0 to |items|
      invariant |r| == k + j
      invariant r[..k] == options[..k]
      invariant forall i :: 0 <= i < j ==> r[k + i] == SelectOption(IntToString(id(items[i])), text(items[i]))
    {
      var o := SelectOption(IntToString(id(items[j])), text(items[j]));
      assert (r + [o])[..k] == r[..k];
      r := r + [o];
    }
    forall i | 0 <= i < |items|
      ensures ParseInt(r[k + i].value) == Some(id(items[i]))
    {
      ParseIntRoundTrip(id(items[i]));
    }
  }

  /** `populateBookDropdown`: each book's option text shows title, author and the price
      with two decimals, and its value reads back through `parseInt` as the book's id. */
  method PopulateBookDropdown(options: seq<SelectOption>, books: seq<BookRecord>)
    returns (r: seq<SelectOption>)
    ensures var k := if |options| == 0 then 0 else 1;
      && |r| == k + |books|
      && r[..k] == options[..k]
      && (forall i :: 0 <= i < |books| ==> r[k + i].text == BookOptionText(books[i]))
      && (forall i :: 0 <= i < |books| ==> ParseInt(r[k + i].value) == Some(books[i].id))
  {
    r := Populate(options, books, (b: BookRecord) => b.id, BookOptionText);
  }

  /** `populateCustomerDropdown`: each customer's option shows name and email, and its
      value reads back through `parseInt` as the customer's id. */
  method PopulateCustomerDropdown(options: seq<SelectOption>, customers: seq<CustomerRecord>)
    returns (r: seq<SelectOption>)
    ensures var k := if |options| == 0 then 0 else 1;
      && |r| == k + |customers|
      && r[..k] == options[..k]
      && (forall i :: 0 <= i < |customers| ==> r[k + i].text == CustomerOptionText(customers[i]))
      && (forall i :: 0 <= i < |customers| ==> ParseInt(r[k + i].value) == Some(customers[i].id))
  {
    r := Populate(options, customers, (c: CustomerRecord) => c.id, CustomerOptionText);
  }
}
