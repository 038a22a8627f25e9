# BookStore Management System — a verified model of its data rules

The book store is a FastAPI back end over SQLite, a plain JavaScript front end, two pandas
cleaning scripts, an analysis script and a recommendation service. This project models the
deterministic rules inside them as pure Dafny functions over immutable sequences and proves
what those rules promise:

- **Front-end pages** (`escape.dfy`, `forms.dfy`, `numbers.dfy`, `dashboard.dfy`):
  - `escapeHtml` in its guarded (sales page) and unguarded (books and customers pages) forms;
  - `validateQuantity`;
  - the accept/reject rules and payloads of the save and update handlers;
  - the dropdown option lists;
  - JavaScript `parseInt`, `parseFloat` and `toFixed(2)` as the forms use them;
  - the dashboard's summary figures, its monthly chart and its two top-five charts.
- **Back-end sales queries** (`store.dfy`, `sales_reports.dfy`):
  - the store is three tables, `Books`, `Customers` and `Sales`, plus the last sale id handed out;
  - the read queries are inner joins;
  - the update and delete queries report whether a row matched;
  - the three analytics queries are group-by, sum/count and order-by.
- **Analysis script** (`sales_analysis.py` → `sales_analysis.dfy`):
  - top-selling books with SQLite `LIMIT`;
  - sales by author with `COUNT(DISTINCT ...)`;
  - monthly sales through SQLite's `strftime('%Y-%m', ...)`;
  - customer spending with `AVG`;
  - the price-range `CASE`, ordered by `MIN(Price)`.
- **Cleaning scripts** (`import_cleaning.dfy`, `sales_cleaning.dfy`, `dates.dfy`, `stats.dfy`):
  - column-name normalisation;
  - median and mean fills;
  - quantity and price clamping;
  - date rewriting, with `today` passed in as a parameter;
  - the derived columns;
  - `dropna`;
  - the customer list with synthesised e-mail addresses;
  - whole-row and subset de-duplication.
- **Recommendation service** (`recommendation.dfy`):
  - popular books;
  - collaborative filtering over a ranking of similar customers;
  - content-based filtering over a ranking of similar books;
  - the personalised mix of the two.

  The similarity rankings are inputs.

Shared machinery lives in a few support modules:

- `wrappers.dfy`: `Option` and `Result`.
- `strings.dfy`: trimming, lower-casing and code-point order (the same as JavaScript's UTF-16 code-unit order for text within the Basic Multilingual Plane).
- `seqs.dfy`:
  - sums;
  - Python slices;
  - descending insertion sort and top-k;
  - order-preserving de-duplication.
- `grouping.dfy`: `GROUP BY` as first-occurrence keys plus per-key sums.

Money is integer cents in the store, dashboard, analysis and recommendation modules. The two
pandas scripts work on `real`. Where SQL or pandas leave the order of tied rows open, the
model keeps first-occurrence order, and no contract depends on that order.

Two month keys deserve a note:

- **Dashboard month key.** `loadMonthlySalesChart` skips no record. A date shorter than seven
  characters is keyed by the whole date (`substring(0, 7)`), and `Dashboard.MonthKey` does
  the same.
- **Analysis month.** The month of `monthly_sales` is SQLite's `strftime`, not a substring:
  - a date that is not a valid `YYYY-MM-DD` gives `NULL`;
  - an impossible day such as `2023-02-30` rolls over into the next month.

## Model

| member | source | states |
|---|---|---|
| Escape.EscapeHtmlGuarded | frontend/static/js/sales.js:358-367 | A missing or empty value gives `""`. Otherwise no `<`, `>`, `"` or `'` is left in the output, and decoding the five entities gives back the input. |
| Escape.EscapeHtmlUnguarded | frontend/static/js/books.js:220-227 | A missing value raises, and only then. The output has no markup character and decodes back to the input. |
| Escape.EscapeHtmlSpec | frontend/static/js/customer.js:216-223 | The `&`-first chain of five replacements leaves no markup character and is decodable. It never shortens its input. It is the identity exactly on strings without `&<>"'`. |
| Escape.ChainIsEach | frontend/static/js/sales.js:362-366 | Running the five global replacements in source order equals replacing every character by its entity in one pass: no later replacement touches an entity an earlier one produced. |
| Escape.EscapeEachRoundTrip | frontend/static/js/books.js:222-226 | Decoding the one-pass escape gives back the original string. |
| Escape.EscapeInjective | frontend/static/js/customer.js:218-222 | Two different strings never escape to the same text. |
| Escape.VariantsAgreeOnStrings | frontend/static/js/sales.js:359-367 | On a present string, the unguarded helper succeeds with exactly the guarded helper's result. |
| Forms.ValidateQuantity | frontend/static/js/sales.js:177-186 | The text left in the input always parses to a whole number ≥ 1. A NaN or < 1 parse becomes 1. A parse ≥ 1 keeps its value. |
| Forms.ValidateQuantityIdempotent | frontend/static/js/sales.js:179-185 | Validating the validated text again changes nothing. |
| Forms.ValidateQuantityKeepsWhole | frontend/static/js/sales.js:183-185 | The decimal text of a whole number ≥ 1 is left exactly as it is. |
| Forms.SaveSale | frontend/static/js/sales.js:192-204 | A submission is sent iff the book id, customer id and quantity parse to non-zero numbers and the date is non-empty. The payload is exactly the three `parseInt` values and the date as typed. |
| Forms.UpdateSaleLikeSave | frontend/static/js/sales.js:276-289 | The edit form accepts exactly what the new-sale form accepts, with the same four fields plus the edited id. |
| Forms.SaveSaleRoundTrip | frontend/static/js/sales.js:192-204 | A form filled with the decimal text of a sale's non-zero fields and a non-empty date submits exactly that sale. |
| Forms.ValidatedQuantityAccepted | frontend/static/js/sales.js:179-198 | Once `validateQuantity` has rewritten the quantity input, the quantity never blocks a submission. |
| Forms.SaveBook | frontend/static/js/books.js:91-102 | Accepted iff the trimmed title and author are non-empty and `parseFloat` of the price is a number. The payload is the form's title and author trimmed, and the parsed price. |
| Forms.UpdateBookLikeSave | frontend/static/js/books.js:146-158 | The edit form uses the same acceptance rule and payload, plus the edited id. |
| Forms.SaveBookIdempotent | frontend/static/js/books.js:91-102 | Re-submitting an accepted book's title and author, with the same price text, gives the same payload. |
| Forms.SaveBookRoundTrip | frontend/static/js/books.js:91-102 | A trimmed non-empty title and author with a price written by `toFixed(2)` come through unchanged, the price as cents / 100. |
| Forms.SaveCustomer | frontend/static/js/customer.js:90-100 | Accepted iff neither the name nor the e-mail is all white space; any non-blank e-mail passes. The payload is exactly the form's name and e-mail trimmed. |
| Forms.UpdateCustomerLikeSave | frontend/static/js/customer.js:143-154 | The edit form uses the same acceptance rule and payload, plus the edited id. |
| Forms.SaveCustomerRoundTrip | frontend/static/js/customer.js:90-100 | Exactly the trimmed, non-empty name and e-mail pairs come through unchanged. |
| Forms.SaveCustomerIdempotent | frontend/static/js/customer.js:90-100 | Re-submitting an accepted customer's name and e-mail gives the same payload. |
| Forms.KeepFirstOption | frontend/static/js/sales.js:129-131 | Removing option 1 while more than one option is left keeps exactly the first option, if there is one. |
| Forms.PopulateBookDropdown | frontend/static/js/sales.js:127-140 | The first option stays, then one option per book in input order. Each option's value parses back to the book id, and its text is title, author and `toFixed(2)` price. |
| Forms.PopulateCustomerDropdown | frontend/static/js/sales.js:143-156 | The first option stays, then one option per customer in input order. Each value parses back to the customer id, and the text shows name and e-mail. |
| Numbers.ParseIntRoundTrip | frontend/static/js/sales.js:192-195 | `parseInt` reads back the decimal text of every integer, negative ones included. |
| Numbers.ParseIntIgnoresSuffix | frontend/static/js/sales.js:179 | `parseInt` stops at the first character that cannot continue the number, so trailing text after the digits is ignored. |
| Numbers.ParseIntSkipsSpace | frontend/static/js/sales.js:195 | Leading white space makes no difference to `parseInt`. |
| Numbers.ParseIntNaNIff | frontend/static/js/sales.js:181 | `parseInt` is NaN exactly when, after white space and sign, the text starts with no digit, or with `0x` and no hex digit after it. |
| Numbers.ParseFloatNaNIff | frontend/static/js/books.js:93-96 | `parseFloat` is NaN exactly when, after white space and sign, the text starts with neither a digit, a point followed by a digit, nor `Infinity`. |
| Numbers.ParseFloatFixed2 | frontend/static/js/sales.js:137 | `parseFloat` reads back the `toFixed(2)` text of a price in cents as that price / 100. |
| Numbers.DecimalWithFraction | frontend/static/js/books.js:93 | The decimal part of `parseFloat` reads `digits.digits` as the integer of all the digits scaled down by the number of fraction digits. |
| Dashboard.SummaryStats | frontend/static/js/dashboard.js:45-52 | The three counts are the list lengths, and the revenue is the sum of `total_amount` over all sales. |
| Dashboard.RevenueFromIsSum | frontend/static/js/dashboard.js:50-52 | The `reduce` from any start value is that value plus the sum of the amounts. |
| Dashboard.MonthKey | frontend/static/js/dashboard.js:125 | The key is the first seven characters of the date, or the whole date when it is shorter. |
| Dashboard.MonthlySalesChart | frontend/static/js/dashboard.js:122-140 | The three columns have equal length, and the labels are strictly ascending. There is exactly one label per month key occurring in the input. Position i holds that month's quantity and revenue sums. |
| Dashboard.AccumulateKeys | frontend/static/js/dashboard.js:124-131 | The grouping object gets one key per distinct month key, in first-occurrence order (JavaScript's key order for keys that are not integer-like, as the `YYYY-MM` keys of ISO dates are; the chart sorts the keys anyway). |
| Dashboard.AccumulateTotals | frontend/static/js/dashboard.js:133-134 | Each month's entry holds the sum of quantities and of amounts over exactly that month's sales. |
| Dashboard.MonthlyChartTotals | frontend/static/js/dashboard.js:133-140 | The bars add up to the total quantity and the total revenue of all sales. |
| Dashboard.TopBooks | frontend/static/js/dashboard.js:73-75 | At most five rows (all, if fewer), drawn from the input, non-increasing in `TotalSold`. Every row left out sold no more than every row kept. |
| Dashboard.TopAuthors | frontend/static/js/dashboard.js:213-215 | The same for authors by `TotalRevenue`. |
| Dashboard.TopAuthorsOrderFree | frontend/static/js/dashboard.js:213-215 | The revenue bars are the same whatever order the endpoint returns the authors in. |
| Dashboard.TopBooksOrderFree | frontend/static/js/dashboard.js:73-75 | The sold bars are the same whatever order the rows arrive in. |
| Store.Detail | app/models/sales.py:8-14 | A sale is joined iff both its book and its customer exist. The row keeps the sale's fields and takes the title and price of the book and the name of the customer it refers to. The total is quantity × that price. |
| Store.AllSalesSpec | app/models/sales.py:4-18 | Every row charges quantity × price. Every sale whose book and customer exist appears with its own fields. Every row's book and customer exist, and its title, price and customer name are theirs. |
| Store.SaleById | app/models/sales.py:20-35 | The row found has the requested id and is one of `get_all_sales`' rows. Nothing is found iff no joined row has that id. |
| Store.SaleByIdOnly | app/models/sales.py:31-33 | With unique sale ids, the row found is the only joined row with that id. |
| Store.UpdateSale | app/models/sales.py:49-60 | Returns true iff a sale with that id existed. Only matching rows get the four new fields, and every other row and table is unchanged. |
| Store.DeleteSale | app/models/sales.py:62-69 | Returns true iff the id existed. It removes exactly the rows with that id, keeps the order of the others and leaves the other tables unchanged. |
| Store.WithoutOne | app/models/sales.py:65-66 | With unique ids, a delete removes exactly one row when the id exists and none otherwise. |
| Store.DeleteThenGet | app/models/sales.py:62-69 | After a delete, the sale is not found. |
| Store.UpdateThenGet | app/models/sales.py:49-60 | After updating an existing sale, reading it finds a row iff the new book and customer exist, and that row carries the new values. |
| Store.AddSale | app/models/sales.py:37-47 | The sale is appended under the next id, and that id is returned. |
| Store.AddThenGet | app/models/sales.py:37-47 | Adding keeps the keys unique. The new sale reads back exactly when its book and customer exist. |
| SalesReports.SalesByBook | app/models/sales.py:72-84 | Rows are ordered by `TotalSold`, descending. |
| SalesReports.SalesByBookSpec | app/models/sales.py:76-80 | One row per (BookID, Title) with sales. Each row carries that book's summed quantity and revenue. The `TotalSold` column adds up to the quantity of all joined sales. |
| SalesReports.BestsellingAuthorsSpec | app/models/sales.py:90-94 | One row per author with sales, each with the author's sums. The authors' `TotalSold` adds up to the total quantity. |
| SalesReports.TopCustomersSpec | app/models/sales.py:104-110 | One row per customer with sales. `TotalTransactions` is the number of that customer's joined sales, and the counts add up to the number of joined sales. |
| SalesAnalysis.Limit | sales_analysis.py:32 | SQLite `LIMIT n` keeps a prefix of `min(n, len)` rows. A negative limit keeps all rows. |
| SalesAnalysis.TopSellingBooks | sales_analysis.py:23-34 | At most `limit` rows, non-increasing in `TotalSold`. |
| SalesAnalysis.TopSellingBooksSpec | sales_analysis.py:26-32 | Every row is the row of a book with sales. A book with sales that is cut off sold no more than any book kept. |
| SalesAnalysis.TopSellingBooksAll | sales_analysis.py:26-32 | Without an effective cut-off, every book with sales appears once, and the quantities add up to the total. |
| SalesAnalysis.SalesByAuthorSpec | sales_analysis.py:36-46 | One row per author with sales, ordered by revenue. `BookCount` is the number of distinct book ids among the author's sales. Revenues add up to the total. |
| SalesAnalysis.SqliteMonth | sales_analysis.py:51 | Only ten-character `YYYY-MM-DD` text gives a month. The month is seven characters and keeps the year and the dash. |
| SalesAnalysis.SqliteMonthOfDate | sales_analysis.py:51 | A real calendar date gives its own `YYYY-MM`, the same key the dashboard uses. |
| SalesAnalysis.SqliteMonthRollsOver | sales_analysis.py:51 | An impossible day rolls over: `2023-02-30` falls in `2023-03`. |
| SalesAnalysis.DayPastMonthEnd | sales_analysis.py:51 | Any well-formed `YYYY-MM-DD` whose day lies past the end of its month, up to 31, is filed under the following month. |
| SalesAnalysis.MonthlySalesSpec | sales_analysis.py:48-60 | Months come out strictly ascending, with `NULL` first and each month once. Every sale's month has a row. `TransactionCount` is the number of that month's sales, and the counts and revenues add up to the totals. |
| SalesAnalysis.CustomerSpendingSpec | sales_analysis.py:62-75 | One row per customer with sales, ordered by `TotalSpent`. Purchase counts add up to the number of joined sales, and spending adds up to total revenue. |
| SalesAnalysis.AvgPriceBetween | sales_analysis.py:68 | A customer's `AvgBookPrice` lies between the cheapest and the dearest book price among that customer's sales. |
| SalesAnalysis.BucketExactlyOne | sales_analysis.py:81-87 | Every price lies in exactly one of the five intervals (<$10, $10–15, $15–20, $20–30, ≥$30), and the `CASE` picks it. |
| SalesAnalysis.BucketMonotone | sales_analysis.py:81-86 | A dearer book never lands in an earlier range. |
| SalesAnalysis.LabelRoundTrip | sales_analysis.py:82-86 | The five labels are pairwise different, and each names its range. |
| SalesAnalysis.PriceRangeAnalysis | sales_analysis.py:77-96 | At most five rows. |
| SalesAnalysis.PriceRangeSpec | sales_analysis.py:88-94 | The ranges with sales come out in interval order, each once (ordering by `MIN(Price)` agrees with the range order). Every sale's range has a row, `UnitsSold` is the range's quantity, and the revenues add up to the total. |
| SalesAnalysis.MinPriceInRange | sales_analysis.py:94 | The minimum price of a range that has sales lies in that range. |
| ImportCleaning.NormalizeColumn | data/bookstore_data_cleaning.py:29 | A normalised name is no longer than the original. It has no space, no ASCII or Latin-1 capital and no white space at either end, and it is empty iff the name was all white space. |
| ImportCleaning.NormalizeIdempotent | data/bookstore_data_cleaning.py:29 | Normalising twice gives the same name as normalising once. |
| ImportCleaning.LayoutOfSpec | data/bookstore_data_cleaning.py:39-70 | Each of the seven named columns is present iff some header cell normalises to its name. |
| ImportCleaning.Truncate | data/bookstore_data_cleaning.py:45 | Python `int(x)` truncates toward zero. |
| ImportCleaning.CleanQuantity | data/bookstore_data_cleaning.py:42-45 | Always ≥ 1. A missing value or one below 1 becomes 1, and a value ≥ 1 becomes its integer part. |
| ImportCleaning.CleanQuantityKeepsWhole | data/bookstore_data_cleaning.py:43-45 | A whole quantity ≥ 1 is kept. |
| ImportCleaning.CleanPrice | data/bookstore_data_cleaning.py:39-40 | Always ≥ 0. A present price is clamped at 0. A missing one takes the clamped median, or 0 when there is none. |
| ImportCleaning.CleanDate | data/bookstore_data_cleaning.py:61-64 | The result is `today` or a `YYYY-MM-DD` date of the pandas timestamp span, and a missing cell gives `today`. |
| ImportCleaning.CleanDateKeepsIso | data/bookstore_data_cleaning.py:62 | A cell already in `YYYY-MM-DD` form within the span is kept as it is. |
| ImportCleaning.CleanOne | data/bookstore_data_cleaning.py:38-71 | Each cleaned column, and each derived column, is present iff the file has the columns it comes from. |
| ImportCleaning.CleanOneFacts | data/bookstore_data_cleaning.py:42-71 | Every cleaned row has quantity ≥ 1 and price ≥ 0. `high_value_purchase` holds iff price > 50, and `total_amount` = price × quantity. |
| ImportCleaning.CleanRowsSpec | data/bookstore_data_cleaning.py:38-71 | Row i comes from kept row i. It obeys the column facts, keeps the unnamed cells and has `Unknown` in place of a missing title or author. |
| ImportCleaning.CleanImportDedup | data/bookstore_data_cleaning.py:25 | Kept rows are pairwise different on the cells the file has, and every raw row has an equal kept row. |
| ImportCleaning.CleanImportFailsIff | data/bookstore_data_cleaning.py:81-84 | The cleaning raises (`dropna` on a missing column) exactly when the file has a price column but lacks title or author. |
| ImportCleaning.CleanImportDropsNothing | data/bookstore_data_cleaning.py:80-85 | When it goes through, `dropna` removes no row, since every critical cell has been filled. |
| ImportCleaning.DummyEmail | data/bookstore_data_cleaning.py:126-128 | The address is the name with its ASCII and Latin-1 capitals lower-cased and its spaces turned into dots, then `@example.com`. |
| ImportCleaning.DummyEmailCollides | data/bookstore_data_cleaning.py:126-128 | `Ann Lee` and `ann.lee` get the same placeholder address. |
| ImportCleaning.DummyEmailAccented | data/bookstore_data_cleaning.py:127 | A Latin-1 capital is lower-cased as Python does it: `Éva` gets `éva@example.com`. |
| ImportCleaning.CustomersSpec | data/bookstore_data_cleaning.py:120-128 | One customer per distinct name, taken from the name's first row. The e-mail is that row's, or the placeholder built from the name. Without an e-mail column the import fails exactly when some row has no name. |
| Dates.ParseRender | data/bookstore_data_cleaning.py:62 | The `%Y-%m-%d` text of a date reads back as that date. |
| Dates.RenderParse | data/bookstore_data_cleaning.py:62 | Text that reads as a date is exactly how that date is written. |
| Stats.MedianBetween | data/bookstore_data_cleaning.py:40 | The median fill lies between the smallest and the largest present price. |
| Stats.MedianHalves | data/bookstore_data_cleaning.py:40 | At least half of the values are ≤ the median, and at least half are ≥ it. |
| Stats.MeanBetween | bookstore_data_cleaning.py:22 | The mean fill lies between the smallest and the largest present price. |
| SalesCleaning.DeduplicatedSpec | bookstore_data_cleaning.py:16 | No two kept rows agree on (BookID, CustomerID, Quantity, Date). Each kept row is its key's first row, the kept rows keep file order, and every key is kept. |
| SalesCleaning.CleanSalesSpec | bookstore_data_cleaning.py:21-27 | Present cells are unchanged, a missing quantity becomes 1, and a missing price becomes the mean of the kept prices. `High_Value_Purchase` holds iff the price is above 40. |
| SalesCleaning.FilledPriceBetween | bookstore_data_cleaning.py:22 | A filled price lies between the lowest and highest present price. It stays missing only when no row has a price. |
| SalesCleaning.FilledQuantityMayRepeatKey | bookstore_data_cleaning.py:16-24 | Filling quantities after de-duplication can make two written rows agree on the de-duplication key. |
| Recommendation.Frame | Machine_Learning/recommendation/recommendation_service.py:28-34 | The sales frame holds exactly the sales whose customer exists. |
| Recommendation.Bought | Machine_Learning/recommendation/recommendation_service.py:90 | A customer's book set holds each book the customer has a sale of, once. |
| Recommendation.Lookup | Machine_Learning/recommendation/recommendation_service.py:100-109 | Succeeds iff every id has a book; a failure names a missing id. On success, entry i is the book of id i with the given type. |
| Recommendation.PopularIdsSpec | Machine_Learning/recommendation/recommendation_service.py:165-166 | The popular ids are distinct books with sales: min(n, #books) of them for n ≥ 0, in non-increasing order of quantity sold. A left-out book sold no more than any kept book. |
| Recommendation.PopularAtMost | Machine_Learning/recommendation/recommendation_service.py:152-179 | For n ≥ 0, at most n popular recommendations, all of the popularity type. |
| Recommendation.SimilarUsers | Machine_Learning/recommendation/recommendation_service.py:88 | The ranking without its first entry, capped at five. |
| Recommendation.Candidates | Machine_Learning/recommendation/recommendation_service.py:92-96 | A candidate is exactly a book some similar customer bought and the customer did not. |
| Recommendation.UniqueSpec | Machine_Learning/recommendation/recommendation_service.py:98 | `list(set(xs))` holds each value of `xs` exactly once. |
| Recommendation.CollabUnknownCustomer | Machine_Learning/recommendation/recommendation_service.py:78-79 | A customer with no sales gets exactly the popular books. |
| Recommendation.CollabIdsSpec | Machine_Learning/recommendation/recommendation_service.py:88-98 | Collaborative picks are distinct books, none bought by the customer, each bought by a similar customer. For n ≥ 0 there are min(n, #candidates) of them. |
| Recommendation.SimilarBooks | Machine_Learning/recommendation/recommendation_service.py:137 | The ranking without its first entry, at most n books. |
| Recommendation.ContentUnknownBook | Machine_Learning/recommendation/recommendation_service.py:127-128 | A book id outside the catalogue gets exactly the popular books. |
| Recommendation.ContentSpec | Machine_Learning/recommendation/recommendation_service.py:137-150 | For a catalogued book the picks are the ranking's entries 1..n, in order, all content-based. The lookup fails exactly when one of them has no book. |
| Recommendation.ContentAtMost | Machine_Learning/recommendation/recommendation_service.py:127-150 | For n ≥ 0, at most n content recommendations (or popular fallbacks), none collaborative. |
| Recommendation.Latest | Machine_Learning/recommendation/recommendation_service.py:201 | The purchase chosen is one of the customer's, with a date no earlier than any other. |
| Recommendation.PersonalizedNewCustomer | Machine_Learning/recommendation/recommendation_service.py:195-197 | A customer with no purchases gets exactly the popular books. |
| Recommendation.PersonalizedIsCombine | Machine_Learning/recommendation/recommendation_service.py:199-204 | For a customer with purchases: collaborative picks with budget n // 2, then content picks for the latest purchase with the remaining budget. |
| Recommendation.PersonalizedBudget | Machine_Learning/recommendation/recommendation_service.py:195-206 | For n ≥ 0, at most n recommendations. A first block of at most n // 2 is collaborative and never an already-bought book, and nothing after it is collaborative. |

## Left out

- Network layer, HTTP status handling, DOM rendering, Bootstrap modals, alerts, Chart.js configuration and event wiring: I/O and UI with no rule to state.
- FastAPI routers, controllers, pydantic schemas, servers and SQLite connection handling: framework glue around the modelled queries.
- The book and customer CRUD wrappers in `app/models/book.py` and `app/models/customer.py`: thin SQL calls; the store semantics come from the sales queries.
- Writing the cleaned rows into the database (`INSERT ... OR` lookups, `lastrowid`), CSV reading and writing, plotting and report file naming: I/O.
- Cosine similarity and the user-item and feature matrices: floating-point linear algebra. The rankings they produce are parameters of the recommendation functions.
- `datetime.now()` and `pd.to_datetime`'s parser: the clock and pandas' format inference are parameters `today` and `parse`.
- `toFixed` rounding of non-cent amounts, `toLocaleDateString` and IEEE arithmetic: floating point. Prices are whole cents, so `toFixed(2)` is exact.
- `Promise.all` parallel loading: concurrency with no sequential content.
- Python set iteration order and pandas/SQL tie order: unspecified by the libraries. The model uses first-occurrence order, and the contracts state only order-free facts about them (membership, counts, sums, sortedness).
- SQLite `strftime` on inputs other than bare `YYYY-MM-DD` text (times, Julian day numbers, `now`): `SalesAnalysis.SqliteMonth` treats them as `NULL`; stored sale dates are written in that form.
- Sales that reference a book or customer id twice in its table: the store assumes unique primary keys (`Store.Keyed`), as SQLite enforces.
- `Recommendation.PersonalizedBudget`: states the budget only for `n >= 0`. With a negative `n` Python's slicing semantics still apply in the model, but the source gives no bound to prove.
- `Recommendation.Latest`: among purchases sharing the latest date, pandas' sort picks an unspecified one; the model takes the first.
- `Recommendation.Lookup`: a book id taken from the similarity matrices always exists in the source; the model keeps the `IndexError` path for arbitrary ranking inputs.
- ImportCleaning.NormalizeColumn: lower-cases only ASCII and Latin-1 capitals. Python's `str.lower` also maps every other Unicode capital, and a few (such as `İ`) to two characters; the model leaves those unchanged.
- ImportCleaning.DummyEmail: the same restriction. For a name with a capital outside ASCII and Latin-1, Python's address differs, and its length need not be the name's length + 12.
- ImportCleaning.CleanPrice: prices are numeric columns only. A text cell makes `median()` raise `TypeError` before `to_numeric(errors='coerce')` runs, so that coercion never sees text; the model has no text cells and no such error.
- ImportCleaning.CleanQuantity: quantities are numeric columns only. On a text cell `int(x)` raises `ValueError`, which the model does not represent.
- SalesCleaning.CleanSalesSpec: prices and quantities are numeric columns only. A text price makes `mean()` raise, which the model does not represent.
