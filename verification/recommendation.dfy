/** The selection logic of the recommendation service: popular books, collaborative
    filtering over similar customers, content-based filtering over similar books, and the
    personalised mix of the last two. Cosine similarity is not modelled: the similarity
    rankings arrive as inputs, each a list of ids in descending order of similarity. */
module Recommendation {
  import opened Wrappers
  import opened Strings
  import opened Seqs
  import opened Grouping
  import opened Store

  datatype Kind = Collaborative | ContentBased | PopularityBased

  /** One recommendation as the service returns it. */
  datatype Rec = Rec(bookId: int, title: string, author: string, price: int, kind: Kind)

  /** `books_df[books_df['book_id'] == id].iloc[0]` on an id with no book. */
  datatype Error = IndexError(bookId: int)

  // ---------------------------------------------------------------- frames

  /** `sales_df`: the sales whose customer exists (`Sales JOIN Customers`). */
  function Frame(db: Db): (f: seq<Sale>)
    ensures forall s :: s in f <==> s in db.sales && FindCustomer(db.customers, s.customerId).Some?
  {
    FrameOf(db, db.sales)
  }

  function FrameOf(db: Db, sales: seq<Sale>): (f: seq<Sale>)
    ensures forall s :: s in f <==> s in sales && FindCustomer(db.customers, s.customerId).Some?
  {
    if |sales| == 0 then []
    else
      assert forall s :: s in sales <==> s == sales[0] || s in sales[1..];
      (if FindCustomer(db.customers, sales[0].customerId).Some? then [sales[0]] else [])
      + FrameOf(db, sales[1..])
  }

  function SaleBook(s: Sale): int { s.bookId }
  function SaleCustomer(s: Sale): int { s.customerId }
  function SaleQuantity(s: Sale): int { s.quantity }
  function Id(x: int): int { x }

  /** The books one customer bought, each once. */
  function Bought(frame: seq<Sale>, c: int): (bs: seq<int>)
    ensures Distinct(bs)
    ensures forall b :: b in bs <==> exists s :: s in frame && s.customerId == c && s.bookId == b
  {
    var mine := Select(frame, SaleCustomer, c);
    BoughtSound(frame, c, mine);
    BoughtComplete(frame, c, mine);
    Keys(mine, SaleBook)
  }

  /** Every book among the keys of a customer's sales was bought by that customer. */
  lemma BoughtSound(frame: seq<Sale>, c: int, mine: seq<Sale>)
    requires mine == Select(frame, SaleCustomer, c)
    ensures forall b :: b in Keys(mine, SaleBook) ==> exists s :: s in frame && s.customerId == c && s.bookId == b
  {
    forall b | b in Keys(mine, SaleBook) ensures exists s :: s in frame && s.customerId == c && s.bookId == b {
      var i :| 0 <= i < |mine| && mine[i].bookId == b;
      assert mine[i] in mine;
    }
  }

  /** Every book the customer bought is among the keys of the customer's sales. */
  lemma BoughtComplete(frame: seq<Sale>, c: int, mine: seq<Sale>)
    requires mine == Select(frame, SaleCustomer, c)
    ensures forall b :: (exists s :: s in frame && s.customerId == c && s.bookId == b) ==> b in Keys(mine, SaleBook)
  {
    forall b | (exists s :: s in frame && s.customerId == c && s.bookId == b) ensures b in Keys(mine, SaleBook) {
      var s :| s in frame && s.customerId == c && s.bookId == b;
      var i :| 0 <= i < |frame| && frame[i] == s;
      SelectHas(frame, SaleCustomer, c, i);
      var j :| 0 <= j < |mine| && mine[j] == s;
    }
  }

  // ---------------------------------------------------------------- book lookup

  /** The recommendations for some book ids, in order; the first id with no book raises. */
  function Lookup(books: seq<Book>, ids: seq<int>, kind: Kind): (r: Result<seq<Rec>, Error>)
    ensures r.Success? <==> forall i :: 0 <= i < |ids| ==> FindBook(books, ids[i]).Some?
    ensures r.Failure? ==> exists i :: 0 <= i < |ids| && r.error == IndexError(ids[i])
                                     && FindBook(books, ids[i]).None?
    ensures r.Success? ==> |r.value| == |ids| && forall i :: 0 <= i < |ids| ==>
              var b := FindBook(books, ids[i]).value;
              r.value[i] == Rec(ids[i], b.title, b.author, b.price, kind)
  {
    if |ids| == 0 then Success([])
    else
      match FindBook(books, ids[0])
      case None => Failure(IndexError(ids[0]))
      case Some(b) =>
        match Lookup(books, ids[1..], kind)
        case Failure(e) => Failure(e)
        case Success(rest) => Success([Rec(ids[0], b.title, b.author, b.price, kind)] + rest)
  }

  // ---------------------------------------------------------------- popular books

  datatype Popularity = Popularity(bookId: int, quantity: int)

  function PopQuantity(p: Popularity): int { p.quantity }
  function PopBook(p: Popularity): int { p.bookId }

  function PopularityMaker(frame: seq<Sale>): int -> Popularity {
    b => Popularity(b, GroupSum(frame, SaleBook, SaleQuantity, b))
  }

  /** `groupby('book_id')['quantity'].sum().sort_values(ascending=False)`. */
  function Ranked(frame: seq<Sale>): (ps: seq<Popularity>)
    ensures SortedDesc(ps, PopQuantity)
  {
    Report(frame, SaleBook, PopularityMaker(frame), PopQuantity)
  }

  /** `book_popularity.index[:n]`. */
  function PopularIds(db: Db, n: int): seq<int> {
    Map(Prefix(Ranked(Frame(db)), n), PopBook)
  }

  /** `get_popular_books(n)`. */
  function Popular(db: Db, n: int): Result<seq<Rec>, Error> {
    Lookup(db.books, PopularIds(db, n), PopularityBased)
  }

  /** The popular ids are distinct books with sales, at most `n` of them (all of them when
      there are fewer), in non-increasing order of quantity sold; a book with sales that is
      left out sold no more than any book that is kept. */
  lemma PopularIdsSpec(db: Db, n: int)
    ensures var frame := Frame(db); var ids := PopularIds(db, n);
      var qty := (b: int) => GroupSum(frame, SaleBook, SaleQuantity, b);
      && Distinct(ids)
      && (forall b :: b in ids ==> exists s :: s in frame && s.bookId == b)
      && (n >= 0 ==> |ids| == Min(n, |Image(frame, SaleBook)|))
      && (forall i, j :: 0 <= i < j < |ids| ==> qty(ids[i]) >= qty(ids[j]))
      && (forall s :: s in frame && s.bookId !in ids ==> forall b :: b in ids ==> qty(b) >= qty(s.bookId))
  {
    var frame := Frame(db);
    PopularFacts(frame, Ranked(frame), n);
  }

  lemma PopularFacts(frame: seq<Sale>, all: seq<Popularity>, n: int)
    requires GroupedBy(frame, SaleBook, PopularityMaker(frame), all) && SortedDesc(all, PopQuantity)
    ensures var ids := Map(Prefix(all, n), PopBook);
      var qty := (b: int) => GroupSum(frame, SaleBook, SaleQuantity, b);
      && Distinct(ids)
      && (forall b :: b in ids ==> exists s :: s in frame && s.bookId == b)
      && (n >= 0 ==> |ids| == Min(n, |Image(frame, SaleBook)|))
      && (forall i, j :: 0 <= i < j < |ids| ==> qty(ids[i]) >= qty(ids[j]))
      && (forall s :: s in frame && s.bookId !in ids ==> forall b :: b in ids ==> qty(b) >= qty(s.bookId))
  {
    var ids := Map(Prefix(all, n), PopBook);
    PopIdsDistinct(frame, all, n);
    PopIdsSold(frame, all, n);
    PopIdsCount(frame, all, n);
    PopIdsOrdered(frame, all, n);
    forall s, b | s in frame && s.bookId !in ids && b in ids
      ensures GroupSum(frame, SaleBook, SaleQuantity, b) >= GroupSum(frame, SaleBook, SaleQuantity, s.bookId)
    {
      LeftOutSoldLess(frame, all, n, s, b);
    }
  }

  lemma PopIdsDistinct(frame: seq<Sale>, all: seq<Popularity>, n: int)
    requires GroupedBy(frame, SaleBook, PopularityMaker(frame), all)
    ensures Distinct(Map(Prefix(all, n), PopBook))
  {
    var top := Prefix(all, n);
    var ids := Map(top, PopBook);
    GroupRows(frame, SaleBook, PopularityMaker(frame), all, PopBook);
    forall i, j | 0 <= i < j < |ids| ensures ids[i] != ids[j] {
      assert top[i] == all[i] && top[j] == all[j];
    }
  }

  lemma PopIdsSold(frame: seq<Sale>, all: seq<Popularity>, n: int)
    requires GroupedBy(frame, SaleBook, PopularityMaker(frame), all)
    ensures forall b :: b in Map(Prefix(all, n), PopBook) ==> exists s :: s in frame && s.bookId == b
  {
    var top := Prefix(all, n);
    var ids := Map(top, PopBook);
    GroupRows(frame, SaleBook, PopularityMaker(frame), all, PopBook);
    forall b | b in ids ensures exists s :: s in frame && s.bookId == b {
      var i :| 0 <= i < |ids| && ids[i] == b;
      assert top[i] == all[i] && all[i] in all;
      var k :| 0 <= k < |frame| && frame[k].bookId == b;
      assert frame[k] in frame;
    }
  }

  lemma PopIdsCount(frame: seq<Sale>, all: seq<Popularity>, n: int)
    requires GroupedBy(frame, SaleBook, PopularityMaker(frame), all)
    ensures n >= 0 ==> |Map(Prefix(all, n), PopBook)| == Min(n, |Image(frame, SaleBook)|)
  {
    KeysCount(frame, SaleBook);
    assert |all| == |multiset(all)| == |Map(Keys(frame, SaleBook), PopularityMaker(frame))|;
  }

  lemma PopIdsOrdered(frame: seq<Sale>, all: seq<Popularity>, n: int)
    requires GroupedBy(frame, SaleBook, PopularityMaker(frame), all) && SortedDesc(all, PopQuantity)
    ensures var ids := Map(Prefix(all, n), PopBook);
      forall i, j :: 0 <= i < j < |ids| ==>
        GroupSum(frame, SaleBook, SaleQuantity, ids[i]) >= GroupSum(frame, SaleBook, SaleQuantity, ids[j])
  {
    var top := Prefix(all, n);
    var ids := Map(top, PopBook);
    forall i, j | 0 <= i < j < |ids|
      ensures GroupSum(frame, SaleBook, SaleQuantity, ids[i]) >= GroupSum(frame, SaleBook, SaleQuantity, ids[j])
    {
      assert top[i] == all[i] && top[j] == all[j] && all[i] in all && all[j] in all;
      PopRowValue(frame, all, all[i]);
      PopRowValue(frame, all, all[j]);
    }
  }

  lemma LeftOutSoldLess(frame: seq<Sale>, all: seq<Popularity>, n: int, s: Sale, b: int)
    requires GroupedBy(frame, SaleBook, PopularityMaker(frame), all) && SortedDesc(all, PopQuantity)
    requires s in frame && s.bookId !in Map(Prefix(all, n), PopBook) && b in Map(Prefix(all, n), PopBook)
    ensures GroupSum(frame, SaleBook, SaleQuantity, b) >= GroupSum(frame, SaleBook, SaleQuantity, s.bookId)
  {
    var top := Prefix(all, n);
    var ids := Map(top, PopBook);
    var y := PopRowOf(frame, all, s);
    var i :| 0 <= i < |ids| && ids[i] == b;
    var x := all[i];
    assert top[i] == x && x in all;
    PopRowValue(frame, all, x);
    NotListed(top, y);
    PrefixDominates(all, |top|, y, PopQuantity);
    assert x in all[..|top|];
  }

  /** Every row of the popularity table carries its book's total quantity. */
  lemma PopRowValue(frame: seq<Sale>, all: seq<Popularity>, y: Popularity)
    requires GroupedBy(frame, SaleBook, PopularityMaker(frame), all) && y in all
    ensures y.quantity == GroupSum(frame, SaleBook, SaleQuantity, y.bookId)
  {
    GroupRows(frame, SaleBook, PopularityMaker(frame), all, PopBook);
  }

  /** Every book that was sold has its row in the popularity table. */
  lemma PopRowOf(frame: seq<Sale>, all: seq<Popularity>, s: Sale) returns (y: Popularity)
    requires GroupedBy(frame, SaleBook, PopularityMaker(frame), all) && s in frame
    ensures y in all && y.bookId == s.bookId
    ensures y.quantity == GroupSum(frame, SaleBook, SaleQuantity, s.bookId)
  {
    GroupRows(frame, SaleBook, PopularityMaker(frame), all, PopBook);
    var k :| 0 <= k < |frame| && frame[k] == s;
    y :| y in all && PopBook(y) == s.bookId;
  }

  lemma NotListed(top: seq<Popularity>, y: Popularity)
    requires y.bookId !in Map(top, PopBook)
    ensures y !in top
  {
    forall p | 0 <= p < |top| ensures top[p] != y {
      assert Map(top, PopBook)[p] == PopBook(top[p]);
    }
  }

  // ---------------------------------------------------------------- collaborative filtering

  /** `sort_values(ascending=False)[1:6]`: the ranking without its first entry, at most
      five customers. */
  function SimilarUsers(ranking: seq<int>): (us: seq<int>)
    ensures |us| <= 5
    ensures |ranking| > 0 ==> us == ranking[1..Min(6, |ranking|)]
    ensures |ranking| == 0 ==> us == []
  {
    Slice(ranking, 1, 6)
  }

  /** The elements of `xs` that are not in `ys`, in order. */
  function Minus(xs: seq<int>, ys: seq<int>): (r: seq<int>)
    ensures forall x :: x in r <==> x in xs && x !in ys
  {
    if |xs| == 0 then []
    else
      assert forall x :: x in xs <==> x == xs[0] || x in xs[1..];
      (if xs[0] in ys then [] else [xs[0]]) + Minus(xs[1..], ys)
  }

  /** The books of each similar customer that the customer has not bought, one after the
      other (`recommended_books.extend(list(new_books))`). */
  function Candidates(frame: seq<Sale>, c: int, similar: seq<int>): (r: seq<int>)
    ensures forall b :: b in r <==>
      (exists u :: u in similar && b in Bought(frame, u)) && b !in Bought(frame, c)
  {
    if |similar| == 0 then []
    else
      assert forall u :: u in similar <==> u == similar[0] || u in similar[1..];
      Minus(Bought(frame, similar[0]), Bought(frame, c)) + Candidates(frame, c, similar[1..])
  }

  /** Each value of `xs` once, in order of first occurrence (`list(set(xs))`). */
  function Unique(xs: seq<int>): seq<int> {
    Dedup(xs, Id)
  }

  lemma UniqueSpec(xs: seq<int>)
    ensures Distinct(Unique(xs))
    ensures forall x :: x in Unique(xs) <==> x in xs
    ensures |Unique(xs)| == |set x | x in xs|
  {
    var u := Unique(xs);
    DedupSpec(xs, Id);
    forall x | x in u ensures x in xs {
      FirstWithKeyIn(xs, Id, x);
    }
    forall x | x in xs ensures x in u {
      var y :| y in u && Id(y) == Id(x);
    }
    assert Distinct(u);
    DistinctCard(u);
    assert (set x | x in u) == (set x | x in xs);
  }

  /** The book ids `get_collaborative_recommendations` keeps for a customer in the matrix. */
  function CollabIds(frame: seq<Sale>, c: int, n: int, ranking: seq<int>): seq<int> {
    Prefix(Unique(Candidates(frame, c, SimilarUsers(ranking))), n)
  }

  /** `get_collaborative_recommendations(customer_id, n)`: a customer with no sales is not in
      the user-item matrix and gets the popular books. */
  function Collab(db: Db, c: int, n: int, ranking: seq<int>): Result<seq<Rec>, Error> {
    var frame := Frame(db);
    if Select(frame, SaleCustomer, c) == [] then Popular(db, n)
    else Lookup(db.books, CollabIds(frame, c, n, ranking), Collaborative)
  }

  /** A customer outside the matrix gets exactly the popular books. */
  lemma CollabUnknownCustomer(db: Db, c: int, n: int, ranking: seq<int>)
    requires forall s :: s in Frame(db) ==> s.customerId != c
    ensures Collab(db, c, n, ranking) == Popular(db, n)
  {
    var frame := Frame(db);
    forall i | 0 <= i < |frame| ensures SaleCustomer(frame[i]) != c {
      assert frame[i] in frame;
    }
    SelectAbsent(frame, SaleCustomer, c);
  }

  /** The collaborative picks are distinct books that some similar customer bought and the
      customer did not, at most `n` of them, and all such books up to that cap. */
  lemma CollabIdsSpec(frame: seq<Sale>, c: int, n: int, ranking: seq<int>)
    ensures var ids := CollabIds(frame, c, n, ranking);
      var similar := SimilarUsers(ranking);
      var cands := Candidates(frame, c, similar);
      && Distinct(ids)
      && (forall b :: b in ids ==>
            b !in Bought(frame, c) && exists u :: u in similar && b in Bought(frame, u))
      && (n >= 0 ==> |ids| == Min(n, |set b | b in cands|))
  {
    var similar := SimilarUsers(ranking);
    var cands := Candidates(frame, c, similar);
    var u := Unique(cands);
    var ids := CollabIds(frame, c, n, ranking);
    UniqueSpec(cands);
    forall i, j | 0 <= i < j < |ids| ensures ids[i] != ids[j] {
      assert ids[i] == u[i] && ids[j] == u[j];
    }
    forall b | b in ids ensures b in cands {
      var i :| 0 <= i < |ids| && ids[i] == b;
      assert u[i] == b && u[i] in u;
    }
  }

  // ---------------------------------------------------------------- content-based filtering

  /** `sort_values(ascending=False)[1:n+1]`: the ranking without its first entry, at most `n`
      books. */
  function SimilarBooks(ranking: seq<int>, n: int): (bs: seq<int>)
    ensures n >= 0 ==> |bs| <= n
    ensures n >= 0 && |ranking| > 0 ==> bs == ranking[1..Min(n + 1, |ranking|)]
    ensures |ranking| == 0 ==> bs == []
  {
    Slice(ranking, 1, n + 1)
  }

  /** `get_content_based_recommendations(book_id, n)`: a book that is not in the feature
      matrix (no book has that id) gets the popular books instead. */
  function Content(db: Db, bookId: int, n: int, ranking: seq<int>): Result<seq<Rec>, Error> {
    if FindBook(db.books, bookId).None? then Popular(db, n)
    else Lookup(db.books, SimilarBooks(ranking, n), ContentBased)
  }

  /** A book id outside the catalogue gets exactly the popular books. */
  lemma ContentUnknownBook(db: Db, bookId: int, n: int, ranking: seq<int>)
    requires forall b :: b in db.books ==> b.id != bookId
    ensures Content(db, bookId, n, ranking) == Popular(db, n)
  {
    forall i | 0 <= i < |db.books| ensures db.books[i].id != bookId {
      assert db.books[i] in db.books;
    }
  }

  /** For a catalogued book and a budget `n >= 0`, the content-based picks are the ranking's
      entries after the first, at most `n` of them, in ranking order; the lookup fails exactly
      when one of those ids has no book. */
  lemma ContentSpec(db: Db, bookId: int, n: int, ranking: seq<int>)
    requires n >= 0 && exists b :: b in db.books && b.id == bookId
    ensures var r := Content(db, bookId, n, ranking);
      var picks := if |ranking| == 0 then [] else ranking[1..Min(n + 1, |ranking|)];
      && (r.Success? <==> forall b :: b in picks ==> FindBook(db.books, b).Some?)
      && (r.Success? ==>
            && |r.value| == |picks| <= n
            && forall i :: 0 <= i < |picks| ==>
                 r.value[i].bookId == picks[i] && r.value[i].kind == ContentBased)
  {
    var b :| b in db.books && b.id == bookId;
    var k :| 0 <= k < |db.books| && db.books[k] == b;
    assert FindBook(db.books, bookId).Some?;
    var picks := SimilarBooks(ranking, n);
    assert picks == if |ranking| == 0 then [] else ranking[1..Min(n + 1, |ranking|)];
    if forall x :: x in picks ==> FindBook(db.books, x).Some? {
      forall i | 0 <= i < |picks| ensures FindBook(db.books, picks[i]).Some? {
        assert picks[i] in picks;
      }
    } else {
      var x :| x in picks && FindBook(db.books, x).None?;
      var i :| 0 <= i < |picks| && picks[i] == x;
      assert Content(db, bookId, n, ranking) == Lookup(db.books, picks, ContentBased);
      assert FindBook(db.books, picks[i]).None?;
    }
  }

  // ---------------------------------------------------------------- personalised mix

  /** `sort_values('date', ascending=False).iloc[0]`: a purchase with the latest date. */
  function Latest(ps: seq<Sale>): (s: Sale)
    requires |ps| > 0
    ensures s in ps
    ensures forall p :: p in ps ==> LessEq(p.date, s.date)
  {
    if |ps| == 1 then
      LessIrreflexive(ps[0].date);
      assert forall p :: p in ps ==> p == ps[0];
      ps[0]
    else
      var t := Latest(ps[1..]);
      LatestStep(ps, t);
      if Less(ps[0].date, t.date) then t else ps[0]
  }

  lemma LatestStep(ps: seq<Sale>, t: Sale)
    requires |ps| > 1 && t in ps[1..]
    requires forall p :: p in ps[1..] ==> LessEq(p.date, t.date)
    ensures Less(ps[0].date, t.date) ==> forall p :: p in ps ==> LessEq(p.date, t.date)
    ensures !Less(ps[0].date, t.date) ==> forall p :: p in ps ==> LessEq(p.date, ps[0].date)
  {
    assert forall p :: p in ps ==> p == ps[0] || p in ps[1..];
    LessAsymmetric(ps[0].date, t.date);
    LessIrreflexive(ps[0].date);
    if !Less(ps[0].date, t.date) {
      forall p | p in ps[1..] ensures LessEq(p.date, ps[0].date) {
        LessEqTransitive(p.date, t.date, ps[0].date);
      }
    }
  }

  /** `get_personalized_recommendations(customer_id, n)`: the popular books for a customer
      with no purchases; otherwise up to `n // 2` collaborative picks followed by content-based
      picks for the most recently bought book, filling the rest of the budget. */
  function Personalized(db: Db, c: int, n: int, users: seq<int>, booksLike: int -> seq<int>)
    : Result<seq<Rec>, Error>
  {
    var purchases := Select(Frame(db), SaleCustomer, c);
    if |purchases| == 0 then Popular(db, n)
    else Combine(db, Collab(db, c, n / 2, users), Latest(purchases).bookId, n, booksLike)
  }

  /** The collaborative picks followed by the content-based picks for book `last`, which
      fill what the collaborative ones leave of the budget `n`. */
  function Combine(db: Db, collab: Result<seq<Rec>, Error>, last: int, n: int, booksLike: int -> seq<int>)
    : Result<seq<Rec>, Error>
  {
    match collab
    case Failure(e) => Failure(e)
    case Success(picks) =>
      match Content(db, last, n - |picks|, booksLike(last))
      case Failure(e) => Failure(e)
      case Success(content) => Success(picks + content)
  }

  /** A customer with no purchases gets exactly the popular books. */
  lemma PersonalizedNewCustomer(db: Db, c: int, n: int, users: seq<int>, booksLike: int -> seq<int>)
    requires forall s :: s in Frame(db) ==> s.customerId != c
    ensures Personalized(db, c, n, users, booksLike) == Popular(db, n)
  {
    var frame := Frame(db);
    forall i | 0 <= i < |frame| ensures SaleCustomer(frame[i]) != c {
      assert frame[i] in frame;
    }
    SelectAbsent(frame, SaleCustomer, c);
  }

  /** Popular books never exceed a non-negative budget. */
  lemma PopularAtMost(db: Db, n: int)
    requires n >= 0 && Popular(db, n).Success?
    ensures |Popular(db, n).value| <= n
    ensures forall r :: r in Popular(db, n).value ==> r.kind == PopularityBased
  {
    PopularIdsSpec(db, n);
  }

  /** Content-based picks (or the popular fallback) never exceed a non-negative budget. */
  lemma ContentAtMost(db: Db, bookId: int, n: int, ranking: seq<int>)
    requires n >= 0 && Content(db, bookId, n, ranking).Success?
    ensures |Content(db, bookId, n, ranking).value| <= n
    ensures forall r :: r in Content(db, bookId, n, ranking).value ==> r.kind != Collaborative
  {
    if FindBook(db.books, bookId).None? {
      PopularAtMost(db, n);
    }
  }

  /** `recs` opens with `k` collaborative picks of books outside `bought`, and none of the
      rest is collaborative. */
  predicate CollabFirst(recs: seq<Rec>, k: int, bought: seq<int>) {
    && 0 <= k <= |recs|
    && (forall i :: 0 <= i < k ==> recs[i].kind == Collaborative && recs[i].bookId !in bought)
    && (forall i :: k <= i < |recs| ==> recs[i].kind != Collaborative)
  }

  /** For a customer with purchases and a budget `n >= 0`: at most `n` recommendations, of
      which the collaborative ones come first, number at most `n / 2`, and are books the
      customer has not bought; none of the rest is collaborative. */
  lemma PersonalizedBudget(db: Db, c: int, n: int, users: seq<int>, booksLike: int -> seq<int>)
    requires n >= 0
    requires exists s :: s in Frame(db) && s.customerId == c
    requires Personalized(db, c, n, users, booksLike).Success?
    ensures var recs := Personalized(db, c, n, users, booksLike).value;
      && |recs| <= n
      && exists k :: 0 <= k <= n / 2 && CollabFirst(recs, k, Bought(Frame(db), c))
  {
    var frame := Frame(db);
    var s :| s in frame && s.customerId == c;
    var i :| 0 <= i < |frame| && frame[i] == s;
    SelectHas(frame, SaleCustomer, c, i);
    var purchases := Select(frame, SaleCustomer, c);
    var last := Latest(purchases).bookId;
    PersonalizedIsCombine(db, c, n, users, booksLike);
    CollabBudget(db, c, n, users, last, booksLike);
  }

  /** For a customer with purchases, the personalised list is the collaborative list combined
      with the content-based list for the latest purchase. */
  lemma PersonalizedIsCombine(db: Db, c: int, n: int, users: seq<int>, booksLike: int -> seq<int>)
    requires |Select(Frame(db), SaleCustomer, c)| > 0
    ensures Personalized(db, c, n, users, booksLike)
         == Combine(db, Collab(db, c, n / 2, users), Latest(Select(Frame(db), SaleCustomer, c)).bookId, n, booksLike)
  {
  }

  lemma CollabBudget(db: Db, c: int, n: int, users: seq<int>, last: int, booksLike: int -> seq<int>)
    requires n >= 0 && |Select(Frame(db), SaleCustomer, c)| > 0
    requires Combine(db, Collab(db, c, n / 2, users), last, n, booksLike).Success?
    ensures var recs := Combine(db, Collab(db, c, n / 2, users), last, n, booksLike).value;
      && |recs| <= n
      && exists k :: 0 <= k <= n / 2 && CollabFirst(recs, k, Bought(Frame(db), c))
  {
    var frame := Frame(db);
    var ids := CollabIds(frame, c, n / 2, users);
    CollabIdsSpec(frame, c, n / 2, users);
    var collab := Collab(db, c, n / 2, users);
    assert collab == Lookup(db.books, ids, Collaborative);
    CombineBudget(db, collab.value, ids, last, n, booksLike, Bought(frame, c));
  }

  lemma CombineBudget(db: Db, picks: seq<Rec>, ids: seq<int>, last: int, n: int,
                      booksLike: int -> seq<int>, bought: seq<int>)
    requires n >= 0 && Combine(db, Success(picks), last, n, booksLike).Success?
    requires |picks| == |ids| <= n / 2
    requires forall i :: 0 <= i < |ids| ==> picks[i].bookId == ids[i] && picks[i].kind == Collaborative
    requires forall b :: b in ids ==> b !in bought
    ensures var recs := Combine(db, Success(picks), last, n, booksLike).value;
      |recs| <= n && CollabFirst(recs, |ids|, bought)
  {
    var m := n - |picks|;
    var content := Content(db, last, m, booksLike(last));
    assert content.Success?;
    ContentAtMost(db, last, m, booksLike(last));
    CollabFirstJoin(picks, content.value, ids, bought);
  }

  lemma CollabFirstJoin(collab: seq<Rec>, content: seq<Rec>, ids: seq<int>, bought: seq<int>)
    requires |collab| == |ids| && forall i :: 0 <= i < |ids| ==> collab[i].bookId == ids[i]
    requires forall i :: 0 <= i < |collab| ==> collab[i].kind == Collaborative
    requires forall b :: b in ids ==> b !in bought
    requires forall r :: r in content ==> r.kind != Collaborative
    ensures CollabFirst(collab + content, |collab|, bought)
  {
    var recs := collab + content;
    forall j | 0 <= j < |collab| ensures recs[j].kind == Collaborative && recs[j].bookId !in bought {
      assert recs[j] == collab[j] && ids[j] in ids;
    }
    forall j | |collab| <= j < |recs| ensures recs[j].kind != Collaborative {
      assert recs[j] == content[j - |collab|] && content[j - |collab|] in content;
    }
  }
}
