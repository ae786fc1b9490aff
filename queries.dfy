/**
 * The four read-only queries: `ListBooks`, `ListReaders`, `GetBook` and
 * `GetReader`. Each is a function of the tables, so none of them can
 * change the store, and each goes through `LibraryQuery#execute`.
 */
module Queries {
  import opened Wrappers
  import opened Text
  import opened Schema
  import opened LibraryResult
  import opened LibraryCommand
  import opened Pagination
  import opened BookModel
  import opened Serializers

  const StatusMessage := "must be one of: borrowed, available"

  /** `VALID_STATUSES.include?(status.downcase)`. */
  predicate KnownStatus(s: string) {
    Downcase(s) == Borrowed || Downcase(s) == Available
  }

  /** `validate_status`: a present status that is neither filter, in any letter case. */
  predicate BadStatus(status: Option<string>) {
    Present(status) && !KnownStatus(status.value)
  }

  /** The three branches of `base_query`'s `case status&.downcase`. */
  datatype Filter = AllBooks | OnlyBorrowed | OnlyAvailable

  function FilterOf(status: Option<string>): (f: Filter)
    ensures f == OnlyBorrowed <==> status.Some? && Downcase(status.value) == Borrowed
    ensures f == OnlyAvailable <==> status.Some? && Downcase(status.value) == Available
  {
    match status
    case None => AllBooks
    case Some(s) =>
      if Downcase(s) == Borrowed then OnlyBorrowed
      else if Downcase(s) == Available then OnlyAvailable
      else AllBooks
  }

  /** The `where` a filter adds to the join with the active borrows. */
  predicate Keeps(f: Filter, borrows: Table<BorrowAttrs>, b: Book) {
    match f
    case AllBooks => true
    case OnlyBorrowed => HasActiveBorrow(borrows, b.id)
    case OnlyAvailable => !HasActiveBorrow(borrows, b.id)
  }

  /** `base_query`: the books the filter keeps, in `created_at` order. */
  function FilterBooks(books: Table<BookAttrs>, borrows: Table<BorrowAttrs>, f: Filter): (r: Table<BookAttrs>)
    ensures |r| <= |books|
    ensures forall k :: 0 <= k < |r| ==> r[k] in books && Keeps(f, borrows, r[k])
    ensures forall k :: 0 <= k < |books| && Keeps(f, borrows, books[k]) ==> books[k] in r
  {
    if books == [] then []
    else if Keeps(f, borrows, books[0]) then [books[0]] + FilterBooks(books[1..], borrows, f)
    else FilterBooks(books[1..], borrows, f)
  }

  /** Filtering keeps the listing in `created_at` order. */
  lemma {:induction false} FilterKeepsOrder(books: Table<BookAttrs>, borrows: Table<BorrowAttrs>, f: Filter, next: nat)
    requires Stamped(books, next)
    ensures Stamped(FilterBooks(books, borrows, f), next)
  {
    if books != [] {
      assert Stamped(books[1..], next);
      FilterKeepsOrder(books[1..], borrows, f, next);
      var rest := FilterBooks(books[1..], borrows, f);
      forall k | 0 <= k < |rest|
        ensures books[0].id < rest[k].id && books[0].createdAt < rest[k].createdAt
      {
        var j :| 0 <= j < |books[1..]| && books[1..][j] == rest[k];
        assert books[j + 1] == rest[k];
      }
      if Keeps(f, borrows, books[0]) {
        StampedCons(books[0], rest, next);
      }
    }
  }

  /**
   * The "borrowed" and "available" listings split the books: together they
   * hold every book exactly once, and without a filter every book is listed.
   */
  lemma {:induction false} FiltersPartition(books: Table<BookAttrs>, borrows: Table<BorrowAttrs>)
    ensures FilterBooks(books, borrows, AllBooks) == books
    ensures multiset(FilterBooks(books, borrows, OnlyBorrowed)) + multiset(FilterBooks(books, borrows, OnlyAvailable)) == multiset(books)
    ensures |FilterBooks(books, borrows, OnlyBorrowed)| + |FilterBooks(books, borrows, OnlyAvailable)| == |books|
  {
    if books != [] {
      FiltersPartition(books[1..], borrows);
      assert books == [books[0]] + books[1..];
    }
  }

  /** The `borrow_status` column of the join: "borrowed" when an active borrow joined. */
  function BorrowStatusColumn(borrows: Table<BorrowAttrs>, bookId: Id): (s: string)
    ensures s == Borrowed <==> HasActiveBorrow(borrows, bookId)
    ensures s == Available <==> !HasActiveBorrow(borrows, bookId)
  {
    if HasActiveBorrow(borrows, bookId) then Borrowed else Available
  }

  /** The `with_status` rows of a listing, the status taken from the join. */
  function StatusRows(s: Table<BookAttrs>, borrows: Table<BorrowAttrs>): (r: seq<BookWithStatus>)
    ensures |r| == |s|
    ensures forall k :: 0 <= k < |s| ==> r[k].book == ViewBook(s[k])
    ensures forall k :: 0 <= k < |s| ==> r[k].status == BookStatus(Some(BorrowStatusColumn(borrows, s[k].id)), HasActiveBorrow(borrows, s[k].id))
  {
    if s == [] then []
    else
      var b := s[0];
      [BookWithStatus(ViewBook(b), BookStatus(Some(BorrowStatusColumn(borrows, b.id)), HasActiveBorrow(borrows, b.id)))]
        + StatusRows(s[1..], borrows)
  }

  /** `valid?` of `ListBooks`: the pagination errors, then the status error. */
  function ListBooksErrors(page: Option<string>, perPage: Option<string>, status: Option<string>): (e: FieldErrors)
    ensures "page" in e <==> BadNumber(page)
    ensures "per_page" in e <==> BadNumber(perPage)
    ensures "status" in e <==> BadStatus(status)
    ensures e.Keys <= {"page", "per_page", "status"}
    ensures "page" in e ==> e["page"] == [MustBePositive]
    ensures "per_page" in e ==> e["per_page"] == [MustBePositive]
    ensures "status" in e ==> e["status"] == [StatusMessage]
  {
    AddErrorIf(PaginationErrors(map[], page, perPage), BadStatus(status), "status", StatusMessage)
  }

  /**
   * `ListBooks#execute`. Invalid parameters give unprocessable with their
   * errors. Otherwise the data is the requested page of the filtered books
   * in creation order, each with its status, and `meta` holds the size of
   * the whole filtered listing with the normalised page and page size.
   */
  function ListBooks(books: Table<BookAttrs>, borrows: Table<BorrowAttrs>, page: Option<string>, perPage: Option<string>, status: Option<string>): (x: Executed<Data>)
    ensures ListBooksErrors(page, perPage, status) != map[] ==> x == Completed(ValidationFailure(ListBooksErrors(page, perPage, status)))
    ensures ListBooksErrors(page, perPage, status) == map[] ==>
              && x.Completed? && IsSuccess(x.result) && x.result.status == Some(Ok)
              && x.result.data.Some? && x.result.data.value.BookPage?
              && x.result.data.value.meta == Meta(|FilterBooks(books, borrows, FilterOf(status))|, NormalizedPage(page), NormalizedPerPage(perPage))
              && x.result.data.value.books == Paginate(StatusRows(FilterBooks(books, borrows, FilterOf(status)), borrows), NormalizedPage(page), NormalizedPerPage(perPage))
  {
    var e := ListBooksErrors(page, perPage, status);
    if e != map[] then QueryExecute(Returned(ValidationFailure(e)))
    else
      var listed := FilterBooks(books, borrows, FilterOf(status));
      var p := NormalizedPage(page);
      var pp := NormalizedPerPage(perPage);
      QueryExecute(Returned(Success(BookPage(Paginate(StatusRows(listed, borrows), p, pp), Meta(|listed|, p, pp)), Ok)))
  }

  /**
   * Each row shows "borrowed" exactly when its book has an active borrow,
   * and a "borrowed" or "available" filter lists only books of that status.
   */
  predicate StatusesTrue(rows: seq<BookWithStatus>, borrows: Table<BorrowAttrs>, f: Filter) {
    && (forall i :: 0 <= i < |rows| ==> (rows[i].status == Borrowed <==> HasActiveBorrow(borrows, rows[i].book.id)))
    && (forall i :: 0 <= i < |rows| ==> rows[i].status == Borrowed || rows[i].status == Available)
    && (f == OnlyBorrowed ==> forall i :: 0 <= i < |rows| ==> rows[i].status == Borrowed)
    && (f == OnlyAvailable ==> forall i :: 0 <= i < |rows| ==> rows[i].status == Available)
  }

  /** Every page of a `ListBooks` success shows each book's true status. */
  lemma ListedStatusIsTrue(books: Table<BookAttrs>, borrows: Table<BorrowAttrs>, page: Option<string>, perPage: Option<string>, status: Option<string>)
    requires ListBooksErrors(page, perPage, status) == map[]
    ensures StatusesTrue(ListBooks(books, borrows, page, perPage, status).result.data.value.books, borrows, FilterOf(status))
  {
    var listed := FilterBooks(books, borrows, FilterOf(status));
    PageStatus(listed, borrows, FilterOf(status), NormalizedPage(page), NormalizedPerPage(perPage));
  }

  /** The status of each row on a page of a filtered listing. */
  lemma PageStatus(listed: Table<BookAttrs>, borrows: Table<BorrowAttrs>, f: Filter, p: nat, pp: nat)
    requires p >= 1
    requires forall k :: 0 <= k < |listed| ==> Keeps(f, borrows, listed[k])
    ensures StatusesTrue(Paginate(StatusRows(listed, borrows), p, pp), borrows, f)
  {
    var all := StatusRows(listed, borrows);
    forall k | 0 <= k < |all|
      ensures all[k].status == Borrowed <==> HasActiveBorrow(borrows, all[k].book.id)
      ensures all[k].status == Borrowed || all[k].status == Available
      ensures f == OnlyBorrowed ==> all[k].status == Borrowed
      ensures f == OnlyAvailable ==> all[k].status == Available
    {
      assert Keeps(f, borrows, listed[k]);
    }
    StatusesTrueOnPage(all, borrows, f, p, pp);
  }

  /** A page of a listing whose statuses are true shows true statuses. */
  lemma StatusesTrueOnPage(all: seq<BookWithStatus>, borrows: Table<BorrowAttrs>, f: Filter, p: nat, pp: nat)
    requires p >= 1 && StatusesTrue(all, borrows, f)
    ensures StatusesTrue(Paginate(all, p, pp), borrows, f)
  {
    var rows := Paginate(all, p, pp);
    forall i | 0 <= i < |rows|
      ensures exists k :: 0 <= k < |all| && rows[i] == all[k]
    {
      var o := Offset(p, pp);
      assert rows[i] == all[o + i];
    }
  }

  /** `ListReaders#valid?`: only the pagination parameters are checked. */
  function ListReadersErrors(page: Option<string>, perPage: Option<string>): (e: FieldErrors)
    ensures "page" in e <==> BadNumber(page)
    ensures "per_page" in e <==> BadNumber(perPage)
    ensures e.Keys <= {"page", "per_page"}
    ensures "page" in e ==> e["page"] == [MustBePositive]
    ensures "per_page" in e ==> e["per_page"] == [MustBePositive]
  {
    PaginationErrors(map[], page, perPage)
  }

  function ReaderViews(s: Table<ReaderAttrs>): (r: seq<ReaderView>)
    ensures |r| == |s|
    ensures forall k :: 0 <= k < |s| ==> r[k] == ViewReader(s[k])
  {
    if s == [] then [] else [ViewReader(s[0])] + ReaderViews(s[1..])
  }

  /**
   * `ListReaders#execute`: the requested page of all readers in creation
   * order; `meta.total` counts every reader, whatever the page.
   */
  function ListReaders(readers: Table<ReaderAttrs>, page: Option<string>, perPage: Option<string>): (x: Executed<Data>)
    ensures ListReadersErrors(page, perPage) != map[] ==> x == Completed(ValidationFailure(ListReadersErrors(page, perPage)))
    ensures ListReadersErrors(page, perPage) == map[] ==>
              && x.Completed? && IsSuccess(x.result) && x.result.status == Some(Ok)
              && x.result.data.Some? && x.result.data.value.ReaderPage?
              && x.result.data.value.meta == Meta(|readers|, NormalizedPage(page), NormalizedPerPage(perPage))
              && var rows := x.result.data.value.readers;
                 && |rows| <= NormalizedPerPage(perPage)
                 && forall i :: 0 <= i < |rows| ==>
                      Offset(NormalizedPage(page), NormalizedPerPage(perPage)) + i < |readers|
                      && rows[i] == ViewReader(readers[Offset(NormalizedPage(page), NormalizedPerPage(perPage)) + i])
    ensures ListReadersErrors(page, perPage) == map[] ==>
              x.result.data.value.readers == Paginate(ReaderViews(readers), NormalizedPage(page), NormalizedPerPage(perPage))
  {
    var e := ListReadersErrors(page, perPage);
    if e != map[] then QueryExecute(Returned(ValidationFailure(e)))
    else
      var p := NormalizedPage(page);
      var pp := NormalizedPerPage(perPage);
      QueryExecute(Returned(Success(ReaderPage(Paginate(ReaderViews(readers), p, pp), Meta(|readers|, p, pp)), Ok)))
  }

  /**
   * `GetBook#execute`: a missing id is unprocessable, an unknown one
   * not_found; a known book comes back with its status and its whole
   * borrow history, most recent first.
   */
  function GetBook(books: Table<BookAttrs>, borrows: Table<BorrowAttrs>, readers: Table<ReaderAttrs>, id: Option<Id>): (x: Executed<Data>)
    requires ReadersKnown(borrows, readers)
    ensures id.None? ==> x == Completed(ValidationFailure(MissingField("id")))
    ensures id.Some? && Find(books, id.value).None? ==> x == Completed(BaseFailure(NotFound, RecordNotFoundMessage))
    ensures id.Some? && Find(books, id.value).Some? ==>
              x == Completed(Success(BookDetailData(Detail(books[Find(books, id.value).value], borrows, readers)), Ok))
  {
    match id
    case None => QueryExecute(Returned(ValidationFailure(MissingField("id"))))
    case Some(i) =>
      match Find(books, i)
      case None => QueryExecute(Threw(RecordNotFound))
      case Some(k) => QueryExecute(Returned(Success(BookDetailData(Detail(books[k], borrows, readers)), Ok)))
  }

  /** `GetReader#execute`: the reader's four fields, or the same two failures as `GetBook`. */
  function GetReader(readers: Table<ReaderAttrs>, id: Option<Id>): (x: Executed<Data>)
    ensures id.None? ==> x == Completed(ValidationFailure(MissingField("id")))
    ensures id.Some? && Find(readers, id.value).None? ==> x == Completed(BaseFailure(NotFound, RecordNotFoundMessage))
    ensures id.Some? && Find(readers, id.value).Some? ==>
              x == Completed(Success(ReaderData(ViewReader(readers[Find(readers, id.value).value])), Ok))
  {
    match id
    case None => QueryExecute(Returned(ValidationFailure(MissingField("id"))))
    case Some(i) =>
      match Find(readers, i)
      case None => QueryExecute(Threw(RecordNotFound))
      case Some(k) => QueryExecute(Returned(Success(ReaderData(ViewReader(readers[k])), Ok)))
  }

  /** A found book's id, serial number, title and author come back unchanged. */
  lemma GetBookShowsTheBook(books: Table<BookAttrs>, borrows: Table<BorrowAttrs>, readers: Table<ReaderAttrs>, next: nat, k: nat)
    requires ReadersKnown(borrows, readers) && Stamped(books, next) && k < |books|
    ensures var x := GetBook(books, borrows, readers, Some(books[k].id));
            && x.Completed? && IsSuccess(x.result)
            && x.result.data.value.detail.book == BookView(books[k].id, books[k].attrs.serialNumber, books[k].attrs.title, books[k].attrs.author)
  {
    FindUnique(books, next, k);
  }
}
