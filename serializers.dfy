/**
 * The blueprints: what a book, a borrow and a reader look like in a
 * result's data, the derived `status` of a book, and the book's borrow
 * history ordered most recent first. `Data` gathers every shape of data a
 * command or query returns.
 */
module Serializers {
  import opened Wrappers
  import opened Schema
  import opened BookModel
  import opened BorrowModel

  /** `BookBlueprint`, default view: identifier and three fields. */
  datatype BookView = BookView(id: Id, serialNumber: string, title: string, author: string)

  /** `BookBlueprint`, view `with_status`. */
  datatype BookWithStatus = BookWithStatus(book: BookView, status: string)

  /** `BookBlueprint`, view `with_borrows`: the status view plus the borrow history. */
  datatype BookDetail = BookDetail(book: BookView, status: string, borrows: seq<BorrowView>)

  /** `BookBorrowBlueprint`: the reader's card number and email and the three dates; no ids. */
  datatype BorrowView = BorrowView(readerCardNumber: string, readerEmail: string, borrowDate: Date, dueDate: Date, returnDate: Option<Date>)

  /** `ReaderBlueprint`: identifier and the reader's three fields. */
  datatype ReaderView = ReaderView(id: Id, serialNumber: string, email: string, fullName: string)

  /** The `meta` of a listing. */
  datatype Meta = Meta(total: nat, page: nat, perPage: nat)

  /** Every shape of `Result#data`; the two pages are the hashes with both `:data` and `:meta` keys. */
  datatype Data =
    | BookData(book: BookView)
    | BookDetailData(detail: BookDetail)
    | BorrowData(borrow: BorrowView)
    | ReaderData(reader: ReaderView)
    | BookPage(books: seq<BookWithStatus>, meta: Meta)
    | ReaderPage(readers: seq<ReaderView>, meta: Meta)

  /** `data.is_a?(Hash) && data.key?(:data) && data.key?(:meta)`. */
  predicate IsPage(d: Data) {
    d.BookPage? || d.ReaderPage?
  }

  const Borrowed := "borrowed"
  const Available := "available"

  /**
   * The `status` field: the `borrow_status` a listing query computed when
   * there is one, otherwise "borrowed" exactly when the book has an active
   * borrow and "available" otherwise.
   */
  function BookStatus(precomputed: Option<string>, hasActiveBorrow: bool): (s: string)
    ensures precomputed.Some? ==> s == precomputed.value
    ensures precomputed.None? ==> (s == Borrowed <==> hasActiveBorrow) && (s == Available <==> !hasActiveBorrow)
  {
    match precomputed
    case Some(v) => v
    case None => if hasActiveBorrow then Borrowed else Available
  }

  function ViewBook(b: Book): (v: BookView)
    ensures v.id == b.id && v.serialNumber == b.attrs.serialNumber
    ensures v.title == b.attrs.title && v.author == b.attrs.author
  {
    BookView(b.id, b.attrs.serialNumber, b.attrs.title, b.attrs.author)
  }

  function ViewReader(r: Reader): (v: ReaderView)
    ensures v.id == r.id && v.serialNumber == r.attrs.serialNumber
    ensures v.email == r.attrs.email && v.fullName == r.attrs.fullName
  {
    ReaderView(r.id, r.attrs.serialNumber, r.attrs.email, r.attrs.fullName)
  }

  /**
   * `BookBorrowBlueprint` of a borrow whose `reader` association is `r`:
   * the card number is the reader's serial number, the email the reader's
   * email, and the dates pass through, the return date nil while active.
   */
  function ViewBorrow(b: Borrow, r: Reader): (v: BorrowView)
    requires b.attrs.readerId == r.id
    ensures v.readerCardNumber == r.attrs.serialNumber && v.readerEmail == r.attrs.email
    ensures v.borrowDate == b.attrs.borrowDate && v.dueDate == b.attrs.dueDate
    ensures v.returnDate == b.attrs.returnDate
  {
    BorrowView(r.attrs.serialNumber, r.attrs.email, b.attrs.borrowDate, b.attrs.dueDate, b.attrs.returnDate)
  }

  /** Every borrow's reader is in the readers table (the `reader_id` foreign key). */
  predicate ReadersKnown(s: seq<Borrow>, readers: Table<ReaderAttrs>) {
    forall k :: 0 <= k < |s| ==> Find(readers, s[k].attrs.readerId).Some?
  }

  /** The borrows rendered one by one, each with its own reader. */
  function ViewBorrows(s: seq<Borrow>, readers: Table<ReaderAttrs>): (r: seq<BorrowView>)
    requires ReadersKnown(s, readers)
    ensures |r| == |s|
    ensures forall k :: 0 <= k < |s| ==>
      r[k] == ViewBorrow(s[k], readers[Find(readers, s[k].attrs.readerId).value])
  {
    if s == [] then []
    else [ViewBorrow(s[0], readers[Find(readers, s[0].attrs.readerId).value])] + ViewBorrows(s[1..], readers)
  }

  /**
   * The `with_borrows` view of `book`: its fields, its status, and all
   * its borrows, each once, most recent first by borrow date and then by
   * creation.
   */
  function Detail(book: Book, borrows: Table<BorrowAttrs>, readers: Table<ReaderAttrs>): (d: BookDetail)
    requires ReadersKnown(borrows, readers)
    ensures d.book == ViewBook(book)
    ensures d.status == Borrowed <==> HasActiveBorrow(borrows, book.id)
    ensures d.status == Available <==> !HasActiveBorrow(borrows, book.id)
    ensures |d.borrows| == |BorrowsOf(borrows, book.id)|
    ensures forall i, j :: 0 <= i < j < |d.borrows| ==> d.borrows[i].borrowDate >= d.borrows[j].borrowDate
    ensures HasActiveBorrow(borrows, book.id) <==> exists i :: 0 <= i < |d.borrows| && d.borrows[i].returnDate.None?
    ensures exists sorted: seq<Borrow> ::
              && multiset(sorted) == multiset(BorrowsOf(borrows, book.id))
              && MostRecentFirstOrdered(sorted)
              && ReadersKnown(sorted, readers)
              && d.borrows == ViewBorrows(sorted, readers)
  {
    var own := BorrowsOf(borrows, book.id);
    var sorted := MostRecentFirst(own);
    SortedReadersKnown(borrows, own, sorted, readers);
    var views := ViewBorrows(sorted, readers);
    ViewsKeepOrder(sorted, readers);
    HistoryShowsActive(borrows, book.id, own, sorted);
    BookDetail(ViewBook(book), BookStatus(None, HasActiveBorrow(borrows, book.id)), views)
  }

  lemma SortedReadersKnown(borrows: Table<BorrowAttrs>, own: seq<Borrow>, sorted: seq<Borrow>, readers: Table<ReaderAttrs>)
    requires ReadersKnown(borrows, readers)
    requires forall k :: 0 <= k < |own| ==> own[k] in borrows
    requires multiset(sorted) == multiset(own)
    ensures ReadersKnown(sorted, readers)
  {
    forall k | 0 <= k < |sorted|
      ensures Find(readers, sorted[k].attrs.readerId).Some?
    {
      assert sorted[k] in multiset(own);
      var j :| 0 <= j < |own| && own[j] == sorted[k];
      var i :| 0 <= i < |borrows| && borrows[i] == own[j];
    }
  }

  /** Rendering keeps the order of borrow dates and which borrows are unreturned. */
  lemma ViewsKeepOrder(sorted: seq<Borrow>, readers: Table<ReaderAttrs>)
    requires ReadersKnown(sorted, readers) && MostRecentFirstOrdered(sorted)
    ensures var v := ViewBorrows(sorted, readers);
            forall i, j :: 0 <= i < j < |v| ==> v[i].borrowDate >= v[j].borrowDate
    ensures var v := ViewBorrows(sorted, readers);
            (exists i :: 0 <= i < |v| && v[i].returnDate.None?) <==> exists i :: 0 <= i < |sorted| && sorted[i].attrs.returnDate.None?
  {
    var v := ViewBorrows(sorted, readers);
    forall i, j | 0 <= i < j < |v|
      ensures v[i].borrowDate >= v[j].borrowDate
    {
      assert NotOlder(sorted[i], sorted[j]);
    }
    assert forall i :: 0 <= i < |v| ==> v[i].returnDate == sorted[i].attrs.returnDate;
  }

  /** The book has an active borrow exactly when its sorted history holds an unreturned borrow. */
  lemma HistoryShowsActive(borrows: Table<BorrowAttrs>, bookId: Id, own: seq<Borrow>, sorted: seq<Borrow>)
    requires own == BorrowsOf(borrows, bookId) && multiset(sorted) == multiset(own)
    ensures HasActiveBorrow(borrows, bookId) <==> exists i :: 0 <= i < |sorted| && sorted[i].attrs.returnDate.None?
  {
    if HasActiveBorrow(borrows, bookId) {
      var k := ActiveBorrow(borrows, bookId).value;
      assert borrows[k] in multiset(sorted);
      var i :| 0 <= i < |sorted| && sorted[i] == borrows[k];
    }
    if i :| 0 <= i < |sorted| && sorted[i].attrs.returnDate.None? {
      assert sorted[i] in multiset(own);
      var j :| 0 <= j < |own| && own[j] == sorted[i];
      var k :| 0 <= k < |borrows| && borrows[k] == own[j];
      assert IsActiveFor(borrows[k], bookId);
    }
  }

  /** A book that was never borrowed shows an empty history and the status "available". */
  lemma NeverBorrowedIsAvailable(book: Book, borrows: Table<BorrowAttrs>, readers: Table<ReaderAttrs>)
    requires ReadersKnown(borrows, readers)
    requires forall k :: 0 <= k < |borrows| ==> borrows[k].attrs.bookId != book.id
    ensures Detail(book, borrows, readers).borrows == []
    ensures Detail(book, borrows, readers).status == Available
  {
  }
}
