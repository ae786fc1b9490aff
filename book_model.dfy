/**
 * The Book model: its validations and its `active_borrow` association
 * (the book's borrow whose `return_date` is nil). Its `dependent: :destroy`
 * cascade is carried out by `Store.Library.DeregisterBook`.
 */
module BookModel {
  import opened Wrappers
  import opened Text
  import opened Schema
  import opened SerialNumber
  import opened LibraryResult

  /**
   * The uniqueness validation's query: some row other than `self` (the
   * record being saved, None for a new one) already holds `serial`.
   */
  predicate SerialTaken(books: Table<BookAttrs>, serial: string, self: Option<Id>) {
    exists k :: 0 <= k < |books| && books[k].attrs.serialNumber == serial && (self.None? || books[k].id != self.value)
  }

  /**
   * `errors.to_hash` after `valid?` on a book with attributes `a`:
   * the serial-number rule, then presence of title and author.
   */
  function BookErrors(a: BookAttrs, serialTaken: bool): (e: FieldErrors)
    ensures e == map[] <==> ValidSerialNumber(a.serialNumber) && !serialTaken && !Blank(a.title) && !Blank(a.author)
    ensures "serial_number" in e <==> !ValidSerialNumber(a.serialNumber) || serialTaken
    ensures "serial_number" in e ==> e["serial_number"] == SerialNumberMessages(a.serialNumber, serialTaken)
    ensures "title" in e <==> Blank(a.title)
    ensures "author" in e <==> Blank(a.author)
    ensures e.Keys <= {"serial_number", "title", "author"}
    ensures "title" in e ==> e["title"] == [CantBeBlank]
    ensures "author" in e ==> e["author"] == [CantBeBlank]
  {
    var serial := SerialNumberMessages(a.serialNumber, serialTaken);
    var e0: FieldErrors := if serial == [] then map[] else map["serial_number" := serial];
    var e1 := AddErrorIf(e0, Blank(a.title), "title", CantBeBlank);
    var e := AddErrorIf(e1, Blank(a.author), "author", CantBeBlank);
    assert e == map[] <==> e.Keys == {} by {
      if e.Keys == {} { assert e == map[]; }
    }
    e
  }

  /** The borrow is of this book and still active. */
  predicate IsActiveFor(b: Borrow, bookId: Id) {
    b.attrs.bookId == bookId && b.attrs.returnDate.None?
  }

  /** `book.active_borrow`: the (first) borrow of the book whose return date is nil. */
  function ActiveBorrow(borrows: Table<BorrowAttrs>, bookId: Id): (r: Option<nat>)
    ensures r.Some? ==> r.value < |borrows| && IsActiveFor(borrows[r.value], bookId)
    ensures r.None? <==> forall k :: 0 <= k < |borrows| ==> !IsActiveFor(borrows[k], bookId)
  {
    if borrows == [] then None
    else if IsActiveFor(borrows[0], bookId) then Some(0)
    else match ActiveBorrow(borrows[1..], bookId)
      case None => None
      case Some(k) => Some(k + 1)
  }

  /** `book.active_borrow.present?`. */
  predicate HasActiveBorrow(borrows: Table<BorrowAttrs>, bookId: Id) {
    ActiveBorrow(borrows, bookId).Some?
  }

  /** `book.book_borrows`: the borrows of the book, in table order. */
  function BorrowsOf(borrows: Table<BorrowAttrs>, bookId: Id): (r: Table<BorrowAttrs>)
    ensures |r| <= |borrows|
    ensures forall k :: 0 <= k < |r| ==> r[k] in borrows && r[k].attrs.bookId == bookId
    ensures forall k :: 0 <= k < |borrows| && borrows[k].attrs.bookId == bookId ==> borrows[k] in r
    ensures r == [] <==> forall k :: 0 <= k < |borrows| ==> borrows[k].attrs.bookId != bookId
  {
    if borrows == [] then []
    else if borrows[0].attrs.bookId == bookId then [borrows[0]] + BorrowsOf(borrows[1..], bookId)
    else BorrowsOf(borrows[1..], bookId)
  }
}
