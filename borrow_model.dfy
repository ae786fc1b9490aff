/**
 * The BookBorrow model: the 30-day loan period, the model validations
 * (both parents exist; no other active borrow of the same book), the
 * `active` / `returned` / `most_recent_first` scopes, and the table-wide
 * rule the partial unique index `index_book_borrows_active_borrow`
 * enforces: at most one borrow per book has a nil return date.
 */
module BorrowModel {
  import opened Wrappers
  import opened Schema
  import opened LibraryResult
  import opened BookModel

  const LoanPeriodDays := 30
  const AlreadyActive := "already has an active borrow"

  /** The due date of a borrow made on `borrowDate`. */
  function DueDate(borrowDate: Date): (d: Date)
    ensures d - borrowDate == 30
  {
    borrowDate + LoanPeriodDays
  }

  /** The partial unique index: no two borrows of one book are both active. */
  ghost predicate OneActivePerBook(borrows: Table<BorrowAttrs>) {
    forall i, j :: 0 <= i < j < |borrows| && borrows[i].attrs.bookId == borrows[j].attrs.bookId
      ==> borrows[i].attrs.returnDate.Some? || borrows[j].attrs.returnDate.Some?
  }

  /**
   * The uniqueness validation's query (with its `return_date: nil`
   * condition): a borrow other than `self` is active for the book. The
   * record's own return date plays no part.
   */
  predicate OtherActiveFor(borrows: Table<BorrowAttrs>, bookId: Id, self: Id) {
    exists k :: 0 <= k < |borrows| && borrows[k].id != self && IsActiveFor(borrows[k], bookId)
  }

  /**
   * `errors.to_hash` after `valid?` on borrow `b`: `belongs_to` requires
   * the book and the reader to exist; the dates are always present here
   * since the model's dates cannot be nil; then the uniqueness of an
   * active borrow per book.
   */
  function BorrowErrors(books: Table<BookAttrs>, readers: Table<ReaderAttrs>, borrows: Table<BorrowAttrs>, b: Borrow): (e: FieldErrors)
    ensures e == map[] <==> && Find(books, b.attrs.bookId).Some?
                            && Find(readers, b.attrs.readerId).Some?
                            && !OtherActiveFor(borrows, b.attrs.bookId, b.id)
    ensures "book" in e <==> Find(books, b.attrs.bookId).None?
    ensures "reader" in e <==> Find(readers, b.attrs.readerId).None?
    ensures "book_id" in e <==> OtherActiveFor(borrows, b.attrs.bookId, b.id)
    ensures e.Keys <= {"book", "reader", "book_id"}
    ensures "book" in e ==> e["book"] == [MustExist]
    ensures "reader" in e ==> e["reader"] == [MustExist]
    ensures "book_id" in e ==> e["book_id"] == [AlreadyActive]
  {
    var e0 := AddErrorIf(map[], Find(books, b.attrs.bookId).None?, "book", MustExist);
    var e1 := AddErrorIf(e0, Find(readers, b.attrs.readerId).None?, "reader", MustExist);
    var e := AddErrorIf(e1, OtherActiveFor(borrows, b.attrs.bookId, b.id), "book_id", AlreadyActive);
    assert e == map[] <==> e.Keys == {} by {
      if e.Keys == {} { assert e == map[]; }
    }
    e
  }

  /** Under the index rule an active borrow of a book is the one `active_borrow` finds. */
  lemma TheActiveBorrow(borrows: Table<BorrowAttrs>, k: nat)
    requires OneActivePerBook(borrows)
    requires k < |borrows| && borrows[k].attrs.returnDate.None?
    ensures ActiveBorrow(borrows, borrows[k].attrs.bookId) == Some(k)
  {
  }

  /**
   * The three guards agree. For a new active borrow `b` with a fresh id,
   * the pre-check (`active_borrow` is nil), the model validation (no other
   * active borrow) and the partial unique index (the table with `b`
   * appended keeps one active borrow per book) all accept or all refuse.
   */
  lemma GuardsAgree(borrows: Table<BorrowAttrs>, b: Borrow)
    requires OneActivePerBook(borrows)
    requires b.attrs.returnDate.None?
    requires forall k :: 0 <= k < |borrows| ==> borrows[k].id != b.id
    ensures OtherActiveFor(borrows, b.attrs.bookId, b.id) <==> HasActiveBorrow(borrows, b.attrs.bookId)
    ensures OneActivePerBook(borrows + [b]) <==> !HasActiveBorrow(borrows, b.attrs.bookId)
  {
    var s := borrows + [b];
    var n := |borrows|;
    match ActiveBorrow(borrows, b.attrs.bookId)
    case Some(j) =>
      assert s[j].attrs.bookId == s[n].attrs.bookId && s[j].attrs.returnDate.None?;
      assert !OneActivePerBook(s);
      assert OtherActiveFor(borrows, b.attrs.bookId, b.id);
    case None =>
      forall i, j | 0 <= i < j < |s| && s[i].attrs.bookId == s[j].attrs.bookId
        ensures s[i].attrs.returnDate.Some? || s[j].attrs.returnDate.Some?
      {
        if j == n {
          assert !IsActiveFor(borrows[i], b.attrs.bookId);
        }
      }
  }

  /** Setting the return date of one borrow keeps the index rule. */
  lemma ReturnKeepsOneActive(borrows: Table<BorrowAttrs>, k: nat, d: Date)
    requires OneActivePerBook(borrows) && k < |borrows|
    ensures OneActivePerBook(borrows[k := Row(borrows[k].id, borrows[k].createdAt, borrows[k].attrs.(returnDate := Some(d)))])
  {
  }

  /** Scope `active`: the borrows whose return date is nil, in table order. */
  function Active(borrows: Table<BorrowAttrs>): (r: Table<BorrowAttrs>)
    ensures forall k :: 0 <= k < |r| ==> r[k] in borrows && r[k].attrs.returnDate.None?
    ensures forall k :: 0 <= k < |borrows| && borrows[k].attrs.returnDate.None? ==> borrows[k] in r
  {
    if borrows == [] then []
    else if borrows[0].attrs.returnDate.None? then [borrows[0]] + Active(borrows[1..])
    else Active(borrows[1..])
  }

  /** Scope `returned`: the borrows whose return date is set, in table order. */
  function Returned(borrows: Table<BorrowAttrs>): (r: Table<BorrowAttrs>)
    ensures forall k :: 0 <= k < |r| ==> r[k] in borrows && r[k].attrs.returnDate.Some?
    ensures forall k :: 0 <= k < |borrows| && borrows[k].attrs.returnDate.Some? ==> borrows[k] in r
  {
    if borrows == [] then []
    else if borrows[0].attrs.returnDate.Some? then [borrows[0]] + Returned(borrows[1..])
    else Returned(borrows[1..])
  }

  /** `active` and `returned` split the table: every borrow is in exactly one, once. */
  lemma {:induction false} ActiveReturnedPartition(borrows: Table<BorrowAttrs>)
    ensures multiset(Active(borrows)) + multiset(Returned(borrows)) == multiset(borrows)
  {
    if borrows != [] {
      ActiveReturnedPartition(borrows[1..]);
      assert borrows == [borrows[0]] + borrows[1..];
    }
  }

  /** The ordering key `[borrow_date, created_at]`: `a` comes no later than `b`. */
  predicate NotOlder(a: Borrow, b: Borrow) {
    a.attrs.borrowDate > b.attrs.borrowDate
    || (a.attrs.borrowDate == b.attrs.borrowDate && a.createdAt >= b.createdAt)
  }

  /** Ordered by borrow date, then creation, both descending. */
  predicate MostRecentFirstOrdered(s: seq<Borrow>) {
    forall i, j :: 0 <= i < j < |s| ==> NotOlder(s[i], s[j])
  }

  /** Inserts `b` into a most-recent-first list at its place. */
  function InsertByRecency(b: Borrow, s: seq<Borrow>): (r: seq<Borrow>)
    requires MostRecentFirstOrdered(s)
    ensures MostRecentFirstOrdered(r)
    ensures multiset(r) == multiset(s) + multiset{b}
  {
    if s == [] then [b]
    else if NotOlder(b, s[0]) then [b] + s
    else
      var rest := InsertByRecency(b, s[1..]);
      assert s == [s[0]] + s[1..];
      assert forall k :: 0 <= k < |rest| ==> NotOlder(s[0], rest[k]) by {
        forall k | 0 <= k < |rest|
          ensures NotOlder(s[0], rest[k])
        {
          assert rest[k] in multiset(rest);
          if rest[k] != b {
            assert rest[k] in multiset(s[1..]);
            assert rest[k] in s[1..];
          }
        }
      }
      [s[0]] + rest
  }

  /**
   * Scope `most_recent_first` and the blueprint's
   * `sort_by { [borrow_date, created_at] }.reverse`: the same borrows,
   * most recent first.
   */
  function MostRecentFirst(s: seq<Borrow>): (r: seq<Borrow>)
    ensures MostRecentFirstOrdered(r)
    ensures multiset(r) == multiset(s)
    ensures |r| == |s|
  {
    if s == [] then []
    else
      assert s == [s[0]] + s[1..];
      InsertByRecency(s[0], MostRecentFirst(s[1..]))
  }
}
