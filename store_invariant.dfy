/**
 * What the database guarantees of the four tables at every commit: the
 * foreign keys, the unique indexes, the partial unique index on active
 * borrows, and the known reminder types; plus the creation order of each
 * table. The serial-number format and the presence validations of books
 * and readers are not part of it. Every command of `Store.Library` keeps
 * this; each lemma here is the step one command takes.
 */
module StoreInvariant {
  import opened Wrappers
  import opened Schema
  import opened BookModel
  import opened ReaderModel
  import opened BorrowModel
  import opened ReminderModel
  import opened Cascade

  /** The foreign keys of book_borrows: every borrow's book and reader exist. */
  ghost predicate BorrowsLinked(t: Tables) {
    forall k :: 0 <= k < |t.borrows| ==>
      Find(t.books, t.borrows[k].attrs.bookId).Some? && Find(t.readers, t.borrows[k].attrs.readerId).Some?
  }

  /** The foreign key of reminders: every reminder's borrow exists. */
  ghost predicate RemindersLinked(t: Tables) {
    forall k :: 0 <= k < |t.reminders| ==> Find(t.borrows, t.reminders[k].attrs.borrowId).Some?
  }

  /** The unique index on books.serial_number. */
  ghost predicate UniqueBookSerials(books: Table<BookAttrs>) {
    forall x, y :: x in books && y in books && x.id != y.id ==> x.attrs.serialNumber != y.attrs.serialNumber
  }

  /** The unique indexes on readers.serial_number and readers.email. */
  ghost predicate UniqueReaderKeys(readers: Table<ReaderAttrs>) {
    forall x, y :: x in readers && y in readers && x.id != y.id ==>
      x.attrs.serialNumber != y.attrs.serialNumber && x.attrs.email != y.attrs.email
  }

  /** The unique index on reminders (book_borrow_id, reminder_type), and every type one of TYPES. */
  ghost predicate RemindersWellFormed(reminders: Table<ReminderAttrs>) {
    && (forall x :: x in reminders ==> x.attrs.reminderType in Types)
    && (forall x, y :: x in reminders && y in reminders && x.id != y.id && x.attrs.borrowId == y.attrs.borrowId ==>
          x.attrs.reminderType != y.attrs.reminderType)
  }

  ghost predicate AllStamped(t: Tables, next: nat) {
    Stamped(t.books, next) && Stamped(t.readers, next) && Stamped(t.borrows, next) && Stamped(t.reminders, next)
  }

  /** The store invariant. */
  ghost predicate Consistent(t: Tables, next: nat) {
    && AllStamped(t, next)
    && OneActivePerBook(t.borrows)
    && BorrowsLinked(t)
    && RemindersLinked(t)
    && UniqueBookSerials(t.books)
    && UniqueReaderKeys(t.readers)
    && RemindersWellFormed(t.reminders)
  }

  /** The empty store is consistent. */
  lemma EmptyConsistent()
    ensures Consistent(Tables([], [], [], []), 0)
  {
  }

  lemma AllStampedGrow(t: Tables, next: nat)
    requires AllStamped(t, next)
    ensures AllStamped(t, next + 1)
  {
    StampedGrow(t.books, next, next + 1);
    StampedGrow(t.readers, next, next + 1);
    StampedGrow(t.borrows, next, next + 1);
    StampedGrow(t.reminders, next, next + 1);
  }

  /** `Book.create!` of a book whose serial is free keeps the store consistent. */
  lemma AddBookKeeps(t: Tables, next: nat, a: BookAttrs)
    requires Consistent(t, next)
    requires !SerialTaken(t.books, a.serialNumber, None)
    ensures Consistent(t.(books := t.books + [Row(next, next, a)]), next + 1)
  {
    var row := Row(next, next, a);
    var t' := t.(books := t.books + [row]);
    AllStampedGrow(t, next);
    StampedAppend(t.books, next, a);
    forall k | 0 <= k < |t.borrows|
      ensures Find(t'.books, t.borrows[k].attrs.bookId).Some?
    {
      FindAppend(t.books, row, t.borrows[k].attrs.bookId);
    }
    forall x, y | x in t'.books && y in t'.books && x.id != y.id
      ensures x.attrs.serialNumber != y.attrs.serialNumber
    {
      if x == row {
        var j :| 0 <= j < |t.books| && t.books[j] == y;
      } else if y == row {
        var j :| 0 <= j < |t.books| && t.books[j] == x;
      }
    }
  }

  /** `Reader.create!` of a reader whose serial and email are free keeps the store consistent. */
  lemma AddReaderKeeps(t: Tables, next: nat, a: ReaderAttrs)
    requires Consistent(t, next)
    requires !ReaderSerialTaken(t.readers, a.serialNumber, None) && !EmailTaken(t.readers, a.email, None)
    ensures Consistent(t.(readers := t.readers + [Row(next, next, a)]), next + 1)
  {
    var row := Row(next, next, a);
    var t' := t.(readers := t.readers + [row]);
    AllStampedGrow(t, next);
    StampedAppend(t.readers, next, a);
    forall k | 0 <= k < |t.borrows|
      ensures Find(t'.readers, t.borrows[k].attrs.readerId).Some?
    {
      FindAppend(t.readers, row, t.borrows[k].attrs.readerId);
    }
    forall x, y | x in t'.readers && y in t'.readers && x.id != y.id
      ensures x.attrs.serialNumber != y.attrs.serialNumber && x.attrs.email != y.attrs.email
    {
      if x == row {
        var j :| 0 <= j < |t.readers| && t.readers[j] == y;
      } else if y == row {
        var j :| 0 <= j < |t.readers| && t.readers[j] == x;
      }
    }
  }

  /** `BookBorrow.create!` of an active borrow of an existing, unborrowed book by an existing reader. */
  lemma AddBorrowKeeps(t: Tables, next: nat, a: BorrowAttrs)
    requires Consistent(t, next)
    requires Find(t.books, a.bookId).Some? && Find(t.readers, a.readerId).Some?
    requires a.returnDate.None? && !HasActiveBorrow(t.borrows, a.bookId)
    ensures Consistent(t.(borrows := t.borrows + [Row(next, next, a)]), next + 1)
  {
    var row := Row(next, next, a);
    AllStampedGrow(t, next);
    StampedAppend(t.borrows, next, a);
    GuardsAgree(t.borrows, row);
    forall k | 0 <= k < |t.reminders|
      ensures Find(t.borrows + [row], t.reminders[k].attrs.borrowId).Some?
    {
      FindAppend(t.borrows, row, t.reminders[k].attrs.borrowId);
    }
  }

  /** `update!(return_date:)` on a borrow keeps the store consistent. */
  lemma ReturnKeeps(t: Tables, next: nat, k: nat, d: Date)
    requires Consistent(t, next) && k < |t.borrows|
    ensures var b := t.borrows[k];
            Consistent(t.(borrows := t.borrows[k := Row(b.id, b.createdAt, b.attrs.(returnDate := Some(d)))]), next)
  {
    var b := t.borrows[k];
    var a := b.attrs.(returnDate := Some(d));
    var bs := t.borrows[k := Row(b.id, b.createdAt, a)];
    ReturnKeepsOneActive(t.borrows, k, d);
    StampedAfterUpdate(t.borrows, next, k, a);
    forall j | 0 <= j < |bs|
      ensures Find(t.books, bs[j].attrs.bookId).Some? && Find(t.readers, bs[j].attrs.readerId).Some?
    {
      assert bs[j].attrs.bookId == t.borrows[j].attrs.bookId && bs[j].attrs.readerId == t.borrows[j].attrs.readerId;
    }
    forall j | 0 <= j < |t.reminders|
      ensures Find(bs, t.reminders[j].attrs.borrowId).Some?
    {
      FindAfterUpdate(t.borrows, k, a, t.reminders[j].attrs.borrowId);
    }
  }

  /** `update!(sent_at:)` on a reminder keeps the store consistent. */
  lemma MarkSentKeeps(t: Tables, next: nat, k: nat, now: Instant)
    requires Consistent(t, next) && k < |t.reminders|
    ensures var r := t.reminders[k];
            Consistent(t.(reminders := t.reminders[k := Row(r.id, r.createdAt, r.attrs.(sentAt := Some(now)))]), next)
  {
    var r := t.reminders[k];
    var rs := t.reminders[k := Row(r.id, r.createdAt, r.attrs.(sentAt := Some(now)))];
    MarkSentSameKeys(t.reminders, k, now);
    WellFormedBySameKeys(t.reminders, rs, next);
    LinkedBySameKeys(t, rs);
  }

  lemma MarkSentSameKeys(reminders: Table<ReminderAttrs>, k: nat, now: Instant)
    requires k < |reminders|
    ensures var r := reminders[k];
            var rs := reminders[k := Row(r.id, r.createdAt, r.attrs.(sentAt := Some(now)))];
            forall j :: 0 <= j < |rs| ==> SameKeys(rs[j], reminders[j])
  {
  }

  lemma LinkedBySameKeys(t: Tables, rs: Table<ReminderAttrs>)
    requires RemindersLinked(t)
    requires |rs| == |t.reminders| && forall j :: 0 <= j < |rs| ==> SameKeys(rs[j], t.reminders[j])
    ensures RemindersLinked(t.(reminders := rs))
  {
    forall j | 0 <= j < |rs|
      ensures Find(t.borrows, rs[j].attrs.borrowId).Some?
    {
      assert SameKeys(rs[j], t.reminders[j]);
    }
  }

  /** Two reminder rows agree on everything but `sent_at`. */
  predicate SameKeys(x: Reminder, y: Reminder) {
    x.id == y.id && x.createdAt == y.createdAt && x.attrs.borrowId == y.attrs.borrowId && x.attrs.reminderType == y.attrs.reminderType
  }

  lemma WellFormedBySameKeys(a: Table<ReminderAttrs>, b: Table<ReminderAttrs>, next: nat)
    requires |a| == |b| && forall j :: 0 <= j < |b| ==> SameKeys(b[j], a[j])
    requires RemindersWellFormed(a) && Stamped(a, next)
    ensures RemindersWellFormed(b) && Stamped(b, next)
  {
    forall x | x in b
      ensures x.attrs.reminderType in Types
    {
      var i :| 0 <= i < |b| && b[i] == x;
      assert a[i] in a;
    }
    forall x, y | x in b && y in b && x.id != y.id && x.attrs.borrowId == y.attrs.borrowId
      ensures x.attrs.reminderType != y.attrs.reminderType
    {
      var i :| 0 <= i < |b| && b[i] == x;
      var j :| 0 <= j < |b| && b[j] == y;
      assert a[i] in a && a[j] in a;
    }
  }

  /** `update!` of a book's attributes to ones whose serial no other book holds. */
  lemma UpdateBookKeeps(t: Tables, next: nat, k: nat, a: BookAttrs)
    requires Consistent(t, next) && k < |t.books|
    requires !SerialTaken(t.books, a.serialNumber, Some(t.books[k].id))
    ensures var b := t.books[k];
            Consistent(t.(books := t.books[k := Row(b.id, b.createdAt, a)]), next)
  {
    StampedAfterUpdate(t.books, next, k, a);
    UniqueBookSerialsUpdate(t.books, k, a);
    FindAllAfterUpdate(t.books, k, a);
  }

  /** A new serial that no other book holds keeps the serials unique. */
  lemma UniqueBookSerialsUpdate(books: Table<BookAttrs>, k: nat, a: BookAttrs)
    requires UniqueBookSerials(books) && k < |books|
    requires !SerialTaken(books, a.serialNumber, Some(books[k].id))
    ensures UniqueBookSerials(books[k := Row(books[k].id, books[k].createdAt, a)])
  {
    var bs := books[k := Row(books[k].id, books[k].createdAt, a)];
    forall x, y | x in bs && y in bs && x.id != y.id
      ensures x.attrs.serialNumber != y.attrs.serialNumber
    {
      var i :| 0 <= i < |bs| && bs[i] == x;
      var j :| 0 <= j < |bs| && bs[j] == y;
      if i == k {
        assert books[j] == y;
      } else if j == k {
        assert books[i] == x;
      } else {
        assert books[i] == x && books[j] == y;
      }
    }
  }

  /** `update!` of a reader's attributes to ones whose serial and email no other reader holds. */
  lemma UpdateReaderKeeps(t: Tables, next: nat, k: nat, a: ReaderAttrs)
    requires Consistent(t, next) && k < |t.readers|
    requires !ReaderSerialTaken(t.readers, a.serialNumber, Some(t.readers[k].id))
    requires !EmailTaken(t.readers, a.email, Some(t.readers[k].id))
    ensures var r := t.readers[k];
            Consistent(t.(readers := t.readers[k := Row(r.id, r.createdAt, a)]), next)
  {
    StampedAfterUpdate(t.readers, next, k, a);
    UniqueReaderKeysUpdate(t.readers, k, a);
    FindAllAfterUpdate(t.readers, k, a);
  }

  /** A new serial and email that no other reader holds keep both unique. */
  lemma UniqueReaderKeysUpdate(readers: Table<ReaderAttrs>, k: nat, a: ReaderAttrs)
    requires UniqueReaderKeys(readers) && k < |readers|
    requires !ReaderSerialTaken(readers, a.serialNumber, Some(readers[k].id))
    requires !EmailTaken(readers, a.email, Some(readers[k].id))
    ensures UniqueReaderKeys(readers[k := Row(readers[k].id, readers[k].createdAt, a)])
  {
    var rs := readers[k := Row(readers[k].id, readers[k].createdAt, a)];
    forall x, y | x in rs && y in rs && x.id != y.id
      ensures x.attrs.serialNumber != y.attrs.serialNumber && x.attrs.email != y.attrs.email
    {
      var i :| 0 <= i < |rs| && rs[i] == x;
      var j :| 0 <= j < |rs| && rs[j] == y;
      if i == k {
        assert readers[j] == y;
      } else if j == k {
        assert readers[i] == x;
      } else {
        assert readers[i] == x && readers[j] == y;
      }
    }
  }

  /** `Reminder.create!` of a reminder whose validations pass keeps the store consistent. */
  lemma AddReminderKeeps(t: Tables, next: nat, a: ReminderAttrs)
    requires Consistent(t, next)
    requires ReminderErrors(a, Find(t.borrows, a.borrowId).Some?, TypeTaken(t.reminders, a.borrowId, a.reminderType, None)) == map[]
    ensures Consistent(t.(reminders := t.reminders + [Row(next, next, a)]), next + 1)
  {
    AllStampedGrow(t, next);
    StampedAppend(t.reminders, next, a);
    WellFormedAppend(t.reminders, Row(next, next, a));
    LinkedAppend(t, Row(next, next, a));
  }

  /** A reminder of an existing borrow keeps the reminders linked. */
  lemma LinkedAppend(t: Tables, row: Reminder)
    requires RemindersLinked(t) && Find(t.borrows, row.attrs.borrowId).Some?
    ensures RemindersLinked(t.(reminders := t.reminders + [row]))
  {
    var rs := t.reminders + [row];
    forall j | 0 <= j < |rs|
      ensures Find(t.borrows, rs[j].attrs.borrowId).Some?
    {
      if j < |t.reminders| {
        assert rs[j] == t.reminders[j];
      }
    }
  }

  /** A reminder of a listed type whose (borrow, type) pair is new keeps the reminders well formed. */
  lemma WellFormedAppend(reminders: Table<ReminderAttrs>, row: Reminder)
    requires RemindersWellFormed(reminders) && row.attrs.reminderType in Types
    requires !TypeTaken(reminders, row.attrs.borrowId, row.attrs.reminderType, None)
    ensures RemindersWellFormed(reminders + [row])
  {
    var rs := reminders + [row];
    forall x | x in rs
      ensures x.attrs.reminderType in Types
    {
      if x != row {
        assert x in reminders;
      }
    }
    forall x, y | x in rs && y in rs && x.id != y.id && x.attrs.borrowId == y.attrs.borrowId
      ensures x.attrs.reminderType != y.attrs.reminderType
    {
      if x == row {
        var j :| 0 <= j < |reminders| && reminders[j] == y;
      } else if y == row {
        var j :| 0 <= j < |reminders| && reminders[j] == x;
      } else {
        assert x in reminders && y in reminders;
      }
    }
  }

  /**
   * The `update!(return_date:)` of a book's active borrow passes the
   * BookBorrow validations, so it never raises RecordInvalid.
   */
  lemma ReturnValidates(t: Tables, next: nat, k: nat, d: Date)
    requires Consistent(t, next) && k < |t.borrows| && t.borrows[k].attrs.returnDate.None?
    ensures var b := t.borrows[k];
            BorrowErrors(t.books, t.readers, t.borrows, Row(b.id, b.createdAt, b.attrs.(returnDate := Some(d)))) == map[]
  {
    var b := t.borrows[k];
    forall j | 0 <= j < |t.borrows| && t.borrows[j].id != b.id
      ensures !IsActiveFor(t.borrows[j], b.attrs.bookId)
    {
      assert j != k;
    }
  }

  /**
   * The `update!(sent_at:)` of a stored reminder passes the Reminder
   * validations, so it never raises RecordInvalid.
   */
  lemma MarkSentValidates(t: Tables, next: nat, k: nat, now: Instant)
    requires Consistent(t, next) && k < |t.reminders|
    ensures var r := t.reminders[k];
            ReminderErrors(r.attrs.(sentAt := Some(now)), Find(t.borrows, r.attrs.borrowId).Some?,
                           TypeTaken(t.reminders, r.attrs.borrowId, r.attrs.reminderType, Some(r.id))) == map[]
  {
    var r := t.reminders[k];
    assert r in t.reminders;
    forall j | 0 <= j < |t.reminders| && t.reminders[j].attrs.borrowId == r.attrs.borrowId && t.reminders[j].attrs.reminderType == r.attrs.reminderType
      ensures t.reminders[j].id == r.id
    {
      assert t.reminders[j] in t.reminders;
    }
  }

  /** The tables after `destroy!` of the parent `o`, which first destroys each of its borrows. */
  function AfterDestroy(t: Tables, o: Owner): Tables {
    match o
    case BookOwner(id) => t.(books := Remove(t.books, id), borrows := Disowned(t.borrows, o))
    case ReaderOwner(id) => t.(readers := Remove(t.readers, id), borrows := Disowned(t.borrows, o))
  }

  /** Any stamped selection of a table's borrows keeps the index rule. */
  lemma OneActiveOnSelection(b: Table<BorrowAttrs>, r: Table<BorrowAttrs>, next: nat)
    requires OneActivePerBook(b) && Stamped(r, next)
    requires forall k :: 0 <= k < |r| ==> r[k] in b
    ensures OneActivePerBook(r)
  {
    forall i, j | 0 <= i < j < |r| && r[i].attrs.bookId == r[j].attrs.bookId
      ensures r[i].attrs.returnDate.Some? || r[j].attrs.returnDate.Some?
    {
      var p :| 0 <= p < |b| && b[p] == r[i];
      var q :| 0 <= q < |b| && b[q] == r[j];
      assert r[i].id < r[j].id;
    }
  }

  /** Removing rows keeps a table's unique book serials. */
  lemma UniqueBookSerialsRemove(books: Table<BookAttrs>, id: Id)
    requires UniqueBookSerials(books)
    ensures UniqueBookSerials(Remove(books, id))
  {
    var r := Remove(books, id);
    forall x, y | x in r && y in r && x.id != y.id
      ensures x.attrs.serialNumber != y.attrs.serialNumber
    {
      var i :| 0 <= i < |r| && r[i] == x;
      var j :| 0 <= j < |r| && r[j] == y;
    }
  }

  /** Removing rows keeps a table's unique reader serials and emails. */
  lemma UniqueReaderKeysRemove(readers: Table<ReaderAttrs>, id: Id)
    requires UniqueReaderKeys(readers)
    ensures UniqueReaderKeys(Remove(readers, id))
  {
    var r := Remove(readers, id);
    forall x, y | x in r && y in r && x.id != y.id
      ensures x.attrs.serialNumber != y.attrs.serialNumber && x.attrs.email != y.attrs.email
    {
      var i :| 0 <= i < |r| && r[i] == x;
      var j :| 0 <= j < |r| && r[j] == y;
    }
  }

  /** Every reminder still finds its borrow once the parent's unreferenced borrows are gone. */
  lemma DisownedKeepsReminders(t: Tables, o: Owner)
    requires RemindersLinked(t) && !Blocks(t.borrows, t.reminders, o)
    ensures RemindersLinked(t.(borrows := Disowned(t.borrows, o)))
  {
    var kept := Disowned(t.borrows, o);
    BlocksAt(t.borrows, t.reminders, o);
    forall k | 0 <= k < |t.reminders|
      ensures Find(kept, t.reminders[k].attrs.borrowId).Some?
    {
      var p := Find(t.borrows, t.reminders[k].attrs.borrowId).value;
      assert Referenced(t.reminders, t.borrows[p].id);
      assert t.borrows[p] in kept;
      var j :| 0 <= j < |kept| && kept[j] == t.borrows[p];
    }
  }

  /** The surviving borrows still find their book and their reader. */
  lemma DisownedKeepsParents(t: Tables, o: Owner)
    requires BorrowsLinked(t)
    ensures BorrowsLinked(AfterDestroy(t, o))
  {
    var t' := AfterDestroy(t, o);
    var kept := t'.borrows;
    forall k | 0 <= k < |kept|
      ensures Find(t'.books, kept[k].attrs.bookId).Some? && Find(t'.readers, kept[k].attrs.readerId).Some?
    {
      var p :| 0 <= p < |t.borrows| && t.borrows[p] == kept[k];
      match o {
        case BookOwner(id) => FindRemoveOther(t.books, id, kept[k].attrs.bookId);
        case ReaderOwner(id) => FindRemoveOther(t.readers, id, kept[k].attrs.readerId);
      }
    }
  }

  /**
   * `destroy!` of a book or a reader whose borrows no reminder points at
   * keeps the store consistent.
   */
  lemma DestroyKeeps(t: Tables, next: nat, o: Owner)
    requires Consistent(t, next) && !Blocks(t.borrows, t.reminders, o)
    ensures Consistent(AfterDestroy(t, o), next)
  {
    DisownedStamped(t.borrows, o, next);
    OneActiveOnSelection(t.borrows, Disowned(t.borrows, o), next);
    DisownedKeepsReminders(t, o);
    DisownedKeepsParents(t, o);
    match o {
      case BookOwner(id) =>
        StampedRemove(t.books, next, id);
        UniqueBookSerialsRemove(t.books, id);
      case ReaderOwner(id) =>
        StampedRemove(t.readers, next, id);
        UniqueReaderKeysRemove(t.readers, id);
    }
  }

  /** After the active borrow of a book is returned, the book has no active borrow. */
  lemma ReturnEndsLoan(t: Tables, next: nat, k: nat, d: Date)
    requires Consistent(t, next) && k < |t.borrows| && t.borrows[k].attrs.returnDate.None?
    ensures var b := t.borrows[k];
            !HasActiveBorrow(t.borrows[k := Row(b.id, b.createdAt, b.attrs.(returnDate := Some(d)))], b.attrs.bookId)
  {
    var b := t.borrows[k];
    var bs := t.borrows[k := Row(b.id, b.createdAt, b.attrs.(returnDate := Some(d)))];
    forall j | 0 <= j < |bs|
      ensures !IsActiveFor(bs[j], b.attrs.bookId)
    {
      if j != k {
        assert bs[j] == t.borrows[j];
      }
    }
  }

  /** Once a reader is gone with their borrows, every book they held actively is available. */
  lemma ReaderLeavesBooksAvailable(borrows: Table<BorrowAttrs>, id: Id, k: nat)
    requires OneActivePerBook(borrows) && k < |borrows|
    requires borrows[k].attrs.readerId == id && borrows[k].attrs.returnDate.None?
    ensures !HasActiveBorrow(Disowned(borrows, ReaderOwner(id)), borrows[k].attrs.bookId)
  {
    var kept := Disowned(borrows, ReaderOwner(id));
    forall j | 0 <= j < |kept|
      ensures !IsActiveFor(kept[j], borrows[k].attrs.bookId)
    {
      var p :| 0 <= p < |borrows| && borrows[p] == kept[j];
      assert p != k;
    }
  }
}
