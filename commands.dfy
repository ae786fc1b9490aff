/**
 * What each command of the library does to the store, as a function of
 * the tables before it runs: the value `execute` hands back, the tables
 * and the id counter afterwards, and the mails delivered on the way. The
 * in-place commands of `Store.Library` are proved equal to these; the
 * properties the commands promise are stated here, and the lemmas beside
 * each step show that it keeps the store invariant.
 *
 * String parameters are strings, with nil given as "" (both are blank);
 * id parameters are `Option<Id>`, with None for a nil or blank id.
 */
module Commands {
  import opened Wrappers
  import opened Text
  import opened Schema
  import opened LibraryResult
  import opened BookModel
  import opened ReaderModel
  import opened BorrowModel
  import opened ReminderModel
  import opened ReminderMailer
  import opened Serializers
  import opened LibraryCommand
  import opened Cascade
  import opened StoreInvariant

  const AlreadyBorrowed := "Book is already borrowed"
  const NotBorrowed := "Book is not currently borrowed"

  /** `BorrowBook`'s `validates :book_id, :reader_id, presence: true`. */
  function BorrowParamErrors(bookId: Option<Id>, readerId: Option<Id>): (e: FieldErrors)
    ensures e == map[] <==> bookId.Some? && readerId.Some?
    ensures "book_id" in e <==> bookId.None?
    ensures "reader_id" in e <==> readerId.None?
    ensures e.Keys <= {"book_id", "reader_id"}
    ensures forall f :: f in e ==> e[f] == [CantBeBlank]
  {
    var e0 := AddErrorIf(map[], bookId.None?, "book_id", CantBeBlank);
    var e := AddErrorIf(e0, readerId.None?, "reader_id", CantBeBlank);
    assert e == map[] <==> e.Keys == {} by {
      if e.Keys == {} { assert e == map[]; }
    }
    e
  }

  /**
   * The presence checks of `RegisterBook` and `RegisterReader`: each of
   * three distinct fields whose value is blank gets "can't be blank", in
   * the order given.
   */
  function PresenceErrors(f1: string, v1: string, f2: string, v2: string, f3: string, v3: string): (e: FieldErrors)
    requires f1 != f2 && f1 != f3 && f2 != f3
    ensures e == map[] <==> !Blank(v1) && !Blank(v2) && !Blank(v3)
    ensures f1 in e <==> Blank(v1)
    ensures f2 in e <==> Blank(v2)
    ensures f3 in e <==> Blank(v3)
    ensures e.Keys <= {f1, f2, f3}
    ensures forall f :: f in e ==> e[f] == [CantBeBlank]
  {
    var e0 := AddErrorIf(map[], Blank(v1), f1, CantBeBlank);
    var e1 := AddErrorIf(e0, Blank(v2), f2, CantBeBlank);
    var e := AddErrorIf(e1, Blank(v3), f3, CantBeBlank);
    assert e == map[] <==> e.Keys == {} by {
      if e.Keys == {} { assert e == map[]; }
    }
    e
  }

  /** `RegisterBook`'s presence checks on serial_number, title and author. */
  function BookParamErrors(serial: string, title: string, author: string): FieldErrors {
    PresenceErrors("serial_number", serial, "title", title, "author", author)
  }

  /** `RegisterReader`'s presence checks on serial_number, email and full_name. */
  function ReaderParamErrors(serial: string, email: string, fullName: string): FieldErrors {
    PresenceErrors("serial_number", serial, "email", email, "full_name", fullName)
  }

  /**
   * The attributes `UpdateBook` stores: each present parameter replaces
   * its field and each blank one keeps it, so a field never becomes blank.
   */
  function MergeBook(a: BookAttrs, serial: string, title: string, author: string): (m: BookAttrs)
    ensures Blank(serial) && Blank(title) && Blank(author) ==> m == a
    ensures m.serialNumber == a.serialNumber || (m.serialNumber == serial && !Blank(serial))
    ensures m.title == a.title || (m.title == title && !Blank(title))
    ensures m.author == a.author || (m.author == author && !Blank(author))
    ensures !Blank(serial) ==> m.serialNumber == serial
    ensures !Blank(title) ==> m.title == title
    ensures !Blank(author) ==> m.author == author
    ensures !Blank(a.title) ==> !Blank(m.title)
    ensures !Blank(a.author) ==> !Blank(m.author)
  {
    BookAttrs(
      if Blank(serial) then a.serialNumber else serial,
      if Blank(title) then a.title else title,
      if Blank(author) then a.author else author)
  }

  /** The attributes `UpdateReader` stores, by the same rule as `MergeBook`. */
  function MergeReader(a: ReaderAttrs, serial: string, email: string, fullName: string): (m: ReaderAttrs)
    ensures Blank(serial) && Blank(email) && Blank(fullName) ==> m == a
    ensures m.serialNumber == a.serialNumber || (m.serialNumber == serial && !Blank(serial))
    ensures m.email == a.email || (m.email == email && !Blank(email))
    ensures m.fullName == a.fullName || (m.fullName == fullName && !Blank(fullName))
    ensures !Blank(serial) ==> m.serialNumber == serial
    ensures !Blank(email) ==> m.email == email
    ensures !Blank(fullName) ==> m.fullName == fullName
    ensures !Blank(a.email) ==> !Blank(m.email)
    ensures !Blank(a.fullName) ==> !Blank(m.fullName)
  {
    ReaderAttrs(
      if Blank(serial) then a.serialNumber else serial,
      if Blank(email) then a.email else email,
      if Blank(fullName) then a.fullName else fullName)
  }

  /** The borrow a stored reminder belongs to. */
  function BorrowOf(t: Tables, r: Reminder): (b: Borrow)
    requires Find(t.borrows, r.attrs.borrowId).Some?
    ensures b in t.borrows && b.id == r.attrs.borrowId
  {
    t.borrows[Find(t.borrows, r.attrs.borrowId).value]
  }

  /** `reminder_email` for a stored reminder: built from its borrow, that borrow's book and its reader. */
  function MailFor(t: Tables, r: Reminder): (m: Mail)
    requires Find(t.borrows, r.attrs.borrowId).Some?
    requires Find(t.books, BorrowOf(t, r).attrs.bookId).Some? && Find(t.readers, BorrowOf(t, r).attrs.readerId).Some?
    ensures m.to == t.readers[Find(t.readers, BorrowOf(t, r).attrs.readerId).value].attrs.email
    ensures m.subject == SubjectFor(r.attrs.reminderType, t.books[Find(t.books, BorrowOf(t, r).attrs.bookId).value].attrs.title)
    ensures m.dueDate == BorrowOf(t, r).attrs.dueDate && m.reminderId == r.id
  {
    var b := BorrowOf(t, r);
    ReminderEmail(r, b, t.books[Find(t.books, b.attrs.bookId).value], t.readers[Find(t.readers, b.attrs.readerId).value])
  }

  /**
   * One command's effect: what `execute` returns (or lets escape), the
   * tables and counter once the transaction ends, and the mails sent.
   */
  datatype Step = Step(x: Executed<Data>, after: Tables, next: nat, sent: seq<Mail>)

  /** A command that ends without a write: the store stays as it was. */
  function Stay(t: Tables, next: nat, run: Run<Data>): Step {
    Step(Execute(run), t, next, [])
  }

  /**
   * `BorrowBook`. Both ids are required. The book is looked up first and
   * then the reader, so an unknown reader is not_found even for a
   * borrowed book. A book with an active borrow is refused; otherwise
   * one active borrow due 30 days from today is added and returned with
   * its reader, as created. No other table changes.
   */
  function BorrowStep(t: Tables, next: nat, bookId: Option<Id>, readerId: Option<Id>, today: Date): (s: Step)
    ensures s.x.Completed? && s.sent == []
    ensures s.after.books == t.books && s.after.readers == t.readers && s.after.reminders == t.reminders
    ensures bookId.None? || readerId.None? ==> s.x.result == ValidationFailure(BorrowParamErrors(bookId, readerId))
    ensures bookId.Some? && readerId.Some? && (Find(t.books, bookId.value).None? || Find(t.readers, readerId.value).None?) ==>
              s.x.result == BaseFailure(NotFound, RecordNotFoundMessage)
    ensures bookId.Some? && readerId.Some? && Find(t.books, bookId.value).Some? && Find(t.readers, readerId.value).Some?
            && HasActiveBorrow(t.borrows, bookId.value) ==>
              s.x.result == BaseFailure(Unprocessable, AlreadyBorrowed)
    ensures IsSuccess(s.x.result) <==>
              bookId.Some? && readerId.Some? && Find(t.books, bookId.value).Some? && Find(t.readers, readerId.value).Some?
              && !HasActiveBorrow(t.borrows, bookId.value)
    ensures IsFailure(s.x.result) ==> s.after == t && s.next == next
    ensures IsSuccess(s.x.result) ==>
              && s.next == next + 1
              && s.after.borrows == t.borrows + [Row(next, next, BorrowAttrs(bookId.value, readerId.value, today, DueDate(today), None))]
              && s.x.result == Success(BorrowData(ViewBorrow(s.after.borrows[|t.borrows|], t.readers[Find(t.readers, readerId.value).value])), Created)
  {
    var e := BorrowParamErrors(bookId, readerId);
    if e != map[] then Stay(t, next, Returned(ValidationFailure(e)))
    else if Find(t.books, bookId.value).None? || Find(t.readers, readerId.value).None? then Stay(t, next, Threw(RecordNotFound))
    else if HasActiveBorrow(t.borrows, bookId.value) then Stay(t, next, Returned(BaseFailure(Unprocessable, AlreadyBorrowed)))
    else
      var row := Row(next, next, BorrowAttrs(bookId.value, readerId.value, today, DueDate(today), None));
      var reader := t.readers[Find(t.readers, readerId.value).value];
      Step(Execute(Returned(Success(BorrowData(ViewBorrow(row, reader)), Created))), t.(borrows := t.borrows + [row]), next + 1, [])
  }

  /**
   * The borrow `BorrowBook` creates passes the BookBorrow validations, so
   * its `create!` never raises RecordInvalid: the command's own guards
   * cover the model's.
   */
  lemma BorrowStepValidates(t: Tables, next: nat, bookId: Id, readerId: Id, today: Date)
    requires Consistent(t, next)
    requires Find(t.books, bookId).Some? && Find(t.readers, readerId).Some? && !HasActiveBorrow(t.borrows, bookId)
    ensures BorrowErrors(t.books, t.readers, t.borrows, Row(next, next, BorrowAttrs(bookId, readerId, today, DueDate(today), None))) == map[]
  {
    GuardsAgree(t.borrows, Row(next, next, BorrowAttrs(bookId, readerId, today, DueDate(today), None)));
  }

  lemma BorrowStepKeeps(t: Tables, next: nat, bookId: Option<Id>, readerId: Option<Id>, today: Date)
    requires Consistent(t, next)
    ensures var s := BorrowStep(t, next, bookId, readerId, today);
            Consistent(s.after, s.next)
  {
    var s := BorrowStep(t, next, bookId, readerId, today);
    if IsSuccess(s.x.result) {
      AddBorrowKeeps(t, next, BorrowAttrs(bookId.value, readerId.value, today, DueDate(today), None));
    }
  }

  /**
   * `ReturnBook`. The book must exist and have an active borrow; that
   * borrow, and no other row, gets today as its return date, and it is
   * returned with its reader.
   */
  function ReturnStep(t: Tables, next: nat, bookId: Option<Id>, today: Date): (s: Step)
    requires BorrowsLinked(t)
    ensures s.x.Completed? && s.sent == [] && s.next == next
    ensures s.after.books == t.books && s.after.readers == t.readers && s.after.reminders == t.reminders
    ensures bookId.None? ==> s.x.result == ValidationFailure(MissingField("book_id"))
    ensures bookId.Some? && Find(t.books, bookId.value).None? ==> s.x.result == BaseFailure(NotFound, RecordNotFoundMessage)
    ensures bookId.Some? && Find(t.books, bookId.value).Some? && !HasActiveBorrow(t.borrows, bookId.value) ==>
              s.x.result == BaseFailure(Unprocessable, NotBorrowed)
    ensures IsSuccess(s.x.result) <==> bookId.Some? && Find(t.books, bookId.value).Some? && HasActiveBorrow(t.borrows, bookId.value)
    ensures IsFailure(s.x.result) ==> s.after == t
    ensures IsSuccess(s.x.result) ==>
              var k := ActiveBorrow(t.borrows, bookId.value).value;
              var b := t.borrows[k];
              && s.after.borrows == t.borrows[k := Row(b.id, b.createdAt, b.attrs.(returnDate := Some(today)))]
              && s.x.result == Success(BorrowData(ViewBorrow(s.after.borrows[k], t.readers[Find(t.readers, b.attrs.readerId).value])), Ok)
  {
    if bookId.None? then Stay(t, next, Returned(ValidationFailure(MissingField("book_id"))))
    else if Find(t.books, bookId.value).None? then Stay(t, next, Threw(RecordNotFound))
    else if ActiveBorrow(t.borrows, bookId.value).None? then Stay(t, next, Returned(BaseFailure(Unprocessable, NotBorrowed)))
    else
      var k := ActiveBorrow(t.borrows, bookId.value).value;
      var b := t.borrows[k];
      var returned := Row(b.id, b.createdAt, b.attrs.(returnDate := Some(today)));
      var reader := t.readers[Find(t.readers, b.attrs.readerId).value];
      Step(Execute(Returned(Success(BorrowData(ViewBorrow(returned, reader)), Ok))), t.(borrows := t.borrows[k := returned]), next, [])
  }

  lemma ReturnStepKeeps(t: Tables, next: nat, bookId: Option<Id>, today: Date)
    requires Consistent(t, next)
    ensures var s := ReturnStep(t, next, bookId, today);
            Consistent(s.after, s.next)
  {
    var s := ReturnStep(t, next, bookId, today);
    if IsSuccess(s.x.result) {
      ReturnKeeps(t, next, ActiveBorrow(t.borrows, bookId.value).value, today);
    }
  }

  /** After a successful `ReturnBook` the book has no active borrow, so it can be borrowed again. */
  lemma ReturnStepFreesBook(t: Tables, next: nat, bookId: Option<Id>, today: Date)
    requires Consistent(t, next)
    ensures var s := ReturnStep(t, next, bookId, today);
            IsSuccess(s.x.result) ==> !HasActiveBorrow(s.after.borrows, bookId.value)
  {
    var s := ReturnStep(t, next, bookId, today);
    if IsSuccess(s.x.result) {
      ReturnEndsLoan(t, next, ActiveBorrow(t.borrows, bookId.value).value, today);
    }
  }

  /** Returning a book twice: the second `ReturnBook` finds it not borrowed and changes nothing. */
  lemma {:induction false} ReturnTwice(t: Tables, next: nat, bookId: Id, today: Date, later: Date)
    requires Consistent(t, next)
    requires IsSuccess(ReturnStep(t, next, Some(bookId), today).x.result)
    ensures var s := ReturnStep(t, next, Some(bookId), today);
            BorrowsLinked(s.after) &&
            var s2 := ReturnStep(s.after, s.next, Some(bookId), later);
            s2.x.result == BaseFailure(Unprocessable, NotBorrowed) && s2.after == s.after
  {
    ReturnStepKeeps(t, next, Some(bookId), today);
    ReturnStepFreesBook(t, next, Some(bookId), today);
  }

  /** A returned book can be borrowed again, by any reader on record. */
  lemma {:induction false} BorrowAfterReturn(t: Tables, next: nat, bookId: Id, readerId: Id, today: Date, later: Date)
    requires Consistent(t, next) && Find(t.readers, readerId).Some?
    requires IsSuccess(ReturnStep(t, next, Some(bookId), today).x.result)
    ensures var s := ReturnStep(t, next, Some(bookId), today);
            var s2 := BorrowStep(s.after, s.next, Some(bookId), Some(readerId), later);
            && IsSuccess(s2.x.result)
            && s2.after.borrows == s.after.borrows + [Row(next, next, BorrowAttrs(bookId, readerId, later, DueDate(later), None))]
  {
    ReturnStepFreesBook(t, next, Some(bookId), today);
  }

  /** Borrowing a book twice: the second `BorrowBook` is refused as already borrowed, whoever asks. */
  lemma {:induction false} BorrowTwice(t: Tables, next: nat, bookId: Id, readerId: Id, other: Id, today: Date, later: Date)
    requires Find(t.readers, other).Some?
    requires IsSuccess(BorrowStep(t, next, Some(bookId), Some(readerId), today).x.result)
    ensures var s := BorrowStep(t, next, Some(bookId), Some(readerId), today);
            var s2 := BorrowStep(s.after, s.next, Some(bookId), Some(other), later);
            s2.x.result == BaseFailure(Unprocessable, AlreadyBorrowed) && s2.after == s.after
  {
    var s := BorrowStep(t, next, Some(bookId), Some(readerId), today);
    var k := |t.borrows|;
    assert IsActiveFor(s.after.borrows[k], bookId);
    assert HasActiveBorrow(s.after.borrows, bookId);
  }

  /**
   * `SendReminder`. A sent reminder, or one whose borrow has been
   * returned (checked in that order), is an ok result with no mail and no
   * write. Otherwise the mail is delivered and then `sent_at` is set to
   * `now`. When delivery raises (`deliveryError` is its message), the
   * exception escapes `execute` and nothing is written or sent.
   */
  function SendReminderStep(t: Tables, next: nat, reminderId: Option<Id>, now: Instant, deliveryError: Option<string>): (s: Step)
    requires BorrowsLinked(t) && RemindersLinked(t)
    ensures s.next == next && s.after.books == t.books && s.after.readers == t.readers && s.after.borrows == t.borrows
    ensures reminderId.None? ==> s.x == Completed(ValidationFailure(MissingField("reminder_id"))) && s.sent == []
    ensures reminderId.Some? && Find(t.reminders, reminderId.value).None? ==>
              s.x == Completed(BaseFailure(NotFound, RecordNotFoundMessage)) && s.sent == []
    ensures reminderId.Some? && Find(t.reminders, reminderId.value).Some? ==>
              var k := Find(t.reminders, reminderId.value).value;
              var r := t.reminders[k];
              var pending := r.attrs.sentAt.None? && BorrowOf(t, r).attrs.returnDate.None?;
              && (!pending ==> s.x == Completed(OkEmpty()) && s.sent == [])
              && (pending && deliveryError.Some? ==> s.x == Propagated(Unhandled(deliveryError.value)) && s.sent == [])
              && (pending && deliveryError.None? ==>
                    && s.x == Completed(OkEmpty())
                    && s.after.reminders == t.reminders[k := Row(r.id, r.createdAt, r.attrs.(sentAt := Some(now)))]
                    && s.sent == [MailFor(t, r)])
    ensures |s.sent| <= 1
    ensures s.sent == [] <==> s.after == t
  {
    if reminderId.None? then Stay(t, next, Returned(ValidationFailure(MissingField("reminder_id"))))
    else if Find(t.reminders, reminderId.value).None? then Stay(t, next, Threw(RecordNotFound))
    else
      var k := Find(t.reminders, reminderId.value).value;
      var r := t.reminders[k];
      if r.attrs.sentAt.Some? then Stay(t, next, Returned(OkEmpty()))
      else if BorrowOf(t, r).attrs.returnDate.Some? then Stay(t, next, Returned(OkEmpty()))
      else if deliveryError.Some? then Stay(t, next, Threw(Unhandled(deliveryError.value)))
      else
        var sent := Row(r.id, r.createdAt, r.attrs.(sentAt := Some(now)));
        assert t.reminders[k := sent][k] != t.reminders[k];
        Step(Execute(Returned(OkEmpty())), t.(reminders := t.reminders[k := sent]), next, [MailFor(t, r)])
  }

  lemma SendReminderStepKeeps(t: Tables, next: nat, reminderId: Option<Id>, now: Instant, deliveryError: Option<string>)
    requires Consistent(t, next)
    ensures var s := SendReminderStep(t, next, reminderId, now, deliveryError);
            Consistent(s.after, s.next)
  {
    var s := SendReminderStep(t, next, reminderId, now, deliveryError);
    if s.sent == [] {
      assert s.after == t;
    } else {
      var k := Find(t.reminders, reminderId.value).value;
      var r := t.reminders[k];
      MarkSentKeeps(t, next, k, now);
      assert s.after == t.(reminders := t.reminders[k := Row(r.id, r.createdAt, r.attrs.(sentAt := Some(now)))]);
    }
  }

  /**
   * A reminder is mailed at most once: after a `SendReminder` that
   * delivered, a second one for the same reminder sends nothing and
   * writes nothing, whenever it runs and whatever delivery would do.
   */
  lemma SendReminderAtMostOnce(t: Tables, next: nat, id: Id, now: Instant, later: Instant, deliveryError: Option<string>)
    requires Consistent(t, next)
    ensures var s := SendReminderStep(t, next, Some(id), now, None);
            && Consistent(s.after, s.next)
            && var s' := SendReminderStep(s.after, s.next, Some(id), later, deliveryError);
               s.sent != [] ==> s'.sent == [] && s'.after == s.after && s'.x == Completed(OkEmpty())
  {
    SendReminderStepKeeps(t, next, Some(id), now, None);
    DeliveredIsSent(t, next, id, now);
  }

  /** After a delivery the reminder is found where it was, now with `sent_at` set. */
  lemma DeliveredIsSent(t: Tables, next: nat, id: Id, now: Instant)
    requires Consistent(t, next)
    ensures var s := SendReminderStep(t, next, Some(id), now, None);
            s.sent != [] ==>
              && Find(t.reminders, id).Some? && Find(s.after.reminders, id) == Find(t.reminders, id)
              && s.after.reminders[Find(t.reminders, id).value].attrs.sentAt == Some(now)
  {
    if Find(t.reminders, id).Some? {
      var k := Find(t.reminders, id).value;
      var r := t.reminders[k];
      if r.attrs.sentAt.None? && BorrowOf(t, r).attrs.returnDate.None? {
        FindAfterUpdate(t.reminders, k, r.attrs.(sentAt := Some(now)), id);
      }
    }
  }

  /**
   * Returning a book silences its reminders: a `SendReminder` for a
   * reminder of the borrow just returned mails nothing and writes nothing,
   * whenever it runs and whatever delivery would do.
   */
  lemma {:induction false} ReturnSilencesReminder(t: Tables, next: nat, bookId: Id, today: Date, id: Id, now: Instant, deliveryError: Option<string>)
    requires Consistent(t, next)
    requires IsSuccess(ReturnStep(t, next, Some(bookId), today).x.result)
    requires Find(t.reminders, id).Some?
    requires t.reminders[Find(t.reminders, id).value].attrs.borrowId == t.borrows[ActiveBorrow(t.borrows, bookId).value].id
    ensures var s := ReturnStep(t, next, Some(bookId), today);
            && Consistent(s.after, s.next)
            && var s2 := SendReminderStep(s.after, s.next, Some(id), now, deliveryError);
               s2.sent == [] && s2.after == s.after && s2.x == Completed(OkEmpty())
  {
    var s := ReturnStep(t, next, Some(bookId), today);
    ReturnStepKeeps(t, next, Some(bookId), today);
    var k := ActiveBorrow(t.borrows, bookId).value;
    ReturnedStaysFound(t.borrows, next, k, today);
    var r := s.after.reminders[Find(s.after.reminders, id).value];
    assert BorrowOf(s.after, r).attrs.returnDate.Some?;
    SettledReminderIsQuiet(s.after, s.next, id, now, deliveryError);
  }

  /**
   * A reminder already sent, or whose borrow has been returned, is
   * settled: `SendReminder` on it reports ok, mails nothing and writes
   * nothing.
   */
  lemma SettledReminderIsQuiet(t: Tables, next: nat, id: Id, now: Instant, deliveryError: Option<string>)
    requires BorrowsLinked(t) && RemindersLinked(t) && Find(t.reminders, id).Some?
    requires var r := t.reminders[Find(t.reminders, id).value];
             r.attrs.sentAt.Some? || BorrowOf(t, r).attrs.returnDate.Some?
    ensures var s := SendReminderStep(t, next, Some(id), now, deliveryError);
            s.sent == [] && s.after == t && s.x == Completed(OkEmpty())
  {
  }

  /** The borrow a return updates is found where it was, now with its return date. */
  lemma ReturnedStaysFound(borrows: Table<BorrowAttrs>, next: nat, k: nat, today: Date)
    requires Stamped(borrows, next) && k < |borrows|
    ensures var b := borrows[k];
            var bs := borrows[k := Row(b.id, b.createdAt, b.attrs.(returnDate := Some(today)))];
            Find(bs, b.id) == Some(k) && bs[k].attrs.returnDate == Some(today)
  {
    var b := borrows[k];
    FindAfterUpdate(borrows, k, b.attrs.(returnDate := Some(today)), b.id);
    FindUnique(borrows, next, k);
  }

  /**
   * `RegisterBook`. The command's own presence checks come first; then
   * `Book.create!` either raises RecordInvalid with the model's errors or
   * adds exactly one book, returned as created. Only the books table
   * changes.
   */
  function RegisterBookStep(t: Tables, next: nat, serial: string, title: string, author: string): (s: Step)
    ensures s.x.Completed? && s.sent == []
    ensures s.after.readers == t.readers && s.after.borrows == t.borrows && s.after.reminders == t.reminders
    ensures BookParamErrors(serial, title, author) != map[] ==>
              s.x.result == ValidationFailure(BookParamErrors(serial, title, author))
    ensures var me := BookErrors(BookAttrs(serial, title, author), SerialTaken(t.books, serial, None));
            && (BookParamErrors(serial, title, author) == map[] && me != map[] ==> s.x.result == ValidationFailure(me))
            && (IsSuccess(s.x.result) <==> BookParamErrors(serial, title, author) == map[] && me == map[])
    ensures IsFailure(s.x.result) ==> s.after == t && s.next == next
    ensures IsSuccess(s.x.result) ==>
              && s.next == next + 1
              && s.after.books == t.books + [Row(next, next, BookAttrs(serial, title, author))]
              && s.x.result == Success(BookData(ViewBook(s.after.books[|t.books|])), Created)
  {
    var e := BookParamErrors(serial, title, author);
    var a := BookAttrs(serial, title, author);
    var me := BookErrors(a, SerialTaken(t.books, serial, None));
    if e != map[] then Stay(t, next, Returned(ValidationFailure(e)))
    else if me != map[] then Stay(t, next, Threw(RecordInvalid(me)))
    else
      var row := Row(next, next, a);
      Step(Execute(Returned(Success(BookData(ViewBook(row)), Created))), t.(books := t.books + [row]), next + 1, [])
  }

  lemma RegisterBookStepKeeps(t: Tables, next: nat, serial: string, title: string, author: string)
    requires Consistent(t, next)
    ensures var s := RegisterBookStep(t, next, serial, title, author);
            Consistent(s.after, s.next)
  {
    var s := RegisterBookStep(t, next, serial, title, author);
    if IsSuccess(s.x.result) {
      AddBookKeeps(t, next, BookAttrs(serial, title, author));
    }
  }

  /**
   * `RegisterReader`, as `RegisterBook`: presence checks, then
   * `Reader.create!` with the serial number, email and full name rules.
   */
  function RegisterReaderStep(t: Tables, next: nat, isEmail: string -> bool, serial: string, email: string, fullName: string): (s: Step)
    ensures s.x.Completed? && s.sent == []
    ensures s.after.books == t.books && s.after.borrows == t.borrows && s.after.reminders == t.reminders
    ensures ReaderParamErrors(serial, email, fullName) != map[] ==>
              s.x.result == ValidationFailure(ReaderParamErrors(serial, email, fullName))
    ensures var me := ReaderErrors(ReaderAttrs(serial, email, fullName),
                                   ReaderSerialTaken(t.readers, serial, None), EmailTaken(t.readers, email, None), isEmail);
            && (ReaderParamErrors(serial, email, fullName) == map[] && me != map[] ==> s.x.result == ValidationFailure(me))
            && (IsSuccess(s.x.result) <==> ReaderParamErrors(serial, email, fullName) == map[] && me == map[])
    ensures IsFailure(s.x.result) ==> s.after == t && s.next == next
    ensures IsSuccess(s.x.result) ==>
              && s.next == next + 1
              && s.after.readers == t.readers + [Row(next, next, ReaderAttrs(serial, email, fullName))]
              && s.x.result == Success(ReaderData(ViewReader(s.after.readers[|t.readers|])), Created)
  {
    var e := ReaderParamErrors(serial, email, fullName);
    var a := ReaderAttrs(serial, email, fullName);
    var me := ReaderErrors(a, ReaderSerialTaken(t.readers, serial, None), EmailTaken(t.readers, email, None), isEmail);
    if e != map[] then Stay(t, next, Returned(ValidationFailure(e)))
    else if me != map[] then Stay(t, next, Threw(RecordInvalid(me)))
    else
      var row := Row(next, next, a);
      Step(Execute(Returned(Success(ReaderData(ViewReader(row)), Created))), t.(readers := t.readers + [row]), next + 1, [])
  }

  lemma RegisterReaderStepKeeps(t: Tables, next: nat, isEmail: string -> bool, serial: string, email: string, fullName: string)
    requires Consistent(t, next)
    ensures var s := RegisterReaderStep(t, next, isEmail, serial, email, fullName);
            Consistent(s.after, s.next)
  {
    var s := RegisterReaderStep(t, next, isEmail, serial, email, fullName);
    if IsSuccess(s.x.result) {
      AddReaderKeeps(t, next, ReaderAttrs(serial, email, fullName));
    }
  }

  /**
   * `UpdateBook`. The book must exist. With no present field there is
   * no write and the book comes back as it is. Otherwise `update!`
   * validates the merged attributes, its own row excluded from the
   * serial's uniqueness, and either raises RecordInvalid (nothing
   * changes) or replaces that one row; the result is the stored row.
   */
  function UpdateBookStep(t: Tables, next: nat, id: Option<Id>, serial: string, title: string, author: string): (s: Step)
    ensures s.x.Completed? && s.sent == [] && s.next == next
    ensures s.after.readers == t.readers && s.after.borrows == t.borrows && s.after.reminders == t.reminders
    ensures id.None? ==> s.x.result == ValidationFailure(MissingField("id")) && s.after == t
    ensures id.Some? && Find(t.books, id.value).None? ==> s.x.result == BaseFailure(NotFound, RecordNotFoundMessage) && s.after == t
    ensures id.Some? && Find(t.books, id.value).Some? ==>
              var k := Find(t.books, id.value).value;
              var b := t.books[k];
              var m := MergeBook(b.attrs, serial, title, author);
              var me := BookErrors(m, SerialTaken(t.books, m.serialNumber, Some(b.id)));
              && (Blank(serial) && Blank(title) && Blank(author) ==> s.after == t && s.x.result == Success(BookData(ViewBook(b)), Ok))
              && (!(Blank(serial) && Blank(title) && Blank(author)) && me != map[] ==> s.x.result == ValidationFailure(me) && s.after == t)
              && (!(Blank(serial) && Blank(title) && Blank(author)) && me == map[] ==>
                    s.after.books == t.books[k := Row(b.id, b.createdAt, m)] && s.x.result == Success(BookData(ViewBook(s.after.books[k])), Ok))
  {
    if id.None? then Stay(t, next, Returned(ValidationFailure(MissingField("id"))))
    else if Find(t.books, id.value).None? then Stay(t, next, Threw(RecordNotFound))
    else
      var k := Find(t.books, id.value).value;
      var b := t.books[k];
      if Blank(serial) && Blank(title) && Blank(author) then Stay(t, next, Returned(Success(BookData(ViewBook(b)), Ok)))
      else
        var m := MergeBook(b.attrs, serial, title, author);
        var me := BookErrors(m, SerialTaken(t.books, m.serialNumber, Some(b.id)));
        if me != map[] then Stay(t, next, Threw(RecordInvalid(me)))
        else
          var row := Row(b.id, b.createdAt, m);
          Step(Execute(Returned(Success(BookData(ViewBook(row)), Ok))), t.(books := t.books[k := row]), next, [])
  }

  lemma UpdateBookStepKeeps(t: Tables, next: nat, id: Option<Id>, serial: string, title: string, author: string)
    requires Consistent(t, next)
    ensures var s := UpdateBookStep(t, next, id, serial, title, author);
            Consistent(s.after, s.next)
  {
    if id.Some? && Find(t.books, id.value).Some? && !(Blank(serial) && Blank(title) && Blank(author)) {
      var k := Find(t.books, id.value).value;
      var m := MergeBook(t.books[k].attrs, serial, title, author);
      if BookErrors(m, SerialTaken(t.books, m.serialNumber, Some(t.books[k].id))) == map[] {
        UpdateBookKeeps(t, next, k, m);
      }
    }
  }

  /** `UpdateReader`, as `UpdateBook`, with the serial number and email each unique among the other readers. */
  function UpdateReaderStep(t: Tables, next: nat, isEmail: string -> bool, id: Option<Id>, serial: string, email: string, fullName: string): (s: Step)
    ensures s.x.Completed? && s.sent == [] && s.next == next
    ensures s.after.books == t.books && s.after.borrows == t.borrows && s.after.reminders == t.reminders
    ensures id.None? ==> s.x.result == ValidationFailure(MissingField("id")) && s.after == t
    ensures id.Some? && Find(t.readers, id.value).None? ==> s.x.result == BaseFailure(NotFound, RecordNotFoundMessage) && s.after == t
    ensures id.Some? && Find(t.readers, id.value).Some? ==>
              var k := Find(t.readers, id.value).value;
              var r := t.readers[k];
              var m := MergeReader(r.attrs, serial, email, fullName);
              var me := ReaderErrors(m, ReaderSerialTaken(t.readers, m.serialNumber, Some(r.id)),
                                     EmailTaken(t.readers, m.email, Some(r.id)), isEmail);
              && (Blank(serial) && Blank(email) && Blank(fullName) ==> s.after == t && s.x.result == Success(ReaderData(ViewReader(r)), Ok))
              && (!(Blank(serial) && Blank(email) && Blank(fullName)) && me != map[] ==> s.x.result == ValidationFailure(me) && s.after == t)
              && (!(Blank(serial) && Blank(email) && Blank(fullName)) && me == map[] ==>
                    s.after.readers == t.readers[k := Row(r.id, r.createdAt, m)] && s.x.result == Success(ReaderData(ViewReader(s.after.readers[k])), Ok))
  {
    if id.None? then Stay(t, next, Returned(ValidationFailure(MissingField("id"))))
    else if Find(t.readers, id.value).None? then Stay(t, next, Threw(RecordNotFound))
    else
      var k := Find(t.readers, id.value).value;
      var r := t.readers[k];
      if Blank(serial) && Blank(email) && Blank(fullName) then Stay(t, next, Returned(Success(ReaderData(ViewReader(r)), Ok)))
      else
        var m := MergeReader(r.attrs, serial, email, fullName);
        var me := ReaderErrors(m, ReaderSerialTaken(t.readers, m.serialNumber, Some(r.id)), EmailTaken(t.readers, m.email, Some(r.id)), isEmail);
        if me != map[] then Stay(t, next, Threw(RecordInvalid(me)))
        else
          var row := Row(r.id, r.createdAt, m);
          Step(Execute(Returned(Success(ReaderData(ViewReader(row)), Ok))), t.(readers := t.readers[k := row]), next, [])
  }

  lemma UpdateReaderStepKeeps(t: Tables, next: nat, isEmail: string -> bool, id: Option<Id>, serial: string, email: string, fullName: string)
    requires Consistent(t, next)
    ensures var s := UpdateReaderStep(t, next, isEmail, id, serial, email, fullName);
            Consistent(s.after, s.next)
  {
    if id.Some? && Find(t.readers, id.value).Some? && !(Blank(serial) && Blank(email) && Blank(fullName)) {
      var k := Find(t.readers, id.value).value;
      var r := t.readers[k];
      var m := MergeReader(r.attrs, serial, email, fullName);
      if ReaderErrors(m, ReaderSerialTaken(t.readers, m.serialNumber, Some(r.id)), EmailTaken(t.readers, m.email, Some(r.id)), isEmail) == map[] {
        UpdateReaderKeeps(t, next, k, m);
      }
    }
  }

  /** The two kinds of row whose `destroy!` cascades to borrows. */
  datatype Parent = Books | Readers

  function OwnerOf(p: Parent, id: Id): Owner {
    match p
    case Books => BookOwner(id)
    case Readers => ReaderOwner(id)
  }

  /** `find(id)` of the parent succeeds. */
  predicate Stored(t: Tables, p: Parent, id: Id) {
    match p
    case Books => Find(t.books, id).Some?
    case Readers => Find(t.readers, id).Some?
  }

  /**
   * `DeregisterBook` and `DeregisterReader`. The row must exist. Its
   * borrows are destroyed first; if a reminder points at one of them the
   * foreign key fails and nothing is removed. Otherwise exactly that row
   * and all its borrows are gone.
   */
  function DeregisterStep(t: Tables, next: nat, p: Parent, id: Option<Id>): (s: Step)
    ensures s.x.Completed? && s.sent == [] && s.next == next && s.after.reminders == t.reminders
    ensures id.None? ==> s.x.result == ValidationFailure(MissingField("id"))
    ensures id.Some? && !Stored(t, p, id.value) ==> s.x.result == BaseFailure(NotFound, RecordNotFoundMessage)
    ensures id.Some? && Stored(t, p, id.value) && Blocks(t.borrows, t.reminders, OwnerOf(p, id.value)) ==>
              s.x.result == BaseFailure(Unprocessable, InvalidReference)
    ensures IsSuccess(s.x.result) <==> id.Some? && Stored(t, p, id.value) && !Blocks(t.borrows, t.reminders, OwnerOf(p, id.value))
    ensures IsFailure(s.x.result) ==> s.after == t
    ensures IsSuccess(s.x.result) ==> s.x.result == OkEmpty() && s.after == AfterDestroy(t, OwnerOf(p, id.value))
  {
    if id.None? then Stay(t, next, Returned(ValidationFailure(MissingField("id"))))
    else if !Stored(t, p, id.value) then Stay(t, next, Threw(RecordNotFound))
    else if Blocks(t.borrows, t.reminders, OwnerOf(p, id.value)) then Stay(t, next, Threw(InvalidForeignKey))
    else Step(Execute(Returned(OkEmpty())), AfterDestroy(t, OwnerOf(p, id.value)), next, [])
  }

  lemma DeregisterStepKeeps(t: Tables, next: nat, p: Parent, id: Option<Id>)
    requires Consistent(t, next)
    ensures var s := DeregisterStep(t, next, p, id);
            Consistent(s.after, s.next)
  {
    if id.Some? && Stored(t, p, id.value) && !Blocks(t.borrows, t.reminders, OwnerOf(p, id.value)) {
      DestroyKeeps(t, next, OwnerOf(p, id.value));
    }
  }

  /**
   * A successful deregistration removes exactly the one row: the parent
   * can no longer be found, its table is one row shorter, the other
   * parent table is untouched, none of its borrows remains and every
   * other borrow does.
   */
  lemma DeregisterRemovesParent(t: Tables, next: nat, p: Parent, id: Id)
    requires Consistent(t, next)
    requires Stored(t, p, id) && !Blocks(t.borrows, t.reminders, OwnerOf(p, id))
    ensures var s := DeregisterStep(t, next, p, Some(id));
            && !Stored(s.after, p, id)
            && (p == Books ==> |s.after.books| == |t.books| - 1 && s.after.readers == t.readers)
            && (p == Readers ==> |s.after.readers| == |t.readers| - 1 && s.after.books == t.books)
            && (forall k :: 0 <= k < |s.after.borrows| ==> !Owns(OwnerOf(p, id), s.after.borrows[k]))
            && (forall k :: 0 <= k < |t.borrows| && !Owns(OwnerOf(p, id), t.borrows[k]) ==> t.borrows[k] in s.after.borrows)
  {
    match p {
      case Books => RemoveCount(t.books, next, Find(t.books, id).value);
      case Readers => RemoveCount(t.readers, next, Find(t.readers, id).value);
    }
  }

  /**
   * Deregistering a reader frees every book the reader still held: the
   * reader's borrows go with the reader, so such a book has no active
   * borrow left and another reader can borrow it.
   */
  lemma {:induction false} DeregisterReaderFreesBooks(t: Tables, next: nat, id: Id, k: nat, other: Id, today: Date)
    requires Consistent(t, next)
    requires Stored(t, Readers, id) && !Blocks(t.borrows, t.reminders, ReaderOwner(id))
    requires k < |t.borrows| && t.borrows[k].attrs.readerId == id && t.borrows[k].attrs.returnDate.None?
    requires Find(t.readers, other).Some? && other != id
    ensures var s := DeregisterStep(t, next, Readers, Some(id));
            var bookId := t.borrows[k].attrs.bookId;
            && IsSuccess(s.x.result)
            && !HasActiveBorrow(s.after.borrows, bookId)
            && IsSuccess(BorrowStep(s.after, s.next, Some(bookId), Some(other), today).x.result)
  {
    var s := DeregisterStep(t, next, Readers, Some(id));
    assert s.after == AfterDestroy(t, ReaderOwner(id));
    ReaderGoneBookFree(t, next, id, k, other);
    FreeBookLends(s.after, s.next, t.borrows[k].attrs.bookId, other, today);
  }

  /** A stored book without an active borrow is lent to any stored reader. */
  lemma FreeBookLends(t: Tables, next: nat, bookId: Id, readerId: Id, today: Date)
    requires Find(t.books, bookId).Some? && Find(t.readers, readerId).Some? && !HasActiveBorrow(t.borrows, bookId)
    ensures IsSuccess(BorrowStep(t, next, Some(bookId), Some(readerId), today).x.result)
  {
  }

  /** Without the reader and its borrows, the book the reader held is still there and free, and so is every other reader. */
  lemma ReaderGoneBookFree(t: Tables, next: nat, id: Id, k: nat, other: Id)
    requires Consistent(t, next)
    requires k < |t.borrows| && t.borrows[k].attrs.readerId == id && t.borrows[k].attrs.returnDate.None?
    requires Find(t.readers, other).Some? && other != id
    ensures var after := AfterDestroy(t, ReaderOwner(id));
            var bookId := t.borrows[k].attrs.bookId;
            && !HasActiveBorrow(after.borrows, bookId)
            && Find(after.books, bookId).Some? && Find(after.readers, other).Some?
  {
    ReaderLeavesBooksAvailable(t.borrows, id, k);
    FindRemoveOther(t.readers, id, other);
  }
}
