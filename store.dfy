/**
 * The library's store and its commands, in place. `Library` holds the
 * four tables and the counter that stamps new rows. Each command method is
 * one `run` of a LibraryCommand subclass passed through `execute`: it
 * decides its outcome from the tables as they are, writes only on the
 * path where `run` returns normally, and hands its `Run` to
 * `LibraryCommand.Execute`. So a raised exception leaves every table as it
 * was, which is what the surrounding transaction guarantees. The mails
 * `deliver_now` sends are recorded in the ghost `outbox`. Each method is
 * proved to do what the matching step of `Commands` says and to keep the
 * store invariant.
 */
module Store {
  import opened Wrappers
  import opened Text
  import opened Schema
  import opened LibraryResult
  import opened BookModel
  import opened ReaderModel
  import opened BorrowModel
  import opened ReminderModel
  import opened ReminderMailer
  import opened Serializers
  import opened LibraryCommand
  import opened Cascade
  import opened StoreInvariant
  import opened Commands

  class Library {
    var books: Table<BookAttrs>
    var readers: Table<ReaderAttrs>
    var borrows: Table<BorrowAttrs>
    var reminders: Table<ReminderAttrs>
    /** The id and `created_at` stamp of the next row inserted. */
    var nextId: nat
    /** Every mail delivered, in order. */
    ghost var outbox: seq<Mail>
    /** Whether a string matches `URI::MailTo::EMAIL_REGEXP`. */
    const isEmail: string -> bool

    function Snapshot(): Tables
      reads this
    {
      Tables(books, readers, borrows, reminders)
    }

    ghost predicate Valid()
      reads this
    {
      Consistent(Snapshot(), nextId)
    }

    /** An empty store. */
    constructor(isEmail: string -> bool)
      ensures Valid() && this.isEmail == isEmail
      ensures Snapshot() == Tables([], [], [], []) && outbox == []
    {
      books := [];
      readers := [];
      borrows := [];
      reminders := [];
      nextId := 0;
      outbox := [];
      this.isEmail := isEmail;
      EmptyConsistent();
    }

    /** Replaces every table and the counter by a consistent state. */
    method Commit(t: Tables, next: nat)
      requires Consistent(t, next)
      modifies this
      ensures Valid() && Snapshot() == t && nextId == next && outbox == old(outbox)
    {
      books, readers, borrows, reminders, nextId := t.books, t.readers, t.borrows, t.reminders, next;
    }

    /** `BorrowBook`; see `Commands.BorrowStep`. */
    method BorrowBook(bookId: Option<Id>, readerId: Option<Id>, today: Date) returns (x: Executed<Data>)
      requires Valid()
      modifies this
      ensures Valid()
      ensures var s := BorrowStep(old(Snapshot()), old(nextId), bookId, readerId, today);
              x == s.x && Snapshot() == s.after && nextId == s.next && outbox == old(outbox) + s.sent
    {
      var t, n := Snapshot(), nextId;
      var run: Run<Data>;
      var e := BorrowParamErrors(bookId, readerId);
      if e != map[] {
        run := Returned(ValidationFailure(e));
      } else if Find(t.books, bookId.value).None? || Find(t.readers, readerId.value).None? {
        run := Threw(RecordNotFound);
      } else if HasActiveBorrow(t.borrows, bookId.value) {
        run := Returned(BaseFailure(Unprocessable, AlreadyBorrowed));
      } else {
        var a := BorrowAttrs(bookId.value, readerId.value, today, DueDate(today), None);
        var row := Row(n, n, a);
        var reader := t.readers[Find(t.readers, readerId.value).value];
        AddBorrowKeeps(t, n, a);
        Commit(t.(borrows := t.borrows + [row]), n + 1);
        run := Returned(Success(BorrowData(ViewBorrow(row, reader)), Created));
      }
      x := Execute(run);
    }

    /** `ReturnBook`; see `Commands.ReturnStep`. */
    method ReturnBook(bookId: Option<Id>, today: Date) returns (x: Executed<Data>)
      requires Valid()
      modifies this
      ensures Valid()
      ensures var s := ReturnStep(old(Snapshot()), old(nextId), bookId, today);
              x == s.x && Snapshot() == s.after && nextId == s.next && outbox == old(outbox) + s.sent
    {
      var t, n := Snapshot(), nextId;
      var run: Run<Data>;
      if bookId.None? {
        run := Returned(ValidationFailure(MissingField("book_id")));
      } else if Find(t.books, bookId.value).None? {
        run := Threw(RecordNotFound);
      } else if ActiveBorrow(t.borrows, bookId.value).None? {
        run := Returned(BaseFailure(Unprocessable, NotBorrowed));
      } else {
        var k := ActiveBorrow(t.borrows, bookId.value).value;
        var b := t.borrows[k];
        var returned := Row(b.id, b.createdAt, b.attrs.(returnDate := Some(today)));
        var reader := t.readers[Find(t.readers, b.attrs.readerId).value];
        ReturnKeeps(t, n, k, today);
        Commit(t.(borrows := t.borrows[k := returned]), n);
        run := Returned(Success(BorrowData(ViewBorrow(returned, reader)), Ok));
      }
      x := Execute(run);
    }

    /** `SendReminder`; see `Commands.SendReminderStep`. */
    method SendReminder(reminderId: Option<Id>, now: Instant, deliveryError: Option<string>) returns (x: Executed<Data>)
      requires Valid()
      modifies this
      ensures Valid()
      ensures var s := SendReminderStep(old(Snapshot()), old(nextId), reminderId, now, deliveryError);
              x == s.x && Snapshot() == s.after && nextId == s.next && outbox == old(outbox) + s.sent
    {
      var t, n := Snapshot(), nextId;
      var run: Run<Data>;
      if reminderId.None? {
        run := Returned(ValidationFailure(MissingField("reminder_id")));
      } else if Find(t.reminders, reminderId.value).None? {
        run := Threw(RecordNotFound);
      } else {
        var k := Find(t.reminders, reminderId.value).value;
        var r := t.reminders[k];
        if r.attrs.sentAt.Some? {
          run := Returned(OkEmpty());
        } else if BorrowOf(t, r).attrs.returnDate.Some? {
          run := Returned(OkEmpty());
        } else if deliveryError.Some? {
          run := Threw(Unhandled(deliveryError.value));
        } else {
          outbox := outbox + [MailFor(t, r)];
          MarkSentKeeps(t, n, k, now);
          Commit(t.(reminders := t.reminders[k := Row(r.id, r.createdAt, r.attrs.(sentAt := Some(now)))]), n);
          run := Returned(OkEmpty());
        }
      }
      x := Execute(run);
    }

    /** `RegisterBook`; see `Commands.RegisterBookStep`. */
    method RegisterBook(serial: string, title: string, author: string) returns (x: Executed<Data>)
      requires Valid()
      modifies this
      ensures Valid()
      ensures var s := RegisterBookStep(old(Snapshot()), old(nextId), serial, title, author);
              x == s.x && Snapshot() == s.after && nextId == s.next && outbox == old(outbox) + s.sent
    {
      var t, n := Snapshot(), nextId;
      var run: Run<Data>;
      var e := BookParamErrors(serial, title, author);
      var a := BookAttrs(serial, title, author);
      var me := BookErrors(a, SerialTaken(t.books, serial, None));
      if e != map[] {
        run := Returned(ValidationFailure(e));
      } else if me != map[] {
        run := Threw(RecordInvalid(me));
      } else {
        var row := Row(n, n, a);
        AddBookKeeps(t, n, a);
        Commit(t.(books := t.books + [row]), n + 1);
        run := Returned(Success(BookData(ViewBook(row)), Created));
      }
      x := Execute(run);
    }

    /** `RegisterReader`; see `Commands.RegisterReaderStep`. */
    method RegisterReader(serial: string, email: string, fullName: string) returns (x: Executed<Data>)
      requires Valid()
      modifies this
      ensures Valid()
      ensures var s := RegisterReaderStep(old(Snapshot()), old(nextId), isEmail, serial, email, fullName);
              x == s.x && Snapshot() == s.after && nextId == s.next && outbox == old(outbox) + s.sent
    {
      var t, n := Snapshot(), nextId;
      var run: Run<Data>;
      var e := ReaderParamErrors(serial, email, fullName);
      var a := ReaderAttrs(serial, email, fullName);
      var me := ReaderErrors(a, ReaderSerialTaken(t.readers, serial, None), EmailTaken(t.readers, email, None), isEmail);
      if e != map[] {
        run := Returned(ValidationFailure(e));
      } else if me != map[] {
        run := Threw(RecordInvalid(me));
      } else {
        var row := Row(n, n, a);
        AddReaderKeeps(t, n, a);
        Commit(t.(readers := t.readers + [row]), n + 1);
        run := Returned(Success(ReaderData(ViewReader(row)), Created));
      }
      x := Execute(run);
    }

    /** `UpdateBook`; see `Commands.UpdateBookStep`. */
    method UpdateBook(id: Option<Id>, serial: string, title: string, author: string) returns (x: Executed<Data>)
      requires Valid()
      modifies this
      ensures Valid()
      ensures var s := UpdateBookStep(old(Snapshot()), old(nextId), id, serial, title, author);
              x == s.x && Snapshot() == s.after && nextId == s.next && outbox == old(outbox) + s.sent
    {
      var t, n := Snapshot(), nextId;
      var run: Run<Data>;
      if id.None? {
        run := Returned(ValidationFailure(MissingField("id")));
      } else if Find(t.books, id.value).None? {
        run := Threw(RecordNotFound);
      } else {
        var k := Find(t.books, id.value).value;
        var b := t.books[k];
        if Blank(serial) && Blank(title) && Blank(author) {
          run := Returned(Success(BookData(ViewBook(b)), Ok));
        } else {
          var m := MergeBook(b.attrs, serial, title, author);
          var me := BookErrors(m, SerialTaken(t.books, m.serialNumber, Some(b.id)));
          if me != map[] {
            run := Threw(RecordInvalid(me));
          } else {
            var row := Row(b.id, b.createdAt, m);
            UpdateBookKeeps(t, n, k, m);
            Commit(t.(books := t.books[k := row]), n);
            run := Returned(Success(BookData(ViewBook(row)), Ok));
          }
        }
      }
      x := Execute(run);
    }

    /** `UpdateReader`; see `Commands.UpdateReaderStep`. */
    method UpdateReader(id: Option<Id>, serial: string, email: string, fullName: string) returns (x: Executed<Data>)
      requires Valid()
      modifies this
      ensures Valid()
      ensures var s := UpdateReaderStep(old(Snapshot()), old(nextId), isEmail, id, serial, email, fullName);
              x == s.x && Snapshot() == s.after && nextId == s.next && outbox == old(outbox) + s.sent
    {
      var t, n := Snapshot(), nextId;
      var run: Run<Data>;
      if id.None? {
        run := Returned(ValidationFailure(MissingField("id")));
      } else if Find(t.readers, id.value).None? {
        run := Threw(RecordNotFound);
      } else {
        var k := Find(t.readers, id.value).value;
        var r := t.readers[k];
        if Blank(serial) && Blank(email) && Blank(fullName) {
          run := Returned(Success(ReaderData(ViewReader(r)), Ok));
        } else {
          var m := MergeReader(r.attrs, serial, email, fullName);
          var me := ReaderErrors(m, ReaderSerialTaken(t.readers, m.serialNumber, Some(r.id)), EmailTaken(t.readers, m.email, Some(r.id)), isEmail);
          if me != map[] {
            run := Threw(RecordInvalid(me));
          } else {
            var row := Row(r.id, r.createdAt, m);
            UpdateReaderKeeps(t, n, k, m);
            Commit(t.(readers := t.readers[k := row]), n);
            run := Returned(Success(ReaderData(ViewReader(row)), Ok));
          }
        }
      }
      x := Execute(run);
    }

    /** `DeregisterBook`; see `Commands.DeregisterStep`. */
    method DeregisterBook(id: Option<Id>) returns (x: Executed<Data>)
      requires Valid()
      modifies this
      ensures Valid()
      ensures var s := DeregisterStep(old(Snapshot()), old(nextId), Books, id);
              x == s.x && Snapshot() == s.after && nextId == s.next && outbox == old(outbox) + s.sent
    {
      x := Deregister(Books, id);
    }

    /** `DeregisterReader`; see `Commands.DeregisterStep`. */
    method DeregisterReader(id: Option<Id>) returns (x: Executed<Data>)
      requires Valid()
      modifies this
      ensures Valid()
      ensures var s := DeregisterStep(old(Snapshot()), old(nextId), Readers, id);
              x == s.x && Snapshot() == s.after && nextId == s.next && outbox == old(outbox) + s.sent
    {
      x := Deregister(Readers, id);
    }

    /**
     * The two deregistrations: find the parent, run the destroy cascade
     * over its borrows, and delete it when no borrow was blocked.
     */
    method Deregister(p: Parent, id: Option<Id>) returns (x: Executed<Data>)
      requires Valid()
      modifies this
      ensures Valid()
      ensures var s := DeregisterStep(old(Snapshot()), old(nextId), p, id);
              x == s.x && Snapshot() == s.after && nextId == s.next && outbox == old(outbox) + s.sent
    {
      var t, n := Snapshot(), nextId;
      var run: Run<Data>;
      if id.None? {
        run := Returned(ValidationFailure(MissingField("id")));
      } else if !Stored(t, p, id.value) {
        run := Threw(RecordNotFound);
      } else {
        var o := OwnerOf(p, id.value);
        var kept, blocked := DestroyBorrows(t.borrows, t.reminders, o);
        if blocked {
          run := Threw(InvalidForeignKey);
        } else {
          DestroyKeeps(t, n, o);
          var after := match p
            case Books => t.(books := Remove(t.books, id.value), borrows := kept)
            case Readers => t.(readers := Remove(t.readers, id.value), borrows := kept);
          Commit(after, n);
          run := Returned(OkEmpty());
        }
      }
      x := Execute(run);
    }

    /**
     * `Reminder.create!`, the only way reminders enter the store (no
     * command schedules them): the model's errors, and the new row when
     * there are none.
     */
    method InsertReminder(borrowId: Id, reminderType: string, scheduledFor: Date, sentAt: Option<Instant>) returns (e: FieldErrors)
      requires Valid()
      modifies this
      ensures Valid()
      ensures var a := ReminderAttrs(borrowId, reminderType, scheduledFor, sentAt);
              && e == ReminderErrors(a, Find(old(borrows), borrowId).Some?, TypeTaken(old(reminders), borrowId, reminderType, None))
              && (e == map[] ==> Snapshot() == old(Snapshot()).(reminders := old(reminders) + [Row(old(nextId), old(nextId), a)])
                                 && nextId == old(nextId) + 1)
              && (e != map[] ==> Snapshot() == old(Snapshot()) && nextId == old(nextId))
      ensures outbox == old(outbox)
    {
      var t, n := Snapshot(), nextId;
      var a := ReminderAttrs(borrowId, reminderType, scheduledFor, sentAt);
      e := ReminderErrors(a, Find(t.borrows, borrowId).Some?, TypeTaken(t.reminders, borrowId, reminderType, None));
      if e == map[] {
        AddReminderKeeps(t, n, a);
        Commit(t.(reminders := t.reminders + [Row(n, n, a)]), n + 1);
      }
    }
  }
}
