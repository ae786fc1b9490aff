/**
 * The four tables of the store (books, readers, book_borrows, reminders)
 * as sequences of rows in creation order, and the lookups every command
 * and query makes on them (`find` by id).
 */
module Schema {
  import opened Wrappers

  /** Record ids are abstract; the store hands them out from a counter. */
  type Id = nat
  /** Dates are day numbers. */
  type Date = int
  /** Timestamps (`sent_at`) are abstract instants. */
  type Instant = int

  /** A row: its id, its `created_at` stamp and the entity's own attributes. */
  datatype Row<T> = Row(id: Id, createdAt: nat, attrs: T)

  /** A table, in `created_at` order (the tables' implicit order column). */
  type Table<T> = seq<Row<T>>

  datatype BookAttrs = BookAttrs(serialNumber: string, title: string, author: string)

  datatype ReaderAttrs = ReaderAttrs(serialNumber: string, email: string, fullName: string)

  /** A borrow is active while `returnDate` is nil. */
  datatype BorrowAttrs = BorrowAttrs(bookId: Id, readerId: Id, borrowDate: Date, dueDate: Date, returnDate: Option<Date>)

  /** A reminder is pending while `sentAt` is nil. */
  datatype ReminderAttrs = ReminderAttrs(borrowId: Id, reminderType: string, scheduledFor: Date, sentAt: Option<Instant>)

  type Book = Row<BookAttrs>
  type Reader = Row<ReaderAttrs>
  type Borrow = Row<BorrowAttrs>
  type Reminder = Row<ReminderAttrs>

  /** A snapshot of the whole store. */
  datatype Tables = Tables(books: Table<BookAttrs>, readers: Table<ReaderAttrs>, borrows: Table<BorrowAttrs>, reminders: Table<ReminderAttrs>)

  /** `Model.find(id)`: the position of the row with that id, None where `find` raises RecordNotFound. */
  function Find<T>(t: Table<T>, id: Id): (r: Option<nat>)
    ensures r.Some? ==> r.value < |t| && t[r.value].id == id
    ensures r.Some? ==> forall k :: 0 <= k < r.value ==> t[k].id != id
    ensures r.None? <==> forall k :: 0 <= k < |t| ==> t[k].id != id
  {
    if t == [] then None
    else if t[0].id == id then Some(0)
    else match Find(t[1..], id)
      case None => None
      case Some(k) => Some(k + 1)
  }

  /** Every id and `created_at` stamp lies below `next`, and both grow along the table. */
  ghost predicate Stamped<T>(t: Table<T>, next: nat) {
    && (forall k :: 0 <= k < |t| ==> t[k].id < next && t[k].createdAt < next)
    && (forall i, j :: 0 <= i < j < |t| ==> t[i].id < t[j].id && t[i].createdAt < t[j].createdAt)
  }

  /** A row stamped before every row of a stamped table can be put in front of it. */
  lemma StampedCons<T>(x: Row<T>, t: Table<T>, next: nat)
    requires Stamped(t, next) && x.id < next && x.createdAt < next
    requires forall k :: 0 <= k < |t| ==> x.id < t[k].id && x.createdAt < t[k].createdAt
    ensures Stamped([x] + t, next)
  {
    var r := [x] + t;
    forall i, j | 0 <= i < j < |r|
      ensures r[i].id < r[j].id && r[i].createdAt < r[j].createdAt
    {
      assert r[j] == t[j - 1];
      if i > 0 {
        assert r[i] == t[i - 1];
      }
    }
  }

  /** In a stamped table the row with a given id is the one `Find` returns. */
  lemma FindUnique<T>(t: Table<T>, next: nat, k: nat)
    requires Stamped(t, next) && k < |t|
    ensures Find(t, t[k].id) == Some(k)
  {
  }

  /** A fresh row stamped with the counter keeps the table stamped under the next counter value. */
  lemma StampedAppend<T>(t: Table<T>, next: nat, a: T)
    requires Stamped(t, next)
    ensures Stamped(t + [Row(next, next, a)], next + 1)
  {
  }

  /** Replacing a row's attributes keeps ids, stamps and so every lookup. */
  lemma FindAfterUpdate<T>(t: Table<T>, k: nat, a: T, id: Id)
    requires k < |t|
    ensures Find(t[k := Row(t[k].id, t[k].createdAt, a)], id) == Find(t, id)
  {
    var t' := t[k := Row(t[k].id, t[k].createdAt, a)];
    assert forall j :: 0 <= j < |t| ==> t'[j].id == t[j].id;
  }

  /** Changing a row's attributes finds every id where it was found before. */
  lemma FindAllAfterUpdate<T>(t: Table<T>, k: nat, a: T)
    requires k < |t|
    ensures forall id :: Find(t[k := Row(t[k].id, t[k].createdAt, a)], id) == Find(t, id)
  {
    forall id
      ensures Find(t[k := Row(t[k].id, t[k].createdAt, a)], id) == Find(t, id)
    {
      FindAfterUpdate(t, k, a, id);
    }
  }

  /** Changing a row's attributes keeps a table stamped. */
  lemma StampedAfterUpdate<T>(t: Table<T>, next: nat, k: nat, a: T)
    requires Stamped(t, next) && k < |t|
    ensures Stamped(t[k := Row(t[k].id, t[k].createdAt, a)], next)
  {
    var t' := t[k := Row(t[k].id, t[k].createdAt, a)];
    assert forall j :: 0 <= j < |t| ==> t'[j].id == t[j].id && t'[j].createdAt == t[j].createdAt;
  }

  /** The table without the row that has the given id (`destroy!` of that row). */
  function Remove<T>(t: Table<T>, id: Id): (r: Table<T>)
    ensures |r| <= |t|
    ensures forall k :: 0 <= k < |r| ==> r[k] in t && r[k].id != id
    ensures forall k :: 0 <= k < |t| && t[k].id != id ==> t[k] in r
  {
    if t == [] then []
    else if t[0].id == id then Remove(t[1..], id)
    else [t[0]] + Remove(t[1..], id)
  }

  /** Removing rows keeps a table stamped. */
  lemma {:induction false} StampedRemove<T>(t: Table<T>, next: nat, id: Id)
    requires Stamped(t, next)
    ensures Stamped(Remove(t, id), next)
  {
    if t != [] {
      var rest := t[1..];
      assert Stamped(rest, next) by {
        assert forall k :: 0 <= k < |rest| ==> rest[k] == t[k + 1];
      }
      StampedRemove(rest, next, id);
      if t[0].id != id {
        var r := Remove(rest, id);
        forall k | 0 <= k < |r|
          ensures t[0].id < r[k].id && t[0].createdAt < r[k].createdAt
        {
          var j :| 0 <= j < |rest| && rest[j] == r[k];
          assert rest[j] == t[j + 1];
        }
        StampedCons(t[0], r, next);
      }
    }
  }

  /** Removing a row that is there shortens the table by exactly one. */
  lemma {:induction false} RemoveCount<T>(t: Table<T>, next: nat, k: nat)
    requires Stamped(t, next) && k < |t|
    ensures |Remove(t, t[k].id)| == |t| - 1
  {
    if k > 0 {
      RemoveCount(t[1..], next, k - 1);
    } else {
      RemoveAbsent(t[1..], t[0].id);
    }
  }

  lemma {:induction false} RemoveAbsent<T>(t: Table<T>, id: Id)
    requires forall k :: 0 <= k < |t| ==> t[k].id != id
    ensures Remove(t, id) == t
  {
    if t != [] {
      RemoveAbsent(t[1..], id);
    }
  }

  /** A stamped table stays stamped as the counter moves on. */
  lemma StampedGrow<T>(t: Table<T>, next: nat, later: nat)
    requires Stamped(t, next) && next <= later
    ensures Stamped(t, later)
  {
  }

  /** A row stamped after every row of a stamped table can be put at its end. */
  lemma StampedSnoc<T>(t: Table<T>, x: Row<T>, next: nat)
    requires Stamped(t, next) && x.id < next && x.createdAt < next
    requires forall k :: 0 <= k < |t| ==> t[k].id < x.id && t[k].createdAt < x.createdAt
    ensures Stamped(t + [x], next)
  {
  }

  /** Appending a row finds every id found before, and the new row's id. */
  lemma {:induction false} FindAppend<T>(t: Table<T>, x: Row<T>, id: Id)
    ensures Find(t + [x], id) == if Find(t, id).Some? then Find(t, id) else if x.id == id then Some(|t|) else None
  {
    if t != [] {
      assert (t + [x])[1..] == t[1..] + [x];
      FindAppend(t[1..], x, id);
    }
  }

  /** Removing the row with one id leaves every other id as findable as it was. */
  lemma FindRemoveOther<T>(t: Table<T>, id: Id, other: Id)
    requires other != id
    ensures Find(Remove(t, id), other).Some? <==> Find(t, other).Some?
  {
    var r := Remove(t, id);
    if Find(t, other).Some? {
      var k := Find(t, other).value;
      assert t[k] in r;
      var j :| 0 <= j < |r| && r[j] == t[k];
    }
    if Find(r, other).Some? {
      var j := Find(r, other).value;
      assert r[j] in t;
      var k :| 0 <= k < |t| && t[k] == r[j];
    }
  }
}
