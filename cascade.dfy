/**
 * `has_many :book_borrows, dependent: :destroy` on Book and on Reader:
 * destroying the parent first destroys each of its borrows in turn. A
 * borrow that a reminder still points at cannot be deleted (the reminders
 * table has a foreign key to it and BookBorrow declares no cascade of its
 * own), so one such borrow makes the whole destroy fail.
 */
module Cascade {
  import opened Schema

  /** The parent whose borrows are destroyed with it. */
  datatype Owner = BookOwner(bookId: Id) | ReaderOwner(readerId: Id)

  predicate Owns(o: Owner, b: Borrow) {
    match o
    case BookOwner(id) => b.attrs.bookId == id
    case ReaderOwner(id) => b.attrs.readerId == id
  }

  /** Some reminder points at the borrow with this id. */
  predicate Referenced(reminders: Table<ReminderAttrs>, borrowId: Id) {
    exists j :: 0 <= j < |reminders| && reminders[j].attrs.borrowId == borrowId
  }

  /** Some borrow of the parent is still pointed at by a reminder. */
  predicate Blocks(borrows: Table<BorrowAttrs>, reminders: Table<ReminderAttrs>, o: Owner) {
    if borrows == [] then false
    else
      var last := borrows[|borrows| - 1];
      Blocks(borrows[..|borrows| - 1], reminders, o) || (Owns(o, last) && Referenced(reminders, last.id))
  }

  /** `Blocks` names a borrow of the parent that a reminder points at. */
  lemma {:induction false} BlocksAt(borrows: Table<BorrowAttrs>, reminders: Table<ReminderAttrs>, o: Owner)
    ensures Blocks(borrows, reminders, o) <==>
            exists i :: 0 <= i < |borrows| && Owns(o, borrows[i]) && Referenced(reminders, borrows[i].id)
  {
    if borrows != [] {
      var front := borrows[..|borrows| - 1];
      BlocksAt(front, reminders, o);
      if Blocks(front, reminders, o) {
        var i :| 0 <= i < |front| && Owns(o, front[i]) && Referenced(reminders, front[i].id);
        assert borrows[i] == front[i];
      }
      if exists i :: 0 <= i < |borrows| && Owns(o, borrows[i]) && Referenced(reminders, borrows[i].id) {
        var i :| 0 <= i < |borrows| && Owns(o, borrows[i]) && Referenced(reminders, borrows[i].id);
        if i < |front| {
          assert front[i] == borrows[i];
        }
      }
    }
  }

  /** The borrows that survive the parent: those it does not own, in table order. */
  function Disowned(borrows: Table<BorrowAttrs>, o: Owner): (r: Table<BorrowAttrs>)
    ensures |r| <= |borrows|
    ensures forall k :: 0 <= k < |r| ==> r[k] in borrows && !Owns(o, r[k])
    ensures forall k :: 0 <= k < |borrows| && !Owns(o, borrows[k]) ==> borrows[k] in r
  {
    if borrows == [] then []
    else
      var last := borrows[|borrows| - 1];
      var front := borrows[..|borrows| - 1];
      assert borrows == front + [last];
      Disowned(front, o) + (if Owns(o, last) then [] else [last])
  }

  /** The surviving borrows keep their creation order. */
  lemma {:induction false} DisownedStamped(borrows: Table<BorrowAttrs>, o: Owner, next: nat)
    requires Stamped(borrows, next)
    ensures Stamped(Disowned(borrows, o), next)
  {
    if borrows != [] {
      var last := borrows[|borrows| - 1];
      var front := borrows[..|borrows| - 1];
      DisownedStamped(front, o, next);
      if !Owns(o, last) {
        var r := Disowned(front, o);
        forall k | 0 <= k < |r|
          ensures r[k].id < last.id && r[k].createdAt < last.createdAt
        {
          var j :| 0 <= j < |front| && front[j] == r[k];
        }
        StampedSnoc(r, last, next);
      }
    }
  }

  /**
   * The destroy cascade, one borrow at a time: the borrows that remain, and
   * whether some borrow to destroy is still referenced by a reminder.
   */
  method DestroyBorrows(borrows: Table<BorrowAttrs>, reminders: Table<ReminderAttrs>, o: Owner) returns (kept: Table<BorrowAttrs>, blocked: bool)
    ensures kept == Disowned(borrows, o)
    ensures blocked <==> Blocks(borrows, reminders, o)
  {
    kept := [];
    blocked := false;
    var i := 0;
    while i < |borrows|
      invariant 0 <= i <= |borrows|
      invariant kept == Disowned(borrows[..i], o)
      invariant blocked <==> Blocks(borrows[..i], reminders, o)
    {
      var b := borrows[i];
      assert borrows[..i + 1] == borrows[..i] + [b];
      if Owns(o, b) {
        if Referenced(reminders, b.id) {
          blocked := true;
        }
      } else {
        kept := kept + [b];
      }
      assert borrows[..i + 1][..i] == borrows[..i];
      i := i + 1;
    }
    assert borrows[..i] == borrows;
  }
}
