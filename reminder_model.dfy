/**
 * The Reminder model: the two reminder types, its validations (the borrow
 * exists, the type is one of TYPES, one reminder per borrow and type) and
 * the `unsent` / `due_on` scopes.
 */
module ReminderModel {
  import opened Wrappers
  import opened Text
  import opened Schema
  import opened LibraryResult

  const ThreeDaysWarning := "3_days_warning"
  const DueDateAlert := "due_date_alert"
  /** `Reminder::TYPES`. */
  const Types: seq<string> := [ThreeDaysWarning, DueDateAlert]

  const NotIncluded := "is not included in the list"

  /** The uniqueness query scoped to the borrow: another reminder of that borrow has this type. */
  predicate TypeTaken(reminders: Table<ReminderAttrs>, borrowId: Id, reminderType: string, self: Option<Id>) {
    exists k :: 0 <= k < |reminders| && reminders[k].attrs.borrowId == borrowId
      && reminders[k].attrs.reminderType == reminderType && (self.None? || reminders[k].id != self.value)
  }

  /**
   * The messages on `reminder_type`, in validation order: presence,
   * inclusion in TYPES, then uniqueness for the borrow.
   */
  function TypeMessages(t: string, taken: bool): (m: seq<string>)
    ensures m == [] <==> t in Types && !taken
    ensures CantBeBlank in m <==> Blank(t)
    ensures NotIncluded in m <==> t !in Types
    ensures AlreadyTaken in m <==> taken
    ensures |m| <= 3
  {
    BlankTypeNotIncluded(t);
    (if Blank(t) then [CantBeBlank] else [])
    + (if t !in Types then [NotIncluded] else [])
    + (if taken then [AlreadyTaken] else [])
  }

  /**
   * `errors.to_hash` after `valid?` on a reminder: `belongs_to` needs the
   * borrow; the type must be present and one of TYPES, and unique for the
   * borrow; `scheduled_for` is a date here and so always present.
   */
  function ReminderErrors(a: ReminderAttrs, borrowExists: bool, typeTaken: bool): (e: FieldErrors)
    ensures e == map[] <==> borrowExists && a.reminderType in Types && !typeTaken
    ensures "reminder_type" in e <==> a.reminderType !in Types || typeTaken
    ensures "book_borrow" in e <==> !borrowExists
    ensures e.Keys <= {"book_borrow", "reminder_type"}
    ensures "book_borrow" in e ==> e["book_borrow"] == [MustExist]
    ensures "reminder_type" in e ==> e["reminder_type"] == TypeMessages(a.reminderType, typeTaken)
  {
    var e0 := AddErrorIf(map[], !borrowExists, "book_borrow", MustExist);
    var e1 := AddErrorIf(e0, Blank(a.reminderType), "reminder_type", CantBeBlank);
    var e2 := AddErrorIf(e1, a.reminderType !in Types, "reminder_type", NotIncluded);
    var e := AddErrorIf(e2, typeTaken, "reminder_type", AlreadyTaken);
    BlankTypeNotIncluded(a.reminderType);
    assert e == map[] <==> e.Keys == {} by {
      if e.Keys == {} { assert e == map[]; }
    }
    e
  }

  /** A blank type is never one of TYPES, so the presence error always comes with the inclusion error. */
  lemma BlankTypeNotIncluded(t: string)
    ensures Blank(t) ==> t !in Types
  {
    if t in Types {
      assert !IsSpace(t[0]);
    }
  }

  /** Scope `unsent`: the reminders whose `sent_at` is nil, in table order. */
  function Unsent(reminders: Table<ReminderAttrs>): (r: Table<ReminderAttrs>)
    ensures |r| <= |reminders|
    ensures forall k :: 0 <= k < |r| ==> r[k] in reminders && r[k].attrs.sentAt.None?
    ensures forall k :: 0 <= k < |reminders| && reminders[k].attrs.sentAt.None? ==> reminders[k] in r
  {
    if reminders == [] then []
    else if reminders[0].attrs.sentAt.None? then [reminders[0]] + Unsent(reminders[1..])
    else Unsent(reminders[1..])
  }

  /** `where(scheduled_for: ..date)`: the reminders scheduled on or before `date`. */
  function ScheduledBy(reminders: Table<ReminderAttrs>, date: Date): (r: Table<ReminderAttrs>)
    ensures |r| <= |reminders|
    ensures forall k :: 0 <= k < |r| ==> r[k] in reminders && r[k].attrs.scheduledFor <= date
    ensures forall k :: 0 <= k < |reminders| && reminders[k].attrs.scheduledFor <= date ==> reminders[k] in r
  {
    if reminders == [] then []
    else if reminders[0].attrs.scheduledFor <= date then [reminders[0]] + ScheduledBy(reminders[1..], date)
    else ScheduledBy(reminders[1..], date)
  }

  /**
   * Scope `due_on(date)`: the unsent reminders scheduled on or before
   * `date`, so overdue ones are included and sent ones never are.
   */
  function DueOn(reminders: Table<ReminderAttrs>, date: Date): (r: Table<ReminderAttrs>)
    ensures forall k :: 0 <= k < |r| ==> r[k] in reminders && r[k].attrs.sentAt.None? && r[k].attrs.scheduledFor <= date
    ensures forall k ::
              0 <= k < |reminders| && reminders[k].attrs.sentAt.None? && reminders[k].attrs.scheduledFor <= date
              ==> reminders[k] in r
  {
    var u := Unsent(reminders);
    var r := ScheduledBy(u, date);
    assert forall k :: 0 <= k < |reminders| && reminders[k].attrs.sentAt.None? ==> reminders[k] in u;
    assert forall x :: x in u && x.attrs.scheduledFor <= date ==> x in r by {
      forall x | x in u && x.attrs.scheduledFor <= date
        ensures x in r
      {
        var k :| 0 <= k < |u| && u[k] == x;
      }
    }
    r
  }

  /** A later date never drops a reminder that was already due. */
  lemma {:induction false} DueOnGrows(reminders: Table<ReminderAttrs>, d1: Date, d2: Date)
    requires d1 <= d2
    ensures multiset(DueOn(reminders, d1)) <= multiset(DueOn(reminders, d2))
  {
    ScheduledByGrows(Unsent(reminders), d1, d2);
  }

  lemma {:induction false} ScheduledByGrows(reminders: Table<ReminderAttrs>, d1: Date, d2: Date)
    requires d1 <= d2
    ensures multiset(ScheduledBy(reminders, d1)) <= multiset(ScheduledBy(reminders, d2))
  {
    if reminders != [] {
      ScheduledByGrows(reminders[1..], d1, d2);
    }
  }
}
