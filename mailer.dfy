/**
 * `ReminderMailer#reminder_email`: the recipient, subject and due date of
 * the mail sent for a reminder. The body templates and the delivery
 * machinery are outside the model; a delivered mail is a `Mail` value.
 */
module ReminderMailer {
  import opened Wrappers
  import opened Schema
  import opened ReminderModel

  /** What the model keeps of a delivered reminder email. */
  datatype Mail = Mail(to: string, subject: Option<string>, dueDate: Date, reminderId: Id)

  const WarningOpen := "Reminder: \""
  const WarningClose := "\" is due in 3 days"
  const AlertOpen := "Action Required: \""
  const AlertClose := "\" is due today"

  /** `subject_for`: one subject line per reminder type, nil for any other type. */
  function SubjectFor(reminderType: string, title: string): (s: Option<string>)
    ensures s.Some? <==> reminderType in Types
    ensures reminderType == ThreeDaysWarning ==> s == Some("Reminder: \"" + title + "\" is due in 3 days")
    ensures reminderType == DueDateAlert ==> s == Some("Action Required: \"" + title + "\" is due today")
  {
    if reminderType == ThreeDaysWarning then Some(WarningOpen + title + WarningClose)
    else if reminderType == DueDateAlert then Some(AlertOpen + title + AlertClose)
    else None
  }

  /**
   * A subject line tells which kind of reminder it is and which title it
   * names: two reminders get the same subject only when their types and
   * their books' titles agree.
   */
  lemma SubjectDetermines(t1: string, x1: string, t2: string, x2: string)
    requires SubjectFor(t1, x1).Some? && SubjectFor(t1, x1) == SubjectFor(t2, x2)
    ensures t1 == t2 && x1 == x2
  {
    var s := SubjectFor(t1, x1).value;
    assert s[0] == (if t1 == ThreeDaysWarning then 'R' else 'A');
    assert s[0] == (if t2 == ThreeDaysWarning then 'R' else 'A');
    assert t1 == t2;
    var n := if t1 == ThreeDaysWarning then |WarningOpen| else |AlertOpen|;
    var c := if t1 == ThreeDaysWarning then |WarningClose| else |AlertClose|;
    assert x1 == s[n..|s| - c];
    assert x2 == s[n..|s| - c];
  }

  /** The title appears in the subject between double quotes, right after the opening words. */
  lemma SubjectQuotesTitle(reminderType: string, title: string)
    requires reminderType in Types
    ensures var s := SubjectFor(reminderType, title).value;
            var n := if reminderType == ThreeDaysWarning then |WarningOpen| else |AlertOpen|;
            n + |title| < |s| && s[n - 1] == '"' && s[n..n + |title|] == title && s[n + |title|] == '"'
  {
  }

  /**
   * `reminder_email` for a reminder, following its associations: the mail
   * goes to the email of the borrow's reader, its subject names the borrowed
   * book, and the due date it shows is the borrow's due date (not the day
   * the reminder was scheduled for).
   */
  function ReminderEmail(reminder: Reminder, borrow: Borrow, book: Book, reader: Reader): (m: Mail)
    requires reminder.attrs.borrowId == borrow.id
    requires borrow.attrs.bookId == book.id && borrow.attrs.readerId == reader.id
    ensures m.to == reader.attrs.email
    ensures m.subject == SubjectFor(reminder.attrs.reminderType, book.attrs.title)
    ensures m.dueDate == borrow.attrs.dueDate
    ensures m.reminderId == reminder.id
  {
    Mail(reader.attrs.email, SubjectFor(reminder.attrs.reminderType, book.attrs.title), borrow.attrs.dueDate, reminder.id)
  }
}
