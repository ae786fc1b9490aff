# Shelfy lending core, modelled in Dafny

Shelfy is a Rails service for a small lending library. It registers
books and readers, lends a book to a reader and takes it back, and mails
reminders about due borrows. Every operation is a command or a query
object:

- a command's `execute` runs `run` in a transaction and turns the
  store's exceptions into a `Library::Result`;
- a query's `execute` rescues only a failed lookup;
- `ApplicationController#render_result` turns the Result into an HTTP
  reply.

This project models that layer over an in-memory store.

- **Store** (`store.dfy`). The class `Store.Library` holds the four
  tables (books, readers, book borrows, reminders) as sequences of rows
  in creation order. It also holds one counter that hands out both the
  id and the creation stamp of every insert, and a ghost `outbox` of
  the mails delivered so far.
  - Each command is a method that branches as the Ruby `run` does and
    writes the tables once, on its successful path.
  - Each method is proved equal to a pure step function in `Commands`.
  - Each method keeps the store invariant `StoreInvariant.Consistent`:
    - ids and creation stamps are increasing;
    - at most one active borrow per book (the partial unique index);
    - the foreign keys hold;
    - book serials, reader serials and reader emails are unique;
    - reminder types are known, and unique per borrow.
- **Commands** (`commands.dfy`). The step functions state what each
  command returns, the tables afterwards and the mails sent. Beside
  them are the scenario lemmas:
  - a reminder is mailed at most once;
  - returning a book silences its reminders;
  - a book cannot be lent twice, and can be lent again after a return;
  - deregistering a reader frees the books it held.
- **Models** (`book_model.dfy`, `reader_model.dfy`, `borrow_model.dfy`,
  `reminder_model.dfy`, `serial_number.dfy`). The ActiveRecord
  validations, each as the error map `errors.to_hash` would give, and
  the scopes.
- **Cascade** (`cascade.dfy`). `destroy!` with `dependent: :destroy`:
  borrows go with their book or reader, and a reminder referencing one
  of them makes the foreign key fail.
- **Result, execute and rendering** (`result.dfy`,
  `library_command.dfy`, `unique_field.dfy`, `controller.dfy`).
  `Library::Result`, the exception mapping including the regular
  expression of `extract_unique_field`, and `render_result`.
- **Queries** (`queries.dfy`, `pagination.dfy`, `serializers.dfy`).
  ListBooks, ListReaders, GetBook, GetReader, and the Blueprinter views
  they render.
- **Mailer** (`mailer.dfy`). The reminder mail's recipient and subject.
- **Shared** (`schema.dfy`, `text.dfy`, `wrappers.dfy`). Tables and
  `find`, plus Ruby's `present?`, `to_i` and `downcase`.

Two behaviours of the code are easy to miss:

- **Borrowing schedules no reminders.** `BorrowBook` creates only the
  borrow. Reminders enter the store only through
  `Store.Library.InsertReminder`, which is `Reminder.create!` with its
  validations.
- **Reminders do not cascade.** `Book` and `Reader` destroy their
  borrows (`dependent: :destroy`), but `BookBorrow` declares no
  `has_many :reminders`. Deregistering a book or reader whose borrow
  has a reminder therefore fails on the foreign key with "Invalid
  reference", and nothing is removed.

On `extract_unique_field`: with PostgreSQL, the message of a
unique-index violation quotes the constraint name and ends its second
line with a full stop. No line ends in a word character, so no field is
found and the reply is the base "Duplicate record"
(`LibraryCommand.NotUniqueAfterPunctuation`). Where a line does end in
an index name `index_<table>_on_<column>`, the capture is the whole
`<table>_on_<column>`, not the column alone
(`UniqueField.IndexNameCapture`).

## Model

| member | source | states |
|---|---|---|
| LibraryResult.Success | lib/library/result.rb:5-13 | a Result built with data and no errors is a success carrying that data and status |
| LibraryResult.OkEmpty | app/commands/library/deregister_book.rb:15 | `Result.new(status: :ok)` is a success without data |
| LibraryResult.BaseFailure | app/commands/library_command.rb:12-15 | a Result with a `{base: message}` error hash is a failure without data, with exactly that one error |
| LibraryResult.AsHash | app/commands/library/borrow_book.rb:39-41 | `errors.to_hash` has exactly the fields with errors, each with its messages |
| LibraryResult.ValidationFailure | app/commands/library/borrow_book.rb:39-41 | `validation_failure` is an unprocessable failure without data whose errors are the hash of the field errors |
| LibraryResult.AddError | app/queries/library/list_books.rb:63-76 | `errors.add` appends the message to that field's list and leaves every other field as it was |
| LibraryResult.MissingField | app/commands/library/return_book.rb:5 | a failed `presence` check on one field gives exactly that field with "can't be blank" |
| LibraryResult.AddErrorIf | app/queries/library/list_books.rb:64-69 | a guarded `errors.add` adds the field only when its condition holds, appending the message after any already there, and changes no other field |
| UniqueField.FirstCut | app/commands/library_command.rb:36 | the lazy `.*?_(\w+)$`: a position it returns is an underscore followed by one or more word characters to the end of the line |
| UniqueField.FirstCutIsFirst | app/commands/library_command.rb:36 | no earlier position after the start completes `_(\w+)$`, and none at all when there is no first one |
| UniqueField.UniqueBefore | app/commands/library_command.rb:36 | true exactly when a case-insensitive "unique" ends at or before the given position |
| UniqueField.LastCandidate | app/commands/library_command.rb:36 | the greedy `.*`: a position it returns is an "index" with a "unique" before it and a cut after it |
| UniqueField.LastCandidateIsLast | app/commands/library_command.rb:36 | no candidate "index" lies after the one returned, and none lies below the bound when none is returned |
| UniqueField.MatchIsCandidate | app/commands/library_command.rb:36 | every way the pattern matches a line starts its "index" at a candidate |
| UniqueField.LineCapture | app/commands/library_command.rb:36-37 | the capture exists exactly when the pattern matches the line, and it is one or more word characters |
| UniqueField.NoMatchAfter | app/commands/library_command.rb:36 | no match of the pattern has its "index" after the last candidate |
| UniqueField.LineCapturePreferred | app/commands/library_command.rb:36-37 | the capture is the one the regex engine reports: the last "index" that can start a match, then the first underscore that can end it |
| UniqueField.CaptureAfterCut | app/commands/library_command.rb:36-37 | the capture the line yields is everything after the first cut that follows the last candidate |
| UniqueField.NewlineFrom | app/commands/library_command.rb:36 | the first newline at or after a position, or the length of the message when there is none |
| UniqueField.NewlineFromIsFirst | app/commands/library_command.rb:36 | no newline lies between the starting position and the one returned |
| UniqueField.LineEnd | app/commands/library_command.rb:36 | the first newline of a message, or its length when there is none |
| UniqueField.LineEndIsFirst | app/commands/library_command.rb:36 | no newline comes before the end of the first line |
| UniqueField.Lines | app/commands/library_command.rb:36 | a message splits into at least one line (`$` and `.` stop at newlines) |
| UniqueField.LinesAtNewline | app/commands/library_command.rb:36 | a message with a newline splits into the text before it followed by the lines of the text after it |
| UniqueField.JoinCons | app/commands/library_command.rb:36 | joining a line in front of other lines puts a newline between them |
| UniqueField.SplitAtNewline | app/commands/library_command.rb:36 | a message is the text before a newline, the newline, and the text after it |
| UniqueField.JoinLines | app/commands/library_command.rb:36 | splitting a message into lines loses nothing: joined again with newlines, they give the message |
| UniqueField.LinesHaveNoNewline | app/commands/library_command.rb:36 | no line of a message holds a newline |
| UniqueField.FirstCapture | app/commands/library_command.rb:36-37 | the capture of the first line the pattern matches, and none exactly when no line matches |
| UniqueField.ExtractUniqueField | app/commands/library_command.rb:35-39 | `extract_unique_field` is nil exactly when no line of the message matches; otherwise it is the non-empty word captured in the first matching line |
| UniqueField.SingleLine | app/commands/library_command.rb:36 | a message without a newline is one line |
| UniqueField.SingleLineCapture | app/commands/library_command.rb:35-39 | for a one-line message the field is that line's capture |
| UniqueField.NoLaterIndex | app/commands/library_command.rb:36 | in `p + "index_" + w`, with no "index" in `w`, no "index" starts after the one following `p` |
| UniqueField.IndexNameLine | app/commands/library_command.rb:36-37 | a line ending in `index_<w>` after a "unique", with no "index" in `w`, captures all of `w` |
| UniqueField.IndexNameOneLine | app/commands/library_command.rb:36 | a line built from a one-line prefix, `index_` and a word holds no newline |
| UniqueField.IndexNameCapture | app/commands/library_command.rb:35-39 | for a one-line message ending in a Rails index name, the field is everything after `index_` |
| UniqueField.NoCaptureAfterNonWord | app/commands/library_command.rb:36 | a line whose last character is not a word character never matches |
| UniqueField.NoFieldAfterPunctuation | app/commands/library_command.rb:35-39 | a message whose lines all end in punctuation gives no field |
| LibraryCommand.HandleNotUnique | app/commands/library_command.rb:24-28 | an unprocessable failure without data: the extracted field is "has already been taken" when some line matches, and the base error is "Duplicate record" otherwise |
| LibraryCommand.NotUniqueOnIndexName | app/commands/library_command.rb:24-28 | a one-line violation ending in `index_<name>` marks `<name>` as taken |
| LibraryCommand.NotUniqueAfterPunctuation | app/commands/library_command.rb:24-28 | a violation whose lines all end in punctuation is the base "Duplicate record" |
| LibraryCommand.HandleRecordInvalid | app/commands/library_command.rb:30-33 | an unprocessable failure whose errors are the record's own errors, field by field |
| LibraryCommand.Execute | app/commands/library_command.rb:4-16 | a returned Result passes unchanged; exactly the four store exceptions are rescued, as failures without data, not_found only for a failed lookup; anything else escapes unchanged |
| LibraryCommand.ExecuteRescues | app/commands/library_command.rb:8-15 | a uniqueness violation goes to `handle_not_unique` with its message, an invalid record to `handle_record_invalid` with its errors; a failed lookup gives not_found "Record not found" and a foreign key violation unprocessable "Invalid reference" |
| LibraryCommand.QueryExecute | app/queries/library_query.rb:4-8 | a query passes its Result through and rescues only a failed lookup, as not_found; every other exception escapes |
| LibraryCommand.QueryRescuesLess | app/queries/library_query.rb:4-8 | whatever a query rescues, a command maps the same way; whatever escapes a command also escapes a query |
| Controller.SymbolOf | app/controllers/application_controller.rb:13 | each status symbol renders under its own name |
| Controller.ErrorMessageFrom | app/controllers/application_controller.rb:35-39 | a string error is its own message; a hash with a base error gives that base; otherwise "Validation failed" |
| Controller.FailureStatus | app/controllers/application_controller.rb:22-26 | not_found and unprocessable map to not_found and unprocessable_entity, and every other status to bad_request, in both directions |
| Controller.RenderResult | app/controllers/application_controller.rb:9-33 | not_found with errors is a bare 404; a success renders its status (ok by default), as a head without data, the page as it is, or other data under `data`; a failure renders the mapped status, the message and the error hash when there is one |
| Controller.ReplyStatus | app/controllers/application_controller.rb:9-33 | a failure replies with one of three statuses, not_found exactly for not_found; a success replies with its own status |
| Controller.NotFoundIsBare | app/controllers/application_controller.rb:10 | every not_found failure from `execute` is a bare 404 whatever its message |
| Controller.BaseFailureRenders | app/controllers/application_controller.rb:21-32 | an unprocessable base failure renders 422 with its base message and the error hash |
| Controller.ValidationFailureRenders | app/controllers/application_controller.rb:21-32 | a validation failure without a base error renders 422 with "Validation failed" and the field errors |
| ReminderMailer.SubjectFor | app/mailers/reminder_mailer.rb:17-24 | the subject exists exactly for the two known types, and quotes the title in the warning or the alert wording |
| ReminderMailer.SubjectDetermines | app/mailers/reminder_mailer.rb:17-24 | a subject determines both the reminder type and the title |
| ReminderMailer.SubjectQuotesTitle | app/mailers/reminder_mailer.rb:20-22 | every subject holds the title between double quotes |
| ReminderMailer.ReminderEmail | app/mailers/reminder_mailer.rb:2-13 | the mail goes to the borrow's reader, with the subject for the reminder's type and the book's title, and carries the due date |
| Schema.Find | app/commands/library/return_book.rb:12 | `find` returns the first row with the id, and nothing exactly when no row has it |
| Schema.StampedCons | app/models/book.rb:2 | a row older than all the others can go first in creation order |
| Schema.FindUnique | app/models/book.rb:2 | in a table with increasing ids, `find` of a row's id returns that row |
| Schema.StampedAppend | app/models/book.rb:2 | an insert stamped with the counter keeps the table in creation order |
| Schema.FindAfterUpdate | app/commands/library/return_book.rb:22 | an update that keeps the id leaves `find` unchanged |
| Schema.FindAllAfterUpdate | app/commands/library/return_book.rb:22 | an update that keeps the id leaves `find` unchanged for every id |
| Schema.StampedAfterUpdate | app/commands/library/return_book.rb:22 | an update that keeps the id and stamp keeps creation order |
| Schema.Remove | app/commands/library/deregister_book.rb:13 | `destroy` keeps exactly the rows with another id |
| Schema.StampedRemove | app/commands/library/deregister_book.rb:13 | removing rows keeps creation order |
| Schema.RemoveCount | app/commands/library/deregister_book.rb:12-13 | destroying a stored row removes exactly one row |
| Schema.RemoveAbsent | app/commands/library/deregister_book.rb:13 | removing an id that is not stored changes nothing |
| Schema.StampedGrow | app/models/book.rb:2 | a table in creation order stays so as the counter grows |
| Schema.StampedSnoc | app/models/book.rb:2 | a row younger than all the others can go last in creation order |
| Schema.FindAppend | app/commands/library/borrow_book.rb:24-31 | after an insert, `find` sees the old rows as before and the new row at the end |
| Schema.FindRemoveOther | app/commands/library/deregister_reader.rb:12-13 | removing one id leaves every other id findable exactly when it was |
| Text.DigitValue | app/models/book.rb:25 | a digit's value is at most 9 |
| Text.Pow10 | app/models/book.rb:25 | a power of ten is at least 1 |
| Text.DecimalValueBelow | app/models/book.rb:24-26 | an n-digit string has a value below 10^n |
| Text.DigitScaleBelow | app/models/book.rb:25 | a digit scales a place value to at most nine times it |
| Text.SkipSpaces | app/queries/library/list_books.rb:53 | `to_i` skips exactly the leading whitespace, and a blank string leaves nothing |
| Text.DigitPrefix | app/queries/library/list_books.rb:53 | `to_i` reads exactly the leading digits |
| Text.ToI | app/queries/library/list_books.rb:53 | a blank string converts to 0 |
| Text.ToIOfDigits | app/models/book.rb:24-25 | a digit string converts to its decimal value |
| Text.DigitPrefixOfDigits | app/models/book.rb:24-25 | a digit string is all digit prefix |
| Text.DowncaseChar | app/queries/library/list_books.rb:42 | an upper-case letter becomes the same letter in lower case, and every other character stays |
| Text.Downcase | app/queries/library/list_books.rb:73 | `downcase` maps each character and keeps the length |
| SerialNumber.SerialNumberMessages | app/models/book.rb:14-29 | no message exactly when the serial is six digits, in range and not taken; "can't be blank" exactly when blank, the format message exactly when not six digits, "has already been taken" exactly when taken, and the range message exactly for six digits with a leading zero |
| SerialNumber.InRangeIffNoLeadingZero | app/models/book.rb:23-29 | a six-digit serial is in 100000..999999 exactly when it does not start with 0 |
| ReaderModel.EmailMessages | app/models/reader.rb:9-10 | an email has no error exactly when it is present, not taken and well formed; "can't be blank" exactly when blank, "has already been taken" exactly when taken, "is not a valid email address" exactly when malformed |
| ReaderModel.ReaderErrors | app/models/reader.rb:6-22 | a reader is valid exactly when its serial, email and full name pass; each field has errors exactly when its own rules fail, and they are the serial-number messages, the email messages and "can't be blank" |
| BookModel.BookErrors | app/models/book.rb:14-29 | a book is valid exactly when serial, title and author pass; each field has errors exactly when its own rules fail: the serial-number messages, and "can't be blank" for a blank title or author |
| BookModel.ActiveBorrow | app/models/book.rb:5 | `active_borrow` is a borrow of the book without a return date, and nil exactly when there is none |
| BookModel.BorrowsOf | app/models/book.rb:4 | `book_borrows` are exactly the borrows of the book |
| BorrowModel.DueDate | app/models/book_borrow.rb:2 | the due date is the borrow date plus 30 days |
| BorrowModel.BorrowErrors | app/models/book_borrow.rb:6-11 | a borrow is valid exactly when its book and reader exist and no other active borrow has its book; "must exist" on book and on reader exactly when missing, "already has an active borrow" on book_id exactly when another active borrow has the book |
| BorrowModel.TheActiveBorrow | app/models/book_borrow.rb:11 | under the one-active-borrow rule, an active borrow is the book's `active_borrow` |
| BorrowModel.GuardsAgree | app/commands/library/borrow_book.rb:16-29 | `BorrowBook`'s `active_borrow` check agrees with the model's uniqueness validation, and a new borrow keeps one active borrow per book exactly when the book had none |
| BorrowModel.ReturnKeepsOneActive | app/commands/library/return_book.rb:22 | setting a return date keeps one active borrow per book |
| BorrowModel.Active | app/models/book_borrow.rb:13 | the `active` scope holds exactly the borrows without a return date |
| BorrowModel.Returned | app/models/book_borrow.rb:14 | the `returned` scope holds exactly the borrows with a return date |
| BorrowModel.ActiveReturnedPartition | app/models/book_borrow.rb:13-14 | together `active` and `returned` are every borrow, once each |
| BorrowModel.InsertByRecency | app/models/book_borrow.rb:15 | inserting into a most-recent-first list keeps it ordered and adds just that borrow |
| BorrowModel.MostRecentFirst | app/models/book_borrow.rb:15 | `most_recent_first` orders by borrow date, then creation, newest first, and is a permutation |
| ReminderModel.TypeMessages | app/models/reminder.rb:8-10 | the type has no message exactly when it is one of TYPES and not taken; "can't be blank" exactly when blank, "is not included in the list" exactly when not in TYPES, "has already been taken" exactly when taken |
| ReminderModel.ReminderErrors | app/models/reminder.rb:6-10 | a reminder is valid exactly when its borrow exists, its type is known and not taken for that borrow; "must exist" on book_borrow exactly when the borrow is missing, and the type messages on reminder_type |
| ReminderModel.BlankTypeNotIncluded | app/models/reminder.rb:2-8 | a blank type is never one of the known types |
| ReminderModel.Unsent | app/models/reminder.rb:12 | `unsent` holds exactly the reminders without `sent_at` |
| ReminderModel.ScheduledBy | app/models/reminder.rb:13 | the date bound of `due_on` holds exactly the reminders scheduled up to the date |
| ReminderModel.DueOn | app/models/reminder.rb:13 | `due_on` holds exactly the unsent reminders scheduled up to the date |
| ReminderModel.DueOnGrows | app/models/reminder.rb:13 | a later date makes `due_on` select more, never fewer |
| ReminderModel.ScheduledByGrows | app/models/reminder.rb:13 | a later date selects more reminders, never fewer |
| Cascade.BlocksAt | db/migrate/20260216054901_create_reminders.rb:4 | a destroy is blocked exactly when some borrow of the owner is referenced by a reminder |
| Cascade.Disowned | app/models/book.rb:4 | `dependent: :destroy` keeps exactly the borrows the owner does not own |
| Cascade.DisownedStamped | app/models/reader.rb:4 | the kept borrows stay in creation order |
| Cascade.DestroyBorrows | app/models/reader.rb:4 | destroying the owner's borrows one by one leaves exactly the others, and fails exactly when a reminder references one of them |
| Pagination.PaginationErrors | app/queries/library/list_books.rb:63-70 | page and per_page each get "must be a positive integer" exactly when present and not all digits |
| Pagination.ToIOrZero | app/queries/library/list_books.rb:53 | a nil page converts to 0 |
| Pagination.NormalizedPage | app/queries/library/list_books.rb:52-55 | the page is at least 1: `to_i` when that is positive, 1 otherwise |
| Pagination.NormalizedPerPage | app/queries/library/list_books.rb:57-61 | per_page is 20 below 1, `to_i` up to 50, and 50 above |
| Pagination.DefaultsWhenAbsent | app/queries/library/list_readers.rb:31-40 | with no page and no per_page, the first page of 20 |
| Pagination.Offset | app/queries/library/list_books.rb:19 | the first page starts at offset 0 |
| Pagination.Paginate | app/queries/library/list_books.rb:19-23 | `offset.limit`: at most per_page rows, empty past the end, each the row at the offset plus its index |
| Pagination.EveryRowOnItsPage | app/queries/library/list_books.rb:19-23 | every row appears on exactly one page, at its place on that page |
| Pagination.UniqueQuotient | app/queries/library/list_books.rb:19 | one offset belongs to one page |
| Pagination.MulSplit | app/queries/library/list_books.rb:19 | page offsets add up |
| Pagination.AtLeastOnce | app/queries/library/list_books.rb:19 | a page at least 1 starts at least one page in |
| Queries.FilterOf | app/queries/library/list_books.rb:42-49 | the filter is "borrowed" or "available" exactly when the lower-cased status is that word, and all books otherwise |
| Queries.FilterBooks | app/queries/library/list_books.rb:33-50 | the filtered books are exactly those the filter keeps |
| Queries.FilterKeepsOrder | app/queries/library/list_books.rb:40 | filtering keeps creation order |
| Queries.FiltersPartition | app/queries/library/list_books.rb:42-49 | no filter lists every book; borrowed and available together list every book once |
| Queries.BorrowStatusColumn | app/queries/library/list_books.rb:35-38 | the status column is "borrowed" exactly when the book has an active borrow, and "available" otherwise |
| Queries.StatusRows | app/queries/library/list_books.rb:27 | each listed book is rendered with its fields and the status the view shows |
| Queries.ListBooksErrors | app/queries/library/list_books.rb:63-76 | page, per_page and status each have an error exactly when invalid: "must be a positive integer" for page and per_page, the list of valid statuses for status |
| Queries.ListBooks | app/queries/library/list_books.rb:14-31 | invalid parameters give the validation failure; otherwise ok with the filtered total, the normalized page and per_page, and that page of rows with their status |
| Queries.ListedStatusIsTrue | app/queries/library/list_books.rb:14-50 | every listed status tells the truth about the book's active borrow, and matches the filter |
| Queries.PageStatus | app/queries/library/list_books.rb:21-27 | the rows on any page tell the truth about their status |
| Queries.StatusesTrueOnPage | app/queries/library/list_books.rb:23 | a page of truthful rows is truthful |
| Queries.ListReadersErrors | app/queries/library/list_readers.rb:42-49 | page and per_page each have an error exactly when invalid, and it is "must be a positive integer" |
| Queries.ReaderViews | app/queries/library/list_readers.rb:25 | each reader is rendered with its own fields |
| Queries.ListReaders | app/queries/library/list_readers.rb:12-29 | invalid parameters give the validation failure; otherwise ok with the total, the normalized page and per_page, and exactly the offset/limit slice of all readers in creation order, rendered one by one |
| Queries.GetBook | app/queries/library/get_book.rb:9-17 | a missing id is a validation failure, an unknown one not found, a known one the book's detail |
| Queries.GetReader | app/queries/library/get_reader.rb:9-17 | a missing id is a validation failure, an unknown one not found, a known one the reader |
| Queries.GetBookShowsTheBook | app/queries/library/get_book.rb:9-17 | every stored book is found and shown with its own fields |
| Serializers.BookStatus | app/serializers/library/book_blueprint.rb:7-11 | a precomputed status wins; otherwise "borrowed" exactly when there is an active borrow |
| Serializers.ViewBook | app/serializers/library/book_blueprint.rb:3-5 | the view carries the book's id, serial number, title and author |
| Serializers.ViewReader | app/queries/library/get_reader.rb:14-16 | the view carries the reader's id, serial number, email and full name |
| Serializers.ViewBorrow | app/serializers/library/book_borrow_blueprint.rb:3-11 | the view carries the reader's card number and email and the borrow's three dates |
| Serializers.ViewBorrows | app/serializers/library/book_blueprint.rb:16 | each borrow is rendered with its own reader |
| Serializers.Detail | app/serializers/library/book_blueprint.rb:13-19 | the detail shows the book, a truthful status, and exactly its borrows, each once, ordered by borrow date and then creation time, newest first, each rendered with its own reader; an unreturned one appears exactly when the book is borrowed |
| Serializers.SortedReadersKnown | app/serializers/library/book_blueprint.rb:17 | sorting the borrows keeps each one's reader findable |
| Serializers.ViewsKeepOrder | app/serializers/library/book_blueprint.rb:17 | rendering keeps the newest-first order and shows an unreturned borrow exactly when there is one |
| Serializers.HistoryShowsActive | app/serializers/library/book_blueprint.rb:13-19 | the sorted history has an unreturned borrow exactly when the book has an active borrow |
| Serializers.NeverBorrowedIsAvailable | app/serializers/library/book_blueprint.rb:7-19 | a book never borrowed shows no borrows and is available |
| Commands.BorrowParamErrors | app/commands/library/borrow_book.rb:5-6 | no error exactly when both ids are given; each missing id is "can't be blank" |
| Commands.PresenceErrors | app/commands/library/register_book.rb:5-7 | the presence checks of both register commands: no error exactly when all three fields are present; each blank one, and only that one, is "can't be blank" |
| Commands.MergeBook | app/commands/library/update_book.rb:13-16 | each present field replaces the stored value, each blank one keeps it |
| Commands.MergeReader | app/commands/library/update_reader.rb:13-16 | each present field replaces the stored value, each blank one keeps it |
| Commands.BorrowOf | app/commands/library/send_reminder.rb:16 | `reminder.book_borrow` is the stored borrow with the reminder's borrow id |
| Commands.MailFor | app/commands/library/send_reminder.rb:18 | the delivered mail goes to the borrow's reader and names the book's title |
| Commands.BorrowStep | app/commands/library/borrow_book.rb:10-37 | missing ids fail validation, unknown ones are not found, a borrowed book is "Book is already borrowed"; otherwise exactly one borrow due in 30 days is added and returned as created; nothing else changes |
| Commands.BorrowStepValidates | app/commands/library/borrow_book.rb:16-29 | the borrow that `create!` gets always passes its model validations |
| Commands.BorrowStepKeeps | app/commands/library/borrow_book.rb:10-37 | borrowing keeps the store invariant |
| Commands.ReturnStep | app/commands/library/return_book.rb:9-29 | a missing id fails validation, an unknown book is not found, a book not lent is "Book is not currently borrowed"; otherwise only its active borrow gets today's return date and is returned |
| Commands.ReturnStepKeeps | app/commands/library/return_book.rb:9-29 | returning keeps the store invariant |
| Commands.ReturnStepFreesBook | app/commands/library/return_book.rb:22 | after a return the book has no active borrow |
| Commands.ReturnTwice | app/commands/library/return_book.rb:15-20 | a second return of the same book is "Book is not currently borrowed" and changes nothing |
| Commands.BorrowAfterReturn | app/commands/library/borrow_book.rb:16-29 | a returned book can be lent again to any stored reader, as one new borrow |
| Commands.BorrowTwice | app/commands/library/borrow_book.rb:16-21 | a second borrow of the same book is refused as already borrowed, whoever asks, and changes nothing |
| Commands.ReturnSilencesReminder | app/commands/library/send_reminder.rb:16 | after a return, sending a reminder of that borrow reports ok, mails nothing and writes nothing |
| Commands.ReturnedStaysFound | app/commands/library/return_book.rb:22-24 | the returned borrow is found where it was, with its return date |
| Commands.SettledReminderIsQuiet | app/commands/library/send_reminder.rb:15-16 | a reminder already sent, or of a returned borrow, reports ok, mails nothing and writes nothing |
| Commands.SendReminderStep | app/commands/library/send_reminder.rb:9-32 | a missing id fails validation, an unknown one is not found, a sent or returned one is ok without mail; otherwise one mail is delivered and `sent_at` is set, or a delivery error escapes with nothing written; at most one mail, and a write exactly when a mail went out |
| Commands.SendReminderStepKeeps | app/commands/library/send_reminder.rb:9-24 | sending keeps the store invariant |
| Commands.SendReminderAtMostOnce | app/commands/library/send_reminder.rb:15 | after a delivery, a second send of the same reminder mails nothing and writes nothing |
| Commands.DeliveredIsSent | app/commands/library/send_reminder.rb:18-20 | after a delivery the reminder is found where it was, with `sent_at` set |
| Commands.RegisterBookStep | app/commands/library/register_book.rb:11-24 | blank fields fail the command's own validation, invalid books the model's; otherwise exactly one book is added and returned as created |
| Commands.RegisterBookStepKeeps | app/commands/library/register_book.rb:11-24 | registering a book keeps the store invariant |
| Commands.RegisterReaderStep | app/commands/library/register_reader.rb:11-24 | blank fields fail the command's own validation, invalid readers the model's; otherwise exactly one reader is added and returned as created |
| Commands.RegisterReaderStepKeeps | app/commands/library/register_reader.rb:11-24 | registering a reader keeps the store invariant |
| Commands.UpdateBookStep | app/commands/library/update_book.rb:9-23 | a missing id fails validation, an unknown one is not found; with nothing present the book comes back unchanged; otherwise the merged book is validated and, when valid, replaces just that row |
| Commands.UpdateBookStepKeeps | app/commands/library/update_book.rb:9-23 | updating a book keeps the store invariant |
| Commands.UpdateReaderStep | app/commands/library/update_reader.rb:9-23 | as for books, with serial number and email unique among the other readers |
| Commands.UpdateReaderStepKeeps | app/commands/library/update_reader.rb:9-23 | updating a reader keeps the store invariant |
| Commands.DeregisterStep | app/commands/library/deregister_book.rb:9-16 | a missing id fails validation, an unknown one is not found, one whose borrows have reminders is "Invalid reference"; otherwise the row and all its borrows go |
| Commands.DeregisterStepKeeps | app/commands/library/deregister_reader.rb:9-16 | deregistering keeps the store invariant |
| Commands.DeregisterRemovesParent | app/commands/library/deregister_book.rb:12-13 | exactly the one row goes, the other parent table is untouched, none of its borrows remains and every other borrow does |
| Commands.DeregisterReaderFreesBooks | app/models/reader.rb:4 | deregistering a reader frees every book it held, so another reader can borrow it |
| Commands.FreeBookLends | app/commands/library/borrow_book.rb:13-29 | a stored book without an active borrow is lent to any stored reader |
| Commands.ReaderGoneBookFree | app/models/reader.rb:4 | once the reader and its borrows are gone, the book it held is still stored and free, and every other reader is still stored |
| StoreInvariant.EmptyConsistent | db/migrate/20260216051337_create_book_borrows.rb:12 | the empty store satisfies the invariant |
| StoreInvariant.AllStampedGrow | app/models/book.rb:2 | creation order survives a counter step |
| StoreInvariant.AddBookKeeps | db/migrate/20260216050000_create_books.rb:10 | adding a book with a serial not yet taken keeps the invariant |
| StoreInvariant.AddReaderKeeps | db/migrate/20260216040451_create_readers.rb:10-11 | adding a reader with a serial and email not yet taken keeps the invariant |
| StoreInvariant.AddBorrowKeeps | db/migrate/20260216051337_create_book_borrows.rb:4-12 | adding an active borrow of a stored, free book for a stored reader keeps the invariant |
| StoreInvariant.ReturnKeeps | app/commands/library/return_book.rb:22 | setting a return date keeps the invariant |
| StoreInvariant.MarkSentKeeps | app/commands/library/send_reminder.rb:20 | setting `sent_at` keeps the invariant |
| StoreInvariant.MarkSentSameKeys | app/commands/library/send_reminder.rb:20 | setting `sent_at` keeps id, stamp, borrow and type |
| StoreInvariant.LinkedBySameKeys | db/migrate/20260216054901_create_reminders.rb:4 | reminders with the same borrow ids keep their foreign key |
| StoreInvariant.WellFormedBySameKeys | db/migrate/20260216054901_create_reminders.rb:11 | reminders with the same keys stay well formed and in creation order |
| StoreInvariant.UpdateBookKeeps | app/commands/library/update_book.rb:18 | an update whose serial no other book has keeps the invariant |
| StoreInvariant.UniqueBookSerialsUpdate | db/migrate/20260216050000_create_books.rb:10 | such an update keeps book serials unique |
| StoreInvariant.UpdateReaderKeeps | app/commands/library/update_reader.rb:18 | an update whose serial and email no other reader has keeps the invariant |
| StoreInvariant.UniqueReaderKeysUpdate | db/migrate/20260216040451_create_readers.rb:10-11 | such an update keeps reader serials and emails unique |
| StoreInvariant.AddReminderKeeps | app/models/reminder.rb:6-10 | adding a valid reminder keeps the invariant |
| StoreInvariant.LinkedAppend | db/migrate/20260216054901_create_reminders.rb:4 | a reminder of a stored borrow keeps the foreign key |
| StoreInvariant.WellFormedAppend | db/migrate/20260216054901_create_reminders.rb:11 | a reminder of a known, untaken type keeps the reminders well formed |
| StoreInvariant.ReturnValidates | app/models/book_borrow.rb:6-11 | the returned borrow passes its model validations on `update!` |
| StoreInvariant.MarkSentValidates | app/models/reminder.rb:6-10 | the sent reminder passes its model validations on `update!` |
| StoreInvariant.OneActiveOnSelection | db/migrate/20260216051337_create_book_borrows.rb:12 | any selection of the borrows keeps one active borrow per book |
| StoreInvariant.UniqueBookSerialsRemove | db/migrate/20260216050000_create_books.rb:10 | removing books keeps serials unique |
| StoreInvariant.UniqueReaderKeysRemove | db/migrate/20260216040451_create_readers.rb:10-11 | removing readers keeps serials and emails unique |
| StoreInvariant.DisownedKeepsReminders | db/migrate/20260216054901_create_reminders.rb:4 | an unblocked cascade leaves every reminder's borrow in place |
| StoreInvariant.DisownedKeepsParents | db/migrate/20260216051337_create_book_borrows.rb:4-5 | after the cascade every remaining borrow's book and reader exist |
| StoreInvariant.DestroyKeeps | app/models/book.rb:4 | an unblocked deregistration keeps the invariant |
| StoreInvariant.ReturnEndsLoan | app/commands/library/return_book.rb:22 | after the return the book has no active borrow |
| StoreInvariant.ReaderLeavesBooksAvailable | app/models/reader.rb:4 | without the reader's borrows, a book it held has no active borrow |
| Store.Library.constructor | db/schema.rb:13-51 | a new store is empty, consistent and has sent nothing |
| Store.Library.Commit | app/commands/library_command.rb:5-7 | the transaction's single write installs consistent tables and leaves the outbox as it was |
| Store.Library.BorrowBook | app/commands/library/borrow_book.rb:10-37 | the in-place command returns, stores and sends exactly what `BorrowStep` says, and keeps the invariant |
| Store.Library.ReturnBook | app/commands/library/return_book.rb:9-29 | as `ReturnStep`, keeping the invariant |
| Store.Library.SendReminder | app/commands/library/send_reminder.rb:9-24 | as `SendReminderStep`, with the delivered mail appended to the outbox |
| Store.Library.RegisterBook | app/commands/library/register_book.rb:11-24 | as `RegisterBookStep`, keeping the invariant |
| Store.Library.RegisterReader | app/commands/library/register_reader.rb:11-24 | as `RegisterReaderStep`, with the store's email format, keeping the invariant |
| Store.Library.UpdateBook | app/commands/library/update_book.rb:9-23 | as `UpdateBookStep`, keeping the invariant |
| Store.Library.UpdateReader | app/commands/library/update_reader.rb:9-23 | as `UpdateReaderStep`, keeping the invariant |
| Store.Library.DeregisterBook | app/commands/library/deregister_book.rb:9-16 | as `DeregisterStep` for books, keeping the invariant |
| Store.Library.DeregisterReader | app/commands/library/deregister_reader.rb:9-16 | as `DeregisterStep` for readers, keeping the invariant |
| Store.Library.Deregister | app/models/book.rb:4 | as `DeregisterStep`: the borrow-destroying loop decides between the foreign key failure and removing the row with its borrows; keeps the invariant |
| Store.Library.InsertReminder | app/models/reminder.rb:6-10 | `Reminder.create!` adds exactly one reminder when valid and changes nothing otherwise |

## Left out

- Concurrency. Each operation runs alone. The row lock of `SendReminder` (`Reminder.lock`), the transaction isolation, and the unique indexes acting as arbiter between racing requests are not modelled.
- Because every model validation checks the same uniqueness as its index, a `RecordNotUnique` never arises in this sequential model. `LibraryCommand.HandleNotUnique` is modelled for the message a racing insert would raise.
- Reminder scheduling. `BorrowBook` as written schedules no reminders, and no code in the core creates them. `Store.Library.InsertReminder` stands in for `Reminder.create!` from outside the core.
- `app/jobs/library/send_reminder_job.rb` only calls `SendReminder`, and is not part of this model.
- Mail templates and delivery. The mail is its recipient, subject, due date and reminder. Whether delivery raises is the parameter `deliveryError`. The clock (`Date.current`, `Time.current`) is a parameter.
- Reader email format. `URI::MailTo::EMAIL_REGEXP` is the uninterpreted predicate `isEmail` fixed when the store is created.
- `/i` in `extract_unique_field` and `downcase` fold ASCII letters only; Ruby's Unicode case folding is not modelled.
- `present?` treats ASCII whitespace as blank; nil parameters are "" (strings) or None (ids).
- Text.ToI: models `to_i` on strings without a sign (leading whitespace, then digits). Every string the model converts is either all digits, blank (converting to 0), or rejected first by the digit check.
- Pagination.Paginate: the offset `(page - 1) * per_page` is an unbounded integer. PostgreSQL's OFFSET is a bigint, so for a page above about 1.8e17 at per_page 50 the source's query raises a range error that `LibraryQuery#execute` does not rescue, and the request fails; the model returns an empty page instead.
- Queries.ListBooks: the same unbounded offset as `Pagination.Paginate`, so a page number past the bigint range gives an empty success rather than an escaping error.
- Queries.ListReaders: the same unbounded offset as `Pagination.Paginate`, with the same consequence.
- SQL, Blueprinter and uuidv7. Ids and creation times come from one counter. `Book.with_borrow_status` is not used by the core and is not modelled.
- Routing controllers, the health controller and config/ci.rb are not part of this model; nor is `app/serializers/library/reader_blueprint.rb`, so `Serializers.ViewReader` renders the reader's four stored fields.
- `db/schema.rb` lacks the reminders table; the migrations are followed.
- Dates are whole days counted as integers; times are integers.
