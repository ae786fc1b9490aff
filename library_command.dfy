/**
 * `LibraryCommand#execute` and `LibraryQuery#execute`: how the outcome of
 * a command's or query's `run` becomes the value the caller receives.
 * `run` either returns a Result or raises; the exceptions the store can
 * raise are the `Raised` values. A command's `run` happens inside a
 * transaction: the store methods make their single write only on the
 * path that returns normally, so a raised exception leaves the store as it
 * was.
 */
module LibraryCommand {
  import opened Wrappers
  import opened LibraryResult
  import opened UniqueField

  /**
   * The exceptions of the store: a unique index violation (carrying the
   * database's message), a
   * failed model validation (carrying the record's errors), a failed
   * `find`, a foreign key violation, and anything else.
   */
  datatype Raised =
    | RecordNotUnique(message: string)
    | RecordInvalid(errors: FieldErrors)
    | RecordNotFound
    | InvalidForeignKey
    | Unhandled(message: string)

  /** What `run` did: returned a Result, or raised. */
  datatype Run<+D> = Returned(result: Result<D>) | Threw(exception: Raised)

  /** What `execute` does: return a Result, or let the exception escape. */
  datatype Executed<+D> = Completed(result: Result<D>) | Propagated(exception: Raised)

  const DuplicateRecord := "Duplicate record"
  const RecordNotFoundMessage := "Record not found"
  const InvalidReference := "Invalid reference"

  /** The exceptions `LibraryCommand#execute` rescues. */
  predicate CommandRescues(e: Raised) {
    !e.Unhandled?
  }

  /**
   * `handle_not_unique`: the field named in the message is "taken", or a
   * base "Duplicate record" when the pattern finds no field in any line.
   */
  function HandleNotUnique<D>(message: string): (r: Result<D>)
    ensures IsFailure(r) && r.data.None? && r.status == Some(Unprocessable)
    ensures NoLineMatches(Lines(message)) ==> r.errors == Some(ErrorHash(map["base" := Text(DuplicateRecord)]))
    ensures !NoLineMatches(Lines(message)) ==>
              exists f :: f != [] && AllWord(f) && r.errors == Some(ErrorHash(map[f := Text(AlreadyTaken)]))
                          && Some(f) == ExtractUniqueField(message)
  {
    match ExtractUniqueField(message)
    case Some(f) => Result(None, Some(ErrorHash(map[f := Text(AlreadyTaken)])), Some(Unprocessable))
    case None => BaseFailure(Unprocessable, DuplicateRecord)
  }

  /**
   * A violation reported on one line that ends in an index name
   * `index_<name>` after a "unique" marks the whole `<name>` as taken.
   */
  lemma {:induction false} NotUniqueOnIndexName<D>(p: string, name: string)
    requires exists i: nat :: WordAt(p, i, "unique")
    requires forall k :: 0 <= k < |p| ==> p[k] != '\n'
    requires name != [] && AllWord(name)
    requires forall j: nat :: !WordAt(name, j, "index")
    ensures HandleNotUnique<D>(p + "index_" + name).errors == Some(ErrorHash(map[name := Text(AlreadyTaken)]))
  {
    IndexNameCapture(p, name);
  }

  /**
   * A violation whose every line ends in punctuation (a quoted constraint
   * name, a closing full stop) is reported as a base "Duplicate record".
   */
  lemma NotUniqueAfterPunctuation<D>(message: string)
    requires LinesEndOutsideWord(message)
    ensures HandleNotUnique<D>(message) == BaseFailure(Unprocessable, DuplicateRecord)
  {
    NoFieldAfterPunctuation(message);
  }

  /** `handle_record_invalid`: the record's own `errors.to_hash`, unprocessable. */
  function HandleRecordInvalid<D>(e: FieldErrors): (r: Result<D>)
    ensures IsFailure(r) && r.data.None? && r.status == Some(Unprocessable)
    ensures r.errors.value.ErrorHash? && r.errors.value.entries.Keys == e.Keys
    ensures forall f :: f in e ==> r.errors.value.entries[f] == Messages(e[f])
  {
    ValidationFailure(e)
  }

  /**
   * `LibraryCommand#execute`. A returned Result passes through untouched;
   * the four store exceptions become failures without data, not_found for
   * a failed lookup and unprocessable otherwise; any other exception
   * escapes.
   */
  function Execute<D>(run: Run<D>): (x: Executed<D>)
    ensures run.Returned? ==> x == Completed(run.result)
    ensures x.Propagated? <==> run.Threw? && !CommandRescues(run.exception)
    ensures x.Propagated? ==> x.exception == run.exception
    ensures run.Threw? && CommandRescues(run.exception) ==>
              && x.Completed? && IsFailure(x.result) && x.result.data.None?
              && (x.result.status == Some(NotFound) <==> run.exception.RecordNotFound?)
              && (x.result.status == Some(Unprocessable) <==> !run.exception.RecordNotFound?)
  {
    match run
    case Returned(r) => Completed(r)
    case Threw(e) =>
      match e
      case RecordNotUnique(m) => Completed(HandleNotUnique(m))
      case RecordInvalid(errors) => Completed(HandleRecordInvalid(errors))
      case RecordNotFound => Completed(BaseFailure(NotFound, RecordNotFoundMessage))
      case InvalidForeignKey => Completed(BaseFailure(Unprocessable, InvalidReference))
      case Unhandled(_) => Propagated(e)
  }

  /**
   * What `execute` makes of each rescued exception: a uniqueness violation
   * goes to `handle_not_unique`, an invalid record to
   * `handle_record_invalid`, and a failed lookup and a foreign key
   * violation get their base messages.
   */
  lemma ExecuteRescues<D>(m: string, e: FieldErrors)
    ensures Execute<D>(Threw(RecordNotUnique(m))) == Completed(HandleNotUnique(m))
    ensures Execute<D>(Threw(RecordInvalid(e))) == Completed(HandleRecordInvalid(e))
    ensures Execute<D>(Threw(RecordNotFound)) == Completed(BaseFailure(NotFound, "Record not found"))
    ensures Execute<D>(Threw(InvalidForeignKey)) == Completed(BaseFailure(Unprocessable, "Invalid reference"))
  {
  }

  /**
   * `LibraryQuery#execute`: no transaction, and only a failed lookup is
   * rescued, as not_found with base "Record not found"; every other
   * exception escapes.
   */
  function QueryExecute<D>(run: Run<D>): (x: Executed<D>)
    ensures run.Returned? ==> x == Completed(run.result)
    ensures x.Propagated? <==> run.Threw? && !run.exception.RecordNotFound?
    ensures x.Propagated? ==> x.exception == run.exception
    ensures run == Threw(RecordNotFound) ==> x.Completed? && IsFailure(x.result) && x.result.status == Some(NotFound)
  {
    match run
    case Returned(r) => Completed(r)
    case Threw(RecordNotFound) => Completed(BaseFailure(NotFound, RecordNotFoundMessage))
    case Threw(e) => Propagated(e)
  }

  /**
   * A query rescues less than a command, and whatever it does rescue it
   * maps exactly as a command would.
   */
  lemma {:induction false} QueryRescuesLess<D>(run: Run<D>)
    ensures QueryExecute(run).Completed? ==> Execute(run) == QueryExecute(run)
    ensures Execute(run).Propagated? ==> QueryExecute(run).Propagated?
  {
    match run
    case Returned(_) =>
    case Threw(e) =>
      if e.RecordNotFound? {
        assert Execute(run) == Completed(BaseFailure(NotFound, RecordNotFoundMessage));
      }
  }
}
