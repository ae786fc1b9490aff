/**
 * `Library::Result`: the immutable value every command and query returns.
 * `data` and `errors` may be nil; `status` is a symbol that defaults to
 * `:ok` (and may itself be nil, which the controller treats as `:ok`).
 */
module LibraryResult {
  import opened Wrappers

  /** The status symbols the library produces, plus any other symbol. */
  datatype Status = Ok | Created | NotFound | Unprocessable | OtherStatus(symbol: string)

  /** A value in an errors hash: one message string, or a list of messages. */
  datatype ErrorValue = Text(message: string) | Messages(list: seq<string>)

  /** `errors` is a Hash keyed by field name, or (as the controller allows) a bare String. */
  datatype Errors = ErrorHash(entries: map<string, ErrorValue>) | ErrorString(text: string)

  /** ActiveModel's `errors.to_hash`: each field with its messages in the order they were added. */
  type FieldErrors = map<string, seq<string>>

  datatype Result<+D> = Result(data: Option<D>, errors: Option<Errors>, status: Option<Status>)

  /** ActiveModel's default messages for the presence, uniqueness and `belongs_to` validations. */
  const CantBeBlank := "can't be blank"
  const AlreadyTaken := "has already been taken"
  const MustExist := "must exist"

  /** `success?`: the result carries no errors. */
  predicate IsSuccess<D>(r: Result<D>) {
    r.errors.None?
  }

  /** `failure?`: the negation of `success?`. */
  predicate IsFailure<D>(r: Result<D>) {
    !IsSuccess(r)
  }

  /** `Result.new(data: d, status: s)`: a success carrying data. */
  function Success<D>(d: D, s: Status): (r: Result<D>)
    ensures IsSuccess(r) && r.data == Some(d) && r.status == Some(s)
  {
    Result(Some(d), None, Some(s))
  }

  /** `Result.new(status: :ok)` with no data. */
  function OkEmpty<D>(): (r: Result<D>)
    ensures IsSuccess(r) && r.data.None? && r.status == Some(Ok)
  {
    Result(None, None, Some(Ok))
  }

  /** A failure whose errors hash is `{base: message}`. */
  function BaseFailure<D>(s: Status, message: string): (r: Result<D>)
    ensures IsFailure(r) && r.data.None? && r.status == Some(s)
    ensures r.errors == Some(ErrorHash(map["base" := Text(message)]))
  {
    Result(None, Some(ErrorHash(map["base" := Text(message)])), Some(s))
  }

  /** `errors.to_hash` placed in an errors hash: every field keeps its message list. */
  function AsHash(e: FieldErrors): (h: map<string, ErrorValue>)
    ensures h.Keys == e.Keys
    ensures forall f :: f in e ==> h[f] == Messages(e[f])
  {
    map f | f in e :: Messages(e[f])
  }

  /** `Result.new(status: :unprocessable, errors: errors.to_hash)`, every command's `validation_failure`. */
  function ValidationFailure<D>(e: FieldErrors): (r: Result<D>)
    ensures IsFailure(r) && r.data.None? && r.status == Some(Unprocessable)
    ensures r.errors == Some(ErrorHash(AsHash(e)))
  {
    Result(None, Some(ErrorHash(AsHash(e))), Some(Unprocessable))
  }

  /** `errors.add(field, message)`: the message goes after those already on the field. */
  function AddError(e: FieldErrors, field: string, message: string): (e': FieldErrors)
    ensures e'.Keys == e.Keys + {field}
    ensures e'[field] == (if field in e then e[field] else []) + [message]
    ensures forall f :: f in e && f != field ==> e'[f] == e[f]
  {
    e[field := (if field in e then e[field] else []) + [message]]
  }

  /** The errors of a command or query whose one required parameter `field` is missing. */
  function MissingField(field: string): (e: FieldErrors)
    ensures e.Keys == {field} && e[field] == [CantBeBlank]
  {
    map[field := [CantBeBlank]]
  }

  /** `errors.add` of `message` on `field` exactly when `cond` holds. */
  function AddErrorIf(e: FieldErrors, cond: bool, field: string, message: string): (e': FieldErrors)
    ensures e'.Keys == if cond then e.Keys + {field} else e.Keys
    ensures cond ==> e'[field] == (if field in e then e[field] else []) + [message]
    ensures forall f :: f in e && (f != field || !cond) ==> e'[f] == e[f]
  {
    if cond then AddError(e, field, message) else e
  }
}
