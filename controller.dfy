/**
 * `ApplicationController#render_result` and `error_message_from`: which
 * HTTP reply a Result becomes. Rendering JSON is outside the model; a
 * reply is the status symbol and the body the controller builds.
 */
module Controller {
  import opened Wrappers
  import opened Text
  import opened LibraryResult
  import opened Serializers

  /** The body of a rendered reply. */
  datatype Body =
    | PageBody(page: Data)
    | DataBody(data: Data)
    | ErrorBody(message: ErrorValue, errors: Option<map<string, ErrorValue>>)

  /** `head status` (no body) or `render json: body, status: status`. */
  datatype Reply = Head(status: string) | Render(status: string, body: Body)

  /** The Rails status symbol a Result status names. */
  function SymbolOf(s: Status): (name: string)
    ensures s == Ok ==> name == "ok"
    ensures s == Created ==> name == "created"
    ensures s == NotFound ==> name == "not_found"
    ensures s == Unprocessable ==> name == "unprocessable"
  {
    match s
    case Ok => "ok"
    case Created => "created"
    case NotFound => "not_found"
    case Unprocessable => "unprocessable"
    case OtherStatus(symbol) => symbol
  }

  /** `errors.present?`: non-nil, and not an empty hash or a blank string. */
  predicate ErrorsPresent(e: Option<Errors>) {
    match e
    case None => false
    case Some(ErrorHash(entries)) => entries != map[]
    case Some(ErrorString(text)) => !Blank(text)
  }

  /**
   * `error_message_from`: a string is its own message; a hash gives its
   * `:base` entry when it has one; anything else is "Validation failed".
   */
  function ErrorMessageFrom(e: Option<Errors>): (m: ErrorValue)
    ensures e.Some? && e.value.ErrorString? ==> m == Text(e.value.text)
    ensures e.Some? && e.value.ErrorHash? && "base" in e.value.entries ==> m == e.value.entries["base"]
    ensures e.None? || (e.value.ErrorHash? && "base" !in e.value.entries) ==> m == Text("Validation failed")
  {
    match e
    case Some(ErrorString(text)) => Text(text)
    case Some(ErrorHash(entries)) => if "base" in entries then entries["base"] else Text("Validation failed")
    case None => Text("Validation failed")
  }

  /** The status of a failed result: 404, 422, or 400 for anything else. */
  function FailureStatus(s: Option<Status>): (name: string)
    ensures name == "not_found" <==> s == Some(NotFound)
    ensures name == "unprocessable_entity" <==> s == Some(Unprocessable)
    ensures name == "bad_request" <==> s != Some(NotFound) && s != Some(Unprocessable)
  {
    if s == Some(NotFound) then "not_found"
    else if s == Some(Unprocessable) then "unprocessable_entity"
    else "bad_request"
  }

  /**
   * `render_result`. A not_found result that carries errors is a bare 404.
   * A success uses its own status (`:ok` when nil) and sends a page as it
   * is, other data wrapped under `data`, and no data as a bare status. A
   * failure renders the error message with the status its kind maps to,
   * and the errors themselves only when they are a hash.
   */
  function RenderResult(r: Result<Data>): (reply: Reply)
    ensures r.status == Some(NotFound) && ErrorsPresent(r.errors) ==> reply == Head("not_found")
    ensures !(r.status == Some(NotFound) && ErrorsPresent(r.errors)) && IsSuccess(r) ==>
              && reply.status == (if r.status.None? then "ok" else SymbolOf(r.status.value))
              && (r.data.None? <==> reply.Head?)
              && (r.data.Some? && IsPage(r.data.value) ==> reply.body == PageBody(r.data.value))
              && (r.data.Some? && !IsPage(r.data.value) ==> reply.body == DataBody(r.data.value))
    ensures !(r.status == Some(NotFound) && ErrorsPresent(r.errors)) && IsFailure(r) ==>
              && reply.Render? && reply.status == FailureStatus(r.status)
              && reply.body.ErrorBody? && reply.body.message == ErrorMessageFrom(r.errors)
              && (reply.body.errors.Some? <==> r.errors.value.ErrorHash?)
              && (reply.body.errors.Some? ==> reply.body.errors.value == r.errors.value.entries)
  {
    if r.status == Some(NotFound) && ErrorsPresent(r.errors) then Head("not_found")
    else if IsSuccess(r) then
      var status := if r.status.None? then "ok" else SymbolOf(r.status.value);
      match r.data
      case Some(d) => if IsPage(d) then Render(status, PageBody(d)) else Render(status, DataBody(d))
      case None => Head(status)
    else
      var errors := if r.errors.value.ErrorHash? then Some(r.errors.value.entries) else None;
      Render(FailureStatus(r.status), ErrorBody(ErrorMessageFrom(r.errors), errors))
  }

  /**
   * The HTTP status of every reply: a success keeps its own status, every
   * failure gets 404, 422 or 400, and it is 404 exactly when the result
   * said not_found.
   */
  lemma ReplyStatus(r: Result<Data>)
    ensures IsFailure(r) ==> RenderResult(r).status in {"not_found", "unprocessable_entity", "bad_request"}
    ensures IsFailure(r) ==> (RenderResult(r).status == "not_found" <==> r.status == Some(NotFound))
    ensures IsSuccess(r) && r.status.Some? && r.status.value != NotFound ==> RenderResult(r).status == SymbolOf(r.status.value)
  {
  }

  /** A "record not found" failure is a bare 404: its message is never sent. */
  lemma NotFoundIsBare(message: string)
    ensures RenderResult(BaseFailure(NotFound, message)) == Head("not_found")
  {
    assert ErrorsPresent(BaseFailure<Data>(NotFound, message).errors) by {
      assert "base" in map["base" := Text(message)];
    }
  }

  /** An unprocessable failure with a base message sends that message and the whole hash. */
  lemma BaseFailureRenders(message: string)
    ensures RenderResult(BaseFailure(Unprocessable, message))
              == Render("unprocessable_entity", ErrorBody(Text(message), Some(map["base" := Text(message)])))
  {
  }

  /**
   * A validation failure without a base error renders as 422 with the
   * message "Validation failed" and every field's messages.
   */
  lemma ValidationFailureRenders(e: FieldErrors)
    requires "base" !in e
    ensures RenderResult(ValidationFailure(e)) == Render("unprocessable_entity", ErrorBody(Text("Validation failed"), Some(AsHash(e))))
  {
  }
}
