/** The product service's `GlobalExceptionHandler`: one total mapping from
    the raised error to the HTTP status and body. The timestamp and the
    request description of the error body are not modelled. */
module GlobalExceptionHandler {
  import opened Wrappers
  import opened Errors

  const BAD_REQUEST := 400
  const NOT_FOUND := 404
  const INTERNAL_SERVER_ERROR := 500

  datatype ErrorBody =
    | ErrorDetails(message: Option<string>)
    | FieldMessages(messages: map<string, string>)

  datatype ErrorResponse = ErrorResponse(status: nat, body: ErrorBody)

  /** The message of the last error naming `field`, if any: a reference
      definition that looks at one field at a time. */
  function LastMessage(errs: seq<FieldError>, field: string): Option<string> {
    if |errs| == 0 then None
    else if errs[|errs| - 1].field == field then Some(errs[|errs| - 1].message)
    else LastMessage(errs[..|errs| - 1], field)
  }

  /** The field→message map built by `put`-ing each error in turn. It holds
      exactly the fields that have an error, each with the message of its
      last error. */
  function FieldMap(errs: seq<FieldError>): (m: map<string, string>)
    ensures forall f :: f in m <==> LastMessage(errs, f).Some?
    ensures forall f | f in m :: m[f] == LastMessage(errs, f).value
  {
    if |errs| == 0 then map[]
    else
      var last := errs[|errs| - 1];
      FieldMap(errs[..|errs| - 1])[last.field := last.message]
  }

  /** A field has a last message exactly when some error names it. */
  lemma {:induction false} LastMessageExists(errs: seq<FieldError>, field: string)
    ensures LastMessage(errs, field).Some? <==> exists i :: 0 <= i < |errs| && errs[i].field == field
  {
    if |errs| > 0 {
      var prefix := errs[..|errs| - 1];
      LastMessageExists(prefix, field);
      assert forall i | 0 <= i < |prefix| :: prefix[i] == errs[i];
    }
  }

  /** A later error on a field overwrites an earlier one: the map keeps the
      message of the error at `i` when no error after `i` names its field. */
  lemma {:induction false} LaterOverwrites(errs: seq<FieldError>, i: nat)
    requires i < |errs|
    requires forall j | i < j < |errs| :: errs[j].field != errs[i].field
    ensures errs[i].field in FieldMap(errs)
    ensures FieldMap(errs)[errs[i].field] == errs[i].message
  {
    LastIsMessage(errs, i);
  }

  lemma {:induction false} LastIsMessage(errs: seq<FieldError>, i: nat)
    requires i < |errs|
    requires forall j | i < j < |errs| :: errs[j].field != errs[i].field
    ensures LastMessage(errs, errs[i].field) == Some(errs[i].message)
  {
    if i < |errs| - 1 {
      var prefix := errs[..|errs| - 1];
      assert prefix[i] == errs[i];
      LastIsMessage(prefix, i);
    }
  }

  /** The three handlers as one match: NotFound gives 404 with the error's
      message, a validation failure gives 400 with the field→message map,
      and every other error gives 500 with its message. */
  function Render(e: Error): (r: ErrorResponse)
    ensures r.status == NOT_FOUND <==> e.NotFound?
    ensures r.status == BAD_REQUEST <==> e.InvalidBody?
    ensures r.status == INTERNAL_SERVER_ERROR <==> !(e.NotFound? || e.InvalidBody?)
    ensures e.NotFound? ==> r.body == ErrorDetails(Some(e.message))
    ensures e.InvalidBody? ==> r.body == FieldMessages(FieldMap(e.errors))
    ensures e.IllegalArgument? ==> r.body == ErrorDetails(Some(e.message))
    ensures e.Unexpected? ==> r.body == ErrorDetails(e.detail)
  {
    match e
    case NotFound(message) => ErrorResponse(NOT_FOUND, ErrorDetails(Some(message)))
    case InvalidBody(errors) => ErrorResponse(BAD_REQUEST, FieldMessages(FieldMap(errors)))
    case IllegalArgument(message) => ErrorResponse(INTERNAL_SERVER_ERROR, ErrorDetails(Some(message)))
    case Unexpected(detail) => ErrorResponse(INTERNAL_SERVER_ERROR, ErrorDetails(detail))
  }
}
