/** The echo-level error handler and the formatting of request-validation
    errors into one line of text. */
module Handlers {
  import opened Common

  /** One failed validation rule: the struct field and the rule's tag. */
  datatype FieldError = FieldError(field: string, tag: string)

  /** An error handed to formatValidationErrors: the validator's list of
      field errors, or any other error with its text. */
  datatype ValidateError = ValidationErrors(errors: seq<FieldError>) | OtherError(text: string)

  /** The "Field: tag" entry for one field error. */
  function Entry(e: FieldError): string
  {
    e.field + ": " + e.tag
  }

  /** One entry per field error, in order. */
  function Entries(errs: seq<FieldError>): (r: seq<string>)
    ensures |r| == |errs|
    ensures forall i :: 0 <= i < |errs| ==> r[i] == Entry(errs[i])
  {
    if errs == [] then [] else [Entry(errs[0])] + Entries(errs[1..])
  }

  /** The formatted text of an error, as a specification. */
  function FormatSpec(err: Option<ValidateError>): string
  {
    match err
    case None => ""
    case Some(OtherError(text)) => text
    case Some(ValidationErrors(errs)) => Join(Entries(errs), "; ")
  }

  /** formatValidationErrors: "" for no error, the text of any other error,
      and the field errors' entries joined by "; ". */
  method FormatValidationErrors(err: Option<ValidateError>) returns (s: string)
    ensures err.None? ==> s == ""
    ensures err.Some? && err.value.OtherError? ==> s == err.value.text
    ensures err.Some? && err.value.ValidationErrors? ==> s == Join(Entries(err.value.errors), "; ")
  {
    if err.None? {
      return "";
    }
    if err.value.OtherError? {
      return err.value.text;
    }
    var errs := err.value.errors;
    var msgs: seq<string> := [];
    var i := 0;
    while i < |errs|
      invariant 0 <= i <= |errs|
      invariant |msgs| == i
      invariant forall j :: 0 <= j < i ==> msgs[j] == Entry(errs[j])
    {
      msgs := msgs + [Entry(errs[i])];
      i := i + 1;
    }
    assert msgs == Entries(errs);
    s := Join(msgs, "; ");
  }

  /** The formatted list starts with the first entry, ends with the last
      (no trailing separator), and holds exactly one "; " between
      neighbouring entries. */
  lemma FormattedShape(errs: seq<FieldError>)
    requires |errs| > 0
    ensures Entry(errs[0]) <= FormatSpec(Some(ValidationErrors(errs)))
    ensures IsSuffix(Entry(errs[|errs| - 1]), FormatSpec(Some(ValidationErrors(errs))))
    ensures |FormatSpec(Some(ValidationErrors(errs)))| == TotalLength(Entries(errs)) + 2 * (|errs| - 1)
  {
    JoinEnds(Entries(errs), "; ");
    JoinLength(Entries(errs), "; ");
  }

  /** A single field error is reported as its entry alone. */
  lemma SingleErrorFormat(e: FieldError)
    ensures FormatSpec(Some(ValidationErrors([e]))) == e.field + ": " + e.tag
  {
    assert Entries([e]) == [Entry(e)];
  }

  /** The message of an echo.HTTPError is an interface value; the handler
      asserts that it is a string. */
  datatype EchoMessage = MessageString(text: string) | MessageOther(repr: string)

  datatype EchoError = EchoHttpError(code: int, message: EchoMessage) | AnyError(text: string)

  /** What the echo error handler does: nothing, panic on a failed type
      assertion, or render the error page. */
  datatype EchoOutcome = Untouched | AssertionPanic | Page(code: int, message: string)

  /** ErrorHandler (echo variant): nothing once committed; an echo.HTTPError
      keeps its code and string message; any other error is a 500 with the
      generic message. */
  function EchoErrorHandler(committed: bool, err: EchoError): (r: EchoOutcome)
    ensures committed <==> r.Untouched?
    ensures r.AssertionPanic? <==> !committed && err.EchoHttpError? && err.message.MessageOther?
    ensures r.Page? && err.AnyError? ==> r == Page(500, "error processing the request")
    ensures r.Page? && err.EchoHttpError? ==> r.code == err.code && r.message == err.message.text
  {
    if committed then Untouched
    else match err
      case AnyError(_) => Page(500, "error processing the request")
      case EchoHttpError(code, MessageString(text)) => Page(code, text)
      case EchoHttpError(_, MessageOther(_)) => AssertionPanic
  }
}
