/** The values every part of the notes application exchanges: the `notes`
    row, the decoded request body a handler receives, the zod-style
    validation issues, and the responses of the handlers. */
module NoteTypes {

  datatype Option<+T> = None | Some(value: T) {
    function GetOr(default: T): T {
      match this
      case Some(v) => v
      case None => default
    }
  }

  /** One row of the `notes` table. Timestamps are milliseconds since the epoch. */
  datatype Note = Note(
    id: string,
    title: string,
    content: string,
    tags: seq<string>,
    createdAt: int,
    updatedAt: int)

  /** A JSON value as far as the schemas can tell them apart: a string, an
      array whose items are all strings, or anything else (a number, null,
      an object, an array holding a non-string, ...). */
  datatype Json = JString(s: string) | JStringArray(items: seq<string>) | JOther

  /** A decoded request body: an object (its keys and values) or any other JSON value. */
  datatype Value = NotAnObject | Object(fields: map<string, Json>)

  /** The text of a request as the handler reads it: either it does not
      decode at all (the decoder throws with `message`) or it decodes to a value. */
  datatype Body = Unparsable(message: string) | Parsed(value: Value)

  /** The values the edit and create forms hold. */
  datatype FormValues = FormValues(title: string, content: string, tags: seq<string>)

  /** The form values as the form library hands them to its schema. */
  function FormFields(form: FormValues): map<string, Json> {
    map["title" := JString(form.title), "content" := JString(form.content), "tags" := JStringArray(form.tags)]
  }

  // ---- validation issues, in the manner of zod ----

  datatype IssueCode = Required | InvalidType | TooSmall(message: string)

  /** One failed check; `path` is the offending key ("" for the body itself). */
  datatype Issue = Issue(path: string, code: IssueCode)

  datatype Validated<T> = Valid(value: T) | Invalid(issues: seq<Issue>)

  // ---- handler responses ----

  const BadRequest := 400
  const NotFound := 404
  const ServerError := 500

  /** The `{error}` payload: a validation error carries zod's issues, any
      other failure a message. */
  datatype ErrorBody = Issues(issues: seq<Issue>) | Message(text: string)

  datatype Response<+T> = Ok(value: T) | Fail(status: int, error: ErrorBody)

  /** The body of a successful delete: `{success: true, id}`. */
  datatype DeleteAck = DeleteAck(success: bool, id: string)

  // ---- client wrappers ----

  /** How an awaited request ends on the client: the parsed success body, or
      the thrown `Error` carrying the server's `error` payload. */
  datatype Settled<+T> = Resolved(value: T) | Rejected(error: ErrorBody)

  /** A client wrapper call: refused locally by the schema (no request leaves
      the browser), or sent with the validated input and settled. */
  datatype Call<+I, +T> = NotSent(issues: seq<Issue>) | Sent(request: I, outcome: Settled<T>)

  /** What the wrapper makes of the server's reply: a non-ok status
      becomes a rejection with the server's error, an ok one the parsed body. */
  function SettleReply<T>(reply: Response<T>): (s: Settled<T>)
    ensures s.Resolved? <==> reply.Ok?
    ensures reply.Ok? ==> s.value == reply.value
    ensures reply.Fail? ==> s.error == reply.error
  {
    match reply
    case Ok(v) => Resolved(v)
    case Fail(_, e) => Rejected(e)
  }
}
