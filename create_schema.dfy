/** The create-note schema (`title` non-empty, `content` any string, `tags`
    an optional list of strings) and the client wrapper `postNotes`, which
    validates with it before anything is sent. */
module CreateSchema {
  import opened NoteTypes
  import opened Validation

  const TitleRequired := "Title is required."

  /** The parsed input of a create request. */
  datatype CreateInput = CreateInput(title: string, content: string, tags: Option<seq<string>>)

  /** What the schema accepts, field by field. */
  predicate Acceptable(v: Value) {
    && v.Object?
    && StringOk(v.fields, "title", true)
    && StringOk(v.fields, "content", false)
    && ("tags" in v.fields ==> v.fields["tags"].JStringArray?)
  }

  function CreateIssues(fields: map<string, Json>): seq<Issue> {
    StringField(fields, "title", false, Some(TitleRequired))
    + StringField(fields, "content", false, None)
    + StringArrayField(fields, "tags")
  }

  /** `schema.parse` (safe form): the input when every field passes, the
      issues otherwise. Unknown keys are dropped. */
  function ValidateCreate(v: Value): (r: Validated<CreateInput>)
    ensures r.Valid? <==> Acceptable(v)
    ensures r.Valid? ==>
      && r.value.title == v.fields["title"].s != ""
      && r.value.content == v.fields["content"].s
      && r.value.tags == OptionalStrings(v.fields, "tags")
    ensures r.Invalid? ==> |r.issues| > 0
    ensures (r.Invalid? && Issue("title", TooSmall(TitleRequired)) in r.issues)
        <==> v.Object? && "title" in v.fields && v.fields["title"] == JString("")
  {
    match v
    case NotAnObject => Invalid(NotAnObjectIssues)
    case Object(fields) =>
      var issues := CreateIssues(fields);
      assert Issue("title", TooSmall(TitleRequired)) in issues
        <==> Issue("title", TooSmall(TitleRequired)) in StringField(fields, "title", false, Some(TitleRequired));
      if issues != [] then Invalid(issues)
      else Valid(CreateInput(fields["title"].s, fields["content"].s, OptionalStrings(fields, "tags")))
  }

  /** The body `postNotes` sends for a parsed input; `tags: undefined` is not
      serialised. */
  function CreateBody(input: CreateInput): Value {
    Object(map["title" := JString(input.title), "content" := JString(input.content)]
           + EntryIf("tags", if input.tags.Some? then Some(JStringArray(input.tags.value)) else None))
  }

  /** Serialising an input and validating it again gives the input back
      exactly when its title is non-empty: the server re-validates with the
      same schema and accepts what the client accepted. */
  lemma CreateBodyRoundTrip(input: CreateInput)
    ensures ValidateCreate(CreateBody(input)).Valid? <==> input.title != ""
    ensures input.title != "" ==> ValidateCreate(CreateBody(input)) == Valid(input)
  {
    var f := CreateBody(input).fields;
    assert f["title"] == JString(input.title);
    assert f["content"] == JString(input.content);
    assert "tags" in f <==> input.tags.Some?;
    if input.tags.Some? {
      assert f["tags"] == JStringArray(input.tags.value);
    }
  }

  /** `postNotes(body)`: `schema.parse` runs first, so an input the schema
      refuses never becomes a request; a sent request is the parsed input,
      a non-ok reply rejects with the server's `error`, an ok one resolves
      with the parsed `{note}`. */
  function PostNotes(body: Value, reply: Response<Note>): (r: Call<CreateInput, Note>)
    ensures r.NotSent? <==> !Acceptable(body)
    ensures r.NotSent? ==> r.issues == ValidateCreate(body).issues
    ensures r.Sent? ==>
      && ValidateCreate(body) == Valid(r.request)
      && ValidateCreate(CreateBody(r.request)) == Valid(r.request)
    ensures r.Sent? ==> (r.outcome.Resolved? <==> reply.Ok?)
    ensures r.Sent? && reply.Fail? ==> r.outcome == Rejected(reply.error)
    ensures r.Sent? && reply.Ok? ==> r.outcome == Resolved(reply.value)
  {
    match ValidateCreate(body)
    case Invalid(issues) => NotSent(issues)
    case Valid(input) =>
      CreateBodyRoundTrip(input);
      Sent(input, SettleReply(reply))
  }
}
