/** The update-note schema (`id` a string; `title`, `content` and `tags`
    each optional, a present `title` non-empty) and the client wrapper
    `postNotesUpdate`, which validates with it before anything is sent. */
module UpdateSchema {
  import opened NoteTypes
  import opened Validation

  const TitleNotEmpty := "Title cannot be empty."

  /** The fields of an update besides `id`; `None` is a field left out. */
  datatype UpdateData = UpdateData(title: Option<string>, content: Option<string>, tags: Option<seq<string>>)

  /** The parsed input of an update request, `{id, ...updateData}`. */
  datatype UpdateInput = UpdateInput(id: string, data: UpdateData)

  /** At least one of title, content and tags is present. */
  predicate HasData(d: UpdateData) {
    d.title.Some? || d.content.Some? || d.tags.Some?
  }

  /** What the schema without `id` accepts, field by field. */
  predicate DataAcceptable(fields: map<string, Json>) {
    && ("title" in fields ==> StringOk(fields, "title", true))
    && ("content" in fields ==> StringOk(fields, "content", false))
    && ("tags" in fields ==> fields["tags"].JStringArray?)
  }

  /** What the whole schema accepts. */
  predicate Acceptable(v: Value) {
    v.Object? && StringOk(v.fields, "id", false) && DataAcceptable(v.fields)
  }

  function DataIssues(fields: map<string, Json>): seq<Issue> {
    StringField(fields, "title", true, Some(TitleNotEmpty))
    + StringField(fields, "content", true, None)
    + StringArrayField(fields, "tags")
  }

  /** The schema with `id` omitted, as the edit form uses it. */
  function ValidateUpdateData(fields: map<string, Json>): (r: Validated<UpdateData>)
    ensures r.Valid? <==> DataAcceptable(fields)
    ensures r.Valid? ==> r.value == UpdateData(OptionalString(fields, "title"),
                                               OptionalString(fields, "content"),
                                               OptionalStrings(fields, "tags"))
    ensures r.Invalid? ==> |r.issues| > 0
  {
    var issues := DataIssues(fields);
    if issues != [] then Invalid(issues)
    else Valid(UpdateData(OptionalString(fields, "title"), OptionalString(fields, "content"),
                          OptionalStrings(fields, "tags")))
  }

  /** `schema.parse` (safe form) of an update request. */
  function ValidateUpdate(v: Value): (r: Validated<UpdateInput>)
    ensures r.Valid? <==> Acceptable(v)
    ensures r.Valid? ==>
      && r.value.id == v.fields["id"].s
      && r.value.data.title == OptionalString(v.fields, "title")
      && r.value.data.content == OptionalString(v.fields, "content")
      && r.value.data.tags == OptionalStrings(v.fields, "tags")
    ensures r.Valid? && r.value.data.title.Some? ==> r.value.data.title.value != ""
    ensures r.Invalid? ==> |r.issues| > 0
    ensures (r.Invalid? && Issue("title", TooSmall(TitleNotEmpty)) in r.issues)
        <==> v.Object? && "title" in v.fields && v.fields["title"] == JString("")
  {
    match v
    case NotAnObject => Invalid(NotAnObjectIssues)
    case Object(fields) =>
      var issues := StringField(fields, "id", false, None) + DataIssues(fields);
      assert Issue("title", TooSmall(TitleNotEmpty)) in issues
        <==> Issue("title", TooSmall(TitleNotEmpty)) in StringField(fields, "title", true, Some(TitleNotEmpty));
      if issues != [] then Invalid(issues)
      else
        var data := ValidateUpdateData(fields);
        Valid(UpdateInput(fields["id"].s, data.value))
  }

  /** A body holding only `id` passes the schema, with no update data: the
      schema itself does not refuse an empty update. */
  lemma IdOnlyPasses(id: string)
    ensures ValidateUpdate(Object(map["id" := JString(id)])) == Valid(UpdateInput(id, UpdateData(None, None, None)))
  {
  }

  /** The body `postNotesUpdate` sends; fields that are `undefined` are not
      serialised. */
  function UpdateBody(input: UpdateInput): Value {
    var d := input.data;
    Object(map["id" := JString(input.id)]
           + EntryIf("title", if d.title.Some? then Some(JString(d.title.value)) else None)
           + EntryIf("content", if d.content.Some? then Some(JString(d.content.value)) else None)
           + EntryIf("tags", if d.tags.Some? then Some(JStringArray(d.tags.value)) else None))
  }

  /** A present title is non-empty. */
  predicate TitleOk(d: UpdateData) {
    d.title.Some? ==> d.title.value != ""
  }

  /** Serialising an input and validating it again gives the input back
      exactly when a present title is non-empty. */
  lemma UpdateBodyRoundTrip(input: UpdateInput)
    ensures ValidateUpdate(UpdateBody(input)).Valid? <==> TitleOk(input.data)
    ensures TitleOk(input.data) ==> ValidateUpdate(UpdateBody(input)) == Valid(input)
  {
    var f := UpdateBody(input).fields;
    var d := input.data;
    assert f["id"] == JString(input.id);
    assert "title" in f <==> d.title.Some?;
    assert "content" in f <==> d.content.Some?;
    assert "tags" in f <==> d.tags.Some?;
    if d.title.Some? {
      assert f["title"] == JString(d.title.value);
    }
    if d.content.Some? {
      assert f["content"] == JString(d.content.value);
    }
    if d.tags.Some? {
      assert f["tags"] == JStringArray(d.tags.value);
    }
  }

  /** `postNotesUpdate(body)`: validate, then send; an input the schema
      refuses never becomes a request. */
  function PostNotesUpdate(body: Value, reply: Response<Note>): (r: Call<UpdateInput, Note>)
    ensures r.NotSent? <==> !Acceptable(body)
    ensures r.NotSent? ==> r.issues == ValidateUpdate(body).issues
    ensures r.Sent? ==>
      && ValidateUpdate(body) == Valid(r.request)
      && ValidateUpdate(UpdateBody(r.request)) == Valid(r.request)
    ensures r.Sent? ==> (r.outcome.Resolved? <==> reply.Ok?)
    ensures r.Sent? && reply.Fail? ==> r.outcome == Rejected(reply.error)
    ensures r.Sent? && reply.Ok? ==> r.outcome == Resolved(reply.value)
  {
    match ValidateUpdate(body)
    case Invalid(issues) => NotSent(issues)
    case Valid(input) =>
      UpdateBodyRoundTrip(input);
      Sent(input, SettleReply(reply))
  }
}
