/** The note card: a preview of one note that turns into an edit form.
    A click on the card enters edit mode; a mouse-down outside the card
    while editing saves a changed form or leaves edit mode when nothing
    changed; a successful save leaves edit mode; Cancel leaves it keeping
    the form; a confirmed delete asks for the note's removal. */
module NoteCardModel {
  import opened NoteTypes
  import opened UpdateSchema
  import TagText
  import JsonText

  // ---- preview ----

  const PreviewLimit := 150
  const Ellipsis := "..."

  /** Content longer than the limit is shown as its first 150 characters and
      an ellipsis; shorter content is shown whole. */
  function Preview(content: string): (r: string)
    ensures |content| <= PreviewLimit ==> r == content
    ensures |content| > PreviewLimit ==>
      && |r| == PreviewLimit + |Ellipsis|
      && r[..PreviewLimit] == content[..PreviewLimit]
      && r[PreviewLimit..] == Ellipsis
  {
    if |content| > PreviewLimit then content[..PreviewLimit] + Ellipsis else content
  }

  // ---- change detection and the save request ----

  /** The form a note starts editing from. */
  function FormOf(n: Note): (f: FormValues)
    ensures f.title == n.title && f.content == n.content && f.tags == n.tags
  {
    FormValues(n.title, n.content, n.tags)
  }

  /** `hasChanged`: title or content differ, or the tag lists' JSON texts do. */
  predicate HasChanged(form: FormValues, n: Note) {
    || form.title != n.title
    || form.content != n.content
    || JsonText.StringifyStrings(form.tags) != JsonText.StringifyStrings(n.tags)
  }

  /** The form has changed exactly when it differs from the note's form. */
  lemma HasChangedIff(form: FormValues, n: Note)
    ensures HasChanged(form, n) <==> form != FormOf(n)
  {
    JsonText.StringifyInjective(form.tags, n.tags);
  }

  /** `form.handleSubmit(handleSave)`: the values go through the update
      schema without `id`; when they pass, `{id: note.id, ...values}` is
      sent, and when they fail (an empty title) nothing is. */
  function SaveRequest(id: string, form: FormValues): (r: Option<UpdateInput>)
    ensures r.Some? <==> form.title != ""
    ensures r.Some? ==> r.value == UpdateInput(id, UpdateData(Some(form.title), Some(form.content), Some(form.tags)))
  {
    var fields := FormFields(form);
    assert "title" in fields && fields["title"] == JString(form.title);
    match ValidateUpdateData(fields)
    case Invalid(_) => None
    case Valid(data) => Some(UpdateInput(id, data))
  }

  /** What the card sends always carries data and passes the server's
      schema: the card never draws a 400. */
  lemma SaveRequestAccepted(id: string, form: FormValues)
    requires SaveRequest(id, form).Some?
    ensures HasData(SaveRequest(id, form).value.data)
    ensures ValidateUpdate(UpdateBody(SaveRequest(id, form).value)) == Valid(SaveRequest(id, form).value)
  {
    UpdateBodyRoundTrip(SaveRequest(id, form).value);
  }

  // ---- clicks on the card ----

  /** One element on the way from the clicked element up: whether it is a
      `button`, has `role="button"`, or carries `data-badge`. */
  datatype Element = Element(isButton: bool, hasButtonRole: bool, isBadge: bool)

  /** Matches the selector `button, [role="button"], [data-badge]`. */
  predicate IsControl(e: Element) {
    e.isButton || e.hasButtonRole || e.isBadge
  }

  /** The card's own element, which carries `role="button"`. */
  const CardRoot := Element(false, true, false)

  predicate AnyControl(path: seq<Element>) {
    exists i :: 0 <= i < |path| && IsControl(path[i])
  }

  /** The click test as written: `closest` looks at the clicked element and
      every ancestor, `inside` (innermost first) and then the card itself. */
  predicate EntersEditModeAsWritten(isEditing: bool, inside: seq<Element>) {
    !isEditing && !AnyControl(inside + [CardRoot])
  }

  /** Since the card matches its own selector, no click ever starts editing. */
  lemma CardClickNeverEdits(isEditing: bool, inside: seq<Element>)
    ensures !EntersEditModeAsWritten(isEditing, inside)
  {
    var path := inside + [CardRoot];
    assert IsControl(path[|inside|]);
  }

  /** The click test the comment describes: a click enters edit mode unless
      it lands on a control inside the card. */
  predicate EntersEditMode(isEditing: bool, inside: seq<Element>) {
    !isEditing && !AnyControl(inside)
  }

  /** A click on the card's own surface, or on plain text in it, starts
      editing; a click on a badge does not. */
  lemma CardClickEdits(text: Element)
    requires !IsControl(text)
    ensures EntersEditMode(false, [])
    ensures EntersEditMode(false, [text])
    ensures !EntersEditMode(false, [Element(false, false, true), text])
  {
    assert IsControl([Element(false, false, true), text][0]);
  }

  class NoteCard {
    var note: Note
    var isEditing: bool
    var form: FormValues

    constructor (n: Note)
      ensures note == n && !isEditing && form == FormOf(n)
    {
      note := n;
      isEditing := false;
      form := FormOf(n);
    }

    /** The effect on a new `note` prop: the form is reset to it. */
    method NoteChanged(n: Note)
      modifies this
      ensures note == n && form == FormOf(n) && isEditing == old(isEditing)
    {
      note := n;
      form := FormOf(n);
    }

    /** `handleCardClick`, with the click test corrected. */
    method CardClick(inside: seq<Element>)
      modifies this
      ensures isEditing <==> old(isEditing) || !AnyControl(inside)
      ensures note == old(note) && form == old(form)
    {
      if EntersEditMode(isEditing, inside) {
        isEditing := true;
      }
    }

    method EditTitle(title: string)
      modifies this
      ensures form == old(form).(title := title)
      ensures note == old(note) && isEditing == old(isEditing)
    {
      form := form.(title := title);
    }

    method EditContent(content: string)
      modifies this
      ensures form == old(form).(content := content)
      ensures note == old(note) && isEditing == old(isEditing)
    {
      form := form.(content := content);
    }

    /** The tags field's change handler with the text the field now holds. */
    method EditTags(text: string)
      modifies this
      ensures form == old(form).(tags := TagText.ParseTags(text))
      ensures TagText.WellFormedTags(form.tags)
      ensures note == old(note) && isEditing == old(isEditing)
    {
      var tags := TagText.ParseTags(text);
      form := FormValues(form.title, form.content, tags);
    }

    /** The text the tags field shows. */
    function TagsField(): (text: string)
      reads this
      ensures TagText.WellFormedTags(form.tags) ==> TagText.ParseTags(text) == form.tags
    {
      assert TagText.WellFormedTags(form.tags) ==> TagText.ParseTags(TagText.JoinTags(form.tags)) == form.tags by {
        if TagText.WellFormedTags(form.tags) {
          TagText.ParseJoinRoundTrip(form.tags);
        }
      }
      TagText.JoinTags(form.tags)
    }

    /** The Save button: the form's submit. */
    method Submit() returns (request: Option<UpdateInput>)
      ensures request == SaveRequest(note.id, form)
    {
      request := SaveRequest(note.id, form);
    }

    /** A mouse-down anywhere on the page; `outside` says whether it lands
        outside the card. */
    method MouseDown(outside: bool) returns (request: Option<UpdateInput>)
      modifies this
      ensures note == old(note) && form == old(form)
      ensures !(outside && old(isEditing)) ==> request.None? && isEditing == old(isEditing)
      ensures outside && old(isEditing) && !HasChanged(form, note) ==> request.None? && !isEditing
      ensures outside && old(isEditing) && HasChanged(form, note) ==>
        request == SaveRequest(note.id, form) && isEditing
    {
      request := None;
      if outside && isEditing {
        if HasChanged(form, note) {
          request := SaveRequest(note.id, form);
        } else {
          isEditing := false;
        }
      }
    }

    /** The update mutation settling: success leaves edit mode, failure
        changes nothing. */
    method SaveSettled(success: bool)
      modifies this
      ensures isEditing == (old(isEditing) && !success)
      ensures note == old(note) && form == old(form)
    {
      if success {
        isEditing := false;
      }
    }

    /** Cancel leaves edit mode and keeps what was typed. */
    method Cancel()
      modifies this
      ensures !isEditing
      ensures note == old(note) && form == old(form)
    {
      isEditing := false;
    }

    /** `handleDelete`: the id is sent only after the user confirms. */
    method Delete(confirmed: bool) returns (request: Option<string>)
      ensures request.Some? <==> confirmed
      ensures request.Some? ==> request.value == note.id
    {
      if confirmed {
        request := Some(note.id);
      } else {
        request := None;
      }
    }
  }
}
