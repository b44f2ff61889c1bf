/** The sheet that creates a note: closed at first with an empty form; the
    form is submitted through the create schema; a successful create clears
    the form and closes the sheet, a failed one leaves both as they are;
    Cancel closes the sheet and keeps what was typed. */
module CreateNoteSheetModel {
  import opened NoteTypes
  import opened CreateSchema
  import TagText

  const EmptyForm := FormValues("", "", [])

  /** `form.handleSubmit(onSubmit)`: the values go through the create
      schema; when they pass they are sent, and when they fail (an empty
      title) nothing is. */
  function CreateRequest(form: FormValues): (r: Option<CreateInput>)
    ensures r.Some? <==> form.title != ""
    ensures r.Some? ==> r.value == CreateInput(form.title, form.content, Some(form.tags))
  {
    var fields := FormFields(form);
    assert "title" in fields && fields["title"] == JString(form.title);
    match ValidateCreate(Object(fields))
    case Invalid(_) => None
    case Valid(input) => Some(input)
  }

  /** What the sheet sends passes the server's schema unchanged. */
  lemma CreateRequestAccepted(form: FormValues)
    requires CreateRequest(form).Some?
    ensures ValidateCreate(CreateBody(CreateRequest(form).value)) == Valid(CreateRequest(form).value)
  {
    CreateBodyRoundTrip(CreateRequest(form).value);
  }

  class CreateNoteSheet {
    var isOpen: bool
    var form: FormValues

    constructor ()
      ensures !isOpen && form == EmptyForm
    {
      isOpen := false;
      form := EmptyForm;
    }

    /** `onOpenChange`: the trigger opens the sheet, its close control and
        the overlay close it. */
    method SetOpen(open: bool)
      modifies this
      ensures isOpen == open && form == old(form)
    {
      isOpen := open;
    }

    method EditTitle(title: string)
      modifies this
      ensures form == old(form).(title := title) && isOpen == old(isOpen)
    {
      form := form.(title := title);
    }

    method EditContent(content: string)
      modifies this
      ensures form == old(form).(content := content) && isOpen == old(isOpen)
    {
      form := form.(content := content);
    }

    /** The tags field's change handler with the text the field now holds. */
    method EditTags(text: string)
      modifies this
      ensures form == old(form).(tags := TagText.ParseTags(text)) && isOpen == old(isOpen)
      ensures TagText.WellFormedTags(form.tags)
    {
      var tags := TagText.ParseTags(text);
      form := FormValues(form.title, form.content, tags);
    }

    /** The Save Note button. */
    method Submit() returns (request: Option<CreateInput>)
      ensures request == CreateRequest(form)
    {
      request := CreateRequest(form);
    }

    /** The create mutation settling. */
    method SubmitSettled(success: bool)
      modifies this
      ensures success ==> !isOpen && form == EmptyForm
      ensures !success ==> isOpen == old(isOpen) && form == old(form)
    {
      if success {
        form := EmptyForm;
        isOpen := false;
      }
    }

    /** Cancel closes the sheet without clearing the form. */
    method Cancel()
      modifies this
      ensures !isOpen && form == old(form)
    {
      isOpen := false;
    }
  }
}
