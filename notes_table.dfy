/** The `notes` table and the three handlers that write to it: create
    (`POST /notes`), update (`POST /notes/update`) and delete
    (`POST /notes/delete`). Each handler decodes the body, validates it,
    makes one statement against the table and maps the outcome to a
    response: 400 for a schema violation or an empty update, 404 when no
    row has the id, 500 for anything else that throws. The generated id, the
    clock and the store's own failures are parameters. */
module NotesTable {
  import opened NoteTypes
  import opened Rows
  import opened Validation
  import CreateSchema
  import UpdateSchema

  const FailedToCreate := "Failed to create note."
  const NoUpdateData := "No update data provided."
  const NoteNotFound := "Note not found."

  /** How the insert statement ends: it returns the inserted row, it returns
      no row, or it throws. */
  datatype InsertResult = Inserted | NoRowReturned | InsertThrows(message: string)

  /** Every row was updated no earlier than it was created. */
  predicate TimesOrdered(rows: seq<Note>) {
    forall i :: 0 <= i < |rows| ==> rows[i].createdAt <= rows[i].updatedAt
  }

  /** No row was created after `now`. */
  predicate CreatedBy(rows: seq<Note>, now: int) {
    forall i :: 0 <= i < |rows| ==> rows[i].createdAt <= now
  }

  /** The row `handle` builds from a create input: a given id, the input's
      title and content, its tags or `[]`, and the two clock readings. */
  function NewNote(input: CreateSchema.CreateInput, id: string, createdAt: int, updatedAt: int): Note {
    Note(id, input.title, input.content, input.tags.GetOr([]), createdAt, updatedAt)
  }

  /** `set({...updateData, updatedAt: now})` applied to one row: each present
      field replaces the stored one (tags wholesale), `updatedAt` becomes
      `now`, and `id` and `createdAt` stay. */
  function Patch(n: Note, d: UpdateSchema.UpdateData, now: int): (p: Note)
    ensures p.id == n.id && p.createdAt == n.createdAt && p.updatedAt == now
    ensures p.title == (if d.title.Some? then d.title.value else n.title)
    ensures p.content == (if d.content.Some? then d.content.value else n.content)
    ensures p.tags == (if d.tags.Some? then d.tags.value else n.tags)
  {
    n.(title := d.title.GetOr(n.title), content := d.content.GetOr(n.content),
       tags := d.tags.GetOr(n.tags), updatedAt := now)
  }

  /** `UPDATE notes SET ... WHERE id = $id`: every row with the id is
      patched, every other row is left as it is, and the order is kept. */
  function UpdateWhere(rows: seq<Note>, id: string, d: UpdateSchema.UpdateData, now: int): (r: seq<Note>)
    ensures |r| == |rows|
    ensures forall i :: 0 <= i < |rows| ==> r[i] == (if rows[i].id == id then Patch(rows[i], d, now) else rows[i])
  {
    if |rows| == 0 then []
    else [if rows[0].id == id then Patch(rows[0], d, now) else rows[0]] + UpdateWhere(rows[1..], id, d, now)
  }

  /** With unique ids, the update statement replaces the one row with the
      id by its patched form: the same change the client makes to its cache
      with the row the server returns. */
  lemma UpdateWhereIsReplace(rows: seq<Note>, k: int, d: UpdateSchema.UpdateData, now: int)
    requires UniqueIds(rows) && 0 <= k < |rows|
    ensures UpdateWhere(rows, rows[k].id, d, now) == ReplaceById(rows, Patch(rows[k], d, now))
  {
    var m := Patch(rows[k], d, now);
    var u := UpdateWhere(rows, rows[k].id, d, now);
    var r := ReplaceById(rows, m);
    forall i | 0 <= i < |rows| ensures u[i] == r[i] {
      if rows[i].id == m.id {
        assert i == k;
      }
    }
  }

  /** An update keeps ids unique, and keeps every row's `createdAt` no later
      than its `updatedAt` when the clock reads no earlier than any creation. */
  lemma UpdateWhereKeeps(rows: seq<Note>, id: string, d: UpdateSchema.UpdateData, now: int)
    ensures UniqueIds(rows) ==> UniqueIds(UpdateWhere(rows, id, d, now))
    ensures TimesOrdered(rows) && CreatedBy(rows, now) ==> TimesOrdered(UpdateWhere(rows, id, d, now))
  {
    var u := UpdateWhere(rows, id, d, now);
    assert forall i :: 0 <= i < |rows| ==> u[i].id == rows[i].id && u[i].createdAt == rows[i].createdAt;
  }

  class Table {
    /** The rows of the `notes` table, in insertion order. */
    var rows: seq<Note>

    ghost predicate Valid()
      reads this
    {
      UniqueIds(rows)
    }

    constructor ()
      ensures Valid() && rows == []
    {
      rows := [];
    }

    /** `POST /notes`. `freshId` stands for `nanoid()`, which does not
        collide with a stored id; `createdClock` and `updatedClock` are the
        two `new Date()` readings, in that order. Nothing makes the second
        reading the later one, so the time order is promised only when the
        clock did not step back between them. */
    method Create(body: Body, freshId: string, createdClock: int, updatedClock: int, insert: InsertResult)
      returns (resp: Response<Note>)
      requires Valid()
      requires freshId !in Ids(rows)
      modifies this
      ensures Valid()
      ensures resp.Fail? ==> rows == old(rows) && resp.status in {BadRequest, ServerError}
      ensures body.Unparsable? ==> resp == Fail(ServerError, Message(body.message))
      ensures body.Parsed? && !CreateSchema.Acceptable(body.value) ==>
        resp == Fail(BadRequest, Issues(CreateSchema.ValidateCreate(body.value).issues))
      ensures body.Parsed? && CreateSchema.Acceptable(body.value) ==>
        match insert
        case InsertThrows(m) => resp == Fail(ServerError, Message(m))
        case NoRowReturned => resp == Fail(ServerError, Message(FailedToCreate))
        case Inserted =>
          && resp == Ok(NewNote(CreateSchema.ValidateCreate(body.value).value, freshId, createdClock, updatedClock))
          && rows == old(rows) + [resp.value]
      ensures resp.Ok? ==> resp.value.id == freshId
      ensures resp.Ok? ==> (resp.value.createdAt <= resp.value.updatedAt <==> createdClock <= updatedClock)
      ensures TimesOrdered(old(rows)) && createdClock <= updatedClock ==> TimesOrdered(rows)
    {
      if body.Unparsable? {
        resp := Fail(ServerError, Message(body.message));
        return;
      }
      var checked := CreateSchema.ValidateCreate(body.value);
      if checked.Invalid? {
        resp := Fail(BadRequest, Issues(checked.issues));
        return;
      }
      var note := NewNote(checked.value, freshId, createdClock, updatedClock);
      match insert {
        case InsertThrows(m) =>
          resp := Fail(ServerError, Message(m));
        case NoRowReturned =>
          resp := Fail(ServerError, Message(FailedToCreate));
        case Inserted =>
          rows := rows + [note];
          resp := Ok(note);
      }
    }

    /** `POST /notes/update` at clock reading `now`; `fault` is the error the
        update statement throws, if it does. */
    method Update(body: Body, now: int, fault: Option<string>) returns (resp: Response<Note>)
      requires Valid()
      modifies this
      ensures Valid()
      ensures resp.Fail? ==> rows == old(rows)
      ensures body.Unparsable? ==> resp == Fail(ServerError, Message(body.message))
      ensures body.Parsed? && !UpdateSchema.Acceptable(body.value) ==>
        resp == Fail(BadRequest, Issues(UpdateSchema.ValidateUpdate(body.value).issues))
      ensures body.Parsed? && UpdateSchema.Acceptable(body.value) ==>
        var input := UpdateSchema.ValidateUpdate(body.value).value;
        if !UpdateSchema.HasData(input.data) then
          resp == Fail(BadRequest, Message(NoUpdateData))
        else if fault.Some? then
          resp == Fail(ServerError, Message(fault.value))
        else if input.id !in Ids(old(rows)) then
          resp == Fail(NotFound, Message(NoteNotFound))
        else
          && resp == Ok(Patch(FindById(old(rows), input.id).value, input.data, now))
          && rows == UpdateWhere(old(rows), input.id, input.data, now)
      ensures TimesOrdered(old(rows)) && CreatedBy(old(rows), now) ==> TimesOrdered(rows)
    {
      if body.Unparsable? {
        resp := Fail(ServerError, Message(body.message));
        return;
      }
      var checked := UpdateSchema.ValidateUpdate(body.value);
      if checked.Invalid? {
        resp := Fail(BadRequest, Issues(checked.issues));
        return;
      }
      var input := checked.value;
      if !UpdateSchema.HasData(input.data) {
        resp := Fail(BadRequest, Message(NoUpdateData));
        return;
      }
      if fault.Some? {
        resp := Fail(ServerError, Message(fault.value));
        return;
      }
      var found := FindById(rows, input.id);
      if found.None? {
        resp := Fail(NotFound, Message(NoteNotFound));
        return;
      }
      UpdateWhereKeeps(rows, input.id, input.data, now);
      rows := UpdateWhere(rows, input.id, input.data, now);
      resp := Ok(Patch(found.value, input.data, now));
    }

    /** `POST /notes/delete`; `fault` is the error the delete statement
        throws, if it does. */
    method Delete(body: Body, fault: Option<string>) returns (resp: Response<DeleteAck>)
      requires Valid()
      modifies this
      ensures Valid()
      ensures resp.Fail? ==> rows == old(rows)
      ensures body.Unparsable? ==> resp == Fail(ServerError, Message(body.message))
      ensures body.Parsed? && !ValidateStringKey(body.value, "id").Valid? ==>
        resp == Fail(BadRequest, Issues(ValidateStringKey(body.value, "id").issues))
      ensures body.Parsed? && ValidateStringKey(body.value, "id").Valid? ==>
        var id := ValidateStringKey(body.value, "id").value;
        if fault.Some? then
          resp == Fail(ServerError, Message(fault.value))
        else if id !in Ids(old(rows)) then
          resp == Fail(NotFound, Message(NoteNotFound))
        else
          && resp == Ok(DeleteAck(true, id))
          && rows == RemoveId(old(rows), id)
          && exists k :: 0 <= k < |old(rows)| && old(rows)[k].id == id && rows == old(rows)[..k] + old(rows)[k + 1..]
    {
      if body.Unparsable? {
        resp := Fail(ServerError, Message(body.message));
        return;
      }
      var checked := ValidateStringKey(body.value, "id");
      if checked.Invalid? {
        resp := Fail(BadRequest, Issues(checked.issues));
        return;
      }
      var id := checked.value;
      if fault.Some? {
        resp := Fail(ServerError, Message(fault.value));
        return;
      }
      var remaining := RemoveId(rows, id);
      RemoveIdCount(rows, id);
      if |remaining| == |rows| {
        resp := Fail(NotFound, Message(NoteNotFound));
        return;
      }
      var k :| 0 <= k < |rows| && rows[k].id == id;
      RemoveUniqueId(rows, k);
      RemoveIdKeepsUnique(rows, id);
      rows := remaining;
      resp := Ok(DeleteAck(true, id));
    }
  }
}
