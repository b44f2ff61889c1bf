/** The client's cache of the `["notes"]` query and what each mutation hook
    does to it on success: create and update and delete all mark the entry
    stale (a refetch follows); update and delete also patch the cached list
    at once, update by replacing the returned note by id, delete by
    filtering the deleted id out. Search is a mutation of its own and never
    touches the entry. */
module NotesQueries {
  import opened NoteTypes
  import opened Rows
  import UpdateSchema
  import NotesTable
  import ListHandler

  /** The `setQueryData` callback of the update hook: no cached list stays
      no list; otherwise each note with the returned note's id is replaced
      by it and every other note stays where it is. */
  function PatchUpdate(cache: Option<seq<Note>>, updated: Note): (r: Option<seq<Note>>)
    ensures r.None? <==> cache.None?
    ensures r.Some? ==> |r.value| == |cache.value|
    ensures r.Some? ==> forall i :: 0 <= i < |cache.value| ==>
      r.value[i] == (if cache.value[i].id == updated.id then updated else cache.value[i])
  {
    if cache.None? then None else Some(ReplaceById(cache.value, updated))
  }

  /** The `setQueryData` callback of the delete hook: no cached list stays no
      list; otherwise the notes whose id differs from the deleted one, in
      their order. */
  function PatchDelete(cache: Option<seq<Note>>, id: string): (r: Option<seq<Note>>)
    ensures r.None? <==> cache.None?
    ensures r.Some? ==> r.value == Filter(cache.value, (n: Note) => n.id != id)
  {
    if cache.None? then None
    else
      RemoveIdIsFilter(cache.value, id);
      Some(RemoveId(cache.value, id))
  }

  /** Deleting from the cache twice is deleting once. */
  lemma PatchDeleteIdempotent(cache: Option<seq<Note>>, id: string)
    ensures PatchDelete(PatchDelete(cache, id), id) == PatchDelete(cache, id)
  {
    if cache.Some? {
      RemoveIdIdempotent(cache.value, id);
    }
  }

  /** Replacing by the same note twice is replacing once. */
  lemma PatchUpdateIdempotent(cache: Option<seq<Note>>, updated: Note)
    ensures PatchUpdate(PatchUpdate(cache, updated), updated) == PatchUpdate(cache, updated)
  {
    if cache.Some? {
      var once := ReplaceById(cache.value, updated);
      assert ReplaceById(once, updated) == once;
    }
  }

  /** When the cache holds what `GET /notes` answered for the table, patching
      it with the note a successful update returned gives what `GET /notes`
      answers after the update: the refetch that follows changes nothing. */
  lemma UpdatePatchAgreesWithRefetch(rows: seq<Note>, k: int, d: UpdateSchema.UpdateData, now: int)
    requires UniqueIds(rows) && 0 <= k < |rows|
    ensures PatchUpdate(Some(ListHandler.List(rows, None).value), NotesTable.Patch(rows[k], d, now))
         == Some(ListHandler.List(NotesTable.UpdateWhere(rows, rows[k].id, d, now), None).value)
  {
    var m := NotesTable.Patch(rows[k], d, now);
    NotesTable.UpdateWhereIsReplace(rows, k, d, now);
    assert SameCreation(rows, m) by {
      forall i | 0 <= i < |rows| && rows[i].id == m.id ensures rows[i].createdAt == m.createdAt {
        assert i == k;
      }
    }
    SortReplaceCommute(rows, m);
  }

  /** Likewise for a successful delete. */
  lemma DeletePatchAgreesWithRefetch(rows: seq<Note>, id: string)
    ensures PatchDelete(Some(ListHandler.List(rows, None).value), id)
         == Some(ListHandler.List(RemoveId(rows, id), None).value)
  {
    SortRemoveCommute(rows, id);
  }

  /** The `["notes"]` entry of the query client. */
  class QueryCache {
    /** The cached notes (`data.notes`), `None` before the first fetch. */
    var notes: Option<seq<Note>>
    /** Marked by `invalidateQueries`: the entry is refetched. */
    var stale: bool

    constructor ()
      ensures notes == None && !stale
    {
      notes := None;
      stale := false;
    }

    /** `useGetNotes` resolving with the listed notes. */
    method Fetched(listed: seq<Note>)
      modifies this
      ensures notes == Some(listed) && !stale
    {
      notes := Some(listed);
      stale := false;
    }

    /** `useCreateNote`'s `onSuccess`: invalidate, and nothing else; the
        created note it is handed is not used. */
    method CreateSucceeded(created: Note)
      modifies this
      ensures stale && notes == old(notes)
    {
      stale := true;
    }

    /** `useUpdateNote`'s `onSuccess` with the returned note. */
    method UpdateSucceeded(updated: Note)
      modifies this
      ensures stale && notes == PatchUpdate(old(notes), updated)
    {
      stale := true;
      notes := PatchUpdate(notes, updated);
    }

    /** `useDeleteNote`'s `onSuccess` with the returned `{success, id}`. */
    method DeleteSucceeded(ack: DeleteAck)
      modifies this
      ensures stale && notes == PatchDelete(old(notes), ack.id)
    {
      stale := true;
      notes := PatchDelete(notes, ack.id);
    }

    /** `useSearchNotes` resolving: its results belong to the search
        mutation and are not used here, and the entry is left alone. */
    method SearchSucceeded(results: seq<Note>)
      ensures notes == old(notes) && stale == old(stale)
    {
    }
  }
}
