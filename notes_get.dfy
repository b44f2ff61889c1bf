/** `GET /notes`: every row of the table, newest first. The only failure is
    the select itself throwing, which becomes a 500 with its message. */
module ListHandler {
  import opened NoteTypes
  import opened Rows

  function List(rows: seq<Note>, fault: Option<string>): (r: Response<seq<Note>>)
    ensures r.Fail? <==> fault.Some?
    ensures fault.Some? ==> r == Fail(ServerError, Message(fault.value))
    ensures r.Ok? ==> NewestFirst(r.value) && multiset(r.value) == multiset(rows)
  {
    if fault.Some? then Fail(ServerError, Message(fault.value)) else Ok(SortNewestFirst(rows))
  }

  /** The listed notes are exactly the stored ones, each once when ids are
      unique, and the newest comes first. */
  lemma ListShowsEveryNote(rows: seq<Note>)
    requires UniqueIds(rows)
    ensures forall n :: n in List(rows, None).value <==> n in rows
    ensures UniqueIds(List(rows, None).value)
    ensures forall i :: 0 <= i < |rows| ==> List(rows, None).value[0].createdAt >= rows[i].createdAt
  {
    var l := List(rows, None).value;
    SameMembers(rows, l);
    UniqueIdsPermutation(rows, l);
    forall i | 0 <= i < |rows| ensures l[0].createdAt >= rows[i].createdAt {
      NewestFirstHead(l, rows[i]);
    }
  }

  lemma SameMembers(a: seq<Note>, b: seq<Note>)
    requires multiset(a) == multiset(b)
    ensures forall n :: n in a <==> n in b
  {
    forall n ensures n in a <==> n in b {
      assert n in a <==> n in multiset(a);
      assert n in b <==> n in multiset(b);
    }
  }

  /** The head of a newest-first list is at least as new as any of its rows. */
  lemma NewestFirstHead(l: seq<Note>, x: Note)
    requires NewestFirst(l) && x in l
    ensures l[0].createdAt >= x.createdAt
  {
    var k :| 0 <= k < |l| && l[k] == x;
  }
}
