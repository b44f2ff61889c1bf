/** Operations on a list of `notes` rows shared by the handlers and the
    client cache: the id discipline of the table, the `createdAt desc`
    ordering the two read handlers ask for, and removing or replacing the
    row with a given id. */
module Rows {
  import opened NoteTypes

  /** No two rows share an id (the table's key). */
  predicate UniqueIds(rows: seq<Note>) {
    forall i, j :: 0 <= i < j < |rows| ==> rows[i].id != rows[j].id
  }

  function Ids(rows: seq<Note>): set<string> {
    set n | n in rows :: n.id
  }

  // ---- ORDER BY "createdAt" DESC ----

  predicate NewestFirst(rows: seq<Note>) {
    forall i, j :: 0 <= i < j < |rows| ==> rows[i].createdAt >= rows[j].createdAt
  }

  /** Places `n` in front of the first row that is not newer than it. */
  function InsertNewestFirst(n: Note, rows: seq<Note>): (r: seq<Note>)
    requires NewestFirst(rows)
    ensures NewestFirst(r)
    ensures multiset(r) == multiset(rows) + multiset{n}
    ensures r[0] == n || r[0] == rows[0]
  {
    if |rows| == 0 || n.createdAt >= rows[0].createdAt then
      [n] + rows
    else
      var tail := InsertNewestFirst(n, rows[1..]);
      assert rows == [rows[0]] + rows[1..];
      ConsNewestFirst(rows[0], tail);
      [rows[0]] + tail
  }

  /** A row not older than the head of a sorted list can go in front of it. */
  lemma ConsNewestFirst(x: Note, rows: seq<Note>)
    requires NewestFirst(rows)
    requires |rows| > 0 ==> x.createdAt >= rows[0].createdAt
    ensures NewestFirst([x] + rows)
  {
    var r := [x] + rows;
    forall i, j | 0 <= i < j < |r| ensures r[i].createdAt >= r[j].createdAt {
      assert r[j] == rows[j - 1];
      if i > 0 {
        assert r[i] == rows[i - 1];
      } else {
        assert rows[0].createdAt >= rows[j - 1].createdAt;
      }
    }
  }

  /** The first way `InsertNewestFirst` unfolds: the row goes in front. */
  lemma InsertFront(n: Note, rows: seq<Note>)
    requires NewestFirst(rows)
    requires |rows| == 0 || n.createdAt >= rows[0].createdAt
    ensures InsertNewestFirst(n, rows) == [n] + rows
  {
  }

  /** The second way `InsertNewestFirst` unfolds: the row goes behind the head. */
  lemma InsertBehind(n: Note, rows: seq<Note>)
    requires NewestFirst(rows)
    requires |rows| > 0 && n.createdAt < rows[0].createdAt
    ensures NewestFirst(rows[1..])
    ensures rows == [rows[0]] + rows[1..]
    ensures InsertNewestFirst(n, rows) == [rows[0]] + InsertNewestFirst(n, rows[1..])
  {
  }

  /** The rows of a select ordered by `createdAt` descending. The database
      leaves the order of rows with equal `createdAt` open; this model keeps
      them in table order. */
  function SortNewestFirst(rows: seq<Note>): (r: seq<Note>)
    ensures NewestFirst(r)
    ensures multiset(r) == multiset(rows)
  {
    if |rows| == 0 then []
    else
      assert rows == [rows[0]] + rows[1..];
      InsertNewestFirst(rows[0], SortNewestFirst(rows[1..]))
  }

  /** With unique ids every row occurs once. */
  lemma CountOne(rows: seq<Note>, k: int)
    requires UniqueIds(rows) && 0 <= k < |rows|
    ensures multiset(rows)[rows[k]] == 1
  {
    var x := rows[k];
    assert rows == rows[..k] + [x] + rows[k + 1..];
    assert x !in rows[..k] by {
      forall i | 0 <= i < k ensures rows[..k][i] != x {
        assert rows[..k][i].id == rows[i].id != x.id;
      }
    }
    var after := rows[k + 1..];
    assert x !in after by {
      forall i | 0 <= i < |after| ensures after[i] != x {
        assert after[i].id == rows[k + 1 + i].id != x.id;
      }
    }
  }

  /** A row at two positions occurs at least twice. */
  lemma DuplicateCount(rows: seq<Note>, i: int, j: int)
    requires 0 <= i < j < |rows|
    ensures rows[i] == rows[j] ==> multiset(rows)[rows[i]] >= 2
  {
    assert rows == rows[..i] + [rows[i]] + rows[i + 1..j] + [rows[j]] + rows[j + 1..];
  }

  /** Any rearrangement of rows with unique ids has unique ids. */
  lemma UniqueIdsPermutation(a: seq<Note>, b: seq<Note>)
    requires UniqueIds(a) && multiset(a) == multiset(b)
    ensures UniqueIds(b)
  {
    forall i, j | 0 <= i < j < |b| ensures b[i].id != b[j].id {
      assert b[i] in multiset(a) && b[j] in multiset(a);
      var p :| 0 <= p < |a| && a[p] == b[i];
      var q :| 0 <= q < |a| && a[q] == b[j];
      CountOne(a, p);
      DuplicateCount(b, i, j);
      assert p != q;
    }
  }

  // ---- WHERE id = ... ----

  /** The rows whose id is not `id`, in their order: the effect of
      `DELETE ... WHERE id = $id` and of `filter(note => note.id !== id)`. */
  function RemoveId(rows: seq<Note>, id: string): (r: seq<Note>)
    ensures forall n :: n in r <==> n in rows && n.id != id
    ensures |r| <= |rows|
  {
    if |rows| == 0 then []
    else if rows[0].id == id then RemoveId(rows[1..], id)
    else [rows[0]] + RemoveId(rows[1..], id)
  }

  /** The first row with the given id, if any. */
  function FindById(rows: seq<Note>, id: string): (r: Option<Note>)
    ensures r.None? <==> id !in Ids(rows)
    ensures r.Some? ==> r.value in rows && r.value.id == id
  {
    if |rows| == 0 then None
    else if rows[0].id == id then Some(rows[0])
    else FindById(rows[1..], id)
  }

  /** The row by row replacement of `map(note => note.id === m.id ? m : note)`. */
  function ReplaceById(rows: seq<Note>, m: Note): (r: seq<Note>)
    ensures |r| == |rows|
    ensures forall i :: 0 <= i < |rows| ==> r[i] == (if rows[i].id == m.id then m else rows[i])
  {
    if |rows| == 0 then []
    else [if rows[0].id == m.id then m else rows[0]] + ReplaceById(rows[1..], m)
  }

  /** `DELETE` removes no row exactly when no row has the id. */
  lemma {:induction false} RemoveIdCount(rows: seq<Note>, id: string)
    ensures |RemoveId(rows, id)| == |rows| <==> id !in Ids(rows)
    decreases |rows|
  {
    if |rows| > 0 {
      RemoveIdCount(rows[1..], id);
      assert Ids(rows) == {rows[0].id} + Ids(rows[1..]) by {
        assert rows == [rows[0]] + rows[1..];
      }
    }
  }

  /** Removing an id keeps the rest of the list in order: it distributes over
      concatenation. */
  lemma {:induction false} RemoveIdConcat(a: seq<Note>, b: seq<Note>, id: string)
    ensures RemoveId(a + b, id) == RemoveId(a, id) + RemoveId(b, id)
    decreases |a|
  {
    if |a| > 0 {
      assert (a + b)[0] == a[0] && (a + b)[1..] == a[1..] + b;
      RemoveIdConcat(a[1..], b, id);
      if a[0].id != id {
        assert [a[0]] + (RemoveId(a[1..], id) + RemoveId(b, id))
            == ([a[0]] + RemoveId(a[1..], id)) + RemoveId(b, id);
      }
    } else {
      assert a + b == b;
    }
  }

  /** Removing an id twice is removing it once. */
  lemma {:induction false} RemoveIdIdempotent(rows: seq<Note>, id: string)
    ensures RemoveId(RemoveId(rows, id), id) == RemoveId(rows, id)
    decreases |rows|
  {
    if |rows| > 0 {
      RemoveIdIdempotent(rows[1..], id);
      if rows[0].id != id {
        var r := [rows[0]] + RemoveId(rows[1..], id);
        assert r[0] == rows[0] && r[1..] == RemoveId(rows[1..], id);
      }
    }
  }

  /** With unique ids, deleting the id of row `k` removes that row and
      nothing else. */
  lemma RemoveUniqueId(rows: seq<Note>, k: int)
    requires UniqueIds(rows) && 0 <= k < |rows|
    ensures RemoveId(rows, rows[k].id) == rows[..k] + rows[k + 1..]
  {
    OtherIds(rows, k);
    SplitAt(rows, k);
    RemoveOnlyOne(rows[..k], rows[k], rows[k + 1..]);
  }

  lemma SplitAt(rows: seq<Note>, k: int)
    requires 0 <= k < |rows|
    ensures rows == rows[..k] + ([rows[k]] + rows[k + 1..])
  {
  }

  /** Removing the id of the one row that has it. */
  lemma RemoveOnlyOne(before: seq<Note>, x: Note, after: seq<Note>)
    requires IdAbsent(before, x.id) && IdAbsent(after, x.id)
    ensures RemoveId(before + ([x] + after), x.id) == before + after
  {
    var rest := [x] + after;
    RemoveIdConcat(before, rest, x.id);
    RemoveIdAbsent(before, x.id);
    assert rest[1..] == after;
    RemoveIdAbsent(after, x.id);
  }

  /** With unique ids no row before or after row `k` has its id. */
  lemma OtherIds(rows: seq<Note>, k: int)
    requires UniqueIds(rows) && 0 <= k < |rows|
    ensures IdAbsent(rows[..k], rows[k].id)
    ensures IdAbsent(rows[k + 1..], rows[k].id)
  {
    var before, after := rows[..k], rows[k + 1..];
    forall i | 0 <= i < |before| ensures before[i].id != rows[k].id {
      assert before[i] == rows[i];
    }
    forall i | 0 <= i < |after| ensures after[i].id != rows[k].id {
      assert after[i] == rows[k + 1 + i];
    }
  }

  /** No row has the id. */
  predicate IdAbsent(rows: seq<Note>, id: string) {
    forall i :: 0 <= i < |rows| ==> rows[i].id != id
  }

  /** Nothing to remove leaves the list as it is. */
  lemma {:induction false} RemoveIdAbsent(rows: seq<Note>, id: string)
    requires IdAbsent(rows, id)
    ensures RemoveId(rows, id) == rows
    decreases |rows|
  {
    if |rows| > 0 {
      RemoveIdAbsent(rows[1..], id);
      assert rows == [rows[0]] + rows[1..];
    }
  }

  /** Removing rows keeps ids unique. */
  lemma {:induction false} RemoveIdKeepsUnique(rows: seq<Note>, id: string)
    requires UniqueIds(rows)
    ensures UniqueIds(RemoveId(rows, id))
    decreases |rows|
  {
    if |rows| > 0 {
      var rest := rows[1..];
      assert UniqueIds(rest);
      RemoveIdKeepsUnique(rest, id);
      if rows[0].id != id {
        var tail := RemoveId(rest, id);
        var r := [rows[0]] + tail;
        forall j | 0 < j < |r| ensures r[0].id != r[j].id {
          assert r[j] == tail[j - 1];
          assert tail[j - 1] in rest;
          var i :| 0 <= i < |rest| && rest[i] == tail[j - 1];
          assert rows[i + 1] == rest[i];
        }
      }
    }
  }

  /** Removing rows keeps a sorted list sorted. */
  lemma {:induction false} RemoveIdKeepsOrder(rows: seq<Note>, id: string)
    requires NewestFirst(rows)
    ensures NewestFirst(RemoveId(rows, id))
    decreases |rows|
  {
    if |rows| > 0 {
      var rest := rows[1..];
      RemoveIdKeepsOrder(rest, id);
      if rows[0].id != id {
        var tail := RemoveId(rest, id);
        var r := [rows[0]] + tail;
        forall j | 0 < j < |r| ensures r[0].createdAt >= r[j].createdAt {
          assert r[j] == tail[j - 1];
          assert tail[j - 1] in rest;
        }
      }
    }
  }

  // ---- the ordering commutes with removal and replacement ----

  /** Deleting a row that would sort into the list takes it out again. */
  lemma {:induction false} RemoveAfterInsert(n: Note, rows: seq<Note>, id: string)
    requires NewestFirst(rows)
    ensures NewestFirst(RemoveId(rows, id))
    ensures RemoveId(InsertNewestFirst(n, rows), id)
         == if n.id == id then RemoveId(rows, id) else InsertNewestFirst(n, RemoveId(rows, id))
    decreases |rows|
  {
    RemoveIdKeepsOrder(rows, id);
    var kept := RemoveId(rows, id);
    if |rows| == 0 || n.createdAt >= rows[0].createdAt {
      InsertFront(n, rows);
      assert ([n] + rows)[1..] == rows;
      if n.id != id {
        if |kept| > 0 {
          assert kept[0] in rows;
        }
        InsertFront(n, kept);
      }
    } else {
      var tail := rows[1..];
      InsertBehind(n, rows);
      RemoveAfterInsert(n, tail, id);
      var inserted := InsertNewestFirst(n, tail);
      assert ([rows[0]] + inserted)[1..] == inserted;
      if rows[0].id != id && n.id != id {
        assert kept == [rows[0]] + RemoveId(tail, id);
        RemoveIdKeepsOrder(tail, id);
        InsertBehind(n, kept);
        assert kept[1..] == RemoveId(tail, id);
      }
    }
  }

  /** Sorting and then removing an id is removing it and then sorting. */
  lemma {:induction false} SortRemoveCommute(rows: seq<Note>, id: string)
    ensures RemoveId(SortNewestFirst(rows), id) == SortNewestFirst(RemoveId(rows, id))
    decreases |rows|
  {
    if |rows| > 0 {
      SortRemoveCommute(rows[1..], id);
      RemoveAfterInsert(rows[0], SortNewestFirst(rows[1..]), id);
    }
  }

  /** Every row with the id of `m` has the creation time of `m`. */
  predicate SameCreation(rows: seq<Note>, m: Note) {
    forall i :: 0 <= i < |rows| && rows[i].id == m.id ==> rows[i].createdAt == m.createdAt
  }

  /** `ReplaceById` works row by row from the front. */
  lemma ReplaceCons(x: Note, rows: seq<Note>, m: Note)
    ensures ReplaceById([x] + rows, m) == [if x.id == m.id then m else x] + ReplaceById(rows, m)
  {
    assert ([x] + rows)[1..] == rows;
  }

  /** Replacing rows by ones with the same creation time keeps every
      creation time, and so the order. */
  lemma ReplaceKeepsOrder(rows: seq<Note>, m: Note)
    requires NewestFirst(rows) && SameCreation(rows, m)
    ensures NewestFirst(ReplaceById(rows, m))
    ensures |rows| > 0 ==> ReplaceById(rows, m)[0].createdAt == rows[0].createdAt
  {
    var r := ReplaceById(rows, m);
    assert forall i :: 0 <= i < |rows| ==> r[i].createdAt == rows[i].createdAt;
  }

  lemma {:induction false} ReplaceAfterInsert(n: Note, rows: seq<Note>, m: Note)
    requires NewestFirst(rows)
    requires SameCreation(rows, m)
    requires n.id == m.id ==> n.createdAt == m.createdAt
    ensures NewestFirst(ReplaceById(rows, m))
    ensures ReplaceById(InsertNewestFirst(n, rows), m)
         == InsertNewestFirst(if n.id == m.id then m else n, ReplaceById(rows, m))
    decreases |rows|
  {
    ReplaceKeepsOrder(rows, m);
    var replaced := ReplaceById(rows, m);
    var n' := if n.id == m.id then m else n;
    if |rows| == 0 || n.createdAt >= rows[0].createdAt {
      InsertFront(n, rows);
      ReplaceCons(n, rows, m);
      InsertFront(n', replaced);
    } else {
      var tail := rows[1..];
      InsertBehind(n, rows);
      assert SameCreation(tail, m) by {
        forall i | 0 <= i < |tail| && tail[i].id == m.id ensures tail[i].createdAt == m.createdAt {
          assert tail[i] == rows[i + 1];
        }
      }
      ReplaceAfterInsert(n, tail, m);
      ReplaceCons(rows[0], InsertNewestFirst(n, tail), m);
      ReplaceCons(rows[0], tail, m);
      InsertBehind(n', replaced);
    }
  }

  /** Sorting and then replacing a row by one with the same creation time is
      replacing and then sorting. */
  lemma {:induction false} SortReplaceCommute(rows: seq<Note>, m: Note)
    requires SameCreation(rows, m)
    ensures ReplaceById(SortNewestFirst(rows), m) == SortNewestFirst(ReplaceById(rows, m))
    decreases |rows|
  {
    if |rows| > 0 {
      assert SameCreation(rows[1..], m);
      SortReplaceCommute(rows[1..], m);
      var sorted := SortNewestFirst(rows[1..]);
      assert forall i :: 0 <= i < |sorted| ==> sorted[i] in multiset(rows[1..]);
      assert SameCreation(sorted, m);
      ReplaceAfterInsert(rows[0], sorted, m);
    }
  }

  // ---- filtering ----

  /** The rows `keep` accepts, in their order: `rows.filter(keep)`. */
  function Filter(rows: seq<Note>, keep: Note -> bool): (r: seq<Note>)
    ensures forall n :: n in r <==> n in rows && keep(n)
  {
    if |rows| == 0 then []
    else if keep(rows[0]) then [rows[0]] + Filter(rows[1..], keep) else Filter(rows[1..], keep)
  }

  /** Removing an id is filtering on a different id. */
  lemma {:induction false} RemoveIdIsFilter(rows: seq<Note>, id: string)
    ensures RemoveId(rows, id) == Filter(rows, (n: Note) => n.id != id)
    decreases |rows|
  {
    if |rows| > 0 {
      RemoveIdIsFilter(rows[1..], id);
    }
  }

  /** A kept row occurs as often as before, any other row not at all. */
  lemma {:induction false} FilterCount(rows: seq<Note>, keep: Note -> bool)
    ensures forall n :: multiset(Filter(rows, keep))[n] == if keep(n) then multiset(rows)[n] else 0
    decreases |rows|
  {
    if |rows| > 0 {
      FilterCount(rows[1..], keep);
      assert rows == [rows[0]] + rows[1..];
    }
  }

  /** Filtering keeps a sorted list sorted. */
  lemma {:induction false} FilterKeepsOrder(rows: seq<Note>, keep: Note -> bool)
    requires NewestFirst(rows)
    ensures NewestFirst(Filter(rows, keep))
    decreases |rows|
  {
    if |rows| > 0 {
      var rest := rows[1..];
      FilterKeepsOrder(rest, keep);
      if keep(rows[0]) {
        var tail := Filter(rest, keep);
        var r := [rows[0]] + tail;
        forall j | 0 < j < |r| ensures r[0].createdAt >= r[j].createdAt {
          assert r[j] == tail[j - 1];
          assert tail[j - 1] in rest;
        }
      }
    }
  }

  lemma {:induction false} FilterAfterInsert(n: Note, rows: seq<Note>, keep: Note -> bool)
    requires NewestFirst(rows)
    ensures NewestFirst(Filter(rows, keep))
    ensures Filter(InsertNewestFirst(n, rows), keep)
         == if keep(n) then InsertNewestFirst(n, Filter(rows, keep)) else Filter(rows, keep)
    decreases |rows|
  {
    FilterKeepsOrder(rows, keep);
    var kept := Filter(rows, keep);
    if |rows| == 0 || n.createdAt >= rows[0].createdAt {
      InsertFront(n, rows);
      assert ([n] + rows)[1..] == rows;
      if keep(n) {
        if |kept| > 0 {
          assert kept[0] in rows;
        }
        InsertFront(n, kept);
      }
    } else {
      var tail := rows[1..];
      InsertBehind(n, rows);
      FilterAfterInsert(n, tail, keep);
      var inserted := InsertNewestFirst(n, tail);
      assert ([rows[0]] + inserted)[1..] == inserted;
      if keep(rows[0]) && keep(n) {
        assert kept == [rows[0]] + Filter(tail, keep);
        FilterKeepsOrder(tail, keep);
        InsertBehind(n, kept);
        assert kept[1..] == Filter(tail, keep);
      }
    }
  }

  /** Sorting and then filtering is filtering and then sorting. */
  lemma {:induction false} SortFilterCommute(rows: seq<Note>, keep: Note -> bool)
    ensures Filter(SortNewestFirst(rows), keep) == SortNewestFirst(Filter(rows, keep))
    decreases |rows|
  {
    if |rows| > 0 {
      var rest := rows[1..];
      SortFilterCommute(rest, keep);
      var sorted := SortNewestFirst(rest);
      assert SortNewestFirst(rows) == InsertNewestFirst(rows[0], sorted);
      FilterAfterInsert(rows[0], sorted, keep);
      var kept := Filter(rows, keep);
      if keep(rows[0]) {
        assert kept == [rows[0]] + Filter(rest, keep);
        assert kept[0] == rows[0] && kept[1..] == Filter(rest, keep);
        assert SortNewestFirst(kept) == InsertNewestFirst(rows[0], SortNewestFirst(Filter(rest, keep)));
      } else {
        assert kept == Filter(rest, keep);
      }
    }
  }
}
