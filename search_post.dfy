/** `POST /notes/search`: the notes whose title, content or tag text holds
    the query, ignoring case, newest first. An empty query answers `[]`
    without reading the table. The tag column is matched through its text
    form (`tags::text`), the array literal the database prints. */
module SearchHandler {
  import opened NoteTypes
  import opened Text
  import opened Rows
  import opened Validation
  import Ilike
  import ListHandler

  // ---- the text form of a text[] value ----

  /** The characters the array printer counts as white space. */
  predicate ArraySpace(c: char) {
    c == ' ' || c == '\t' || c == '\n' || c == '\r' || c == '\U{B}' || c == '\U{C}'
  }

  /** A character that forces an element to be printed in double quotes. */
  predicate ForcesQuotes(c: char) {
    c == '"' || c == '\\' || c == '{' || c == '}' || c == ',' || ArraySpace(c)
  }

  /** An element is quoted when it is empty, spells NULL in any case, or
      holds a character that would be ambiguous unquoted. */
  predicate NeedsQuotes(t: string) {
    t == "" || Lower(t) == "null" || exists i :: 0 <= i < |t| && ForcesQuotes(t[i])
  }

  /** Inside quotes, `"` and `\` are preceded by a backslash. */
  function EscapeElement(t: string): (r: string)
    ensures |r| >= |t|
    ensures (forall i :: 0 <= i < |t| ==> t[i] != '"' && t[i] != '\\') ==> r == t
  {
    if |t| == 0 then ""
    else (if t[0] == '"' || t[0] == '\\' then ['\\', t[0]] else [t[0]]) + EscapeElement(t[1..])
  }

  function ElementText(t: string): string {
    if NeedsQuotes(t) then "\"" + EscapeElement(t) + "\"" else t
  }

  function ElementTexts(tags: seq<string>): (r: seq<string>)
    ensures |r| == |tags|
    ensures forall k :: 0 <= k < |tags| ==> r[k] == ElementText(tags[k])
  {
    seq(|tags|, k requires 0 <= k < |tags| => ElementText(tags[k]))
  }

  /** `tags::text`: `{` + the printed elements joined by `,` + `}`. */
  function TagsText(tags: seq<string>): (r: string)
    ensures |r| >= 2 && r[0] == '{' && r[|r| - 1] == '}'
  {
    "{" + JoinWith(ElementTexts(tags), ",") + "}"
  }

  /** Every piece occurs in the join of the pieces. */
  lemma {:induction false} PieceOccursInJoin(pieces: seq<string>, sep: string, k: int)
    requires 0 <= k < |pieces|
    ensures Occurs(pieces[k], JoinWith(pieces, sep))
    decreases |pieces|
  {
    if |pieces| == 1 {
      OccursInConcat("", pieces[0], "");
      assert "" + pieces[0] + "" == pieces[0];
    } else if k == 0 {
      OccursInConcat("", pieces[0], sep + JoinWith(pieces[1..], sep));
      assert "" + pieces[0] + (sep + JoinWith(pieces[1..], sep)) == JoinWith(pieces, sep);
    } else {
      var rest := JoinWith(pieces[1..], sep);
      PieceOccursInJoin(pieces[1..], sep, k - 1);
      OccursInConcat(pieces[0] + sep, rest, "");
      assert pieces[0] + sep + rest + "" == JoinWith(pieces, sep);
      OccursTransitive(pieces[k], rest, JoinWith(pieces, sep));
    }
  }

  /** A tag without `"` or `\` appears verbatim in the tag text. */
  lemma TagOccurs(tags: seq<string>, k: int)
    requires 0 <= k < |tags|
    requires forall i :: 0 <= i < |tags[k]| ==> tags[k][i] != '"' && tags[k][i] != '\\'
    ensures Occurs(tags[k], TagsText(tags))
  {
    var t := tags[k];
    var elems := ElementTexts(tags);
    OccursInConcat("\"", t, "\"");
    OccursInConcat("", t, "");
    assert "" + t + "" == t;
    assert Occurs(t, elems[k]);
    PieceOccursInJoin(elems, ",", k);
    OccursTransitive(t, elems[k], JoinWith(elems, ","));
    OccursInConcat("{", JoinWith(elems, ","), "}");
    OccursTransitive(t, JoinWith(elems, ","), TagsText(tags));
  }

  // ---- matching ----

  /** The corrected match: the query occurs, ignoring case, in the title,
      the content or the tag text. */
  predicate Matches(n: Note, q: string) {
    || ContainsIgnoringCase(n.title, q)
    || ContainsIgnoringCase(n.content, q)
    || ContainsIgnoringCase(TagsText(n.tags), q)
  }

  /** The match the handler's statement makes: three `ILIKE '%query%'`
      tests with the query's `%`, `_` and `\` left active. */
  predicate MatchesAsWritten(n: Note, q: string) {
    || Ilike.IlikeContains(n.title, q)
    || Ilike.IlikeContains(n.content, q)
    || Ilike.IlikeContains(TagsText(n.tags), q)
  }

  /** A query found in one of the note's tags finds the note. */
  lemma TagHitMatches(n: Note, k: int, q: string)
    requires 0 <= k < |n.tags|
    requires forall i :: 0 <= i < |n.tags[k]| ==> n.tags[k][i] != '"' && n.tags[k][i] != '\\'
    requires ContainsIgnoringCase(n.tags[k], q)
    ensures Matches(n, q)
  {
    TagOccurs(n.tags, k);
    OccursLower(n.tags[k], TagsText(n.tags));
    OccursTransitive(Lower(q), Lower(n.tags[k]), Lower(TagsText(n.tags)));
  }

  /** Every note's tag text starts with `{`, so that query finds every note,
      even one with no tags. */
  lemma BraceMatchesEveryNote(n: Note)
    ensures Matches(n, "{")
  {
    var s := TagsText(n.tags);
    assert Lower("{") == ['{'];
    assert Lower(s)[0] == '{';
    OccursSingle('{', Lower(s));
  }

  /** For a query with no `%`, `_` or `\` the statement as written finds
      exactly the notes the corrected match finds. */
  lemma AsWrittenAgreesOnPlainQueries(n: Note, q: string)
    requires Ilike.PlainQuery(q)
    ensures MatchesAsWritten(n, q) <==> Matches(n, q)
  {
    Ilike.IlikePlain(n.title, q);
    Ilike.IlikePlain(n.content, q);
    Ilike.IlikePlain(TagsText(n.tags), q);
  }

  /** The query `_` finds a note in which no `_` occurs. */
  lemma UnderscoreFindsNoteWithoutUnderscore()
    ensures MatchesAsWritten(Note("n1", "abc", "", [], 0, 0), "_")
    ensures !Matches(Note("n1", "abc", "", [], 0, 0), "_")
  {
    var n := Note("n1", "abc", "", [], 0, 0);
    Ilike.UnderscoreMatchesAnyChar("abc");
    assert Lower("_") == ['_'] && Lower("") == "";
    OccursSingle('_', "");
    var tagText := TagsText(n.tags);
    assert tagText == "{}";
    assert Lower(tagText) == tagText;
    OccursSingle('_', tagText);
  }

  // ---- the handler ----

  /** `fault` is the error the select throws, if it does. */
  function Search(rows: seq<Note>, body: Body, fault: Option<string>): (r: Response<seq<Note>>)
    ensures r.Fail? ==> r.status in {BadRequest, ServerError}
    ensures body.Unparsable? ==> r == Fail(ServerError, Message(body.message))
    ensures body.Parsed? && ValidateStringKey(body.value, "query").Invalid? ==>
      r == Fail(BadRequest, Issues(ValidateStringKey(body.value, "query").issues))
    ensures body.Parsed? && ValidateStringKey(body.value, "query").Valid? ==>
      var q := ValidateStringKey(body.value, "query").value;
      if q == "" then r == Ok([])
      else if fault.Some? then r == Fail(ServerError, Message(fault.value))
      else
        && r.Ok?
        && NewestFirst(r.value)
        && (forall n :: n in r.value <==> n in rows && Matches(n, q))
        && (forall n :: multiset(r.value)[n] == if Matches(n, q) then multiset(rows)[n] else 0)
  {
    match body
    case Unparsable(m) => Fail(ServerError, Message(m))
    case Parsed(v) =>
      match ValidateStringKey(v, "query")
      case Invalid(issues) => Fail(BadRequest, Issues(issues))
      case Valid(q) =>
        if q == "" then Ok([])
        else if fault.Some? then Fail(ServerError, Message(fault.value))
        else
          var kept := Filter(rows, n => Matches(n, q));
          var found := SortNewestFirst(kept);
          FilterCount(rows, n => Matches(n, q));
          assert forall n :: n in found <==> n in multiset(found);
          assert forall n :: n in kept <==> n in multiset(kept);
          Ok(found)
  }

  // ---- search results are the list, filtered ----

  /** A successful search answers the notes `GET /notes` lists, in the same
      order, less those that do not match. */
  lemma SearchFiltersList(rows: seq<Note>, body: Body)
    requires body.Parsed? && ValidateStringKey(body.value, "query").Valid?
    requires ValidateStringKey(body.value, "query").value != ""
    ensures Search(rows, body, None)
         == Ok(Filter(ListHandler.List(rows, None).value, n => Matches(n, ValidateStringKey(body.value, "query").value)))
  {
    var q := ValidateStringKey(body.value, "query").value;
    SortFilterCommute(rows, n => Matches(n, q));
  }
}
