/** The dashboard page: it shows every note, or the results of the last
    search while search mode is on. A query with something besides white
    space turns search mode on and dispatches a search with the query as
    typed; a blank query turns it off and dispatches nothing. */
module IndexPageModel {
  import opened NoteTypes
  import opened Text

  /** What the page takes from the search in search mode and from the list
      query otherwise: the notes shown (either may still be absent), and
      the loading flag (the search's pending flag or the list's fetching
      flag). */
  function ByMode<T>(isSearchActive: bool, fromSearch: T, fromList: T): (r: T)
    ensures isSearchActive ==> r == fromSearch
    ensures !isSearchActive ==> r == fromList
  {
    if isSearchActive then fromSearch else fromList
  }

  class IndexPage {
    var isSearchActive: bool

    constructor ()
      ensures !isSearchActive
    {
      isSearchActive := false;
    }

    /** `handleSearch(query)`; `dispatched` is the query handed to the
        search mutation, if any. */
    method HandleSearch(query: string) returns (dispatched: Option<string>)
      modifies this
      ensures isSearchActive <==> !AllWhitespace(query)
      ensures dispatched.Some? <==> isSearchActive
      ensures dispatched.Some? ==> dispatched.value == query && dispatched.value != ""
      ensures forall results: Option<seq<Note>>, all :: ByMode(isSearchActive, results, all)
                                                     == if AllWhitespace(query) then all else results
      ensures forall searching: bool, fetching :: ByMode(isSearchActive, searching, fetching)
                                              == if AllWhitespace(query) then fetching else searching
    {
      if Trim(query) != "" {
        isSearchActive := true;
        dispatched := Some(query);
      } else {
        isSearchActive := false;
        dispatched := None;
      }
    }
  }
}
