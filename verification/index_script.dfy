/** The search page of the plain-script front-end (`index.js`): a search
    form and an "add to watchlist" button on each result. */
module IndexScript {
  import opened Wrappers
  import opened Movies
  import opened Watchlist
  import opened Storage

  /** The script's module-level state: `allMoviesArray` (the detailed
      results on screen), `watchlistArray`, and the storage behind it. */
  datatype ScriptState = ScriptState(allMovies: seq<Movie>, watchlist: seq<Movie>, store: Store)

  /** Which message the add button shows; `Ignored` when the click carries
      no (or an empty) `data-add-movie` value and the handler does nothing. */
  datatype AddOutcome = Added | AlreadyInWatchlist | Ignored

  /** Script load as written: both arrays start empty and the saved list
      is not read. */
  function Init(st: Store): (r: ScriptState)
    ensures r.allMovies == [] && r.watchlist == [] && r.store == st
  {
    ScriptState([], [], st)
  }

  /** The click handler for a result's add button carrying `id`. An empty
      `data-add-movie` value is falsy and the click is ignored. The button
      is rendered from `allMoviesArray`, so an id that is not yet in the
      watchlist is found there. */
  function AddClick(s: ScriptState, id: string): (r: (ScriptState, AddOutcome))
    requires id == [] || Contains(s.watchlist, id) || Contains(s.allMovies, id)
    ensures id == [] ==> r == (s, Ignored)
    ensures id != [] && Contains(s.watchlist, id) ==> r == (s, AlreadyInWatchlist)
    ensures id != [] && !Contains(s.watchlist, id) ==>
      && r.1 == Added
      && |r.0.watchlist| == |s.watchlist| + 1
      && r.0.watchlist[..|s.watchlist|] == s.watchlist
      && r.0.watchlist[|s.watchlist|].imdbID == id
      && r.0.store == s.store[ScriptKey := r.0.watchlist]
      && r.0.allMovies == s.allMovies
    ensures id != [] ==> Contains(r.0.watchlist, id)
  {
    if id == [] then (s, Ignored)
    else if Contains(s.watchlist, id) then (s, AlreadyInWatchlist)
    else
      var found := FindById(s.allMovies, id).value;
      var w := s.watchlist + [found];
      assert w[|s.watchlist|] == found;
      (s.(watchlist := w, store := s.store[ScriptKey := w]), Added)
  }

  /** The record appended is the first result with that id. */
  lemma AddAppendsFirstMatch(s: ScriptState, id: string)
    requires id != [] && !Contains(s.watchlist, id) && Contains(s.allMovies, id)
    ensures exists k :: 0 <= k < |s.allMovies| && !Contains(s.allMovies[..k], id)
                     && AddClick(s, id).0.watchlist == s.watchlist + [s.allMovies[k]]
  {
    var k :| 0 <= k < |s.allMovies| && s.allMovies[k] == FindById(s.allMovies, id).value
             && !Contains(s.allMovies[..k], id);
  }

  /** Adding keeps the watchlist's ids pairwise distinct. */
  lemma AddPreservesDistinct(s: ScriptState, id: string)
    requires id == [] || Contains(s.watchlist, id) || Contains(s.allMovies, id)
    requires DistinctIds(s.watchlist)
    ensures DistinctIds(AddClick(s, id).0.watchlist)
  {
  }

  /** Clicking the same button twice adds the movie once. */
  lemma AddTwiceAddsOnce(s: ScriptState, id: string)
    requires id == [] || Contains(s.watchlist, id) || Contains(s.allMovies, id)
    ensures AddClick(AddClick(s, id).0, id).0 == AddClick(s, id).0
    ensures id != [] ==> AddClick(AddClick(s, id).0, id).1 == AlreadyInWatchlist
  {
  }

  /** On a fresh page the first add overwrites the saved list under "id"
      with a one-record list, losing every record saved before. */
  lemma FirstAddDiscardsSavedList(st: Store, results: seq<Movie>, id: string)
    requires ScriptKey in st && st[ScriptKey] != []
    requires id != [] && Contains(results, id)
    ensures AddClick(Init(st).(allMovies := results), id).0.store[ScriptKey]
         == [FindById(results, id).value]
    ensures AddClick(Init(st).(allMovies := results), id).0.store[ScriptKey] != st[ScriptKey] + [FindById(results, id).value]
  {
  }

  /** Script load reading the saved list first (absent key: empty list). */
  function InitLoaded(st: Store): (r: ScriptState)
    ensures r.allMovies == [] && r.store == st
    ensures r.watchlist == LoadOrEmpty(st, ScriptKey)
  {
    ScriptState([], LoadOrEmpty(st, ScriptKey), st)
  }

  /** With the saved list loaded, adding a new movie keeps every saved
      record and appends the new one. */
  lemma AddAfterLoadKeepsSaved(st: Store, results: seq<Movie>, id: string)
    requires id != [] && !Contains(LoadOrEmpty(st, ScriptKey), id) && Contains(results, id)
    ensures AddClick(InitLoaded(st).(allMovies := results), id).0.store[ScriptKey]
         == LoadOrEmpty(st, ScriptKey) + [FindById(results, id).value]
  {
  }

  /** What the form's submit handler does with a search reply (`None` when
      `fetch` or `json()` throws). */
  datatype SubmitView =
    | Unchanged            // nothing is rendered
    | NotFound             // the "Unable To Find" message
    | FetchDetails(ids: seq<string>)   // one detail request per hit, in order

  datatype SubmitStep = SubmitStep(view: SubmitView, inputCleared: bool)

  function Submit(reply: Option<SearchReply>): (r: SubmitStep)
    ensures reply.None? ==> r == SubmitStep(Unchanged, false)
    ensures reply.Some? ==> r.inputCleared
    ensures reply.Some? && reply.value.response != "True" ==> r.view == NotFound
    ensures reply.Some? && reply.value.response == "True" && reply.value.search.Some? ==> r.view.FetchDetails?
    ensures reply.Some? && reply.value.response == "True" && reply.value.search.None? ==> r.view == Unchanged
    ensures r.view.FetchDetails? ==>
      && reply.Some? && reply.value.response == "True" && reply.value.search.Some?
      && |r.view.ids| == |reply.value.search.value|
      && forall i :: 0 <= i < |r.view.ids| ==> r.view.ids[i] == reply.value.search.value[i].imdbID
  {
    match reply
    case None => SubmitStep(Unchanged, false)
    case Some(SearchReply(response, search)) =>
      if response == "True" then
        match search
        // `getMoviesInfo(undefined)` rejects inside the async call; the
        // handler carries on and clears the input.
        case None => SubmitStep(Unchanged, true)
        case Some(hits) => SubmitStep(FetchDetails(seq(|hits|, i requires 0 <= i < |hits| => hits[i].imdbID)), true)
      else SubmitStep(NotFound, true)
  }

  /** The not-found message shows exactly for a reply whose `Response` is not
      "True", and then no detail is requested. */
  lemma NotFoundIffNotTrue(reply: Option<SearchReply>)
    ensures Submit(reply).view == NotFound <==> reply.Some? && reply.value.response != "True"
    ensures Submit(reply).view.FetchDetails? ==> reply.Some? && reply.value.response == "True"
  {
  }

  /** Every hit of a "True" reply is requested, and each request is for a hit. */
  lemma SubmitRequestsEveryHit(reply: Option<SearchReply>, m: Movie)
    requires reply.Some? && reply.value.response == "True" && reply.value.search.Some?
    ensures m in reply.value.search.value ==> m.imdbID in Submit(reply).view.ids
    ensures forall id :: id in Submit(reply).view.ids ==> exists h :: h in reply.value.search.value && h.imdbID == id
  {
    var hits := reply.value.search.value;
    var ids := Submit(reply).view.ids;
    if m in hits {
      var i :| 0 <= i < |hits| && hits[i] == m;
      assert ids[i] == m.imdbID;
    }
    forall id | id in ids ensures exists h :: h in hits && h.imdbID == id {
      var i :| 0 <= i < |ids| && ids[i] == id;
      assert hits[i] in hits;
    }
  }
}
