/** The search page of the component front-end: search-as-you-type with at
    most five suggestions, a stack of selected movies, and a watchlist
    button on every card. */
module HomePage {
  import opened Wrappers
  import opened Movies
  import opened Watchlist
  import opened Seqs
  import opened Storage
  import Strings

  /** The parts of the page's state the logic touches. */
  datatype PageState = PageState(
    searchTerm: string,
    searchResults: seq<Movie>,
    selectedMovies: seq<Movie>,
    dropdownVisible: bool,
    watchlist: seq<Movie>,
    store: Store)

  /** First render: empty search, nothing selected, and the saved watchlist
      (empty when the key is absent). */
  function Init(st: Store): (r: PageState)
    ensures r.searchTerm == [] && r.searchResults == [] && r.selectedMovies == []
    ensures ReactKey !in st ==> r.watchlist == []
    ensures ReactKey in st ==> r.watchlist == st[ReactKey]
    ensures r.store == st
  {
    PageState([], [], [], false, LoadOrEmpty(st, ReactKey), st)
  }

  /** What one run of `fetchSearchResults` does: whether it sends a request
      (and with which query) and the result list it leaves behind. */
  datatype SearchStep = SearchStep(request: Option<string>, results: seq<Movie>)

  /** `fetchSearchResults` for the debounced query. `reply` is what the
      request would yield: `None` when `fetch` or `json()` throws. A blank
      query clears the list without a request; a reply whose `Response` is
      "True" yields its first five hits; any other reply clears the list;
      a thrown error (including reading `Search` from a reply that lacks it)
      leaves the previous list in place. */
  function FetchSearchResults(query: string, reply: Option<SearchReply>, previous: seq<Movie>): (r: SearchStep)
    ensures r.request.None? <==> Strings.AllWhitespace(query)
    ensures r.request.Some? ==> r.request.value == query
    ensures r.request.None? ==> r.results == []
    ensures r.request.Some? && reply.Some? && reply.value.response == "True" && reply.value.search.Some? ==>
      var hits := reply.value.search.value;
      |r.results| == (if |hits| < 5 then |hits| else 5) && r.results == hits[..|r.results|]
    ensures r.request.Some? && reply.Some? && reply.value.response != "True" ==> r.results == []
    ensures r.request.Some? && (reply.None? || (reply.value.response == "True" && reply.value.search.None?)) ==>
      r.results == previous
  {
    Strings.TrimEmptyIffAllWhitespace(query);
    if Strings.Trim(query) == [] then SearchStep(None, [])
    else
      match reply
      case None => SearchStep(Some(query), previous)
      case Some(SearchReply(response, search)) =>
        if response == "True" then
          match search
          case None => SearchStep(Some(query), previous)
          case Some(hits) => SearchStep(Some(query), Take(hits, 5))
        else SearchStep(Some(query), [])
  }

  /** `handleMovieSelect`: `detailed` is the fetched record, `None` when the
      request throws. On success the record goes on top of the stack and the
      search box is cleared; on failure nothing changes. */
  function HandleMovieSelect(s: PageState, detailed: Option<Movie>): (r: PageState)
    ensures detailed.Some? ==>
      && |r.selectedMovies| == |s.selectedMovies| + 1
      && r.selectedMovies[0] == detailed.value
      && r.selectedMovies[1..] == s.selectedMovies
    ensures detailed.Some? ==> r.searchTerm == [] && !r.dropdownVisible
    ensures detailed.None? ==> r == s
    ensures r.watchlist == s.watchlist && r.store == s.store && r.searchResults == s.searchResults
  {
    match detailed
    case None => s
    case Some(d) => s.(selectedMovies := [d] + s.selectedMovies, searchTerm := [], dropdownVisible := false)
  }

  /** `handleWatchlistToggle`: toggle the movie in the list and write the
      whole new list through to storage. */
  function HandleWatchlistToggle(s: PageState, movie: Movie): (r: PageState)
    ensures Contains(r.watchlist, movie.imdbID) <==> !Contains(s.watchlist, movie.imdbID)
    ensures Contains(s.watchlist, movie.imdbID) ==>
      && IsSubsequence(r.watchlist, s.watchlist)
      && forall x: Movie :: x.imdbID != movie.imdbID ==> multiset(r.watchlist)[x] == multiset(s.watchlist)[x]
    ensures !Contains(s.watchlist, movie.imdbID) ==> r.watchlist == s.watchlist + [movie]
    ensures ReactKey in r.store && r.store[ReactKey] == r.watchlist
    ensures r.store.Keys == s.store.Keys + {ReactKey}
    ensures forall k :: k in s.store && k != ReactKey ==> k in r.store && r.store[k] == s.store[k]
    ensures r.selectedMovies == s.selectedMovies && r.searchTerm == s.searchTerm
    ensures r.searchResults == s.searchResults && r.dropdownVisible == s.dropdownVisible
  {
    var w := Toggle(s.watchlist, movie);
    assert !Contains(s.watchlist, movie.imdbID) ==> w == s.watchlist + [movie];
    s.(watchlist := w, store := Persist(s.store, ReactKey, w))
  }

  /** The `isInWatchlist` flag a card is rendered with. */
  function CardInWatchlist(s: PageState, movie: Movie): (r: bool)
    ensures r <==> exists i :: 0 <= i < |s.watchlist| && s.watchlist[i].imdbID == movie.imdbID
  {
    Contains(s.watchlist, movie.imdbID)
  }

  /** Pressing a card's button twice, starting from a watchlist without the
      movie, gives back the list and the stored value it started with. */
  lemma ToggleTwiceOnPage(s: PageState, movie: Movie)
    requires !Contains(s.watchlist, movie.imdbID)
    ensures HandleWatchlistToggle(HandleWatchlistToggle(s, movie), movie).watchlist == s.watchlist
    ensures LoadOrEmpty(HandleWatchlistToggle(HandleWatchlistToggle(s, movie), movie).store, ReactKey) == s.watchlist
  {
    ToggleTwiceRestores(s.watchlist, movie);
  }
}
