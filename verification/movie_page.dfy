/** The detail page of the component front-end: one movie and its
    watchlist button. */
module MoviePage {
  import opened Wrappers
  import opened Movies
  import opened Watchlist
  import opened Seqs
  import opened Storage

  /** `movie` is `null` until the detail request has answered. */
  datatype PageState = PageState(movie: Option<Movie>, watchlist: seq<Movie>, store: Store)

  /** First render: no movie yet and the saved watchlist (empty when the key
      is absent). */
  function Init(st: Store): (r: PageState)
    ensures r.movie.None? && r.store == st
    ensures ReactKey !in st ==> r.watchlist == []
    ensures ReactKey in st ==> r.watchlist == st[ReactKey]
  {
    PageState(None, LoadOrEmpty(st, ReactKey), st)
  }

  /** The detail request answered with `m`. */
  function MovieLoaded(s: PageState, m: Movie): (r: PageState)
    ensures r.movie == Some(m) && r.watchlist == s.watchlist && r.store == s.store
  {
    s.(movie := Some(m))
  }

  /** `handleWatchlistToggle`. The button exists only once the page has
      rendered a movie, so `movie` is present. */
  function HandleWatchlistToggle(s: PageState): (r: PageState)
    requires s.movie.Some?
    ensures Contains(r.watchlist, s.movie.value.imdbID) <==> !Contains(s.watchlist, s.movie.value.imdbID)
    ensures Contains(s.watchlist, s.movie.value.imdbID) ==>
      && IsSubsequence(r.watchlist, s.watchlist)
      && forall x: Movie :: x.imdbID != s.movie.value.imdbID ==> multiset(r.watchlist)[x] == multiset(s.watchlist)[x]
    ensures !Contains(s.watchlist, s.movie.value.imdbID) ==> r.watchlist == s.watchlist + [s.movie.value]
    ensures ReactKey in r.store && r.store[ReactKey] == r.watchlist
    ensures r.store.Keys == s.store.Keys + {ReactKey}
    ensures forall k :: k in s.store && k != ReactKey ==> k in r.store && r.store[k] == s.store[k]
    ensures r.movie == s.movie
  {
    var w := Toggle(s.watchlist, s.movie.value);
    assert !Contains(s.watchlist, s.movie.value.imdbID) ==> w == s.watchlist + [s.movie.value];
    s.(watchlist := w, store := Persist(s.store, ReactKey, w))
  }

  /** `movie && watchlist.some(m => m.imdbID === movie.imdbID)`. */
  function IsInWatchlist(s: PageState): (r: bool)
    ensures s.movie.None? ==> !r
    ensures s.movie.Some? ==> (r <==> exists i :: 0 <= i < |s.watchlist| && s.watchlist[i].imdbID == s.movie.value.imdbID)
  {
    s.movie.Some? && Contains(s.watchlist, s.movie.value.imdbID)
  }

  /** After a toggle the button shows the opposite state. */
  lemma ToggleFlipsButton(s: PageState)
    requires s.movie.Some?
    ensures IsInWatchlist(HandleWatchlistToggle(s)) == !IsInWatchlist(s)
  {
  }
}
