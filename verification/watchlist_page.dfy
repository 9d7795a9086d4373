/** The watchlist page of the component front-end: it loads the saved list
    once, removes records, and shows the list in one of four orders. */
module WatchlistPage {
  import opened Wrappers
  import opened Movies
  import opened Watchlist
  import opened Seqs
  import opened Storage
  import Numbers
  import Strings
  import Sorting

  /** The page's state: the list in memory, the storage behind it and the
      chosen `sortBy` value of the select box. */
  datatype PageState = PageState(watchlist: seq<Movie>, store: Store, sortBy: string)

  /** First render: the saved list, or an empty one when the key is absent;
      the select box starts at "date-added". */
  function Init(st: Store): (r: PageState)
    ensures r.store == st && r.sortBy == "date-added"
    ensures ReactKey !in st ==> r.watchlist == []
    ensures ReactKey in st ==> r.watchlist == st[ReactKey]
  {
    PageState(LoadOrEmpty(st, ReactKey), st, "date-added")
  }

  /** `handleRemoveFromWatchlist`: filter the record out, then write the
      whole new list through to storage. */
  function HandleRemove(s: PageState, movie: Movie): (r: PageState)
    ensures !Contains(r.watchlist, movie.imdbID)
    ensures IsSubsequence(r.watchlist, s.watchlist)
    ensures forall m: Movie :: m.imdbID != movie.imdbID ==> multiset(r.watchlist)[m] == multiset(s.watchlist)[m]
    ensures ReactKey in r.store && r.store[ReactKey] == r.watchlist
    ensures r.store.Keys == s.store.Keys + {ReactKey}
    ensures forall k :: k in s.store && k != ReactKey ==> k in r.store && r.store[k] == s.store[k]
    ensures r.sortBy == s.sortBy
  {
    var w := RemoveId(s.watchlist, movie.imdbID);
    RemoveIdKeepsOthers(s.watchlist, movie.imdbID);
    s.(watchlist := w, store := Persist(s.store, ReactKey, w))
  }

  /** The number `(m.imdbRating || 0)` becomes in the subtraction. */
  function RatingValue(m: Movie): Option<real> {
    match m.imdbRating
    case None => Some(0.0)
    case Some(text) => Numbers.JsToNumber(text)
  }

  /** The number `m.Year` becomes in the subtraction. */
  function YearValue(m: Movie): Option<real> {
    Numbers.JsToNumber(m.year)
  }

  /** The comparators only order consistently when no operand is NaN. */
  predicate NumericRatings(w: seq<Movie>) {
    forall i :: 0 <= i < |w| ==> RatingValue(w[i]).Some?
  }

  predicate NumericYears(w: seq<Movie>) {
    forall i :: 0 <= i < |w| ==> YearValue(w[i]).Some?
  }

  /** `a.Title.localeCompare(b.Title) <= 0`, with the locale's order given
      as `titleLeq`. */
  function TitleOrder(titleLeq: (string, string) -> bool): (Movie, Movie) -> bool {
    (a: Movie, b: Movie) => titleLeq(a.title, b.title)
  }

  /** `(b.imdbRating || 0) - (a.imdbRating || 0) <= 0`: higher rating first.
      A NaN operand (excluded by the views' precondition) counts as 0 here. */
  function RatingOrder(): (Movie, Movie) -> bool {
    (a: Movie, b: Movie) => RatingValue(a).GetOr(0.0) >= RatingValue(b).GetOr(0.0)
  }

  /** `b.Year - a.Year <= 0`: later year first. */
  function YearOrder(): (Movie, Movie) -> bool {
    (a: Movie, b: Movie) => YearValue(a).GetOr(0.0) >= YearValue(b).GetOr(0.0)
  }

  lemma TitleOrderIsTotalPreorder(titleLeq: (string, string) -> bool)
    requires Sorting.IsTotalPreorder(titleLeq)
    ensures Sorting.IsTotalPreorder(TitleOrder(titleLeq))
  {
    var leq := TitleOrder(titleLeq);
    forall a: Movie, b: Movie, c: Movie | leq(a, b) && leq(b, c) ensures leq(a, c) {
      assert titleLeq(a.title, b.title) && titleLeq(b.title, c.title);
    }
    forall a: Movie, b: Movie ensures leq(a, b) || leq(b, a) {
      assert titleLeq(a.title, b.title) || titleLeq(b.title, a.title);
    }
  }

  lemma NumericOrdersAreTotalPreorders()
    ensures Sorting.IsTotalPreorder(RatingOrder())
    ensures Sorting.IsTotalPreorder(YearOrder())
  {
  }

  /** The comparator the page passes to `sort` for a `sortBy` value. */
  function OrderFor(sortBy: string, titleLeq: (string, string) -> bool): (Movie, Movie) -> bool {
    if sortBy == "title" then TitleOrder(titleLeq)
    else if sortBy == "rating" then RatingOrder()
    else YearOrder()
  }

  predicate IsSortKey(sortBy: string) {
    sortBy == "title" || sortBy == "rating" || sortBy == "year"
  }

  /** `getSortedWatchlist`: a sorted copy for "title", "rating" and "year",
      and the stored list itself for "date-added" and any other value. */
  function SortedWatchlist(s: PageState, titleLeq: (string, string) -> bool): (r: seq<Movie>)
    requires Sorting.IsTotalPreorder(titleLeq)
    requires s.sortBy == "rating" ==> NumericRatings(s.watchlist)
    requires s.sortBy == "year" ==> NumericYears(s.watchlist)
    ensures !IsSortKey(s.sortBy) ==> r == s.watchlist
    ensures multiset(r) == multiset(s.watchlist)
    ensures IsSortKey(s.sortBy) ==> Sorting.SortedBy(r, OrderFor(s.sortBy, titleLeq))
    ensures IsSortKey(s.sortBy) ==> forall z: Movie ::
      Sorting.EquivalentsOf(r, OrderFor(s.sortBy, titleLeq), z)
        == Sorting.EquivalentsOf(s.watchlist, OrderFor(s.sortBy, titleLeq), z)
  {
    if IsSortKey(s.sortBy) then
      var leq := OrderFor(s.sortBy, titleLeq);
      TitleOrderIsTotalPreorder(titleLeq);
      NumericOrdersAreTotalPreorders();
      Sorting.SortPermutation(s.watchlist, leq);
      Sorting.SortSorted(s.watchlist, leq);
      StableForAll(s.watchlist, leq);
      Sorting.StableSort(s.watchlist, leq)
    else s.watchlist
  }

  lemma StableForAll(w: seq<Movie>, leq: (Movie, Movie) -> bool)
    requires Sorting.IsTotalPreorder(leq)
    ensures forall z: Movie :: Sorting.EquivalentsOf(Sorting.StableSort(w, leq), leq, z) == Sorting.EquivalentsOf(w, leq, z)
  {
    forall z: Movie ensures Sorting.EquivalentsOf(Sorting.StableSort(w, leq), leq, z) == Sorting.EquivalentsOf(w, leq, z) {
      Sorting.SortStable(w, leq, z);
    }
  }

  /** The "rating" view lists ratings from highest to lowest, a missing
      rating counting as 0. */
  lemma RatingViewDescending(s: PageState, titleLeq: (string, string) -> bool, i: int, j: int)
    requires Sorting.IsTotalPreorder(titleLeq)
    requires s.sortBy == "rating" && NumericRatings(s.watchlist)
    requires 0 <= i < j < |SortedWatchlist(s, titleLeq)|
    ensures RatingValue(SortedWatchlist(s, titleLeq)[i]).Some?
    ensures RatingValue(SortedWatchlist(s, titleLeq)[j]).Some?
    ensures RatingValue(SortedWatchlist(s, titleLeq)[i]).value >= RatingValue(SortedWatchlist(s, titleLeq)[j]).value
  {
    var r := SortedWatchlist(s, titleLeq);
    assert RatingOrder()(r[i], r[j]);
    forall n | 0 <= n < |r| ensures RatingValue(r[n]).Some? {
      assert r[n] in multiset(s.watchlist);
      var k :| 0 <= k < |s.watchlist| && s.watchlist[k] == r[n];
    }
  }

  /** The "year" view lists years from latest to earliest. */
  lemma YearViewDescending(s: PageState, titleLeq: (string, string) -> bool, i: int, j: int)
    requires Sorting.IsTotalPreorder(titleLeq)
    requires s.sortBy == "year" && NumericYears(s.watchlist)
    requires 0 <= i < j < |SortedWatchlist(s, titleLeq)|
    ensures YearValue(SortedWatchlist(s, titleLeq)[i]).Some?
    ensures YearValue(SortedWatchlist(s, titleLeq)[j]).Some?
    ensures YearValue(SortedWatchlist(s, titleLeq)[i]).value >= YearValue(SortedWatchlist(s, titleLeq)[j]).value
  {
    var r := SortedWatchlist(s, titleLeq);
    assert YearOrder()(r[i], r[j]);
    forall n | 0 <= n < |r| ensures YearValue(r[n]).Some? {
      assert r[n] in multiset(s.watchlist);
      var k :| 0 <= k < |s.watchlist| && s.watchlist[k] == r[n];
    }
  }

  /** The "title" view is ascending in the locale's title order. */
  lemma TitleViewAscending(s: PageState, titleLeq: (string, string) -> bool, i: int, j: int)
    requires Sorting.IsTotalPreorder(titleLeq)
    requires s.sortBy == "title"
    requires 0 <= i < j < |SortedWatchlist(s, titleLeq)|
    ensures titleLeq(SortedWatchlist(s, titleLeq)[i].title, SortedWatchlist(s, titleLeq)[j].title)
  {
    var r := SortedWatchlist(s, titleLeq);
    assert TitleOrder(titleLeq)(r[i], r[j]);
  }

  /** Whatever stable sort the engine runs, its result is the view the model
      computes. */
  lemma ViewIsEngineSort(s: PageState, titleLeq: (string, string) -> bool, engine: seq<Movie>)
    requires Sorting.IsTotalPreorder(titleLeq)
    requires IsSortKey(s.sortBy)
    requires s.sortBy == "rating" ==> NumericRatings(s.watchlist)
    requires s.sortBy == "year" ==> NumericYears(s.watchlist)
    requires Sorting.SortedBy(engine, OrderFor(s.sortBy, titleLeq))
    requires forall z: Movie :: Sorting.EquivalentsOf(engine, OrderFor(s.sortBy, titleLeq), z)
                             == Sorting.EquivalentsOf(s.watchlist, OrderFor(s.sortBy, titleLeq), z)
    ensures engine == SortedWatchlist(s, titleLeq)
  {
    TitleOrderIsTotalPreorder(titleLeq);
    NumericOrdersAreTotalPreorders();
    Sorting.AnyStableSortIsStableSort(s.watchlist, engine, OrderFor(s.sortBy, titleLeq));
  }

  lemma ExampleRatingsParse()
    ensures Numbers.JsToNumber("7.2") == Some(7.2)
    ensures Numbers.JsToNumber("9.0") == Some(9.0)
  {
    ParsesSevenPointTwo();
    ParsesNinePointZero();
  }

  lemma ParsesSevenPointTwo()
    ensures Numbers.JsToNumber("7.2") == Some(7.2)
  {
    assert Strings.LeadingSpace("7.2") == 0;
    assert Strings.TrailingSpaceStart("7.2") == 3;
    assert Strings.Trim("7.2") == "7.2";
    assert Strings.PrefixBefore("7.2", '.') == "7";
    assert Numbers.DigitsValue("7") == 7;
    assert Numbers.DigitsValue("2") == 2;
    assert Numbers.ParseUnsignedDecimal("7.2") == Some(7.2);
  }

  lemma ParsesNinePointZero()
    ensures Numbers.JsToNumber("9.0") == Some(9.0)
  {
    assert Strings.LeadingSpace("9.0") == 0;
    assert Strings.TrailingSpaceStart("9.0") == 3;
    assert Strings.Trim("9.0") == "9.0";
    assert Strings.PrefixBefore("9.0", '.') == "9";
    assert Numbers.DigitsValue("9") == 9;
    assert Numbers.DigitsValue("0") == 0;
    assert Numbers.ParseUnsignedDecimal("9.0") == Some(9.0);
  }

  /** Three saved movies rated "7.2", unrated and "9.0", in that order. */
  function ExamplePage(): (s: PageState)
    ensures NumericRatings(s.watchlist)
  {
    ExampleRatingsParse();
    PageState([Movie("tt1", "A", "2001", Some("7.2"), map[]),
               Movie("tt2", "B", "2002", None, map[]),
               Movie("tt3", "C", "2003", Some("9.0"), map[])], map[], "rating")
  }

  /** Any order on titles; the "rating" view does not consult it. */
  function AnyTitleOrder(): (leq: (string, string) -> bool)
    ensures Sorting.IsTotalPreorder(leq)
  {
    (x: string, y: string) => true
  }

  /** Ratings 7.2, none (read as 0) and 9.0 sort to 9.0, 7.2, none. */
  lemma {:induction false} ThreeRatingsOrder(a: Movie, b: Movie, c: Movie)
    requires RatingValue(a) == Some(7.2) && RatingValue(b) == Some(0.0) && RatingValue(c) == Some(9.0)
    ensures Sorting.StableSort([a, b, c], RatingOrder()) == [c, a, b]
  {
    var leq := RatingOrder();
    assert leq(c, b) && !leq(b, c) && leq(a, b) && !leq(a, c);
    assert [a, b, c][1..] == [b, c] && [b, c][1..] == [c] && [c][1..] == [];
    assert Sorting.StableSort([c], leq) == [c];
    assert Sorting.Insert(b, [], leq) == [b];
    assert Sorting.Insert(b, [c], leq) == [c] + Sorting.Insert(b, [], leq);
    assert Sorting.StableSort([b, c], leq) == [c, b];
    assert [c, b][1..] == [b];
    assert Sorting.Insert(a, [b], leq) == [a, b];
    assert Sorting.Insert(a, [c, b], leq) == [c] + Sorting.Insert(a, [b], leq);
  }

  /** Ratings "7.2", none and "9.0" are shown as 9.0, 7.2, then the movie
      without a rating. */
  lemma RatingViewExample()
    ensures var w := ExamplePage().watchlist;
            SortedWatchlist(ExamplePage(), AnyTitleOrder()) == [w[2], w[0], w[1]]
  {
    var s := ExamplePage();
    var a, b, c := s.watchlist[0], s.watchlist[1], s.watchlist[2];
    ExampleRatingsParse();
    assert RatingValue(a) == Some(7.2) && RatingValue(b) == Some(0.0) && RatingValue(c) == Some(9.0);
    assert s.watchlist == [a, b, c];
    ThreeRatingsOrder(a, b, c);
  }
}
