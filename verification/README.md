# MovieVault watchlist core in Dafny

MovieVault is a movie search and watchlist web client with two front-ends:

- The component front-end has three pages: search, movie details and watchlist. The pages share one list saved in browser storage under `movie-watchlist`.
- The plain-script front-end has two scripts: `index.js` to search and add, and `watchlist.js` to list and remove. They keep their list under `id`.

A TMDB adapter (`src/utils/tmdbApi.js`) turns TMDB movie objects into the OMDb-shaped records the pages display.

This project models the pure logic of that core as functions over immutable data:

- the watchlist operations:
  - add-if-absent;
  - toggle;
  - remove by id;
  - the `watchlist.js` remover, simulated exactly as written;
  - load from storage, and write-through of the whole list to storage;
- the sorted views of the watchlist page;
- search-result selection and the selected-movie stack of the search page;
- the TMDB to OMDb field mapping, and image URLs.

Around the model sit lemmas for the properties the code promises.

Layout, one module per file:

| module | models |
|---|---|
| `Wrappers` | `Option` and `Result` |
| `Strings` | `String.prototype.trim` with the ECMAScript whitespace set, `split(sep)[0]`, `join`, ASCII `toUpperCase` |
| `Numbers` | decimal `toString` of integers below 10^21 in magnitude, and the `ToNumber` coercion of a string (section 7.1.4.1.1 of ECMA-262) for signed decimal literals |
| `Sorting` | a stable sort under a comparator (the `Array.prototype.sort` of ECMAScript 2019 and later); proves that any stable sort yields the same result |
| `Seqs` | subsequences and `slice(0, n)` |
| `Movies` | the movie record and the search reply |
| `Watchlist` | `some`, `find` and `filter` by `imdbID`; the toggle |
| `Storage` | local storage as a map from key to list, with JSON taken as the identity |
| `WatchlistPage`, `HomePage`, `MoviePage` | the three component pages |
| `IndexScript`, `WatchlistScript` | the two plain scripts |
| `Tmdb` | `getImageUrl` and `convertTmdbToOmdbFormat` |

Side effects become parameters:

- A network reply is an `Option` argument. `None` means the request or its JSON decoding threw.
- The locale's title order is a relation argument. It is required to be a total preorder.

## Model

| member | source | states |
|---|---|---|
| Strings.TrimEmptyIffAllWhitespace | src/pages/HomePage.jsx:37 | A query trims to the empty string exactly when every character is ECMAScript whitespace or a line terminator. |
| Strings.TrimIsInnerSlice | src/pages/HomePage.jsx:37 | `trim` returns a contiguous slice of the query that neither starts nor ends with whitespace, and only whitespace is cut off either end. |
| Strings.PrefixBefore | src/utils/tmdbApi.js:80 | `split('-')[0]` is a prefix of the date with no '-' in it; when it is shorter than the date, a '-' follows it. |
| Strings.JoinEmptyIff | src/utils/tmdbApi.js:99-105 | A `", "`-join is empty exactly when the list is empty or holds one empty name, which is when `|| 'N/A'` takes over. |
| Strings.JoinLength | src/utils/tmdbApi.js:101 | The joined text is as long as the names together plus one separator between each neighbouring pair. |
| Strings.ToUpperAscii | src/utils/tmdbApi.js:104 | The language code keeps its length, each lowercase ASCII letter becomes its capital, every other character stays, and no lowercase ASCII letter is left. |
| Strings.ToUpperAsciiIdempotent | src/utils/tmdbApi.js:104 | Upper-casing an already upper-cased code changes nothing. |
| Numbers.NatToStringRoundTrip | src/utils/tmdbApi.js:81 | The decimal digits of a natural number read back as that number. |
| Numbers.DigitsToStringRoundTrip | src/utils/tmdbApi.js:81 | A digit string without leading zeros is the text of its own value, so each natural number has exactly one such text. |
| Numbers.IntToString | src/utils/tmdbApi.js:81 | `toString` of an integer is its canonical text: digits alone exactly for a non-negative number, no leading zero except in "0", and a '-' before digits that do not start with '0' for a negative number. |
| Numbers.DecimalValue | src/pages/WatchlistPage.jsx:34 | The value of a literal `w.f` is at least the whole part `w` and below `w` + 1. |
| Numbers.IntToStringRoundTrip | src/utils/tmdbApi.js:81 | `id.toString()` of an integer below 10^21 in magnitude coerces back to that integer, negative ids included. |
| Numbers.IntToStringInjective | src/utils/tmdbApi.js:81 | Distinct TMDB ids give distinct `imdbID` strings. |
| Numbers.JsToNumber | src/pages/WatchlistPage.jsx:34-36 | The coercion that subtraction applies to a string: a blank string is 0, and a string of decimal digits is its value. |
| Numbers.UnsignedLiteralIff | src/pages/WatchlistPage.jsx:34 | An unsigned text reads as a number exactly when it is digits with at most one '.' and at least one digit. |
| Numbers.ToNumberDefinedIff | src/pages/WatchlistPage.jsx:34-36 | The coercion gives a number exactly for blank text or an optionally signed decimal literal between white space. Every other text is NaN. |
| Numbers.NotAvailableIsNaN | src/pages/WatchlistPage.jsx:34 | The "N/A" rating coerces to NaN. |
| Numbers.NegativeToNumber | src/pages/WatchlistPage.jsx:34-36 | Digits after a `-` coerce to their value negated. |
| Numbers.PositiveToNumber | src/pages/WatchlistPage.jsx:34-36 | Digits after a `+` coerce to their value. |
| Numbers.ParseDecimal | src/pages/WatchlistPage.jsx:34 | An unsigned literal `w.f` with at least one digit reads as w plus f over 10 to the length of f. |
| Numbers.DecimalToNumber | src/pages/WatchlistPage.jsx:34 | A rating text `w.f` such as "7.2" coerces to its exact decimal value; the double it rounds to is not modelled. |
| Numbers.NegativeDecimalToNumber | src/pages/WatchlistPage.jsx:34 | `-w.f` coerces to the decimal value negated. |
| Numbers.PositiveDecimalToNumber | src/pages/WatchlistPage.jsx:34 | `+w.f` coerces to the decimal value. |
| Sorting.SortPermutation | src/pages/WatchlistPage.jsx:32-36 | Every sorted view holds the same records with the same multiplicities. |
| Sorting.SortSorted | src/pages/WatchlistPage.jsx:32-36 | Every sorted view is ordered by its comparator. |
| Sorting.SortStable | src/pages/WatchlistPage.jsx:32-36 | Records the comparator ties keep their stored relative order. |
| Sorting.SortedWithSameTiesAreEqual | src/pages/WatchlistPage.jsx:32-36 | Two sequences sorted by the comparator with the same ties in the same order are equal. |
| Sorting.AnyStableSortIsStableSort | src/pages/WatchlistPage.jsx:32-36 | Any output that is sorted, with ties in their original order, is the model's sorted view. So the model pins down what `Array.prototype.sort` returns. |
| Watchlist.Contains | src/pages/HomePage.jsx:85 | `some(m => m.imdbID === id)` holds exactly when some record has the id. |
| Watchlist.FindById | index.js:44 | `find` returns the first record with the id, and nothing when none has it. |
| Watchlist.RemoveId | src/pages/WatchlistPage.jsx:23 | The filter leaves no record with the id and never lengthens the list. |
| Watchlist.RemoveIdKeepsOthers | src/pages/WatchlistPage.jsx:23 | The filter keeps every other record as often as it occurs, in its original relative order, and no record with the id. |
| Watchlist.RemoveAbsentIsIdentity | src/pages/WatchlistPage.jsx:23 | Filtering out an id nobody has leaves the list as it was. |
| Watchlist.RemoveIdOnDistinct | src/pages/WatchlistPage.jsx:23 | On a duplicate-free list, filtering out the id of the record at k removes exactly that record. |
| Watchlist.RemovePreservesDistinct | src/pages/WatchlistPage.jsx:23 | Removing keeps the ids pairwise distinct. |
| Watchlist.Toggle | src/pages/HomePage.jsx:85-95 | The id's membership flips. A present id removes its records and keeps every other record. An absent id appends the movie at the end. |
| Watchlist.ToggleTwiceRestores | src/pages/HomePage.jsx:85-94 | Toggling a movie on and off again, starting from a list without its id, gives back the original list. |
| Watchlist.TogglePreservesDistinct | src/pages/MoviePage.jsx:51-59 | Toggling keeps the ids pairwise distinct. |
| Storage.LoadOrEmpty | src/pages/WatchlistPage.jsx:10-11 | A saved key gives its list, and an absent key gives the empty list. |
| Storage.Persist | src/pages/WatchlistPage.jsx:25 | The write stores under the key, adds no other key, and keeps every other key's list. |
| Storage.PersistThenLoad | src/pages/WatchlistPage.jsx:24-25 | After the write, reading the key back gives the list written, and every other key is untouched. |
| WatchlistPage.Init | src/pages/WatchlistPage.jsx:9-12 | The initial list is the saved one, or empty when the key is absent. The sort box starts at "date-added". |
| WatchlistPage.HandleRemove | src/pages/WatchlistPage.jsx:22-27 | Remove drops every record with the id and keeps the others in order. The stored value equals the new list, and other keys are untouched. |
| WatchlistPage.SortedWatchlist | src/pages/WatchlistPage.jsx:29-40 | The "date-added" view and unknown keys give the stored list. The three sort keys give a permutation, sorted by the key's comparator, with ties in stored order. The page state is not changed. |
| WatchlistPage.TitleOrderIsTotalPreorder | src/pages/WatchlistPage.jsx:32 | Comparing records by title is a total preorder whenever the locale's order on titles is one. |
| WatchlistPage.RatingViewDescending | src/pages/WatchlistPage.jsx:34 | In the "rating" view, ratings never increase down the list, and a missing rating counts as 0. |
| WatchlistPage.YearViewDescending | src/pages/WatchlistPage.jsx:36 | In the "year" view, years never increase down the list. |
| WatchlistPage.TitleViewAscending | src/pages/WatchlistPage.jsx:32 | The "title" view is ascending in the locale's title order. |
| WatchlistPage.ViewIsEngineSort | src/pages/WatchlistPage.jsx:29-40 | Whatever stable sort the engine runs with the comparator on exact values, the view it shows is the model's. |
| WatchlistPage.ExampleRatingsParse | src/pages/WatchlistPage.jsx:34 | The ratings "7.2" and "9.0" coerce to 7.2 and 9.0. |
| WatchlistPage.ThreeRatingsOrder | src/pages/WatchlistPage.jsx:34 | Ratings 7.2, missing and 9.0 sort as 9.0, 7.2, missing. |
| WatchlistPage.RatingViewExample | src/pages/WatchlistPage.jsx:34 | A saved list rated "7.2", unrated and "9.0" shows in the "rating" view as the 9.0 movie, the 7.2 movie, then the unrated one. |
| HomePage.Init | src/pages/HomePage.jsx:19-22 | The page starts with an empty search, nothing selected, and the saved list, which is empty when the key is absent. |
| HomePage.FetchSearchResults | src/pages/HomePage.jsx:35-60 | A blank query sends no request and clears the results. A "True" response shows the first min(5, n) hits in order. Any other response clears the results. A thrown error keeps the previous results. |
| HomePage.HandleMovieSelect | src/pages/HomePage.jsx:67-82 | A fetched record goes on top of the selected stack. The search term is cleared and the dropdown hidden. A failed fetch changes nothing. |
| HomePage.HandleWatchlistToggle | src/pages/HomePage.jsx:84-97 | The card's toggle flips membership. A present id removes all its records and keeps the others in order. An absent id appends the movie. The new list is written to "movie-watchlist", other keys are untouched, and the search term, results, dropdown and selected stack are unchanged. |
| HomePage.CardInWatchlist | src/pages/HomePage.jsx:152 | A card is marked as in the watchlist exactly when some saved record has its id. |
| HomePage.ToggleTwiceOnPage | src/pages/HomePage.jsx:84-97 | Two presses of a card's button give back the in-memory list, and the watchlist key then holds that original list. Other keys are not claimed back. |
| MoviePage.Init | src/pages/MoviePage.jsx:21-26 | There is no movie before the reply. The saved list is loaded, or empty when the key is absent. |
| MoviePage.MovieLoaded | src/pages/MoviePage.jsx:34 | The reply sets the movie and leaves the watchlist alone. |
| MoviePage.HandleWatchlistToggle | src/pages/MoviePage.jsx:50-63 | A present id: every record with it is filtered out and the others are kept in order. An absent id: the movie is appended. Either way the full list is written to "movie-watchlist". |
| MoviePage.IsInWatchlist | src/pages/MoviePage.jsx:65 | The flag is false while no movie is loaded. After that, it is true exactly when the movie's id is in the list. |
| MoviePage.ToggleFlipsButton | src/pages/MoviePage.jsx:50-65 | After a toggle the button shows the opposite state. |
| IndexScript.Init | index.js:3-4 | On script load both arrays are empty and the saved list is not read. |
| IndexScript.AddClick | index.js:35-61 | An empty `data-add-movie` value is ignored. A new id appends exactly one record at the end and writes the whole list under "id". A known id changes nothing and reports "already in watchlist". Afterwards a non-empty id is in the list. |
| IndexScript.AddAppendsFirstMatch | index.js:44-45 | The appended record is the first search result with the id. |
| IndexScript.AddPreservesDistinct | index.js:37-45 | Adding keeps the ids pairwise distinct. |
| IndexScript.AddTwiceAddsOnce | index.js:37-58 | A second click on the same button changes nothing. |
| IndexScript.FirstAddDiscardsSavedList | index.js:4 | On a fresh page, the first add replaces a non-empty saved list with a one-record list. |
| IndexScript.InitLoaded | index.js:4 | Script load that first reads the saved list, or an empty one when the key is absent. |
| IndexScript.AddAfterLoadKeepsSaved | index.js:43-46 | With the saved list loaded, an add keeps every saved record and appends the new one. |
| IndexScript.Submit | index.js:11-32 | A response other than "True" shows the not-found message and requests no details. "True" with hits requests the details of each hit in order. "True" without a `Search` array leaves the page unchanged. The input is cleared once a reply arrives. |
| IndexScript.NotFoundIffNotTrue | index.js:22-30 | The not-found message shows exactly when a reply arrives whose response is not "True", and details are requested only after a "True" response. |
| IndexScript.SubmitRequestsEveryHit | index.js:22-23 | After a "True" reply, every hit's id is requested, and every requested id is some hit's id. |
| WatchlistScript.LoadFromStorage | watchlist.js:26-32 | The list saved under "id" is returned. An absent key is an error, the `TypeError` of reading `length` of `null`. |
| WatchlistScript.ContinueAfterSplice | watchlist.js:8-15 | The rest of the `forEach` walk after the first match: the list only loses leading records, and storage keeps equal to memory. |
| WatchlistScript.ContinueDropsOnePerMatch | watchlist.js:8-15 | The rest of the walk drops one leading record for each later match it meets, counting only indices below the shortened length. |
| WatchlistScript.RemoveClickDropsLeading | watchlist.js:5-15 | A click on an id first matched at k drops 1 plus the number of matches from index k + 2 on: the head, then one more leading record per later match the walk meets. |
| WatchlistScript.RemoveClick | watchlist.js:5-23 | An empty `data-remove-movie` value or an absent id changes nothing. A present id leaves a strictly shorter suffix of the list, with storage equal to memory and loadable again. |
| WatchlistScript.RemoveOnDistinctDropsHead | watchlist.js:9-13 | On a duplicate-free list, removing any present id removes exactly one record: the head. |
| WatchlistScript.RemoveKeepsClickedRecord | watchlist.js:11 | Clicking remove on any record but the first keeps that record and drops the first one. |
| WatchlistScript.TripleDuplicateKeepsOne | watchlist.js:8-14 | A record saved three times keeps one copy after one click. The third index lies past the shortened array and is skipped. |
| WatchlistScript.RemoveClickCorrected | watchlist.js:5-15 | The intended remover: an absent id changes nothing. A present id drops all its records and keeps the others in order, and storage can be reloaded to the new list. |
| WatchlistScript.CorrectedRemovesClickedRecord | watchlist.js:9-11 | The intended remover removes the clicked record and only it. |
| Tmdb.GetImageUrl | src/utils/tmdbApi.js:28-31 | An absent or empty path gives `null`. Otherwise the result is the image base URL, "/", the size, then the path. |
| Tmdb.ImageUrlDeterminesPath | src/utils/tmdbApi.js:28-31 | For one size, the URL determines the path. |
| Tmdb.FindDirector | src/utils/tmdbApi.js:88 | The director is the first crew member whose job is Director, and none exists exactly when no crew member has that job. |
| Tmdb.WritingCrew | src/utils/tmdbApi.js:89-91 | The filter keeps only Writer, Screenplay and Story credits. |
| Tmdb.WritingCrewIsOrderedFilter | src/utils/tmdbApi.js:89-91 | The filter keeps every writing credit, in crew order, and nothing else. |
| Tmdb.JoinedOrNA | src/utils/tmdbApi.js:99-105 | An absent list, an empty list or a single empty name gives "N/A". Any other list gives the names joined with ", ". The result is never empty. |
| Tmdb.Writers | src/utils/tmdbApi.js:89-91 | The writers are the first three writing credits, or absent without a crew. |
| Tmdb.Actors | src/utils/tmdbApi.js:92 | The actors are the first five cast members, or absent without a cast. |
| Tmdb.Convert | src/utils/tmdbApi.js:75-126 | A null input gives null. Type is "movie". Title falls back to the original title. Year is the date before the first '-', or "N/A". `imdbID` is exactly `toString` of the id, and coerces back to it. The poster is the medium poster URL. A detailed record has every field populated. |
| Tmdb.DetailsOfPopulated | src/utils/tmdbApi.js:94-122 | Every detailed field holds data or a sentinel, and there is exactly one rating, from TMDB. |
| Tmdb.IdTextRoundTrip | src/utils/tmdbApi.js:81 | The `imdbID` text of an id coerces back to the id. |
| Tmdb.DetailedScalarFields | src/utils/tmdbApi.js:96-116 | Rated is "R" exactly when adult, else "PG-13". Runtime is "<n> min" for nonzero n, else "N/A". Plot falls back to "No plot available.". Awards, Metascore and DVD are "N/A". The single rating is from TMDB. |
| Tmdb.WriterField | src/utils/tmdbApi.js:89-91 | Writer names at most three writing credits, in crew order, joined with ", ", and "N/A" when there are none. |
| Tmdb.ActorsField | src/utils/tmdbApi.js:92-102 | Actors names the first min(5, n) cast members in billing order, joined with ", ", and "N/A" without a cast. |
| Tmdb.DirectorField | src/utils/tmdbApi.js:88-100 | Director is the name of the first crew member whose job is Director. It is "N/A" when there is none or that name is empty. |
| Tmdb.JoinedNamesField | src/utils/tmdbApi.js:99 | A joined name list is "N/A" with no entries or one nameless entry. Otherwise it is the names in order, separated by ", ". |
| Tmdb.DetailedListFields | src/utils/tmdbApi.js:99-119 | Genre, Country and Production join the genre, country and company names with ", ". Each is "N/A" without entries. |
| Tmdb.DetailedTextFields | src/utils/tmdbApi.js:97-120 | Released and Website copy the date and homepage, or are "N/A" when empty. Language is the upper-cased code or "N/A". imdbRating, the TMDB rating "<v>/10", imdbVotes and BoxOffice "$<v>M" come from their values, or are "N/A" without one. |
| Tmdb.ShortFormHasBaseFieldsOnly | src/utils/tmdbApi.js:78-86 | The short form is the detailed form without the detail fields: Title, Year, imdbID, Type and Poster only. |

## Left out

- Network I/O is not modelled: `searchMovies`, `getMovieDetails`, `checkApiStatus` and the OMDb requests in the pages and in `index.js`. Their decoded replies are parameters.
- React hooks, effects, the 500 ms debounce, toast timers, the loading flag and the API-status polling are not modelled. They are event-loop timing, not list logic.
- The `getMoviesInfo` race in `index.js` is not modelled: `allMoviesArray` is assigned before the detail requests finish. That is concurrency. `IndexScript.AddClick` takes the results on screen as given.
- IndexScript.AddClick requires a non-empty id to be in the watchlist or among the results. An id in neither makes the source push `undefined`, and the buttons are only rendered from the results.
- Rendering is not modelled: `renderHtml` in both scripts, `MovieCard`, `SearchDropdown`, `Toast`, `Layout`, `NotFoundPage` and `App`. It is display only.
- Float formatting is not modelled: `toFixed(1)` of `vote_average` and of revenue in millions, and `toLocaleString` of `vote_count`. These fields are non-empty opaque text (`Tmdb.Formatted`), and their digits are not modelled.
- JSON serialisation is not modelled. Storage holds the list itself, so a write followed by a read is the identity.
- `localeCompare` is not modelled. The title order is any total preorder on strings, passed in.
- WatchlistPage.SortedWatchlist: the "rating" and "year" views require every rating and year to coerce to a number. A rating of "N/A" coerces to NaN, which makes the comparator inconsistent, and the engine's order is then implementation-defined.
- Numbers.IntToString: covers integers below 10^21 in magnitude. JavaScript writes larger numbers in exponent form, and integers beyond 2^53 are not exact doubles. TMDB ids and runtimes lie far below both bounds.
- Numbers.JsToNumber: reads a literal as its exact decimal value, not as the nearest double. So "0.1" and "0.10000000000000001", which are the same double in JavaScript and tie in the engine's comparator, are ordered strictly here. A digit string too long for a double is Infinity in JavaScript, and `Infinity - Infinity` is NaN. The sorted views and `WatchlistPage.ViewIsEngineSort` therefore match the engine only for ratings and years that are exact, distinct doubles, such as TMDB's one-decimal ratings and four-digit years.
- Numbers.JsToNumber: does not model exponents, hexadecimal, binary or octal literals, or "Infinity". These give `None`, as NaN does. Such ratings and years are outside the sorted views' precondition.
- Strings.ToUpperAscii: upper-cases ASCII letters only. Full Unicode case mapping of `original_language` is not modelled; TMDB language codes are ASCII.
- A genre, country, company or crew entry without a `name` joins as an empty string, so it is modelled as an empty name.
- Tmdb.DetailedScalarFields: `runtime` is a whole number of minutes. A fractional runtime would print its fraction.
- Where the source leaves a value undefined or throws, the model follows it:
  - `Title` and `imdbID` are `undefined` when the TMDB object lacks them, so they are `Option`s.
  - `Year` can be empty when the date starts with '-'.
  - The `watchlist.js` loader throws on an absent key instead of starting empty.
  - The component pages toggle, so a second add of the same movie removes it.
- A list rated "7.2", "N/A" and "9.0" makes the rating comparator meet NaN; `WatchlistPage.RatingViewExample` uses a missing rating instead, which the source reads as 0.

## Findings

| source | as written | input that shows it | evidently intended | confidence | as-written member | corrected member |
|---|---|---|---|---|---|---|
| watchlist.js:11 | `watchlistArr.splice(movieToRemove, 1)` passes the record as the start index; it coerces to 0, so the head is removed | saved list [A, B]; click remove on B; the saved list becomes [B] | remove the record whose id was clicked, leaving [A] | high, not executed | WatchlistScript.RemoveKeepsClickedRecord | WatchlistScript.RemoveClickCorrected |
| index.js:4 | `watchlistArray` starts as `[]` and is never loaded from storage | "id" holds [A]; reload the search page; add B; "id" becomes [B] | load the saved list first, so "id" becomes [A, B] | medium, not executed | IndexScript.FirstAddDiscardsSavedList | IndexScript.InitLoaded |

`WatchlistScript.CorrectedRemovesClickedRecord` proves the corrected remover takes out exactly the clicked record. `IndexScript.AddAfterLoadKeepsSaved` proves the corrected load keeps every saved record across an add.
