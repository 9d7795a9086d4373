/** The TMDB adapter's pure part (`src/utils/tmdbApi.js`): image URLs and
    the conversion of a TMDB movie object into the OMDb-shaped record the
    pages display. */
module Tmdb {
  import opened Wrappers
  import Strings
  import Numbers
  import opened Seqs

  const ImageBaseUrl: string := "https://image.tmdb.org/t/p"

  /** The `IMAGE_SIZES` entry the adapter uses, `POSTER_MEDIUM`. */
  const PosterMedium: string := "w342"

  const NotAvailable: string := "N/A"

  /** Text that `toFixed`, `toLocaleString` or a template produced from a
      number; those never yield the empty string. Its digits are not
      modelled. */
  type Formatted = s: string | s != [] witness "0"

  datatype Named = Named(name: string)
  datatype CrewMember = CrewMember(name: string, job: string)
  datatype Credits = Credits(crew: Option<seq<CrewMember>>, cast: Option<seq<Named>>)

  /** A TMDB movie object. `None` is an absent (or null) property. `adult`
      reads as false when absent. `runtime` is in whole minutes. The three
      floating-point fields hold their formatted text, `None` when the number
      is falsy (absent, 0 or NaN); `voteCount` is `None` only when absent,
      because 0 formats as "0". */
  datatype TmdbMovie = TmdbMovie(
    title: Option<string>,
    originalTitle: Option<string>,
    releaseDate: Option<string>,
    id: Option<int>,
    posterPath: Option<string>,
    adult: bool,
    runtime: Option<int>,
    genres: Option<seq<Named>>,
    credits: Option<Credits>,
    overview: Option<string>,
    originalLanguage: Option<string>,
    productionCountries: Option<seq<Named>>,
    voteAverage: Option<Formatted>,
    voteCount: Option<Formatted>,
    revenueMillions: Option<Formatted>,
    productionCompanies: Option<seq<Named>>,
    homepage: Option<string>)

  datatype Rating = Rating(source: string, value: string)

  /** The fields only the detailed conversion adds. */
  datatype Details = Details(
    rated: string, released: string, runtime: string, genre: string,
    director: string, writer: string, actors: string, plot: string,
    language: string, country: string, awards: string,
    imdbRating: string, imdbVotes: string, ratings: seq<Rating>,
    metascore: string, dvd: string, boxOffice: string, production: string,
    website: string, response: string)

  /** The OMDb-shaped record. `title` and `imdbID` are `undefined` (`None`)
      when the TMDB object lacks them; `poster` is `null` without a path. */
  datatype OmdbRecord = OmdbRecord(
    title: Option<string>, year: string, imdbID: Option<string>, kind: string,
    poster: Option<string>, details: Option<Details>)

  /** JavaScript truthiness of an optional string. */
  predicate Truthy(s: Option<string>) {
    s.Some? && s.value != []
  }

  /** `x || fallback` on an optional string. */
  function OrElse(s: Option<string>, fallback: string): (r: string)
    ensures Truthy(s) ==> r == s.value
    ensures !Truthy(s) ==> r == fallback
  {
    if Truthy(s) then s.value else fallback
  }

  /** `getImageUrl(path, size)`: `null` for an absent or empty path. */
  function GetImageUrl(path: Option<string>, size: string): (r: Option<string>)
    ensures r.None? <==> !Truthy(path)
    ensures r.Some? ==>
      && |r.value| == |ImageBaseUrl| + 1 + |size| + |path.value|
      && r.value[..|ImageBaseUrl| + 1] == ImageBaseUrl + "/"
      && r.value[|ImageBaseUrl| + 1..] == size + path.value
  {
    if Truthy(path) then
      var u := ImageBaseUrl + "/" + size + path.value;
      assert u[..|ImageBaseUrl| + 1] == ImageBaseUrl + "/";
      assert u[|ImageBaseUrl| + 1..] == size + path.value;
      Some(u)
    else None
  }

  /** For one size, distinct paths give distinct URLs: the path can be read
      back from the URL. */
  lemma ImageUrlDeterminesPath(p: string, q: string, size: string)
    requires GetImageUrl(Some(p), size).Some? && GetImageUrl(Some(p), size) == GetImageUrl(Some(q), size)
    ensures p == q
  {
    var u := GetImageUrl(Some(p), size).value;
    assert size + p == u[|ImageBaseUrl| + 1..] == size + q;
    assert p == (size + p)[|size|..];
    assert q == (size + q)[|size|..];
  }

  predicate IsWriterJob(job: string) {
    job == "Writer" || job == "Screenplay" || job == "Story"
  }

  /** `crew.find(p => p.job === 'Director')`. */
  function FindDirector(crew: seq<CrewMember>): (r: Option<CrewMember>)
    ensures r.None? <==> forall i :: 0 <= i < |crew| ==> crew[i].job != "Director"
    ensures r.Some? ==> exists k :: 0 <= k < |crew| && crew[k] == r.value && r.value.job == "Director"
                          && forall i :: 0 <= i < k ==> crew[i].job != "Director"
  {
    if crew == [] then None
    else if crew[0].job == "Director" then Some(crew[0])
    else
      var r := FindDirector(crew[1..]);
      assert forall i :: 1 <= i < |crew| ==> crew[i] == crew[1..][i - 1];
      if r.Some? then
        var k :| 0 <= k < |crew[1..]| && crew[1..][k] == r.value && r.value.job == "Director"
                 && forall i :: 0 <= i < k ==> crew[1..][i].job != "Director";
        assert crew[k + 1] == r.value;
        r
      else r
  }

  /** `crew.filter(p => p.job is Writer, Screenplay or Story)`. */
  function WritingCrew(crew: seq<CrewMember>): (r: seq<CrewMember>)
    ensures forall i :: 0 <= i < |r| ==> IsWriterJob(r[i].job)
    ensures |r| <= |crew|
  {
    if crew == [] then []
    else if IsWriterJob(crew[0].job) then [crew[0]] + WritingCrew(crew[1..])
    else WritingCrew(crew[1..])
  }

  /** The number of writing credits in `crew`. */
  function CountWriters(crew: seq<CrewMember>): nat {
    if crew == [] then 0 else (if IsWriterJob(crew[0].job) then 1 else 0) + CountWriters(crew[1..])
  }

  /** The filter keeps every writing credit, in crew order, and no other. */
  lemma {:induction false} WritingCrewIsOrderedFilter(crew: seq<CrewMember>)
    ensures |WritingCrew(crew)| == CountWriters(crew)
    ensures IsSubsequence(WritingCrew(crew), crew)
    ensures forall k :: 0 <= k < |crew| && IsWriterJob(crew[k].job) ==> crew[k] in WritingCrew(crew)
  {
    if crew != [] {
      WritingCrewIsOrderedFilter(crew[1..]);
      var r := WritingCrew(crew);
      if !IsWriterJob(crew[0].job) && r != [] {
        assert r[0] != crew[0];
      }
      forall k | 0 <= k < |crew| && IsWriterJob(crew[k].job) ensures crew[k] in r {
        if k > 0 {
          assert crew[k] == crew[1..][k - 1];
        }
      }
    }
  }

  function NameOf(n: Named): string {
    n.name
  }

  function CrewNameOf(c: CrewMember): string {
    c.name
  }

  /** `map(x => x.name)`, for any record with a name. */
  function Names<T>(xs: seq<T>, nameOf: T -> string): (r: seq<string>)
    ensures |r| == |xs| && forall i :: 0 <= i < |xs| ==> r[i] == nameOf(xs[i])
  {
    if xs == [] then [] else [nameOf(xs[0])] + Names(xs[1..], nameOf)
  }

  /** `list?.map(x => x.name).join(', ') || 'N/A'`. */
  function JoinedOrNA(names: Option<seq<string>>): (r: string)
    ensures r != []
    ensures names.None? ==> r == NotAvailable
    ensures names.Some? && names.value != [] && names.value != [[]] ==> r == Strings.Join(names.value, ", ")
    ensures names.Some? && (names.value == [] || names.value == [[]]) ==> r == NotAvailable
  {
    match names
    case None => NotAvailable
    case Some(ns) =>
      Strings.JoinEmptyIff(ns, ", ");
      if Strings.Join(ns, ", ") == [] then NotAvailable else Strings.Join(ns, ", ")
  }

  /** The up-to-three writing credits: `credits?.crew?.filter(...).slice(0, 3)`. */
  function Writers(m: TmdbMovie): (r: Option<seq<CrewMember>>)
    ensures r.None? <==> m.credits.None? || m.credits.value.crew.None?
    ensures r.Some? ==> r.value == Take(WritingCrew(m.credits.value.crew.value), 3)
  {
    match m.credits
    case None => None
    case Some(c) =>
      match c.crew
      case None => None
      case Some(crew) => Some(Take(WritingCrew(crew), 3))
  }

  /** The up-to-five billed actors: `credits?.cast?.slice(0, 5)`. */
  function Actors(m: TmdbMovie): (r: Option<seq<Named>>)
    ensures r.None? <==> m.credits.None? || m.credits.value.cast.None?
    ensures r.Some? ==> r.value == Take(m.credits.value.cast.value, 5)
  {
    match m.credits
    case None => None
    case Some(c) => match c.cast
      case None => None
      case Some(cast) => Some(Take(cast, 5))
  }

  function DirectorName(m: TmdbMovie): string {
    match m.credits
    case None => NotAvailable
    case Some(c) =>
      match c.crew
      case None => NotAvailable
      case Some(crew) =>
        match FindDirector(crew)
        case None => NotAvailable
        case Some(d) => OrElse(Some(d.name), NotAvailable)
  }

  function MapNames(xs: Option<seq<Named>>): Option<seq<string>> {
    match xs
    case None => None
    case Some(ns) => Some(Names(ns, NameOf))
  }

  function Release(m: TmdbMovie): string {
    if Truthy(m.releaseDate) then Strings.PrefixBefore(m.releaseDate.value, '-') else NotAvailable
  }

  function BaseRecord(m: TmdbMovie): OmdbRecord {
    OmdbRecord(
      if Truthy(m.title) then m.title else m.originalTitle,
      Release(m),
      match m.id case None => None case Some(n) => Some(Numbers.IntToString(n)),
      "movie",
      GetImageUrl(m.posterPath, PosterMedium),
      None)
  }

  function DetailsOf(m: TmdbMovie): Details {
    var writers := Writers(m);
    var actors := Actors(m);
    Details(
      if m.adult then "R" else "PG-13",
      OrElse(m.releaseDate, NotAvailable),
      match m.runtime
        case Some(n) => if n != 0 then Numbers.IntToString(n) + " min" else NotAvailable
        case None => NotAvailable,
      JoinedOrNA(MapNames(m.genres)),
      DirectorName(m),
      JoinedOrNA(match writers case None => None case Some(ws) => Some(Names(ws, CrewNameOf))),
      JoinedOrNA(MapNames(actors)),
      OrElse(m.overview, "No plot available."),
      match m.originalLanguage
        case None => NotAvailable
        case Some(l) => OrElse(Some(Strings.ToUpperAscii(l)), NotAvailable),
      JoinedOrNA(MapNames(m.productionCountries)),
      NotAvailable,
      match m.voteAverage case Some(v) => v case None => NotAvailable,
      match m.voteCount case Some(v) => v case None => NotAvailable,
      [Rating("TMDB", match m.voteAverage case Some(v) => v + "/10" case None => NotAvailable)],
      NotAvailable,
      NotAvailable,
      match m.revenueMillions case Some(v) => "$" + v + "M" case None => NotAvailable,
      JoinedOrNA(MapNames(m.productionCompanies)),
      OrElse(m.homepage, NotAvailable),
      "True")
  }

  /** Every text field of a detailed record holds data or a sentinel, never
      nothing, and there is exactly one rating entry, from TMDB. */
  predicate DetailsPopulated(d: Details) {
    && d.rated != [] && d.released != [] && d.runtime != [] && d.genre != []
    && d.director != [] && d.writer != [] && d.actors != [] && d.plot != []
    && d.language != [] && d.country != [] && d.awards != []
    && d.imdbRating != [] && d.imdbVotes != []
    && |d.ratings| == 1 && d.ratings[0].source == "TMDB" && d.ratings[0].value != []
    && d.metascore != [] && d.dvd != [] && d.boxOffice != [] && d.production != []
    && d.website != [] && d.response != []
  }

  /** `convertTmdbToOmdbFormat(tmdbMovie, isDetailed)`. */
  function Convert(input: Option<TmdbMovie>, isDetailed: bool): (r: Option<OmdbRecord>)
    ensures input.None? <==> r.None?
    ensures r.Some? ==> r.value.kind == "movie" && (r.value.details.Some? <==> isDetailed)
    ensures r.Some? && Truthy(input.value.title) ==> r.value.title == input.value.title
    ensures r.Some? && !Truthy(input.value.title) ==> r.value.title == input.value.originalTitle
    ensures r.Some? && Truthy(input.value.releaseDate) ==>
      var date := input.value.releaseDate.value;
      && |r.value.year| <= |date|
      && r.value.year == date[..|r.value.year|]
      && '-' !in r.value.year
      && (|r.value.year| < |date| ==> date[|r.value.year|] == '-')
    ensures r.Some? && !Truthy(input.value.releaseDate) ==> r.value.year == NotAvailable
    ensures r.Some? ==> (r.value.imdbID.None? <==> input.value.id.None?)
    ensures r.Some? && input.value.id.Some? ==>
      && r.value.imdbID == Some(Numbers.IntToString(input.value.id.value))
      && Numbers.JsToNumber(r.value.imdbID.value) == Some(input.value.id.value as real)
    ensures r.Some? ==> r.value.poster == GetImageUrl(input.value.posterPath, PosterMedium)
    ensures r.Some? && isDetailed ==> DetailsPopulated(r.value.details.value)
  {
    match input
    case None => None
    case Some(m) =>
      IdTextRoundTrip(m);
      DetailsOfPopulated(m);
      var base := BaseRecord(m);
      if isDetailed then Some(base.(details := Some(DetailsOf(m)))) else Some(base)
  }

  lemma DetailsOfPopulated(m: TmdbMovie)
    ensures DetailsPopulated(DetailsOf(m))
  {
    var d := DetailsOf(m);
    assert d.runtime != [] by {
      if m.runtime.Some? && m.runtime.value != 0 {
        assert |Numbers.IntToString(m.runtime.value) + " min"| > 0;
      }
    }
    assert d.language != [] && d.director != [];
    assert d.imdbRating != [] && d.imdbVotes != [];
    assert d.boxOffice != [] by {
      if m.revenueMillions.Some? {
        assert |"$" + m.revenueMillions.value + "M"| > 0;
      }
    }
    assert d.ratings[0].value != [] by {
      if m.voteAverage.Some? {
        assert |m.voteAverage.value + "/10"| > 0;
      }
    }
  }

  lemma IdTextRoundTrip(m: TmdbMovie)
    ensures m.id.Some? ==> Numbers.JsToNumber(Numbers.IntToString(m.id.value)) == Some(m.id.value as real)
  {
    if m.id.Some? {
      Numbers.IntToStringRoundTrip(m.id.value);
    }
  }

  /** The detailed fields that do not come from lists. */
  lemma DetailedScalarFields(m: TmdbMovie)
    ensures var d := Convert(Some(m), true).value.details.value;
      && (d.rated == "R" <==> m.adult)
      && (d.rated == "PG-13" <==> !m.adult)
      && d.awards == NotAvailable && d.metascore == NotAvailable && d.dvd == NotAvailable
      && d.ratings[0].source == "TMDB"
      && (Truthy(m.overview) ==> d.plot == m.overview.value)
      && (!Truthy(m.overview) ==> d.plot == "No plot available.")
      && (m.runtime.None? || m.runtime.value == 0 ==> d.runtime == NotAvailable)
      && (m.runtime.Some? && m.runtime.value != 0 ==>
            && d.runtime == Numbers.IntToString(m.runtime.value) + " min"
            && Numbers.JsToNumber(d.runtime[..|d.runtime| - 4]) == Some(m.runtime.value as real))
  {
    if m.runtime.Some? && m.runtime.value != 0 {
      var text := Numbers.IntToString(m.runtime.value);
      assert (text + " min")[..|text + " min"| - 4] == text;
      Numbers.IntToStringRoundTrip(m.runtime.value);
    }
  }

  /** `list?.map(x => x.name).join(', ') || 'N/A'` as the output shows it:
      "N/A" without entries or with one nameless entry, otherwise the names
      in order between ", ". */
  predicate NamesJoinedOrNA(xs: Option<seq<Named>>, text: string) {
    && (xs.None? || xs.value == [] || (|xs.value| == 1 && xs.value[0].name == []) ==> text == NotAvailable)
    && (xs.Some? && (|xs.value| >= 2 || (|xs.value| == 1 && xs.value[0].name != [])) ==>
          text == Strings.Join(Names(xs.value, NameOf), ", "))
  }

  lemma JoinedNamesField(xs: Option<seq<Named>>)
    ensures NamesJoinedOrNA(xs, JoinedOrNA(MapNames(xs)))
  {
    if xs.Some? && |xs.value| == 1 {
      assert Names(xs.value, NameOf) == [xs.value[0].name];
    }
  }

  /** `Genre`, `Country` and `Production` join the genre, country and
      company names with ", ", and are "N/A" without any. */
  lemma DetailedListFields(m: TmdbMovie)
    ensures var d := Convert(Some(m), true).value.details.value;
      && NamesJoinedOrNA(m.genres, d.genre)
      && NamesJoinedOrNA(m.productionCountries, d.country)
      && NamesJoinedOrNA(m.productionCompanies, d.production)
  {
    JoinedNamesField(m.genres);
    JoinedNamesField(m.productionCountries);
    JoinedNamesField(m.productionCompanies);
  }

  /** The detailed fields copied from a TMDB value, or "N/A" without one:
      `Released`, `Website`, the upper-cased `Language`, the vote average
      behind `imdbRating` and the TMDB rating, `imdbVotes` and `BoxOffice`. */
  lemma DetailedTextFields(m: TmdbMovie)
    ensures var d := Convert(Some(m), true).value.details.value;
      && (Truthy(m.releaseDate) ==> d.released == m.releaseDate.value)
      && (!Truthy(m.releaseDate) ==> d.released == NotAvailable)
      && (Truthy(m.homepage) ==> d.website == m.homepage.value)
      && (!Truthy(m.homepage) ==> d.website == NotAvailable)
      && (Truthy(m.originalLanguage) ==> d.language == Strings.ToUpperAscii(m.originalLanguage.value))
      && (!Truthy(m.originalLanguage) ==> d.language == NotAvailable)
    ensures var d := Convert(Some(m), true).value.details.value;
      && (m.voteAverage.Some? ==>
            d.imdbRating == m.voteAverage.value && d.ratings[0].value == m.voteAverage.value + "/10")
      && (m.voteAverage.None? ==> d.imdbRating == NotAvailable && d.ratings[0].value == NotAvailable)
      && (m.voteCount.Some? ==> d.imdbVotes == m.voteCount.value)
      && (m.voteCount.None? ==> d.imdbVotes == NotAvailable)
      && (m.revenueMillions.Some? ==> d.boxOffice == "$" + m.revenueMillions.value + "M")
      && (m.revenueMillions.None? ==> d.boxOffice == NotAvailable)
  {
  }

  /** `Writer` names only writing credits (Writer, Screenplay, Story), at
      most three, in crew order, joined with ", "; "N/A" without credits. */
  lemma WriterField(m: TmdbMovie)
    ensures var d := Convert(Some(m), true).value.details.value;
      m.credits.None? || m.credits.value.crew.None? ==> d.writer == NotAvailable
    ensures m.credits.Some? && m.credits.value.crew.Some? ==>
      var crew := m.credits.value.crew.value;
      var ws := Writers(m).value;
      var d := Convert(Some(m), true).value.details.value;
      && |ws| == (if CountWriters(crew) < 3 then CountWriters(crew) else 3)
      && IsSubsequence(ws, crew)
      && (forall i :: 0 <= i < |ws| ==> IsWriterJob(ws[i].job))
      && (ws == [] ==> d.writer == NotAvailable)
      && (|ws| >= 2 || (|ws| == 1 && ws[0].name != []) ==> d.writer == Strings.Join(Names(ws, CrewNameOf), ", "))
  {
    if m.credits.Some? && m.credits.value.crew.Some? {
      var crew := m.credits.value.crew.value;
      WritingCrewIsOrderedFilter(crew);
      var all := WritingCrew(crew);
      var ws := Writers(m).value;
      PrefixOfSubsequence(all, crew, |ws|);
      var names := Names(ws, CrewNameOf);
      assert |ws| == 1 ==> names == [ws[0].name];
    }
  }

  /** `Actors` names the first five cast members at most, in billing order;
      "N/A" without a cast. */
  lemma ActorsField(m: TmdbMovie)
    ensures var d := Convert(Some(m), true).value.details.value;
      m.credits.None? || m.credits.value.cast.None? || m.credits.value.cast.value == [] ==> d.actors == NotAvailable
    ensures m.credits.Some? && m.credits.value.cast.Some? ==>
      var cast := m.credits.value.cast.value;
      var shown := Actors(m).value;
      var d := Convert(Some(m), true).value.details.value;
      && |shown| == (if |cast| < 5 then |cast| else 5)
      && shown == cast[..|shown|]
      && (|shown| >= 2 || (|shown| == 1 && shown[0].name != []) ==> d.actors == Strings.Join(Names(shown, NameOf), ", "))
  {
    if m.credits.Some? && m.credits.value.cast.Some? {
      var shown := Actors(m).value;
      assert |shown| == 1 ==> Names(shown, NameOf) == [shown[0].name];
    }
  }

  /** `Director` is the name of the first crew member whose job is Director,
      "N/A" when there is none or that name is empty. */
  lemma DirectorField(m: TmdbMovie)
    ensures var d := Convert(Some(m), true).value.details.value;
      && (m.credits.None? || m.credits.value.crew.None? ==> d.director == NotAvailable)
      && (m.credits.Some? && m.credits.value.crew.Some? ==>
            var crew := m.credits.value.crew.value;
            && ((forall i :: 0 <= i < |crew| ==> crew[i].job != "Director") ==> d.director == NotAvailable)
            && (forall k ::
                  (0 <= k < |crew| && crew[k].job == "Director"
                   && (forall i :: 0 <= i < k ==> crew[i].job != "Director"))
                  ==> d.director == (if crew[k].name != [] then crew[k].name else NotAvailable)))
  {
    if m.credits.Some? && m.credits.value.crew.Some? {
      var crew := m.credits.value.crew.value;
      forall k | 0 <= k < |crew| && crew[k].job == "Director"
                  && (forall i :: 0 <= i < k ==> crew[i].job != "Director")
        ensures DirectorName(m) == (if crew[k].name != [] then crew[k].name else NotAvailable)
      {
        var f := FindDirector(crew);
        var j :| 0 <= j < |crew| && crew[j] == f.value && f.value.job == "Director"
                 && forall i :: 0 <= i < j ==> crew[i].job != "Director";
        assert j == k;
      }
    }
  }

  /** The short form carries only the base fields. */
  lemma ShortFormHasBaseFieldsOnly(m: TmdbMovie)
    ensures Convert(Some(m), false).value.details.None?
    ensures Convert(Some(m), false).value == Convert(Some(m), true).value.(details := None)
  {
  }
}
