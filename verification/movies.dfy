/** The movie records the pages keep, in the shape the OMDb API returns
    them, and the search reply they come in. */
module Movies {
  import opened Wrappers

  /** A movie record keyed by `imdbID`. `title`, `year` and `imdbRating`
      are the fields the watchlist logic reads; every other property of the
      JSON object (Poster, Plot, Ratings, ...) is carried along unread. */
  datatype Movie = Movie(
    imdbID: string,
    title: string,
    year: string,
    imdbRating: Option<string>,
    other: map<string, string>)

  /** A decoded OMDb search reply: the `Response` flag and, when present,
      the `Search` array. */
  datatype SearchReply = SearchReply(response: string, search: Option<seq<Movie>>)
}
