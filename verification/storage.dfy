/** Browser local storage as far as the pages use it: one key holding the
    whole watchlist. Serialising to JSON and parsing back is taken to be the
    identity, so a key maps straight to the list. */
module Storage {
  import opened Movies

  type Store = map<string, seq<Movie>>

  /** The key the component pages use. */
  const ReactKey: string := "movie-watchlist"
  /** The key the plain scripts use. */
  const ScriptKey: string := "id"

  /** `saved ? JSON.parse(saved) : []`: an absent key reads as an empty list. */
  function LoadOrEmpty(st: Store, key: string): (r: seq<Movie>)
    ensures key !in st ==> r == []
    ensures key in st ==> r == st[key]
  {
    if key in st then st[key] else []
  }

  /** `localStorage.setItem(key, JSON.stringify(w))`. */
  function Persist(st: Store, key: string, w: seq<Movie>): (r: Store)
    ensures r.Keys == st.Keys + {key}
    ensures forall k :: k in st && k != key ==> r[k] == st[k]
  {
    st[key := w]
  }

  /** Reading a key back after writing it gives the list that was written,
      and the other keys keep their contents. */
  lemma PersistThenLoad(st: Store, key: string, w: seq<Movie>, other: string)
    ensures LoadOrEmpty(Persist(st, key, w), key) == w
    ensures other != key ==> LoadOrEmpty(Persist(st, key, w), other) == LoadOrEmpty(st, other)
  {
  }
}
