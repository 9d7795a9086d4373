/** The watchlist page of the plain-script front-end (`watchlist.js`): it
    loads the list saved under "id" and removes records from it. */
module WatchlistScript {
  import opened Wrappers
  import opened Movies
  import opened Watchlist
  import opened Seqs
  import opened Storage

  /** `JSON.parse(null).length` throws a TypeError. */
  datatype LoadError = NullHasNoLength

  /** `getMoviesFromLocalStorage`: the list saved under "id"; an absent key
      parses to `null` and reading its length throws. */
  function LoadFromStorage(st: Store): (r: Result<seq<Movie>, LoadError>)
    ensures ScriptKey !in st <==> r.Err?
    ensures r.Ok? ==> r.value == st[ScriptKey]
  {
    if ScriptKey in st then Ok(st[ScriptKey]) else Err(NullHasNoLength)
  }

  /** The page's global `watchlistArr` and the storage behind it. */
  datatype PageState = PageState(watchlist: seq<Movie>, store: Store)

  /** Index of the first record with the id. */
  function FirstIndex(w: seq<Movie>, id: string): (r: Option<nat>)
    ensures r.None? <==> !Contains(w, id)
    ensures r.Some? ==> r.value < |w| && w[r.value].imdbID == id && !Contains(w[..r.value], id)
  {
    if w == [] then None
    else if w[0].imdbID == id then
      assert w[..0] == [];
      Some(0)
    else
      match FirstIndex(w[1..], id)
      case None => None
      case Some(k) =>
        assert w[..k + 1] == [w[0]] + w[1..][..k];
        Some(k + 1)
  }

  /** `a` is what is left of `b` after dropping some leading records. */
  predicate IsSuffix(a: seq<Movie>, b: seq<Movie>) {
    |a| <= |b| && a == b[|b| - |a|..]
  }

  lemma SuffixTransitive(a: seq<Movie>, b: seq<Movie>, c: seq<Movie>)
    requires IsSuffix(a, b)
    requires (c == [] && b == []) || (c != [] && b == c[1..])
    ensures IsSuffix(a, c)
  {
  }

  /** The rest of the `forEach` after its first match. `visited` is the
      array object `forEach` walks, already shortened by the first splice;
      `len` is the length `forEach` fixed at the start, and an index is only
      visited while it is still below the array's current length. Every
      later match runs `watchlistArr.splice(movie, 1)` on the global, which
      by now is the parsed copy: the object start index coerces to 0, so
      the copy loses its head; then the copy is saved and re-parsed. */
  function ContinueAfterSplice(visited: seq<Movie>, j: nat, len: nat, s: PageState, id: string): (r: PageState)
    requires ScriptKey in s.store && s.store[ScriptKey] == s.watchlist
    ensures ScriptKey in r.store && r.store[ScriptKey] == r.watchlist
    ensures r.store.Keys == s.store.Keys
    ensures forall k :: k in s.store && k != ScriptKey ==> r.store[k] == s.store[k]
    ensures IsSuffix(r.watchlist, s.watchlist)
    decreases len - j
  {
    if j >= len then
      assert s.watchlist == s.watchlist[0..];
      s
    else if j < |visited| && visited[j].imdbID == id then
      var w := if s.watchlist == [] then [] else s.watchlist[1..];
      var st := s.store[ScriptKey := w];
      assert st.Keys == s.store.Keys && ScriptKey in st && st[ScriptKey] == w;
      assert forall k :: k in s.store && k != ScriptKey ==> st[k] == s.store[k];
      var r := ContinueAfterSplice(visited, j + 1, len, PageState(w, st), id);
      SuffixTransitive(r.watchlist, w, s.watchlist);
      r
    else ContinueAfterSplice(visited, j + 1, len, s, id)
  }

  /** The remove button's click handler, as written. Nothing happens when
      the `data-remove-movie` value is empty (it is falsy) or no record has
      the id. At the first match `splice(movie, 1)` runs on
      the array `forEach` is walking and removes its head (the object start
      index coerces to 0); the result is saved and re-parsed into a new
      global, and the walk carries on over the shortened original. */
  function RemoveClick(s: PageState, id: string): (r: PageState)
    ensures id == [] || !Contains(s.watchlist, id) ==> r == s
    ensures id != [] && Contains(s.watchlist, id) ==>
      && ScriptKey in r.store && r.store[ScriptKey] == r.watchlist
      && LoadFromStorage(r.store) == Ok(r.watchlist)
      && IsSuffix(r.watchlist, s.watchlist) && |r.watchlist| < |s.watchlist|
    ensures forall k :: k in s.store && k != ScriptKey ==> k in r.store && r.store[k] == s.store[k]
  {
    if id == [] then s
    else match FirstIndex(s.watchlist, id)
    case None => s
    case Some(k) =>
      var visited := s.watchlist[1..];
      var r := ContinueAfterSplice(visited, k + 1, |s.watchlist|, PageState(visited, s.store[ScriptKey := visited]), id);
      SuffixTransitive(r.watchlist, visited, s.watchlist);
      r
  }

  /** When the rest of the walk meets no further match, it changes nothing. */
  lemma {:induction false} ContinueWithoutMatch(visited: seq<Movie>, j: nat, len: nat, s: PageState, id: string)
    requires ScriptKey in s.store && s.store[ScriptKey] == s.watchlist
    requires forall i :: j <= i < |visited| ==> visited[i].imdbID != id
    ensures ContinueAfterSplice(visited, j, len, s, id) == s
    decreases len - j
  {
    if j < len {
      ContinueWithoutMatch(visited, j + 1, len, s, id);
    }
  }

  function Min(a: nat, b: nat): nat {
    if a < b then a else b
  }

  /** The matches the rest of the walk meets: those at indices from `j` on
      that are below both the length `forEach` fixed and the length of the
      shortened array. */
  function MatchesAhead(visited: seq<Movie>, j: nat, len: nat, id: string): nat {
    var end := Min(len, |visited|);
    if j < end then CountId(visited[j..end], id) else 0
  }

  lemma CountIdSliceStep(v: seq<Movie>, j: nat, end: nat, id: string)
    requires j < end <= |v|
    ensures CountId(v[j..end], id) == (if v[j].imdbID == id then 1 else 0) + CountId(v[j + 1..end], id)
  {
    assert v[j..end][0] == v[j];
    assert v[j..end][1..] == v[j + 1..end];
  }

  /** The rest of the walk drops one leading record of the list per match it
      meets, and stops dropping once the list is empty. */
  lemma {:induction false} ContinueDropsOnePerMatch(visited: seq<Movie>, j: nat, len: nat, s: PageState, id: string)
    requires ScriptKey in s.store && s.store[ScriptKey] == s.watchlist
    ensures ContinueAfterSplice(visited, j, len, s, id).watchlist
         == s.watchlist[Min(MatchesAhead(visited, j, len, id), |s.watchlist|)..]
    decreases len - j
  {
    if j >= len {
      assert s.watchlist == s.watchlist[0..];
    } else if j < |visited| && visited[j].imdbID == id {
      var w := if s.watchlist == [] then [] else s.watchlist[1..];
      var st := s.store[ScriptKey := w];
      assert ScriptKey in st && st[ScriptKey] == w;
      var s1 := PageState(w, st);
      ContinueDropsOnePerMatch(visited, j + 1, len, s1, id);
      MatchesAheadStep(visited, j, len, id);
      var n := MatchesAhead(visited, j + 1, len, id);
      assert w[Min(n, |w|)..] == s.watchlist[Min(1 + n, |s.watchlist|)..];
    } else {
      ContinueDropsOnePerMatch(visited, j + 1, len, s, id);
      MatchesAheadStep(visited, j, len, id);
    }
  }

  /** Advancing the walk by one index counts the match at that index, if
      any, out of the matches ahead. */
  lemma MatchesAheadStep(visited: seq<Movie>, j: nat, len: nat, id: string)
    requires j < len
    ensures MatchesAhead(visited, j, len, id)
         == (if j < |visited| && visited[j].imdbID == id then 1 else 0) + MatchesAhead(visited, j + 1, len, id)
  {
    var end := Min(len, |visited|);
    if j < end {
      CountIdSliceStep(visited, j, end, id);
      if j + 1 == end {
        assert visited[j + 1..end] == [];
      }
    }
  }

  /** What one click removes, whatever the list: the head, plus one more
      leading record for every further match from two places after the
      first match on. The record right after the first match is skipped,
      because the splice shifted it into the index the walk has already
      passed. */
  lemma RemoveClickDropsLeading(s: PageState, id: string, k: nat)
    requires id != [] && FirstIndex(s.watchlist, id) == Some(k)
    ensures 1 + CountId(s.watchlist[Min(k + 2, |s.watchlist|)..], id) <= |s.watchlist|
    ensures RemoveClick(s, id).watchlist
         == s.watchlist[1 + CountId(s.watchlist[Min(k + 2, |s.watchlist|)..], id)..]
  {
    var w := s.watchlist;
    var visited := w[1..];
    var s1 := PageState(visited, s.store[ScriptKey := visited]);
    WalkMeetsLaterMatches(w, k, id);
    RemoveClickStartsWalk(s, id);
    ContinueDropsOnePerMatch(visited, k + 1, |w|, s1, id);
    var later := CountId(w[Min(k + 2, |w|)..], id);
    assert visited[Min(later, |visited|)..] == w[1 + later..];
  }

  lemma RemoveClickStartsWalk(s: PageState, id: string)
    requires id != [] && Contains(s.watchlist, id)
    ensures var k := FirstIndex(s.watchlist, id).value;
            var visited := s.watchlist[1..];
            RemoveClick(s, id)
              == ContinueAfterSplice(visited, k + 1, |s.watchlist|, PageState(visited, s.store[ScriptKey := visited]), id)
  {
  }

  /** The walk after the first match at `k` sees the records from `k + 2`
      on, and there are fewer of them than records after the head. */
  lemma WalkMeetsLaterMatches(w: seq<Movie>, k: nat, id: string)
    requires k < |w|
    ensures MatchesAhead(w[1..], k + 1, |w|, id) == CountId(w[Min(k + 2, |w|)..], id)
    ensures CountId(w[Min(k + 2, |w|)..], id) < |w|
  {
    var visited := w[1..];
    var tail := w[Min(k + 2, |w|)..];
    if k + 1 < |visited| {
      assert visited[k + 1..Min(|w|, |visited|)] == tail;
    } else {
      assert tail == [];
    }
  }

  /** On a duplicate-free list, removing a present id removes exactly one
      record: the first one, whichever record was clicked. */
  lemma RemoveOnDistinctDropsHead(s: PageState, id: string)
    requires DistinctIds(s.watchlist) && id != [] && Contains(s.watchlist, id)
    ensures RemoveClick(s, id).watchlist == s.watchlist[1..]
    ensures RemoveClick(s, id).store == s.store[ScriptKey := s.watchlist[1..]]
  {
    var k := FirstIndex(s.watchlist, id).value;
    var visited := s.watchlist[1..];
    forall i | k + 1 <= i < |visited| ensures visited[i].imdbID != id {
      assert visited[i] == s.watchlist[i + 1];
    }
    ContinueWithoutMatch(visited, k + 1, |s.watchlist|, PageState(visited, s.store[ScriptKey := visited]), id);
  }

  /** Clicking remove on any record but the first keeps the clicked record
      and drops the first one instead. */
  lemma RemoveKeepsClickedRecord(s: PageState, k: nat)
    requires DistinctIds(s.watchlist)
    requires 0 < k < |s.watchlist| && s.watchlist[k].imdbID != []
    ensures s.watchlist[k] in RemoveClick(s, s.watchlist[k].imdbID).watchlist
    ensures s.watchlist[0] !in RemoveClick(s, s.watchlist[k].imdbID).watchlist
  {
    var id := s.watchlist[k].imdbID;
    assert Contains(s.watchlist, id);
    RemoveOnDistinctDropsHead(s, id);
    assert s.watchlist[k] == s.watchlist[1..][k - 1];
    forall i | 0 <= i < |s.watchlist[1..]| ensures s.watchlist[1..][i] != s.watchlist[0] {
      assert s.watchlist[1..][i] == s.watchlist[i + 1];
    }
  }

  /** With a record stored three times, one click leaves one copy: the
      second match splices the parsed copy, and the third index is no longer
      below the shortened array's length, so the walk skips it. */
  lemma TripleDuplicateKeepsOne(m: Movie, st: Store)
    requires m.imdbID != []
    ensures RemoveClick(PageState([m, m, m], st), m.imdbID).watchlist == [m]
  {
    var visited := [m, m];
    var s1 := PageState(visited, st[ScriptKey := visited]);
    TripleStartsWalk(m, st);
    SecondMatchSplices(m, visited, s1);
    WalkEndsPastLength(visited, PageState([m], s1.store[ScriptKey := [m]]), m.imdbID);
  }

  lemma TripleStartsWalk(m: Movie, st: Store)
    requires m.imdbID != []
    ensures RemoveClick(PageState([m, m, m], st), m.imdbID)
         == ContinueAfterSplice([m, m], 1, 3, PageState([m, m], st[ScriptKey := [m, m]]), m.imdbID)
  {
    var s := PageState([m, m, m], st);
    MatchAtHeadStartsWalk(s, m.imdbID);
    assert s.watchlist[1..] == [m, m];
  }

  /** A match at the head splices it off and walks on from index 1. */
  lemma MatchAtHeadStartsWalk(s: PageState, id: string)
    requires id != [] && s.watchlist != [] && s.watchlist[0].imdbID == id
    ensures RemoveClick(s, id)
         == ContinueAfterSplice(s.watchlist[1..], 1, |s.watchlist|,
                                PageState(s.watchlist[1..], s.store[ScriptKey := s.watchlist[1..]]), id)
  {
    assert FirstIndex(s.watchlist, id) == Some(0);
  }

  /** Index 2 is past the end of the two-record array the walk now sees. */
  lemma WalkEndsPastLength(visited: seq<Movie>, s: PageState, id: string)
    requires |visited| == 2
    requires ScriptKey in s.store && s.store[ScriptKey] == s.watchlist
    ensures ContinueAfterSplice(visited, 2, 3, s, id) == s
  {
    assert ContinueAfterSplice(visited, 3, 3, s, id) == s;
  }

  lemma SecondMatchSplices(m: Movie, visited: seq<Movie>, s1: PageState)
    requires visited == [m, m] && s1.watchlist == visited
    requires ScriptKey in s1.store && s1.store[ScriptKey] == visited
    ensures ContinueAfterSplice(visited, 1, 3, s1, m.imdbID)
         == ContinueAfterSplice(visited, 2, 3, PageState([m], s1.store[ScriptKey := [m]]), m.imdbID)
  {
    assert s1.watchlist[1..] == [m];
  }

  /** The handler as evidently intended: remove the record with the id
      (the filter the component pages use), saving only when one was found. */
  function RemoveClickCorrected(s: PageState, id: string): (r: PageState)
    ensures id == [] || !Contains(s.watchlist, id) ==> r == s
    ensures id != [] && Contains(s.watchlist, id) ==>
      && !Contains(r.watchlist, id)
      && IsSubsequence(r.watchlist, s.watchlist)
      && (forall m: Movie :: m.imdbID != id ==> multiset(r.watchlist)[m] == multiset(s.watchlist)[m])
      && LoadFromStorage(r.store) == Ok(r.watchlist)
    ensures forall k :: k in s.store && k != ScriptKey ==> k in r.store && r.store[k] == s.store[k]
  {
    if id != [] && Contains(s.watchlist, id) then
      var w := RemoveId(s.watchlist, id);
      RemoveIdKeepsOthers(s.watchlist, id);
      PageState(w, s.store[ScriptKey := w])
    else s
  }

  /** The corrected handler removes the clicked record and only it. */
  lemma CorrectedRemovesClickedRecord(s: PageState, k: nat)
    requires DistinctIds(s.watchlist)
    requires k < |s.watchlist| && s.watchlist[k].imdbID != []
    ensures RemoveClickCorrected(s, s.watchlist[k].imdbID).watchlist == s.watchlist[..k] + s.watchlist[k + 1..]
  {
    assert Contains(s.watchlist, s.watchlist[k].imdbID);
    RemoveIdOnDistinct(s.watchlist, k);
  }
}
