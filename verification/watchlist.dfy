/** The list operations the pages perform on a watchlist: an ordered
    sequence of movie records identified by `imdbID`. */
module Watchlist {
  import opened Wrappers
  import opened Movies
  import opened Seqs

  /** `w.some(m => m.imdbID === id)`. */
  function Contains(w: seq<Movie>, id: string): (r: bool)
    ensures r <==> exists i :: 0 <= i < |w| && w[i].imdbID == id
  {
    if w == [] then false
    else if w[0].imdbID == id then true
    else
      var r := Contains(w[1..], id);
      assert forall i :: 1 <= i < |w| ==> w[i] == w[1..][i - 1];
      r
  }

  /** How many records carry the id. */
  function CountId(w: seq<Movie>, id: string): (r: nat)
    ensures r <= |w|
    ensures r == 0 <==> !Contains(w, id)
  {
    if w == [] then 0
    else (if w[0].imdbID == id then 1 else 0) + CountId(w[1..], id)
  }

  /** `w.find(m => m.imdbID === id)`: the first record with that id. */
  function FindById(w: seq<Movie>, id: string): (r: Option<Movie>)
    ensures r.None? <==> !Contains(w, id)
    ensures r.Some? ==> exists k :: 0 <= k < |w| && w[k] == r.value && r.value.imdbID == id
                                    && !Contains(w[..k], id)
  {
    if w == [] then None
    else if w[0].imdbID == id then
      assert w[..0] == [];
      Some(w[0])
    else
      var r := FindById(w[1..], id);
      if r.Some? then
        var k :| 0 <= k < |w[1..]| && w[1..][k] == r.value && r.value.imdbID == id && !Contains(w[1..][..k], id);
        assert w[..k + 1] == [w[0]] + w[1..][..k];
        r
      else r
  }

  /** No two records share an `imdbID`. */
  ghost predicate DistinctIds(w: seq<Movie>) {
    forall i, j :: 0 <= i < j < |w| ==> w[i].imdbID != w[j].imdbID
  }

  /** `w.filter(m => m.imdbID !== id)`. */
  function RemoveId(w: seq<Movie>, id: string): (r: seq<Movie>)
    ensures |r| <= |w|
    ensures !Contains(r, id)
  {
    if w == [] then []
    else if w[0].imdbID == id then RemoveId(w[1..], id)
    else [w[0]] + RemoveId(w[1..], id)
  }

  /** The filter keeps every record whose id differs, as often as it
      occurs and in the original relative order, and nothing else. */
  lemma {:induction false} RemoveIdKeepsOthers(w: seq<Movie>, id: string)
    ensures IsSubsequence(RemoveId(w, id), w)
    ensures forall m: Movie :: m.imdbID != id ==> multiset(RemoveId(w, id))[m] == multiset(w)[m]
    ensures forall m: Movie :: m.imdbID == id ==> multiset(RemoveId(w, id))[m] == 0
  {
    if w != [] {
      RemoveIdKeepsOthers(w[1..], id);
      var rest := RemoveId(w[1..], id);
      assert w == [w[0]] + w[1..];
      if w[0].imdbID == id {
        assert IsSubsequence(rest, w) by {
          if rest != [] { assert rest[0] != w[0]; }
        }
      }
    }
  }

  /** Filtering a list that has no record with the id changes nothing. */
  lemma {:induction false} RemoveAbsentIsIdentity(w: seq<Movie>, id: string)
    requires !Contains(w, id)
    ensures RemoveId(w, id) == w
  {
    if w != [] {
      RemoveAbsentIsIdentity(w[1..], id);
    }
  }

  lemma {:induction false} RemoveIdAppend(a: seq<Movie>, b: seq<Movie>, id: string)
    ensures RemoveId(a + b, id) == RemoveId(a, id) + RemoveId(b, id)
  {
    if a != [] {
      RemoveIdAppend(a[1..], b, id);
      assert (a + b)[1..] == a[1..] + b;
    } else {
      assert a + b == b;
    }
  }

  /** On a duplicate-free list, filtering out the id of the record at `k`
      removes exactly that record. */
  lemma {:induction false} RemoveIdOnDistinct(w: seq<Movie>, k: nat)
    requires DistinctIds(w)
    requires k < |w|
    ensures RemoveId(w, w[k].imdbID) == w[..k] + w[k + 1..]
  {
    var id := w[k].imdbID;
    var before, after := w[..k], w[k + 1..];
    OthersLackId(w, k);
    assert w == before + [w[k]] + after;
    RemoveOnlyHolder(before, w[k], after);
  }

  /** Filtering out the id of the one record that has it leaves the records
      around it. */
  lemma RemoveOnlyHolder(before: seq<Movie>, m: Movie, after: seq<Movie>)
    requires !Contains(before, m.imdbID) && !Contains(after, m.imdbID)
    ensures RemoveId(before + [m] + after, m.imdbID) == before + after
  {
    var id := m.imdbID;
    assert [m][1..] == [];
    assert RemoveId([m], id) == [];
    RemoveIdAppend(before, [m], id);
    RemoveAbsentIsIdentity(before, id);
    assert RemoveId(before + [m], id) == before;
    RemoveIdAppend(before + [m], after, id);
    RemoveAbsentIsIdentity(after, id);
  }

  /** On a duplicate-free list, no record before or after `k` carries the id
      of the record at `k`. */
  lemma OthersLackId(w: seq<Movie>, k: nat)
    requires DistinctIds(w)
    requires k < |w|
    ensures !Contains(w[..k], w[k].imdbID) && !Contains(w[k + 1..], w[k].imdbID)
  {
    var before, after := w[..k], w[k + 1..];
    assert forall i :: 0 <= i < |before| ==> before[i] == w[i];
    assert forall i :: 0 <= i < |after| ==> after[i] == w[k + 1 + i];
  }

  lemma RemovePreservesDistinct(w: seq<Movie>, id: string)
    requires DistinctIds(w)
    ensures DistinctIds(RemoveId(w, id))
  {
    RemoveIdKeepsOthers(w, id);
    DistinctSubsequence(RemoveId(w, id), w);
  }

  lemma {:induction false} DistinctSubsequence(a: seq<Movie>, b: seq<Movie>)
    requires IsSubsequence(a, b) && DistinctIds(b)
    ensures DistinctIds(a)
    decreases |b|
  {
    if a != [] && b != [] {
      if a[0] == b[0] {
        DistinctSubsequence(a[1..], b[1..]);
        SubsequenceElements(a[1..], b[1..]);
        forall j | 0 < j < |a| ensures a[0].imdbID != a[j].imdbID {
          assert a[j] == a[1..][j - 1];
          assert a[j] in a[1..];
          var n :| 0 <= n < |b[1..]| && b[1..][n] == a[j];
          assert b[n + 1] == a[j];
        }
      } else {
        DistinctSubsequence(a, b[1..]);
      }
    }
  }

  /** The pages' watchlist button: drop every record with the movie's id
      when one is there, otherwise append the movie. */
  function Toggle(w: seq<Movie>, m: Movie): (r: seq<Movie>)
    ensures Contains(r, m.imdbID) <==> !Contains(w, m.imdbID)
    ensures Contains(w, m.imdbID) ==>
      && IsSubsequence(r, w)
      && (forall x: Movie :: x.imdbID != m.imdbID ==> multiset(r)[x] == multiset(w)[x])
    ensures !Contains(w, m.imdbID) ==> |r| == |w| + 1 && r[..|w|] == w && r[|w|] == m
  {
    if Contains(w, m.imdbID) then
      RemoveIdKeepsOthers(w, m.imdbID);
      RemoveId(w, m.imdbID)
    else
      assert Contains(w + [m], m.imdbID) by { assert (w + [m])[|w|] == m; }
      w + [m]
  }

  /** Toggling a movie on and then off restores the list it started from. */
  lemma ToggleTwiceRestores(w: seq<Movie>, m: Movie)
    requires !Contains(w, m.imdbID)
    ensures Toggle(Toggle(w, m), m) == w
  {
    RemoveIdAppend(w, [m], m.imdbID);
    RemoveAbsentIsIdentity(w, m.imdbID);
  }

  /** Toggling keeps the ids of a duplicate-free list distinct. */
  lemma TogglePreservesDistinct(w: seq<Movie>, m: Movie)
    requires DistinctIds(w)
    ensures DistinctIds(Toggle(w, m))
  {
    if Contains(w, m.imdbID) {
      RemovePreservesDistinct(w, m.imdbID);
    }
  }
}
