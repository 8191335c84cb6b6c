/**
  `get_recommendations` without its printing: the favourite genre of the
  user's watched history, the library's shows of that genre that are neither
  watched nor on the watchlist (by lower-cased title), sorted by rating in
  reverse and cut to `limit` with Python's slice semantics.
*/
module Recommendations {
  import opened Wrappers
  import opened Shows
  import opened History
  import opened Statistics

  /** `{show.title.lower() for show in user.watched.keys()}` */
  function WatchedTitles(es: seq<Entry>): set<string>
  {
    set i | 0 <= i < |es| :: es[i].show.IdentityKey()
  }

  /** `{show.title.lower() for show in user.watchlist}` */
  function ListedTitles(list: seq<Show>): set<string>
  {
    set i | 0 <= i < |list| :: list[i].IdentityKey()
  }

  /** The title sets answer exactly the identity questions `Watched` and `Listed`. */
  lemma TitleSets(es: seq<Entry>, list: seq<Show>, x: Show)
    ensures x.IdentityKey() in WatchedTitles(es) <==> Watched(es, x)
    ensures x.IdentityKey() in ListedTitles(list) <==> Listed(list, x)
  {
    if x.IdentityKey() in WatchedTitles(es) {
      var i :| 0 <= i < |es| && es[i].show.IdentityKey() == x.IdentityKey();
      assert es[i].show.SameShow(x);
    }
    if x.IdentityKey() in ListedTitles(list) {
      var i :| 0 <= i < |list| && list[i].IdentityKey() == x.IdentityKey();
      assert list[i].SameShow(x);
    }
  }

  /** The filter of the comprehension over `_shows.values()`. */
  predicate Keeps(x: Show, genre: string, watched: set<string>, listed: set<string>)
  {
    x.genre == genre && x.IdentityKey() !in watched && x.IdentityKey() !in listed
  }

  /** `[show for show in library if ...]`, in library order. */
  function Candidates(library: seq<Show>, genre: string, watched: set<string>, listed: set<string>): (c: seq<Show>)
    ensures forall y :: y in c ==> y in library && Keeps(y, genre, watched, listed)
  {
    if library == [] then []
    else
      var rest := Candidates(library[1..], genre, watched, listed);
      (if Keeps(library[0], genre, watched, listed) then [library[0]] else []) + rest
  }

  /** The comprehension keeps every passing show as often as the library holds it, and no other. */
  lemma {:induction false} CandidatesSpec(library: seq<Show>, genre: string, watched: set<string>, listed: set<string>)
    ensures forall x: Show :: multiset(Candidates(library, genre, watched, listed))[x]
                              == if Keeps(x, genre, watched, listed) then multiset(library)[x] else 0
  {
    if library != [] {
      CandidatesSpec(library[1..], genre, watched, listed);
      assert library == [library[0]] + library[1..];
    }
  }

  /** The comprehension keeps the library's order: it distributes over concatenation. */
  lemma {:induction false} CandidatesConcat(a: seq<Show>, b: seq<Show>, genre: string, watched: set<string>, listed: set<string>)
    ensures Candidates(a + b, genre, watched, listed) == Candidates(a, genre, watched, listed) + Candidates(b, genre, watched, listed)
  {
    if a == [] {
      assert a + b == b;
    } else {
      assert (a + b)[0] == a[0];
      assert (a + b)[1..] == a[1..] + b;
      CandidatesConcat(a[1..], b, genre, watched, listed);
    }
  }

  /** Where `s[:limit]` stops in a list of length `n`: a negative limit counts back from the end. */
  function SliceEnd(n: nat, limit: int): (e: nat)
    ensures e <= n
  {
    if limit >= 0 then (if limit <= n then limit else n)
    else if n + limit >= 0 then n + limit
    else 0
  }

  /** `s[:limit]` */
  function PyPrefix<T>(s: seq<T>, limit: int): seq<T>
  {
    s[..SliceEnd(|s|, limit)]
  }

  /** The shows of the favourite genre the user has neither watched nor listed. */
  function Unseen(watched: seq<Entry>, watchlist: seq<Show>, library: seq<Show>, genre: string): seq<Show>
  {
    Candidates(library, genre, WatchedTitles(watched), ListedTitles(watchlist))
  }

  /** What `get_recommendations` lists for a user with these collections. */
  function Recommend(watched: seq<Entry>, watchlist: seq<Show>, library: seq<Show>, limit: int): seq<Show>
    reads set y | y in library
  {
    match FavouriteGenre(watched)
    case None => []
    case Some(g) => PyPrefix(SortByRatingDesc(Unseen(watched, watchlist, library, g)), limit)
  }

  /** Every unseen show is a library show of that genre, neither watched nor listed. */
  lemma UnseenSpec(watched: seq<Entry>, watchlist: seq<Show>, library: seq<Show>, genre: string)
    ensures forall x :: x in Unseen(watched, watchlist, library, genre) ==>
      x in library && x.genre == genre && !Watched(watched, x) && !Listed(watchlist, x)
  {
    forall x | x in Unseen(watched, watchlist, library, genre)
      ensures x in library && x.genre == genre && !Watched(watched, x) && !Listed(watchlist, x)
    {
      TitleSets(watched, watchlist, x);
    }
  }

  /**
    A prefix of a list sorted by descending rating is sorted too, and nothing
    after it rates higher than anything in it.
  */
  lemma DescendingPrefix(sorted: seq<Show>, n: nat)
    requires n <= |sorted| && RatingsDescending(sorted)
    ensures RatingsDescending(sorted[..n])
    ensures forall x :: x in multiset(sorted[n..]) ==> forall i :: 0 <= i < n ==> x.rating <= sorted[..n][i].rating
  {
    var r, rest := sorted[..n], sorted[n..];
    forall i, j | 0 <= i < j < n ensures r[i].rating >= r[j].rating {
      assert r[i] == sorted[i] && r[j] == sorted[j];
    }
    forall x: Show | x in multiset(rest) ensures forall i :: 0 <= i < n ==> x.rating <= r[i].rating {
      var k :| 0 <= k < |rest| && rest[k] == x;
      assert sorted[n + k] == x;
      forall i | 0 <= i < n ensures x.rating <= r[i].rating {
        assert r[i] == sorted[i];
      }
    }
  }

  /**
    The first `limit` shows of a descending permutation of the candidates:
    some of the candidates, from the highest rating down, `limit` of them (all
    if there are fewer, all but the last `-limit` for a negative limit), and
    no candidate left out rates higher than one kept.
  */
  lemma TopOf(cands: seq<Show>, sorted: seq<Show>, limit: int)
    requires multiset(sorted) == multiset(cands) && RatingsDescending(sorted)
    ensures var r := PyPrefix(sorted, limit);
      && multiset(r) <= multiset(cands)
      && RatingsDescending(r)
      && (0 <= limit ==> |r| == if limit <= |cands| then limit else |cands|)
      && (limit < 0 ==> |r| == if |cands| + limit >= 0 then |cands| + limit else 0)
      && (forall x :: x in multiset(cands) - multiset(r) ==> forall i :: 0 <= i < |r| ==> x.rating <= r[i].rating)
  {
    var r := PyPrefix(sorted, limit);
    assert |sorted| == |cands| by {
      assert |multiset(sorted)| == |multiset(cands)|;
    }
    DescendingPrefix(sorted, |r|);
    PrefixRest(cands, sorted, |r|);
  }

  /** What a prefix of a permutation of `cands` leaves out is the rest of the permutation. */
  lemma PrefixRest(cands: seq<Show>, sorted: seq<Show>, n: nat)
    requires multiset(sorted) == multiset(cands) && n <= |sorted|
    ensures multiset(sorted[..n]) <= multiset(cands)
    ensures multiset(cands) - multiset(sorted[..n]) == multiset(sorted[n..])
  {
    assert sorted == sorted[..n] + sorted[n..];
  }

  /** `TopOf` for the recommendation sort. */
  lemma TopRated(cands: seq<Show>, limit: int)
    ensures var r := PyPrefix(SortByRatingDesc(cands), limit);
      && multiset(r) <= multiset(cands)
      && RatingsDescending(r)
      && (0 <= limit ==> |r| == if limit <= |cands| then limit else |cands|)
      && (limit < 0 ==> |r| == if |cands| + limit >= 0 then |cands| + limit else 0)
      && (forall x :: x in multiset(cands) - multiset(r) ==> forall i :: 0 <= i < |r| ==> x.rating <= r[i].rating)
  {
    SortByRatingDescSorted(cands);
    TopOf(cands, SortByRatingDesc(cands), limit);
  }

  /**
    Nothing is recommended before something is watched.  Otherwise the list is
    the top of the unseen shows of the favourite genre, as `TopRated` and
    `UnseenSpec` describe it.
  */
  lemma RecommendSpec(watched: seq<Entry>, watchlist: seq<Show>, library: seq<Show>, limit: int)
    ensures watched == [] ==> Recommend(watched, watchlist, library, limit) == []
    ensures FavouriteGenre(watched).Some? ==>
      var g := FavouriteGenre(watched).value;
      var cands := Unseen(watched, watchlist, library, g);
      var r := Recommend(watched, watchlist, library, limit);
      && (forall x :: x in r ==> x in library && x.genre == g && !Watched(watched, x) && !Listed(watchlist, x))
      && multiset(r) <= multiset(cands)
      && RatingsDescending(r)
      && (0 <= limit ==> |r| == if limit <= |cands| then limit else |cands|)
      && (limit < 0 ==> |r| == if |cands| + limit >= 0 then |cands| + limit else 0)
      && (forall x :: x in multiset(cands) - multiset(r) ==> forall i :: 0 <= i < |r| ==> x.rating <= r[i].rating)
  {
    if watched == [] {
      FavouriteGenreSpec(watched);
    }
    if FavouriteGenre(watched).Some? {
      var g := FavouriteGenre(watched).value;
      var cands := Unseen(watched, watchlist, library, g);
      var r := Recommend(watched, watchlist, library, limit);
      assert r == PyPrefix(SortByRatingDesc(cands), limit);
      TopRated(cands, limit);
      UnseenSpec(watched, watchlist, library, g);
      forall x | x in r ensures x in cands {
        assert x in multiset(r);
      }
    }
  }
}
