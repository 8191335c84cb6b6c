/**
  A user's two collections: the watchlist (a list of shows) and the watched
  history (the dict `_watched`, keyed by show identity, written as its list of
  items).  Show identity is `Show.SameShow`, the lower-cased title.
*/
module History {
  import opened Wrappers
  import opened Shows

  /** One item of the watched dict: the key show and the user's rating, if any. */
  datatype Entry = Entry(show: Show, userRating: Option<real>)

  /** Some show of `list` has the identity of `show`. */
  predicate Listed(list: seq<Show>, show: Show)
  {
    exists i :: 0 <= i < |list| && list[i].SameShow(show)
  }

  /** `show` (by identity) is a key of the watched dict. */
  predicate Watched(es: seq<Entry>, show: Show)
  {
    exists i :: 0 <= i < |es| && es[i].show.SameShow(show)
  }

  /** The keys of the watched dict, in insertion order. */
  function WatchedShows(es: seq<Entry>): seq<Show>
  {
    seq(|es|, i requires 0 <= i < |es| => es[i].show)
  }

  /** No two shows of `list` share an identity. */
  ghost predicate DistinctShows(list: seq<Show>)
  {
    forall i, j :: 0 <= i < j < |list| ==> !list[i].SameShow(list[j])
  }

  /** The comprehension that drops from the watchlist every show with the identity of `show`. */
  function WithoutShow(list: seq<Show>, show: Show): seq<Show>
  {
    if list == [] then []
    else if list[0].SameShow(show) then WithoutShow(list[1..], show)
    else [list[0]] + WithoutShow(list[1..], show)
  }

  /** What is left of the watchlist never matches `show`. */
  lemma {:induction false} WithoutShowDrops(list: seq<Show>, show: Show)
    ensures forall i :: 0 <= i < |WithoutShow(list, show)| ==> !WithoutShow(list, show)[i].SameShow(show)
  {
    if list != [] {
      WithoutShowDrops(list[1..], show);
    }
  }

  /**
    Nothing is added to the watchlist, and every show without the identity of
    `show` keeps its number of occurrences.
  */
  lemma {:induction false} WithoutShowKeeps(list: seq<Show>, show: Show)
    ensures multiset(WithoutShow(list, show)) <= multiset(list)
    ensures forall y: Show :: y in list && !y.SameShow(show) ==> multiset(WithoutShow(list, show))[y] == multiset(list)[y]
  {
    if list != [] {
      WithoutShowKeeps(list[1..], show);
      assert list == [list[0]] + list[1..];
      forall y: Show | y in list && !y.SameShow(show)
        ensures multiset(WithoutShow(list, show))[y] == multiset(list)[y]
      {
        if y !in list[1..] {
          assert multiset(list[1..])[y] == 0;
        }
      }
    }
  }

  /** A watchlist that does not hold the show is left as it is. */
  lemma {:induction false} WithoutShowUnlisted(list: seq<Show>, show: Show)
    requires !Listed(list, show)
    ensures WithoutShow(list, show) == list
  {
    if list != [] {
      assert !list[0].SameShow(show);
      forall i | 0 <= i < |list[1..]| ensures !list[1..][i].SameShow(show) {
        assert list[1..][i] == list[i + 1];
      }
      WithoutShowUnlisted(list[1..], show);
      assert list == [list[0]] + list[1..];
    }
  }

  /** Filtering a watchlist without repeated identities leaves none repeated. */
  lemma {:induction false} WithoutShowDistinct(list: seq<Show>, show: Show)
    requires DistinctShows(list)
    ensures DistinctShows(WithoutShow(list, show))
  {
    if list != [] {
      var tail := list[1..];
      assert DistinctShows(tail) by {
        forall i, j | 0 <= i < j < |tail| ensures !tail[i].SameShow(tail[j]) {
          assert tail[i] == list[i + 1] && tail[j] == list[j + 1];
        }
      }
      WithoutShowDistinct(tail, show);
      if !list[0].SameShow(show) {
        var rest := WithoutShow(tail, show);
        forall m | 0 <= m < |tail| ensures !list[0].SameShow(tail[m]) {
          assert tail[m] == list[m + 1];
        }
        WithoutShowAvoids(tail, show, list[0]);
        var r := [list[0]] + rest;
        forall i, j | 0 <= i < j < |r| ensures !r[i].SameShow(r[j]) {
          assert r[j] == rest[j - 1];
          if i > 0 {
            assert r[i] == rest[i - 1];
          }
        }
      }
    }
  }

  /** A show sharing its identity with no element of the watchlist shares it with none that is left. */
  lemma {:induction false} WithoutShowAvoids(list: seq<Show>, show: Show, x: Show)
    requires forall m :: 0 <= m < |list| ==> !x.SameShow(list[m])
    ensures forall k :: 0 <= k < |WithoutShow(list, show)| ==> !x.SameShow(WithoutShow(list, show)[k])
  {
    if list != [] {
      forall m | 0 <= m < |list[1..]| ensures !x.SameShow(list[1..][m]) {
        assert list[1..][m] == list[m + 1];
      }
      WithoutShowAvoids(list[1..], show, x);
    }
  }

  /** Filtering distributes over concatenation, so the kept shows stay in their order. */
  lemma {:induction false} WithoutShowConcat(a: seq<Show>, b: seq<Show>, show: Show)
    ensures WithoutShow(a + b, show) == WithoutShow(a, show) + WithoutShow(b, show)
  {
    if a == [] {
      assert a + b == b;
    } else {
      assert (a + b)[0] == a[0];
      assert (a + b)[1..] == a[1..] + b;
      WithoutShowConcat(a[1..], b, show);
    }
  }

  /**
    `_watched[show] = rating`: an existing key with the same identity keeps its
    key object and its place and gets the new rating; otherwise the pair is
    appended.
  */
  function Upsert(es: seq<Entry>, show: Show, rating: Option<real>): seq<Entry>
  {
    if es == [] then [Entry(show, rating)]
    else if es[0].show.SameShow(show) then [Entry(es[0].show, rating)] + es[1..]
    else [es[0]] + Upsert(es[1..], show, rating)
  }

  /**
    The keys after the assignment are the old keys, plus `show` at the end
    when no key had its identity, and every other item is untouched.
  */
  lemma {:induction false} UpsertKeys(es: seq<Entry>, show: Show, rating: Option<real>)
    ensures WatchedShows(Upsert(es, show, rating))
            == if Watched(es, show) then WatchedShows(es) else WatchedShows(es) + [show]
    ensures forall i :: 0 <= i < |es| && !es[i].show.SameShow(show) ==> Upsert(es, show, rating)[i] == es[i]
    ensures !Watched(es, show) ==> Upsert(es, show, rating) == es + [Entry(show, rating)]
  {
    var r := Upsert(es, show, rating);
    UpsertInPlace(es, show, rating);
    if Watched(es, show) {
      assert WatchedShows(r) == WatchedShows(es);
    } else {
      UpsertNew(es, show, rating);
      assert WatchedShows(r) == WatchedShows(es) + [show];
    }
  }

  /** With no key of that identity, the pair goes to the end. */
  lemma {:induction false} UpsertNew(es: seq<Entry>, show: Show, rating: Option<real>)
    requires !Watched(es, show)
    ensures Upsert(es, show, rating) == es + [Entry(show, rating)]
  {
    if es != [] {
      assert !es[0].show.SameShow(show);
      forall i | 0 <= i < |es[1..]| ensures !es[1..][i].show.SameShow(show) {
        assert es[1..][i] == es[i + 1];
      }
      UpsertNew(es[1..], show, rating);
      assert es == [es[0]] + es[1..];
    }
  }

  /**
    Every existing item keeps its key and place, items of another identity
    keep their rating too, and the dict grows exactly when the identity is new.
  */
  lemma {:induction false} UpsertInPlace(es: seq<Entry>, show: Show, rating: Option<real>)
    ensures |Upsert(es, show, rating)| == if Watched(es, show) then |es| else |es| + 1
    ensures forall i :: 0 <= i < |es| ==> Upsert(es, show, rating)[i].show == es[i].show
    ensures forall i :: 0 <= i < |es| && !es[i].show.SameShow(show) ==> Upsert(es, show, rating)[i] == es[i]
  {
    if es != [] && !es[0].show.SameShow(show) {
      var tail := es[1..];
      UpsertInPlace(tail, show, rating);
      assert Watched(es, show) <==> Watched(tail, show) by {
        if Watched(es, show) {
          var i :| 0 <= i < |es| && es[i].show.SameShow(show);
          assert tail[i - 1] == es[i];
        }
        if Watched(tail, show) {
          var i :| 0 <= i < |tail| && tail[i].show.SameShow(show);
          assert es[i + 1] == tail[i];
        }
      }
      var r := Upsert(es, show, rating);
      assert r == [es[0]] + Upsert(tail, show, rating);
      forall i | 0 < i < |es| ensures r[i] == Upsert(tail, show, rating)[i - 1] && es[i] == tail[i - 1] {
      }
    } else if es != [] {
      assert Watched(es, show);
    }
  }

  /**
    Assigning into a watched dict whose keys are distinct identities keeps
    them distinct, and the one key with the identity of `show` then maps to
    `rating`.
  */
  lemma UpsertDistinct(es: seq<Entry>, show: Show, rating: Option<real>)
    requires DistinctShows(WatchedShows(es))
    ensures DistinctShows(WatchedShows(Upsert(es, show, rating)))
    ensures forall i :: 0 <= i < |Upsert(es, show, rating)| && Upsert(es, show, rating)[i].show.SameShow(show)
                        ==> Upsert(es, show, rating)[i].userRating == rating
  {
    var r := Upsert(es, show, rating);
    var keys, keys' := WatchedShows(es), WatchedShows(r);
    UpsertKeys(es, show, rating);
    if Watched(es, show) {
      var k :| 0 <= k < |es| && es[k].show.SameShow(show);
      UpsertHit(es, show, rating, k);
      forall i | 0 <= i < |r| && i != k ensures !r[i].show.SameShow(show) {
        assert r[i].show == keys'[i] == keys[i];
        assert keys[k] == es[k].show;
        if i < k {
          assert !keys[i].SameShow(keys[k]);
        } else {
          assert !keys[k].SameShow(keys[i]);
        }
      }
    } else {
      forall i, j | 0 <= i < j < |r| ensures !keys'[i].SameShow(keys'[j]) {
        if j == |es| {
          assert keys'[i] == keys[i] && keys[i] == es[i].show;
        } else {
          assert keys'[i] == keys[i] && keys'[j] == keys[j];
        }
      }
      assert r[|es|] == Entry(show, rating);
      forall i | 0 <= i < |es| ensures !r[i].show.SameShow(show) {
        assert r[i] == es[i];
      }
    }
  }

  /** Where a key has the identity of `show`, that item now holds `rating`. */
  lemma {:induction false} UpsertHit(es: seq<Entry>, show: Show, rating: Option<real>, k: nat)
    requires DistinctShows(WatchedShows(es))
    requires k < |es| && es[k].show.SameShow(show)
    ensures |Upsert(es, show, rating)| == |es|
    ensures Upsert(es, show, rating)[k] == Entry(es[k].show, rating)
  {
    if !es[0].show.SameShow(show) {
      assert DistinctShows(WatchedShows(es[1..])) by {
        forall i, j | 0 <= i < j < |es[1..]|
          ensures !WatchedShows(es[1..])[i].SameShow(WatchedShows(es[1..])[j])
        {
          assert WatchedShows(es[1..])[i] == WatchedShows(es)[i + 1];
          assert WatchedShows(es[1..])[j] == WatchedShows(es)[j + 1];
        }
      }
      UpsertHit(es[1..], show, rating, k - 1);
    } else {
      assert WatchedShows(es)[0] == es[0].show && WatchedShows(es)[k] == es[k].show;
    }
  }
}
