/**
  The read-only queries over a user's watched history: total watch time, the
  genre distribution (a `Counter` over the genres of the watched keys, whose
  keys keep first-occurrence order), the average rating given, and the
  favourite genre the recommendations start from.
*/
module Statistics {
  import opened Wrappers
  import opened Ratings
  import opened Dict
  import opened Shows
  import opened History

  /** `sum(show.duration for show in watched.keys())` */
  function TotalWatchTime(es: seq<Entry>): int
  {
    if es == [] then 0 else es[0].show.duration + TotalWatchTime(es[1..])
  }

  /** The total adds up item by item: splitting the watched dict anywhere splits the total. */
  lemma {:induction false} TotalWatchTimeConcat(a: seq<Entry>, b: seq<Entry>)
    ensures TotalWatchTime(a + b) == TotalWatchTime(a) + TotalWatchTime(b)
  {
    if a != [] {
      assert (a + b)[1..] == a[1..] + b;
      TotalWatchTimeConcat(a[1..], b);
    } else {
      assert a + b == b;
    }
  }

  /**
    Marking a show as watched adds its duration to the total when the show is
    new to the history, and leaves the total alone otherwise: the existing key
    keeps its own duration.
  */
  lemma {:induction false} UpsertWatchTime(es: seq<Entry>, show: Show, rating: Option<real>)
    ensures TotalWatchTime(Upsert(es, show, rating))
            == TotalWatchTime(es) + if Watched(es, show) then 0 else show.duration
  {
    if es != [] && !es[0].show.SameShow(show) {
      UpsertWatchTime(es[1..], show, rating);
      if Watched(es, show) {
        var i :| 0 <= i < |es| && es[i].show.SameShow(show);
        assert es[1..][i - 1].show.SameShow(show);
      }
      if Watched(es[1..], show) {
        var i :| 0 <= i < |es[1..]| && es[1..][i].show.SameShow(show);
        assert es[i + 1].show.SameShow(show);
      }
    } else if es != [] {
      assert Watched(es, show);
    }
  }

  /** `[show.genre for show in watched.keys()]` */
  function Genres(es: seq<Entry>): (gs: seq<string>)
    ensures |gs| == |es|
    ensures forall i :: 0 <= i < |es| ==> gs[i] == es[i].show.genre
  {
    seq(|es|, i requires 0 <= i < |es| => es[i].show.genre)
  }

  /** The count a tally holds for `g`, zero when `g` is not a key. */
  function CountOf(d: Items<nat>, g: string): nat
  {
    if HasKey(d, g) then Get(d, g) else 0
  }

  /** The sum of a tally's counts. */
  function Total(d: Items<nat>): nat
  {
    if d == [] then 0 else d[0].1 + Total(d[1..])
  }

  /** `Counter` counting one more `g`: `d[g] = d.get(g, 0) + 1`. */
  function Bump(d: Items<nat>, g: string): Items<nat>
    requires DistinctKeys(d)
  {
    Put(d, g, CountOf(d, g) + 1)
  }

  /** `Counter(gs)`, built left to right as `Counter` does. */
  function Tally(gs: seq<string>): (d: Items<nat>)
    ensures DistinctKeys(d)
  {
    if gs == [] then [] else Bump(Tally(gs[..|gs| - 1]), gs[|gs| - 1])
  }

  /** `get_genre_distribution` */
  function GenreDistribution(es: seq<Entry>): Items<nat>
  {
    Tally(Genres(es))
  }

  lemma {:induction false} TotalAppend(d: Items<nat>, k: string, v: nat)
    ensures Total(d + [(k, v)]) == Total(d) + v
  {
    if d != [] {
      assert (d + [(k, v)])[1..] == d[1..] + [(k, v)];
      TotalAppend(d[1..], k, v);
    }
  }

  lemma {:induction false} TotalUpdate(d: Items<nat>, i: nat, k: string, v: nat)
    requires i < |d|
    ensures Total(d[i := (k, v)]) + d[i].1 == Total(d) + v
  {
    if i > 0 {
      assert d[i := (k, v)][1..] == d[1..][i - 1 := (k, v)];
      TotalUpdate(d[1..], i - 1, k, v);
    }
  }

  lemma BumpTotal(d: Items<nat>, g: string)
    requires DistinctKeys(d)
    ensures Total(Bump(d, g)) == Total(d) + 1
  {
    if HasKey(d, g) {
      var i := IndexOf(d, g);
      TotalUpdate(d, i, g, d[i].1 + 1);
    } else {
      TotalAppend(d, g, 1);
    }
  }

  /** Counting one more `g` adds one to its count and leaves every other genre alone. */
  lemma BumpSpec(d: Items<nat>, g: string)
    requires DistinctKeys(d)
    ensures HasKey(Bump(d, g), g) && CountOf(Bump(d, g), g) == CountOf(d, g) + 1
    ensures forall k :: k != g ==> (HasKey(Bump(d, g), k) <==> HasKey(d, k))
    ensures forall k :: k != g ==> CountOf(Bump(d, g), k) == CountOf(d, k)
  {
    var r := Put(d, g, CountOf(d, g) + 1);
    assert Bump(d, g) == r;
    forall k | k != g ensures HasKey(r, k) <==> HasKey(d, k) {
    }
  }

  /** The genres that are keys of the distribution are exactly the genres watched. */
  lemma {:induction false} TallyKeys(gs: seq<string>)
    ensures forall g :: HasKey(Tally(gs), g) <==> g in gs
  {
    if gs != [] {
      var p, last := gs[..|gs| - 1], gs[|gs| - 1];
      assert gs == p + [last];
      var d := Tally(p);
      assert Tally(gs) == Bump(d, last);
      TallyKeys(p);
      BumpSpec(d, last);
    }
  }

  /**
    The distribution counts exactly the genres watched: each genre with its
    number of occurrences, the counts adding up to the number of watched shows.
  */
  lemma {:induction false} TallySpec(gs: seq<string>)
    ensures forall g :: CountOf(Tally(gs), g) == multiset(gs)[g]
    ensures Total(Tally(gs)) == |gs|
  {
    if gs != [] {
      var p, last := gs[..|gs| - 1], gs[|gs| - 1];
      assert gs == p + [last];
      var d := Tally(p);
      assert Tally(gs) == Bump(d, last);
      TallySpec(p);
      BumpTotal(d, last);
      BumpSpec(d, last);
      assert multiset(gs) == multiset(p) + multiset{last};
    }
  }

  /**
    The distribution lists genres in order of first appearance: a genre seen
    before the first occurrence of `b` comes before `b`.
  */
  lemma {:induction false} TallyOrder(gs: seq<string>, j: nat, b: string)
    requires j < |gs| && b in gs && b !in gs[..j + 1]
    ensures HasKey(Tally(gs), gs[j]) && HasKey(Tally(gs), b)
    ensures IndexOf(Tally(gs), gs[j]) < IndexOf(Tally(gs), b)
  {
    var p, last := gs[..|gs| - 1], gs[|gs| - 1];
    assert gs == p + [last];
    var d := Tally(p);
    assert Tally(gs) == Bump(d, last);
    assert gs[..|gs|] == gs;
    assert j < |gs| - 1;
    assert gs[j] == p[j] && p[..j + 1] == gs[..j + 1];
    TallyKeys(p);
    BumpPlaces(d, last);
    BumpSpec(d, last);
    if b in p {
      TallyOrder(p, j, b);
    } else {
      assert b == last;
    }
  }

  /** Counting one more `g` moves no genre, and a new genre goes to the end. */
  lemma BumpPlaces(d: Items<nat>, g: string)
    requires DistinctKeys(d)
    ensures forall k :: HasKey(d, k) ==> HasKey(Bump(d, g), k) && IndexOf(Bump(d, g), k) == IndexOf(d, k)
    ensures !HasKey(d, g) ==> IndexOf(Bump(d, g), g) == |d|
  {
    var r := Put(d, g, CountOf(d, g) + 1);
    assert Bump(d, g) == r;
    forall k | HasKey(d, k) ensures HasKey(r, k) && IndexOf(r, k) == IndexOf(d, k) {
      PutKeepsPlace(d, g, CountOf(d, g) + 1, k);
    }
    if !HasKey(d, g) {
      assert r == d + [(g, 1)];
      forall m | 0 <= m < |d| ensures r[m].0 != g {
        assert r[m] == d[m];
      }
    }
  }

  /**
    `max(genre_dist, key=genre_dist.get)`: the position of the first largest
    count, as `max` keeps the first of equal maxima.
  */
  function FirstMax(d: Items<nat>): (k: nat)
    requires |d| > 0
    ensures k < |d|
    ensures forall j :: 0 <= j < |d| ==> d[j].1 <= d[k].1
    ensures forall j :: 0 <= j < k ==> d[j].1 < d[k].1
  {
    if |d| == 1 then 0
    else
      var k := FirstMax(d[1..]);
      if d[0].1 >= d[k + 1].1 then 0 else k + 1
  }

  /** The favourite genre, or nothing when nothing has been watched. */
  function FavouriteGenre(es: seq<Entry>): Option<string>
  {
    var d := GenreDistribution(es);
    if d == [] then None else Some(d[FirstMax(d)].0)
  }

  /**
    The favourite genre is a genre watched most often, and among those the
    first to appear in the watched history: every genre watched as often
    first appears no earlier.
  */
  lemma FavouriteGenreSpec(es: seq<Entry>)
    ensures FavouriteGenre(es).None? <==> es == []
    ensures FavouriteGenre(es).Some? ==>
      var fav, gs := FavouriteGenre(es).value, Genres(es);
      && fav in gs
      && (forall g :: multiset(gs)[g] <= multiset(gs)[fav])
      && (forall j :: 0 <= j < |gs| && multiset(gs)[gs[j]] == multiset(gs)[fav] ==> fav in gs[..j + 1])
  {
    var gs := Genres(es);
    var d := Tally(gs);
    TallyKeys(gs);
    TallySpec(gs);
    if es != [] {
      assert HasKey(d, gs[0]);
      var k := FirstMax(d);
      var fav := d[k].0;
      assert HasKey(d, fav);
      assert IndexOf(d, fav) == k;
      forall g ensures multiset(gs)[g] <= multiset(gs)[fav] {
        if HasKey(d, g) {
          assert CountOf(d, g) == d[IndexOf(d, g)].1;
        }
      }
      forall j | 0 <= j < |gs| && fav !in gs[..j + 1] ensures multiset(gs)[gs[j]] < multiset(gs)[fav] {
        TallyOrder(gs, j, fav);
        assert CountOf(d, gs[j]) == d[IndexOf(d, gs[j])].1;
      }
    } else {
      assert d == [];
    }
  }

  /** `[r for r in watched.values() if r is not None]` */
  function RatingsGiven(es: seq<Entry>): seq<real>
  {
    if es == [] then []
    else if es[0].userRating.Some? then [es[0].userRating.value] + RatingsGiven(es[1..])
    else RatingsGiven(es[1..])
  }

  /**
    `get_average_rating_given`: the mean of the ratings given, or `0.0` when
    none was given; a mean of in-range ratings is in range.
  */
  function AverageRatingGiven(es: seq<Entry>): (avg: real)
    ensures RatingsGiven(es) == [] ==> avg == 0.0
    ensures RatingsGiven(es) != [] ==> avg * |RatingsGiven(es)| as real == Sum(RatingsGiven(es))
    ensures AllInRange(RatingsGiven(es)) ==> InRange(avg)
  {
    var rs := RatingsGiven(es);
    if rs == [] then 0.0
    else
      MeanInRangeIf(rs);
      Mean(rs)
  }

  lemma MeanInRangeIf(rs: seq<real>)
    requires |rs| > 0
    ensures AllInRange(rs) ==> InRange(Mean(rs))
  {
    if AllInRange(rs) {
      MeanInRange(rs);
    }
  }
}
