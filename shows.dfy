/**
  A catalogued show: title, genre and duration fixed at creation, a rating
  and the list of user ratings that the rating is the mean of.  Identity is
  the lower-cased title (`__eq__`/`__hash__`); the natural order is by rating
  (`__lt__`), which the recommendation sort uses in reverse.
*/
module Shows {
  import opened Text
  import opened Ratings
  import opened Dict

  /** The dict snapshot `to_dict` produces and `from_dict` reads. */
  datatype ShowDict = ShowDict(title: string, genre: string, duration: int, rating: real, userRatings: seq<real>)

  class Show {
    const title: string
    const genre: string
    const duration: int
    var rating: real
    var userRatings: seq<real>

    /** The constructor takes the initial rating as it is: it is not range-checked. */
    constructor (title: string, genre: string, duration: int, rating: real)
      ensures this.title == title && this.genre == genre && this.duration == duration
      ensures this.rating == rating && userRatings == []
    {
      this.title := title;
      this.genre := genre;
      this.duration := duration;
      this.rating := rating;
      userRatings := [];
    }

    /** The `rating` property setter. */
    method SetRating(value: real) returns (outcome: Outcome)
      modifies this`rating
      ensures outcome == if InRange(value) then Pass else Fail(RangeMessage)
      ensures rating == if InRange(value) then value else old(rating)
      ensures userRatings == old(userRatings)
    {
      if 0.0 <= value <= 10.0 {
        rating := value;
        outcome := Pass;
      } else {
        outcome := Fail(RangeMessage);
      }
    }

    /** Record one user rating and make the rating the mean of all of them. */
    method AddUserRating(value: real) returns (outcome: Outcome)
      modifies this
      ensures outcome == if InRange(value) then Pass else Fail(RangeMessage)
      ensures InRange(value) ==> userRatings == old(userRatings) + [value] && rating == Mean(userRatings)
      ensures InRange(value) && AllInRange(old(userRatings)) ==> InRange(rating)
      ensures !InRange(value) ==> userRatings == old(userRatings) && rating == old(rating)
    {
      if 0.0 <= value <= 10.0 {
        userRatings := userRatings + [value];
        rating := Mean(userRatings);
        outcome := Pass;
        if AllInRange(old(userRatings)) {
          MeanInRange(userRatings);
        }
      } else {
        outcome := Fail(RangeMessage);
      }
    }

    /** `__hash__`: the lower-cased title. */
    function IdentityKey(): string
    {
      Lower(title)
    }

    /** `__eq__`: same lower-cased title, whatever the other fields say. */
    predicate SameShow(other: Show)
    {
      IdentityKey() == other.IdentityKey()
    }

    /** `__lt__` */
    predicate RatedBelow(other: Show)
      reads this, other
    {
      rating < other.rating
    }

    function ToDict(): ShowDict
      reads this
    {
      ShowDict(title, genre, duration, rating, userRatings)
    }

    /** `Show.from_dict`: a new show carrying every field of the snapshot. */
    static method FromDict(data: ShowDict) returns (s: Show)
      ensures fresh(s)
      ensures s.ToDict() == data
    {
      s := new Show(data.title, data.genre, data.duration, data.rating);
      s.userRatings := data.userRatings;
    }
  }

  /**
    `__eq__` is an equivalence, and `__hash__` agrees with it in both
    directions: equal shows hash alike, and shows that hash alike are equal.
  */
  lemma IdentityLaws(a: Show, b: Show, c: Show)
    ensures a.SameShow(a)
    ensures a.SameShow(b) ==> b.SameShow(a)
    ensures a.SameShow(b) && b.SameShow(c) ==> a.SameShow(c)
    ensures a.SameShow(b) <==> a.IdentityKey() == b.IdentityKey()
  {
  }

  /** Titles that differ only in case name one show; different titles name different ones, whatever the other fields. */
  lemma CaseOnlyIdentity(a: Show, b: Show, c: Show)
    requires a.title == "Dark" && b.title == "DARK" && c.title == "Dune"
    ensures a.SameShow(b) && !a.SameShow(c)
  {
    assert Lower("K") == "k" && Lower("k") == "k";
    assert Lower("RK") == "rk" && Lower("rk") == "rk";
    assert Lower("ARK") == "ark" && Lower("ark") == "ark";
    assert Lower("DARK") == "dark" && Lower("Dark") == "dark";
    assert Lower("Dune")[1] == 'u';
  }

  /**
    `Show.from_dict(show.to_dict())`: a new show equal to the old one in
    every field, so the snapshot loses nothing.
  */
  method RoundTrip(s: Show) returns (c: Show)
    ensures fresh(c)
    ensures c.title == s.title && c.genre == s.genre && c.duration == s.duration
    ensures c.rating == s.rating && c.userRatings == s.userRatings
    ensures c.SameShow(s)
  {
    c := Show.FromDict(s.ToDict());
  }

  /** The titles of the snapshots, in order. */
  function Titles(snaps: seq<ShowDict>): (ts: seq<string>)
    ensures |ts| == |snaps|
  {
    seq(|snaps|, i requires 0 <= i < |snaps| => snaps[i].title)
  }

  lemma TitlesConcat(a: seq<ShowDict>, b: seq<ShowDict>)
    ensures Titles(a + b) == Titles(a) + Titles(b)
  {
  }

  /** Two valid user ratings on a show that had none make its rating their average. */
  method RateTwice(s: Show, r1: real, r2: real) returns (first: Outcome, second: Outcome)
    requires s.userRatings == [] && InRange(r1) && InRange(r2)
    modifies s
    ensures first == Pass && second == Pass
    ensures s.userRatings == [r1, r2] && s.rating == (r1 + r2) / 2.0
  {
    first := s.AddUserRating(r1);
    second := s.AddUserRating(r2);
    assert s.userRatings == [r1, r2];
    assert Sum([r1, r2]) == r1 + r2 by {
      assert [r1, r2][1..] == [r2];
      assert Sum([r2]) == r2 + Sum([r2][1..]);
      assert [r2][1..] == [];
    }
  }

  /**
    A title -> Show table (the library's `_shows`, the `all_shows` that
    `User.from_dict` resolves against): every key is its show's own title.
  */
  ghost predicate KeyedByTitle(t: Items<Show>)
  {
    DistinctKeys(t) && forall i :: 0 <= i < |t| ==> t[i].1.title == t[i].0
  }

  /** Ratings never increase along `s`. */
  ghost predicate RatingsDescending(s: seq<Show>)
    reads s
  {
    forall i, j :: 0 <= i < j < |s| ==> s[i].rating >= s[j].rating
  }

  /** The elements of `s` whose rating is `v`, in their order in `s`. */
  function WithRating(s: seq<Show>, v: real): seq<Show>
    reads s
  {
    if s == [] then []
    else if s[0].rating == v then [s[0]] + WithRating(s[1..], v)
    else WithRating(s[1..], v)
  }

  /**
    Insert `x`, which came before every element of `s`, in front of the first
    element that does not rate strictly higher.
  */
  function InsertByRating(x: Show, s: seq<Show>): (r: seq<Show>)
    reads x, set y | y in s
    ensures multiset(r) == multiset(s) + multiset{x}
  {
    if s == [] || !x.RatedBelow(s[0]) then [x] + s
    else
      var rest := InsertByRating(x, s[1..]);
      assert s == [s[0]] + s[1..];
      [s[0]] + rest
  }

  /**
    `list.sort(reverse=True)` on shows ordered by `__lt__`: descending by
    rating, equal ratings kept in their original order.
  */
  function SortByRatingDesc(s: seq<Show>): (r: seq<Show>)
    reads set y | y in s
    ensures multiset(r) == multiset(s)
  {
    if s == [] then []
    else
      var rest := SortByRatingDesc(s[1..]);
      SameMembers(rest, s[1..]);
      assert s == [s[0]] + s[1..];
      InsertByRating(s[0], rest)
  }

  /** Two permutations of each other have the same elements. */
  lemma SameMembers(a: seq<Show>, b: seq<Show>)
    requires multiset(a) == multiset(b)
    ensures forall y :: y in a ==> y in b
  {
    forall y | y in a ensures y in b {
      assert y in multiset(a);
    }
  }

  lemma {:induction false} InsertByRatingSorted(x: Show, s: seq<Show>)
    requires RatingsDescending(s)
    ensures RatingsDescending(InsertByRating(x, s))
  {
    if s != [] && x.RatedBelow(s[0]) {
      var rest := InsertByRating(x, s[1..]);
      assert InsertByRating(x, s) == [s[0]] + rest;
      InsertByRatingSorted(x, s[1..]);
      HeadAboveInsert(x, s, rest);
      var r := [s[0]] + rest;
      forall i, j | 0 <= i < j < |r| ensures r[i].rating >= r[j].rating {
        if i > 0 {
          assert r[i] == rest[i - 1] && r[j] == rest[j - 1];
        } else {
          assert r[j] == rest[j - 1];
        }
      }
    }
  }

  /** The head of a descending list rates at least as high as anything in the rest after `x` goes in. */
  lemma HeadAboveInsert(x: Show, s: seq<Show>, rest: seq<Show>)
    requires RatingsDescending(s) && s != [] && x.RatedBelow(s[0]) && rest == InsertByRating(x, s[1..])
    ensures forall j :: 0 <= j < |rest| ==> s[0].rating >= rest[j].rating
  {
    forall j | 0 <= j < |rest| ensures s[0].rating >= rest[j].rating {
      assert rest[j] in multiset(rest);
      if rest[j] != x {
        assert rest[j] in multiset(s[1..]);
        var k :| 0 <= k < |s[1..]| && s[1..][k] == rest[j];
        assert s[k + 1] == rest[j];
      }
    }
  }

  /** The recommendation sort puts ratings in non-increasing order. */
  lemma {:induction false} SortByRatingDescSorted(s: seq<Show>)
    ensures RatingsDescending(SortByRatingDesc(s))
  {
    if s != [] {
      SortByRatingDescSorted(s[1..]);
      InsertByRatingSorted(s[0], SortByRatingDesc(s[1..]));
    }
  }

  /** In `__lt__`'s terms: no show of the sorted list is rated below a show after it. */
  lemma SortByRatingDescByLt(s: seq<Show>)
    ensures forall i, j :: 0 <= i < j < |SortByRatingDesc(s)| ==> !SortByRatingDesc(s)[i].RatedBelow(SortByRatingDesc(s)[j])
  {
    SortByRatingDescSorted(s);
  }

  lemma {:induction false} InsertByRatingStable(x: Show, s: seq<Show>, v: real)
    ensures WithRating(InsertByRating(x, s), v) == if x.rating == v then [x] + WithRating(s, v) else WithRating(s, v)
  {
    if s == [] || !x.RatedBelow(s[0]) {
      assert ([x] + s)[1..] == s;
    } else {
      var rest := InsertByRating(x, s[1..]);
      InsertByRatingStable(x, s[1..], v);
      assert ([s[0]] + rest)[1..] == rest;
    }
  }

  /**
    The sort is stable: for every rating, the shows with that rating appear in
    the result in the same order as in the input.
  */
  lemma {:induction false} SortByRatingDescStable(s: seq<Show>, v: real)
    ensures WithRating(SortByRatingDesc(s), v) == WithRating(s, v)
  {
    if s != [] {
      SortByRatingDescStable(s[1..], v);
      InsertByRatingStable(s[0], SortByRatingDesc(s[1..]), v);
    }
  }
}
