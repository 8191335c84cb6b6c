/**
  Ratings: the [0, 10] range check shared by the rating setter and
  `add_user_rating`, and the arithmetic mean used for a show's rating and for
  a user's average rating given.  Ratings are exact reals.
*/
module Ratings {

  /** What a rating update does: succeed, or raise `ValueError`. */
  datatype Outcome = Pass | Fail(message: string)

  const RangeMessage := "Rating must be between 0 and 10"

  predicate InRange(x: real)
  {
    0.0 <= x <= 10.0
  }

  predicate AllInRange(xs: seq<real>)
  {
    forall i :: 0 <= i < |xs| ==> InRange(xs[i])
  }

  /** Python's `sum` over a list of ratings. */
  function Sum(xs: seq<real>): real
  {
    if xs == [] then 0.0 else xs[0] + Sum(xs[1..])
  }

  /** `sum(xs) / len(xs)` */
  function Mean(xs: seq<real>): real
    requires |xs| > 0
  {
    Sum(xs) / |xs| as real
  }

  lemma {:induction false} SumAppend(xs: seq<real>, x: real)
    ensures Sum(xs + [x]) == Sum(xs) + x
  {
    if xs != [] {
      assert (xs + [x])[1..] == xs[1..] + [x];
      SumAppend(xs[1..], x);
    }
  }

  lemma {:induction false} SumBounds(xs: seq<real>)
    requires AllInRange(xs)
    ensures 0.0 <= Sum(xs) <= 10.0 * |xs| as real
  {
    if xs != [] {
      SumBounds(xs[1..]);
    }
  }

  /** The mean of ratings that are all in range is itself in range. */
  lemma MeanInRange(xs: seq<real>)
    requires |xs| > 0 && AllInRange(xs)
    ensures InRange(Mean(xs))
  {
    SumBounds(xs);
    var n := |xs| as real;
    assert Mean(xs) * n == Sum(xs);
  }

  /**
    Appending one rating moves the mean to the weighted combination of the
    old mean and the new rating: the running average that `add_user_rating`
    keeps is the mean of all ratings recorded so far.
  */
  lemma MeanAppend(xs: seq<real>, x: real)
    requires |xs| > 0
    ensures Mean(xs + [x]) == (Mean(xs) * |xs| as real + x) / (|xs| + 1) as real
  {
    SumAppend(xs, x);
    var n := |xs| as real;
    assert Mean(xs) * n == Sum(xs);
  }
}
