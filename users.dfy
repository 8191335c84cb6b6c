/**
  A user: a username, an ordered watchlist and the watched history, both
  holding references to shared Show objects.  `User.from_dict` rebuilds a user
  from its dict snapshot, resolving every show snapshot against a shared
  title -> Show table so that one title is one object.
*/
module Users {
  import opened Wrappers
  import opened Ratings
  import opened Dict
  import opened Shows
  import opened History

  /** One item of the snapshot's `watched` list. */
  datatype WatchedDict = WatchedDict(show: ShowDict, userRating: Option<real>)

  /** The dict snapshot of a user; a missing list reads as empty. */
  datatype UserDict = UserDict(username: string, watchlist: seq<ShowDict>, watched: seq<WatchedDict>)

  /** The show snapshots of the `watched` items. */
  function WatchedSnapshots(items: seq<WatchedDict>): (snaps: seq<ShowDict>)
    ensures |snaps| == |items|
    ensures forall i :: 0 <= i < |items| ==> snaps[i] == items[i].show
  {
    seq(|items|, i requires 0 <= i < |items| => items[i].show)
  }

  /** Every show snapshot of a user record, in the order `from_dict` reads them. */
  function Snapshots(data: UserDict): seq<ShowDict>
  {
    data.watchlist + WatchedSnapshots(data.watched)
  }

  /** The first snapshot in `snaps` with title `t`. */
  function FirstWithTitle(snaps: seq<ShowDict>, t: string): Option<ShowDict>
  {
    if snaps == [] then None
    else
      var before := FirstWithTitle(snaps[..|snaps| - 1], t);
      if before.Some? then before
      else if snaps[|snaps| - 1].title == t then Some(snaps[|snaps| - 1])
      else None
  }

  lemma {:induction false} FirstWithTitleNone(snaps: seq<ShowDict>, t: string)
    requires forall i :: 0 <= i < |snaps| ==> snaps[i].title != t
    ensures FirstWithTitle(snaps, t) == None
  {
    if snaps != [] {
      FirstWithTitleNone(snaps[..|snaps| - 1], t);
    }
  }

  /** The first snapshot of `a + b` with a title is `a`'s if `a` has one, else `b`'s. */
  lemma {:induction false} FirstWithTitleConcat(a: seq<ShowDict>, b: seq<ShowDict>, t: string)
    ensures FirstWithTitle(a + b, t) == if FirstWithTitle(a, t).Some? then FirstWithTitle(a, t) else FirstWithTitle(b, t)
  {
    if b == [] {
      assert a + b == a;
    } else {
      FirstWithTitleConcat(a, b[..|b| - 1], t);
      assert (a + b)[..|a + b| - 1] == a + b[..|b| - 1];
    }
  }

  /** The watched items, each resolved to the table's show for its title. */
  function ResolveWatched(table: Items<Show>, items: seq<WatchedDict>): (es: seq<Entry>)
    requires forall i :: 0 <= i < |items| ==> HasKey(table, items[i].show.title)
    ensures |es| == |items|
    ensures forall i :: 0 <= i < |items| ==> es[i] == Entry(Get(table, items[i].show.title), items[i].userRating)
  {
    seq(|items|, i requires 0 <= i < |items| => Entry(Get(table, items[i].show.title), items[i].userRating))
  }

  /** The watched dict built by assigning the items one after the other. */
  function Replay(es: seq<Entry>): seq<Entry>
  {
    if es == [] then [] else Upsert(Replay(es[..|es| - 1]), es[|es| - 1].show, es[|es| - 1].userRating)
  }

  /** However the items repeat a show, the rebuilt watched dict has distinct keys. */
  lemma {:induction false} ReplayDistinct(es: seq<Entry>)
    ensures DistinctShows(WatchedShows(Replay(es)))
  {
    if es != [] {
      ReplayDistinct(es[..|es| - 1]);
      UpsertDistinct(Replay(es[..|es| - 1]), es[|es| - 1].show, es[|es| - 1].userRating);
    }
  }

  class User {
    const username: string
    var watchlist: seq<Show>
    var watched: seq<Entry>

    constructor (username: string)
      ensures this.username == username && watchlist == [] && watched == []
    {
      this.username := username;
      watchlist := [];
      watched := [];
    }

    /**
      The invariant the operations keep: no identity twice in the watchlist,
      none twice among the watched keys, and no show in both.
    */
    ghost predicate Valid()
      reads this
    {
      && DistinctShows(watchlist)
      && DistinctShows(WatchedShows(watched))
      && forall i :: 0 <= i < |watchlist| ==> !Watched(watched, watchlist[i])
    }

    /**
      `add_to_watchlist`: refused, with nothing changed, when a show with the
      same lower-cased title is in the watchlist or in the watched history;
      otherwise appended.
    */
    method AddToWatchlist(show: Show) returns (added: bool)
      modifies this`watchlist
      ensures added <==> !Listed(old(watchlist), show) && !Watched(watched, show)
      ensures watchlist == if added then old(watchlist) + [show] else old(watchlist)
      ensures old(Valid()) ==> Valid()
    {
      if Listed(watchlist, show) {
        return false;
      }
      if Watched(watched, show) {
        return false;
      }
      watchlist := watchlist + [show];
      added := true;
      assert old(watchlist) == watchlist[..|watchlist| - 1];
    }

    /**
      `mark_as_watched`: drops the show from the watchlist, records it in the
      watched history with the given rating, and, when a rating is given,
      records it on the show.  An out-of-range rating raises only after the
      two collections have been updated.
    */
    method MarkAsWatched(show: Show, userRating: Option<real>) returns (outcome: Outcome)
      modifies this`watchlist, this`watched, show
      ensures watchlist == WithoutShow(old(watchlist), show)
      ensures watched == Upsert(old(watched), show, userRating)
      ensures outcome == if userRating.None? || InRange(userRating.value) then Pass else Fail(RangeMessage)
      ensures userRating.Some? && InRange(userRating.value) ==>
        show.userRatings == old(show.userRatings) + [userRating.value] && show.rating == Mean(show.userRatings)
      ensures !(userRating.Some? && InRange(userRating.value)) ==>
        show.userRatings == old(show.userRatings) && show.rating == old(show.rating)
      ensures old(Valid()) ==> Valid()
    {
      ghost var wasValid := Valid();
      ghost var list0, es0 := watchlist, watched;
      watchlist := WithoutShow(watchlist, show);
      watched := Upsert(watched, show, userRating);
      if wasValid {
        WithoutShowDrops(list0, show);
        WithoutShowKeeps(list0, show);
        UpsertKeys(es0, show, userRating);
        UpsertDistinct(es0, show, userRating);
        KeepValid(list0, es0, show, userRating);
      }
      if userRating.Some? {
        outcome := show.AddUserRating(userRating.value);
      } else {
        outcome := Pass;
      }
    }

    /**
      `User.from_dict`: rebuild a user from its snapshot.  Each show snapshot
      is resolved by exact title against the table: the table's show when the
      title is a key, otherwise a new show from the snapshot, which joins the
      table.  The watchlist snapshots are resolved first, then the watched
      ones, against the same table, which is resolving `Snapshots(data)` in
      order; the watched history is then built by assigning each item in turn.
    */
    static method FromDict(data: UserDict, allShows: Items<Show>) returns (user: User, table: Items<Show>)
      requires KeyedByTitle(allShows)
      ensures fresh(user) && user.username == data.username
      ensures KeyedByTitle(table)
      ensures |allShows| <= |table| && table[..|allShows|] == allShows
      ensures forall i :: |allShows| <= i < |table| ==>
        fresh(table[i].1) && FirstWithTitle(Snapshots(data), table[i].0) == Some(table[i].1.ToDict())
      ensures forall i :: 0 <= i < |data.watchlist| ==> HasKey(table, data.watchlist[i].title)
      ensures forall i :: 0 <= i < |data.watched| ==> HasKey(table, data.watched[i].show.title)
      ensures |user.watchlist| == |data.watchlist|
      ensures forall i :: 0 <= i < |data.watchlist| ==> user.watchlist[i] == Get(table, data.watchlist[i].title)
      ensures user.watched == Replay(ResolveWatched(table, data.watched))
      ensures Keys(table) == FirstAppearances(Keys(allShows) + Titles(Snapshots(data)))
    {
      user := new User(data.username);
      var snaps := Snapshots(data);
      var m := |data.watchlist|;
      var shows;
      shows, table := ResolveAll(snaps, allShows);
      SplitResolved(data, table, shows);
      user.watchlist := shows[..m];
      user.watched := Assign(shows[m..], data.watched);
    }
  }

  /** The shows resolved for `Snapshots(data)`, split back into the watchlist and the watched items. */
  lemma SplitResolved(data: UserDict, table: Items<Show>, shows: seq<Show>)
    requires |shows| == |Snapshots(data)|
    requires forall k :: 0 <= k < |shows| ==>
      HasKey(table, Snapshots(data)[k].title) && shows[k] == Get(table, Snapshots(data)[k].title)
    ensures forall i :: 0 <= i < |data.watchlist| ==> HasKey(table, data.watchlist[i].title)
    ensures forall i :: 0 <= i < |data.watched| ==> HasKey(table, data.watched[i].show.title)
    ensures forall i :: 0 <= i < |data.watchlist| ==> shows[..|data.watchlist|][i] == Get(table, data.watchlist[i].title)
    ensures |shows[|data.watchlist|..]| == |data.watched|
    ensures ResolveWatched(table, data.watched) == Paired(shows[|data.watchlist|..], data.watched)
  {
    var snaps, m := Snapshots(data), |data.watchlist|;
    forall k | 0 <= k < m ensures snaps[k] == data.watchlist[k] {
    }
    forall k | 0 <= k < |data.watched| ensures snaps[m + k] == data.watched[k].show {
    }
  }

  /**
    Resolve the snapshots in order against the table; the entries past the
    table's old end are the shows this created.
  */
  method ResolveAll(snaps: seq<ShowDict>, table: Items<Show>) returns (shows: seq<Show>, r: Items<Show>)
    requires KeyedByTitle(table)
    ensures KeyedByTitle(r) && |table| <= |r| && r[..|table|] == table
    ensures forall k :: |table| <= k < |r| ==> fresh(r[k].1) && FirstWithTitle(snaps, r[k].0) == Some(r[k].1.ToDict())
    ensures |shows| == |snaps|
    ensures forall k :: 0 <= k < |snaps| ==> HasKey(r, snaps[k].title) && shows[k] == Get(r, snaps[k].title)
    ensures Keys(r) == FirstAppearances(Keys(table) + Titles(snaps))
  {
    shows, r := [], table;
    FirstAppearancesDistinct(Keys(table));
    assert Keys(table) + Titles(snaps[..0]) == Keys(table);
    var i := 0;
    while i < |snaps|
      invariant 0 <= i <= |snaps|
      invariant Resolved(r, table, snaps[..i], shows)
      invariant forall k :: |table| <= k < |r| ==> fresh(r[k].1) && FirstWithTitle(snaps[..i], r[k].0) == Some(r[k].1.ToDict())
      invariant Keys(r) == FirstAppearances(Keys(table) + Titles(snaps[..i]))
    {
      var sd := snaps[i];
      ghost var before := snaps[..i];
      assert snaps[..i + 1] == before + [sd];
      assert (before + [sd])[..|before|] == before;
      ghost var r0 := r;
      var show;
      if HasKey(r, sd.title) {
        show := Get(r, sd.title);
      } else {
        show := Show.FromDict(sd);
        NewTitle(r, before, sd);
        r := r + [(sd.title, show)];  // `all_shows[title] = show` with a new key
        forall k | |table| <= k < |r|
          ensures fresh(r[k].1) && FirstWithTitle(before + [sd], r[k].0) == Some(r[k].1.ToDict())
        {
          if k < |r0| {
            assert r[k] == r0[k];
          }
        }
      }
      ResolveStep(r0, r, table, before, shows, sd, show);
      KeyOrderStep(r0, r, Keys(table), before, sd);
      shows := shows + [show];
      i := i + 1;
    }
    assert snaps[..i] == snaps;
  }

  /**
    What resolving snapshots against a table keeps: the table is still keyed
    by title and only grew at the end, and each resolved show is the table's
    show for its snapshot's title.
  */
  ghost predicate Resolved(r: Items<Show>, table: Items<Show>, snaps: seq<ShowDict>, shows: seq<Show>)
  {
    && KeyedByTitle(r) && |table| <= |r| && r[..|table|] == table
    && |shows| == |snaps|
    && forall k :: 0 <= k < |snaps| ==> HasKey(r, snaps[k].title) && shows[k] == Get(r, snaps[k].title)
  }

  /** One resolution step, either a hit in the table or a new entry at its end, keeps `Resolved`. */
  lemma ResolveStep(r: Items<Show>, r': Items<Show>, table: Items<Show>,
                    snaps: seq<ShowDict>, shows: seq<Show>, sd: ShowDict, show: Show)
    requires Resolved(r, table, snaps, shows)
    requires if HasKey(r, sd.title) then r' == r && show == Get(r, sd.title)
             else r' == r + [(sd.title, show)] && show.title == sd.title
    ensures Resolved(r', table, snaps + [sd], shows + [show])
  {
    if !HasKey(r, sd.title) {
      var p := Put(r, sd.title, show);
      assert p == r';
      forall i | 0 <= i < |r'| ensures r'[i].1.title == r'[i].0 {
        if i < |r| {
          assert r'[i] == r[i];
        }
      }
      assert r'[..|table|] == r[..|table|];
      GrowKeeps(r, r', snaps, shows);
    }
    var snaps', shows' := snaps + [sd], shows + [show];
    forall k | 0 <= k < |snaps'| ensures HasKey(r', snaps'[k].title) && shows'[k] == Get(r', snaps'[k].title) {
      if k < |snaps| {
        assert snaps'[k] == snaps[k] && shows'[k] == shows[k];
      }
    }
  }

  /** Resolving one more snapshot, by a hit or by a new entry at the end, assigns its title as a dict key. */
  lemma KeyOrderStep(r: Items<Show>, r': Items<Show>, base: seq<string>, snaps: seq<ShowDict>, sd: ShowDict)
    requires Keys(r) == FirstAppearances(base + Titles(snaps))
    requires HasKey(r, sd.title) ==> r' == r
    requires !HasKey(r, sd.title) ==> |r'| == |r| + 1 && r'[..|r|] == r && r'[|r|].0 == sd.title
    ensures Keys(r') == FirstAppearances(base + Titles(snaps + [sd]))
  {
    if !HasKey(r, sd.title) {
      forall i | 0 <= i < |r| ensures r'[i].0 == r[i].0 {
        assert r'[i] == r'[..|r|][i];
      }
    }
    AssignKeyOrder(r, r', base + Titles(snaps), sd.title);
    assert Titles(snaps + [sd]) == Titles(snaps) + [sd.title];
    assert base + Titles(snaps + [sd]) == (base + Titles(snaps)) + [sd.title];
  }

  /** The watched items with their snapshots replaced by the resolved shows. */
  function Paired(shows: seq<Show>, items: seq<WatchedDict>): (es: seq<Entry>)
    requires |shows| == |items|
    ensures |es| == |items|
    ensures forall i :: 0 <= i < |items| ==> es[i] == Entry(shows[i], items[i].userRating)
  {
    seq(|items|, i requires 0 <= i < |items| => Entry(shows[i], items[i].userRating))
  }

  /** `_watched[show] = item['user_rating']` for each resolved item in turn. */
  method Assign(shows: seq<Show>, items: seq<WatchedDict>) returns (watched: seq<Entry>)
    requires |shows| == |items|
    ensures watched == Replay(Paired(shows, items))
  {
    watched := [];
    var i := 0;
    while i < |items|
      invariant 0 <= i <= |items|
      invariant watched == Replay(Paired(shows, items)[..i])
    {
      assert Paired(shows, items)[..i + 1][..i] == Paired(shows, items)[..i];
      watched := Upsert(watched, shows[i], items[i].userRating);
      i := i + 1;
    }
    assert Paired(shows, items)[..i] == Paired(shows, items);
  }

  /**
    A title that is not a key yet was in none of the snapshots resolved
    before, so the snapshot that brings it is the first with that title, and
    the first snapshot of every other key stays what it was.
  */
  lemma {:induction false} NewTitle(table: Items<Show>, seen: seq<ShowDict>, sd: ShowDict)
    requires forall k :: 0 <= k < |seen| ==> HasKey(table, seen[k].title)
    requires !HasKey(table, sd.title)
    ensures FirstWithTitle(seen + [sd], sd.title) == Some(sd)
    ensures forall k :: 0 <= k < |table| ==> FirstWithTitle(seen + [sd], table[k].0) == FirstWithTitle(seen, table[k].0)
  {
    forall k | 0 <= k < |seen| ensures seen[k].title != sd.title {
    }
    FirstWithTitleNone(seen, sd.title);
    assert (seen + [sd])[..|seen|] == seen;
  }

  /** Growing the table keeps every title resolved so far resolved to the same show. */
  lemma GrowKeeps(t: Items<Show>, t': Items<Show>, snaps: seq<ShowDict>, shows: seq<Show>)
    requires DistinctKeys(t') && |t| <= |t'| && t'[..|t|] == t
    requires |shows| == |snaps|
    requires forall k :: 0 <= k < |snaps| ==> HasKey(t, snaps[k].title) && shows[k] == Get(t, snaps[k].title)
    ensures forall k :: 0 <= k < |snaps| ==> HasKey(t', snaps[k].title) && shows[k] == Get(t', snaps[k].title)
  {
    forall k | 0 <= k < |snaps| ensures HasKey(t', snaps[k].title) && shows[k] == Get(t', snaps[k].title) {
      PrefixGet(t, t', snaps[k].title);
    }
  }

  /** `mark_as_watched` keeps the user invariant. */
  lemma KeepValid(list: seq<Show>, es: seq<Entry>, show: Show, rating: Option<real>)
    requires DistinctShows(list) && DistinctShows(WatchedShows(es))
    requires forall i :: 0 <= i < |list| ==> !Watched(es, list[i])
    ensures DistinctShows(WithoutShow(list, show))
    ensures forall i :: 0 <= i < |WithoutShow(list, show)| ==> !Watched(Upsert(es, show, rating), WithoutShow(list, show)[i])
  {
    WithoutShowDistinct(list, show);
    KeptUnwatched(list, es, show, rating);
  }

  /** What stays in the watchlist is still not watched after `show` is. */
  lemma {:induction false} KeptUnwatched(list: seq<Show>, es: seq<Entry>, show: Show, rating: Option<real>)
    requires forall i :: 0 <= i < |list| ==> !Watched(es, list[i])
    ensures forall i :: 0 <= i < |WithoutShow(list, show)| ==> !Watched(Upsert(es, show, rating), WithoutShow(list, show)[i])
  {
    if list != [] {
      forall i | 0 <= i < |list[1..]| ensures !Watched(es, list[1..][i]) {
        assert list[1..][i] == list[i + 1];
      }
      KeptUnwatched(list[1..], es, show, rating);
      if !list[0].SameShow(show) {
        StillUnwatched(es, show, rating, list[0]);
        var rest := WithoutShow(list[1..], show);
        assert WithoutShow(list, show) == [list[0]] + rest;
      }
    }
  }

  /** Watching `show` makes no show of another identity watched. */
  lemma StillUnwatched(es: seq<Entry>, show: Show, rating: Option<real>, y: Show)
    requires !Watched(es, y) && !y.SameShow(show)
    ensures !Watched(Upsert(es, show, rating), y)
  {
    var es' := Upsert(es, show, rating);
    UpsertKeys(es, show, rating);
    forall k | 0 <= k < |es'| ensures !es'[k].show.SameShow(y) {
      assert es'[k].show == WatchedShows(es')[k];
      if k < |es| {
        assert WatchedShows(es')[k] == WatchedShows(es)[k] == es[k].show;
      } else {
        assert WatchedShows(es')[k] == show;
      }
    }
  }
}
