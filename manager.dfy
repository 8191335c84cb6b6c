/**
  `ShowManager`: the show library (title -> Show) and the users
  (username -> User), adding to them, finding in them, recommending from them,
  and rebuilding both from a saved snapshot so that every user refers to the
  library's own show objects.
*/
module Manager {
  import opened Wrappers
  import opened Text
  import opened Dict
  import opened Shows
  import opened History
  import opened Users
  import opened Recommendations

  /** The saved data: the `shows` and `users` lists; a missing list reads as empty. */
  datatype StoreDict = StoreDict(shows: seq<ShowDict>, users: seq<UserDict>)

  /** `x` is the table's show under its own title. */
  ghost predicate InTable(t: Items<Show>, x: Show)
  {
    HasKey(t, x.title) && Get(t, x.title) == x
  }

  /** Every show the user refers to, listed or watched, is the table's show for its title. */
  ghost predicate UsesTable(t: Items<Show>, u: User)
    reads u
  {
    && (forall i :: 0 <= i < |u.watchlist| ==> InTable(t, u.watchlist[i]))
    && (forall i :: 0 <= i < |u.watched| ==> InTable(t, u.watched[i].show))
  }

  /** A username -> User table: every key is its user's own username. */
  ghost predicate KeyedByName(t: Items<User>)
  {
    DistinctKeys(t) && forall i :: 0 <= i < |t| ==> t[i].1.username == t[i].0
  }

  /** The last snapshot in `snaps` with title `t`. */
  function LastWithTitle(snaps: seq<ShowDict>, t: string): Option<ShowDict>
  {
    if snaps == [] then None
    else if snaps[|snaps| - 1].title == t then Some(snaps[|snaps| - 1])
    else LastWithTitle(snaps[..|snaps| - 1], t)
  }

  /** One more snapshot is the last one for its own title and changes no other title's. */
  lemma LastWithTitleStep(snaps: seq<ShowDict>, i: nat, t: string)
    requires i < |snaps|
    ensures LastWithTitle(snaps[..i + 1], t) == if snaps[i].title == t then Some(snaps[i]) else LastWithTitle(snaps[..i], t)
  {
    assert snaps[..i + 1][..i] == snaps[..i];
  }

  /** In a table keyed by title, the show under a key is in the table under its own title. */
  lemma KeyedShow(t: Items<Show>, k: string)
    requires KeyedByTitle(t) && HasKey(t, k)
    ensures InTable(t, Get(t, k))
  {
  }

  /** A show in the table stays there when the table only grows at the end. */
  lemma StillInTable(t: Items<Show>, t': Items<Show>, x: Show)
    requires DistinctKeys(t') && |t| <= |t'| && t'[..|t|] == t && InTable(t, x)
    ensures InTable(t', x)
  {
    PrefixGet(t, t', x.title);
  }

  /** Rebuilding the watched dict from table shows only ever keys it by table shows. */
  lemma {:induction false} ReplayInTable(t: Items<Show>, es: seq<Entry>)
    requires forall k :: 0 <= k < |es| ==> InTable(t, es[k].show)
    ensures forall k :: 0 <= k < |Replay(es)| ==> InTable(t, Replay(es)[k].show)
  {
    if es != [] {
      var init, last := es[..|es| - 1], es[|es| - 1];
      ReplayInTable(t, init);
      var before := Replay(init);
      UpsertInPlace(before, last.show, last.userRating);
      if !Watched(before, last.show) {
        UpsertNew(before, last.show, last.userRating);
      }
      forall k | 0 <= k < |Replay(es)| ensures InTable(t, Replay(es)[k].show) {
        if k < |before| {
          assert Replay(es)[k].show == before[k].show;
        }
      }
    }
  }

  /** A user rebuilt against table `t` refers only to shows of `t`. */
  lemma RebuiltUsesTable(t: Items<Show>, data: UserDict, list: seq<Show>, watched: seq<Entry>)
    requires KeyedByTitle(t)
    requires forall i :: 0 <= i < |data.watchlist| ==> HasKey(t, data.watchlist[i].title)
    requires forall i :: 0 <= i < |data.watched| ==> HasKey(t, data.watched[i].show.title)
    requires |list| == |data.watchlist|
    requires forall i :: 0 <= i < |data.watchlist| ==> list[i] == Get(t, data.watchlist[i].title)
    requires watched == Replay(ResolveWatched(t, data.watched))
    ensures forall i :: 0 <= i < |list| ==> InTable(t, list[i])
    ensures forall i :: 0 <= i < |watched| ==> InTable(t, watched[i].show)
  {
    forall i | 0 <= i < |list| ensures InTable(t, list[i]) {
      KeyedShow(t, data.watchlist[i].title);
    }
    var es := ResolveWatched(t, data.watched);
    forall k | 0 <= k < |es| ensures InTable(t, es[k].show) {
      KeyedShow(t, data.watched[k].show.title);
    }
    ReplayInTable(t, es);
  }

  /**
    The show half of `load_data`: `_shows[show.title] = Show.from_dict(...)`
    for each snapshot in turn.  Every title gets a key, in order of first
    appearance, holding a new show built from the last snapshot with that
    title.
  */
  method LoadShows(snaps: seq<ShowDict>) returns (t: Items<Show>)
    ensures KeyedByTitle(t)
    ensures forall k :: 0 <= k < |t| ==> fresh(t[k].1) && LastWithTitle(snaps, t[k].0) == Some(t[k].1.ToDict())
    ensures forall j :: 0 <= j < |snaps| ==> HasKey(t, snaps[j].title)
    ensures Keys(t) == FirstAppearances(Titles(snaps))
  {
    t := [];
    var i := 0;
    while i < |snaps|
      invariant 0 <= i <= |snaps|
      invariant KeyedByTitle(t)
      invariant forall k :: 0 <= k < |t| ==> fresh(t[k].1) && LastWithTitle(snaps[..i], t[k].0) == Some(t[k].1.ToDict())
      invariant forall j :: 0 <= j < i ==> HasKey(t, snaps[j].title)
      invariant Keys(t) == FirstAppearances(Titles(snaps[..i]))
    {
      var sd := snaps[i];
      var show := Show.FromDict(sd);
      ghost var t0 := t;
      if HasKey(t, show.title) {
        t := t[IndexOf(t, show.title) := (show.title, show)];  // `_shows[title] = show` on an existing key
      } else {
        t := t + [(show.title, show)];  // `_shows[title] = show` with a new key
      }
      StoreStep(t0, t, show);
      KeysStep(t0, t, snaps, i);
      StoreKeyOrder(t0, t, snaps, i, show);
      forall k | 0 <= k < |t|
        ensures fresh(t[k].1) && LastWithTitle(snaps[..i + 1], t[k].0) == Some(t[k].1.ToDict())
      {
        LastWithTitleStep(snaps, i, t[k].0);
      }
      i := i + 1;
    }
    assert snaps[..i] == snaps;
  }

  /**
    `_shows[show.title] = show` in a table keyed by title: the table stays
    keyed by title and keeps every key; the item under the show's title is
    the show, and every other item is untouched.
  */
  lemma StoreStep(t: Items<Show>, t': Items<Show>, show: Show)
    requires KeyedByTitle(t)
    requires t' == if HasKey(t, show.title) then t[IndexOf(t, show.title) := (show.title, show)] else t + [(show.title, show)]
    ensures KeyedByTitle(t') && HasKey(t', show.title)
    ensures |t| <= |t'| && forall k :: 0 <= k < |t| ==> t'[k].0 == t[k].0
    ensures forall k :: 0 <= k < |t'| ==> t'[k] == (show.title, show) || (k < |t| && t'[k] == t[k] && t[k].0 != show.title)
  {
    var r := Put(t, show.title, show);
    PutItems(t, show.title, show);
    assert r == t';
    forall k | 0 <= k < |t'| ensures t'[k].1.title == t'[k].0 {
    }
    forall k | 0 <= k < |t'| && t'[k] != (show.title, show) ensures k < |t| && t'[k] == t[k] && t[k].0 != show.title {
      if HasKey(t, show.title) {
        assert t[IndexOf(t, show.title)].0 == show.title;
      }
    }
  }

  /** Storing the show of `snaps[i]` under its title makes the keys the first appearances of the titles so far. */
  lemma StoreKeyOrder(t: Items<Show>, t': Items<Show>, snaps: seq<ShowDict>, i: nat, show: Show)
    requires i < |snaps| && show.title == snaps[i].title && DistinctKeys(t)
    requires Keys(t) == FirstAppearances(Titles(snaps[..i]))
    requires t' == if HasKey(t, show.title) then t[IndexOf(t, show.title) := (show.title, show)] else t + [(show.title, show)]
    ensures Keys(t') == FirstAppearances(Titles(snaps[..i + 1]))
  {
    if HasKey(t, show.title) {
      var p := IndexOf(t, show.title);
      assert forall k :: 0 <= k < |t| ==> t'[k].0 == t[k].0;
    } else {
      assert forall k :: 0 <= k < |t| ==> t'[k] == t[k];
    }
    AssignKeyOrder(t, t', Titles(snaps[..i]), show.title);
    TitlesStep(snaps, i);
  }

  lemma TitlesStep(snaps: seq<ShowDict>, i: nat)
    requires i < |snaps|
    ensures Titles(snaps[..i + 1]) == Titles(snaps[..i]) + [snaps[i].title]
  {
    assert snaps[..i + 1] == snaps[..i] + [snaps[i]];
    TitlesConcat(snaps[..i], [snaps[i]]);
  }

  /** A table that keeps its keys in place and gains the title of `snaps[i]` has every title of `snaps[..i + 1]`. */
  lemma KeysStep(t: Items<Show>, t': Items<Show>, snaps: seq<ShowDict>, i: nat)
    requires i < |snaps| && forall j :: 0 <= j < i ==> HasKey(t, snaps[j].title)
    requires |t| <= |t'| && forall k :: 0 <= k < |t| ==> t'[k].0 == t[k].0
    requires HasKey(t', snaps[i].title)
    ensures forall j :: 0 <= j < i + 1 ==> HasKey(t', snaps[j].title)
  {
    forall j | 0 <= j < i ensures HasKey(t', snaps[j].title) {
      var k := IndexOf(t, snaps[j].title);
      assert t'[k].0 == snaps[j].title;
    }
  }

  /** The usernames of the records, in order. */
  function Names(records: seq<UserDict>): (ns: seq<string>)
    ensures |ns| == |records|
  {
    seq(|records|, i requires 0 <= i < |records| => records[i].username)
  }

  /** Every show snapshot of the records, record by record, in the order `load_data` resolves them. */
  function AllSnapshots(records: seq<UserDict>): seq<ShowDict>
  {
    if records == [] then [] else AllSnapshots(records[..|records| - 1]) + Snapshots(records[|records| - 1])
  }

  /** The last record in `records` for username `name`. */
  function LastWithName(records: seq<UserDict>, name: string): Option<UserDict>
  {
    if records == [] then None
    else if records[|records| - 1].username == name then Some(records[|records| - 1])
    else LastWithName(records[..|records| - 1], name)
  }

  /** There is a last record for `name` exactly when some record has that name, and no later record does. */
  lemma {:induction false} LastWithNameSpec(records: seq<UserDict>, name: string)
    ensures LastWithName(records, name).None? <==> forall j :: 0 <= j < |records| ==> records[j].username != name
    ensures LastWithName(records, name).Some? ==>
      exists j :: 0 <= j < |records| && records[j] == LastWithName(records, name).value && records[j].username == name
                  && forall m :: j < m < |records| ==> records[m].username != name
  {
    if records != [] && records[|records| - 1].username != name {
      var init := records[..|records| - 1];
      LastWithNameSpec(init, name);
      if LastWithName(init, name).Some? {
        var j :| 0 <= j < |init| && init[j] == LastWithName(init, name).value && init[j].username == name
                 && forall m :: j < m < |init| ==> init[m].username != name;
        assert records[j] == init[j];
        forall m | j < m < |records| ensures records[m].username != name {
          if m < |init| {
            assert records[m] == init[m];
          }
        }
      } else {
        forall j | 0 <= j < |records| ensures records[j].username != name {
          if j < |init| {
            assert records[j] == init[j];
          }
        }
      }
    }
  }

  /** One more record is the last one for its own username and changes no other username's. */
  lemma LastWithNameStep(records: seq<UserDict>, j: nat, name: string)
    requires j < |records|
    ensures LastWithName(records[..j + 1], name) == if records[j].username == name then Some(records[j]) else LastWithName(records[..j], name)
  {
    assert records[..j + 1][..j] == records[..j];
  }

  /**
    `u` holds what `User.from_dict(data, ...)` builds once every title of
    `data` is a key of `t`: the name, the table's show for each watchlist
    title, and the watched dict assigned from the table's shows.
  */
  ghost predicate RebuiltFrom(t: Items<Show>, u: User, data: UserDict)
    reads u
  {
    && u.username == data.username
    && (forall i :: 0 <= i < |data.watchlist| ==> HasKey(t, data.watchlist[i].title))
    && (forall i :: 0 <= i < |data.watched| ==> HasKey(t, data.watched[i].show.title))
    && |u.watchlist| == |data.watchlist|
    && (forall i :: 0 <= i < |data.watchlist| ==> u.watchlist[i] == Get(t, data.watchlist[i].title))
    && u.watched == Replay(ResolveWatched(t, data.watched))
  }

  /** Every user in the table was rebuilt from the last record saved under its username. */
  ghost predicate UsersRebuilt(users: Items<User>, t: Items<Show>, records: seq<UserDict>)
    reads set i | 0 <= i < |users| :: users[i].1
  {
    forall i :: 0 <= i < |users| ==>
      LastWithName(records, users[i].0).Some? && RebuiltFrom(t, users[i].1, LastWithName(records, users[i].0).value)
  }

  /** Every show from position `from` on carries the first snapshot with its title. */
  ghost predicate NewShowsFrom(t: Items<Show>, from: nat, snaps: seq<ShowDict>)
    reads set k | 0 <= k < |t| :: t[k].1
  {
    forall k :: from <= k < |t| ==> FirstWithTitle(snaps, t[k].0) == Some(t[k].1.ToDict())
  }

  /** A user rebuilt against a table is still rebuilt against it once it has grown at the end. */
  lemma RebuiltGrows(t: Items<Show>, t': Items<Show>, u: User, data: UserDict)
    requires DistinctKeys(t') && |t| <= |t'| && t'[..|t|] == t
    requires RebuiltFrom(t, u, data)
    ensures RebuiltFrom(t', u, data)
  {
    forall i | 0 <= i < |data.watchlist|
      ensures HasKey(t', data.watchlist[i].title) && Get(t', data.watchlist[i].title) == Get(t, data.watchlist[i].title)
    {
      PrefixGet(t, t', data.watchlist[i].title);
    }
    forall i | 0 <= i < |data.watched|
      ensures HasKey(t', data.watched[i].show.title) && Get(t', data.watched[i].show.title) == Get(t, data.watched[i].show.title)
    {
      PrefixGet(t, t', data.watched[i].show.title);
    }
    assert ResolveWatched(t', data.watched) == ResolveWatched(t, data.watched);
  }

  /**
    Rebuilding `records[j]` against the table: the keys become the first
    appearances of the old keys and of every title resolved so far.
  */
  lemma TableKeys(table: Items<Show>, r0: Items<Show>, r: Items<Show>, records: seq<UserDict>, j: nat)
    requires j < |records|
    requires Keys(r0) == FirstAppearances(Keys(table) + Titles(AllSnapshots(records[..j])))
    requires Keys(r) == FirstAppearances(Keys(r0) + Titles(Snapshots(records[j])))
    ensures Keys(r) == FirstAppearances(Keys(table) + Titles(AllSnapshots(records[..j + 1])))
  {
    AllSnapshotsStep(records, j);
    AbsorbTitles(Keys(table), AllSnapshots(records[..j]), Snapshots(records[j]));
  }

  lemma AllSnapshotsStep(records: seq<UserDict>, j: nat)
    requires j < |records|
    ensures AllSnapshots(records[..j + 1]) == AllSnapshots(records[..j]) + Snapshots(records[j])
  {
    assert records[..j + 1][..j] == records[..j];
  }

  /** Resolving `a`'s titles and then `b`'s after the keys `ks` gives the key order of resolving `a + b`. */
  lemma AbsorbTitles(ks: seq<string>, a: seq<ShowDict>, b: seq<ShowDict>)
    ensures FirstAppearances(FirstAppearances(ks + Titles(a)) + Titles(b)) == FirstAppearances(ks + Titles(a + b))
  {
    TitlesConcat(a, b);
    FirstAppearancesAbsorb(ks + Titles(a), Titles(b));
    assert ks + Titles(a + b) == (ks + Titles(a)) + Titles(b);
  }

  /** A title that is not a key yet is the title of no snapshot resolved so far. */
  lemma NotResolvedYet(table: Items<Show>, r: Items<Show>, a: seq<ShowDict>, title: string)
    requires Keys(r) == FirstAppearances(Keys(table) + Titles(a))
    requires !HasKey(r, title)
    ensures FirstWithTitle(a, title) == None
  {
    HasKeyKeys(r, title);
    FirstAppearancesSpec(Keys(table) + Titles(a));
    forall m | 0 <= m < |a| ensures a[m].title != title {
      assert (Keys(table) + Titles(a))[|Keys(table)| + m] == a[m].title;
    }
    FirstWithTitleNone(a, title);
  }

  /** Past the end of a prefix of a table with distinct keys lie only keys the prefix lacks. */
  lemma PastPrefix(r0: Items<Show>, r: Items<Show>, k: nat)
    requires DistinctKeys(r) && |r0| <= k < |r| && r[..|r0|] == r0
    ensures !HasKey(r0, r[k].0)
  {
  }

  /** Rebuilding `records[j]` against the table: every show added while loading users carries the first snapshot of its title. */
  lemma TableNewShows(table: Items<Show>, r0: Items<Show>, r: Items<Show>, records: seq<UserDict>, j: nat)
    requires j < |records|
    requires DistinctKeys(r) && |table| <= |r0| <= |r| && r[..|r0|] == r0
    requires Keys(r0) == FirstAppearances(Keys(table) + Titles(AllSnapshots(records[..j])))
    requires NewShowsFrom(r0, |table|, AllSnapshots(records[..j]))
    requires forall i :: |r0| <= i < |r| ==> FirstWithTitle(Snapshots(records[j]), r[i].0) == Some(r[i].1.ToDict())
    ensures NewShowsFrom(r, |table|, AllSnapshots(records[..j + 1]))
  {
    var a, b := AllSnapshots(records[..j]), Snapshots(records[j]);
    AllSnapshotsStep(records, j);
    forall k | |table| <= k < |r| ensures FirstWithTitle(a + b, r[k].0) == Some(r[k].1.ToDict()) {
      FirstWithTitleConcat(a, b, r[k].0);
      if k < |r0| {
        assert r[k] == r[..|r0|][k] == r0[k];
      } else {
        PastPrefix(r0, r, k);
        NotResolvedYet(table, r0, a, r[k].0);
      }
    }
  }

  /** Storing the rebuilt `records[j]` keeps every stored user rebuilt from the last record for its name. */
  lemma UsersStep(users0: Items<User>, users: Items<User>, r0: Items<Show>, r: Items<Show>,
                  records: seq<UserDict>, j: nat, user: User)
    requires j < |records| && user.username == records[j].username
    requires DistinctKeys(r) && |r0| <= |r| && r[..|r0|] == r0
    requires UsersRebuilt(users0, r0, records[..j])
    requires RebuiltFrom(r, user, records[j])
    requires forall i :: 0 <= i < |users| ==>
      users[i] == (user.username, user) || (i < |users0| && users[i] == users0[i] && users0[i].0 != user.username)
    ensures UsersRebuilt(users, r, records[..j + 1])
  {
    forall i | 0 <= i < |users|
      ensures LastWithName(records[..j + 1], users[i].0).Some?
      ensures RebuiltFrom(r, users[i].1, LastWithName(records[..j + 1], users[i].0).value)
    {
      LastWithNameStep(records, j, users[i].0);
      if users[i] != (user.username, user) {
        RebuiltGrows(r0, r, users0[i].1, LastWithName(records[..j], users0[i].0).value);
      }
    }
  }

  /**
    The user half of `load_data`: `_users[user.username] = User.from_dict(...)`
    for each record in turn, every record resolved against the same growing
    table.  The usernames become keys in order of first appearance, each
    holding a new user rebuilt from the last record with that name; the
    table keeps its old entries and gains, in order of first appearance, the
    titles the records name that it lacked, each with a new show built from
    the first snapshot of that title.
  */
  method LoadUsers(records: seq<UserDict>, table: Items<Show>) returns (users: Items<User>, r: Items<Show>)
    requires KeyedByTitle(table)
    ensures KeyedByTitle(r) && |table| <= |r| && r[..|table|] == table
    ensures Keys(r) == FirstAppearances(Keys(table) + Titles(AllSnapshots(records)))
    ensures forall k :: |table| <= k < |r| ==> fresh(r[k].1)
    ensures NewShowsFrom(r, |table|, AllSnapshots(records))
    ensures KeyedByName(users) && Keys(users) == FirstAppearances(Names(records))
    ensures forall name :: HasKey(users, name) <==> exists j :: 0 <= j < |records| && records[j].username == name
    ensures forall i :: 0 <= i < |users| ==> fresh(users[i].1) && UsesTable(r, users[i].1)
    ensures UsersRebuilt(users, r, records)
  {
    users, r := [], table;
    FirstAppearancesDistinct(Keys(table));
    assert Keys(table) + Titles(AllSnapshots(records[..0])) == Keys(table);
    var j := 0;
    while j < |records|
      invariant 0 <= j <= |records|
      invariant KeyedByTitle(r) && |table| <= |r| && r[..|table|] == table
      invariant Keys(r) == FirstAppearances(Keys(table) + Titles(AllSnapshots(records[..j])))
      invariant forall k :: |table| <= k < |r| ==> fresh(r[k].1)
      invariant NewShowsFrom(r, |table|, AllSnapshots(records[..j]))
      invariant KeyedByName(users) && Keys(users) == FirstAppearances(Names(records[..j]))
      invariant forall i :: 0 <= i < |users| ==> fresh(users[i].1)
      invariant UsersRebuilt(users, r, records[..j])
    {
      ghost var r0, users0 := r, users;
      users, r := StoreNext(records, j, table, users, r);
      PrefixOfPrefix(table, r0, r);
      forall k | |table| <= k < |r| ensures fresh(r[k].1) {
        if k < |r0| {
          assert r[k] == r[..|r0|][k];
        }
      }
      j := j + 1;
    }
    assert records[..j] == records;
    UsernameKeys(users, records);
    UsersUseTable(users, r, records);
  }

  /**
    One turn of the user loop of `load_data`: rebuild `records[j]` against
    the table with `User.from_dict` and store the user under its username.
  */
  method StoreNext(records: seq<UserDict>, j: nat, table: Items<Show>, users: Items<User>, r: Items<Show>)
    returns (users': Items<User>, r': Items<Show>)
    requires j < |records|
    requires KeyedByTitle(r) && |table| <= |r|
    requires Keys(r) == FirstAppearances(Keys(table) + Titles(AllSnapshots(records[..j])))
    requires NewShowsFrom(r, |table|, AllSnapshots(records[..j]))
    requires KeyedByName(users) && Keys(users) == FirstAppearances(Names(records[..j]))
    requires UsersRebuilt(users, r, records[..j])
    ensures KeyedByTitle(r') && |r| <= |r'| && r'[..|r|] == r
    ensures forall k :: |r| <= k < |r'| ==> fresh(r'[k].1)
    ensures Keys(r') == FirstAppearances(Keys(table) + Titles(AllSnapshots(records[..j + 1])))
    ensures NewShowsFrom(r', |table|, AllSnapshots(records[..j + 1]))
    ensures KeyedByName(users') && Keys(users') == FirstAppearances(Names(records[..j + 1]))
    ensures forall i :: 0 <= i < |users'| ==> fresh(users'[i].1) || (i < |users| && users'[i] == users[i])
    ensures UsersRebuilt(users', r', records[..j + 1])
  {
    var user;
    user, r' := User.FromDict(records[j], r);
    TableKeys(table, r, r', records, j);
    TableNewShows(table, r, r', records, j);
    if HasKey(users, user.username) {
      users' := users[IndexOf(users, user.username) := (user.username, user)];  // `_users[name] = user` on an existing key
    } else {
      users' := users + [(user.username, user)];  // `_users[name] = user` with a new key
    }
    NameStep(users, users', user, records, j);
    UsersStep(users, users', r, r', records, j, user);
  }

  /** Keys that are the first appearances of the records' usernames are exactly those usernames. */
  lemma UsernameKeys(users: Items<User>, records: seq<UserDict>)
    requires Keys(users) == FirstAppearances(Names(records))
    ensures forall name :: HasKey(users, name) <==> exists j :: 0 <= j < |records| && records[j].username == name
  {
    FirstAppearancesSpec(Names(records));
    forall name ensures HasKey(users, name) <==> exists j :: 0 <= j < |records| && records[j].username == name {
      HasKeyKeys(users, name);
      if exists j :: 0 <= j < |records| && records[j].username == name {
        var j :| 0 <= j < |records| && records[j].username == name;
        assert Names(records)[j] == name;
      }
    }
  }

  /** Users rebuilt against a title-keyed table refer only to its shows. */
  lemma UsersUseTable(users: Items<User>, t: Items<Show>, records: seq<UserDict>)
    requires KeyedByTitle(t) && UsersRebuilt(users, t, records)
    ensures forall i :: 0 <= i < |users| ==> UsesTable(t, users[i].1)
  {
    forall i | 0 <= i < |users| ensures UsesTable(t, users[i].1) {
      var u := users[i].1;
      RebuiltUsesTable(t, LastWithName(records, users[i].0).value, u.watchlist, u.watched);
    }
  }

  /** A prefix of a prefix is a prefix, and what lies past it in the longer table lies past it in the shorter too. */
  lemma PrefixOfPrefix(t: Items<Show>, t': Items<Show>, t'': Items<Show>)
    requires |t| <= |t'| && t'[..|t|] == t && |t'| <= |t''| && t''[..|t'|] == t'
    ensures |t| <= |t''| && t''[..|t|] == t
    ensures forall k :: |t| <= k < |t'| ==> t''[k] == t'[k]
  {
    assert t''[..|t|] == t''[..|t'|][..|t|];
    forall k | |t| <= k < |t'| ensures t''[k] == t'[k] {
      assert t''[k] == t''[..|t'|][k];
    }
  }

  /**
    Storing one more rebuilt user under its username keeps the user table
    keyed by name, adds that name in order of first appearance, and leaves
    every other user in its place.
  */
  lemma {:induction false} NameStep(users: Items<User>, r: Items<User>, user: User, records: seq<UserDict>, j: nat)
    requires KeyedByName(users) && j < |records| && user.username == records[j].username
    requires Keys(users) == FirstAppearances(Names(records[..j]))
    requires r == if HasKey(users, user.username) then users[IndexOf(users, user.username) := (user.username, user)]
                  else users + [(user.username, user)]
    ensures KeyedByName(r)
    ensures Keys(r) == FirstAppearances(Names(records[..j + 1]))
    ensures forall i :: 0 <= i < |r| ==> r[i] == (user.username, user) || (i < |users| && r[i] == users[i] && users[i].0 != user.username)
  {
    var k := user.username;
    PutItems(users, k, user);
    assert Put(users, k, user) == r;
    forall i | 0 <= i < |r| ensures r[i].1.username == r[i].0 {
    }
    if HasKey(users, k) {
      assert users[IndexOf(users, k)].0 == k;
    }
    forall i | 0 <= i < |r| && r[i] != (k, user) ensures i < |users| && r[i] == users[i] && users[i].0 != k {
      if HasKey(users, k) {
        assert users[IndexOf(users, k)].0 == k;
      }
    }
    AssignKeyOrder(users, r, Names(records[..j]), k);
    assert Names(records[..j + 1]) == Names(records[..j]) + [k];
  }

  /** The users that referred only to shows of `t` still do once `t` has grown at the end. */
  lemma GrownTable(t: Items<Show>, t': Items<Show>, users: Items<User>)
    requires DistinctKeys(t') && |t| <= |t'| && t'[..|t|] == t
    requires forall i :: 0 <= i < |users| ==> UsesTable(t, users[i].1)
    ensures forall i :: 0 <= i < |users| ==> UsesTable(t', users[i].1)
  {
    forall i | 0 <= i < |users| ensures UsesTable(t', users[i].1) {
      var u := users[i].1;
      forall k | 0 <= k < |u.watchlist| ensures InTable(t', u.watchlist[k]) {
        StillInTable(t, t', u.watchlist[k]);
      }
      forall k | 0 <= k < |u.watched| ensures InTable(t', u.watched[k].show) {
        StillInTable(t, t', u.watched[k].show);
      }
    }
  }

  /** Loading the users only adds shows at the end, so every saved title keeps the show of its last snapshot. */
  lemma SavedShowsKept(snaps: seq<ShowDict>, t: Items<Show>, t': Items<Show>)
    requires DistinctKeys(t') && |t| <= |t'| && t'[..|t|] == t
    requires forall j :: 0 <= j < |snaps| ==> HasKey(t, snaps[j].title)
    requires forall k :: 0 <= k < |t| ==> LastWithTitle(snaps, t[k].0) == Some(t[k].1.ToDict())
    ensures forall j :: 0 <= j < |snaps| ==>
      HasKey(t', snaps[j].title) && LastWithTitle(snaps, snaps[j].title) == Some(t'[IndexOf(t', snaps[j].title)].1.ToDict())
  {
    forall j | 0 <= j < |snaps| {
      SavedShowKept(snaps, t, t', snaps[j].title);
    }
  }

  lemma SavedShowKept(snaps: seq<ShowDict>, t: Items<Show>, t': Items<Show>, title: string)
    requires DistinctKeys(t') && |t| <= |t'| && t'[..|t|] == t && HasKey(t, title)
    requires forall k :: 0 <= k < |t| ==> LastWithTitle(snaps, t[k].0) == Some(t[k].1.ToDict())
    ensures HasKey(t', title) && LastWithTitle(snaps, title) == Some(t'[IndexOf(t', title)].1.ToDict())
  {
    var p := IndexOf(t, title);
    PrefixGet(t, t', title);
    assert t'[p] == t'[..|t|][p];
  }

  /** `Loaded` over the two tables themselves. */
  ghost predicate LoadedInto(shows: Items<Show>, users: Items<User>, data: StoreDict)
    reads set k | 0 <= k < |shows| :: shows[k].1, set i | 0 <= i < |users| :: users[i].1
  {
    && (forall j :: 0 <= j < |data.shows| ==>
          HasKey(shows, data.shows[j].title)
          && LastWithTitle(data.shows, data.shows[j].title) == Some(shows[IndexOf(shows, data.shows[j].title)].1.ToDict()))
    && Keys(shows) == FirstAppearances(Titles(data.shows) + Titles(AllSnapshots(data.users)))
    && NewShowsFrom(shows, |FirstAppearances(Titles(data.shows))|, AllSnapshots(data.users))
    && (forall name :: HasKey(users, name) <==> exists j :: 0 <= j < |data.users| && data.users[j].username == name)
    && Keys(users) == FirstAppearances(Names(data.users))
    && UsersRebuilt(users, shows, data.users)
  }

  /** What `LoadShows` and then `LoadUsers` promise about their tables is what `load_data` leaves behind. */
  lemma LoadedIntoBoth(data: StoreDict, t: Items<Show>, t': Items<Show>, us: Items<User>)
    requires KeyedByTitle(t) && Keys(t) == FirstAppearances(Titles(data.shows))
    requires forall k :: 0 <= k < |t| ==> LastWithTitle(data.shows, t[k].0) == Some(t[k].1.ToDict())
    requires forall j :: 0 <= j < |data.shows| ==> HasKey(t, data.shows[j].title)
    requires KeyedByTitle(t') && |t| <= |t'| && t'[..|t|] == t
    requires Keys(t') == FirstAppearances(Keys(t) + Titles(AllSnapshots(data.users)))
    requires NewShowsFrom(t', |t|, AllSnapshots(data.users))
    requires Keys(us) == FirstAppearances(Names(data.users))
    requires forall name :: HasKey(us, name) <==> exists j :: 0 <= j < |data.users| && data.users[j].username == name
    requires UsersRebuilt(us, t', data.users)
    ensures LoadedInto(t', us, data)
  {
    SavedShowsKept(data.shows, t, t');
    FirstAppearancesAbsorb(Titles(data.shows), Titles(AllSnapshots(data.users)));
  }

  /** The two halves of `load_data` in turn: the show table, then the users rebuilt against it. */
  method Rebuild(data: StoreDict) returns (t: Items<Show>, us: Items<User>)
    ensures KeyedByTitle(t) && KeyedByName(us)
    ensures forall i :: 0 <= i < |us| ==> UsesTable(t, us[i].1)
    ensures LoadedInto(t, us, data)
    ensures forall k :: 0 <= k < |t| ==> fresh(t[k].1)
    ensures forall i :: 0 <= i < |us| ==> fresh(us[i].1)
  {
    var saved := LoadShows(data.shows);
    us, t := LoadUsers(data.users, saved);
    LoadedIntoBoth(data, saved, t, us);
    forall k | 0 <= k < |saved| ensures t[k] == saved[k] {
      assert t[k] == t[..|saved|][k];
    }
  }

  class ShowManager {
    var shows: Items<Show>
    var users: Items<User>

    /** The user objects held in the user table. */
    ghost function UserObjects(): set<User>
      reads this
    {
      set i | 0 <= i < |users| :: users[i].1
    }

    /**
      The invariant: the show table is keyed by title, the user table by
      username, and every user refers only to the library's own shows.
    */
    ghost predicate Valid()
      reads this, UserObjects()
    {
      && KeyedByTitle(shows)
      && KeyedByName(users)
      && forall i :: 0 <= i < |users| ==> UsesTable(shows, users[i].1)
    }

    /**
      What `load_data` leaves behind for a saved snapshot: the show keys are
      the saved titles and then the titles only the users' snapshots name,
      each where it first appears; a saved title holds the last snapshot
      saved under it, any other title the first user snapshot with it; the
      usernames are the saved ones in order of first appearance, each
      holding the user rebuilt from the last record with that name.
    */
    ghost predicate Loaded(data: StoreDict)
      reads this, set k | 0 <= k < |shows| :: shows[k].1, UserObjects()
    {
      LoadedInto(shows, users, data)
    }

    /** `__init__` with the saved data, or `None` when there is no data file to load. */
    constructor (saved: Option<StoreDict>)
      ensures Valid()
      ensures saved.None? ==> shows == [] && users == []
      ensures saved.Some? ==> Loaded(saved.value)
      ensures forall k :: 0 <= k < |shows| ==> fresh(shows[k].1)
      ensures forall i :: 0 <= i < |users| ==> fresh(users[i].1)
    {
      shows := [];
      users := [];
      new;
      if saved.Some? {
        LoadData(saved.value);
      }
    }

    /**
      `load_data` once the file has been parsed: clear both tables, load the
      shows, then rebuild every user against the show table.
    */
    method LoadData(data: StoreDict)
      modifies this
      ensures Valid() && Loaded(data)
      ensures forall k :: 0 <= k < |shows| ==> fresh(shows[k].1)
      ensures forall i :: 0 <= i < |users| ==> fresh(users[i].1)
    {
      var t, us := Rebuild(data);
      shows, users := t, us;
    }

    /**
      `add_show`: refused, with nothing changed, when the exact title is a key
      already; otherwise a new show with no user ratings joins the end of the
      library.  The rating is taken as given.
    */
    method AddShow(title: string, genre: string, duration: int, rating: real) returns (added: bool)
      modifies this`shows
      ensures added <==> !HasKey(old(shows), title)
      ensures !added ==> shows == old(shows)
      ensures added ==> |shows| == |old(shows)| + 1 && shows[..|old(shows)|] == old(shows)
      ensures added ==> shows[|old(shows)|].0 == title && fresh(shows[|old(shows)|].1)
                        && shows[|old(shows)|].1.ToDict() == ShowDict(title, genre, duration, rating, [])
      ensures old(Valid()) ==> Valid()
    {
      if HasKey(shows, title) {
        return false;
      }
      ghost var wasValid := Valid();
      ghost var t0 := shows;
      var show := new Show(title, genre, duration, rating);
      shows := shows + [(title, show)];  // `_shows[title] = show` with a new key
      added := true;
      assert shows[..|t0|] == t0;
      if wasValid {
        forall i, j | 0 <= i < j < |shows| ensures shows[i].0 != shows[j].0 {
          assert shows[i] == t0[i];
          if j < |t0| {
            assert shows[j] == t0[j];
          }
        }
        forall k | 0 <= k < |shows| ensures shows[k].1.title == shows[k].0 {
          if k < |t0| {
            assert shows[k] == t0[k];
          }
        }
        GrownTable(t0, shows, users);
      }
    }

    /**
      `create_user`: refused, with nothing changed, when the exact username is
      a key already; otherwise a new user with empty collections joins the
      end of the user table.
    */
    method CreateUser(username: string) returns (added: bool)
      modifies this`users
      ensures added <==> !HasKey(old(users), username)
      ensures !added ==> users == old(users)
      ensures added ==> |users| == |old(users)| + 1 && users[..|old(users)|] == old(users)
      ensures added ==> var u := users[|old(users)|].1;
                        users[|old(users)|].0 == username && fresh(u) && u.username == username
                        && u.watchlist == [] && u.watched == []
      ensures old(Valid()) ==> Valid()
    {
      if HasKey(users, username) {
        return false;
      }
      ghost var wasValid := Valid();
      ghost var users0 := users;
      var user := new User(username);
      users := users + [(username, user)];  // `_users[username] = user` with a new key
      added := true;
      assert users[..|users0|] == users0;
      if wasValid {
        forall i, j | 0 <= i < j < |users| ensures users[i].0 != users[j].0 {
          assert users[i] == users0[i];
          if j < |users0| {
            assert users[j] == users0[j];
          }
        }
        forall i | 0 <= i < |users| ensures users[i].1.username == users[i].0 && UsesTable(shows, users[i].1) {
          if i < |users0| {
            assert users[i] == users0[i];
          }
        }
      }
    }

    /** `get_show`: the exact title, else the first title equal to it once lower-cased. */
    method GetShow(title: string) returns (r: Option<Show>)
      ensures r == Resolve(shows, title)
    {
      r := Lookup(shows, title);
    }

    /** `get_user`: the exact username, else the first username equal to it once lower-cased. */
    method GetUser(username: string) returns (r: Option<User>)
      ensures r == Resolve(users, username)
    {
      r := Lookup(users, username);
    }

    /**
      `get_recommendations`: nothing for an unknown user, otherwise the list
      `Recommend` describes for that user's collections and the whole library.
    */
    method GetRecommendations(username: string, limit: int) returns (r: Option<seq<Show>>)
      ensures Resolve(users, username).None? ==> r.None?
      ensures Resolve(users, username).Some? ==>
        var u := Resolve(users, username).value;
        r == Some(Recommend(u.watched, u.watchlist, Values(shows), limit))
    {
      var found := GetUser(username);
      if found.None? {
        return None;
      }
      var user := found.value;
      r := Some(Recommend(user.watched, user.watchlist, Values(shows), limit));
    }
  }

  /**
    Titles that differ only in case are different keys: both `add_show` calls
    succeed, and a lookup of either spelling's upper-case form finds the first.
  */
  method CaseVariantTitles() returns (first: bool, second: bool, found: Option<Show>)
    ensures first && second
    ensures found.Some? && found.value.title == "Dark"
  {
    var m := new ShowManager(None);
    first := m.AddShow("Dark", "Drama", 60, 8.0);
    second := m.AddShow("dark", "Drama", 45, 7.0);
    found := m.GetShow("DARK");
    assert !HasKey(m.shows, "DARK");
    assert Lower(m.shows[0].0) == Lower("DARK");
  }
}
