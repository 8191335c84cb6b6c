# Show Manager — a Dafny model of its data model

`Film_Manager_Final.py` keeps a library of shows and a set of users in memory.
Each user has a watchlist and a watched history that refer to the library's
own `Show` objects. This project models that data model in Dafny and proves what its
operations promise:

- **Show** (`shows.dfy`, `ratings.dfy`): a class whose title, genre and
  duration are fixed and whose rating and user ratings change in place.
  - The rating setter and `add_user_rating` range-check their argument.
  - `add_user_rating` keeps the rating equal to the exact mean of the user ratings.
  - Identity is the lower-cased title, and the order is by rating.
  - `to_dict`/`from_dict` round-trip a snapshot datatype.
- **User** (`users.dfy`, `history.dfy`, `statistics.dfy`): a class with a
  watchlist (`seq<Show>`) and a watched dict. The dict is the insertion-ordered list of its
  items, keyed by show identity.
  - `add_to_watchlist` and `mark_as_watched` keep the user invariant: no
    identity twice in either collection, and none in both.
  - The statistics are the total watch time, the genre `Counter` and the
    average rating given.
  - `from_dict` rebuilds a user against a shared title -> Show table, so one
    title is one object.
- **ShowManager** (`manager.dfy`, `recommendations.dfy`, `dict.dfy`): a class
  over two insertion-ordered dicts, title -> Show and username -> User.
  - Adding refuses an exact existing key. Lookup tries the exact key first,
    then the first key that matches once lower-cased.
  - Recommendations take the favourite genre, filter it, sort it stably by
    descending rating and apply Python's `[:limit]`.
  - The reconstruction half of `load_data` loads the shows first, then the
    users against the same table. Its invariant `Valid()` says that every
    show a user refers to is the library's show under that show's own title.
    Both tables come out in Python's key order (each key where it was first
    assigned), and each username holds the user rebuilt from the last record
    saved under it.

Python dicts are association lists (`Dict.Items`):
- `d[k] = v` on a new key appends.
- On an existing key it keeps the key and its place and replaces the value.

The watched dict is keyed by `Show.__eq__`/`__hash__`. So assigning a show whose
title differs only in case from an existing key keeps the old key object
(`History.Upsert`). `str.lower()` is ASCII lower-casing (`Text.Lower`).
Ratings are exact `real`s. A `ValueError` is the `Fail` outcome of `Ratings.Outcome`.

Where the code is the only authority, the model follows it:
- The favourite genre among equally frequent genres is the one watched
  first, because `Counter` keeps first-occurrence order and `max` keeps the
  first maximum.
- `mark_as_watched` can fail: an out-of-range rating raises from
  `add_user_rating` after the watchlist and watched dict have already been
  updated.
- `add_show`/`create_user` compare exact keys, so titles that differ only in
  case coexist in the library (`Manager.CaseVariantTitles`).

## Model

| member | source | states |
|---|---|---|
| Ratings.MeanInRange | Film_Manager_Final.py:81-87 | a mean of ratings that are all in [0, 10] is in [0, 10] |
| Ratings.MeanAppend | Film_Manager_Final.py:81-87 | appending a rating moves the mean to the weighted combination of the old mean and the new rating |
| Shows.Show.constructor | Film_Manager_Final.py:50-55 | the new show carries the given title, genre, duration and rating, unchecked, and no user ratings |
| Shows.Show.SetRating | Film_Manager_Final.py:74-79 | an in-range value becomes the rating; otherwise it fails with the range message and the rating is unchanged; user ratings are never touched |
| Shows.Show.AddUserRating | Film_Manager_Final.py:81-87 | an in-range value is appended and the rating becomes the mean of all user ratings, which stays in range; otherwise it fails and nothing changes |
| Shows.RateTwice | Film_Manager_Final.py:81-87 | two valid ratings on a show without any make its rating their average |
| Shows.Show.FromDict | Film_Manager_Final.py:113-128 | a new show whose `to_dict` snapshot is exactly the snapshot it was built from |
| Shows.RoundTrip | Film_Manager_Final.py:113-128 | `from_dict(to_dict())` gives a new show equal to the original in every field, and so the same show by `__eq__` |
| Shows.IdentityLaws | Film_Manager_Final.py:96-103 | `__eq__` is reflexive, symmetric and transitive, and two shows are equal exactly when their `__hash__` keys (lower-cased titles) are equal |
| Shows.CaseOnlyIdentity | Film_Manager_Final.py:96-103 | "Dark" and "DARK" are the same show whatever their other fields, and "Dune" is a different one |
| Shows.SortByRatingDesc | Film_Manager_Final.py:105-107 | the sort returns a permutation of its input |
| Shows.SortByRatingDescSorted | Film_Manager_Final.py:105-107 | ratings never increase along the sorted list (`sort(reverse=True)` by `__lt__`) |
| Shows.SortByRatingDescByLt | Film_Manager_Final.py:105-107 | in `__lt__` terms, no show of the sorted list is rated below a show after it |
| Shows.SortByRatingDescStable | Film_Manager_Final.py:105-107 | shows of equal rating keep their input order |
| Dict.Put | Film_Manager_Final.py:272 | `d[k] = v`: keys stay distinct, `k` maps to `v`, every other key keeps its presence, its value and its place, and a new key is appended |
| Dict.HasKeyKeys | Film_Manager_Final.py:267 | `k in d` (the key tests of `add_show`, `create_user` and `User.from_dict`) holds exactly when `k` is in `list(d.keys())` |
| Dict.FirstAppearancesSpec | Film_Manager_Final.py:531-539 | the key order a run of assignments produces holds every assigned key, no other, and none twice |
| Dict.FirstAppearancesAbsorb | Film_Manager_Final.py:531-539 | assigning keys `b` after a dict whose keys came from `a` gives the key order of assigning `a` and then `b` |
| Dict.AssignKeyOrder | Film_Manager_Final.py:272 | `d[k] = v` on a dict whose keys are the first appearances of the keys assigned so far makes them the first appearances of those keys followed by `k` |
| Dict.ResolveSpec | Film_Manager_Final.py:288-321 | lookup policy: the exact key wins; otherwise the first key, in insertion order, equal once lower-cased; nothing exactly when no key matches case-insensitively |
| Dict.Lookup | Film_Manager_Final.py:288-321 | the scan returns what the lookup policy `Resolve` names |
| History.WithoutShowDrops | Film_Manager_Final.py:171-172 | after the filter no watchlist show has the identity of the watched show |
| History.WithoutShowKeeps | Film_Manager_Final.py:171-172 | the filter adds nothing and keeps every show of another identity as often as it was there |
| History.WithoutShowConcat | Film_Manager_Final.py:171-172 | the filter distributes over concatenation, so kept shows keep their relative order |
| History.WithoutShowUnlisted | Film_Manager_Final.py:171-172 | a watchlist without the show is left unchanged |
| History.WithoutShowDistinct | Film_Manager_Final.py:171-172 | filtering a watchlist without repeated identities leaves none repeated |
| History.UpsertKeys | Film_Manager_Final.py:175 | `_watched[show] = r`: the keys are the old keys, plus `show` appended exactly when no key had its identity; items of other identities are untouched |
| History.UpsertInPlace | Film_Manager_Final.py:175 | every existing item keeps its key object and place; the dict grows exactly when the identity is new |
| History.UpsertDistinct | Film_Manager_Final.py:175 | keys stay distinct by identity and the key with the show's identity now maps to the given rating |
| History.UpsertHit | Film_Manager_Final.py:175 | assigning to an existing identity rewrites that item's rating in place |
| Statistics.UpsertWatchTime | Film_Manager_Final.py:184-186 | marking a show as watched adds its duration to the total exactly when it is new to the history |
| Statistics.TotalWatchTimeConcat | Film_Manager_Final.py:184-186 | the total watch time of the watched dict adds up item by item: splitting the items anywhere splits the total |
| Statistics.BumpSpec | Film_Manager_Final.py:188-191 | counting one more genre adds one to its count and changes no other genre's |
| Statistics.BumpTotal | Film_Manager_Final.py:188-191 | counting one more genre adds one to the sum of counts |
| Statistics.TallyKeys | Film_Manager_Final.py:188-191 | the distribution's keys are exactly the genres watched |
| Statistics.TallySpec | Film_Manager_Final.py:188-191 | each genre's count is its number of occurrences, and the counts add up to the number of watched shows |
| Statistics.TallyOrder | Film_Manager_Final.py:188-191 | the distribution lists genres in order of first appearance in the watched history |
| Statistics.FirstMax | Film_Manager_Final.py:447 | `max(..., key=get)` picks a largest count, and the first one among equals |
| Statistics.FavouriteGenreSpec | Film_Manager_Final.py:441-447 | no favourite genre exactly when nothing is watched; otherwise a most-watched genre, the first of equals to appear in the history |
| Statistics.AverageRatingGiven | Film_Manager_Final.py:193-196 | 0.0 without ratings, otherwise the value whose product with their number is their sum; in range when they are |
| Users.User.constructor | Film_Manager_Final.py:134-137 | a user with the given name and empty collections |
| Users.User.AddToWatchlist | Film_Manager_Final.py:152-166 | added exactly when no listed or watched show has the same lower-cased title, then appended, otherwise nothing changes; keeps the user invariant |
| Users.User.MarkAsWatched | Film_Manager_Final.py:169-182 | the watchlist loses the show's identity, the watched dict maps it to the rating, the rating is recorded on the show when given, an out-of-range rating fails after the collections changed, and the user invariant holds afterwards |
| Users.KeepValid | Film_Manager_Final.py:169-182 | after `mark_as_watched` the watchlist still has distinct identities and none of them is watched |
| Users.StillUnwatched | Film_Manager_Final.py:175 | watching a show makes no show of another identity watched |
| Users.ReplayDistinct | Film_Manager_Final.py:243-250 | however a snapshot repeats a show, the rebuilt watched dict has distinct identities |
| Users.ResolveAll | Film_Manager_Final.py:229-250 | each snapshot resolves to the table's show for its exact title; the table only grows at the end, with new shows built from the first snapshot of their title, and its keys are the old keys followed by the new titles in order of first appearance |
| Users.KeyOrderStep | Film_Manager_Final.py:233-238 | resolving one more snapshot, which adds its title only when it is missing, extends the key order by that title's first appearance |
| Users.FirstWithTitleConcat | Film_Manager_Final.py:233-238 | the first snapshot of a title in `a + b` is its first in `a`, or else its first in `b` |
| Users.NewTitle | Film_Manager_Final.py:233-238 | a title not yet in the table was in no earlier snapshot, so its first snapshot is the current one |
| Users.Assign | Film_Manager_Final.py:243-250 | assigning the resolved watched items in turn builds the replayed watched dict |
| Users.User.FromDict | Film_Manager_Final.py:224-252 | a new user whose watchlist entries are the table's shows for their titles and whose watched dict is built from the table's shows; old table entries are unchanged, and unseen titles are appended, in order of first appearance, with new shows built from their first snapshot |
| Recommendations.TitleSets | Film_Manager_Final.py:450-451 | a lower-cased title is in the watched (watchlist) title set exactly when a show of that identity is watched (listed) |
| Recommendations.Candidates | Film_Manager_Final.py:453-458 | every candidate is a library show of the genre whose lower-cased title is in neither set |
| Recommendations.CandidatesSpec | Film_Manager_Final.py:453-458 | each show passing the filter is kept as often as the library holds it, and no other show is kept |
| Recommendations.CandidatesConcat | Film_Manager_Final.py:453-458 | the comprehension keeps library order |
| Recommendations.SliceEnd | Film_Manager_Final.py:462 | `[:limit]` never runs past the end of the list |
| Recommendations.DescendingPrefix | Film_Manager_Final.py:461-462 | a prefix of a descending list is descending, and nothing after it rates higher |
| Recommendations.TopOf | Film_Manager_Final.py:461-462 | the slice of a descending permutation holds `limit` candidates (all if fewer, all but the last `-limit` when negative), and no left-out candidate rates higher than a kept one |
| Recommendations.TopRated | Film_Manager_Final.py:461-462 | the same for the recommendation sort |
| Recommendations.UnseenSpec | Film_Manager_Final.py:450-458 | every unseen show is a library show of the genre, neither watched nor listed |
| Recommendations.RecommendSpec | Film_Manager_Final.py:435-462 | nothing before anything is watched; otherwise library shows of the favourite genre, neither watched nor listed, descending by rating, `limit` of the candidates, and no left-out candidate rates higher |
| Manager.LastWithTitleStep | Film_Manager_Final.py:531-533 | a further snapshot becomes the last for its own title and changes no other title's |
| Manager.StoreStep | Film_Manager_Final.py:533 | `_shows[show.title] = show` keeps the table keyed by title and every key in place, touching only the item under that title |
| Manager.KeysStep | Film_Manager_Final.py:531-533 | once a snapshot's title is stored, every title loaded so far is a key |
| Manager.StoreKeyOrder | Film_Manager_Final.py:533 | storing a snapshot's show under its title extends the key order by that title's first appearance |
| Manager.LoadShows | Film_Manager_Final.py:531-533 | every snapshot title is a key and the keys are the titles in order of first appearance, each holding a new show built from the last snapshot with that title |
| Manager.StillInTable | Film_Manager_Final.py:237 | a table show stays one when the table only grows at the end |
| Manager.ReplayInTable | Film_Manager_Final.py:243-250 | a watched dict rebuilt from table shows is keyed only by table shows |
| Manager.RebuiltUsesTable | Film_Manager_Final.py:224-252 | a user rebuilt against the table refers only to the table's shows |
| Manager.GrownTable | Film_Manager_Final.py:536-539 | users that referred only to table shows still do after later users grew the table |
| Manager.LastWithNameSpec | Film_Manager_Final.py:536-539 | there is a last record for a username exactly when some record has it, and that record is the one after which no record has it |
| Manager.LastWithNameStep | Film_Manager_Final.py:536-539 | a further record becomes the last for its own username and changes no other username's |
| Manager.RebuiltGrows | Film_Manager_Final.py:229-250 | a user rebuilt against the table is still what `from_dict` builds against it after later users grew it at the end |
| Manager.TableKeys | Film_Manager_Final.py:536-538 | after rebuilding one more record the table keys are the old keys followed by every title resolved so far, in order of first appearance |
| Manager.TableNewShows | Film_Manager_Final.py:536-538 | after rebuilding one more record every show added while loading users carries the first snapshot of its title among all records so far |
| Manager.NotResolvedYet | Film_Manager_Final.py:233-238 | a title that is not a key yet is the title of no snapshot resolved so far |
| Manager.UsersStep | Film_Manager_Final.py:536-539 | storing one more rebuilt user keeps every stored user rebuilt from the last record with its username |
| Manager.StoreNext | Film_Manager_Final.py:536-539 | one turn of the user loop: the table grows at the end with the new titles in order and their first snapshots, the usernames gain the record's name in order of first appearance, and every user is rebuilt from the last record with its name |
| Manager.UsernameKeys | Film_Manager_Final.py:536-539 | the user keys are exactly the saved usernames |
| Manager.UsersUseTable | Film_Manager_Final.py:536-539 | users rebuilt against a title-keyed table refer only to its shows |
| Manager.NameStep | Film_Manager_Final.py:539 | `_users[user.username] = user` keeps the user table keyed by name, extends the key order by that name's first appearance, and leaves every other user in its place |
| Manager.LoadUsers | Film_Manager_Final.py:536-539 | the usernames become keys in order of first appearance, and no other name does; each holds a new user rebuilt (watchlist and watched dict from the final table's shows) from the last record with its name; the table keeps its old entries and appends the titles it lacked in order of first appearance, each with a new show built from the first snapshot of that title |
| Manager.SavedShowsKept | Film_Manager_Final.py:531-539 | loading the users leaves every saved title holding the show of its last saved snapshot |
| Manager.LoadedIntoBoth | Film_Manager_Final.py:527-539 | what the show loop and the user loop promise makes up what `load_data` leaves behind |
| Manager.Rebuild | Film_Manager_Final.py:531-539 | both loops in turn give title-keyed and name-keyed tables, users referring only to table shows, and the state `load_data` leaves behind; every loaded show and user is a new object |
| Manager.ShowManager.LoadData | Film_Manager_Final.py:527-539 | after loading, the manager invariant holds; the show keys are the saved titles and then the titles only users name, each in order of first appearance; a saved title holds its last saved snapshot, any other title its first user snapshot; the usernames are the saved ones in order of first appearance, each holding the user rebuilt from the last record with that name; every loaded show and user is a new object |
| Manager.ShowManager.constructor | Film_Manager_Final.py:258-262 | without saved data both tables are empty; with saved data they are exactly what `load_data` builds, as `Manager.ShowManager.LoadData` states; the manager invariant holds either way; every loaded show and user is a new object |
| Manager.ShowManager.AddShow | Film_Manager_Final.py:265-274 | refused with nothing changed when the exact title is a key; otherwise one new show with no user ratings is appended under it; the manager invariant is kept |
| Manager.ShowManager.CreateUser | Film_Manager_Final.py:277-286 | refused with nothing changed when the exact username is a key; otherwise one new user with empty collections is appended under it; the manager invariant is kept |
| Manager.ShowManager.GetShow | Film_Manager_Final.py:310-321 | the show the lookup policy names, with nothing changed |
| Manager.ShowManager.GetUser | Film_Manager_Final.py:288-308 | the user the lookup policy names, with nothing changed |
| Manager.ShowManager.GetRecommendations | Film_Manager_Final.py:435-462 | nothing for an unknown user, otherwise the list `RecommendSpec` describes for that user and the whole library |
| Manager.CaseVariantTitles | Film_Manager_Final.py:265-274 | "Dark" and "dark" are both added, and looking up "DARK" finds the first |

## Left out

- Console output: every `print`, the "Available users" listing in `get_user`, and `__str__` and `__repr__`. These only format text.
- `__len__` (of `User` and of `ShowManager`) and `__bool__` (of `Show` and of `User`): they return a count and `True`, and no modelled operation uses them.
- `log_action`: it reads the clock and prints.
- File and JSON handling: `DataPersistence`, `save_data`, `view_saved_data`, and the data file path. The manager's constructor takes the parsed data, or `None` when there is no data file.
- A JSON parse error in `load_data` is not modelled: it is a failure of the file, not of the data model.
- `User.to_dict` is not modelled. It is only used by `save_data`, and the user snapshot it writes is the `Users.UserDict` datatype.
- Malformed snapshots are not modelled: the snapshot datatypes always carry every field. In the source a missing key raises `KeyError`, with two outcomes:
  - in a user record it skips that user, but shows that `User.from_dict` had already added to the table for that record stay there;
  - in a top-level show snapshot it ends loading through the outer handler: the shows loaded so far stay, and no user is loaded.
- Interactive workflows (`add_show_to_watchlist`, `mark_show_as_watched`, `list_all_*`, `view_user_watchlist`, `show_user_statistics`, `quick_demo`, `main`): these are input-driven glue around the modelled operations.
- `str.lower()` only lower-cases ASCII letters here; Unicode case mapping is not modelled.
- Ratings are exact reals, so floating-point rounding of the mean is not modelled.
- `Show.__eq__` with a non-`Show` argument is not modelled: the model only compares shows.
- The `watchlist` and `watched` properties hand out copies. The model reads the fields directly, since Dafny sequences are values.
- Manager.ShowManager.GetRecommendations: returns the list that `get_recommendations` prints. The empty list stands for the "watch some shows first" and "no recommendations" messages.
- Manager.ShowManager.GetRecommendations: `limit` is a required argument; the source defaults it to 5, and both of its callers in the source rely on that default.
- Manager.ShowManager.AddShow: `rating` is a required argument; the source defaults it to 0.0. The same holds for `Shows.Show.constructor`.
- Users.User.MarkAsWatched: `userRating` is a required `Option` argument; the source defaults `user_rating` to `None`.
