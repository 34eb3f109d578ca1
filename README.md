# Campus meal server: verified model of its deciding handlers

The campus meal server is an Express application over a MongoDB database.
It has collections of users, meals, "upcoming meals" (polls that students like
and un-like), reviews and orders. Most of its routes pass a request straight
to one database call. This project models the routes that decide something
before they write:

- **Upcoming-meal voting** (`PATCH /upcomming-meals/:id/like` and `/dicrease`).
  Each document has a `likes` counter and a `likedBy` array. A like is refused
  when the user is already listed; otherwise `likes` goes up by one and the
  user is pushed onto `likedBy`. A decrease is refused when `likedBy` is
  present but lacks the user. Otherwise `likes` goes down by one and the user
  is pulled from `likedBy`.
- **Plain-meal like counters** (`PATCH /meals/:id/like` and
  `/dicrease-like`).
- **Duplicate-guarded inserts** of meals (the body without `time` is the
  search filter) and of upcoming meals (the whole body is the filter).
- **Role promotion** and **order completion**. These are `$set` updates whose
  success is `modifiedCount > 0`.
- **Admin lookup** by email, and the **paging arithmetic** of `GET /meals`.

`UpcomingMeals` holds the voting logic as pure functions over one document.
It also holds the vote invariant, "`likedBy` has no duplicates and `likes` is
its length", with the lemmas showing that every like and decrease keeps it.
`CampusStore.Store` is a class with one map per collection. Each handler is
one atomic method whose postcondition gives the reply and the new state of
the collection it writes. `Documents` gives JSON values, documents and
MongoDB equality filters. `Pagination` gives the `page`/`limit`/`skip`
computation and proves that pages tile the collection.

The decrease guard at `index.js:312` is modelled as written. It rejects
exactly the users missing from a present `likedBy`, which is the natural
"withdraw only your own vote" rule. When
`likedBy` is absent the guard is skipped, so any user may decrease and the
counter can go below zero (`UpcomingMeals.DecreaseWithoutLikedBy`).

The `dicrease-like` handler for plain meals sends its update through `me`,
a name the file never declares. The resulting `ReferenceError` is caught by
the surrounding `try`, so the handler always answers with the 500 error and
never writes. `CampusStore.Store.DecreaseMealLike` models that behaviour: its
only result is `CounterError`, and it has no `modifies` clause.

## Model

| member | source | states |
|---|---|---|
| `Documents.MatchesSubFilter` | index.js:116 | a document is found by any filter made of some of its own fields |
| `Documents.EmptyFilterMatchesAll` | index.js:111-116 | the empty filter (a meal body holding only `time`) finds something exactly when the collection is non-empty |
| `UpcomingMeals.Without` | index.js:321 | `$pull` removes every occurrence of the user and keeps every other entry exactly as often as it occurred (as multisets); it never lengthens the array |
| `UpcomingMeals.Like` | index.js:279-295 | refused (`AlreadyLiked`, document unchanged) iff `likedBy` is present and holds the user. Otherwise `likes` is written as its old value plus one (missing counts as 0), the user is appended at the end of `likedBy` (created if missing), and the other fields are unchanged. Afterwards the user is a liker, and every other user's liker status is unchanged |
| `UpcomingMeals.Decrease` | index.js:312-327 | refused (`NoPermission`, document unchanged) iff `likedBy` is present and lacks the user. Otherwise `likes` is written as its old value minus one (missing counts as 0), `likedBy` stays missing if it was and otherwise is the `$pull` of the user, and the user is no longer a liker. Every other user's liker status is unchanged |
| `UpcomingMeals.WithoutAbsent` | index.js:321 | pulling a user who is not in the array leaves it unchanged |
| `UpcomingMeals.WithoutAppend` | index.js:321 | `$pull` distributes over concatenation |
| `UpcomingMeals.WithoutRemovesOne` | index.js:312-322 | in a duplicate-free array holding the user, the pull removes exactly one entry and keeps it duplicate-free |
| `UpcomingMeals.NoDupsAppend` | index.js:279-289 | pushing a user not yet listed keeps `likedBy` duplicate-free |
| `UpcomingMeals.LikeKeepsConsistent` | index.js:279-290 | a like keeps `likedBy` duplicate-free with `likes` equal to its length |
| `UpcomingMeals.DecreaseKeepsConsistent` | index.js:312-322 | a decrease keeps `likedBy` duplicate-free with `likes` equal to its length |
| `UpcomingMeals.LikeTwice` | index.js:279-295 | a second like by the same user is refused and leaves the document as the first like made it: one like, not two |
| `UpcomingMeals.LikeThenDecrease` | index.js:264-328 | with `likedBy` present and lacking the user, a like followed by a decrease restores the document (a missing counter comes back explicit, with the same value) |
| `UpcomingMeals.LikeThenDecreaseWithoutLikedBy` | index.js:285-322 | with `likedBy` missing, a like followed by a decrease leaves `likedBy` as `[]` instead of missing, with the counter back at its old value |
| `UpcomingMeals.DecreaseWithoutLikedBy` | index.js:312-322 | without `likedBy` the guard is skipped: the counter goes from 0 to -1, `likedBy` stays missing, and a later like leaves the invariant broken |
| `UpcomingMeals.ReplayKeepsConsistent` | index.js:264-328 | every sequence of likes and decreases keeps the vote invariant |
| `UpcomingMeals.FreshMealStaysConsistent` | index.js:264-328 | from `likes = 0` and `likedBy = []`, every sequence of calls leaves `likes` equal to the number of distinct likers, and never negative |
| `UpcomingMeals.VoteUnblocksBody` | index.js:238-243 | a body that gives `likes` finds its stored copy, but no longer does after a like changes the counter |
| `Pagination.OrDefault` | index.js:134-135 | `parseInt(q) \|\| d` is the parsed number unless it is NaN or 0, and then `d`; it is never 0 when `d` is not |
| `Pagination.Window` | index.js:147-151 | for a positive limit `l`, `skip(s).limit(l)` answers exactly the documents at positions `s`, `s+1`, … up to `l` of them or the end of the collection |
| `Pagination.MealsPage` | index.js:134-151 | the page answered for the parsed queries is exactly the documents from position `(page - 1) * limit` on, `limit` of them or up to the end, with `page` and `limit` the `parseInt(q) \|\| d` values |
| `Pagination.DefaultQueryIsFirstHundred` | index.js:134-136 | without queries the answer is the first 100 documents |
| `Pagination.PagesTile` | index.js:136-150 | pages 1 to k, read one after the other, are exactly the first `k * limit` documents |
| `Pagination.DocumentOnItsPage` | index.js:136-150 | document `i` is entry `i % limit` of page `i / limit + 1` |
| `CampusStore.DedupFilter` | index.js:111-112 | the meal filter is the body with `time` and only `time` removed |
| `CampusStore.RepostIsDuplicate` | index.js:110-116 | a meal body that agrees with a stored meal outside `time` finds it |
| `CampusStore.IncLikes` | index.js:187-194 | `$inc` succeeds iff `likes` is missing or a number; it then sets `likes` to the old value (0 if missing) plus the increment and keeps every other field |
| `CampusStore.IncLikesUndo` | index.js:187-213 | an increment followed by the opposite increment restores a document whose counter is numeric |
| `CampusStore.Store.AdminStatus` | index.js:67-78 | 404 (`None`) iff no user has the email; otherwise the `role === "admin"` test of a user with that email |
| `CampusStore.Store.PromoteToAdmin` | index.js:81-95 | success iff the user exists and is not yet an admin; afterwards an existing user is an admin, and only that user's `role` changed |
| `CampusStore.Store.InsertMeal` | index.js:106-129 | refused iff a stored meal matches the body without `time`; otherwise the full body is added and the meal count grows by one |
| `CampusStore.Store.LikeMeal` | index.js:184-204 | 404 with no change for an unknown id; 500 with no change when the database refuses the `$inc`; otherwise only that meal's counter rises by one |
| `CampusStore.Store.DecreaseMealLike` | index.js:207-226 | always the 500 reply; no collection changes |
| `CampusStore.Store.InsertUpcomingMeal` | index.js:236-255 | refused iff a stored upcoming meal matches the whole body; otherwise the body is added and the count grows by one; every stored upcoming meal stays well-formed |
| `CampusStore.Store.LikeUpcomingMeal` | index.js:264-296 | `MealNotFound` with no change for an unknown id; otherwise the reply and new document of `Like`, every other document unchanged, the vote invariant kept |
| `CampusStore.Store.DecreaseUpcomingLike` | index.js:299-328 | `MealNotFound` with no change for an unknown id; otherwise the reply and new document of `Decrease`, every other document unchanged, the vote invariant kept |
| `CampusStore.Store.CompleteOrder` | index.js:406-420 | success iff the order exists and its status is not yet `"Done"`; afterwards an existing order is done, and only its `status` changed |

## Left out

- Server bootstrap is not modelled: Express, CORS, dotenv, the MongoDB connection and ping, `app.listen` (index.js:1-31, 426-443). It is I/O with no decisions.
- `console.log` calls are not modelled; they do not affect replies or state.
- The case-insensitive `$regex` searches over users and meals (index.js:52-57, 139-144) are not modelled, because they depend on MongoDB's regular-expression engine.
- `new ObjectId(id)` and its throw on malformed ids are not modelled; ids are opaque keys.
- Each handler is one atomic step. The race between `findOne` and `updateOne` in the vote handlers (index.js:271 and 291, 303 and 323) is not modelled, nor is any other concurrency. So two concurrent likes by one user are not analysed.
- Upcoming-meal documents are typed: `likes` is an integer or missing, and `likedBy` is an array of user-id strings or missing. Other shapes are not modelled. These are JavaScript truthiness, `String.prototype.includes` on a string `likedBy`, the `TypeError` on a number, and MongoDB's refusal to `$inc`/`$push`/`$pull` ill-typed fields.
- `userId` from the request body is modelled as a string.
- JSON values are scalars without floating point. Arrays and nested objects in ordinary fields are not modelled, and neither is MongoDB's array-aware equality in filters; `likedBy` in a filter is compared by plain equality.
- Bodies whose keys start with `$` or contain dots are not modelled; MongoDB reads those keys as operators or paths. Bodies that carry their own `_id` are not modelled either.
- The database's storage failures are not modelled, except for the refused `$inc` in `CampusStore.IncLikes`.
- The `insertedId` check after `insertOne` (index.js:121, 244) is not modelled: it is always truthy on success, so its "something went wrong" branch never happens.
- `CampusStore.Store.InsertMeal`: requires a fresh id, standing for the `_id` the database assigns.
- `CampusStore.Store.InsertUpcomingMeal`: requires a fresh id, standing for the `_id` the database assigns, and a well-formed body (`likes` and `likedBy` not repeated among the other fields), since a JSON body names each field once.
- `CampusStore.Store.AdminStatus`: when several users share an email, `findOne` returns the first in the collection's natural order. The model may answer for any of them.
- `Pagination.Window`: requires a positive limit; MongoDB reads `limit(0)` as no limit, which the handler never passes because `parseInt(q) || 100` is never 0.
- `Pagination.MealsPage`: requires positive effective page and limit. `parseInt` lets negative numbers through; MongoDB rejects a negative skip and reads a negative limit as a single batch. Neither is modelled.
- `parseInt`'s scan of the query string is not modelled; the model takes its result as input (`None` for NaN).
- The collection's natural order is passed to `Pagination.MealsPage` as a sequence.
- Routes without a decision are not modelled: user, review and order inserts; the review `$set` (index.js:363-379); all plain reads (`/users`, `/all-meals`, `/meals/:id`, `GET /upcomming-meals`, `/orderd-meal`); and the delete routes.
- Exact HTTP status codes and message strings are reduced to the reply datatypes. A successful vote's `updateOne` result is reduced to `Updated`.
