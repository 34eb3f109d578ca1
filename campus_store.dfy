/** The handlers of the campus meal server that decide something before they
    write: each one becomes an atomic method on an in-memory store holding
    the collections it reads and changes. */
module CampusStore {
  import opened Documents
  import opened UpcomingMeals

  /** Answer of the duplicate-guarded inserts. */
  datatype InsertReply = Added | AlreadyAdded

  /** Answer of the plain-meal like counters: success, 404 or 500. */
  datatype CounterReply = CounterChanged | CounterNotFound | CounterError

  /** `user.role === "admin"`. */
  predicate IsAdmin(user: Doc) {
    "role" in user && user["role"] == Str("admin")
  }

  /** The order's status is already `"Done"`. */
  predicate IsDone(order: Doc) {
    "status" in order && order["status"] == Str("Done")
  }

  /** The user document answers the filter `{email: email}`. */
  predicate HasEmail(user: Doc, email: string) {
    "email" in user && user["email"] == Str(email)
  }

  /** The filter the meal insert searches with: the body without `time`. */
  function DedupFilter(body: Doc): (r: Doc)
    ensures "time" !in r
    ensures forall k :: k in body && k != "time" ==> k in r && r[k] == body[k]
    ensures r.Keys <= body.Keys
  {
    body - {"time"}
  }

  /** A meal body finds every stored meal that agrees with it on all fields
      other than `time`; a repost with a new time is thus a duplicate. */
  lemma RepostIsDuplicate(stored: Doc, body: Doc)
    requires DedupFilter(stored) == DedupFilter(body)
    ensures Matches(DedupFilter(body), stored)
  {
  }

  /** `$inc: {likes: delta}` on one meal document: a missing counter starts at
      0; a counter that is not a number makes the database refuse the write
      (`None`). */
  function IncLikes(doc: Doc, delta: int): (r: Option<Doc>)
    ensures r.Some? <==> "likes" !in doc || doc["likes"].Int?
    ensures r.Some? ==>
      && r.value.Keys == doc.Keys + {"likes"}
      && r.value["likes"] == Int((if "likes" in doc then doc["likes"].i else 0) + delta)
      && forall k :: k in doc && k != "likes" ==> r.value[k] == doc[k]
  {
    if "likes" !in doc then Some(doc["likes" := Int(delta)])
    else if doc["likes"].Int? then Some(doc["likes" := Int(doc["likes"].i + delta)])
    else None
  }

  /** An increment undone by the opposite increment restores a document that
      had a numeric counter. */
  lemma IncLikesUndo(doc: Doc, delta: int)
    requires "likes" in doc && doc["likes"].Int?
    ensures IncLikes(doc, delta).Some?
    ensures IncLikes(IncLikes(doc, delta).value, -delta) == Some(doc)
  {
    var once := IncLikes(doc, delta).value;
    assert IncLikes(once, -delta).value == doc;
  }

  class Store {
    var users: map<Id, Doc>
    var meals: map<Id, Doc>
    var upcomingMeals: map<Id, UpcomingMeal>
    var orders: map<Id, Doc>

    /** Every stored upcoming meal names each field once. */
    ghost predicate Valid()
      reads this`upcomingMeals
    {
      forall id :: id in upcomingMeals ==> WellFormed(upcomingMeals[id])
    }

    constructor ()
      ensures Valid()
      ensures users == map[] && meals == map[] && upcomingMeals == map[] && orders == map[]
    {
      users, meals, upcomingMeals, orders := map[], map[], map[], map[];
    }

    /** `GET /user/admin/:email`: `None` for the 404 when no user has the
        email, otherwise whether a user with that email is an admin. */
    method AdminStatus(email: string) returns (r: Option<bool>)
      ensures r.None? <==> forall id :: id in users ==> !HasEmail(users[id], email)
      ensures r.Some? ==> exists id :: id in users && HasEmail(users[id], email) && r.value == IsAdmin(users[id])
    {
      if id :| id in users && HasEmail(users[id], email) {
        r := Some(IsAdmin(users[id]));
      } else {
        r := None;
      }
    }

    /** `PATCH /users/:id`: `$set: {role: "admin"}`; success is
        `modifiedCount > 0`. */
    method PromoteToAdmin(id: Id) returns (success: bool)
      modifies this`users
      ensures success <==> id in old(users) && !IsAdmin(old(users)[id])
      ensures users.Keys == old(users).Keys
      ensures id in users ==> IsAdmin(users[id])
      ensures success ==> users == old(users)[id := old(users)[id]["role" := Str("admin")]]
      ensures !success ==> users == old(users)
    {
      if id in users && !IsAdmin(users[id]) {
        users := users[id := users[id]["role" := Str("admin")]];
        success := true;
      } else {
        success := false;
      }
    }

    /** `POST /meals`: refused when a stored meal matches the body without
        `time`; otherwise the whole body, `time` included, is stored under the
        id the database assigns. */
    method InsertMeal(id: Id, body: Doc) returns (r: InsertReply)
      requires id !in meals
      modifies this`meals
      ensures r == AlreadyAdded <==> AnyMatches(old(meals), DedupFilter(body))
      ensures r == Added ==> meals == old(meals)[id := body] && |meals| == |old(meals)| + 1
      ensures r == AlreadyAdded ==> meals == old(meals)
    {
      var filter := DedupFilter(body);
      if exists k :: k in meals && Matches(filter, meals[k]) {
        r := AlreadyAdded;
      } else {
        meals := meals[id := body];
        r := Added;
      }
    }

    /** `PATCH /meals/:id/like`: 404 when no meal has the id, 500 when the
        database refuses the increment, otherwise `likes` goes up by one. */
    method LikeMeal(id: Id) returns (r: CounterReply)
      modifies this`meals
      ensures id !in old(meals) ==> r == CounterNotFound && meals == old(meals)
      ensures id in old(meals) && IncLikes(old(meals)[id], 1).None? ==> r == CounterError && meals == old(meals)
      ensures id in old(meals) && IncLikes(old(meals)[id], 1).Some? ==>
        r == CounterChanged && meals == old(meals)[id := IncLikes(old(meals)[id], 1).value]
    {
      if id !in meals {
        return CounterNotFound;
      }
      var updated := IncLikes(meals[id], 1);
      if updated.None? {
        r := CounterError;
      } else {
        meals := meals[id := updated.value];
        r := CounterChanged;
      }
    }

    /** `PATCH /meals/:id/dicrease-like`: the update is sent through an
        undeclared name, which throws inside the `try`; the handler answers
        the 500 every time and writes nothing (the method may modify nothing). */
    method DecreaseMealLike(id: Id) returns (r: CounterReply)
      ensures r == CounterError
    {
      r := CounterError;
    }

    /** `POST /upcomming-meals`: refused when a stored upcoming meal matches
        the whole body; otherwise the body is stored. */
    method InsertUpcomingMeal(id: Id, body: UpcomingMeal) returns (r: InsertReply)
      requires Valid() && WellFormed(body)
      requires id !in upcomingMeals
      modifies this`upcomingMeals
      ensures Valid()
      ensures r == AlreadyAdded <==> exists k :: k in old(upcomingMeals) && MatchesMeal(body, old(upcomingMeals)[k])
      ensures r == Added ==> upcomingMeals == old(upcomingMeals)[id := body] && |upcomingMeals| == |old(upcomingMeals)| + 1
      ensures r == AlreadyAdded ==> upcomingMeals == old(upcomingMeals)
    {
      if exists k :: k in upcomingMeals && MatchesMeal(body, upcomingMeals[k]) {
        r := AlreadyAdded;
      } else {
        upcomingMeals := upcomingMeals[id := body];
        r := Added;
      }
    }

    /** `PATCH /upcomming-meals/:id/like`: the meal is looked up, a user who
        already liked it is refused, otherwise the counter and the list grow. */
    method LikeUpcomingMeal(id: Id, user: UserId) returns (r: VoteOutcome)
      requires Valid()
      modifies this`upcomingMeals
      ensures Valid()
      ensures id !in old(upcomingMeals) ==> r == MealNotFound && upcomingMeals == old(upcomingMeals)
      ensures id in old(upcomingMeals) ==>
        && r == Like(old(upcomingMeals)[id], user).0
        && upcomingMeals == old(upcomingMeals)[id := Like(old(upcomingMeals)[id], user).1]
      ensures id in old(upcomingMeals) && Consistent(old(upcomingMeals)[id]) ==> Consistent(upcomingMeals[id])
    {
      if id !in upcomingMeals {
        return MealNotFound;
      }
      var meal := upcomingMeals[id];
      if HasLiked(meal, user) {
        return AlreadyLiked;
      }
      upcomingMeals := upcomingMeals[id := Push(meal, user)];
      r := Updated;
      if Consistent(meal) {
        LikeKeepsConsistent(meal, user);
      }
    }

    /** `PATCH /upcomming-meals/:id/dicrease`: the meal is looked up, a user
        missing from a present `likedBy` is refused, otherwise the counter
        drops by one and the user is pulled from the list. */
    method DecreaseUpcomingLike(id: Id, user: UserId) returns (r: VoteOutcome)
      requires Valid()
      modifies this`upcomingMeals
      ensures Valid()
      ensures id !in old(upcomingMeals) ==> r == MealNotFound && upcomingMeals == old(upcomingMeals)
      ensures id in old(upcomingMeals) ==>
        && r == Decrease(old(upcomingMeals)[id], user).0
        && upcomingMeals == old(upcomingMeals)[id := Decrease(old(upcomingMeals)[id], user).1]
      ensures id in old(upcomingMeals) && Consistent(old(upcomingMeals)[id]) ==> Consistent(upcomingMeals[id])
    {
      if id !in upcomingMeals {
        return MealNotFound;
      }
      var meal := upcomingMeals[id];
      if DecreaseRefused(meal, user) {
        return NoPermission;
      }
      upcomingMeals := upcomingMeals[id := Pull(meal, user)];
      r := Updated;
      if Consistent(meal) {
        DecreaseKeepsConsistent(meal, user);
      }
    }

    /** `PATCH /orderd-meal/:id`: `$set: {status: "Done"}`; success is
        `modifiedCount > 0`. */
    method CompleteOrder(id: Id) returns (success: bool)
      modifies this`orders
      ensures success <==> id in old(orders) && !IsDone(old(orders)[id])
      ensures orders.Keys == old(orders).Keys
      ensures id in orders ==> IsDone(orders[id])
      ensures success ==> orders == old(orders)[id := old(orders)[id]["status" := Str("Done")]]
      ensures !success ==> orders == old(orders)
    {
      if id in orders && !IsDone(orders[id]) {
        orders := orders[id := orders[id]["status" := Str("Done")]];
        success := true;
      } else {
        success := false;
      }
    }
  }
}
