/** Upcoming meals: poll items that users like and un-like. Each document
    keeps a like counter and the list of users who liked it; the two handlers
    for `PATCH /upcomming-meals/:id/like` and `/dicrease` read the document,
    apply a membership guard and then send one `$inc`/`$push`/`$pull` update.
    This module holds the decision and the update for one existing document;
    the lookup by id lives with the store. */
module UpcomingMeals {
  import opened Documents

  type UserId = string

  /** A document of the upcoming-meals collection. `likes` and `likedBy` are
      the two fields the vote handlers touch; either may be missing, as in a
      document inserted without them. `fields` holds every other field. */
  datatype UpcomingMeal = UpcomingMeal(fields: Doc, likes: Option<int>, likedBy: Option<seq<UserId>>)

  /** A real document names each field once: `likes` and `likedBy` are never
      also among the other fields. */
  predicate WellFormed(m: UpcomingMeal) {
    "likes" !in m.fields && "likedBy" !in m.fields
  }

  /** What a vote handler answers. */
  datatype VoteOutcome = Updated | MealNotFound | AlreadyLiked | NoPermission

  /** The counter as `$inc` sees it: a missing field counts as 0. */
  function Likes(m: UpcomingMeal): int {
    m.likes.GetOr(0)
  }

  /** The likers as `$push` sees them: a missing array starts out empty. */
  function Voters(m: UpcomingMeal): seq<UserId> {
    m.likedBy.GetOr([])
  }

  /** Guard of the like handler: `likedBy` is present and holds `user`
      (an array is truthy even when empty). */
  predicate HasLiked(m: UpcomingMeal, user: UserId) {
    m.likedBy.Some? && user in m.likedBy.value
  }

  /** Guard of the decrease handler: `likedBy` is present and lacks `user`.
      A document without `likedBy` passes the guard for every user. */
  predicate DecreaseRefused(m: UpcomingMeal, user: UserId) {
    m.likedBy.Some? && user !in m.likedBy.value
  }

  /** `$pull`: the array with every occurrence of `user` removed; every
      other entry is kept as often as it occurred. */
  function Without(s: seq<UserId>, user: UserId): (r: seq<UserId>)
    ensures |r| <= |s|
    ensures forall x :: x in r <==> x in s && x != user
    ensures multiset(r) == multiset(s)[user := 0]
  {
    if s == [] then []
    else
      assert s == [s[0]] + s[1..];
      (if s[0] == user then [] else [s[0]]) + Without(s[1..], user)
  }

  /** The like update: `{$inc: {likes: 1}, $push: {likedBy: user}}`. */
  function Push(m: UpcomingMeal, user: UserId): UpcomingMeal {
    UpcomingMeal(m.fields, Some(Likes(m) + 1), Some(Voters(m) + [user]))
  }

  /** The decrease update: `{$inc: {likes: -1}, $pull: {likedBy: user}}`;
      pulling from a missing array leaves it missing. */
  function Pull(m: UpcomingMeal, user: UserId): UpcomingMeal {
    UpcomingMeal(m.fields, Some(Likes(m) - 1),
                 if m.likedBy.None? then None else Some(Without(m.likedBy.value, user)))
  }

  /** The like handler on an existing document: its answer and the document
      afterwards. */
  function Like(m: UpcomingMeal, user: UserId): (r: (VoteOutcome, UpcomingMeal))
    ensures r.0 == Updated || r.0 == AlreadyLiked
    ensures r.0 == AlreadyLiked <==> user in Voters(m) && m.likedBy.Some?
    ensures r.0 == AlreadyLiked ==> r.1 == m
    ensures r.0 == Updated ==>
      && r.1.likes == Some(Likes(m) + 1)
      && r.1.likedBy == Some(Voters(m) + [user])
      && r.1.fields == m.fields
    ensures HasLiked(r.1, user)
    ensures forall v :: v != user ==> (HasLiked(r.1, v) <==> HasLiked(m, v))
    ensures WellFormed(r.1) <==> WellFormed(m)
  {
    if HasLiked(m, user) then (AlreadyLiked, m) else (Updated, Push(m, user))
  }

  /** The decrease handler on an existing document: its answer and the
      document afterwards. */
  function Decrease(m: UpcomingMeal, user: UserId): (r: (VoteOutcome, UpcomingMeal))
    ensures r.0 == Updated || r.0 == NoPermission
    ensures r.0 == NoPermission <==> m.likedBy.Some? && user !in Voters(m)
    ensures r.0 == NoPermission ==> r.1 == m
    ensures r.0 == Updated ==>
      && r.1.likes == Some(Likes(m) - 1)
      && r.1.likedBy == (if m.likedBy.None? then None else Some(Without(m.likedBy.value, user)))
      && r.1.fields == m.fields
    ensures !HasLiked(r.1, user) || r.0 == NoPermission
    ensures forall v :: v != user ==> (HasLiked(r.1, v) <==> HasLiked(m, v))
    ensures WellFormed(r.1) <==> WellFormed(m)
  {
    if DecreaseRefused(m, user) then (NoPermission, m) else (Updated, Pull(m, user))
  }

  /** `s` lists no user twice. */
  predicate NoDups(s: seq<UserId>) {
    s == [] || (s[0] !in s[1..] && NoDups(s[1..]))
  }

  /** The vote invariant: the likers are recorded, none twice, and the
      counter is their number. */
  predicate Consistent(m: UpcomingMeal) {
    m.likedBy.Some? && NoDups(m.likedBy.value) && Likes(m) == |m.likedBy.value|
  }

  /** Pulling a user who is not in the array changes nothing. */
  lemma {:induction false} WithoutAbsent(s: seq<UserId>, user: UserId)
    requires user !in s
    ensures Without(s, user) == s
  {
    if s != [] {
      WithoutAbsent(s[1..], user);
      assert s == [s[0]] + s[1..];
    }
  }

  /** `$pull` works element by element, so it distributes over concatenation. */
  lemma {:induction false} WithoutAppend(s: seq<UserId>, t: seq<UserId>, user: UserId)
    ensures Without(s + t, user) == Without(s, user) + Without(t, user)
  {
    if s != [] {
      var head := if s[0] == user then [] else [s[0]];
      assert (s + t)[0] == s[0] && (s + t)[1..] == s[1..] + t;
      assert Without(s + t, user) == head + Without(s[1..] + t, user);
      WithoutAppend(s[1..], t, user);
      assert Without(s, user) == head + Without(s[1..], user);
    } else {
      assert s + t == t;
    }
  }

  /** Pulling a user who occurs once in a duplicate-free array removes exactly
      one entry and keeps the array duplicate-free. */
  lemma {:induction false} WithoutRemovesOne(s: seq<UserId>, user: UserId)
    requires NoDups(s) && user in s
    ensures |Without(s, user)| == |s| - 1
    ensures NoDups(Without(s, user))
  {
    if s[0] == user {
      WithoutAbsent(s[1..], user);
      assert Without(s, user) == [] + Without(s[1..], user) == s[1..];
    } else {
      WithoutRemovesOne(s[1..], user);
      assert Without(s, user) == [s[0]] + Without(s[1..], user);
      assert s[0] !in Without(s[1..], user);
      assert ([s[0]] + Without(s[1..], user))[1..] == Without(s[1..], user);
    }
  }

  /** Appending a user who is not yet listed keeps the array duplicate-free. */
  lemma {:induction false} NoDupsAppend(s: seq<UserId>, user: UserId)
    requires NoDups(s) && user !in s
    ensures NoDups(s + [user])
  {
    if s != [] {
      assert (s + [user])[1..] == s[1..] + [user];
      NoDupsAppend(s[1..], user);
    }
  }

  /** A like keeps the vote invariant. */
  lemma LikeKeepsConsistent(m: UpcomingMeal, user: UserId)
    requires Consistent(m)
    ensures Consistent(Like(m, user).1)
  {
    if !HasLiked(m, user) {
      NoDupsAppend(m.likedBy.value, user);
    }
  }

  /** A decrease keeps the vote invariant: the guard only lets through a user
      who is listed, so the counter and the list both shrink by one. */
  lemma DecreaseKeepsConsistent(m: UpcomingMeal, user: UserId)
    requires Consistent(m)
    ensures Consistent(Decrease(m, user).1)
  {
    if !DecreaseRefused(m, user) {
      WithoutRemovesOne(m.likedBy.value, user);
    }
  }

  /** A second like by the same user is refused and leaves the document as
      the first like made it: the counter goes up by exactly one. */
  lemma LikeTwice(m: UpcomingMeal, user: UserId)
    requires !HasLiked(m, user)
    ensures Like(Like(m, user).1, user) == (AlreadyLiked, Like(m, user).1)
    ensures Likes(Like(Like(m, user).1, user).1) == Likes(m) + 1
  {
  }

  /** A like followed by a decrease by the same user restores the document;
      only a missing counter comes back as an explicit one with the same value. */
  lemma LikeThenDecrease(m: UpcomingMeal, user: UserId)
    requires m.likedBy.Some? && user !in m.likedBy.value
    ensures Like(m, user).0 == Updated
    ensures Decrease(Like(m, user).1, user) == (Updated, m.(likes := Some(Likes(m))))
  {
    var s := m.likedBy.value;
    WithoutAppend(s, [user], user);
    WithoutAbsent(s, user);
    assert Without([user], user) == [] + Without([], user);
    assert Without(s + [user], user) == s;
  }

  /** With `likedBy` missing, the like creates it and the decrease leaves it
      empty, so the round trip does not restore the document: a missing array
      comes back as `[]`. */
  lemma LikeThenDecreaseWithoutLikedBy(m: UpcomingMeal, user: UserId)
    requires m.likedBy.None?
    ensures Like(m, user).0 == Updated
    ensures Decrease(Like(m, user).1, user) == (Updated, m.(likes := Some(Likes(m)), likedBy := Some([])))
  {
    assert Without([user], user) == [] + Without([], user);
  }

  /** The as-written path of the decrease guard: without `likedBy` any user may
      decrease, the counter drops below zero and `likedBy` stays missing; a
      later like then records one liker against a counter of 0. */
  lemma DecreaseWithoutLikedBy(m: UpcomingMeal, user: UserId)
    requires m.likedBy.None? && Likes(m) == 0
    ensures Decrease(m, user).0 == Updated
    ensures Likes(Decrease(m, user).1) == -1 && Decrease(m, user).1.likedBy.None?
    ensures !Consistent(Like(Decrease(m, user).1, user).1)
  {
  }

  /** One call to a vote handler on the document. */
  datatype Vote = LikeBy(user: UserId) | DecreaseBy(user: UserId)

  /** The document after the handlers ran for `votes` in order; refused calls
      leave it as it was. */
  function Replay(m: UpcomingMeal, votes: seq<Vote>): UpcomingMeal
    decreases |votes|
  {
    if votes == [] then m
    else
      var next := match votes[0]
        case LikeBy(u) => Like(m, u).1
        case DecreaseBy(u) => Decrease(m, u).1;
      Replay(next, votes[1..])
  }

  /** Every sequence of likes and decreases keeps the vote invariant. */
  lemma {:induction false} ReplayKeepsConsistent(m: UpcomingMeal, votes: seq<Vote>)
    requires Consistent(m)
    ensures Consistent(Replay(m, votes))
    decreases |votes|
  {
    if votes != [] {
      match votes[0]
      case LikeBy(u) =>
        LikeKeepsConsistent(m, u);
        ReplayKeepsConsistent(Like(m, u).1, votes[1..]);
      case DecreaseBy(u) =>
        DecreaseKeepsConsistent(m, u);
        ReplayKeepsConsistent(Decrease(m, u).1, votes[1..]);
    }
  }

  /** A meal created with no likes and an empty `likedBy` keeps a counter equal
      to the number of distinct likers, and so never negative, whatever the
      sequence of calls. */
  lemma FreshMealStaysConsistent(fields: Doc, votes: seq<Vote>)
    ensures Consistent(Replay(UpcomingMeal(fields, Some(0), Some([])), votes))
    ensures Likes(Replay(UpcomingMeal(fields, Some(0), Some([])), votes)) >= 0
  {
    ReplayKeepsConsistent(UpcomingMeal(fields, Some(0), Some([])), votes);
  }

  /** `findOne(body)` on the upcoming meals: every field the body gives,
      `likes` and `likedBy` included, is equal in the document. */
  predicate MatchesMeal(body: UpcomingMeal, m: UpcomingMeal) {
    && Matches(body.fields, m.fields)
    && (body.likes.Some? ==> m.likes == body.likes)
    && (body.likedBy.Some? ==> m.likedBy == body.likedBy)
  }

  /** The dedup filter is the whole body, so a body that gives `likes` no
      longer finds its document once a vote changed the counter: posting it
      again inserts a second copy. */
  lemma VoteUnblocksBody(body: UpcomingMeal, user: UserId)
    requires body.likes.Some? && !HasLiked(body, user)
    ensures MatchesMeal(body, body)
    ensures !MatchesMeal(body, Like(body, user).1)
  {
  }
}
