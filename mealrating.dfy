/** The `MealRating` record: which user rated which meal and with what
    value, the validators declared on the value, the one-rating-per-user
    constraint the user column carries, and the cascades that remove
    ratings when their user or meal is deleted. */
module MealRatings {
  import opened Common
  import opened Query

  /** A stored rating.  The value is whatever was saved: saving does not run
      the declared validators, so it is an unrestricted integer here. */
  datatype MealRating = MealRating(id: nat, user: UserId, meal: MealId, rating: int)

  const MinRating: int := 1
  const MaxRating: int := 10
  /** The value a freshly constructed rating holds before it is assigned. */
  const DefaultRating: int := 1

  /** What the declared minimum and maximum validators accept. */
  predicate ValidRating(value: int) {
    MinRating <= value <= MaxRating
  }

  /** Every stored value passes the declared validators. */
  predicate AllValid(rs: seq<MealRating>) {
    forall i :: 0 <= i < |rs| ==> ValidRating(rs[i].rating)
  }

  /** The user column is one-to-one: no two ratings share a user, whatever
      meals they are on. */
  predicate OneRatingPerUser(rs: seq<MealRating>) {
    forall i, j :: 0 <= i < j < |rs| ==> rs[i].user != rs[j].user
  }

  function ByUser(user: UserId): MealRating -> bool {
    (r: MealRating) => r.user == user
  }

  function OnMeal(meal: MealId): MealRating -> bool {
    (r: MealRating) => r.meal == meal
  }

  function RatedBy(user: UserId, meal: MealId): MealRating -> bool {
    (r: MealRating) => r.user == user && r.meal == meal
  }

  function NotRatedBy(user: UserId, meal: MealId): MealRating -> bool {
    (r: MealRating) => !(r.user == user && r.meal == meal)
  }

  /** The default value is one the validators accept, and the validators
      reject the values just outside the range. */
  lemma DefaultRatingIsValid()
    ensures ValidRating(DefaultRating)
    ensures !ValidRating(MinRating - 1) && !ValidRating(MaxRating + 1)
    ensures ValidRating(MinRating) && ValidRating(MaxRating)
  {
  }

  /** No rating in `rs` belongs to `user`. */
  predicate NoRatingBy(rs: seq<MealRating>, user: UserId) {
    forall i :: 0 <= i < |rs| ==> rs[i].user != user
  }

  /** The ratings after the first keep the constraint, and none of them
      belongs to the first rating's user. */
  lemma SplitFirstRating(rs: seq<MealRating>)
    requires rs != [] && OneRatingPerUser(rs)
    ensures OneRatingPerUser(rs[1..]) && NoRatingBy(rs[1..], rs[0].user)
  {
    var rest := rs[1..];
    forall i, j | 0 <= i < j < |rest| ensures rest[i].user != rest[j].user {
      assert rest[i] == rs[i + 1] && rest[j] == rs[j + 1];
    }
    forall i | 0 <= i < |rest| ensures rest[i].user != rs[0].user {
      assert rest[i] == rs[i + 1];
    }
  }

  /** Removing ratings never breaks the one-rating-per-user constraint. */
  lemma {:induction false} FilterKeepsOneRatingPerUser(rs: seq<MealRating>, p: MealRating -> bool)
    ensures OneRatingPerUser(rs) ==> OneRatingPerUser(Filter(rs, p))
  {
    if rs != [] && OneRatingPerUser(rs) {
      var rest := rs[1..];
      SplitFirstRating(rs);
      FilterKeepsOneRatingPerUser(rest, p);
      if p(rs[0]) {
        var tail := Filter(rest, p);
        assert NoRatingBy(tail, rs[0].user) by {
          forall i | 0 <= i < |tail| ensures tail[i].user != rs[0].user {
            assert tail[i] in rest;
          }
        }
        PrependKeepsOneRatingPerUser(rs[0], tail);
      }
    }
  }

  /** A rating by a user who holds none in `rs` may be added in front. */
  lemma PrependKeepsOneRatingPerUser(x: MealRating, rs: seq<MealRating>)
    requires OneRatingPerUser(rs) && NoRatingBy(rs, x.user)
    ensures OneRatingPerUser([x] + rs)
  {
    var f := [x] + rs;
    forall i, j | 0 <= i < j < |f| ensures f[i].user != f[j].user {
      assert f[j] == rs[j - 1];
      if i > 0 {
        assert f[i] == rs[i - 1];
      }
    }
  }

  /** A rating by a user who holds none in `rs` may be saved after them:
      this is the insert the one-to-one user column admits. */
  lemma AppendKeepsOneRatingPerUser(rs: seq<MealRating>, x: MealRating)
    requires OneRatingPerUser(rs) && NoRatingBy(rs, x.user)
    ensures OneRatingPerUser(rs + [x])
  {
    var f := rs + [x];
    forall i, j | 0 <= i < j < |f| ensures f[i].user != f[j].user {
      assert f[i] == rs[i];
      if j < |rs| {
        assert f[j] == rs[j];
      }
    }
  }

  /** Under the one-to-one user column, a user holds at most one rating. */
  lemma {:induction false} AtMostOneRatingPerUser(rs: seq<MealRating>, user: UserId)
    requires OneRatingPerUser(rs)
    ensures |Filter(rs, ByUser(user))| <= 1
  {
    if rs != [] {
      var rest := rs[1..];
      SplitFirstRating(rs);
      if rs[0].user == user {
        assert Filter(rest, ByUser(user)) == [];
      } else {
        AtMostOneRatingPerUser(rest, user);
      }
    }
  }

  /** Deleting a user removes exactly the ratings that reference them. */
  function DeleteUserCascade(rs: seq<MealRating>, user: UserId): (r: seq<MealRating>)
    ensures forall x :: x in r <==> x in rs && x.user != user
    ensures OneRatingPerUser(rs) ==> OneRatingPerUser(r)
  {
    var keep := (x: MealRating) => x.user != user;
    FilterKeepsOneRatingPerUser(rs, keep);
    Filter(rs, keep)
  }

  /** Deleting a meal removes exactly the ratings that reference it. */
  function DeleteMealCascade(rs: seq<MealRating>, meal: MealId): (r: seq<MealRating>)
    ensures forall x :: x in r <==> x in rs && x.meal != meal
    ensures OneRatingPerUser(rs) ==> OneRatingPerUser(r)
  {
    var keep := (x: MealRating) => x.meal != meal;
    FilterKeepsOneRatingPerUser(rs, keep);
    Filter(rs, keep)
  }

  /** One rating of `meal` by each of `users`, numbered from zero. */
  function RatingsOfMealBy(users: seq<UserId>, meal: MealId, value: int): (rs: seq<MealRating>)
    ensures |rs| == |users|
    ensures forall i :: 0 <= i < |rs| ==> rs[i] == MealRating(i, users[i], meal, value)
  {
    seq(|users|, i requires 0 <= i < |users| => MealRating(i, users[i], meal, value))
  }

  /** The meal column is a plain foreign key: any number of distinct users
      may each rate the same meal without breaking the user constraint. */
  lemma ManyRatingsPerMeal(users: seq<UserId>, meal: MealId, value: int)
    requires forall i, j :: 0 <= i < j < |users| ==> users[i] != users[j]
    ensures OneRatingPerUser(RatingsOfMealBy(users, meal, value))
    ensures |Filter(RatingsOfMealBy(users, meal, value), OnMeal(meal))| == |users|
  {
    FilterAll(RatingsOfMealBy(users, meal, value), OnMeal(meal));
  }
}
