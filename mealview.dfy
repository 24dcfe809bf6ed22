/** The meal endpoints: `retrieve` and `list`, which attach the caller's
    rating and star to loaded meals, and the `rate` and `star` actions,
    which insert, overwrite and delete the caller's ratings and stars. */
module MealView {
  import opened Common
  import opened Query
  import opened MealRatings
  import opened Meals
  import opened Store

  /** The caller's rating of `meal`: the value of the first of their
      ratings of it in store order, or zero when they have none. */
  function UserRatingOf(ratings: seq<MealRating>, user: UserId, meal: MealId): int {
    var i := FirstMatch(ratings, RatedBy(user, meal));
    if i < |ratings| then ratings[i].rating else 0
  }

  predicate HasRating(ratings: seq<MealRating>, user: UserId, meal: MealId) {
    exists i :: 0 <= i < |ratings| && ratings[i].user == user && ratings[i].meal == meal
  }

  /** Some star of `user` on `meal` is stored. */
  predicate IsFavoriteMeal(favorites: seq<FavoriteMeal>, user: UserId, meal: MealId) {
    exists i :: 0 <= i < |favorites| && favorites[i].user == user && favorites[i].meal == meal
  }

  /** `user` has starred at least one meal. */
  predicate HasFavoriteMeals(favorites: seq<FavoriteMeal>, user: UserId) {
    exists i :: 0 <= i < |favorites| && favorites[i].user == user
  }

  function MealStarsOf(user: UserId): FavoriteMeal -> bool {
    (f: FavoriteMeal) => f.user == user
  }

  function StarredBy(user: UserId, meal: MealId): FavoriteMeal -> bool {
    (f: FavoriteMeal) => f.user == user && f.meal == meal
  }

  function NotStarredBy(user: UserId, meal: MealId): FavoriteMeal -> bool {
    (f: FavoriteMeal) => !(f.user == user && f.meal == meal)
  }

  /** Scanning the caller's ratings for the first one on `meal`, as `list`
      does, finds the rating `retrieve` shows, and finds none exactly when
      `retrieve` shows zero for want of a rating. */
  lemma ListedRatingAgrees(ratings: seq<MealRating>, user: UserId, meal: MealId)
    ensures var mine := Filter(ratings, ByUser(user));
      var j := FirstMatch(mine, OnMeal(meal));
      (j < |mine|) == HasRating(ratings, user, meal) &&
      UserRatingOf(ratings, user, meal) == if j < |mine| then mine[j].rating else 0
  {
    FirstMatchOfFilter(ratings, ByUser(user), OnMeal(meal), RatedBy(user, meal));
  }

  /** Scanning the caller's stars for one on `meal`, as `list` does, finds
      one exactly when `retrieve` reports the meal as a favourite, and the
      caller has stars at all exactly when that scan has anything to look at. */
  lemma ListedFavoriteAgrees(favorites: seq<FavoriteMeal>, user: UserId, meal: MealId)
    ensures var mine := Filter(favorites, MealStarsOf(user));
      (|mine| > 0) == HasFavoriteMeals(favorites, user) &&
      (FirstMatch(mine, (f: FavoriteMeal) => f.meal == meal) < |mine|) == IsFavoriteMeal(favorites, user, meal)
  {
    var mine := Filter(favorites, MealStarsOf(user));
    FirstMatchOfFilter(favorites, MealStarsOf(user), (f: FavoriteMeal) => f.meal == meal, StarredBy(user, meal));
    if HasFavoriteMeals(favorites, user) {
      var i :| 0 <= i < |favorites| && favorites[i].user == user;
      assert favorites[i] in mine;
    }
  }

  /** `retrieve`: loads the meal with key `pk` and assigns it the caller's
      rating (zero without one) and whether the caller has starred it. */
  method Retrieve(db: Db, pk: MealId, user: UserId) returns (meal: Meal)
    requires MealExists(db.meals, pk)
    ensures var row := db.meals[FirstMatch(db.meals, WithMealId(pk))];
      meal.id == pk && meal.name == row.name && meal.restaurant == row.restaurant
    ensures meal.userRatingSlot == Some(UserRatingOf(db.ratings, user, pk))
    ensures meal.favorite == Some(IsFavoriteMeal(db.favoriteMeals, user, pk))
  {
    meal := db.GetMeal(pk);
    var mealRating := Filter(db.ratings, RatedBy(user, meal.id));
    FilterHead(db.ratings, RatedBy(user, meal.id));
    if |mealRating| > 0 {
      meal.SetUserRating(mealRating[0].rating);
    } else {
      meal.SetUserRating(0);
    }
    var favorite := Filter(db.favoriteMeals, StarredBy(user, meal.id));
    if |favorite| > 0 {
      meal.favorite := Some(true);
    } else {
      meal.favorite := Some(false);
    }
  }

  /** Meal-list step, the body of the first loop of `list`: scan the caller's ratings for
      the first on this meal, writing zero into `user_rating` at every
      rating of another meal, and its value at the first match. */
  method AssignUserRating(meal: Meal, userRatings: seq<MealRating>)
    modifies meal`userRatingSlot
    ensures var j := FirstMatch(userRatings, OnMeal(meal.id));
      meal.userRatingSlot == Some(if j < |userRatings| then userRatings[j].rating else 0)
  {
    if |userRatings| > 0 {
      var j := 0;
      while j < |userRatings|
        invariant 0 <= j <= |userRatings|
        invariant forall k :: 0 <= k < j ==> userRatings[k].meal != meal.id
        invariant j > 0 ==> meal.userRatingSlot == Some(0)
      {
        if meal.id == userRatings[j].meal {
          meal.SetUserRating(userRatings[j].rating);
          break;
        } else {
          meal.SetUserRating(0);
        }
        j := j + 1;
      }
    } else {
      meal.SetUserRating(0);
    }
  }

  /** Meal-list step, the body of the second loop of `list`: scan the caller's stars for
      one on this meal, writing false into `favorite` at every star of
      another meal and true at the first match; with no stars at all,
      `favorite` is left as it was. */
  method AssignFavorite(meal: Meal, userFavorites: seq<FavoriteMeal>)
    modifies meal`favorite
    ensures |userFavorites| == 0 ==> meal.favorite == old(meal.favorite)
    ensures |userFavorites| > 0 ==>
      meal.favorite == Some(FirstMatch(userFavorites, (f: FavoriteMeal) => f.meal == meal.id) < |userFavorites|)
  {
    var j := 0;
    while j < |userFavorites|
      invariant 0 <= j <= |userFavorites|
      invariant forall k :: 0 <= k < j ==> userFavorites[k].meal != meal.id
      invariant meal.favorite == if j == 0 then old(meal.favorite) else Some(false)
    {
      if meal.id == userFavorites[j].meal {
        meal.favorite := Some(true);
        break;
      } else {
        meal.favorite := Some(false);
      }
      j := j + 1;
    }
  }

  /** First loop of `list`: every loaded meal receives the caller's rating
      as `retrieve` resolves it; `favorite` is untouched. */
  method AssignUserRatings(meals: seq<Meal>, ratings: seq<MealRating>, user: UserId)
    requires forall k, l :: 0 <= k < l < |meals| ==> meals[k] != meals[l]
    modifies (set m | m in meals)`userRatingSlot
    ensures forall k :: 0 <= k < |meals| ==>
      meals[k].userRatingSlot == Some(UserRatingOf(ratings, user, meals[k].id)) &&
      meals[k].favorite == old(meals[k].favorite)
  {
    var userRatings := Filter(ratings, ByUser(user));
    var i := 0;
    while i < |meals|
      invariant 0 <= i <= |meals|
      invariant forall k :: 0 <= k < i ==>
        meals[k].userRatingSlot == Some(UserRatingOf(ratings, user, meals[k].id))
    {
      var meal := meals[i];
      ListedRatingAgrees(ratings, user, meal.id);
      AssignUserRating(meal, userRatings);
      assert meal.userRatingSlot == Some(UserRatingOf(ratings, user, meal.id));
      i := i + 1;
    }
  }

  /** Second loop of `list`: when the caller has starred anything, every
      loaded meal receives `favorite` as `retrieve` resolves it; otherwise
      no meal's `favorite` changes.  `user_rating` is untouched. */
  method AssignFavorites(meals: seq<Meal>, favorites: seq<FavoriteMeal>, user: UserId)
    requires forall k, l :: 0 <= k < l < |meals| ==> meals[k] != meals[l]
    modifies (set m | m in meals)`favorite
    ensures forall k :: 0 <= k < |meals| ==>
      meals[k].userRatingSlot == old(meals[k].userRatingSlot) &&
      meals[k].favorite ==
        if HasFavoriteMeals(favorites, user)
        then Some(IsFavoriteMeal(favorites, user, meals[k].id))
        else old(meals[k].favorite)
  {
    var userFavorites := Filter(favorites, MealStarsOf(user));
    var i := 0;
    while i < |meals|
      invariant 0 <= i <= |meals|
      invariant forall k :: 0 <= k < |meals| ==> meals[k].userRatingSlot == old(meals[k].userRatingSlot)
      invariant forall k :: 0 <= k < i ==>
        meals[k].favorite ==
          if HasFavoriteMeals(favorites, user)
          then Some(IsFavoriteMeal(favorites, user, meals[k].id))
          else old(meals[k].favorite)
      invariant forall k :: i <= k < |meals| ==> meals[k].favorite == old(meals[k].favorite)
    {
      ListedFavoriteAgrees(favorites, user, meals[i].id);
      AssignFavorite(meals[i], userFavorites);
      i := i + 1;
    }
  }

  /** `list`: loads every meal and gives each the rating `retrieve` would
      give it; when the caller has starred anything, each meal's `favorite`
      is what `retrieve` would report, and otherwise it stays unassigned. */
  method List(db: Db, user: UserId) returns (meals: seq<Meal>)
    ensures |meals| == |db.meals|
    ensures forall k :: 0 <= k < |meals| ==>
      meals[k].id == db.meals[k].id && meals[k].name == db.meals[k].name &&
      meals[k].restaurant == db.meals[k].restaurant
    ensures forall k :: 0 <= k < |meals| ==>
      meals[k].userRatingSlot == Some(UserRatingOf(db.ratings, user, meals[k].id))
    ensures forall k :: 0 <= k < |meals| ==>
      meals[k].favorite ==
        if HasFavoriteMeals(db.favoriteMeals, user)
        then Some(IsFavoriteMeal(db.favoriteMeals, user, meals[k].id))
        else None
  {
    meals := db.AllMeals();
    AssignUserRatings(meals, db.ratings, user);
    AssignFavorites(meals, db.favoriteMeals, user);
  }

  /** The `rate` action on the meal with key `pk`.  `value` is the request's
      `rating` entry, `None` when the body lacks one.  With a stored rating
      of the caller's on this meal: PUT overwrites the value of the first
      such rating, DELETE removes all of them; without one: POST saves a new
      rating unless the caller already rated another meal, which the
      one-to-one user column refuses.  Every other combination does nothing
      and returns nothing.  No value is checked against the validators. */
  method Rate(db: Db, pk: MealId, user: UserId, verb: Verb, value: Option<int>) returns (reply: Reply)
    requires db.Valid()
    requires MealExists(db.meals, pk)
    modifies db
    ensures db.Valid()
    ensures db.restaurants == old(db.restaurants) && db.meals == old(db.meals)
    ensures db.favoriteMeals == old(db.favoriteMeals) && db.favoriteRestaurants == old(db.favoriteRestaurants)
    ensures db.nextRestaurantId == old(db.nextRestaurantId)
    ensures HasRating(old(db.ratings), user, pk) && verb == Put && value.Some? ==>
      var i := FirstMatch(old(db.ratings), RatedBy(user, pk));
      reply == NoContent && i < |old(db.ratings)| &&
      |db.ratings| == |old(db.ratings)| &&
      db.ratings[i] == old(db.ratings)[i].(rating := value.value) &&
      (forall k :: 0 <= k < |db.ratings| && k != i ==> db.ratings[k] == old(db.ratings)[k]) &&
      db.nextRatingId == old(db.nextRatingId)
    ensures HasRating(old(db.ratings), user, pk) && verb == Delete ==>
      reply == NoContent &&
      db.ratings == Filter(old(db.ratings), NotRatedBy(user, pk)) &&
      db.nextRatingId == old(db.nextRatingId)
    ensures !HasRating(old(db.ratings), user, pk) && verb == Post && value.Some? &&
            NoRatingBy(old(db.ratings), user) ==>
      reply == Body &&
      db.ratings == old(db.ratings) + [MealRating(old(db.nextRatingId), user, pk, value.value)] &&
      db.nextRatingId == old(db.nextRatingId) + 1
    ensures !HasRating(old(db.ratings), user, pk) && verb == Post &&
            (value.None? || !NoRatingBy(old(db.ratings), user)) ==>
      reply == Message && db.ratings == old(db.ratings) && db.nextRatingId == old(db.nextRatingId)
    ensures HasRating(old(db.ratings), user, pk) && verb == Put && value.None? ==>
      reply == Raised && db.ratings == old(db.ratings) && db.nextRatingId == old(db.nextRatingId)
    ensures (HasRating(old(db.ratings), user, pk) && verb == Post) ||
            (!HasRating(old(db.ratings), user, pk) && verb != Post) ==>
      reply == NoReturn && db.ratings == old(db.ratings) && db.nextRatingId == old(db.nextRatingId)
  {
    var rating := Filter(db.ratings, RatedBy(user, pk));
    assert (|rating| > 0) == HasRating(db.ratings, user, pk) by {
      if HasRating(db.ratings, user, pk) {
        var k :| 0 <= k < |db.ratings| && db.ratings[k].user == user && db.ratings[k].meal == pk;
        assert db.ratings[k] in rating;
      }
    }
    if |rating| > 0 {
      if verb == Put {
        if value.None? {
          // reading the missing `rating` entry raises before anything is saved
          return Raised;
        }
        FilterHead(db.ratings, RatedBy(user, pk));
        var i := FirstMatch(db.ratings, RatedBy(user, pk));
        db.ratings := db.ratings[i := rating[0].(rating := value.value)];
        reply := NoContent;
      } else if verb == Delete {
        FilterKeepsOneRatingPerUser(db.ratings, NotRatedBy(user, pk));
        db.ratings := Filter(db.ratings, NotRatedBy(user, pk));
        reply := NoContent;
      } else {
        reply := NoReturn;
      }
    } else {
      if verb == Post {
        if value.None? {
          return Message;
        }
        if !NoRatingBy(db.ratings, user) {
          // the one-to-one user column refuses a second rating by this user
          reply := Message;
        } else {
          var saved := MealRating(db.nextRatingId, user, pk, value.value);
          AppendKeepsOneRatingPerUser(db.ratings, saved);
          db.ratings := db.ratings + [saved];
          db.nextRatingId := db.nextRatingId + 1;
          reply := Body;
        }
      } else {
        reply := NoReturn;
      }
    }
  }

  /** The `star` action on the meal with key `pk`: POST stores one more star
      of the caller's on it, whether or not one exists; DELETE removes every
      such star and succeeds when there is none. */
  method Star(db: Db, pk: MealId, user: UserId, verb: Verb) returns (reply: Reply)
    requires db.Valid()
    requires verb == Post || verb == Delete
    requires MealExists(db.meals, pk)
    modifies db
    ensures db.Valid()
    ensures db.restaurants == old(db.restaurants) && db.meals == old(db.meals)
    ensures db.ratings == old(db.ratings) && db.favoriteRestaurants == old(db.favoriteRestaurants)
    ensures db.nextRestaurantId == old(db.nextRestaurantId) && db.nextRatingId == old(db.nextRatingId)
    ensures verb == Post ==>
      reply == Body && db.favoriteMeals == old(db.favoriteMeals) + [FavoriteMeal(user, pk)]
    ensures verb == Delete ==>
      reply == NoContent && db.favoriteMeals == Filter(old(db.favoriteMeals), NotStarredBy(user, pk))
  {
    if verb == Post {
      db.favoriteMeals := db.favoriteMeals + [FavoriteMeal(user, pk)];
      reply := Body;
    } else {
      db.favoriteMeals := Filter(db.favoriteMeals, NotStarredBy(user, pk));
      reply := NoContent;
    }
  }

  /** After a successful POST to `rate`, the caller's rating reads back as
      the posted value. */
  lemma RatingShownAfterCreate(ratings: seq<MealRating>, id: nat, user: UserId, meal: MealId, value: int)
    requires !HasRating(ratings, user, meal)
    ensures UserRatingOf(ratings + [MealRating(id, user, meal, value)], user, meal) == value
  {
    FirstMatchOfAppended(ratings, MealRating(id, user, meal, value), RatedBy(user, meal));
  }

  /** After a PUT to `rate`, the caller's rating reads back as the new value. */
  lemma RatingShownAfterUpdate(ratings: seq<MealRating>, user: UserId, meal: MealId, value: int)
    requires HasRating(ratings, user, meal)
    ensures var i := FirstMatch(ratings, RatedBy(user, meal));
      i < |ratings| &&
      UserRatingOf(ratings[i := ratings[i].(rating := value)], user, meal) == value
  {
    var i := FirstMatch(ratings, RatedBy(user, meal));
    FirstMatchOfUpdated(ratings, i, ratings[i].(rating := value), RatedBy(user, meal));
  }

  /** After a DELETE to `rate`, the caller has no rating of the meal and
      it reads back as zero. */
  lemma RatingShownAfterDelete(ratings: seq<MealRating>, user: UserId, meal: MealId)
    ensures !HasRating(Filter(ratings, NotRatedBy(user, meal)), user, meal)
    ensures UserRatingOf(Filter(ratings, NotRatedBy(user, meal)), user, meal) == 0
  {
  }

  /** A POST to `star` makes the meal a favourite of the caller, and storing
      a star that already exists adds a second copy of it. */
  lemma StarAddsOneCopy(favorites: seq<FavoriteMeal>, user: UserId, meal: MealId)
    ensures IsFavoriteMeal(favorites + [FavoriteMeal(user, meal)], user, meal)
    ensures |Filter(favorites + [FavoriteMeal(user, meal)], StarredBy(user, meal))|
         == |Filter(favorites, StarredBy(user, meal))| + 1
  {
    FilterAppend(favorites, [FavoriteMeal(user, meal)], StarredBy(user, meal));
    assert |favorites + [FavoriteMeal(user, meal)]| - 1 == |favorites|;
  }

  /** A DELETE to `star` leaves the meal no favourite of the caller and
      every other user's or meal's stars as they were. */
  lemma UnstarRemovesOnlyCallers(favorites: seq<FavoriteMeal>, user: UserId, meal: MealId, f: FavoriteMeal)
    ensures !IsFavoriteMeal(Filter(favorites, NotStarredBy(user, meal)), user, meal)
    ensures f != FavoriteMeal(user, meal) ==>
      multiset(Filter(favorites, NotStarredBy(user, meal)))[f] == multiset(favorites)[f]
  {
    FilterCount(favorites, NotStarredBy(user, meal), f);
  }
}
