# favameal: meal and restaurant views, ratings and stars

This project models the part of the favameal REST backend that does more
than move rows:

- the meal endpoints `retrieve`, `list`, `rate` and `star`;
- the restaurant endpoints `create`, `retrieve`, `list` and `star`;
- the `Meal` model: its `user_rating` getter and setter, its `avg_rating`
  accumulator, and the removal of a restaurant's meals when it is deleted;
- the `MealRating` model: its record shape, the validators on its value,
  its one-to-one user column, and the cascades on its user and meal.

The store is the class `Store.Db`. Its tables are sequences, kept in the
order the store yields rows, and the endpoints reassign them. A model
instance loaded for one request (`Meals.Meal`, `Store.Restaurant`) is a
class. The views write its per-request attributes in place. `None` in
those attributes means "never assigned". The store's filter is
`Query.Filter`, which keeps order. "The first row that matches" is
`Query.FirstMatch`.

Modules, in dependency order:

- `Common`: identifiers, the HTTP verbs of the actions, and the kinds of reply.
- `Query`: filtering and first-match search over stored rows.
- `MealRatings`: the rating record and its constraints.
- `Meals`: the meal record, the loaded meal instance and `avg_rating`.
- `Store`: the store, the restaurant record and the loaded restaurant instance.
- `MealView` and `RestaurantView`: the endpoints.

Every view method is proved against specification functions. The
caller's rating of a meal is `MealView.UserRatingOf`, the first of their
ratings of it, or zero. Whether a target is a favourite is
`IsFavoriteMeal` or `IsFavoriteRestaurant`. The lemmas tie the per-record
scans in `list` to those functions, and the mutations in `rate` and `star`
to what a later read shows.

The model follows the code as written:

- `rate` does not check the value against [1, 10]. Assigning and saving
  never runs the model's validators, so any integer is stored.
  `MealRatings.ValidRating` states what the validators would accept.
- The rating's user column is one-to-one (`models/mealrating.py:6`). A user
  holds at most one rating across all meals, not one per meal. A POST to
  `rate` by a user who has rated another meal makes the insert fail. The
  view catches that failure and replies with a message, and nothing is stored.
- `avg_rating` tests the total of the ratings for zero, not their number.
  This changes no value: with a zero total and at least one rating the
  quotient is zero anyway (`Meals.AverageIsMean`).
- Stars are not unique. POST to `star` stores another copy of an existing star.
- In the meal and restaurant `list`, a caller with no stars at all leaves
  `favorite` unassigned rather than false.
- `rate` with PUT or DELETE and no rating, or with POST and an existing
  rating, returns nothing (`Reply.NoReturn`).

## Model

| member | source | states |
|---|---|---|
| Query.Filter | favamealapi/views/meal.py:46 | the filtered rows are exactly the rows that satisfy the condition, every one of them satisfies it, there are no more of them than before, and none are left exactly when no row matched |
| Query.FirstMatch | favamealapi/views/meal.py:83-86 | the index is the first row that matches; every earlier row fails; the length means no row matches |
| Query.FilterHead | favamealapi/views/meal.py:47-48 | a filter result is non-empty exactly when some row matches, and its first element is the first matching row |
| MealRatings.DefaultRatingIsValid | favamealapi/models/mealrating.py:8 | the default value 1 passes the validators; 1 and 10 pass; 0 and 11 fail |
| MealRatings.FilterKeepsOneRatingPerUser | favamealapi/models/mealrating.py:6 | deleting any set of ratings keeps at most one rating per user |
| MealRatings.AppendKeepsOneRatingPerUser | favamealapi/models/mealrating.py:6 | saving a rating by a user who holds none keeps at most one rating per user |
| MealRatings.AtMostOneRatingPerUser | favamealapi/models/mealrating.py:6 | under the one-to-one user column, filtering by user yields at most one rating |
| MealRatings.DeleteUserCascade | favamealapi/models/mealrating.py:6 | deleting a user removes exactly the ratings referencing that user, and keeps the one-rating-per-user constraint |
| MealRatings.DeleteMealCascade | favamealapi/models/mealrating.py:7 | deleting a meal removes exactly the ratings referencing that meal, and keeps the one-rating-per-user constraint |
| MealRatings.ManyRatingsPerMeal | favamealapi/models/mealrating.py:7 | the meal column is a plain foreign key: any number of distinct users can each hold a rating of the same meal |
| Meals.SumBounds | favamealapi/models/meal.py:27-29 | when every value passes the validators, the accumulated total lies between 1 and 10 times the number of ratings |
| Meals.AverageWithoutRatings | favamealapi/models/meal.py:31-32 | a meal with no ratings averages 0 |
| Meals.AverageIsMean | favamealapi/models/meal.py:31-34 | the average is 0 for a meal without ratings and otherwise the total of its ratings over their number, although the code tests the total rather than the number |
| Meals.AverageInRange | favamealapi/models/meal.py:22-35 | a meal with at least one rating, all of this meal's values valid (other meals' values unrestricted), has a non-zero total; its average is the total over the count and lies in [1, 10] |
| Meals.AverageIgnoresOtherMeals | favamealapi/models/meal.py:25 | ratings of other meals, inserted anywhere in the table, do not change a meal's average |
| Meals.DeleteRestaurantCascade | favamealapi/models/meal.py:8 | deleting a restaurant removes exactly its meals and keeps every other |
| Meals.Meal.SetUserRating | favamealapi/models/meal.py:12-18 | after the setter, the getter is defined and yields the assigned value; no other attribute changes |
| Meals.Meal.AvgRating | favamealapi/models/meal.py:22-35 | the loop's total gives zero for a zero total and the total over the count otherwise, as `Meals.Average` defines |
| Store.Db.AllMeals | favamealapi/views/meal.py:75 | one new, distinct instance per stored meal, in store order, carrying that row's key, name and restaurant, with no per-request attribute assigned |
| Store.Db.GetMeal | favamealapi/views/meal.py:43 | a new instance carrying the key, name and restaurant of the stored meal with the requested key |
| Store.Db.AllRestaurants | favamealapi/views/restaurant.py:66 | one new, distinct instance per stored restaurant, in store order, carrying that row's key, name and address, with `favorite` unassigned |
| Store.Db.GetRestaurant | favamealapi/views/restaurant.py:43 | a new instance carrying the key, name and address of the stored restaurant with the requested key |
| MealView.ListedRatingAgrees | favamealapi/views/meal.py:79-90 | scanning the caller's ratings for the first one on a meal finds exactly the rating `retrieve` shows, and finds none exactly when the caller has not rated the meal |
| MealView.ListedFavoriteAgrees | favamealapi/views/meal.py:96-104 | scanning the caller's stars finds one on a meal exactly when `retrieve` reports it as a favourite; the scan is non-empty exactly when the caller has starred something |
| MealView.Retrieve | favamealapi/views/meal.py:42-62 | the loaded meal carries its stored name and restaurant, the caller's first rating of it, or 0, and whether the caller has starred it |
| MealView.AssignUserRating | favamealapi/views/meal.py:82-90 | the per-meal scan leaves `user_rating` at the value of the caller's first rating of the meal, or 0 |
| MealView.AssignFavorite | favamealapi/views/meal.py:98-104 | the per-meal scan sets `favorite` to whether some star of the caller's is on the meal; with no stars it leaves `favorite` as it was |
| MealView.AssignUserRatings | favamealapi/views/meal.py:79-90 | the first loop gives every meal the caller's rating as `retrieve` resolves it, and changes nothing but `user_rating` |
| MealView.AssignFavorites | favamealapi/views/meal.py:96-104 | the second loop gives every meal `favorite` as `retrieve` resolves it, or leaves it when the caller has no stars, and changes nothing but `favorite` |
| MealView.List | favamealapi/views/meal.py:75-104 | every stored meal, in order, with its stored name and restaurant, the caller's rating as `retrieve` gives it; `favorite` is as `retrieve` gives it when the caller has any star, and unassigned otherwise |
| MealView.Rate | favamealapi/views/meal.py:117-149 | PUT on an existing rating overwrites the first one's value only; DELETE removes every rating of the caller's on the meal; POST without one saves a new rating with a fresh key, unless the value is missing or the caller rated another meal (message, nothing stored); PUT without a value raises; other combinations return nothing; the one-rating-per-user invariant is kept |
| MealView.Star | favamealapi/views/meal.py:155-178 | POST appends the caller's star even if one exists; DELETE removes every star of the caller's on the meal and succeeds when there is none |
| MealView.RatingShownAfterCreate | favamealapi/views/meal.py:136-145 | after a POST saves a rating, the caller's rating of the meal reads back as the posted value |
| MealView.RatingShownAfterUpdate | favamealapi/views/meal.py:124-128 | after a PUT, the caller's rating of the meal reads back as the new value |
| MealView.RatingShownAfterDelete | favamealapi/views/meal.py:129-132 | after a DELETE, the caller has no rating of the meal and it reads back as 0 |
| MealView.StarAddsOneCopy | favamealapi/views/meal.py:157-166 | after a POST the meal is a favourite, and the number of the caller's stars on it rises by exactly one |
| MealView.UnstarRemovesOnlyCallers | favamealapi/views/meal.py:170-176 | after a DELETE the meal is no favourite of the caller, and every other star keeps its number of copies |
| RestaurantView.ListedFavoriteAgrees | favamealapi/views/restaurant.py:69-78 | scanning the caller's stars finds one on a restaurant exactly when `retrieve` reports it as a favourite; the scan is non-empty exactly when the caller has starred something |
| RestaurantView.Create | favamealapi/views/restaurant.py:18-32 | with both entries present, appends a restaurant with the request's name and address under a key no stored restaurant has; with either missing, raises and stores nothing; no other table changes |
| RestaurantView.Retrieve | favamealapi/views/restaurant.py:42-52 | the loaded restaurant carries its stored name and address and whether the caller has starred it |
| RestaurantView.AssignFavorite | favamealapi/views/restaurant.py:73-78 | the per-restaurant scan sets `favorite` to whether some star of the caller's is on the restaurant; with no stars it leaves `favorite` as it was |
| RestaurantView.List | favamealapi/views/restaurant.py:66-78 | every stored restaurant, in order, with its stored name and address; `favorite` is as `retrieve` gives it when the caller has any star, and unassigned otherwise |
| RestaurantView.Star | favamealapi/views/restaurant.py:88-112 | POST appends the caller's star even if one exists; DELETE removes every star of the caller's on the restaurant and succeeds when there is none |
| RestaurantView.StarAddsOneCopy | favamealapi/views/restaurant.py:90-100 | after a POST the restaurant is a favourite, and the number of the caller's stars on it rises by exactly one |
| RestaurantView.UnstarRemovesOnlyCallers | favamealapi/views/restaurant.py:103-110 | after a DELETE the restaurant is no favourite of the caller, every other star keeps its number of copies, and unstarring a restaurant that is not a favourite changes nothing |

## Left out

- Authentication and user lookup: the caller is a `UserId` parameter. The
  lookup of the user by name is assumed to succeed.
- Serializers and the JSON wire format: a reply is a `Reply` tag. The
  rendered body and status codes are not modelled.
- A missing key: `retrieve`, `rate` and `star` require that the requested
  meal or restaurant exists. The not-found replies are not modelled: a
  server error from `retrieve`; an exception that escapes from `rate`, from
  meal `star`, and from restaurant `star` POST, whose lookup stands outside
  its try; a message from restaurant `star` DELETE.
- Store failures other than the one-to-one user column: the generic
  exception branches around `save` and `delete` do not arise in the model.
- `MealView.create` and the meal and restaurant serializers: these are not
  part of this model.
- The `Restaurant`, `FavoriteMeal` and `FavoriteRestaurant` model files are
  not part of this model. Their rows are plain records, and their cascades
  on delete are not modelled.
- The `max_length` of names is not enforced.
- Meals.Meal.AvgRating: the result is an exact real, not a floating-point
  quotient. Python's `/` always yields a float; its rounding is not modelled.
- Meals.Meal.UserRating: reading the getter before any assignment raises in
  the source. Here that read is excluded by the getter's precondition rather
  than modelled as an error.
- Store.Db: the store's auto-increment keys are modelled as counters. Keys
  are never reused.
- MealView.Rate: `value` stands for the request's `rating` entry after the
  integer column converts it with `int()` when saving. A number of another
  type is converted, a float truncated toward zero, and is then stored as
  that integer. The conversion itself is not modelled. An entry `int()`
  rejects, or a null, is not modelled either: saving it raises for PUT,
  and for POST the failure is caught and gives a message.
- MealView.Star, RestaurantView.Star: the route admits only POST and
  DELETE, so the verb is a precondition.
