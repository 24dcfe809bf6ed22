/** The persistent store the views read and write, as in-memory sequences of
    rows, and the restaurant instance the restaurant views load from it.
    Sequence order is the order in which the store yields rows. */
module Store {
  import opened Common
  import opened Query
  import opened MealRatings
  import opened Meals

  /** The columns the store keeps for a restaurant. */
  datatype RestaurantRow = RestaurantRow(id: RestaurantId, name: string, address: string)

  /** A user's star on a meal; nothing stops the same pair being stored twice. */
  datatype FavoriteMeal = FavoriteMeal(user: UserId, meal: MealId)

  /** A user's star on a restaurant; nothing stops the same pair being stored twice. */
  datatype FavoriteRestaurant = FavoriteRestaurant(user: UserId, restaurant: RestaurantId)

  function WithRestaurantId(id: RestaurantId): RestaurantRow -> bool {
    (r: RestaurantRow) => r.id == id
  }

  predicate MealExists(meals: seq<MealRow>, pk: MealId) {
    exists i :: 0 <= i < |meals| && meals[i].id == pk
  }

  predicate RestaurantExists(restaurants: seq<RestaurantRow>, pk: RestaurantId) {
    exists i :: 0 <= i < |restaurants| && restaurants[i].id == pk
  }

  /** A restaurant instance as loaded from the store for one request. */
  class Restaurant {
    const id: RestaurantId
    var name: string
    var address: string
    /** The `favorite` attribute; `None` while no view has assigned it. */
    var favorite: Option<bool>

    constructor Load(row: RestaurantRow)
      ensures id == row.id && name == row.name && address == row.address
      ensures favorite == None
    {
      id := row.id;
      name := row.name;
      address := row.address;
      favorite := None;
    }
  }

  class Db {
    var restaurants: seq<RestaurantRow>
    var meals: seq<MealRow>
    var ratings: seq<MealRating>
    var favoriteMeals: seq<FavoriteMeal>
    var favoriteRestaurants: seq<FavoriteRestaurant>
    /** The key the next saved restaurant receives. */
    var nextRestaurantId: RestaurantId
    /** The key the next saved rating receives. */
    var nextRatingId: nat

    /** Keys handed out so far lie below the counters, and the rating table
        honours its one-to-one user column. */
    ghost predicate Valid()
      reads this
    {
      && (forall i :: 0 <= i < |restaurants| ==> restaurants[i].id < nextRestaurantId)
      && (forall i :: 0 <= i < |ratings| ==> ratings[i].id < nextRatingId)
      && OneRatingPerUser(ratings)
    }

    constructor ()
      ensures Valid()
      ensures restaurants == [] && meals == [] && ratings == []
      ensures favoriteMeals == [] && favoriteRestaurants == []
    {
      restaurants, meals, ratings := [], [], [];
      favoriteMeals, favoriteRestaurants := [], [];
      nextRestaurantId, nextRatingId := 0, 0;
    }

    /** `Meal.objects.all()`: one new, distinct instance per stored meal, in
        store order, with no per-request attribute assigned. */
    method AllMeals() returns (loaded: seq<Meal>)
      ensures |loaded| == |meals|
      ensures forall k :: 0 <= k < |loaded| ==> fresh(loaded[k])
      ensures forall k, l :: 0 <= k < l < |loaded| ==> loaded[k] != loaded[l]
      ensures forall k :: 0 <= k < |loaded| ==>
        loaded[k].id == meals[k].id && loaded[k].name == meals[k].name &&
        loaded[k].restaurant == meals[k].restaurant &&
        loaded[k].userRatingSlot == None && loaded[k].favorite == None
    {
      loaded := [];
      while |loaded| < |meals|
        invariant |loaded| <= |meals|
        invariant forall k :: 0 <= k < |loaded| ==> fresh(loaded[k])
        invariant forall k, l :: 0 <= k < l < |loaded| ==> loaded[k] != loaded[l]
        invariant forall k :: 0 <= k < |loaded| ==>
          loaded[k].id == meals[k].id && loaded[k].name == meals[k].name &&
          loaded[k].restaurant == meals[k].restaurant &&
          loaded[k].userRatingSlot == None && loaded[k].favorite == None
      {
        var meal := new Meal.Load(meals[|loaded|]);
        loaded := loaded + [meal];
      }
    }

    /** `Meal.objects.get(pk=pk)`: a new instance of the stored meal with that key. */
    method GetMeal(pk: MealId) returns (meal: Meal)
      requires MealExists(meals, pk)
      ensures fresh(meal)
      ensures var row := meals[FirstMatch(meals, WithMealId(pk))];
        meal.id == pk && meal.name == row.name && meal.restaurant == row.restaurant
      ensures meal.userRatingSlot == None && meal.favorite == None
    {
      meal := new Meal.Load(meals[FirstMatch(meals, WithMealId(pk))]);
    }

    /** `Restaurant.objects.all()`: one new, distinct instance per stored
        restaurant, in store order, with `favorite` unassigned. */
    method AllRestaurants() returns (loaded: seq<Restaurant>)
      ensures |loaded| == |restaurants|
      ensures forall k :: 0 <= k < |loaded| ==> fresh(loaded[k])
      ensures forall k, l :: 0 <= k < l < |loaded| ==> loaded[k] != loaded[l]
      ensures forall k :: 0 <= k < |loaded| ==>
        loaded[k].id == restaurants[k].id && loaded[k].name == restaurants[k].name &&
        loaded[k].address == restaurants[k].address && loaded[k].favorite == None
    {
      loaded := [];
      while |loaded| < |restaurants|
        invariant |loaded| <= |restaurants|
        invariant forall k :: 0 <= k < |loaded| ==> fresh(loaded[k])
        invariant forall k, l :: 0 <= k < l < |loaded| ==> loaded[k] != loaded[l]
        invariant forall k :: 0 <= k < |loaded| ==>
          loaded[k].id == restaurants[k].id && loaded[k].name == restaurants[k].name &&
          loaded[k].address == restaurants[k].address && loaded[k].favorite == None
      {
        var restaurant := new Restaurant.Load(restaurants[|loaded|]);
        loaded := loaded + [restaurant];
      }
    }

    /** `Restaurant.objects.get(pk=pk)`: a new instance of the stored
        restaurant with that key. */
    method GetRestaurant(pk: RestaurantId) returns (restaurant: Restaurant)
      requires RestaurantExists(restaurants, pk)
      ensures fresh(restaurant)
      ensures var row := restaurants[FirstMatch(restaurants, WithRestaurantId(pk))];
        restaurant.id == pk && restaurant.name == row.name && restaurant.address == row.address
      ensures restaurant.favorite == None
    {
      restaurant := new Restaurant.Load(restaurants[FirstMatch(restaurants, WithRestaurantId(pk))]);
    }
  }
}
