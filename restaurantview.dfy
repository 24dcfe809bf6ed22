/** The restaurant endpoints: `create`, `retrieve` and `list`, which attach
    the caller's star to loaded restaurants, and the `star` action, which
    inserts and deletes the caller's stars. */
module RestaurantView {
  import opened Common
  import opened Query
  import opened Store

  /** Some star of `user` on `restaurant` is stored. */
  predicate IsFavoriteRestaurant(favorites: seq<FavoriteRestaurant>, user: UserId, restaurant: RestaurantId) {
    exists i :: 0 <= i < |favorites| && favorites[i].user == user && favorites[i].restaurant == restaurant
  }

  /** `user` has starred at least one restaurant. */
  predicate HasFavoriteRestaurants(favorites: seq<FavoriteRestaurant>, user: UserId) {
    exists i :: 0 <= i < |favorites| && favorites[i].user == user
  }

  function RestaurantStarsOf(user: UserId): FavoriteRestaurant -> bool {
    (f: FavoriteRestaurant) => f.user == user
  }

  function StarredBy(user: UserId, restaurant: RestaurantId): FavoriteRestaurant -> bool {
    (f: FavoriteRestaurant) => f.user == user && f.restaurant == restaurant
  }

  function NotStarredBy(user: UserId, restaurant: RestaurantId): FavoriteRestaurant -> bool {
    (f: FavoriteRestaurant) => !(f.user == user && f.restaurant == restaurant)
  }

  /** Scanning the caller's stars for one on `restaurant`, as `list` does,
      finds one exactly when `retrieve` reports it as a favourite, and the
      caller has stars at all exactly when that scan has anything to look at. */
  lemma ListedFavoriteAgrees(favorites: seq<FavoriteRestaurant>, user: UserId, restaurant: RestaurantId)
    ensures var mine := Filter(favorites, RestaurantStarsOf(user));
      (|mine| > 0) == HasFavoriteRestaurants(favorites, user) &&
      (FirstMatch(mine, (f: FavoriteRestaurant) => f.restaurant == restaurant) < |mine|)
        == IsFavoriteRestaurant(favorites, user, restaurant)
  {
    var mine := Filter(favorites, RestaurantStarsOf(user));
    FirstMatchOfFilter(favorites, RestaurantStarsOf(user),
      (f: FavoriteRestaurant) => f.restaurant == restaurant, StarredBy(user, restaurant));
    if HasFavoriteRestaurants(favorites, user) {
      var i :| 0 <= i < |favorites| && favorites[i].user == user;
      assert favorites[i] in mine;
    }
  }

  /** `create`: `name` and `address` are the request's entries, `None` when
      the body lacks one.  With both present it saves a restaurant holding
      them under a key no stored restaurant has; with either missing, reading
      it raises before anything is saved.  No other table changes. */
  method Create(db: Db, name: Option<string>, address: Option<string>) returns (row: Option<RestaurantRow>, reply: Reply)
    requires db.Valid()
    modifies db
    ensures db.Valid()
    ensures db.meals == old(db.meals) && db.ratings == old(db.ratings)
    ensures db.favoriteMeals == old(db.favoriteMeals) && db.favoriteRestaurants == old(db.favoriteRestaurants)
    ensures db.nextRatingId == old(db.nextRatingId)
    ensures name.Some? && address.Some? ==>
      reply == Body && row.Some? &&
      row.value.name == name.value && row.value.address == address.value &&
      (forall i :: 0 <= i < |old(db.restaurants)| ==> old(db.restaurants)[i].id != row.value.id) &&
      db.restaurants == old(db.restaurants) + [row.value] &&
      db.nextRestaurantId == old(db.nextRestaurantId) + 1
    ensures name.None? || address.None? ==>
      reply == Raised && row == None &&
      db.restaurants == old(db.restaurants) && db.nextRestaurantId == old(db.nextRestaurantId)
  {
    if name.None? || address.None? {
      return None, Raised;
    }
    var saved := RestaurantRow(db.nextRestaurantId, name.value, address.value);
    db.restaurants := db.restaurants + [saved];
    db.nextRestaurantId := db.nextRestaurantId + 1;
    row, reply := Some(saved), Body;
  }

  /** `retrieve`: loads the restaurant with key `pk` and assigns it whether
      the caller has starred it. */
  method Retrieve(db: Db, pk: RestaurantId, user: UserId) returns (restaurant: Restaurant)
    requires RestaurantExists(db.restaurants, pk)
    ensures var row := db.restaurants[FirstMatch(db.restaurants, WithRestaurantId(pk))];
      restaurant.id == pk && restaurant.name == row.name && restaurant.address == row.address
    ensures restaurant.favorite == Some(IsFavoriteRestaurant(db.favoriteRestaurants, user, pk))
  {
    restaurant := db.GetRestaurant(pk);
    var favorite := Filter(db.favoriteRestaurants, StarredBy(user, restaurant.id));
    if |favorite| > 0 {
      restaurant.favorite := Some(true);
    } else {
      restaurant.favorite := Some(false);
    }
  }

  /** Restaurant-list step, the body of the loop of `list`: scan the caller's stars
      for one on this restaurant, writing false into `favorite` at every star
      of another restaurant and true at the first match; with no stars at
      all, `favorite` is left as it was. */
  method AssignFavorite(restaurant: Restaurant, userFavorites: seq<FavoriteRestaurant>)
    modifies restaurant`favorite
    ensures |userFavorites| == 0 ==> restaurant.favorite == old(restaurant.favorite)
    ensures |userFavorites| > 0 ==>
      restaurant.favorite ==
        Some(FirstMatch(userFavorites, (f: FavoriteRestaurant) => f.restaurant == restaurant.id) < |userFavorites|)
  {
    var j := 0;
    while j < |userFavorites|
      invariant 0 <= j <= |userFavorites|
      invariant forall k :: 0 <= k < j ==> userFavorites[k].restaurant != restaurant.id
      invariant restaurant.favorite == if j == 0 then old(restaurant.favorite) else Some(false)
    {
      if restaurant.id == userFavorites[j].restaurant {
        restaurant.favorite := Some(true);
        break;
      } else {
        restaurant.favorite := Some(false);
      }
      j := j + 1;
    }
  }

  /** `list`: loads every restaurant; when the caller has starred anything,
      each one's `favorite` is what `retrieve` would report, and otherwise
      it stays unassigned. */
  method List(db: Db, user: UserId) returns (restaurants: seq<Restaurant>)
    ensures |restaurants| == |db.restaurants|
    ensures forall k :: 0 <= k < |restaurants| ==>
      restaurants[k].id == db.restaurants[k].id && restaurants[k].name == db.restaurants[k].name &&
      restaurants[k].address == db.restaurants[k].address
    ensures forall k :: 0 <= k < |restaurants| ==>
      restaurants[k].favorite ==
        if HasFavoriteRestaurants(db.favoriteRestaurants, user)
        then Some(IsFavoriteRestaurant(db.favoriteRestaurants, user, restaurants[k].id))
        else None
  {
    restaurants := db.AllRestaurants();
    var userFavorites := Filter(db.favoriteRestaurants, RestaurantStarsOf(user));
    var i := 0;
    while i < |restaurants|
      invariant 0 <= i <= |restaurants| == |db.restaurants|
      invariant forall k :: 0 <= k < |restaurants| ==> fresh(restaurants[k])
      invariant forall k, l :: 0 <= k < l < |restaurants| ==> restaurants[k] != restaurants[l]
      invariant forall k :: 0 <= k < |restaurants| ==>
        restaurants[k].id == db.restaurants[k].id && restaurants[k].name == db.restaurants[k].name &&
        restaurants[k].address == db.restaurants[k].address
      invariant forall k :: 0 <= k < i ==>
        restaurants[k].favorite ==
          if HasFavoriteRestaurants(db.favoriteRestaurants, user)
          then Some(IsFavoriteRestaurant(db.favoriteRestaurants, user, restaurants[k].id))
          else None
      invariant forall k :: i <= k < |restaurants| ==> restaurants[k].favorite == None
    {
      ListedFavoriteAgrees(db.favoriteRestaurants, user, restaurants[i].id);
      AssignFavorite(restaurants[i], userFavorites);
      i := i + 1;
    }
  }

  /** The `star` action on the restaurant with key `pk`: POST stores one more
      star of the caller's on it, whether or not one exists; DELETE removes
      every such star and succeeds when there is none. */
  method Star(db: Db, pk: RestaurantId, user: UserId, verb: Verb) returns (reply: Reply)
    requires db.Valid()
    requires verb == Post || verb == Delete
    requires RestaurantExists(db.restaurants, pk)
    modifies db
    ensures db.Valid()
    ensures db.restaurants == old(db.restaurants) && db.meals == old(db.meals)
    ensures db.ratings == old(db.ratings) && db.favoriteMeals == old(db.favoriteMeals)
    ensures db.nextRestaurantId == old(db.nextRestaurantId) && db.nextRatingId == old(db.nextRatingId)
    ensures verb == Post ==>
      reply == Body && db.favoriteRestaurants == old(db.favoriteRestaurants) + [FavoriteRestaurant(user, pk)]
    ensures verb == Delete ==>
      reply == NoContent &&
      db.favoriteRestaurants == Filter(old(db.favoriteRestaurants), NotStarredBy(user, pk))
  {
    if verb == Post {
      db.favoriteRestaurants := db.favoriteRestaurants + [FavoriteRestaurant(user, pk)];
      reply := Body;
    } else {
      db.favoriteRestaurants := Filter(db.favoriteRestaurants, NotStarredBy(user, pk));
      reply := NoContent;
    }
  }

  /** A POST to `star` makes the restaurant a favourite of the caller, and
      storing a star that already exists adds a second copy of it. */
  lemma StarAddsOneCopy(favorites: seq<FavoriteRestaurant>, user: UserId, restaurant: RestaurantId)
    ensures IsFavoriteRestaurant(favorites + [FavoriteRestaurant(user, restaurant)], user, restaurant)
    ensures |Filter(favorites + [FavoriteRestaurant(user, restaurant)], StarredBy(user, restaurant))|
         == |Filter(favorites, StarredBy(user, restaurant))| + 1
  {
    FilterAppend(favorites, [FavoriteRestaurant(user, restaurant)], StarredBy(user, restaurant));
    assert |favorites + [FavoriteRestaurant(user, restaurant)]| - 1 == |favorites|;
  }

  /** A DELETE to `star` leaves the restaurant no favourite of the caller,
      keeps every copy of every other star, and on a restaurant the caller
      had not starred changes nothing. */
  lemma UnstarRemovesOnlyCallers(favorites: seq<FavoriteRestaurant>, user: UserId, restaurant: RestaurantId, f: FavoriteRestaurant)
    ensures !IsFavoriteRestaurant(Filter(favorites, NotStarredBy(user, restaurant)), user, restaurant)
    ensures f != FavoriteRestaurant(user, restaurant) ==>
      multiset(Filter(favorites, NotStarredBy(user, restaurant)))[f] == multiset(favorites)[f]
    ensures !IsFavoriteRestaurant(favorites, user, restaurant) ==>
      Filter(favorites, NotStarredBy(user, restaurant)) == favorites
  {
    FilterCount(favorites, NotStarredBy(user, restaurant), f);
    if !IsFavoriteRestaurant(favorites, user, restaurant) {
      FilterAll(favorites, NotStarredBy(user, restaurant));
    }
  }
}
