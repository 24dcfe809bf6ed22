/** The `Meal` model: its stored columns, the instance loaded from the store
    with its two per-request attributes (`user_rating`, kept in a private
    slot behind a getter and setter, and `favorite`), the `avg_rating`
    property, and the removal of a restaurant's meals when it is deleted. */
module Meals {
  import opened Common
  import opened Query
  import opened MealRatings

  /** The columns the store keeps for a meal. */
  datatype MealRow = MealRow(id: MealId, name: string, restaurant: RestaurantId)

  function WithMealId(id: MealId): MealRow -> bool {
    (m: MealRow) => m.id == id
  }

  /** Total of the values of `rs`. */
  function Sum(rs: seq<MealRating>): int {
    if rs == [] then 0 else Sum(rs[..|rs| - 1]) + rs[|rs| - 1].rating
  }

  /** The value `avg_rating` yields for `meal`: zero when the total of its
      ratings is zero, otherwise that total over their number. */
  function Average(ratings: seq<MealRating>, meal: MealId): real {
    var mine := Filter(ratings, OnMeal(meal));
    var total := Sum(mine);
    if total == 0 then 0.0
    else
      assert mine != [];
      total as real / |mine| as real
  }

  /** Every value lies in the validator range, so the total lies between
      `MinRating` and `MaxRating` times the number of ratings. */
  lemma {:induction false} SumBounds(rs: seq<MealRating>)
    requires AllValid(rs)
    ensures MinRating * |rs| <= Sum(rs) <= MaxRating * |rs|
  {
    if rs != [] {
      var init := rs[..|rs| - 1];
      assert AllValid(init) by {
        forall i | 0 <= i < |init| ensures ValidRating(init[i].rating) {
          assert init[i] == rs[i];
        }
      }
      SumBounds(init);
      assert ValidRating(rs[|rs| - 1].rating);
    }
  }

  /** A meal nobody has rated averages zero. */
  lemma AverageWithoutRatings(ratings: seq<MealRating>, meal: MealId)
    requires forall i :: 0 <= i < |ratings| ==> ratings[i].meal != meal
    ensures Average(ratings, meal) == 0.0
  {
    assert Filter(ratings, OnMeal(meal)) == [];
  }

  /** Testing the total for zero rather than the number of ratings changes
      no value: the average is zero without ratings and otherwise the mean,
      which is zero anyway when the total is. */
  lemma AverageIsMean(ratings: seq<MealRating>, meal: MealId)
    ensures var mine := Filter(ratings, OnMeal(meal));
      Average(ratings, meal) == if mine == [] then 0.0 else Sum(mine) as real / |mine| as real
  {
  }

  /** When every value stored for this meal passes the validators (ratings
      of other meals may hold anything) and the meal has at least one
      rating, the total is never zero, so the average is the mean of its
      ratings and lies within the validator range. */
  lemma AverageInRange(ratings: seq<MealRating>, meal: MealId)
    requires forall i :: 0 <= i < |ratings| && ratings[i].meal == meal ==> ValidRating(ratings[i].rating)
    requires exists i :: 0 <= i < |ratings| && ratings[i].meal == meal
    ensures var mine := Filter(ratings, OnMeal(meal));
      |mine| > 0 && Sum(mine) != 0 && Average(ratings, meal) == Sum(mine) as real / |mine| as real
    ensures MinRating as real <= Average(ratings, meal) <= MaxRating as real
  {
    var mine := Filter(ratings, OnMeal(meal));
    var i :| 0 <= i < |ratings| && ratings[i].meal == meal;
    assert ratings[i] in mine;
    assert AllValid(mine) by {
      forall k | 0 <= k < |mine| ensures ValidRating(mine[k].rating) {
        assert mine[k] in ratings;
      }
    }
    SumBounds(mine);
    var n := |mine| as real;
    var total := Sum(mine) as real;
    assert n <= total <= 10.0 * n;
    MeanBetween(total, n);
  }

  /** A total between `n` and `10 * n` gives a quotient between 1 and 10. */
  lemma MeanBetween(total: real, n: real)
    requires n > 0.0 && n <= total <= 10.0 * n
    ensures 1.0 <= total / n <= 10.0
  {
    var q := total / n;
    assert q * n == total;
  }

  /** `avg_rating` looks only at the ratings of its own meal: ratings of
      other meals, wherever they stand in the table, do not change it. */
  lemma AverageIgnoresOtherMeals(before: seq<MealRating>, other: seq<MealRating>, after: seq<MealRating>, meal: MealId)
    requires forall i :: 0 <= i < |other| ==> other[i].meal != meal
    ensures Average(before + other + after, meal) == Average(before + after, meal)
  {
    var p := OnMeal(meal);
    FilterAppend(before + other, after, p);
    FilterAppend(before, other, p);
    FilterAppend(before, after, p);
    assert Filter(other, p) == [];
    assert Filter(before, p) + [] == Filter(before, p);
  }

  /** Deleting a restaurant removes exactly the meals that belong to it. */
  function DeleteRestaurantCascade(meals: seq<MealRow>, restaurant: RestaurantId): (r: seq<MealRow>)
    ensures forall m :: m in r <==> m in meals && m.restaurant != restaurant
    ensures |r| <= |meals|
  {
    Filter(meals, (m: MealRow) => m.restaurant != restaurant)
  }

  /** A meal instance as loaded from the store for one request. */
  class Meal {
    const id: MealId
    var name: string
    var restaurant: RestaurantId
    /** The private slot behind `user_rating`; `None` until the setter runs,
        when reading the property would raise. */
    var userRatingSlot: Option<int>
    /** The `favorite` attribute; `None` while no view has assigned it. */
    var favorite: Option<bool>

    /** An instance built from its stored row, with neither per-request
        attribute assigned yet. */
    constructor Load(row: MealRow)
      ensures id == row.id && name == row.name && restaurant == row.restaurant
      ensures userRatingSlot == None && favorite == None
    {
      id := row.id;
      name := row.name;
      restaurant := row.restaurant;
      userRatingSlot := None;
      favorite := None;
    }

    /** The `user_rating` getter; reading it before any assignment raises. */
    function UserRating(): int
      reads this
      requires userRatingSlot.Some?
    {
      userRatingSlot.value
    }

    /** The `user_rating` setter: afterwards the getter yields `value`, and
        no other attribute has changed. */
    method SetUserRating(value: int)
      modifies this`userRatingSlot
      ensures userRatingSlot.Some? && UserRating() == value
    {
      userRatingSlot := Some(value);
    }

    /** The `avg_rating` property: totals the values of this meal's ratings
        in one pass, then yields zero for a zero total and the total over the
        number of ratings otherwise. */
    method AvgRating(ratings: seq<MealRating>) returns (avg: real)
      ensures avg == Average(ratings, id)
    {
      var mine := Filter(ratings, OnMeal(id));
      var total := 0;
      var i := 0;
      while i < |mine|
        invariant 0 <= i <= |mine|
        invariant total == Sum(mine[..i])
      {
        assert mine[..i + 1][..i] == mine[..i];
        total := total + mine[i].rating;
        i := i + 1;
      }
      assert mine[..|mine|] == mine;
      if total == 0 {
        avg := 0.0;
      } else {
        avg := total as real / |mine| as real;
      }
    }
  }
}
