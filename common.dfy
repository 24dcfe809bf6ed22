/** Shared vocabulary of the favourite-meal backend model: optional values,
    record identifiers, the request methods the custom actions accept and
    the kinds of reply a view hands back. */
module Common {

  /** A value that may be absent; `None` also stands for an attribute that
      was never assigned on a loaded model instance. */
  datatype Option<T> = None | Some(value: T)

  type UserId = nat
  type MealId = nat
  type RestaurantId = nat

  /** The HTTP methods routed to the `rate` and `star` actions. */
  datatype Verb = Post | Put | Delete

  /** What a view produces, reduced to the tag the properties need. */
  datatype Reply =
    | Body       // 200 or 201 carrying the serialised record
    | NoContent  // 204 with an empty body
    | Message    // a `{'message': ...}` body built from a caught exception
    | NoReturn   // the view falls off its end and returns nothing
    | Raised     // an exception escapes the view
}
