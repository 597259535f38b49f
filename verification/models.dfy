/** The persisted records, the response shapes and the document store. */
module Models {
  import opened Outcomes

  /** A document identifier (an ObjectId in the service). */
  type Id = nat

  datatype Location = Location(lat: real, long: real)

  /** Prices are whole cents; the service stores them as floats. */
  datatype FoodItem = FoodItem(name: string, price: int, qty: int)

  datatype User = User(username: string, password: string, address: string)

  datatype Rider = Rider(username: string, password: string, isActive: bool, curLoc: Option<Location>)

  datatype Restaurant = Restaurant(name: string, password: string, menu: seq<Id>, address: string)

  /** `amount` and `status` stay unset until the order is accepted. */
  datatype Order = Order(
    restaurant: Id,
    user: Id,
    rider: Option<Id>,
    items: seq<Id>,
    amount: Option<int>,
    status: Option<string>)

  // Response shapes: none of them has a password field.

  datatype UserResponse = UserResponse(username: string, address: string)

  datatype RiderResponse = RiderResponse(username: string, isActive: bool, curLoc: Option<Location>)

  datatype RestaurantResponse = RestaurantResponse(name: string, menu: seq<FoodItem>, address: string)

  datatype OrderResponse = OrderResponse(
    user: UserResponse,
    restaurant: RestaurantResponse,
    rider: Option<RiderResponse>,
    items: seq<FoodItem>,
    amount: int,
    status: string)

  datatype OrdersByUser = OrdersByUser(
    restaurant: RestaurantResponse,
    rider: Option<RiderResponse>,
    items: seq<FoodItem>,
    amount: int,
    status: string)

  datatype OrdersByRider = OrdersByRider(
    restaurant: RestaurantResponse,
    user: UserResponse,
    items: seq<FoodItem>,
    amount: int,
    status: string)

  /** The document store: one collection per entity kind, keyed by id.
      Saving a record replaces the whole document under its id. */
  datatype Db = Db(
    users: map<Id, User>,
    riders: map<Id, Rider>,
    restaurants: map<Id, Restaurant>,
    foods: map<Id, FoodItem>,
    orders: map<Id, Order>)

  /** `listing` is the order in which the store returns a whole collection:
      every key exactly once. */
  ghost predicate Enumerates(listing: seq<Id>, keys: set<Id>)
  {
    && (forall i, j :: 0 <= i < j < |listing| ==> listing[i] != listing[j])
    && (forall id :: id in keys <==> id in listing)
  }
}
