/** The request handlers of the service, as transitions of the store. Every
    handler runs to completion before the next one starts; record ids that
    the store would generate on first save are inputs. */
module App {
  import opened Outcomes
  import opened Models
  import opened Helper
  import Selection

  /** What a handler answers and the store it leaves behind. */
  datatype Reply<T> = Reply(result: Result<T>, db: Db)

  /** The order after a rider has been assigned to it. */
  function Assigned(order: Order, rider: Id): Order
  {
    order.(rider := Some(rider), status := Some("Ready"))
  }

  /** The order after it has been priced and accepted. */
  function Accepted(order: Order, amount: int): Order
  {
    order.(amount := Some(amount), status := Some("Accepted"))
  }

  // ---------------------------------------------------------------------
  // Users

  /** `register_user`: the password is replaced by its hash before saving. */
  function RegisterUser(db: Db, id: Id, user: User, hash: string -> string): (r: Reply<UserResponse>)
    ensures r.result == Ok(BuildUserResponse(user))
    ensures r.db == db.(users := r.db.users)
    ensures r.db.users.Keys == db.users.Keys + {id}
    ensures r.db.users[id] == user.(password := hash(user.password))
    ensures forall other :: other in db.users && other != id ==> r.db.users[other] == db.users[other]
  {
    var stored := user.(password := hash(user.password));
    Reply(Ok(BuildUserResponse(stored)), db.(users := db.users[id := stored]))
  }

  /** `get_user`. */
  function GetUser(db: Db, id: Id): (r: Result<UserResponse>)
    ensures r.Err? <==> id !in db.users
    ensures r.Err? ==> r.error == NotFound
    ensures r.Ok? ==> r.value.username == db.users[id].username && r.value.address == db.users[id].address
  {
    if id !in db.users then Err(NotFound) else Ok(BuildUserResponse(db.users[id]))
  }

  // ---------------------------------------------------------------------
  // Food items

  /** `add_food_item`: the item is saved as given and echoed back. */
  function AddFoodItem(db: Db, id: Id, item: FoodItem): (r: Reply<FoodItem>)
    ensures r.result == Ok(item)
    ensures r.db == db.(foods := r.db.foods)
    ensures r.db.foods.Keys == db.foods.Keys + {id} && r.db.foods[id] == item
    ensures forall other :: other in db.foods && other != id ==> r.db.foods[other] == db.foods[other]
  {
    Reply(Ok(item), db.(foods := db.foods[id := item]))
  }

  /** `get_food_item`. */
  function GetFoodItem(db: Db, id: Id): (r: Result<FoodItem>)
    ensures r.Err? <==> id !in db.foods
    ensures r.Err? ==> r.error == NotFound
    ensures r.Ok? ==> r.value == db.foods[id]
  {
    if id !in db.foods then Err(NotFound) else Ok(db.foods[id])
  }

  // ---------------------------------------------------------------------
  // Riders

  /** `register_rider`: the password is replaced by its hash before saving. */
  function RegisterRider(db: Db, id: Id, rider: Rider, hash: string -> string): (r: Reply<RiderResponse>)
    ensures r.result == Ok(BuildRiderResponse(rider))
    ensures r.db == db.(riders := r.db.riders)
    ensures r.db.riders.Keys == db.riders.Keys + {id}
    ensures r.db.riders[id] == rider.(password := hash(rider.password))
    ensures forall other :: other in db.riders && other != id ==> r.db.riders[other] == db.riders[other]
  {
    var stored := rider.(password := hash(rider.password));
    Reply(Ok(BuildRiderResponse(stored)), db.(riders := db.riders[id := stored]))
  }

  /** `get_rider` (the read-only one). */
  function GetRider(db: Db, id: Id): (r: Result<RiderResponse>)
    ensures r.Err? <==> id !in db.riders
    ensures r.Err? ==> r.error == NotFound
    ensures r.Ok? ==> r.value.username == db.riders[id].username
                      && r.value.isActive == db.riders[id].isActive
                      && r.value.curLoc == db.riders[id].curLoc
  {
    if id !in db.riders then Err(NotFound) else Ok(BuildRiderResponse(db.riders[id]))
  }

  /** The location update (the second `get_rider`): only the rider's current
      location changes; an unknown rider is a 404 and nothing is saved. */
  function UpdateRiderLocation(db: Db, id: Id, loc: Location): (r: Reply<RiderResponse>)
    ensures id !in db.riders ==> r == Reply(Err(NotFound), db)
    ensures r.db == db.(riders := r.db.riders)
    ensures r.db.riders.Keys == db.riders.Keys
    ensures forall other :: other in db.riders && other != id ==> r.db.riders[other] == db.riders[other]
    ensures id in db.riders ==>
      && r.db.riders[id].curLoc == Some(loc)
      && r.db.riders[id] == db.riders[id].(curLoc := r.db.riders[id].curLoc)
      && r.result == Ok(BuildRiderResponse(r.db.riders[id]))
  {
    if id !in db.riders then Reply(Err(NotFound), db)
    else
      var moved := db.riders[id].(curLoc := Some(loc));
      Reply(Ok(BuildRiderResponse(moved)), db.(riders := db.riders[id := moved]))
  }

  // ---------------------------------------------------------------------
  // Restaurants

  /** `register_restaurant`: the password is hashed before saving, and the
      stored record, hash included, is echoed back. */
  function RegisterRestaurant(db: Db, id: Id, outlet: Restaurant, hash: string -> string): (r: Reply<Restaurant>)
    ensures r.result.Ok? && id in r.db.restaurants && r.result.value == r.db.restaurants[id]
    ensures r.result.value == outlet.(password := hash(outlet.password))
    ensures r.db == db.(restaurants := r.db.restaurants)
    ensures r.db.restaurants.Keys == db.restaurants.Keys + {id}
    ensures forall other :: other in db.restaurants && other != id ==> r.db.restaurants[other] == db.restaurants[other]
  {
    var stored := outlet.(password := hash(outlet.password));
    Reply(Ok(stored), db.(restaurants := db.restaurants[id := stored]))
  }

  /** `get_restaurant`: the restaurant with its menu expanded. */
  function GetRestaurant(db: Db, id: Id): (r: Result<RestaurantResponse>)
    ensures id !in db.restaurants ==> r == Err(NotFound)
    ensures id in db.restaurants ==> r == BuildRestaurantResponse(db.foods, db.restaurants[id])
    ensures r.Ok? <==> id in db.restaurants && AllStocked(db.foods, db.restaurants[id].menu)
    ensures r.Ok? ==> r.value.name == db.restaurants[id].name && r.value.address == db.restaurants[id].address
    ensures r.Ok? ==> |r.value.menu| == |db.restaurants[id].menu|
                      && forall i :: 0 <= i < |db.restaurants[id].menu| ==> r.value.menu[i] == db.foods[db.restaurants[id].menu[i]]
  {
    if id !in db.restaurants then Err(NotFound) else BuildRestaurantResponse(db.foods, db.restaurants[id])
  }

  // ---------------------------------------------------------------------
  // Orders

  /** `register_order`: the order is priced (selling its items), marked
      "Accepted" and saved. When an item is missing the order is not saved,
      but the items before it stay sold. */
  function RegisterOrder(db: Db, id: Id, order: Order): (r: Reply<Order>)
    ensures r.result.Ok? <==> AllStocked(db.foods, order.items)
    ensures r.result.Err? ==> r.result.error == AttributeError && r.db.orders == db.orders
    ensures r.result.Ok? ==> r.result.value == Accepted(order, PriceSum(db.foods, order.items))
                             && r.db.orders == db.orders[id := r.result.value]
    ensures r.db == db.(foods := r.db.foods, orders := r.db.orders)
    ensures r.db.foods.Keys == db.foods.Keys
    ensures forall fid :: fid in db.foods ==>
      r.db.foods[fid] == Sold(db.foods[fid], multiset(order.items[..FirstMissing(db.foods, order.items)])[fid])
  {
    var charge := GetOrderAmount(db.foods, order.items);
    match charge.amount
    case Err(e) => Reply(Err(e), db.(foods := charge.foods))
    case Ok(amount) =>
      var accepted := Accepted(order, amount);
      Reply(Ok(accepted), db.(foods := charge.foods, orders := db.orders[id := accepted]))
  }

  /** `get_order`. */
  function GetOrder(db: Db, id: Id): (r: Result<OrderResponse>)
    ensures id !in db.orders ==> r == Err(NotFound)
    ensures id in db.orders ==> (r.Ok? <==> Resolvable(db, db.orders[id]))
    ensures id in db.orders ==> r == BuildOrderResponse(db, db.orders[id])
    ensures r.Ok? ==> r.value.status == db.orders[id].status.value && r.value.amount == db.orders[id].amount.value
  {
    if id !in db.orders then Err(NotFound) else BuildOrderResponse(db, db.orders[id])
  }

  /** The rider selection of `assign_rider` yields a rider. */
  ghost predicate RiderFound(db: Db, orderId: Id, riders: seq<Id>, durations: seq<int>)
  {
    && orderId in db.orders
    && GetNearestRider(db, db.orders[orderId], riders, durations).Ok?
    && GetNearestRider(db, db.orders[orderId], riders, durations).value.Some?
  }

  /** `assign_rider`: the nearest rider is recorded on the order, which
      becomes "Ready" and is saved. No earlier status is checked. An unknown
      order, or a selection that finds no rider, is a 404 and saves nothing;
      a selection that fails saves nothing either.
      `riders` is the order in which the store lists its riders, and
      `durations` the travel times reported for them. */
  function AssignRider(db: Db, orderId: Id, riders: seq<Id>, durations: seq<int>): (r: Reply<OrderResponse>)
    requires Enumerates(riders, db.riders.Keys)
    ensures orderId !in db.orders ==> r == Reply(Err(NotFound), db)
    ensures !RiderFound(db, orderId, riders, durations) ==> r.db == db && r.result.Err?
    ensures RiderFound(db, orderId, riders, durations) ==>
      var chosen := GetNearestRider(db, db.orders[orderId], riders, durations).value.value;
      && chosen in db.riders
      && r.db == db.(orders := db.orders[orderId := Assigned(db.orders[orderId], chosen)])
      && (r.result.Ok? ==> r.result.value.rider == Some(BuildRiderResponse(db.riders[chosen])))
    ensures RiderFound(db, orderId, riders, durations) ==> r.result == BuildOrderResponse(r.db, r.db.orders[orderId])
    ensures orderId in db.orders && GetNearestRider(db, db.orders[orderId], riders, durations) == Ok(None) ==>
      r == Reply(Err(NotFound), db)
    ensures orderId in db.orders && GetNearestRider(db, db.orders[orderId], riders, durations).Err? ==>
      r == Reply(Err(GetNearestRider(db, db.orders[orderId], riders, durations).error), db)
    ensures r.result == Err(NotFound) ==> r.db == db
  {
    if orderId !in db.orders then Reply(Err(NotFound), db)
    else
      var order := db.orders[orderId];
      var nearest := GetNearestRider(db, order, riders, durations);
      if nearest.Err? then Reply(Err(nearest.error), db)
      else if nearest.value.None? then Reply(Err(NotFound), db)
      else
        var updated := Assigned(order, nearest.value.value);
        var saved := db.(orders := db.orders[orderId := updated]);
        Reply(BuildOrderResponse(saved, updated), saved)
  }

  /** The orders of the store, in listing order, that satisfy `p`. */
  function FindOrders(orders: map<Id, Order>, listing: seq<Id>, p: Order -> bool): (r: seq<Order>)
    requires forall i :: 0 <= i < |listing| ==> listing[i] in orders
    ensures |r| <= |listing|
    ensures forall o :: o in r ==> p(o)
    ensures forall i :: 0 <= i < |listing| && p(orders[listing[i]]) ==> orders[listing[i]] in r
    ensures forall o :: o in r ==> exists i :: 0 <= i < |listing| && orders[listing[i]] == o
  {
    if |listing| == 0 then []
    else
      var rest := FindOrders(orders, listing[1..], p);
      assert forall i :: 1 <= i < |listing| ==> listing[i] == listing[1..][i - 1];
      var o := orders[listing[0]];
      if p(o) then [o] + rest else rest
  }

  /** Selects the orders placed by `userId` (`Order.user == user_id`). */
  function PlacedBy(userId: Id): Order -> bool
  {
    (o: Order) => o.user == userId
  }

  /** Selects the orders assigned to `riderId` (`Order.rider == rider_id`). */
  function DeliveredBy(riderId: Id): Order -> bool
  {
    (o: Order) => o.rider == Some(riderId)
  }

  /** Over a listing of the whole collection, the search finds nothing
      exactly when no stored order satisfies `p`. */
  lemma FindOrdersEmpty(orders: map<Id, Order>, listing: seq<Id>, p: Order -> bool)
    requires Enumerates(listing, orders.Keys)
    ensures |FindOrders(orders, listing, p)| == 0 <==> forall id :: id in orders ==> !p(orders[id])
  {
    var found := FindOrders(orders, listing, p);
    if |found| == 0 {
      forall id | id in orders
        ensures !p(orders[id])
      {
        var i :| 0 <= i < |listing| && listing[i] == id;
      }
    } else {
      assert found[0] in found;
    }
  }

  /** Every order the search finds satisfies the filter. */
  lemma FoundSatisfy(orders: map<Id, Order>, listing: seq<Id>, p: Order -> bool)
    requires forall i :: 0 <= i < |listing| ==> listing[i] in orders
    ensures forall i :: 0 <= i < |FindOrders(orders, listing, p)| ==> p(FindOrders(orders, listing, p)[i])
  {
    var found := FindOrders(orders, listing, p);
    forall i | 0 <= i < |found|
      ensures p(found[i])
    {
      assert found[i] in found;
    }
  }

  /** `get_order_by_user`: the user's orders, one entry each in listing
      order; a 404 exactly when the user has no order. */
  function GetOrderByUser(db: Db, listing: seq<Id>, userId: Id): (r: Result<seq<OrdersByUser>>)
    requires Enumerates(listing, db.orders.Keys)
    ensures r == Err(NotFound) <==> forall id :: id in db.orders ==> db.orders[id].user != userId
    ensures r.Ok? <==>
      && (exists id :: id in db.orders && db.orders[id].user == userId)
      && var found := FindOrders(db.orders, listing, PlacedBy(userId));
         forall i :: 0 <= i < |found| ==> BuildOrderResponse(db, found[i]).Ok?
    ensures r.Ok? ==>
      var found := FindOrders(db.orders, listing, PlacedBy(userId));
      && |r.value| == |found|
      && (forall i :: 0 <= i < |found| ==>
            found[i].user == userId && BuildOrderResponse(db, found[i]).Ok?
            && r.value[i] == ToOrdersByUser(BuildOrderResponse(db, found[i]).value))
    ensures r.Err? && r.error != NotFound ==> r.error == AttributeError || r.error == ValidationError
  {
    var found := FindOrders(db.orders, listing, PlacedBy(userId));
    FindOrdersEmpty(db.orders, listing, PlacedBy(userId));
    FoundSatisfy(db.orders, listing, PlacedBy(userId));
    if |found| == 0 then Err(NotFound) else GetOrdersByUser(db, found)
  }

  /** `get_order_by_rider`: the orders assigned to the rider, one entry each
      in listing order; a 404 exactly when there is none. */
  function GetOrderByRider(db: Db, listing: seq<Id>, riderId: Id): (r: Result<seq<OrdersByRider>>)
    requires Enumerates(listing, db.orders.Keys)
    ensures r == Err(NotFound) <==> forall id :: id in db.orders ==> db.orders[id].rider != Some(riderId)
    ensures r.Ok? <==>
      && (exists id :: id in db.orders && db.orders[id].rider == Some(riderId))
      && var found := FindOrders(db.orders, listing, DeliveredBy(riderId));
         forall i :: 0 <= i < |found| ==> BuildOrderResponse(db, found[i]).Ok?
    ensures r.Ok? ==>
      var found := FindOrders(db.orders, listing, DeliveredBy(riderId));
      && |r.value| == |found|
      && (forall i :: 0 <= i < |found| ==>
            found[i].rider == Some(riderId) && BuildOrderResponse(db, found[i]).Ok?
            && r.value[i] == ToOrdersByRider(BuildOrderResponse(db, found[i]).value))
    ensures r.Err? && r.error != NotFound ==> r.error == AttributeError || r.error == ValidationError
  {
    var found := FindOrders(db.orders, listing, DeliveredBy(riderId));
    FindOrdersEmpty(db.orders, listing, DeliveredBy(riderId));
    FoundSatisfy(db.orders, listing, DeliveredBy(riderId));
    if |found| == 0 then Err(NotFound) else GetOrdersByRider(db, found)
  }
}
