/** The helpers of the service: response assembly, order pricing with its
    inventory update, order histories and the nearest-rider lookup. */
module Helper {
  import opened Outcomes
  import opened Models
  import Selection

  // ---------------------------------------------------------------------
  // Public projections of users and riders

  function BuildUserResponse(u: User): UserResponse
  {
    UserResponse(u.username, u.address)
  }

  function BuildRiderResponse(r: Rider): RiderResponse
  {
    RiderResponse(r.username, r.isActive, r.curLoc)
  }

  /** A user's response does not depend on the stored password. */
  lemma UserResponseHidesPassword(u: User, other: string)
    ensures BuildUserResponse(u.(password := other)) == BuildUserResponse(u)
    ensures BuildUserResponse(u).username == u.username && BuildUserResponse(u).address == u.address
  {
  }

  /** A rider's response does not depend on the stored password. */
  lemma RiderResponseHidesPassword(r: Rider, other: string)
    ensures BuildRiderResponse(r.(password := other)) == BuildRiderResponse(r)
    ensures BuildRiderResponse(r).username == r.username
    ensures BuildRiderResponse(r).isActive == r.isActive && BuildRiderResponse(r).curLoc == r.curLoc
  {
  }

  // ---------------------------------------------------------------------
  // Resolving food-item references

  /** Every id refers to a stored food item. */
  ghost predicate AllStocked(foods: map<Id, FoodItem>, ids: seq<Id>)
  {
    forall i :: 0 <= i < |ids| ==> ids[i] in foods
  }

  /** Looks every id up in turn. A missing item makes the list hold None,
      which the response model refuses, so the whole lookup fails. */
  function LookupAll(foods: map<Id, FoodItem>, ids: seq<Id>): (r: Option<seq<FoodItem>>)
    ensures r.Some? <==> AllStocked(foods, ids)
    ensures r.Some? ==> |r.value| == |ids| && forall i :: 0 <= i < |ids| ==> r.value[i] == foods[ids[i]]
  {
    if |ids| == 0 then Some([])
    else if ids[0] !in foods then None
    else
      match LookupAll(foods, ids[1..])
      case None => None
      case Some(rest) => Some([foods[ids[0]]] + rest)
  }

  /** `build_restaurant_response`: the menu ids are expanded in order. */
  function BuildRestaurantResponse(foods: map<Id, FoodItem>, outlet: Restaurant): (r: Result<RestaurantResponse>)
    ensures r.Ok? <==> AllStocked(foods, outlet.menu)
    ensures r.Err? ==> r.error == ValidationError
    ensures r.Ok? ==> r.value.name == outlet.name && r.value.address == outlet.address
    ensures r.Ok? ==> |r.value.menu| == |outlet.menu|
                      && forall i :: 0 <= i < |outlet.menu| ==> r.value.menu[i] == foods[outlet.menu[i]]
  {
    match LookupAll(foods, outlet.menu)
    case None => Err(ValidationError)
    case Some(menu) => Ok(RestaurantResponse(outlet.name, menu, outlet.address))
  }

  // ---------------------------------------------------------------------
  // Order responses

  /** The rider part of an order response: looked up only when the order
      names a rider, and None when the lookup finds nothing. */
  function RiderOf(db: Db, order: Order): Option<RiderResponse>
  {
    if order.rider.Some? && order.rider.value in db.riders
    then Some(BuildRiderResponse(db.riders[order.rider.value]))
    else None
  }

  /** Everything `build_order_response` dereferences is present. */
  ghost predicate Resolvable(db: Db, order: Order)
  {
    && order.restaurant in db.restaurants
    && AllStocked(db.foods, db.restaurants[order.restaurant].menu)
    && order.user in db.users
    && AllStocked(db.foods, order.items)
    && order.amount.Some?
    && order.status.Some?
  }

  /** `build_order_response`: the references of an order resolved against
      the store. A missing restaurant or user is dereferenced (an attribute
      error); a missing food item, amount or status fails validation. */
  function BuildOrderResponse(db: Db, order: Order): (r: Result<OrderResponse>)
    ensures r.Ok? <==> Resolvable(db, order)
    ensures r.Err? ==> r.error == AttributeError || r.error == ValidationError
    ensures order.restaurant !in db.restaurants ==> r == Err(AttributeError)
    ensures order.restaurant in db.restaurants && !AllStocked(db.foods, db.restaurants[order.restaurant].menu) ==>
      r == Err(ValidationError)
    ensures (order.restaurant in db.restaurants && AllStocked(db.foods, db.restaurants[order.restaurant].menu)
             && order.user !in db.users) ==> r == Err(AttributeError)
    ensures order.restaurant in db.restaurants && order.user in db.users && r.Err? ==> r == Err(ValidationError)
    ensures r.Ok? ==> (r.value.rider.None? <==> order.rider.None? || order.rider.value !in db.riders)
    ensures r.Ok? && r.value.rider.Some? ==> r.value.rider.value == BuildRiderResponse(db.riders[order.rider.value])
    ensures r.Ok? ==> r.value.user == BuildUserResponse(db.users[order.user])
    ensures r.Ok? ==> |r.value.items| == |order.items|
                      && forall i :: 0 <= i < |order.items| ==> r.value.items[i] == db.foods[order.items[i]]
    ensures r.Ok? ==> Ok(r.value.restaurant) == BuildRestaurantResponse(db.foods, db.restaurants[order.restaurant])
    ensures r.Ok? ==> r.value.amount == order.amount.value && r.value.status == order.status.value
  {
    if order.restaurant !in db.restaurants then Err(AttributeError)
    else
      match BuildRestaurantResponse(db.foods, db.restaurants[order.restaurant])
      case Err(e) => Err(e)
      case Ok(restaurant) =>
        if order.user !in db.users then Err(AttributeError)
        else
          var items := LookupAll(db.foods, order.items);
          if items.None? || order.amount.None? || order.status.None? then Err(ValidationError)
          else
            Ok(OrderResponse(
              BuildUserResponse(db.users[order.user]),
              restaurant,
              RiderOf(db, order),
              items.value,
              order.amount.value,
              order.status.value))
  }

  /** Two stores that differ at most in the passwords of their records. */
  ghost predicate SameButPasswords(db1: Db, db2: Db)
  {
    && db1.foods == db2.foods
    && db1.orders == db2.orders
    && db1.users.Keys == db2.users.Keys
    && (forall id :: id in db1.users ==> db2.users[id] == db1.users[id].(password := db2.users[id].password))
    && db1.riders.Keys == db2.riders.Keys
    && (forall id :: id in db1.riders ==> db2.riders[id] == db1.riders[id].(password := db2.riders[id].password))
    && db1.restaurants.Keys == db2.restaurants.Keys
    && (forall id :: id in db1.restaurants ==>
          db2.restaurants[id] == db1.restaurants[id].(password := db2.restaurants[id].password))
  }

  /** No password reaches an order response: changing every password in the
      store leaves the response unchanged. */
  lemma OrderResponseHidesPasswords(db1: Db, db2: Db, order: Order)
    requires SameButPasswords(db1, db2)
    ensures BuildOrderResponse(db1, order) == BuildOrderResponse(db2, order)
  {
    if order.restaurant in db1.restaurants {
      var o1 := db1.restaurants[order.restaurant];
      var o2 := db2.restaurants[order.restaurant];
      assert o1.menu == o2.menu && o1.name == o2.name && o1.address == o2.address;
      if order.user in db1.users {
        UserResponseHidesPassword(db1.users[order.user], db2.users[order.user].password);
      }
      if order.rider.Some? && order.rider.value in db1.riders {
        RiderResponseHidesPassword(db1.riders[order.rider.value], db2.riders[order.rider.value].password);
      }
    }
  }

  // ---------------------------------------------------------------------
  // Order pricing and the inventory update

  /** The amount charged (or the error raised) and the food collection as
      left behind: each decrement is saved as it happens. */
  datatype Charge = Charge(amount: Result<int>, foods: map<Id, FoodItem>)

  /** Index of the first id that is not stored, or the length if none is. */
  function FirstMissing(foods: map<Id, FoodItem>, ids: seq<Id>): (k: nat)
    ensures k <= |ids|
    ensures AllStocked(foods, ids[..k])
    ensures k < |ids| ==> ids[k] !in foods
  {
    if |ids| == 0 || ids[0] !in foods then 0
    else
      var k := 1 + FirstMissing(foods, ids[1..]);
      assert forall i :: 1 <= i < k ==> ids[..k][i] == ids[1..][..k - 1][i - 1];
      k
  }

  /** Sum of the prices of the referenced items, counted with multiplicity. */
  function PriceSum(foods: map<Id, FoodItem>, ids: seq<Id>): int
    requires AllStocked(foods, ids)
  {
    if |ids| == 0 then 0 else foods[ids[0]].price + PriceSum(foods, ids[1..])
  }

  /** `item` after `k` sales. */
  function Sold(item: FoodItem, k: nat): FoodItem
  {
    item.(qty := item.qty - k)
  }

  /** Two food collections with the same ids and the same prices. */
  ghost predicate SamePrices(f1: map<Id, FoodItem>, f2: map<Id, FoodItem>)
  {
    f1.Keys == f2.Keys && forall id :: id in f1 ==> f1[id].price == f2[id].price
  }

  lemma {:induction false} FirstMissingOnlyReadsIds(f1: map<Id, FoodItem>, f2: map<Id, FoodItem>, ids: seq<Id>)
    requires f1.Keys == f2.Keys
    ensures FirstMissing(f1, ids) == FirstMissing(f2, ids)
    decreases |ids|
  {
    if |ids| > 0 {
      FirstMissingOnlyReadsIds(f1, f2, ids[1..]);
    }
  }

  lemma {:induction false} PriceSumOnlyReadsPrices(f1: map<Id, FoodItem>, f2: map<Id, FoodItem>, ids: seq<Id>)
    requires SamePrices(f1, f2)
    requires AllStocked(f1, ids)
    ensures AllStocked(f2, ids) && PriceSum(f1, ids) == PriceSum(f2, ids)
    decreases |ids|
  {
    if |ids| > 0 {
      PriceSumOnlyReadsPrices(f1, f2, ids[1..]);
    }
  }

  /** One step of the pricing walk: if the rest of the walk sold the
      remaining ids of the prefix, the whole walk sold the whole prefix. */
  lemma SoldCounts(foods: map<Id, FoodItem>, ids: seq<Id>, left: map<Id, FoodItem>)
    requires |ids| > 0 && ids[0] in foods
    requires left.Keys == foods.Keys
    requires var after := foods[ids[0] := Sold(foods[ids[0]], 1)];
             forall id :: id in after ==>
               left[id] == Sold(after[id], multiset(ids[1..][..FirstMissing(after, ids[1..])])[id])
    ensures FirstMissing(foods, ids) == 1 + FirstMissing(foods[ids[0] := Sold(foods[ids[0]], 1)], ids[1..])
    ensures forall id :: id in foods ==> left[id] == Sold(foods[id], multiset(ids[..FirstMissing(foods, ids)])[id])
  {
    var after := foods[ids[0] := Sold(foods[ids[0]], 1)];
    FirstMissingOnlyReadsIds(after, foods, ids[1..]);
    var k' := FirstMissing(after, ids[1..]);
    assert ids[..1 + k'] == [ids[0]] + ids[1..][..k'];
    forall id | id in foods
      ensures left[id] == Sold(foods[id], multiset(ids[..1 + k'])[id])
    {
      assert multiset(ids[..1 + k'])[id] == multiset([ids[0]])[id] + multiset(ids[1..][..k'])[id];
    }
  }

  /** `get_order_amount`: walks the order's items in turn; each one is read,
      its quantity lowered by one (without a floor) and saved, and its price
      added. A missing id stops the walk with an attribute error, after the
      earlier decrements have been saved. */
  function GetOrderAmount(foods: map<Id, FoodItem>, ids: seq<Id>): (r: Charge)
    ensures r.foods.Keys == foods.Keys
    ensures forall id :: id in foods ==>
      r.foods[id] == Sold(foods[id], multiset(ids[..FirstMissing(foods, ids)])[id])
    ensures r.amount.Ok? <==> FirstMissing(foods, ids) == |ids|
    ensures r.amount.Err? ==> r.amount.error == AttributeError
    ensures r.amount.Ok? ==> AllStocked(foods, ids) && r.amount.value == PriceSum(foods, ids)
  {
    if |ids| == 0 then Charge(Ok(0), foods)
    else if ids[0] !in foods then Charge(Err(AttributeError), foods)
    else
      var item := foods[ids[0]];
      var after := foods[ids[0] := Sold(item, 1)];
      var rest := GetOrderAmount(after, ids[1..]);
      SoldCounts(foods, ids, rest.foods);
      assert rest.amount.Ok? ==> AllStocked(foods, ids[1..]) && rest.amount.value == PriceSum(foods, ids[1..]) by {
        if rest.amount.Ok? {
          PriceSumOnlyReadsPrices(after, foods, ids[1..]);
        }
      }
      match rest.amount
      case Err(e) => Charge(Err(e), rest.foods)
      case Ok(sum) => Charge(Ok(item.price + sum), rest.foods)
  }

  /** Two items priced 500 and 350 cents with 10 and 2 in stock: the order
      costs 850 and leaves 9 and 1. */
  lemma ExampleOrderAmount()
    ensures var foods := map[1 := FoodItem("dosa", 500, 10), 2 := FoodItem("tea", 350, 2)];
            GetOrderAmount(foods, [1, 2])
              == Charge(Ok(850), map[1 := FoodItem("dosa", 500, 9), 2 := FoodItem("tea", 350, 1)])
  {
    var foods := map[1 := FoodItem("dosa", 500, 10), 2 := FoodItem("tea", 350, 2)];
    assert FirstMissing(foods, [1, 2]) == 2;
    assert [1, 2][..2] == [1, 2];
    assert PriceSum(foods, [1, 2]) == 850;
  }

  /** Selling an item that is out of stock drives its quantity below zero. */
  lemma ExampleNoFloorOnQuantity()
    ensures var foods := map[1 := FoodItem("dosa", 500, 0)];
            GetOrderAmount(foods, [1, 1]) == Charge(Ok(1000), map[1 := FoodItem("dosa", 500, -2)])
  {
    var foods := map[1 := FoodItem("dosa", 500, 0)];
    assert FirstMissing(foods, [1, 1]) == 2;
    assert [1, 1][..2] == [1, 1];
    assert PriceSum(foods, [1, 1]) == 1000;
  }

  /** An unknown id after a known one: the walk fails, and the known item
      has already been sold. */
  lemma ExamplePartialUpdate()
    ensures var foods := map[1 := FoodItem("dosa", 500, 10)];
            GetOrderAmount(foods, [1, 7]) == Charge(Err(AttributeError), map[1 := FoodItem("dosa", 500, 9)])
  {
    var foods := map[1 := FoodItem("dosa", 500, 10)];
    assert FirstMissing(foods, [1, 7]) == 1;
    assert [1, 7][..1] == [1];
  }

  // ---------------------------------------------------------------------
  // Order histories

  function ToOrdersByUser(resp: OrderResponse): OrdersByUser
  {
    OrdersByUser(resp.restaurant, resp.rider, resp.items, resp.amount, resp.status)
  }

  function ToOrdersByRider(resp: OrderResponse): OrdersByRider
  {
    OrdersByRider(resp.restaurant, resp.user, resp.items, resp.amount, resp.status)
  }

  /** Builds the response of every order in turn and projects it; the first
      order whose response cannot be built ends the walk with its error. */
  function MapResponses<U>(db: Db, orders: seq<Order>, project: OrderResponse -> U): (r: Result<seq<U>>)
    ensures r.Ok? <==> forall i :: 0 <= i < |orders| ==> BuildOrderResponse(db, orders[i]).Ok?
    ensures r.Ok? ==> |r.value| == |orders|
                      && forall i :: 0 <= i < |orders| ==> r.value[i] == project(BuildOrderResponse(db, orders[i]).value)
    ensures r.Err? ==> exists i :: 0 <= i < |orders| && BuildOrderResponse(db, orders[i]) == Err(r.error)
                                   && forall j :: 0 <= j < i ==> BuildOrderResponse(db, orders[j]).Ok?
  {
    if |orders| == 0 then Ok([])
    else
      match BuildOrderResponse(db, orders[0])
      case Err(e) => Err(e)
      case Ok(resp) =>
        match MapResponses(db, orders[1..], project)
        case Err(e) =>
          assert forall i :: 1 <= i < |orders| ==> orders[i] == orders[1..][i - 1];
          Err(e)
        case Ok(rest) =>
          assert forall i :: 1 <= i < |orders| ==> orders[i] == orders[1..][i - 1];
          Ok([project(resp)] + rest)
  }

  /** `get_orders_by_user`: one entry per order, in order, without the user. */
  function GetOrdersByUser(db: Db, orders: seq<Order>): (r: Result<seq<OrdersByUser>>)
    ensures r.Ok? <==> forall i :: 0 <= i < |orders| ==> BuildOrderResponse(db, orders[i]).Ok?
    ensures r.Ok? ==> |r.value| == |orders|
                      && forall i :: 0 <= i < |orders| ==> r.value[i] == ToOrdersByUser(BuildOrderResponse(db, orders[i]).value)
    ensures r.Err? ==> r.error == AttributeError || r.error == ValidationError
    ensures r.Err? ==> exists i :: 0 <= i < |orders| && BuildOrderResponse(db, orders[i]) == Err(r.error)
                                   && forall j :: 0 <= j < i ==> BuildOrderResponse(db, orders[j]).Ok?
  {
    MapResponses(db, orders, ToOrdersByUser)
  }

  /** `get_orders_by_rider`: one entry per order, in order, without the rider. */
  function GetOrdersByRider(db: Db, orders: seq<Order>): (r: Result<seq<OrdersByRider>>)
    ensures r.Ok? <==> forall i :: 0 <= i < |orders| ==> BuildOrderResponse(db, orders[i]).Ok?
    ensures r.Ok? ==> |r.value| == |orders|
                      && forall i :: 0 <= i < |orders| ==> r.value[i] == ToOrdersByRider(BuildOrderResponse(db, orders[i]).value)
    ensures r.Err? ==> r.error == AttributeError || r.error == ValidationError
    ensures r.Err? ==> exists i :: 0 <= i < |orders| && BuildOrderResponse(db, orders[i]) == Err(r.error)
                                   && forall j :: 0 <= j < i ==> BuildOrderResponse(db, orders[j]).Ok?
  {
    MapResponses(db, orders, ToOrdersByRider)
  }

  // ---------------------------------------------------------------------
  // Nearest rider

  /** Some listed rider has no current location. */
  predicate SomeUnlocated(db: Db, riders: seq<Id>)
  {
    exists i :: 0 <= i < |riders| && riders[i] in db.riders && db.riders[riders[i]].curLoc.None?
  }

  /** `get_nearest_rider`: the order's restaurant is read (its address is the
      origin of the travel-time query, so a missing restaurant is an
      attribute error); every stored rider, in listing order and whatever its
      `isActive` flag, is a destination of the query, which reads each
      rider's location (so a rider without one is an attribute error); and
      `durations` are the travel times the distance service reports. */
  function GetNearestRider(db: Db, order: Order, riders: seq<Id>, durations: seq<int>): (r: Result<Option<Id>>)
    ensures order.restaurant !in db.restaurants || SomeUnlocated(db, riders) ==> r == Err(AttributeError)
    ensures order.restaurant in db.restaurants && !SomeUnlocated(db, riders) ==>
      r == Selection.NearestCandidate(durations, riders)
    ensures r.Ok? && r.value.Some? ==> r.value.value in riders
  {
    if order.restaurant !in db.restaurants || SomeUnlocated(db, riders) then Err(AttributeError)
    else Selection.NearestCandidate(durations, riders)
  }
}
