/** Properties that relate several handlers: what a write makes a later read
    return, and how an order moves from "Accepted" to "Ready". */
module Lifecycle {
  import opened Outcomes
  import opened Models
  import opened Helper
  import opened App
  import Selection

  /** A registered user reads back with its public fields. */
  lemma RegisterThenGetUser(db: Db, id: Id, user: User, hash: string -> string)
    ensures GetUser(RegisterUser(db, id, user, hash).db, id) == Ok(UserResponse(user.username, user.address))
  {
  }

  /** A registered rider reads back with its public fields. */
  lemma RegisterThenGetRider(db: Db, id: Id, rider: Rider, hash: string -> string)
    ensures GetRider(RegisterRider(db, id, rider, hash).db, id)
            == Ok(RiderResponse(rider.username, rider.isActive, rider.curLoc))
  {
  }

  /** An added food item reads back unchanged. */
  lemma AddThenGetFoodItem(db: Db, id: Id, item: FoodItem)
    ensures GetFoodItem(AddFoodItem(db, id, item).db, id) == Ok(item)
  {
  }

  /** A registered restaurant reads back with its menu expanded against the
      food items already stored. */
  lemma RegisterThenGetRestaurant(db: Db, id: Id, outlet: Restaurant, hash: string -> string)
    ensures GetRestaurant(RegisterRestaurant(db, id, outlet, hash).db, id) == BuildRestaurantResponse(db.foods, outlet)
  {
  }

  /** After a location update the rider reads back at the new location. */
  lemma UpdateThenGetRider(db: Db, id: Id, loc: Location)
    requires id in db.riders
    ensures GetRider(UpdateRiderLocation(db, id, loc).db, id)
            == Ok(RiderResponse(db.riders[id].username, db.riders[id].isActive, Some(loc)))
  {
  }

  /** Repeating a location update changes nothing more. */
  lemma UpdateRiderLocationIdempotent(db: Db, id: Id, loc: Location)
    ensures var once := UpdateRiderLocation(db, id, loc);
            UpdateRiderLocation(once.db, id, loc) == once
  {
    var once := UpdateRiderLocation(db, id, loc);
    if id in db.riders {
      assert once.db.riders[id := once.db.riders[id]] == once.db.riders;
    }
  }

  /** With one travel time per stored, located rider, assigning an existing order of
      an existing restaurant always records a rider, and no rider is nearer
      than the one recorded. */
  lemma AssignPicksNearest(db: Db, orderId: Id, riders: seq<Id>, durations: seq<int>)
    requires Enumerates(riders, db.riders.Keys) && !SomeUnlocated(db, riders)
    requires orderId in db.orders && db.orders[orderId].restaurant in db.restaurants
    requires |durations| == |riders| > 0
    ensures var r := AssignRider(db, orderId, riders, durations);
            && r.db.orders[orderId].status == Some("Ready")
            && r.db.orders[orderId].rider.Some?
            && exists i :: 0 <= i < |riders| && riders[i] == r.db.orders[orderId].rider.value
                           && forall j :: 0 <= j < |durations| ==> durations[i] <= durations[j]
  {
    Selection.NearestIsMinimal(durations, riders);
    assert RiderFound(db, orderId, riders, durations);
  }

  /** When every rider has a location, every stored rider can be chosen,
      active or not: the selection reads only the travel times. */
  lemma EveryRiderIsCandidate(db: Db, orderId: Id, riders: seq<Id>, k: nat)
    requires Enumerates(riders, db.riders.Keys) && !SomeUnlocated(db, riders)
    requires orderId in db.orders && db.orders[orderId].restaurant in db.restaurants
    requires k < |riders|
    ensures var durations := seq(|riders|, j => if j == k then 0 else 1);
            AssignRider(db, orderId, riders, durations).db.orders[orderId].rider == Some(riders[k])
  {
    var durations := seq(|riders|, j => if j == k then 0 else 1);
    assert Selection.IsChosen(durations, Selection.ZipCount(durations, riders), k);
    Selection.LastMinimalWins(durations, riders, k);
    assert RiderFound(db, orderId, riders, durations);
  }

  /** A stored rider without a location makes every assignment fail before
      anything is saved, whatever the travel times. */
  lemma UnlocatedRiderBlocksAssignment(db: Db, orderId: Id, riders: seq<Id>, durations: seq<int>, k: Id)
    requires Enumerates(riders, db.riders.Keys)
    requires orderId in db.orders
    requires k in db.riders && db.riders[k].curLoc.None?
    ensures AssignRider(db, orderId, riders, durations) == Reply(Err(AttributeError), db)
  {
    var i :| 0 <= i < |riders| && riders[i] == k;
    assert SomeUnlocated(db, riders);
  }

  /** The store and answer of an assignment that found rider `k`. */
  lemma AssignWhenFound(db: Db, orderId: Id, riders: seq<Id>, durations: seq<int>, k: Id)
    requires Enumerates(riders, db.riders.Keys)
    requires orderId in db.orders
    requires GetNearestRider(db, db.orders[orderId], riders, durations) == Ok(Some(k))
    ensures var saved := db.(orders := db.orders[orderId := Assigned(db.orders[orderId], k)]);
            AssignRider(db, orderId, riders, durations) == Reply(BuildOrderResponse(saved, Assigned(db.orders[orderId], k)), saved)
  {
  }

  /** The rider lookup reads only the order's restaurant. */
  lemma NearestIgnoresOrderState(db: Db, db': Db, o: Order, o': Order, riders: seq<Id>, durations: seq<int>)
    requires db'.riders == db.riders && db'.restaurants == db.restaurants
    requires o'.restaurant == o.restaurant
    ensures GetNearestRider(db', o', riders, durations) == GetNearestRider(db, o, riders, durations)
  {
  }

  /** Assignment does not look at the order's earlier rider or status, so an
      order that already has a rider is reassigned in the same way. */
  lemma ReassignmentAllowed(db: Db, orderId: Id, riders: seq<Id>, durations: seq<int>, rider: Option<Id>, status: Option<string>)
    requires Enumerates(riders, db.riders.Keys)
    requires orderId in db.orders
    requires RiderFound(db, orderId, riders, durations)
    ensures var earlier := db.(orders := db.orders[orderId := db.orders[orderId].(rider := rider, status := status)]);
            AssignRider(earlier, orderId, riders, durations) == AssignRider(db, orderId, riders, durations)
  {
    var o := db.orders[orderId];
    var o' := o.(rider := rider, status := status);
    var earlier := db.(orders := db.orders[orderId := o']);
    var k := GetNearestRider(db, o, riders, durations).value.value;
    NearestIgnoresOrderState(db, earlier, o, o', riders, durations);
    AssignWhenFound(db, orderId, riders, durations, k);
    AssignWhenFound(earlier, orderId, riders, durations, k);
    assert Assigned(o', k) == Assigned(o, k);
    assert earlier.orders[orderId := Assigned(o, k)] == db.orders[orderId := Assigned(o, k)];
  }

  /** An order accepted and then assigned ends "Ready" with its price kept. */
  lemma AcceptThenAssign(db: Db, orderId: Id, order: Order, riders: seq<Id>, durations: seq<int>)
    requires AllStocked(db.foods, order.items)
    requires order.restaurant in db.restaurants
    requires Enumerates(riders, db.riders.Keys) && !SomeUnlocated(db, riders)
    requires |durations| == |riders| > 0
    ensures RegisterOrder(db, orderId, order).db.orders[orderId].status == Some("Accepted")
    ensures var after := AssignRider(RegisterOrder(db, orderId, order).db, orderId, riders, durations).db;
            && after.orders[orderId].status == Some("Ready")
            && after.orders[orderId].amount == Some(PriceSum(db.foods, order.items))
            && after.orders[orderId].items == order.items
  {
    var accepted := RegisterOrder(db, orderId, order);
    AssignPicksNearest(accepted.db, orderId, riders, durations);
  }

  /** An accepted order whose references resolve reads back "Accepted" with
      its price and with its items as they are after the sale. */
  lemma RegisterThenGetOrder(db: Db, id: Id, order: Order)
    requires AllStocked(db.foods, order.items)
    requires order.restaurant in db.restaurants && AllStocked(db.foods, db.restaurants[order.restaurant].menu)
    requires order.user in db.users
    ensures var after := RegisterOrder(db, id, order).db;
            && GetOrder(after, id).Ok?
            && GetOrder(after, id).value.status == "Accepted"
            && GetOrder(after, id).value.amount == PriceSum(db.foods, order.items)
            && |GetOrder(after, id).value.items| == |order.items|
            && forall i :: 0 <= i < |order.items| ==>
                 GetOrder(after, id).value.items[i] == after.foods[order.items[i]]
  {
    var after := RegisterOrder(db, id, order).db;
    assert after.foods.Keys == db.foods.Keys;
    assert Resolvable(after, after.orders[id]);
  }

  /** An order without items costs nothing and sells nothing. */
  lemma EmptyOrderSellsNothing(db: Db, id: Id, order: Order)
    requires order.items == []
    ensures RegisterOrder(db, id, order).result == Ok(Accepted(order, 0))
    ensures RegisterOrder(db, id, order).db.foods == db.foods
  {
    var r := RegisterOrder(db, id, order);
    assert forall fid :: fid in db.foods ==> r.db.foods[fid] == db.foods[fid];
  }

  /** A successful acceptance lowers each item's quantity by the number of
      times the order names it, and leaves other items alone. */
  lemma AcceptanceSellsEachReference(db: Db, id: Id, order: Order, fid: Id)
    requires AllStocked(db.foods, order.items)
    requires fid in db.foods
    ensures RegisterOrder(db, id, order).db.foods[fid].qty == db.foods[fid].qty - multiset(order.items)[fid]
    ensures fid !in order.items ==> RegisterOrder(db, id, order).db.foods[fid] == db.foods[fid]
  {
    assert order.items[..|order.items|] == order.items;
  }

  /** The search keeps the listing's order: searching a listing in two parts
      gives the two results one after the other. */
  lemma {:induction false} FindOrdersKeepsOrder(orders: map<Id, Order>, l1: seq<Id>, l2: seq<Id>, p: Order -> bool)
    requires forall i :: 0 <= i < |l1| ==> l1[i] in orders
    requires forall i :: 0 <= i < |l2| ==> l2[i] in orders
    ensures forall i :: 0 <= i < |l1 + l2| ==> (l1 + l2)[i] in orders
    ensures FindOrders(orders, l1 + l2, p) == FindOrders(orders, l1, p) + FindOrders(orders, l2, p)
    decreases |l1|
  {
    if |l1| > 0 {
      assert (l1 + l2)[1..] == l1[1..] + l2;
      FindOrdersKeepsOrder(orders, l1[1..], l2, p);
    } else {
      assert l1 + l2 == l2;
    }
  }
}
