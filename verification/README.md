# Food-ordering service: a Dafny model of its handlers and helpers

This project models the core of a small food-delivery backend. Users,
riders, restaurants, food items and orders are kept in a document store. The
service registers them and reads them back. It accepts an order by pricing
its items and selling them from stock. It assigns an order to the rider with
the shortest travel time to the restaurant. It also lists the orders placed
by a user or delivered by a rider.

The model is functional:

- The store is a `Db` value with one map per entity kind, keyed by id.
- Every handler is a pure function. A handler that writes returns the
  answer (a value or an error) together with the store it leaves behind
  (`App.Reply`). A read-only handler returns the answer alone (a `Result`).
- Python exceptions become `Outcomes.Error` values:
  - `NotFound` is an HTTP 404 raised by a handler.
  - `IndexError` is indexing an empty list.
  - `AttributeError` is reading a field of `None`: of a record the store
    did not find, or of a rider's missing location.
  - `ValidationError` is building a response model with a missing value.

Modules:

- `Outcomes`: `Option`, `Error` and `Result`.
- `Models`: the records and response shapes of `models/`, and the store.
- `Selection`: the nearest-rider rule. It covers `dict(zip(times, riders))`,
  sorting the times and looking up the smallest one.
- `Helper`: the functions of `utils/helper.py`.
- `App`: the request handlers of `app.py`.
- `Lifecycle`: lemmas that relate several handlers. Examples are
  read-after-write and the order moving from "Accepted" to "Ready".

Inputs that the service obtains from outside become parameters:

- The travel times the distance service reports: `durations: seq<int>`.
- The order in which the store lists a whole collection: `listing`/`riders`.
  `Models.Enumerates` requires it to hold every key exactly once.
- The ids the store generates on first save: `id`.
- The password hash function: `hash: string -> string`, left uninterpreted.

The source files `models/users.py` and `models/food_items.py` are absent,
so the records `User` and `FoodItem` are modelled from the uses of their fields.
The fields of `User` are `username` and `address`, read in
`utils/helper.py:11`, and `password`, read in `app.py:29`. The fields of
`FoodItem` are `qty` and `price`, read in `utils/helper.py:45-47`, and `name`.
No file here reads `name`; it is assumed.

Where the code differs from what one might expect, the model follows the
code:

- Ties in travel time are not arbitrary. `dict(zip(...))` keeps the last
  rider written under a time, so the rider at the largest index wins.
- An empty list of travel times is an `IndexError`, not a `None` result.
- The time list may have more entries than there are riders. Then `zip`
  drops the extra entries. If the smallest time is among the dropped ones,
  `dict.get` gives `None`, and the assignment answers 404.
- A stored rider without a location is not filtered out. The travel-time
  query reads `loc.lat` of every rider (`utils/api.py:7-8`, `:13`). So one
  such rider makes every assignment fail with an attribute error.
- An order response's `rider` is `None` when the order has no rider. It is
  also `None` when the order names a rider id that the store does not hold,
  because `build_rider_response(rider) if rider else None` tests the lookup.

## Model

| member | source | states |
|---|---|---|
| Selection.SortAscending | utils/helper.py:74 | the sorted times are ascending and a permutation of the reported times |
| Selection.SortedHeadIsMinimal | utils/helper.py:74-75 | the first sorted time is a reported time that no other reported time undercuts |
| Selection.DictOf | utils/helper.py:73 | the dict holds exactly the zipped times, and each time maps to the rider of its last zipped pair |
| Selection.NearestCandidate | utils/helper.py:72-75 | no times is an IndexError; otherwise the answer is the rider at the last zipped index holding the minimum time, or None exactly when no zipped index holds it |
| Selection.LastMinimalWins | utils/helper.py:73-75 | the last zipped index holding the minimum time decides the result |
| Selection.NearestIsMinimal | utils/helper.py:72-75 | with one time per rider and at least one rider, a rider is returned and no rider has a smaller time |
| Selection.TieGoesToLastIndex | utils/helper.py:73-75 | among riders tied at the minimum, one at the largest tied index or later is returned |
| Selection.ExampleDistinctTimes | utils/helper.py:69-75 | times [300, 150, 450] select the second rider |
| Selection.ExampleTie | utils/helper.py:73-75 | times [150, 150] select the second rider |
| Selection.ExampleTimeBeyondCandidates | utils/helper.py:73-75 | times [200, 100] with one rider give None although a rider exists |
| Helper.UserResponseHidesPassword | utils/helper.py:10-11 | a user response carries username and address and does not depend on the password |
| Helper.RiderResponseHidesPassword | utils/helper.py:14-15 | a rider response carries username, location and active flag and does not depend on the password |
| Helper.LookupAll | utils/helper.py:19-22 | the lookup succeeds exactly when every id is stored, and then yields the stored items in the same order and number as the ids |
| Helper.BuildRestaurantResponse | utils/helper.py:18-23 | the menu expands every menu id in order; a missing item fails validation |
| Helper.BuildOrderResponse | utils/helper.py:26-37 | succeeds exactly when every reference resolves and amount and status are set; a missing restaurant or user is AttributeError, a missing menu item, ordered item, amount or status is ValidationError, checked restaurant first, then its menu, then the user; the restaurant part is the restaurant's expanded response; rider is None exactly when unset or not stored; items keep the length and order of the ids |
| Helper.OrderResponseHidesPasswords | utils/helper.py:26-37 | changing every stored password leaves an order response unchanged |
| Helper.GetOrderAmount | utils/helper.py:40-48 | each item's qty drops by its multiplicity in the prefix walked, with no floor; the amount is the price sum with multiplicity; a missing id fails after the earlier items are saved |
| Helper.ExampleOrderAmount | utils/helper.py:40-48 | items priced 500 and 350 with stock 10 and 2 cost 850 and leave 9 and 1 |
| Helper.ExampleNoFloorOnQuantity | utils/helper.py:45 | selling an item twice from zero stock leaves -2 |
| Helper.ExamplePartialUpdate | utils/helper.py:42-46 | a missing id after a stored one fails, with the stored one already sold |
| Helper.MapResponses | utils/helper.py:51-66 | one projected response per order, in order, or the error of the first order whose response fails |
| Helper.GetOrdersByUser | utils/helper.py:51-57 | one entry per order, in order, each the order's response without the user; a failure is the first failing order's error |
| Helper.GetOrdersByRider | utils/helper.py:60-66 | one entry per order, in order, each the order's response without the rider; a failure is the first failing order's error |
| Helper.GetNearestRider | utils/helper.py:69-75 | a missing restaurant or a rider without location is an attribute error; otherwise all listed riders are candidates, whatever their active flag |
| App.RegisterUser | app.py:27-31 | the stored password is hash(password); only that user changes; the answer is the public projection |
| App.GetUser | app.py:35-40 | 404 exactly when the id is unknown, otherwise the user's public fields |
| App.AddFoodItem | app.py:46-49 | the item is stored under its id and echoed; nothing else changes |
| App.GetFoodItem | app.py:53-58 | 404 exactly when the id is unknown, otherwise the stored item |
| App.RegisterRider | app.py:64-68 | the stored password is hash(password); only that rider changes; the answer is the public projection |
| App.GetRider | app.py:72-77 | 404 exactly when the id is unknown, otherwise the rider's public fields |
| App.UpdateRiderLocation | app.py:81-88 | unknown rider: 404 with the store unchanged; otherwise only that rider's location changes |
| App.RegisterRestaurant | app.py:94-98 | the stored and echoed record carries hash(password); only that restaurant changes |
| App.GetRestaurant | app.py:102-107 | 404 for an unknown id; otherwise exactly the restaurant's expanded response, which fails validation (not 404) for a missing menu item and otherwise gives name, address and each menu id's stored item in order |
| App.RegisterOrder | app.py:117-122 | succeeds exactly when every item is stored, saving the order as "Accepted" with the price sum; on failure no order is saved but earlier items stay sold |
| App.GetOrder | app.py:126-131 | 404 for an unknown id; otherwise exactly the order's denormalised response, which succeeds exactly when its references resolve |
| App.AssignRider | app.py:135-146 | unknown order or no rider found: 404, nothing saved; a failing selection passes its error on, nothing saved; otherwise the order gets the chosen rider and status "Ready", all else equal, and the answer is the updated order's response |
| App.FindOrders | app.py:152 | exactly the listed orders that satisfy the filter |
| App.FindOrdersEmpty | app.py:152-154 | the search finds nothing exactly when no stored order matches |
| App.GetOrderByUser | app.py:150-155 | 404 exactly when the user has no order; succeeds exactly when the user has orders and all their responses build; then one entry per matching order, in listing order; any other failure is AttributeError or ValidationError |
| App.GetOrderByRider | app.py:159-164 | 404 exactly when no order names the rider; succeeds exactly when such orders exist and all their responses build; then one entry per matching order, in listing order; any other failure is AttributeError or ValidationError |
| Lifecycle.RegisterThenGetUser | app.py:27-40 | a registered user reads back with its username and address |
| Lifecycle.RegisterThenGetRider | app.py:64-77 | a registered rider reads back with its public fields |
| Lifecycle.AddThenGetFoodItem | app.py:46-58 | an added item reads back unchanged |
| Lifecycle.RegisterThenGetRestaurant | app.py:94-107 | a registered restaurant reads back with its menu expanded |
| Lifecycle.UpdateThenGetRider | app.py:72-88 | after a location update the rider reads back at the new location |
| Lifecycle.UpdateRiderLocationIdempotent | app.py:81-88 | repeating a location update changes nothing further |
| Lifecycle.AssignPicksNearest | app.py:140-145 | with one time per located rider, the recorded rider has a minimal time and the order is "Ready" |
| Lifecycle.EveryRiderIsCandidate | utils/helper.py:71-72 | when every stored rider has a location, each one, active or not, is chosen for some travel times |
| Lifecycle.UnlocatedRiderBlocksAssignment | utils/helper.py:72 | a stored rider without location makes assignment fail with nothing saved |
| Lifecycle.ReassignmentAllowed | app.py:143-145 | assignment ignores the order's earlier rider and status |
| Lifecycle.AcceptThenAssign | app.py:117-146 | an accepted then assigned order is "Ready" and keeps its amount and items |
| Lifecycle.RegisterThenGetOrder | app.py:117-131 | an accepted order with resolvable references reads back "Accepted", with the price sum and with its items as left by the sale |
| Lifecycle.EmptyOrderSellsNothing | utils/helper.py:41-48 | an order without items costs 0 and leaves the food items unchanged |
| Lifecycle.AcceptanceSellsEachReference | utils/helper.py:42-46 | an accepted order lowers each item's qty by its multiplicity and leaves unreferenced items alone |
| Lifecycle.FindOrdersKeepsOrder | app.py:152 | searching a listing in two parts gives the two results one after the other |

## Left out

- The distance service (`utils/api.py`): the HTTP request, the config
  lookup and the JSON parsing are replaced by the `durations` parameter. A
  failing or malformed reply is not modelled. Nor is the float-to-string
  formatting of `loc_to_string`. Only its read of the location is modelled.
- The store engine (`db/mongo_connect.py`) and async/await: every step is
  sequential, and the store is a value. Each save replaces a whole record.
- Id generation: ids are parameters of the register handlers.
- Password hashing (`utils/hasher.py`): `hash` is an uninterpreted
  parameter. `verify_password` is not called by any handler.
- Floating point: prices and amounts are whole cents (`int`). Float
  rounding in `amount += item.price` is not modelled.
- Concurrency: the read-modify-write race on `qty` between concurrent
  requests belongs to the server, not to this code.
- HTTP routing and serialisation: the `/` status endpoint and the
  `response_model` filtering are not modelled. `register_user` and
  `register_rider` declare the full record as their response model but
  return the public projection. How the framework treats that mismatch is
  outside the model.
- Pydantic validation is collapsed into one `ValidationError`. A response
  whose item list holds `None` fails as a whole. The exact validation message
  and the intermediate list with `None` entries are not represented.
- The restaurants-within-delivery-time filter has no code in the source
  (only a comment at app.py:110). So it is not modelled.
- Rider records in the selection: the candidates are rider ids, not whole
  records, because `assign_rider` uses only `rider.id` of the result.
