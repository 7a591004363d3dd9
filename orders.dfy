/**
 * `Order` (models/order.js): placing an order with its `order_meals` line,
 * reading it back, soft-deleting it and updating its status fields.
 */
module Orders {
  import opened Relational
  import opened Store
  import Ordering

  /** A JS default parameter: it applies only when the argument is `undefined` (None). */
  function Arg(a: Option<Value>, default: Value): Value {
    if a.Some? then a.value else default
  }

  /** The row `INSERT INTO orders (customer_id, dfac_id, comments, to_go)` writes. */
  function OrderRow(customerID: int, dfacID: int, comments: Value, toGo: Value): Row {
    map[CustomerId := Int(customerID), DfacId := Int(dfacID), Comments := comments, ToGo := toGo]
  }

  /** The row `INSERT INTO order_meals (order_id, meal_id, quantity, special_instructions)` writes. */
  function LineRow(orderID: int, mealID: int, quantity: Value, specialInstructions: Value): Row {
    map[OrderId := Int(orderID), MealId := Int(mealID), Quantity := quantity,
        SpecialInstructions := specialInstructions]
  }

  /** What `createOrder` returns. */
  datatype MealOrdered = MealOrdered(meal: Record, order: Record, orderMealJoin: Record)

  /** What `get` returns. */
  datatype OrderedMeal = OrderedMeal(order: Record, meal: Record)

  // ---------------------------------------------------------------------
  // get

  /** `order_meals` line `l` belongs to the order and names an existing meal: a row of the JOIN. */
  predicate Joins(orderMeals: Table, meals: Table, orderID: int, l: int) {
    && l in orderMeals
    && SqlEq(Col(orderMeals[l], OrderId), Int(orderID))
    && Col(orderMeals[l], MealId).Int?
    && Col(orderMeals[l], MealId).n in meals
  }

  /** The first id of `ids` whose line joins. */
  function FirstJoining(orderMeals: Table, meals: Table, orderID: int, ids: seq<int>): (r: Option<int>)
    requires forall i, j :: 0 <= i < j < |ids| ==> ids[i] < ids[j]
    ensures r.None? <==> forall x :: x in ids ==> !Joins(orderMeals, meals, orderID, x)
    ensures r.Some? ==> r.value in ids && Joins(orderMeals, meals, orderID, r.value)
    ensures r.Some? ==> forall x :: x in ids && Joins(orderMeals, meals, orderID, x) ==> r.value <= x
  {
    if ids == [] then None
    else if Joins(orderMeals, meals, orderID, ids[0]) then
      assert forall x :: x in ids ==> ids[0] <= x;
      Some(ids[0])
    else
      assert forall x :: x in ids ==> x == ids[0] || x in ids[1..];
      FirstJoining(orderMeals, meals, orderID, ids[1..])
  }

  /**
   * `Order.get`: NotFound when no `orders` row has the id, BadRequest when the
   * order joins no meal; otherwise the order and the meal of its first joined
   * line (the model takes the least line id for the unordered query's first
   * row). Neither query looks at `deleted_at`.
   */
  function Get(orders: Table, orderMeals: Table, meals: Table, lineSeq: int, orderID: int): (r: Result<OrderedMeal>)
    requires Serial(orderMeals, lineSeq)
    ensures r == Err(NotFound) <==> orderID !in orders
    ensures r == Err(BadRequest) <==>
      orderID in orders && forall l :: l in orderMeals ==> !Joins(orderMeals, meals, orderID, l)
    ensures r.Err? ==> r == Err(NotFound) || r == Err(BadRequest)
    ensures r.Ok? ==>
      && r.value.order == Record(orderID, orders[orderID])
      && (exists l :: FirstLine(orderMeals, meals, orderID, l) && r.value.meal == MealOfLine(orderMeals, meals, l))
  {
    if orderID !in orders then Err(NotFound)
    else
      var ids := Ordering.SortedIds(orderMeals.Keys, lineSeq);
      match FirstJoining(orderMeals, meals, orderID, ids)
      case None => Err(BadRequest)
      case Some(l) => Ok(OrderedMeal(Record(orderID, orders[orderID]), MealOfLine(orderMeals, meals, l)))
  }

  /** Line `l` is the joined line with the least id. */
  ghost predicate FirstLine(orderMeals: Table, meals: Table, orderID: int, l: int) {
    Joins(orderMeals, meals, orderID, l) && forall l' :: Joins(orderMeals, meals, orderID, l') ==> l <= l'
  }

  /** The meal a joined line names, as the JOIN reads it. */
  function MealOfLine(orderMeals: Table, meals: Table, l: int): Record
    requires l in orderMeals && Col(orderMeals[l], MealId).Int? && Col(orderMeals[l], MealId).n in meals
  {
    var m := Col(orderMeals[l], MealId).n;
    Record(m, meals[m])
  }

  // ---------------------------------------------------------------------
  // createOrder

  /** No `order_meals` line names the order. */
  predicate Unlined(orderMeals: Table, oid: int) {
    forall l :: l in orderMeals ==> Col(orderMeals[l], OrderId) != Int(oid)
  }

  /**
   * Reading back an order just given its first line: with that line the only
   * one naming it, `get` returns the order and the meal of that line.
   */
  lemma CreatedOrderReadsBack(orders: Table, orderMeals: Table, meals: Table, lineSeq: int,
                              oid: int, mealID: int, quantity: Value, instructions: Value, orderMeals': Table)
    requires Serial(orderMeals, lineSeq) && oid in orders && Unlined(orderMeals, oid) && mealID in meals
    requires orderMeals' == orderMeals[lineSeq := LineRow(oid, mealID, quantity, instructions)]
    ensures Serial(orderMeals', lineSeq + 1)
    ensures Get(orders, orderMeals', meals, lineSeq + 1, oid) == Ok(OrderedMeal(Record(oid, orders[oid]), Record(mealID, meals[mealID])))
  {
    forall l | l in orderMeals' && l != lineSeq ensures !Joins(orderMeals', meals, oid, l) {
      assert l in orderMeals;
    }
    assert Joins(orderMeals', meals, oid, lineSeq);
  }

  /** An order with no line of its own reads back as BadRequest. */
  lemma OrphanReadsAsBadRequest(orders: Table, orderMeals: Table, meals: Table, lineSeq: int, oid: int)
    requires Serial(orderMeals, lineSeq) && oid in orders && Unlined(orderMeals, oid)
    ensures Get(orders, orderMeals, meals, lineSeq, oid) == Err(BadRequest)
  {
  }

  /** Every order has at least one `order_meals` line. */
  predicate EveryOrderHasLine(orders: Table, orderMeals: Table) {
    forall o :: o in orders ==> exists l :: l in orderMeals && Col(orderMeals[l], OrderId) == Int(o)
  }

  /**
   * `Order.createOrder`. The customer, then the dfac, must be an active row,
   * or BadRequest is thrown before anything is written. The `orders` row is
   * inserted next, and only then is the meal looked up (soft-deleted meals
   * included); a missing meal throws NotFound and the new order stays behind
   * without a line, since nothing rolls the insert back. Otherwise one
   * `order_meals` line is inserted, and the order reads back with that meal.
   * Missing arguments take the defaults comments = null, toGo = true,
   * quantity = 1 and specialInstructions = null; quantity is not checked.
   */
  method CreateOrder(db: Db, customerID: int, dfacID: int, mealID: int, comments: Option<Value>,
                     toGo: Option<Value>, quantity: Option<Value>, specialInstructions: Option<Value>)
    returns (r: Result<MealOrdered>)
    requires db.Valid()
    modifies db`orders, db`orderSeq, db`orderMeals, db`orderMealSeq
    ensures db.Valid()
    ensures !ActiveIn(db.customers, customerID) || !ActiveIn(db.dfacs, dfacID) ==>
      && r == Err(BadRequest)
      && db.orders == old(db.orders) && db.orderSeq == old(db.orderSeq)
      && db.orderMeals == old(db.orderMeals) && db.orderMealSeq == old(db.orderMealSeq)
    ensures ActiveIn(db.customers, customerID) && ActiveIn(db.dfacs, dfacID) ==>
      var oid := old(db.orderSeq);
      && oid !in old(db.orders)
      && db.orders == old(db.orders)[oid := OrderRow(customerID, dfacID, Arg(comments, Null), Arg(toGo, Bool(true)))]
      && db.orderSeq == oid + 1
    ensures ActiveIn(db.customers, customerID) && ActiveIn(db.dfacs, dfacID) && mealID !in db.meals ==>
      && r == Err(NotFound)
      && db.orderMeals == old(db.orderMeals) && db.orderMealSeq == old(db.orderMealSeq)
      && Get(db.orders, db.orderMeals, db.meals, db.orderMealSeq, old(db.orderSeq)) == Err(BadRequest)
      && !EveryOrderHasLine(db.orders, db.orderMeals)
    ensures ActiveIn(db.customers, customerID) && ActiveIn(db.dfacs, dfacID) && mealID in db.meals ==>
      var oid, lid := old(db.orderSeq), old(db.orderMealSeq);
      && lid !in old(db.orderMeals)
      && db.orderMeals == old(db.orderMeals)[lid := LineRow(oid, mealID, Arg(quantity, Int(1)), Arg(specialInstructions, Null))]
      && db.orderMealSeq == lid + 1
      && r == Ok(MealOrdered(Record(mealID, db.meals[mealID]), Record(oid, db.orders[oid]), Record(lid, db.orderMeals[lid])))
      && Get(db.orders, db.orderMeals, db.meals, db.orderMealSeq, oid) == Ok(OrderedMeal(Record(oid, db.orders[oid]), Record(mealID, db.meals[mealID])))
  {
    if !ActiveIn(db.customers, customerID) {
      return Err(BadRequest);
    }
    if !ActiveIn(db.dfacs, dfacID) {
      return Err(BadRequest);
    }
    var orderID := InsertOrder(db, OrderRow(customerID, dfacID, Arg(comments, Null), Arg(toGo, Bool(true))));
    r := OrderMeal(db, orderID, mealID, Arg(quantity, Int(1)), Arg(specialInstructions, Null));
  }

  /** `INSERT INTO orders ... RETURNING id`: the row gets the next serial id and has no line yet. */
  method InsertOrder(db: Db, row: Row) returns (id: int)
    requires db.Valid()
    modifies db`orders, db`orderSeq
    ensures db.Valid()
    ensures id == old(db.orderSeq) && id !in old(db.orders)
    ensures db.orders == old(db.orders)[id := row] && db.orderSeq == id + 1
    ensures Unlined(db.orderMeals, id) && !EveryOrderHasLine(db.orders, db.orderMeals)
  {
    InsertOrderKeepsLines(db.orders, db.orderSeq, db.orderMeals, row);
    id := db.orderSeq;
    db.orders := db.orders[id := row];
    db.orderSeq := id + 1;
  }

  /**
   * The rest of `createOrder`, for an order without lines: the meal lookup
   * and then `INSERT INTO order_meals ... RETURNING id`.
   */
  method OrderMeal(db: Db, orderID: int, mealID: int, quantity: Value, instructions: Value) returns (r: Result<MealOrdered>)
    requires db.Valid() && orderID in db.orders && Unlined(db.orderMeals, orderID)
    modifies db`orderMeals, db`orderMealSeq
    ensures db.Valid()
    ensures mealID !in db.meals ==>
      && r == Err(NotFound)
      && db.orderMeals == old(db.orderMeals) && db.orderMealSeq == old(db.orderMealSeq)
      && Get(db.orders, db.orderMeals, db.meals, db.orderMealSeq, orderID) == Err(BadRequest)
    ensures mealID in db.meals ==>
      var lid := old(db.orderMealSeq);
      && lid !in old(db.orderMeals)
      && db.orderMeals == old(db.orderMeals)[lid := LineRow(orderID, mealID, quantity, instructions)]
      && db.orderMealSeq == lid + 1
      && r == Ok(MealOrdered(Record(mealID, db.meals[mealID]), Record(orderID, db.orders[orderID]), Record(lid, db.orderMeals[lid])))
      && Get(db.orders, db.orderMeals, db.meals, db.orderMealSeq, orderID) == Ok(OrderedMeal(Record(orderID, db.orders[orderID]), Record(mealID, db.meals[mealID])))
  {
    if mealID !in db.meals {
      OrphanReadsAsBadRequest(db.orders, db.orderMeals, db.meals, db.orderMealSeq, orderID);
      return Err(NotFound);
    }
    var row := LineRow(orderID, mealID, quantity, instructions);
    ghost var lines0 := db.orderMeals;
    var lineID := InsertLine(db, orderID, mealID, quantity, instructions);
    CreatedOrderReadsBack(db.orders, lines0, db.meals, lineID, orderID, mealID, quantity, instructions, db.orderMeals);
    r := Ok(MealOrdered(Record(mealID, db.meals[mealID]), Record(orderID, db.orders[orderID]), Record(lineID, row)));
  }

  /**
   * `INSERT INTO order_meals ... RETURNING id` for the first line of an
   * existing order: the line gets the next serial id, and the order now
   * reads back with the line's meal.
   */
  method InsertLine(db: Db, orderID: int, mealID: int, quantity: Value, instructions: Value) returns (id: int)
    requires db.Valid() && orderID in db.orders && Unlined(db.orderMeals, orderID) && mealID in db.meals
    modifies db`orderMeals, db`orderMealSeq
    ensures db.Valid()
    ensures id == old(db.orderMealSeq) && id !in old(db.orderMeals)
    ensures db.orderMeals == old(db.orderMeals)[id := LineRow(orderID, mealID, quantity, instructions)]
    ensures db.orderMealSeq == id + 1
  {
    var row := LineRow(orderID, mealID, quantity, instructions);
    InsertLineKeepsLines(db.orders, db.orderMeals, db.orderMealSeq, row, orderID);
    id := db.orderMealSeq;
    db.orderMeals := db.orderMeals[id := row];
    db.orderMealSeq := id + 1;
  }

  /** Inserting an order under the next serial id keeps the invariant and leaves the order without lines. */
  lemma InsertOrderKeepsLines(orders: Table, orderSeq: int, orderMeals: Table, row: Row)
    requires Serial(orders, orderSeq) && LinesOwned(orderMeals, orders)
    ensures orderSeq !in orders && Serial(orders[orderSeq := row], orderSeq + 1)
    ensures LinesOwned(orderMeals, orders[orderSeq := row])
    ensures Unlined(orderMeals, orderSeq)
    ensures !EveryOrderHasLine(orders[orderSeq := row], orderMeals)
  {
    var orders' := orders[orderSeq := row];
    forall l | l in orderMeals
      ensures (exists o :: o in orders' && Col(orderMeals[l], OrderId) == Int(o))
      ensures Col(orderMeals[l], OrderId) != Int(orderSeq)
    {
      var o :| o in orders && Col(orderMeals[l], OrderId) == Int(o);
      assert o in orders';
    }
    assert orderSeq in orders';
  }

  /** Inserting a line of an existing order under the next serial id keeps the invariant. */
  lemma InsertLineKeepsLines(orders: Table, orderMeals: Table, lineSeq: int, row: Row, orderID: int)
    requires Serial(orderMeals, lineSeq) && LinesOwned(orderMeals, orders)
    requires orderID in orders && Col(row, OrderId) == Int(orderID)
    ensures lineSeq !in orderMeals && Serial(orderMeals[lineSeq := row], lineSeq + 1)
    ensures LinesOwned(orderMeals[lineSeq := row], orders)
  {
  }

  // ---------------------------------------------------------------------
  // remove

  /**
   * `Order.remove`: sets `deleted_at` on the row with the id, whether or not
   * it was already deleted, keeps the row and returns its id; NotFound when
   * no row has the id.
   */
  method Remove(db: Db, orderID: int, now: int) returns (r: Result<int>)
    requires db.Valid()
    modifies db`orders
    ensures db.Valid()
    ensures db.orders == SoftDelete(old(db.orders), orderID, now).table
    ensures r == (if orderID in old(db.orders) then Ok(orderID) else Err(NotFound))
  {
    var u := SoftDelete(db.orders, orderID, now);
    db.orders := u.table;
    if u.returned.None? {
      return Err(NotFound);
    }
    r := Ok(u.returned.value.id);
  }

  // ---------------------------------------------------------------------
  // updateOrderStatus

  /**
   * The statement `updateOrderStatus` sends: the update keys go to the helper
   * without an allow-list, the row filter is `WHERE id = $1`, and the
   * parameters are `[...values, orderId]`.
   */
  function OrderStatusQuery(orderId: int, updates: seq<Field>): (q: Query)
    requires Admissible(updates, Verbatim)
    ensures Parses(q.stmt) && |q.params| == |updates| + 1 && q.params[|updates|] == Int(orderId)
  {
    var u := SqlForPartialUpdate(updates, Verbatim);
    AllAllowed(updates, Verbatim);
    Query(UpdateStmt(u.setCols, false, 1), u.values + [Int(orderId)])
  }

  /**
   * The placeholder `$1` of the row filter names the first update value, not
   * `orderId`, and the statement takes one parameter fewer than it is sent,
   * so PostgreSQL refuses to bind it.
   */
  lemma OrderStatusBindsFirstValue(orderId: int, updates: seq<Field>)
    requires Admissible(updates, Verbatim)
    ensures var q := OrderStatusQuery(orderId, updates);
      && q.stmt.idPlaceholder == 1 && q.params[0] == updates[0].value
      && Arity(q.stmt) == |updates| == |q.params| - 1
      && !Binds(q)
  {
    AllAllowed(updates, Verbatim);
  }

  /** Whatever the orders table and the updates, the statement as written fails and writes nothing. */
  lemma OrderStatusRejected(orders: Table, orderId: int, updates: seq<Field>, now: int)
    requires Admissible(updates, Verbatim)
    ensures ExecUpdate(orders, OrderStatusQuery(orderId, updates), now) == Err(QueryError)
  {
    OrderStatusBindsFirstValue(orderId, updates);
  }

  /**
   * `{favorite: true}` for order 1: `SET favorite = $1 WHERE id = $1` with
   * parameters `[true, 1]` compares the id with `true` and takes one parameter
   * where two are sent.
   */
  lemma OrderStatusExample()
    ensures var updates := [Field("favorite", Bool(true))];
      var q := OrderStatusQuery(1, updates);
      && q.stmt.setCols == [Named("favorite")] && q.params == [Bool(true), Int(1)]
      && q.params[q.stmt.idPlaceholder - 1] == Bool(true) && Arity(q.stmt) == 1
      && ExecUpdate(map[1 := map[]], q, 0) == Err(QueryError)
  {
    var updates := [Field("favorite", Bool(true))];
    OrderStatusBindsFirstValue(1, updates);
    assert Lookup(Verbatim, "favorite") == Some(Named("favorite"));
  }

  /** The status fields the PATCH route documents: their columns, each with its property. */
  const OrderStatusAllow: AllowList :=
    Listed([Comments, ToGo, ReadyForPickup, PickedUp, Canceled, Favorite], OrderStatusKey)

  /** The property each status column is renamed from; "" for the other columns. */
  function OrderStatusKey(c: Column): Key {
    match c
    case Comments => "comments"
    case ToGo => "toGo"
    case ReadyForPickup => "readyTime"
    case PickedUp => "pickedUpTime"
    case Canceled => "canceled"
    case Favorite => "favorite"
    case _ => ""
  }

  /** The statement as evidently intended: allow-listed, `WHERE id = $(n+1)`, `orderId` last. */
  function OrderStatusQueryFixed(orderId: int, updates: seq<Field>): (q: Query)
    requires Admissible(updates, OrderStatusAllow)
    ensures Parses(q.stmt) && Binds(q) && BoundId(q) == Int(orderId)
  {
    AllAllowed(updates, OrderStatusAllow);
    IdLastQuery(SqlForPartialUpdate(updates, OrderStatusAllow), false, Int(orderId))
  }

  /**
   * The intended statement updates exactly the order with the id: it returns
   * that row when it exists (and nothing, not NotFound, when it does not),
   * sets the given status fields, and leaves the customer, dfac and
   * `deleted_at` columns and every other order alone.
   */
  lemma OrderStatusFixedEffect(orders: Table, orderId: int, updates: seq<Field>, now: int)
    requires Admissible(updates, OrderStatusAllow)
    ensures var r := ExecUpdate(orders, OrderStatusQueryFixed(orderId, updates), now);
      && r.Ok?
      && r.value.table.Keys == orders.Keys
      && (r.value.returned.Some? <==> orderId in orders)
      && (forall k :: k in orders && k != orderId ==> r.value.table[k] == orders[k])
      && (orderId in orders ==>
            && r.value.returned == Some(Record(orderId, r.value.table[orderId]))
            && (forall i :: 0 <= i < |updates| ==>
                  Col(r.value.table[orderId], Lookup(OrderStatusAllow, updates[i].key).value) == updates[i].value)
            && (forall c :: c in {Id, CustomerId, DfacId, DeletedAt} ==>
                  Col(r.value.table[orderId], c) == Col(orders[orderId], c)))
  {
    assert OrderStatusQueryFixed(orderId, updates) ==
      IdLastQuery(SqlForPartialUpdate(updates, OrderStatusAllow), false, Int(orderId));
    OrderStatusAllowShape();
    UpdateByIdEffect(orders, OrderStatusAllow, false, orderId, updates, now);
  }

  lemma OrderStatusAllowShape()
    ensures Unlisted(OrderStatusAllow, Id) && Unlisted(OrderStatusAllow, CustomerId)
    ensures Unlisted(OrderStatusAllow, DfacId) && Unlisted(OrderStatusAllow, DeletedAt)
    ensures Unlisted(OrderStatusAllow, UpdatedAt)
  {
    NotListed(OrderStatusAllow, UpdatedAt);
    NotListed(OrderStatusAllow, Id);
    NotListed(OrderStatusAllow, CustomerId);
    NotListed(OrderStatusAllow, DfacId);
    NotListed(OrderStatusAllow, DeletedAt);
  }

  /** Runs an UPDATE on `orders` and hands back `rows[0]` (None for `undefined`). */
  method RunOrderUpdate(db: Db, q: Query, now: int) returns (r: Result<Option<Record>>)
    requires db.Valid() && Parses(q.stmt)
    modifies db`orders
    ensures db.Valid()
    ensures var e := ExecUpdate(old(db.orders), q, now);
      && (e.Err? ==> r == Err(e.error) && db.orders == old(db.orders))
      && (e.Ok? ==> r == Ok(e.value.returned) && db.orders == e.value.table)
  {
    var e := ExecUpdate(db.orders, q, now);
    match e {
      case Err(err) =>
        r := Err(err);
      case Ok(u) =>
        db.orders := u.table;
        r := Ok(u.returned);
    }
  }

  /** `Order.updateOrderStatus` as written: it always fails, and no order changes. */
  method UpdateOrderStatus(db: Db, orderId: int, updates: seq<Field>, now: int) returns (r: Result<Option<Record>>)
    requires db.Valid() && Admissible(updates, Verbatim)
    modifies db`orders
    ensures db.Valid()
    ensures r == Err(QueryError) && db.orders == old(db.orders)
  {
    OrderStatusRejected(db.orders, orderId, updates, now);
    r := RunOrderUpdate(db, OrderStatusQuery(orderId, updates), now);
  }

  /** `updateOrderStatus` with the intended statement: the update of `OrderStatusFixedEffect`. */
  method UpdateOrderStatusFixed(db: Db, orderId: int, updates: seq<Field>, now: int) returns (r: Result<Option<Record>>)
    requires db.Valid() && Admissible(updates, OrderStatusAllow)
    modifies db`orders
    ensures db.Valid()
    ensures var e := ExecUpdate(old(db.orders), OrderStatusQueryFixed(orderId, updates), now);
      e.Ok? && r == Ok(e.value.returned) && db.orders == e.value.table
    ensures r.Ok? && (r.value.Some? <==> orderId in old(db.orders))
  {
    OrderStatusFixedEffect(db.orders, orderId, updates, now);
    r := RunOrderUpdate(db, OrderStatusQueryFixed(orderId, updates), now);
  }
}
