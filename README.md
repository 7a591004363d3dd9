# dfacDash model layer in Dafny

dfacDash is the back end of a dining-facility ("dfac") ordering service. Its
model layer (`models/*.js`) is a set of classes with static methods that
issue PostgreSQL statements. This project models five of them:

- `Order`: placing an order with its `order_meals` line, reading it back,
  soft deletion, the status update and the ordering-window predicate.
- `Dfac`: add, list, read with meals, two allow-listed partial updates and
  soft deletion.
- `Meal`: create, list, list joined with dfacs, read with items, update and
  soft deletion.
- `Item`: add, list by name, read with nutrition and meals, and update.
- `DfacItem`: linking items to dfacs, tagging items, finding items by tag
  and updating a tag.

The database is the class `Store.Db`. It has one field per table:

- Tables with a serial id are maps from id to row. Each has the next value
  of its id sequence beside it.
- The link tables `meal_items`, `dfac_items` and `item_tags` are sequences
  of pairs, in insertion order.

Each JS static method becomes a Dafny method that takes the `Db`. Its
`modifies` clause names only the tables the method writes, and its
`ensures` clauses give the new state and the result. Reads are functions
over the tables.

SQL semantics that matter to the code are written out in `Relational`:

- `=` is never true against NULL.
- A statement whose parameter list does not match its placeholders is
  rejected before anything is written.
- `UPDATE ... WHERE id = $k` changes only the row whose id equals the
  k-th parameter.
- `ORDER BY` on a text column sorts by code point, with NULL last.

Errors are the values of `Relational.Error`:

- `BadRequest` and `NotFound` are the app's own error classes.
- `TypeError` is what `throw NotFoundError(...)` without `new` raises.
- `ReferenceError(name)` is what a message naming an undefined identifier
  raises.
- `QueryError` is a statement the server rejects.

The code runs no transactions, so when a later statement fails, the
earlier writes stay. The model keeps this behaviour.

`Order.isInOrderWindow` is the pure predicate `OrderWindow.IsInOrderWindow`
over a `Clock` value. On weekdays it compares the full time against three
minute-precise windows, with both ends inclusive. On Saturday and Sunday
it compares only the hour, against the hour ranges [7, 11) and [14, 15).
The minutes of the weekend windows are declared in the code but never read.
The lemmas in `order_window.dfy` state this asymmetry as the behaviour of
the code.

## Model

| member | source | states |
|---|---|---|
| Ordering.SortedIds | models/dfac.js:103-107 | `ORDER BY id` over serial ids lists every id of the table exactly once, strictly increasing |
| Ordering.SortBy | models/meal.js:101-103 | `ORDER BY` a text key yields a permutation of its input, sorted by the key with NULL last |
| Ordering.InsertSorted | models/item.js:90-91 | inserting one id into a list sorted by name keeps it sorted |
| Ordering.PermutedIncreasingDistinct | models/item.js:90-91 | a reordering of the id-ordered rows lists no row twice |
| Store.AllById | models/dfac.js:83-111 | `findAll` of dfacs (and of meals, `meal.js:47-63`): every row exactly once, with its own values, by increasing id |
| Store.FirstWhere | models/item.js:128-161 | `rows[0]` of an unordered `WHERE c = $1`: none exactly when no row matches under SQL `=`; otherwise a matching row, the least such id |
| Store.Db.InsertDfac | models/dfac.js:38-71 | the inserted dfac row gets the next serial id, which was free; nothing else changes and the store invariant holds |
| Store.Db.InsertMeal | models/meal.js:23-37 | the inserted meal row gets the next serial id, which was free |
| Store.Db.InsertItem | models/item.js:34-65 | the inserted item row gets the next serial id, which was free |
| Store.Db.InsertTag | models/dfacItem.js:134-143 | the inserted tag row gets the next serial id, which was free |
| Relational.Lookup | models/dfac.js:190-214 | a property is renamed to a column of the `jsToSql` list that names it, or rejected when none does; with no list it is its own column |
| Relational.LookupInjective | models/dfac.js:190-214 | two different properties never land in the same column |
| Relational.SqlForPartialUpdate | models/dfac.js:189-214 | the helper keeps at most one column and one value per property, and only allow-listed columns |
| Relational.AllAllowed | models/dfac.js:189-215 | with every property allow-listed, column i and value i come from the i-th property, so `$(n+1)` is the first free placeholder |
| Relational.IdLastQuery | models/dfac.js:215-240 | `WHERE id = $(n+1)` with `[...values, id]` binds, and the row id is compared with the id passed last |
| Relational.ExecUpdate | models/dfac.js:217-243 | an update with the wrong number of parameters fails and writes nothing; otherwise only the row with the bound id changes, and it is returned exactly when it exists |
| Relational.UpdateByIdEffect | models/dfac.js:189-246 | an allow-listed update by id always binds and returns the row iff the id exists; given properties are written, unlisted and absent columns keep their values, and `updated_at` is stamped when the statement says so |
| Relational.UntouchedColumns | models/meal.js:240-254 | columns outside the allow-list, and columns of properties the request leaves out, are not in the SET list |
| Relational.ApplyFieldsEffect | models/item.js:188-205 | applying the SET list field by field leaves untouched columns alone and writes each given value |
| Relational.SoftDelete | models/dfac.js:319-332 | soft delete keeps every row, stamps only `deleted_at` of the row with the id, and returns it exactly when it exists |
| Relational.InsertKeepsUnique | models/dfac.js:29-36 | inserting after a duplicate-name check that found nothing keeps the names unique |
| Relational.WhereMatches | models/dfac.js:120-158 | `WHERE c = $1` bound to NULL finds no row at all; bound to any other value it finds exactly the rows holding that value |
| Relational.Joined | models/meal.js:134-147 | a join through a link table lists exactly the rows some link connects to the id, one row per joining link; it is empty iff no link joins |
| OrderWindow.AnyWithinIsExists | models/order.js:234-241 | `some` over the weekday windows holds iff one window contains the time |
| OrderWindow.WithinIsBetween | models/order.js:236-240 | a window holds iff the time lies between its start and end, both inclusive, at millisecond precision |
| OrderWindow.WeekdayWindowsExact | models/order.js:223-241 | Monday to Friday, ordering is open exactly during 06:30-08:30, 10:00-11:00 and 15:30-16:30, ends included |
| OrderWindow.WeekdayEndInclusive | models/order.js:236-240 | 08:30:00.000 is inside and 08:30:00.001 outside; 06:30 is inside and one millisecond earlier outside |
| OrderWindow.WeekendHours | models/order.js:242-247 | on Saturday and Sunday ordering is open iff the hour is 7, 8, 9, 10 or 14 |
| OrderWindow.WeekendIgnoresMinutes | models/order.js:242-247 | on weekends the minutes, seconds and milliseconds never change the answer |
| OrderWindow.WeekendWindowMinutesUnused | models/order.js:230-231 | the weekend windows' start and end minutes have no effect |
| OrderWindow.NoOtherDay | models/order.js:248-251 | the `else` branch is unreachable for any day `getDay` returns |
| OrderWindow.WeekdayWeekendAsymmetry | models/order.js:223-247 | the same wall time is inside on one kind of day and outside on the other (06:45, 09:00, 14:00 and 16:00), and 07:05 on Saturday is inside |
| OrderWindow.SampleTimes | models/order.js:215-251 | sample times on both sides of the weekday and weekend bounds |
| Orders.FirstJoining | models/order.js:146-167 | the first line of the order that joins a meal: none iff no line joins; otherwise the least such line |
| Orders.Get | models/order.js:131-175 | NotFound iff no order has the id; BadRequest iff it exists but joins no meal; otherwise the order and the meal of its first joined line |
| Orders.CreatedOrderReadsBack | models/order.js:46-92 | an order given its first line reads back through `get` with that line's meal |
| Orders.OrphanReadsAsBadRequest | models/order.js:163-167 | an order without lines reads back as BadRequest |
| Orders.CreateOrder | models/order.js:24-111 | an inactive customer or dfac gives BadRequest and no write; otherwise the order is inserted with the JS defaults; a missing meal then gives NotFound and leaves an order without lines; otherwise one line is inserted and the order reads back with the meal |
| Orders.InsertOrder | models/order.js:46-60 | the new order takes the next id and has no line yet |
| Orders.OrderMeal | models/order.js:62-103 | meal lookup then line insert: NotFound with no write, or the inserted line and the read-back order |
| Orders.InsertLine | models/order.js:81-92 | the new line takes the next `order_meals` id and belongs to the order |
| Orders.InsertOrderKeepsLines | models/order.js:46-60 | inserting an order keeps every line owned and leaves the new order without lines |
| Orders.InsertLineKeepsLines | models/order.js:81-92 | inserting a line for an existing order keeps every line owned by an order |
| Orders.Remove | models/order.js:182-195 | stamps `deleted_at` on the order and returns its id; NotFound iff no order has the id; no row is dropped |
| Orders.OrderStatusQuery | models/order.js:203-209 | the statement as written parses, and it is sent one parameter more than it has SET values, with the order id last |
| Orders.OrderStatusBindsFirstValue | models/order.js:203-209 | `$1` of the row filter is the first update value, and the statement takes one parameter fewer than it is sent, so it does not bind |
| Orders.OrderStatusRejected | models/order.js:203-211 | for every table and every update, the statement as written fails with a query error |
| Orders.OrderStatusExample | models/order.js:203-211 | `{favorite: true}` for order 1 compares the id with `true` and fails |
| Orders.OrderStatusQueryFixed | models/order.js:203-211 | the intended statement binds and compares the row id with the order id |
| Orders.OrderStatusFixedEffect | models/order.js:203-211 | the intended update returns the order iff it exists, writes the given status fields, keeps customer, dfac, id and `deleted_at`, and leaves other orders alone |
| Orders.RunOrderUpdate | models/order.js:209-211 | an update on `orders` writes what the statement writes and hands back `rows[0]`, or fails and writes nothing |
| Orders.UpdateOrderStatus | models/order.js:203-212 | as written: always a query error, and no order changes |
| Orders.UpdateOrderStatusFixed | models/order.js:203-212 | with the intended statement: the update of `OrderStatusFixedEffect`, returning a row iff the order exists |
| Dfacs.DfacKeysNamed | models/dfac.js:190-214 | each of the twenty `jsToSql` columns is renamed from a property of its own |
| Dfacs.HoursAreTail | models/dfac.js:265-279 | the ten `updateHours` columns are the last ten of the `update` list |
| Dfacs.DfacRow | models/dfac.js:38-70 | the inserted dfac row has exactly the twenty columns, each from its property, and NULL when the property is missing |
| Dfacs.Add | models/dfac.js:24-74 | a taken name, including that of a deleted dfac, gives BadRequest and no insert; otherwise the row is inserted under the next id and returned; unique names stay unique |
| Dfacs.Get | models/dfac.js:120-171 | NotFound iff no dfac has the id; otherwise the dfac and exactly the meals whose `dfac_id` is the id (`getDfacMeals`, `meal.js:173-223`, reads the same rows) |
| Dfacs.UpdateWith | models/dfac.js:215-246 | an update by id through an allow-list: the new table is that of the update, and the result is the updated row or NotFound |
| Dfacs.Update | models/dfac.js:189-246 | the twenty-column update with `updated_at` stamped; NotFound iff no dfac has the id |
| Dfacs.UpdateHours | models/dfac.js:264-310 | the ten-column update with `updated_at` stamped; NotFound iff no dfac has the id |
| Dfacs.UpdateEffect | models/dfac.js:189-246 | `update` changes only the dfac with the id: the given columns, and `updated_at`; its id, `created_at` and `deleted_at` stay |
| Dfacs.HoursKeysApart | models/dfac.js:190-214 | no hour column shares its property with a name, address, phone or flash column |
| Dfacs.UpdateHoursKeepsIdentity | models/dfac.js:264-310 | `updateHours` never changes a dfac's name, logo, address, phone or flash messages |
| Dfacs.UpdateCanDuplicateName | models/dfac.js:189-246 | only `add` checks names: `update` can give a dfac another dfac's name, breaking uniqueness |
| Dfacs.Remove | models/dfac.js:319-332 | stamps `deleted_at` on the dfac and returns its name; NotFound iff no dfac has the id |
| Meals.Get | models/meal.js:118-160 | NotFound iff no meal has the id; otherwise the meal and exactly the items a `meal_items` link connects to it |
| Meals.Create | models/meal.js:20-40 | the meal is inserted under the next id and returned; read back, it has no items |
| Meals.Joining | models/meal.js:101-102 | the inner join keeps exactly the meals that name an existing dfac, in id order |
| Meals.GetWithDfacDeets | models/meal.js:73-107 | every meal that names an existing dfac, and only those, each with that dfac's row |
| Meals.WithDfacDeetsOrdered | models/meal.js:73-107 | the joined rows name each meal once and are ordered by dfac name, NULL last |
| Meals.SortedJoined | models/meal.js:101-103 | the joined meal ids, each once, sorted by dfac name |
| Meals.MealKeysNamed | models/meal.js:240-249 | each of the five `jsToSql` columns is renamed from a property of its own |
| Meals.Update | models/meal.js:239-271 | the five-column update with `updated_at` stamped; NotFound iff no meal has the id |
| Meals.UpdateEffect | models/meal.js:239-271 | `update` changes only the meal with the id: its dfac, likes, id, `created_at` and `deleted_at` stay |
| Meals.Remove | models/meal.js:280-293 | stamps `deleted_at` on the meal and returns its id; NotFound iff no meal has the id |
| Meals.RemovedMealStillReads | models/meal.js:118-150 | `get` does not filter deleted meals: a removed meal reads back with its `deleted_at` stamp |
| Items.ItemKeysNamed | models/item.js:188-200 | each of the eight `jsToSql` columns is renamed from a property of its own |
| Items.ItemRow | models/item.js:34-64 | the inserted item row has exactly the eight columns, each from its property, and NULL when the property is missing |
| Items.ItemRowName | models/item.js:25-44 | the name the duplicate check looks for is the name that is inserted |
| Items.Get | models/item.js:111-172 | a missing item fails with ReferenceError, because the message names the undefined `menuItem`; otherwise the item, its first nutrition row or none, and exactly the meals linked to it |
| Items.Add | models/item.js:21-69 | a taken `menuItem` gives BadRequest and no insert; otherwise the row is inserted under the next id and returned; unique names stay unique |
| Items.AddedItemReadsBack | models/item.js:111-172 | an item that no `meal_items` link names yet reads back with itself and no meals |
| Items.SortedByName | models/item.js:90-91 | every item id, each once, sorted by `menu_item` |
| Items.FindAll | models/item.js:78-95 | every item, with its own row |
| Items.FindAllOrdered | models/item.js:78-95 | `findAll` lists each item once, ordered by `menu_item`, NULL last |
| Items.Update | models/item.js:187-224 | the eight-column update with `updated_at` stamped; NotFound iff no item has the id |
| Items.UpdateEffect | models/item.js:187-224 | `update` changes only the item with the id: its likes, id, `created_at` and `deleted_at` stay |
| DfacItems.AppendNewLink | models/dfacItem.js:25-39 | appending a pair the duplicate check did not find keeps the pairs distinct |
| DfacItems.Add | models/dfacItem.js:24-97 | a stored pair gives ReferenceError and no write; otherwise the pair is stored first, then NotFound iff the dfac or the item is missing, else both rows; pairs stay distinct |
| DfacItems.AddTwice | models/dfacItem.js:25-39 | adding a pair twice stores it at most once, and the second call fails |
| DfacItems.TagKeysNamed | models/dfacItem.js:122-132 | each of the six tag columns is renamed from a property of its own |
| DfacItems.Placeholders | models/dfacItem.js:135 | `$1, ..., $n` numbers one placeholder per value, from 1 |
| DfacItems.HighestPlaceholder | models/dfacItem.js:135 | `$1..$n` takes exactly n parameters |
| DfacItems.ExecInsert | models/dfacItem.js:134-143 | an INSERT is rejected iff it does not parse or has the wrong number of parameters; otherwise the row holds each column's parameter |
| DfacItems.ColumnsDistinct | models/dfacItem.js:122-134 | distinct allow-listed properties give an INSERT column list without repeats |
| DfacItems.InsertBinds | models/dfacItem.js:134-143 | the INSERT with a column list for the helper's columns always binds |
| DfacItems.InsertAsWritten | models/dfacItem.js:134-135 | the INSERT `addTag` sends has the intended columns and placeholders, spelled as the helper's SET text instead of a column list |
| DfacItems.InsertAsWrittenRejected | models/dfacItem.js:134-143 | for all data, the INSERT as sent is refused with a query error, while the same INSERT with a column list binds |
| DfacItems.InsertedRow | models/dfacItem.js:134-143 | the inserted tag row holds each given property in its column |
| DfacItems.InsertedRowOnlyGiven | models/dfacItem.js:134-143 | every column that no given property names is NULL in the inserted tag |
| DfacItems.InsertTagged | models/dfacItem.js:134-153 | the tag is inserted under the next id (at least 1) and linked to the item |
| DfacItems.AddTag | models/dfacItem.js:112-177 | as written: a missing item gives TypeError; otherwise the tag INSERT is refused with a query error; no table changes in either case |
| DfacItems.AddTagFixed | models/dfacItem.js:112-177 | with a column list in the INSERT and the item read by `id`: a missing item gives TypeError and no write; otherwise the tag is inserted under the next id and linked to the item, and the item comes back with its new tag |
| DfacItems.PairWith | models/dfacItem.js:228-231 | each found item paired with the one tag, in order |
| DfacItems.PickedTag | models/dfacItem.js:191-208 | the tag used: none iff no tag's `descriptive` equals the description; otherwise a matching tag, the least such id |
| DfacItems.ItemsOfTag | models/dfacItem.js:210-225 | exactly the items an `item_tags` link connects to the tag |
| DfacItems.FindItemsByTag | models/dfacItem.js:190-234 | NotFound iff no tag matches; otherwise every entry carries the picked tag and an item linked to it |
| DfacItems.FindItemsByTagComplete | models/dfacItem.js:210-231 | every item linked to the picked tag is listed |
| DfacItems.AddedTagFindsItem | models/dfacItem.js:134-153 | a tag written by the corrected `addTag` with a new description is found by `findItemsByTag`, with its item |
| DfacItems.TagUpdateEffect | models/dfacItem.js:283-296 | the tag update by id writes the given properties into the tag with that id, keeps its id, `created_at` and `deleted_at`, and keeps every other tag |
| DfacItems.UpdateTagMissesTag | models/dfacItem.js:283-296 | as written, with distinct ids the tag named by `tagID` is never changed |
| DfacItems.RunTagUpdate | models/dfacItem.js:285-298 | the tag update writes its table and hands back `rows[0]` |
| DfacItems.UpdateTag | models/dfacItem.js:252-323 | as written: a missing item or tag gives TypeError and no write; otherwise the tag with the item's id is updated, then BadRequest when there is no such tag, else a query error |
| DfacItems.UpdateTagFixed | models/dfacItem.js:252-323 | binding `tagID` and reading the item by `id`: the named tag takes the data and comes back with the item |

## Left out

- `helpers/sql.js` (`sqlForPartialUpdate`) is not part of this model. `Relational.SqlForPartialUpdate` keeps the allow-listed properties in request order and renames them. Updates and tag inserts are stated for `Relational.Admissible` data: distinct properties, at least one, all allow-listed. An empty or unlisted request makes the helper's own error path, which is not modelled.
- Orders.UpdateOrderStatus, Relational.Lookup: `models/order.js:204` calls `sqlForPartialUpdate(updates)` with no `jsToSql`. The model assumes each property then names its own column (`Verbatim`). If the helper instead reads `jsToSql[k]` from the missing object, it throws a TypeError before any query runs. `UpdateOrderStatus` would then fail with that TypeError rather than a query error. In both readings no order changes.
- SQL text is not modelled: projections, `AS` aliases and `RETURNING` lists. Results are whole rows with their id.
- DfacItems.AddTag: `setCols` is read the same way everywhere, as the SET assignment text that the UPDATE statements splice after `SET`. In `INSERT INTO tags ${setCols}` that text stands where a column list belongs, so the model refuses the INSERT. If the helper's text could serve as a column list, `addTag` would instead write the tag and its link and then fail at the `item_id` read on lines 155-169.
- Database defaults and triggers are not modelled: `likes`, `created_at`, `order_timestamp`, `price_at_order`. Columns the code does not write read as NULL.
- The clock is the parameter `now` (a `Stamp`) and, for the ordering window, a `Clock` value in local time. Time zones and `new Date()` are not modelled.
- `db.js`, the routes, authentication and HTTP are not part of this model. Concurrent requests and connection handling are left out: each method runs alone.
- `Order.getAllOrders` (`SELECT *` with no filter) is left out. It is the table itself.
- The second `isInOrderWindow` nested inside `order.js` after line 251 is never reached and is left out.
- Store.FirstWhere, Orders.Get, DfacItems.PickedTag: `rows[0]` of a query without `ORDER BY` is unspecified in SQL. The model takes the least id.
- Meals.WithDfacDeetsOrdered, Items.FindAllOrdered: the order among rows with equal sort keys is unspecified in SQL. The model keeps id order. Collation is code-point order.
- Foreign keys other than `order_meals.order_id` are not modelled. Links may name missing rows, and the inner joins drop them.
- DfacItems.Add: the `dfacItemRes.rows.length === 0` check never fires, since an INSERT without error returns its row, so it has no branch in the model.
- DfacItems.TagUpdateEffect does not state that `updated_at` is unchanged, although the statement does not touch it.
- `Meal.getDfacMeals` has no member of its own. `Dfacs.Get` states the rows it reads, since they are the same queries as `Dfac.get`.

## Findings

| source | as written | input that shows it | evidently intended | confidence | as-written member | corrected member |
|---|---|---|---|---|---|---|
| models/order.js:203-211 | `WHERE id = $1` with parameters `[...values, orderId]`, and no `jsToSql` allow-list | `updateOrderStatus(1, {favorite: true})`: `$1` is `true`, and two parameters are sent to a statement taking one | `WHERE id = $(n+1)`, with the status fields allow-listed | not executed; rests on PostgreSQL refusing a parameter list longer than the statement's placeholders, and on the helper taking each key as its column when `jsToSql` is missing (if it throws a TypeError first, the update still fails and no order changes) | Orders.UpdateOrderStatus | Orders.UpdateOrderStatusFixed |
| models/dfacItem.js:283-296 | the tag update binds `itemID` to the tag id placeholder | `updateTag(1, 2, {descriptive: "x"})` with tags 1 and 2: tag 1 changes and tag 2 stays | bind `tagID` | not executed | DfacItems.UpdateTagMissesTag | DfacItems.UpdateTagFixed |
| models/dfacItem.js:134-143 | `INSERT INTO tags ${setCols} VALUES (...)` splices the helper's SET text (`descriptive=$1`), which the UPDATE statements use after `SET`, where a column list belongs | `addTag(1, {descriptive: "x"})` for an existing item 1: the INSERT is refused and nothing is written | `INSERT INTO tags (descriptive) VALUES ($1)` | not executed; rests on `setCols` being the assignment text the five UPDATE statements splice after `SET` | DfacItems.AddTag | DfacItems.AddTagFixed |
| models/dfacItem.js:301-315 | `updateTag` reads the item back with `WHERE item_id = $1`; `addTag` has the same read on lines 155-169, which its failing INSERT keeps it from reaching | `updateTag(1, 1, {descriptive: "x"})` with item 1 and tag 1: tag 1 is updated, then the read fails | `WHERE id = $1`, as every other items query | not executed; rests on `items` having no `item_id` column | DfacItems.UpdateTag | DfacItems.UpdateTagFixed |
