/**
 * The database the model files query: one field per table. Tables with a
 * serial `id` are maps from id to row, with the next value of their id
 * sequence beside them; the link tables are lists of pairs in insertion
 * order.
 */
module Store {
  import opened Relational
  import Ordering

  /** Every id of `t` was handed out by a sequence whose next value is `next`. */
  predicate Serial(t: Table, next: int) {
    1 <= next && forall k :: k in t ==> 1 <= k < next
  }

  /** Every `order_meals` row belongs to an `orders` row (the foreign key). */
  predicate LinesOwned(orderMeals: Table, orders: Table) {
    forall l :: l in orderMeals ==> exists o :: o in orders && Col(orderMeals[l], OrderId) == Int(o)
  }

  /** Every link's left id was handed out below `leftNext`, its right id below `rightNext`. */
  predicate LinksBelow(links: seq<Link>, leftNext: int, rightNext: int) {
    forall i :: 0 <= i < |links| ==> links[i].left < leftNext && links[i].right < rightNext
  }

  /** `SELECT ... FROM t ORDER BY id`: every row exactly once, by increasing id. */
  function AllById(t: Table, next: int): (r: seq<Record>)
    requires Serial(t, next)
    ensures forall k :: k in t <==> exists i :: 0 <= i < |r| && r[i].id == k
    ensures forall i :: 0 <= i < |r| ==> r[i].id in t && r[i].row == t[r[i].id]
    ensures forall i, j :: 0 <= i < j < |r| ==> r[i].id < r[j].id
  {
    var ids := Ordering.SortedIds(t.Keys, next);
    var r := RecordsOf(t, ids);
    assert forall k :: k in ids ==> exists i :: 0 <= i < |r| && r[i].id == k;
    r
  }

  /** The sort key of a text column's value, which holds text or NULL. */
  function TextKey(v: Value): Ordering.SortKey {
    if v.Text? then Ordering.Text(v.s) else Ordering.Null
  }

  /** The first id of the increasing `ids` whose row has `c = v`. */
  function FirstIn(t: Table, ids: seq<int>, c: Column, v: Value): (r: Option<int>)
    requires forall i :: 0 <= i < |ids| ==> ids[i] in t
    requires Ordering.Increasing(ids)
    ensures r.None? <==> forall i :: 0 <= i < |ids| ==> !SqlEq(Col(t[ids[i]], c), v)
    ensures r.Some? ==> r.value in t && SqlEq(Col(t[r.value], c), v)
    ensures r.Some? ==> forall i :: 0 <= i < |ids| && SqlEq(Col(t[ids[i]], c), v) ==> r.value <= ids[i]
  {
    if ids == [] then None
    else if SqlEq(Col(t[ids[0]], c), v) then Some(ids[0])
    else
      var r := FirstIn(t, ids[1..], c, v);
      assert forall i :: 1 <= i < |ids| ==> ids[i] == ids[1..][i - 1];
      r
  }

  /**
   * `rows[0]` of `SELECT ... FROM t WHERE c = $1` with no ORDER BY; the
   * model takes the row with the least id.
   */
  function FirstWhere(t: Table, next: int, c: Column, v: Value): (r: Option<int>)
    requires Serial(t, next)
    ensures r.None? <==> forall k :: k in t ==> !SqlEq(Col(t[k], c), v)
    ensures r.Some? ==> r.value in t && SqlEq(Col(t[r.value], c), v)
    ensures r.Some? ==> forall k :: k in t && SqlEq(Col(t[k], c), v) ==> r.value <= k
  {
    var ids := Ordering.SortedIds(t.Keys, next);
    assert forall k :: k in t ==> exists i :: 0 <= i < |ids| && ids[i] == k;
    FirstIn(t, ids, c, v)
  }

  class Db {
    var customers: Table
    var dfacs: Table
    var meals: Table
    var items: Table
    var nutrition: Table
    var orders: Table
    var orderMeals: Table   // order_meals
    var tags: Table
    var mealItems: seq<Link>   // meal_items (meal_id, item_id)
    var dfacItems: seq<Link>   // dfac_items (dfac_id, item_id)
    var itemTags: seq<Link>    // item_tags (item_id, tag_id)

    // next values of the id sequences of the tables the models insert into
    var nutritionSeq: int
    var dfacSeq: int
    var mealSeq: int
    var itemSeq: int
    var orderSeq: int
    var orderMealSeq: int
    var tagSeq: int

    predicate Valid()
      reads this
    {
      && Serial(nutrition, nutritionSeq)
      && Serial(dfacs, dfacSeq)
      && Serial(meals, mealSeq)
      && Serial(items, itemSeq)
      && Serial(orders, orderSeq)
      && Serial(orderMeals, orderMealSeq)
      && Serial(tags, tagSeq)
      && LinesOwned(orderMeals, orders)
      && LinksBelow(mealItems, mealSeq, itemSeq)
    }

    /** An empty database. */
    constructor ()
      ensures Valid()
      ensures customers == dfacs == meals == items == nutrition == orders == orderMeals == tags == map[]
      ensures mealItems == dfacItems == itemTags == []
    {
      customers, dfacs, meals, items, nutrition := map[], map[], map[], map[], map[];
      orders, orderMeals, tags := map[], map[], map[];
      mealItems, dfacItems, itemTags := [], [], [];
      nutritionSeq, dfacSeq, mealSeq, itemSeq, orderSeq, orderMealSeq, tagSeq := 1, 1, 1, 1, 1, 1, 1;
    }

    /** `INSERT INTO dfacs`: the row under the next value of the id sequence. */
    method InsertDfac(row: Row) returns (id: int)
      requires Valid()
      modifies this`dfacs, this`dfacSeq
      ensures Valid()
      ensures id == old(dfacSeq) && id !in old(dfacs)
      ensures dfacs == old(dfacs)[id := row] && dfacSeq == id + 1
    {
      id := dfacSeq;
      dfacs := dfacs[id := row];
      dfacSeq := id + 1;
    }

    /** `INSERT INTO meals`: the row under the next value of the id sequence. */
    method InsertMeal(row: Row) returns (id: int)
      requires Valid()
      modifies this`meals, this`mealSeq
      ensures Valid()
      ensures id == old(mealSeq) && id !in old(meals)
      ensures meals == old(meals)[id := row] && mealSeq == id + 1
    {
      id := mealSeq;
      meals := meals[id := row];
      mealSeq := id + 1;
    }

    /** `INSERT INTO items`: the row under the next value of the id sequence. */
    method InsertItem(row: Row) returns (id: int)
      requires Valid()
      modifies this`items, this`itemSeq
      ensures Valid()
      ensures id == old(itemSeq) && id !in old(items)
      ensures items == old(items)[id := row] && itemSeq == id + 1
    {
      id := itemSeq;
      items := items[id := row];
      itemSeq := id + 1;
    }

    /** `INSERT INTO tags`: the row under the next value of the id sequence. */
    method InsertTag(row: Row) returns (id: int)
      requires Valid()
      modifies this`tags, this`tagSeq
      ensures Valid()
      ensures id == old(tagSeq) && id !in old(tags)
      ensures tags == old(tags)[id := row] && tagSeq == id + 1
    {
      id := tagSeq;
      tags := tags[id := row];
      tagSeq := id + 1;
    }
  }
}
