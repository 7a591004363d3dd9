/**
 * `Item` (models/item.js): adding a menu item with a duplicate-name check,
 * listing items by name, reading one with its nutrition row and its meals,
 * and the allow-listed partial update.
 */
module Items {
  import opened Relational
  import opened Store
  import Ordering

  /** The columns `update` (and `add`) write, in the order of its `jsToSql` object. */
  const ItemColumns: seq<Column> := [MenuItem, FoodType, RecipeCode, Description, ColorCode, SodiumLevel, ItemImg, DaStandard]

  /** The property each item column is renamed from; "" for the other columns. */
  function ItemKey(c: Column): Key {
    match c
    case MenuItem => "menuItem"
    case FoodType => "foodType"
    case RecipeCode => "recipeCode"
    case Description => "description"
    case ColorCode => "colorCode"
    case SodiumLevel => "sodiumLvl"
    case ItemImg => "itemImage"
    case DaStandard => "regsStandard"
    case _ => ""
  }

  const ItemAllow: AllowList := Listed(ItemColumns, ItemKey)

  /** Every listed column has a property of its own. */
  lemma ItemKeysNamed()
    ensures forall i :: 0 <= i < |ItemColumns| ==> ItemKey(ItemColumns[i]) != ""
  {
  }

  /**
   * The row `add` inserts: each of the eight columns from the property
   * `update` renames to it. A missing property is `undefined` or its `null`
   * default, NULL either way.
   */
  function ItemRow(input: map<Key, Value>): (r: Row)
    ensures forall c :: c in r <==> c in ItemColumns
    ensures forall c :: c in ItemColumns ==> r[c] == Prop(input, ItemKey(c))
  {
    RowOf(ItemAllow, input)
  }

  /** The name `add` checks is the one it inserts. */
  lemma ItemRowName(input: map<Key, Value>)
    ensures Col(ItemRow(input), MenuItem) == Prop(input, "menuItem")
  {
    var r := ItemRow(input);
    assert ItemColumns[0] == MenuItem;
    assert MenuItem in r;
    assert r[MenuItem] == Prop(input, ItemKey(MenuItem));
  }

  /** What `get` returns: the item, its nutrition row if any, and its meals. */
  datatype ItemDetails = ItemDetails(item: Record, nutrition: Option<Record>, meals: seq<Record>)

  /**
   * `Item.get`. A missing item fails with a ReferenceError, since the
   * NotFoundError message names the undefined `menuItem`. Otherwise the item,
   * the first `nutrition` row whose `menu_item_id` is the id (none when there
   * is no such row; the model takes the least id), and one meal per
   * `meal_items` row linking an existing meal to the item.
   */
  function Get(items: Table, nutrition: Table, nutritionSeq: int, meals: Table, mealItems: seq<Link>, itemID: int)
    : (r: Result<ItemDetails>)
    requires Serial(nutrition, nutritionSeq)
    ensures r.Err? <==> itemID !in items
    ensures r.Err? ==> r.error == ReferenceError("menuItem")
    ensures r.Ok? ==> r.value.item == Record(itemID, items[itemID])
    ensures r.Ok? ==>
      (r.value.nutrition.None? <==> forall n :: n in nutrition ==> !SqlEq(Col(nutrition[n], MenuItemId), Int(itemID)))
    ensures r.Ok? && r.value.nutrition.Some? ==>
      var n := r.value.nutrition.value;
      n.id in nutrition && n.row == nutrition[n.id] && SqlEq(Col(n.row, MenuItemId), Int(itemID))
    ensures r.Ok? ==> forall x :: x in r.value.meals <==>
      exists i :: 0 <= i < |mealItems| && mealItems[i].right == itemID && mealItems[i].left in meals &&
        x == Record(mealItems[i].left, meals[mealItems[i].left])
  {
    if itemID !in items then Err(ReferenceError("menuItem"))
    else
      var n := FirstWhere(nutrition, nutritionSeq, MenuItemId, Int(itemID));
      var ms := Joined(Flip(mealItems), meals, itemID);
      assert forall i :: 0 <= i < |mealItems| ==> Flip(mealItems)[i] == Link(mealItems[i].right, mealItems[i].left);
      Ok(ItemDetails(Record(itemID, items[itemID]),
                     if n.Some? then Some(Record(n.value, nutrition[n.value])) else None, ms))
  }

  /**
   * `Item.add`: BadRequest, and nothing inserted, when an item already has
   * the `menuItem`; otherwise the row is inserted under the next id and
   * returned (`AddedItemReadsBack` states how it reads back). An items
   * table without duplicate names keeps none.
   */
  method Add(db: Db, input: map<Key, Value>) returns (r: Result<Record>)
    requires db.Valid()
    modifies db`items, db`itemSeq
    ensures db.Valid()
    ensures Taken(old(db.items), MenuItem, Prop(input, "menuItem")) ==>
      r == Err(BadRequest) && db.items == old(db.items) && db.itemSeq == old(db.itemSeq)
    ensures !Taken(old(db.items), MenuItem, Prop(input, "menuItem")) ==>
      var id := old(db.itemSeq);
      && id !in old(db.items)
      && db.items == old(db.items)[id := ItemRow(input)] && db.itemSeq == id + 1
      && r == Ok(Record(id, ItemRow(input)))
    ensures UniqueIn(old(db.items), MenuItem) ==> UniqueIn(db.items, MenuItem)
  {
    if Taken(db.items, MenuItem, Prop(input, "menuItem")) {
      return Err(BadRequest);
    }
    var row := ItemRow(input);
    ItemRowName(input);
    if UniqueIn(db.items, MenuItem) {
      InsertKeepsUnique(db.items, MenuItem, db.itemSeq, row);
    }
    var id := db.InsertItem(row);
    r := Ok(Record(id, row));
  }

  /**
   * An item no `meal_items` row names yet, such as the one `add` just
   * inserted under the next id, reads back through `get` with no meals.
   */
  lemma AddedItemReadsBack(items: Table, nutrition: Table, nutritionSeq: int, meals: Table, mealItems: seq<Link>, id: int)
    requires Serial(nutrition, nutritionSeq) && id in items
    requires forall i :: 0 <= i < |mealItems| ==> mealItems[i].right < id
    ensures var g := Get(items, nutrition, nutritionSeq, meals, mealItems, id);
      g.Ok? && g.value.item == Record(id, items[id]) && g.value.meals == []
  {
    var f := Flip(mealItems);
    assert forall i :: 0 <= i < |f| ==> !JoinsTo(f[i], meals, id);
  }

  /** The `menu_item` sort key of every item. */
  function MenuKeys(items: Table): map<int, Ordering.SortKey> {
    map k | k in items :: TextKey(Col(items[k], MenuItem))
  }

  /** The ids of every item, each once, sorted by `menu_item`. */
  function SortedByName(items: Table, itemSeq: int): (r: seq<int>)
    requires Serial(items, itemSeq)
    ensures forall x :: x in r <==> x in items
    ensures forall i, j :: 0 <= i < j < |r| ==> r[i] != r[j]
    ensures Ordering.Keyed(r, MenuKeys(items)) && Ordering.SortedBy(r, MenuKeys(items))
  {
    var ids := Ordering.SortedIds(items.Keys, itemSeq);
    assert Ordering.Increasing(ids);
    var sorted := Ordering.SortBy(ids, MenuKeys(items));
    Ordering.PermutedIncreasingDistinct(ids, sorted);
    forall x ensures x in sorted <==> x in ids {
      assert x in sorted <==> x in multiset(sorted);
      assert x in ids <==> x in multiset(ids);
    }
    sorted
  }

  /**
   * `Item.findAll`: every item, with its row. `FindAllOrdered` states the
   * order and that no item comes twice.
   */
  function FindAll(items: Table, itemSeq: int): (r: seq<Record>)
    requires Serial(items, itemSeq)
    ensures forall k :: k in items <==> exists i :: 0 <= i < |r| && r[i].id == k
    ensures forall i :: 0 <= i < |r| ==> r[i].id in items && r[i].row == items[r[i].id]
  {
    var ids := SortedByName(items, itemSeq);
    var r := RecordsOf(items, ids);
    assert forall k :: k in ids ==> exists i :: 0 <= i < |r| && r[i].id == k;
    r
  }

  /**
   * `findAll` lists each item once, ordered by `menu_item` (NULL last).
   * Items of the same name come in id order, an order SQL leaves open.
   */
  lemma FindAllOrdered(items: Table, itemSeq: int)
    requires Serial(items, itemSeq)
    ensures var r := FindAll(items, itemSeq);
      && (forall i, j :: 0 <= i < j < |r| ==> r[i].id != r[j].id)
      && (forall i, j :: 0 <= i < j < |r| ==>
            Ordering.KeyLe(TextKey(Col(r[i].row, MenuItem)), TextKey(Col(r[j].row, MenuItem))))
  {
    var ids := SortedByName(items, itemSeq);
    RecordsOrdered(items, ids);
  }

  /** Reading the rows keeps the order of the ids and their distinctness. */
  lemma RecordsOrdered(items: Table, ids: seq<int>)
    requires forall i :: 0 <= i < |ids| ==> ids[i] in items
    requires forall i, j :: 0 <= i < j < |ids| ==> ids[i] != ids[j]
    requires Ordering.Keyed(ids, MenuKeys(items)) && Ordering.SortedBy(ids, MenuKeys(items))
    ensures var r := RecordsOf(items, ids);
      && (forall i, j :: 0 <= i < j < |r| ==> r[i].id != r[j].id)
      && (forall i, j :: 0 <= i < j < |r| ==>
            Ordering.KeyLe(TextKey(Col(r[i].row, MenuItem)), TextKey(Col(r[j].row, MenuItem))))
  {
    var r := RecordsOf(items, ids);
    var key := MenuKeys(items);
    forall i, j | 0 <= i < j < |r|
      ensures Ordering.KeyLe(TextKey(Col(r[i].row, MenuItem)), TextKey(Col(r[j].row, MenuItem)))
    {
      assert Ordering.KeyLe(key[ids[i]], key[ids[j]]);
    }
  }

  /**
   * `Item.update`: the eight allow-listed columns, `updated_at` stamped, the
   * id bound last; NotFound when no item has the id.
   */
  method Update(db: Db, itemID: int, data: seq<Field>, now: int) returns (r: Result<Record>)
    requires db.Valid() && Admissible(data, ItemAllow)
    modifies db`items
    ensures db.Valid()
    ensures var e := UpdateById(old(db.items), ItemAllow, true, itemID, data, now);
      e.Ok? && db.items == e.value.table
    ensures r == (if itemID in old(db.items) then Ok(Record(itemID, db.items[itemID])) else Err(NotFound))
  {
    UpdateByIdEffect(db.items, ItemAllow, true, itemID, data, now);
    var e := UpdateById(db.items, ItemAllow, true, itemID, data, now);
    db.items := e.value.table;
    if e.value.returned.None? {
      return Err(NotFound);
    }
    r := Ok(e.value.returned.value);
  }

  /**
   * `update` touches only the item with the id: its given properties' columns
   * take the new values, `updated_at` is stamped, and its likes, id,
   * `created_at` and `deleted_at` stay as they were.
   */
  lemma UpdateEffect(items: Table, itemID: int, data: seq<Field>, now: int)
    requires Admissible(data, ItemAllow)
    ensures var e := UpdateById(items, ItemAllow, true, itemID, data, now);
      && e.Ok? && e.value.table.Keys == items.Keys
      && (forall k :: k in items && k != itemID ==> e.value.table[k] == items[k])
      && (itemID in items ==>
            && Col(e.value.table[itemID], UpdatedAt) == Stamp(now)
            && (forall i :: 0 <= i < |data| ==> Col(e.value.table[itemID], Lookup(ItemAllow, data[i].key).value) == data[i].value)
            && (forall c :: c in {Likes, Id, CreatedAt, DeletedAt} ==>
                  Col(e.value.table[itemID], c) == Col(items[itemID], c)))
  {
    UpdateByIdEffect(items, ItemAllow, true, itemID, data, now);
    ItemKeysNamed();
    NotListedByKey(ItemAllow, Likes);
    NotListedByKey(ItemAllow, Id);
    NotListedByKey(ItemAllow, CreatedAt);
    NotListedByKey(ItemAllow, DeletedAt);
    NotListedByKey(ItemAllow, UpdatedAt);
  }
}
