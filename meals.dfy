/**
 * `Meal` (models/meal.js): creating a meal, the reads (all meals by id, all
 * meals joined with their dfac by dfac name, one meal with its items), the
 * allow-listed partial update and the soft delete. `getDfacMeals` reads the
 * same rows as `Dfac.get` and is modelled by `Dfacs.Get`.
 */
module Meals {
  import opened Relational
  import opened Store
  import Ordering

  /**
   * The row `create` inserts. A property the caller leaves out is
   * `undefined`, or the `null` default of `imgPic`, NULL either way.
   */
  function MealRow(input: map<Key, Value>): Row {
    map[DfacId := Prop(input, "dfacID"), MealName := Prop(input, "mealName"),
        Description := Prop(input, "description"), MealType := Prop(input, "type"),
        Price := Prop(input, "price"), ImgPic := Prop(input, "imgPic")]
  }

  /** What `get` returns. */
  datatype MealAndItems = MealAndItems(meal: Record, items: seq<Record>)

  /**
   * `Meal.get`: NotFound when no meal has the id; otherwise the meal and one
   * item per `meal_items` row linking it to an existing item. Deleted rows
   * are not filtered out.
   */
  function Get(meals: Table, mealItems: seq<Link>, items: Table, mealID: int): (r: Result<MealAndItems>)
    ensures r.Err? <==> mealID !in meals
    ensures r.Err? ==> r.error == NotFound
    ensures r.Ok? ==> r.value.meal == Record(mealID, meals[mealID])
    ensures r.Ok? ==> forall x :: x in r.value.items <==>
      exists i :: 0 <= i < |mealItems| && mealItems[i].left == mealID && mealItems[i].right in items &&
        x == Record(mealItems[i].right, items[mealItems[i].right])
  {
    if mealID !in meals then Err(NotFound)
    else Ok(MealAndItems(Record(mealID, meals[mealID]), Joined(mealItems, items, mealID)))
  }

  /**
   * `Meal.create`: the row goes in under the next id and is returned; read
   * back by `get`, the new meal has no items yet.
   */
  method Create(db: Db, input: map<Key, Value>) returns (r: Record)
    requires db.Valid()
    modifies db`meals, db`mealSeq
    ensures db.Valid()
    ensures r.id == old(db.mealSeq) && r.id !in old(db.meals) && r.row == MealRow(input)
    ensures db.meals == old(db.meals)[r.id := r.row] && db.mealSeq == r.id + 1
    ensures Get(db.meals, db.mealItems, db.items, r.id) == Ok(MealAndItems(r, []))
  {
    var id := db.InsertMeal(MealRow(input));
    r := Record(id, MealRow(input));
  }

  // ---------------------------------------------------------------------
  // getWithDfacDeets

  /** Meal `m` names an existing dfac: a row of `meals JOIN dfacs ON m.dfac_id = d.id`. */
  predicate DfacJoins(meals: Table, dfacs: Table, m: int) {
    m in meals && Col(meals[m], DfacId).Int? && Col(meals[m], DfacId).n in dfacs
  }

  /** The dfac a joined meal names. */
  function DfacOf(meals: Table, dfacs: Table, m: int): Record
    requires DfacJoins(meals, dfacs, m)
  {
    var d := Col(meals[m], DfacId).n;
    Record(d, dfacs[d])
  }

  /** The ids of the increasing `ids` whose meal joins a dfac, in the same order. */
  function Joining(meals: Table, dfacs: Table, ids: seq<int>): (r: seq<int>)
    requires Ordering.Increasing(ids)
    ensures forall x :: x in r <==> x in ids && DfacJoins(meals, dfacs, x)
    ensures Ordering.Increasing(r)
  {
    if ids == [] then []
    else
      var rest := Joining(meals, dfacs, ids[1..]);
      if DfacJoins(meals, dfacs, ids[0]) then
        Ordering.HeadBelowTail(ids, rest);
        [ids[0]] + rest
      else rest
  }

  /** The dfac-name key of every joined meal. */
  function NameKeys(meals: Table, dfacs: Table): map<int, Ordering.SortKey> {
    map m | m in meals && DfacJoins(meals, dfacs, m) :: TextKey(Col(DfacOf(meals, dfacs, m).row, DfacName))
  }

  /** A meal joined with its dfac, as a row of `getWithDfacDeets`. */
  datatype MealWithDfac = MealWithDfac(meal: Record, dfac: Record)

  /**
   * `Meal.getWithDfacDeets`: every meal that names an existing dfac, with
   * that dfac. `WithDfacDeetsOrdered` states the order and that no meal
   * comes twice.
   */
  function GetWithDfacDeets(meals: Table, mealSeq: int, dfacs: Table): (r: seq<MealWithDfac>)
    requires Serial(meals, mealSeq)
    ensures forall m :: DfacJoins(meals, dfacs, m) <==> exists i :: 0 <= i < |r| && r[i].meal.id == m
    ensures forall i :: 0 <= i < |r| ==>
      && r[i].meal.id in meals && DfacJoins(meals, dfacs, r[i].meal.id)
      && r[i].meal == Record(r[i].meal.id, meals[r[i].meal.id])
      && r[i].dfac == DfacOf(meals, dfacs, r[i].meal.id)
  {
    Pair(meals, dfacs, SortedJoined(meals, mealSeq, dfacs))
  }

  /**
   * The rows of `getWithDfacDeets` name each meal once and are ordered by
   * dfac name, NULL names last. Meals of the same dfac name come in id
   * order, an order SQL leaves open.
   */
  lemma WithDfacDeetsOrdered(meals: Table, mealSeq: int, dfacs: Table)
    requires Serial(meals, mealSeq)
    ensures var r := GetWithDfacDeets(meals, mealSeq, dfacs);
      && (forall i, j :: 0 <= i < j < |r| ==> r[i].meal.id != r[j].meal.id)
      && (forall i, j :: 0 <= i < j < |r| ==>
            Ordering.KeyLe(TextKey(Col(r[i].dfac.row, DfacName)), TextKey(Col(r[j].dfac.row, DfacName))))
  {
    var sorted := SortedJoined(meals, mealSeq, dfacs);
    PairOrdered(meals, dfacs, sorted);
  }

  /** Pairing keeps the order of the ids and their distinctness. */
  lemma PairOrdered(meals: Table, dfacs: Table, ids: seq<int>)
    requires forall i :: 0 <= i < |ids| ==> ids[i] in meals && DfacJoins(meals, dfacs, ids[i])
    requires forall i, j :: 0 <= i < j < |ids| ==> ids[i] != ids[j]
    requires Ordering.Keyed(ids, NameKeys(meals, dfacs)) && Ordering.SortedBy(ids, NameKeys(meals, dfacs))
    ensures var r := Pair(meals, dfacs, ids);
      && (forall i, j :: 0 <= i < j < |r| ==> r[i].meal.id != r[j].meal.id)
      && (forall i, j :: 0 <= i < j < |r| ==>
            Ordering.KeyLe(TextKey(Col(r[i].dfac.row, DfacName)), TextKey(Col(r[j].dfac.row, DfacName))))
  {
    var r := Pair(meals, dfacs, ids);
    var key := NameKeys(meals, dfacs);
    forall i, j | 0 <= i < j < |r|
      ensures Ordering.KeyLe(TextKey(Col(r[i].dfac.row, DfacName)), TextKey(Col(r[j].dfac.row, DfacName)))
    {
      assert Ordering.KeyLe(key[ids[i]], key[ids[j]]);
      assert key[ids[i]] == TextKey(Col(r[i].dfac.row, DfacName));
      assert key[ids[j]] == TextKey(Col(r[j].dfac.row, DfacName));
    }
  }

  /** The ids of the joined meals, each once, sorted by dfac name. */
  function SortedJoined(meals: Table, mealSeq: int, dfacs: Table): (r: seq<int>)
    requires Serial(meals, mealSeq)
    ensures forall x :: x in r <==> DfacJoins(meals, dfacs, x)
    ensures forall i, j :: 0 <= i < j < |r| ==> r[i] != r[j]
    ensures Ordering.Keyed(r, NameKeys(meals, dfacs)) && Ordering.SortedBy(r, NameKeys(meals, dfacs))
  {
    var ids := Joining(meals, dfacs, Ordering.SortedIds(meals.Keys, mealSeq));
    var sorted := Ordering.SortBy(ids, NameKeys(meals, dfacs));
    Ordering.PermutedIncreasingDistinct(ids, sorted);
    JoiningSorted(meals, dfacs, ids, sorted);
    sorted
  }

  /** Each id of `ids` with its meal and the dfac it names. */
  function Pair(meals: Table, dfacs: Table, ids: seq<int>): (r: seq<MealWithDfac>)
    requires forall i :: 0 <= i < |ids| ==> ids[i] in meals && DfacJoins(meals, dfacs, ids[i])
    ensures |r| == |ids|
    ensures forall i :: 0 <= i < |ids| ==> r[i] == MealWithDfac(Record(ids[i], meals[ids[i]]), DfacOf(meals, dfacs, ids[i]))
  {
    if ids == [] then []
    else [MealWithDfac(Record(ids[0], meals[ids[0]]), DfacOf(meals, dfacs, ids[0]))] + Pair(meals, dfacs, ids[1..])
  }

  /** The sorted ids are exactly the joined meals. */
  lemma JoiningSorted(meals: Table, dfacs: Table, ids: seq<int>, sorted: seq<int>)
    requires forall x :: x in ids <==> DfacJoins(meals, dfacs, x)
    requires multiset(sorted) == multiset(ids)
    ensures forall x :: x in sorted <==> DfacJoins(meals, dfacs, x)
  {
    forall x ensures x in sorted <==> x in ids {
      assert x in sorted <==> x in multiset(sorted);
      assert x in ids <==> x in multiset(ids);
    }
  }

  // ---------------------------------------------------------------------
  // update, remove

  /** The columns `update` writes, in the order of its `jsToSql` object. */
  const MealColumns: seq<Column> := [MealName, Description, MealType, Price, ImgPic]

  /** The property each meal column is renamed from; "" for the other columns. */
  function MealKey(c: Column): Key {
    match c
    case MealName => "mealName"
    case Description => "description"
    case MealType => "type"
    case Price => "price"
    case ImgPic => "imgPic"
    case _ => ""
  }

  const MealAllow: AllowList := Listed(MealColumns, MealKey)

  /** Every listed column has a property of its own. */
  lemma MealKeysNamed()
    ensures forall i :: 0 <= i < |MealColumns| ==> MealKey(MealColumns[i]) != ""
  {
  }

  /**
   * `Meal.update`: the five allow-listed columns, `updated_at` stamped, the
   * id bound last; NotFound when no meal has the id.
   */
  method Update(db: Db, mealID: int, data: seq<Field>, now: int) returns (r: Result<Record>)
    requires db.Valid() && Admissible(data, MealAllow)
    modifies db`meals
    ensures db.Valid()
    ensures var e := UpdateById(old(db.meals), MealAllow, true, mealID, data, now);
      e.Ok? && db.meals == e.value.table
    ensures r == (if mealID in old(db.meals) then Ok(Record(mealID, db.meals[mealID])) else Err(NotFound))
  {
    UpdateByIdEffect(db.meals, MealAllow, true, mealID, data, now);
    var e := UpdateById(db.meals, MealAllow, true, mealID, data, now);
    db.meals := e.value.table;
    if e.value.returned.None? {
      return Err(NotFound);
    }
    r := Ok(e.value.returned.value);
  }

  /**
   * `update` touches only the meal with the id: its given properties' columns
   * take the new values, `updated_at` is stamped, and its dfac, likes, id,
   * `created_at` and `deleted_at` stay as they were.
   */
  lemma UpdateEffect(meals: Table, mealID: int, data: seq<Field>, now: int)
    requires Admissible(data, MealAllow)
    ensures var e := UpdateById(meals, MealAllow, true, mealID, data, now);
      && e.Ok? && e.value.table.Keys == meals.Keys
      && (forall k :: k in meals && k != mealID ==> e.value.table[k] == meals[k])
      && (mealID in meals ==>
            && Col(e.value.table[mealID], UpdatedAt) == Stamp(now)
            && (forall i :: 0 <= i < |data| ==> Col(e.value.table[mealID], Lookup(MealAllow, data[i].key).value) == data[i].value)
            && (forall c :: c in {DfacId, Likes, Id, CreatedAt, DeletedAt} ==>
                  Col(e.value.table[mealID], c) == Col(meals[mealID], c)))
  {
    UpdateByIdEffect(meals, MealAllow, true, mealID, data, now);
    MealKeysNamed();
    NotListedByKey(MealAllow, DfacId);
    NotListedByKey(MealAllow, Likes);
    NotListedByKey(MealAllow, Id);
    NotListedByKey(MealAllow, CreatedAt);
    NotListedByKey(MealAllow, DeletedAt);
    NotListedByKey(MealAllow, UpdatedAt);
  }

  /**
   * `Meal.remove`: stamps `deleted_at` on the meal with the id, keeps the
   * row and returns the id; NotFound when no meal has the id.
   */
  method Remove(db: Db, mealID: int, now: int) returns (r: Result<int>)
    requires db.Valid()
    modifies db`meals
    ensures db.Valid()
    ensures db.meals == SoftDelete(old(db.meals), mealID, now).table
    ensures r == (if mealID in old(db.meals) then Ok(mealID) else Err(NotFound))
  {
    var u := SoftDelete(db.meals, mealID, now);
    db.meals := u.table;
    if u.returned.None? {
      return Err(NotFound);
    }
    r := Ok(u.returned.value.id);
  }

  /** A removed meal still reads back through `get`, now carrying its `deleted_at` stamp. */
  lemma RemovedMealStillReads(meals: Table, mealItems: seq<Link>, items: Table, mealID: int, now: int)
    requires mealID in meals
    ensures var after := SoftDelete(meals, mealID, now).table;
      var r := Get(after, mealItems, items, mealID);
      r.Ok? && !Active(r.value.meal.row) && r.value.items == Get(meals, mealItems, items, mealID).value.items
  {
  }
}
