/**
 * `Dfac` (models/dfac.js): the dining facilities. Adding one with a
 * duplicate-name check, listing, reading one with its meals, the two
 * allow-listed partial updates and the soft delete.
 */
module Dfacs {
  import opened Relational
  import opened Store

  /** The columns `update` (and `add`) write, in the order of its `jsToSql` object. */
  const DfacColumns: seq<Column> := [
    DfacName, DfacLogo, StreetAddress, BldgNum, City, StateAbb, ZipCode, DfacPhnumber, FlashMsg1, FlashMsg2,
    BfHours, LuHours, DnHours, BchHours, SupHours, OrderTimebf, OrderTimelu, OrderTimedn, OrderTimebch, OrderTimesup]

  /** The ten hour and order-time columns, the only ones `updateHours` writes. */
  const HoursColumns: seq<Column> := [
    BfHours, LuHours, DnHours, BchHours, SupHours, OrderTimebf, OrderTimelu, OrderTimedn, OrderTimebch, OrderTimesup]

  /** The property each dfac column is renamed from; "" for the other columns. */
  function DfacKey(c: Column): Key {
    match c
    case DfacName => "dfacName"
    case DfacLogo => "dfacLogo"
    case StreetAddress => "street"
    case BldgNum => "bldgNum"
    case City => "city"
    case StateAbb => "state"
    case ZipCode => "zip"
    case DfacPhnumber => "dfacPhone"
    case FlashMsg1 => "flashMsg1"
    case FlashMsg2 => "flashMsg2"
    case BfHours => "bfHours"
    case LuHours => "luHours"
    case DnHours => "dnHours"
    case BchHours => "bchHours"
    case SupHours => "supHours"
    case OrderTimebf => "orderBf"
    case OrderTimelu => "orderLu"
    case OrderTimedn => "orderDn"
    case OrderTimebch => "orderBch"
    case OrderTimesup => "orderSup"
    case _ => ""
  }

  const DfacAllow: AllowList := Listed(DfacColumns, DfacKey)
  const HoursAllow: AllowList := Listed(HoursColumns, DfacKey)

  /** Every listed column has a property of its own. */
  lemma DfacKeysNamed()
    ensures forall i :: 0 <= i < |DfacColumns| ==> DfacKey(DfacColumns[i]) != ""
  {
  }

  /** The hour columns are the last ten of the full list. */
  lemma HoursAreTail()
    ensures HoursColumns == DfacColumns[10..]
  {
  }

  /**
   * The row `add` inserts: each of the twenty columns from the property
   * `update` renames to it. A missing property is `undefined` or its `null`
   * default, NULL either way.
   */
  function DfacRow(input: map<Key, Value>): (r: Row)
    ensures forall c :: c in r <==> c in DfacColumns
    ensures forall c :: c in DfacColumns ==> r[c] == Prop(input, DfacKey(c))
  {
    RowOf(DfacAllow, input)
  }

  /**
   * `Dfac.add`: BadRequest, and nothing inserted, when a dfac (deleted or
   * not) already has the name; otherwise the row is inserted under the next
   * id and returned. A dfac table without duplicate names keeps none.
   */
  method Add(db: Db, input: map<Key, Value>) returns (r: Result<Record>)
    requires db.Valid()
    modifies db`dfacs, db`dfacSeq
    ensures db.Valid()
    ensures Taken(old(db.dfacs), DfacName, Prop(input, "dfacName")) ==>
      r == Err(BadRequest) && db.dfacs == old(db.dfacs) && db.dfacSeq == old(db.dfacSeq)
    ensures !Taken(old(db.dfacs), DfacName, Prop(input, "dfacName")) ==>
      var id := old(db.dfacSeq);
      && id !in old(db.dfacs)
      && db.dfacs == old(db.dfacs)[id := DfacRow(input)] && db.dfacSeq == id + 1
      && r == Ok(Record(id, DfacRow(input)))
    ensures UniqueIn(old(db.dfacs), DfacName) ==> UniqueIn(db.dfacs, DfacName)
  {
    if Taken(db.dfacs, DfacName, Prop(input, "dfacName")) {
      return Err(BadRequest);
    }
    var row := DfacRow(input);
    if UniqueIn(db.dfacs, DfacName) {
      InsertKeepsUnique(db.dfacs, DfacName, db.dfacSeq, row);
    }
    var id := db.InsertDfac(row);
    r := Ok(Record(id, row));
  }

  /** What `get` returns: the dfac, and its meals in no particular order. */
  datatype DfacAndMeals = DfacAndMeals(dfacDetails: Record, meals: Table)

  /**
   * `Dfac.get`: NotFound when no dfac has the id; otherwise the dfac and
   * exactly the meals whose `dfac_id` is the id. Deleted rows are not
   * filtered out.
   */
  function Get(dfacs: Table, meals: Table, dfacID: int): (r: Result<DfacAndMeals>)
    ensures r.Err? <==> dfacID !in dfacs
    ensures r.Err? ==> r.error == NotFound
    ensures r.Ok? ==> r.value.dfacDetails == Record(dfacID, dfacs[dfacID])
    ensures r.Ok? ==> forall m :: m in r.value.meals <==> m in meals && Col(meals[m], DfacId) == Int(dfacID)
    ensures r.Ok? ==> forall m :: m in r.value.meals ==> r.value.meals[m] == meals[m]
  {
    if dfacID !in dfacs then Err(NotFound)
    else Ok(DfacAndMeals(Record(dfacID, dfacs[dfacID]), Where(meals, DfacId, Int(dfacID))))
  }

  /** An UPDATE of `dfacs` by id, and `rows[0]` or NotFound. */
  method UpdateWith(db: Db, allow: AllowList, dfacID: int, data: seq<Field>, now: int) returns (r: Result<Record>)
    requires db.Valid() && Admissible(data, allow)
    modifies db`dfacs
    ensures db.Valid()
    ensures var e := UpdateById(old(db.dfacs), allow, true, dfacID, data, now);
      e.Ok? && db.dfacs == e.value.table
    ensures r == (if dfacID in old(db.dfacs) then Ok(Record(dfacID, db.dfacs[dfacID])) else Err(NotFound))
  {
    UpdateByIdEffect(db.dfacs, allow, true, dfacID, data, now);
    var e := UpdateById(db.dfacs, allow, true, dfacID, data, now);
    db.dfacs := e.value.table;
    if e.value.returned.None? {
      return Err(NotFound);
    }
    r := Ok(e.value.returned.value);
  }

  /**
   * `Dfac.update`: the twenty allow-listed columns, `updated_at` stamped,
   * the id bound last; NotFound when no dfac has the id.
   */
  method Update(db: Db, dfacID: int, data: seq<Field>, now: int) returns (r: Result<Record>)
    requires db.Valid() && Admissible(data, DfacAllow)
    modifies db`dfacs
    ensures db.Valid()
    ensures var e := UpdateById(old(db.dfacs), DfacAllow, true, dfacID, data, now);
      e.Ok? && db.dfacs == e.value.table
    ensures r == (if dfacID in old(db.dfacs) then Ok(Record(dfacID, db.dfacs[dfacID])) else Err(NotFound))
  {
    r := UpdateWith(db, DfacAllow, dfacID, data, now);
  }

  /** `Dfac.updateHours`: as `update`, through the ten hour columns only. */
  method UpdateHours(db: Db, dfacID: int, data: seq<Field>, now: int) returns (r: Result<Record>)
    requires db.Valid() && Admissible(data, HoursAllow)
    modifies db`dfacs
    ensures db.Valid()
    ensures var e := UpdateById(old(db.dfacs), HoursAllow, true, dfacID, data, now);
      e.Ok? && db.dfacs == e.value.table
    ensures r == (if dfacID in old(db.dfacs) then Ok(Record(dfacID, db.dfacs[dfacID])) else Err(NotFound))
  {
    r := UpdateWith(db, HoursAllow, dfacID, data, now);
  }

  /**
   * `update` touches only the dfac with the id: its given properties' columns
   * take the new values, `updated_at` is stamped, and its id, `created_at`
   * and `deleted_at` stay as they were.
   */
  lemma UpdateEffect(dfacs: Table, dfacID: int, data: seq<Field>, now: int)
    requires Admissible(data, DfacAllow)
    ensures var e := UpdateById(dfacs, DfacAllow, true, dfacID, data, now);
      && e.Ok? && e.value.table.Keys == dfacs.Keys
      && (forall k :: k in dfacs && k != dfacID ==> e.value.table[k] == dfacs[k])
      && (dfacID in dfacs ==>
            && Col(e.value.table[dfacID], UpdatedAt) == Stamp(now)
            && (forall i :: 0 <= i < |data| ==> Col(e.value.table[dfacID], Lookup(DfacAllow, data[i].key).value) == data[i].value)
            && (forall c :: c in {Id, CreatedAt, DeletedAt} ==>
                  Col(e.value.table[dfacID], c) == Col(dfacs[dfacID], c)))
  {
    UpdateByIdEffect(dfacs, DfacAllow, true, dfacID, data, now);
    DfacKeysNamed();
    NotListedByKey(DfacAllow, Id);
    NotListedByKey(DfacAllow, CreatedAt);
    NotListedByKey(DfacAllow, DeletedAt);
    NotListedByKey(DfacAllow, UpdatedAt);
  }

  /** No hour column shares its property with one of the first ten columns. */
  lemma HoursKeysApart()
    ensures forall i, j :: 0 <= i < 10 && 0 <= j < |HoursColumns| ==> DfacKey(HoursColumns[j]) != DfacKey(DfacColumns[i])
  {
  }

  /**
   * `updateHours` cannot change a dfac's name, logo, address or phone, nor
   * its flash messages (the first ten columns): only hour columns and
   * `updated_at` move.
   */
  lemma UpdateHoursKeepsIdentity(dfacs: Table, dfacID: int, data: seq<Field>, now: int)
    requires Admissible(data, HoursAllow)
    ensures var e := UpdateById(dfacs, HoursAllow, true, dfacID, data, now);
      && e.Ok?
      && (dfacID in dfacs ==>
            forall i :: 0 <= i < 10 ==> Col(e.value.table[dfacID], DfacColumns[i]) == Col(dfacs[dfacID], DfacColumns[i]))
  {
    UpdateByIdEffect(dfacs, HoursAllow, true, dfacID, data, now);
    DfacKeysNamed();
    HoursKeysApart();
    forall i | 0 <= i < 10 ensures Unlisted(HoursAllow, DfacColumns[i]) && DfacColumns[i] != UpdatedAt {
      NotListedByKey(HoursAllow, DfacColumns[i]);
    }
  }

  /**
   * Only `add` checks names: an update may give a dfac the (non-NULL) name
   * of another, after which the names are no longer unique.
   */
  lemma UpdateCanDuplicateName(dfacs: Table, other: int, dfacID: int, now: int)
    requires other in dfacs && dfacID in dfacs && other != dfacID
    requires Col(dfacs[other], DfacName) != Null
    ensures var e := UpdateById(dfacs, DfacAllow, true, dfacID, [Field("dfacName", Col(dfacs[other], DfacName))], now);
      e.Ok? && !UniqueIn(e.value.table, DfacName)
  {
    var data := [Field("dfacName", Col(dfacs[other], DfacName))];
    assert Lookup(DfacAllow, "dfacName") == Some(DfacName);
    UpdateEffect(dfacs, dfacID, data, now);
    var e := UpdateById(dfacs, DfacAllow, true, dfacID, data, now);
    assert Col(e.value.table[dfacID], DfacName) == Col(e.value.table[other], DfacName);
  }

  /**
   * `Dfac.remove`: stamps `deleted_at` on the dfac with the id, keeps the
   * row and returns its name; NotFound when no dfac has the id.
   */
  method Remove(db: Db, dfacID: int, now: int) returns (r: Result<Value>)
    requires db.Valid()
    modifies db`dfacs
    ensures db.Valid()
    ensures db.dfacs == SoftDelete(old(db.dfacs), dfacID, now).table
    ensures r == (if dfacID in old(db.dfacs) then Ok(Col(old(db.dfacs)[dfacID], DfacName)) else Err(NotFound))
  {
    var u := SoftDelete(db.dfacs, dfacID, now);
    db.dfacs := u.table;
    if u.returned.None? {
      return Err(NotFound);
    }
    r := Ok(Col(u.returned.value.row, DfacName));
  }
}
