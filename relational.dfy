/**
 * The relational store the models talk to, at the level the model files use
 * it: rows as maps from column to value, tables as maps from serial id to
 * row, the exceptions the models throw, the partial-update helper and the
 * meaning of the UPDATE statements the models issue with numbered
 * placeholders `$1 .. $n`.
 */
module Relational {

  /** A property name of a request object, such as `dfacName`. */
  type Key = string

  /**
   * The columns of the tables the models use, named after their SQL names
   * (`street_address` is `StreetAddress`). `Named` is a column spelled as a
   * request key, for statements that take the keys verbatim.
   */
  datatype Column =
    | Id | CreatedAt | UpdatedAt | DeletedAt
    // dfacs
    | DfacName | DfacLogo | StreetAddress | BldgNum | City | StateAbb | ZipCode | DfacPhnumber
    | FlashMsg1 | FlashMsg2 | BfHours | LuHours | DnHours | BchHours | SupHours
    | OrderTimebf | OrderTimelu | OrderTimedn | OrderTimebch | OrderTimesup
    // meals
    | DfacId | MealName | Description | MealType | Price | ImgPic | Likes
    // items, nutrition
    | MenuItem | FoodType | RecipeCode | ColorCode | SodiumLevel | ItemImg | DaStandard | MenuItemId
    // orders, order_meals
    | CustomerId | Comments | ToGo | ReadyForPickup | PickedUp | Canceled | Favorite
    | OrderId | MealId | Quantity | SpecialInstructions
    // tags; item_id is the column of the link tables
    | Dietary | Allergen | Promotional | Descriptive | Availability | ItemId
    | Named(name: string)

  datatype Option<T> = None | Some(value: T)

  /** A column value; `Stamp` is an opaque CURRENT_TIMESTAMP. */
  datatype Value = Null | Int(n: int) | Text(s: string) | Bool(b: bool) | Stamp(t: int)

  type Row = map<Column, Value>
  type Table = map<int, Row>

  /** A row together with its id, as the models return it. */
  datatype Record = Record(id: int, row: Row)

  /** A row of a two-column link table such as `dfac_items (dfac_id, item_id)`. */
  datatype Link = Link(left: int, right: int)

  /** What a model method throws. */
  datatype Error =
    | BadRequest                    // new BadRequestError(...)
    | NotFound                      // new NotFoundError(...)
    | ReferenceError(name: string)  // a message template names an undefined identifier
    | TypeError                     // NotFoundError(...) called without `new`
    | QueryError                    // the database rejects the statement

  datatype Result<T> = Ok(value: T) | Err(error: Error)

  /** A column the row does not carry reads as NULL. */
  function Col(r: Row, c: Column): Value {
    if c in r then r[c] else Null
  }

  /** SQL `a = b`, which is never true when either side is NULL. */
  predicate SqlEq(a: Value, b: Value) {
    a != Null && a == b
  }

  /** `deleted_at IS NULL`. */
  predicate Active(r: Row) {
    Col(r, DeletedAt) == Null
  }

  /** `SELECT ... WHERE id = $1 AND deleted_at IS NULL` finds a row. */
  predicate ActiveIn(t: Table, id: int) {
    id in t && Active(t[id])
  }

  /** A property of a request object; a missing one is `undefined`, stored as NULL. */
  function Prop(input: map<Key, Value>, k: Key): Value {
    if k in input then input[k] else Null
  }

  // ---------------------------------------------------------------------
  // The partial-update helper `sqlForPartialUpdate(data, jsToSql)`

  /** One property of the `data` object handed to an update. */
  datatype Field = Field(key: Key, value: Value)

  /** The properties of a JS object have distinct names. */
  predicate DistinctKeys(data: seq<Field>) {
    forall i, j :: 0 <= i < j < |data| ==> data[i].key != data[j].key
  }

  /**
   * A `jsToSql` allow-list. `Listed` is an object literal: its columns, in
   * order, with the property each is renamed from; a property is accepted
   * when some column names it. `Verbatim` is this model's reading of a call
   * with no `jsToSql` (the helper's code is not part of this model): every
   * property is taken as the name of its own column.
   */
  datatype AllowList =
    | Listed(cols: seq<Column>, keyOf: Column -> Key)
    | Verbatim

  /** The first of `cols` renamed from `k`. */
  function Find(cols: seq<Column>, keyOf: Column -> Key, k: Key): (r: Option<Column>)
    ensures r.Some? ==> r.value in cols && keyOf(r.value) == k
    ensures r.None? ==> forall c :: c in cols ==> keyOf(c) != k
  {
    if cols == [] then None
    else if keyOf(cols[0]) == k then Some(cols[0])
    else Find(cols[1..], keyOf, k)
  }

  /**
   * The column property `k` is written to. Through a listed allow-list it is
   * the column renamed from `k`, or None when no column is; the updates the
   * model states are for data whose properties are all listed (`Admissible`).
   * Through `Verbatim` it is the column named `k` itself.
   */
  function Lookup(allow: AllowList, k: Key): (r: Option<Column>)
    ensures allow.Listed? && r.Some? ==> r.value in allow.cols && allow.keyOf(r.value) == k
    ensures allow.Listed? && r.None? ==> forall c :: c in allow.cols ==> allow.keyOf(c) != k
    ensures allow.Verbatim? ==> r == Some(Named(k))
  {
    match allow
    case Listed(cols, keyOf) => Find(cols, keyOf, k)
    case Verbatim => Some(Named(k))
  }

  /** Distinct properties are renamed to distinct columns. */
  lemma LookupInjective(allow: AllowList, k1: Key, k2: Key)
    requires Lookup(allow, k1).Some? && k1 != k2
    ensures Lookup(allow, k1) != Lookup(allow, k2)
  {
  }

  /** No accepted property is renamed to column `c`. */
  ghost predicate Unlisted(allow: AllowList, c: Column) {
    forall k :: Lookup(allow, k) != Some(c)
  }

  /** A column missing from a listed allow-list is not written through it. */
  lemma NotListed(allow: AllowList, c: Column)
    requires allow.Listed? && c !in allow.cols
    ensures Unlisted(allow, c)
  {
  }

  /** A column whose property no listed column shares is not written through the allow-list. */
  lemma NotListedByKey(allow: AllowList, c: Column)
    requires allow.Listed?
    requires forall i :: 0 <= i < |allow.cols| ==> allow.keyOf(allow.cols[i]) != allow.keyOf(c)
    ensures Unlisted(allow, c)
  {
  }

  /**
   * The row an INSERT writes when each column of the allow-list takes the
   * property renamed to it; an absent property is NULL.
   */
  function RowOf(allow: AllowList, input: map<Key, Value>): (r: Row)
    requires allow.Listed?
    ensures forall c :: c in r <==> c in allow.cols
    ensures forall c :: c in allow.cols ==> r[c] == Prop(input, allow.keyOf(c))
    ensures forall k :: Lookup(allow, k).Some? ==> r[Lookup(allow, k).value] == Prop(input, k)
  {
    map c | c in allow.cols :: Prop(input, allow.keyOf(c))
  }

  function KeysOf(data: seq<Field>): set<Key> {
    set i | 0 <= i < |data| :: data[i].key
  }

  /** The helper's result: column i is assigned placeholder `$(i+1)`, bound to values[i]. */
  datatype PartialUpdate = PartialUpdate(setCols: seq<Column>, values: seq<Value>)

  /**
   * The allow-listed properties of `data`, renamed to their columns and kept
   * in the order of `data`.
   */
  function SqlForPartialUpdate(data: seq<Field>, allow: AllowList): (u: PartialUpdate)
    ensures |u.setCols| == |u.values| <= |data|
    ensures allow.Listed? ==> forall c :: c in u.setCols ==> c in allow.cols
  {
    if data == [] then PartialUpdate([], [])
    else
      var rest := SqlForPartialUpdate(data[1..], allow);
      match Lookup(allow, data[0].key)
      case Some(c) => PartialUpdate([c] + rest.setCols, [data[0].value] + rest.values)
      case None => rest
  }

  /** The columns an update of `data` through `allow` writes. */
  function Touched(data: seq<Field>, allow: AllowList): set<Column> {
    set i | 0 <= i < |data| && Lookup(allow, data[i].key).Some? :: Lookup(allow, data[i].key).value
  }

  /**
   * The data the model states updates for: a JS object's properties (distinct
   * names), at least one of them, each one allow-listed.
   */
  predicate Admissible(data: seq<Field>, allow: AllowList) {
    DistinctKeys(data) && |data| > 0 && forall i :: 0 <= i < |data| ==> Lookup(allow, data[i].key).Some?
  }

  /** With every key allow-listed, the helper keeps every field. */
  lemma {:induction false} AllAllowedLength(data: seq<Field>, allow: AllowList)
    requires forall i :: 0 <= i < |data| ==> Lookup(allow, data[i].key).Some?
    ensures |SqlForPartialUpdate(data, allow).values| == |data|
  {
    if data != [] {
      AllAllowedLength(data[1..], allow);
    }
  }

  /** With every key allow-listed, column i is data[i]'s column and value i its value. */
  lemma {:induction false} AllAllowed(data: seq<Field>, allow: AllowList)
    requires forall i :: 0 <= i < |data| ==> Lookup(allow, data[i].key).Some?
    ensures var u := SqlForPartialUpdate(data, allow);
      && |u.setCols| == |u.values| == |data|
      && forall i :: 0 <= i < |data| ==> u.setCols[i] == Lookup(allow, data[i].key).value && u.values[i] == data[i].value
  {
    AllAllowedLength(data, allow);
    if data != [] {
      AllAllowed(data[1..], allow);
      var u := SqlForPartialUpdate(data, allow);
      var rest := SqlForPartialUpdate(data[1..], allow);
      forall i | 0 <= i < |data|
        ensures u.setCols[i] == Lookup(allow, data[i].key).value && u.values[i] == data[i].value
      {
        if i > 0 {
          assert data[i] == data[1..][i - 1];
          assert u.setCols[i] == rest.setCols[i - 1] && u.values[i] == rest.values[i - 1];
        }
      }
    }
  }

  // ---------------------------------------------------------------------
  // Rows written by assignments

  /** `SET c1 = $1, ..., cn = $n`, applied left to right. */
  function Assign(r: Row, setCols: seq<Column>, params: seq<Value>): Row
    requires |setCols| <= |params|
    decreases setCols
  {
    if setCols == [] then r
    else Assign(r[setCols[0] := params[0]], setCols[1..], params[1..])
  }

  /** The row an update of `data` through `allow` should leave, field by field. */
  function ApplyFields(r: Row, data: seq<Field>, allow: AllowList): Row
    decreases data
  {
    if data == [] then r
    else
      var r1 := if Lookup(allow, data[0].key).Some? then r[Lookup(allow, data[0].key).value := data[0].value] else r;
      ApplyFields(r1, data[1..], allow)
  }

  /** The compiled SET list, with any further parameters after it, writes what `data` says. */
  lemma {:induction false} AssignCompiled(r: Row, data: seq<Field>, allow: AllowList, extra: seq<Value>)
    ensures var u := SqlForPartialUpdate(data, allow);
      Assign(r, u.setCols, u.values + extra) == ApplyFields(r, data, allow)
    decreases data
  {
    if data != [] {
      var rest := SqlForPartialUpdate(data[1..], allow);
      if Lookup(allow, data[0].key).Some? {
        var c, v := Lookup(allow, data[0].key).value, data[0].value;
        assert ([v] + rest.values + extra)[1..] == rest.values + extra;
        AssignCompiled(r[c := v], data[1..], allow, extra);
      } else {
        AssignCompiled(r, data[1..], allow, extra);
      }
    }
  }

  /**
   * Field by field: columns no allow-listed property maps to keep their value,
   * and each allow-listed property's column ends up holding its value.
   */
  lemma {:induction false} ApplyFieldsEffect(r: Row, data: seq<Field>, allow: AllowList)
    requires DistinctKeys(data)
    ensures forall c :: c !in Touched(data, allow) ==> Col(ApplyFields(r, data, allow), c) == Col(r, c)
    ensures forall i :: 0 <= i < |data| && Lookup(allow, data[i].key).Some? ==>
      Col(ApplyFields(r, data, allow), Lookup(allow, data[i].key).value) == data[i].value
    decreases data
  {
    if data != [] {
      var r1 := if Lookup(allow, data[0].key).Some? then r[Lookup(allow, data[0].key).value := data[0].value] else r;
      var tail := data[1..];
      ApplyFieldsEffect(r1, tail, allow);
      var r' := ApplyFields(r, data, allow);
      assert r' == ApplyFields(r1, tail, allow);
      forall c | c !in Touched(data, allow) ensures Col(r', c) == Col(r, c) {
        assert c !in Touched(tail, allow);
        if Lookup(allow, data[0].key).Some? {
          assert Lookup(allow, data[0].key).value in Touched(data, allow);
        }
      }
      forall i | 0 <= i < |data| && Lookup(allow, data[i].key).Some?
        ensures Col(r', Lookup(allow, data[i].key).value) == data[i].value
      {
        if i > 0 {
          assert tail[i - 1] == data[i];
        } else {
          assert Lookup(allow, data[0].key).value !in Touched(tail, allow);
        }
      }
    }
  }

  // UPDATE ... SET ... WHERE id = $k, with a list of bound parameters

  /**
   * `UPDATE t SET setCols[0] = $1, ..., setCols[n-1] = $n
   * [, updated_at = CURRENT_TIMESTAMP] WHERE id = $idPlaceholder RETURNING ...`.
   */
  datatype UpdateStmt = UpdateStmt(setCols: seq<Column>, stampsUpdatedAt: bool, idPlaceholder: nat)

  /** A statement with the parameter list passed to `db.query`. */
  datatype Query = Query(stmt: UpdateStmt, params: seq<Value>)

  /** A statement the server can parse: a non-empty SET list and a placeholder `$k`, k >= 1. */
  predicate Parses(s: UpdateStmt) {
    s.setCols != [] && s.idPlaceholder >= 1
  }

  /** How many parameters the statement takes: its highest placeholder number. */
  function Arity(s: UpdateStmt): nat {
    if s.idPlaceholder > |s.setCols| then s.idPlaceholder else |s.setCols|
  }

  /** PostgreSQL binds a parameter list only when it has exactly as many values as the statement takes. */
  predicate Binds(q: Query) {
    |q.params| == Arity(q.stmt)
  }

  /** The value the row id is compared with. */
  function BoundId(q: Query): Value
    requires Parses(q.stmt) && Binds(q)
  {
    q.params[q.stmt.idPlaceholder - 1]
  }

  /** The table after an UPDATE, and the row RETURNING gives (`rows[0]`), if any. */
  datatype Updated = Updated(table: Table, returned: Option<Record>)

  /**
   * Runs an update. A parameter list of the wrong length is rejected before
   * anything is written; otherwise the row whose id equals the bound id, if
   * there is one, gets the SET list and nothing else changes.
   */
  function ExecUpdate(t: Table, q: Query, now: int): (r: Result<Updated>)
    requires Parses(q.stmt)
    ensures r.Err? <==> !Binds(q)
    ensures r.Err? ==> r.error == QueryError
    ensures r.Ok? ==> r.value.table.Keys == t.Keys
    ensures r.Ok? ==> (r.value.returned.Some? <==> BoundId(q).Int? && BoundId(q).n in t)
    ensures r.Ok? ==> forall k :: k in t && BoundId(q) != Int(k) ==> r.value.table[k] == t[k]
    ensures r.Ok? && r.value.returned.Some? ==>
      var id := r.value.returned.value.id;
      && BoundId(q) == Int(id)
      && r.value.returned.value.row == r.value.table[id]
      && (q.stmt.stampsUpdatedAt ==> Col(r.value.table[id], UpdatedAt) == Stamp(now))
  {
    if !Binds(q) then Err(QueryError)
    else
      var p := BoundId(q);
      if p.Int? && p.n in t then
        var written := Assign(t[p.n], q.stmt.setCols, q.params);
        var row := if q.stmt.stampsUpdatedAt then written[UpdatedAt := Stamp(now)] else written;
        Ok(Updated(t[p.n := row], Some(Record(p.n, row))))
      else Ok(Updated(t, None))
  }

  /**
   * The statement every entity update builds: `WHERE id = $(|values|+1)`
   * with parameters `[...values, id]`, so the id is the last bound value.
   */
  function IdLastQuery(u: PartialUpdate, stampsUpdatedAt: bool, id: Value): (q: Query)
    requires |u.setCols| == |u.values| > 0
    ensures Parses(q.stmt) && Binds(q) && q.stmt.setCols == u.setCols
    ensures q.stmt.idPlaceholder == |u.values| + 1 == |q.params|
    ensures BoundId(q) == id && q.params[..|u.values|] == u.values
  {
    Query(UpdateStmt(u.setCols, stampsUpdatedAt, |u.values| + 1), u.values + [id])
  }

  /** An allow-listed partial update of the row with the given id. */
  function UpdateById(t: Table, allow: AllowList, stampsUpdatedAt: bool, id: int, data: seq<Field>, now: int): Result<Updated>
    requires Admissible(data, allow)
  {
    AllAllowed(data, allow);
    ExecUpdate(t, IdLastQuery(SqlForPartialUpdate(data, allow), stampsUpdatedAt, Int(id)), now)
  }

  /**
   * What an allow-listed update by id does: the statement always binds; it
   * returns a row exactly when the id exists; only that row changes; in it,
   * every given property's column takes the new value, every column outside
   * the allow-list (and every allow-listed column whose property is absent)
   * keeps its value, and `updated_at` is stamped when the statement says so.
   */
  lemma UpdateByIdEffect(t: Table, allow: AllowList, stampsUpdatedAt: bool, id: int, data: seq<Field>, now: int)
    requires Admissible(data, allow)
    ensures var r := UpdateById(t, allow, stampsUpdatedAt, id, data, now);
      && r.Ok?
      && r.value.table.Keys == t.Keys
      && (r.value.returned.Some? <==> id in t)
      && (forall k :: k in t && k != id ==> r.value.table[k] == t[k])
      && (id in t ==> r.value.returned == Some(Record(id, r.value.table[id])))
    ensures var r := UpdateById(t, allow, stampsUpdatedAt, id, data, now);
      r.Ok? && id in t ==>
        var before, after := t[id], r.value.table[id];
        && (stampsUpdatedAt ==> Col(after, UpdatedAt) == Stamp(now))
        && (forall i :: 0 <= i < |data| && Lookup(allow, data[i].key) != Some(UpdatedAt) ==>
              Col(after, Lookup(allow, data[i].key).value) == data[i].value)
        && (forall c :: Unlisted(allow, c) && c != UpdatedAt ==> Col(after, c) == Col(before, c))
        && (forall k :: Lookup(allow, k).Some? && k !in KeysOf(data) && Lookup(allow, k) != Some(UpdatedAt) ==>
              Col(after, Lookup(allow, k).value) == Col(before, Lookup(allow, k).value))
  {
    AllAllowed(data, allow);
    if id in t {
      UpdateByIdWrites(t, allow, stampsUpdatedAt, id, data, now);
      UpdatedRowEffect(t[id], allow, stampsUpdatedAt, data, now);
    }
  }

  /** The row with the id after the update: the SET list, then the stamp. */
  function UpdatedRow(before: Row, allow: AllowList, stampsUpdatedAt: bool, data: seq<Field>, now: int): Row {
    var written := ApplyFields(before, data, allow);
    if stampsUpdatedAt then written[UpdatedAt := Stamp(now)] else written
  }

  /** The row-level part of `UpdateByIdEffect`. */
  lemma UpdatedRowEffect(before: Row, allow: AllowList, stampsUpdatedAt: bool, data: seq<Field>, now: int)
    requires DistinctKeys(data)
    ensures var after := UpdatedRow(before, allow, stampsUpdatedAt, data, now);
        && (stampsUpdatedAt ==> Col(after, UpdatedAt) == Stamp(now))
        && (forall i :: 0 <= i < |data| && Lookup(allow, data[i].key).Some? && Lookup(allow, data[i].key) != Some(UpdatedAt) ==>
              Col(after, Lookup(allow, data[i].key).value) == data[i].value)
        && (forall c :: Unlisted(allow, c) && c != UpdatedAt ==> Col(after, c) == Col(before, c))
        && (forall k :: Lookup(allow, k).Some? && k !in KeysOf(data) && Lookup(allow, k) != Some(UpdatedAt) ==>
              Col(after, Lookup(allow, k).value) == Col(before, Lookup(allow, k).value))
  {
    ApplyFieldsEffect(before, data, allow);
    UntouchedColumns(data, allow);
  }

  /** An update by id writes exactly `UpdatedRow` into the row with the id. */
  lemma UpdateByIdWrites(t: Table, allow: AllowList, stampsUpdatedAt: bool, id: int, data: seq<Field>, now: int)
    requires Admissible(data, allow) && id in t
    ensures var r := UpdateById(t, allow, stampsUpdatedAt, id, data, now);
      r.Ok? && r.value.table == t[id := UpdatedRow(t[id], allow, stampsUpdatedAt, data, now)]
  {
    var u := SqlForPartialUpdate(data, allow);
    AllAllowed(data, allow);
    var q := IdLastQuery(u, stampsUpdatedAt, Int(id));
    AssignCompiled(t[id], data, allow, [Int(id)]);
    assert q.params == u.values + [Int(id)];
  }

  /** The columns outside the allow-list, and those of absent properties, are not written. */
  lemma UntouchedColumns(data: seq<Field>, allow: AllowList)
    ensures forall c :: Unlisted(allow, c) ==> c !in Touched(data, allow)
    ensures forall k :: Lookup(allow, k).Some? && k !in KeysOf(data) ==> Lookup(allow, k).value !in Touched(data, allow)
  {
    forall k, i | Lookup(allow, k).Some? && k !in KeysOf(data) && 0 <= i < |data|
      ensures Lookup(allow, data[i].key) != Lookup(allow, k)
    {
      assert data[i].key in KeysOf(data);
      LookupInjective(allow, k, data[i].key);
    }
  }

  // ---------------------------------------------------------------------
  // Soft delete, inserts, lookups

  /**
   * `UPDATE t SET deleted_at = CURRENT_TIMESTAMP WHERE id = $1 RETURNING ...`:
   * the row stays, only its `deleted_at` changes.
   */
  function SoftDelete(t: Table, id: int, now: int): (u: Updated)
    ensures u.table.Keys == t.Keys
    ensures u.returned.Some? <==> id in t
    ensures forall k :: k in t && k != id ==> u.table[k] == t[k]
    ensures id in t ==>
      && u.returned == Some(Record(id, u.table[id]))
      && Col(u.table[id], DeletedAt) == Stamp(now) && !Active(u.table[id])
      && forall c :: c != DeletedAt ==> Col(u.table[id], c) == Col(t[id], c)
  {
    if id in t then
      var row := t[id][DeletedAt := Stamp(now)];
      Updated(t[id := row], Some(Record(id, row)))
    else Updated(t, None)
  }

  /** No two rows carry the same non-NULL value in column `c`. */
  predicate UniqueIn(t: Table, c: Column) {
    forall a, b :: a in t && b in t && a != b ==> !SqlEq(Col(t[a], c), Col(t[b], c))
  }

  /** `SELECT ... WHERE c = $1` finds a row. */
  predicate Taken(t: Table, c: Column, v: Value) {
    exists k :: k in t && SqlEq(Col(t[k], c), v)
  }

  /** Inserting after a duplicate check on `c` that found nothing keeps `c` unique. */
  lemma InsertKeepsUnique(t: Table, c: Column, id: int, row: Row)
    requires UniqueIn(t, c) && id !in t && !Taken(t, c, Col(row, c))
    ensures UniqueIn(t[id := row], c)
  {
    var t' := t[id := row];
    forall a, b | a in t' && b in t' && a != b ensures !SqlEq(Col(t'[a], c), Col(t'[b], c)) {
      if a == id {
        assert b in t && !SqlEq(Col(t[b], c), Col(row, c));
      } else if b == id {
        assert a in t && !SqlEq(Col(t[a], c), Col(row, c));
      }
    }
  }

  /** The rows of a table with the given ids, in that order. */
  function RecordsOf(t: Table, ids: seq<int>): (r: seq<Record>)
    requires forall i :: 0 <= i < |ids| ==> ids[i] in t
    ensures |r| == |ids|
    ensures forall i :: 0 <= i < |ids| ==> r[i] == Record(ids[i], t[ids[i]])
  {
    if ids == [] then [] else [Record(ids[0], t[ids[0]])] + RecordsOf(t, ids[1..])
  }

  /** The rows of `t` whose column `c` equals `v` (`WHERE c = $1`), by id. */
  function Where(t: Table, c: Column, v: Value): (r: Table)
    ensures forall k :: k in r <==> k in t && SqlEq(Col(t[k], c), v)
    ensures forall k :: k in r ==> r[k] == t[k]
  {
    map k | k in t && SqlEq(Col(t[k], c), v) :: t[k]
  }

  /**
   * `WHERE c = $1` bound to NULL finds no row, whatever the table holds;
   * bound to any other value it finds exactly the rows holding that value.
   */
  lemma WhereMatches(t: Table, c: Column, v: Value)
    ensures Where(t, c, Null) == map[]
    ensures v != Null ==> forall k :: k in Where(t, c, v) <==> k in t && Col(t[k], c) == v
  {
    assert forall k :: k !in Where(t, c, Null);
  }

  /** A link table read from its right-hand column: `Link(a, b)` becomes `Link(b, a)`. */
  function Flip(links: seq<Link>): (r: seq<Link>)
    ensures |r| == |links|
    ensures forall i :: 0 <= i < |links| ==> r[i] == Link(links[i].right, links[i].left)
  {
    if links == [] then [] else [Link(links[0].right, links[0].left)] + Flip(links[1..])
  }

  /** Link `l` joins `id` on its left to a row of `t` on its right. */
  predicate JoinsTo(l: Link, t: Table, id: int) {
    l.left == id && l.right in t
  }

  /** How many of `links` join `id` to a row of `t`. */
  function JoinCount(links: seq<Link>, t: Table, id: int): nat {
    if links == [] then 0
    else (if JoinsTo(links[0], t, id) then 1 else 0) + JoinCount(links[1..], t, id)
  }

  /**
   * `SELECT t.* FROM t JOIN links ON t.id = links.right WHERE links.left = id`:
   * one row per joining link, so a link stored twice yields its row twice;
   * the model lists them in link order.
   */
  function Joined(links: seq<Link>, t: Table, id: int): (r: seq<Record>)
    ensures |r| <= |links|
    ensures |r| == JoinCount(links, t, id)
    ensures forall x :: x in r <==>
      exists i :: 0 <= i < |links| && JoinsTo(links[i], t, id) && x == Record(links[i].right, t[links[i].right])
    ensures (forall i :: 0 <= i < |links| ==> !JoinsTo(links[i], t, id)) <==> r == []
  {
    if links == [] then []
    else
      var rest := Joined(links[1..], t, id);
      assert forall i :: 1 <= i < |links| ==> links[i] == links[1..][i - 1];
      assert forall i :: 0 <= i < |links| - 1 ==> links[1..][i] == links[i + 1];
      if JoinsTo(links[0], t, id) then [Record(links[0].right, t[links[0].right])] + rest else rest
  }
}
