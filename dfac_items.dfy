/**
 * `DfacItem` (models/dfacItem.js): linking items to dfacs, tagging items,
 * finding the items of a tag and updating a tag. Each operation is a
 * sequence of statements on the `dfac_items`, `tags` and `item_tags`
 * tables with no transaction around them, so a later failure leaves the
 * earlier writes in place.
 */
module DfacItems {
  import opened Relational
  import opened Store

  /** What `add` returns: the dfac and the item just linked. */
  datatype DfacItem = DfacItem(dfac: Record, item: Record)

  /** What `addTag` and `updateTag` return: the item and its tag. */
  datatype ItemTagged = ItemTagged(item: Record, tag: Record)

  /** No (dfac, item) pair is stored twice. */
  predicate NoRepeatedLinks(links: seq<Link>) {
    forall i, j :: 0 <= i < j < |links| ==> links[i] != links[j]
  }

  /** Appending a pair the duplicate check did not find keeps the pairs distinct. */
  lemma AppendNewLink(links: seq<Link>, l: Link)
    requires NoRepeatedLinks(links) && l !in links
    ensures NoRepeatedLinks(links + [l])
  {
    var s := links + [l];
    forall i, j | 0 <= i < j < |s| ensures s[i] != s[j] {
      if j == |links| {
        assert s[i] == links[i];
      } else {
        assert s[i] == links[i] && s[j] == links[j];
      }
    }
  }

  /**
   * `DfacItem.add`. When `dfac_items` already holds the pair, the error
   * message names the undefined `item`, so a ReferenceError is thrown and
   * nothing is written. Otherwise the pair is inserted first; only then is
   * a missing dfac or item reported (NotFound), and the pair stays. Neither
   * read filters deleted rows.
   */
  method Add(db: Db, dfacID: int, itemID: int) returns (r: Result<DfacItem>)
    requires db.Valid()
    modifies db`dfacItems
    ensures db.Valid()
    ensures Link(dfacID, itemID) in old(db.dfacItems) ==>
      r == Err(ReferenceError("item")) && db.dfacItems == old(db.dfacItems)
    ensures Link(dfacID, itemID) !in old(db.dfacItems) ==>
      && db.dfacItems == old(db.dfacItems) + [Link(dfacID, itemID)]
      && (r.Err? <==> dfacID !in db.dfacs || itemID !in db.items)
      && (r.Err? ==> r.error == NotFound)
      && (r.Ok? ==> r.value == DfacItem(Record(dfacID, db.dfacs[dfacID]), Record(itemID, db.items[itemID])))
    ensures NoRepeatedLinks(old(db.dfacItems)) ==> NoRepeatedLinks(db.dfacItems)
  {
    if Link(dfacID, itemID) in db.dfacItems {
      return Err(ReferenceError("item"));
    }
    if NoRepeatedLinks(db.dfacItems) {
      AppendNewLink(db.dfacItems, Link(dfacID, itemID));
    }
    db.dfacItems := db.dfacItems + [Link(dfacID, itemID)];
    if dfacID !in db.dfacs {
      return Err(NotFound);
    }
    if itemID !in db.items {
      return Err(NotFound);
    }
    r := Ok(DfacItem(Record(dfacID, db.dfacs[dfacID]), Record(itemID, db.items[itemID])));
  }

  /** The same pair added twice: the second call throws and stores nothing. */
  method AddTwice(db: Db, dfacID: int, itemID: int) returns (first: Result<DfacItem>, second: Result<DfacItem>)
    requires db.Valid()
    modifies db`dfacItems
    ensures db.Valid()
    ensures second == Err(ReferenceError("item"))
    ensures Link(dfacID, itemID) in db.dfacItems
    ensures |db.dfacItems| <= |old(db.dfacItems)| + 1
  {
    first := Add(db, dfacID, itemID);
    second := Add(db, dfacID, itemID);
  }

  // ---------------------------------------------------------------------
  // Tags

  /** The tag columns, in the order of the `jsToSql` object of `addTag` and `updateTag`. */
  const TagColumns: seq<Column> := [Dietary, Allergen, Promotional, Descriptive, Availability, ImgPic]

  /** The property each tag column is renamed from; "" for the other columns. */
  function TagKey(c: Column): Key {
    match c
    case Dietary => "dietary"
    case Allergen => "allergen"
    case Promotional => "promo"
    case Descriptive => "descriptive"
    case Availability => "availability"
    case ImgPic => "tagPic"
    case _ => ""
  }

  const TagAllow: AllowList := Listed(TagColumns, TagKey)

  /** Every listed column has a property of its own. */
  lemma TagKeysNamed()
    ensures forall i :: 0 <= i < |TagColumns| ==> TagKey(TagColumns[i]) != ""
  {
  }

  /**
   * `INSERT INTO t <columns> VALUES ($p1, ..., $pn)`: column i takes the
   * parameter numbered placeholders[i]. With `columnList` the columns are
   * written `(c1, ..., cn)`; without it they are written as the helper's SET
   * text `c1=$1, ..., cn=$n`, the form the UPDATE statements splice after
   * `SET`, which is not INSERT syntax.
   */
  datatype InsertStmt = InsertStmt(columnList: bool, cols: seq<Column>, placeholders: seq<nat>)

  /** `$1, ..., $n`, one placeholder per value, numbered from 1 in the order of the values. */
  function Placeholders(n: nat): (p: seq<nat>)
    ensures |p| == n
    ensures forall i :: 0 <= i < n ==> p[i] == i + 1
  {
    if n == 0 then [] else Placeholders(n - 1) + [n]
  }

  /** The highest placeholder number: how many parameters the statement takes. */
  function Highest(p: seq<nat>): (h: nat)
    ensures forall i :: 0 <= i < |p| ==> p[i] <= h
    ensures p == [] ==> h == 0
    ensures p != [] ==> exists i :: 0 <= i < |p| && p[i] == h
  {
    if p == [] then 0
    else
      var h := Highest(p[1..]);
      assert forall i :: 1 <= i < |p| ==> p[i] == p[1..][i - 1];
      if p[0] >= h then p[0] else h
  }

  /**
   * A statement the server accepts: a parenthesised column list, one
   * placeholder per column, all numbered from 1, no column twice.
   */
  predicate InsertParses(s: InsertStmt) {
    && s.columnList
    && |s.cols| == |s.placeholders| > 0
    && (forall i :: 0 <= i < |s.placeholders| ==> s.placeholders[i] >= 1)
    && (forall i, j :: 0 <= i < j < |s.cols| ==> s.cols[i] != s.cols[j])
  }

  /** The row of `cols[i] := params[placeholders[i] - 1]`; every other column is NULL. */
  function Bind(cols: seq<Column>, placeholders: seq<nat>, params: seq<Value>): (r: Row)
    requires |cols| == |placeholders|
    requires forall i :: 0 <= i < |placeholders| ==> 1 <= placeholders[i] <= |params|
    requires forall i, j :: 0 <= i < j < |cols| ==> cols[i] != cols[j]
    ensures forall c :: c in r <==> c in cols
    ensures forall i :: 0 <= i < |cols| ==> r[cols[i]] == params[placeholders[i] - 1]
  {
    if cols == [] then map[]
    else
      var rest := Bind(cols[1..], placeholders[1..], params);
      assert forall i :: 1 <= i < |cols| ==> cols[i] == cols[1..][i - 1] && placeholders[i] == placeholders[1..][i - 1];
      rest[cols[0] := params[placeholders[0] - 1]]
  }

  /**
   * Runs an INSERT: a statement that does not parse, or a parameter list
   * whose length is not the highest placeholder number, is rejected;
   * otherwise the bound row.
   */
  function ExecInsert(s: InsertStmt, params: seq<Value>): (r: Result<Row>)
    ensures r.Err? <==> !InsertParses(s) || |params| != Highest(s.placeholders)
    ensures r.Err? ==> r.error == QueryError
    ensures r.Ok? ==> forall c :: c in r.value <==> c in s.cols
    ensures r.Ok? ==> forall i :: 0 <= i < |s.cols| ==> r.value[s.cols[i]] == params[s.placeholders[i] - 1]
  {
    if !InsertParses(s) || |params| != Highest(s.placeholders) then Err(QueryError)
    else Ok(Bind(s.cols, s.placeholders, params))
  }

  /** The INSERT `addTag` evidently means: the helper's columns as a column list, and `$1..$n` for its values. */
  function InsertOf(data: seq<Field>, allow: AllowList): InsertStmt {
    var u := SqlForPartialUpdate(data, allow);
    InsertStmt(true, u.setCols, Placeholders(|u.values|))
  }

  /**
   * The INSERT `addTag` sends: the same columns and placeholders, but the
   * columns spelled as the helper's SET text.
   */
  function InsertAsWritten(data: seq<Field>, allow: AllowList): (s: InsertStmt)
    ensures s == InsertOf(data, allow).(columnList := false)
  {
    var u := SqlForPartialUpdate(data, allow);
    InsertStmt(false, u.setCols, Placeholders(|u.values|))
  }

  /**
   * The INSERT as sent is refused, whatever the data, although the intended
   * one binds: the only difference is the spelling of the columns.
   */
  lemma InsertAsWrittenRejected(data: seq<Field>, allow: AllowList)
    requires Admissible(data, allow)
    ensures ExecInsert(InsertAsWritten(data, allow), SqlForPartialUpdate(data, allow).values) == Err(QueryError)
    ensures ExecInsert(InsertOf(data, allow), SqlForPartialUpdate(data, allow).values).Ok?
  {
    InsertBinds(data, allow);
  }

  /** `$1..$n` takes exactly n parameters. */
  lemma HighestPlaceholder(n: nat)
    requires n > 0
    ensures Highest(Placeholders(n)) == n
  {
    var p := Placeholders(n);
    assert p[n - 1] == n;
  }

  /** Distinct properties, all allow-listed, give distinct columns. */
  lemma ColumnsDistinct(data: seq<Field>, allow: AllowList)
    requires Admissible(data, allow)
    ensures var cols := SqlForPartialUpdate(data, allow).setCols;
      forall i, j :: 0 <= i < j < |cols| ==> cols[i] != cols[j]
  {
    AllAllowed(data, allow);
    var cols := SqlForPartialUpdate(data, allow).setCols;
    forall i, j | 0 <= i < j < |cols| ensures cols[i] != cols[j] {
      LookupInjective(allow, data[i].key, data[j].key);
    }
  }

  /** The built INSERT always parses and binds: one column and one value per given property. */
  lemma InsertBinds(data: seq<Field>, allow: AllowList)
    requires Admissible(data, allow)
    ensures ExecInsert(InsertOf(data, allow), SqlForPartialUpdate(data, allow).values).Ok?
  {
    AllAllowed(data, allow);
    ColumnsDistinct(data, allow);
    HighestPlaceholder(|data|);
  }

  /** The row the built INSERT writes: each given property in its column. */
  function InsertedRow(data: seq<Field>, allow: AllowList): (r: Row)
    requires Admissible(data, allow)
    ensures forall i :: 0 <= i < |data| ==> Col(r, Lookup(allow, data[i].key).value) == data[i].value
  {
    InsertBinds(data, allow);
    AllAllowed(data, allow);
    ExecInsert(InsertOf(data, allow), SqlForPartialUpdate(data, allow).values).value
  }

  /** A column no given property names is not in the helper's column list. */
  lemma NotAmongColumns(data: seq<Field>, allow: AllowList, c: Column)
    requires Admissible(data, allow)
    requires forall i :: 0 <= i < |data| ==> Lookup(allow, data[i].key) != Some(c)
    ensures c !in SqlForPartialUpdate(data, allow).setCols
  {
    AllAllowed(data, allow);
    var cols := SqlForPartialUpdate(data, allow).setCols;
    assert forall i :: 0 <= i < |cols| ==> cols[i] != c;
  }

  /** Every column of the inserted row that no given property names is NULL. */
  lemma InsertedRowOnlyGiven(data: seq<Field>, allow: AllowList, c: Column)
    requires Admissible(data, allow)
    requires forall i :: 0 <= i < |data| ==> Lookup(allow, data[i].key) != Some(c)
    ensures Col(InsertedRow(data, allow), c) == Null
  {
    InsertBinds(data, allow);
    NotAmongColumns(data, allow, c);
  }

  /** The row the intended INSERT of `addTag` writes into `tags`. */
  function TagRow(data: seq<Field>): Row
    requires Admissible(data, TagAllow)
  {
    InsertedRow(data, TagAllow)
  }

  /** The writes `addTag` means to make: the tag row, then its `item_tags` link. */
  method InsertTagged(db: Db, itemID: int, data: seq<Field>) returns (tagID: int)
    requires db.Valid() && Admissible(data, TagAllow)
    modifies db`tags, db`tagSeq, db`itemTags
    ensures db.Valid()
    ensures tagID == old(db.tagSeq) && tagID >= 1 && tagID !in old(db.tags)
    ensures db.tags == old(db.tags)[tagID := TagRow(data)] && db.tagSeq == tagID + 1
    ensures db.itemTags == old(db.itemTags) + [Link(itemID, tagID)]
  {
    tagID := db.InsertTag(TagRow(data));
    db.itemTags := db.itemTags + [Link(itemID, tagID)];
  }

  /**
   * `DfacItem.addTag` as written. A missing item is reported by calling
   * `NotFoundError` without `new`, a TypeError, before anything is written.
   * Otherwise the INSERT into `tags` splices the helper's SET text where its
   * column list belongs and is refused, so nothing is written and neither
   * the `item_tags` insert nor the final read of the item is reached.
   */
  method AddTag(db: Db, itemID: int, data: seq<Field>) returns (r: Result<ItemTagged>)
    requires db.Valid() && Admissible(data, TagAllow)
    ensures r == (if itemID !in db.items then Err(TypeError) else Err(QueryError))
  {
    if itemID !in db.items {
      return Err(TypeError);
    }
    InsertAsWrittenRejected(data, TagAllow);
    var inserted := ExecInsert(InsertAsWritten(data, TagAllow), SqlForPartialUpdate(data, TagAllow).values);
    r := Err(inserted.error);
  }

  /**
   * `addTag` with a column list in its INSERT and the item read back by
   * `id`: the tag is inserted (its id is at least 1, so the `!tagID` check
   * never fires) and linked to the item, and the item comes back with its
   * new tag.
   */
  method AddTagFixed(db: Db, itemID: int, data: seq<Field>) returns (r: Result<ItemTagged>)
    requires db.Valid() && Admissible(data, TagAllow)
    modifies db`tags, db`tagSeq, db`itemTags
    ensures db.Valid()
    ensures itemID !in old(db.items) ==>
      && r == Err(TypeError)
      && db.tags == old(db.tags) && db.tagSeq == old(db.tagSeq) && db.itemTags == old(db.itemTags)
    ensures itemID in old(db.items) ==>
      var tagID := old(db.tagSeq);
      && db.tags == old(db.tags)[tagID := TagRow(data)] && db.tagSeq == tagID + 1
      && db.itemTags == old(db.itemTags) + [Link(itemID, tagID)]
      && r == Ok(ItemTagged(Record(itemID, db.items[itemID]), Record(tagID, TagRow(data))))
  {
    if itemID !in db.items {
      return Err(TypeError);
    }
    var tagID := InsertTagged(db, itemID, data);
    r := Ok(ItemTagged(Record(itemID, db.items[itemID]), Record(tagID, db.tags[tagID])));
  }

  // ---------------------------------------------------------------------
  // findItemsByTag

  /** One entry of `findItemsByTag`: an item and the tag it was found by. */
  datatype TaggedItem = TaggedItem(item: Record, tags: Record)

  /** Each record paired with the same tag, in order. */
  function PairWith(records: seq<Record>, tag: Record): (r: seq<TaggedItem>)
    ensures |r| == |records|
    ensures forall i :: 0 <= i < |r| ==> r[i] == TaggedItem(records[i], tag)
    ensures forall x :: x in r ==> x.item in records && x.tags == tag
  {
    if records == [] then [] else [TaggedItem(records[0], tag)] + PairWith(records[1..], tag)
  }

  /**
   * `tagRes.rows[0]` of the tags whose `descriptive` equals the
   * description: none when there is no such tag; the model takes the least
   * id, an order SQL leaves open.
   */
  function PickedTag(tags: Table, tagSeq: int, description: Value): (r: Option<Record>)
    requires Serial(tags, tagSeq)
    ensures r.None? <==> forall t :: t in tags ==> !SqlEq(Col(tags[t], Descriptive), description)
    ensures r.Some? ==> r.value.id in tags && r.value.row == tags[r.value.id]
    ensures r.Some? ==> SqlEq(Col(r.value.row, Descriptive), description)
    ensures r.Some? ==> forall t :: t in tags && SqlEq(Col(tags[t], Descriptive), description) ==> r.value.id <= t
  {
    var first := FirstWhere(tags, tagSeq, Descriptive, description);
    if first.None? then None else Some(Record(first.value, tags[first.value]))
  }

  /**
   * `SELECT i.* FROM items i JOIN item_tags it ON i.id = it.item_id WHERE
   * it.tag_id = $1`: one item per link to the tag, in link order.
   */
  function ItemsOfTag(itemTags: seq<Link>, items: Table, tagID: int): (r: seq<Record>)
    ensures forall x :: x in r <==>
      exists i :: 0 <= i < |itemTags| && itemTags[i].right == tagID && itemTags[i].left in items &&
        x == Record(itemTags[i].left, items[itemTags[i].left])
  {
    assert forall i :: 0 <= i < |itemTags| ==> Flip(itemTags)[i] == Link(itemTags[i].right, itemTags[i].left);
    Joined(Flip(itemTags), items, tagID)
  }

  /**
   * `DfacItem.findItemsByTag`: NotFound when no tag's `descriptive` equals
   * the description. Otherwise only the first such tag is used, and every
   * item an `item_tags` row links to it comes back paired with that tag,
   * once per link.
   */
  function FindItemsByTag(tags: Table, tagSeq: int, itemTags: seq<Link>, items: Table, description: Value)
    : (r: Result<seq<TaggedItem>>)
    requires Serial(tags, tagSeq)
    ensures r.Err? <==> forall t :: t in tags ==> !SqlEq(Col(tags[t], Descriptive), description)
    ensures r.Err? ==> r.error == NotFound
    ensures r.Ok? ==> forall x :: x in r.value ==> Some(x.tags) == PickedTag(tags, tagSeq, description)
    ensures r.Ok? ==> forall x :: x in r.value ==>
      exists i :: 0 <= i < |itemTags| && itemTags[i].right == x.tags.id && itemTags[i].left in items &&
        x.item == Record(itemTags[i].left, items[itemTags[i].left])
  {
    var tag := PickedTag(tags, tagSeq, description);
    if tag.None? then Err(NotFound)
    else Ok(PairWith(ItemsOfTag(itemTags, items, tag.value.id), tag.value))
  }

  /**
   * Every item linked to the tag `findItemsByTag` picks is listed: the
   * converse of its last postcondition.
   */
  lemma FindItemsByTagComplete(tags: Table, tagSeq: int, itemTags: seq<Link>, items: Table, description: Value, i: int)
    requires Serial(tags, tagSeq)
    requires 0 <= i < |itemTags| && itemTags[i].left in items
    requires PickedTag(tags, tagSeq, description).Some?
    requires itemTags[i].right == PickedTag(tags, tagSeq, description).value.id
    ensures var r := FindItemsByTag(tags, tagSeq, itemTags, items, description);
      r.Ok? && TaggedItem(Record(itemTags[i].left, items[itemTags[i].left]), PickedTag(tags, tagSeq, description).value) in r.value
  {
    var tag := PickedTag(tags, tagSeq, description).value;
    var found := ItemsOfTag(itemTags, items, tag.id);
    var rec := Record(itemTags[i].left, items[itemTags[i].left]);
    assert rec in found;
    var k :| 0 <= k < |found| && found[k] == rec;
    assert PairWith(found, tag)[k] == TaggedItem(rec, tag);
  }

  /**
   * A tag `AddTagFixed` writes under the next id, when no earlier tag has its
   * description, is the one `findItemsByTag` picks, and the item it was
   * added to comes back with it.
   */
  lemma AddedTagFindsItem(tags: Table, tagSeq: int, itemTags: seq<Link>, items: Table, itemID: int, row: Row, description: Value)
    requires Serial(tags, tagSeq) && itemID in items
    requires SqlEq(Col(row, Descriptive), description)
    requires forall t :: t in tags ==> !SqlEq(Col(tags[t], Descriptive), description)
    ensures var r := FindItemsByTag(tags[tagSeq := row], tagSeq + 1, itemTags + [Link(itemID, tagSeq)], items, description);
      r.Ok? && TaggedItem(Record(itemID, items[itemID]), Record(tagSeq, row)) in r.value
  {
    var tags' := tags[tagSeq := row];
    var links := itemTags + [Link(itemID, tagSeq)];
    assert Serial(tags', tagSeq + 1);
    assert forall k :: k in tags' && k != tagSeq ==> !SqlEq(Col(tags'[k], Descriptive), description);
    var p := PickedTag(tags', tagSeq + 1, description);
    assert tagSeq in tags' && SqlEq(Col(tags'[tagSeq], Descriptive), description);
    assert p.Some? && p.value.id in tags' && SqlEq(Col(tags'[p.value.id], Descriptive), description);
    assert p.value == Record(tagSeq, row);
    assert links[|itemTags|] == Link(itemID, tagSeq);
    FindItemsByTagComplete(tags', tagSeq + 1, links, items, description, |itemTags|);
  }

  // ---------------------------------------------------------------------
  // updateTag

  /**
   * The update statement of `updateTag` as written: `WHERE id = $(n+1)` on
   * `tags`, no `updated_at`, and `itemID` bound last, so the tag whose id is
   * the item's id is the one it changes.
   */
  function TagUpdate(tags: Table, boundID: int, data: seq<Field>): (e: Updated)
    requires Admissible(data, TagAllow)
  {
    UpdateByIdEffect(tags, TagAllow, false, boundID, data, 0);
    UpdateById(tags, TagAllow, false, boundID, data, 0).value
  }

  /**
   * The update by id writes the given properties into the tag with that
   * id, keeps its other columns and every other tag, and returns a row
   * exactly when the tag exists.
   */
  lemma TagUpdateEffect(tags: Table, boundID: int, data: seq<Field>)
    requires Admissible(data, TagAllow)
    ensures var e := TagUpdate(tags, boundID, data);
      && e.table.Keys == tags.Keys
      && (e.returned.Some? <==> boundID in tags)
      && (forall k :: k in tags && k != boundID ==> e.table[k] == tags[k])
      && (boundID in tags ==>
            && e.returned == Some(Record(boundID, e.table[boundID]))
            && (forall i :: 0 <= i < |data| ==> Col(e.table[boundID], Lookup(TagAllow, data[i].key).value) == data[i].value)
            && (forall c :: c in {Id, CreatedAt, DeletedAt} ==> Col(e.table[boundID], c) == Col(tags[boundID], c)))
  {
    UpdateByIdEffect(tags, TagAllow, false, boundID, data, 0);
    TagKeysNamed();
    NotListedByKey(TagAllow, Id);
    NotListedByKey(TagAllow, CreatedAt);
    NotListedByKey(TagAllow, DeletedAt);
  }

  /**
   * As written, `updateTag(itemID, tagID, data)` with distinct ids never
   * changes the tag it names: the tag with id `itemID` takes the data.
   */
  lemma UpdateTagMissesTag(tags: Table, itemID: int, tagID: int, data: seq<Field>)
    requires Admissible(data, TagAllow)
    requires tagID in tags && itemID != tagID
    ensures TagUpdate(tags, itemID, data).table[tagID] == tags[tagID]
  {
    TagUpdateEffect(tags, itemID, data);
  }

  /** Runs the tag update and hands back `rows[0]` (None for `undefined`). */
  method RunTagUpdate(db: Db, boundID: int, data: seq<Field>) returns (returned: Option<Record>)
    requires db.Valid() && Admissible(data, TagAllow)
    modifies db`tags
    ensures db.Valid()
    ensures db.tags == TagUpdate(old(db.tags), boundID, data).table
    ensures returned == TagUpdate(old(db.tags), boundID, data).returned
  {
    var e := TagUpdate(db.tags, boundID, data);
    TagUpdateEffect(db.tags, boundID, data);
    db.tags := e.table;
    returned := e.returned;
  }

  /**
   * `DfacItem.updateTag` as written. A missing item, then a missing tag, is
   * reported by calling `NotFoundError` without `new` (a TypeError). The
   * update binds `itemID`: BadRequest when no tag has that id (nothing is
   * written); otherwise that tag is updated and the final read of the item
   * by `item_id` fails.
   */
  method UpdateTag(db: Db, itemID: int, tagID: int, data: seq<Field>) returns (r: Result<ItemTagged>)
    requires db.Valid() && Admissible(data, TagAllow)
    modifies db`tags
    ensures db.Valid()
    ensures itemID !in old(db.items) || tagID !in old(db.tags) ==>
      r == Err(TypeError) && db.tags == old(db.tags)
    ensures itemID in old(db.items) && tagID in old(db.tags) ==>
      && db.tags == TagUpdate(old(db.tags), itemID, data).table
      && r == (if itemID in old(db.tags) then Err(QueryError) else Err(BadRequest))
  {
    if itemID !in db.items {
      return Err(TypeError);
    }
    if tagID !in db.tags {
      return Err(TypeError);
    }
    var tag := RunTagUpdate(db, itemID, data);
    if tag.None? {
      return Err(BadRequest);
    }
    r := Err(QueryError);
  }

  /**
   * `updateTag` binding `tagID` and reading the item by `id`: the named tag
   * takes the data and comes back with the item.
   */
  method UpdateTagFixed(db: Db, itemID: int, tagID: int, data: seq<Field>) returns (r: Result<ItemTagged>)
    requires db.Valid() && Admissible(data, TagAllow)
    modifies db`tags
    ensures db.Valid()
    ensures itemID !in old(db.items) || tagID !in old(db.tags) ==>
      r == Err(TypeError) && db.tags == old(db.tags)
    ensures itemID in old(db.items) && tagID in old(db.tags) ==>
      && db.tags == TagUpdate(old(db.tags), tagID, data).table
      && r == Ok(ItemTagged(Record(itemID, db.items[itemID]), Record(tagID, db.tags[tagID])))
  {
    if itemID !in db.items {
      return Err(TypeError);
    }
    if tagID !in db.tags {
      return Err(TypeError);
    }
    var tag := RunTagUpdate(db, tagID, data);
    r := Ok(ItemTagged(Record(itemID, db.items[itemID]), Record(tagID, db.tags[tagID])));
  }
}
