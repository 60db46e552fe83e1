/** What the catalog's lookups say about each other: databases partition the tables,
    schemas split a database, and the two sides of a foreign key list the same rows. */
module Ownership {
  import opened Bytes
  import opened MetaPage
  import opened StorageEngine
  import opened Namespaces
  import L = Lists
  import opened Scans
  import opened Reader
  import Fk = ForeignKeys

  // ---------------------------------------------------------------------------
  // Tables and databases

  /** The owning database of a table whose owner can be read. */
  function OwnerKey(c: Catalog): TableDef -> bytes {
    (t: TableDef) => var owner := EffectiveDatabase(c, t.id); if owner.Ok? then owner.value else []
  }

  function SchemaOf(): TableDef -> bytes {
    (t: TableDef) => t.schemaName
  }

  function Named(name: Option<bytes>): TableDef -> bool {
    (t: TableDef) => name.None? || t.tableName == name.value
  }

  ghost predicate OwnersKnown(c: Catalog, rows: seq<bytes>) {
    forall i :: 0 <= i < |rows| ==> c.codecs.table(rows[i]).Ok? && EffectiveDatabase(c, c.codecs.table(rows[i]).value.id).Ok?
  }

  /** Listing a database succeeds exactly when every table row decodes and has a
      readable owner, whichever database is asked for. */
  lemma {:induction false} OwnedMeans(c: Catalog, rows: seq<bytes>, db: bytes)
    ensures OwnedAmong(c, rows, db, None).Ok? <==> OwnersKnown(c, rows)
    ensures OwnersKnown(c, rows) ==>
              OwnedAmong(c, rows, db, None) == Ok(L.Filter(L.HasKey(OwnerKey(c), db), Decodable(c.codecs.table, rows)))
  {
    hide EffectiveDatabase, L.Filter;
    if rows == [] {
      NothingOwned(c, db);
    } else {
      var init, last := rows[..|rows| - 1], rows[|rows| - 1];
      assert rows == init + [last];
      OwnedMeans(c, init, db);
      var t := c.codecs.table(last);
      assert OwnersKnown(c, rows) <==> OwnersKnown(c, init) && t.Ok? && EffectiveDatabase(c, t.value.id).Ok?;
      if t.Ok? {
        L.FilterStep(L.HasKey(OwnerKey(c), db), Decodable(c.codecs.table, init), t.value);
      }
    }
  }

  lemma {:induction false} NothingOwned(c: Catalog, db: bytes)
    ensures L.Filter(L.HasKey(OwnerKey(c), db), []) == []
  {
  }

  /** One schema of a database is that database's list, filtered. */
  lemma {:induction false} SchemaSplits(c: Catalog, rows: seq<bytes>, db: bytes, schema: bytes)
    requires OwnersKnown(c, rows)
    ensures var owned := OwnedAmong(c, rows, db, None);
            owned.Ok? && OwnedAmong(c, rows, db, Some(schema)) == Ok(L.Filter(L.HasKey(SchemaOf(), schema), owned.value))
  {
    OwnedMeans(c, rows, db);
    if rows != [] {
      hide EffectiveDatabase, L.Filter, OwnersKnown, Decodable, OwnerKey, L.HasKey;
      var init, last := rows[..|rows| - 1], rows[|rows| - 1];
      assert OwnersKnown(c, init) && c.codecs.table(last).Ok? by {
        FirstKnown(c, rows);
      }
      SchemaSplits(c, init, db, schema);
      var t := c.codecs.table(last).value;
      L.FilterStep(L.HasKey(SchemaOf(), schema), OwnedAmong(c, init, db, None).value, t);
      assert L.HasKey(SchemaOf(), schema)(t) == (t.schemaName == schema) by {
        KeyOfSchema(t, schema);
      }
    }
  }

  lemma {:induction false} KeyOfSchema(t: TableDef, schema: bytes)
    ensures L.HasKey(SchemaOf(), schema)(t) == (t.schemaName == schema)
  {
  }

  lemma {:induction false} FirstKnown(c: Catalog, rows: seq<bytes>)
    requires rows != [] && OwnersKnown(c, rows)
    ensures OwnersKnown(c, rows[..|rows| - 1]) && OwnersKnown(c, rows[1..])
    ensures c.codecs.table(rows[|rows| - 1]).Ok? && c.codecs.table(rows[0]).Ok?
    ensures EffectiveDatabase(c, c.codecs.table(rows[|rows| - 1]).value.id).Ok?
    ensures EffectiveDatabase(c, c.codecs.table(rows[0]).value.id).Ok?
  {
    hide EffectiveDatabase;
  }

  /** A name lookup is the first entry with that name in the schema's list. */
  lemma {:induction false} TableIsFirstListed(c: Catalog, rows: seq<bytes>, db: bytes, schema: bytes, name: Option<bytes>)
    requires OwnersKnown(c, rows)
    ensures var owned := OwnedAmong(c, rows, db, Some(schema));
            owned.Ok? && TableAmong(c, rows, db, schema, name) == Ok(L.FirstOf(Named(name), owned.value))
  {
    SchemaSplits(c, rows, db, schema);
    if rows != [] {
      FirstKnown(c, rows);
      TableIsFirstListed(c, rows[1..], db, schema, name);
      OwnedHead(c, rows, db, schema);
      var xs := OwnedAmong(c, rows, db, Some(schema)).value;
      var ys := OwnedAmong(c, rows[1..], db, Some(schema)).value;
      assert xs == ys || (xs != [] && xs[1..] == ys);
    }
  }

  lemma {:induction false} OwnedHead(c: Catalog, rows: seq<bytes>, db: bytes, schema: bytes)
    requires rows != [] && OwnersKnown(c, rows)
    ensures var owned, rest := OwnedAmong(c, rows, db, Some(schema)), OwnedAmong(c, rows[1..], db, Some(schema));
            var t := c.codecs.table(rows[0]);
            && owned.Ok? && rest.Ok? && t.Ok?
            && owned.value == (if t.value.schemaName == schema && EffectiveDatabase(c, t.value.id) == Ok(db) then [t.value] else []) + rest.value
  {
    hide EffectiveDatabase;
    FirstKnown(c, rows);
    SchemaSplits(c, rows, db, schema);
    SchemaSplits(c, rows[1..], db, schema);
    var init := rows[..|rows| - 1];
    if init == [] {
      assert rows[1..] == [];
    } else {
      FirstKnown(c, init);
      OwnedHead(c, init, db, schema);
      assert rows[1..][..|rows| - 2] == init[1..];
    }
  }

  /** The databases' lists one after the other. */
  function Listed(c: Catalog, dbs: seq<bytes>): (r: Result<seq<TableDef>, DbError>) {
    if dbs == [] then Ok([])
    else
      var first := OwnedTables(c, dbs[0], None);
      if first.Err? then first
      else
        var rest := Listed(c, dbs[1..]);
        if rest.Err? then rest else Ok(first.value + rest.value)
  }

  /** Databases partition the tables: listing distinct databases one by one gives every
      visible table exactly once if and only if every owner is among them. */
  lemma {:induction false} DatabasesPartitionTables(c: Catalog, dbs: seq<bytes>)
    requires L.Distinct(dbs)
    requires Rows(c, Tables).Ok? && OwnersKnown(c, Rows(c, Tables).value)
    ensures var all := Decodable(c.codecs.table, Rows(c, Tables).value);
            && Listed(c, dbs).Ok?
            && (multiset(Listed(c, dbs).value) == multiset(all) <==> forall t :: t in all ==> OwnerKey(c)(t) in dbs)
  {
    hide OwnersKnown, EffectiveDatabase, Decodable;
    var all := Decodable(c.codecs.table, Rows(c, Tables).value);
    ListedIsGrouped(c, dbs);
    L.GroupedIsPermutation(OwnerKey(c), dbs, all);
  }

  /** A table is listed under the database its binding names and under no other. */
  lemma {:induction false} OneOwner(c: Catalog, db: bytes, t: TableDef)
    requires OwnedTables(c, db, None).Ok?
    ensures t in OwnedTables(c, db, None).value
       <==> t in Decodable(c.codecs.table, Rows(c, Tables).value) && EffectiveDatabase(c, t.id) == Ok(db)
  {
    hide EffectiveDatabase, Decodable;
    var rows := Rows(c, Tables).value;
    OwnedMeans(c, rows, db);
    L.FilterMembers(L.HasKey(OwnerKey(c), db), Decodable(c.codecs.table, rows));
    OwnersOfDecoded(c, rows);
  }

  lemma {:induction false} OwnersOfDecoded(c: Catalog, rows: seq<bytes>)
    requires OwnersKnown(c, rows)
    ensures forall t :: t in Decodable(c.codecs.table, rows) ==> EffectiveDatabase(c, t.id).Ok?
  {
    hide EffectiveDatabase;
    if rows != [] {
      OwnersOfDecoded(c, rows[..|rows| - 1]);
      assert c.codecs.table(rows[|rows| - 1]).Ok?;
    }
  }

  lemma {:induction false} OwnedIsFiltered(c: Catalog, db: bytes)
    requires Rows(c, Tables).Ok? && OwnersKnown(c, Rows(c, Tables).value)
    ensures OwnedTables(c, db, None) == Ok(L.Filter(L.HasKey(OwnerKey(c), db), Decodable(c.codecs.table, Rows(c, Tables).value)))
  {
    OwnedMeans(c, Rows(c, Tables).value, db);
  }

  lemma {:induction false} ListedIsGrouped(c: Catalog, dbs: seq<bytes>)
    requires Rows(c, Tables).Ok? && OwnersKnown(c, Rows(c, Tables).value)
    ensures Listed(c, dbs) == Ok(L.Grouped(OwnerKey(c), dbs, Decodable(c.codecs.table, Rows(c, Tables).value)))
    ensures forall d :: d in dbs ==> OwnedTables(c, d, None).Ok?
  {
    hide OwnersKnown, OwnedTables, Decodable, L.Filter;
    if dbs != [] {
      OwnedIsFiltered(c, dbs[0]);
      ListedIsGrouped(c, dbs[1..]);
      assert dbs == [dbs[0]] + dbs[1..];
    }
  }

  /** A database's tables, schema by schema, are its tables exactly when the schemas
      asked for cover them; and a lookup by name is the first listed. */
  lemma {:induction false} SchemasPartitionDatabase(c: Catalog, db: bytes, schemas: seq<bytes>)
    requires L.Distinct(schemas)
    requires Rows(c, Tables).Ok? && OwnersKnown(c, Rows(c, Tables).value)
    ensures OwnedTables(c, db, None).Ok? && SchemaLists(c, db, schemas).Ok?
    ensures multiset(SchemaLists(c, db, schemas).value) == multiset(OwnedTables(c, db, None).value)
        <==> forall t :: t in OwnedTables(c, db, None).value ==> t.schemaName in schemas
  {
    hide OwnersKnown;
    OwnedMeans(c, Rows(c, Tables).value, db);
    SchemaListsAreGrouped(c, db, schemas);
    L.GroupedIsPermutation(SchemaOf(), schemas, OwnedTables(c, db, None).value);
  }

  function SchemaLists(c: Catalog, db: bytes, schemas: seq<bytes>): (r: Result<seq<TableDef>, DbError>) {
    if schemas == [] then Ok([])
    else
      var first := OwnedTables(c, db, Some(schemas[0]));
      if first.Err? then first
      else
        var rest := SchemaLists(c, db, schemas[1..]);
        if rest.Err? then rest else Ok(first.value + rest.value)
  }

  lemma {:induction false} SchemaListsAreGrouped(c: Catalog, db: bytes, schemas: seq<bytes>)
    requires Rows(c, Tables).Ok? && OwnersKnown(c, Rows(c, Tables).value)
    ensures OwnedTables(c, db, None).Ok?
    ensures SchemaLists(c, db, schemas) == Ok(L.Grouped(SchemaOf(), schemas, OwnedTables(c, db, None).value))
  {
    hide OwnersKnown, OwnedAmong, L.Filter;
    OwnedMeans(c, Rows(c, Tables).value, db);
    if schemas != [] {
      SchemaSplits(c, Rows(c, Tables).value, db, schemas[0]);
      SchemaListsAreGrouped(c, db, schemas[1..]);
    }
  }

  lemma {:induction false} SameFilter<T>(p: T -> bool, q: T -> bool, xs: seq<T>)
    requires forall x :: x in xs ==> p(x) == q(x)
    ensures L.Filter(p, xs) == L.Filter(q, xs)
  {
    if xs != [] {
      SameFilter(p, q, xs[..|xs| - 1]);
    }
  }

  /** The implicit schema test is the schema's list being non-empty. */
  lemma {:induction false} LookupIsFirstListed(c: Catalog, db: bytes, schema: bytes, name: Option<bytes>)
    requires Rows(c, Tables).Ok? && OwnersKnown(c, Rows(c, Tables).value)
    ensures OwnedTables(c, db, Some(schema)).Ok?
    ensures GetTable(c, db, schema, name) == Ok(L.FirstOf(Named(name), OwnedTables(c, db, Some(schema)).value))
    ensures GetTable(c, db, schema, None).Ok?
    ensures GetTable(c, db, schema, None).value.Some? <==> OwnedTables(c, db, Some(schema)).value != []
  {
    hide OwnersKnown;
    TableIsFirstListed(c, Rows(c, Tables).value, db, schema, name);
    TableIsFirstListed(c, Rows(c, Tables).value, db, schema, None);
    var owned := OwnedTables(c, db, Some(schema)).value;
    assert owned != [] ==> Named(None)(owned[0]);
  }

  // ---------------------------------------------------------------------------
  // Foreign keys

  function Fks(c: Catalog): Result<seq<Fk.FkDef>, DbError> {
    DecodableIn(c, ForeignKeys, DecodeFk)
  }

  function ListsOf(c: Catalog, side: Fk.FkDef -> u32, ids: seq<u32>): (r: Result<seq<Fk.FkDef>, DbError>) {
    if ids == [] then Ok([])
    else
      var first, rest := Selected(L.HasKey(side, ids[0]), Fks(c)), ListsOf(c, side, ids[1..]);
      if first.Err? then first else if rest.Err? then rest else Ok(first.value + rest.value)
  }

  /** Indexing by child and indexing by parent are dual: going through either side
      table by table finds every visible foreign key exactly once if and only if the
      tables cover that side, and the keys from `child` to `parent` read the same from
      both sides. */
  lemma {:induction false} SidesAreDual(c: Catalog, ids: seq<u32>, child: u32, parent: u32)
    requires Fks(c).Ok? && L.Distinct(ids)
    ensures ListsOf(c, ChildOf(), ids).Ok? && ListsOf(c, ParentOf(), ids).Ok?
    ensures multiset(ListsOf(c, ChildOf(), ids).value) == multiset(Fks(c).value)
        <==> forall f :: f in Fks(c).value ==> f.base.childTable in ids
    ensures multiset(ListsOf(c, ParentOf(), ids).value) == multiset(Fks(c).value)
        <==> forall f :: f in Fks(c).value ==> f.base.parentTable in ids
    ensures ListFks(c, child).Ok? && ListFksReferencing(c, parent).Ok?
    ensures L.Filter(L.HasKey(ParentOf(), parent), ListFks(c, child).value)
         == L.Filter(L.HasKey(ChildOf(), child), ListFksReferencing(c, parent).value)
  {
    hide Fks, L.Filter, L.Grouped;
    var all := Fks(c).value;
    SideIsGrouped(c, ChildOf(), ids);
    SideIsGrouped(c, ParentOf(), ids);
    L.GroupedIsPermutation(ChildOf(), ids, all);
    L.GroupedIsPermutation(ParentOf(), ids, all);
    BothSides(c, child, parent);
  }

  lemma {:induction false} SideIsGrouped(c: Catalog, side: Fk.FkDef -> u32, ids: seq<u32>)
    requires Fks(c).Ok?
    ensures ListsOf(c, side, ids) == Ok(L.Grouped(side, ids, Fks(c).value))
  {
    hide Fks, L.Filter;
    if ids != [] {
      SideIsGrouped(c, side, ids[1..]);
    }
  }

  lemma {:induction false} BothSides(c: Catalog, child: u32, parent: u32)
    requires Fks(c).Ok?
    ensures ListFks(c, child).Ok? && ListFksReferencing(c, parent).Ok?
    ensures L.Filter(L.HasKey(ParentOf(), parent), ListFks(c, child).value)
         == L.Filter(L.HasKey(ChildOf(), child), ListFksReferencing(c, parent).value)
  {
    hide DecodableIn, L.Filter;
    var p, q, all := L.HasKey(ChildOf(), child), L.HasKey(ParentOf(), parent), Fks(c).value;
    L.FilterTwice(p, q, all);
    L.FilterTwice(q, p, all);
    SameFilter(L.Both(p, q), L.Both(q, p), all);
  }

  /** A lookup by name is the first such entry of the child's list. */
  lemma {:induction false} FkByNameIsFirstListed(c: Catalog, id: u32, name: bytes)
    requires Fks(c).Ok?
    ensures ListFks(c, id).Ok? && GetFkByName(c, id, name).Ok?
    ensures var fks, f := ListFks(c, id).value, GetFkByName(c, id, name).value;
            && (f.None? ==> forall x :: x in fks ==> x.base.name != name)
            && (f.Some? ==> exists i :: && 0 <= i < |fks| && fks[i] == f.value && f.value.base.name == name
                                        && forall j :: 0 <= j < i ==> fks[j].base.name != name)
  {
    hide DecodableIn, L.Filter, L.FirstOf;
    var fks := ListFks(c, id).value;
    L.FirstOfFilter(L.HasKey(ChildOf(), id), FkNamed(name), Fks(c).value);
    if L.FirstOf(FkNamed(name), fks).Some? {
      L.FirstOfIsFirst(FkNamed(name), fks);
    }
  }

  // ---------------------------------------------------------------------------
  // Foreign table ids

  function ForeignTables'(c: Catalog): Result<seq<ForeignTableDef>, DbError> {
    ListIn(c, ForeignTables, c.codecs.foreignTable, AnyForeignTable())
  }

  lemma {:induction false} MaxIdIsMax(ts: seq<ForeignTableDef>)
    ensures MaxId(ts) >= FOREIGN_TABLE_ID_BASE
    ensures forall t :: t in ts ==> t.tableId <= MaxId(ts)
    ensures MaxId(ts) == FOREIGN_TABLE_ID_BASE || exists t :: t in ts && t.tableId == MaxId(ts)
  {
    if ts != [] {
      MaxIdIsMax(ts[..|ts| - 1]);
      assert ts == ts[..|ts| - 1] + [ts[|ts| - 1]];
    }
  }

  /** A catalog whose one foreign table has the largest 32-bit id: the next id is 0. */
  lemma {:induction false} LastIdWraps(row: bytes, snap: Snapshot, codecs: Codecs)
    requires Sees(snap, 1) && codecs.foreignTable(row).Ok? && codecs.foreignTable(row).value.tableId == 0xFFFF_FFFF
    ensures NextForeignTableId(Catalog(map[1 := [HeapRow(1, 0, row)]], map[ForeignTables := 1], snap, codecs)) == Ok(0)
  {
    hide Sees, IsVisible, Visible, All, MaxId;
    var r, t := HeapRow(1, 0, row), codecs.foreignTable(row).value;
    var c := Catalog(map[1 := [r]], map[ForeignTables := 1], snap, codecs);
    VisibleIff(r, snap);
    VisibleOne(r, snap);
    assert Rows(c, ForeignTables) == Ok([row]);
    OneListed(codecs.foreignTable, AnyForeignTable(), row, t);
    MaxIdIsMax([t]);
  }

  lemma {:induction false} OneListed<T>(dec: Decoder<T>, p: T -> bool, row: bytes, t: T)
    requires dec(row) == Ok(t) && p(t)
    ensures All(dec, p, [row]) == Ok([t])
  {
    var rows: seq<bytes> := [row];
    assert rows[..0] == [] && All(dec, p, rows[..0]) == Ok([]);
    assert [] + [t] == [t];
  }

  /** The largest of the reserved base and the ids in use. */
  ghost predicate Largest(ts: seq<ForeignTableDef>, m: nat) {
    && m >= 0x8000_0000 && (forall t :: t in ts ==> t.tableId <= m)
    && (m == 0x8000_0000 || exists t :: t in ts && t.tableId == m)
  }

  /** The next id is one more than the largest so far, wrapped to 32 bits. It lies in the
      reserved range and is unused exactly when the largest 32-bit id is not taken yet. */
  lemma {:induction false} NextForeignIdFresh(c: Catalog)
    requires ForeignTables'(c).Ok?
    ensures var r, ts := NextForeignTableId(c), ForeignTables'(c).value;
            && r.Ok?
            && (r.value > FOREIGN_TABLE_ID_BASE && (forall t :: t in ts ==> t.tableId < r.value)
                <==> forall t :: t in ts ==> t.tableId != 0xFFFF_FFFF)
    ensures var r, ts := NextForeignTableId(c), ForeignTables'(c).value;
            forall m: nat :: Largest(ts, m) ==> r == Ok((m + 1) % 0x1_0000_0000)
  {
    hide ListIn, MaxId;
    var ts := ForeignTables'(c).value;
    MaxIdIsMax(ts);
    assert Largest(ts, MaxId(ts));
    forall m: nat | Largest(ts, m) ensures m == MaxId(ts) {
    }
    if MaxId(ts) == 0xFFFF_FFFF {
      var t :| t in ts && t.tableId == MaxId(ts);
    }
  }
}
