/** Upgrading an old database file creates roots that lookups so far answered for by
    default. Which lookups can tell the difference, after any calls that succeeded
    or stopped half way? */
module Upgrade {
  import opened Bytes
  import opened MetaPage
  import opened StorageEngine
  import opened Namespaces
  import opened Bootstrap
  import opened Runs
  import L = Lists
  import opened Scans
  import opened Reader

  // ---------------------------------------------------------------------------
  // Rows before and after

  /** The slot's root was made without its seed. */
  ghost predicate SeedLost(s: Store, s': Store, t: Slot) {
    var p' := Root(s'.meta, t);
    Root(s.meta, t) == 0 && p' != 0 && p' in s'.heaps && s'.heaps[p'] == []
  }

  lemma {:induction false} RootsAre(s: Store, snap: Snapshot, codecs: Codecs, t: Slot)
    ensures RootIn(CatalogOf(s, snap, codecs), t) == Root(s.meta, t)
  {
    AllSlots(t);
  }

  /** A root that was there, or has no seed, reads the same rows. */
  lemma {:induction false} RowsAgree(s: Store, s': Store, snap: Snapshot, codecs: Codecs, t: Slot)
    requires Grown(s, s') && (t !in SEEDED || Root(s.meta, t) != 0)
    ensures Rows(CatalogOf(s', snap, codecs), t) == Rows(CatalogOf(s, snap, codecs), t)
  {
    hide Root, IsVisible;
    assert SlotGrown(s, s', t);
    RootsAre(s, snap, codecs, t);
    RootsAre(s', snap, codecs, t);
    assert t !in SEEDED ==> Seed(t) == [];
  }

  function SeedRow(t: Slot): bytes {
    if t == Databases then EncodeDatabase(DEFAULT_DATABASE_DEF) else EncodeSchema(PUBLIC_SCHEMA_DEF)
  }

  /** A new root with a seed reads its one row, or none if the seed was lost. */
  lemma {:induction false} SeedRows(s: Store, s': Store, snap: Snapshot, codecs: Codecs, t: Slot)
    requires Grown(s, s') && ValidSnapshot(snap)
    requires t in SEEDED && Root(s.meta, t) == 0 && Root(s'.meta, t) != 0
    ensures Rows(CatalogOf(s', snap, codecs), t) == Ok(if SeedLost(s, s', t) then [] else [SeedRow(t)])
  {
    hide Root, IsVisible, EncodeDatabase, EncodeSchema;
    assert SlotGrown(s, s', t);
    RootsAre(s', snap, codecs, t);
    var row := HeapRow(0, 0, SeedRow(t));
    assert Seed(t) == [row] && [row][..0] == [];
    SystemRowsVisible(row, snap);
    assert Visible([row], snap) == [row.data];
  }

  // ---------------------------------------------------------------------------
  // Lookups before and after

  /** Any lookup at all in one catalog table. */
  ghost predicate SameLookup<T>(c: Catalog, c': Catalog, t: Slot, dec: Decoder<T>, p: T -> bool) {
    && FindIn(c', t, dec, p) == FindIn(c, t, dec, p)
    && ListIn(c', t, dec, p) == ListIn(c, t, dec, p)
    && DecodableIn(c', t, dec) == DecodableIn(c, t, dec)
  }

  /** Every lookup in a catalog table without a seed row answers the same, whatever
      it decodes and selects. */
  lemma {:induction false} LookupsAgree<T>(s: Store, s': Store, snap: Snapshot, codecs: Codecs, t: Slot, dec: Decoder<T>, p: T -> bool)
    requires Grown(s, s') && t !in SEEDED
    ensures SameLookup(CatalogOf(s, snap, codecs), CatalogOf(s', snap, codecs), t, dec, p)
  {
    hide Grown, Rows;
    RowsAgree(s, s', snap, codecs, t);
  }

  /** Databases look the same exactly when the default database's row was not lost. */
  lemma {:induction false} DatabasesAgree(s: Store, s': Store, snap: Snapshot, codecs: Codecs)
    requires Grown(s, s') && ValidSnapshot(snap)
    ensures var c, c' := CatalogOf(s, snap, codecs), CatalogOf(s', snap, codecs);
            (ListDatabases(c') == ListDatabases(c) && forall name :: GetDatabase(c', name) == GetDatabase(c, name))
            <==> !SeedLost(s, s', Databases)
  {
    hide Grown, Rows, Root, DecodeDatabase, EncodeDatabase, DEFAULT_DATABASE;
    var c, c' := CatalogOf(s, snap, codecs), CatalogOf(s', snap, codecs);
    RootsAre(s, snap, codecs, Databases);
    RootsAre(s', snap, codecs, Databases);
    if Root(s.meta, Databases) != 0 {
      RowsAgree(s, s', snap, codecs, Databases);
      RootStays(s, s', Databases);
    } else if Root(s'.meta, Databases) != 0 {
      SeedRows(s, s', snap, codecs, Databases);
      SeedRowsDecode();
      if SeedLost(s, s', Databases) {
        assert GetDatabase(c', DEFAULT_DATABASE) == Ok(None);
        assert GetDatabase(c, DEFAULT_DATABASE) != GetDatabase(c', DEFAULT_DATABASE);
      } else {
        OneDatabase(c');
      }
    }
  }

  lemma {:induction false} RootStays(s: Store, s': Store, t: Slot)
    requires Grown(s, s') && Root(s.meta, t) != 0
    ensures Root(s'.meta, t) == Root(s.meta, t)
  {
    hide Root, Seed;
    assert SlotGrown(s, s', t);
  }

  /** What a table of one decodable row answers. */
  lemma {:induction false} OneRow<T>(dec: Decoder<T>, p: T -> bool, row: bytes, d: T)
    requires dec(row) == Ok(d)
    ensures All(dec, p, [row]) == Ok(if p(d) then [d] else [])
    ensures First(dec, p, [row]) == Ok(if p(d) then Some(d) else None)
  {
    var rows: seq<bytes> := [row];
    assert rows[..0] == [] && rows[1..] == [];
    assert All(dec, p, rows[..0]) == Ok([]);
    assert p(d) ==> [] + [d] == [d];
  }

  lemma {:induction false} SortOne<T>(le: (T, T) -> bool, x: T)
    ensures L.Sort(le, [x]) == [x]
  {
    assert [x][..0] == [];
  }

  /** A databases table holding just the seed row answers like a missing one. */
  lemma {:induction false} OneDatabase(c: Catalog)
    requires RootIn(c, Databases) != 0 && Rows(c, Databases) == Ok([SeedRow(Databases)])
    ensures ListDatabases(c) == Ok([DEFAULT_DATABASE_DEF])
    ensures forall name :: GetDatabase(c, name) == Ok(if name == DEFAULT_DATABASE then Some(DEFAULT_DATABASE_DEF) else None)
  {
    hide ReadStr1, Str1, Rows, All, First, L.Sort;
    SeedRowsDecode();
    OneRow(DecodeDatabase, AnyDatabase(), SeedRow(Databases), DEFAULT_DATABASE_DEF);
    SortOne(DatabaseLe(), DEFAULT_DATABASE_DEF);
    forall name ensures GetDatabase(c, name) == Ok(if name == DEFAULT_DATABASE then Some(DEFAULT_DATABASE_DEF) else None) {
      OneRow(DecodeDatabase, NamedDatabase(name), SeedRow(Databases), DEFAULT_DATABASE_DEF);
    }
  }

  /** The list of schemas never changes: `public` is listed with or without its row. */
  lemma {:induction false} SchemasAgree(s: Store, s': Store, snap: Snapshot, codecs: Codecs, db: bytes)
    requires Grown(s, s') && ValidSnapshot(snap)
    ensures ListSchemas(CatalogOf(s', snap, codecs), db) == ListSchemas(CatalogOf(s, snap, codecs), db)
  {
    hide Grown, Rows, Root, DecodeSchema, EncodeSchema, SeedLost, L.Sort, WithPublic;
    var c, c' := CatalogOf(s, snap, codecs), CatalogOf(s', snap, codecs);
    if Root(s.meta, Schemas) != 0 {
      RowsAgree(s, s', snap, codecs, Schemas);
    } else {
      NoRows(s, snap, codecs, Schemas);
      PublicListed(c, db);
      if Root(s'.meta, Schemas) == 0 {
        NoRows(s', snap, codecs, Schemas);
      } else {
        SeedRows(s, s', snap, codecs, Schemas);
      }
      PublicListed(c', db);
    }
  }

  lemma {:induction false} NoRows(s: Store, snap: Snapshot, codecs: Codecs, t: Slot)
    requires Root(s.meta, t) == 0
    ensures Rows(CatalogOf(s, snap, codecs), t) == Ok([])
  {
    hide Root;
    RootsAre(s, snap, codecs, t);
  }

  lemma {:induction false} PublicListed(c: Catalog, db: bytes)
    requires Rows(c, Schemas) == Ok([]) || Rows(c, Schemas) == Ok([SeedRow(Schemas)])
    ensures ListSchemas(c, db) == Ok(L.Sort(SchemaLe(), [SchemaDef(db, PUBLIC)]))
  {
    hide ReadStr1, Str1, Rows, L.Sort, PUBLIC, DEFAULT_DATABASE;
    SeedRowsDecode();
    OneRow(DecodeSchema, SchemaIn(db), SeedRow(Schemas), PUBLIC_SCHEMA_DEF);
    var found := ListIn(c, Schemas, DecodeSchema, SchemaIn(db));
    assert found == Ok([]) || (db == DEFAULT_DATABASE && found == Ok([PUBLIC_SCHEMA_DEF]));
    assert [] + [SchemaDef(db, PUBLIC)] == [SchemaDef(db, PUBLIC)];
  }

  /** Table ownership answers the same. */
  lemma {:induction false} OwnersAgree(s: Store, s': Store, snap: Snapshot, codecs: Codecs)
    requires Grown(s, s')
    ensures forall id :: EffectiveDatabase(CatalogOf(s', snap, codecs), id) == EffectiveDatabase(CatalogOf(s, snap, codecs), id)
  {
    hide Grown, Rows, First, CatalogOf;
    RowsAgree(s, s', snap, codecs, TableDatabases);
  }

  /** So do table lists and table lookups. */
  lemma {:induction false} TablesAgree(s: Store, s': Store, snap: Snapshot, codecs: Codecs, db: bytes, schema: bytes, name: Option<bytes>,
                    within: Option<bytes>)
    requires Grown(s, s')
    ensures var c, c' := CatalogOf(s, snap, codecs), CatalogOf(s', snap, codecs);
            && OwnedTables(c', db, within) == OwnedTables(c, db, within)
            && GetTable(c', db, schema, name) == GetTable(c, db, schema, name)
  {
    hide Grown, Rows, OwnedAmong, TableAmong, EffectiveDatabase, CatalogOf;
    var c, c' := CatalogOf(s, snap, codecs), CatalogOf(s', snap, codecs);
    SameCodecs(s, s', snap, codecs);
    OwnersAgree(s, s', snap, codecs);
    RowsAgree(s, s', snap, codecs, Tables);
    var rows := Rows(c, Tables);
    if rows.Ok? {
      OwnedAgree(c, c', rows.value, db, within);
      TableAgrees(c, c', rows.value, db, schema, name);
    }
  }

  lemma {:induction false} SameCodecs(s: Store, s': Store, snap: Snapshot, codecs: Codecs)
    ensures CatalogOf(s, snap, codecs).codecs == codecs == CatalogOf(s', snap, codecs).codecs
  {
  }

  lemma {:induction false} OwnedAgree(c: Catalog, c': Catalog, rows: seq<bytes>, db: bytes, within: Option<bytes>)
    requires c.codecs == c'.codecs && forall id :: EffectiveDatabase(c', id) == EffectiveDatabase(c, id)
    ensures OwnedAmong(c', rows, db, within) == OwnedAmong(c, rows, db, within)
  {
    hide EffectiveDatabase;
    if rows != [] {
      OwnedAgree(c, c', rows[..|rows| - 1], db, within);
    }
  }

  lemma {:induction false} TableAgrees(c: Catalog, c': Catalog, rows: seq<bytes>, db: bytes, schema: bytes, name: Option<bytes>)
    requires c.codecs == c'.codecs && forall id :: EffectiveDatabase(c', id) == EffectiveDatabase(c, id)
    ensures TableAmong(c', rows, db, schema, name) == TableAmong(c, rows, db, schema, name)
  {
    hide EffectiveDatabase;
    if rows != [] {
      TableAgrees(c, c', rows[1..], db, schema, name);
    }
  }

  /** The one visible change: once the schemas root exists, a schema that has no row
      but owns a table is found. The answer stays the same exactly when the root was
      not made just now, or no table of that schema belongs to the database; it only
      ever changes from false to true, or to the error of looking for the table. */
  lemma {:induction false} SchemaExistsAgrees(s: Store, s': Store, snap: Snapshot, codecs: Codecs, db: bytes, schema: bytes)
    requires Grown(s, s') && ValidSnapshot(snap)
    ensures var c, c' := CatalogOf(s, snap, codecs), CatalogOf(s', snap, codecs);
            SchemaExists(c', db, schema) == SchemaExists(c, db, schema)
            <==> || schema == PUBLIC || Root(s.meta, Schemas) != 0 || Root(s'.meta, Schemas) == 0
                 || GetTable(c, db, schema, None) == Ok(None)
    ensures var c, c' := CatalogOf(s, snap, codecs), CatalogOf(s', snap, codecs);
            SchemaExists(c', db, schema) != SchemaExists(c, db, schema) ==>
              && SchemaExists(c, db, schema) == Ok(false)
              && var t := GetTable(c, db, schema, None);
                 SchemaExists(c', db, schema) == if t.Ok? then Ok(true) else Err(t.error)
  {
    hide Grown, Rows, Root, SeedLost, GetTable, PUBLIC, EncodeSchema, DecodeSchema;
    var c, c' := CatalogOf(s, snap, codecs), CatalogOf(s', snap, codecs);
    RootsAre(s, snap, codecs, Schemas);
    RootsAre(s', snap, codecs, Schemas);
    TablesAgree(s, s', snap, codecs, db, schema, None, None);
    if Root(s.meta, Schemas) != 0 {
      RowsAgree(s, s', snap, codecs, Schemas);
      RootStays(s, s', Schemas);
    } else if Root(s'.meta, Schemas) != 0 && schema != PUBLIC {
      SeedRows(s, s', snap, codecs, Schemas);
      NoSchemaRow(c', db, schema);
    }
  }

  lemma {:induction false} NoSchemaRow(c: Catalog, db: bytes, schema: bytes)
    requires Rows(c, Schemas) == Ok([]) || Rows(c, Schemas) == Ok([SeedRow(Schemas)])
    requires schema != PUBLIC
    ensures FindIn(c, Schemas, DecodeSchema, SchemaIs(db, schema)) == Ok(None)
  {
    hide ReadStr1, Str1, Rows;
    SeedRowsDecode();
    OneRow(DecodeSchema, SchemaIs(db, schema), SeedRow(Schemas), PUBLIC_SCHEMA_DEF);
  }

  /** A legacy file: the three header roots, and one table row. */
  function LegacyStore(m: Meta, row: bytes): Store {
    Store(PutHeader(m, 1, 2, 3, 1), {0, 1, 2, 3}, map[1 := [HeapRow(1, 0, row)], 2 := [], 3 := []])
  }

  lemma {:induction false} LegacyIsValid(m: Meta, row: bytes)
    requires forall t :: Root(m, t) == 0
    ensures var s := LegacyStore(m, row); Valid(s) && Version(s.meta) == 1 && Root(s.meta, Tables) == 1
    ensures var s := LegacyStore(m, row); forall t :: t !in HEADER_SLOTS ==> Root(s.meta, t) == 0
  {
    hide Root, Version, PutHeader, NextTableId, NextIndexId;
    PutHeaderFrame(m, 1, 2, 3, 1);
  }

  /** A legacy file with any one table row of a schema other than `public`: the schema is
      missing before the upgrade and found after it, in every snapshot that sees the
      row's transaction. */
  lemma {:induction false} SchemaAppears(m: Meta, row: bytes, s': Store, ids: PageIds, snap: Snapshot, codecs: Codecs)
    requires (forall t :: Root(m, t) == 0) && EnsureStep(LegacyStore(m, row), s', Ok(ids))
    requires ValidSnapshot(snap) && Sees(snap, 1)
    requires codecs.table(row).Ok? && codecs.table(row).value.schemaName != PUBLIC
    ensures var s, schema := LegacyStore(m, row), codecs.table(row).value.schemaName;
            && SchemaExists(CatalogOf(s, snap, codecs), DEFAULT_DATABASE, schema) == Ok(false)
            && SchemaExists(CatalogOf(s', snap, codecs), DEFAULT_DATABASE, schema) == Ok(true)
  {
    hide Root, Version, EnsureStep, Valid, Grown, GetTable, LegacyStore, Rows, FindIn, SeedLost, SeedRow, PUBLIC,
         DEFAULT_DATABASE, Sees;
    var s, schema := LegacyStore(m, row), codecs.table(row).value.schemaName;
    var c, c' := CatalogOf(s, snap, codecs), CatalogOf(s', snap, codecs);
    LegacyIsValid(m, row);
    StepGrows(CallEnsureDatabases(Ok(ids)), s, s');
    SchemasRootMade(s, s', ids);
    LegacyTable(m, row, snap, codecs);
    TablesAgree(s, s', snap, codecs, DEFAULT_DATABASE, schema, None, None);
    RootsAre(s, snap, codecs, Schemas);
    RootsAre(s', snap, codecs, Schemas);
    SeedRows(s, s', snap, codecs, Schemas);
    NoSchemaRow(c', DEFAULT_DATABASE, schema);
  }

  lemma {:induction false} SchemasRootMade(s: Store, s': Store, ids: PageIds)
    requires Valid(s) && Version(s.meta) > 0 && EnsureStep(s, s', Ok(ids))
    ensures Root(s'.meta, Schemas) != 0
  {
    hide Root, Version, EnsureStep, Valid;
    SuccessMeans(CallEnsureDatabases(Ok(ids)), s, s');
    assert Schemas in PROMISED;
  }

  lemma {:induction false} LegacyTable(m: Meta, row: bytes, snap: Snapshot, codecs: Codecs)
    requires (forall t :: Root(m, t) == 0) && Sees(snap, 1) && codecs.table(row).Ok?
    ensures var t := codecs.table(row).value;
            GetTable(CatalogOf(LegacyStore(m, row), snap, codecs), DEFAULT_DATABASE, t.schemaName, None) == Ok(Some(t))
  {
    hide Root, Version, PutHeader, Valid, IsVisible, Sees;
    LegacyIsValid(m, row);
    var s, r := LegacyStore(m, row), HeapRow(1, 0, row);
    RootsAre(s, snap, codecs, Tables);
    RootsAre(s, snap, codecs, TableDatabases);
    VisibleIff(r, snap);
    assert [r][..0] == [];
    assert Visible([r], snap) == [row];
  }

  // ---------------------------------------------------------------------------
  // The upgrade is invisible

  lemma {:induction false} NoSeedLost(s: Store, s': Store, ids: PageIds)
    requires Valid(s) && Version(s.meta) > 0 && EnsureStep(s, s', Ok(ids))
    ensures forall t :: t in SEEDED ==> !SeedLost(s, s', t)
  {
    hide Root, Version, NextTableId, NextIndexId, Partial, Sound, Frame, EncodeDatabase, EncodeSchema;
    forall t | t in SEEDED ensures !SeedLost(s, s', t) {
      assert if t in Missing(s, UPGRADABLE) then Fresh(s, s', t, Seed(t)) else Root(s'.meta, t) == Root(s.meta, t);
      assert |Seed(t)| == 1;
    }
  }

  ghost predicate SameNamespaces(c: Catalog, c': Catalog, db: bytes, schema: bytes, name: bytes, id: u32) {
    && GetDatabase(c', db) == GetDatabase(c, db)
    && ListDatabases(c') == ListDatabases(c)
    && ListSchemas(c', db) == ListSchemas(c, db)
    && EffectiveDatabase(c', id) == EffectiveDatabase(c, id)
    && OwnedTables(c', db, None) == OwnedTables(c, db, None)
    && OwnedTables(c', db, Some(schema)) == OwnedTables(c, db, Some(schema))
    && GetTable(c', db, schema, Some(name)) == GetTable(c, db, schema, Some(name))
  }

  ghost predicate SameDefinitions(c: Catalog, c': Catalog, name: bytes, id: u32) {
    && ListColumns(c', id) == ListColumns(c, id)
    && ListFks(c', id) == ListFks(c, id)
    && ListFksReferencing(c', id) == ListFksReferencing(c, id)
    && GetFkByName(c', id, name) == GetFkByName(c, id, name)
    && ListConstraints(c', id) == ListConstraints(c, id)
    && NextForeignTableId(c') == NextForeignTableId(c)
  }

  lemma {:induction false} NamespacesAgree(s: Store, s': Store, snap: Snapshot, codecs: Codecs, db: bytes, schema: bytes, name: bytes, id: u32)
    requires Grown(s, s') && ValidSnapshot(snap) && !SeedLost(s, s', Databases)
    ensures SameNamespaces(CatalogOf(s, snap, codecs), CatalogOf(s', snap, codecs), db, schema, name, id)
  {
    hide Grown, SeedLost, ListDatabases, GetDatabase, ListSchemas, OwnedTables, GetTable, EffectiveDatabase;
    DatabasesAgree(s, s', snap, codecs);
    SchemasAgree(s, s', snap, codecs, db);
    OwnersAgree(s, s', snap, codecs);
    TablesAgree(s, s', snap, codecs, db, schema, Some(name), None);
    TablesAgree(s, s', snap, codecs, db, schema, Some(name), Some(schema));
  }

  lemma {:induction false} DefinitionsAgree(s: Store, s': Store, snap: Snapshot, codecs: Codecs, name: bytes, id: u32)
    requires Grown(s, s')
    ensures SameDefinitions(CatalogOf(s, snap, codecs), CatalogOf(s', snap, codecs), name, id)
  {
    hide Grown, CatalogOf, FindIn, ListIn, DecodableIn, L.Sort, L.Filter, L.FirstOf, MaxId, DecodeFk, DecodeConstraint;
    SameCodecs(s, s', snap, codecs);
    LookupsAgree(s, s', snap, codecs, Columns, codecs.column, ColumnOf(id));
    LookupsAgree(s, s', snap, codecs, ForeignKeys, DecodeFk, FkNamed(name));
    LookupsAgree(s, s', snap, codecs, Constraints, DecodeConstraint, ConstraintOf(id));
    LookupsAgree(s, s', snap, codecs, ForeignTables, codecs.foreignTable, AnyForeignTable());
  }

  /** The schema test answers as before, unless `made` just now and a table (or the
      error of looking for one) shows. */
  ghost predicate SameSchemaTest(c: Catalog, c': Catalog, db: bytes, schema: bytes, made: bool) {
    var t := GetTable(c, db, schema, None);
    if schema == PUBLIC || !made || t == Ok(None) then SchemaExists(c', db, schema) == SchemaExists(c, db, schema)
    else && SchemaExists(c, db, schema) == Ok(false)
         && SchemaExists(c', db, schema) == if t.Ok? then Ok(true) else Err(t.error)
  }

  ghost predicate SchemasMade(s: Store, s': Store) {
    Root(s.meta, Schemas) == 0 && Root(s'.meta, Schemas) != 0
  }

  lemma {:induction false} SchemaTestAgrees(s: Store, s': Store, snap: Snapshot, codecs: Codecs, db: bytes, schema: bytes)
    requires Grown(s, s') && ValidSnapshot(snap)
    ensures SameSchemaTest(CatalogOf(s, snap, codecs), CatalogOf(s', snap, codecs), db, schema, SchemasMade(s, s'))
  {
    hide Grown, Root, GetTable, SchemaExists, PUBLIC;
    SchemaExistsAgrees(s, s', snap, codecs, db, schema);
  }

  /** A successful `ensure_database_roots` is invisible. Databases, schema lists, table
      ownership and tables answer as they did before it, and so does every lookup in
      any other catalog table: columns, foreign keys, constraints, aggregates, sequences,
      types, cron jobs, foreign servers and tables. The schema test does so unless the
      schemas root was made by this call and a table of the schema shows. */
  lemma {:induction false} UpgradeIsInvisible<T>(s: Store, s': Store, ids: PageIds, snap: Snapshot, codecs: Codecs,
                              db: bytes, schema: bytes, name: bytes, id: u32, t: Slot, dec: Decoder<T>, p: T -> bool)
    requires Valid(s) && Version(s.meta) > 0 && EnsureStep(s, s', Ok(ids)) && ValidSnapshot(snap)
    ensures var c, c' := CatalogOf(s, snap, codecs), CatalogOf(s', snap, codecs);
            && SameNamespaces(c, c', db, schema, name, id)
            && SameDefinitions(c, c', name, id)
            && (t !in SEEDED ==> SameLookup(c, c', t, dec, p))
            && SameSchemaTest(c, c', db, schema, Root(s.meta, Schemas) == 0)
  {
    hide Valid, Version, EnsureStep, Grown, SeedLost, SameNamespaces, SameDefinitions, SameSchemaTest, Root, FindIn, ListIn,
         DecodableIn, CatalogOf;
    StepGrows(CallEnsureDatabases(Ok(ids)), s, s');
    NoSeedLost(s, s', ids);
    NamespacesAgree(s, s', snap, codecs, db, schema, name, id);
    DefinitionsAgree(s, s', snap, codecs, name, id);
    if t !in SEEDED {
      LookupsAgree(s, s', snap, codecs, t, dec, p);
    }
    SchemasRootMade(s, s', ids);
    SchemaTestAgrees(s, s', snap, codecs, db, schema);
  }

  /** Over any run of bootstrap calls on an initialised catalog, however often they stop:
      lookups outside databases and schemas never change, the schema test changes
      only as above, and namespaces change exactly when a stop lost the row of the
      default database. */
  lemma {:induction false} RunIsInvisible<T>(calls: seq<Call>, states: seq<Store>, i: nat, j: nat, snap: Snapshot, codecs: Codecs,
                          t: Slot, dec: Decoder<T>, p: T -> bool)
    requires Run(calls, states) && i <= j < |states| && Version(states[i].meta) > 0 && ValidSnapshot(snap)
    requires forall k :: i <= k < j ==> !calls[k].InsertRow?
    ensures var c, c' := CatalogOf(states[i], snap, codecs), CatalogOf(states[j], snap, codecs);
            && (forall name, id :: SameDefinitions(c, c', name, id))
            && (t !in SEEDED ==> SameLookup(c, c', t, dec, p))
            && (forall db, schema :: SameSchemaTest(c, c', db, schema, SchemasMade(states[i], states[j])))
            && ((forall db, schema, name, id :: SameNamespaces(c, c', db, schema, name, id))
                <==> !SeedLost(states[i], states[j], Databases))
  {
    hide Step, Version, Grown, SeedLost, SameDefinitions, SameNamespaces, SameSchemaTest, FindIn, ListIn, DecodableIn,
         SchemasMade, CatalogOf;
    var s, s' := states[i], states[j];
    var c, c' := CatalogOf(s, snap, codecs), CatalogOf(s', snap, codecs);
    RunGrows(calls, states, i, j);
    forall name, id ensures SameDefinitions(c, c', name, id) {
      DefinitionsAgree(s, s', snap, codecs, name, id);
    }
    if t !in SEEDED {
      LookupsAgree(s, s', snap, codecs, t, dec, p);
    }
    forall db, schema ensures SameSchemaTest(c, c', db, schema, SchemasMade(s, s')) {
      SchemaTestAgrees(s, s', snap, codecs, db, schema);
    }
    NamespacesIff(s, s', snap, codecs);
  }

  lemma {:induction false} NamespacesIff(s: Store, s': Store, snap: Snapshot, codecs: Codecs)
    requires Grown(s, s') && ValidSnapshot(snap)
    ensures var c, c' := CatalogOf(s, snap, codecs), CatalogOf(s', snap, codecs);
            (forall db, schema, name, id :: SameNamespaces(c, c', db, schema, name, id)) <==> !SeedLost(s, s', Databases)
  {
    hide Grown, SeedLost, ListDatabases, GetDatabase, ListSchemas, OwnedTables, GetTable, EffectiveDatabase, CatalogOf;
    var c, c' := CatalogOf(s, snap, codecs), CatalogOf(s', snap, codecs);
    if SeedLost(s, s', Databases) {
      DatabasesAgree(s, s', snap, codecs);
      var db: bytes :| ListDatabases(c') != ListDatabases(c) || GetDatabase(c', db) != GetDatabase(c, db);
      assert !SameNamespaces(c, c', db, [], [], 0);
    } else {
      forall db, schema, name, id ensures SameNamespaces(c, c', db, schema, name, id) {
        NamespacesAgree(s, s', snap, codecs, db, schema, name, id);
      }
    }
  }
}
