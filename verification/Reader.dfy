/** Snapshot reads of the catalog. A lookup on a root that does not exist yet takes
    the legacy path, all others scan the root's heap. */
module Reader {
  import opened Bytes
  import opened MetaPage
  import opened StorageEngine
  import opened Namespaces
  import opened Bootstrap
  import opened Lists
  import opened Scans
  import Fk = ForeignKeys
  import Con = Constraints

  datatype TableDef = TableDef(id: u32, schemaName: bytes, tableName: bytes, schemaVersion: u64)

  datatype ColumnDef = ColumnDef(tableId: u32, colIdx: u16, name: bytes)

  datatype IndexDef = IndexDef(indexId: u32, tableId: u32)

  datatype ForeignTableDef = ForeignTableDef(tableId: u32, schemaName: bytes, tableName: bytes)

  /** Row decoders that the results below do not depend on. */
  datatype Codecs = Codecs(table: Decoder<TableDef>, column: Decoder<ColumnDef>, index: Decoder<IndexDef>,
                           foreignTable: Decoder<ForeignTableDef>)

  datatype Catalog = Catalog(heaps: Heaps, ids: PageIds, snap: Snapshot, codecs: Codecs)

  const FOREIGN_TABLE_ID_BASE: u32 := 0x8000_0000

  /** The reader opened on storage in state `s`. */
  function CatalogOf(s: Store, snap: Snapshot, codecs: Codecs): Catalog {
    Catalog(s.heaps, IdsOf(s.meta), snap, codecs)
  }

  method Open(st: Storage, snap: Snapshot, codecs: Codecs) returns (r: Result<Catalog, DbError>)
    modifies st`failed
    ensures r.Ok? ==> r.value == CatalogOf(st.View(), snap, codecs) && Version(st.meta) > 0
    ensures Version(st.meta) == 0 ==> r.Err?
    ensures r.Ok? ==> st.failed == old(st.failed)
    ensures r.Err? ==> st.failed || (Version(st.meta) == 0 && r.error == CatalogNotInitialized)
  {
    var ids := PageIdsOf(st);
    if ids.Err? {
      return Err(ids.error);
    }
    return Ok(Catalog(st.heaps, ids.value, snap, codecs));
  }

  function RootIn(c: Catalog, s: Slot): u64 {
    if s in c.ids then c.ids[s] else 0
  }

  function Rows(c: Catalog, s: Slot): (r: Result<seq<bytes>, DbError>) {
    Scan(c.heaps, RootIn(c, s), c.snap)
  }

  // ---------------------------------------------------------------------------
  // Lookups whose legacy answer is "nothing"

  function FindIn<T>(c: Catalog, s: Slot, dec: Decoder<T>, p: T -> bool): (r: Result<Option<T>, DbError>) {
    var rows := Rows(c, s);
    if rows.Err? then Err(rows.error) else First(dec, p, rows.value)
  }

  function ListIn<T>(c: Catalog, s: Slot, dec: Decoder<T>, p: T -> bool): (r: Result<seq<T>, DbError>) {
    var rows := Rows(c, s);
    if rows.Err? then Err(rows.error) else All(dec, p, rows.value)
  }

  method LookupIn<T>(c: Catalog, s: Slot, dec: Decoder<T>, p: T -> bool) returns (r: Result<Option<T>, DbError>)
    ensures r == FindIn(c, s, dec, p)
  {
    var root := RootIn(c, s);
    if root == 0 {
      return Ok(None);
    }
    var rows := ScanVisible(c.heaps, root, c.snap);
    if rows.Err? {
      return Err(rows.error);
    }
    r := FindFirst(dec, p, rows.value);
  }

  method AllIn<T>(c: Catalog, s: Slot, dec: Decoder<T>, p: T -> bool) returns (r: Result<seq<T>, DbError>)
    ensures r == ListIn(c, s, dec, p)
  {
    var root := RootIn(c, s);
    if root == 0 {
      return Ok([]);
    }
    var rows := ScanVisible(c.heaps, root, c.snap);
    if rows.Err? {
      return Err(rows.error);
    }
    r := CollectAll(dec, p, rows.value);
  }

  // ---------------------------------------------------------------------------
  // Databases

  function NamedDatabase(name: bytes): DatabaseDef -> bool {
    (d: DatabaseDef) => d.name == name
  }

  function AnyDatabase(): DatabaseDef -> bool {
    (d: DatabaseDef) => true
  }

  function DatabaseLe(): (DatabaseDef, DatabaseDef) -> bool {
    (a: DatabaseDef, b: DatabaseDef) => LexLe(a.name, b.name)
  }

  function GetDatabase(c: Catalog, name: bytes): (r: Result<Option<DatabaseDef>, DbError>) {
    if RootIn(c, Databases) == 0 then
      Ok(if name == DEFAULT_DATABASE then Some(DEFAULT_DATABASE_DEF) else None)
    else FindIn(c, Databases, DecodeDatabase, NamedDatabase(name))
  }

  function ListDatabases(c: Catalog): (r: Result<seq<DatabaseDef>, DbError>) {
    if RootIn(c, Databases) == 0 then Ok([DEFAULT_DATABASE_DEF])
    else
      var r := ListIn(c, Databases, DecodeDatabase, AnyDatabase());
      if r.Err? then r else Ok(Sort(DatabaseLe(), r.value))
  }

  method LookupDatabase(c: Catalog, name: bytes) returns (r: Result<Option<DatabaseDef>, DbError>)
    ensures r == GetDatabase(c, name)
    ensures ListDatabases(c).Ok? ==> r.Ok? && (r.value.Some? <==> exists x :: x in ListDatabases(c).value && x.name == name)
  {
    hide ListIn, Sort, FindIn, LexLe;
    if ListDatabases(c).Ok? {
      DatabasesListed(c, name);
    }
    if RootIn(c, Databases) == 0 {
      return if name == DEFAULT_DATABASE then Ok(Some(DEFAULT_DATABASE_DEF)) else Ok(None);
    }
    r := LookupIn(c, Databases, DecodeDatabase, NamedDatabase(name));
  }

  method AllDatabases(c: Catalog) returns (r: Result<seq<DatabaseDef>, DbError>)
    ensures r == ListDatabases(c)
    ensures r.Ok? ==> forall i, j :: 0 <= i < j < |r.value| ==> LexLe(r.value[i].name, r.value[j].name)
    ensures r.Ok? && RootIn(c, Databases) != 0 ==> multiset(r.value) == multiset(Decodable(DecodeDatabase, Rows(c, Databases).value))
  {
    hide ListIn, Sort, LexLe, Rows, Decodable;
    if ListDatabases(c).Ok? {
      DatabasesListed(c, []);
    }
    if RootIn(c, Databases) == 0 {
      return Ok([DEFAULT_DATABASE_DEF]);
    }
    r := AllIn(c, Databases, DecodeDatabase, AnyDatabase());
    if r.Ok? {
      r := Ok(Sort(DatabaseLe(), r.value));
    }
  }

  // ---------------------------------------------------------------------------
  // Which database owns a table

  function BindingOf(id: u32): TableDatabaseDef -> bool {
    (b: TableDatabaseDef) => b.tableId == id
  }

  function EffectiveDatabase(c: Catalog, id: u32): (r: Result<bytes, DbError>) {
    var b := FindIn(c, TableDatabases, DecodeBinding, BindingOf(id));
    if b.Err? then Err(b.error)
    else Ok(if b.value.Some? then b.value.value.databaseName else DEFAULT_DATABASE)
  }

  predicate SchemaMatches(t: TableDef, schema: Option<bytes>) {
    schema.None? || t.schemaName == schema.value
  }

  /** The tables among `rows` that `db` owns, in one schema or in all of them. */
  function OwnedAmong(c: Catalog, rows: seq<bytes>, db: bytes, schema: Option<bytes>): (r: Result<seq<TableDef>, DbError>) {
    if rows == [] then Ok([])
    else
      var r := OwnedAmong(c, rows[..|rows| - 1], db, schema);
      if r.Err? then r
      else
        var t := c.codecs.table(rows[|rows| - 1]);
        if t.Err? then Err(Parse(t.error))
        else if !SchemaMatches(t.value, schema) then r
        else
          var owner := EffectiveDatabase(c, t.value.id);
          if owner.Err? then Err(owner.error)
          else Ok(if owner.value == db then r.value + [t.value] else r.value)
  }

  function OwnedTables(c: Catalog, db: bytes, schema: Option<bytes>): (r: Result<seq<TableDef>, DbError>) {
    var rows := Rows(c, Tables);
    if rows.Err? then Err(rows.error) else OwnedAmong(c, rows.value, db, schema)
  }

  /** `list_tables_owned_by_database` and `list_tables_in_database`. */
  method TablesOf(c: Catalog, db: bytes, schema: Option<bytes>) returns (r: Result<seq<TableDef>, DbError>)
    ensures r == OwnedTables(c, db, schema)
  {
    hide EffectiveDatabase;
    var scan := ScanVisible(c.heaps, RootIn(c, Tables), c.snap);
    if scan.Err? {
      return Err(scan.error);
    }
    var rows := scan.value;
    var result := [];
    for i := 0 to |rows|
      invariant OwnedAmong(c, rows[..i], db, schema) == Ok(result)
    {
      assert rows[..i + 1][..i] == rows[..i];
      var t := c.codecs.table(rows[i]);
      if t.Err? {
        OwnedErrorsStay(c, rows, db, schema, i + 1);
        return Err(Parse(t.error));
      }
      if SchemaMatches(t.value, schema) {
        var owner := OwnerOf(c, t.value.id);
        if owner.Err? {
          OwnedErrorsStay(c, rows, db, schema, i + 1);
          return Err(owner.error);
        }
        if owner.value == db {
          result := result + [t.value];
        }
      }
    }
    assert rows[..|rows|] == rows;
    return Ok(result);
  }

  lemma {:induction false} OwnedErrorsStay(c: Catalog, rows: seq<bytes>, db: bytes, schema: Option<bytes>, m: nat)
    requires m <= |rows| && OwnedAmong(c, rows[..m], db, schema).Err?
    ensures OwnedAmong(c, rows, db, schema) == OwnedAmong(c, rows[..m], db, schema)
    decreases |rows|
  {
    hide EffectiveDatabase;
    if m == |rows| {
      assert rows[..m] == rows;
    } else {
      assert rows[..|rows| - 1][..m] == rows[..m];
      OwnedErrorsStay(c, rows[..|rows| - 1], db, schema, m);
    }
  }

  method OwnerOf(c: Catalog, id: u32) returns (r: Result<bytes, DbError>)
    ensures r == EffectiveDatabase(c, id)
    ensures Rows(c, TableDatabases).Ok? && AllDecode(DecodeBinding, Rows(c, TableDatabases).value) ==>
              r.Ok? && DecidedByFirst(Decodable(DecodeBinding, Rows(c, TableDatabases).value), id, r.value)
  {
    hide FindIn, DecidedByFirst, AllDecode, Rows, Decodable, DEFAULT_DATABASE;
    if Rows(c, TableDatabases).Ok? && AllDecode(DecodeBinding, Rows(c, TableDatabases).value) {
      FirstBindingWins(c, id);
    }
    var b := LookupIn(c, TableDatabases, DecodeBinding, BindingOf(id));
    if b.Err? {
      return Err(b.error);
    }
    return Ok(if b.value.Some? then b.value.value.databaseName else DEFAULT_DATABASE);
  }

  predicate TableMatches(t: TableDef, schema: bytes, name: Option<bytes>) {
    t.schemaName == schema && (name.None? || t.tableName == name.value)
  }

  /** The first table among `rows` in the schema, with the name if one is given, that
      `db` owns. */
  function TableAmong(c: Catalog, rows: seq<bytes>, db: bytes, schema: bytes, name: Option<bytes>)
    : (r: Result<Option<TableDef>, DbError>)
  {
    if rows == [] then Ok(None)
    else
      var t := c.codecs.table(rows[0]);
      if t.Err? then Err(Parse(t.error))
      else if !TableMatches(t.value, schema, name) then TableAmong(c, rows[1..], db, schema, name)
      else
        var owner := EffectiveDatabase(c, t.value.id);
        if owner.Err? then Err(owner.error)
        else if owner.value == db then Ok(Some(t.value))
        else TableAmong(c, rows[1..], db, schema, name)
  }

  function GetTable(c: Catalog, db: bytes, schema: bytes, name: Option<bytes>): (r: Result<Option<TableDef>, DbError>) {
    var rows := Rows(c, Tables);
    if rows.Err? then Err(rows.error) else TableAmong(c, rows.value, db, schema, name)
  }

  /** `get_table_in_database`, and with no name the fallback of `schema_exists`. */
  method LookupTable(c: Catalog, db: bytes, schema: bytes, name: Option<bytes>)
    returns (r: Result<Option<TableDef>, DbError>)
    ensures r == GetTable(c, db, schema, name)
  {
    hide EffectiveDatabase;
    var scan := ScanVisible(c.heaps, RootIn(c, Tables), c.snap);
    if scan.Err? {
      return Err(scan.error);
    }
    var rows := scan.value;
    for i := 0 to |rows|
      invariant TableAmong(c, rows, db, schema, name) == TableAmong(c, rows[i..], db, schema, name)
    {
      assert rows[i..][1..] == rows[i + 1..];
      var t := c.codecs.table(rows[i]);
      if t.Err? {
        return Err(Parse(t.error));
      }
      if TableMatches(t.value, schema, name) {
        var owner := OwnerOf(c, t.value.id);
        if owner.Err? {
          return Err(owner.error);
        }
        if owner.value == db {
          return Ok(Some(t.value));
        }
      }
    }
    return Ok(None);
  }

  // ---------------------------------------------------------------------------
  // Schemas

  function SchemaIs(db: bytes, name: bytes): SchemaDef -> bool {
    (d: SchemaDef) => d.databaseName == db && d.name == name
  }

  function SchemaIn(db: bytes): SchemaDef -> bool {
    (d: SchemaDef) => d.databaseName == db
  }

  function IsPublic(): SchemaDef -> bool {
    (d: SchemaDef) => d.name == PUBLIC
  }

  function SchemaLe(): (SchemaDef, SchemaDef) -> bool {
    (a: SchemaDef, b: SchemaDef) => LexLe(a.name, b.name)
  }

  function SchemaExists(c: Catalog, db: bytes, schema: bytes): (r: Result<bool, DbError>) {
    if schema == PUBLIC then Ok(true)
    else if RootIn(c, Schemas) == 0 then Ok(false)
    else
      var row := FindIn(c, Schemas, DecodeSchema, SchemaIs(db, schema));
      if row.Err? then Err(row.error)
      else if row.value.Some? then Ok(true)
      else
        var t := GetTable(c, db, schema, None);
        if t.Err? then Err(t.error) else Ok(t.value.Some?)
  }

  method LookupSchema(c: Catalog, db: bytes, schema: bytes) returns (r: Result<bool, DbError>)
    ensures r == SchemaExists(c, db, schema)
    ensures ListSchemas(c, db).Ok? ==>
              (r == Ok(true) <==> || SchemaDef(db, schema) in ListSchemas(c, db).value
                                  || (RootIn(c, Schemas) != 0 && var t := GetTable(c, db, schema, None); t.Ok? && t.value.Some?))
  {
    hide FindIn, GetTable, ListSchemas, PUBLIC;
    if ListSchemas(c, db).Ok? {
      SchemaExistsIff(c, db, schema);
    }
    if schema == PUBLIC {
      return Ok(true);
    }
    if RootIn(c, Schemas) == 0 {
      return Ok(false);
    }
    var row := LookupIn(c, Schemas, DecodeSchema, SchemaIs(db, schema));
    if row.Err? {
      return Err(row.error);
    }
    if row.value.Some? {
      return Ok(true);
    }
    var t := LookupTable(c, db, schema, None);
    if t.Err? {
      return Err(t.error);
    }
    return Ok(t.value.Some?);
  }

  function ListSchemas(c: Catalog, db: bytes): (r: Result<seq<SchemaDef>, DbError>) {
    var found := ListIn(c, Schemas, DecodeSchema, SchemaIn(db));
    if found.Err? then found
    else Ok(Sort(SchemaLe(), WithPublic(found.value, db)))
  }

  function WithPublic(found: seq<SchemaDef>, db: bytes): seq<SchemaDef> {
    if FirstOf(IsPublic(), found).Some? then found else found + [SchemaDef(db, PUBLIC)]
  }

  method AllSchemas(c: Catalog, db: bytes) returns (r: Result<seq<SchemaDef>, DbError>)
    ensures r == ListSchemas(c, db)
    ensures r.Ok? ==> SchemaDef(db, PUBLIC) in r.value && forall d :: d in r.value ==> d.databaseName == db
    ensures r.Ok? ==> forall i, j :: 0 <= i < j < |r.value| ==> LexLe(r.value[i].name, r.value[j].name)
  {
    hide ListIn, Sort, LexLe, FirstOf, PUBLIC;
    if ListSchemas(c, db).Ok? {
      SchemasListed(c, db, PUBLIC);
    }
    NoSchemas(c, db);
    var out := [];
    if RootIn(c, Schemas) != 0 {
      var rows := AllIn(c, Schemas, DecodeSchema, SchemaIn(db));
      if rows.Err? {
        return rows;
      }
      out := rows.value;
    }
    if FirstOf(IsPublic(), out).None? {
      out := out + [SchemaDef(db, PUBLIC)];
    }
    return Ok(Sort(SchemaLe(), out));
  }

  // ---------------------------------------------------------------------------
  // Columns, foreign keys, foreign tables

  function ColumnOf(id: u32): ColumnDef -> bool {
    (d: ColumnDef) => d.tableId == id
  }

  function ColumnLe(): (ColumnDef, ColumnDef) -> bool {
    (a: ColumnDef, b: ColumnDef) => a.colIdx <= b.colIdx
  }

  function ListColumns(c: Catalog, id: u32): (r: Result<seq<ColumnDef>, DbError>) {
    var found := ListIn(c, Columns, c.codecs.column, ColumnOf(id));
    if found.Err? then found else Ok(Sort(ColumnLe(), found.value))
  }

  method ColumnsOf(c: Catalog, id: u32) returns (r: Result<seq<ColumnDef>, DbError>)
    ensures r == ListColumns(c, id)
    ensures r.Ok? ==> var all := ListIn(c, Columns, c.codecs.column, ColumnOf(id));
                      && all.Ok? && multiset(r.value) == multiset(all.value)
                      && (forall i, j :: 0 <= i < j < |r.value| ==> r.value[i].colIdx <= r.value[j].colIdx)
    ensures r.Ok? ==> forall d :: d in r.value <==> d in Decodable(c.codecs.column, Rows(c, Columns).value) && d.tableId == id
  {
    hide ListIn, Sort, Rows, Decodable;
    if ListColumns(c, id).Ok? {
      ColumnsListed(c, id);
    }
    r := AllIn(c, Columns, c.codecs.column, ColumnOf(id));
    if r.Ok? {
      r := Ok(Sort(ColumnLe(), r.value));
    }
  }

  function IndexOf(id: u32): IndexDef -> bool {
    (d: IndexDef) => d.tableId == id
  }

  function DecodeFk(data: bytes): (r: Result<Fk.FkDef, ParseError>) {
    var r := Fk.Decode(data);
    if r.Err? then Err(r.error) else Ok(r.value.0)
  }

  function DecodeConstraint(data: bytes): (r: Result<Con.ConstraintDef, ParseError>) {
    var r := Con.Decode(data);
    if r.Err? then Err(r.error) else Ok(r.value.0)
  }

  /** The child and the parent table of a foreign key. */
  function ChildOf(): Fk.FkDef -> u32 {
    (d: Fk.FkDef) => d.base.childTable
  }

  function ParentOf(): Fk.FkDef -> u32 {
    (d: Fk.FkDef) => d.base.parentTable
  }

  function FkNamed(name: bytes): Fk.FkDef -> bool {
    (d: Fk.FkDef) => d.base.name == name
  }

  function ConstraintOf(id: u32): Con.ConstraintDef -> bool {
    (d: Con.ConstraintDef) => d.base.tableId == id
  }

  /** Rows that do not decode are passed over. */
  function DecodableIn<T>(c: Catalog, s: Slot, dec: Decoder<T>): (r: Result<seq<T>, DbError>) {
    var rows := Rows(c, s);
    if rows.Err? then Err(rows.error) else Ok(Decodable(dec, rows.value))
  }

  function Selected<T>(p: T -> bool, r: Result<seq<T>, DbError>): Result<seq<T>, DbError> {
    if r.Err? then r else Ok(Filter(p, r.value))
  }

  function ListFks(c: Catalog, id: u32): (r: Result<seq<Fk.FkDef>, DbError>) {
    Selected(HasKey(ChildOf(), id), DecodableIn(c, ForeignKeys, DecodeFk))
  }

  function ListFksReferencing(c: Catalog, id: u32): (r: Result<seq<Fk.FkDef>, DbError>) {
    Selected(HasKey(ParentOf(), id), DecodableIn(c, ForeignKeys, DecodeFk))
  }

  function GetFkByName(c: Catalog, id: u32, name: bytes): (r: Result<Option<Fk.FkDef>, DbError>) {
    var all := DecodableIn(c, ForeignKeys, DecodeFk);
    if all.Err? then Err(all.error) else Ok(FirstOf(Both(HasKey(ChildOf(), id), FkNamed(name)), all.value))
  }

  function ListConstraints(c: Catalog, id: u32): (r: Result<seq<Con.ConstraintDef>, DbError>) {
    Selected(ConstraintOf(id), DecodableIn(c, Constraints, DecodeConstraint))
  }

  method DecodableMatches<T>(c: Catalog, s: Slot, dec: Decoder<T>, p: T -> bool) returns (r: Result<seq<T>, DbError>)
    ensures r == Selected(p, DecodableIn(c, s, dec))
  {
    var root := RootIn(c, s);
    if root == 0 {
      return Ok([]);
    }
    var rows := ScanVisible(c.heaps, root, c.snap);
    if rows.Err? {
      return Err(rows.error);
    }
    var result := CollectDecodable(dec, p, rows.value);
    return Ok(result);
  }

  method LookupFkByName(c: Catalog, id: u32, name: bytes) returns (r: Result<Option<Fk.FkDef>, DbError>)
    ensures r == GetFkByName(c, id, name)
  {
    hide DecodeFk;
    var root := RootIn(c, ForeignKeys);
    if root == 0 {
      return Ok(None);
    }
    var rows := ScanVisible(c.heaps, root, c.snap);
    if rows.Err? {
      return Err(rows.error);
    }
    var fk := FindDecodable(DecodeFk, Both(HasKey(ChildOf(), id), FkNamed(name)), rows.value);
    return Ok(fk);
  }

  function AnyForeignTable(): ForeignTableDef -> bool {
    (d: ForeignTableDef) => true
  }

  /** The largest id so far, starting from the reserved base. */
  function MaxId(ts: seq<ForeignTableDef>): (m: u32) {
    if ts == [] then FOREIGN_TABLE_ID_BASE
    else
      var m := MaxId(ts[..|ts| - 1]);
      if ts[|ts| - 1].tableId > m then ts[|ts| - 1].tableId else m
  }

  lemma {:induction false} MaxIdOfNone()
    ensures MaxId([]) == FOREIGN_TABLE_ID_BASE
  {
  }

  lemma {:induction false} MaxIdStep(ts: seq<ForeignTableDef>, t: ForeignTableDef)
    ensures MaxId(ts + [t]) == if t.tableId > MaxId(ts) then t.tableId else MaxId(ts)
  {
    assert (ts + [t])[..|ts|] == ts;
  }

  /** The sum wraps around at 32 bits, as it does without overflow checks. */
  function NextForeignTableId(c: Catalog): (r: Result<u32, DbError>) {
    var ts := ListIn(c, ForeignTables, c.codecs.foreignTable, AnyForeignTable());
    if ts.Err? then Err(ts.error) else Ok((MaxId(ts.value) + 1) % 0x1_0000_0000)
  }

  method NextForeignId(c: Catalog) returns (r: Result<u32, DbError>)
    ensures r == NextForeignTableId(c)
  {
    hide MaxId;
    MaxIdOfNone();
    var root := RootIn(c, ForeignTables);
    if root == 0 {
      return Ok(FOREIGN_TABLE_ID_BASE + 1);
    }
    var scan := ScanVisible(c.heaps, root, c.snap);
    if scan.Err? {
      return Err(scan.error);
    }
    var rows := scan.value;
    var maxId: nat := FOREIGN_TABLE_ID_BASE;
    ghost var seen := [];
    for i := 0 to |rows|
      invariant All(c.codecs.foreignTable, AnyForeignTable(), rows[..i]) == Ok(seen)
      invariant maxId == MaxId(seen)
    {
      assert rows[..i + 1][..i] == rows[..i];
      var d := c.codecs.foreignTable(rows[i]);
      if d.Err? {
        AllErrorsStay(c.codecs.foreignTable, AnyForeignTable(), rows, i + 1);
        return Err(Parse(d.error));
      }
      MaxIdStep(seen, d.value);
      seen := seen + [d.value];
      if d.value.tableId > maxId {
        maxId := d.value.tableId;
      }
    }
    assert rows[..|rows|] == rows;
    return Ok((maxId + 1) % 0x1_0000_0000);
  }

  // ---------------------------------------------------------------------------
  // What the lookups say about each other

  lemma {:induction false} DatabaseOrder()
    ensures TotalPreorder(DatabaseLe())
  {
    hide LexLe;
    forall a: DatabaseDef, b: DatabaseDef ensures DatabaseLe()(a, b) || DatabaseLe()(b, a) {
      LexOrder(a.name, b.name, b.name);
    }
    forall a: DatabaseDef, b: DatabaseDef, c: DatabaseDef | DatabaseLe()(a, b) && DatabaseLe()(b, c) ensures DatabaseLe()(a, c) {
      LexOrder(a.name, b.name, c.name);
    }
  }

  lemma {:induction false} SchemaOrder()
    ensures TotalPreorder(SchemaLe())
  {
    hide LexLe;
    forall a: SchemaDef, b: SchemaDef ensures SchemaLe()(a, b) || SchemaLe()(b, a) {
      LexOrder(a.name, b.name, b.name);
    }
    forall a: SchemaDef, b: SchemaDef, c: SchemaDef | SchemaLe()(a, b) && SchemaLe()(b, c) ensures SchemaLe()(a, c) {
      LexOrder(a.name, b.name, c.name);
    }
  }

  /** Listing databases sorts them by name and loses none, and a database can be looked
      up exactly when it is listed. */
  lemma {:induction false} DatabasesListed(c: Catalog, name: bytes)
    requires ListDatabases(c).Ok?
    ensures var ds, d := ListDatabases(c).value, GetDatabase(c, name);
            && (forall i, j :: 0 <= i < j < |ds| ==> LexLe(ds[i].name, ds[j].name))
            && (RootIn(c, Databases) != 0 ==> multiset(ds) == multiset(Decodable(DecodeDatabase, Rows(c, Databases).value)))
            && d.Ok?
            && (d.value.Some? <==> exists x :: x in ds && x.name == name)
            && (d.value.Some? ==> d.value.value in ds && d.value.value.name == name)
  {
    hide Rows, DecodeDatabase, Sort, Sorted, LexLe, Decodable, DEFAULT_DATABASE;
    if RootIn(c, Databases) == 0 {
      OneSorted(DEFAULT_DATABASE_DEF);
      assert DEFAULT_DATABASE_DEF in [DEFAULT_DATABASE_DEF];
    } else {
      var rows := Rows(c, Databases).value;
      var all := Decodable(DecodeDatabase, rows);
      AllMeans(DecodeDatabase, AnyDatabase(), rows);
      FilterAll(AnyDatabase(), all);
      FirstMeans(DecodeDatabase, NamedDatabase(name), rows);
      DatabaseOrder();
      SortIsSorted(DatabaseLe(), all);
      SameMembers(ListDatabases(c).value, all);
    }
    DatabasesByName(ListDatabases(c).value);
  }

  lemma {:induction false} DatabasesByName(ds: seq<DatabaseDef>)
    ensures Sorted(DatabaseLe(), ds) <==> forall i, j :: 0 <= i < j < |ds| ==> LexLe(ds[i].name, ds[j].name)
  {
    hide LexLe;
    forall a: DatabaseDef, b: DatabaseDef ensures DatabaseLe()(a, b) == LexLe(a.name, b.name) {
    }
  }

  lemma {:induction false} SchemasByName(ds: seq<SchemaDef>)
    ensures Sorted(SchemaLe(), ds) <==> forall i, j :: 0 <= i < j < |ds| ==> LexLe(ds[i].name, ds[j].name)
  {
    hide LexLe;
    forall a: SchemaDef, b: SchemaDef ensures SchemaLe()(a, b) == LexLe(a.name, b.name) {
    }
  }

  lemma {:induction false} OneSorted(d: DatabaseDef)
    ensures Sorted(DatabaseLe(), [d])
  {
  }

  lemma {:induction false} FilterAll<T>(p: T -> bool, xs: seq<T>)
    requires forall x :: x in xs ==> p(x)
    ensures Filter(p, xs) == xs
  {
    if xs != [] {
      FilterAll(p, xs[..|xs| - 1]);
    }
  }

  lemma {:induction false} SameMembers<T>(xs: seq<T>, ys: seq<T>)
    requires multiset(xs) == multiset(ys)
    ensures forall x :: x in xs <==> x in ys
  {
    forall x ensures x in xs <==> x in ys {
      assert x in xs <==> x in multiset(xs);
      assert x in ys <==> x in multiset(ys);
    }
  }

  /** The schemas of a database are `public` and those with a row, by name, and the
      schema test finds each of them. */
  lemma {:induction false} SchemasListed(c: Catalog, db: bytes, schema: bytes)
    requires ListSchemas(c, db).Ok?
    ensures var ds, all := ListSchemas(c, db).value, Decodable(DecodeSchema, Rows(c, Schemas).value);
            && (forall i, j :: 0 <= i < j < |ds| ==> LexLe(ds[i].name, ds[j].name))
            && (SchemaDef(db, schema) in ds <==> schema == PUBLIC || SchemaDef(db, schema) in all)
            && (forall d :: d in ds ==> d.databaseName == db)
            && (SchemaDef(db, schema) in ds ==> SchemaExists(c, db, schema) == Ok(true))
  {
    hide DecodeSchema, Sort, Sorted, LexLe, Decodable, Filter, GetTable, PUBLIC, IsVisible;
    var rows := Rows(c, Schemas).value;
    var all := Decodable(DecodeSchema, rows);
    var found := Filter(SchemaIn(db), all);
    AllMeans(DecodeSchema, SchemaIn(db), rows);
    FilterMembers(SchemaIn(db), all);
    FirstMeans(DecodeSchema, SchemaIs(db, schema), rows);
    SchemaOrder();
    SortIsSorted(SchemaLe(), WithPublic(found, db));
    SameMembers(ListSchemas(c, db).value, WithPublic(found, db));
    PublicAdded(found, db);
    NothingDecoded(c);
    SchemasByName(ListSchemas(c, db).value);
  }

  lemma {:induction false} NoSchemas(c: Catalog, db: bytes)
    ensures RootIn(c, Schemas) == 0 ==> ListIn(c, Schemas, DecodeSchema, SchemaIn(db)) == Ok([])
  {
  }

  lemma {:induction false} PublicAdded(found: seq<SchemaDef>, db: bytes)
    requires forall d :: d in found ==> d.databaseName == db
    ensures forall d :: d in WithPublic(found, db) <==> d in found || d == SchemaDef(db, PUBLIC)
  {
    hide PUBLIC;
    var p := FirstOf(IsPublic(), found);
    if p.Some? {
      assert p.value == SchemaDef(db, PUBLIC);
    }
  }

  lemma {:induction false} NothingDecoded(c: Catalog)
    requires RootIn(c, Schemas) == 0 ==> Rows(c, Schemas).Ok?
    ensures RootIn(c, Schemas) == 0 ==> Decodable(DecodeSchema, Rows(c, Schemas).value) == []
  {
    hide DecodeSchema;
  }

  /** `owner` is the database of the first binding of the table, or the default if it
      has none. */
  ghost predicate DecidedByFirst(bs: seq<TableDatabaseDef>, id: u32, owner: bytes) {
    if exists b :: b in bs && b.tableId == id then
      exists i :: 0 <= i < |bs| && bs[i].tableId == id && bs[i].databaseName == owner
                  && forall j :: 0 <= j < i ==> bs[j].tableId != id
    else owner == DEFAULT_DATABASE
  }

  /** The owner of a table can be read when all bindings decode, and then the first
      binding decides. */
  lemma {:induction false} FirstBindingWins(c: Catalog, id: u32)
    requires Rows(c, TableDatabases).Ok? && AllDecode(DecodeBinding, Rows(c, TableDatabases).value)
    ensures var bs, owner := Decodable(DecodeBinding, Rows(c, TableDatabases).value), EffectiveDatabase(c, id);
            owner.Ok? && DecidedByFirst(bs, id, owner.value)
  {
    hide DecodeBinding, Rows, Decodable, DEFAULT_DATABASE;
    var rows := Rows(c, TableDatabases).value;
    var bs := Decodable(DecodeBinding, rows);
    FirstMeans(DecodeBinding, BindingOf(id), rows);
    if FirstOf(BindingOf(id), bs).Some? {
      FirstOfIsFirst(BindingOf(id), bs);
    }
  }

  /** Where the schemas can be listed, the schema test answers true exactly for listed
      schemas and, once there is a schemas root, for schemas with a table. */
  lemma {:induction false} SchemaExistsIff(c: Catalog, db: bytes, schema: bytes)
    requires ListSchemas(c, db).Ok?
    ensures SchemaExists(c, db, schema) == Ok(true)
       <==> || SchemaDef(db, schema) in ListSchemas(c, db).value
            || (RootIn(c, Schemas) != 0 && var t := GetTable(c, db, schema, None); t.Ok? && t.value.Some?)
  {
    hide DecodeSchema, Sort, Sorted, LexLe, Decodable, Filter, GetTable, PUBLIC, IsVisible, Scan;
    SchemasListed(c, db, schema);
    var rows := Rows(c, Schemas).value;
    AllMeans(DecodeSchema, SchemaIn(db), rows);
    FirstMeans(DecodeSchema, SchemaIs(db, schema), rows);
  }

  /** Listing columns sorts those of the table by index and loses none. */
  lemma {:induction false} ColumnsListed(c: Catalog, id: u32)
    requires ListColumns(c, id).Ok?
    ensures var all, cols := ListIn(c, Columns, c.codecs.column, ColumnOf(id)), ListColumns(c, id).value;
            && all.Ok? && multiset(cols) == multiset(all.value)
            && (forall i, j :: 0 <= i < j < |cols| ==> cols[i].colIdx <= cols[j].colIdx)
            && Rows(c, Columns).Ok?
            && forall d :: d in cols <==> d in Decodable(c.codecs.column, Rows(c, Columns).value) && d.tableId == id
  {
    hide Sort, Rows, Decodable, All;
    var all, cols := ListIn(c, Columns, c.codecs.column, ColumnOf(id)).value, ListColumns(c, id).value;
    ColumnOrder();
    SortIsSorted(ColumnLe(), all);
    ColumnsByIndex(cols);
    SameMembers(cols, all);
    ListedMembers(c, Columns, c.codecs.column, ColumnOf(id));
  }

  lemma {:induction false} ColumnsByIndex(cols: seq<ColumnDef>)
    ensures Sorted(ColumnLe(), cols) <==> forall i, j :: 0 <= i < j < |cols| ==> cols[i].colIdx <= cols[j].colIdx
  {
    forall a: ColumnDef, b: ColumnDef ensures ColumnLe()(a, b) == (a.colIdx <= b.colIdx) {
    }
  }

  /** A strict listing holds the matches among the visible rows, all of which decode. */
  lemma {:induction false} ListedMembers<T>(c: Catalog, t: Slot, dec: Decoder<T>, p: T -> bool)
    requires ListIn(c, t, dec, p).Ok?
    ensures Rows(c, t).Ok? && AllDecode(dec, Rows(c, t).value)
    ensures forall d :: d in ListIn(c, t, dec, p).value <==> d in Decodable(dec, Rows(c, t).value) && p(d)
  {
    hide Rows, Decodable, All, Filter;
    var rows := Rows(c, t).value;
    AllMeans(dec, p, rows);
    FilterMembers(p, Decodable(dec, rows));
  }

  lemma {:induction false} ColumnOrder()
    ensures TotalPreorder(ColumnLe())
  {
  }
}
