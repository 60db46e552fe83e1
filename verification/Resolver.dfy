/** Name resolution over the catalog reader. */
module Resolver {
  import opened Bytes
  import opened MetaPage
  import opened StorageEngine
  import Namespaces
  import B = Bootstrap
  import L = Lists
  import Own = Ownership
  import opened Scans
  import opened Reader
  import Fk = ForeignKeys
  import Con = Constraints

  datatype ResolvedTable = ResolvedTable(
    def: TableDef, columns: seq<ColumnDef>, indexes: seq<IndexDef>,
    constraints: seq<Con.ConstraintDef>, foreignKeys: seq<Fk.FkDef>)

  datatype SchemaResolver = SchemaResolver(reader: Catalog, defaultDatabase: bytes, defaultSchema: bytes)

  function SchemaOr(r: SchemaResolver, schema: Option<bytes>): bytes {
    if schema.Some? then schema.value else r.defaultSchema
  }

  function TableExists(r: SchemaResolver, schema: Option<bytes>, name: bytes): (res: Result<bool, DbError>) {
    var t := GetTable(r.reader, r.defaultDatabase, SchemaOr(r, schema), Some(name));
    if t.Err? then Err(t.error) else Ok(t.value.Some?)
  }

  function ListIndexes(c: Catalog, id: u32): (r: Result<seq<IndexDef>, DbError>) {
    ListIn(c, Indexes, c.codecs.index, IndexOf(id))
  }

  function ResolveTable(r: SchemaResolver, schema: Option<bytes>, name: bytes): (res: Result<ResolvedTable, DbError>) {
    var t := GetTable(r.reader, r.defaultDatabase, SchemaOr(r, schema), Some(name));
    if t.Err? then Err(t.error)
    else if t.value.None? then Err(TableNotFound(SchemaOr(r, schema), name))
    else
      var id := t.value.value.id;
      var columns := ListColumns(r.reader, id);
      if columns.Err? then Err(columns.error)
      else
        var indexes := ListIndexes(r.reader, id);
        if indexes.Err? then Err(indexes.error)
        else
          var constraints := ListConstraints(r.reader, id);
          if constraints.Err? then Err(constraints.error)
          else
            var fks := ListFks(r.reader, id);
            if fks.Err? then Err(fks.error)
            else Ok(ResolvedTable(t.value.value, columns.value, indexes.value, constraints.value, fks.value))
  }

  function ColumnNamed(name: bytes): ColumnDef -> bool {
    (d: ColumnDef) => d.name == name
  }

  function TableWithId(id: u32): TableDef -> bool {
    (d: TableDef) => d.id == id
  }

  /** Even the failing path reads the catalog, for the table's label. */
  function ResolveColumn(r: SchemaResolver, id: u32, name: bytes): (res: Result<ColumnDef, DbError>) {
    var columns := ListColumns(r.reader, id);
    if columns.Err? then Err(columns.error)
    else
      var col := L.FirstOf(ColumnNamed(name), columns.value);
      if col.Some? then Ok(col.value)
      else
        var t := FindIn(r.reader, Tables, r.reader.codecs.table, TableWithId(id));
        if t.Err? then Err(t.error) else Err(ColumnNotFound(id, name))
  }

  // ---------------------------------------------------------------------------
  // Reading sound storage

  /** On sound storage no scan fails: a lookup fails on undecodable rows only. */
  lemma {:induction false} RowsReadable(s: Store, snap: Snapshot, codecs: Codecs, t: Slot)
    requires B.Sound(s)
    ensures Rows(CatalogOf(s, snap, codecs), t).Ok?
  {
    hide Root, Visible;
    B.AllSlots(t);
    assert RootIn(CatalogOf(s, snap, codecs), t) == Root(s.meta, t);
  }

  ghost predicate Decodes<T>(c: Catalog, t: Slot, dec: Decoder<T>) {
    Rows(c, t).Ok? && AllDecode(dec, Rows(c, t).value)
  }

  lemma {:induction false} ListedIff<T>(s: Store, snap: Snapshot, codecs: Codecs, t: Slot, dec: Decoder<T>, p: T -> bool)
    requires B.Sound(s)
    ensures var c := CatalogOf(s, snap, codecs);
            && (ListIn(c, t, dec, p).Ok? <==> Decodes(c, t, dec))
            && DecodableIn(c, t, dec).Ok?
            && (Decodes(c, t, dec) ==> ListIn(c, t, dec, p) == Ok(L.Filter(p, DecodableIn(c, t, dec).value)))
  {
    hide Rows, CatalogOf, B.Sound, L.Filter, All, Decodable;
    var c := CatalogOf(s, snap, codecs);
    RowsReadable(s, snap, codecs, t);
    AllMeans(dec, p, Rows(c, t).value);
  }

  // ---------------------------------------------------------------------------
  // Resolution

  /** On sound storage a table resolves exactly when it exists and every column row
      and index row decodes; constraints and foreign keys never stand in the way. */
  lemma {:induction false} ResolvesIffExists(s: Store, snap: Snapshot, codecs: Codecs, db: bytes, default: bytes, schema: Option<bytes>, name: bytes)
    requires B.Sound(s)
    ensures var c := CatalogOf(s, snap, codecs);
            var r := SchemaResolver(c, db, default);
            ResolveTable(r, schema, name).Ok?
            <==> && TableExists(r, schema, name) == Ok(true)
                 && Decodes(c, Columns, codecs.column) && Decodes(c, Indexes, codecs.index)
  {
    hide B.Sound, GetTable, ListIn, DecodableIn, Decodes, L.Sort, L.Filter, DecodeFk, DecodeConstraint;
    var r := SchemaResolver(CatalogOf(s, snap, codecs), db, default);
    var t := GetTable(r.reader, db, SchemaOr(r, schema), Some(name));
    if t.Ok? && t.value.Some? {
      var id := t.value.value.id;
      ListedIff(s, snap, codecs, Columns, codecs.column, ColumnOf(id));
      ListedIff(s, snap, codecs, Indexes, codecs.index, IndexOf(id));
      ListedIff(s, snap, codecs, Constraints, DecodeConstraint, ConstraintOf(id));
      ListedIff(s, snap, codecs, ForeignKeys, DecodeFk, L.HasKey(ChildOf(), id));
    }
  }

  function ColumnIndex(): ColumnDef -> u16 {
    (d: ColumnDef) => d.colIdx
  }

  /** The columns of a resolved table are the visible columns of that table, sorted by
      index, with equal indexes in stored order. */
  lemma {:induction false} ResolvedColumns(r: SchemaResolver, schema: Option<bytes>, name: bytes, k: u16)
    requires ResolveTable(r, schema, name).Ok?
    ensures var t := ResolveTable(r, schema, name).value;
            var all := ListIn(r.reader, Columns, r.reader.codecs.column, ColumnOf(t.def.id));
            && all.Ok?
            && multiset(t.columns) == multiset(all.value)
            && (forall i, j :: 0 <= i < j < |t.columns| ==> t.columns[i].colIdx <= t.columns[j].colIdx)
            && L.Filter(L.HasKey(ColumnIndex(), k), t.columns) == L.Filter(L.HasKey(ColumnIndex(), k), all.value)
  {
    hide GetTable, ListIn, L.Sort, L.Filter, ListIndexes, ListConstraints, ListFks;
    var t := ResolveTable(r, schema, name).value;
    var all := ListIn(r.reader, Columns, r.reader.codecs.column, ColumnOf(t.def.id)).value;
    ColumnOrder();
    L.SortIsSorted(ColumnLe(), all);
    L.SortIsStable(ColumnLe(), L.HasKey(ColumnIndex(), k), all);
    assert t.columns == L.Sort(ColumnLe(), all);
    forall i, j | 0 <= i < j < |t.columns| ensures t.columns[i].colIdx <= t.columns[j].colIdx {
      assert ColumnLe()(t.columns[i], t.columns[j]);
    }
  }

  /** A resolved table is one of the database's in the schema that was named, or in the
      default schema if none was, and holds exactly what belongs to it: its columns and
      indexes among the visible rows, the constraints and foreign keys among the rows
      that decode. Each foreign key is listed by its parent too. */
  lemma {:induction false} ResolvedBelongs(r: SchemaResolver, schema: Option<bytes>, name: bytes)
    requires ResolveTable(r, schema, name).Ok?
    ensures var t := ResolveTable(r, schema, name).value;
            && (schema.Some? ==> t.def.schemaName == schema.value)
            && (schema.None? ==> t.def.schemaName == r.defaultSchema)
            && t.def.tableName == name
            && EffectiveDatabase(r.reader, t.def.id) == Ok(r.defaultDatabase)
            && HoldsOwn(r.reader, t)
  {
    hide *;
    var t := ResolveTable(r, schema, name).value;
    ResolvedParts(r, schema, name);
    SchemaAsked(r, schema);
    FoundTable(r.reader, r.defaultDatabase, SchemaOr(r, schema), name);
    PartsBelong(r.reader, t);
  }

  lemma {:induction false} SchemaAsked(r: SchemaResolver, schema: Option<bytes>)
    ensures schema.Some? ==> SchemaOr(r, schema) == schema.value
    ensures schema.None? ==> SchemaOr(r, schema) == r.defaultSchema
  {
  }

  ghost predicate HoldsOwn(c: Catalog, t: ResolvedTable) {
    && Rows(c, Columns).Ok? && Rows(c, Indexes).Ok? && Rows(c, Constraints).Ok? && Rows(c, ForeignKeys).Ok?
    && (forall d :: d in t.columns <==> d in Decodable(c.codecs.column, Rows(c, Columns).value) && d.tableId == t.def.id)
    && (forall d :: d in t.indexes <==> d in Decodable(c.codecs.index, Rows(c, Indexes).value) && d.tableId == t.def.id)
    && (forall d :: d in t.constraints
                    <==> d in Decodable(DecodeConstraint, Rows(c, Constraints).value) && d.base.tableId == t.def.id)
    && (forall f :: f in t.foreignKeys <==> f in Decodable(DecodeFk, Rows(c, ForeignKeys).value) && f.base.childTable == t.def.id)
    && (forall f :: f in t.foreignKeys ==> ListedByParent(c, f))
  }

  lemma {:induction false} PartsBelong(c: Catalog, t: ResolvedTable)
    requires ListColumns(c, t.def.id) == Ok(t.columns) && ListIndexes(c, t.def.id) == Ok(t.indexes)
    requires ListConstraints(c, t.def.id) == Ok(t.constraints) && ListFks(c, t.def.id) == Ok(t.foreignKeys)
    ensures HoldsOwn(c, t)
  {
    hide ListColumns, ListIndexes, ListConstraints, ListFks, Rows, Decodable, ListedByParent;
    ColumnsListed(c, t.def.id);
    IndexesBelong(c, t.def.id);
    ConstraintsBelong(c, t.def.id);
    FksBelong(c, t.def.id);
  }

  ghost predicate ListedByParent(c: Catalog, f: Fk.FkDef) {
    var parent := ListFksReferencing(c, f.base.parentTable);
    parent.Ok? && f in parent.value
  }

  lemma {:induction false} ResolvedParts(r: SchemaResolver, schema: Option<bytes>, name: bytes)
    requires ResolveTable(r, schema, name).Ok?
    ensures var t := ResolveTable(r, schema, name).value;
            && GetTable(r.reader, r.defaultDatabase, SchemaOr(r, schema), Some(name)) == Ok(Some(t.def))
            && ListColumns(r.reader, t.def.id) == Ok(t.columns)
            && ListIndexes(r.reader, t.def.id) == Ok(t.indexes)
            && ListConstraints(r.reader, t.def.id) == Ok(t.constraints)
            && ListFks(r.reader, t.def.id) == Ok(t.foreignKeys)
  {
    hide GetTable, ListColumns, ListIndexes, ListConstraints, ListFks;
  }

  lemma {:induction false} IndexesBelong(c: Catalog, id: u32)
    requires ListIndexes(c, id).Ok?
    ensures Rows(c, Indexes).Ok?
    ensures forall d :: d in ListIndexes(c, id).value <==> d in Decodable(c.codecs.index, Rows(c, Indexes).value) && d.tableId == id
  {
    hide ListIn, Rows, Decodable;
    ListedMembers(c, Indexes, c.codecs.index, IndexOf(id));
  }

  lemma {:induction false} ConstraintsBelong(c: Catalog, id: u32)
    requires ListConstraints(c, id).Ok?
    ensures Rows(c, Constraints).Ok?
    ensures forall d :: d in ListConstraints(c, id).value
                   <==> d in Decodable(DecodeConstraint, Rows(c, Constraints).value) && d.base.tableId == id
  {
    hide Rows, Decodable, L.Filter;
    L.FilterMembers(ConstraintOf(id), Decodable(DecodeConstraint, Rows(c, Constraints).value));
  }

  lemma {:induction false} FksBelong(c: Catalog, id: u32)
    requires ListFks(c, id).Ok?
    ensures Rows(c, ForeignKeys).Ok?
    ensures forall f :: f in ListFks(c, id).value
                   <==> f in Decodable(DecodeFk, Rows(c, ForeignKeys).value) && f.base.childTable == id
    ensures forall f :: f in ListFks(c, id).value ==> ListedByParent(c, f)
  {
    hide Rows, Decodable, L.Filter;
    var all := Decodable(DecodeFk, Rows(c, ForeignKeys).value);
    L.FilterMembers(L.HasKey(ChildOf(), id), all);
    forall f | f in ListFks(c, id).value ensures ListedByParent(c, f) {
      L.FilterMembers(L.HasKey(ParentOf(), f.base.parentTable), all);
    }
  }

  lemma {:induction false} FoundTable(c: Catalog, db: bytes, schema: bytes, name: bytes)
    ensures var t := GetTable(c, db, schema, Some(name));
            t.Ok? && t.value.Some? ==>
              && t.value.value.schemaName == schema && t.value.value.tableName == name
              && EffectiveDatabase(c, t.value.value.id) == Ok(db)
  {
    hide EffectiveDatabase, TableAmong, Rows;
    var rows := Rows(c, Tables);
    if rows.Ok? {
      FoundAmong(c, rows.value, db, schema, name);
    }
  }

  lemma {:induction false} FoundAmong(c: Catalog, rows: seq<bytes>, db: bytes, schema: bytes, name: bytes)
    ensures var t := TableAmong(c, rows, db, schema, Some(name));
            t.Ok? && t.value.Some? ==>
              && t.value.value.schemaName == schema && t.value.value.tableName == name
              && EffectiveDatabase(c, t.value.value.id) == Ok(db)
  {
    hide EffectiveDatabase;
    if rows != [] {
      FoundAmong(c, rows[1..], db, schema, name);
    }
  }

  /** Where the owners of all tables can be read: a table exists under a schema exactly
      when the database lists one of that name there, the schema being the one named or
      else the default one. */
  lemma {:induction false} ExistsIffListed(r: SchemaResolver, schema: Option<bytes>, name: bytes)
    requires Rows(r.reader, Tables).Ok? && Own.OwnersKnown(r.reader, Rows(r.reader, Tables).value)
    ensures var listed := OwnedTables(r.reader, r.defaultDatabase, Some(if schema.Some? then schema.value else r.defaultSchema));
            && listed.Ok? && TableExists(r, schema, name).Ok?
            && (TableExists(r, schema, name) == Ok(true) <==> exists t :: t in listed.value && t.tableName == name)
  {
    hide OwnedTables, GetTable, Own.OwnersKnown, Rows;
    var s := if schema.Some? then schema.value else r.defaultSchema;
    Own.LookupIsFirstListed(r.reader, r.defaultDatabase, s, Some(name));
  }

  /** A table that does not exist is reported as such, and nothing else is. */
  lemma {:induction false} NotFoundIff(r: SchemaResolver, schema: Option<bytes>, name: bytes)
    ensures ResolveTable(r, schema, name) == Err(TableNotFound(if schema.Some? then schema.value else r.defaultSchema, name))
       <==> TableExists(r, schema, name) == Ok(false)
  {
    hide GetTable, ListIn, DecodableIn, L.Sort, L.Filter, DecodeFk, DecodeConstraint;
    var t := GetTable(r.reader, r.defaultDatabase, SchemaOr(r, schema), Some(name));
    TableErrors(r.reader, r.defaultDatabase, SchemaOr(r, schema), Some(name));
    if t.Ok? && t.value.Some? {
      var id := t.value.value.id;
      ListErrors(r.reader, Columns, r.reader.codecs.column, ColumnOf(id));
      ListErrors(r.reader, Indexes, r.reader.codecs.index, IndexOf(id));
      RowErrors(r.reader, Constraints, DecodeConstraint);
      RowErrors(r.reader, ForeignKeys, DecodeFk);
    }
  }

  predicate ReadError(e: DbError) {
    e.Parse? || e.PageNotFound?
  }

  lemma {:induction false} ListErrors<T>(c: Catalog, t: Slot, dec: Decoder<T>, p: T -> bool)
    ensures var r := ListIn(c, t, dec, p); r.Err? ==> ReadError(r.error)
  {
    hide All, Visible;
    if Rows(c, t).Ok? && ListIn(c, t, dec, p).Err? {
      AllFailsFirst(dec, p, Rows(c, t).value);
    }
  }

  lemma {:induction false} FindErrors<T>(c: Catalog, t: Slot, dec: Decoder<T>, p: T -> bool)
    ensures var r := FindIn(c, t, dec, p); r.Err? ==> ReadError(r.error)
  {
    hide First, Visible;
    if Rows(c, t).Ok? {
      FirstTells(dec, p, Rows(c, t).value);
    }
  }

  lemma {:induction false} RowErrors<T>(c: Catalog, t: Slot, dec: Decoder<T>)
    ensures var r := DecodableIn(c, t, dec); r.Err? ==> ReadError(r.error)
  {
    hide Decodable, Visible;
  }

  lemma {:induction false} TableErrors(c: Catalog, db: bytes, schema: bytes, name: Option<bytes>)
    ensures var r := GetTable(c, db, schema, name); r.Err? ==> ReadError(r.error)
  {
    hide Visible, TableAmong;
    if Rows(c, Tables).Ok? {
      AmongErrors(c, Rows(c, Tables).value, db, schema, name);
    }
  }

  lemma {:induction false} AmongErrors(c: Catalog, rows: seq<bytes>, db: bytes, schema: bytes, name: Option<bytes>)
    ensures var r := TableAmong(c, rows, db, schema, name); r.Err? ==> ReadError(r.error)
  {
    hide EffectiveDatabase;
    if rows != [] {
      AmongErrors(c, rows[1..], db, schema, name);
      var t := c.codecs.table(rows[0]);
      if t.Ok? {
        OwnerErrors(c, t.value.id);
      }
    }
  }

  lemma {:induction false} OwnerErrors(c: Catalog, id: u32)
    ensures var r := EffectiveDatabase(c, id); r.Err? ==> ReadError(r.error)
  {
    hide FindIn;
    FindErrors(c, TableDatabases, Namespaces.DecodeBinding, BindingOf(id));
  }

  /** Resolving a column of a resolved table succeeds exactly on the listed names, and
      gives the listed column of that name with the lowest index. */
  lemma {:induction false} ColumnResolvesIffListed(r: SchemaResolver, schema: Option<bytes>, table: bytes, name: bytes)
    requires ResolveTable(r, schema, table).Ok?
    ensures var t := ResolveTable(r, schema, table).value;
            var col := ResolveColumn(r, t.def.id, name);
            && (col.Ok? <==> exists d :: d in t.columns && d.name == name)
            && (col.Ok? ==> && col.value in t.columns && col.value.name == name
                            && forall d :: d in t.columns && d.name == name ==> col.value.colIdx <= d.colIdx)
            && (col.Err? ==> col.error == ColumnNotFound(t.def.id, name) || ReadError(col.error))
  {
    hide GetTable, ListColumns, ListIndexes, ListConstraints, ListFks, L.Filter, FindIn, ListIn;
    var t := ResolveTable(r, schema, table).value;
    ResolvedColumns(r, schema, table, 0);
    FirstIsLowest(ColumnNamed(name), t.columns);
    FindErrors(r.reader, Tables, r.reader.codecs.table, TableWithId(t.def.id));
  }

  lemma {:induction false} FirstIsLowest(p: ColumnDef -> bool, cols: seq<ColumnDef>)
    requires forall i, j :: 0 <= i < j < |cols| ==> cols[i].colIdx <= cols[j].colIdx
    ensures var col := L.FirstOf(p, cols);
            col.Some? ==> forall d :: d in cols && p(d) ==> col.value.colIdx <= d.colIdx
  {
    if cols != [] && !p(cols[0]) {
      FirstIsLowest(p, cols[1..]);
    }
  }
}
