/** Rows of `axiom_databases`, `axiom_table_databases` and `axiom_schemas`. */
module Namespaces {
  import opened Bytes

  datatype DatabaseDef = DatabaseDef(name: bytes, defaultCollation: Option<bytes>)

  datatype TableDatabaseDef = TableDatabaseDef(tableId: u32, databaseName: bytes)

  datatype SchemaDef = SchemaDef(databaseName: bytes, name: bytes)

  /** "axiomdb" */
  const DEFAULT_DATABASE: bytes := [97, 120, 105, 111, 109, 100, 98]

  /** "public" */
  const PUBLIC: bytes := [112, 117, 98, 108, 105, 99]

  const DEFAULT_DATABASE_DEF := DatabaseDef(DEFAULT_DATABASE, None)

  const PUBLIC_SCHEMA_DEF := SchemaDef(DEFAULT_DATABASE, PUBLIC)

  function EncodeDatabase(d: DatabaseDef): bytes {
    Str1(d.name) + Str1(if d.defaultCollation.Some? then d.defaultCollation.value else [])
  }

  /** Rows written before collations existed end after the name. */
  function DecodeDatabase(data: bytes): (r: Result<DatabaseDef, ParseError>) {
    var name := ReadStr1(data, 0, 0);
    if name.Err? then Err(name.error)
    else
      var pos := |Str1(name.value)|;
      if |data| <= pos then Ok(DatabaseDef(name.value, None))
      else
        var coll := ReadStr1(data, pos, 0);
        if coll.Err? then Err(coll.error)
        else Ok(DatabaseDef(name.value, if coll.value == [] then None else Some(coll.value)))
  }

  function EncodeSchema(d: SchemaDef): bytes {
    Str1(d.databaseName) + Str1(d.name)
  }

  function DecodeSchema(data: bytes): (r: Result<SchemaDef, ParseError>) {
    var db := ReadStr1(data, 0, 1);
    if db.Err? then Err(db.error)
    else
      var name := ReadStr1(data, |Str1(db.value)|, 0);
      if name.Err? then Err(name.error) else Ok(SchemaDef(db.value, name.value))
  }

  function EncodeBinding(d: TableDatabaseDef): bytes {
    U32(d.tableId) + Str1(d.databaseName)
  }

  function DecodeBinding(data: bytes): (r: Result<TableDatabaseDef, ParseError>) {
    if |data| < 5 then Err(Truncated)
    else
      var name := ReadStr1(data, 4, 0);
      if name.Err? then Err(name.error) else Ok(TableDatabaseDef(ToU32(data[0..4]), name.value))
  }

  lemma {:induction false} DatabaseRoundTrip(d: DatabaseDef)
    requires Fits1(d.name) && (d.defaultCollation.Some? ==> Fits1(d.defaultCollation.value))
    ensures DecodeDatabase(EncodeDatabase(d)) == Ok(d) <==> d.defaultCollation != Some([])
  {
    hide Has, Str1, ReadStr1, ValidUtf8;
    var coll := if d.defaultCollation.Some? then d.defaultCollation.value else [];
    var e := EncodeDatabase(d);
    EmptyFits();
    HasAll(e, e);
    HasConcat(e, 0, Str1(d.name), Str1(coll));
    ReadStr1Has(e, 0, 0, d.name);
    ReadStr1Has(e, |Str1(d.name)|, 0, coll);
  }

  /** The name of an empty collation is lost. */
  lemma {:induction false} EmptyCollationIsLost(name: bytes)
    requires Fits1(name)
    ensures DecodeDatabase(EncodeDatabase(DatabaseDef(name, Some([])))) == Ok(DatabaseDef(name, None))
  {
    hide DecodeDatabase, Str1, ValidUtf8;
    EmptyFits();
    DatabaseRoundTrip(DatabaseDef(name, None));
    assert EncodeDatabase(DatabaseDef(name, Some([]))) == EncodeDatabase(DatabaseDef(name, None));
  }

  lemma {:induction false} EmptyFits()
    ensures ValidUtf8([])
  {
  }

  lemma {:induction false} SchemaRoundTrip(d: SchemaDef)
    requires Fits1(d.databaseName) && Fits1(d.name)
    ensures DecodeSchema(EncodeSchema(d)) == Ok(d)
  {
    hide Has, Str1, ReadStr1, Fits1;
    var e := EncodeSchema(d);
    HasAll(e, e);
    HasConcat(e, 0, Str1(d.databaseName), Str1(d.name));
    ReadStr1Has(e, 0, 1, d.databaseName);
    ReadStr1Has(e, |Str1(d.databaseName)|, 0, d.name);
  }

  lemma {:induction false} BindingRoundTrip(d: TableDatabaseDef)
    requires Fits1(d.databaseName)
    ensures DecodeBinding(EncodeBinding(d)) == Ok(d)
  {
    hide Has, Str1, ReadStr1, Fits1, U32, ToU32;
    var e := EncodeBinding(d);
    HasAll(e, e);
    HasConcat(e, 0, U32(d.tableId), Str1(d.databaseName));
    ReadU32Has(e, 0, d.tableId);
    ReadStr1Has(e, 4, 0, d.databaseName);
  }

  /** The two rows the bootstrap writes decode to the definitions it means. */
  lemma {:induction false} SeedRowsDecode()
    ensures DecodeDatabase(EncodeDatabase(DEFAULT_DATABASE_DEF)) == Ok(DEFAULT_DATABASE_DEF)
    ensures DecodeSchema(EncodeSchema(PUBLIC_SCHEMA_DEF)) == Ok(PUBLIC_SCHEMA_DEF)
    ensures DEFAULT_DATABASE != PUBLIC
  {
    hide DecodeDatabase, EncodeDatabase, DecodeSchema, EncodeSchema, Fits1, DEFAULT_DATABASE, PUBLIC;
    NamesFit();
    DatabaseRoundTrip(DEFAULT_DATABASE_DEF);
    SchemaRoundTrip(PUBLIC_SCHEMA_DEF);
  }

  lemma {:induction false} NamesFit()
    ensures Fits1(DEFAULT_DATABASE) && Fits1(PUBLIC) && DEFAULT_DATABASE != PUBLIC
  {
    hide ValidUtf8;
    AsciiIsUtf8(DEFAULT_DATABASE);
    AsciiIsUtf8(PUBLIC);
    assert |DEFAULT_DATABASE| == 7 && |PUBLIC| == 6;
  }

  // ---------------------------------------------------------------------------
  // The layouts by position, and the names the bootstrap uses

  function Spelled(s: string): bytes {
    seq(|s|, i requires 0 <= i < |s| => s[i] as int % 0x100)
  }

  lemma {:induction false} NamesAre()
    ensures DEFAULT_DATABASE == Spelled("axiomdb") && PUBLIC == Spelled("public")
    ensures DEFAULT_DATABASE_DEF.name == Spelled("axiomdb") && DEFAULT_DATABASE_DEF.defaultCollation == None
    ensures PUBLIC_SCHEMA_DEF.databaseName == Spelled("axiomdb") && PUBLIC_SCHEMA_DEF.name == Spelled("public")
  {
    assert |Spelled("axiomdb")| == 7 && |Spelled("public")| == 6;
    assert Spelled("axiomdb") == [97, 120, 105, 111, 109, 100, 98];
    assert Spelled("public") == [112, 117, 98, 108, 105, 99];
  }

  /** Name then collation, which is empty if there is none. */
  lemma {:induction false} DatabaseLayout(d: DatabaseDef)
    ensures var e, coll := EncodeDatabase(d), if d.defaultCollation.Some? then d.defaultCollation.value else [];
            Text1At(e, 0, d.name) && Text1At(e, 1 + |d.name|, coll) && |e| == 2 + |d.name| + |coll|
  {
    hide Has, Str1, Text1At;
    var e, coll := EncodeDatabase(d), if d.defaultCollation.Some? then d.defaultCollation.value else [];
    HasAll(e, e);
    HasConcat(e, 0, Str1(d.name), Str1(coll));
    Str1At(e, 0, d.name);
    Str1At(e, 1 + |d.name|, coll);
  }

  /** Database then schema. */
  lemma {:induction false} SchemaLayout(d: SchemaDef)
    ensures var e := EncodeSchema(d);
            && Text1At(e, 0, d.databaseName) && Text1At(e, 1 + |d.databaseName|, d.name)
            && |e| == 2 + |d.databaseName| + |d.name|
  {
    hide Has, Str1, Text1At;
    var e := EncodeSchema(d);
    HasAll(e, e);
    HasConcat(e, 0, Str1(d.databaseName), Str1(d.name));
    Str1At(e, 0, d.databaseName);
    Str1At(e, 1 + |d.databaseName|, d.name);
  }

  /** Table id then database. */
  lemma {:induction false} BindingLayout(d: TableDatabaseDef)
    ensures var e := EncodeBinding(d);
            |e| == 5 + |d.databaseName| && LE(e, 0, 4) == d.tableId && Text1At(e, 4, d.databaseName)
  {
    hide Has, Str1, U32, LE, Text1At;
    var e := EncodeBinding(d);
    HasAll(e, e);
    HasConcat(e, 0, U32(d.tableId), Str1(d.databaseName));
    U32At(e, 0, d.tableId);
    Str1At(e, 4, d.databaseName);
  }
}
