/** The body of the meta page: the schema version, the id counters and one root
    page id per system table, at fixed byte offsets. */
module MetaPage {
  import opened Bytes

  datatype Slot =
    | Tables | Columns | Indexes | Constraints | ForeignKeys | Stats | Databases | TableDatabases | Schemas
    | Aggregates | Sequences | EnumTypes | CronJobs | ForeignServers | ForeignTables | HolidayCalendars
    | ExchangeRates | CompositeTypes

  const BODY_SIZE := 16_320
  const SCHEMA_VER_OFFSET := 56
  const NEXT_TABLE_ID_OFFSET := 64
  const NEXT_INDEX_ID_OFFSET := 68

  function Offset(s: Slot): (n: nat)
    ensures 32 <= n && n + 8 <= BODY_SIZE
  {
    match s
    case Tables => 32
    case Columns => 40
    case Indexes => 48
    case Constraints => 72
    case ForeignKeys => 84
    case Stats => 96
    case Databases => 104
    case TableDatabases => 112
    case Schemas => 120
    case Aggregates => 128
    case Sequences => 144
    case EnumTypes => 152
    case CronJobs => 160
    case ForeignServers => 168
    case ForeignTables => 176
    case HolidayCalendars => 184
    case ExchangeRates => 192
    case CompositeTypes => 200
  }

  type Meta = m: bytes | |m| == BODY_SIZE witness seq(BODY_SIZE, _ => 0)

  function Get32(m: Meta, off: nat): u32
    requires off + 4 <= BODY_SIZE
  {
    ToU32(m[off..off + 4])
  }

  function Get64(m: Meta, off: nat): u64
    requires off + 8 <= BODY_SIZE
  {
    ToU64(m[off..off + 8])
  }

  /** The page with `chunk` written over the bytes at `off`. */
  function Overwrite(m: Meta, off: nat, chunk: bytes): (r: Meta)
    requires off + |chunk| <= BODY_SIZE
  {
    m[..off] + chunk + m[off + |chunk|..]
  }

  function Root(m: Meta, s: Slot): u64 {
    Get64(m, Offset(s))
  }

  function Version(m: Meta): u32 {
    Get32(m, SCHEMA_VER_OFFSET)
  }

  function NextTableId(m: Meta): u32 {
    Get32(m, NEXT_TABLE_ID_OFFSET)
  }

  function NextIndexId(m: Meta): u32 {
    Get32(m, NEXT_INDEX_ID_OFFSET)
  }

  function PutRoot(m: Meta, s: Slot, v: u64): Meta {
    Overwrite(m, Offset(s), U64(v))
  }

  /** The three roots and the version go out in one page write. */
  function PutHeader(m: Meta, tables: u64, columns: u64, indexes: u64, version: u32): Meta {
    Overwrite(m, Offset(Tables), U64(tables) + (U64(columns) + (U64(indexes) + U32(version))))
  }

  // ---------------------------------------------------------------------------
  // No two fields overlap

  lemma {:induction false} SlotsDisjoint(s: Slot, t: Slot)
    requires s != t
    ensures Offset(s) + 8 <= Offset(t) || Offset(t) + 8 <= Offset(s)
  {
  }

  lemma {:induction false} FieldsDisjoint(s: Slot)
    ensures Offset(s) + 8 <= SCHEMA_VER_OFFSET || NEXT_INDEX_ID_OFFSET + 4 <= Offset(s)
  {
  }

  lemma {:induction false} OverwriteElsewhere(m: Meta, off: nat, chunk: bytes, a: nat, b: nat)
    requires off + |chunk| <= BODY_SIZE && a <= b <= BODY_SIZE
    requires b <= off || off + |chunk| <= a
    ensures Overwrite(m, off, chunk)[a..b] == m[a..b]
  {
    var r := Overwrite(m, off, chunk);
    forall i | a <= i < b ensures r[i] == m[i] {
    }
  }

  lemma {:induction false} OverwriteHere(m: Meta, off: nat, chunk: bytes)
    requires off + |chunk| <= BODY_SIZE
    ensures Has(Overwrite(m, off, chunk), off, chunk)
  {
  }

  /** Writing one root changes that root and no other field. */
  lemma {:induction false} PutRootFrame(m: Meta, s: Slot, v: u64)
    ensures forall t :: Root(PutRoot(m, s, v), t) == if t == s then v else Root(m, t)
    ensures Version(PutRoot(m, s, v)) == Version(m)
    ensures NextTableId(PutRoot(m, s, v)) == NextTableId(m)
    ensures NextIndexId(PutRoot(m, s, v)) == NextIndexId(m)
  {
    hide Overwrite, ToU64, ToU32, U64, Offset;
    var m' := PutRoot(m, s, v);
    OverwriteHere(m, Offset(s), U64(v));
    ReadU64Has(m', Offset(s), v);
    forall t | t != s ensures Root(m', t) == Root(m, t) {
      SlotsDisjoint(s, t);
      OverwriteElsewhere(m, Offset(s), U64(v), Offset(t), Offset(t) + 8);
    }
    FieldsDisjoint(s);
    OverwriteElsewhere(m, Offset(s), U64(v), SCHEMA_VER_OFFSET, SCHEMA_VER_OFFSET + 4);
    OverwriteElsewhere(m, Offset(s), U64(v), NEXT_TABLE_ID_OFFSET, NEXT_TABLE_ID_OFFSET + 4);
    OverwriteElsewhere(m, Offset(s), U64(v), NEXT_INDEX_ID_OFFSET, NEXT_INDEX_ID_OFFSET + 4);
  }

  /** Writing the header changes the first three roots and the version only. */
  lemma {:induction false} PutHeaderFrame(m: Meta, tables: u64, columns: u64, indexes: u64, version: u32)
    ensures var m' := PutHeader(m, tables, columns, indexes, version);
            && Root(m', Tables) == tables && Root(m', Columns) == columns && Root(m', Indexes) == indexes
            && Version(m') == version
            && (forall t :: t !in {Tables, Columns, Indexes} ==> Root(m', t) == Root(m, t))
            && NextTableId(m') == NextTableId(m) && NextIndexId(m') == NextIndexId(m)
  {
    hide Overwrite, ToU64, ToU32, U64, U32, Has;
    var m' := PutHeader(m, tables, columns, indexes, version);
    var r2 := U64(indexes) + U32(version);
    var r1 := U64(columns) + r2;
    var chunk := U64(tables) + r1;
    OverwriteHere(m, 32, chunk);
    HasConcat(m', 32, U64(tables), r1);
    HasConcat(m', 40, U64(columns), r2);
    HasConcat(m', 48, U64(indexes), U32(version));
    ReadU64Has(m', 32, tables);
    ReadU64Has(m', 40, columns);
    ReadU64Has(m', 48, indexes);
    ReadU32Has(m', 56, version);
    forall t | t !in {Tables, Columns, Indexes} ensures Root(m', t) == Root(m, t) {
      OverwriteElsewhere(m, 32, chunk, Offset(t), Offset(t) + 8);
    }
    OverwriteElsewhere(m, 32, chunk, NEXT_TABLE_ID_OFFSET, NEXT_TABLE_ID_OFFSET + 4);
    OverwriteElsewhere(m, 32, chunk, NEXT_INDEX_ID_OFFSET, NEXT_INDEX_ID_OFFSET + 4);
  }

  /** Writing a counter leaves every root, the version and the other counter alone. */
  lemma {:induction false} PutCounterFrame(m: Meta, off: nat, v: u32)
    requires off == NEXT_TABLE_ID_OFFSET || off == NEXT_INDEX_ID_OFFSET
    ensures var m' := Overwrite(m, off, U32(v));
            && (forall t :: Root(m', t) == Root(m, t)) && Version(m') == Version(m)
            && NextTableId(m') == (if off == NEXT_TABLE_ID_OFFSET then v else NextTableId(m))
            && NextIndexId(m') == (if off == NEXT_INDEX_ID_OFFSET then v else NextIndexId(m))
  {
    hide Overwrite, ToU64, ToU32, U32;
    var m' := Overwrite(m, off, U32(v));
    OverwriteHere(m, off, U32(v));
    ReadU32Has(m', off, v);
    forall t ensures Root(m', t) == Root(m, t) {
      OverwriteElsewhere(m, off, U32(v), Offset(t), Offset(t) + 8);
    }
    OverwriteElsewhere(m, off, U32(v), SCHEMA_VER_OFFSET, SCHEMA_VER_OFFSET + 4);
    var other := NEXT_TABLE_ID_OFFSET + NEXT_INDEX_ID_OFFSET - off;
    OverwriteElsewhere(m, off, U32(v), other, other + 4);
  }

  // ---------------------------------------------------------------------------
  // Where every field is

  /** The fields as sums over the bytes of the page. */
  lemma {:induction false} FieldsAre(m: Meta)
    ensures Root(m, Tables) == LE(m, 32, 8) && Root(m, Columns) == LE(m, 40, 8) && Root(m, Indexes) == LE(m, 48, 8)
    ensures Version(m) == LE(m, 56, 4) && NextTableId(m) == LE(m, 64, 4) && NextIndexId(m) == LE(m, 68, 4)
    ensures Root(m, Constraints) == LE(m, 72, 8) && Root(m, ForeignKeys) == LE(m, 84, 8) && Root(m, Stats) == LE(m, 96, 8)
    ensures Root(m, Databases) == LE(m, 104, 8) && Root(m, TableDatabases) == LE(m, 112, 8)
    ensures Root(m, Schemas) == LE(m, 120, 8) && Root(m, Aggregates) == LE(m, 128, 8)
    ensures Root(m, Sequences) == LE(m, 144, 8) && Root(m, EnumTypes) == LE(m, 152, 8)
    ensures Root(m, CronJobs) == LE(m, 160, 8) && Root(m, ForeignServers) == LE(m, 168, 8)
    ensures Root(m, ForeignTables) == LE(m, 176, 8) && Root(m, HolidayCalendars) == LE(m, 184, 8)
    ensures Root(m, ExchangeRates) == LE(m, 192, 8) && Root(m, CompositeTypes) == LE(m, 200, 8)
  {
    hide LE, ToU64, ToU32;
    forall t: Slot ensures Root(m, t) == LE(m, Offset(t), 8) {
      LE8(m, Offset(t));
    }
    LE4(m, 56);
    LE4(m, 64);
    LE4(m, 68);
  }
}
