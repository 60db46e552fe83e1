/** The engine's two result writers. The row-major writer passes text through a C
    string and the columnar writer does not, which the last result makes precise. */
module Engine {
  import opened Bytes
  import opened Repeat
  import opened Packed
  import opened Columnar

  /** SQL values. A decimal carries the double it is converted to; `Display` stands
      for the types that are rendered as text (UUID, JSONB, arrays, ranges, ...). */
  datatype Value =
    | Null | Bool(b: bool) | Int(n: i64) | BigInt(n: i64) | Date(n: i64) | Timestamp(n: i64) | TimestampTz(n: i64)
    | Real(bits: u64) | Decimal(bits: u64) | Text(s: bytes) | Json(s: bytes) | Bytes(s: bytes) | Display(s: bytes)

  predicate ValueFits(v: Value) {
    match v
    case Text(s) => TextFits(s)
    case Json(s) => TextFits(s)
    case Display(s) => TextFits(s)
    case Bytes(s) => |s| < 0x1_0000_0000
    case _ => true
  }

  predicate Rectangular(names: seq<bytes>, rows: seq<seq<Value>>) {
    forall r :: 0 <= r < |rows| ==> |rows[r]| == |names|
  }

  predicate ResultFits(names: seq<bytes>, rows: seq<seq<Value>>) {
    && Rectangular(names, rows)
    && |names| < 0x1_0000_0000 && |rows| < 0x1_0000_0000_0000_0000
    && (forall i :: 0 <= i < |names| ==> TextFits(names[i]))
    && (forall r, c :: 0 <= r < |rows| && 0 <= c < |names| ==> ValueFits(rows[r][c]))
  }

  function AsI64(v: Value): i64 {
    match v
    case Bool(b) => if b then 1 else 0
    case Int(n) => n
    case BigInt(n) => n
    case Date(n) => n
    case Timestamp(n) => n
    case TimestampTz(n) => n
    case _ => 0
  }

  function AsF64(v: Value): u64 {
    match v
    case Real(bits) => bits
    case Decimal(bits) => bits
    case _ => 0
  }

  function AsBytes(v: Value): bytes {
    match v
    case Text(s) => s
    case Json(s) => s
    case Bytes(s) => s
    case _ => []
  }

  /** A C string cannot hold a zero byte; text that does is replaced by the empty text. */
  function CText(s: bytes): Cell {
    Cell.Text(if 0 in s then [] else s)
  }

  function CellOf(v: Value): Cell {
    match v
    case Null => Cell.Null
    case Real(bits) => Cell.Real(bits)
    case Decimal(bits) => Cell.Real(bits)
    case Text(s) => CText(s)
    case Json(s) => CText(s)
    case Display(s) => CText(s)
    case Bytes(s) => Cell.Blob(s)
    case _ => Cell.Integer(AsI64(v))
  }

  // ---------------------------------------------------------------------------
  // Row-major writer

  function CellRow(row: seq<Value>): (r: seq<Cell>)
    ensures |r| == |row| && forall c :: 0 <= c < |row| ==> r[c] == CellOf(row[c])
  {
    seq(|row|, c requires 0 <= c < |row| => CellOf(row[c]))
  }

  function CellRows(rows: seq<seq<Value>>): (r: seq<seq<Cell>>)
    ensures |r| == |rows| && forall i :: 0 <= i < |rows| ==> r[i] == CellRow(rows[i])
  {
    seq(|rows|, i requires 0 <= i < |rows| => CellRow(rows[i]))
  }

  method PackRows(names: seq<bytes>, rows: seq<seq<Value>>) returns (buf: bytes)
    ensures buf == Packed.Encode(Table(names, CellRows(rows)))
    ensures ResultFits(names, rows) ==> SeenAs(PyPacked(buf), names, rows, false)
  {
    hide Str4, Header, CellBytes, CellOf, SeenAs, ResultFits, PyPacked;
    if ResultFits(names, rows) {
      RowMajorSeen(names, rows);
    }
    buf := Header(AXM1, |names|, |rows|);
    buf := AppendNames(buf, names);
    ghost var cells := CellRows(rows);
    ghost var head := buf;
    for i := 0 to |rows|
      invariant buf == head + ConcatAll(RowBytes, cells[..i])
    {
      buf := AppendRow(buf, rows[i]);
      ConcatAllStep(RowBytes, head, cells, i);
    }
    assert cells[..|rows|] == cells;
  }

  method AppendNames(head: bytes, names: seq<bytes>) returns (buf: bytes)
    ensures buf == head + ConcatAll(Str4, names)
  {
    hide U32;
    buf := head;
    for i := 0 to |names|
      invariant buf == head + ConcatAll(Str4, names[..i])
    {
      buf := buf + U32(|names[i]| % 0x1_0000_0000);
      buf := buf + names[i];
      ConcatAllStep(Str4, head, names, i);
    }
    assert names[..|names|] == names;
  }

  method AppendRow(head: bytes, row: seq<Value>) returns (buf: bytes)
    ensures buf == head + RowBytes(CellRow(row))
  {
    hide CellBytes, CellOf;
    ghost var cells := CellRow(row);
    buf := head;
    for c := 0 to |row|
      invariant buf == head + ConcatAll(CellBytes, cells[..c])
    {
      buf := buf + CellBytes(CellOf(row[c]));
      ConcatAllStep(CellBytes, head, cells, c);
    }
    assert cells[..|row|] == cells;
  }

  // ---------------------------------------------------------------------------
  // Columnar writer

  function FastKind(v: Value): Option<Kind> {
    match v
    case Bool(_) => Some(I)
    case Int(_) => Some(I)
    case BigInt(_) => Some(I)
    case Date(_) => Some(I)
    case Timestamp(_) => Some(I)
    case TimestampTz(_) => Some(I)
    case Real(_) => Some(F)
    case Decimal(_) => Some(F)
    case Text(_) => Some(T)
    case Json(_) => Some(T)
    case Bytes(_) => Some(B)
    case _ => None
  }

  /** The bulk kind all cells of the column share, if there is one. */
  function ColumnKind(rows: seq<seq<Value>>, c: nat): (k: Kind)
    requires forall r :: 0 <= r < |rows| ==> c < |rows[r]|
  {
    if rows != [] && FastKind(rows[0][c]).Some? && Uniform(rows, c, FastKind(rows[0][c]))
    then FastKind(rows[0][c]).value else M
  }

  predicate Uniform(rows: seq<seq<Value>>, c: nat, k: Option<Kind>)
    requires forall r :: 0 <= r < |rows| ==> c < |rows[r]|
  {
    forall r :: 0 <= r < |rows| ==> FastKind(rows[r][c]) == k
  }

  method FindColumnKind(rows: seq<seq<Value>>, c: nat) returns (k: Kind)
    requires forall r :: 0 <= r < |rows| ==> c < |rows[r]|
    ensures k == ColumnKind(rows, c)
  {
    var kind: Option<Kind> := None;
    for r := 0 to |rows|
      invariant r == 0 ==> kind == None
      invariant r > 0 ==> kind == FastKind(rows[0][c]) && kind.Some?
      invariant forall i :: 0 <= i < r ==> FastKind(rows[i][c]) == kind
    {
      var f := FastKind(rows[r][c]);
      if f == None {
        return M;
      }
      if kind == None {
        kind := f;
      } else if kind != f {
        return M;
      }
    }
    return if kind.Some? then kind.value else M;
  }

  /** What a column of kind `k` stores for `v`. */
  function ColumnarCell(k: Kind, v: Value): Cell {
    match k
    case I => Cell.Integer(AsI64(v))
    case F => Cell.Real(AsF64(v))
    case T => Cell.Text(AsBytes(v))
    case B => Cell.Blob(AsBytes(v))
    case M => CellOf(v)
  }

  function Kinds(names: seq<bytes>, rows: seq<seq<Value>>): (r: seq<Kind>)
    requires Rectangular(names, rows)
    ensures |r| == |names| && forall c :: 0 <= c < |names| ==> r[c] == ColumnKind(rows, c)
  {
    seq(|names|, c requires 0 <= c < |names| => ColumnKind(rows, c))
  }

  function ColumnarRow(kinds: seq<Kind>, row: seq<Value>): (r: seq<Cell>)
    requires |row| == |kinds|
    ensures |r| == |row| && forall c :: 0 <= c < |row| ==> r[c] == ColumnarCell(kinds[c], row[c])
  {
    seq(|row|, c requires 0 <= c < |row| => ColumnarCell(kinds[c], row[c]))
  }

  function ColumnarRows(names: seq<bytes>, rows: seq<seq<Value>>): (r: seq<seq<Cell>>)
    requires Rectangular(names, rows)
    ensures |r| == |rows|
    ensures forall i :: 0 <= i < |rows| ==> |r[i]| == |names| && r[i] == ColumnarRow(Kinds(names, rows), rows[i])
  {
    seq(|rows|, i requires 0 <= i < |rows| => ColumnarRow(Kinds(names, rows), rows[i]))
  }

  function ColumnarBlocks(names: seq<bytes>, rows: seq<seq<Value>>): (r: seq<Block>)
    requires Rectangular(names, rows)
    ensures |r| == |names|
  {
    Blocks(Table(names, ColumnarRows(names, rows)), Kinds(names, rows))
  }

  method PackColumnar(names: seq<bytes>, rows: seq<seq<Value>>) returns (buf: bytes)
    requires Rectangular(names, rows)
    ensures buf == Columnar.Encode(names, |rows|, ColumnarBlocks(names, rows))
    ensures ResultFits(names, rows) && names != [] ==> SeenAs(PyColumnar(buf), names, rows, true)
  {
    hide Str4, Header, BlockBytes, ColumnKind, SeenAs, ResultFits, PyColumnar;
    if ResultFits(names, rows) && names != [] {
      ColumnarSeen(names, rows);
    }
    buf := Header(AXM2, |names|, |rows|);
    buf := AppendNames(buf, names);
    ghost var blocks := ColumnarBlocks(names, rows);
    ghost var head := buf;
    for c := 0 to |names|
      invariant buf == head + ConcatAll(BlockBytes, blocks[..c])
    {
      var kind := FindColumnKind(rows, c);
      ghost var b := blocks[c];
      assert b.kind == kind;
      forall r | 0 <= r < |rows| ensures b.cells[r] == ColumnarCell(kind, rows[r][c]) {
      }
      buf := AppendColumn(buf, rows, c, kind, b);
      ConcatAllStep(BlockBytes, head, blocks, c);
    }
    assert blocks[..|names|] == blocks;
  }

  method AppendColumn(head: bytes, rows: seq<seq<Value>>, c: nat, kind: Kind, ghost b: Block) returns (buf: bytes)
    requires forall r :: 0 <= r < |rows| ==> c < |rows[r]|
    requires b.kind == kind && |b.cells| == |rows|
    requires forall r :: 0 <= r < |rows| ==> b.cells[r] == ColumnarCell(kind, rows[r][c])
    ensures buf == head + BlockBytes(b)
  {
    hide ConcatAll, CellBytes, CellOf, I64, U64, U32;
    buf := head + [KindByte(kind)];
    match kind {
      case I =>
        buf := AppendEach(buf, rows, c, v => I64(AsI64(v)), IntBytes, b.cells);
      case F =>
        buf := AppendEach(buf, rows, c, v => U64(AsF64(v)), RealBytes, b.cells);
      case M =>
        buf := AppendEach(buf, rows, c, v => CellBytes(CellOf(v)), CellBytes, b.cells);
      case _ =>
        buf := AppendStrings(buf, rows, c, kind, b);
    }
  }

  /** All lengths, then all bytes. */
  method AppendStrings(head: bytes, rows: seq<seq<Value>>, c: nat, kind: Kind, ghost b: Block) returns (buf: bytes)
    requires kind == T || kind == B
    requires forall r :: 0 <= r < |rows| ==> c < |rows[r]|
    requires b.kind == kind && |b.cells| == |rows|
    requires forall r :: 0 <= r < |rows| ==> b.cells[r] == ColumnarCell(kind, rows[r][c])
    ensures buf == head + Payload(b)
  {
    hide ConcatAll, U32;
    buf := AppendEach(head, rows, c, v => U32(|AsBytes(v)| % 0x1_0000_0000), LenBytes, b.cells);
    buf := AppendEach(buf, rows, c, AsBytes, RawBytes, b.cells);
  }

  /** One pass over the rows, appending `enc` of their cell in column `c`. */
  method AppendEach(head: bytes, rows: seq<seq<Value>>, c: nat, enc: Value -> bytes,
                    ghost cellEnc: Cell -> bytes, ghost cells: seq<Cell>) returns (buf: bytes)
    requires |cells| == |rows|
    requires forall r :: 0 <= r < |rows| ==> c < |rows[r]| && enc(rows[r][c]) == cellEnc(cells[r])
    ensures buf == head + ConcatAll(cellEnc, cells)
  {
    buf := head;
    for r := 0 to |rows|
      invariant buf == head + ConcatAll(cellEnc, cells[..r])
    {
      buf := buf + enc(rows[r][c]);
      ConcatAllStep(cellEnc, head, cells, r);
    }
    assert cells[..|rows|] == cells;
  }

  // ---------------------------------------------------------------------------
  // When the two formats deliver the same result

  /** A column of nothing but text that holds a zero byte somewhere. */
  ghost predicate ZeroByteInTextColumn(names: seq<bytes>, rows: seq<seq<Value>>)
    requires Rectangular(names, rows)
  {
    exists r, c :: 0 <= r < |rows| && 0 <= c < |names| && AllText(rows, c) && HasZero(rows[r][c])
  }

  predicate AllText(rows: seq<seq<Value>>, c: nat)
    requires forall r :: 0 <= r < |rows| ==> c < |rows[r]|
  {
    forall r :: 0 <= r < |rows| ==> rows[r][c].Text? || rows[r][c].Json?
  }

  predicate HasZero(v: Value) {
    (v.Text? || v.Json?) && 0 in v.s
  }

  lemma {:induction false} ColumnarCellIs(rows: seq<seq<Value>>, r: nat, c: nat)
    requires r < |rows| && forall i :: 0 <= i < |rows| ==> c < |rows[i]|
    ensures ColumnarCell(ColumnKind(rows, c), rows[r][c]) == CellOf(rows[r][c])
       <==> !(AllText(rows, c) && HasZero(rows[r][c]))
  {
    ColumnKindIs(rows, c);
  }

  predicate Counts(v: Value) {
    v.Bool? || v.Int? || v.BigInt? || v.Date? || v.Timestamp? || v.TimestampTz?
  }

  /** A column that has rows is stored in bulk exactly when all its values are whole
      numbers, or fractions, or texts, or byte strings; else, or without rows, it is mixed. */
  lemma {:induction false} ColumnKindIs(rows: seq<seq<Value>>, c: nat)
    requires forall r :: 0 <= r < |rows| ==> c < |rows[r]|
    ensures ColumnKind(rows, c) == I <==> rows != [] && forall r :: 0 <= r < |rows| ==> Counts(rows[r][c])
    ensures ColumnKind(rows, c) == F <==> rows != [] && forall r :: 0 <= r < |rows| ==> rows[r][c].Real? || rows[r][c].Decimal?
    ensures ColumnKind(rows, c) == T <==> rows != [] && AllText(rows, c)
    ensures ColumnKind(rows, c) == B <==> rows != [] && forall r :: 0 <= r < |rows| ==> rows[r][c].Bytes?
  {
    if rows != [] {
      var first := rows[0][c];
      forall r | 0 <= r < |rows|
        ensures Counts(rows[r][c]) <==> FastKind(rows[r][c]) == Some(I)
        ensures (rows[r][c].Real? || rows[r][c].Decimal?) <==> FastKind(rows[r][c]) == Some(F)
        ensures (rows[r][c].Text? || rows[r][c].Json?) <==> FastKind(rows[r][c]) == Some(T)
        ensures rows[r][c].Bytes? <==> FastKind(rows[r][c]) == Some(B)
      {
      }
    }
  }

  lemma {:induction false} CellsFit(k: Kind, v: Value)
    requires ValueFits(v) && (k == T ==> v.Text? || v.Json?)
    ensures CellFits(CellOf(v)) && CellFits(ColumnarCell(k, v)) && Bulk(k, ColumnarCell(k, v))
  {
  }

  lemma {:induction false} WrittenTablesFit(names: seq<bytes>, rows: seq<seq<Value>>)
    requires ResultFits(names, rows)
    ensures TableFits(Table(names, CellRows(rows)))
    ensures TableFits(Table(names, ColumnarRows(names, rows)))
    ensures KindsFit(Table(names, ColumnarRows(names, rows)), Kinds(names, rows))
  {
    hide CellFits, TextFits, ValueFits, CellOf, ColumnarCell, Bulk;
    var t, u := Table(names, CellRows(rows)), Table(names, ColumnarRows(names, rows));
    forall r | 0 <= r < |rows|
      ensures RowFits(t.rows[r]) && RowFits(u.rows[r])
      ensures forall c :: 0 <= c < |names| ==> Bulk(Kinds(names, rows)[c], u.rows[r][c])
    {
      forall c | 0 <= c < |names|
        ensures CellFits(t.rows[r][c]) && CellFits(u.rows[r][c]) && Bulk(Kinds(names, rows)[c], u.rows[r][c])
      {
        CellsFit(ColumnKind(rows, c), rows[r][c]);
      }
    }
  }

  /** For every result the engine can hand out, the Python client sees the same
      table in both formats exactly when it has a column or no row, and no column
      of nothing but text holds a zero byte. */
  lemma {:induction false} FormatsAgree(names: seq<bytes>, rows: seq<seq<Value>>)
    requires ResultFits(names, rows)
    ensures var packed := PyPacked(Packed.Encode(Table(names, CellRows(rows))));
            var columnar := PyColumnar(Columnar.Encode(names, |rows|, ColumnarBlocks(names, rows)));
            && packed.Ok? && columnar.Ok?
            && (columnar.value.value == packed.value.value
                <==> (names != [] || rows == []) && !ZeroByteInTextColumn(names, rows))
  {
    hide PyPacked, PyColumnar, Packed.Encode, Columnar.Encode, TableFits, KindsFit, ColumnarCell, CellOf, ColumnKind;
    WrittenTablesFit(names, rows);
    var t, u := Table(names, CellRows(rows)), Table(names, ColumnarRows(names, rows));
    Packed.RoundTrip(t, []);
    Columnar.RoundTrip(u, Kinds(names, rows), []);
    var p, e := Packed.Encode(t), Columnar.Encode(names, |rows|, ColumnarBlocks(names, rows));
    assert p + [] == p && e + [] == e;
    RowsSame(names, rows);
  }

  lemma {:induction false} RowsSame(names: seq<bytes>, rows: seq<seq<Value>>)
    requires Rectangular(names, rows)
    ensures ColumnarRows(names, rows) == CellRows(rows) <==> !ZeroByteInTextColumn(names, rows)
  {
    hide ColumnarCell, CellOf, ColumnKind, AllText, HasZero;
    var a, b := ColumnarRows(names, rows), CellRows(rows);
    forall r, c | 0 <= r < |rows| && 0 <= c < |names|
      ensures a[r][c] == b[r][c] <==> !(AllText(rows, c) && HasZero(rows[r][c]))
    {
      ColumnarCellIs(rows, r, c);
    }
    if !ZeroByteInTextColumn(names, rows) {
      forall r | 0 <= r < |rows| ensures a[r] == b[r] {
        forall c | 0 <= c < |names| ensures a[r][c] == b[r][c] {
          assert !(AllText(rows, c) && HasZero(rows[r][c]));
        }
      }
    }
  }

  /** The two formats do differ: one text column, one row, one zero byte. The
      row-major form delivers the empty text, the columnar form the byte. */
  lemma {:induction false} FormatsDiffer(name: bytes)
    requires TextFits(name)
    ensures var rows := [[Value.Text([0])]];
            && ResultFits([name], rows)
            && ZeroByteInTextColumn([name], rows)
            && CellRows(rows) == [[Cell.Text([])]]
            && ColumnarRows([name], rows) == [[Cell.Text([0])]]
  {
    var names, rows := [name], [[Value.Text([0])]];
    AsciiIsUtf8([0]);
    assert AllText(rows, 0) && HasZero(rows[0][0]);
    ColumnKindIs(rows, 0);
    assert CellRow(rows[0]) == [Cell.Text([])];
    assert ColumnarRow(Kinds(names, rows), rows[0]) == [Cell.Text([0])];
  }

  // ---------------------------------------------------------------------------
  // What a client sees of each value

  /** Whole numbers as integers, booleans as 0 and 1, fractions as their bits, text and byte
      strings as their bytes. */
  predicate Shows(v: Value, c: Cell, text: bytes -> bytes) {
    match v
    case Null => c == Cell.Null
    case Bool(b) => c == Cell.Integer(if b then 1 else 0)
    case Int(n) => c == Cell.Integer(n)
    case BigInt(n) => c == Cell.Integer(n)
    case Date(n) => c == Cell.Integer(n)
    case Timestamp(n) => c == Cell.Integer(n)
    case TimestampTz(n) => c == Cell.Integer(n)
    case Real(bits) => c == Cell.Real(bits)
    case Decimal(bits) => c == Cell.Real(bits)
    case Text(t) => c == Cell.Text(text(t))
    case Json(t) => c == Cell.Text(text(t))
    case Display(t) => c == Cell.Text(text(t))
    case Bytes(b) => c == Cell.Blob(b)
  }

  /** Text as it is, and text that is lost if it holds a zero byte. */
  function Whole(): bytes -> bytes {
    (s: bytes) => s
  }

  function UnlessZero(): bytes -> bytes {
    (s: bytes) => if 0 in s then [] else s
  }

  ghost predicate SeenAs(r: Result<Step<Table>, ReadError>, names: seq<bytes>, rows: seq<seq<Value>>, columnar: bool)
    requires Rectangular(names, rows)
  {
    && r.Ok? && r.value.value.names == names && |r.value.value.rows| == |rows|
    && (forall i :: 0 <= i < |rows| ==> |r.value.value.rows[i]| == |names|)
    && forall i, c :: 0 <= i < |rows| && 0 <= c < |names| ==>
                        Shows(rows[i][c], r.value.value.rows[i][c], if columnar && AllText(rows, c) then Whole() else UnlessZero())
  }

  /** Every row-major result that is written reads in Python and in Go as its values, text
      with a zero byte as empty. */
  lemma {:induction false} RowMajorSeen(names: seq<bytes>, rows: seq<seq<Value>>)
    requires ResultFits(names, rows)
    ensures var buf := Packed.Encode(Table(names, CellRows(rows)));
            SeenAs(PyPacked(buf), names, rows, false) && (|rows| < 0x8000_0000_0000_0000 ==> SeenAs(GoPacked(buf), names, rows, false))
  {
    hide PyPacked, GoPacked, Packed.Encode, TableFits, KindsFit, ColumnarCell, CellOf, ColumnKind, ValueFits, TextFits, Shows;
    WrittenTablesFit(names, rows);
    var t := Table(names, CellRows(rows));
    Packed.RoundTrip(t, []);
    assert Packed.Encode(t) + [] == Packed.Encode(t);
    forall i, c | 0 <= i < |rows| && 0 <= c < |names| ensures Shows(rows[i][c], t.rows[i][c], UnlessZero()) {
      CellShows(rows[i][c]);
    }
  }

  lemma {:induction false} CellShows(v: Value)
    ensures Shows(v, CellOf(v), UnlessZero())
  {
  }

  /** Every columnar result with a column reads in Python as its values, text whole in a
      column of nothing but text. */
  lemma {:induction false} ColumnarSeen(names: seq<bytes>, rows: seq<seq<Value>>)
    requires ResultFits(names, rows) && names != []
    ensures SeenAs(PyColumnar(Columnar.Encode(names, |rows|, ColumnarBlocks(names, rows))), names, rows, true)
  {
    hide PyColumnar, Columnar.Encode, TableFits, KindsFit, ColumnarCell, CellOf, ColumnKind, ValueFits, TextFits, Shows, AllText;
    WrittenTablesFit(names, rows);
    var u := Table(names, ColumnarRows(names, rows));
    Columnar.RoundTrip(u, Kinds(names, rows), []);
    var e := Columnar.Encode(names, |rows|, ColumnarBlocks(names, rows));
    assert e + [] == e;
    forall i, c | 0 <= i < |rows| && 0 <= c < |names|
      ensures Shows(rows[i][c], u.rows[i][c], if AllText(rows, c) then Whole() else UnlessZero()) {
      ColumnarCellShows(rows, i, c);
    }
  }

  lemma {:induction false} ColumnarCellShows(rows: seq<seq<Value>>, i: nat, c: nat)
    requires i < |rows| && forall r :: 0 <= r < |rows| ==> c < |rows[r]|
    ensures Shows(rows[i][c], ColumnarCell(ColumnKind(rows, c), rows[i][c]), if AllText(rows, c) then Whole() else UnlessZero())
  {
    hide ColumnKind;
    ColumnKindIs(rows, c);
  }
}
