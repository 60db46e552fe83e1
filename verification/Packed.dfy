/** The row-major packed result format (AXM1): one buffer with a header, the
    column names and tagged cells, and the Python and Go parsers for it. */
module Packed {
  import opened Bytes
  import opened Repeat

  /** A REAL is the 64-bit pattern of its double. */
  datatype Cell = Null | Integer(n: i64) | Real(bits: u64) | Text(s: bytes) | Blob(b: bytes)

  datatype Table = Table(names: seq<bytes>, rows: seq<seq<Cell>>)

  const AXM1: u32 := 0x4158_4D31

  predicate TextFits(s: bytes) {
    ValidUtf8(s) && |s| < 0x1_0000_0000
  }

  predicate CellFits(c: Cell) {
    match c
    case Text(s) => TextFits(s)
    case Blob(b) => |b| < 0x1_0000_0000
    case _ => true
  }

  predicate RowFits(row: seq<Cell>) {
    forall i :: 0 <= i < |row| ==> CellFits(row[i])
  }

  /** A rectangular table whose counts and lengths the format can hold. */
  predicate TableFits(t: Table) {
    && |t.names| < 0x1_0000_0000 && |t.rows| < 0x1_0000_0000_0000_0000
    && (forall i :: 0 <= i < |t.names| ==> TextFits(t.names[i]))
    && (forall i :: 0 <= i < |t.rows| ==> |t.rows[i]| == |t.names| && RowFits(t.rows[i]))
  }

  // ---------------------------------------------------------------------------
  // Layout

  function Str4(s: bytes): bytes {
    U32(|s| % 0x1_0000_0000) + s
  }

  function CellBytes(c: Cell): bytes {
    match c
    case Null => [0]
    case Integer(n) => [1] + I64(n)
    case Real(bits) => [2] + U64(bits)
    case Text(s) => [3] + Str4(s)
    case Blob(b) => [4] + Str4(b)
  }

  function RowBytes(row: seq<Cell>): bytes {
    ConcatAll(CellBytes, row)
  }

  function Header(magic: u32, nCols: nat, nRows: nat): (b: bytes)
    ensures |b| == 16
  {
    U32(magic) + (U32(nCols % 0x1_0000_0000) + U64(nRows % 0x1_0000_0000_0000_0000))
  }

  function Encode(t: Table): bytes {
    Header(AXM1, |t.names|, |t.rows|) + (ConcatAll(Str4, t.names) + ConcatAll(RowBytes, t.rows))
  }

  // ---------------------------------------------------------------------------
  // Python parser

  /** Python slicing: bounds past the end are cut back, not refused. */
  function Slice(buf: bytes, a: nat, b: nat): bytes
    requires a <= b
  {
    if |buf| < a then [] else if |buf| < b then buf[a..] else buf[a..b]
  }

  function PyTextAt(buf: bytes, off: nat): Result<Step<bytes>, ReadError> {
    if |buf| < off + 4 then Err(Short)
    else
      var ln := ToU32(buf[off..off + 4]);
      var s := Slice(buf, off + 4, off + 4 + ln);
      if ValidUtf8(s) then Ok(Step(s, off + 4 + ln)) else Err(BadUtf8)
  }

  function PyText(buf: bytes): Reader<bytes> {
    (off: nat) => PyTextAt(buf, off)
  }

  function PyCellAt(buf: bytes, off: nat): (r: Result<Step<Cell>, ReadError>) {
    if |buf| <= off then Err(Short)
    else if buf[off] == 1 then
      if |buf| < off + 9 then Err(Short) else Ok(Step(Integer(ToI64(buf[off + 1..off + 9])), off + 9))
    else if buf[off] == 3 then
      var s := PyTextAt(buf, off + 1);
      if s.Err? then Err(s.error) else Ok(Step(Text(s.value.value), s.value.off))
    else if buf[off] == 2 then
      if |buf| < off + 9 then Err(Short) else Ok(Step(Real(ToU64(buf[off + 1..off + 9])), off + 9))
    else if buf[off] == 4 then
      if |buf| < off + 5 then Err(Short)
      else
        var ln := ToU32(buf[off + 1..off + 5]);
        Ok(Step(Blob(Slice(buf, off + 5, off + 5 + ln)), off + 5 + ln))
    else Ok(Step(Null, off + 1))
  }

  function PyCell(buf: bytes): Reader<Cell> {
    (off: nat) => PyCellAt(buf, off)
  }

  function PyRow(buf: bytes, nCols: nat): Reader<seq<Cell>> {
    (off: nat) => Times(PyCell(buf), off, nCols)
  }

  /** Checks the magic and returns the two counts. */
  function PyHeader(buf: bytes, magic: u32): (r: Result<(nat, nat), ReadError>) {
    if |buf| < 4 then Err(Short)
    else if ToU32(buf[0..4]) != magic then Err(BadMagic)
    else if |buf| < 16 then Err(Short)
    else Ok((ToU32(buf[4..8]), ToU64(buf[8..16])))
  }

  /** Names and rows, and the offset at which parsing stops. */
  function PyPacked(buf: bytes): (r: Result<Step<Table>, ReadError>) {
    var h := PyHeader(buf, AXM1);
    if h.Err? then Err(h.error)
    else
      var names := Times(PyText(buf), 16, h.value.0);
      if names.Err? then Err(names.error)
      else
        var rows := Times(PyRow(buf, h.value.0), names.value.off, h.value.1);
        if rows.Err? then Err(rows.error)
        else Ok(Step(Table(names.value.value, rows.value.value), rows.value.off))
  }

  method ParsePacked(buf: bytes) returns (r: Result<Step<Table>, ReadError>)
    ensures r == PyPacked(buf)
  {
    hide ToU32, ToU64, PyCellAt, PyTextAt;
    if |buf| < 4 {
      return Err(Short);
    }
    var magic := ToU32(buf[0..4]);
    if magic != AXM1 {
      return Err(BadMagic);
    }
    if |buf| < 16 {
      return Err(Short);
    }
    var nCols := ToU32(buf[4..8]);
    var nRows := ToU64(buf[8..16]);
    var names := ParseNames(buf, nCols);
    if names.Err? {
      return Err(names.error);
    }
    var off := names.value.off;
    var rows := [];
    for i := 0 to nRows
      invariant Times(PyRow(buf, nCols), names.value.off, i) == Ok(Step(rows, off))
    {
      var start := off;
      var row := [];
      for c := 0 to nCols
        invariant Times(PyCell(buf), start, c) == Ok(Step(row, off))
      {
        var cell := PyCellAt(buf, off);
        if cell.Err? {
          ErrorsStay(PyCell(buf), start, c + 1, nCols);
          assert PyRow(buf, nCols)(start) == Err(cell.error);
          ErrorsStay(PyRow(buf, nCols), names.value.off, i + 1, nRows);
          return Err(cell.error);
        }
        row := row + [cell.value.value];
        off := cell.value.off;
      }
      assert PyRow(buf, nCols)(start) == Ok(Step(row, off));
      rows := rows + [row];
    }
    return Ok(Step(Table(names.value.value, rows), off));
  }

  method ParseNames(buf: bytes, nCols: nat) returns (r: Result<Step<seq<bytes>>, ReadError>)
    ensures r == Times(PyText(buf), 16, nCols)
  {
    hide ToU32, PyTextAt;
    var off := 16;
    var names := [];
    for i := 0 to nCols
      invariant Times(PyText(buf), 16, i) == Ok(Step(names, off))
    {
      var name := PyTextAt(buf, off);
      if name.Err? {
        ErrorsStay(PyText(buf), 16, i + 1, nCols);
        return Err(name.error);
      }
      names := names + [name.value.value];
      off := name.value.off;
    }
    return Ok(Step(names, off));
  }

  // ---------------------------------------------------------------------------
  // Go parser. Its cell reader, which the engine shares, panics on an index past the
  // end and does not validate text

  function CheckedBytesAt(buf: bytes, off: nat): Result<Step<bytes>, ReadError> {
    if |buf| < off + 4 then Err(Short)
    else
      var ln := ToU32(buf[off..off + 4]);
      if |buf| < off + 4 + ln then Err(Short) else Ok(Step(buf[off + 4..off + 4 + ln], off + 4 + ln))
  }

  function CheckedBytes(buf: bytes): Reader<bytes> {
    (off: nat) => CheckedBytesAt(buf, off)
  }

  function CheckedCellAt(buf: bytes, off: nat): (r: Result<Step<Cell>, ReadError>) {
    if |buf| <= off then Err(Short)
    else if buf[off] == 1 then
      if |buf| < off + 9 then Err(Short) else Ok(Step(Integer(ToI64(buf[off + 1..off + 9])), off + 9))
    else if buf[off] == 3 then
      var s := CheckedBytesAt(buf, off + 1);
      if s.Err? then Err(s.error) else Ok(Step(Text(s.value.value), s.value.off))
    else if buf[off] == 2 then
      if |buf| < off + 9 then Err(Short) else Ok(Step(Real(ToU64(buf[off + 1..off + 9])), off + 9))
    else if buf[off] == 4 then
      var s := CheckedBytesAt(buf, off + 1);
      if s.Err? then Err(s.error) else Ok(Step(Blob(s.value.value), s.value.off))
    else Ok(Step(Null, off + 1))
  }

  function CheckedCell(buf: bytes): Reader<Cell> {
    (off: nat) => CheckedCellAt(buf, off)
  }

  function CheckedRow(buf: bytes, nCols: nat): Reader<seq<Cell>> {
    (off: nat) => Times(CheckedCell(buf), off, nCols)
  }

  function GoPacked(buf: bytes): (r: Result<Step<Table>, ReadError>) {
    if |buf| < 16 then Err(Short)
    else if ToU32(buf[0..4]) != AXM1 then Err(BadMagic)
    else
      var nCols, nRows := ToU32(buf[4..8]), ToU64(buf[8..16]);
      var names := Times(CheckedBytes(buf), 16, nCols);
      if names.Err? then Err(names.error)
      else if nRows >= 0x8000_0000_0000_0000 then Err(Short)  // a negative length panics in `make`
      else
        var rows := Times(CheckedRow(buf, nCols), names.value.off, nRows);
        if rows.Err? then Err(rows.error)
        else Ok(Step(Table(names.value.value, rows.value.value), rows.value.off))
  }

  method GoParsePacked(buf: bytes) returns (r: Result<Step<Table>, ReadError>)
    ensures r == GoPacked(buf)
  {
    hide ToU32, ToU64, CheckedCellAt, CheckedBytesAt;
    if |buf| < 16 {
      return Err(Short);
    }
    var off: nat := 0;
    if ToU32(buf[off..off + 4]) != AXM1 {
      return Err(BadMagic);
    }
    off := off + 4;
    var nCols := ToU32(buf[off..off + 4]);
    off := off + 4;
    var nRows := ToU64(buf[off..off + 8]);
    off := off + 8;
    var cols := [];
    for c := 0 to nCols
      invariant Times(CheckedBytes(buf), 16, c) == Ok(Step(cols, off))
    {
      var name := CheckedBytesAt(buf, off);
      if name.Err? {
        ErrorsStay(CheckedBytes(buf), 16, c + 1, nCols);
        return Err(name.error);
      }
      cols := cols + [name.value.value];
      off := name.value.off;
    }
    if nRows >= 0x8000_0000_0000_0000 {
      return Err(Short);
    }
    var first := off;
    var rows := [];
    for i := 0 to nRows
      invariant Times(CheckedRow(buf, nCols), first, i) == Ok(Step(rows, off))
    {
      var start := off;
      var row := [];
      for c := 0 to nCols
        invariant Times(CheckedCell(buf), start, c) == Ok(Step(row, off))
      {
        var cell := CheckedCellAt(buf, off);
        if cell.Err? {
          ErrorsStay(CheckedCell(buf), start, c + 1, nCols);
          assert CheckedRow(buf, nCols)(start) == Err(cell.error);
          ErrorsStay(CheckedRow(buf, nCols), first, i + 1, nRows);
          return Err(cell.error);
        }
        row := row + [cell.value.value];
        off := cell.value.off;
      }
      assert CheckedRow(buf, nCols)(start) == Ok(Step(row, off));
      rows := rows + [row];
    }
    return Ok(Step(Table(cols, rows), off));
  }

  // ---------------------------------------------------------------------------
  // Both parsers read every packed table back

  lemma {:induction false} Str4Has(buf: bytes, off: nat, s: bytes)
    requires |s| < 0x1_0000_0000 && Has(buf, off, Str4(s))
    ensures off + 4 + |s| <= |buf| && ToU32(buf[off..off + 4]) == |s| && buf[off + 4..off + 4 + |s|] == s
  {
    HasConcat(buf, off, U32(|s|), s);
    ReadU32Has(buf, off, |s|);
  }

  lemma {:induction false} TextReads(buf: bytes, s: bytes)
    requires TextFits(s)
    ensures Reads(PyText(buf), Str4, buf, s) && Reads(CheckedBytes(buf), Str4, buf, s)
  {
    hide ToU32, U32, ValidUtf8;
    forall off: nat | Has(buf, off, Str4(s))
      ensures PyText(buf)(off) == Ok(Step(s, off + |Str4(s)|)) && CheckedBytes(buf)(off) == Ok(Step(s, off + |Str4(s)|))
    {
      Str4Has(buf, off, s);
    }
  }

  lemma {:induction false} CellAt(buf: bytes, off: nat, c: Cell)
    requires CellFits(c) && Has(buf, off, CellBytes(c))
    ensures PyCellAt(buf, off) == Ok(Step(c, off + |CellBytes(c)|))
    ensures CheckedCellAt(buf, off) == Ok(Step(c, off + |CellBytes(c)|))
  {
    hide Has, ToU32, U32, ToU64, U64, I64, ToI64, ValidUtf8, Str4;
    match c {
      case Null =>
        ReadU8Has(buf, off, 0);
      case Integer(n) =>
        HasConcat(buf, off, [1], I64(n));
        ReadU8Has(buf, off, 1);
        ReadI64Has(buf, off + 1, n);
      case Real(bits) =>
        HasConcat(buf, off, [2], U64(bits));
        ReadU8Has(buf, off, 2);
        ReadU64Has(buf, off + 1, bits);
      case Text(s) =>
        HasConcat(buf, off, [3], Str4(s));
        ReadU8Has(buf, off, 3);
        Str4Has(buf, off + 1, s);
        Str4Length(s);
      case Blob(b) =>
        HasConcat(buf, off, [4], Str4(b));
        ReadU8Has(buf, off, 4);
        Str4Has(buf, off + 1, b);
        Str4Length(b);
    }
  }

  lemma {:induction false} Str4Length(s: bytes)
    ensures |Str4(s)| == 4 + |s|
  {
  }

  lemma {:induction false} RowReads(buf: bytes, row: seq<Cell>)
    requires RowFits(row)
    ensures Reads(PyRow(buf, |row|), RowBytes, buf, row) && Reads(CheckedRow(buf, |row|), RowBytes, buf, row)
  {
    hide PyCellAt, CheckedCellAt, CellBytes, CellFits;
    forall off: nat | Has(buf, off, RowBytes(row))
      ensures PyRow(buf, |row|)(off) == Ok(Step(row, off + |RowBytes(row)|))
      ensures CheckedRow(buf, |row|)(off) == Ok(Step(row, off + |RowBytes(row)|))
    {
      CellsRead(buf, row, off);
    }
  }

  lemma {:induction false} CellsRead(buf: bytes, row: seq<Cell>, off: nat)
    requires RowFits(row) && Has(buf, off, ConcatAll(CellBytes, row))
    ensures Times(PyCell(buf), off, |row|) == Ok(Step(row, off + |ConcatAll(CellBytes, row)|))
    ensures Times(CheckedCell(buf), off, |row|) == Ok(Step(row, off + |ConcatAll(CellBytes, row)|))
  {
    hide Has, PyCellAt, CheckedCellAt, CellBytes;
    forall i | 0 <= i < |row|
      ensures Reads(PyCell(buf), CellBytes, buf, row[i]) && Reads(CheckedCell(buf), CellBytes, buf, row[i])
    {
      forall o: nat | Has(buf, o, CellBytes(row[i]))
        ensures PyCell(buf)(o) == Ok(Step(row[i], o + |CellBytes(row[i])|))
        ensures CheckedCell(buf)(o) == Ok(Step(row[i], o + |CellBytes(row[i])|))
      {
        CellAt(buf, o, row[i]);
      }
    }
    ReadsAll(PyCell(buf), CellBytes, buf, row, off);
    ReadsAll(CheckedCell(buf), CellBytes, buf, row, off);
  }

  lemma {:induction false} HeaderHas(buf: bytes, magic: u32, nCols: nat, nRows: nat)
    requires nCols < 0x1_0000_0000 && nRows < 0x1_0000_0000_0000_0000
    requires Has(buf, 0, Header(magic, nCols, nRows))
    ensures |buf| >= 16 && ToU32(buf[0..4]) == magic && ToU32(buf[4..8]) == nCols && ToU64(buf[8..16]) == nRows
  {
    hide Has, U32, ToU32, U64, ToU64;
    HasConcat(buf, 0, U32(magic), U32(nCols) + U64(nRows));
    HasConcat(buf, 4, U32(nCols), U64(nRows));
    ReadU32Has(buf, 0, magic);
    ReadU32Has(buf, 4, nCols);
    ReadU64Has(buf, 8, nRows);
  }

  lemma {:induction false} NamesRead(buf: bytes, names: seq<bytes>)
    requires forall i :: 0 <= i < |names| ==> TextFits(names[i])
    requires Has(buf, 16, ConcatAll(Str4, names))
    ensures Times(PyText(buf), 16, |names|) == Ok(Step(names, 16 + |ConcatAll(Str4, names)|))
    ensures Times(CheckedBytes(buf), 16, |names|) == Ok(Step(names, 16 + |ConcatAll(Str4, names)|))
  {
    hide Has, Str4, TextFits, PyTextAt, CheckedBytesAt;
    forall i | 0 <= i < |names|
      ensures Reads(PyText(buf), Str4, buf, names[i]) && Reads(CheckedBytes(buf), Str4, buf, names[i])
    {
      TextReads(buf, names[i]);
    }
    ReadsAll(PyText(buf), Str4, buf, names, 16);
    ReadsAll(CheckedBytes(buf), Str4, buf, names, 16);
  }

  /** A packed table followed by any bytes parses back to itself in both
      languages, and parsing stops exactly at the end of the table. Go needs the
      row count to be a valid slice length. */
  lemma {:induction false} RoundTrip(t: Table, rest: bytes)
    requires TableFits(t)
    ensures PyPacked(Encode(t) + rest) == Ok(Step(t, |Encode(t)|))
    ensures |t.rows| < 0x8000_0000_0000_0000 ==> GoPacked(Encode(t) + rest) == Ok(Step(t, |Encode(t)|))
  {
    hide Has, Header, Str4, ToU32, ToU64, RowBytes, PyCellAt, CheckedCellAt, PyTextAt, CheckedBytesAt, ConcatAll, RowFits, TextFits;
    var buf := Encode(t) + rest;
    var names, rows := ConcatAll(Str4, t.names), ConcatAll(RowBytes, t.rows);
    var header := Header(AXM1, |t.names|, |t.rows|);
    HasPrefix(buf, Encode(t));
    HasConcat(buf, 0, header, names + rows);
    HasConcat(buf, 16, names, rows);
    HeaderHas(buf, AXM1, |t.names|, |t.rows|);
    NamesRead(buf, t.names);
    RowsRead(buf, t.rows, |t.names|, 16 + |names|);
  }

  lemma {:induction false} RowsRead(buf: bytes, rows: seq<seq<Cell>>, nCols: nat, off: nat)
    requires forall i :: 0 <= i < |rows| ==> |rows[i]| == nCols && RowFits(rows[i])
    requires Has(buf, off, ConcatAll(RowBytes, rows))
    ensures Times(PyRow(buf, nCols), off, |rows|) == Ok(Step(rows, off + |ConcatAll(RowBytes, rows)|))
    ensures Times(CheckedRow(buf, nCols), off, |rows|) == Ok(Step(rows, off + |ConcatAll(RowBytes, rows)|))
  {
    hide Has, RowBytes, RowFits, PyRow, CheckedRow, Times, ConcatAll, Reads;
    forall i | 0 <= i < |rows|
      ensures Reads(PyRow(buf, nCols), RowBytes, buf, rows[i]) && Reads(CheckedRow(buf, nCols), RowBytes, buf, rows[i])
    {
      RowReads(buf, rows[i]);
    }
    ReadsAll(PyRow(buf, nCols), RowBytes, buf, rows, off);
    ReadsAll(CheckedRow(buf, nCols), RowBytes, buf, rows, off);
  }

  // ---------------------------------------------------------------------------
  // Agreement of the two parsers on arbitrary buffers

  predicate TextOk(c: Cell) {
    c.Text? ==> ValidUtf8(c.s)
  }

  predicate TextsOk(row: seq<Cell>) {
    forall i :: 0 <= i < |row| ==> TextOk(row[i])
  }

  predicate TableTextsOk(t: Table) {
    && (forall i :: 0 <= i < |t.names| ==> ValidUtf8(t.names[i]))
    && (forall i :: 0 <= i < |t.rows| ==> TextsOk(t.rows[i]))
  }

  lemma {:induction false} RowsAgree(buf: bytes, nCols: nat, off: nat)
    ensures var g := CheckedRow(buf, nCols)(off);
            g.Ok? && TextsOk(g.value.value) ==> PyRow(buf, nCols)(off) == g
  {
    hide ToU32, ToU64, ToI64, ValidUtf8;
    var g := Times(CheckedCell(buf), off, nCols);
    if g.Ok? && TextsOk(g.value.value) {
      TimesAgree(PyCell(buf), CheckedCell(buf), TextOk, off, nCols);
    }
  }

  /** On every buffer at all: if the Go parser gets through and the texts it found
      are valid UTF-8, the Python parser returns the same table. */
  lemma {:induction false} GoAndPythonAgree(buf: bytes)
    requires GoPacked(buf).Ok? && TableTextsOk(GoPacked(buf).value.value)
    ensures PyPacked(buf) == GoPacked(buf)
  {
    hide ToU32, ToU64, ToI64, PyCellAt, CheckedCellAt, ValidUtf8;
    var nCols, nRows := ToU32(buf[4..8]), ToU64(buf[8..16]);
    TimesAgree(PyText(buf), CheckedBytes(buf), ValidUtf8, 16, nCols);
    forall o: nat
      ensures CheckedRow(buf, nCols)(o).Ok? && TextsOk(CheckedRow(buf, nCols)(o).value.value)
              ==> PyRow(buf, nCols)(o) == CheckedRow(buf, nCols)(o)
    {
      RowsAgree(buf, nCols, o);
    }
    TimesAgree(PyRow(buf, nCols), CheckedRow(buf, nCols), TextsOk, Times(CheckedBytes(buf), 16, nCols).value.off, nRows);
  }

  // ---------------------------------------------------------------------------
  // Which buffers the parsers get through, as a test on the bytes

  /** The end of a length-prefixed string that lies within the buffer. With `utf8` its
      bytes must be valid UTF-8. */
  function StrEnd(buf: bytes, utf8: bool, off: nat): (r: Result<Step<()>, ReadError>) {
    if |buf| < off + 4 then Err(Short)
    else
      var end: nat := off + 4 + ToU32(buf[off..off + 4]);
      if |buf| < end then Err(Short)
      else if utf8 && !ValidUtf8(buf[off + 4..end]) then Err(BadUtf8)
      else Ok(Step((), end))
  }

  /** The end of a cell: its tag says how wide it is or that a length follows. */
  function CellEnd(buf: bytes, utf8: bool, off: nat): (r: Result<Step<()>, ReadError>) {
    if |buf| <= off then Err(Short)
    else if buf[off] == 3 || buf[off] == 4 then StrEnd(buf, utf8 && buf[off] == 3, off + 1)
    else
      var end: nat := off + (if buf[off] == 1 || buf[off] == 2 then 9 else 1);
      if |buf| < end then Err(Short) else Ok(Step((), end))
  }

  function StrEnds(buf: bytes, utf8: bool): Reader<()> {
    (off: nat) => StrEnd(buf, utf8, off)
  }

  function CellEnds(buf: bytes, utf8: bool): Reader<()> {
    (off: nat) => CellEnd(buf, utf8, off)
  }

  function RowEnds(buf: bytes, utf8: bool, nCols: nat): Reader<seq<()>> {
    (off: nat) => Times(CellEnds(buf, utf8), off, nCols)
  }

  /** The buffer has a header, and the announced names and cells lie within it one
      after the other. No cell is decoded. */
  predicate Framed(buf: bytes, utf8: bool) {
    && |buf| >= 16 && ToU32(buf[0..4]) == AXM1
    && var names := Times(StrEnds(buf, utf8), 16, ToU32(buf[4..8]));
       names.Ok? && Times(RowEnds(buf, utf8, ToU32(buf[4..8])), names.value.off, ToU64(buf[8..16])).Ok?
  }

  /** A slice of that many rows can be made. */
  predicate RowsAllocatable(buf: bytes)
    requires |buf| >= 16
  {
    ToU64(buf[8..16]) < 0x8000_0000_0000_0000
  }

  lemma {:induction false} FramedCells(buf: bytes)
    ensures Joint(CheckedBytes(buf), CheckedBytes(buf), StrEnds(buf, false))
    ensures Joint(CheckedCell(buf), CheckedCell(buf), CellEnds(buf, false))
    ensures Joint(PyText(buf), CheckedBytes(buf), StrEnds(buf, true))
    ensures Joint(PyCell(buf), CheckedCell(buf), CellEnds(buf, true))
  {
    hide PyTextAt, CheckedBytesAt, StrEnd, PyCellAt, CheckedCellAt, CellEnd, JointAt;
    forall o: nat
      ensures JointAt(CheckedBytes(buf)(o), CheckedBytes(buf)(o), StrEnds(buf, false)(o))
      ensures JointAt(CheckedCell(buf)(o), CheckedCell(buf)(o), CellEnds(buf, false)(o))
      ensures JointAt(PyText(buf)(o), CheckedBytes(buf)(o), StrEnds(buf, true)(o))
      ensures JointAt(PyCell(buf)(o), CheckedCell(buf)(o), CellEnds(buf, true)(o))
    {
      FramedStrAt(buf, o);
      FramedCellAt(buf, o);
    }
  }

  lemma {:induction false} FramedStrAt(buf: bytes, o: nat)
    ensures JointAt(CheckedBytesAt(buf, o), CheckedBytesAt(buf, o), StrEnd(buf, false, o))
    ensures JointAt(PyTextAt(buf, o), CheckedBytesAt(buf, o), StrEnd(buf, true, o))
  {
    hide ToU32, ValidUtf8;
  }

  lemma {:induction false} FramedCellAt(buf: bytes, o: nat)
    ensures JointAt(CheckedCellAt(buf, o), CheckedCellAt(buf, o), CellEnd(buf, false, o))
    ensures JointAt(PyCellAt(buf, o), CheckedCellAt(buf, o), CellEnd(buf, true, o))
  {
    hide ToU32, ToU64, ToI64, ValidUtf8;
  }

  lemma {:induction false} FramedRows(buf: bytes, nCols: nat)
    ensures Joint(CheckedRow(buf, nCols), CheckedRow(buf, nCols), RowEnds(buf, false, nCols))
    ensures Joint(PyRow(buf, nCols), CheckedRow(buf, nCols), RowEnds(buf, true, nCols))
  {
    hide PyCell, CheckedCell, CellEnds, Times, JointAt;
    FramedCells(buf);
    forall o: nat
      ensures JointAt(CheckedRow(buf, nCols)(o), CheckedRow(buf, nCols)(o), RowEnds(buf, false, nCols)(o))
      ensures JointAt(PyRow(buf, nCols)(o), CheckedRow(buf, nCols)(o), RowEnds(buf, true, nCols)(o))
    {
      TimesJoint(CheckedCell(buf), CheckedCell(buf), CellEnds(buf, false), o, nCols);
      TimesJoint(PyCell(buf), CheckedCell(buf), CellEnds(buf, true), o, nCols);
    }
  }

  /** The Go parser gets through exactly the framed buffers whose row count is a
      valid slice length. */
  lemma {:induction false} GoSucceedsIff(buf: bytes)
    ensures GoPacked(buf).Ok? <==> Framed(buf, false) && RowsAllocatable(buf)
  {
    hide ToU32, ToU64, CheckedBytes, CheckedRow, StrEnds, RowEnds, Times, Joint;
    if |buf| >= 16 {
      var nCols, nRows := ToU32(buf[4..8]), ToU64(buf[8..16]);
      FramedCells(buf);
      FramedRows(buf, nCols);
      TimesJoint(CheckedBytes(buf), CheckedBytes(buf), StrEnds(buf, false), 16, nCols);
      var names := Times(CheckedBytes(buf), 16, nCols);
      if names.Ok? {
        TimesJoint(CheckedRow(buf, nCols), CheckedRow(buf, nCols), RowEnds(buf, false, nCols), names.value.off, nRows);
      }
    }
  }

  lemma {:induction false} BothSucceedIff(buf: bytes)
    ensures PyPacked(buf).Ok? && GoPacked(buf).Ok? <==> Framed(buf, true) && RowsAllocatable(buf)
    ensures PyPacked(buf).Ok? && GoPacked(buf).Ok? ==> GoPacked(buf) == PyPacked(buf)
  {
    hide ToU32, ToU64, PyText, PyRow, CheckedBytes, CheckedRow, StrEnds, RowEnds, Times, Joint;
    if |buf| >= 16 {
      var nCols, nRows := ToU32(buf[4..8]), ToU64(buf[8..16]);
      FramedCells(buf);
      FramedRows(buf, nCols);
      TimesJoint(PyText(buf), CheckedBytes(buf), StrEnds(buf, true), 16, nCols);
      var names := Times(StrEnds(buf, true), 16, nCols);
      if names.Ok? {
        TimesJoint(PyRow(buf, nCols), CheckedRow(buf, nCols), RowEnds(buf, true, nCols), names.value.off, nRows);
      }
    }
  }

  /** Where Python gets through, which it also does on buffers that end too early
      because its slices are cut short, Go returns the same exactly on framed
      buffers. Both return the same table exactly on framed buffers with valid texts. */
  lemma {:induction false} PythonAgreesIff(buf: bytes)
    ensures PyPacked(buf).Ok? ==> (GoPacked(buf) == PyPacked(buf) <==> Framed(buf, false) && RowsAllocatable(buf))
    ensures PyPacked(buf).Ok? && GoPacked(buf) == PyPacked(buf) <==> Framed(buf, true) && RowsAllocatable(buf)
  {
    hide PyPacked, GoPacked, Framed, RowsAllocatable;
    GoSucceedsIff(buf);
    BothSucceedIff(buf);
  }

  /** A buffer that announces a one-column table with a five-byte name and ends after
      two bytes of it: Python returns the two bytes as the name, Go panics. */
  lemma {:induction false} CutNameDiffers(name: bytes)
    requires |name| == 2 && ValidUtf8(name)
    ensures var buf := Header(AXM1, 1, 0) + U32(5) + name;
            && PyPacked(buf) == Ok(Step(Table([name], []), 25))
            && GoPacked(buf) == Err(Short)
  {
    hide U32, ToU32, ToU64, Header, Has, ValidUtf8;
    var buf := Header(AXM1, 1, 0) + U32(5) + name;
    HasAll(buf, buf);
    assert buf == Header(AXM1, 1, 0) + (U32(5) + name);
    HasConcat(buf, 0, Header(AXM1, 1, 0), U32(5) + name);
    HasConcat(buf, 16, U32(5), name);
    HeaderHas(buf, AXM1, 1, 0);
    ReadU32Has(buf, 16, 5);
    assert PyTextAt(buf, 16) == Ok(Step(name, 25));
    TimesOne(PyText(buf), 16, name, 25);
    assert Times(PyRow(buf, 1), 25, 0) == Ok(Step([], 25));
  }

  // ---------------------------------------------------------------------------
  // The layout by position

  /** A tag, then the number in two's complement, the bits, or a length and the bytes. */
  ghost predicate CellLayout(data: bytes, pos: nat, c: Cell) {
    match c
    case Null => pos < |data| && data[pos] == 0
    case Integer(n) =>
      pos + 9 <= |data| && data[pos] == 1 && LE(data, pos + 1, 8) == if n < 0 then n + 0x1_0000_0000_0000_0000 else n
    case Real(bits) => pos + 9 <= |data| && data[pos] == 2 && LE(data, pos + 1, 8) == bits
    case Text(s) => pos < |data| && data[pos] == 3 && Text4At(data, pos + 1, s)
    case Blob(b) => pos < |data| && data[pos] == 4 && Text4At(data, pos + 1, b)
  }

  lemma {:induction false} CellLayoutIs(data: bytes, pos: nat, c: Cell)
    requires Has(data, pos, CellBytes(c))
    ensures CellLayout(data, pos, c)
  {
    hide Has, LE, U32, U64, I64;
    match c {
      case Null =>
        ReadU8Has(data, pos, 0);
      case Integer(n) =>
        HasConcat(data, pos, [1], I64(n));
        ReadU8Has(data, pos, 1);
        I64At(data, pos + 1, n);
      case Real(bits) =>
        HasConcat(data, pos, [2], U64(bits));
        ReadU8Has(data, pos, 2);
        U64At(data, pos + 1, bits);
      case Text(s) =>
        HasConcat(data, pos, [3], Str4(s));
        ReadU8Has(data, pos, 3);
        Len4At(data, pos + 1, s);
      case Blob(b) =>
        HasConcat(data, pos, [4], Str4(b));
        ReadU8Has(data, pos, 4);
        Len4At(data, pos + 1, b);
    }
  }

  /** "AXM1" with its letters from the highest byte down, the number of columns, the number
      of rows, then the names and the rows, each after the one before. */
  lemma {:induction false} TableLayout(t: Table)
    ensures var e := Encode(t);
            && |e| >= 16
            && e[3] == 'A' as int && e[2] == 'X' as int && e[1] == 'M' as int && e[0] == '1' as int
            && LE(e, 4, 4) == |t.names| % 0x1_0000_0000 && LE(e, 8, 8) == |t.rows| % 0x1_0000_0000_0000_0000
            && e[16..] == ConcatAll(Str4, t.names) + ConcatAll(RowBytes, t.rows)
  {
    hide Has, LE, U32, U64, Str4, RowBytes, ConcatAll;
    var e := Encode(t);
    var rest := ConcatAll(Str4, t.names) + ConcatAll(RowBytes, t.rows);
    var cols, rows := |t.names| % 0x1_0000_0000, |t.rows| % 0x1_0000_0000_0000_0000;
    HasAll(e, e);
    HasConcat(e, 0, Header(AXM1, |t.names|, |t.rows|), rest);
    HasConcat(e, 0, U32(AXM1), U32(cols) + U64(rows));
    HasConcat(e, 4, U32(cols), U64(rows));
    U32At(e, 0, AXM1);
    MagicBytes(e, AXM1);
    U32At(e, 4, cols);
    U64At(e, 8, rows);
  }

  lemma {:induction false} MagicBytes(data: bytes, magic: u32)
    requires |data| >= 4 && LE(data, 0, 4) == magic
    ensures data[0] == magic % 0x100 && data[1] == magic / 0x100 % 0x100
    ensures data[2] == magic / 0x1_0000 % 0x100 && data[3] == magic / 0x1_0000 / 0x100
  {
    hide LE;
    LE2Then(data, 0, 2);
    var lo, hi := LE(data, 0, 2), LE(data, 2, 2);
    TwoByteSum(data, 0);
    TwoByteSum(data, 2);
    assert lo < 0x1_0000;
    assert magic % 0x1_0000 == lo && magic / 0x1_0000 == hi;
    assert magic % 0x100 == lo % 0x100 && magic / 0x100 % 0x100 == lo / 0x100;
  }

  lemma {:induction false} TwoByteSum(data: bytes, pos: nat)
    requires pos + 2 <= |data|
    ensures LE(data, pos, 2) % 0x100 == data[pos] && LE(data, pos, 2) / 0x100 == data[pos + 1]
  {
    assert LE(data, pos, 2) == LE(data, pos + 1, 1) * 0x100 + data[pos];
    assert LE(data, pos + 1, 1) == LE(data, pos + 2, 0) * 0x100 + data[pos + 1];
  }

  /** A tag that is none of 1 to 4 reads as null in every parser, and nothing after it is
      skipped. */
  lemma {:induction false} OtherTagIsNull(buf: bytes, off: nat)
    requires off < |buf| && !(1 <= buf[off] <= 4)
    ensures PyCellAt(buf, off) == CheckedCellAt(buf, off) == Ok(Step(Null, off + 1))
  {
  }
}
