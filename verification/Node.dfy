/** The Node binding: its own row-major packer, which gives ASCII text a tag of its own,
    and the JavaScript parser on the other side. */
module Node {
  import opened Bytes
  import opened Repeat
  import opened Packed
  import opened Engine
  import Utf8

  // ---------------------------------------------------------------------------
  // Packer

  predicate Ascii(s: bytes) {
    forall i :: 0 <= i < |s| ==> s[i] < 0x80
  }

  /** The cell a value stands for; unlike the C interface, text keeps zero bytes. */
  function NodeCellOf(v: Value): Cell {
    match v
    case Null => Cell.Null
    case Real(bits) => Cell.Real(bits)
    case Decimal(bits) => Cell.Real(bits)
    case Text(s) => Cell.Text(s)
    case Json(s) => Cell.Text(s)
    case Display(s) => Cell.Text(s)
    case Bytes(s) => Cell.Blob(s)
    case _ => Cell.Integer(AsI64(v))
  }

  /** Text and JSON values of nothing but ASCII take the fast path. */
  predicate Fast(v: Value) {
    (v.Text? || v.Json?) && Ascii(v.s)
  }

  function ValueBytes(v: Value): bytes {
    if Fast(v) then [5] + Str4(v.s) else CellBytes(NodeCellOf(v))
  }

  function ValuesBytes(row: seq<Value>): bytes {
    ConcatAll(ValueBytes, row)
  }

  function NodePacked(names: seq<bytes>, rows: seq<seq<Value>>): bytes {
    Header(AXM1, |names|, |rows|) + (ConcatAll(Str4, names) + ConcatAll(ValuesBytes, rows))
  }

  method PackResult(names: seq<bytes>, rows: seq<seq<Value>>) returns (buf: bytes)
    ensures buf == NodePacked(names, rows)
  {
    hide Str4, Header, ValueBytes;
    buf := Header(AXM1, |names|, |rows|);
    buf := AppendNames(buf, names);
    ghost var head := buf;
    for i := 0 to |rows|
      invariant buf == head + ConcatAll(ValuesBytes, rows[..i])
    {
      ghost var start := buf;
      for c := 0 to |rows[i]|
        invariant buf == start + ConcatAll(ValueBytes, rows[i][..c])
      {
        buf := PackValue(buf, rows[i][c]);
        ConcatAllStep(ValueBytes, start, rows[i], c);
      }
      assert rows[i][..|rows[i]|] == rows[i];
      ConcatAllStep(ValuesBytes, head, rows, i);
    }
    assert rows[..|rows|] == rows;
  }

  method PackValue(head: bytes, v: Value) returns (buf: bytes)
    ensures buf == head + ValueBytes(v)
  {
    hide U32, U64, I64;
    match v {
      case Null =>
        buf := head + [0];
      case Real(bits) =>
        buf := head + [2] + U64(bits);
      case Decimal(bits) =>
        buf := head + [2] + U64(bits);
      case Text(s) =>
        buf := PackText(head, if Ascii(s) then 5 else 3, s);
      case Json(s) =>
        buf := PackText(head, if Ascii(s) then 5 else 3, s);
      case Display(s) =>
        buf := PackText(head, 3, s);
      case Bytes(s) =>
        buf := PackText(head, 4, s);
      case _ =>
        buf := head + [1] + I64(AsI64(v));
    }
  }

  method PackText(head: bytes, tag: u8, s: bytes) returns (buf: bytes)
    ensures buf == head + ([tag] + Str4(s))
  {
    hide U32;
    buf := head + [tag];
    buf := buf + U32(|s| % 0x1_0000_0000);
    buf := buf + s;
  }

  // ---------------------------------------------------------------------------
  // JavaScript parser

  /** Integers and doubles both become numbers, given by the bits of their double. */
  datatype JsCell = JsNull | JsNumber(bits: u64) | JsString(s: bytes) | JsBuffer(b: bytes)

  datatype JsTable = JsTable(columns: seq<bytes>, rows: seq<seq<JsCell>>)

  /** What JavaScript does with invalid UTF-8, and the double nearest to an integer. */
  datatype Js = Js(lossy: bytes -> bytes, toDouble: int -> u64)

  function ToI32(b: bytes): int
    requires |b| == 4
  {
    var n := ToU32(b);
    if n < 0x8000_0000 then n else n - 0x1_0000_0000
  }

  /** Each byte is a code point of its own. */
  function Latin1(s: bytes): (r: bytes) {
    if s == [] then []
    else
      var b := s[|s| - 1];
      Latin1(s[..|s| - 1]) + (if b < 0x80 then [b] else [0xC0 + b / 0x40, 0x80 + b % 0x40])
  }

  function Decoded(js: Js, s: bytes): bytes {
    if ValidUtf8(s) then s else js.lossy(s)
  }

  /** A length and that many bytes, cut back at the end of the buffer. */
  function JsBytesAt(buf: bytes, off: nat): (r: Result<Step<bytes>, ReadError>) {
    if |buf| < off + 4 then Err(Short)
    else
      var ln := ToU32(buf[off..off + 4]);
      Ok(Step(Slice(buf, off + 4, off + 4 + ln), off + 4 + ln))
  }

  function JsNameAt(js: Js, buf: bytes, off: nat): (r: Result<Step<bytes>, ReadError>) {
    var s := JsBytesAt(buf, off);
    if s.Err? then s else Ok(Step(Decoded(js, s.value.value), s.value.off))
  }

  /** Past the end the tag is undefined, which reads as null; the integer is put together
      from its two halves. */
  function JsCellAt(js: Js, buf: bytes, off: nat): (r: Result<Step<JsCell>, ReadError>) {
    if |buf| <= off then Ok(Step(JsNull, off + 1))
    else if buf[off] == 1 then
      if |buf| < off + 9 then Err(Short)
      else
        var n := ToU32(buf[off + 1..off + 5]) + ToI32(buf[off + 5..off + 9]) * 4294967296;
        Ok(Step(JsNumber(js.toDouble(n)), off + 9))
    else if buf[off] == 2 then
      if |buf| < off + 9 then Err(Short) else Ok(Step(JsNumber(ToU64(buf[off + 1..off + 9])), off + 9))
    else if buf[off] in {3, 4, 5} then
      var s := JsBytesAt(buf, off + 1);
      if s.Err? then Err(s.error)
      else
        var v := s.value.value;
        Ok(Step(if buf[off] == 5 then JsString(Latin1(v)) else if buf[off] == 3 then JsString(Decoded(js, v)) else JsBuffer(v),
                s.value.off))
    else Ok(Step(JsNull, off + 1))
  }

  function JsName(js: Js, buf: bytes): Reader<bytes> {
    (off: nat) => JsNameAt(js, buf, off)
  }

  function JsCells(js: Js, buf: bytes): Reader<JsCell> {
    (off: nat) => JsCellAt(js, buf, off)
  }

  function JsRow(js: Js, buf: bytes, nCols: nat): Reader<seq<JsCell>> {
    (off: nat) => Times(JsCells(js, buf), off, nCols)
  }

  /** An array of more than 2^32 - 1 rows cannot be made. */
  function JsPacked(js: Js, buf: bytes): (r: Result<Step<JsTable>, ReadError>) {
    var h := PyHeader(buf, AXM1);
    if h.Err? then Err(h.error)
    else
      var names := Times(JsName(js, buf), 16, h.value.0);
      if names.Err? then Err(names.error)
      else if h.value.1 >= 0x1_0000_0000 then Err(Short)
      else
        var rows := Times(JsRow(js, buf, h.value.0), names.value.off, h.value.1);
        if rows.Err? then Err(rows.error)
        else Ok(Step(JsTable(names.value.value, rows.value.value), rows.value.off))
  }

  method JsParsePacked(js: Js, buf: bytes) returns (r: Result<Step<JsTable>, ReadError>)
    ensures r == JsPacked(js, buf)
  {
    hide ToU32, ToU64, JsCellAt, JsNameAt;
    if |buf| < 4 {
      return Err(Short);
    }
    if ToU32(buf[0..4]) != AXM1 {
      return Err(BadMagic);
    }
    if |buf| < 16 {
      return Err(Short);
    }
    var nCols, nRows := ToU32(buf[4..8]), ToU64(buf[8..16]);
    var off: nat := 16;
    var columns := [];
    for c := 0 to nCols
      invariant Times(JsName(js, buf), 16, c) == Ok(Step(columns, off))
    {
      var name := JsNameAt(js, buf, off);
      if name.Err? {
        ErrorsStay(JsName(js, buf), 16, c + 1, nCols);
        return Err(name.error);
      }
      columns := columns + [name.value.value];
      off := name.value.off;
    }
    if nRows >= 0x1_0000_0000 {
      return Err(Short);
    }
    var first := off;
    var rows := [];
    for i := 0 to nRows
      invariant Times(JsRow(js, buf, nCols), first, i) == Ok(Step(rows, off))
    {
      var start := off;
      var row := [];
      for c := 0 to nCols
        invariant Times(JsCells(js, buf), start, c) == Ok(Step(row, off))
      {
        var cell := JsCellAt(js, buf, off);
        if cell.Err? {
          ErrorsStay(JsCells(js, buf), start, c + 1, nCols);
          assert JsRow(js, buf, nCols)(start) == Err(cell.error);
          ErrorsStay(JsRow(js, buf, nCols), first, i + 1, nRows);
          return Err(cell.error);
        }
        row := row + [cell.value.value];
        off := cell.value.off;
      }
      assert JsRow(js, buf, nCols)(start) == Ok(Step(row, off));
      rows := rows + [row];
    }
    return Ok(Step(JsTable(columns, rows), off));
  }

  // ---------------------------------------------------------------------------
  // What JavaScript sees

  function JsOf(js: Js, c: Cell): JsCell {
    match c
    case Null => JsNull
    case Integer(n) => JsNumber(js.toDouble(n))
    case Real(bits) => JsNumber(bits)
    case Text(s) => JsString(s)
    case Blob(b) => JsBuffer(b)
  }

  function JsValue(js: Js): Value -> JsCell {
    (v: Value) => JsOf(js, NodeCellOf(v))
  }

  function JsValues(js: Js): seq<Value> -> seq<JsCell> {
    (row: seq<Value>) => MapAll(JsValue(js), row)
  }

  /** The two halves of an integer, the upper one signed, make up the integer. */
  lemma {:induction false} HalvesOfI64(b: bytes)
    requires |b| == 8
    ensures ToU32(b[0..4]) + ToI32(b[4..8]) * 4294967296 == ToI64(b)
  {
    hide ToU32;
    assert b[..4] == b[0..4] && b[4..] == b[4..8];
  }

  lemma {:induction false} AsciiIsLatin1(s: bytes)
    requires Ascii(s)
    ensures Latin1(s) == s
  {
    if s != [] {
      AsciiIsLatin1(s[..|s| - 1]);
    }
  }

  lemma {:induction false} JsIntegerAt(js: Js, buf: bytes, off: nat, n: i64)
    requires Has(buf, off, [1] + I64(n))
    ensures JsCellAt(js, buf, off) == Ok(Step(JsNumber(js.toDouble(n)), off + 9))
  {
    hide Has, ToU32, I64, ToI64, ToI32, ToU64;
    HasConcat(buf, off, [1], I64(n));
    ReadU8Has(buf, off, 1);
    ReadI64Has(buf, off + 1, n);
    var b := buf[off + 1..off + 9];
    HalvesOfI64(b);
    assert b[0..4] == buf[off + 1..off + 5] && b[4..8] == buf[off + 5..off + 9];
  }

  lemma {:induction false} JsTaggedAt(js: Js, buf: bytes, off: nat, tag: u8, s: bytes)
    requires tag in {3, 4, 5} && |s| < 0x1_0000_0000 && Has(buf, off, [tag] + Str4(s))
    ensures JsCellAt(js, buf, off)
         == Ok(Step(if tag == 5 then JsString(Latin1(s)) else if tag == 3 then JsString(Decoded(js, s)) else JsBuffer(s), off + 5 + |s|))
  {
    hide Has, ToU32, ValidUtf8, Str4, Latin1, Decoded;
    HasConcat(buf, off, [tag], Str4(s));
    ReadU8Has(buf, off, tag);
    Str4Has(buf, off + 1, s);
  }

  lemma {:induction false} JsValueAt(js: Js, buf: bytes, off: nat, v: Value)
    requires ValueFits(v) && Has(buf, off, ValueBytes(v))
    ensures JsCellAt(js, buf, off) == Ok(Step(JsValue(js)(v), off + |ValueBytes(v)|))
  {
    hide Has, JsCellAt, Str4, I64, U64, Latin1, ValidUtf8, ToU64;
    match v {
      case Null =>
        JsOtherAt(js, buf, off);
      case Real(bits) =>
        JsRealAt(js, buf, off, bits);
      case Decimal(bits) =>
        JsRealAt(js, buf, off, bits);
      case Text(s) =>
        JsStringAt(js, buf, off, v);
      case Json(s) =>
        JsStringAt(js, buf, off, v);
      case Display(s) =>
        Str4Length(s);
        JsTaggedAt(js, buf, off, 3, s);
      case Bytes(s) =>
        Str4Length(s);
        JsTaggedAt(js, buf, off, 4, s);
      case _ =>
        JsIntegerAt(js, buf, off, AsI64(v));
    }
  }

  lemma {:induction false} JsOtherAt(js: Js, buf: bytes, off: nat)
    requires Has(buf, off, [0])
    ensures JsCellAt(js, buf, off) == Ok(Step(JsNull, off + 1))
  {
    ReadU8Has(buf, off, 0);
  }

  lemma {:induction false} JsRealAt(js: Js, buf: bytes, off: nat, bits: u64)
    requires Has(buf, off, [2] + U64(bits))
    ensures JsCellAt(js, buf, off) == Ok(Step(JsNumber(bits), off + 9))
  {
    hide Has, U64, ToU64;
    HasConcat(buf, off, [2], U64(bits));
    ReadU8Has(buf, off, 2);
    ReadU64Has(buf, off + 1, bits);
  }

  lemma {:induction false} JsStringAt(js: Js, buf: bytes, off: nat, v: Value)
    requires (v.Text? || v.Json?) && TextFits(v.s) && Has(buf, off, ValueBytes(v))
    ensures JsCellAt(js, buf, off) == Ok(Step(JsString(v.s), off + 5 + |v.s|))
    ensures |ValueBytes(v)| == 5 + |v.s|
  {
    hide Has, JsCellAt, Str4, Latin1, ValidUtf8;
    Str4Length(v.s);
    if Ascii(v.s) {
      AsciiIsLatin1(v.s);
      JsTaggedAt(js, buf, off, 5, v.s);
    } else {
      JsTaggedAt(js, buf, off, 3, v.s);
    }
  }

  lemma {:induction false} JsNameReads(js: Js, buf: bytes, s: bytes)
    requires TextFits(s)
    ensures ReadsAs(JsName(js, buf), Str4, Same(), buf, s)
  {
    hide ToU32, U32, ValidUtf8;
    forall off: nat | Has(buf, off, Str4(s)) ensures JsName(js, buf)(off) == Ok(Step(s, off + |Str4(s)|)) {
      Str4Has(buf, off, s);
    }
  }

  function Same(): bytes -> bytes {
    (s: bytes) => s
  }

  lemma {:induction false} JsRowReads(js: Js, buf: bytes, row: seq<Value>)
    requires forall i :: 0 <= i < |row| ==> ValueFits(row[i])
    ensures ReadsAs(JsRow(js, buf, |row|), ValuesBytes, JsValues(js), buf, row)
  {
    hide JsCellAt, ValueBytes, ValueFits, Has, JsOf, NodeCellOf;
    forall i | 0 <= i < |row| ensures ReadsAs(JsCells(js, buf), ValueBytes, JsValue(js), buf, row[i]) {
      forall o: nat | Has(buf, o, ValueBytes(row[i]))
        ensures JsCells(js, buf)(o) == Ok(Step(JsValue(js)(row[i]), o + |ValueBytes(row[i])|)) {
        JsValueAt(js, buf, o, row[i]);
      }
    }
    forall off: nat | Has(buf, off, ValuesBytes(row))
      ensures JsRow(js, buf, |row|)(off) == Ok(Step(JsValues(js)(row), off + |ValuesBytes(row)|)) {
      ReadsAllAs(JsCells(js, buf), ValueBytes, JsValue(js), buf, row, off);
    }
  }

  lemma {:induction false} JsRowsRead(js: Js, buf: bytes, rows: seq<seq<Value>>, nCols: nat, off: nat)
    requires forall i :: 0 <= i < |rows| ==> |rows[i]| == nCols && forall c :: 0 <= c < nCols ==> ValueFits(rows[i][c])
    requires Has(buf, off, ConcatAll(ValuesBytes, rows))
    ensures Times(JsRow(js, buf, nCols), off, |rows|)
         == Ok(Step(MapAll(JsValues(js), rows), off + |ConcatAll(ValuesBytes, rows)|))
  {
    hide Has, ValuesBytes, ValueFits, JsRow, Times, ConcatAll, ReadsAs, JsValues;
    forall i | 0 <= i < |rows| ensures ReadsAs(JsRow(js, buf, nCols), ValuesBytes, JsValues(js), buf, rows[i]) {
      JsRowReads(js, buf, rows[i]);
    }
    ReadsAllAs(JsRow(js, buf, nCols), ValuesBytes, JsValues(js), buf, rows, off);
  }

  /** Every result the packer can write, followed by any bytes, is parsed in JavaScript to
      its values, stopping exactly at its end, as long as an array can hold its rows.
      Text comes back whole whichever tag it took, and integers as the nearest double. */
  lemma {:induction false} NodeRoundTrip(js: Js, names: seq<bytes>, rows: seq<seq<Value>>, rest: bytes)
    requires ResultFits(names, rows)
    ensures var e := NodePacked(names, rows);
            JsPacked(js, e + rest)
            == if |rows| < 0x1_0000_0000 then Ok(Step(JsTable(names, MapAll(JsValues(js), rows)), |e|)) else Err(Short)
  {
    hide Has, Header, Str4, ToU32, ToU64, ValuesBytes, JsCellAt, JsNameAt, ConcatAll, ValueFits, TextFits, JsValues, JsRow, JsName,
         Times;
    var e := NodePacked(names, rows);
    var buf := e + rest;
    var ns, rs := ConcatAll(Str4, names), ConcatAll(ValuesBytes, rows);
    HasPrefix(buf, e);
    HasConcat(buf, 0, Header(AXM1, |names|, |rows|), ns + rs);
    HasConcat(buf, 16, ns, rs);
    HeaderHas(buf, AXM1, |names|, |rows|);
    JsNamesRead(js, buf, names);
    JsRowsRead(js, buf, rows, |names|, 16 + |ns|);
  }

  lemma {:induction false} JsNamesRead(js: Js, buf: bytes, names: seq<bytes>)
    requires forall i :: 0 <= i < |names| ==> TextFits(names[i])
    requires Has(buf, 16, ConcatAll(Str4, names))
    ensures Times(JsName(js, buf), 16, |names|) == Ok(Step(names, 16 + |ConcatAll(Str4, names)|))
  {
    hide Has, Str4, TextFits, JsName, ReadsAs, Times, ConcatAll;
    forall i | 0 <= i < |names| ensures ReadsAs(JsName(js, buf), Str4, Same(), buf, names[i]) {
      JsNameReads(js, buf, names[i]);
    }
    ReadsAllAs(JsName(js, buf), Str4, Same(), buf, names, 16);
    assert MapAll(Same(), names) == names;
  }

  // ---------------------------------------------------------------------------
  // The Node form and the C form

  function NodeCells(): Value -> Cell {
    (v: Value) => NodeCellOf(v)
  }

  function NodeRow(): seq<Value> -> seq<Cell> {
    (row: seq<Value>) => MapAll(NodeCells(), row)
  }

  /** A value and a row as the other bindings expect them. */
  function PlainBytes(v: Value): bytes {
    CellBytes(NodeCellOf(v))
  }

  function PlainRow(row: seq<Value>): bytes {
    ConcatAll(PlainBytes, row)
  }

  lemma {:induction false} PlainIsPacked(rows: seq<seq<Value>>)
    ensures ConcatAll(PlainRow, rows) == ConcatAll(RowBytes, MapAll(NodeRow(), rows))
  {
    hide ConcatAll, CellBytes, NodeCellOf;
    forall i | 0 <= i < |rows| ensures PlainRow(rows[i]) == RowBytes(NodeRow()(rows[i])) {
      ConcatAllMapped(PlainBytes, CellBytes, NodeCells(), rows[i]);
    }
    ConcatAllMapped(PlainRow, RowBytes, NodeRow(), rows);
  }

  lemma {:induction false} FastDiffers(v: Value)
    ensures |ValueBytes(v)| == |PlainBytes(v)|
    ensures ValueBytes(v) == PlainBytes(v) <==> !Fast(v)
  {
    hide Ascii, Str4;
    if Fast(v) {
      assert ValueBytes(v)[0] == 5 && PlainBytes(v)[0] == 3;
    }
  }

  lemma {:induction false} FastRowDiffers(row: seq<Value>)
    ensures |ValuesBytes(row)| == |PlainRow(row)|
    ensures ValuesBytes(row) == PlainRow(row) <==> forall c :: 0 <= c < |row| ==> !Fast(row[c])
  {
    hide ValueBytes, PlainBytes, ConcatAll, Fast;
    forall c | 0 <= c < |row|
      ensures |ValueBytes(row[c])| == |PlainBytes(row[c])| && (ValueBytes(row[c]) == PlainBytes(row[c]) <==> !Fast(row[c])) {
      FastDiffers(row[c]);
    }
    ConcatAllEqual(ValueBytes, PlainBytes, row);
  }

  /** The packer writes the format of the other bindings exactly when no text or JSON
      value is plain ASCII. */
  lemma {:induction false} SameFormatIff(names: seq<bytes>, rows: seq<seq<Value>>)
    ensures NodePacked(names, rows) == Packed.Encode(Table(names, MapAll(NodeRow(), rows)))
       <==> forall i, c :: 0 <= i < |rows| && 0 <= c < |rows[i]| ==> !Fast(rows[i][c])
  {
    hide ValuesBytes, PlainRow, ConcatAll, Fast, Header, Str4, RowBytes;
    PlainIsPacked(rows);
    forall i | 0 <= i < |rows|
      ensures |ValuesBytes(rows[i])| == |PlainRow(rows[i])|
      ensures ValuesBytes(rows[i]) == PlainRow(rows[i]) <==> forall c :: 0 <= c < |rows[i]| ==> !Fast(rows[i][c]) {
      FastRowDiffers(rows[i]);
    }
    ConcatAllEqual(ValuesBytes, PlainRow, rows);
    var head, ns := Header(AXM1, |names|, |rows|), ConcatAll(Str4, names);
    SplitEqual(ns, ns, ConcatAll(ValuesBytes, rows), ConcatAll(PlainRow, rows));
    SplitEqual(head, head, ns + ConcatAll(ValuesBytes, rows), ns + ConcatAll(PlainRow, rows));
  }

  /** One empty text is enough to tell them apart. */
  lemma {:induction false} FastPathDiffers(name: bytes)
    ensures var rows := [[Value.Text([])]];
            NodePacked([name], rows) != Packed.Encode(Table([name], MapAll(NodeRow(), rows)))
  {
    hide NodePacked, Packed.Encode;
    var rows := [[Value.Text([])]];
    assert Fast(rows[0][0]);
    SameFormatIff([name], rows);
  }

  // ---------------------------------------------------------------------------
  // What JavaScript sees of each value

  predicate JsShows(js: Js, v: Value, c: JsCell) {
    match v
    case Null => c == JsNull
    case Bool(b) => c == JsNumber(js.toDouble(if b then 1 else 0))
    case Int(n) => c == JsNumber(js.toDouble(n))
    case BigInt(n) => c == JsNumber(js.toDouble(n))
    case Date(n) => c == JsNumber(js.toDouble(n))
    case Timestamp(n) => c == JsNumber(js.toDouble(n))
    case TimestampTz(n) => c == JsNumber(js.toDouble(n))
    case Real(bits) => c == JsNumber(bits)
    case Decimal(bits) => c == JsNumber(bits)
    case Text(s) => c == JsString(s)
    case Json(s) => c == JsString(s)
    case Display(s) => c == JsString(s)
    case Bytes(s) => c == JsBuffer(s)
  }

  /** Place by place, JavaScript reads the values of a result: numbers as doubles, booleans
      as 0 and 1, text whole even with a zero byte. */
  lemma {:induction false} NodeSeen(js: Js, names: seq<bytes>, rows: seq<seq<Value>>)
    requires ResultFits(names, rows) && |rows| < 0x1_0000_0000
    ensures var r := JsPacked(js, NodePacked(names, rows));
            && r.Ok? && r.value.value.columns == names && |r.value.value.rows| == |rows|
            && (forall i :: 0 <= i < |rows| ==> |r.value.value.rows[i]| == |names|)
            && forall i, c :: 0 <= i < |rows| && 0 <= c < |names| ==> JsShows(js, rows[i][c], r.value.value.rows[i][c])
  {
    hide JsPacked, NodePacked, ValueFits, TextFits, JsShows, NodeCellOf, JsOf;
    NodeRoundTrip(js, names, rows, []);
    var e := NodePacked(names, rows);
    assert e + [] == e;
    forall i, c | 0 <= i < |rows| && 0 <= c < |names| ensures JsShows(js, rows[i][c], JsValue(js)(rows[i][c])) {
      JsValueShows(js, rows[i][c]);
    }
  }

  lemma {:induction false} JsValueShows(js: Js, v: Value)
    ensures JsShows(js, v, JsOf(js, NodeCellOf(v)))
  {
  }

  /** ASCII text and JSON go under tag 5, all else as the C interface writes it. */
  lemma {:induction false} ValueTags(v: Value)
    ensures var b := ValueBytes(v);
            && b != []
            && match v
               case Null => b[0] == 0
               case Real(_) => b[0] == 2
               case Decimal(_) => b[0] == 2
               case Text(s) => b[0] == if (forall i :: 0 <= i < |s| ==> s[i] < 0x80) then 5 else 3
               case Json(s) => b[0] == if (forall i :: 0 <= i < |s| ==> s[i] < 0x80) then 5 else 3
               case Display(_) => b[0] == 3
               case Bytes(_) => b[0] == 4
               case _ => b[0] == 1
  {
    hide Str4, I64, U64;
  }

  // ---------------------------------------------------------------------------
  // What JavaScript makes of other buffers

  /** Under tag 5 every byte is the code point of its number. */
  lemma {:induction false} Latin1Is(s: bytes)
    ensures (forall i :: 0 <= i < |s| ==> Utf8.Scalar(s[i])) && Latin1(s) == Utf8.TextBytes(s)
  {
    if s != [] {
      var init, b := s[..|s| - 1], s[|s| - 1];
      Latin1Is(init);
      assert s == init + [b];
      Utf8.TextBytesLast(init, b);
    }
  }

  /** Past the end, and under any other tag, a cell is null and one byte long. */
  lemma {:induction false} OtherCellIsNull(js: Js, buf: bytes, off: nat)
    requires off < |buf| ==> !(1 <= buf[off] <= 5)
    ensures JsCellAt(js, buf, off) == Ok(Step(JsNull, off + 1))
  {
  }
}
