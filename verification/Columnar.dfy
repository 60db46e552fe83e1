/** The columnar packed result format (AXM2) and its Python parser. Columns of one
    type without NULLs are stored in bulk, all others cell by cell. */
module Columnar {
  import opened Bytes
  import opened Repeat
  import opened Packed

  const AXM2: u32 := 0x4158_4D32

  datatype Kind = I | F | T | B | M

  function KindByte(k: Kind): u8 {
    match k
    case I => 0x49
    case F => 0x46
    case T => 0x54
    case B => 0x42
    case M => 0x4D
  }

  // ---------------------------------------------------------------------------
  // Layout

  /** One column: how it is stored and what it holds. */
  datatype Block = Block(kind: Kind, cells: seq<Cell>)

  predicate Bulk(k: Kind, c: Cell) {
    match k
    case I => c.Integer?
    case F => c.Real?
    case T => c.Text?
    case B => c.Blob?
    case M => true
  }

  predicate WfBlock(b: Block) {
    RowFits(b.cells) && forall i :: 0 <= i < |b.cells| ==> Bulk(b.kind, b.cells[i])
  }

  function IntBytes(c: Cell): (b: bytes)
    ensures |b| == 8
  {
    I64(if c.Integer? then c.n else 0)
  }

  function RealBytes(c: Cell): (b: bytes)
    ensures |b| == 8
  {
    U64(if c.Real? then c.bits else 0)
  }

  function RawBytes(c: Cell): bytes {
    match c
    case Text(s) => s
    case Blob(b) => b
    case _ => []
  }

  function LenBytes(c: Cell): (b: bytes)
    ensures |b| == 4
  {
    U32(|RawBytes(c)| % 0x1_0000_0000)
  }

  function Payload(b: Block): bytes {
    match b.kind
    case I => ConcatAll(IntBytes, b.cells)
    case F => ConcatAll(RealBytes, b.cells)
    case T => ConcatAll(LenBytes, b.cells) + ConcatAll(RawBytes, b.cells)
    case B => ConcatAll(LenBytes, b.cells) + ConcatAll(RawBytes, b.cells)
    case M => ConcatAll(CellBytes, b.cells)
  }

  function BlockBytes(b: Block): bytes {
    [KindByte(b.kind)] + Payload(b)
  }

  function ColumnOf(rows: seq<seq<Cell>>, c: nat): (r: seq<Cell>)
    requires forall i :: 0 <= i < |rows| ==> c < |rows[i]|
    ensures |r| == |rows| && forall i :: 0 <= i < |rows| ==> r[i] == rows[i][c]
  {
    seq(|rows|, i requires 0 <= i < |rows| => rows[i][c])
  }

  function Blocks(t: Table, kinds: seq<Kind>): (r: seq<Block>)
    requires |kinds| == |t.names|
    requires forall i :: 0 <= i < |t.rows| ==> |t.rows[i]| == |t.names|
    ensures |r| == |kinds|
    ensures forall c :: 0 <= c < |kinds| ==> r[c] == Block(kinds[c], ColumnOf(t.rows, c))
  {
    seq(|kinds|, c requires 0 <= c < |kinds| => Block(kinds[c], ColumnOf(t.rows, c)))
  }

  function Encode(names: seq<bytes>, nRows: nat, blocks: seq<Block>): bytes {
    Header(AXM2, |names|, nRows) + (ConcatAll(Str4, names) + ConcatAll(BlockBytes, blocks))
  }

  // ---------------------------------------------------------------------------
  // Python parser

  function BulkInts(buf: bytes, off: nat, n: nat): (r: seq<Cell>)
    requires off + 8 * n <= |buf|
    ensures |r| == n
    ensures forall i :: 0 <= i < n ==> r[i] == Integer(ToI64(buf[off + 8 * i..off + 8 * i + 8]))
  {
    seq(n, i requires 0 <= i < n => Integer(ToI64(buf[off + 8 * i..off + 8 * i + 8])))
  }

  function BulkReals(buf: bytes, off: nat, n: nat): (r: seq<Cell>)
    requires off + 8 * n <= |buf|
    ensures |r| == n
    ensures forall i :: 0 <= i < n ==> r[i] == Real(ToU64(buf[off + 8 * i..off + 8 * i + 8]))
  {
    seq(n, i requires 0 <= i < n => Real(ToU64(buf[off + 8 * i..off + 8 * i + 8])))
  }

  function BulkLens(buf: bytes, off: nat, n: nat): (r: seq<nat>)
    requires off + 4 * n <= |buf|
    ensures |r| == n
    ensures forall i :: 0 <= i < n ==> r[i] == ToU32(buf[off + 4 * i..off + 4 * i + 4])
  {
    seq(n, i requires 0 <= i < n => ToU32(buf[off + 4 * i..off + 4 * i + 4]))
  }

  /** Cuts one string per length, in sequence, from `off` on. */
  function Cuts(buf: bytes, off: nat, lens: seq<nat>, binary: bool): (r: Result<Step<seq<Cell>>, ReadError>)
    ensures r.Ok? ==> |r.value.value| == |lens|
  {
    if lens == [] then Ok(Step([], off))
    else
      var r := Cuts(buf, off, lens[..|lens| - 1], binary);
      if r.Err? then r
      else
        var end := r.value.off + lens[|lens| - 1];
        var s := Slice(buf, r.value.off, end);
        if binary then Ok(Step(r.value.value + [Blob(s)], end))
        else if ValidUtf8(s) then Ok(Step(r.value.value + [Text(s)], end))
        else Err(BadUtf8)
  }

  function PyColumnAt(buf: bytes, off: nat, n: nat): (r: Result<Step<seq<Cell>>, ReadError>)
    ensures r.Ok? ==> |r.value.value| == n
  {
    if |buf| <= off then Err(Short)
    else if buf[off] == 0x49 then
      if |buf| < off + 1 + 8 * n then Err(Short) else Ok(Step(BulkInts(buf, off + 1, n), off + 1 + 8 * n))
    else if buf[off] == 0x46 then
      if |buf| < off + 1 + 8 * n then Err(Short) else Ok(Step(BulkReals(buf, off + 1, n), off + 1 + 8 * n))
    else if buf[off] == 0x54 || buf[off] == 0x42 then
      if |buf| < off + 1 + 4 * n then Err(Short)
      else Cuts(buf, off + 1 + 4 * n, BulkLens(buf, off + 1, n), buf[off] == 0x42)
    else Times(PyCell(buf), off + 1, n)
  }

  function PyColumn(buf: bytes, n: nat): Reader<seq<Cell>> {
    (off: nat) => PyColumnAt(buf, off, n)
  }

  function MinLength(cols: seq<seq<Cell>>): (n: nat)
    requires cols != []
    ensures forall c :: 0 <= c < |cols| ==> n <= |cols[c]|
    ensures exists c :: 0 <= c < |cols| && n == |cols[c]|
  {
    if |cols| == 1 then |cols[0]|
    else
      var n := MinLength(cols[1..]);
      if |cols[0]| < n then |cols[0]| else n
  }

  /** `zip(*columns)`: as many rows as the shortest column has cells. */
  function Zip(cols: seq<seq<Cell>>): (rows: seq<seq<Cell>>) {
    if cols == [] then []
    else
      seq(MinLength(cols), r requires 0 <= r < MinLength(cols) =>
        seq(|cols|, c requires 0 <= c < |cols| => cols[c][r]))
  }

  function PyColumnar(buf: bytes): (r: Result<Step<Table>, ReadError>) {
    var h := PyHeader(buf, AXM2);
    if h.Err? then Err(h.error)
    else
      var names := Times(PyText(buf), 16, h.value.0);
      if names.Err? then Err(names.error)
      else
        var cols := Times(PyColumn(buf, h.value.1), names.value.off, h.value.0);
        if cols.Err? then Err(cols.error)
        else
          var rows := if h.value.1 > 0 && h.value.0 > 0 then Zip(cols.value.value) else [];
          Ok(Step(Table(names.value.value, rows), cols.value.off))
  }

  method ParseColumnar(buf: bytes) returns (r: Result<Step<Table>, ReadError>)
    ensures r == PyColumnar(buf)
  {
    hide ToU32, ToU64, PyTextAt, PyColumnAt, Zip;
    if |buf| < 4 {
      return Err(Short);
    }
    if ToU32(buf[0..4]) != AXM2 {
      return Err(BadMagic);
    }
    if |buf| < 16 {
      return Err(Short);
    }
    var nCols := ToU32(buf[4..8]);
    var nRows := ToU64(buf[8..16]);
    var names := ParseNames(buf, nCols);
    if names.Err? {
      return Err(names.error);
    }
    var off := names.value.off;
    var columns := [];
    for c := 0 to nCols
      invariant Times(PyColumn(buf, nRows), names.value.off, c) == Ok(Step(columns, off))
    {
      var col := ParseColumn(buf, off, nRows);
      if col.Err? {
        ErrorsStay(PyColumn(buf, nRows), names.value.off, c + 1, nCols);
        return Err(col.error);
      }
      columns := columns + [col.value.value];
      off := col.value.off;
    }
    var rows := if nRows > 0 && nCols > 0 then Zip(columns) else [];
    return Ok(Step(Table(names.value.value, rows), off));
  }

  method ParseColumn(buf: bytes, start: nat, nRows: nat) returns (r: Result<Step<seq<Cell>>, ReadError>)
    ensures r == PyColumnAt(buf, start, nRows)
  {
    hide ToU32, ToU64, ToI64, PyCellAt, BulkInts, BulkReals, BulkLens, ValidUtf8;
    if |buf| <= start {
      return Err(Short);
    }
    var off: nat := start;
    var kind := buf[off];
    off := off + 1;
    var arr: seq<Cell> := [];
    if kind == 0x49 {
      if |buf| < off + 8 * nRows {
        return Err(Short);
      }
      arr := BulkInts(buf, off, nRows);
      off := off + nRows * 8;
    } else if kind == 0x46 {
      if |buf| < off + 8 * nRows {
        return Err(Short);
      }
      arr := BulkReals(buf, off, nRows);
      off := off + nRows * 8;
    } else if kind == 0x54 || kind == 0x42 {
      if |buf| < off + 4 * nRows {
        return Err(Short);
      }
      var lens := BulkLens(buf, off, nRows);
      off := off + nRows * 4;
      r := CutStrings(buf, off, lens, kind == 0x42);
      return r;
    } else {
      for i := 0 to nRows
        invariant Times(PyCell(buf), start + 1, i) == Ok(Step(arr, off))
      {
        var cell := PyCellAt(buf, off);
        if cell.Err? {
          ErrorsStay(PyCell(buf), start + 1, i + 1, nRows);
          return Err(cell.error);
        }
        arr := arr + [cell.value.value];
        off := cell.value.off;
      }
    }
    return Ok(Step(arr, off));
  }

  method CutStrings(buf: bytes, start: nat, lens: seq<nat>, binary: bool)
    returns (r: Result<Step<seq<Cell>>, ReadError>)
    ensures r == Cuts(buf, start, lens, binary)
  {
    hide ValidUtf8, Slice;
    var off := start;
    var arr := [];
    for i := 0 to |lens|
      invariant Cuts(buf, start, lens[..i], binary) == Ok(Step(arr, off))
    {
      var s := Slice(buf, off, off + lens[i]);
      assert lens[..i + 1][..i] == lens[..i];
      if !binary && !ValidUtf8(s) {
        CutErrorsStay(buf, start, lens, i + 1, binary);
        return Err(BadUtf8);
      }
      arr := arr + [if binary then Blob(s) else Text(s)];
      off := off + lens[i];
    }
    assert lens[..|lens|] == lens;
    return Ok(Step(arr, off));
  }

  lemma {:induction false} CutErrorsStay(buf: bytes, off: nat, lens: seq<nat>, m: nat, binary: bool)
    requires m <= |lens| && Cuts(buf, off, lens[..m], binary).Err?
    ensures Cuts(buf, off, lens, binary) == Cuts(buf, off, lens[..m], binary)
    decreases |lens|
  {
    if m == |lens| {
      assert lens[..m] == lens;
    } else {
      assert lens[..|lens| - 1][..m] == lens[..m];
      CutErrorsStay(buf, off, lens[..|lens| - 1], m, binary);
    }
  }

  // ---------------------------------------------------------------------------
  // The parser reads every well-formed block

  lemma {:induction false} FixedWidth(enc: Cell -> bytes, w: nat, cells: seq<Cell>)
    requires forall c :: |enc(c)| == w
    ensures |ConcatAll(enc, cells)| == w * |cells|
  {
    if cells != [] {
      var n := |cells| - 1;
      FixedWidth(enc, w, cells[..n]);
      assert |enc(cells[n])| == w;
      assert w * n + w == w * (n + 1);
    }
  }

  lemma {:induction false} FixedWidthHas(buf: bytes, off: nat, enc: Cell -> bytes, w: nat, cells: seq<Cell>, i: nat)
    requires forall c :: |enc(c)| == w
    requires Has(buf, off, ConcatAll(enc, cells)) && i < |cells|
    ensures Has(buf, off + w * i, enc(cells[i]))
  {
    hide Has;
    var init, last := cells[..|cells| - 1], cells[|cells| - 1];
    HasConcat(buf, off, ConcatAll(enc, init), enc(last));
    FixedWidth(enc, w, init);
    if i < |init| {
      FixedWidthHas(buf, off, enc, w, init, i);
    }
  }

  lemma {:induction false} IntsRead(buf: bytes, off: nat, cells: seq<Cell>)
    requires forall i :: 0 <= i < |cells| ==> cells[i].Integer?
    requires Has(buf, off, ConcatAll(IntBytes, cells))
    ensures off + 8 * |cells| <= |buf| && BulkInts(buf, off, |cells|) == cells
  {
    hide ToI64, I64, Has, ConcatAll, BulkInts;
    FixedWidth(IntBytes, 8, cells);
    HasBound(buf, off, ConcatAll(IntBytes, cells));
    forall i | 0 <= i < |cells| ensures BulkInts(buf, off, |cells|)[i] == cells[i] {
      FixedWidthHas(buf, off, IntBytes, 8, cells, i);
      ReadI64Has(buf, off + 8 * i, cells[i].n);
    }
  }

  lemma {:induction false} RealsRead(buf: bytes, off: nat, cells: seq<Cell>)
    requires forall i :: 0 <= i < |cells| ==> cells[i].Real?
    requires Has(buf, off, ConcatAll(RealBytes, cells))
    ensures off + 8 * |cells| <= |buf| && BulkReals(buf, off, |cells|) == cells
  {
    hide ToU64, U64, Has, ConcatAll, BulkReals;
    FixedWidth(RealBytes, 8, cells);
    HasBound(buf, off, ConcatAll(RealBytes, cells));
    forall i | 0 <= i < |cells| ensures BulkReals(buf, off, |cells|)[i] == cells[i] {
      FixedWidthHas(buf, off, RealBytes, 8, cells, i);
      ReadU64Has(buf, off + 8 * i, cells[i].bits);
    }
  }

  function Lens(cells: seq<Cell>): (r: seq<nat>)
    ensures |r| == |cells| && forall i :: 0 <= i < |cells| ==> r[i] == |RawBytes(cells[i])|
  {
    seq(|cells|, i requires 0 <= i < |cells| => |RawBytes(cells[i])|)
  }

  lemma {:induction false} RawFits(c: Cell)
    requires CellFits(c)
    ensures |RawBytes(c)| < 0x1_0000_0000
    ensures c.Text? ==> ValidUtf8(c.s)
  {
  }

  lemma {:induction false} LenRead(buf: bytes, off: nat, cells: seq<Cell>, i: nat)
    requires RowFits(cells) && i < |cells|
    requires Has(buf, off, ConcatAll(LenBytes, cells))
    ensures off + 4 * i + 4 <= |buf| && ToU32(buf[off + 4 * i..off + 4 * i + 4]) == |RawBytes(cells[i])|
  {
    hide ToU32, U32, Has, ConcatAll, CellFits;
    FixedWidthHas(buf, off, LenBytes, 4, cells, i);
    RawFits(cells[i]);
    ReadU32Has(buf, off + 4 * i, |RawBytes(cells[i])|);
  }

  lemma {:induction false} LensRead(buf: bytes, off: nat, cells: seq<Cell>)
    requires RowFits(cells)
    requires Has(buf, off, ConcatAll(LenBytes, cells))
    ensures off + 4 * |cells| <= |buf| && BulkLens(buf, off, |cells|) == Lens(cells)
  {
    hide ToU32, Has, ConcatAll, RawBytes, LenBytes, BulkLens, Lens;
    FixedWidth(LenBytes, 4, cells);
    HasBound(buf, off, ConcatAll(LenBytes, cells));
    forall i | 0 <= i < |cells| ensures BulkLens(buf, off, |cells|)[i] == Lens(cells)[i] {
      LenRead(buf, off, cells, i);
    }
  }

  lemma {:induction false} SliceHas(buf: bytes, off: nat, s: bytes)
    requires Has(buf, off, s)
    ensures Slice(buf, off, off + |s|) == s
  {
  }

  lemma {:induction false} LensStep(cells: seq<Cell>)
    requires cells != []
    ensures Lens(cells) == Lens(cells[..|cells| - 1]) + [|RawBytes(cells[|cells| - 1])|]
  {
  }

  lemma {:induction false} CutsRead(buf: bytes, off: nat, cells: seq<Cell>, binary: bool)
    requires RowFits(cells)
    requires forall i :: 0 <= i < |cells| ==> if binary then cells[i].Blob? else cells[i].Text?
    requires Has(buf, off, ConcatAll(RawBytes, cells))
    ensures Cuts(buf, off, Lens(cells), binary) == Ok(Step(cells, off + |ConcatAll(RawBytes, cells)|))
  {
    hide Has, ValidUtf8, Slice, Cuts, CellFits, Lens;
    if cells == [] {
      CutsNone(buf, off, binary);
    } else {
      hide RawBytes;
      var init, last := cells[..|cells| - 1], cells[|cells| - 1];
      HasConcat(buf, off, ConcatAll(RawBytes, init), RawBytes(last));
      CutsRead(buf, off, init, binary);
      RawFits(last);
      SliceHas(buf, off + |ConcatAll(RawBytes, init)|, RawBytes(last));
      CutsStep(buf, off, Lens(init), |RawBytes(last)|, binary);
      LensStep(cells);
      assert cells == init + [last];
      RawIsCell(last);
    }
  }

  lemma {:induction false} RawIsCell(c: Cell)
    ensures c.Blob? ==> c == Blob(RawBytes(c))
    ensures c.Text? ==> c == Text(RawBytes(c))
  {
  }

  lemma {:induction false} CutsNone(buf: bytes, off: nat, binary: bool)
    ensures Cuts(buf, off, [], binary) == Ok(Step([], off))
  {
  }

  lemma {:induction false} CutsStep(buf: bytes, off: nat, lens: seq<nat>, n: nat, binary: bool)
    requires Cuts(buf, off, lens, binary).Ok?
    ensures var r := Cuts(buf, off, lens, binary).value;
            var s := Slice(buf, r.off, r.off + n);
            Cuts(buf, off, lens + [n], binary)
            == if binary then Ok(Step(r.value + [Blob(s)], r.off + n))
               else if ValidUtf8(s) then Ok(Step(r.value + [Text(s)], r.off + n))
               else Err(BadUtf8)
  {
    assert (lens + [n])[..|lens|] == lens;
  }

  lemma {:induction false} BlockRead(buf: bytes, off: nat, b: Block)
    requires WfBlock(b) && Has(buf, off, BlockBytes(b))
    ensures PyColumnAt(buf, off, |b.cells|) == Ok(Step(b.cells, off + |BlockBytes(b)|))
  {
    hide Has, ConcatAll, BulkInts, BulkReals, BulkLens, Cuts, RowFits, PyCellAt;
    HasConcat(buf, off, [KindByte(b.kind)], Payload(b));
    ReadU8Has(buf, off, KindByte(b.kind));
    match b.kind {
      case I =>
        IntsRead(buf, off + 1, b.cells);
        FixedWidth(IntBytes, 8, b.cells);
      case F =>
        RealsRead(buf, off + 1, b.cells);
        FixedWidth(RealBytes, 8, b.cells);
      case M =>
        CellsRead(buf, b.cells, off + 1);
      case _ =>
        HasConcat(buf, off + 1, ConcatAll(LenBytes, b.cells), ConcatAll(RawBytes, b.cells));
        LensRead(buf, off + 1, b.cells);
        FixedWidth(LenBytes, 4, b.cells);
        CutsRead(buf, off + 1 + 4 * |b.cells|, b.cells, b.kind == B);
    }
  }

  function CellsOf(blocks: seq<Block>): (r: seq<seq<Cell>>)
    ensures |r| == |blocks| && forall i :: 0 <= i < |blocks| ==> r[i] == blocks[i].cells
  {
    seq(|blocks|, i requires 0 <= i < |blocks| => blocks[i].cells)
  }

  lemma {:induction false} BlocksRead(buf: bytes, off: nat, blocks: seq<Block>, n: nat)
    requires forall i :: 0 <= i < |blocks| ==> WfBlock(blocks[i]) && |blocks[i].cells| == n
    requires Has(buf, off, ConcatAll(BlockBytes, blocks))
    ensures Times(PyColumn(buf, n), off, |blocks|)
            == Ok(Step(CellsOf(blocks), off + |ConcatAll(BlockBytes, blocks)|))
  {
    hide Has, PyColumnAt, BlockBytes, WfBlock;
    if blocks != [] {
      var init, last := blocks[..|blocks| - 1], blocks[|blocks| - 1];
      HasConcat(buf, off, ConcatAll(BlockBytes, init), BlockBytes(last));
      BlocksRead(buf, off, init, n);
      BlockRead(buf, off + |ConcatAll(BlockBytes, init)|, last);
      assert CellsOf(blocks) == CellsOf(init) + [last.cells];
    }
  }

  /** Zipping the columns of a table gives its rows back. */
  lemma {:induction false} ZipTransposes(t: Table, kinds: seq<Kind>)
    requires |kinds| == |t.names| > 0
    requires forall i :: 0 <= i < |t.rows| ==> |t.rows[i]| == |t.names|
    ensures Zip(CellsOf(Blocks(t, kinds))) == t.rows
  {
    var cols := CellsOf(Blocks(t, kinds));
    var rows := Zip(cols);
    assert |rows| == |t.rows|;
    forall r | 0 <= r < |rows| ensures rows[r] == t.rows[r] {
      assert forall c :: 0 <= c < |cols| ==> rows[r][c] == cols[c][r] == t.rows[r][c];
    }
  }

  ghost predicate KindsFit(t: Table, kinds: seq<Kind>)
    requires forall i :: 0 <= i < |t.rows| ==> |t.rows[i]| == |t.names|
  {
    && |kinds| == |t.names|
    && forall r, c :: 0 <= r < |t.rows| && 0 <= c < |kinds| ==> Bulk(kinds[c], t.rows[r][c])
  }

  /** Whatever kind each column is stored in, as long as its cells allow it, the
      columnar parser gets the table back, stopping exactly at its end; only a
      table without columns loses its rows. */
  lemma {:induction false} RoundTrip(t: Table, kinds: seq<Kind>, rest: bytes)
    requires TableFits(t) && KindsFit(t, kinds)
    ensures var e := Encode(t.names, |t.rows|, Blocks(t, kinds));
            PyColumnar(e + rest) == Ok(Step(Table(t.names, if t.names == [] then [] else t.rows), |e|))
  {
    hide Has, Header, ConcatAll, Str4, ToU32, ToU64, Zip, PyColumnAt, PyTextAt, BlockBytes, RowFits, TextFits;
    var blocks := Blocks(t, kinds);
    var e := Encode(t.names, |t.rows|, blocks);
    var buf := e + rest;
    var names, body := ConcatAll(Str4, t.names), ConcatAll(BlockBytes, blocks);
    HasPrefix(buf, e);
    HasConcat(buf, 0, Header(AXM2, |t.names|, |t.rows|), names + body);
    HasConcat(buf, 16, names, body);
    HeaderHas(buf, AXM2, |t.names|, |t.rows|);
    NamesRead(buf, t.names);
    BlocksWf(t, kinds);
    BlocksRead(buf, 16 + |names|, blocks, |t.rows|);
    if t.names != [] {
      ZipTransposes(t, kinds);
    }
  }

  lemma {:induction false} BlocksWf(t: Table, kinds: seq<Kind>)
    requires TableFits(t) && KindsFit(t, kinds)
    ensures forall c :: 0 <= c < |kinds| ==> WfBlock(Blocks(t, kinds)[c])
  {
    forall c | 0 <= c < |kinds| ensures WfBlock(Blocks(t, kinds)[c]) {
      var cells := ColumnOf(t.rows, c);
      assert forall r :: 0 <= r < |t.rows| ==> RowFits(t.rows[r]) && cells[r] == t.rows[r][c];
    }
  }

  /** The fast form refines the simple one: for every table and every admissible
      choice of column kinds, the columnar parser and the row-major parser return
      the same names and rows, exactly when the table has a column or no row. */
  lemma {:induction false} AgreesWithRowMajor(t: Table, kinds: seq<Kind>)
    requires TableFits(t) && KindsFit(t, kinds)
    ensures var columnar := PyColumnar(Encode(t.names, |t.rows|, Blocks(t, kinds)));
            var packed := PyPacked(Packed.Encode(t));
            && columnar.Ok? && packed == Ok(Step(t, |Packed.Encode(t)|))
            && (columnar.value.value == packed.value.value <==> t.names != [] || t.rows == [])
  {
    hide Packed.Encode, Encode, PyPacked, PyColumnar;
    var e, p := Encode(t.names, |t.rows|, Blocks(t, kinds)), Packed.Encode(t);
    RoundTrip(t, kinds, []);
    Packed.RoundTrip(t, []);
    assert e + [] == e && p + [] == p;
  }

  // ---------------------------------------------------------------------------
  // The layout by position

  /** A letter for the kind, then all numbers, all bits, or all lengths before all bytes;
      a mixed column is its cells. */
  ghost predicate BlockLayout(data: bytes, b: Block) {
    var n := |b.cells|;
    && data != []
    && match b.kind
       case I => data[0] == 'I' as int && |data| == 1 + 8 * n && forall i :: 0 <= i < n ==> IntAt(data, 1 + 8 * i, b.cells[i])
       case F => data[0] == 'F' as int && |data| == 1 + 8 * n && forall i :: 0 <= i < n ==> RealAt(data, 1 + 8 * i, b.cells[i])
       case T =>
         && data[0] == 'T' as int && |data| >= 1 + 4 * n && (forall i :: 0 <= i < n ==> LenAt(data, 1 + 4 * i, b.cells[i]))
         && data[1 + 4 * n..] == ConcatAll(RawBytes, b.cells)
       case B =>
         && data[0] == 'B' as int && |data| >= 1 + 4 * n && (forall i :: 0 <= i < n ==> LenAt(data, 1 + 4 * i, b.cells[i]))
         && data[1 + 4 * n..] == ConcatAll(RawBytes, b.cells)
       case M => data[0] == 'M' as int && data[1..] == ConcatAll(CellBytes, b.cells)
  }

  ghost predicate IntAt(data: bytes, pos: nat, c: Cell) {
    c.Integer? && pos + 8 <= |data| && LE(data, pos, 8) == if c.n < 0 then c.n + 0x1_0000_0000_0000_0000 else c.n
  }

  ghost predicate RealAt(data: bytes, pos: nat, c: Cell) {
    c.Real? && pos + 8 <= |data| && LE(data, pos, 8) == c.bits
  }

  ghost predicate LenAt(data: bytes, pos: nat, c: Cell) {
    pos + 4 <= |data| && LE(data, pos, 4) == match c { case Text(s) => |s| case Blob(b) => |b| case _ => 0 }
  }

  lemma {:induction false} BlockLayoutIs(b: Block)
    requires WfBlock(b)
    ensures BlockLayout(BlockBytes(b), b)
  {
    hide Has, ConcatAll, IntAt, RealAt, LenAt, CellBytes, RawBytes;
    var data := BlockBytes(b);
    HasAll(data, data);
    HasConcat(data, 0, [KindByte(b.kind)], Payload(b));
    match b.kind {
      case I =>
        FixedWidth(IntBytes, 8, b.cells);
        forall i | 0 <= i < |b.cells| ensures IntAt(data, 1 + 8 * i, b.cells[i]) {
          IntLayout(data, b.cells, i);
        }
      case F =>
        FixedWidth(RealBytes, 8, b.cells);
        forall i | 0 <= i < |b.cells| ensures RealAt(data, 1 + 8 * i, b.cells[i]) {
          RealLayout(data, b.cells, i);
        }
      case M =>
      case _ =>
        FixedWidth(LenBytes, 4, b.cells);
        HasConcat(data, 1, ConcatAll(LenBytes, b.cells), ConcatAll(RawBytes, b.cells));
        forall i | 0 <= i < |b.cells| ensures LenAt(data, 1 + 4 * i, b.cells[i]) {
          LenLayout(data, b.cells, i);
        }
    }
  }

  lemma {:induction false} IntLayout(data: bytes, cells: seq<Cell>, i: nat)
    requires i < |cells| && cells[i].Integer? && Has(data, 1, ConcatAll(IntBytes, cells))
    ensures IntAt(data, 1 + 8 * i, cells[i])
  {
    hide Has, ConcatAll, LE, I64;
    FixedWidthHas(data, 1, IntBytes, 8, cells, i);
    I64At(data, 1 + 8 * i, cells[i].n);
  }

  lemma {:induction false} RealLayout(data: bytes, cells: seq<Cell>, i: nat)
    requires i < |cells| && cells[i].Real? && Has(data, 1, ConcatAll(RealBytes, cells))
    ensures RealAt(data, 1 + 8 * i, cells[i])
  {
    hide Has, ConcatAll, LE, U64;
    FixedWidthHas(data, 1, RealBytes, 8, cells, i);
    U64At(data, 1 + 8 * i, cells[i].bits);
  }

  lemma {:induction false} LenLayout(data: bytes, cells: seq<Cell>, i: nat)
    requires i < |cells| && RowFits(cells) && Has(data, 1, ConcatAll(LenBytes, cells))
    ensures LenAt(data, 1 + 4 * i, cells[i])
  {
    hide Has, ConcatAll, LE, U32;
    FixedWidthHas(data, 1, LenBytes, 4, cells, i);
    RawFits(cells[i]);
    U32At(data, 1 + 4 * i, |RawBytes(cells[i])|);
  }

  /** "AXM2" with its letters from the highest byte down, the counts, the names, the columns. */
  lemma {:induction false} ColumnarLayout(names: seq<bytes>, nRows: nat, blocks: seq<Block>)
    ensures var e := Encode(names, nRows, blocks);
            && |e| >= 16
            && e[3] == 'A' as int && e[2] == 'X' as int && e[1] == 'M' as int && e[0] == '2' as int
            && LE(e, 4, 4) == |names| % 0x1_0000_0000 && LE(e, 8, 8) == nRows % 0x1_0000_0000_0000_0000
            && e[16..] == ConcatAll(Str4, names) + ConcatAll(BlockBytes, blocks)
  {
    hide Has, LE, U32, U64, Str4, BlockBytes, ConcatAll;
    var e := Encode(names, nRows, blocks);
    var rest := ConcatAll(Str4, names) + ConcatAll(BlockBytes, blocks);
    var cols, rows := |names| % 0x1_0000_0000, nRows % 0x1_0000_0000_0000_0000;
    HasAll(e, e);
    HasConcat(e, 0, Header(AXM2, |names|, nRows), rest);
    HasConcat(e, 0, U32(AXM2), U32(cols) + U64(rows));
    HasConcat(e, 4, U32(cols), U64(rows));
    U32At(e, 0, AXM2);
    MagicBytes(e, AXM2);
    U32At(e, 4, cols);
    U64At(e, 8, rows);
  }

  /** A kind that is none of I, F, T and B is read cell by cell. */
  lemma {:induction false} OtherKindIsMixed(buf: bytes, off: nat, n: nat)
    requires off < |buf| && buf[off] !in {'I' as int, 'F' as int, 'T' as int, 'B' as int}
    ensures PyColumnAt(buf, off, n) == Times(PyCell(buf), off + 1, n)
  {
  }
}
