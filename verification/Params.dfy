/** Statement parameters: the Python and Go encoders and the engine's decoder. The
    buffer is a count followed by cells in the row-major cell encoding. */
module Params {
  import opened Bytes
  import opened Repeat
  import opened Packed

  datatype PyParam = PyNone | PyBool(b: bool) | PyInt(n: int) | PyFloat(bits: u64) | PyStr(s: bytes) | PyBytes(s: bytes) | PyOther

  datatype GoParam = GoNil | GoBool(b: bool) | GoInt(n: i64) | GoFloat(bits: u64) | GoString(s: bytes) | GoSlice(s: bytes) | GoOther

  datatype EncodeError = Unsupported | OutOfRange

  /** `struct.pack` refuses integers and lengths that do not fit. */
  function PyCellOf(p: PyParam): (r: Result<Cell, EncodeError>)
    ensures r.Ok? && (p.PyStr? ==> ValidUtf8(p.s)) ==> CellFits(r.value)
  {
    match p
    case PyNone => Ok(Null)
    case PyBool(b) => Ok(Integer(if b then 1 else 0))
    case PyInt(n) =>
      if -0x8000_0000_0000_0000 <= n < 0x8000_0000_0000_0000 then Ok(Integer(n)) else Err(OutOfRange)
    case PyFloat(bits) => Ok(Real(bits))
    case PyStr(s) => if |s| < 0x1_0000_0000 then Ok(Text(s)) else Err(OutOfRange)
    case PyBytes(s) => if |s| < 0x1_0000_0000 then Ok(Blob(s)) else Err(OutOfRange)
    case PyOther => Err(Unsupported)
  }

  /** All parameters as cells, or the first error. */
  function Cells<P>(f: P -> Result<Cell, EncodeError>, ps: seq<P>): (r: Result<seq<Cell>, EncodeError>)
    ensures r.Ok? ==> |r.value| == |ps| && forall i :: 0 <= i < |ps| ==> f(ps[i]) == Ok(r.value[i])
  {
    if ps == [] then Ok([])
    else
      var r := Cells(f, ps[..|ps| - 1]);
      if r.Err? then r
      else
        var c := f(ps[|ps| - 1]);
        if c.Err? then Err(c.error) else Ok(r.value + [c.value])
  }

  /** The error is that of the first parameter that is refused. */
  lemma {:induction false} FirstRefused<P>(f: P -> Result<Cell, EncodeError>, ps: seq<P>)
    requires Cells(f, ps).Err?
    ensures exists i :: 0 <= i < |ps| && f(ps[i]) == Err(Cells(f, ps).error) && forall j :: 0 <= j < i ==> f(ps[j]).Ok?
  {
    var n := |ps| - 1;
    if Cells(f, ps[..n]).Err? {
      FirstRefused(f, ps[..n]);
      var i :| 0 <= i < n && f(ps[..n][i]) == Err(Cells(f, ps).error) && forall j :: 0 <= j < i ==> f(ps[..n][j]).Ok?;
      assert forall j :: 0 <= j < n ==> ps[..n][j] == ps[j];
      assert f(ps[i]) == Err(Cells(f, ps).error);
    } else {
      forall j | 0 <= j < n ensures f(ps[j]).Ok? {
        assert ps[..n][j] == ps[j];
      }
      assert f(ps[n]) == Err(Cells(f, ps).error);
    }
  }

  function Buffer(cells: seq<Cell>): bytes {
    U32(|cells| % 0x1_0000_0000) + ConcatAll(CellBytes, cells)
  }

  function PyBuffer(ps: seq<PyParam>): (r: Result<bytes, EncodeError>) {
    if |ps| >= 0x1_0000_0000 then Err(OutOfRange)
    else
      var cells := Cells(PyCellOf, ps);
      if cells.Err? then Err(cells.error) else Ok(Buffer(cells.value))
  }

  method EncodeParams(ps: seq<PyParam>) returns (r: Result<bytes, EncodeError>)
    ensures r == PyBuffer(ps)
  {
    hide U32, ConcatAll;
    if |ps| >= 0x1_0000_0000 {
      return Err(OutOfRange);
    }
    r := AppendCells(U32(|ps|), PyCellOf, ps);
  }

  /** The loop over the parameters that both encoders run. */
  method AppendCells<P>(head: bytes, f: P -> Result<Cell, EncodeError>, ps: seq<P>)
    returns (r: Result<bytes, EncodeError>)
    ensures match Cells(f, ps)
            case Err(e) => r == Err(e)
            case Ok(cells) => r == Ok(head + ConcatAll(CellBytes, cells))
  {
    hide CellBytes;
    var out := head;
    ghost var cells := [];
    for i := 0 to |ps|
      invariant Cells(f, ps[..i]) == Ok(cells) && out == head + ConcatAll(CellBytes, cells)
    {
      assert ps[..i + 1][..i] == ps[..i];
      var c := f(ps[i]);
      if c.Err? {
        CellErrorsStay(f, ps, i + 1);
        return Err(c.error);
      }
      out := out + CellBytes(c.value);
      assert (cells + [c.value])[..i] == cells;
      cells := cells + [c.value];
    }
    assert ps[..|ps|] == ps;
    return Ok(out);
  }

  lemma {:induction false} CellErrorsStay<P>(f: P -> Result<Cell, EncodeError>, ps: seq<P>, m: nat)
    requires m <= |ps| && Cells(f, ps[..m]).Err?
    ensures Cells(f, ps) == Cells(f, ps[..m])
    decreases |ps|
  {
    if m == |ps| {
      assert ps[..m] == ps;
    } else {
      assert ps[..|ps| - 1][..m] == ps[..m];
      CellErrorsStay(f, ps[..|ps| - 1], m);
    }
  }

  // ---------------------------------------------------------------------------
  // Go encoder: integers of every width are widened, lengths are cut to 32 bits

  function GoCellOf(g: GoParam): (r: Result<Cell, EncodeError>) {
    match g
    case GoNil => Ok(Null)
    case GoBool(b) => Ok(Integer(if b then 1 else 0))
    case GoInt(n) => Ok(Integer(n))
    case GoFloat(bits) => Ok(Real(bits))
    case GoString(s) => Ok(Text(s))
    case GoSlice(s) => Ok(Blob(s))
    case GoOther => Err(Unsupported)
  }

  function GoBuffer(gs: seq<GoParam>): (r: Result<bytes, EncodeError>) {
    var cells := Cells(GoCellOf, gs);
    if cells.Err? then Err(cells.error) else Ok(Buffer(cells.value))
  }

  method GoEncodeParams(gs: seq<GoParam>) returns (r: Result<bytes, EncodeError>)
    ensures r == GoBuffer(gs)
  {
    hide U32, ConcatAll;
    r := AppendCells(U32(|gs| % 0x1_0000_0000), GoCellOf, gs);
  }

  predicate Same(p: PyParam, g: GoParam) {
    match p
    case PyNone => g == GoNil
    case PyBool(b) => g == GoBool(b)
    case PyInt(n) => g.GoInt? && g.n == n
    case PyFloat(bits) => g == GoFloat(bits)
    case PyStr(s) => g == GoString(s)
    case PyBytes(s) => g == GoSlice(s)
    case PyOther => g == GoOther
  }

  lemma {:induction false} SameCells(ps: seq<PyParam>, gs: seq<GoParam>)
    requires |ps| == |gs| && forall i :: 0 <= i < |ps| ==> Same(ps[i], gs[i])
    ensures Cells(PyCellOf, ps).Ok? ==> Cells(GoCellOf, gs) == Cells(PyCellOf, ps)
  {
    if ps != [] {
      hide Same, PyCellOf, GoCellOf;
      var n := |ps| - 1;
      SameCells(ps[..n], gs[..n]);
      SameCell(ps[n], gs[n]);
    }
  }

  lemma {:induction false} SameCell(p: PyParam, g: GoParam)
    requires Same(p, g)
    ensures PyCellOf(p).Ok? ==> GoCellOf(g) == PyCellOf(p)
  {
  }

  /** The Go encoder fails exactly on a parameter of an unsupported type. */
  lemma {:induction false} GoFailsIff(gs: seq<GoParam>)
    ensures Cells(GoCellOf, gs).Err? <==> GoOther in gs
  {
    if gs != [] {
      var n := |gs| - 1;
      GoFailsIff(gs[..n]);
      assert gs == gs[..n] + [gs[n]];
    }
  }

  /** For corresponding parameters the two encoders produce identical bytes
      whenever the Python one produces any. */
  lemma {:induction false} EncodersAgree(ps: seq<PyParam>, gs: seq<GoParam>)
    requires |ps| == |gs| && forall i :: 0 <= i < |ps| ==> Same(ps[i], gs[i])
    ensures PyBuffer(ps).Ok? ==> GoBuffer(gs) == PyBuffer(ps)
  {
    SameCells(ps, gs);
  }

  // ---------------------------------------------------------------------------
  // The engine's decoder

  /** Reads up to `n` cells, stopping quietly at the end of the buffer. A cell cut
      off in the middle panics; text that is not UTF-8 goes through `lossy`. */
  function EngineCells(buf: bytes, off: nat, n: nat, lossy: bytes -> bytes): (r: Result<Step<seq<Cell>>, ReadError>)
    ensures r.Ok? ==> |r.value.value| <= n
  {
    if n == 0 then Ok(Step([], off))
    else
      var r := EngineCells(buf, off, n - 1, lossy);
      if r.Err? || |buf| <= r.value.off then r
      else
        var c := CheckedCellAt(buf, r.value.off);
        if c.Err? then Err(c.error) else Ok(Step(r.value.value + [Lossy(c.value.value, lossy)], c.value.off))
  }

  function Lossy(c: Cell, lossy: bytes -> bytes): Cell {
    if c.Text? && !ValidUtf8(c.s) then Text(lossy(c.s)) else c
  }

  function Deserialized(buf: bytes, lossy: bytes -> bytes): (r: Result<seq<Cell>, ReadError>) {
    if |buf| < 4 then Ok([])
    else
      var r := EngineCells(buf, 4, ToU32(buf[0..4]), lossy);
      if r.Err? then Err(r.error) else Ok(r.value.value)
  }

  method DeserializeParams(buf: bytes, lossy: bytes -> bytes) returns (r: Result<seq<Cell>, ReadError>)
    ensures r == Deserialized(buf, lossy)
  {
    hide ToU32, CheckedCellAt, Lossy;
    if |buf| < 4 {
      return Ok([]);
    }
    var n := ToU32(buf[0..4]);
    var off: nat := 4;
    var params := [];
    for i := 0 to n
      invariant EngineCells(buf, 4, i, lossy) == Ok(Step(params, off))
    {
      if off >= |buf| {
        EngineStays(buf, 4, i, n, lossy);
        break;
      }
      var c := CheckedCellAt(buf, off);
      if c.Err? {
        EngineStays(buf, 4, i + 1, n, lossy);
        return Err(c.error);
      }
      params := params + [Lossy(c.value.value, lossy)];
      off := c.value.off;
    }
    return Ok(params);
  }

  lemma {:induction false} EngineStays(buf: bytes, off: nat, m: nat, n: nat, lossy: bytes -> bytes)
    requires m <= n
    requires EngineCells(buf, off, m, lossy).Err? || |buf| <= EngineCells(buf, off, m, lossy).value.off
    ensures EngineCells(buf, off, n, lossy) == EngineCells(buf, off, m, lossy)
  {
    hide CheckedCellAt, Lossy;
    if m < n {
      EngineStays(buf, off, m, n - 1, lossy);
    }
  }

  lemma {:induction false} CellsDecoded(buf: bytes, off: nat, cells: seq<Cell>, lossy: bytes -> bytes)
    requires RowFits(cells) && Has(buf, off, ConcatAll(CellBytes, cells))
    ensures EngineCells(buf, off, |cells|, lossy) == Ok(Step(cells, off + |ConcatAll(CellBytes, cells)|))
  {
    hide Has, CheckedCellAt, PyCellAt, ValidUtf8;
    if cells != [] {
      var init, c := cells[..|cells| - 1], cells[|cells| - 1];
      var mid := off + |ConcatAll(CellBytes, init)|;
      HasConcat(buf, off, ConcatAll(CellBytes, init), CellBytes(c));
      CellsDecoded(buf, off, init, lossy);
      HasBound(buf, mid, CellBytes(c));
      CellAt(buf, mid, c);
      assert cells == init + [c];
    }
  }

  lemma {:induction false} PyCellsFit(ps: seq<PyParam>)
    requires Cells(PyCellOf, ps).Ok?
    requires forall i :: 0 <= i < |ps| && ps[i].PyStr? ==> ValidUtf8(ps[i].s)
    ensures RowFits(Cells(PyCellOf, ps).value)
  {
    hide PyCellOf, CellFits, ValidUtf8;
    if ps != [] {
      PyCellsFit(ps[..|ps| - 1]);
    }
  }

  lemma {:induction false} FittingDecoded(cells: seq<Cell>, lossy: bytes -> bytes)
    requires RowFits(cells) && |cells| < 0x1_0000_0000
    ensures Deserialized(Buffer(cells), lossy) == Ok(cells)
  {
    hide Has, CellBytes, EngineCells, ConcatAll, U32, ToU32, RowFits;
    BufferHas(cells);
    CellsDecoded(Buffer(cells), 4, cells, lossy);
  }

  lemma {:induction false} BufferHas(cells: seq<Cell>)
    ensures var buf := Buffer(cells);
            |buf| >= 4 && ToU32(buf[0..4]) == |cells| % 0x1_0000_0000 && Has(buf, 4, ConcatAll(CellBytes, cells))
  {
    hide Has, CellBytes, ConcatAll, U32, ToU32;
    var buf := Buffer(cells);
    HasAll(buf, buf);
    HasConcat(buf, 0, U32(|cells| % 0x1_0000_0000), ConcatAll(CellBytes, cells));
    ReadU32Has(buf, 0, |cells| % 0x1_0000_0000);
  }

  /** The engine decodes what Python encodes: every parameter, in order, booleans as
      0 and 1. */
  lemma {:induction false} ParamsRoundTrip(ps: seq<PyParam>, lossy: bytes -> bytes)
    requires forall i :: 0 <= i < |ps| && ps[i].PyStr? ==> ValidUtf8(ps[i].s)
    requires PyBuffer(ps).Ok?
    ensures Deserialized(PyBuffer(ps).value, lossy) == Ok(Cells(PyCellOf, ps).value)
  {
    hide Buffer, Deserialized, Cells;
    PyCellsFit(ps);
    FittingDecoded(Cells(PyCellOf, ps).value, lossy);
  }

  // ---------------------------------------------------------------------------
  // Exactly which buffers come back

  /** What is used of the replacement of invalid UTF-8: its result is valid, and a valid
      text with up to three stray bytes grows by at most one replacement character
      for each of them. */
  ghost predicate LossyUtf8(lossy: bytes -> bytes) {
    && (forall s :: ValidUtf8(lossy(s)))
    && (forall v: bytes, w: bytes :: ValidUtf8(v) && |w| <= 3 ==> |lossy(v + w)| <= |v| + 9)
  }

  /** A valid text cut anywhere is a valid text and at most three stray bytes. */
  lemma {:induction false} CutUtf8(s: bytes, k: nat) returns (j: nat)
    requires ValidUtf8(s) && k <= |s|
    ensures j <= k <= j + 3 && ValidUtf8(s[..j])
    decreases |s|
  {
    var n := CodePointLength(s);
    if k < n || s == [] {
      j := 0;
    } else {
      var rest := CutUtf8(s[n..], k - n);
      j := n + rest;
      assert s[..j][..n] == s[..n] && s[..j][n..] == s[n..][..rest];
      assert CodePointLength(s[..j]) == n;
    }
  }

  /** A length that does not fit is cut, and the cell is read that much shorter. */
  lemma {:induction false} CutCellAt(buf: bytes, off: nat, c: Cell)
    requires Has(buf, off, CellBytes(c))
    ensures c.Text? ==> CheckedCellAt(buf, off).Ok? && CheckedCellAt(buf, off).value.value == Text(c.s[..|c.s| % 0x1_0000_0000])
    ensures c.Blob? ==> CheckedCellAt(buf, off).Ok? && CheckedCellAt(buf, off).value.value == Blob(c.b[..|c.b| % 0x1_0000_0000])
  {
    hide Has, ToU32, U32;
    if c.Text? {
      HasConcat(buf, off, [3], Str4(c.s));
      ReadU8Has(buf, off, 3);
      CutStr4(buf, off + 1, c.s);
    } else if c.Blob? {
      HasConcat(buf, off, [4], Str4(c.b));
      ReadU8Has(buf, off, 4);
      CutStr4(buf, off + 1, c.b);
    }
  }

  lemma {:induction false} CutStr4(buf: bytes, off: nat, s: bytes)
    requires Has(buf, off, Str4(s))
    ensures var m := |s| % 0x1_0000_0000;
            CheckedBytesAt(buf, off) == Ok(Step(s[..m], off + 4 + m))
  {
    hide ToU32, U32;
    var m := |s| % 0x1_0000_0000;
    HasConcat(buf, off, U32(m), s);
    ReadU32Has(buf, off, m);
    assert buf[off + 4..off + 4 + m] == buf[off + 4..off + 4 + |s|][..m];
  }

  /** A cell comes back exactly when it fits the format. */
  lemma {:induction false} CellBackIff(buf: bytes, off: nat, c: Cell, lossy: bytes -> bytes)
    requires LossyUtf8(lossy) && Has(buf, off, CellBytes(c))
    ensures CheckedCellAt(buf, off).Ok?
    ensures Lossy(CheckedCellAt(buf, off).value.value, lossy) == c <==> CellFits(c)
  {
    hide Has, CheckedCellAt, CellBytes, ValidUtf8;
    CutCellAt(buf, off, c);
    if CellFits(c) {
      CellAt(buf, off, c);
    }
    if c.Text? {
      var t := c.s[..|c.s| % 0x1_0000_0000];
      if lossy(t) == c.s {
        LossyCut(c.s, lossy);
      }
    }
  }

  /** No replacement makes up for the bytes that a cut length loses. */
  lemma {:induction false} LossyCut(s: bytes, lossy: bytes -> bytes)
    requires LossyUtf8(lossy) && lossy(s[..|s| % 0x1_0000_0000]) == s
    ensures TextFits(s)
  {
    hide ValidUtf8;
    var m := |s| % 0x1_0000_0000;
    var j := CutUtf8(s, m);
    assert s[..m] == s[..j] + s[j..m];
    assert |lossy(s[..j] + s[j..m])| <= j + 9;
  }

  /** If the engine kept going for `n` cells, its earlier results are the beginnings. */
  lemma {:induction false} EnginePrefix(buf: bytes, off: nat, m: nat, n: nat, lossy: bytes -> bytes)
    requires m <= n && EngineCells(buf, off, n, lossy).Ok? && |EngineCells(buf, off, n, lossy).value.value| == n
    ensures EngineCells(buf, off, m, lossy).Ok?
    ensures EngineCells(buf, off, m, lossy).value.value == EngineCells(buf, off, n, lossy).value.value[..m]
  {
    hide CheckedCellAt, Lossy;
    if m < n {
      EnginePrefix(buf, off, m, n - 1, lossy);
    }
  }

  lemma {:induction false} EngineNext(buf: bytes, off: nat, m: nat, lossy: bytes -> bytes)
    requires m > 0 && EngineCells(buf, off, m, lossy).Ok? && |EngineCells(buf, off, m, lossy).value.value| == m
    ensures var before := EngineCells(buf, off, m - 1, lossy);
            && before.Ok?
            && var c := CheckedCellAt(buf, before.value.off);
               && c.Ok?
               && EngineCells(buf, off, m, lossy) == Ok(Step(before.value.value + [Lossy(c.value.value, lossy)], c.value.off))
  {
    hide CheckedCellAt, Lossy;
  }

  lemma {:induction false} HasBeginning(buf: bytes, off: nat, cells: seq<Cell>, m: nat)
    requires m < |cells| && Has(buf, off, ConcatAll(CellBytes, cells))
    ensures Has(buf, off, ConcatAll(CellBytes, cells[..m]))
    ensures Has(buf, off + |ConcatAll(CellBytes, cells[..m])|, CellBytes(cells[m]))
    decreases |cells|
  {
    hide Has, CellBytes;
    var init, last := cells[..|cells| - 1], cells[|cells| - 1];
    HasConcat(buf, off, ConcatAll(CellBytes, init), CellBytes(last));
    if m < |init| {
      HasBeginning(buf, off, init, m);
      assert init[..m] == cells[..m];
    }
  }

  lemma {:induction false} FitsIfDecoded(buf: bytes, cells: seq<Cell>, m: nat, lossy: bytes -> bytes)
    requires LossyUtf8(lossy) && m <= |cells| && Has(buf, 4, ConcatAll(CellBytes, cells))
    requires EngineCells(buf, 4, |cells|, lossy).Ok? && EngineCells(buf, 4, |cells|, lossy).value.value == cells
    ensures RowFits(cells[..m])
    decreases m
  {
    hide Has, CellBytes, CheckedCellAt, CellFits, Lossy, LossyUtf8, ConcatAll, EngineCells;
    if m > 0 {
      var init, c := cells[..m - 1], cells[m - 1];
      FitsIfDecoded(buf, cells, m - 1, lossy);
      HasBeginning(buf, 4, cells, m - 1);
      CellsDecoded(buf, 4, init, lossy);
      EnginePrefix(buf, 4, m, |cells|, lossy);
      EngineNext(buf, 4, m, lossy);
      assert cells[..m] == init + [c];
      CellBackIff(buf, 4 + |ConcatAll(CellBytes, init)|, c, lossy);
    }
  }

  /** Encoded cells come back exactly when their number, and the length of each, fits 32
      bits and every text is valid UTF-8. */
  lemma {:induction false} BufferRoundTrip(cells: seq<Cell>, lossy: bytes -> bytes)
    requires LossyUtf8(lossy)
    ensures Deserialized(Buffer(cells), lossy) == Ok(cells) <==> |cells| < 0x1_0000_0000 && RowFits(cells)
  {
    hide Has, CellBytes, EngineCells, ConcatAll, U32, ToU32, RowFits, LossyUtf8, Buffer;
    if |cells| < 0x1_0000_0000 && RowFits(cells) {
      FittingDecoded(cells, lossy);
    }
    BufferHas(cells);
    if |cells| < 0x1_0000_0000 && Deserialized(Buffer(cells), lossy) == Ok(cells) {
      FitsIfDecoded(Buffer(cells), cells, |cells|, lossy);
      assert cells[..|cells|] == cells;
    }
  }

  predicate GoFits(g: GoParam) {
    match g
    case GoString(s) => TextFits(s)
    case GoSlice(s) => |s| < 0x1_0000_0000
    case _ => true
  }

  /** The engine decodes what Go encodes exactly when every string is valid UTF-8 and
      neither a length nor the number of parameters was cut to 32 bits. */
  lemma {:induction false} GoParamsRoundTrip(gs: seq<GoParam>, lossy: bytes -> bytes)
    requires LossyUtf8(lossy) && GoBuffer(gs).Ok?
    ensures Deserialized(GoBuffer(gs).value, lossy) == Ok(Cells(GoCellOf, gs).value)
       <==> |gs| < 0x1_0000_0000 && forall i :: 0 <= i < |gs| ==> GoFits(gs[i])
  {
    hide Buffer, Deserialized, LossyUtf8, TextFits;
    var cells := Cells(GoCellOf, gs).value;
    BufferRoundTrip(cells, lossy);
    forall i | 0 <= i < |gs| ensures GoFits(gs[i]) == CellFits(cells[i]) {
      assert GoCellOf(gs[i]) == Ok(cells[i]);
    }
  }

  /** A Go string of one byte that is not UTF-8 does not come back. */
  lemma {:induction false} InvalidTextIsLost(lossy: bytes -> bytes)
    requires LossyUtf8(lossy)
    ensures var gs := [GoString([0xFF])];
            GoBuffer(gs).Ok? && Deserialized(GoBuffer(gs).value, lossy) != Ok(Cells(GoCellOf, gs).value)
  {
    hide Buffer, Deserialized, LossyUtf8;
    var gs := [GoString([0xFF])];
    assert gs[..0] == [] && Cells(GoCellOf, gs[..0]) == Ok([]);
    assert !GoFits(gs[0]);
    GoParamsRoundTrip(gs, lossy);
  }

  // ---------------------------------------------------------------------------
  // What arrives of each parameter

  predicate PyArrives(p: PyParam, c: Cell) {
    match p
    case PyNone => c == Null
    case PyBool(b) => c == Integer(if b then 1 else 0)
    case PyInt(n) => c.Integer? && c.n == n
    case PyFloat(bits) => c == Real(bits)
    case PyStr(s) => c == Text(s)
    case PyBytes(s) => c == Blob(s)
    case PyOther => false
  }

  predicate GoArrives(g: GoParam, c: Cell) {
    match g
    case GoNil => c == Null
    case GoBool(b) => c == Integer(if b then 1 else 0)
    case GoInt(n) => c == Integer(n)
    case GoFloat(bits) => c == Real(bits)
    case GoString(s) => c == Text(s)
    case GoSlice(s) => c == Blob(s)
    case GoOther => false
  }

  /** Python encodes a parameter list exactly when it is not too long, every integer fits 64
      bits, every string 32 bits of length, and no type is unsupported. */
  predicate PyEncodable(p: PyParam) {
    match p
    case PyInt(n) => -0x8000_0000_0000_0000 <= n < 0x8000_0000_0000_0000
    case PyStr(s) => |s| < 0x1_0000_0000
    case PyBytes(s) => |s| < 0x1_0000_0000
    case PyOther => false
    case _ => true
  }

  lemma {:induction false} PyEncodesIff(ps: seq<PyParam>)
    ensures PyBuffer(ps).Ok? <==> |ps| < 0x1_0000_0000 && forall i :: 0 <= i < |ps| ==> PyEncodable(ps[i])
  {
    hide Buffer, Cells;
    if Cells(PyCellOf, ps).Err? {
      FirstRefused(PyCellOf, ps);
    } else {
      forall i | 0 <= i < |ps| ensures PyEncodable(ps[i]) {
        assert PyCellOf(ps[i]) == Ok(Cells(PyCellOf, ps).value[i]);
      }
    }
  }

  /** What the engine decodes of a Python list is, place by place, what was passed. */
  lemma {:induction false} PyParamsArrive(ps: seq<PyParam>, lossy: bytes -> bytes)
    requires forall i :: 0 <= i < |ps| && ps[i].PyStr? ==> ValidUtf8(ps[i].s)
    requires PyBuffer(ps).Ok?
    ensures var r := Deserialized(PyBuffer(ps).value, lossy);
            r.Ok? && |r.value| == |ps| && forall i :: 0 <= i < |ps| ==> PyArrives(ps[i], r.value[i])
  {
    hide Deserialized, Buffer, Cells, ValidUtf8;
    ParamsRoundTrip(ps, lossy);
    forall i | 0 <= i < |ps| ensures PyArrives(ps[i], Cells(PyCellOf, ps).value[i]) {
      assert PyCellOf(ps[i]) == Ok(Cells(PyCellOf, ps).value[i]);
    }
  }

  /** And so of a Go list, exactly when all of it fits. */
  lemma {:induction false} GoParamsArrive(gs: seq<GoParam>, lossy: bytes -> bytes)
    requires LossyUtf8(lossy) && GoBuffer(gs).Ok?
    ensures var r := Deserialized(GoBuffer(gs).value, lossy);
            (r.Ok? && |r.value| == |gs| && forall i :: 0 <= i < |gs| ==> GoArrives(gs[i], r.value[i]))
            <==> |gs| < 0x1_0000_0000 && forall i :: 0 <= i < |gs| ==> GoFits(gs[i])
  {
    hide Deserialized, Buffer, LossyUtf8, TextFits, Cells;
    var cells, r := Cells(GoCellOf, gs).value, Deserialized(GoBuffer(gs).value, lossy);
    GoParamsRoundTrip(gs, lossy);
    forall i | 0 <= i < |gs| ensures forall c :: GoArrives(gs[i], c) <==> c == cells[i] {
      assert GoCellOf(gs[i]) == Ok(cells[i]);
    }
    if r.Ok? && |r.value| == |gs| && forall i :: 0 <= i < |gs| ==> GoArrives(gs[i], r.value[i]) {
      assert r.value == cells;
    }
  }

  /** A buffer that announces more parameters than it holds gives those it holds, and one
      shorter than a count gives none. */
  lemma {:induction false} QuietStop(cells: seq<Cell>, n: u32, lossy: bytes -> bytes)
    requires RowFits(cells) && |cells| <= n
    ensures Deserialized(U32(n) + ConcatAll(CellBytes, cells), lossy) == Ok(cells)
    ensures forall buf: bytes :: |buf| < 4 ==> Deserialized(buf, lossy) == Ok([])
  {
    hide Has, CellBytes, EngineCells, ConcatAll, U32, ToU32, RowFits;
    var buf := U32(n) + ConcatAll(CellBytes, cells);
    HasAll(buf, buf);
    HasConcat(buf, 0, U32(n), ConcatAll(CellBytes, cells));
    ReadU32Has(buf, 0, n);
    CellsDecoded(buf, 4, cells, lossy);
    EngineStays(buf, 4, |cells|, n, lossy);
  }
}
