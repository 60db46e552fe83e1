/** Rows of `axiom_foreign_keys`: a fixed 26-byte header, a length-prefixed name
    and a list of self-describing trailers that may come in any order and repeat.

    The wire format is given as a grammar (`Row`, `Print`), the decoder of the
    source as a method over it, and the file's main results relate the two. */
module ForeignKeys {
  import opened Bytes

  datatype FkAction = NoAction | Restrict | Cascade | SetNull | SetDefault

  function ActionByte(a: FkAction): u8 {
    match a
    case NoAction => 0
    case Restrict => 1
    case Cascade => 2
    case SetNull => 3
    case SetDefault => 4
  }

  function ActionOf(b: u8): (r: Result<FkAction, ParseError>)
    ensures r.Ok? <==> b < 5
    ensures forall a :: r == Ok(a) <==> ActionByte(a) == b
  {
    match b
    case 0 => Ok(NoAction)
    case 1 => Ok(Restrict)
    case 2 => Ok(Cascade)
    case 3 => Ok(SetNull)
    case 4 => Ok(SetDefault)
    case _ => Err(UnknownTag(b))
  }

  /** What the header and the name hold. */
  datatype Base = Base(fkId: u32, childTable: u32, childCol: u16, parentTable: u32, parentCol: u16,
                       onDelete: FkAction, onUpdate: FkAction, indexId: u32, name: bytes)

  datatype FkDef = FkDef(base: Base, childCols: seq<u16>, parentCols: seq<u16>,
                         deferrable: bool, initiallyDeferred: bool)

  const FIXED := 26
  const COMPOSITE_MAGIC: u8 := 0xCF
  const DEFERRABLE_MAGIC: u8 := 0xDF

  /** The definitions the system promises to keep: one to 255 column pairs,
      parallel lists, the legacy columns mirroring the first pair. */
  predicate WellFormed(d: FkDef) {
    && WfBase(d.base)
    && 1 <= |d.childCols| == |d.parentCols| <= 255
    && d.childCols[0] == d.base.childCol
    && d.parentCols[0] == d.base.parentCol
  }

  predicate WfBase(b: Base) {
    ValidUtf8(b.name) && |b.name| < 0x1_0000_0000
  }

  // ---------------------------------------------------------------------------
  // Encoder

  /** Built from the back, as a loop that appends builds it. */
  function U16s(xs: seq<u16>): (b: bytes)
    ensures |b| == 2 * |xs|
  {
    if xs == [] then [] else U16s(xs[..|xs| - 1]) + U16(xs[|xs| - 1])
  }

  function Rest<T>(xs: seq<T>): (r: seq<T>) {
    if xs == [] then [] else xs[1..]
  }

  function PrintBase(b: Base): (r: bytes)
    ensures |r| == FIXED + |b.name|
  {
    U32(b.fkId) + (U32(b.childTable) + (U16(b.childCol) + (U32(b.parentTable) + (U16(b.parentCol)
    + ([ActionByte(b.onDelete)] + ([ActionByte(b.onUpdate)] + (U32(b.indexId)
    + (U32(|b.name| % 0x1_0000_0000) + b.name))))))))
  }

  function FlagByte(deferrable: bool, initiallyDeferred: bool): u8 {
    (if deferrable then 1 else 0) + (if initiallyDeferred then 2 else 0)
  }

  function Encode(d: FkDef): (r: bytes) {
    PrintBase(d.base)
    + (if |d.childCols| > 1
       then [COMPOSITE_MAGIC, |d.childCols| % 0x100] + U16s(Rest(d.childCols)) + U16s(Rest(d.parentCols))
       else [])
    + (if d.deferrable || d.initiallyDeferred
       then [DEFERRABLE_MAGIC, FlagByte(d.deferrable, d.initiallyDeferred)]
       else [])
  }

  method ToBytes(d: FkDef) returns (buf: bytes)
    ensures buf == Encode(d)
    ensures Layout(buf, d)
  {
    hide PrintBase, U16s, Layout;
    EncodeLayout(d);
    var numPairs := |d.childCols|;
    buf := BaseToBytes(d.base);
    if numPairs > 1 {
      buf := buf + [COMPOSITE_MAGIC];
      buf := buf + [numPairs % 0x100];
      buf := AppendU16s(buf, Rest(d.childCols));
      buf := AppendU16s(buf, Rest(d.parentCols));
    }
    if d.deferrable || d.initiallyDeferred {
      var flags := 0;
      if d.deferrable {
        flags := flags + 0x01;
      }
      if d.initiallyDeferred {
        flags := flags + 0x02;
      }
      buf := buf + [DEFERRABLE_MAGIC];
      buf := buf + [flags];
    }
  }

  method BaseToBytes(b: Base) returns (buf: bytes)
    ensures buf == PrintBase(b)
    ensures HeaderAt(buf, b)
  {
    hide U32, U16, HeaderAt;
    HasAll(PrintBase(b), PrintBase(b));
    HeaderLayout(PrintBase(b), b);
    buf := U32(b.fkId);
    buf := buf + U32(b.childTable);
    buf := buf + U16(b.childCol);
    buf := buf + U32(b.parentTable);
    buf := buf + U16(b.parentCol);
    buf := buf + [ActionByte(b.onDelete)];
    buf := buf + [ActionByte(b.onUpdate)];
    buf := buf + U32(b.indexId);
    buf := buf + U32(|b.name| % 0x1_0000_0000);
    buf := buf + b.name;
  }

  method AppendU16s(buf: bytes, xs: seq<u16>) returns (r: bytes)
    ensures r == buf + U16s(xs)
  {
    r := buf;
    for i := 0 to |xs|
      invariant r == buf + U16s(xs[..i])
    {
      r := r + U16(xs[i]);
      assert xs[..i + 1][..i] == xs[..i];
    }
    assert xs[..|xs|] == xs;
  }

  // ---------------------------------------------------------------------------
  // Grammar of accepted rows

  datatype Trailer =
    | Composite(children: seq<u16>, parents: seq<u16>)
    | Deferral(flags: u8)

  datatype Row = Row(base: Base, trailers: seq<Trailer>)

  predicate WfTrailer(t: Trailer) {
    t.Composite? ==> 1 <= |t.children| == |t.parents| <= 254
  }

  predicate AllWf(ts: seq<Trailer>) {
    forall i :: 0 <= i < |ts| ==> WfTrailer(ts[i])
  }

  predicate WfRow(row: Row) {
    WfBase(row.base) && AllWf(row.trailers)
  }

  function PrintTrailer(t: Trailer): (r: bytes)
    requires WfTrailer(t)
    ensures |r| >= 2
  {
    match t
    case Composite(cs, ps) => [COMPOSITE_MAGIC, |cs| + 1] + (U16s(cs) + U16s(ps))
    case Deferral(f) => [DEFERRABLE_MAGIC, f]
  }

  function PrintTrailers(ts: seq<Trailer>): (r: bytes)
    requires AllWf(ts)
  {
    if ts == [] then [] else PrintTrailer(ts[0]) + PrintTrailers(ts[1..])
  }

  function Print(row: Row): (r: bytes)
    requires WfRow(row)
  {
    PrintBase(row.base) + PrintTrailers(row.trailers)
  }

  /** The last composite trailer decides the columns beyond the first ... */
  function LastComposite(ts: seq<Trailer>): (r: Option<Trailer>)
    ensures r.Some? ==> r.value.Composite?
  {
    if ts == [] then None
    else if ts[|ts| - 1].Composite? then Some(ts[|ts| - 1])
    else LastComposite(ts[..|ts| - 1])
  }

  /** ... and the last deferral trailer decides the flags. */
  function LastFlags(ts: seq<Trailer>): u8 {
    if ts == [] then 0
    else if ts[|ts| - 1].Deferral? then ts[|ts| - 1].flags
    else LastFlags(ts[..|ts| - 1])
  }

  function Meaning(row: Row): FkDef {
    var c := LastComposite(row.trailers);
    var flags := LastFlags(row.trailers);
    FkDef(row.base,
          [row.base.childCol] + (if c.Some? then c.value.children else []),
          [row.base.parentCol] + (if c.Some? then c.value.parents else []),
          flags % 2 == 1,
          flags / 2 % 2 == 1)
  }

  // ---------------------------------------------------------------------------
  // Parser

  function ReadBase(data: bytes): (r: Result<Base, ParseError>)
    ensures r.Ok? ==> FIXED + |r.value.name| <= |data|
  {
    if |data| < FIXED then Err(Truncated)
    else
      var onDelete := ActionOf(data[16]);
      var onUpdate := ActionOf(data[17]);
      if onDelete.Err? then Err(onDelete.error)
      else if onUpdate.Err? then Err(onUpdate.error)
      else
        var nameLen := ToU32(data[22..26]);
        var name := ReadText(data, FIXED, nameLen);
        if name.Err? then Err(name.error)
        else Ok(Base(ToU32(data[0..4]), ToU32(data[4..8]), ToU16(data[8..10]), ToU32(data[10..14]),
                     ToU16(data[14..16]), onDelete.value, onUpdate.value, ToU32(data[18..22]), name.value))
  }

  function ReadU16s(data: bytes, pos: nat, n: nat): (r: seq<u16>)
    requires pos + 2 * n <= |data|
    ensures |r| == n
  {
    if n == 0 then [] else ReadU16s(data, pos, n - 1) + [ToU16(data[pos + 2 * n - 2..pos + 2 * n])]
  }

  function ReadTrailer(data: bytes, pos: nat): (r: Result<Trailer, ParseError>)
    requires pos < |data|
    ensures r.Ok? ==> WfTrailer(r.value) && pos + |PrintTrailer(r.value)| <= |data|
  {
    if data[pos] == COMPOSITE_MAGIC then
      if |data| < pos + 2 then Err(Truncated)
      else if data[pos + 1] < 2 then Err(Malformed)
      else
        var extra: nat := data[pos + 1] - 1;
        if |data| < pos + 2 + 4 * extra then Err(Truncated)
        else Ok(Composite(ReadU16s(data, pos + 2, extra), ReadU16s(data, pos + 2 + 2 * extra, extra)))
    else if data[pos] == DEFERRABLE_MAGIC then
      if |data| < pos + 2 then Err(Truncated) else Ok(Deferral(data[pos + 1]))
    else Err(UnknownTag(data[pos]))
  }

  function ParseTrailers(data: bytes, pos: nat): (r: Result<seq<Trailer>, ParseError>)
    requires pos <= |data|
    decreases |data| - pos
  {
    if pos == |data| then Ok([])
    else
      var t := ReadTrailer(data, pos);
      if t.Err? then Err(t.error)
      else
        var rest := ParseTrailers(data, pos + |PrintTrailer(t.value)|);
        if rest.Err? then rest else Ok([t.value] + rest.value)
  }

  function Parse(data: bytes): (r: Result<Row, ParseError>) {
    var base := ReadBase(data);
    if base.Err? then Err(base.error)
    else
      var ts := ParseTrailers(data, FIXED + |base.value.name|);
      if ts.Err? then Err(ts.error) else Ok(Row(base.value, ts.value))
  }

  function Decode(data: bytes): (r: Result<(FkDef, nat), ParseError>) {
    var row := Parse(data);
    if row.Err? then Err(row.error) else Ok((Meaning(row.value), |data|))
  }

  /** The decoder of the source. It accepts exactly the rows of the grammar. */
  method FromBytes(data: bytes) returns (r: Result<(FkDef, nat), ParseError>)
    ensures r == Decode(data)
    ensures r.Ok? ==> exists row :: WfRow(row) && data == Print(row) && r.value == (Meaning(row), |data|)
    ensures r.Err? ==> forall row :: WfRow(row) ==> data != Print(row)
    ensures r.Ok? ==> HeaderAt(data, r.value.0.base)
  {
    hide HeaderAt, Print, WfRow, Meaning, ParseTrailers, ReadBase;
    DecodeAcceptsGrammar(data);
    if Decode(data).Ok? {
      DecodeLayout(data);
    }
    var base := ParseBase(data);
    if base.Err? {
      return Err(base.error);
    }
    r := ReadTrailers(data, base.value, FIXED + |base.value.name|);
  }

  method ParseBase(data: bytes) returns (r: Result<Base, ParseError>)
    ensures r == ReadBase(data)
  {
    hide ValidUtf8, ToU32, ToU16;
    if |data| < FIXED {
      return Err(Truncated);
    }
    var fkId := ToU32(data[0..4]);
    var childTable := ToU32(data[4..8]);
    var childCol := ToU16(data[8..10]);
    var parentTable := ToU32(data[10..14]);
    var parentCol := ToU16(data[14..16]);
    var onDelete := ActionOf(data[16]);
    if onDelete.Err? {
      return Err(onDelete.error);
    }
    var onUpdate := ActionOf(data[17]);
    if onUpdate.Err? {
      return Err(onUpdate.error);
    }
    var indexId := ToU32(data[18..22]);
    var nameLen := ToU32(data[22..26]);
    var end := FIXED + nameLen;
    if |data| < end {
      return Err(Truncated);
    }
    var name := ReadText(data, FIXED, nameLen);
    if name.Err? {
      return Err(name.error);
    }
    return Ok(Base(fkId, childTable, childCol, parentTable, parentCol, onDelete.value, onUpdate.value, indexId, name.value));
  }

  /** The trailer loop: composite trailers replace the columns beyond the first,
      deferral trailers replace the flags. It ends because every trailer moves
      `consumed` forward. */
  method ReadTrailers(data: bytes, base: Base, end: nat) returns (r: Result<(FkDef, nat), ParseError>)
    requires end <= |data|
    ensures r == var ts := ParseTrailers(data, end);
                 if ts.Err? then Err(ts.error) else Ok((Meaning(Row(base, ts.value)), |data|))
  {
    hide ReadTrailer, ParseTrailers, PrintTrailer, Meaning, Prepend;
    PrependNothing(ParseTrailers(data, end));
    MeaningOfNothing(base);
    var childCols, parentCols := [base.childCol], [base.parentCol];
    var deferrable, initiallyDeferred := false, false;
    var consumed := end;
    ghost var ts: seq<Trailer> := [];
    while consumed < |data|
      invariant end <= consumed <= |data|
      invariant ParseTrailers(data, end) == Prepend(ts, ParseTrailers(data, consumed))
      invariant FkDef(base, childCols, parentCols, deferrable, initiallyDeferred) == Meaning(Row(base, ts))
      invariant [base.childCol] <= childCols && [base.parentCol] <= parentCols
      decreases |data| - consumed
    {
      ghost var t := ReadTrailer(data, consumed);
      ParseTrailersStep(data, consumed, ts);
      ReadTrailerKind(data, consumed);
      if data[consumed] == COMPOSITE_MAGIC {
        var c := ReadComposite(data, consumed, childCols, parentCols);
        if c.Err? {
          return Err(c.error);
        }
        childCols, parentCols, consumed := c.value.0, c.value.1, c.value.2;
      } else if data[consumed] == DEFERRABLE_MAGIC {
        if |data| < consumed + 2 {
          return Err(Truncated);
        }
        var flags := data[consumed + 1];
        deferrable := flags % 2 == 1;
        initiallyDeferred := flags / 2 % 2 == 1;
        consumed := consumed + 2;
      } else {
        return Err(UnknownTag(data[consumed]));
      }
      MeaningStep(base, ts, t.value);
      ts := ts + [t.value];
    }
    ParseTrailersEnd(data, ts);
    return Ok((FkDef(base, childCols, parentCols, deferrable, initiallyDeferred), consumed));
  }

  method ReadComposite(data: bytes, consumed: nat, childCols: seq<u16>, parentCols: seq<u16>)
    returns (r: Result<(seq<u16>, seq<u16>, nat), ParseError>)
    requires consumed < |data| && data[consumed] == COMPOSITE_MAGIC
    requires childCols != [] && parentCols != []
    ensures match ReadTrailer(data, consumed)
            case Err(e) => r == Err(e)
            case Ok(t) => r == Ok((childCols[..1] + t.children, parentCols[..1] + t.parents,
                                   consumed + |PrintTrailer(t)|))
  {
    hide PrintTrailer, ReadU16s;
    if |data| < consumed + 2 {
      return Err(Truncated);
    }
    var numPairs := data[consumed + 1];
    if numPairs < 2 {
      return Err(Malformed);
    }
    var extra: nat := numPairs - 1;
    var extDataEnd := consumed + 2 + 4 * extra;
    if |data| < extDataEnd {
      return Err(Truncated);
    }
    var cs, ps := childCols[..1], parentCols[..1];
    var off := consumed + 2;
    cs, off := PushU16s(data, off, extra, cs);
    ps, off := PushU16s(data, off, extra, ps);
    CompositeLength(ReadU16s(data, consumed + 2, extra), ReadU16s(data, consumed + 2 + 2 * extra, extra));
    return Ok((cs, ps, extDataEnd));
  }

  lemma {:induction false} CompositeLength(cs: seq<u16>, ps: seq<u16>)
    requires WfTrailer(Composite(cs, ps))
    ensures |PrintTrailer(Composite(cs, ps))| == 2 + 2 * |cs| + 2 * |ps|
  {
  }

  method PushU16s(data: bytes, pos: nat, n: nat, cols: seq<u16>) returns (r: seq<u16>, off: nat)
    requires pos + 2 * n <= |data|
    ensures r == cols + ReadU16s(data, pos, n) && off == pos + 2 * n
  {
    r, off := cols, pos;
    for i := 0 to n
      invariant off == pos + 2 * i && r == cols + ReadU16s(data, pos, i)
    {
      r := r + [ToU16(data[off..off + 2])];
      off := off + 2;
    }
  }

  function Prepend(ts: seq<Trailer>, r: Result<seq<Trailer>, ParseError>): Result<seq<Trailer>, ParseError> {
    if r.Err? then r else Ok(ts + r.value)
  }

  lemma {:induction false} PrependNothing(r: Result<seq<Trailer>, ParseError>)
    ensures Prepend([], r) == r
  {
    if r.Ok? {
      assert [] + r.value == r.value;
    }
  }

  lemma {:induction false} ParseTrailersStep(data: bytes, pos: nat, ts: seq<Trailer>)
    requires pos < |data|
    ensures Prepend(ts, ParseTrailers(data, pos))
            == match ReadTrailer(data, pos)
               case Err(e) => Err(e)
               case Ok(t) => Prepend(ts + [t], ParseTrailers(data, pos + |PrintTrailer(t)|))
  {
    hide ReadTrailer, PrintTrailer, WfTrailer;
    match ReadTrailer(data, pos)
    case Err(_) =>
    case Ok(t) => PrependStep(ts, t, ParseTrailers(data, pos + |PrintTrailer(t)|));
  }

  lemma {:induction false} ReadTrailerKind(data: bytes, pos: nat)
    requires pos < |data|
    ensures var t := ReadTrailer(data, pos);
            if data[pos] == COMPOSITE_MAGIC then
              t.Ok? ==> t.value.Composite?
            else if data[pos] == DEFERRABLE_MAGIC then
              t == (if |data| < pos + 2 then Err(Truncated) else Ok(Deferral(data[pos + 1])))
              && (t.Ok? ==> |PrintTrailer(t.value)| == 2)
            else
              t == Err(UnknownTag(data[pos]))
  {
  }

  lemma {:induction false} MeaningOfNothing(base: Base)
    ensures Meaning(Row(base, [])) == FkDef(base, [base.childCol], [base.parentCol], false, false)
  {
  }

  lemma {:induction false} MeaningStep(base: Base, ts: seq<Trailer>, t: Trailer)
    ensures Meaning(Row(base, ts + [t]))
            == match t
               case Composite(cs, ps) =>
                 Meaning(Row(base, ts)).(childCols := [base.childCol] + cs, parentCols := [base.parentCol] + ps)
               case Deferral(f) =>
                 Meaning(Row(base, ts)).(deferrable := f % 2 == 1, initiallyDeferred := f / 2 % 2 == 1)
  {
    assert (ts + [t])[..|ts|] == ts;
  }

  lemma {:induction false} ParseTrailersEnd(data: bytes, ts: seq<Trailer>)
    ensures Prepend(ts, ParseTrailers(data, |data|)) == Ok(ts)
  {
    assert ts + [] == ts;
  }

  lemma {:induction false} PrependStep(ts: seq<Trailer>, t: Trailer, r: Result<seq<Trailer>, ParseError>)
    ensures Prepend(ts, Prepend([t], r)) == Prepend(ts + [t], r)
  {
    if r.Ok? {
      assert ts + ([t] + r.value) == ts + [t] + r.value;
    }
  }

  // ---------------------------------------------------------------------------
  // The parser reads exactly what the grammar prints

  lemma {:induction false} U16sHas(data: bytes, pos: nat, xs: seq<u16>)
    ensures Has(data, pos, U16s(xs)) <==> pos + 2 * |xs| <= |data| && ReadU16s(data, pos, |xs|) == xs
  {
    if xs != [] {
      var n := |xs| - 1;
      U16sHas(data, pos, xs[..n]);
      HasConcat(data, pos, U16s(xs[..n]), U16(xs[n]));
      ReadU16Has(data, pos + 2 * n, xs[n]);
      if pos + 2 * |xs| <= |data| && ReadU16s(data, pos, |xs|) == xs {
        assert xs[..n] == ReadU16s(data, pos, n);
        assert xs[n] == ReadU16s(data, pos, |xs|)[n];
      }
    }
  }

  lemma {:induction false} ReadBaseHas(data: bytes, b: Base)
    ensures ReadBase(data) == Ok(b) <==> WfBase(b) && Has(data, 0, PrintBase(b))
  {
    hide Has, U32, U16, ToU32, ToU16, ValidUtf8;
    var r8 := U32(|b.name| % 0x1_0000_0000) + b.name;
    var r7 := U32(b.indexId) + r8;
    var r6 := [ActionByte(b.onUpdate)] + r7;
    var r5 := [ActionByte(b.onDelete)] + r6;
    var r4 := U16(b.parentCol) + r5;
    var r3 := U32(b.parentTable) + r4;
    var r2 := U16(b.childCol) + r3;
    var r1 := U32(b.childTable) + r2;
    HasConcat(data, 0, U32(b.fkId), r1);
    HasConcat(data, 4, U32(b.childTable), r2);
    HasConcat(data, 8, U16(b.childCol), r3);
    HasConcat(data, 10, U32(b.parentTable), r4);
    HasConcat(data, 14, U16(b.parentCol), r5);
    HasConcat(data, 16, [ActionByte(b.onDelete)], r6);
    HasConcat(data, 17, [ActionByte(b.onUpdate)], r7);
    HasConcat(data, 18, U32(b.indexId), r8);
    HasConcat(data, 22, U32(|b.name| % 0x1_0000_0000), b.name);
    ReadU32Has(data, 0, b.fkId);
    ReadU32Has(data, 4, b.childTable);
    ReadU16Has(data, 8, b.childCol);
    ReadU32Has(data, 10, b.parentTable);
    ReadU16Has(data, 14, b.parentCol);
    ReadU8Has(data, 16, ActionByte(b.onDelete));
    ReadU8Has(data, 17, ActionByte(b.onUpdate));
    ReadU32Has(data, 18, b.indexId);
    ReadU32Has(data, 22, |b.name| % 0x1_0000_0000);
    ReadTextHas(data, FIXED, b.name);
  }

  lemma {:induction false} ReadTrailerHas(data: bytes, pos: nat, t: Trailer)
    requires pos < |data|
    ensures ReadTrailer(data, pos) == Ok(t) <==> WfTrailer(t) && Has(data, pos, PrintTrailer(t))
  {
    hide Has, U16s, ReadU16s;
    match t
    case Composite(cs, ps) =>
      if WfTrailer(t) {
        HasConcat(data, pos, [COMPOSITE_MAGIC, |cs| + 1], U16s(cs) + U16s(ps));
        HasConcat(data, pos + 2, U16s(cs), U16s(ps));
        U16sHas(data, pos + 2, cs);
        U16sHas(data, pos + 2 + 2 * |cs|, ps);
        HasPair(data, pos, COMPOSITE_MAGIC, |cs| + 1);
      }
    case Deferral(f) =>
      HasPair(data, pos, DEFERRABLE_MAGIC, f);
  }

  lemma {:induction false} HasPair(data: bytes, pos: nat, a: u8, b: u8)
    ensures Has(data, pos, [a, b]) <==> pos + 2 <= |data| && data[pos] == a && data[pos + 1] == b
  {
    if pos + 2 <= |data| {
      assert data[pos..pos + 2] == [data[pos], data[pos + 1]];
    }
  }

  lemma {:induction false} ParseTrailersExact(data: bytes, pos: nat, ts: seq<Trailer>)
    requires pos <= |data|
    ensures ParseTrailers(data, pos) == Ok(ts)
       <==> AllWf(ts) && pos + |PrintTrailers(ts)| == |data| && Has(data, pos, PrintTrailers(ts))
    decreases |ts|
  {
    hide Has, PrintTrailer, ReadTrailer;
    if ts == [] {
      HasNothing(data, pos);
    } else if pos < |data| {
      var t, us := ts[0], ts[1..];
      ReadTrailerHas(data, pos, t);
      if WfTrailer(t) && pos + |PrintTrailer(t)| <= |data| {
        var mid := pos + |PrintTrailer(t)|;
        ParseTrailersExact(data, mid, us);
        if AllWf(us) {
          HasConcat(data, pos, PrintTrailer(t), PrintTrailers(us));
        }
        assert ts == [t] + us;
      }
    }
  }

  /** A byte string parses to `row` exactly when it is the print of `row`; so the
      grammar is unambiguous and the parser is complete for it. */
  lemma {:induction false} ParseExact(data: bytes, row: Row)
    ensures Parse(data) == Ok(row) <==> WfRow(row) && data == Print(row)
  {
    hide Has, PrintBase, ReadBase, ParseTrailers;
    var end := FIXED + |row.base.name|;
    ReadBaseHas(data, row.base);
    if end <= |data| {
      ParseTrailersExact(data, end, row.trailers);
    }
    if AllWf(row.trailers) {
      HasConcat(data, 0, PrintBase(row.base), PrintTrailers(row.trailers));
      HasAll(data, PrintBase(row.base) + PrintTrailers(row.trailers));
    }
  }

  lemma {:induction false} DecodeAcceptsGrammar(data: bytes)
    ensures Decode(data).Ok? ==>
              exists row :: WfRow(row) && data == Print(row) && Decode(data).value == (Meaning(row), |data|)
    ensures Decode(data).Err? ==> forall row :: WfRow(row) ==> data != Print(row)
  {
    if Decode(data).Ok? {
      ParseExact(data, Parse(data).value);
    } else {
      forall row | WfRow(row) ensures data != Print(row) {
        ParseExact(data, row);
      }
    }
  }

  // ---------------------------------------------------------------------------
  // Round trips and canonical form

  function CompositeTrailers(d: FkDef): (ts: seq<Trailer>)
    requires WellFormed(d)
    ensures AllWf(ts)
  {
    if |d.childCols| > 1 then [Composite(d.childCols[1..], d.parentCols[1..])] else []
  }

  function DeferralTrailers(d: FkDef): (ts: seq<Trailer>)
    ensures AllWf(ts)
  {
    if d.deferrable || d.initiallyDeferred then [Deferral(FlagByte(d.deferrable, d.initiallyDeferred))] else []
  }

  /** The one row the encoder chooses for `d`. */
  function RowOf(d: FkDef): (row: Row)
    requires WellFormed(d)
    ensures WfRow(row)
  {
    Row(d.base, CompositeTrailers(d) + DeferralTrailers(d))
  }

  lemma {:induction false} PrintOne(t: Trailer)
    requires WfTrailer(t)
    ensures PrintTrailers([t]) == PrintTrailer(t)
  {
    assert [t][1..] == [];
  }

  lemma {:induction false} PrintConcat(ts: seq<Trailer>, us: seq<Trailer>)
    requires AllWf(ts) && AllWf(us)
    ensures AllWf(ts + us) && PrintTrailers(ts + us) == PrintTrailers(ts) + PrintTrailers(us)
  {
    if ts == [] {
      assert ts + us == us;
    } else {
      assert (ts + us)[1..] == ts[1..] + us;
      PrintConcat(ts[1..], us);
      assert PrintTrailer(ts[0]) + (PrintTrailers(ts[1..]) + PrintTrailers(us))
          == PrintTrailer(ts[0]) + PrintTrailers(ts[1..]) + PrintTrailers(us);
    }
  }

  lemma {:induction false} EncodePrints(d: FkDef)
    requires WellFormed(d)
    ensures Encode(d) == Print(RowOf(d)) && Meaning(RowOf(d)) == d
  {
    hide PrintBase, Meaning, WfBase, CompositePart, DeferralPart, Encode, PrintTrailers;
    var cs, ds := CompositeTrailers(d), DeferralTrailers(d);
    PrintConcat(cs, ds);
    PartsPrint(d);
    EncodeParts(d);
    RowOfMeaning(d);
  }

  lemma {:induction false} PartsPrint(d: FkDef)
    requires WellFormed(d)
    ensures PrintTrailers(CompositeTrailers(d)) == CompositePart(d) && PrintTrailers(DeferralTrailers(d)) == DeferralPart(d)
  {
    hide U16s, WfBase;
    var cs, ds := CompositeTrailers(d), DeferralTrailers(d);
    if cs != [] {
      PrintOne(cs[0]);
      var head: bytes, a, b := [COMPOSITE_MAGIC, |d.childCols|], U16s(d.childCols[1..]), U16s(d.parentCols[1..]);
      assert head + a + b == head + (a + b);
    }
    if ds != [] {
      PrintOne(ds[0]);
    }
  }

  lemma {:induction false} RowOfMeaning(d: FkDef)
    requires WellFormed(d)
    ensures Meaning(RowOf(d)) == d
  {
    hide Meaning, WfBase;
    var cs, ds := CompositeTrailers(d), DeferralTrailers(d);
    MeaningOfNothing(d.base);
    assert d.childCols == [d.base.childCol] + d.childCols[1..];
    assert d.parentCols == [d.base.parentCol] + d.parentCols[1..];
    if cs != [] {
      MeaningStep(d.base, [], cs[0]);
      assert [] + [cs[0]] == cs;
    }
    if ds != [] {
      MeaningStep(d.base, cs, ds[0]);
    } else {
      assert cs + ds == cs;
    }
  }

  lemma {:induction false} MeaningWellFormed(row: Row)
    requires WfRow(row)
    ensures WellFormed(Meaning(row))
  {
    LastCompositeIn(row.trailers);
  }

  lemma {:induction false} LastCompositeIn(ts: seq<Trailer>)
    requires AllWf(ts)
    ensures LastComposite(ts).Some? ==> WfTrailer(LastComposite(ts).value)
  {
    if ts != [] {
      LastCompositeIn(ts[..|ts| - 1]);
    }
  }

  /** Decoding an encoded definition gives it back, whole, exactly when it is
      well formed. */
  lemma {:induction false} RoundTrip(d: FkDef)
    ensures Decode(Encode(d)) == Ok((d, |Encode(d)|)) <==> WellFormed(d)
  {
    hide Encode, Print, Meaning, Parse, WellFormed, RowOf, WfRow;
    if WellFormed(d) {
      EncodePrints(d);
      ParseExact(Encode(d), RowOf(d));
    }
    if Decode(Encode(d)) == Ok((d, |Encode(d)|)) {
      var row := Parse(Encode(d)).value;
      ParseExact(Encode(d), row);
      MeaningWellFormed(row);
    }
  }

  /** A decoded row needs no more bytes than the row it came from. */
  lemma {:induction false} CanonicalIsShorter(ts: seq<Trailer>)
    requires AllWf(ts)
    ensures |PrintTrailers(ts)|
            >= (if LastComposite(ts).Some? then 2 + 4 * |LastComposite(ts).value.children| else 0)
               + (if LastFlags(ts) != 0 then 2 else 0)
  {
    if ts != [] {
      var n := |ts| - 1;
      CanonicalIsShorter(ts[..n]);
      PrintConcat(ts[..n], [ts[n]]);
      PrintOne(ts[n]);
      assert ts[..n] + [ts[n]] == ts;
    }
  }

  /** Every accepted row denotes a well-formed definition, is consumed whole, and
      re-encodes to a row no longer than itself that decodes to the same
      definition. */
  lemma {:induction false} CanonicalForm(data: bytes)
    requires Decode(data).Ok?
    ensures var (d, n) := Decode(data).value;
            && WellFormed(d)
            && n == |data|
            && |Encode(d)| <= |data|
            && Decode(Encode(d)) == Ok((d, |Encode(d)|))
  {
    var row := Parse(data).value;
    ParseExact(data, row);
    MeaningWellFormed(row);
    RoundTrip(Meaning(row));
    EncodedLength(row);
  }

  lemma {:induction false} EncodedLength(row: Row)
    requires WfRow(row)
    ensures |Encode(Meaning(row))| <= |Print(row)|
  {
    CanonicalIsShorter(row.trailers);
    MeaningWellFormed(row);
    var d := Meaning(row);
    hide PrintBase, U16s, PrintTrailers;
    var c := LastComposite(row.trailers);
    LastCompositeIn(row.trailers);
    assert c.None? ==> |d.childCols| == 1;
    assert c.Some? ==> Rest(d.childCols) == c.value.children && Rest(d.parentCols) == c.value.parents;
    assert d.deferrable || d.initiallyDeferred ==> LastFlags(row.trailers) != 0;
  }

  // ---------------------------------------------------------------------------
  // Trailer order and truncation

  function Composites(ts: seq<Trailer>): (r: seq<Trailer>) {
    if ts == [] then []
    else Composites(ts[..|ts| - 1]) + (if ts[|ts| - 1].Composite? then [ts[|ts| - 1]] else [])
  }

  function Deferrals(ts: seq<Trailer>): (r: seq<Trailer>) {
    if ts == [] then []
    else Deferrals(ts[..|ts| - 1]) + (if ts[|ts| - 1].Deferral? then [ts[|ts| - 1]] else [])
  }

  lemma {:induction false} LastOfEachKind(ts: seq<Trailer>)
    ensures var cs := Composites(ts);
            LastComposite(ts) == if cs == [] then None else Some(cs[|cs| - 1])
    ensures var ds := Deferrals(ts);
            |ds| > 0 ==> ds[|ds| - 1].Deferral?
    ensures var ds := Deferrals(ts);
            LastFlags(ts) == if ds == [] then 0 else ds[|ds| - 1].flags
  {
    if ts != [] {
      LastOfEachKind(ts[..|ts| - 1]);
    }
  }

  /** Two rows with the same header decode to the same definition exactly when their
      last composite trailers agree and their last deferral trailers agree in the two
      flag bits, in whatever order the trailers come and however often they repeat. */
  lemma {:induction false} TrailerOrderDoesNotMatter(base: Base, ts: seq<Trailer>, us: seq<Trailer>)
    requires WfRow(Row(base, ts)) && WfRow(Row(base, us))
    ensures var a, b := Decode(Print(Row(base, ts))), Decode(Print(Row(base, us)));
            && a.Ok? && b.Ok?
            && (a.value.0 == b.value.0 <==> LastComposite(ts) == LastComposite(us) && LastFlags(ts) % 4 == LastFlags(us) % 4)
  {
    hide Print, Parse, LastFlags;
    ParseExact(Print(Row(base, ts)), Row(base, ts));
    ParseExact(Print(Row(base, us)), Row(base, us));
    SameColumns(base, ts, us);
    SameFlags(LastFlags(ts), LastFlags(us));
  }

  lemma {:induction false} SameColumns(base: Base, ts: seq<Trailer>, us: seq<Trailer>)
    requires AllWf(ts) && AllWf(us)
    ensures var a, b := Meaning(Row(base, ts)), Meaning(Row(base, us));
            a.childCols == b.childCols && a.parentCols == b.parentCols <==> LastComposite(ts) == LastComposite(us)
  {
    hide LastFlags, LastComposite;
    LastCompositeIn(ts);
    LastCompositeIn(us);
    var a, b := Meaning(Row(base, ts)), Meaning(Row(base, us));
    if a.childCols == b.childCols && a.parentCols == b.parentCols {
      assert a.childCols[1..] == b.childCols[1..] && a.parentCols[1..] == b.parentCols[1..];
    }
  }

  lemma {:induction false} SameFlags(f: u8, g: u8)
    ensures f % 2 == g % 2 && f / 2 % 2 == g / 2 % 2 <==> f % 4 == g % 4
  {
    LowBits(f);
    LowBits(g);
  }

  lemma {:induction false} LowBits(f: u8)
    ensures f % 4 == 2 * (f / 2 % 2) + f % 2
  {
  }

  /** Where one list of trailers ends inside another's print, it is a prefix of it. */
  lemma {:induction false} ShorterIsPrefix(data: bytes, pos: nat, ts: seq<Trailer>, us: seq<Trailer>)
    requires AllWf(ts) && AllWf(us)
    requires Has(data, pos, PrintTrailers(ts)) && Has(data, pos, PrintTrailers(us))
    requires |PrintTrailers(us)| <= |PrintTrailers(ts)|
    ensures us <= ts
    decreases |us|
  {
    hide Has, PrintTrailer;
    if us != [] {
      assert ts != [];
      HasConcat(data, pos, PrintTrailer(ts[0]), PrintTrailers(ts[1..]));
      HasConcat(data, pos, PrintTrailer(us[0]), PrintTrailers(us[1..]));
      HasBound(data, pos, PrintTrailers(us));
      ReadTrailerHas(data, pos, ts[0]);
      ReadTrailerHas(data, pos, us[0]);
      ShorterIsPrefix(data, pos + |PrintTrailer(ts[0])|, ts[1..], us[1..]);
      assert us == [us[0]] + us[1..];
    }
  }

  /** The accepted truncations of a printed row are exactly its cuts between
      trailers, and a cut row means the row without the trailers cut off. */
  lemma {:induction false} TruncatedRow(row: Row, k: nat)
    requires WfRow(row) && k <= |Print(row)|
    ensures Parse(Print(row)[..k]).Ok?
       <==> exists j :: 0 <= j <= |row.trailers| && k == |Print(Row(row.base, row.trailers[..j]))|
    ensures forall j :: 0 <= j <= |row.trailers| && k == |Print(Row(row.base, row.trailers[..j]))|
              ==> Parse(Print(row)[..k]) == Ok(Row(row.base, row.trailers[..j]))
  {
    hide PrintBase, PrintTrailers, Parse, WfTrailer;
    var data, cut := Print(row), Print(row)[..k];
    if Parse(cut).Ok? {
      var row' := Parse(cut).value;
      ParseExact(cut, row');
      CutIsPrefix(data, cut, row, row');
      var j := |row'.trailers|;
      assert row'.trailers == row.trailers[..j];
      assert k == |Print(Row(row.base, row.trailers[..j]))|;
    }
    forall j | 0 <= j <= |row.trailers| && k == |Print(Row(row.base, row.trailers[..j]))|
      ensures Parse(cut) == Ok(Row(row.base, row.trailers[..j]))
    {
      var ts, us := row.trailers[..j], row.trailers[j..];
      assert ts + us == row.trailers;
      PrintConcat(ts, us);
      assert data == Print(Row(row.base, ts)) + PrintTrailers(us);
      ParseExact(cut, Row(row.base, ts));
    }
  }

  lemma {:induction false} CutIsPrefix(data: bytes, cut: bytes, row: Row, row': Row)
    requires WfRow(row) && WfRow(row')
    requires data == Print(row) && cut == Print(row') && cut <= data
    ensures row'.base == row.base && row'.trailers <= row.trailers
  {
    hide Has, PrintBase, PrintTrailers;
    HasPrefix(data, cut);
    HasAll(data, Print(row));
    HasConcat(data, 0, PrintBase(row.base), PrintTrailers(row.trailers));
    HasConcat(data, 0, PrintBase(row'.base), PrintTrailers(row'.trailers));
    ReadBaseHas(data, row.base);
    ReadBaseHas(data, row'.base);
    ShorterIsPrefix(data, |PrintBase(row.base)|, row.trailers, row'.trailers);
  }

  /** A strict prefix of an encoded definition is accepted only where it ends
      right after the name or right after the composite trailer; it then decodes
      to the definition with the missing trailers at their defaults. */
  lemma {:induction false} Truncation(d: FkDef, k: nat)
    requires WellFormed(d) && k < |Encode(d)|
    ensures var afterName := FIXED + |d.base.name|;
            var afterComposite := afterName + (if |d.childCols| > 1 then 2 + 4 * (|d.childCols| - 1) else 0);
            && (Decode(Encode(d)[..k]).Ok? <==> k == afterName || k == afterComposite)
            && (k == afterComposite ==>
                  Decode(Encode(d)[..k]) == Ok((d.(deferrable := false, initiallyDeferred := false), k)))
            && (k == afterName ==>
                  var first := FkDef(d.base, d.childCols[..1], d.parentCols[..1], false, false);
                  Decode(Encode(d)[..k]) == Ok((first, k)))
  {
    hide Encode, Print, PrintTrailers, Meaning, Parse, WfTrailer;
    EncodePrints(d);
    var row := RowOf(d);
    var ts := row.trailers;
    TruncatedRow(row, k);
    CutLengths(d);
    var afterName := FIXED + |d.base.name|;
    var c := |CompositeTrailers(d)|;
    if Parse(Encode(d)[..k]).Ok? {
      var j :| 0 <= j <= |ts| && k == |Print(Row(row.base, ts[..j]))|;
      assert ts[..|ts|] == ts;
      assert j == 0 || j == c;
    }
    assert k == afterName ==> k == |Print(Row(row.base, ts[..0]))|;
  }

  lemma {:induction false} CutLengths(d: FkDef)
    requires WellFormed(d)
    ensures var ts, c := RowOf(d).trailers, |CompositeTrailers(d)|;
            && |Print(Row(d.base, ts[..0]))| == FIXED + |d.base.name|
            && |Print(Row(d.base, ts[..c]))|
            == FIXED + |d.base.name| + (if |d.childCols| > 1 then 2 + 4 * (|d.childCols| - 1) else 0)
            && Meaning(Row(d.base, ts[..0])) == FkDef(d.base, d.childCols[..1], d.parentCols[..1], false, false)
            && Meaning(Row(d.base, ts[..c])) == d.(deferrable := false, initiallyDeferred := false)
  {
    hide PrintBase, U16s, Meaning, WfBase;
    var ts, cs := RowOf(d).trailers, CompositeTrailers(d);
    MeaningOfNothing(d.base);
    if cs != [] {
      MeaningStep(d.base, [], cs[0]);
      assert [] + [cs[0]] == cs;
    }
    assert ts[..|cs|] == cs;
    assert ts[..0] == [];
    if cs != [] {
      PrintOne(cs[0]);
    }
    assert d.childCols == [d.base.childCol] + d.childCols[1..];
    assert d.parentCols == [d.base.parentCol] + d.parentCols[1..];
  }

  // ---------------------------------------------------------------------------
  // The layout by position

  /** In the order of their numbers on disk. */
  const ACTIONS: seq<FkAction> := [NoAction, Restrict, Cascade, SetNull, SetDefault]

  ghost predicate ActionAt(data: bytes, pos: nat, a: FkAction) {
    pos < |data| && data[pos] < 5 && ACTIONS[data[pos]] == a
  }

  ghost predicate HeaderAt(data: bytes, b: Base) {
    && |data| >= 26
    && LE(data, 0, 4) == b.fkId
    && LE(data, 4, 4) == b.childTable
    && LE(data, 8, 2) == b.childCol
    && LE(data, 10, 4) == b.parentTable
    && LE(data, 14, 2) == b.parentCol
    && ActionAt(data, 16, b.onDelete)
    && ActionAt(data, 17, b.onUpdate)
    && LE(data, 18, 4) == b.indexId
    && Text4At(data, 22, b.name)
  }

  ghost predicate ColumnsAt(data: bytes, pos: nat, xs: seq<u16>) {
    pos + 2 * |xs| <= |data| && forall i :: 0 <= i < |xs| ==> ColumnAt(data, pos + 2 * i, xs[i])
  }

  ghost predicate ColumnAt(data: bytes, pos: nat, x: u16) {
    pos + 2 <= |data| && LE(data, pos, 2) == x
  }

  /** 0xCF, the number of pairs, and the columns after the first of each side; then 0xDF
      and the flags, deferrable in bit 0 and initially deferred in bit 1. */
  ghost predicate Layout(data: bytes, d: FkDef) {
    var p := 26 + |d.base.name|;
    var cs, ps := Rest(d.childCols), Rest(d.parentCols);
    var q := if |d.childCols| > 1 then p + 2 + 2 * |cs| + 2 * |ps| else p;
    && HeaderAt(data, d.base)
    && (|d.childCols| > 1 ==>
          && q <= |data| && data[p] == 0xCF && data[p + 1] == |d.childCols| % 0x100
          && ColumnsAt(data, p + 2, cs) && ColumnsAt(data, p + 2 + 2 * |cs|, ps))
    && (if d.deferrable || d.initiallyDeferred
        then |data| == q + 2 && data[q] == 0xDF && data[q + 1] == (if d.deferrable then 1 else 0) + (if d.initiallyDeferred then 2 else 0)
        else |data| == q)
  }

  lemma {:induction false} ActionAtByte(data: bytes, pos: nat, a: FkAction)
    requires Has(data, pos, [ActionByte(a)])
    ensures ActionAt(data, pos, a)
  {
    ReadU8Has(data, pos, ActionByte(a));
  }

  lemma {:induction false} HeaderLayout(data: bytes, b: Base)
    requires Has(data, 0, PrintBase(b))
    ensures HeaderAt(data, b)
  {
    hide Has, U32, U16, LE, ActionByte, ActionAt;
    var r9 := U32(|b.name| % 0x1_0000_0000) + b.name;
    var r8 := U32(b.indexId) + r9;
    var r7 := [ActionByte(b.onUpdate)] + r8;
    var r6 := [ActionByte(b.onDelete)] + r7;
    var r5 := U16(b.parentCol) + r6;
    var r4 := U32(b.parentTable) + r5;
    var r3 := U16(b.childCol) + r4;
    var r2 := U32(b.childTable) + r3;
    HasConcat(data, 0, U32(b.fkId), r2);
    HasConcat(data, 4, U32(b.childTable), r3);
    HasConcat(data, 8, U16(b.childCol), r4);
    HasConcat(data, 10, U32(b.parentTable), r5);
    HasConcat(data, 14, U16(b.parentCol), r6);
    HasConcat(data, 16, [ActionByte(b.onDelete)], r7);
    HasConcat(data, 17, [ActionByte(b.onUpdate)], r8);
    HasConcat(data, 18, U32(b.indexId), r9);
    U32At(data, 0, b.fkId);
    U32At(data, 4, b.childTable);
    U16At(data, 8, b.childCol);
    U32At(data, 10, b.parentTable);
    U16At(data, 14, b.parentCol);
    ActionAtByte(data, 16, b.onDelete);
    ActionAtByte(data, 17, b.onUpdate);
    U32At(data, 18, b.indexId);
    Len4At(data, 22, b.name);
  }

  lemma {:induction false} ColumnsLayout(data: bytes, pos: nat, xs: seq<u16>)
    requires Has(data, pos, U16s(xs))
    ensures ColumnsAt(data, pos, xs)
  {
    hide Has, U16, LE;
    HasBound(data, pos, U16s(xs));
    if xs != [] {
      var init, x := xs[..|xs| - 1], xs[|xs| - 1];
      HasConcat(data, pos, U16s(init), U16(x));
      ColumnsLayout(data, pos, init);
      U16At(data, pos + 2 * |init|, x);
      forall i | 0 <= i < |xs| ensures ColumnAt(data, pos + 2 * i, xs[i]) {
        assert i < |init| ==> xs[i] == init[i];
      }
    }
  }

  lemma {:induction false} CompositeLayout(data: bytes, pos: nat, n: u8, cs: seq<u16>, ps: seq<u16>)
    requires Has(data, pos, [0xCF, n] + (U16s(cs) + U16s(ps)))
    ensures pos + 2 + 2 * |cs| + 2 * |ps| <= |data| && data[pos] == 0xCF && data[pos + 1] == n
    ensures ColumnsAt(data, pos + 2, cs) && ColumnsAt(data, pos + 2 + 2 * |cs|, ps)
  {
    hide U16s, Has, ColumnAt;
    PairThen(data, pos, 0xCF, n, U16s(cs) + U16s(ps));
    BothColumns(data, pos + 2, cs, ps);
  }

  lemma {:induction false} BothColumns(data: bytes, p: nat, cs: seq<u16>, ps: seq<u16>)
    requires Has(data, p, U16s(cs) + U16s(ps))
    ensures p + 2 * |cs| + 2 * |ps| <= |data|
    ensures ColumnsAt(data, p, cs) && ColumnsAt(data, p + 2 * |cs|, ps)
  {
    hide U16s, Has, ColumnAt;
    var q := p + 2 * |cs|;
    HasConcat(data, p, U16s(cs), U16s(ps));
    assert q == p + |U16s(cs)|;
    HasBound(data, q, U16s(ps));
    ColumnsLayout(data, p, cs);
    ColumnsLayout(data, q, ps);
  }

  lemma {:induction false} PairThen(data: bytes, pos: nat, a: u8, b: u8, rest: bytes)
    requires Has(data, pos, [a, b] + rest)
    ensures pos + 2 <= |data| && data[pos] == a && data[pos + 1] == b && Has(data, pos + 2, rest)
  {
    hide Has;
    HasConcat(data, pos, [a, b], rest);
    TwoBytes(data, pos, a, b);
  }

  lemma {:induction false} TwoBytes(data: bytes, pos: nat, a: u8, b: u8)
    requires Has(data, pos, [a, b])
    ensures pos + 2 <= |data| && data[pos] == a && data[pos + 1] == b
  {
    assert data[pos..pos + 2][0] == a && data[pos..pos + 2][1] == b;
  }

  function CompositePart(d: FkDef): bytes {
    if |d.childCols| > 1 then [COMPOSITE_MAGIC, |d.childCols| % 0x100] + U16s(Rest(d.childCols)) + U16s(Rest(d.parentCols))
    else []
  }

  function DeferralPart(d: FkDef): bytes {
    if d.deferrable || d.initiallyDeferred then [DEFERRABLE_MAGIC, FlagByte(d.deferrable, d.initiallyDeferred)] else []
  }

  lemma {:induction false} EncodeParts(d: FkDef)
    ensures Encode(d) == PrintBase(d.base) + (CompositePart(d) + DeferralPart(d))
  {
    hide PrintBase, U16s;
  }

  lemma {:induction false} CompositePartIs(d: FkDef)
    requires |d.childCols| > 1
    ensures CompositePart(d) == [0xCF, |d.childCols| % 0x100] + (U16s(Rest(d.childCols)) + U16s(Rest(d.parentCols)))
  {
    hide U16s, Rest;
  }

  lemma {:induction false} CompositePartLayout(data: bytes, p: nat, d: FkDef)
    requires Has(data, p, CompositePart(d)) && |d.childCols| > 1
    ensures var cs, ps := Rest(d.childCols), Rest(d.parentCols);
            && |CompositePart(d)| == 2 + 2 * |cs| + 2 * |ps|
            && p + 2 + 2 * |cs| + 2 * |ps| <= |data| && data[p] == 0xCF && data[p + 1] == |d.childCols| % 0x100
            && ColumnsAt(data, p + 2, cs) && ColumnsAt(data, p + 2 + 2 * |cs|, ps)
  {
    hide Has, U16s, ColumnsAt, CompositePart, Rest;
    CompositePartIs(d);
    CompositeLayout(data, p, |d.childCols| % 0x100, Rest(d.childCols), Rest(d.parentCols));
  }

  /** Every row written is laid out so. */
  lemma {:induction false} EncodeLayout(d: FkDef)
    ensures Layout(Encode(d), d)
  {
    hide Has, PrintBase, HeaderAt, ColumnsAt, Encode, CompositePart, U16s;
    var e, p := Encode(d), 26 + |d.base.name|;
    EncodeParts(d);
    HasAll(e, e);
    HasConcat(e, 0, PrintBase(d.base), CompositePart(d) + DeferralPart(d));
    HasConcat(e, p, CompositePart(d), DeferralPart(d));
    HeaderLayout(e, d.base);
    if |d.childCols| > 1 {
      CompositePartLayout(e, p, d);
    } else {
      NoComposite(d);
    }
    if d.deferrable || d.initiallyDeferred {
      TwoBytes(e, p + |CompositePart(d)|, DEFERRABLE_MAGIC, FlagByte(d.deferrable, d.initiallyDeferred));
    }
  }

  lemma {:induction false} NoComposite(d: FkDef)
    requires |d.childCols| <= 1
    ensures CompositePart(d) == []
  {
  }

  /** Every accepted row has its header fields at these places, and each of its trailers
      is laid out as written ones are. */
  lemma {:induction false} DecodeLayout(data: bytes)
    requires Decode(data).Ok?
    ensures HeaderAt(data, Decode(data).value.0.base)
  {
    hide Print, HeaderAt, PrintBase, PrintTrailers, WfRow, Has;
    DecodeAcceptsGrammar(data);
    var row :| WfRow(row) && data == Print(row) && Decode(data).value == (Meaning(row), |data|);
    PrintStarts(row);
    HeaderLayout(data, row.base);
  }

  lemma {:induction false} PrintStarts(row: Row)
    requires WfRow(row)
    ensures Has(Print(row), 0, PrintBase(row.base))
  {
    hide PrintBase, PrintTrailers;
    HasPrefix(Print(row), PrintBase(row.base));
  }

  lemma {:induction false} TrailerLayout(t: Trailer)
    requires WfTrailer(t)
    ensures var b := PrintTrailer(t);
            match t
            case Deferral(flags) => b == [0xDF, flags]
            case Composite(cs, ps) =>
              && |b| == 2 + 4 * |cs| && b[0] == 0xCF && b[1] == |cs| + 1
              && ColumnsAt(b, 2, cs) && ColumnsAt(b, 2 + 2 * |cs|, ps)
  {
    hide U16s, ColumnsAt;
    if t.Composite? {
      var b := PrintTrailer(t);
      HasAll(b, b);
      CompositeLayout(b, 0, |t.children| + 1, t.children, t.parents);
    }
  }
}
