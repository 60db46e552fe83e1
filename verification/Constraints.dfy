/** Rows of `axiom_constraints`: CHECK constraints keep the legacy base layout,
    exclusion constraints append a trailer with their helper index and elements. */
module Constraints {
  import opened Bytes

  datatype ConstraintKind = Check | Exclusion

  datatype Operator = Eq | NotEq | Lt | LtEq | Gt | GtEq | Overlaps

  function OperatorByte(op: Operator): u8 {
    match op
    case Eq => 0
    case NotEq => 1
    case Lt => 2
    case LtEq => 3
    case Gt => 4
    case GtEq => 5
    case Overlaps => 6
  }

  function OperatorOf(b: u8): (r: Result<Operator, ParseError>)
    ensures r.Ok? <==> b < 7
    ensures forall op :: r == Ok(op) <==> OperatorByte(op) == b
  {
    match b
    case 0 => Ok(Eq)
    case 1 => Ok(NotEq)
    case 2 => Ok(Lt)
    case 3 => Ok(LtEq)
    case 4 => Ok(Gt)
    case 5 => Ok(GtEq)
    case 6 => Ok(Overlaps)
    case _ => Err(UnknownTag(b))
  }

  datatype Element = Element(colIdx: u16, operator: Operator)

  datatype Base = Base(constraintId: u32, tableId: u32, name: bytes, checkExpr: bytes)

  datatype ConstraintDef = ConstraintDef(base: Base, kind: ConstraintKind, ownedIndexId: u32, elements: seq<Element>)

  predicate WfBase(b: Base) {
    && ValidUtf8(b.name) && |b.name| < 0x1_0000_0000
    && ValidUtf8(b.checkExpr) && |b.checkExpr| < 0x1_0000_0000
  }

  /** A CHECK row owns no index and has no elements; an exclusion row has at most
      255 elements. */
  predicate WellFormed(d: ConstraintDef) {
    && WfBase(d.base)
    && |d.elements| <= 255
    && (d.kind == Check ==> d.ownedIndexId == 0 && d.elements == [])
  }

  // ---------------------------------------------------------------------------
  // Encoder

  function PrintElement(e: Element): (b: bytes)
    ensures |b| == 3
  {
    U16(e.colIdx) + [OperatorByte(e.operator)]
  }

  /** Built from the back, as a loop that appends builds it. */
  function PrintElements(es: seq<Element>): (b: bytes)
    ensures |b| == 3 * |es|
  {
    if es == [] then [] else PrintElements(es[..|es| - 1]) + PrintElement(es[|es| - 1])
  }

  function PrintBase(b: Base): (r: bytes)
    ensures |r| == 16 + |b.name| + |b.checkExpr|
  {
    U32(b.constraintId) + (U32(b.tableId) + (U32(|b.name| % 0x1_0000_0000) + (b.name
    + (U32(|b.checkExpr| % 0x1_0000_0000) + b.checkExpr))))
  }

  function PrintExclusion(owned: u32, es: seq<Element>): (r: bytes)
    ensures |r| == 6 + 3 * |es| && r[0] == 1 && r[5] == |es| % 0x100
  {
    [1] + (U32(owned) + ([|es| % 0x100] + PrintElements(es)))
  }

  function Encode(d: ConstraintDef): (r: bytes) {
    PrintBase(d.base) + (if d.kind == Exclusion then PrintExclusion(d.ownedIndexId, d.elements) else [])
  }

  method ToBytes(d: ConstraintDef) returns (buf: bytes)
    ensures buf == Encode(d)
    ensures Layout(buf, d)
  {
    hide PrintBase, PrintExclusion, Layout;
    EncodeLayout(d);
    buf := BaseToBytes(d.base);
    if d.kind == Exclusion {
      buf := AppendExclusion(buf, d.ownedIndexId, d.elements);
    }
  }

  method AppendExclusion(head: bytes, owned: u32, es: seq<Element>) returns (buf: bytes)
    ensures buf == head + PrintExclusion(owned, es)
  {
    hide U32, PrintElements;
    buf := head + [1];
    buf := buf + U32(owned);
    buf := buf + [|es| % 0x100];
    buf := AppendElements(buf, es);
  }

  method BaseToBytes(b: Base) returns (buf: bytes)
    ensures buf == PrintBase(b)
  {
    hide U32;
    buf := U32(b.constraintId);
    buf := buf + U32(b.tableId);
    buf := buf + U32(|b.name| % 0x1_0000_0000);
    buf := buf + b.name;
    buf := buf + U32(|b.checkExpr| % 0x1_0000_0000);
    buf := buf + b.checkExpr;
  }

  method AppendElements(head: bytes, es: seq<Element>) returns (buf: bytes)
    ensures buf == head + PrintElements(es)
  {
    hide U16;
    buf := head;
    for i := 0 to |es|
      invariant buf == head + PrintElements(es[..i])
    {
      assert es[..i + 1][..i] == es[..i];
      buf := buf + U16(es[i].colIdx);
      buf := buf + [OperatorByte(es[i].operator)];
    }
    assert es[..|es|] == es;
  }

  // ---------------------------------------------------------------------------
  // Grammar of accepted rows

  /** A CHECK row may also say so with an explicit kind byte. */
  datatype Tail = Absent | CheckByte | ExclusionTail(owned: u32, elements: seq<Element>)

  datatype Row = Row(base: Base, tail: Tail)

  predicate WfTail(t: Tail) {
    t.ExclusionTail? ==> |t.elements| <= 255
  }

  predicate WfRow(row: Row) {
    WfBase(row.base) && WfTail(row.tail)
  }

  function PrintTail(t: Tail): (r: bytes) {
    match t
    case Absent => []
    case CheckByte => [0]
    case ExclusionTail(owned, es) => PrintExclusion(owned, es)
  }

  function Print(row: Row): (r: bytes) {
    PrintBase(row.base) + PrintTail(row.tail)
  }

  function Meaning(row: Row): ConstraintDef {
    match row.tail
    case ExclusionTail(owned, es) => ConstraintDef(row.base, Exclusion, owned, es)
    case _ => ConstraintDef(row.base, Check, 0, [])
  }

  // ---------------------------------------------------------------------------
  // Parser

  function ReadBase(data: bytes): (r: Result<Base, ParseError>)
    ensures r.Ok? ==> |PrintBase(r.value)| <= |data|
  {
    if |data| < 8 then Err(Truncated)
    else if |data| < 12 then Err(Truncated)
    else
      var nameLen := ToU32(data[8..12]);
      var name := ReadText(data, 12, nameLen);
      if name.Err? then Err(name.error)
      else
        var pos := 12 + nameLen;
        if |data| < pos + 4 then Err(Truncated)
        else
          var exprLen := ToU32(data[pos..pos + 4]);
          var expr := ReadText(data, pos + 4, exprLen);
          if expr.Err? then Err(expr.error)
          else Ok(Base(ToU32(data[0..4]), ToU32(data[4..8]), name.value, expr.value))
  }

  function ReadElements(data: bytes, pos: nat, n: nat): (r: Result<seq<Element>, ParseError>)
    ensures r.Ok? ==> |r.value| == n && (n == 0 || pos + 3 * n <= |data|)
  {
    if n == 0 then Ok([])
    else
      var es := ReadElements(data, pos, n - 1);
      var p := pos + 3 * (n - 1);
      if es.Err? then es
      else if |data| < p + 3 then Err(Truncated)
      else
        var op := OperatorOf(data[p + 2]);
        if op.Err? then Err(op.error) else Ok(es.value + [Element(ToU16(data[p..p + 2]), op.value)])
  }

  function ReadTail(data: bytes, pos: nat): (r: Result<Tail, ParseError>)
    requires pos <= |data|
  {
    if pos == |data| then Ok(Absent)
    else if data[pos] == 0 then
      if pos + 1 == |data| then Ok(CheckByte) else Err(Malformed)
    else if data[pos] == 1 then
      if |data| < pos + 6 then Err(Truncated)
      else
        var n: nat := data[pos + 5];
        var es := ReadElements(data, pos + 6, n);
        if es.Err? then Err(es.error)
        else if pos + 6 + 3 * n != |data| then Err(Malformed)
        else Ok(ExclusionTail(ToU32(data[pos + 1..pos + 5]), es.value))
    else Err(UnknownTag(data[pos]))
  }

  function Parse(data: bytes): (r: Result<Row, ParseError>) {
    var base := ReadBase(data);
    if base.Err? then Err(base.error)
    else
      var tail := ReadTail(data, |PrintBase(base.value)|);
      if tail.Err? then Err(tail.error) else Ok(Row(base.value, tail.value))
  }

  function Decode(data: bytes): (r: Result<(ConstraintDef, nat), ParseError>) {
    var row := Parse(data);
    if row.Err? then Err(row.error) else Ok((Meaning(row.value), |data|))
  }

  /** The decoder of the source. It accepts exactly the rows of the grammar. */
  method FromBytes(data: bytes) returns (r: Result<(ConstraintDef, nat), ParseError>)
    ensures r == Decode(data)
    ensures r.Ok? ==> exists row :: WfRow(row) && data == Print(row) && r.value == (Meaning(row), |data|)
    ensures r.Err? ==> forall row :: WfRow(row) ==> data != Print(row)
  {
    hide Print, WfRow, ReadBase, PrintBase, ReadElements, ToU32;
    DecodeAcceptsGrammar(data);
    var b := ParseBase(data);
    if b.Err? {
      return Err(b.error);
    }
    var base, pos := b.value.0, b.value.1;
    if pos == |data| {
      return Ok((ConstraintDef(base, Check, 0, []), pos));
    }
    var kind := data[pos];
    pos := pos + 1;
    if kind == 0 {
      if pos != |data| {
        return Err(Malformed);
      }
      return Ok((ConstraintDef(base, Check, 0, []), pos));
    } else if kind != 1 {
      return Err(UnknownTag(kind));
    }
    if |data| < pos + 5 {
      return Err(Truncated);
    }
    var owned := ToU32(data[pos..pos + 4]);
    pos := pos + 4;
    var numElements: nat := data[pos];
    pos := pos + 1;
    var es := ParseElements(data, pos, numElements);
    if es.Err? {
      return Err(es.error);
    }
    pos := pos + 3 * numElements;
    if pos != |data| {
      return Err(Malformed);
    }
    return Ok((ConstraintDef(base, Exclusion, owned, es.value), pos));
  }

  method ParseBase(data: bytes) returns (r: Result<(Base, nat), ParseError>)
    ensures match ReadBase(data)
            case Err(e) => r == Err(e)
            case Ok(b) => r == Ok((b, |PrintBase(b)|))
    ensures r.Ok? ==> WfBase(r.value.0) && Has(data, 0, PrintBase(r.value.0)) && BaseAt(data, r.value.0)
    ensures r.Err? ==> forall b :: WfBase(b) ==> !Has(data, 0, PrintBase(b))
  {
    hide BaseAt, U32, ToU32, ValidUtf8, WfBase, Has;
    BaseAccepted(data);
    if |data| < 8 {
      return Err(Truncated);
    }
    var constraintId := ToU32(data[0..4]);
    var tableId := ToU32(data[4..8]);
    var pos: nat := 8;
    if |data| < pos + 4 {
      return Err(Truncated);
    }
    var nameLen := ToU32(data[pos..pos + 4]);
    pos := pos + 4;
    var name := ReadText(data, pos, nameLen);
    if name.Err? {
      return Err(name.error);
    }
    pos := pos + nameLen;
    if |data| < pos + 4 {
      return Err(Truncated);
    }
    var exprLen := ToU32(data[pos..pos + 4]);
    pos := pos + 4;
    var expr := ReadText(data, pos, exprLen);
    if expr.Err? {
      return Err(expr.error);
    }
    pos := pos + exprLen;
    var base := Base(constraintId, tableId, name.value, expr.value);
    return Ok((base, pos));
  }

  method ParseElements(data: bytes, start: nat, n: nat) returns (r: Result<seq<Element>, ParseError>)
    ensures r == ReadElements(data, start, n)
  {
    var pos := start;
    var elements := [];
    for i := 0 to n
      invariant pos == start + 3 * i
      invariant ReadElements(data, start, i) == Ok(elements)
    {
      if |data| < pos + 3 {
        ErrorsStay(data, start, i + 1, n);
        return Err(Truncated);
      }
      var colIdx := ToU16(data[pos..pos + 2]);
      pos := pos + 2;
      var op := OperatorOf(data[pos]);
      if op.Err? {
        ErrorsStay(data, start, i + 1, n);
        return Err(op.error);
      }
      pos := pos + 1;
      elements := elements + [Element(colIdx, op.value)];
    }
    return Ok(elements);
  }

  lemma {:induction false} ErrorsStay(data: bytes, pos: nat, m: nat, n: nat)
    requires m <= n && ReadElements(data, pos, m).Err?
    ensures ReadElements(data, pos, n) == ReadElements(data, pos, m)
  {
    if m < n {
      ErrorsStay(data, pos, m, n - 1);
    }
  }

  // ---------------------------------------------------------------------------
  // The parser reads exactly what the grammar prints

  lemma {:induction false} ReadBaseHas(data: bytes, b: Base)
    ensures ReadBase(data) == Ok(b) <==> WfBase(b) && Has(data, 0, PrintBase(b))
  {
    hide Has, U32, ToU32, ValidUtf8;
    var n, m := |b.name|, |b.checkExpr|;
    var r4 := U32(m % 0x1_0000_0000) + b.checkExpr;
    var r3 := b.name + r4;
    var r2 := U32(n % 0x1_0000_0000) + r3;
    HasConcat(data, 0, U32(b.constraintId), U32(b.tableId) + r2);
    HasConcat(data, 4, U32(b.tableId), r2);
    HasConcat(data, 8, U32(n % 0x1_0000_0000), r3);
    HasConcat(data, 12, b.name, r4);
    HasConcat(data, 12 + n, U32(m % 0x1_0000_0000), b.checkExpr);
    ReadU32Has(data, 0, b.constraintId);
    ReadU32Has(data, 4, b.tableId);
    ReadU32Has(data, 8, n % 0x1_0000_0000);
    ReadTextHas(data, 12, b.name);
    ReadU32Has(data, 12 + n, m % 0x1_0000_0000);
    ReadTextHas(data, 16 + n, b.checkExpr);
  }

  lemma {:induction false} BaseAccepted(data: bytes)
    ensures ReadBase(data).Ok? ==>
              var b := ReadBase(data).value; WfBase(b) && Has(data, 0, PrintBase(b)) && BaseAt(data, b)
    ensures ReadBase(data).Err? ==> forall b :: WfBase(b) ==> !Has(data, 0, PrintBase(b))
  {
    hide ReadBase, WfBase, Has, PrintBase, BaseAt;
    if ReadBase(data).Ok? {
      ReadBaseHas(data, ReadBase(data).value);
      BaseLayout(data, ReadBase(data).value);
    } else {
      forall b | WfBase(b) ensures !Has(data, 0, PrintBase(b)) {
        ReadBaseHas(data, b);
      }
    }
  }

  lemma {:induction false} ReadElementsHas(data: bytes, pos: nat, es: seq<Element>)
    requires pos <= |data|
    ensures ReadElements(data, pos, |es|) == Ok(es) <==> Has(data, pos, PrintElements(es))
  {
    hide Has, U16, ToU16;
    if es == [] {
      HasNothing(data, pos);
    } else {
      var n := |es| - 1;
      var e, p := es[n], pos + 3 * n;
      ReadElementsHas(data, pos, es[..n]);
      HasConcat(data, pos, PrintElements(es[..n]), PrintElement(e));
      HasConcat(data, p, U16(e.colIdx), [OperatorByte(e.operator)]);
      ReadU16Has(data, p, e.colIdx);
      ReadU8Has(data, p + 2, OperatorByte(e.operator));
      assert es == es[..n] + [e];
    }
  }

  lemma {:induction false} ReadTailHas(data: bytes, pos: nat, t: Tail)
    requires pos <= |data|
    ensures ReadTail(data, pos) == Ok(t)
       <==> && pos + |PrintTail(t)| == |data|
            && WfTail(t)
            && Has(data, pos, PrintTail(t))
  {
    hide Has, U32, ToU32, ReadElements, PrintElements;
    match t
    case Absent => HasNothing(data, pos);
    case CheckByte => ReadU8Has(data, pos, 0);
    case ExclusionTail(owned, es) =>
      var n := |es| % 0x100;
      HasConcat(data, pos, [1], U32(owned) + ([n] + PrintElements(es)));
      HasConcat(data, pos + 1, U32(owned), [n] + PrintElements(es));
      HasConcat(data, pos + 5, [n], PrintElements(es));
      ReadU8Has(data, pos, 1);
      ReadU32Has(data, pos + 1, owned);
      ReadU8Has(data, pos + 5, n);
      if pos + 6 <= |data| {
        ReadElementsHas(data, pos + 6, es);
      }
  }

  /** A byte string parses to `row` exactly when it is the print of `row`. */
  lemma {:induction false} ParseExact(data: bytes, row: Row)
    ensures Parse(data) == Ok(row) <==> WfRow(row) && data == Print(row)
  {
    hide Has, ReadBase, ReadTail, PrintTail, PrintBase;
    ReadBaseHas(data, row.base);
    var end := |PrintBase(row.base)|;
    if end <= |data| {
      ReadTailHas(data, end, row.tail);
    }
    HasConcat(data, 0, PrintBase(row.base), PrintTail(row.tail));
    HasAll(data, PrintBase(row.base) + PrintTail(row.tail));
  }

  lemma {:induction false} DecodeAcceptsGrammar(data: bytes)
    ensures Decode(data).Ok? ==>
              exists row :: WfRow(row) && data == Print(row) && Decode(data).value == (Meaning(row), |data|)
    ensures Decode(data).Err? ==> forall row :: WfRow(row) ==> data != Print(row)
  {
    hide Parse, Print;
    if Decode(data).Ok? {
      ParseExact(data, Parse(data).value);
    } else {
      forall row | WfRow(row) ensures data != Print(row) {
        ParseExact(data, row);
      }
    }
  }

  // ---------------------------------------------------------------------------
  // Round trips, canonical form, truncation

  /** The one row the encoder chooses for `d`. */
  function RowOf(d: ConstraintDef): Row {
    Row(d.base, if d.kind == Exclusion then ExclusionTail(d.ownedIndexId, d.elements) else Absent)
  }

  /** CHECK and exclusion rows round trip exactly when they are well formed. */
  lemma {:induction false} RoundTrip(d: ConstraintDef)
    ensures Decode(Encode(d)) == Ok((d, |Encode(d)|)) <==> WellFormed(d)
  {
    hide Parse, PrintBase, PrintExclusion, WfBase;
    ParseExact(Encode(d), RowOf(d));
    if Parse(Encode(d)).Ok? {
      ParseExact(Encode(d), Parse(Encode(d)).value);
    }
  }

  /** Every accepted row denotes a well-formed definition, is consumed whole, and
      re-encodes to a row no longer than itself that decodes to the same
      definition; it is reproduced exactly unless it holds the explicit CHECK byte. */
  lemma {:induction false} CanonicalForm(data: bytes)
    requires Decode(data).Ok?
    ensures var (d, n) := Decode(data).value;
            && WellFormed(d)
            && n == |data|
            && Decode(Encode(d)) == Ok((d, |Encode(d)|))
            && (Encode(d) == data || Encode(d) + [0] == data)
  {
    var row := Parse(data).value;
    ParseExact(data, row);
    RoundTrip(Meaning(row));
    assert PrintBase(row.base) + [] == PrintBase(row.base);
  }

  /** No strict prefix of a CHECK row is accepted; the only accepted strict prefix
      of an exclusion row is its base part, which reads as a CHECK. */
  lemma {:induction false} Truncation(d: ConstraintDef, k: nat)
    requires WellFormed(d) && k < |Encode(d)|
    ensures var base := 16 + |d.base.name| + |d.base.checkExpr|;
            && (Decode(Encode(d)[..k]).Ok? <==> d.kind == Exclusion && k == base)
            && (d.kind == Exclusion && k == base ==>
                  Decode(Encode(d)[..k]) == Ok((ConstraintDef(d.base, Check, 0, []), k)))
  {
    hide Parse, PrintBase, PrintExclusion, WfBase;
    var data, cut := Encode(d), Encode(d)[..k];
    if Parse(cut).Ok? {
      var row := Parse(cut).value;
      ParseExact(cut, row);
      ParseExact(data, RowOf(d));
      CutBase(data, cut, RowOf(d), row);
      CutTail(data, |PrintBase(d.base)|, RowOf(d).tail, row.tail);
    }
    if d.kind == Exclusion && k == |PrintBase(d.base)| {
      ParseExact(cut, Row(d.base, Absent));
    }
  }

  lemma {:induction false} CutBase(data: bytes, cut: bytes, row: Row, row': Row)
    requires WfRow(row) && WfRow(row')
    requires data == Print(row) && cut == Print(row') && cut <= data
    ensures row'.base == row.base
    ensures Has(data, |PrintBase(row.base)|, PrintTail(row.tail))
    ensures Has(data, |PrintBase(row.base)|, PrintTail(row'.tail))
  {
    hide Has, PrintBase, PrintTail;
    HasPrefix(data, cut);
    HasAll(data, Print(row));
    HasConcat(data, 0, PrintBase(row.base), PrintTail(row.tail));
    HasConcat(data, 0, PrintBase(row'.base), PrintTail(row'.tail));
    ReadBaseHas(data, row.base);
    ReadBaseHas(data, row'.base);
  }

  /** Two tails at one place, the shorter one strictly shorter: it is absent. */
  lemma {:induction false} CutTail(data: bytes, pos: nat, t: Tail, t': Tail)
    requires WfTail(t) && WfTail(t')
    requires Has(data, pos, PrintTail(t)) && Has(data, pos, PrintTail(t'))
    requires |PrintTail(t')| < |PrintTail(t)|
    ensures t' == Absent
  {
    SameStart(data, pos, PrintTail(t), PrintTail(t'));
  }

  // ---------------------------------------------------------------------------
  // The layout by position

  /** In the order of their numbers on disk. */
  const OPERATORS: seq<Operator> := [Eq, NotEq, Lt, LtEq, Gt, GtEq, Overlaps]

  ghost predicate BaseAt(data: bytes, b: Base) {
    && |data| >= 8 && LE(data, 0, 4) == b.constraintId && LE(data, 4, 4) == b.tableId
    && Text4At(data, 8, b.name) && Text4At(data, 12 + |b.name|, b.checkExpr)
  }

  ghost predicate ElementAt(data: bytes, pos: nat, e: Element) {
    pos + 3 <= |data| && LE(data, pos, 2) == e.colIdx && data[pos + 2] < 7 && OPERATORS[data[pos + 2]] == e.operator
  }

  /** A CHECK row ends with its expression; an exclusion row goes on with 1, the index it
      owns, the number of elements and the elements. */
  ghost predicate Layout(data: bytes, d: ConstraintDef) {
    var p, n := 16 + |d.base.name| + |d.base.checkExpr|, |d.elements|;
    && BaseAt(data, d.base)
    && (if d.kind == Check then |data| == p
        else && |data| == p + 6 + 3 * n && data[p] == 1 && LE(data, p + 1, 4) == d.ownedIndexId && data[p + 5] == n % 0x100
             && forall i :: 0 <= i < n ==> ElementAt(data, p + 6 + 3 * i, d.elements[i]))
  }

  lemma {:induction false} BaseLayout(data: bytes, b: Base)
    requires Has(data, 0, PrintBase(b))
    ensures BaseAt(data, b)
  {
    hide Has, U32, LE;
    var r4 := U32(|b.checkExpr| % 0x1_0000_0000) + b.checkExpr;
    var r3 := b.name + r4;
    var len := U32(|b.name| % 0x1_0000_0000);
    HasConcat(data, 0, U32(b.constraintId), U32(b.tableId) + (len + r3));
    HasConcat(data, 4, U32(b.tableId), len + r3);
    assert len + r3 == (len + b.name) + r4;
    HasConcat(data, 8, len + b.name, r4);
    U32At(data, 0, b.constraintId);
    U32At(data, 4, b.tableId);
    Len4At(data, 8, b.name);
    Len4At(data, 12 + |b.name|, b.checkExpr);
  }

  lemma {:induction false} ElementLayout(data: bytes, pos: nat, e: Element)
    requires Has(data, pos, PrintElement(e))
    ensures ElementAt(data, pos, e)
  {
    hide U16, LE;
    HasConcat(data, pos, U16(e.colIdx), [OperatorByte(e.operator)]);
    U16At(data, pos, e.colIdx);
    ReadU8Has(data, pos + 2, OperatorByte(e.operator));
  }

  lemma {:induction false} ElementsLayout(data: bytes, pos: nat, es: seq<Element>)
    requires Has(data, pos, PrintElements(es))
    ensures forall i :: 0 <= i < |es| ==> ElementAt(data, pos + 3 * i, es[i])
  {
    hide Has, PrintElement, ElementAt;
    if es != [] {
      var init, e := es[..|es| - 1], es[|es| - 1];
      HasConcat(data, pos, PrintElements(init), PrintElement(e));
      ElementsLayout(data, pos, init);
      ElementLayout(data, pos + 3 * |init|, e);
      forall i | 0 <= i < |es| ensures ElementAt(data, pos + 3 * i, es[i]) {
        assert i < |init| ==> es[i] == init[i];
      }
    }
  }

  lemma {:induction false} ExclusionLayout(data: bytes, p: nat, owned: u32, es: seq<Element>)
    requires Has(data, p, PrintExclusion(owned, es))
    ensures p + 6 + 3 * |es| <= |data| && data[p] == 1 && LE(data, p + 1, 4) == owned && data[p + 5] == |es| % 0x100
    ensures forall i :: 0 <= i < |es| ==> ElementAt(data, p + 6 + 3 * i, es[i])
  {
    hide Has, U32, PrintElements, ElementAt, LE;
    HasBound(data, p, PrintExclusion(owned, es));
    HasConcat(data, p, [1], U32(owned) + ([|es| % 0x100] + PrintElements(es)));
    HasConcat(data, p + 1, U32(owned), [|es| % 0x100] + PrintElements(es));
    HasConcat(data, p + 5, [|es| % 0x100], PrintElements(es));
    ReadU8Has(data, p, 1);
    U32At(data, p + 1, owned);
    ReadU8Has(data, p + 5, |es| % 0x100);
    ElementsLayout(data, p + 6, es);
  }

  /** Every row written is laid out so. */
  lemma {:induction false} EncodeLayout(d: ConstraintDef)
    ensures Layout(Encode(d), d)
  {
    hide Has, PrintBase, PrintExclusion, BaseAt, ElementAt, LE;
    var e := Encode(d);
    HasAll(e, e);
    var tail := if d.kind == Exclusion then PrintExclusion(d.ownedIndexId, d.elements) else [];
    HasConcat(e, 0, PrintBase(d.base), tail);
    BaseLayout(e, d.base);
    if d.kind == Exclusion {
      ExclusionLayout(e, 16 + |d.base.name| + |d.base.checkExpr|, d.ownedIndexId, d.elements);
    }
  }
}
