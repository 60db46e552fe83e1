/** Rows of `axiom_aggregates`. The row keeps one tag byte per argument type, so
    the arguments of array, range and composite types are lost on the way. */
module Aggregates {
  import opened Bytes

  datatype DataType =
    | Bool | TinyInt | SmallInt | Int | BigInt | Float | Real | Text | Bytes | Timestamp | Uuid
    | Json | Jsonb | Decimal | Date | Money | Ltree | Xml | TimestampTz
    | Array(element: DataType) | Range(bound: DataType) | Composite(fields: seq<(bytes, DataType)>)

  datatype HelperKind = Median

  datatype AggregateDef = AggregateDef(schemaName: bytes, name: bytes, argTypes: seq<DataType>, sfunc: bytes,
                                       stype: bytes, finalfunc: Option<bytes>, helperKind: HelperKind)

  function TypeTag(t: DataType): u8 {
    match t
    case Bool => 1
    case TinyInt => 19
    case SmallInt => 20
    case Int => 2
    case BigInt => 3
    case Float => 21
    case Real => 4
    case Text => 5
    case Bytes => 6
    case Timestamp => 7
    case Uuid => 8
    case Json => 9
    case Jsonb => 10
    case Decimal => 11
    case Date => 12
    case Array(_) => 13
    case Range(_) => 14
    case Money => 15
    case Composite(_) => 16
    case Ltree => 17
    case Xml => 18
    case TimestampTz => 22
  }

  function TypeOf(tag: u8): (r: Result<DataType, ParseError>) {
    match tag
    case 1 => Ok(Bool)
    case 2 => Ok(Int)
    case 3 => Ok(BigInt)
    case 4 => Ok(Real)
    case 21 => Ok(Float)
    case 5 => Ok(Text)
    case 6 => Ok(Bytes)
    case 7 => Ok(Timestamp)
    case 8 => Ok(Uuid)
    case 9 => Ok(Json)
    case 10 => Ok(Jsonb)
    case 11 => Ok(Decimal)
    case 12 => Ok(Date)
    case 13 => Ok(Array(Text))
    case 14 => Ok(Range(Int))
    case 15 => Ok(Money)
    case 16 => Ok(Composite([]))
    case 17 => Ok(Ltree)
    case 18 => Ok(Xml)
    case 19 => Ok(TinyInt)
    case 20 => Ok(SmallInt)
    case 22 => Ok(TimestampTz)
    case _ => Err(UnknownTag(tag))
  }

  /** What a type becomes once its arguments are forgotten. */
  function NormalType(t: DataType): DataType {
    match t
    case Array(_) => Array(Text)
    case Range(_) => Range(Int)
    case Composite(_) => Composite([])
    case _ => t
  }

  function NormalTypes(ts: seq<DataType>): (r: seq<DataType>)
    ensures |r| == |ts|
    ensures forall i :: 0 <= i < |ts| ==> r[i] == NormalType(ts[i])
  {
    seq(|ts|, i requires 0 <= i < |ts| => NormalType(ts[i]))
  }

  function Normalise(d: AggregateDef): (r: AggregateDef) {
    d.(argTypes := NormalTypes(d.argTypes), finalfunc := if d.finalfunc == Some([]) then None else d.finalfunc)
  }

  function FinalBytes(d: AggregateDef): bytes {
    if d.finalfunc.Some? then d.finalfunc.value else []
  }

  predicate WithinLimits(d: AggregateDef) {
    && Fits1(d.schemaName) && Fits1(d.name) && |d.argTypes| < 0x100
    && Fits1(d.sfunc) && Fits1(d.stype) && Fits1(FinalBytes(d))
  }

  // ---------------------------------------------------------------------------
  // Encoder

  function PrintTags(ts: seq<DataType>): (b: bytes)
    ensures |b| == |ts|
  {
    if ts == [] then [] else PrintTags(ts[..|ts| - 1]) + [TypeTag(ts[|ts| - 1])]
  }

  function Encode(d: AggregateDef): (b: bytes) {
    Str1(d.schemaName) + (Str1(d.name) + ([|d.argTypes| % 0x100] + (PrintTags(d.argTypes)
    + (Str1(d.sfunc) + (Str1(d.stype) + (Str1(FinalBytes(d)) + [1]))))))
  }

  method ToBytes(d: AggregateDef) returns (buf: bytes)
    ensures buf == Encode(d)
    ensures Layout(buf, d)
  {
    EncodeLayout(d);
    hide Layout;
    hide Str1, PrintTags;
    buf := Str1(d.schemaName);
    buf := buf + Str1(d.name);
    buf := buf + [|d.argTypes| % 0x100];
    buf := AppendTags(buf, d.argTypes);
    buf := buf + Str1(d.sfunc);
    buf := buf + Str1(d.stype);
    buf := buf + Str1(FinalBytes(d));
    buf := buf + [1];
  }

  method AppendTags(head: bytes, ts: seq<DataType>) returns (buf: bytes)
    ensures buf == head + PrintTags(ts)
  {
    hide TypeTag;
    buf := head;
    for i := 0 to |ts|
      invariant buf == head + PrintTags(ts[..i])
    {
      buf := buf + [TypeTag(ts[i])];
      assert ts[..i + 1][..i] == ts[..i];
    }
    assert ts[..|ts|] == ts;
  }

  // ---------------------------------------------------------------------------
  // Decoder

  function ReadTypes(data: bytes, pos: nat, n: nat): (r: Result<seq<DataType>, ParseError>)
    requires pos + n <= |data|
    ensures r.Ok? ==> |r.value| == n
  {
    if n == 0 then Ok([])
    else
      var r := ReadTypes(data, pos, n - 1);
      if r.Err? then r
      else
        var t := TypeOf(data[pos + n - 1]);
        if t.Err? then Err(t.error) else Ok(r.value + [t.value])
  }

  function Decode(data: bytes): (r: Result<(AggregateDef, nat), ParseError>) {
    var schema := ReadStr1(data, 0, 1);
    if schema.Err? then Err(schema.error)
    else
      var p1 := |Str1(schema.value)|;
      var name := ReadStr1(data, p1, 1);
      if name.Err? then Err(name.error)
      else
        var p2 := p1 + |Str1(name.value)|;
        if |data| < p2 + 1 + data[p2] + 1 then Err(Truncated)
        else
          var args := ReadTypes(data, p2 + 1, data[p2]);
          if args.Err? then Err(args.error)
          else
            var tail := ReadFuncs(data, p2 + 1 + data[p2]);
            if tail.Err? then Err(tail.error)
            else
              var Funcs(sfunc, stype, fin, end) := tail.value;
              Ok((AggregateDef(schema.value, name.value, args.value, sfunc, stype,
                               if fin == [] then None else Some(fin), Median), end))
  }

  datatype Funcs = Funcs(sfunc: bytes, stype: bytes, finalfunc: bytes, end: nat)

  /** The state function, state type and final function, then the helper byte. */
  function ReadFuncs(data: bytes, pos: nat): (r: Result<Funcs, ParseError>)
    requires pos < |data|
  {
    var sfunc := ReadStr1(data, pos, 1);
    if sfunc.Err? then Err(sfunc.error)
    else
      var p1 := pos + |Str1(sfunc.value)|;
      var stype := ReadStr1(data, p1, 1);
      if stype.Err? then Err(stype.error)
      else
        var p2 := p1 + |Str1(stype.value)|;
        var fin := ReadStr1(data, p2, 1);
        if fin.Err? then Err(fin.error)
        else
          var p3 := p2 + |Str1(fin.value)|;
          if data[p3] != 1 then Err(UnknownTag(data[p3]))
          else Ok(Funcs(sfunc.value, stype.value, fin.value, p3 + 1))
  }

  method FromBytes(data: bytes) returns (r: Result<(AggregateDef, nat), ParseError>)
    ensures r == Decode(data)
    ensures r.Ok? ==> var (d, n) := r.value;
                      WithinLimits(d) && Normalise(d) == d && Has(data, 0, Encode(d)) && n == |Encode(d)|
    ensures r.Err? ==> forall d :: WithinLimits(d) && Normalise(d) == d ==> !Has(data, 0, Encode(d))
  {
    hide ReadStr1, Str1, ReadTypes, WithinLimits, Normalise, Has, Encode;
    DecodeAccepts(data);
    var consumed: nat := 0;
    var schema := ReadStr1(data, consumed, 1);
    if schema.Err? {
      return Err(schema.error);
    }
    consumed := consumed + |Str1(schema.value)|;
    var name := ReadStr1(data, consumed, 1);
    if name.Err? {
      return Err(name.error);
    }
    consumed := consumed + |Str1(name.value)|;
    var argCount: nat := data[consumed];
    consumed := consumed + 1;
    if |data| < consumed + argCount + 1 {
      return Err(Truncated);
    }
    var args := ParseTypes(data, consumed, argCount);
    if args.Err? {
      return Err(args.error);
    }
    consumed := consumed + argCount;
    var sfunc := ReadStr1(data, consumed, 1);
    if sfunc.Err? {
      return Err(sfunc.error);
    }
    consumed := consumed + |Str1(sfunc.value)|;
    var stype := ReadStr1(data, consumed, 1);
    if stype.Err? {
      return Err(stype.error);
    }
    consumed := consumed + |Str1(stype.value)|;
    var fin := ReadStr1(data, consumed, 1);
    if fin.Err? {
      return Err(fin.error);
    }
    var finalfunc := if fin.value == [] then None else Some(fin.value);
    consumed := consumed + |Str1(fin.value)|;
    if data[consumed] != 1 {
      return Err(UnknownTag(data[consumed]));
    }
    consumed := consumed + 1;
    return Ok((AggregateDef(schema.value, name.value, args.value, sfunc.value, stype.value, finalfunc, Median),
               consumed));
  }

  method ParseTypes(data: bytes, pos: nat, n: nat) returns (r: Result<seq<DataType>, ParseError>)
    requires pos + n <= |data|
    ensures r == ReadTypes(data, pos, n)
  {
    hide TypeOf;
    var types := [];
    for i := 0 to n
      invariant ReadTypes(data, pos, i) == Ok(types)
    {
      var t := TypeOf(data[pos + i]);
      if t.Err? {
        ErrorsStay(data, pos, i + 1, n);
        return Err(t.error);
      }
      types := types + [t.value];
    }
    return Ok(types);
  }

  lemma {:induction false} ErrorsStay(data: bytes, pos: nat, m: nat, n: nat)
    requires pos + n <= |data| && m <= n && ReadTypes(data, pos, m).Err?
    ensures ReadTypes(data, pos, n) == ReadTypes(data, pos, m)
  {
    hide TypeOf;
    if m < n {
      ErrorsStay(data, pos, m, n - 1);
    }
  }

  // ---------------------------------------------------------------------------
  // Exactness and normalisation

  lemma {:induction false} NormalTypeKeepsTag(t: DataType)
    ensures TypeTag(NormalType(t)) == TypeTag(t)
    ensures TypeOf(TypeTag(t)) == Ok(NormalType(t))
  {
  }

  /** Every accepted tag reads back as a normal type with that tag. */
  lemma {:induction false} TagOfType(tag: u8)
    ensures TypeOf(tag).Ok? ==> TypeTag(TypeOf(tag).value) == tag && NormalType(TypeOf(tag).value) == TypeOf(tag).value
  {
  }

  lemma {:induction false} ReadTypesHas(data: bytes, pos: nat, ts: seq<DataType>)
    requires pos + |ts| <= |data|
    ensures ReadTypes(data, pos, |ts|) == Ok(ts) <==> NormalTypes(ts) == ts && Has(data, pos, PrintTags(ts))
  {
    hide Has, TypeOf, TypeTag, NormalType;
    if ts == [] {
      HasNothing(data, pos);
    } else {
      var n := |ts| - 1;
      var init, t := ts[..n], ts[n];
      assert ts == init + [t];
      assert NormalTypes(ts) == NormalTypes(init) + [NormalType(t)];
      ReadTypesHas(data, pos, init);
      HasConcat(data, pos, PrintTags(init), [TypeTag(t)]);
      ReadU8Has(data, pos + n, TypeTag(t));
      NormalTypeKeepsTag(t);
      TagOfType(data[pos + n]);
    }
  }

  lemma {:induction false} ReadFuncsHas(data: bytes, pos: nat, sfunc: bytes, stype: bytes, fin: bytes, n: nat)
    requires pos < |data|
    ensures ReadFuncs(data, pos) == Ok(Funcs(sfunc, stype, fin, n))
       <==> && Fits1(sfunc) && Fits1(stype) && Fits1(fin)
            && Has(data, pos, Str1(sfunc) + (Str1(stype) + (Str1(fin) + [1])))
            && n == pos + |Str1(sfunc) + (Str1(stype) + (Str1(fin) + [1]))|
  {
    hide Has, Str1, ReadStr1, Fits1;
    var p1 := pos + |Str1(sfunc)|;
    var p2 := p1 + |Str1(stype)|;
    var p3 := p2 + |Str1(fin)|;
    HasConcat(data, pos, Str1(sfunc), Str1(stype) + (Str1(fin) + [1]));
    HasConcat(data, p1, Str1(stype), Str1(fin) + [1]);
    HasConcat(data, p2, Str1(fin), [1]);
    ReadStr1Has(data, pos, 1, sfunc);
    ReadStr1Has(data, p1, 1, stype);
    ReadStr1Has(data, p2, 1, fin);
    ReadU8Has(data, p3, 1);
  }

  /** The decoder returns `d` after `n` bytes exactly when `d` is normal and within
      the limits and those `n` bytes are the encoding of `d`. In particular
      re-encoding a decoded row gives the consumed bytes back. */
  lemma {:induction false} DecodeExact(data: bytes, d: AggregateDef, n: nat)
    ensures Decode(data) == Ok((d, n))
       <==> WithinLimits(d) && Normalise(d) == d && Has(data, 0, Encode(d)) && n == |Encode(d)|
  {
    hide Has, Str1, ReadStr1, Fits1, ReadTypes, ReadFuncs, PrintTags, NormalType;
    var fin := FinalBytes(d);
    var count := |d.argTypes| % 0x100;
    var funcs := Str1(d.sfunc) + (Str1(d.stype) + (Str1(fin) + [1]));
    var args := PrintTags(d.argTypes) + funcs;
    var p1 := |Str1(d.schemaName)|;
    var p2 := p1 + |Str1(d.name)|;
    var p3 := p2 + 1 + |d.argTypes|;
    HasConcat(data, 0, Str1(d.schemaName), Str1(d.name) + ([count] + args));
    HasConcat(data, p1, Str1(d.name), [count] + args);
    HasConcat(data, p2, [count], args);
    HasConcat(data, p2 + 1, PrintTags(d.argTypes), funcs);
    ReadStr1Has(data, 0, 1, d.schemaName);
    ReadStr1Has(data, p1, 1, d.name);
    ReadU8Has(data, p2, count);
    if p3 < |data| {
      ReadTypesHas(data, p2 + 1, d.argTypes);
      ReadFuncsHas(data, p3, d.sfunc, d.stype, fin, n);
    }
    if Has(data, 0, Encode(d)) {
      HasBound(data, p3, funcs);
    }
    if Decode(data) == Ok((d, n)) {
      assert ReadFuncs(data, p3).value == Funcs(d.sfunc, d.stype, fin, n);
    }
    if WithinLimits(d) && Normalise(d) == d && Has(data, 0, Encode(d)) && n == |Encode(d)| {
      var (d', n') := Decode(data).value;
      assert d'.finalfunc == d.finalfunc;
      assert d' == d;
    }
  }

  lemma {:induction false} NormalTagsSame(ts: seq<DataType>)
    ensures PrintTags(NormalTypes(ts)) == PrintTags(ts)
  {
    if ts != [] {
      var init, t := ts[..|ts| - 1], ts[|ts| - 1];
      assert NormalTypes(ts)[..|ts| - 1] == NormalTypes(init);
      NormalTagsSame(init);
      NormalTypeKeepsTag(t);
    }
  }

  lemma {:induction false} NormaliseIdempotent(d: AggregateDef)
    ensures Normalise(Normalise(d)) == Normalise(d)
    ensures Encode(Normalise(d)) == Encode(d)
    ensures WithinLimits(Normalise(d)) <==> WithinLimits(d)
  {
    assert NormalTypes(NormalTypes(d.argTypes)) == NormalTypes(d.argTypes);
    NormalTagsSame(d.argTypes);
  }

  /** Whatever follows it, an encoded definition decodes to its normal form exactly
      when it is within the limits, and comes back unchanged exactly when it is normal
      too; every strict prefix of it is then rejected. */
  lemma {:induction false} DecodeEncode(d: AggregateDef, rest: bytes, k: nat)
    requires k < |Encode(d)|
    ensures Decode(Encode(d) + rest) == Ok((Normalise(d), |Encode(d)|)) <==> WithinLimits(d)
    ensures Decode(Encode(d) + rest) == Ok((d, |Encode(d)|)) <==> WithinLimits(d) && Normalise(d) == d
    ensures WithinLimits(d) ==> Decode(Encode(d)[..k]).Err?
  {
    hide Encode, Decode, WithinLimits, Normalise;
    var e := Encode(d);
    NormaliseIdempotent(d);
    HasPrefix(e + rest, e);
    DecodeExact(e + rest, Normalise(d), |e|);
    DecodeExact(e + rest, d, |e|);
    if WithinLimits(d) && Decode(e[..k]).Ok? {
      var (d', n) := Decode(e[..k]).value;
      DecodeExact(e[..k], d', n);
      HasBound(e[..k], 0, Encode(d'));
      HasExtended(e[..k], 0, Encode(d'), e[k..]);
      assert e == e[..k] + e[k..];
      HasPrefix(e, e);
      DecodeExact(e, d', n);
      DecodeExact(e, Normalise(d), |e|);
    }
  }

  /** The decoder accepts exactly the bytes that start with the encoding of a normal
      definition within the limits, and returns that definition and its length. */
  lemma {:induction false} DecodeAccepts(data: bytes)
    ensures Decode(data).Ok? ==>
              var (d, n) := Decode(data).value;
              WithinLimits(d) && Normalise(d) == d && Has(data, 0, Encode(d)) && n == |Encode(d)|
    ensures Decode(data).Err? ==> forall d :: WithinLimits(d) && Normalise(d) == d ==> !Has(data, 0, Encode(d))
  {
    hide Encode, Decode, WithinLimits, Normalise, Has;
    if Decode(data).Ok? {
      DecodeExact(data, Decode(data).value.0, Decode(data).value.1);
    } else {
      forall d | WithinLimits(d) && Normalise(d) == d ensures !Has(data, 0, Encode(d)) {
        DecodeExact(data, d, |Encode(d)|);
      }
    }
  }

  /** Re-encoding an accepted row reproduces exactly the bytes it was read from. */
  lemma {:induction false} EncodeDecode(data: bytes)
    requires Decode(data).Ok?
    ensures var (d, n) := Decode(data).value; n <= |data| && Encode(d) == data[..n] && Normalise(d) == d
  {
    var (d, n) := Decode(data).value;
    DecodeExact(data, d, n);
  }

  // ---------------------------------------------------------------------------
  // The layout by position

  /** The types of tags 1 to 22, each as it reads back. */
  const TYPES: seq<DataType> :=
    [Bool, Int, BigInt, Real, Text, Bytes, Timestamp, Uuid, Json, Jsonb, Decimal, Date, Array(Text), Range(Int), Money,
     Composite([]), Ltree, Xml, TinyInt, SmallInt, Float, TimestampTz]

  /** Two types that differ in the arguments of arrays, ranges or composites only. */
  predicate SameShape(t: DataType, u: DataType) {
    || t == u || (t.Array? && u.Array?) || (t.Range? && u.Range?) || (t.Composite? && u.Composite?)
  }

  ghost predicate TypeAt(data: bytes, pos: nat, t: DataType) {
    pos < |data| && 1 <= data[pos] <= 22 && SameShape(t, TYPES[data[pos] - 1])
  }

  ghost predicate Layout(data: bytes, d: AggregateDef) {
    var n, fin := |d.argTypes|, if d.finalfunc.Some? then d.finalfunc.value else [];
    var p1 := 1 + |d.schemaName|;
    var p2 := p1 + 1 + |d.name|;
    var p3 := p2 + 1 + n;
    var p4 := p3 + 1 + |d.sfunc|;
    var p5 := p4 + 1 + |d.stype|;
    && Text1At(data, 0, d.schemaName) && Text1At(data, p1, d.name)
    && p2 < |data| && data[p2] == n % 0x100 && (forall i :: 0 <= i < n ==> TypeAt(data, p2 + 1 + i, d.argTypes[i]))
    && Text1At(data, p3, d.sfunc) && Text1At(data, p4, d.stype) && Text1At(data, p5, fin)
    && |data| == p5 + 2 + |fin| && data[|data| - 1] == 1
  }

  lemma {:induction false} TagLayout(data: bytes, pos: nat, t: DataType)
    requires Has(data, pos, [TypeTag(t)])
    ensures TypeAt(data, pos, t)
  {
    ReadU8Has(data, pos, TypeTag(t));
  }

  /** A tag decodes to the type listed for it, and to nothing outside 1 to 22. */
  lemma {:induction false} TagsRead(tag: u8)
    ensures TypeOf(tag).Ok? <==> 1 <= tag <= 22
    ensures 1 <= tag <= 22 ==> TypeOf(tag) == Ok(TYPES[tag - 1])
  {
  }

  lemma {:induction false} TagsLayout(data: bytes, pos: nat, ts: seq<DataType>)
    requires Has(data, pos, PrintTags(ts))
    ensures forall i :: 0 <= i < |ts| ==> TypeAt(data, pos + i, ts[i])
  {
    hide Has, TypeTag, TypeAt;
    if ts != [] {
      var init, t := ts[..|ts| - 1], ts[|ts| - 1];
      HasConcat(data, pos, PrintTags(init), [TypeTag(t)]);
      TagsLayout(data, pos, init);
      TagLayout(data, pos + |init|, t);
      assert ts == init + [t];
    }
  }

  lemma {:induction false} HeadLayout(data: bytes, d: AggregateDef, rest: bytes)
    requires Has(data, 0, Str1(d.schemaName) + (Str1(d.name) + ([|d.argTypes| % 0x100] + (PrintTags(d.argTypes) + rest))))
    ensures var n, p1 := |d.argTypes|, 1 + |d.schemaName|;
            var p2 := p1 + 1 + |d.name|;
            && Text1At(data, 0, d.schemaName) && Text1At(data, p1, d.name)
            && p2 < |data| && data[p2] == n % 0x100 && (forall i :: 0 <= i < n ==> TypeAt(data, p2 + 1 + i, d.argTypes[i]))
            && Has(data, p2 + 1 + n, rest)
  {
    hide Has, Str1, PrintTags, Text1At, TypeAt;
    var n, p1 := |d.argTypes|, 1 + |d.schemaName|;
    var p2 := p1 + 1 + |d.name|;
    var r4 := PrintTags(d.argTypes) + rest;
    HasConcat(data, 0, Str1(d.schemaName), Str1(d.name) + ([n % 0x100] + r4));
    HasConcat(data, p1, Str1(d.name), [n % 0x100] + r4);
    HasConcat(data, p2, [n % 0x100], r4);
    HasConcat(data, p2 + 1, PrintTags(d.argTypes), rest);
    Str1At(data, 0, d.schemaName);
    Str1At(data, p1, d.name);
    ReadU8Has(data, p2, n % 0x100);
    TagsLayout(data, p2 + 1, d.argTypes);
  }

  lemma {:induction false} FuncsLayout(data: bytes, p: nat, sfunc: bytes, stype: bytes, fin: bytes)
    requires Has(data, p, Str1(sfunc) + (Str1(stype) + (Str1(fin) + [1])))
    ensures var p4 := p + 1 + |sfunc|;
            var p5 := p4 + 1 + |stype|;
            && Text1At(data, p, sfunc) && Text1At(data, p4, stype) && Text1At(data, p5, fin)
            && p5 + 1 + |fin| < |data| && data[p5 + 1 + |fin|] == 1
  {
    hide Has, Str1, Text1At;
    var p4 := p + 1 + |sfunc|;
    var p5 := p4 + 1 + |stype|;
    var r := Str1(fin) + [1];
    HasConcat(data, p, Str1(sfunc), Str1(stype) + r);
    HasConcat(data, p4, Str1(stype), r);
    HasConcat(data, p5, Str1(fin), [1]);
    Str1At(data, p, sfunc);
    Str1At(data, p4, stype);
    Str1At(data, p5, fin);
    ReadU8Has(data, p5 + 1 + |fin|, 1);
  }

  /** Every row written is laid out so. */
  lemma {:induction false} EncodeLayout(d: AggregateDef)
    ensures Layout(Encode(d), d)
  {
    hide Has, Str1, PrintTags, Text1At, TypeAt;
    var e, fin := Encode(d), FinalBytes(d);
    HasAll(e, e);
    HeadLayout(e, d, Str1(d.sfunc) + (Str1(d.stype) + (Str1(fin) + [1])));
    FuncsLayout(e, 3 + |d.schemaName| + |d.name| + |d.argTypes|, d.sfunc, d.stype, fin);
  }

  /** Which definitions are normal: none of the lossy types but in the form they read back
      as, and no empty final function. */
  lemma {:induction false} NormalIff(d: AggregateDef)
    ensures Normalise(d) == d
       <==> && d.finalfunc != Some([])
            && forall i :: 0 <= i < |d.argTypes| ==> d.argTypes[i] in TYPES
  {
    hide TYPES;
    forall i | 0 <= i < |d.argTypes| ensures NormalType(d.argTypes[i]) == d.argTypes[i] <==> d.argTypes[i] in TYPES {
      NormalTypeIff(d.argTypes[i]);
    }
    if forall i :: 0 <= i < |d.argTypes| ==> d.argTypes[i] in TYPES {
      assert NormalTypes(d.argTypes) == d.argTypes;
    }
    if Normalise(d) == d {
      forall i | 0 <= i < |d.argTypes| ensures d.argTypes[i] in TYPES {
        assert NormalTypes(d.argTypes)[i] == d.argTypes[i];
      }
    }
  }

  lemma {:induction false} NormalTypeIff(t: DataType)
    ensures NormalType(t) == t <==> t in TYPES
  {
    TagsRead(TypeTag(t));
    NormalTypeKeepsTag(t);
    assert NormalType(t) == TYPES[TypeTag(t) - 1];
    if t in TYPES {
      var i :| 0 <= i < |TYPES| && TYPES[i] == t;
    }
  }
}
