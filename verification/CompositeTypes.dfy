/** Rows of `axiom_composite_types`. */
module CompositeTypes {
  import opened Bytes

  datatype Field = Field(name: bytes, typeName: bytes)

  datatype CompositeTypeDef = CompositeTypeDef(schemaName: bytes, name: bytes, fields: seq<Field>)

  predicate FieldsFit(fs: seq<Field>) {
    forall i :: 0 <= i < |fs| ==> Fits2(fs[i].name) && Fits2(fs[i].typeName)
  }

  /** The lengths the row format can hold. */
  predicate WithinLimits(d: CompositeTypeDef) {
    Fits1(d.schemaName) && Fits1(d.name) && |d.fields| < 0x1_0000 && FieldsFit(d.fields)
  }

  /** Built from the back, as a loop that appends builds it. */
  function PrintFields(fs: seq<Field>): (b: bytes) {
    if fs == [] then []
    else PrintFields(fs[..|fs| - 1]) + (Str2(fs[|fs| - 1].name) + Str2(fs[|fs| - 1].typeName))
  }

  function Encode(d: CompositeTypeDef): (b: bytes) {
    Str1(d.schemaName) + (Str1(d.name) + (U16(|d.fields| % 0x1_0000) + PrintFields(d.fields)))
  }

  method ToBytes(d: CompositeTypeDef) returns (buf: bytes)
    ensures buf == Encode(d)
    ensures Layout(buf, d)
  {
    EncodeLayout(d);
    hide Layout;
    hide U16;
    buf := [|d.schemaName| % 0x100];
    buf := buf + d.schemaName;
    buf := buf + [|d.name| % 0x100];
    buf := buf + d.name;
    buf := buf + U16(|d.fields| % 0x1_0000);
    buf := AppendFields(buf, d.fields);
  }

  method AppendFields(head: bytes, fs: seq<Field>) returns (buf: bytes)
    ensures buf == head + PrintFields(fs)
  {
    hide U16;
    buf := head;
    for i := 0 to |fs|
      invariant buf == head + PrintFields(fs[..i])
    {
      ghost var before := buf;
      buf := buf + U16(|fs[i].name| % 0x1_0000);
      buf := buf + fs[i].name;
      buf := buf + U16(|fs[i].typeName| % 0x1_0000);
      buf := buf + fs[i].typeName;
      assert buf == before + (Str2(fs[i].name) + Str2(fs[i].typeName));
      PrintFieldsStep(head, fs, i);
    }
    assert fs[..|fs|] == fs;
  }

  lemma {:induction false} PrintFieldsStep(head: bytes, fs: seq<Field>, i: nat)
    requires i < |fs|
    ensures head + PrintFields(fs[..i + 1])
         == head + PrintFields(fs[..i]) + (Str2(fs[i].name) + Str2(fs[i].typeName))
  {
    assert fs[..i + 1][..i] == fs[..i];
  }

  /** The first `n` fields from `pos` and the position after them. */
  function ReadFields(data: bytes, pos: nat, n: nat): (r: Result<(seq<Field>, nat), ParseError>)
    requires pos <= |data|
    ensures r.Ok? ==> |r.value.0| == n && pos <= r.value.1 <= |data|
  {
    if n == 0 then Ok(([], pos))
    else
      var r := ReadFields(data, pos, n - 1);
      if r.Err? then r
      else
        var name := ReadStr2(data, r.value.1);
        if name.Err? then Err(name.error)
        else
          var mid := r.value.1 + |Str2(name.value)|;
          var typeName := ReadStr2(data, mid);
          if typeName.Err? then Err(typeName.error)
          else Ok((r.value.0 + [Field(name.value, typeName.value)], mid + |Str2(typeName.value)|))
  }

  function Decode(data: bytes): (r: Result<(CompositeTypeDef, nat), ParseError>) {
    var schema := ReadStr1(data, 0, 1);
    if schema.Err? then Err(schema.error)
    else
      var p1 := |Str1(schema.value)|;
      var name := ReadStr1(data, p1, 2);
      if name.Err? then Err(name.error)
      else
        var p2 := p1 + |Str1(name.value)|;
        var fields := ReadFields(data, p2 + 2, ToU16(data[p2..p2 + 2]));
        if fields.Err? then Err(fields.error)
        else Ok((CompositeTypeDef(schema.value, name.value, fields.value.0), fields.value.1))
  }

  method FromBytes(data: bytes) returns (r: Result<(CompositeTypeDef, nat), ParseError>)
    ensures r == Decode(data)
    ensures r.Ok? ==> var (d, n) := r.value; WithinLimits(d) && Has(data, 0, Encode(d)) && n == |Encode(d)|
    ensures r.Err? ==> forall d :: WithinLimits(d) ==> !Has(data, 0, Encode(d))
  {
    hide ToU16, ReadStr1, Str1, ReadFields, WithinLimits, Has, Encode;
    DecodeAccepts(data);
    var pos: nat := 0;
    var schema := ReadStr1(data, pos, 1);
    if schema.Err? {
      return Err(schema.error);
    }
    pos := pos + |Str1(schema.value)|;
    var name := ReadStr1(data, pos, 2);
    if name.Err? {
      return Err(name.error);
    }
    pos := pos + |Str1(name.value)|;
    var fieldCount: nat := ToU16(data[pos..pos + 2]);
    pos := pos + 2;
    var fields := ParseFields(data, pos, fieldCount);
    if fields.Err? {
      return Err(fields.error);
    }
    return Ok((CompositeTypeDef(schema.value, name.value, fields.value.0), fields.value.1));
  }

  method ParseFields(data: bytes, start: nat, fieldCount: nat) returns (r: Result<(seq<Field>, nat), ParseError>)
    requires start <= |data|
    ensures r == ReadFields(data, start, fieldCount)
  {
    hide ReadStr2, Str2;
    var pos := start;
    var fields := [];
    for i := 0 to fieldCount
      invariant ReadFields(data, start, i) == Ok((fields, pos))
    {
      var fname := ReadStr2(data, pos);
      if fname.Err? {
        ErrorsStay(data, start, i + 1, fieldCount);
        return Err(fname.error);
      }
      pos := pos + |Str2(fname.value)|;
      var tname := ReadStr2(data, pos);
      if tname.Err? {
        ErrorsStay(data, start, i + 1, fieldCount);
        return Err(tname.error);
      }
      pos := pos + |Str2(tname.value)|;
      fields := fields + [Field(fname.value, tname.value)];
    }
    return Ok((fields, pos));
  }

  lemma {:induction false} ErrorsStay(data: bytes, pos: nat, m: nat, n: nat)
    requires pos <= |data| && m <= n && ReadFields(data, pos, m).Err?
    ensures ReadFields(data, pos, n) == ReadFields(data, pos, m)
  {
    hide ReadStr2, Str2;
    if m < n {
      ErrorsStay(data, pos, m, n - 1);
    }
  }

  /** One more field. */
  lemma {:induction false} ReadFieldsStep(data: bytes, pos: nat, init: seq<Field>, f: Field, mid: nat, end: nat)
    requires pos <= |data| && ReadFields(data, pos, |init|) == Ok((init, mid))
    ensures ReadFields(data, pos, |init| + 1) == Ok((init + [f], end))
       <==> && Fits2(f.name) && Fits2(f.typeName) && Has(data, mid, Str2(f.name) + Str2(f.typeName))
            && end == mid + |Str2(f.name) + Str2(f.typeName)|
  {
    hide Has, Str2, ReadStr2, Fits2;
    HasConcat(data, mid, Str2(f.name), Str2(f.typeName));
    ReadStr2Has(data, mid, f.name);
    ReadStr2Has(data, mid + |Str2(f.name)|, f.typeName);
    var r := ReadFields(data, pos, |init| + 1);
    if r == Ok((init + [f], end)) {
      assert r.value.0[|init|] == f;
    }
  }

  lemma {:induction false} ReadFieldsInit(data: bytes, pos: nat, fs: seq<Field>, end: nat)
    requires pos <= |data| && fs != [] && ReadFields(data, pos, |fs|) == Ok((fs, end))
    ensures var r := ReadFields(data, pos, |fs| - 1); r.Ok? && r.value.0 == fs[..|fs| - 1]
  {
    hide Str2, ReadStr2;
  }

  lemma {:induction false} ReadFieldsHas(data: bytes, pos: nat, fs: seq<Field>, end: nat)
    requires pos <= |data|
    ensures ReadFields(data, pos, |fs|) == Ok((fs, end))
       <==> FieldsFit(fs) && Has(data, pos, PrintFields(fs)) && end == pos + |PrintFields(fs)|
  {
    hide Has, Str2, ReadStr2, Fits2;
    if fs == [] {
      HasNothing(data, pos);
    } else {
      hide ReadFields;
      var init, f := fs[..|fs| - 1], fs[|fs| - 1];
      assert fs == init + [f];
      assert FieldsFit(fs) <==> FieldsFit(init) && Fits2(f.name) && Fits2(f.typeName);
      var mid := pos + |PrintFields(init)|;
      HasConcat(data, pos, PrintFields(init), Str2(f.name) + Str2(f.typeName));
      ReadFieldsHas(data, pos, init, mid);
      if ReadFields(data, pos, |fs|) == Ok((fs, end)) {
        ReadFieldsInit(data, pos, fs, end);
        ReadFieldsHas(data, pos, init, ReadFields(data, pos, |init|).value.1);
      }
      if ReadFields(data, pos, |init|) == Ok((init, mid)) {
        ReadFieldsStep(data, pos, init, f, mid, end);
      }
    }
  }

  /** The decoder returns `d` exactly when the bytes start with the encoding of
      `d` and `d` is within the limits: the format has no second spelling. */
  lemma {:induction false} DecodeExact(data: bytes, d: CompositeTypeDef, n: nat)
    ensures Decode(data) == Ok((d, n))
       <==> WithinLimits(d) && Has(data, 0, Encode(d)) && n == |Encode(d)|
  {
    hide Has, Str1, ReadStr1, Fits1, U16, ToU16, ReadFields, PrintFields, FieldsFit;
    var count := |d.fields| % 0x1_0000;
    var p1 := |Str1(d.schemaName)|;
    var p2 := p1 + |Str1(d.name)|;
    HasConcat(data, 0, Str1(d.schemaName), Str1(d.name) + (U16(count) + PrintFields(d.fields)));
    HasConcat(data, p1, Str1(d.name), U16(count) + PrintFields(d.fields));
    HasConcat(data, p2, U16(count), PrintFields(d.fields));
    ReadStr1Has(data, 0, 1, d.schemaName);
    ReadStr1Has(data, p1, 2, d.name);
    ReadU16Has(data, p2, count);
    if p2 + 2 <= |data| {
      ReadFieldsHas(data, p2 + 2, d.fields, n);
    }
    if Has(data, 0, Encode(d)) {
      HasBound(data, p2, U16(count));
    }
  }

  /** The decoder accepts exactly the bytes that start with the encoding of a definition
      within the limits, and returns that definition and its length. */
  lemma {:induction false} DecodeAccepts(data: bytes)
    ensures Decode(data).Ok? ==>
              var (d, n) := Decode(data).value; WithinLimits(d) && Has(data, 0, Encode(d)) && n == |Encode(d)|
    ensures Decode(data).Err? ==> forall d :: WithinLimits(d) ==> !Has(data, 0, Encode(d))
  {
    hide Encode, Decode, WithinLimits, Has;
    if Decode(data).Ok? {
      DecodeExact(data, Decode(data).value.0, Decode(data).value.1);
    } else {
      forall d | WithinLimits(d) ensures !Has(data, 0, Encode(d)) {
        DecodeExact(data, d, |Encode(d)|);
      }
    }
  }

  /** Encodings are a prefix code: whatever follows one, the decoder stops at its
      end; and it refuses every strict prefix of one. Beyond the limits nothing
      decodes back. */
  lemma {:induction false} PrefixCode(d: CompositeTypeDef, rest: bytes, k: nat)
    requires k < |Encode(d)|
    ensures Decode(Encode(d) + rest) == Ok((d, |Encode(d)|)) <==> WithinLimits(d)
    ensures WithinLimits(d) ==> Decode(Encode(d)[..k]).Err?
  {
    hide Encode, Decode, WithinLimits;
    var e := Encode(d);
    HasPrefix(e + rest, e);
    HasPrefix(e, e);
    DecodeExact(e + rest, d, |e|);
    if WithinLimits(d) && Decode(e[..k]).Ok? {
      var (d', n) := Decode(e[..k]).value;
      DecodeExact(e[..k], d', n);
      HasBound(e[..k], 0, Encode(d'));
      HasExtended(e[..k], 0, Encode(d'), e[k..]);
      assert e == e[..k] + e[k..];
      DecodeExact(e, d', n);
      DecodeExact(e, d, |e|);
    }
  }

  // ---------------------------------------------------------------------------
  // The layout by position

  /** The fields one after the other from `pos` to `end`, name before type. */
  ghost predicate FieldsAt(data: bytes, pos: nat, fs: seq<Field>, end: nat)
    decreases |fs|
  {
    if fs == [] then pos == end
    else
      var mid := pos + 2 + |fs[0].name|;
      && Text2At(data, pos, fs[0].name) && Text2At(data, mid, fs[0].typeName)
      && FieldsAt(data, mid + 2 + |fs[0].typeName|, fs[1..], end)
  }

  ghost predicate Layout(data: bytes, d: CompositeTypeDef) {
    var p := 1 + |d.schemaName|;
    var q := p + 1 + |d.name|;
    && Text1At(data, 0, d.schemaName) && Text1At(data, p, d.name)
    && q + 2 <= |data| && LE(data, q, 2) == |d.fields| % 0x1_0000 && FieldsAt(data, q + 2, d.fields, |data|)
  }

  lemma {:induction false} PrintFieldsFirst(fs: seq<Field>)
    requires fs != []
    ensures PrintFields(fs) == Str2(fs[0].name) + Str2(fs[0].typeName) + PrintFields(fs[1..])
  {
    hide Str2;
    var init := fs[..|fs| - 1];
    if init == [] {
      assert fs[1..] == [];
    } else {
      PrintFieldsFirst(init);
      assert fs[1..][..|fs| - 2] == init[1..];
      var last := Str2(fs[|fs| - 1].name) + Str2(fs[|fs| - 1].typeName);
      assert PrintFields(fs[1..]) == PrintFields(init[1..]) + last;
      assert PrintFields(fs) == Str2(fs[0].name) + Str2(fs[0].typeName) + PrintFields(init[1..]) + last;
    }
  }

  lemma {:induction false} FieldsLayout(data: bytes, pos: nat, fs: seq<Field>)
    requires Has(data, pos, PrintFields(fs))
    ensures FieldsAt(data, pos, fs, pos + |PrintFields(fs)|)
    decreases |fs|
  {
    hide Has, Str2, Text2At, PrintFields;
    if fs == [] {
      NoFields();
    } else {
      var f := fs[0];
      PrintFieldsFirst(fs);
      HasConcat(data, pos, Str2(f.name) + Str2(f.typeName), PrintFields(fs[1..]));
      HasConcat(data, pos, Str2(f.name), Str2(f.typeName));
      Str2At(data, pos, f.name);
      Str2At(data, pos + 2 + |f.name|, f.typeName);
      FieldsLayout(data, pos + 4 + |f.name| + |f.typeName|, fs[1..]);
    }
  }

  lemma {:induction false} NoFields()
    ensures PrintFields([]) == []
  {
  }

  /** Every row written is laid out so: schema before name, then the fields in order. */
  lemma {:induction false} EncodeLayout(d: CompositeTypeDef)
    ensures Layout(Encode(d), d)
  {
    hide Has, Str1, U16, PrintFields, Text1At, FieldsAt, LE;
    var e := Encode(d);
    var n := U16(|d.fields| % 0x1_0000);
    var p := 1 + |d.schemaName|;
    var q := p + 1 + |d.name|;
    HasAll(e, e);
    HasConcat(e, 0, Str1(d.schemaName), Str1(d.name) + (n + PrintFields(d.fields)));
    HasConcat(e, p, Str1(d.name), n + PrintFields(d.fields));
    HasConcat(e, q, n, PrintFields(d.fields));
    Str1At(e, 0, d.schemaName);
    Str1At(e, p, d.name);
    U16At(e, q, |d.fields| % 0x1_0000);
    FieldsLayout(e, q + 2, d.fields);
  }
}
