/** Rows of `axiom_cron_jobs`. */
module CronJobs {
  import opened Bytes

  datatype CronJobDef = CronJobDef(name: bytes, schedule: bytes, command: bytes, databaseName: bytes,
                                   enabled: bool, nextRunMs: i64, lastRunMs: i64, lastStatus: bytes)

  predicate WithinLimits(d: CronJobDef) {
    Fits1(d.name) && Fits1(d.schedule) && Fits2(d.command) && Fits1(d.databaseName) && Fits1(d.lastStatus)
  }

  /** The row of `d` with `flag` as its enabled byte: any nonzero byte reads as enabled. */
  function Print(d: CronJobDef, flag: u8): (b: bytes) {
    Str1(d.name) + (Str1(d.schedule) + (Str2(d.command) + (Str1(d.databaseName) + ([flag]
    + (I64(d.nextRunMs) + (I64(d.lastRunMs) + Str1(d.lastStatus)))))))
  }

  function Encode(d: CronJobDef): (b: bytes) {
    Print(d, if d.enabled then 1 else 0)
  }

  method ToBytes(d: CronJobDef) returns (buf: bytes)
    ensures buf == Encode(d)
    ensures Layout(buf, d)
  {
    EncodeLayout(d);
    hide Layout;
    hide Str1, Str2, I64;
    buf := Str1(d.name);
    buf := buf + Str1(d.schedule);
    buf := buf + Str2(d.command);
    buf := buf + Str1(d.databaseName);
    buf := buf + [if d.enabled then 1 else 0];
    buf := buf + I64(d.nextRunMs);
    buf := buf + I64(d.lastRunMs);
    buf := buf + Str1(d.lastStatus);
  }

  function Decode(data: bytes): (r: Result<(CronJobDef, nat), ParseError>) {
    var name := ReadStr1(data, 0, 0);
    if name.Err? then Err(name.error)
    else
      var p1 := |Str1(name.value)|;
      var schedule := ReadStr1(data, p1, 0);
      if schedule.Err? then Err(schedule.error)
      else
        var p2 := p1 + |Str1(schedule.value)|;
        var command := ReadStr2(data, p2);
        if command.Err? then Err(command.error)
        else
          var p3 := p2 + |Str2(command.value)|;
          var database := ReadStr1(data, p3, 0);
          if database.Err? then Err(database.error)
          else
            var p4 := p3 + |Str1(database.value)|;
            if |data| < p4 + 1 then Err(Truncated)
            else if |data| < p4 + 17 then Err(Truncated)
            else
              var status := ReadStr1(data, p4 + 17, 0);
              if status.Err? then Err(status.error)
              else Ok((CronJobDef(name.value, schedule.value, command.value, database.value, data[p4] != 0,
                                  ToI64(data[p4 + 1..p4 + 9]), ToI64(data[p4 + 9..p4 + 17]), status.value),
                       p4 + 17 + |Str1(status.value)|))
  }

  method FromBytes(data: bytes) returns (r: Result<(CronJobDef, nat), ParseError>)
    ensures r == Decode(data)
    ensures r.Ok? ==> Starts(data, r.value.0, r.value.1)
    ensures r.Err? ==> forall d, n :: !Starts(data, d, n)
  {
    hide Str1, Str2, ReadStr1, ReadStr2, ToI64, Starts;
    DecodeAccepts(data);
    var pos := 0;
    var name := ReadStr1(data, pos, 0);
    if name.Err? {
      return Err(name.error);
    }
    pos := pos + |Str1(name.value)|;
    var schedule := ReadStr1(data, pos, 0);
    if schedule.Err? {
      return Err(schedule.error);
    }
    pos := pos + |Str1(schedule.value)|;
    var command := ReadStr2(data, pos);
    if command.Err? {
      return Err(command.error);
    }
    pos := pos + |Str2(command.value)|;
    var database := ReadStr1(data, pos, 0);
    if database.Err? {
      return Err(database.error);
    }
    pos := pos + |Str1(database.value)|;
    if |data| < pos + 1 {
      return Err(Truncated);
    }
    var enabled := data[pos] != 0;
    pos := pos + 1;
    if |data| < pos + 16 {
      return Err(Truncated);
    }
    var nextRunMs := ToI64(data[pos..pos + 8]);
    pos := pos + 8;
    var lastRunMs := ToI64(data[pos..pos + 8]);
    pos := pos + 8;
    var status := ReadStr1(data, pos, 0);
    if status.Err? {
      return Err(status.error);
    }
    pos := pos + |Str1(status.value)|;
    return Ok((CronJobDef(name.value, schedule.value, command.value, database.value, enabled,
                          nextRunMs, lastRunMs, status.value), pos));
  }

  /** `data` starts with a row of `d`. */
  ghost predicate Starts(data: bytes, d: CronJobDef, n: nat) {
    exists flag: u8 ::
      WithinLimits(d) && Has(data, 0, Print(d, flag)) && n == |Print(d, flag)| && d.enabled == (flag != 0)
  }

  /** The decoder returns `d` exactly when the bytes start with a row of `d`; only
      the enabled byte has more than one spelling. */
  lemma {:induction false} DecodeExact(data: bytes, d: CronJobDef, n: nat)
    ensures Decode(data) == Ok((d, n)) <==> Starts(data, d, n)
  {
    hide Print, Decode, WithinLimits, Has, FlagPos;
    if flag: u8 :|
      WithinLimits(d) && Has(data, 0, Print(d, flag)) && n == |Print(d, flag)| && d.enabled == (flag != 0)
    {
      DecodeOne(data, d, n, flag);
    }
    if Decode(data) == Ok((d, n)) {
      FlagIsRead(data, d, n);
      DecodeOne(data, d, n, data[FlagPos(d)]);
      assert Has(data, 0, Print(d, data[FlagPos(d)]));
    }
  }

  lemma {:induction false} DecodeAccepts(data: bytes)
    ensures Decode(data).Ok? ==> Starts(data, Decode(data).value.0, Decode(data).value.1)
    ensures Decode(data).Err? ==> forall d, n :: !Starts(data, d, n)
  {
    hide Decode, Starts;
    if Decode(data).Ok? {
      DecodeExact(data, Decode(data).value.0, Decode(data).value.1);
    } else {
      forall d, n ensures !Starts(data, d, n) {
        DecodeExact(data, d, n);
      }
    }
  }

  function FlagPos(d: CronJobDef): nat {
    |Str1(d.name)| + |Str1(d.schedule)| + |Str2(d.command)| + |Str1(d.databaseName)|
  }

  lemma {:induction false} FlagIsRead(data: bytes, d: CronJobDef, n: nat)
    requires Decode(data) == Ok((d, n))
    ensures FlagPos(d) < |data| && d.enabled == (data[FlagPos(d)] != 0)
  {
    hide Str1, Str2, ReadStr1, ReadStr2, ToI64;
  }

  lemma {:induction false} DecodeOne(data: bytes, d: CronJobDef, n: nat, flag: u8)
    requires d.enabled == (flag != 0)
    ensures Decode(data) == Ok((d, n)) && FlagPos(d) < |data| && data[FlagPos(d)] == flag
       <==> WithinLimits(d) && Has(data, 0, Print(d, flag)) && n == |Print(d, flag)|
  {
    hide Has, Str1, Str2, ReadStr1, ReadStr2, Fits1, Fits2, I64, ToI64;
    var p1 := |Str1(d.name)|;
    var p2 := p1 + |Str1(d.schedule)|;
    var p3 := p2 + |Str2(d.command)|;
    var p4 := p3 + |Str1(d.databaseName)|;
    var r7 := I64(d.lastRunMs) + Str1(d.lastStatus);
    var r6 := I64(d.nextRunMs) + r7;
    var r5 := [flag] + r6;
    var r4 := Str1(d.databaseName) + r5;
    var r3 := Str2(d.command) + r4;
    HasConcat(data, 0, Str1(d.name), Str1(d.schedule) + r3);
    HasConcat(data, p1, Str1(d.schedule), r3);
    HasConcat(data, p2, Str2(d.command), r4);
    HasConcat(data, p3, Str1(d.databaseName), r5);
    HasConcat(data, p4, [flag], r6);
    HasConcat(data, p4 + 1, I64(d.nextRunMs), r7);
    HasConcat(data, p4 + 9, I64(d.lastRunMs), Str1(d.lastStatus));
    ReadStr1Has(data, 0, 0, d.name);
    ReadStr1Has(data, p1, 0, d.schedule);
    ReadStr2Has(data, p2, d.command);
    ReadStr1Has(data, p3, 0, d.databaseName);
    ReadU8Has(data, p4, flag);
    ReadI64Has(data, p4 + 1, d.nextRunMs);
    ReadI64Has(data, p4 + 9, d.lastRunMs);
    ReadStr1Has(data, p4 + 17, 0, d.lastStatus);
  }

  /** Encodings are a prefix code, and definitions beyond the limits never come back. */
  lemma {:induction false} PrefixCode(d: CronJobDef, rest: bytes, k: nat)
    requires k < |Encode(d)|
    ensures Decode(Encode(d) + rest) == Ok((d, |Encode(d)|)) <==> WithinLimits(d)
    ensures WithinLimits(d) ==> Decode(Encode(d)[..k]).Err?
  {
    hide Print, Decode, WithinLimits;
    var e := Encode(d);
    HasPrefix(e + rest, e);
    HasPrefix(e, e);
    DecodeExact(e + rest, d, |e|);
    if WithinLimits(d) && Decode(e[..k]).Ok? {
      var (d', n) := Decode(e[..k]).value;
      DecodeExact(e[..k], d', n);
      var flag: u8 :| Has(e[..k], 0, Print(d', flag)) && n == |Print(d', flag)| && d'.enabled == (flag != 0);
      HasBound(e[..k], 0, Print(d', flag));
      HasExtended(e[..k], 0, Print(d', flag), e[k..]);
      assert e == e[..k] + e[k..];
      DecodeExact(e, d', n);
      DecodeExact(e, d, |e|);
    }
  }

  // ---------------------------------------------------------------------------
  // The layout by position

  /** Name, schedule, command with a longer length, database, the enabled byte, the next
      and the last run in two's complement, the status. */
  ghost predicate Layout(data: bytes, d: CronJobDef) {
    var p1 := 1 + |d.name|;
    var p2 := p1 + 1 + |d.schedule|;
    var p3 := p2 + 2 + |d.command|;
    var p4 := p3 + 1 + |d.databaseName|;
    && Text1At(data, 0, d.name) && Text1At(data, p1, d.schedule) && Text2At(data, p2, d.command)
    && Text1At(data, p3, d.databaseName)
    && p4 + 17 <= |data| && data[p4] == (if d.enabled then 1 else 0)
    && LE(data, p4 + 1, 8) == Unsigned(d.nextRunMs) && LE(data, p4 + 9, 8) == Unsigned(d.lastRunMs)
    && Text1At(data, p4 + 17, d.lastStatus) && |data| == p4 + 18 + |d.lastStatus|
  }

  function Unsigned(n: i64): nat {
    if n < 0 then n + 0x1_0000_0000_0000_0000 else n
  }

  lemma {:induction false} HeadLayout(data: bytes, d: CronJobDef, rest: bytes)
    requires Has(data, 0, Str1(d.name) + (Str1(d.schedule) + (Str2(d.command) + (Str1(d.databaseName) + rest))))
    ensures var p1 := 1 + |d.name|;
            var p2 := p1 + 1 + |d.schedule|;
            var p3 := p2 + 2 + |d.command|;
            && Text1At(data, 0, d.name) && Text1At(data, p1, d.schedule) && Text2At(data, p2, d.command)
            && Text1At(data, p3, d.databaseName) && Has(data, p3 + 1 + |d.databaseName|, rest)
  {
    hide Has, Str1, Str2, Text1At, Text2At;
    var r4 := Str1(d.databaseName) + rest;
    var r3 := Str2(d.command) + r4;
    var p1 := 1 + |d.name|;
    var p2 := p1 + 1 + |d.schedule|;
    var p3 := p2 + 2 + |d.command|;
    HasConcat(data, 0, Str1(d.name), Str1(d.schedule) + r3);
    HasConcat(data, p1, Str1(d.schedule), r3);
    HasConcat(data, p2, Str2(d.command), r4);
    HasConcat(data, p3, Str1(d.databaseName), rest);
    Str1At(data, 0, d.name);
    Str1At(data, p1, d.schedule);
    Str2At(data, p2, d.command);
    Str1At(data, p3, d.databaseName);
  }

  lemma {:induction false} RunsLayout(data: bytes, p: nat, d: CronJobDef, flag: u8)
    requires Has(data, p, [flag] + (I64(d.nextRunMs) + (I64(d.lastRunMs) + Str1(d.lastStatus))))
    ensures p + 17 <= |data| && data[p] == flag
    ensures LE(data, p + 1, 8) == Unsigned(d.nextRunMs) && LE(data, p + 9, 8) == Unsigned(d.lastRunMs)
    ensures Text1At(data, p + 17, d.lastStatus)
  {
    hide Has, Str1, I64, Text1At, LE;
    var r := I64(d.lastRunMs) + Str1(d.lastStatus);
    HasConcat(data, p, [flag], I64(d.nextRunMs) + r);
    HasConcat(data, p + 1, I64(d.nextRunMs), r);
    HasConcat(data, p + 9, I64(d.lastRunMs), Str1(d.lastStatus));
    ReadU8Has(data, p, flag);
    I64At(data, p + 1, d.nextRunMs);
    I64At(data, p + 9, d.lastRunMs);
    Str1At(data, p + 17, d.lastStatus);
  }

  /** Every row written is laid out so. */
  lemma {:induction false} EncodeLayout(d: CronJobDef)
    ensures Layout(Encode(d), d)
  {
    hide Has, Str1, Str2, I64, Text1At, Text2At, LE, Unsigned;
    var e, flag := Encode(d), if d.enabled then 1 else 0;
    HasAll(e, e);
    HeadLayout(e, d, [flag] + (I64(d.nextRunMs) + (I64(d.lastRunMs) + Str1(d.lastStatus))));
    RunsLayout(e, 5 + |d.name| + |d.schedule| + |d.command| + |d.databaseName|, d, flag);
  }
}
