/** Row visibility and heap scans: the loops every catalog lookup is made of. */
module Scans {
  import opened Bytes
  import opened StorageEngine
  import opened Lists

  datatype Snapshot = Snapshot(snapshotId: u64, currentTxn: u64, activeIds: set<u64>)

  /** Snapshots start at 1, and transaction 0 is never in flight. */
  predicate ValidSnapshot(snap: Snapshot) {
    snap.snapshotId > 0 && 0 !in snap.activeIds
  }

  predicate IsVisible(row: HeapRow, snap: Snapshot) {
    var createdBySelf := snap.currentTxn != 0 && row.created == snap.currentTxn;
    var createdCommitted := row.created < snap.snapshotId && row.created !in snap.activeIds;
    if !createdBySelf && !createdCommitted then false
    else if row.deleted == 0 then true
    else if snap.currentTxn != 0 && row.deleted == snap.currentTxn then false
    else row.deleted >= snap.snapshotId || row.deleted in snap.activeIds
  }

  /** What a snapshot sees of other transactions: its own and those committed before it. */
  predicate Sees(snap: Snapshot, txn: u64) {
    (snap.currentTxn != 0 && txn == snap.currentTxn) || (txn < snap.snapshotId && txn !in snap.activeIds)
  }

  /** A row is visible exactly when its creation is seen and no deletion of it is. */
  lemma {:induction false} VisibleIff(row: HeapRow, snap: Snapshot)
    ensures IsVisible(row, snap) <==> Sees(snap, row.created) && !(row.deleted != 0 && Sees(snap, row.deleted))
  {
  }

  lemma {:induction false} SystemRowsVisible(row: HeapRow, snap: Snapshot)
    requires row.created == 0 && row.deleted == 0 && ValidSnapshot(snap)
    ensures IsVisible(row, snap)
  {
  }

  function Visible(rows: seq<HeapRow>, snap: Snapshot): (r: seq<bytes>) {
    if rows == [] then []
    else Visible(rows[..|rows| - 1], snap) + (if IsVisible(rows[|rows| - 1], snap) then [rows[|rows| - 1].data] else [])
  }

  function VisibleCount(rows: seq<HeapRow>, snap: Snapshot): (n: nat) {
    if rows == [] then 0
    else VisibleCount(rows[..|rows| - 1], snap) + (if IsVisible(rows[|rows| - 1], snap) then 1 else 0)
  }

  /** The data of the visible rows, in their order, none lost or repeated: each visible row
      stands where as many visible rows come before it. */
  ghost predicate ShowsVisible(rows: seq<HeapRow>, snap: Snapshot, data: seq<bytes>) {
    && |data| == VisibleCount(rows, snap)
    && forall i :: 0 <= i < |rows| && IsVisible(rows[i], snap) ==>
                     VisibleCount(rows[..i], snap) < |data| && data[VisibleCount(rows[..i], snap)] == rows[i].data
  }

  lemma {:induction false} VisibleShows(rows: seq<HeapRow>, snap: Snapshot)
    ensures ShowsVisible(rows, snap, Visible(rows, snap))
  {
    hide IsVisible;
    if rows != [] {
      var init := rows[..|rows| - 1];
      VisibleShows(init, snap);
      forall i | 0 <= i < |rows| && IsVisible(rows[i], snap)
        ensures VisibleCount(rows[..i], snap) < |Visible(rows, snap)|
        ensures Visible(rows, snap)[VisibleCount(rows[..i], snap)] == rows[i].data
      {
        assert i < |init| ==> init[i] == rows[i] && init[..i] == rows[..i];
      }
    }
  }

  /** Chains are scanned page by page: a longer chain shows what its parts show. */
  lemma {:induction false} VisibleConcat(a: seq<HeapRow>, b: seq<HeapRow>, snap: Snapshot)
    ensures Visible(a + b, snap) == Visible(a, snap) + Visible(b, snap)
    decreases |b|
  {
    hide IsVisible;
    if b == [] {
      assert a + b == a;
    } else {
      var init := b[..|b| - 1];
      assert (a + b)[..|a + b| - 1] == a + init;
      VisibleConcat(a, init, snap);
    }
  }

  lemma {:induction false} VisibleOne(row: HeapRow, snap: Snapshot)
    ensures Visible([row], snap) == if IsVisible(row, snap) then [row.data] else []
  {
    assert [row][..0] == [];
  }

  /** Root 0 is an empty chain. */
  function Scan(heaps: Heaps, root: u64, snap: Snapshot): (r: Result<seq<bytes>, DbError>) {
    if root == 0 then Ok([])
    else if root in heaps then Ok(Visible(heaps[root], snap))
    else Err(PageNotFound(root))
  }

  method ScanVisible(heaps: Heaps, root: u64, snap: Snapshot) returns (r: Result<seq<bytes>, DbError>)
    ensures r == Scan(heaps, root, snap)
    ensures root == 0 ==> r == Ok([])
    ensures root != 0 && root in heaps ==> r.Ok? && ShowsVisible(heaps[root], snap, r.value)
    ensures root != 0 && root !in heaps ==> r == Err(PageNotFound(root))
  {
    hide ShowsVisible;
    if root == 0 {
      return Ok([]);
    }
    if root !in heaps {
      return Err(PageNotFound(root));
    }
    var rows := heaps[root];
    var result := [];
    for i := 0 to |rows|
      invariant result == Visible(rows[..i], snap)
    {
      assert rows[..i + 1][..i] == rows[..i];
      if IsVisible(rows[i], snap) {
        result := result + [rows[i].data];
      }
    }
    assert rows[..|rows|] == rows;
    VisibleShows(rows, snap);
    return Ok(result);
  }

  type Decoder<T> = bytes -> Result<T, ParseError>

  // ---------------------------------------------------------------------------
  // Lookups that fail on a row they cannot decode

  /** The first row that decodes to a match; a bad row before it is an error. */
  function First<T>(dec: Decoder<T>, p: T -> bool, rows: seq<bytes>): (r: Result<Option<T>, DbError>) {
    if rows == [] then Ok(None)
    else
      var d := dec(rows[0]);
      if d.Err? then Err(Parse(d.error))
      else if p(d.value) then Ok(Some(d.value))
      else First(dec, p, rows[1..])
  }

  /** `r` tells the first row that matches or does not decode, if there is one. */
  ghost predicate TellsFirst<T>(dec: Decoder<T>, p: T -> bool, rows: seq<bytes>, r: Result<Option<T>, DbError>) {
    match r
    case Ok(None) => forall j :: 0 <= j < |rows| ==> Passed(dec, p, rows[j])
    case Ok(Some(v)) =>
      exists i :: 0 <= i < |rows| && dec(rows[i]) == Ok(v) && p(v) && forall j :: 0 <= j < i ==> Passed(dec, p, rows[j])
    case Err(e) =>
      exists i :: && 0 <= i < |rows| && dec(rows[i]).Err? && e == Parse(dec(rows[i]).error)
                  && forall j :: 0 <= j < i ==> Passed(dec, p, rows[j])
  }

  predicate Passed<T>(dec: Decoder<T>, p: T -> bool, row: bytes) {
    dec(row).Ok? && !p(dec(row).value)
  }

  lemma {:induction false} FirstTells<T>(dec: Decoder<T>, p: T -> bool, rows: seq<bytes>)
    ensures TellsFirst(dec, p, rows, First(dec, p, rows))
  {
    if rows != [] {
      var d, rest := dec(rows[0]), rows[1..];
      if d.Ok? && !p(d.value) {
        FirstTells(dec, p, rest);
        var r := First(dec, p, rest);
        assert forall j :: 0 < j < |rows| ==> rows[j] == rest[j - 1];
        if r.Err? {
          var i :| && 0 <= i < |rest| && dec(rest[i]).Err? && r.error == Parse(dec(rest[i]).error)
                   && forall j :: 0 <= j < i ==> Passed(dec, p, rest[j]);
          assert dec(rows[i + 1]).Err?;
        } else if r.value.Some? {
          var i :| && 0 <= i < |rest| && dec(rest[i]) == Ok(r.value.value) && p(r.value.value)
                   && forall j :: 0 <= j < i ==> Passed(dec, p, rest[j]);
          assert dec(rows[i + 1]) == Ok(r.value.value);
        }
      } else {
        assert dec(rows[0]) == d;
      }
    }
  }

  /** All matches in order; any bad row is an error. */
  function All<T>(dec: Decoder<T>, p: T -> bool, rows: seq<bytes>): (r: Result<seq<T>, DbError>) {
    if rows == [] then Ok([])
    else
      var r := All(dec, p, rows[..|rows| - 1]);
      if r.Err? then r
      else
        var d := dec(rows[|rows| - 1]);
        if d.Err? then Err(Parse(d.error))
        else Ok(if p(d.value) then r.value + [d.value] else r.value)
  }

  method FindFirst<T>(dec: Decoder<T>, p: T -> bool, rows: seq<bytes>) returns (r: Result<Option<T>, DbError>)
    ensures r == First(dec, p, rows)
    ensures TellsFirst(dec, p, rows, r)
  {
    hide TellsFirst;
    FirstTells(dec, p, rows);
    for i := 0 to |rows|
      invariant First(dec, p, rows) == First(dec, p, rows[i..])
    {
      assert rows[i..][1..] == rows[i + 1..];
      var d := dec(rows[i]);
      if d.Err? {
        return Err(Parse(d.error));
      }
      if p(d.value) {
        return Ok(Some(d.value));
      }
    }
    return Ok(None);
  }

  method CollectAll<T>(dec: Decoder<T>, p: T -> bool, rows: seq<bytes>) returns (r: Result<seq<T>, DbError>)
    ensures r == All(dec, p, rows)
    ensures if AllDecode(dec, rows) then r == Ok(Filter(p, Decodable(dec, rows))) else r.Err? && FirstBad(dec, rows, r.error)
  {
    hide FirstBad, AllDecode, Filter, Decodable;
    AllMeans(dec, p, rows);
    if All(dec, p, rows).Err? {
      AllFailsFirst(dec, p, rows);
    }
    var result := [];
    for i := 0 to |rows|
      invariant All(dec, p, rows[..i]) == Ok(result)
    {
      assert rows[..i + 1][..i] == rows[..i];
      var d := dec(rows[i]);
      if d.Err? {
        AllErrorsStay(dec, p, rows, i + 1);
        return Err(Parse(d.error));
      }
      if p(d.value) {
        result := result + [d.value];
      }
    }
    assert rows[..|rows|] == rows;
    return Ok(result);
  }

  ghost predicate FirstBad<T>(dec: Decoder<T>, rows: seq<bytes>, e: DbError) {
    exists i :: && 0 <= i < |rows| && dec(rows[i]).Err? && e == Parse(dec(rows[i]).error)
                && forall j :: 0 <= j < i ==> dec(rows[j]).Ok?
  }

  lemma {:induction false} AllFailsFirst<T>(dec: Decoder<T>, p: T -> bool, rows: seq<bytes>)
    requires All(dec, p, rows).Err?
    ensures FirstBad(dec, rows, All(dec, p, rows).error)
  {
    var n := |rows| - 1;
    var init := rows[..n];
    assert forall j :: 0 <= j < n ==> init[j] == rows[j];
    AllMeans(dec, p, init);
    if All(dec, p, init).Err? {
      AllFailsFirst(dec, p, init);
      var e := All(dec, p, init).error;
      var i :| && 0 <= i < |init| && dec(init[i]).Err? && e == Parse(dec(init[i]).error)
               && forall j :: 0 <= j < i ==> dec(init[j]).Ok?;
      assert dec(rows[i]).Err?;
    } else {
      forall j | 0 <= j < n ensures dec(rows[j]).Ok? {
        assert dec(init[j]).Ok?;
      }
      assert dec(rows[n]).Err?;
    }
  }

  lemma {:induction false} AllErrorsStay<T>(dec: Decoder<T>, p: T -> bool, rows: seq<bytes>, m: nat)
    requires m <= |rows| && All(dec, p, rows[..m]).Err?
    ensures All(dec, p, rows) == All(dec, p, rows[..m])
    decreases |rows|
  {
    if m == |rows| {
      assert rows[..m] == rows;
    } else {
      assert rows[..|rows| - 1][..m] == rows[..m];
      AllErrorsStay(dec, p, rows[..|rows| - 1], m);
    }
  }

  // ---------------------------------------------------------------------------
  // Lookups that skip rows they cannot decode

  function Decodable<T>(dec: Decoder<T>, rows: seq<bytes>): (r: seq<T>) {
    if rows == [] then []
    else
      var d, ds := dec(rows[|rows| - 1]), Decodable(dec, rows[..|rows| - 1]);
      if d.Ok? then ds + [d.value] else ds
  }

  method CollectDecodable<T>(dec: Decoder<T>, p: T -> bool, rows: seq<bytes>) returns (r: seq<T>)
    ensures r == Filter(p, Decodable(dec, rows))
  {
    r := [];
    for i := 0 to |rows|
      invariant r == Filter(p, Decodable(dec, rows[..i]))
    {
      assert rows[..i + 1][..i] == rows[..i];
      var d := dec(rows[i]);
      if d.Ok? {
        FilterStep(p, Decodable(dec, rows[..i]), d.value);
        if p(d.value) {
          r := r + [d.value];
        }
      } else {
        assert Decodable(dec, rows[..i + 1]) == Decodable(dec, rows[..i]);
      }
    }
    assert rows[..|rows|] == rows;
  }

  method FindDecodable<T>(dec: Decoder<T>, p: T -> bool, rows: seq<bytes>) returns (r: Option<T>)
    ensures r == FirstOf(p, Decodable(dec, rows))
  {
    for i := 0 to |rows|
      invariant FirstOf(p, Decodable(dec, rows)) == FirstOf(p, Decodable(dec, rows[i..]))
    {
      FirstDecodable(dec, p, rows[i..]);
      assert rows[i..][1..] == rows[i + 1..];
      var d := dec(rows[i]);
      if d.Ok? && p(d.value) {
        return Some(d.value);
      }
    }
    return None;
  }

  lemma {:induction false} FirstDecodable<T>(dec: Decoder<T>, p: T -> bool, rows: seq<bytes>)
    requires rows != []
    ensures FirstOf(p, Decodable(dec, rows))
         == if dec(rows[0]).Ok? && p(dec(rows[0]).value) then Some(dec(rows[0]).value)
            else FirstOf(p, Decodable(dec, rows[1..]))
  {
    hide Decodable;
    DecodableHead(dec, rows);
    var xs, ys := Decodable(dec, rows), Decodable(dec, rows[1..]);
    if dec(rows[0]).Ok? {
      assert xs[1..] == ys;
    } else {
      assert xs == ys;
    }
  }

  /** What decodes of two pieces is what decodes of the first and then of the second. */
  lemma {:induction false} DecodableConcat<T>(dec: Decoder<T>, a: seq<bytes>, b: seq<bytes>)
    ensures Decodable(dec, a + b) == Decodable(dec, a) + Decodable(dec, b)
    decreases |b|
  {
    if b == [] {
      assert a + b == a;
    } else {
      var init := b[..|b| - 1];
      assert (a + b)[..|a + b| - 1] == a + init;
      DecodableConcat(dec, a, init);
    }
  }

  lemma {:induction false} DecodableHead<T>(dec: Decoder<T>, rows: seq<bytes>)
    requires rows != []
    ensures Decodable(dec, rows)
         == (if dec(rows[0]).Ok? then [dec(rows[0]).value] else []) + Decodable(dec, rows[1..])
  {
    var init := rows[..|rows| - 1];
    if init == [] {
      assert rows[1..] == [];
    } else {
      DecodableHead(dec, init);
      assert rows[1..][..|rows| - 2] == init[1..];
      var head := if dec(rows[0]).Ok? then [dec(rows[0]).value] else [];
      var last := if dec(rows[|rows| - 1]).Ok? then [dec(rows[|rows| - 1]).value] else [];
      assert Decodable(dec, rows[1..]) == Decodable(dec, init[1..]) + last;
      assert Decodable(dec, rows) == head + Decodable(dec, init[1..]) + last;
    }
  }

  // ---------------------------------------------------------------------------
  // Both kinds agree when every row decodes

  predicate AllDecode<T>(dec: Decoder<T>, rows: seq<bytes>) {
    forall i :: 0 <= i < |rows| ==> dec(rows[i]).Ok?
  }

  /** A strict listing succeeds exactly when every row decodes, and then it is the
      lenient one. */
  lemma {:induction false} AllMeans<T>(dec: Decoder<T>, p: T -> bool, rows: seq<bytes>)
    ensures All(dec, p, rows).Ok? <==> AllDecode(dec, rows)
    ensures AllDecode(dec, rows) ==> All(dec, p, rows) == Ok(Filter(p, Decodable(dec, rows)))
  {
    if rows != [] {
      var init, d := rows[..|rows| - 1], dec(rows[|rows| - 1]);
      AllMeans(dec, p, init);
      assert rows == init + [rows[|rows| - 1]];
      assert AllDecode(dec, rows) <==> AllDecode(dec, init) && d.Ok?;
      if d.Ok? {
        FilterStep(p, Decodable(dec, init), d.value);
      }
    }
  }

  lemma {:induction false} FirstMeans<T>(dec: Decoder<T>, p: T -> bool, rows: seq<bytes>)
    requires AllDecode(dec, rows)
    ensures First(dec, p, rows) == Ok(FirstOf(p, Decodable(dec, rows)))
  {
    if rows != [] {
      FirstMeans(dec, p, rows[1..]);
      DecodableHead(dec, rows);
      assert Decodable(dec, rows)[1..] == Decodable(dec, rows[1..]);
    }
  }
}
