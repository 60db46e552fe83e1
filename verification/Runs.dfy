/** Whole runs of bootstrap calls, each of which may stop at any storage call, and
    of row inserts by the catalog writer in between. */
module Runs {
  import opened Bytes
  import opened MetaPage
  import opened StorageEngine
  import opened Namespaces
  import opened Bootstrap
  import L = Lists

  datatype Call =
    | CallInit(ids: Result<PageIds, DbError>)
    | CallEnsureDatabases(ids: Result<PageIds, DbError>)
    | CallEnsureRoot(slot: Slot, root: Result<u64, DbError>)
    | InsertRow(page: u64, row: HeapRow)

  /** The single-root calls assume that the catalog was initialised. */
  ghost predicate Step(c: Call, s: Store, s': Store) {
    match c
    case CallInit(ids) => InitStep(s, s', ids)
    case CallEnsureDatabases(ids) => EnsureStep(s, s', ids)
    case CallEnsureRoot(slot, root) => Version(s.meta) > 0 && EnsureRootStep(s, s', slot, root)
    case InsertRow(p, row) =>
      && row.created > 0 && p in s.heaps && s.pages <= s'.pages
      && s'.meta == s.meta && s'.heaps == s.heaps[p := s.heaps[p] + [row]]
  }

  ghost predicate Run(calls: seq<Call>, states: seq<Store>) {
    && |states| == |calls| + 1
    && Valid(states[0])
    && forall i :: 0 <= i < |calls| ==> Step(calls[i], states[i], states[i + 1])
  }

  /** A database file before its first `init`. */
  ghost predicate Blank(s: Store) {
    && 0 in s.pages && s.heaps.Keys <= s.pages
    && Version(s.meta) == 0 && forall t :: Root(s.meta, t) == 0
  }

  /** Roots are never changed or lost, and new ones lie on pages that were free. */
  ghost predicate RootsKept(s: Store, s': Store) {
    && s.pages <= s'.pages
    && (Version(s.meta) > 0 ==> Version(s'.meta) == Version(s.meta))
    && forall t :: if Root(s.meta, t) != 0 then Root(s'.meta, t) == Root(s.meta, t)
                   else Root(s'.meta, t) == 0 || Root(s'.meta, t) !in s.pages
  }

  /** The rows the bootstrap itself wrote into a root's heap. */
  function SystemRows(rows: seq<HeapRow>): (r: seq<HeapRow>) {
    L.Filter(IsSystem(), rows)
  }

  function IsSystem(): HeapRow -> bool {
    (row: HeapRow) => row.created == 0
  }

  ghost predicate SeededOnce(s: Store) {
    forall t :: Root(s.meta, t) != 0 && Root(s.meta, t) in s.heaps ==>
                  var sys := SystemRows(s.heaps[Root(s.meta, t)]);
                  sys == [] || sys == Seed(t)
  }

  // ---------------------------------------------------------------------------
  // One step

  lemma {:induction false} PartialKeeps(s: Store, s': Store, todo: set<Slot>)
    requires Valid(s) && Partial(s, s', todo)
    requires forall t :: t in todo ==> Root(s.meta, t) == 0
    requires Version(s.meta) > 0 ==> Version(s'.meta) == Version(s.meta)
    ensures RootsKept(s, s')
    ensures SeededOnce(s) ==> SeededOnce(s')
  {
    hide Root, Version;
    forall t ensures if Root(s.meta, t) != 0 then Root(s'.meta, t) == Root(s.meta, t)
                     else Root(s'.meta, t) == 0 || Root(s'.meta, t) !in s.pages {
      assert || Root(s'.meta, t) == Root(s.meta, t)
             || (t in todo && (Fresh(s, s', t, []) || Fresh(s, s', t, Seed(t))));
    }
    if SeededOnce(s) {
      forall t | Root(s'.meta, t) != 0 && Root(s'.meta, t) in s'.heaps
        ensures var sys := SystemRows(s'.heaps[Root(s'.meta, t)]); sys == [] || sys == Seed(t) {
        assert || Root(s'.meta, t) == Root(s.meta, t)
               || (t in todo && (Fresh(s, s', t, []) || Fresh(s, s', t, Seed(t))));
        SeedIsSystem(t);
      }
    }
  }

  lemma {:induction false} SeedIsSystem(t: Slot)
    ensures SystemRows(Seed(t)) == Seed(t) && SystemRows([]) == []
  {
    hide EncodeDatabase, EncodeSchema;
    assert Seed(t) != [] ==> Seed(t)[..|Seed(t)| - 1] == [];
  }

  /** The rows the bootstrap writes: the default database without collation, and its
      public schema; nothing in any other table. */
  lemma {:induction false} SeedsAre(t: Slot)
    ensures forall row :: row in Seed(t) ==> row.created == 0 && row.deleted == 0
    ensures t == Databases ==> |Seed(t)| == 1 && DecodeDatabase(Seed(t)[0].data) == Ok(DatabaseDef(Spelled("axiomdb"), None))
    ensures t == Schemas ==> |Seed(t)| == 1 && DecodeSchema(Seed(t)[0].data) == Ok(SchemaDef(Spelled("axiomdb"), Spelled("public")))
    ensures t != Databases && t != Schemas ==> Seed(t) == []
  {
    hide DecodeDatabase, DecodeSchema, EncodeDatabase, EncodeSchema, DEFAULT_DATABASE, PUBLIC, Spelled;
    SeedRowsDecode();
    NamesAre();
  }

  lemma {:induction false} InsertKeeps(s: Store, s': Store, p: u64, row: HeapRow)
    requires Valid(s) && Step(InsertRow(p, row), s, s')
    ensures Valid(s') && RootsKept(s, s')
    ensures SeededOnce(s) ==> SeededOnce(s')
  {
    hide Root, Version;
    var rows := s.heaps[p];
    assert (rows + [row])[..|rows|] == rows;
    assert SystemRows(rows + [row]) == SystemRows(rows);
  }

  lemma {:induction false} SettledAfter(s: Store, s': Store, todo: set<Slot>)
    requires Valid(s) && Partial(s, s', todo) && Version(s.meta) > 0 && Version(s'.meta) == Version(s.meta)
    requires forall t :: t in todo ==> Root(s.meta, t) == 0
    ensures Valid(s')
  {
    hide Root, Version;
    PartialKeeps(s, s', todo);
  }

  lemma {:induction false} EnsureKeeps(s: Store, s': Store, r: Result<PageIds, DbError>)
    requires Valid(s) && EnsureStep(s, s', r)
    ensures Valid(s') && RootsKept(s, s')
    ensures SeededOnce(s) ==> SeededOnce(s')
  {
    hide Root, Version, NextTableId, NextIndexId, Partial, Complete;
    if Version(s.meta) == 0 {
      NothingPartial(s, {});
      PartialKeeps(s, s, {});
    } else {
      var missing := Missing(s, UPGRADABLE);
      if r.Ok? {
        CompleteIsPartial(s, s', missing, missing);
      }
      PartialKeeps(s, s', missing);
      SettledAfter(s, s', missing);
    }
  }

  lemma {:induction false} EnsureRootKeeps(s: Store, s': Store, slot: Slot, r: Result<u64, DbError>)
    requires Valid(s) && Version(s.meta) > 0 && EnsureRootStep(s, s', slot, r)
    ensures Valid(s') && RootsKept(s, s')
    ensures SeededOnce(s) ==> SeededOnce(s')
  {
    hide Root, Version, NextTableId, NextIndexId, Partial, Complete;
    if Root(s.meta, slot) != 0 {
      NothingPartial(s, {});
      PartialKeeps(s, s, {});
    } else {
      if r.Ok? {
        CompleteIsPartial(s, s', {slot}, {});
      }
      PartialKeeps(s, s', {slot});
      SettledAfter(s, s', {slot});
    }
  }

  lemma {:induction false} FreshKeeps(s: Store, s': Store, r: Result<PageIds, DbError>)
    requires Valid(s) && Version(s.meta) == 0 && FreshStep(s, s', r)
    ensures Valid(s') && RootsKept(s, s')
    ensures SeededOnce(s) ==> SeededOnce(s')
  {
    hide Root, Version, NextTableId, NextIndexId, Partial, Complete;
    if r.Ok? {
      CompleteIsPartial(s, s', FRESH_SLOTS, FRESH_SLOTS);
      HeaderFromComplete(s, s');
      PartialKeeps(s, s', FRESH_SLOTS);
      SoundAfter(s, s', FRESH_SLOTS, FRESH_SLOTS);
    } else if s'.meta == s.meta {
      FrameIsPartial(s, s');
      PartialKeeps(s, s', {});
    } else {
      PartialKeeps(s, s', FRESH_SLOTS);
      PartialIsSound(s, s');
    }
  }

  lemma {:induction false} HeaderFromComplete(s: Store, s': Store)
    requires Complete(s, s', FRESH_SLOTS, FRESH_SLOTS)
    ensures forall t :: t in HEADER_SLOTS ==> Root(s'.meta, t) != 0
  {
    hide Root, Frame, Sound, Seed;
    forall t | t in HEADER_SLOTS ensures Root(s'.meta, t) != 0 {
      assert Fresh(s, s', t, Seed(t));
    }
  }

  lemma {:induction false} FrameIsPartial(s: Store, s': Store)
    requires s'.meta == s.meta && Frame(s, s') && Sound(s')
    ensures Partial(s, s', {})
  {
    hide Root;
  }

  lemma {:induction false} PartialIsSound(s: Store, s': Store)
    requires Partial(s, s', FRESH_SLOTS)
    ensures Sound(s')
  {
  }

  lemma {:induction false} StepKeeps(c: Call, s: Store, s': Store)
    requires Valid(s) && Step(c, s, s')
    ensures Valid(s') && RootsKept(s, s')
    ensures SeededOnce(s) ==> SeededOnce(s')
  {
    hide Root, Version, EnsureStep, EnsureRootStep, FreshStep, SeededOnce;
    match c
    case InsertRow(p, row) => InsertKeeps(s, s', p, row);
    case CallEnsureRoot(slot, root) => EnsureRootKeeps(s, s', slot, root);
    case CallEnsureDatabases(ids) => EnsureKeeps(s, s', ids);
    case CallInit(ids) =>
      if Version(s.meta) > 0 && EnsureStep(s, s', ids) {
        EnsureKeeps(s, s', ids);
      } else if Version(s.meta) == 0 && FreshStep(s, s', ids) {
        FreshKeeps(s, s', ids);
      }
  }

  // ---------------------------------------------------------------------------
  // Whole runs

  lemma {:induction false} RootsKeptThen(s: Store, s1: Store, s2: Store)
    requires RootsKept(s, s1) && RootsKept(s1, s2)
    ensures RootsKept(s, s2)
  {
    hide Root, Version;
    forall t ensures if Root(s.meta, t) != 0 then Root(s2.meta, t) == Root(s.meta, t)
                     else Root(s2.meta, t) == 0 || Root(s2.meta, t) !in s.pages {
      assert if Root(s.meta, t) != 0 then Root(s1.meta, t) == Root(s.meta, t)
             else Root(s1.meta, t) == 0 || Root(s1.meta, t) !in s.pages;
      assert if Root(s1.meta, t) != 0 then Root(s2.meta, t) == Root(s1.meta, t)
             else Root(s2.meta, t) == 0 || Root(s2.meta, t) !in s1.pages;
    }
  }

  lemma {:induction false} RootsKeptSame(s: Store)
    ensures RootsKept(s, s)
  {
    hide Root, Version;
  }

  /** Over every run, however often its calls stop half way: the nonzero roots are
      pairwise distinct in every state, and from any state to any later one no
      nonzero root changes and new roots lie on pages that were free. */
  lemma {:induction false} RootsAreStable(calls: seq<Call>, states: seq<Store>, i: nat, j: nat)
    requires Run(calls, states) && i <= j < |states|
    ensures Valid(states[i]) && Valid(states[j]) && RootsKept(states[i], states[j])
    ensures SeededOnce(states[i]) ==> SeededOnce(states[j])
    decreases j
  {
    hide Valid, RootsKept, Step, SeededOnce;
    if i < j {
      RootsAreStable(calls, states, i, j - 1);
      StepKeeps(calls[j - 1], states[j - 1], states[j]);
      RootsKeptThen(states[i], states[j - 1], states[j]);
    } else if i > 0 {
      RootsAreStable(calls, states, i - 1, i - 1);
      StepKeeps(calls[i - 1], states[i - 1], states[i]);
      RootsKeptSame(states[i]);
    } else {
      RootsKeptSame(states[i]);
    }
  }

  /** The roots a successful bootstrap call promises. */
  const PROMISED: set<Slot> := HEADER_SLOTS + UPGRADABLE

  ghost predicate Succeeds(c: Call) {
    (c.CallInit? || c.CallEnsureDatabases?) && c.ids.Ok?
  }

  /** A successful call returns exactly what the meta page now holds, with every
      promised root in place; it changes nothing if they all were already. */
  lemma {:induction false} SuccessMeans(c: Call, s: Store, s': Store)
    requires Valid(s) && Step(c, s, s') && Succeeds(c)
    ensures Version(s'.meta) > 0 && c.ids.value == IdsOf(s'.meta)
    ensures forall t :: t in PROMISED ==> Root(s'.meta, t) != 0
    ensures forall t :: t !in {Constraints, ForeignKeys, Stats, HolidayCalendars, ExchangeRates} ==> Root(s'.meta, t) != 0
    ensures Version(s.meta) == 0 ==> forall t :: t !in {HolidayCalendars, ExchangeRates} <==> Root(s'.meta, t) != 0
    ensures Version(s.meta) > 0 && (forall t :: t in UPGRADABLE ==> Root(s.meta, t) != 0) ==> s' == s
  {
    hide Root, Version, NextTableId, NextIndexId, Complete, Partial;
    if Version(s.meta) > 0 {
      UpgradedRoots(s, s');
      assert (forall t :: t in UPGRADABLE ==> Root(s.meta, t) != 0) ==> Missing(s, UPGRADABLE) == {};
    } else {
      FreshRoots(s, s');
      IdsAre(c.ids.value, s'.meta);
    }
    PromisedAre();
  }

  lemma {:induction false} UpgradedRoots(s: Store, s': Store)
    requires Valid(s) && Version(s.meta) > 0
    requires var missing := Missing(s, UPGRADABLE); Complete(s, s', missing, missing)
    ensures forall t :: t in PROMISED ==> Root(s'.meta, t) != 0
  {
    hide Root, Version, Frame, Sound, Seed;
    var missing := Missing(s, UPGRADABLE);
    forall t | t in PROMISED ensures Root(s'.meta, t) != 0 {
      assert if t in missing then Fresh(s, s', t, Seed(t)) else Root(s'.meta, t) == Root(s.meta, t);
    }
  }

  lemma {:induction false} FreshRoots(s: Store, s': Store)
    requires Valid(s) && Version(s.meta) == 0 && Complete(s, s', FRESH_SLOTS, FRESH_SLOTS)
    ensures forall t :: if t in FRESH_SLOTS then Root(s'.meta, t) != 0 else Root(s'.meta, t) == 0
    ensures forall t :: t in PROMISED ==> t in FRESH_SLOTS
  {
    hide Root, Version, Frame, Sound, Seed;
    forall t ensures if t in FRESH_SLOTS then Root(s'.meta, t) != 0 else Root(s'.meta, t) == 0 {
      assert if t in FRESH_SLOTS then Fresh(s, s', t, Seed(t)) else Root(s'.meta, t) == Root(s.meta, t);
    }
  }

  /** Every root but five is promised, and a fresh bootstrap makes all but two. */
  lemma {:induction false} PromisedAre()
    ensures forall t: Slot :: t in PROMISED <==> t !in {Constraints, ForeignKeys, Stats, HolidayCalendars, ExchangeRates}
    ensures forall t: Slot :: t in FRESH_SLOTS <==> t !in {HolidayCalendars, ExchangeRates}
  {
    forall t: Slot ensures t in PROMISED <==> t !in {Constraints, ForeignKeys, Stats, HolidayCalendars, ExchangeRates} {
      AllSlots(t);
    }
  }

  /** Retried bootstrap: start from a blank file, let any calls stop at any point any
      number of times. After a call that succeeds all promised roots exist and are
      pairwise distinct, every root recorded earlier is still the same, and the
      default database has been seeded at most once. */
  lemma {:induction false} RetriedBootstrap(calls: seq<Call>, states: seq<Store>, k: nat, i: nat)
    requires Run(calls, states) && Blank(states[0])
    requires k < |calls| && Succeeds(calls[k]) && i <= k
    ensures var s := states[k + 1];
            && (forall t :: t !in {Constraints, ForeignKeys, Stats, HolidayCalendars, ExchangeRates} ==> Root(s.meta, t) != 0)
            && (forall t, u :: t in PROMISED && u in PROMISED && t != u ==> Root(s.meta, t) != Root(s.meta, u))
            && (forall t :: Root(states[i].meta, t) != 0 ==> Root(s.meta, t) == Root(states[i].meta, t))
            && Root(s.meta, Databases) in s.heaps
            && AtMostOneSystemRow(s.heaps[Root(s.meta, Databases)])
  {
    hide Root, Version, SystemRows, Step, Valid, RootsKept, SeededOnce, Succeeds;
    var s := states[k + 1];
    BlankIsSeededOnce(states[0]);
    RootsAreStable(calls, states, 0, k + 1);
    RootsAreStable(calls, states, k, k);
    SuccessMeans(calls[k], states[k], s);
    RootsAreStable(calls, states, i, k + 1);
    RootsStay(states[i], s);
    PromisedDistinct(s);
    FewSystemRows(s.heaps[Root(s.meta, Databases)]);
  }

  ghost predicate AtMostOneSystemRow(rows: seq<HeapRow>) {
    forall i, j :: 0 <= i < j < |rows| ==> rows[i].created != 0 || rows[j].created != 0
  }

  lemma {:induction false} FewSystemRows(rows: seq<HeapRow>)
    requires |SystemRows(rows)| <= 1
    ensures AtMostOneSystemRow(rows)
  {
    forall i, j | 0 <= i < j < |rows| ensures rows[i].created != 0 || rows[j].created != 0 {
      var a, b := rows[..i + 1], rows[i + 1..];
      assert rows == a + b && a[i] == rows[i] && b[j - i - 1] == rows[j];
      L.FilterConcat(IsSystem(), a, b);
      SystemRowCounts(a, i);
      SystemRowCounts(b, j - i - 1);
    }
  }

  lemma {:induction false} SystemRowCounts(rows: seq<HeapRow>, i: nat)
    requires i < |rows|
    ensures rows[i].created == 0 ==> |L.Filter(IsSystem(), rows)| > 0
  {
    hide L.Filter;
    L.FilterMembers(IsSystem(), rows);
    assert IsSystem()(rows[i]) ==> rows[i] in L.Filter(IsSystem(), rows);
  }

  lemma {:induction false} BlankIsSeededOnce(s: Store)
    requires Blank(s)
    ensures SeededOnce(s)
  {
    hide Root;
  }

  lemma {:induction false} RootsStay(s: Store, s': Store)
    requires RootsKept(s, s')
    ensures forall t :: Root(s.meta, t) != 0 ==> Root(s'.meta, t) == Root(s.meta, t)
  {
    hide Root, Version;
  }

  lemma {:induction false} PromisedDistinct(s: Store)
    requires Valid(s) && SeededOnce(s) && forall t :: t in PROMISED ==> Root(s.meta, t) != 0
    ensures forall t, u :: t in PROMISED && u in PROMISED && t != u ==> Root(s.meta, t) != Root(s.meta, u)
    ensures Root(s.meta, Databases) in s.heaps && |SystemRows(s.heaps[Root(s.meta, Databases)])| <= 1
  {
    hide Root, Version, SystemRows, Seed, PROMISED;
    DatabasesSeed();
  }

  lemma {:induction false} DatabasesSeed()
    ensures Databases in PROMISED && |Seed(Databases)| == 1
  {
    hide EncodeDatabase;
  }

  // ---------------------------------------------------------------------------
  // What bootstrap calls do to an initialised catalog

  /** Old roots keep their rows; a new root holds nothing or its seed. */
  ghost predicate SlotGrown(s: Store, s': Store, t: Slot) {
    var p, p' := Root(s.meta, t), Root(s'.meta, t);
    if p != 0 then p' == p && p in s.heaps && p in s'.heaps && s'.heaps[p] == s.heaps[p]
    else p' == 0 || (p' in s'.heaps && (s'.heaps[p'] == [] || s'.heaps[p'] == Seed(t)))
  }

  ghost predicate Grown(s: Store, s': Store) {
    forall t :: SlotGrown(s, s', t)
  }

  lemma {:induction false} PartialGrows(s: Store, s': Store, todo: set<Slot>)
    requires Valid(s) && Partial(s, s', todo) && forall t :: t in todo ==> Root(s.meta, t) == 0
    ensures Grown(s, s')
  {
    hide Root, Version, Seed;
    forall t ensures SlotGrown(s, s', t) {
      assert || Root(s'.meta, t) == Root(s.meta, t)
             || (t in todo && (Fresh(s, s', t, []) || Fresh(s, s', t, Seed(t))));
    }
  }

  lemma {:induction false} StepGrows(c: Call, s: Store, s': Store)
    requires Valid(s) && Version(s.meta) > 0 && Step(c, s, s') && !c.InsertRow?
    ensures Grown(s, s')
  {
    hide Root, Version, NextTableId, NextIndexId, Partial, Complete, Grown;
    if c.CallEnsureRoot? {
      if Root(s.meta, c.slot) != 0 {
        NothingPartial(s, {});
        PartialGrows(s, s', {});
      } else {
        if c.root.Ok? {
          CompleteIsPartial(s, s', {c.slot}, {});
        }
        PartialGrows(s, s', {c.slot});
      }
    } else if s' == s {
      GrownSame(s);
    } else {
      var missing := Missing(s, UPGRADABLE);
      if c.ids.Ok? {
        CompleteIsPartial(s, s', missing, missing);
      }
      PartialGrows(s, s', missing);
    }
  }

  lemma {:induction false} GrownThen(s: Store, s1: Store, s2: Store)
    requires Grown(s, s1) && Grown(s1, s2)
    ensures Grown(s, s2)
  {
    hide Root, Seed;
    forall t ensures SlotGrown(s, s2, t) {
      assert SlotGrown(s, s1, t) && SlotGrown(s1, s2, t);
    }
  }

  lemma {:induction false} GrownSame(s: Store)
    requires Valid(s)
    ensures Grown(s, s)
  {
    hide Root, Seed, Version;
  }

  /** Any run of bootstrap calls on an initialised catalog only grows it. */
  lemma {:induction false} RunGrows(calls: seq<Call>, states: seq<Store>, i: nat, j: nat)
    requires Run(calls, states) && i <= j < |states| && Version(states[i].meta) > 0
    requires forall k :: i <= k < j ==> !calls[k].InsertRow?
    ensures Version(states[j].meta) > 0 && Grown(states[i], states[j])
    decreases j - i
  {
    hide Valid, RootsKept, Step, SeededOnce, Version, Grown;
    RootsAreStable(calls, states, i, j);
    StillInitialised(states[i], states[j]);
    if i == j {
      GrownSame(states[i]);
    } else {
      RunGrows(calls, states, i, j - 1);
      RootsAreStable(calls, states, j - 1, j - 1);
      StepGrows(calls[j - 1], states[j - 1], states[j]);
      GrownThen(states[i], states[j - 1], states[j]);
    }
  }

  lemma {:induction false} StillInitialised(s: Store, s': Store)
    requires RootsKept(s, s')
    ensures Version(s.meta) > 0 ==> Version(s'.meta) > 0
  {
    hide Root;
  }

  // ---------------------------------------------------------------------------
  // What a retry does not repair

  ghost predicate SeedPresent(s: Store, t: Slot) {
    var p := Root(s.meta, t);
    p in s.heaps && Seed(t) != [] && Seed(t)[0] in s.heaps[p]
  }

  /** After a successful call, the seed row of the databases (or schemas) heap is
      there exactly when the slot had no root before the call, or had the row. */
  lemma {:induction false} SeedPresentIff(c: Call, s: Store, s': Store, t: Slot)
    requires Valid(s) && Step(c, s, s') && Succeeds(c) && t in SEEDED
    ensures SeedPresent(s', t) <==> Root(s.meta, t) == 0 || SeedPresent(s, t)
  {
    hide Root, Version, NextTableId, NextIndexId, Complete, Partial, SeedPresent, Valid;
    if Version(s.meta) > 0 {
      SeedAfter(s, s', t, Missing(s, UPGRADABLE));
    } else {
      FreshRootsZero(s);
      SeedAfter(s, s', t, FRESH_SLOTS);
    }
  }

  lemma {:induction false} FreshRootsZero(s: Store)
    requires Valid(s) && Version(s.meta) == 0
    ensures forall t :: Root(s.meta, t) == 0
  {
    hide Root, Version;
  }

  lemma {:induction false} SeedAfter(s: Store, s': Store, t: Slot, todo: set<Slot>)
    requires Valid(s) && Complete(s, s', todo, todo) && t in SEEDED
    requires t in todo <==> Root(s.meta, t) == 0
    ensures SeedPresent(s', t) <==> Root(s.meta, t) == 0 || SeedPresent(s, t)
  {
    hide Root, Version, EncodeDatabase, EncodeSchema;
    assert if t in todo then Fresh(s, s', t, Seed(t)) else Root(s'.meta, t) == Root(s.meta, t);
  }

  /** The id counters are usable after a successful call exactly when the catalog was
      not yet initialised before it, or they were usable already. */
  lemma {:induction false} CountersUsableIff(c: Call, s: Store, s': Store)
    requires Valid(s) && Step(c, s, s') && Succeeds(c)
    ensures NextTableId(s'.meta) != 0 <==> Version(s.meta) == 0 || NextTableId(s.meta) != 0
    ensures NextIndexId(s'.meta) != 0 <==> Version(s.meta) == 0 || NextIndexId(s.meta) != 0
  {
    hide Root, Version, NextTableId, NextIndexId, Complete, Partial;
  }

  /** A catalog stopped between recording the databases root and writing its seed. */
  function StoppedUpgrade(s: Store, p: u64): Store {
    Store(PutRoot(s.meta, Databases, p), s.pages + {p}, s.heaps[p := []])
  }

  lemma {:induction false} UpgradeStops(s: Store, p: u64)
    requires Valid(s) && Version(s.meta) > 0 && Root(s.meta, Databases) == 0 && p != 0 && p !in s.pages
    ensures EnsureStep(s, StoppedUpgrade(s, p), Err(Io))
    ensures Version(StoppedUpgrade(s, p).meta) > 0 && Root(StoppedUpgrade(s, p).meta, Databases) == p
  {
    hide Root, Version, NextTableId, NextIndexId, PutRoot, Seed;
    var s1 := StoppedUpgrade(s, p);
    RootRecorded(s, s1, Databases, p);
    CompleteIsPartial(s, s1, {Databases}, {});
    PartialWidens(s, s1, {Databases}, Missing(s, UPGRADABLE));
  }

  /** One step neither adds a system row to a heap that exists nor moves its root. */
  lemma {:induction false} StepAddsNoSystemRow(c: Call, s: Store, s': Store, t: Slot)
    requires Valid(s) && Version(s.meta) > 0 && Step(c, s, s') && Root(s.meta, t) != 0
    ensures var p := Root(s.meta, t);
            && Root(s'.meta, t) == p && p in s.heaps && p in s'.heaps
            && SystemRows(s'.heaps[p]) == SystemRows(s.heaps[p])
            && (!(c.InsertRow? && c.page == p) ==> s'.heaps[p] == s.heaps[p])
  {
    hide Root, Version, Seed;
    if c.InsertRow? {
      var rows := s.heaps[c.page];
      assert (rows + [c.row])[..|rows|] == rows;
    } else {
      hide Step;
      StepGrows(c, s, s');
      assert SlotGrown(s, s', t);
    }
  }

  /** That stop is never repaired: over every run from there, however long, the heap holds
      no row of the bootstrap's, and nothing at all unless the catalog writer puts it
      there. */
  lemma {:induction false} StoppedSeedIsLost(s: Store, p: u64, calls: seq<Call>, states: seq<Store>, j: nat)
    requires Valid(s) && Version(s.meta) > 0 && Root(s.meta, Databases) == 0 && p != 0 && p !in s.pages
    requires Run(calls, states) && states[0] == StoppedUpgrade(s, p) && j < |states|
    ensures EnsureStep(s, states[0], Err(Io))
    ensures Version(states[j].meta) > 0 && Root(states[j].meta, Databases) == p && p in states[j].heaps
    ensures SystemRows(states[j].heaps[p]) == []
    ensures (forall k :: 0 <= k < j ==> !(calls[k].InsertRow? && calls[k].page == p)) ==> states[j].heaps[p] == []
    decreases j
  {
    hide Root, Version, Step, PutRoot, EnsureStep, Valid, RootsKept, SeededOnce;
    UpgradeStops(s, p);
    if j > 0 {
      StoppedSeedIsLost(s, p, calls, states, j - 1);
      RootsAreStable(calls, states, j - 1, j);
      StepAddsNoSystemRow(calls[j - 1], states[j - 1], states[j], Databases);
      StillInitialised(states[j - 1], states[j]);
    }
  }

  lemma {:induction false} StepKeepsCounters(c: Call, s: Store, s': Store)
    requires Version(s.meta) > 0 && Step(c, s, s')
    ensures Version(s'.meta) == Version(s.meta)
    ensures NextTableId(s'.meta) == NextTableId(s.meta) && NextIndexId(s'.meta) == NextIndexId(s.meta)
  {
    hide Root, Version, NextTableId, NextIndexId, Complete, Partial;
  }

  /** A blank file after a bootstrap that stopped right after its header write. */
  function StoppedInit(s: Store, t: u64, c: u64, i: u64): Store {
    Store(PutHeader(s.meta, t, c, i, 1), s.pages + {t} + {c} + {i}, s.heaps[t := []][c := []][i := []])
  }

  lemma {:induction false} InitStops(s: Store, t: u64, c: u64, i: u64)
    requires Blank(s) && t != 0 && c != 0 && i != 0 && t !in s.pages && c !in s.pages && i !in s.pages
    requires t != c && c != i && t != i
    ensures InitStep(s, StoppedInit(s, t, c, i), Err(Io)) && Version(StoppedInit(s, t, c, i).meta) == 1
    ensures NextTableId(StoppedInit(s, t, c, i).meta) == NextTableId(s.meta)
    ensures NextIndexId(StoppedInit(s, t, c, i).meta) == NextIndexId(s.meta)
  {
    hide Root, Version, NextTableId, NextIndexId, PutHeader, Complete, Partial, HeaderDone, Frame, Seed;
    var s1 := StoppedInit(s, t, c, i);
    HeaderRecorded(s, s1, t, c, i);
    PutHeaderFrame(s.meta, t, c, i, 1);
    SoundAfter(s, s1, HEADER_SLOTS, {});
    NothingPartial(s1, {});
    StoppedLater(s, s1, s1, HEADER_SLOTS, {}, {});
  }

  /** Nor are the counters: stopped there, no run ever sets them. */
  lemma {:induction false} StoppedCountersAreLost(s: Store, t: u64, c: u64, i: u64, calls: seq<Call>, states: seq<Store>, j: nat)
    requires Blank(s) && NextTableId(s.meta) == 0 && NextIndexId(s.meta) == 0
    requires t != 0 && c != 0 && i != 0 && t !in s.pages && c !in s.pages && i !in s.pages
    requires t != c && c != i && t != i
    requires Run(calls, states) && states[0] == StoppedInit(s, t, c, i) && j < |states|
    ensures InitStep(s, states[0], Err(Io))
    ensures Version(states[j].meta) == 1 && NextTableId(states[j].meta) == 0 && NextIndexId(states[j].meta) == 0
    decreases j
  {
    hide Version, Step, InitStep, NextTableId, NextIndexId, StoppedInit, Blank;
    InitStops(s, t, c, i);
    if j > 0 {
      StoppedCountersAreLost(s, t, c, i, calls, states, j - 1);
      StepKeepsCounters(calls[j - 1], states[j - 1], states[j]);
    }
  }

  /** Creating a root before the first `init` is not stable: `init` replaces every
      root it creates, so it keeps what was there exactly when nothing was. */
  lemma {:induction false} EarlyRootsAreReplaced(s: Store, s': Store, ids: PageIds)
    requires Sound(s) && Version(s.meta) == 0 && FreshStep(s, s', Ok(ids))
    ensures (forall t :: Root(s.meta, t) != 0 ==> Root(s'.meta, t) == Root(s.meta, t))
       <==> (forall t :: t in FRESH_SLOTS ==> Root(s.meta, t) == 0)
  {
    hide Root, Version, NextTableId, NextIndexId, Seed;
    forall t | t in FRESH_SLOTS ensures Root(s.meta, t) != 0 ==> Root(s'.meta, t) != Root(s.meta, t) {
      assert Fresh(s, s', t, Seed(t));
    }
  }

  /** On a blank file, make the constraints root first and bootstrap next: the root that
      the first call returned is gone. */
  lemma {:induction false} EarlyRootIsLost(s: Store, p: u64, s': Store, ids: PageIds)
    requires Blank(s) && p != 0 && p !in s.pages
    ensures var s1 := Store(PutRoot(s.meta, Constraints, p), s.pages + {p}, s.heaps[p := []]);
            && EnsureRootStep(s, s1, Constraints, Ok(p))
            && (InitStep(s1, s', Ok(ids)) ==> Root(s'.meta, Constraints) != p)
  {
    hide Root, Version, NextTableId, NextIndexId, PutRoot, Complete, Partial, FreshStep, Frame;
    var s1 := Store(PutRoot(s.meta, Constraints, p), s.pages + {p}, s.heaps[p := []]);
    RootRecorded(s, s1, Constraints, p);
    if InitStep(s1, s', Ok(ids)) {
      FreshPage(s1, s', ids, Constraints);
    }
  }

  lemma {:induction false} FreshPage(s: Store, s': Store, ids: PageIds, t: Slot)
    requires FreshStep(s, s', Ok(ids)) && t in FRESH_SLOTS
    ensures Root(s'.meta, t) !in s.pages
  {
    hide Root, Version, NextTableId, NextIndexId, Seed, Frame, Sound;
    assert Fresh(s, s', t, Seed(t));
  }
}
