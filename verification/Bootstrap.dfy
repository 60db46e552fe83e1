/** Catalog bootstrap and upgrade: which roots exist, which a call may create, and
    what a call that stops half way leaves behind. */
module Bootstrap {
  import opened Bytes
  import opened MetaPage
  import opened StorageEngine
  import opened Namespaces
  import L = Lists

  const ALL_SLOTS: set<Slot> :=
    {Tables, Columns, Indexes, Constraints, ForeignKeys, Stats, Databases, TableDatabases, Schemas, Aggregates,
     Sequences, EnumTypes, CronJobs, ForeignServers, ForeignTables, HolidayCalendars, ExchangeRates, CompositeTypes}

  const HEADER_SLOTS: set<Slot> := {Tables, Columns, Indexes}

  /** The roots the upgrade path creates, in its order: three, a check, the rest. */
  const UPGRADE_FIRST: seq<Slot> := [Databases, TableDatabases, Schemas]

  const UPGRADE_REST: seq<Slot> :=
    [Aggregates, Sequences, EnumTypes, CronJobs, ForeignServers, ForeignTables, CompositeTypes]

  const UPGRADABLE: set<Slot> :=
    {Databases, TableDatabases, Schemas, Aggregates, Sequences, EnumTypes, CronJobs, ForeignServers,
     ForeignTables, CompositeTypes}

  /** The roots a fresh `init` creates after the constraints root, in its order. */
  const FRESH_ORDER: seq<Slot> :=
    [ForeignKeys, Stats, Databases, TableDatabases, Schemas, Aggregates, Sequences, EnumTypes, CompositeTypes,
     CronJobs, ForeignServers, ForeignTables]

  /** Everything a fresh `init` creates. */
  const FRESH_SLOTS: set<Slot> := ALL_SLOTS - {HolidayCalendars, ExchangeRates}

  type PageIds = map<Slot, u64>

  function IdsOf(m: Meta): (ids: PageIds)
    ensures ids.Keys == ALL_SLOTS && forall s :: s in ALL_SLOTS ==> ids[s] == Root(m, s)
  {
    map s | s in ALL_SLOTS :: Root(m, s)
  }

  lemma {:induction false} AllSlots(s: Slot)
    ensures s in ALL_SLOTS
  {
  }

  /** The row a root starts out with; written with transaction 0. */
  function Seed(s: Slot): seq<HeapRow> {
    match s
    case Databases => [HeapRow(0, 0, EncodeDatabase(DEFAULT_DATABASE_DEF))]
    case Schemas => [HeapRow(0, 0, EncodeSchema(PUBLIC_SCHEMA_DEF))]
    case _ => []
  }

  // ---------------------------------------------------------------------------
  // What calls keep and what they leave behind

  /** Heaps hang off allocated pages, nonzero roots have heaps, and no two roots
      share one. */
  ghost predicate Sound(s: Store) {
    && 0 in s.pages
    && s.heaps.Keys <= s.pages
    && (forall t :: Root(s.meta, t) != 0 ==> Root(s.meta, t) in s.heaps)
    && (forall t, u :: t != u && Root(s.meta, t) != 0 ==> Root(s.meta, t) != Root(s.meta, u))
  }

  /** The version flag and the roots belong together. */
  ghost predicate Settled(s: Store) {
    if Version(s.meta) == 0 then forall t :: Root(s.meta, t) == 0
    else forall t :: t in HEADER_SLOTS ==> Root(s.meta, t) != 0
  }

  ghost predicate Valid(s: Store) {
    Sound(s) && Settled(s)
  }

  /** Pages are only added, and heaps on old pages are untouched. */
  ghost predicate Frame(s: Store, s': Store) {
    && s.pages <= s'.pages
    && (forall p :: p in s.pages ==> (p in s.heaps <==> p in s'.heaps))
    && (forall p :: p in s.pages && p in s.heaps ==> s'.heaps[p] == s.heaps[p])
  }

  ghost predicate SameFields(s: Store, s': Store) {
    && Version(s'.meta) == Version(s.meta)
    && NextTableId(s'.meta) == NextTableId(s.meta)
    && NextIndexId(s'.meta) == NextIndexId(s.meta)
  }

  /** `t` has a root now, on a page that was free before, holding `rows`. */
  ghost predicate Fresh(s: Store, s': Store, t: Slot, rows: seq<HeapRow>) {
    var p := Root(s'.meta, t);
    p != 0 && p !in s.pages && p in s'.heaps && s'.heaps[p] == rows
  }

  /** Exactly the roots in `todo` were made afresh; those in `seeded` hold their seed. */
  ghost predicate Complete(s: Store, s': Store, todo: set<Slot>, seeded: set<Slot>) {
    && Frame(s, s') && Sound(s')
    && forall t :: if t in todo then Fresh(s, s', t, if t in seeded then Seed(t) else [])
                   else Root(s'.meta, t) == Root(s.meta, t)
  }

  /** Some of the roots in `todo` were made afresh, with or without their seed. */
  ghost predicate Partial(s: Store, s': Store, todo: set<Slot>) {
    && Frame(s, s') && Sound(s')
    && forall t :: || Root(s'.meta, t) == Root(s.meta, t)
                   || (t in todo && (Fresh(s, s', t, []) || Fresh(s, s', t, Seed(t))))
  }

  /** Roots are made in the order of `slots`: where one is made, every earlier slot has
      its root already. */
  ghost predicate InOrder(s: Store, s': Store, slots: seq<Slot>) {
    forall j, k :: 0 <= j < k < |slots| && Root(s'.meta, slots[k]) != Root(s.meta, slots[k]) ==> Root(s'.meta, slots[j]) != 0
  }

  /** The first `i` slots have roots and the others are untouched. */
  ghost predicate MadeUpTo(s: Store, s': Store, slots: seq<Slot>, i: nat) {
    && (forall j :: 0 <= j < i && j < |slots| ==> Root(s'.meta, slots[j]) != 0)
    && (forall k :: i <= k < |slots| ==> Root(s'.meta, slots[k]) == Root(s.meta, slots[k]))
  }

  lemma {:induction false} MadeIsInOrder(s: Store, s': Store, slots: seq<Slot>, i: nat)
    requires MadeUpTo(s, s', slots, i)
    ensures InOrder(s, s', slots)
  {
    hide Root;
  }

  /** Stopped at slot `i`. */
  lemma {:induction false} StoppedInOrder(s: Store, s1: Store, s2: Store, slots: seq<Slot>, i: nat)
    requires i < |slots| && L.Distinct(slots) && MadeUpTo(s, s1, slots, i) && Partial(s1, s2, {slots[i]})
    ensures InOrder(s, s2, slots)
  {
    hide Root, Sound, Frame;
    OthersKept(s1, s2, slots[i]);
  }

  lemma {:induction false} OthersKept(s: Store, s': Store, slot: Slot)
    requires Partial(s, s', {slot})
    ensures forall t :: t != slot ==> Root(s'.meta, t) == Root(s.meta, t)
  {
    hide Root, Sound, Frame, Seed;
    forall t | t != slot ensures Root(s'.meta, t) == Root(s.meta, t) {
      assert || Root(s'.meta, t) == Root(s.meta, t)
             || (t in {slot} && (Fresh(s, s', t, []) || Fresh(s, s', t, Seed(t))));
    }
  }

  lemma {:induction false} NoneMade(s: Store, slots: seq<Slot>)
    ensures MadeUpTo(s, s, slots, 0)
  {
    hide Root;
  }

  lemma {:induction false} MadeOneMore(s: Store, s1: Store, s2: Store, slots: seq<Slot>, i: nat, seeded: set<Slot>)
    requires i < |slots| && L.Distinct(slots) && MadeUpTo(s, s1, slots, i) && Complete(s1, s2, {slots[i]}, seeded)
    ensures MadeUpTo(s, s2, slots, i + 1)
  {
    hide Root, Sound, Frame, Seed;
    assert Fresh(s1, s2, slots[i], if slots[i] in seeded then Seed(slots[i]) else []);
    forall t | t != slots[i] ensures Root(s2.meta, t) == Root(s1.meta, t) {
    }
  }

  /** One list after another. */
  lemma {:induction false} InOrderThen(s: Store, s1: Store, s2: Store, a: seq<Slot>, b: seq<Slot>)
    requires MadeUpTo(s, s1, a, |a|) && InOrder(s1, s2, b)
    requires forall k :: 0 <= k < |a| ==> Root(s2.meta, a[k]) == Root(s1.meta, a[k])
    requires forall k :: 0 <= k < |b| ==> Root(s1.meta, b[k]) == Root(s.meta, b[k])
    ensures InOrder(s, s2, a + b)
  {
    hide Root;
  }

  lemma {:induction false} CompleteIsPartial(s: Store, s': Store, todo: set<Slot>, seeded: set<Slot>)
    requires Complete(s, s', todo, seeded)
    ensures Partial(s, s', todo)
  {
    hide Root, Sound, Seed;
    forall t ensures || Root(s'.meta, t) == Root(s.meta, t)
                     || (t in todo && (Fresh(s, s', t, []) || Fresh(s, s', t, Seed(t)))) {
      assert if t in todo then Fresh(s, s', t, if t in seeded then Seed(t) else [])
             else Root(s'.meta, t) == Root(s.meta, t);
    }
  }

  lemma {:induction false} FreshThen(s: Store, s1: Store, s2: Store, t: Slot, rows: seq<HeapRow>)
    requires Frame(s, s1) && Frame(s1, s2) && Sound(s1)
    requires Fresh(s, s1, t, rows) && Root(s2.meta, t) == Root(s1.meta, t)
    ensures Fresh(s, s2, t, rows)
  {
    hide Root;
  }

  lemma {:induction false} CompleteThenComplete(s: Store, s1: Store, s2: Store, a: set<Slot>, b: set<Slot>, sa: set<Slot>, sb: set<Slot>)
    requires Complete(s, s1, a, sa) && Complete(s1, s2, b, sb)
    requires a !! b && sa <= a && sb <= b
    ensures Complete(s, s2, a + b, sa + sb)
  {
    hide Root, Seed;
    forall t ensures if t in a + b then Fresh(s, s2, t, if t in sa + sb then Seed(t) else [])
                     else Root(s2.meta, t) == Root(s.meta, t) {
      assert if t in a then Fresh(s, s1, t, if t in sa then Seed(t) else [])
             else Root(s1.meta, t) == Root(s.meta, t);
      if t in a {
        FreshThen(s, s1, s2, t, if t in sa then Seed(t) else []);
      }
    }
  }

  lemma {:induction false} CompleteThenPartial(s: Store, s1: Store, s2: Store, a: set<Slot>, b: set<Slot>, sa: set<Slot>)
    requires Complete(s, s1, a, sa) && Partial(s1, s2, b) && a !! b
    ensures Partial(s, s2, a + b)
  {
    hide Root, Seed;
    forall t ensures || Root(s2.meta, t) == Root(s.meta, t)
                     || (t in a + b && (Fresh(s, s2, t, []) || Fresh(s, s2, t, Seed(t)))) {
      assert if t in a then Fresh(s, s1, t, if t in sa then Seed(t) else [])
             else Root(s1.meta, t) == Root(s.meta, t);
      if t in a {
        FreshThen(s, s1, s2, t, if t in sa then Seed(t) else []);
      }
    }
  }

  // ---------------------------------------------------------------------------
  // Creating one root

  /** One block of the source: allocate, write an empty page, record the root. */
  method CreateRoot(st: Storage, slot: Slot) returns (r: Result<u64, DbError>)
    requires Sound(st.View())
    modifies st
    ensures SameFields(old(st.View()), st.View())
    ensures r.Ok? ==> Complete(old(st.View()), st.View(), {slot}, {}) && r.value == Root(st.meta, slot)
    ensures r.Err? ==> Partial(old(st.View()), st.View(), {slot}) && r.error != Internal
    ensures st.failed == (old(st.failed) || r.Err?)
  {
    hide Root, Version, NextTableId, NextIndexId;
    ghost var s := st.View();
    var root := st.AllocPage();
    if root.Err? {
      return Err(root.error);
    }
    var p := root.value;
    var w := st.WriteEmptyPage(p);
    if w.Err? {
      return Err(w.error);
    }
    var m := st.WriteMeta(Offset(slot), U64(p));
    if st.meta == PutRoot(s.meta, slot, p) {
      RootRecorded(s, st.View(), slot, p);
      CompleteIsPartial(s, st.View(), {slot}, {});
    }
    if m.Err? {
      return Err(m.error);
    }
    return Ok(p);
  }

  lemma {:induction false} RootRecorded(s: Store, s': Store, slot: Slot, p: u64)
    requires Sound(s) && p != 0 && p !in s.pages
    requires s' == Store(PutRoot(s.meta, slot, p), s.pages + {p}, s.heaps[p := []])
    ensures SameFields(s, s') && Complete(s, s', {slot}, {}) && Root(s'.meta, slot) == p
  {
    hide Root, PutRoot, Version, NextTableId, NextIndexId, Sound;
    PutRootFrame(s.meta, slot, p);
    RootAdded(s, s', slot, p);
    PageIsFree(s, p);
    assert Fresh(s, s', slot, []);
  }

  lemma {:induction false} PageIsFree(s: Store, p: u64)
    requires Sound(s) && p !in s.pages
    ensures p !in s.heaps
  {
  }

  lemma {:induction false} RootAdded(s: Store, s': Store, slot: Slot, p: u64)
    requires Sound(s) && p != 0 && p !in s.pages
    requires s'.pages == s.pages + {p} && s'.heaps == s.heaps[p := []]
    requires forall t :: Root(s'.meta, t) == if t == slot then p else Root(s.meta, t)
    ensures Sound(s')
  {
    hide Root;
    forall t | Root(s'.meta, t) != 0 ensures Root(s'.meta, t) in s'.heaps {
    }
    forall t, u | t != u && Root(s'.meta, t) != 0 ensures Root(s'.meta, t) != Root(s'.meta, u) {
      assert Root(s.meta, u) != 0 ==> Root(s.meta, u) in s.heaps;
      assert Root(s.meta, t) != 0 ==> Root(s.meta, t) in s.heaps;
    }
  }

  // ---------------------------------------------------------------------------
  // Upgrade path

  method PageIdsOf(st: Storage) returns (r: Result<PageIds, DbError>)
    modifies st`failed
    ensures r.Ok? ==> Version(st.meta) > 0 && r.value == IdsOf(st.meta)
    ensures Version(st.meta) == 0 ==> r.Err?
    ensures r.Err? ==> r.error != Internal
    ensures r.Ok? ==> st.failed == old(st.failed)
    ensures r.Err? ==> st.failed || (Version(st.meta) == 0 && r.error == CatalogNotInitialized)
  {
    hide Root, Version, IdsOf;
    var ver := st.ReadMeta32(SCHEMA_VER_OFFSET);
    if ver.Err? {
      return Err(ver.error);
    }
    VersionAt(st.meta);
    if ver.value == 0 {
      return Err(CatalogNotInitialized);
    }
    var ids: PageIds := map[];
    var todo := ALL_SLOTS;
    while todo != {}
      invariant todo <= ALL_SLOTS && ids.Keys == ALL_SLOTS - todo
      invariant forall s :: s in ids ==> ids[s] == Root(st.meta, s)
      invariant st.failed == old(st.failed)
      decreases |todo|
    {
      var s :| s in todo;
      var root := st.ReadMeta64(Offset(s));
      if root.Err? {
        return Err(root.error);
      }
      RootAt(st.meta, s);
      ids := ids[s := root.value];
      todo := todo - {s};
    }
    IdsAre(ids, st.meta);
    return Ok(ids);
  }

  lemma {:induction false} VersionAt(m: Meta)
    ensures Version(m) == Get32(m, SCHEMA_VER_OFFSET)
  {
  }

  lemma {:induction false} RootAt(m: Meta, s: Slot)
    ensures Root(m, s) == Get64(m, Offset(s))
  {
  }

  lemma {:induction false} IdsAre(ids: PageIds, m: Meta)
    requires ids.Keys == ALL_SLOTS && forall s :: s in ids ==> ids[s] == Root(m, s)
    ensures ids == IdsOf(m)
  {
    hide Root;
  }

  /** Writes the seed row of a root just created, if its slot has one. */
  method SeedRoot(st: Storage, slot: Slot, ghost s: Store, ghost todo: set<Slot>, ghost seeded: set<Slot>)
    returns (r: Result<(), DbError>)
    requires Complete(s, st.View(), todo, seeded) && slot in todo - seeded
    modifies st`heaps, st`pages, st`failed, st`unflushed
    ensures r.Ok? ==> Complete(s, st.View(), todo, seeded + {slot})
    ensures r.Err? ==> r.error != Internal
    ensures r.Err? ==> Complete(s, st.View(), todo, seeded) || Complete(s, st.View(), todo, seeded + {slot})
    ensures st.failed == (old(st.failed) || r.Err?)
  {
    hide Root, EncodeDatabase, EncodeSchema;
    ghost var s1 := st.View();
    assert Fresh(s, s1, slot, []) && Root(s1.meta, slot) in s1.heaps;
    var root := Root(st.meta, slot);
    if slot == Databases {
      r := st.InsertRow(root, EncodeDatabase(DEFAULT_DATABASE_DEF), 0);
    } else if slot == Schemas {
      r := st.InsertRow(root, EncodeSchema(PUBLIC_SCHEMA_DEF), 0);
    } else {
      r := Ok(());
    }
    if st.heaps == s1.heaps[root := Seed(slot)] {
      SeedAdded(s, s1, st.View(), slot, todo, seeded);
    }
    if st.heaps == s1.heaps {
      PagesAdded(s, s1, st.View(), todo, seeded);
    }
  }

  lemma {:induction false} SeedAdded(s: Store, s1: Store, s2: Store, slot: Slot, todo: set<Slot>, seeded: set<Slot>)
    requires Complete(s, s1, todo, seeded) && slot in todo
    requires s2.meta == s1.meta && s1.pages <= s2.pages
    requires s2.heaps == s1.heaps[Root(s1.meta, slot) := Seed(slot)]
    ensures Complete(s, s2, todo, seeded + {slot})
  {
    hide Root, Seed;
    var p := Root(s1.meta, slot);
    assert Fresh(s, s1, slot, if slot in seeded then Seed(slot) else []);
    forall t ensures if t in todo then Fresh(s, s2, t, if t in seeded + {slot} then Seed(t) else [])
                     else Root(s2.meta, t) == Root(s.meta, t) {
      assert if t in todo then Fresh(s, s1, t, if t in seeded then Seed(t) else [])
             else Root(s1.meta, t) == Root(s.meta, t);
    }
  }

  lemma {:induction false} PagesAdded(s: Store, s1: Store, s2: Store, todo: set<Slot>, seeded: set<Slot>)
    requires Complete(s, s1, todo, seeded)
    requires s2.meta == s1.meta && s1.pages <= s2.pages && s2.heaps == s1.heaps
    ensures Complete(s, s2, todo, seeded)
  {
    hide Root, Seed;
    forall t ensures if t in todo then Fresh(s, s2, t, if t in seeded then Seed(t) else [])
                     else Root(s2.meta, t) == Root(s.meta, t) {
      assert if t in todo then Fresh(s, s1, t, if t in seeded then Seed(t) else [])
             else Root(s1.meta, t) == Root(s.meta, t);
    }
  }

  method UpgradeRoot(st: Storage, slot: Slot) returns (r: Result<u64, DbError>)
    requires Sound(st.View())
    modifies st
    ensures SameFields(old(st.View()), st.View())
    ensures r.Ok? ==> Complete(old(st.View()), st.View(), {slot}, {slot}) && r.value == Root(st.meta, slot)
    ensures r.Err? ==> Partial(old(st.View()), st.View(), {slot}) && r.error != Internal
    ensures st.failed == (old(st.failed) || r.Err?)
  {
    hide Root, Version, NextTableId, NextIndexId, Complete, Partial, Sound;
    ghost var s := st.View();
    r := CreateRoot(st, slot);
    if r.Err? {
      return;
    }
    var w := SeedRoot(st, slot, s, {slot}, {});
    assert {} + {slot} == {slot};
    if Complete(s, st.View(), {slot}, {slot}) {
      CompleteIsPartial(s, st.View(), {slot}, {slot});
    } else {
      CompleteIsPartial(s, st.View(), {slot}, {});
    }
    if w.Err? {
      return Err(w.error);
    }
  }

  ghost function Missing(s: Store, todo: set<Slot>): set<Slot> {
    set t | t in todo && Root(s.meta, t) == 0
  }

  ghost function Members(slots: seq<Slot>): set<Slot> {
    set t | t in slots
  }

  /** Creates the missing roots among `slots`, one after the other. */
  method UpgradeRoots(st: Storage, before: PageIds, slots: seq<Slot>) returns (r: Result<PageIds, DbError>)
    requires Sound(st.View()) && before == IdsOf(st.meta)
    requires L.Distinct(slots)
    modifies st
    ensures SameFields(old(st.View()), st.View())
    ensures var missing := Missing(old(st.View()), Members(slots));
            && (r.Ok? ==> Complete(old(st.View()), st.View(), missing, missing) && r.value == IdsOf(st.meta))
            && (r.Err? ==> Partial(old(st.View()), st.View(), missing) && r.error != Internal)
            && (missing == {} ==> st.View() == old(st.View()))
    ensures st.failed == (old(st.failed) || r.Err?)
    ensures InOrder(old(st.View()), st.View(), slots)
    ensures r.Ok? ==> MadeUpTo(old(st.View()), st.View(), slots, |slots|)
  {
    hide Root, Version, NextTableId, NextIndexId, Complete, Partial, Sound, InOrder, MadeUpTo;
    ghost var s := st.View();
    var ids := before;
    NothingDone(s);
    NoneMade(s, slots);
    for i := 0 to |slots|
      invariant SameFields(s, st.View()) && Sound(st.View())
      invariant Complete(s, st.View(), Missing(s, Members(slots[..i])), Missing(s, Members(slots[..i])))
      invariant ids == IdsOf(st.meta) && MadeUpTo(s, st.View(), slots, i)
      invariant Missing(s, Members(slots[..i])) == {} ==> st.View() == s
      invariant st.failed == old(st.failed)
    {
      ghost var done := Missing(s, Members(slots[..i]));
      ghost var s1 := st.View();
      var slot := slots[i];
      AllSlots(slot);
      MissingStep(s, s1, slots, i, done);
      if ids[slot] == 0 {
        var root := UpgradeRoot(st, slot);
        if root.Err? {
          CompleteThenPartial(s, s1, st.View(), done, {slot}, done);
          PartialWidens(s, st.View(), done + {slot}, Missing(s, Members(slots)));
          StoppedInOrder(s, s1, st.View(), slots, i);
          return Err(root.error);
        }
        MadeOneMore(s, s1, st.View(), slots, i, {slot});
        CompleteThenComplete(s, s1, st.View(), done, {slot}, done, {slot});
        IdsUpdated(s1, st.View(), slot);
        ids := ids[slot := root.value];
        CompleteIsSound(s, st.View(), done + {slot});
      } else {
        AlreadyMade(s, s1, slots, i);
      }
    }
    assert slots[..|slots|] == slots;
    MadeIsInOrder(s, st.View(), slots, |slots|);
    return Ok(ids);
  }

  lemma {:induction false} AlreadyMade(s: Store, s1: Store, slots: seq<Slot>, i: nat)
    requires i < |slots| && MadeUpTo(s, s1, slots, i) && Root(s1.meta, slots[i]) != 0
    ensures MadeUpTo(s, s1, slots, i + 1)
  {
    hide Root;
  }

  lemma {:induction false} NothingDone(s: Store)
    requires Sound(s)
    ensures Complete(s, s, Missing(s, Members([])), Missing(s, Members([])))
  {
    hide Root;
    assert Missing(s, Members([])) == {};
  }

  lemma {:induction false} CompleteIsSound(s: Store, s': Store, done: set<Slot>)
    requires Complete(s, s', done, done)
    ensures Sound(s')
  {
  }

  /** A slot that is still to come has its old root, so whether it is missing can
      be read off the current ids. */
  lemma {:induction false} MissingStep(s: Store, s1: Store, slots: seq<Slot>, i: nat, done: set<Slot>)
    requires i < |slots| && L.Distinct(slots)
    requires done == Missing(s, Members(slots[..i])) && Complete(s, s1, done, done)
    ensures slots[i] !in done && Root(s1.meta, slots[i]) == Root(s.meta, slots[i])
    ensures Missing(s, Members(slots[..i + 1])) == if Root(s.meta, slots[i]) == 0 then done + {slots[i]} else done
    ensures Missing(s, Members(slots[..i + 1])) <= Missing(s, Members(slots))
  {
    hide Root, Frame, Sound, Fresh, Seed;
    assert slots[..i + 1] == slots[..i] + [slots[i]];
  }

  lemma {:induction false} PartialWidens(s: Store, s': Store, a: set<Slot>, b: set<Slot>)
    requires Partial(s, s', a) && a <= b
    ensures Partial(s, s', b)
  {
    hide Root, Frame, Sound, Fresh, Seed;
  }

  lemma {:induction false} IdsUpdated(s: Store, s': Store, slot: Slot)
    requires Complete(s, s', {slot}, {slot})
    ensures IdsOf(s'.meta) == IdsOf(s.meta)[slot := Root(s'.meta, slot)]
  {
    hide Root, Frame, Sound, Fresh, Seed;
    AllSlots(slot);
  }

  /** The upgrade makes the roots it is for in this order ... */
  lemma {:induction false} UpgradeOrder()
    ensures UPGRADE_FIRST + UPGRADE_REST
         == [Databases, TableDatabases, Schemas, Aggregates, Sequences, EnumTypes, CronJobs, ForeignServers, ForeignTables,
             CompositeTypes]
  {
  }

  /** ... and a fresh bootstrap all but two in this one, the first three at once. */
  lemma {:induction false} FreshOrder()
    ensures [Constraints] + FRESH_ORDER
         == [Constraints, ForeignKeys, Stats, Databases, TableDatabases, Schemas, Aggregates, Sequences, EnumTypes,
             CompositeTypes, CronJobs, ForeignServers, ForeignTables]
  {
  }

  /** What `ensure_database_roots` may do, stopped at any point. */
  ghost predicate EnsureStep(s: Store, s': Store, r: Result<PageIds, DbError>) {
    if Version(s.meta) == 0 then
      s' == s && r.Err?
    else
      var missing := Missing(s, UPGRADABLE);
      && SameFields(s, s')
      && (r.Ok? ==> Complete(s, s', missing, missing) && r.value == IdsOf(s'.meta))
      && (r.Err? ==> Partial(s, s', missing) && r.error != Internal)
      && (missing == {} ==> s' == s)
  }

  method EnsureDatabaseRoots(st: Storage) returns (r: Result<PageIds, DbError>)
    requires Sound(st.View())
    modifies st
    ensures EnsureStep(old(st.View()), st.View(), r)
    ensures r.Ok? ==> st.failed == old(st.failed) && !st.unflushed
    ensures r.Err? ==> st.failed || (old(Version(st.meta)) == 0 && r.error == CatalogNotInitialized)
    ensures InOrder(old(st.View()), st.View(), UPGRADE_FIRST + UPGRADE_REST)
  {
    hide Root, Version, NextTableId, NextIndexId, Complete, Partial, Sound, IdsOf, Missing, Members, L.Distinct,
         InOrder, MadeUpTo, UPGRADE_FIRST, UPGRADE_REST;
    ghost var s := st.View();
    ghost var first, rest := Missing(s, Members(UPGRADE_FIRST)), Missing(s, Members(UPGRADE_REST));
    UpgradeSplits(s);
    NothingPartial(s, first + rest);
    UntouchedInOrder(s, s);
    r := PageIdsOf(st);
    if r.Err? {
      return;
    }
    r := UpgradeRoots(st, r.value, UPGRADE_FIRST);
    if r.Err? {
      PartialWidens(s, st.View(), first, first + rest);
      FirstInOrder(s, st.View());
      return;
    }
    ghost var s1 := st.View();
    FirstThreeDone(s, s1);
    if r.value[Databases] == 0 || r.value[TableDatabases] == 0 {
      return Err(Internal);
    }
    CompleteIsSound(s, s1, first);
    r := UpgradeRoots(st, r.value, UPGRADE_REST);
    if r.Err? {
      CompleteThenPartial(s, s1, st.View(), first, rest, first);
      RestInOrder(s, s1, st.View());
      return;
    }
    CompleteIsPartial(s1, st.View(), rest, rest);
    RestInOrder(s, s1, st.View());
    CompleteThenComplete(s, s1, st.View(), first, rest, first, rest);
    var f := st.Flush();
    if f.Err? {
      CompleteIsPartial(s, st.View(), first + rest, first + rest);
      return Err(f.error);
    }
  }

  lemma {:induction false} UntouchedInOrder(s: Store, s': Store)
    requires s'.meta == s.meta
    ensures InOrder(s, s', UPGRADE_FIRST + UPGRADE_REST)
  {
    hide Root;
  }

  lemma {:induction false} FirstInOrder(s: Store, s': Store)
    requires InOrder(s, s', UPGRADE_FIRST) && Partial(s, s', Missing(s, Members(UPGRADE_FIRST)))
    ensures InOrder(s, s', UPGRADE_FIRST + UPGRADE_REST)
  {
    hide Root, Sound, Frame, Seed;
    assert UPGRADE_FIRST + UPGRADE_REST == UPGRADE_FIRST + UPGRADE_REST;
    forall k | 0 <= k < |UPGRADE_REST| ensures Root(s'.meta, UPGRADE_REST[k]) == Root(s.meta, UPGRADE_REST[k]) {
      assert UPGRADE_REST[k] !in {Databases, TableDatabases, Schemas};
      var t := UPGRADE_REST[k];
      assert || Root(s'.meta, t) == Root(s.meta, t)
             || (t in Missing(s, Members(UPGRADE_FIRST)) && (Fresh(s, s', t, []) || Fresh(s, s', t, Seed(t))));
    }
  }

  lemma {:induction false} RestInOrder(s: Store, s1: Store, s2: Store)
    requires var first := Missing(s, Members(UPGRADE_FIRST)); Complete(s, s1, first, first)
    requires MadeUpTo(s, s1, UPGRADE_FIRST, |UPGRADE_FIRST|)
    requires Partial(s1, s2, Missing(s1, Members(UPGRADE_REST))) && InOrder(s1, s2, UPGRADE_REST)
    ensures InOrder(s, s2, UPGRADE_FIRST + UPGRADE_REST)
  {
    hide Root, Sound, Frame, Seed;
    forall k | 0 <= k < |UPGRADE_FIRST| ensures Root(s2.meta, UPGRADE_FIRST[k]) == Root(s1.meta, UPGRADE_FIRST[k]) {
      var t := UPGRADE_FIRST[k];
      assert t !in Members(UPGRADE_REST);
      assert || Root(s2.meta, t) == Root(s1.meta, t)
             || (t in Missing(s1, Members(UPGRADE_REST)) && (Fresh(s1, s2, t, []) || Fresh(s1, s2, t, Seed(t))));
    }
    forall k | 0 <= k < |UPGRADE_REST| ensures Root(s1.meta, UPGRADE_REST[k]) == Root(s.meta, UPGRADE_REST[k]) {
      assert UPGRADE_REST[k] !in Members(UPGRADE_FIRST);
    }
    InOrderThen(s, s1, s2, UPGRADE_FIRST, UPGRADE_REST);
  }

  lemma {:induction false} UpgradeSplits(s: Store)
    ensures Missing(s, Members(UPGRADE_FIRST)) + Missing(s, Members(UPGRADE_REST)) == Missing(s, UPGRADABLE)
    ensures Missing(s, Members(UPGRADE_FIRST)) !! Missing(s, Members(UPGRADE_REST))
    ensures L.Distinct(UPGRADE_FIRST) && L.Distinct(UPGRADE_REST)
  {
    hide Root;
    assert Members(UPGRADE_FIRST) == {Databases, TableDatabases, Schemas};
    assert Members(UPGRADE_REST) == UPGRADABLE - {Databases, TableDatabases, Schemas};
  }

  /** The check in the middle of the upgrade cannot fail. */
  lemma {:induction false} FirstThreeDone(s: Store, s1: Store)
    requires var first := Missing(s, Members(UPGRADE_FIRST)); Complete(s, s1, first, first)
    ensures Root(s1.meta, Databases) != 0 && Root(s1.meta, TableDatabases) != 0
    ensures Missing(s1, Members(UPGRADE_REST)) == Missing(s, Members(UPGRADE_REST))
  {
    hide Root, Frame, Sound, Seed;
    var first := Missing(s, Members(UPGRADE_FIRST));
    UpgradeSplits(s);
    assert Members(UPGRADE_FIRST) == {Databases, TableDatabases, Schemas};
    assert forall t :: t !in first ==> Root(s1.meta, t) == Root(s.meta, t);
    assert Databases in first ==> Fresh(s, s1, Databases, Seed(Databases));
    assert TableDatabases in first ==> Fresh(s, s1, TableDatabases, Seed(TableDatabases));
    assert forall t :: t in Members(UPGRADE_REST) ==> t !in {Databases, TableDatabases, Schemas};
  }

  lemma {:induction false} NothingPartial(s: Store, todo: set<Slot>)
    requires Sound(s)
    ensures Partial(s, s, todo)
  {
    hide Root;
  }

  /** What `ensure_constraints_root` and its eight siblings may do. */
  ghost predicate EnsureRootStep(s: Store, s': Store, slot: Slot, r: Result<u64, DbError>) {
    && SameFields(s, s')
    && (if Root(s.meta, slot) != 0 then
          s' == s && (r.Ok? ==> r.value == Root(s.meta, slot))
        else
          && (r.Ok? ==> Complete(s, s', {slot}, {}) && r.value == Root(s'.meta, slot))
          && (r.Err? ==> Partial(s, s', {slot})))
  }

  method EnsureRoot(st: Storage, slot: Slot) returns (r: Result<u64, DbError>)
    requires Sound(st.View())
    modifies st
    ensures EnsureRootStep(old(st.View()), st.View(), slot, r)
    ensures st.failed == (old(st.failed) || r.Err?)
    ensures r.Ok? && old(Root(st.meta, slot)) == 0 ==> !st.unflushed
  {
    hide Root, Version, NextTableId, NextIndexId, Complete, Partial, Sound;
    ghost var s := st.View();
    NothingPartial(s, {slot});
    var root := st.ReadMeta64(Offset(slot));
    if root.Err? {
      return Err(root.error);
    }
    RootAt(st.meta, slot);
    if root.value != 0 {
      return Ok(root.value);
    }
    r := CreateRoot(st, slot);
    if r.Err? {
      return;
    }
    var f := st.Flush();
    if f.Err? {
      CompleteIsPartial(s, st.View(), {slot}, {});
      return Err(f.error);
    }
  }

  // ---------------------------------------------------------------------------
  // Fresh initialisation

  /** What a fresh `init` may do: nothing recorded yet, or the header recorded and
      some of the other roots with it. */
  ghost predicate FreshStep(s: Store, s': Store, r: Result<PageIds, DbError>) {
    && (r.Ok? ==>
          && Complete(s, s', FRESH_SLOTS, FRESH_SLOTS)
          && Version(s'.meta) == 1 && NextTableId(s'.meta) == 1 && NextIndexId(s'.meta) == 1
          && r.value == IdsOf(s'.meta)[HolidayCalendars := 0][ExchangeRates := 0])
    && (r.Err? ==>
          || (s'.meta == s.meta && Frame(s, s') && Sound(s'))
          || (Version(s'.meta) == 1 && HeaderDone(s, s') && Partial(s, s', FRESH_SLOTS)))
  }

  ghost predicate HeaderDone(s: Store, s': Store) {
    forall t :: t in HEADER_SLOTS ==> Fresh(s, s', t, [])
  }

  /** Allocates the three first roots and records them with the version flag. */
  method InitHeader(st: Storage) returns (r: Result<(), DbError>, t: u64, c: u64, i: u64)
    requires Sound(st.View())
    modifies st
    ensures r.Ok? ==> Complete(old(st.View()), st.View(), HEADER_SLOTS, {}) && Version(st.meta) == 1
    ensures r.Ok? ==> t == Root(st.meta, Tables) && c == Root(st.meta, Columns) && i == Root(st.meta, Indexes)
    ensures r.Err? ==> || (st.meta == old(st.meta) && Frame(old(st.View()), st.View()) && Sound(st.View()))
                       || (Complete(old(st.View()), st.View(), HEADER_SLOTS, {}) && Version(st.meta) == 1)
    ensures st.failed == (old(st.failed) || r.Err?)
  {
    hide Root, Version, NextTableId, NextIndexId, PutHeader, Complete;
    ghost var s := st.View();
    r, t, c, i := AllocThree(st);
    if r.Err? {
      return;
    }
    r := WriteThree(st, t, c, i);
    if r.Err? {
      return;
    }
    r := st.WriteMeta(Offset(Tables), U64(t) + (U64(c) + (U64(i) + U32(1))));
    HeaderBytes(s.meta, t, c, i);
    if st.meta == PutHeader(s.meta, t, c, i, 1) {
      HeaderRecorded(s, st.View(), t, c, i);
    }
  }

  method AllocThree(st: Storage) returns (r: Result<(), DbError>, t: u64, c: u64, i: u64)
    modifies st`pages, st`failed, st`unflushed
    ensures old(st.pages) <= st.pages
    ensures r.Ok? ==>
              && t != 0 && c != 0 && i != 0 && t != c && c != i && t != i
              && t !in old(st.pages) && c !in old(st.pages) && i !in old(st.pages)
              && st.pages == old(st.pages) + {t} + {c} + {i}
    ensures st.failed == (old(st.failed) || r.Err?)
  {
    t, c, i := 0, 0, 0;
    var tables := st.AllocPage();
    if tables.Err? {
      return Err(tables.error), t, c, i;
    }
    var columns := st.AllocPage();
    if columns.Err? {
      return Err(columns.error), t, c, i;
    }
    var indexes := st.AllocPage();
    if indexes.Err? {
      return Err(indexes.error), t, c, i;
    }
    return Ok(()), tables.value, columns.value, indexes.value;
  }

  method WriteThree(st: Storage, t: u64, c: u64, i: u64) returns (r: Result<(), DbError>)
    modifies st`heaps, st`failed, st`unflushed
    ensures r.Ok? ==> st.heaps == old(st.heaps)[t := []][c := []][i := []]
    ensures st.heaps.Keys <= old(st.heaps.Keys) + {t, c, i}
    ensures forall p :: p in old(st.heaps) ==> p in st.heaps && (p in {t, c, i} || st.heaps[p] == old(st.heaps)[p])
    ensures st.failed == (old(st.failed) || r.Err?)
  {
    r := st.WriteEmptyPage(t);
    if r.Err? {
      return;
    }
    r := st.WriteEmptyPage(c);
    if r.Err? {
      return;
    }
    r := st.WriteEmptyPage(i);
  }

  lemma {:induction false} HeaderBytes(m: Meta, t: u64, c: u64, i: u64)
    ensures Overwrite(m, Offset(Tables), U64(t) + (U64(c) + (U64(i) + U32(1)))) == PutHeader(m, t, c, i, 1)
  {
  }

  lemma {:induction false} HeaderRecorded(s: Store, s': Store, t: u64, c: u64, i: u64)
    requires Sound(s) && t != 0 && c != 0 && i != 0 && t !in s.pages && c !in s.pages && i !in s.pages
    requires t != c && c != i && t != i
    requires s' == Store(PutHeader(s.meta, t, c, i, 1), s.pages + {t} + {c} + {i}, s.heaps[t := []][c := []][i := []])
    ensures Complete(s, s', HEADER_SLOTS, {}) && Version(s'.meta) == 1
    ensures t == Root(s'.meta, Tables) && c == Root(s'.meta, Columns) && i == Root(s'.meta, Indexes)
  {
    hide Root, PutHeader, Version, NextTableId, NextIndexId, Seed;
    PutHeaderFrame(s.meta, t, c, i, 1);
    forall a, b | a != b && Root(s'.meta, a) != 0 ensures Root(s'.meta, a) != Root(s'.meta, b) {
      assert a !in HEADER_SLOTS ==> Root(s.meta, a) in s.heaps;
      assert b !in HEADER_SLOTS && Root(s.meta, b) != 0 ==> Root(s.meta, b) in s.heaps;
    }
  }

  /** Creates roots unconditionally, one after the other. */
  method CreateRoots(st: Storage, slots: seq<Slot>) returns (r: Result<PageIds, DbError>)
    requires Sound(st.View())
    requires L.Distinct(slots)
    modifies st
    ensures SameFields(old(st.View()), st.View())
    ensures r.Ok? ==> Complete(old(st.View()), st.View(), Members(slots), {})
    ensures r.Ok? ==> r.value.Keys == Members(slots) && forall t :: t in r.value ==> r.value[t] == Root(st.meta, t)
    ensures r.Err? ==> Partial(old(st.View()), st.View(), Members(slots))
    ensures st.failed == (old(st.failed) || r.Err?)
    ensures InOrder(old(st.View()), st.View(), slots)
  {
    hide Root, Version, NextTableId, NextIndexId, Complete, Partial, Sound, InOrder, MadeUpTo;
    ghost var s := st.View();
    NothingCreated(s);
    NoneMade(s, slots);
    var ids: PageIds := map[];
    for i := 0 to |slots|
      invariant SameFields(s, st.View()) && Sound(st.View())
      invariant Complete(s, st.View(), Members(slots[..i]), {}) && MadeUpTo(s, st.View(), slots, i)
      invariant ids.Keys == Members(slots[..i]) && forall t :: t in ids ==> ids[t] == Root(st.meta, t)
      invariant st.failed == old(st.failed)
    {
      ghost var s1 := st.View();
      ghost var done := Members(slots[..i]);
      assert slots[i] !in done && Members(slots[..i + 1]) == done + {slots[i]} by {
        assert slots[..i + 1] == slots[..i] + [slots[i]];
      }
      var root := CreateRoot(st, slots[i]);
      if root.Err? {
        CompleteThenPartial(s, s1, st.View(), done, {slots[i]}, {});
        PartialWidens(s, st.View(), done + {slots[i]}, Members(slots));
        StoppedInOrder(s, s1, st.View(), slots, i);
        return Err(root.error);
      }
      MadeOneMore(s, s1, st.View(), slots, i, {});
      ghost var none: set<Slot> := {};
      assert none + none == none;
      CompleteThenComplete(s, s1, st.View(), done, {slots[i]}, none, none);
      SoundAfter(s, st.View(), done + {slots[i]}, {});
      RestKept(s1, st.View(), {slots[i]});
      ids := ids[slots[i] := root.value];
    }
    assert slots[..|slots|] == slots;
    MadeIsInOrder(s, st.View(), slots, |slots|);
    return Ok(ids);
  }

  lemma {:induction false} NothingCreated(s: Store)
    requires Sound(s)
    ensures Complete(s, s, Members([]), {})
  {
    hide Root;
  }

  lemma {:induction false} SoundAfter(s: Store, s': Store, done: set<Slot>, seeded: set<Slot>)
    requires Complete(s, s', done, seeded)
    ensures Sound(s') && Frame(s, s')
  {
  }

  /** A stop after the header is recorded: the header stays, the rest is partial. */
  lemma {:induction false} StoppedLater(s: Store, s1: Store, s2: Store, a: set<Slot>, b: set<Slot>, sa: set<Slot>)
    requires Complete(s, s1, a, sa) && Partial(s1, s2, b)
    requires HEADER_SLOTS <= a && a !! b && sa !! HEADER_SLOTS && a + b <= FRESH_SLOTS
    ensures HeaderDone(s, s2) && Partial(s, s2, FRESH_SLOTS)
  {
    hide Root, Seed;
    CompleteThenPartial(s, s1, s2, a, b, sa);
    PartialWidens(s, s2, a + b, FRESH_SLOTS);
    forall t | t in HEADER_SLOTS ensures Fresh(s, s2, t, []) {
      assert Fresh(s, s1, t, if t in sa then Seed(t) else []);
      FreshThen(s, s1, s2, t, []);
    }
  }

  lemma {:induction false} CounterWritten(s: Store, s1: Store, s2: Store, todo: set<Slot>, off: nat)
    requires Complete(s, s1, todo, {})
    requires off == NEXT_TABLE_ID_OFFSET || off == NEXT_INDEX_ID_OFFSET
    requires s2 == s1.(meta := Overwrite(s1.meta, off, U32(1)))
    ensures Complete(s, s2, todo, {}) && Version(s2.meta) == Version(s1.meta)
    ensures NextTableId(s2.meta) == (if off == NEXT_TABLE_ID_OFFSET then 1 else NextTableId(s1.meta))
    ensures NextIndexId(s2.meta) == (if off == NEXT_INDEX_ID_OFFSET then 1 else NextIndexId(s1.meta))
    ensures forall t :: Root(s2.meta, t) == Root(s1.meta, t)
  {
    hide Root, Version, NextTableId, NextIndexId, Overwrite, Seed;
    PutCounterFrame(s1.meta, off, 1);
  }

  /** Sets both id counters to 1. */
  method InitCounters(st: Storage, ghost s: Store, ghost todo: set<Slot>) returns (r: Result<(), DbError>)
    requires Complete(s, st.View(), todo, {})
    modifies st`meta, st`failed, st`unflushed
    ensures Complete(s, st.View(), todo, {}) && Version(st.meta) == old(Version(st.meta))
    ensures forall t :: Root(st.meta, t) == old(Root(st.meta, t))
    ensures r.Ok? ==> NextTableId(st.meta) == 1 && NextIndexId(st.meta) == 1
    ensures st.failed == (old(st.failed) || r.Err?)
  {
    hide Root, Version, NextTableId, NextIndexId, Overwrite, Complete;
    ghost var s1 := st.View();
    r := st.WriteMeta(NEXT_TABLE_ID_OFFSET, U32(1));
    if st.meta != s1.meta || r.Ok? {
      CounterWritten(s, s1, st.View(), todo, NEXT_TABLE_ID_OFFSET);
    }
    if r.Err? {
      return;
    }
    ghost var s2 := st.View();
    r := st.WriteMeta(NEXT_INDEX_ID_OFFSET, U32(1));
    if st.meta != s2.meta || r.Ok? {
      CounterWritten(s, s2, st.View(), todo, NEXT_INDEX_ID_OFFSET);
    }
  }

  const SEEDED: set<Slot> := {Databases, Schemas}

  lemma {:induction false} SeedsAreAll(s: Store, s': Store)
    requires Complete(s, s', FRESH_SLOTS, SEEDED)
    ensures Complete(s, s', FRESH_SLOTS, FRESH_SLOTS)
  {
    hide Root, Frame, Sound, Fresh, EncodeDatabase, EncodeSchema;
    forall t ensures if t in FRESH_SLOTS then Fresh(s, s', t, if t in FRESH_SLOTS then Seed(t) else [])
                     else Root(s'.meta, t) == Root(s.meta, t) {
      assert if t in FRESH_SLOTS then Fresh(s, s', t, if t in SEEDED then Seed(t) else [])
             else Root(s'.meta, t) == Root(s.meta, t);
    }
  }

  method InitFresh(st: Storage) returns (r: Result<PageIds, DbError>)
    requires Sound(st.View())
    modifies st
    ensures FreshStep(old(st.View()), st.View(), r)
    ensures st.failed == (old(st.failed) || r.Err?)
    ensures r.Ok? ==> !st.unflushed
  {
    hide Root, Version, NextTableId, NextIndexId, Complete, Partial, Sound, Frame, IdsOf, HeaderDone;
    ghost var s := st.View();
    var h, t, c, i := InitHeader(st);
    if h.Err? {
      if Complete(s, st.View(), HEADER_SLOTS, {}) {
        SoundAfter(s, st.View(), HEADER_SLOTS, {});
        NothingPartial(st.View(), {});
        StoppedLater(s, st.View(), st.View(), HEADER_SLOTS, {}, {});
      }
      return Err(h.error);
    }
    var rest := InitRest(st, s);
    if rest.Err? {
      return Err(rest.error);
    }
    var ids := rest.value[Tables := t][Columns := c][Indexes := i][HolidayCalendars := 0][ExchangeRates := 0];
    FreshIds(ids, st.meta);
    return Ok(ids);
  }

  /** Everything after the header: the other roots, the counters, the seeds. */
  method InitRest(st: Storage, ghost s: Store) returns (r: Result<PageIds, DbError>)
    requires Complete(s, st.View(), HEADER_SLOTS, {}) && Version(st.meta) == 1
    modifies st
    ensures Version(st.meta) == 1
    ensures r.Ok? ==>
              && Complete(s, st.View(), FRESH_SLOTS, FRESH_SLOTS)
              && NextTableId(st.meta) == 1 && NextIndexId(st.meta) == 1
              && (forall t :: t in HEADER_SLOTS ==> Root(st.meta, t) == old(Root(st.meta, t)))
              && r.value.Keys == FRESH_SLOTS - HEADER_SLOTS
              && (forall t :: t in r.value ==> r.value[t] == Root(st.meta, t))
    ensures r.Err? ==> HeaderDone(s, st.View()) && Partial(s, st.View(), FRESH_SLOTS)
    ensures InOrder(old(st.View()), st.View(), [Constraints] + FRESH_ORDER)
    ensures st.failed == (old(st.failed) || r.Err?)
    ensures r.Ok? ==> !st.unflushed
  {
    hide Root, Version, NextTableId, NextIndexId, Complete, Partial, HeaderDone, InOrder;
    ghost var s1 := st.View();
    r := InitRoots(st, s);
    if r.Err? {
      return;
    }
    ghost var s2 := st.View();
    var seeds := SeedFresh(st, s);
    SameMetaInOrder(s1, s2, st.View());
    if seeds.Err? {
      return Err(seeds.error);
    }
    SeedsAreAll(s, st.View());
  }

  /** The other roots and the counters. */
  method InitRoots(st: Storage, ghost s: Store) returns (r: Result<PageIds, DbError>)
    requires Complete(s, st.View(), HEADER_SLOTS, {}) && Version(st.meta) == 1
    modifies st
    ensures Version(st.meta) == 1
    ensures r.Ok? ==>
              && Complete(s, st.View(), FRESH_SLOTS, {})
              && NextTableId(st.meta) == 1 && NextIndexId(st.meta) == 1
              && (forall t :: t in HEADER_SLOTS ==> Root(st.meta, t) == old(Root(st.meta, t)))
              && r.value.Keys == FRESH_SLOTS - HEADER_SLOTS
              && (forall t :: t in r.value ==> r.value[t] == Root(st.meta, t))
    ensures r.Err? ==> HeaderDone(s, st.View()) && Partial(s, st.View(), FRESH_SLOTS)
    ensures InOrder(old(st.View()), st.View(), [Constraints] + FRESH_ORDER)
    ensures st.failed == (old(st.failed) || r.Err?)
  {
    hide Root, Version, NextTableId, NextIndexId, Complete, Partial, Sound, Frame, HeaderDone, Members, InOrder, MadeUpTo,
         FRESH_ORDER;
    var none: set<Slot> := {};
    assert none + none == none;
    ghost var a := HEADER_SLOTS + {Constraints};
    ghost var s1 := st.View();
    var constraints := InitConstraints(st, s);
    if constraints.Err? {
      ConstraintsFirst(s1, st.View());
      return Err(constraints.error);
    }
    FreshSplits();
    ghost var b, s2 := Members(FRESH_ORDER), st.View();
    SoundAfter(s, s2, a, none);
    r := CreateRoots(st, FRESH_ORDER);
    if r.Err? {
      StoppedLater(s, s2, st.View(), a, b, none);
      ConstraintsThenRest(s, s1, s2, st.View());
      return;
    }
    CompleteIsPartial(s2, st.View(), b, none);
    ConstraintsThenRest(s, s1, s2, st.View());
    CompleteThenComplete(s, s2, st.View(), a, b, none, none);
    RestKept(s2, st.View(), b);
    r := Ok(r.value[Constraints := constraints.value]);
  }

  /** The constraints root and the counters. */
  method InitConstraints(st: Storage, ghost s: Store) returns (r: Result<u64, DbError>)
    requires Complete(s, st.View(), HEADER_SLOTS, {}) && Version(st.meta) == 1
    modifies st
    ensures Version(st.meta) == 1
    ensures r.Ok? ==>
              && Complete(s, st.View(), HEADER_SLOTS + {Constraints}, {})
              && NextTableId(st.meta) == 1 && NextIndexId(st.meta) == 1
              && (forall t :: t in HEADER_SLOTS ==> Root(st.meta, t) == old(Root(st.meta, t)))
              && r.value == Root(st.meta, Constraints)
    ensures r.Err? ==> HeaderDone(s, st.View()) && Partial(s, st.View(), FRESH_SLOTS)
    ensures st.failed == (old(st.failed) || r.Err?)
    ensures forall t :: t != Constraints ==> Root(st.meta, t) == old(Root(st.meta, t))
  {
    hide Root, Version, NextTableId, NextIndexId, Complete, Partial, Sound, Frame, HeaderDone;
    var none: set<Slot> := {};
    assert none + none == none;
    ghost var s1, a := st.View(), HEADER_SLOTS + {Constraints};
    SoundAfter(s, s1, HEADER_SLOTS, none);
    r := CreateRoot(st, Constraints);
    if r.Err? {
      StoppedLater(s, s1, st.View(), HEADER_SLOTS, {Constraints}, none);
      OthersKept(s1, st.View(), Constraints);
      return;
    }
    CompleteThenComplete(s, s1, st.View(), HEADER_SLOTS, {Constraints}, none, none);
    RestKept(s1, st.View(), {Constraints});
    var counters := InitCounters(st, s, a);
    if counters.Err? {
      ghost var s2 := st.View();
      SoundAfter(s, s2, a, none);
      NothingPartial(s2, none);
      StoppedLater(s, s2, s2, a, none, none);
      return Err(counters.error);
    }
  }

  lemma {:induction false} ConstraintsFirst(s: Store, s': Store)
    requires forall t :: t != Constraints ==> Root(s'.meta, t) == Root(s.meta, t)
    ensures InOrder(s, s', [Constraints] + FRESH_ORDER)
  {
    hide Root;
  }

  lemma {:induction false} ConstraintsThenRest(s: Store, s1: Store, s2: Store, s3: Store)
    requires Complete(s, s2, HEADER_SLOTS + {Constraints}, {})
    requires forall t :: t != Constraints ==> Root(s2.meta, t) == Root(s1.meta, t)
    requires Partial(s2, s3, Members(FRESH_ORDER)) && InOrder(s2, s3, FRESH_ORDER)
    ensures InOrder(s1, s3, [Constraints] + FRESH_ORDER)
  {
    hide Root, Sound, Frame, Seed, Members;
    FreshSplits();
    assert Fresh(s, s2, Constraints, []);
    assert || Root(s3.meta, Constraints) == Root(s2.meta, Constraints)
           || (Constraints in Members(FRESH_ORDER) && (Fresh(s2, s3, Constraints, []) || Fresh(s2, s3, Constraints, Seed(Constraints))));
    forall k | 0 <= k < |FRESH_ORDER| ensures Root(s2.meta, FRESH_ORDER[k]) == Root(s1.meta, FRESH_ORDER[k]) {
      InFreshOrder(k);
    }
    InOrderThen(s1, s2, s3, [Constraints], FRESH_ORDER);
  }

  lemma {:induction false} InFreshOrder(k: nat)
    requires k < |FRESH_ORDER|
    ensures FRESH_ORDER[k] != Constraints
  {
  }

  lemma {:induction false} SameMetaInOrder(s: Store, s1: Store, s2: Store)
    requires s2.meta == s1.meta && InOrder(s, s1, [Constraints] + FRESH_ORDER)
    ensures InOrder(s, s2, [Constraints] + FRESH_ORDER)
  {
    hide Root;
  }

  lemma {:induction false} FreshIds(ids: PageIds, m: Meta)
    requires ids.Keys == ALL_SLOTS && ids[HolidayCalendars] == 0 && ids[ExchangeRates] == 0
    requires forall t :: t in FRESH_SLOTS ==> ids[t] == Root(m, t)
    ensures ids == IdsOf(m)[HolidayCalendars := 0][ExchangeRates := 0]
  {
    hide Root;
  }

  lemma {:induction false} RestKept(s: Store, s': Store, b: set<Slot>)
    requires Complete(s, s', b, {})
    ensures forall t :: t !in b ==> Root(s'.meta, t) == Root(s.meta, t)
  {
    hide Root, Frame, Sound, Fresh;
  }

  /** The two seed rows and the flush that end a fresh `init`. */
  method SeedFresh(st: Storage, ghost s: Store) returns (r: Result<(), DbError>)
    requires Complete(s, st.View(), FRESH_SLOTS, {})
    modifies st`heaps, st`pages, st`failed, st`unflushed
    ensures r.Ok? ==> Complete(s, st.View(), FRESH_SLOTS, SEEDED)
    ensures r.Err? ==> HeaderDone(s, st.View()) && Partial(s, st.View(), FRESH_SLOTS)
    ensures st.failed == (old(st.failed) || r.Err?)
    ensures r.Ok? ==> !st.unflushed
  {
    hide Root, Complete, Partial, HeaderDone;
    var none: set<Slot> := {};
    r := SeedRoot(st, Databases, s, FRESH_SLOTS, none);
    assert none + {Databases} == {Databases} && {Databases} + {Schemas} == SEEDED;
    if r.Err? {
      SeedStopped(s, st.View(), if Complete(s, st.View(), FRESH_SLOTS, none) then none else {Databases});
      return;
    }
    r := SeedRoot(st, Schemas, s, FRESH_SLOTS, {Databases});
    if r.Err? {
      SeedStopped(s, st.View(), if Complete(s, st.View(), FRESH_SLOTS, {Databases}) then {Databases} else SEEDED);
      return;
    }
    r := st.Flush();
    if r.Err? {
      SeedStopped(s, st.View(), SEEDED);
    }
  }

  lemma {:induction false} SeedStopped(s: Store, s': Store, seeded: set<Slot>)
    requires Complete(s, s', FRESH_SLOTS, seeded) && seeded <= SEEDED
    ensures HeaderDone(s, s') && Partial(s, s', FRESH_SLOTS)
  {
    hide Root, Complete, Partial, Sound, Frame;
    SoundAfter(s, s', FRESH_SLOTS, seeded);
    NothingPartial(s', {});
    StoppedLater(s, s', s', FRESH_SLOTS, {}, seeded);
  }

  // ---------------------------------------------------------------------------
  // init

  ghost predicate InitStep(s: Store, s': Store, r: Result<PageIds, DbError>) {
    if Version(s.meta) > 0 then EnsureStep(s, s', r) else FreshStep(s, s', r)
  }

  method Init(st: Storage) returns (r: Result<PageIds, DbError>)
    requires Sound(st.View())
    modifies st
    ensures InitStep(old(st.View()), st.View(), r)
    ensures st.failed == (old(st.failed) || r.Err?)
    ensures r.Ok? ==> !st.unflushed
  {
    hide Version, EnsureStep, FreshStep, Sound, Settled;
    var ver := st.ReadMeta32(SCHEMA_VER_OFFSET);
    if ver.Err? {
      NothingStarted(st.View(), ver.error);
      return Err(ver.error);
    }
    VersionAt(st.meta);
    if ver.value > 0 {
      r := EnsureDatabaseRoots(st);
    } else {
      r := InitFresh(st);
    }
  }

  lemma {:induction false} NothingStarted(s: Store, e: DbError)
    requires Sound(s) && e != Internal
    ensures InitStep(s, s, Err(e))
  {
    hide Root, Version, NextTableId, NextIndexId, Partial;
    if Version(s.meta) > 0 {
      NothingPartial(s, Missing(s, UPGRADABLE));
    }
  }

  lemma {:induction false} FreshSplits()
    ensures Members(FRESH_ORDER) !! HEADER_SLOTS + {Constraints}
    ensures HEADER_SLOTS + {Constraints} + Members(FRESH_ORDER) == FRESH_SLOTS
    ensures L.Distinct(FRESH_ORDER)
  {
    hide Members;
    forall t: Slot ensures t in Members(FRESH_ORDER) <==> t in FRESH_SLOTS && t !in HEADER_SLOTS && t != Constraints {
      FreshMember(t);
    }
  }

  lemma {:induction false} FreshMember(t: Slot)
    ensures t in Members(FRESH_ORDER) <==> t in FRESH_SLOTS && t !in HEADER_SLOTS && t != Constraints
  {
  }
}
