/** Self-healing of a schema-corrupted v2 database across process starts, with a crash allowed between any two steps. */
module SelfHealing {
  import opened Wrappers

  /** Row counts of the tables that exist, and the state recorded in each migration table that exists. */
  datatype Database = Database(rows: map<string, nat>, migrations: map<string, string>)

  /** Which queries of the safety check fail, and which migration table an unordered `LIMIT 1` yields
    * when both the current and the older one exist.
    */
  datatype QueryFaults = QueryFaults(
    open: bool,
    lookup: set<string>,
    count: set<string>,
    migrationLookup: bool,
    migrationState: bool,
    yieldsOld: bool)

  const MIGRATION_TABLE := "migration_states"
  const OLD_MIGRATION_TABLE := "migration_state"

  // ---- What there is to protect ----

  /** The tables of the schema that hold what users enter and what is recorded or learned for them. */
  const USER_TABLES := {
    "detections", "detection_predictions", "detection_reviews", "detection_comments", "detection_locks",
    "dynamic_thresholds", "threshold_events", "alert_rules", "alert_histories", "alert_history", "speaker_names"
  }

  /** The states in which the program takes a migration to be in progress. */
  const IN_PROGRESS := {"initializing", "dual_write", "migrating", "validating", "cutover"}
  const PAUSED := "paused"
  const COMPLETED := "completed"

  predicate Empty(db: Database, tables: set<string>) {
    forall t :: t in tables && t in db.rows ==> db.rows[t] == 0
  }

  predicate NoUserData(db: Database) {
    Empty(db, USER_TABLES)
  }

  /** The state the rest of the program goes by: the current table's, or the older one's where that is all there is. */
  function MigrationState(db: Database): Option<string> {
    Get(db.migrations, if MIGRATION_TABLE in db.migrations then MIGRATION_TABLE else OLD_MIGRATION_TABLE)
  }

  /** A migration is in progress, can be resumed, or has moved the data here. */
  predicate MigrationActive(db: Database) {
    var state := MigrationState(db);
    state.Some? && (state.value in IN_PROGRESS || state.value == PAUSED || state.value == COMPLETED)
  }

  // ---- What the safety check looks at ----

  const CHECKED_TABLES := ["detections", "alert_rules", "detection_reviews", "dynamic_thresholds"]
  const UNSAFE_STATES := {"migrating", "completed", "dual_write", "validating", "cutover", "paused"}

  function Checked(): set<string> {
    set t | t in CHECKED_TABLES
  }

  /** The state the safety check reads. */
  function StateRead(db: Database, f: QueryFaults): Option<string> {
    if OLD_MIGRATION_TABLE in db.migrations && f.yieldsOld then Get(db.migrations, OLD_MIGRATION_TABLE)
    else MigrationState(db)
  }

  predicate Unsafe(state: Option<string>) {
    state.Some? && state.value in UNSAFE_STATES
  }

  /** The check cannot tell that a table holds rows. */
  predicate TablePasses(db: Database, f: QueryFaults, table: string) {
    table in f.lookup || table !in db.rows || (table !in f.count && db.rows[table] == 0)
  }

  predicate SafeToDelete(db: Database, f: QueryFaults) {
    && !f.open
    && (forall i :: 0 <= i < |CHECKED_TABLES| ==> TablePasses(db, f, CHECKED_TABLES[i]))
    && (f.migrationLookup || f.migrationState || !Unsafe(StateRead(db, f)))
  }

  /** The queries on the database's own catalogue can be trusted. */
  predicate CatalogueReadable(f: QueryFaults) {
    Checked() !! f.lookup && !f.migrationLookup && !f.migrationState
  }

  const NO_FAULTS := QueryFaults(false, {}, {}, false, false, false)

  // ---- What the check protects ----

  /** The one state of a migration in progress that the check does not know. */
  predicate JustStarted(db: Database) {
    MigrationState(db) == Some("initializing")
  }

  /** An unsafe state that a leftover of the older table can hide from the check. */
  predicate MigrationShadowed(db: Database) {
    && MIGRATION_TABLE in db.migrations && OLD_MIGRATION_TABLE in db.migrations
    && Unsafe(MigrationState(db)) && !Unsafe(Get(db.migrations, OLD_MIGRATION_TABLE))
  }

  lemma ActiveIff(db: Database)
    ensures MigrationActive(db) <==> Unsafe(MigrationState(db)) || JustStarted(db)
  {
  }

  lemma CheckedAreUserTables()
    ensures Checked() <= USER_TABLES
    ensures "speaker_names" in USER_TABLES - Checked()
  {
    assert |CHECKED_TABLES[0]| == 10 && |CHECKED_TABLES[1]| == 11;
    assert |CHECKED_TABLES[2]| == 17 && |CHECKED_TABLES[3]| == 18;
    assert |"speaker_names"| == 13;
  }

  lemma SafeMeansEmpty(db: Database, f: QueryFaults)
    requires CatalogueReadable(f) && SafeToDelete(db, f)
    ensures Empty(db, Checked())
  {
    forall t | t in Checked() && t in db.rows
      ensures db.rows[t] == 0
    {
      var i :| 0 <= i < |CHECKED_TABLES| && CHECKED_TABLES[i] == t;
      assert TablePasses(db, f, CHECKED_TABLES[i]);
    }
  }

  lemma EmptyMeansPasses(db: Database, f: QueryFaults)
    requires Empty(db, Checked()) && f.count == {}
    ensures forall i :: 0 <= i < |CHECKED_TABLES| ==> TablePasses(db, f, CHECKED_TABLES[i])
  {
    forall i | 0 <= i < |CHECKED_TABLES|
      ensures TablePasses(db, f, CHECKED_TABLES[i])
    {
      assert CHECKED_TABLES[i] in Checked();
    }
  }

  lemma EmptySplit(db: Database)
    ensures NoUserData(db) <==> Empty(db, Checked()) && Empty(db, USER_TABLES - Checked())
  {
    CheckedAreUserTables();
  }

  /** Short of what the check does not know, a migration that has just been started and user tables other than its four,
    * it protects user data and active migrations of every database exactly when the catalogue queries work and yield
    * the current migration table where both exist, or the database cannot be opened at all: a failed lookup is taken
    * for a missing table, and only one migration table is read.
    */
  lemma CheckProtectsIff(f: QueryFaults)
    ensures (forall db :: !JustStarted(db) && Empty(db, USER_TABLES - Checked()) && SafeToDelete(db, f) ==>
               NoUserData(db) && !MigrationActive(db))
            <==> f.open || (CatalogueReadable(f) && !f.yieldsOld)
  {
    if f.open || (CatalogueReadable(f) && !f.yieldsOld) {
      forall db | !JustStarted(db) && Empty(db, USER_TABLES - Checked()) && SafeToDelete(db, f)
        ensures NoUserData(db) && !MigrationActive(db)
      {
        SafeMeansEmpty(db, f);
        EmptySplit(db);
        ActiveIff(db);
      }
    } else {
      var db := Unprotected(f);
      assert !JustStarted(db) && Empty(db, USER_TABLES - Checked()) && SafeToDelete(db, f);
    }
  }

  lemma Unprotected(f: QueryFaults) returns (db: Database)
    requires !f.open && !(CatalogueReadable(f) && !f.yieldsOld)
    ensures !JustStarted(db) && Empty(db, USER_TABLES - Checked()) && SafeToDelete(db, f)
    ensures !NoUserData(db) || MigrationActive(db)
  {
    if f.migrationLookup || f.migrationState || f.yieldsOld {
      db := Database(map[], map[MIGRATION_TABLE := "migrating", OLD_MIGRATION_TABLE := "idle"]);
      assert MigrationState(db) == Some("migrating");
    } else {
      var t :| t in Checked() && t in f.lookup;
      CheckedAreUserTables();
      db := Database(map[t := 1], map[]);
      assert t in db.rows && db.rows[t] == 1 && t in USER_TABLES;
    }
  }

  /** What the check may let through: the four tables are empty, and a table it may read holds no unsafe state. */
  predicate Passes(db: Database) {
    Empty(db, Checked()) && (Unsafe(MigrationState(db)) ==> MigrationShadowed(db))
  }

  lemma PassesIff(db: Database)
    ensures (exists f :: CatalogueReadable(f) && SafeToDelete(db, f)) <==> Passes(db)
  {
    if Passes(db) {
      var f := NO_FAULTS.(yieldsOld := MigrationShadowed(db));
      EmptyMeansPasses(db, f);
      assert CatalogueReadable(f) && SafeToDelete(db, f);
    }
    if f :| CatalogueReadable(f) && SafeToDelete(db, f) {
      SafeMeansEmpty(db, f);
    }
  }

  /** Rows that the check does not look for. */
  predicate HasOtherUserData(db: Database) {
    !Empty(db, USER_TABLES - Checked())
  }

  /** Which databases a readable catalogue protects, whichever migration table it yields: all but those that pass with
    * user data outside the four tables, with a migration that has just been started, or with one that is shadowed by a
    * leftover of the older table.
    */
  lemma DatabaseProtectedIff(db: Database)
    ensures (forall f :: CatalogueReadable(f) && SafeToDelete(db, f) ==> NoUserData(db) && !MigrationActive(db))
            <==> !(Passes(db) && (HasOtherUserData(db) || JustStarted(db) || MigrationShadowed(db)))
  {
    PassesIff(db);
    EmptySplit(db);
    ActiveIff(db);
  }

  /** The rows of a table are protected exactly when it is one of the four. */
  lemma TableProtectedIff(t: string)
    ensures (forall db, f :: CatalogueReadable(f) && SafeToDelete(db, f) ==> Empty(db, {t}))
            <==> t in {"detections", "alert_rules", "detection_reviews", "dynamic_thresholds"}
  {
    if t in Checked() {
      forall db, f | CatalogueReadable(f) && SafeToDelete(db, f)
        ensures Empty(db, {t})
      {
        SafeMeansEmpty(db, f);
      }
    } else {
      var db := Database(map[t := 1], map[]);
      EmptyMeansPasses(db, NO_FAULTS);
      assert SafeToDelete(db, NO_FAULTS) && t in {t} && !Empty(db, {t});
    }
  }

  datatype InitResult = InitOk | SchemaCorrupted | OtherFailure

  /** What happens around one start: the outcome of each call, the database met, and after how many completed
    * file-system changes the process dies. A marker write that fails, or that the process dies in, may leave the file.
    */
  datatype Start = Start(
    init: InitResult,
    database: Option<Database>,
    markerStatFails: bool,
    faults: QueryFaults,
    clearFails: bool,
    writeFails: bool,
    writeLeavesFile: bool,
    removeFails: bool,
    companionsFail: bool,
    changesBeforeCrash: nat)

  datatype Event = Initialized(cleared: bool) | Wrote | Deleted(database: Option<Database>) | CompanionsRemoved

  datatype Outcome = Ready | Recreate | Failed | Crashed

  /** The marker after one start, what was done, and how the start ended. */
  datatype Result = Result(marker: bool, events: seq<Event>, outcome: Outcome)

  function Begin(marker: bool, s: Start): Result {
    match s.init
    case OtherFailure => Result(marker, [], Failed)
    case InitOk =>
      if s.changesBeforeCrash == 0 then Result(marker, [Initialized(false)], Crashed)
      else if s.clearFails then Result(marker, [Initialized(false)], Ready)
      else Result(false, [Initialized(true)], Ready)
    case SchemaCorrupted =>
      if marker && !s.markerStatFails then Result(marker, [], Failed)
      else if s.database.None? || !SafeToDelete(s.database.value, s.faults) then Result(marker, [], Failed)
      else if s.changesBeforeCrash == 0 then Result(marker || s.writeLeavesFile, [], Crashed)
      else if s.writeFails then Result(marker || s.writeLeavesFile, [], Failed)
      else if s.changesBeforeCrash == 1 then Result(true, [Wrote], Crashed)
      else if s.removeFails then Result(true, [Wrote], Failed)
      else if s.changesBeforeCrash == 2 then Result(true, [Wrote, Deleted(s.database)], Crashed)
      else Result(true, [Wrote, Deleted(s.database)] + (if s.companionsFail then [] else [CompanionsRemoved]),
                  if s.changesBeforeCrash == 3 then Crashed else Recreate)
  }

  /** How a start ends, told from what went wrong and what it did: a successful one leaves no marker, the program goes
    * on to recreate the database only after deleting it, and one that fails has not deleted it.
    */
  lemma StartEnds(marker: bool, s: Start)
    ensures var r := Begin(marker, s);
            && (r.outcome == Ready <==> s.init == InitOk && s.changesBeforeCrash > 0)
            && (r.outcome == Ready && !s.clearFails ==> !r.marker)
            && (r.outcome == Recreate <==> Deleted(s.database) in r.events && s.changesBeforeCrash > 3)
            && (r.outcome == Failed ==> Deleted(s.database) !in r.events && (s.init == OtherFailure ==> r.events == []))
            && (r.outcome == Recreate ==> r.marker)
            && (r.outcome == Crashed ==> s.changesBeforeCrash <= 3)
            && (s.init == OtherFailure ==> r == Result(marker, [], Failed))
  {
    assert [Wrote, Deleted(s.database)][1] == Deleted(s.database);
    if s.init == SchemaCorrupted && s.changesBeforeCrash > 3 && |Begin(marker, s).events| > 1 {
      assert Begin(marker, s).events[1] == Deleted(s.database);
    }
  }

  /** A start that nothing goes wrong in, with a readable catalogue. */
  function CleanStart(db: Database, f: QueryFaults): Start {
    Start(SchemaCorrupted, Some(db), false, f, false, false, false, false, false, 9)
  }

  /** One start with a readable catalogue can delete exactly the databases that pass. */
  lemma OneStartDeletesIff(db: Database)
    ensures (exists s: Start :: CatalogueReadable(s.faults) && Deleted(Some(db)) in Begin(false, s).events)
            <==> Passes(db)
  {
    PassesIff(db);
    if Passes(db) {
      var f :| CatalogueReadable(f) && SafeToDelete(db, f);
      var s := CleanStart(db, f);
      assert Begin(false, s).events[1] == Deleted(Some(db));
      assert CatalogueReadable(s.faults);
    }
  }

  /** An input: both tables, the current one migrating and the older one idle, and nothing else. */
  lemma ShadowedMigrationDeleted()
    ensures var db := Database(map[], map[MIGRATION_TABLE := "migrating", OLD_MIGRATION_TABLE := "idle"]);
            var f := NO_FAULTS.(yieldsOld := true);
            var s := CleanStart(db, f);
            && CatalogueReadable(f) && MigrationActive(db) && Deleted(Some(db)) in Begin(false, s).events
  {
    var db := Database(map[], map[MIGRATION_TABLE := "migrating", OLD_MIGRATION_TABLE := "idle"]);
    var s := CleanStart(db, NO_FAULTS.(yieldsOld := true));
    assert MigrationState(db) == Some("migrating");
    assert Begin(false, s).events[1] == Deleted(Some(db));
  }

  /** An input: a migration that has just been started, in the current table alone, with no query fault. */
  lemma StartedMigrationDeleted()
    ensures var db := Database(map[], map[MIGRATION_TABLE := "initializing"]);
            && MigrationActive(db) && !MigrationShadowed(db)
            && Deleted(Some(db)) in Begin(false, CleanStart(db, NO_FAULTS)).events
  {
    var db := Database(map[], map[MIGRATION_TABLE := "initializing"]);
    assert MigrationState(db) == Some("initializing");
    assert Begin(false, CleanStart(db, NO_FAULTS)).events[1] == Deleted(Some(db));
  }

  /** An input: a user has named a speaker, and nothing else. */
  lemma SpeakerNamesDeleted()
    ensures var db := Database(map["speaker_names" := 1], map[MIGRATION_TABLE := "idle"]);
            !NoUserData(db) && Deleted(Some(db)) in Begin(false, CleanStart(db, NO_FAULTS)).events
  {
    var db := Database(map["speaker_names" := 1], map[MIGRATION_TABLE := "idle"]);
    CheckedAreUserTables();
    assert db.rows["speaker_names"] == 1;
    EmptyMeansPasses(db, NO_FAULTS);
    assert Begin(false, CleanStart(db, NO_FAULTS)).events[1] == Deleted(Some(db));
  }

  class Store {
    var marker: bool
    var database: Option<Database>
    ghost var log: seq<Event>

    constructor ()
      ensures !marker && database == None && log == []
    {
      marker, database, log := false, None, [];
    }

    /** Loops over the four tables, then looks at the migration state. */
    static method IsV2DatabaseSafeToDelete(db: Database, f: QueryFaults) returns (safe: bool)
      ensures safe <==> SafeToDelete(db, f)
    {
      if f.open {
        return false;
      }
      var i := 0;
      while i < |CHECKED_TABLES|
        invariant 0 <= i <= |CHECKED_TABLES|
        invariant forall j :: 0 <= j < i ==> TablePasses(db, f, CHECKED_TABLES[j])
      {
        var table := CHECKED_TABLES[i];
        i := i + 1;
        if table in f.lookup || table !in db.rows {
          continue;
        }
        if table in f.count {
          assert !TablePasses(db, f, CHECKED_TABLES[i - 1]);
          return false;
        }
        if db.rows[table] > 0 {
          assert !TablePasses(db, f, CHECKED_TABLES[i - 1]);
          return false;
        }
      }
      if !f.migrationLookup {
        var current, former := MIGRATION_TABLE in db.migrations, OLD_MIGRATION_TABLE in db.migrations;
        if current || former {
          var table := if former && (f.yieldsOld || !current) then OLD_MIGRATION_TABLE else MIGRATION_TABLE;
          if !f.migrationState && db.migrations[table] in UNSAFE_STATES {
            return false;
          }
        }
      }
      return true;
    }

    method InitializeV2WithSelfHealing(s: Start) returns (outcome: Outcome)
      requires s.init == SchemaCorrupted ==> database == s.database
      modifies this
      ensures marker == Begin(old(marker), s).marker
      ensures log == old(log) + Begin(old(marker), s).events
      ensures outcome == Begin(old(marker), s).outcome
      ensures database == (if exists d :: Deleted(d) in Begin(old(marker), s).events then None else old(database))
    {
      var left := s.changesBeforeCrash;
      if s.init == InitOk {
        if left == 0 || s.clearFails {
          log := log + [Initialized(false)];
          return if left == 0 then Crashed else Ready;
        }
        marker := false;
        log := log + [Initialized(true)];
        return Ready;
      } else if s.init != SchemaCorrupted {
        return Failed;
      }

      if marker && !s.markerStatFails {
        return Failed;
      }
      if database.None? {
        return Failed;
      }
      var safe := IsV2DatabaseSafeToDelete(database.value, s.faults);
      if !safe {
        return Failed;
      }

      if left == 0 {
        marker := marker || s.writeLeavesFile;
        return Crashed;
      }
      left := left - 1;
      if s.writeFails {
        marker := marker || s.writeLeavesFile;
        return Failed;
      }
      marker := true;
      log := log + [Wrote];

      if left == 0 {
        return Crashed;
      }
      left := left - 1;
      if s.removeFails {
        return Failed;
      }
      log := log + [Deleted(database)];
      ghost var events := Begin(old(marker), s).events;
      assert events[1] == Deleted(database);
      database := None;

      if left == 0 {
        return Crashed;
      }
      left := left - 1;
      if !s.companionsFail {
        log := log + [CompanionsRemoved];
      }
      return if left == 0 then Crashed else Recreate;
    }
  }

  // ---- Any number of starts ----

  function MarkerAfter(starts: seq<Start>): bool {
    if starts == [] then false
    else Begin(MarkerAfter(starts[..|starts| - 1]), starts[|starts| - 1]).marker
  }

  function Log(starts: seq<Start>): seq<Event> {
    if starts == [] then []
    else Log(starts[..|starts| - 1]) + Begin(MarkerAfter(starts[..|starts| - 1]), starts[|starts| - 1]).events
  }

  /** The first start ever can delete exactly the databases that pass. */
  lemma FirstStartDeletesIff(db: Database)
    ensures (exists s: Start :: CatalogueReadable(s.faults) && Deleted(Some(db)) in Log([s])) <==> Passes(db)
  {
    OneStartDeletesIff(db);
    forall s: Start
      ensures Log([s]) == Begin(false, s).events
    {
      LogOfOne(s);
    }
  }

  lemma LogOfOne(s: Start)
    ensures Log([s]) == Begin(false, s).events && MarkerAfter([s]) == Begin(false, s).marker
  {
    assert [s][..0] == [];
  }

  /** One more start goes on from the marker the others left. */
  lemma OneMoreStart(starts: seq<Start>, s: Start)
    ensures Log(starts + [s]) == Log(starts) + Begin(MarkerAfter(starts), s).events
    ensures MarkerAfter(starts + [s]) == Begin(MarkerAfter(starts), s).marker
  {
    assert (starts + [s])[..|starts|] == starts;
  }

  /** Nothing more than a cleared marker is needed: delete, initialize, delete. */
  lemma DeletedTwice(db: Database) returns (starts: seq<Start>)
    requires Passes(db)
    ensures StatReliable(starts) && Log(starts) == DeletionEvents(db) + [Initialized(true)] + DeletionEvents(db)
  {
    hide Begin, Log, MarkerAfter, SafeToDelete;
    PassesIff(db);
    var f :| CatalogueReadable(f) && SafeToDelete(db, f);
    var s, ok := CleanStart(db, f), CleanStart(db, f).(init := InitOk);
    CleanEvents(db, f);
    LogOfOne(s);
    OneMoreStart([s], ok);
    OneMoreStart([s, ok], s);
    assert [s] + [ok] == [s, ok] && [s, ok] + [s] == [s, ok, s];
    starts := [s, ok, s];
  }

  lemma CleanEvents(db: Database, f: QueryFaults)
    requires SafeToDelete(db, f)
    ensures var s := CleanStart(db, f);
            && Begin(false, s) == Result(true, DeletionEvents(db), Recreate)
            && Begin(true, s.(init := InitOk)) == Result(false, [Initialized(true)], Ready)
            && !s.markerStatFails
  {
  }

  function DeletionEvents(db: Database): seq<Event> {
    [Wrote, Deleted(Some(db)), CompanionsRemoved]
  }

  /** The marker's presence is always seen. */
  predicate StatReliable(starts: seq<Start>) {
    forall i :: 0 <= i < |starts| ==> !starts[i].markerStatFails
  }

  predicate ClearedBetween(log: seq<Event>, i: int, j: int) {
    exists k :: 0 <= i < k < j && k < |log| && log[k] == Initialized(true)
  }

  /** Every deletion is still followed by the marker unless a successful initialization cleared it. */
  lemma {:induction false} MarkerRemembers(starts: seq<Start>, i: nat)
    requires i < |Log(starts)| && Log(starts)[i].Deleted?
    ensures MarkerAfter(starts) || ClearedBetween(Log(starts), i, |Log(starts)|)
  {
    var init, last := starts[..|starts| - 1], starts[|starts| - 1];
    var before, events := Log(init), Begin(MarkerAfter(init), last).events;
    if i < |before| {
      MarkerRemembers(init, i);
      if ClearedBetween(before, i, |before|) {
        var k :| 0 <= i < k < |before| && before[k] == Initialized(true);
        assert Log(starts)[k] == Initialized(true);
      } else if last.init == InitOk && !MarkerAfter(starts) {
        assert Log(starts)[|before|] == Initialized(true);
      }
    }
  }

  /** Two deletions, whatever crashes and failures lie between them, are separated by a successful
    * initialization that removed the marker, so a corrupted database is never deleted in a loop.
    */
  lemma {:induction false} DeletionsSeparated(starts: seq<Start>, i: nat, j: nat)
    requires StatReliable(starts)
    requires i < j < |Log(starts)| && Log(starts)[i].Deleted? && Log(starts)[j].Deleted?
    ensures ClearedBetween(Log(starts), i, j)
  {
    var init, last := starts[..|starts| - 1], starts[|starts| - 1];
    var before := Log(init);
    if j < |before| {
      DeletionsSeparated(init, i, j);
      var k :| 0 <= i < k < j && before[k] == Initialized(true);
      assert Log(starts)[k] == Initialized(true);
    } else {
      assert j == |before| + 1 && !MarkerAfter(init);
      MarkerRemembers(init, i);
      var k :| 0 <= i < k < |before| && before[k] == Initialized(true);
      assert Log(starts)[k] == Initialized(true);
    }
  }

  /** A start deletes although the marker is there exactly when looking for it fails and all else goes through. */
  lemma {:induction false} DeletesDespiteMarkerIff(s: Start)
    ensures (exists d :: Deleted(d) in Begin(true, s).events) <==>
            && s.markerStatFails && s.init == SchemaCorrupted
            && s.database.Some? && SafeToDelete(s.database.value, s.faults)
            && !s.writeFails && !s.removeFails && s.changesBeforeCrash >= 2
  {
    var events := Begin(true, s).events;
    if s.markerStatFails && s.init == SchemaCorrupted && s.database.Some? && SafeToDelete(s.database.value, s.faults)
       && !s.writeFails && !s.removeFails && s.changesBeforeCrash >= 2 {
      assert events[1] == Deleted(s.database);
    }
  }

  /** With a readable catalogue, over any number of starts, only databases that pass are deleted: one with user data has
    * it outside the four tables, and an active migration is lost only where it has just been started or is shadowed.
    */
  lemma {:induction false} OnlyPassingDatabasesDeleted(starts: seq<Start>, i: nat)
    requires i < |Log(starts)| && Log(starts)[i].Deleted?
    requires forall k :: 0 <= k < |starts| ==> CatalogueReadable(starts[k].faults)
    ensures var d := Log(starts)[i].database;
            && d.Some? && Passes(d.value)
            && (NoUserData(d.value) || HasOtherUserData(d.value))
            && (MigrationActive(d.value) ==> JustStarted(d.value) || MigrationShadowed(d.value))
  {
    var init, last := starts[..|starts| - 1], starts[|starts| - 1];
    if i < |Log(init)| {
      OnlyPassingDatabasesDeleted(init, i);
    } else {
      assert Log(starts)[i] == Deleted(last.database);
      var db := last.database.value;
      PassesIff(db);
      EmptySplit(db);
      ActiveIff(db);
    }
  }
}
