/**
 Incremental synchronisation of an index with the files on disk, as far as the macro
 context is concerned: which files are stored again, under which context, and when the
 new manifest is published. Every write to the database may be the last one before the
 process dies.
 */
module MacroSync {
  import opened Options
  import opened Text
  import opened MacroScan
  import opened MacroExpand
  import opened MacroContext
  import opened MacroDiff
  import opened DeclarationMacros
  import opened MacroInvalidation
  import opened Spelling

  type Disk = map<string, string>
  type Contributions = map<string, Contribution>

  /**
   A stored file: its bytes (compared by hash in the program) and the macro context
   its symbols were extracted under.
   */
  datatype FileRecord = FileRecord(content: string, context: Context)

  /** The tables and metadata that survive a crash. */
  datatype Database = Database(files: map<string, FileRecord>, manifest: Option<Contributions>, ready: bool,
      pending: bool)

  /** Which paths are C-family files, how one is scanned for macros, and the order in which paths are listed. */
  datatype Env = Env(isCpp: string -> bool, scan: string -> Contribution, order: set<string> -> seq<string>)

  /** Paths are listed once each. */
  ghost predicate ValidEnv(env: Env) {
    forall s: set<string> :: |env.order(s)| == |s| && forall p: string :: p in env.order(s) <==> p in s
  }

  predicate IsEmpty(c: Contribution) {
    c.names == {} && c.bodylessNames == {} && c.definitions == []
  }

  function Listing(env: Env, contributions: Contributions): Manifest {
    var paths := env.order(contributions.Keys);
    seq(|paths|, k requires 0 <= k < |paths| =>
      ManifestFile(paths[k], if paths[k] in contributions then contributions[paths[k]] else Contribution({}, {}, [])))
  }

  /** The context that a manifest stands for. */
  function ContextOf(env: Env, contributions: Contributions): Context {
    BuildContext(Listing(env, contributions))
  }

  /** The manifest of a full scan of the disk. */
  function FullScan(env: Env, disk: Disk): Contributions {
    map p | p in disk && env.isCpp(p) && !IsEmpty(env.scan(disk[p])) :: env.scan(disk[p])
  }

  // ---------------------------------------------------------------- the plan of one sync

  /** Files on disk that are not stored, or stored with other bytes. */
  function Changed(disk: Disk, db: Database): set<string> {
    set p | p in disk && (p !in db.files || db.files[p].content != disk[p])
  }

  function Removed(disk: Disk, db: Database): set<string> {
    db.files.Keys - disk.Keys
  }

  function Cpp(env: Env, paths: set<string>): set<string> {
    set p | p in paths && env.isCpp(p)
  }

  /** The manifest the sync starts from: the one in memory, or else the stored one. */
  function Persisted(memory: Option<Contributions>, db: Database): Option<Contributions> {
    if memory.Some? then memory else db.manifest
  }

  /** The macro manifest has to be looked at: something C-family changed, or the last sync did not finish. */
  function NeedsWork(env: Env, disk: Disk, db: Database): bool {
    || db.pending
    || Cpp(env, Changed(disk, db)) != {}
    || Cpp(env, Removed(disk, db)) != {}
    || (!db.ready && (Cpp(env, disk.Keys) != {} || Cpp(env, db.files.Keys - Removed(disk, db)) != {}))
  }

  function Candidate(env: Env, disk: Disk, memory: Option<Contributions>, db: Database): Contributions {
    var persisted := Persisted(memory, db);
    if persisted.None? || db.pending then FullScan(env, disk)
    else
      var changed := Cpp(env, Changed(disk, db));
      var kept := persisted.value.Keys - Cpp(env, Removed(disk, db)) - changed;
      (map p | p in kept :: persisted.value[p])
      + (map p | p in changed && p in disk && !IsEmpty(env.scan(disk[p])) :: env.scan(disk[p]))
  }

  ghost function AffectedNames(env: Env, disk: Disk, memory: Option<Contributions>, db: Database): set<string> {
    var persisted := Persisted(memory, db);
    if persisted.None? then {}
    else Affected(ContextOf(env, persisted.value), ContextOf(env, Candidate(env, disk, memory, db)))
  }

  /** Consumers of the macro context that must be parsed again although their bytes did not change. */
  ghost function Invalidated(env: Env, disk: Disk, memory: Option<Contributions>, db: Database): set<string> {
    if !NeedsWork(env, disk, db) then {}
    else set p | p in disk && env.isCpp(p) && p !in Changed(disk, db) &&
                 (Persisted(memory, db).None? || !Avoids(disk[p], AffectedNames(env, disk, memory, db)))
  }

  /** The meaning of the macro context changed, as far as this sync can tell. */
  ghost predicate MeaningChanged(env: Env, disk: Disk, memory: Option<Contributions>, db: Database) {
    Persisted(memory, db).None? || AffectedNames(env, disk, memory, db) != {}
  }

  ghost function Reindexed(env: Env, disk: Disk, memory: Option<Contributions>, db: Database): set<string> {
    Changed(disk, db) + Invalidated(env, disk, memory, db)
  }

  // ---------------------------------------------------------------- consistency

  /** As far as signatures tell, the two contexts agree on all that `source` can expand through. */
  ghost predicate SameFor(source: string, first: Context, second: Context) {
    exists names: set<string> :: Avoids(source, names) && SameMeaning(first, second, names)
  }

  lemma SameForItself(source: string, c: Context)
    ensures SameFor(source, c, c)
  {
    hide SignatureOf;
    assert Avoids(source, {}) && SameMeaning(c, c, {});
  }

  lemma SameForChains(source: string, first: Context, second: Context, third: Context)
    requires SameFor(source, first, second) && SameFor(source, second, third)
    ensures SameFor(source, first, third)
  {
    hide SameMeaning;
    var a: set<string> :| Avoids(source, a) && SameMeaning(first, second, a);
    var b: set<string> :| Avoids(source, b) && SameMeaning(second, third, b);
    AvoidsBoth(source, a, b);
    MeaningChains(first, second, third, a, b);
  }

  lemma AvoidsBoth(source: string, a: set<string>, b: set<string>)
    requires Avoids(source, a) && Avoids(source, b)
    ensures Avoids(source, a + b)
  {
    assert forall p: nat :: StartsAt(source, p) ==> Word(source, p) !in a + b;
  }

  lemma MeaningChains(first: Context, second: Context, third: Context, a: set<string>, b: set<string>)
    requires SameMeaning(first, second, a) && SameMeaning(second, third, b)
    ensures SameMeaning(first, third, a + b)
  {
    hide Contained, SignatureOf;
    forall n: string | n !in a + b ensures Alike(first, third, n) {
      assert Alike(first, second, n) && Alike(second, third, n);
    }
    if a + b != {} {
      forall n: string | n !in a + b && n in first.definitions ensures Contained(first.definitions[n], a + b) {
        assert Alike(first, second, n);
        var d, e := first.definitions[n], second.definitions[n];
        AlikeContained(d, e, b);
        if a == {} {
          assert a + b == b;
        } else if b == {} {
          assert a + b == a;
        } else {
          ContainedInBoth(d, a, b);
        }
      }
    }
  }

  ghost predicate CleanContributions(contributions: Contributions, names: set<string>) {
    forall p :: p in contributions ==> WellFormedContribution(contributions[p], names)
  }

  /**
   The files of both manifests list the names they define, and no parameter that bears a name
   affected by the change from one to the other is out of reach of substitution.
   */
  ghost predicate Compatible(env: Env, first: Contributions, second: Contributions) {
    var affected := Affected(ContextOf(env, first), ContextOf(env, second));
    CleanContributions(first, affected) && CleanContributions(second, affected)
  }

  /** So it is for what the scan finds on the disk before and after an edit. */
  ghost predicate CleanEdit(env: Env, before: Disk, after: Disk) {
    Compatible(env, FullScan(env, before), FullScan(env, after))
  }

  /** Every file on disk lists the macro names it defines. */
  ghost predicate CleanDisk(env: Env, disk: Disk) {
    CleanContributions(FullScan(env, disk), {})
  }

  lemma CleanEditIsClean(env: Env, before: Disk, after: Disk)
    requires CleanEdit(env, before, after)
    ensures CleanDisk(env, before) && CleanDisk(env, after)
  {
    hide Affected, ContextOf, FullScan;
  }

  lemma UnchangedAffectsNothing(c: Context)
    ensures Affected(c, c) == {}
  {
    assert ChangedNames(c, c) == {};
  }

  ghost predicate HasContribution(env: Env, contributions: Contributions, p: string, content: string) {
    if IsEmpty(env.scan(content)) then p !in contributions
        else p in contributions && contributions[p] == env.scan(content)
  }

  /**
   The index is consistent with the disk: the C-family files stored are those on disk,
   with their bytes; each was extracted under a context that agrees with the current one
   on all it can expand through; the published manifest is that of a full scan; and no
   update is pending.
   */
  ghost predicate Consistent(env: Env, disk: Disk, db: Database) {
    && !db.pending
    && (forall p :: env.isCpp(p) ==> (p in db.files <==> p in disk))
    && (forall p :: p in db.files && env.isCpp(p) ==>
          db.files[p].content == disk[p] && SameFor(disk[p], db.files[p].context, ContextOf(env, FullScan(env, disk))))
    && (db.manifest == Some(FullScan(env, disk)) || (db.manifest.None? && !db.ready && Cpp(env, disk.Keys) == {}))
  }

  /** A stored file is up to date with the published manifest, or already with the manifest of the disk. */
  ghost predicate UpToDate(env: Env, disk: Disk, db: Database, p: string)
    requires p in db.files && db.manifest.Some?
  {
    || db.files[p].context == ContextOf(env, FullScan(env, disk))
    || SameFor(db.files[p].content, db.files[p].context, ContextOf(env, db.manifest.value))
  }

  /** The published manifest describes the stored files that have not changed since. */
  ghost predicate Describes(env: Env, disk: Disk, db: Database)
    requires db.manifest.Some?
  {
    && (forall p :: p in db.manifest.value ==> env.isCpp(p))
    && (forall p :: p in db.manifest.value && p !in disk ==> p in db.files)
    && (forall p :: p in disk && env.isCpp(p) && p in db.files && db.files[p].content == disk[p] ==>
          HasContribution(env, db.manifest.value, p, disk[p]))
  }

  /** What every write keeps while the disk stays as it is. */
  ghost predicate Recoverable(env: Env, disk: Disk, db: Database) {
    match db.manifest
    case None => !db.ready
    case Some(m) =>
      && Compatible(env, m, FullScan(env, disk))
      && (forall p :: p in db.files && env.isCpp(p) ==> UpToDate(env, disk, db, p))
      && (!db.pending ==> Describes(env, disk, db))
  }

  /** A consistent index is recoverable whatever happens to the disk next. */
  lemma ConsistentIsRecoverable(env: Env, before: Disk, after: Disk, db: Database)
    requires Consistent(env, before, db) && CleanEdit(env, before, after)
    ensures Recoverable(env, after, db)
  {
    hide SameFor, BuildContext, Compatible;
  }

  // ---------------------------------------------------------------- what the plan achieves

  /** The manifest in memory, if there is one, is the published one: so it is after a restart. */
  predicate Trusted(memory: Option<Contributions>, db: Database) {
    memory.None? || memory == db.manifest
  }

  /** However the sync arrives at it, the candidate is the manifest of a full scan. */
  lemma CandidateIsFullScan(env: Env, disk: Disk, memory: Option<Contributions>, db: Database)
    requires Recoverable(env, disk, db) && Trusted(memory, db)
    ensures Candidate(env, disk, memory, db) == FullScan(env, disk)
  {
    hide UpToDate, Compatible;
    var persisted := Persisted(memory, db);
    if persisted.Some? && !db.pending {
      var candidate, target, m := Candidate(env, disk, memory, db), FullScan(env, disk), db.manifest.value;
      forall p ensures p in candidate <==> p in target {
        if p in disk && env.isCpp(p) && p !in Changed(disk, db) {
          assert HasContribution(env, m, p, disk[p]);
        }
      }
      forall p | p in candidate ensures candidate[p] == target[p] {
        if p !in Changed(disk, db) {
          assert HasContribution(env, m, p, disk[p]);
        }
      }
    }
  }

  lemma ContextIsWellFormed(env: Env, contributions: Contributions, names: set<string>)
    requires ValidEnv(env) && CleanContributions(contributions, names)
    ensures WellFormedContext(ContextOf(env, contributions), names)
  {
    hide WellFormedContribution;
    var listing := Listing(env, contributions);
    forall k | 0 <= k < |listing| ensures WellFormedContribution(listing[k].contribution, names) {
      assert env.order(contributions.Keys)[k] in env.order(contributions.Keys);
    }
    BuiltIsWellFormed(listing, names);
  }

  /** Compatible manifests mean the same outside the names that the change from one to the other affects. */
  lemma ManifestDiffIsSound(env: Env, first: Contributions, second: Contributions)
    requires ValidEnv(env) && Compatible(env, first, second)
    ensures var previous, current := ContextOf(env, first), ContextOf(env, second);
            SameMeaning(previous, current, Affected(previous, current))
  {
    hide Affected, ContextOf, CleanContributions, WellFormedContext, SameMeaning, ValidEnv;
    var previous, current := ContextOf(env, first), ContextOf(env, second);
    ContextIsWellFormed(env, first, Affected(previous, current));
    ContextIsWellFormed(env, second, Affected(previous, current));
    DiffIsSound(previous, current);
  }

  /** The stored context of a file that is not indexed again agrees with the context of the candidate. */
  lemma KeptFileAgrees(env: Env, disk: Disk, memory: Option<Contributions>, db: Database, p: string)
    requires ValidEnv(env) && Recoverable(env, disk, db) && Trusted(memory, db)
    requires p in db.files && p in disk && env.isCpp(p) && p !in Reindexed(env, disk, memory, db)
    requires NeedsWork(env, disk, db) || db.manifest == Some(FullScan(env, disk))
    ensures SameFor(disk[p], db.files[p].context, ContextOf(env, FullScan(env, disk)))
  {
    hide Affected, Avoids, SameMeaning, BuildContext, Compatible, Candidate, FullScan;
    var target := ContextOf(env, FullScan(env, disk));
    SameForItself(disk[p], target);
    if db.files[p].context != target && NeedsWork(env, disk, db) {
      var m, affected := db.manifest.value, AffectedNames(env, disk, memory, db);
      assert SameFor(disk[p], db.files[p].context, ContextOf(env, m));
      CandidateIsFullScan(env, disk, memory, db);
      ManifestDiffIsSound(env, m, FullScan(env, disk));
      assert SameFor(disk[p], ContextOf(env, m), target) by { assert Avoids(disk[p], affected); }
      SameForChains(disk[p], db.files[p].context, ContextOf(env, m), target);
    }
  }

  /** When no macro meaning changed, every stored file agrees with the candidate, even one left as it was. */
  lemma NothingAffected(env: Env, disk: Disk, memory: Option<Contributions>, db: Database, source: string, c: Context)
    requires ValidEnv(env) && Recoverable(env, disk, db) && Trusted(memory, db)
    requires db.manifest.Some? && AffectedNames(env, disk, memory, db) == {}
    requires SameFor(source, c, ContextOf(env, db.manifest.value))
    ensures SameFor(source, c, ContextOf(env, FullScan(env, disk)))
  {
    hide Affected, Avoids, SameMeaning, BuildContext, Compatible, Candidate, FullScan;
    var m, target := ContextOf(env, db.manifest.value), ContextOf(env, FullScan(env, disk));
    CandidateIsFullScan(env, disk, memory, db);
    ManifestDiffIsSound(env, db.manifest.value, FullScan(env, disk));
    AvoidsNone(source);
    SameForChains(source, c, m, target);
  }

  lemma AvoidsNone(source: string)
    ensures Avoids(source, {})
  {
  }

  // ---------------------------------------------------------------- single writes

  lemma MarkKeeps(env: Env, disk: Disk, db: Database)
    requires Recoverable(env, disk, db)
    ensures Recoverable(env, disk, db.(pending := true))
  {
    hide UpToDate, Describes, Compatible;
    if db.manifest.Some? {
      forall p | p in db.files && env.isCpp(p) ensures UpToDate(env, disk, db.(pending := true), p) {
        SameRecord(env, disk, db, db.(pending := true), p);
      }
    }
  }

  lemma SameRecord(env: Env, disk: Disk, db: Database, next: Database, p: string)
    requires db.manifest.Some? && p in db.files && UpToDate(env, disk, db, p)
    requires next.manifest == db.manifest && p in next.files && next.files[p] == db.files[p]
    ensures UpToDate(env, disk, next, p)
  {
  }

  /** Deleting a stored file is safe when it is on disk, is no C-family file, or an update is marked as pending. */
  lemma DropKeeps(env: Env, disk: Disk, db: Database, p: string)
    requires Recoverable(env, disk, db)
    requires p in disk || !env.isCpp(p) || db.pending
    ensures Recoverable(env, disk, db.(files := db.files - {p}))
  {
    hide UpToDate, Compatible, HasContribution;
    var next := db.(files := db.files - {p});
    if db.manifest.Some? {
      forall q | q in next.files && env.isCpp(q) ensures UpToDate(env, disk, next, q) {
        SameRecord(env, disk, db, next, q);
      }
    }
  }

  lemma PutKeeps(env: Env, disk: Disk, db: Database, p: string, record: FileRecord)
    requires Recoverable(env, disk, db) && p in disk && record.content == disk[p]
    requires env.isCpp(p) ==> record.context == ContextOf(env, FullScan(env, disk))
    requires env.isCpp(p) && db.manifest.Some? && !db.pending ==> db.manifest.value == FullScan(env, disk)
    ensures Recoverable(env, disk, db.(files := db.files[p := record]))
  {
    hide SameFor, BuildContext, Compatible;
  }

  /** Publishing the candidate is safe once every stored file agrees with it. */
  lemma PublishKeeps(env: Env, disk: Disk, db: Database)
    requires Recoverable(env, disk, db) && CleanDisk(env, disk)
    requires forall p :: p in db.files && env.isCpp(p) ==>
        SameFor(db.files[p].content, db.files[p].context, ContextOf(env, FullScan(env, disk)))
    requires forall p :: p in db.files && env.isCpp(p) ==> p in disk
    ensures Recoverable(env, disk, db.(manifest := Some(FullScan(env, disk))))
    ensures Recoverable(env, disk, db.(manifest := Some(FullScan(env, disk)), ready := true))
    ensures Recoverable(env, disk, db.(manifest := Some(FullScan(env, disk)), ready := true, pending := false))
  {
    hide SameFor, BuildContext, CleanContributions, Affected;
    UnchangedAffectsNothing(ContextOf(env, FullScan(env, disk)));
  }

  /** The files after the stores of one sync: those listed and not failing are new, the others are as they were. */
  ghost predicate Stored(env: Env, disk: Disk, before: Database, files: map<string, FileRecord>, paths: set<string>,
      fails: set<string>, context: Context) {
    && (forall p :: p in files ==> p in disk)
    && (forall p :: p in paths && p !in fails ==>
        p in files && files[p] == FileRecord(disk[p], if env.isCpp(p) then context else NoContext))
    && (forall p :: p in disk && (p !in paths || p in fails) ==>
        (p in files <==> p in before.files) && (p in files ==> files[p] == before.files[p]))
  }

  function RecordFor(env: Env, disk: Disk, p: string, context: Context): FileRecord
    requires p in disk
  {
    FileRecord(disk[p], if env.isCpp(p) then context else NoContext)
  }

  /** The files once those listed are stored, except the failing ones. */
  ghost predicate StoredSoFar(env: Env, disk: Disk, before: map<string, FileRecord>, files: map<string, FileRecord>,
      paths: set<string>, fails: set<string>, context: Context)
  {
    && (forall p :: p in paths && p !in fails ==>
        p in disk && p in files && files[p] == RecordFor(env, disk, p, context))
    && (forall p :: p !in paths || p in fails ==>
          (p in files <==> p in before) && (p in files ==> files[p] == before[p]))
  }

  lemma NothingStored(env: Env, disk: Disk, files: map<string, FileRecord>, fails: set<string>, context: Context)
    ensures Elements([]) == {} && StoredSoFar(env, disk, files, files, {}, fails, context)
  {
  }

  lemma StoredOneMore(env: Env, disk: Disk, before: map<string, FileRecord>, files: map<string, FileRecord>,
      paths: set<string>, fails: set<string>, context: Context, p: string)
    requires StoredSoFar(env, disk, before, files, paths, fails, context) && p in disk
    ensures p in fails ==> StoredSoFar(env, disk, before, files, paths + {p}, fails, context)
    ensures p !in fails ==>
        StoredSoFar(env, disk, before, files[p := RecordFor(env, disk, p, context)], paths + {p}, fails, context)
  {
    hide RecordFor;
  }

  /** The stores of the planned paths, after the files gone from disk were dropped. */
  lemma PlanIsStored(env: Env, disk: Disk, before: Database, files: map<string, FileRecord>, planned: set<string>,
      fails: set<string>, context: Context, target: Context)
    requires planned <= disk.Keys && forall p :: p in planned && env.isCpp(p) ==> context == target
    requires StoredSoFar(env, disk, before.files - Removed(disk, before), files, planned, fails, context)
    ensures Stored(env, disk, before, files, planned, fails, target)
  {
  }

  /** After the stores, every C-family file agrees with the manifest of the disk. */
  lemma StoredFilesAgree(env: Env, disk: Disk, memory: Option<Contributions>, before: Database,
      files: map<string, FileRecord>, fails: set<string>, p: string)
    requires ValidEnv(env) && Recoverable(env, disk, before) && Trusted(memory, before)
    requires Reindexed(env, disk, memory, before) <= disk.Keys
    requires Stored(env, disk, before, files, Reindexed(env, disk, memory, before), fails,
        ContextOf(env, FullScan(env, disk)))
    requires NeedsWork(env, disk, before) || before.manifest == Some(FullScan(env, disk))
    requires p in files && env.isCpp(p)
    requires p in Reindexed(env, disk, memory, before) && p in fails ==>
        before.manifest.Some? && AffectedNames(env, disk, memory, before) == {}
    ensures p in disk && SameFor(files[p].content, files[p].context, ContextOf(env, FullScan(env, disk)))
    ensures p !in Reindexed(env, disk, memory, before) || p !in fails ==> files[p].content == disk[p]
  {
    hide SameFor, ContextOf, FullScan, Invalidated, AffectedNames, Compatible, Describes, NeedsWork, ValidEnv;
    var paths := Reindexed(env, disk, memory, before);
    SameForItself(disk[p], ContextOf(env, FullScan(env, disk)));
    if p !in paths {
      assert p in before.files && files[p] == before.files[p] && before.files[p].content == disk[p];
      KeptFileAgrees(env, disk, memory, before, p);
    } else if p in fails {
      assert UpToDate(env, disk, before, p);
      SameForItself(files[p].content, ContextOf(env, FullScan(env, disk)));
      if before.files[p].context != ContextOf(env, FullScan(env, disk)) {
        NothingAffected(env, disk, memory, before, files[p].content, files[p].context);
      }
    }
  }

  /**
   With nothing to do for the macro context, the published manifest already is that of a full
   scan, or there is none and no C-family file.
   */
  lemma NoWorkIsDone(env: Env, disk: Disk, memory: Option<Contributions>, db: Database)
    requires Recoverable(env, disk, db) && Trusted(memory, db) && !NeedsWork(env, disk, db)
    ensures db.manifest == Some(FullScan(env, disk)) ||
        (db.manifest.None? && !db.ready && Cpp(env, disk.Keys) == {} && Cpp(env, db.files.Keys) == {})
  {
    hide FullScan, UpToDate, Describes, Compatible;
    if db.manifest.Some? {
      CandidateIsFullScan(env, disk, memory, db);
      assert forall p :: p in db.manifest.value ==> env.isCpp(p) by { DescribesCppOnly(env, disk, db); }
      assert Candidate(env, disk, memory, db) == db.manifest.value;
    } else {
      assert Cpp(env, db.files.Keys) <= Cpp(env, db.files.Keys - Removed(disk, db)) + Cpp(env, Removed(disk, db));
    }
  }

  lemma DescribesCppOnly(env: Env, disk: Disk, db: Database)
    requires db.manifest.Some? && Describes(env, disk, db)
    ensures forall p :: p in db.manifest.value ==> env.isCpp(p)
  {
  }

  lemma NothingToAvoid(disk: Disk)
    ensures forall p :: p in disk ==> Avoids(disk[p], {})
  {
  }

  lemma ContextDefined(env: Env, contributions: Contributions)
    ensures BuildContext(Listing(env, contributions)) == ContextOf(env, contributions)
  {
  }

  /** The state in which publication starts: every C-family file agrees with the manifest of the disk. */
  lemma AllStoredAgree(env: Env, disk: Disk, memory: Option<Contributions>, before: Database,
      files: map<string, FileRecord>, fails: set<string>)
    requires ValidEnv(env) && Recoverable(env, disk, before) && Trusted(memory, before)
    requires Stored(env, disk, before, files, Reindexed(env, disk, memory, before), fails,
        ContextOf(env, FullScan(env, disk)))
    requires NeedsWork(env, disk, before) || before.manifest == Some(FullScan(env, disk))
    requires fails !! Reindexed(env, disk, memory, before) ||
        (Persisted(memory, before).Some? && AffectedNames(env, disk, memory, before) == {})
    ensures forall p :: p in files && env.isCpp(p) ==>
        SameFor(files[p].content, files[p].context, ContextOf(env, FullScan(env, disk)))
    ensures forall p :: p in files && env.isCpp(p) ==> p in disk
    ensures fails !! Reindexed(env, disk, memory, before) ==> forall p :: p in files && env.isCpp(p) ==>
        files[p].content == disk[p]
  {
    hide SameFor, ContextOf, FullScan, AffectedNames, Recoverable, ValidEnv, NeedsWork, Stored, Changed, Invalidated;
    assert Reindexed(env, disk, memory, before) <= disk.Keys by { PlanIsOnDisk(env, disk, memory, before); }
    forall p | p in files && env.isCpp(p)
      ensures p in disk && SameFor(files[p].content, files[p].context, ContextOf(env, FullScan(env, disk)))
      ensures fails !! Reindexed(env, disk, memory, before) ==> files[p].content == disk[p]
    {
      StoredFilesAgree(env, disk, memory, before, files, fails, p);
    }
  }

  lemma PlanIsOnDisk(env: Env, disk: Disk, memory: Option<Contributions>, db: Database)
    ensures Reindexed(env, disk, memory, db) <= disk.Keys
  {
    hide AffectedNames, Avoids;
  }

  /**
   What a sync that was not cut short leaves: the planned files stored under the context
   of the candidate, except those that failed, and, unless one failed while the meaning
   changed, the candidate published.
   */
  ghost predicate Leaves(env: Env, disk: Disk, memory: Option<Contributions>, before: Database, after: Database,
      fails: set<string>) {
    var planned := Reindexed(env, disk, memory, before);
    && Stored(env, disk, before, after.files, planned, fails, ContextOf(env, Candidate(env, disk, memory, before)))
    && if !NeedsWork(env, disk, before) then
         after.manifest == before.manifest && after.ready == before.ready && !after.pending
       else if !(fails !! planned) && MeaningChanged(env, disk, memory, before) then
         after.manifest == before.manifest && after.ready == before.ready && after.pending
       else
         after.manifest == Some(Candidate(env, disk, memory, before)) && after.ready && !after.pending
  }

  /**
   The sync starts from the manifest of a full scan, and every stored C-family file that
   it does not plan to store again agrees with it.
   */
  ghost predicate Settles(env: Env, disk: Disk, memory: Option<Contributions>, db: Database) {
    && (if NeedsWork(env, disk, db) then Candidate(env, disk, memory, db) == FullScan(env, disk)
        else db.manifest == Some(FullScan(env, disk)) || (db.manifest.None? && !db.ready && Cpp(env, disk.Keys) == {}))
    && forall p :: p in db.files && p in disk && env.isCpp(p) && p !in Reindexed(env, disk, memory, db) ==>
         SameFor(disk[p], db.files[p].context, ContextOf(env, FullScan(env, disk)))
  }

  /** A sync in which every store succeeded ends in a consistent index exactly if it settles it. */
  lemma CompletedIsConsistent(env: Env, disk: Disk, memory: Option<Contributions>, before: Database, after: Database,
      fails: set<string>)
    requires Leaves(env, disk, memory, before, after, fails) && fails !! Reindexed(env, disk, memory, before)
    ensures Consistent(env, disk, after) <==> Settles(env, disk, memory, before)
  {
    hide SameFor, ContextOf, FullScan, Candidate, AffectedNames, Invalidated, MeaningChanged;
    PlanIsOnDisk(env, disk, memory, before);
    if !NeedsWork(env, disk, before) { NoCppToStore(env, disk, memory, before); }
    assert forall p :: p in disk && env.isCpp(p) && p !in Reindexed(env, disk, memory, before) ==>
      p in before.files && before.files[p].content == disk[p];
    assert forall p :: p in disk && env.isCpp(p) ==> p in Cpp(env, disk.Keys);
    hide Reindexed, NeedsWork;
    if Settles(env, disk, memory, before) {
      forall p | p in after.files && env.isCpp(p)
        ensures after.files[p].content == disk[p]
        ensures SameFor(disk[p], after.files[p].context, ContextOf(env, FullScan(env, disk)))
      {
        SameForItself(disk[p], ContextOf(env, FullScan(env, disk)));
      }
    }
  }

  /** From a recoverable index and a trusted memory every sync settles the index. */
  lemma TrustedSettles(env: Env, disk: Disk, memory: Option<Contributions>, db: Database)
    requires ValidEnv(env) && Recoverable(env, disk, db) && Trusted(memory, db)
    ensures Settles(env, disk, memory, db)
  {
    hide SameFor, ContextOf, FullScan, AffectedNames, Recoverable, ValidEnv, NeedsWork, Reindexed, Candidate;
    CandidateIsFullScan(env, disk, memory, db);
    if !NeedsWork(env, disk, db) { NoWorkIsDone(env, disk, memory, db); }
    if NeedsWork(env, disk, db) || db.manifest == Some(FullScan(env, disk)) {
      forall p | p in db.files && p in disk && env.isCpp(p) && p !in Reindexed(env, disk, memory, db)
        ensures SameFor(disk[p], db.files[p].context, ContextOf(env, FullScan(env, disk)))
      {
        KeptFileAgrees(env, disk, memory, db, p);
      }
    } else {
      assert forall p :: p in disk && env.isCpp(p) ==> p in Cpp(env, disk.Keys);
    }
  }

  lemma NoCppToStore(env: Env, disk: Disk, memory: Option<Contributions>, db: Database)
    requires !NeedsWork(env, disk, db)
    ensures forall p :: p in Reindexed(env, disk, memory, db) ==> !env.isCpp(p)
    ensures Reindexed(env, disk, memory, db) == Changed(disk, db)
    ensures !db.pending && Cpp(env, Removed(disk, db)) == {}
  {
    assert forall p :: p in Changed(disk, db) && env.isCpp(p) ==> p in Cpp(env, Changed(disk, db));
  }

  // ---------------------------------------------------------------- what a sync leaves alone

  /** Beside these paths the two tables hold the same records. */
  ghost predicate SameBeside(before: map<string, FileRecord>, after: map<string, FileRecord>, paths: set<string>) {
    forall p :: p !in paths ==> (p in after <==> p in before) && (p in after ==> after[p] == before[p])
  }

  lemma SameBesideAll(files: map<string, FileRecord>, paths: set<string>)
    ensures SameBeside(files, files, paths)
  {
  }

  lemma SameBesideBoth(a: map<string, FileRecord>, b: map<string, FileRecord>, c: map<string, FileRecord>,
      some: set<string>, more: set<string>)
    requires SameBeside(a, b, some) && SameBeside(b, c, more)
    ensures SameBeside(a, c, some + more)
  {
  }

  /**
   The file is stored with the bytes it has on disk, and it is no C-family file or mentions no
   name that is affected by the change from the published manifest to that of the disk.
   */
  ghost predicate Unaffected(env: Env, disk: Disk, db: Database, p: string) {
    && p in db.files && p in disk && db.files[p].content == disk[p]
    && (env.isCpp(p) ==>
          && db.manifest.Some?
          && Avoids(disk[p], Affected(ContextOf(env, db.manifest.value), ContextOf(env, FullScan(env, disk)))))
  }

  /** From a recoverable index with a trusted memory an unaffected file is neither stored again nor removed. */
  lemma UnaffectedIsNotPlanned(env: Env, disk: Disk, memory: Option<Contributions>, db: Database, p: string)
    requires Recoverable(env, disk, db) && Trusted(memory, db) && Unaffected(env, disk, db, p)
    ensures p !in Reindexed(env, disk, memory, db) && p !in Removed(disk, db)
  {
    hide Affected, Avoids, ContextOf, FullScan, Candidate, Recoverable, NeedsWork;
    if db.manifest.Some? { CandidateIsFullScan(env, disk, memory, db); }
  }

  lemma UnaffectedIsKept(env: Env, disk: Disk, memory: Option<Contributions>, db: Database,
      files: map<string, FileRecord>)
    requires Recoverable(env, disk, db) && Trusted(memory, db)
    requires SameBeside(db.files, files, Removed(disk, db) + Reindexed(env, disk, memory, db))
    ensures forall p :: Unaffected(env, disk, db, p) ==> p in files && files[p] == db.files[p]
  {
    hide Recoverable, Reindexed, Removed;
    forall p | Unaffected(env, disk, db, p) ensures p in files && files[p] == db.files[p] {
      UnaffectedIsNotPlanned(env, disk, memory, db, p);
      assert p in db.files;
    }
  }

  lemma KeptBeside(env: Env, disk: Disk, memory: Option<Contributions>, db: Database, left: map<string, FileRecord>,
      files: map<string, FileRecord>, stored: set<string>)
    requires SameBeside(db.files, left, Removed(disk, db)) && SameBeside(left, files, stored)
    requires stored <= Reindexed(env, disk, memory, db)
    ensures Recoverable(env, disk, db) && Trusted(memory, db) ==>
        forall p :: Unaffected(env, disk, db, p) ==> p in files && files[p] == db.files[p]
  {
    hide Recoverable, Reindexed, Removed, Unaffected;
    SameBesideBoth(db.files, left, files, Removed(disk, db), stored);
    if Recoverable(env, disk, db) && Trusted(memory, db) {
      UnaffectedIsKept(env, disk, memory, db, files);
    }
  }

  /** Exactly the files on disk are stored, with their bytes. */
  ghost predicate Mirrors(files: map<string, FileRecord>, disk: Disk) {
    files.Keys == disk.Keys && forall p :: p in disk ==> files[p].content == disk[p]
  }

  lemma CompletedMirrors(env: Env, disk: Disk, memory: Option<Contributions>, before: Database, after: Database,
      fails: set<string>)
    requires Leaves(env, disk, memory, before, after, fails) && fails !! Reindexed(env, disk, memory, before)
    ensures Mirrors(after.files, disk)
  {
    hide ContextOf, Candidate, MeaningChanged, NeedsWork, Invalidated, FullScan;
    var planned := Reindexed(env, disk, memory, before);
    forall p | p in disk ensures p in after.files && after.files[p].content == disk[p] {
      if p !in planned {
        assert p !in Changed(disk, before);
      }
    }
  }

  /** The files stored are those on disk, the manifest is published, and no update is pending. */
  ghost predicate Idle(disk: Disk, db: Database) {
    Mirrors(db.files, disk) && db.ready && !db.pending
  }

  lemma IdleHasNoWork(env: Env, disk: Disk, memory: Option<Contributions>, db: Database)
    requires Idle(disk, db)
    ensures Changed(disk, db) == {} && Removed(disk, db) == {} && !NeedsWork(env, disk, db)
  {
  }

  // ---------------------------------------------------------------- the orchestrator

  datatype SyncOutcome = Crashed | Incomplete | Complete

  const NoContext := Context({}, {}, map[])

  function Elements(paths: seq<string>): set<string> {
    set p | p in paths
  }

  lemma ElementsGrow(env: Env, paths: seq<string>, k: nat)
    requires k < |paths|
    ensures Elements(paths[..k + 1]) == Elements(paths[..k]) + {paths[k]}
    ensures Cpp(env, Elements(paths[..k + 1])) != {} <==> Cpp(env, Elements(paths[..k])) != {} || env.isCpp(paths[k])
  {
    assert paths[..k + 1] == paths[..k] + [paths[k]];
    var before, after := Elements(paths[..k]), Elements(paths[..k + 1]);
    assert after == before + {paths[k]};
    hide Elements;
    assert Cpp(env, after) == Cpp(env, before) + Cpp(env, {paths[k]});
    assert env.isCpp(paths[k]) <==> paths[k] in Cpp(env, {paths[k]});
    assert forall p :: p in Cpp(env, {paths[k]}) ==> p == paths[k];
  }

  lemma StillSameBeside(a: map<string, FileRecord>, b: map<string, FileRecord>, c: map<string, FileRecord>,
      paths: seq<string>, p: string)
    requires SameBeside(a, b, Elements(paths)) && SameBeside(b, c, {p}) && p in paths
    ensures SameBeside(a, c, Elements(paths))
  {
    assert p in Elements(paths);
    hide Elements;
  }

  lemma MeetsOneMore(fails: set<string>, done: set<string>, p: string)
    ensures fails !! done + {p} <==> fails !! done && p !in fails
  {
  }

  lemma NoneIsCpp(env: Env)
    ensures Cpp(env, {}) == {}
  {
  }

  /**
   A C-family file may be stored under this context: it is that of the disk, and no other
   manifest counts as current.
   */
  ghost predicate MayStore(env: Env, disk: Disk, db: Database, context: Context) {
    && context == ContextOf(env, FullScan(env, disk))
    && (db.manifest.Some? && !db.pending ==> db.manifest.value == FullScan(env, disk))
  }

  lemma MayStoreStill(env: Env, disk: Disk, db: Database, next: Database, context: Context)
    requires next.manifest == db.manifest && next.pending == db.pending
    ensures MayStore(env, disk, db, context) ==> MayStore(env, disk, next, context)
  {
    hide ContextOf, FullScan;
  }

  class Orchestrator {
    var db: Database
    /** The manifest this process has installed; it dies with the process. */
    var memory: Option<Contributions>
    /** How many more writes reach the disk before the process dies. */
    var writesLeft: nat

    constructor (db: Database)
      ensures this.db == db && memory.None? && writesLeft == 0
    {
      this.db, memory, writesLeft := db, None, 0;
    }

    /** One durable write, or the crash that comes in its place. */
    method Write(next: Database) returns (ok: bool)
      modifies this
      ensures ok <==> old(writesLeft) > 0
      ensures ok ==> db == next && memory == old(memory) && writesLeft == old(writesLeft) - 1
      ensures !ok ==> db == old(db) && memory.None? && writesLeft == 0
    {
      ok := writesLeft > 0;
      if ok {
        db, writesLeft := next, writesLeft - 1;
      } else {
        memory := None;
      }
    }

    method MarkMacroContextPending(ghost env: Env, ghost disk: Disk) returns (ok: bool)
      modifies this
      ensures old(Recoverable(env, disk, db)) ==> Recoverable(env, disk, db)
      ensures ok ==> db == old(db).(pending := true) && memory == old(memory) && old(writesLeft) <= writesLeft + 1
      ensures !ok ==> db == old(db) && memory.None? && writesLeft == 0 == old(writesLeft)
    {
      hide Recoverable;
      if Recoverable(env, disk, db) { MarkKeeps(env, disk, db); }
      ok := true;
      if !db.pending {
        ok := Write(db.(pending := true));
      }
    }

    /** Delete the record of a file, marking first when it is a C-family one. */
    method DropRecord(env: Env, ghost disk: Disk, p: string) returns (ok: bool)
      modifies this
      ensures old(Recoverable(env, disk, db)) ==> Recoverable(env, disk, db)
      ensures ok ==> db == old(db).(files := old(db.files) - {p}, pending := old(db.pending) || env.isCpp(p))
      ensures ok ==> memory == old(memory)
      ensures db.manifest == old(db.manifest) && db.ready == old(db.ready)
      ensures !ok ==> db.files == old(db.files) && memory.None? && writesLeft == 0 && old(writesLeft) < 2
      ensures old(writesLeft) <= writesLeft + 2 && SameBeside(old(db.files), db.files, {p})
    {
      hide Recoverable;
      if env.isCpp(p) {
        ok := MarkMacroContextPending(env, disk);
        if !ok { return; }
      }
      if Recoverable(env, disk, db) { DropKeeps(env, disk, db, p); }
      ok := Write(db.(files := db.files - {p}));
    }

    /** Delete the records of the files that are gone, marking first when a C-family file is among them. */
    method RemoveMissing(env: Env, disk: Disk) returns (ok: bool)
      requires ValidEnv(env)
      modifies this
      ensures old(Recoverable(env, disk, db)) ==> Recoverable(env, disk, db)
      ensures db.manifest == old(db.manifest) && db.ready == old(db.ready)
      ensures ok ==> db.files == old(db.files) - Removed(disk, old(db)) && memory == old(memory)
      ensures ok ==> db.pending == (old(db.pending) || Cpp(env, Removed(disk, old(db))) != {})
      ensures db.files.Keys <= old(db.files.Keys)
      ensures !ok ==> memory.None? && writesLeft == 0
      ensures old(writesLeft) <= writesLeft + 2 * |Removed(disk, old(db))|
      ensures !ok ==> old(writesLeft) < 2 * |Removed(disk, old(db))|
      ensures SameBeside(old(db.files), db.files, Removed(disk, old(db)))
      ensures Removed(disk, old(db)) == {} ==> ok && db == old(db) && memory == old(memory)
      ensures Removed(disk, old(db)) == {} ==> writesLeft == old(writesLeft)
    {
      hide Recoverable, ValidEnv, Removed, Cpp;
      ghost var removed := Removed(disk, db);
      var gone := env.order(Removed(disk, db));
      InOrder(env, removed);
      assert Elements(gone[..0]) == {};
      NoneIsCpp(env);
      for k := 0 to |gone|
        invariant old(Recoverable(env, disk, db)) ==> Recoverable(env, disk, db)
        invariant memory == old(memory) && old(writesLeft) <= writesLeft + 2 * k
        invariant db.manifest == old(db.manifest) && db.ready == old(db.ready)
        invariant db.files == old(db.files) - Elements(gone[..k])
        invariant k == 0 ==> db == old(db) && writesLeft == old(writesLeft)
        invariant db.pending == (old(db.pending) || Cpp(env, Elements(gone[..k])) != {})
      {
        ElementsGrow(env, gone, k);
        assert gone[k] in gone;
        ok := DropRecord(env, disk, gone[k]);
        if !ok { return; }
      }
      ok := true;
      assert gone[..|gone|] == gone;
      assert Elements(gone) == removed;
    }

    /** Delete the old record of a file, then write the new one. */
    method StoreFile(env: Env, disk: Disk, p: string, context: Context, ghost good: bool) returns (ok: bool)
      requires p in disk
      requires good ==> Recoverable(env, disk, db)
      requires good && env.isCpp(p) ==> MayStore(env, disk, db, context)
      modifies this
      ensures good ==> Recoverable(env, disk, db)
      ensures ok ==> db == old(db).(files := old(db.files)[p := RecordFor(env, disk, p, context)])
      ensures ok ==> memory == old(memory)
      ensures db == old(db).(files := db.files) && db.files.Keys <= old(db.files.Keys) + {p}
      ensures !ok ==> memory.None? && writesLeft == 0 && old(writesLeft) < 2
      ensures old(writesLeft) <= writesLeft + 2 && SameBeside(old(db.files), db.files, {p})
    {
      hide Recoverable, ContextOf, FullScan;
      if p in db.files {
        if good { DropKeeps(env, disk, db, p); }
        ok := Write(db.(files := db.files - {p}));
        if !ok { return; }
        assert (old(db.files) - {p})[p := RecordFor(env, disk, p, context)] ==
          old(db.files)[p := RecordFor(env, disk, p, context)];
      }
      var record := FileRecord(disk[p], if env.isCpp(p) then context else NoContext);
      if good { PutKeeps(env, disk, db, p, record); }
      ok := Write(db.(files := db.files[p := record]));
    }

    /** Store each listed file that parses. */
    method StoreAll(env: Env, disk: Disk, paths: seq<string>, fails: set<string>, context: Context, ghost good: bool)
      returns (ok: bool, failed: bool)
      requires forall p :: p in paths ==> p in disk
      requires good ==> Recoverable(env, disk, db)
      requires good ==> forall p :: p in paths && env.isCpp(p) ==> MayStore(env, disk, db, context)
      modifies this
      ensures good ==> Recoverable(env, disk, db)
      ensures db == old(db).(files := db.files) && db.files.Keys <= old(db.files.Keys) + disk.Keys
      ensures ok ==> StoredSoFar(env, disk, old(db.files), db.files, Elements(paths), fails, context)
      ensures ok ==> memory == old(memory) && (failed <==> !(fails !! Elements(paths)))
      ensures !ok ==> memory.None? && writesLeft == 0
      ensures old(writesLeft) <= writesLeft + 2 * |paths|
      ensures !ok ==> old(writesLeft) < 2 * |paths|
      ensures SameBeside(old(db.files), db.files, Elements(paths))
      ensures paths == [] ==> ok && db == old(db) && writesLeft == old(writesLeft)
    {
      hide Recoverable, ContextOf, FullScan, RecordFor, SameBeside, StoredSoFar, MayStore, Elements;
      SameBesideAll(db.files, Elements(paths));
      NothingStored(env, disk, db.files, fails, context);
      failed := false;
      assert paths[..0] == [];
      for k := 0 to |paths|
        invariant good ==> Recoverable(env, disk, db)
        invariant db == old(db).(files := db.files) && memory == old(memory)
        invariant StoredSoFar(env, disk, old(db.files), db.files, Elements(paths[..k]), fails, context)
        invariant failed <==> !(fails !! Elements(paths[..k]))
        invariant db.files.Keys <= old(db.files.Keys) + disk.Keys
        invariant old(writesLeft) <= writesLeft + 2 * k
        invariant SameBeside(old(db.files), db.files, Elements(paths))
        invariant k == 0 ==> db == old(db) && writesLeft == old(writesLeft)
      {
        var p := paths[k];
        assert p in paths;
        ElementsGrow(env, paths, k);
        MeetsOneMore(fails, Elements(paths[..k]), p);
        MayStoreStill(env, disk, old(db), db, context);
        StoredOneMore(env, disk, old(db.files), db.files, Elements(paths[..k]), fails, context, p);
        if p in fails {
          failed := true;
          continue;
        }
        ghost var was := db.files;
        ok := StoreFile(env, disk, p, context, good);
        StillSameBeside(old(db.files), was, db.files, paths, p);
        if !ok { return; }
      }
      ok := true;
      assert paths[..|paths|] == paths;
    }

    /** The three writes that publish the candidate. */
    method Publish(candidate: Contributions, ghost env: Env, ghost disk: Disk, ghost good: bool) returns (ok: bool)
      requires good ==> candidate == FullScan(env, disk) && Recoverable(env, disk, db) && CleanDisk(env, disk)
      requires good ==> forall p :: p in db.files && env.isCpp(p) ==>
          SameFor(db.files[p].content, db.files[p].context, ContextOf(env, FullScan(env, disk)))
      requires good ==> forall p :: p in db.files && env.isCpp(p) ==> p in disk
      modifies this
      ensures good ==> Recoverable(env, disk, db)
      ensures db.files == old(db.files)
      ensures ok ==>
          db == old(db).(manifest := Some(candidate), ready := true, pending := false) && memory == old(memory)
      ensures !ok ==> memory.None? && writesLeft == 0 && old(writesLeft) < 3
      ensures old(writesLeft) <= writesLeft + 3
    {
      hide Recoverable, SameFor, ContextOf, FullScan, CleanDisk;
      if good { PublishKeeps(env, disk, db); }
      ok := Write(db.(manifest := Some(candidate)));
      if ok {
        ok := Write(db.(ready := true));
      }
      if ok {
        ok := Write(db.(pending := false));
      }
    }

    /** The unchanged C-family files that mention an affected name, or all of them when forced. */
    method Invalidate(env: Env, disk: Disk, changed: set<string>, force: bool, affected: set<string>)
      returns (paths: seq<string>)
      requires ValidEnv(env)
      ensures forall p :: p in paths <==>
          p in disk && env.isCpp(p) && p !in changed && (force || !Avoids(disk[p], affected))
      ensures |paths| <= |disk|
    {
      hide Avoids;
      paths := [];
      var files := env.order(Cpp(env, disk.Keys));
      for k := 0 to |files|
        invariant forall p :: p in paths <==>
            p in files[..k] && p in disk && p !in changed && (force || !Avoids(disk[p], affected))
        invariant |paths| <= k
      {
        var p := files[k];
        assert p in files && files[..k + 1] == files[..k] + [p];
        if p !in changed {
          var references := SourceReferencesAnyCppMacro(disk[p], affected);
          if force || references {
            paths := paths + [p];
          }
        }
      }
      assert files[..|files|] == files;
      Smaller(Cpp(env, disk.Keys), disk.Keys);
    }

    /** The affected names, by building both contexts and comparing them. */
    method DiffManifests(env: Env, previous: Contributions, current: Contributions) returns (affected: set<string>)
      ensures affected == Affected(ContextOf(env, previous), ContextOf(env, current))
    {
      hide Affected, ChangedNames, BuildContext;
      var first := BuildCppMacroContext(Listing(env, previous));
      var second := BuildCppMacroContext(Listing(env, current));
      var _, names := DiffCppMacroContexts(first, second);
      return names;
    }

    /**
     Decide what to index again: the candidate manifest, whether the meaning of the
     context changed, and the paths to store. Marks the update as pending before any
     store that depends on it.
     */
    method PlanIndexing(env: Env, disk: Disk, before: Database, ghost remembered: Option<Contributions>)
      returns (ok: bool, candidate: Contributions, semanticsChanged: bool, paths: seq<string>)
      requires ValidEnv(env) && NeedsWork(env, disk, before)
      requires memory == remembered && before.manifest == db.manifest
      modifies this
      ensures old(Recoverable(env, disk, db)) ==> Recoverable(env, disk, db)
      ensures db == old(db).(pending := db.pending)
      ensures ok ==> candidate == Candidate(env, disk, remembered, before) && memory == Some(candidate)
      ensures ok ==> semanticsChanged == MeaningChanged(env, disk, remembered, before)
      ensures ok && semanticsChanged ==> db.pending
      ensures ok && !db.pending ==> Persisted(remembered, before) == Some(candidate)
      ensures ok ==> forall p :: p in paths <==> p in Reindexed(env, disk, remembered, before)
      ensures ok ==> |paths| <= 2 * |disk|
      ensures old(writesLeft) <= writesLeft + 2
      ensures !ok ==> memory.None? && writesLeft == 0 && old(writesLeft) < 2
    {
      hide Affected, Avoids, Recoverable, Candidate, NeedsWork, Changed, ContextOf, FullScan, Cpp, Removed;
      semanticsChanged := false;
      paths := env.order(Changed(disk, before));
      ChangedIsSmall(disk, before);
      var persisted := Persisted(memory, before);
      candidate := Candidate(env, disk, memory, before);
      ok := true;
      if persisted != Some(candidate) {
        ok := MarkMacroContextPending(env, disk);
        if !ok { return; }
      }
      memory := Some(candidate);
      assert old(Recoverable(env, disk, db)) ==> Recoverable(env, disk, db);
      var affected := {};
      if persisted.Some? {
        affected := DiffManifests(env, persisted.value, candidate);
      }
      semanticsChanged := persisted.None? || affected != {};
      if semanticsChanged {
        ok := MarkMacroContextPending(env, disk);
        if !ok { return; }
        var consumers := Invalidate(env, disk, Changed(disk, before), persisted.None?, affected);
        paths := paths + consumers;
      } else {
        assert forall p :: p in disk ==> Avoids(disk[p], {}) by { NothingToAvoid(disk); }
      }
    }

    /**
     One sync. It touches no file that is unaffected, and writes nothing when nothing is to be
     done. One that is not cut short leaves the state described by `Leaves`, and one that
     completes mirrors the disk and makes the index consistent exactly if it settles it, from
     any database and with any manifest in memory. From a recoverable database, when that
     manifest is absent or the published one, every write leaves the database recoverable,
     and a sync that completes leaves it consistent. With enough writes left it is not cut
     short.
     */
    method Sync(env: Env, disk: Disk, fails: set<string>) returns (outcome: SyncOutcome)
      requires ValidEnv(env)
      modifies this
      ensures !outcome.Crashed? ==> Leaves(env, disk, old(memory), old(db), db, fails)
      ensures !outcome.Crashed? ==>
          memory == if NeedsWork(env, disk, old(db)) then Some(Candidate(env, disk, old(memory), old(db)))
              else old(memory)
      ensures !outcome.Crashed? ==> (outcome.Complete? <==> fails !! Reindexed(env, disk, old(memory), old(db)))
      ensures outcome.Complete? ==> (Consistent(env, disk, db) <==> Settles(env, disk, old(memory), old(db)))
      ensures CleanDisk(env, disk) && old(Recoverable(env, disk, db) && Trusted(memory, db)) ==>
          Recoverable(env, disk, db) && (outcome.Complete? ==> Consistent(env, disk, db) && Trusted(memory, db))
      ensures outcome.Crashed? ==> memory.None? && writesLeft == 0 && old(writesLeft) < Budget(disk, old(db))
      ensures old(writesLeft) <= writesLeft + Budget(disk, old(db))
      ensures db.files.Keys <= old(db.files.Keys) + disk.Keys
      ensures outcome.Complete? ==> Mirrors(db.files, disk)
      ensures old(Recoverable(env, disk, db) && Trusted(memory, db)) ==>
          forall p :: Unaffected(env, disk, old(db), p) ==> p in db.files && db.files[p] == old(db.files)[p]
      ensures Idle(disk, old(db)) ==>
          outcome == Complete && db == old(db) && memory == old(memory) && writesLeft == old(writesLeft)
    {
      hide Recoverable, CleanDisk, SameBeside, Unaffected, Mirrors, Idle, Removed, SameFor, ContextOf, FullScan,
           Candidate, AffectedNames, Avoids, Changed, MeaningChanged, NeedsWork, ValidEnv, Leaves, Consistent, Settles,
           Reindexed;
      var before := db;
      ghost var remembered := memory;
      ghost var trusted := CleanDisk(env, disk) && Recoverable(env, disk, db) && Trusted(memory, db);
      var work := NeedsWork(env, disk, db);
      RemovedIsSmall(disk, before);
      if Idle(disk, before) { IdleHasNoWork(env, disk, remembered, before); }
      var ok := RemoveMissing(env, disk);
      SameBesideAll(db.files, {});
      KeptBeside(env, disk, remembered, before, db.files, db.files, {});
      if !ok { return Crashed; }
      ghost var left := db.files;
      if !work { NoCppToStore(env, disk, remembered, before); }
      outcome := PlanAndStore(env, disk, fails, before, remembered, work, trusted);
      KeptBeside(env, disk, remembered, before, left, db.files, Reindexed(env, disk, remembered, before));
      if outcome.Complete? {
        CompletedMirrors(env, disk, remembered, before, db, fails);
        CompletedIsConsistent(env, disk, remembered, before, db, fails);
        if trusted { TrustedSettles(env, disk, remembered, before); }
      }
    }

    /** What a sync does once the files that are gone are removed. */
    method PlanAndStore(env: Env, disk: Disk, fails: set<string>, before: Database,
        ghost remembered: Option<Contributions>, work: bool, ghost trusted: bool)
      returns (outcome: SyncOutcome)
      requires ValidEnv(env) && work == NeedsWork(env, disk, before) && memory == remembered
      requires db.files == before.files - Removed(disk, before)
      requires db.manifest == before.manifest && db.ready == before.ready
      requires !work ==> !db.pending
      requires trusted ==> CleanDisk(env, disk) && Trusted(remembered, before) && Recoverable(env, disk, before)
      requires trusted ==> Recoverable(env, disk, db)
      modifies this
      ensures trusted ==> Recoverable(env, disk, db) && (outcome.Complete? ==> Trusted(memory, db))
      ensures !outcome.Crashed? ==> Leaves(env, disk, remembered, before, db, fails)
      ensures !outcome.Crashed? ==>
          memory == if work then Some(Candidate(env, disk, remembered, before)) else remembered
      ensures !outcome.Crashed? ==> (outcome.Complete? <==> fails !! Reindexed(env, disk, remembered, before))
      ensures outcome.Crashed? ==> memory.None? && writesLeft == 0 && old(writesLeft) < 4 * |disk| + 5
      ensures old(writesLeft) <= writesLeft + 4 * |disk| + 5
      ensures db.files.Keys <= before.files.Keys + disk.Keys
      ensures SameBeside(old(db.files), db.files, Reindexed(env, disk, remembered, before))
      ensures Changed(disk, before) == {} && !work ==>
          outcome == Complete && db == old(db) && writesLeft == old(writesLeft)
    {
      hide Recoverable, CleanDisk, SameBeside, Removed, SameFor, ContextOf, FullScan, Candidate, AffectedNames, Avoids,
           Changed, MeaningChanged, NeedsWork, ValidEnv, Leaves, Reindexed;
      if !work {
        NoCppToStore(env, disk, remembered, before);
        ChangedIsSmall(disk, before);
        InOrder(env, Changed(disk, before));
        outcome := StoreAndPublish(env, disk, env.order(Changed(disk, before)), fails, None, false, before, remembered,
            trusted);
      } else {
        var planned, candidate, semanticsChanged, paths := PlanIndexing(env, disk, before, remembered);
        SameBesideAll(db.files, Reindexed(env, disk, remembered, before));
        if !planned { return Crashed; }
        if trusted { CandidateIsFullScan(env, disk, remembered, before); }
        outcome := StoreAndPublish(env, disk, paths, fails, Some(candidate), semanticsChanged, before, remembered,
            trusted);
      }
    }

    /** The stores of the planned paths, and the publication when they warrant it. */
    method StoreAndPublish(env: Env, disk: Disk, paths: seq<string>, fails: set<string>,
        candidate: Option<Contributions>, semanticsChanged: bool, ghost before: Database,
        ghost remembered: Option<Contributions>, ghost trusted: bool)
      returns (outcome: SyncOutcome)
      requires forall p :: p in paths <==> p in Reindexed(env, disk, remembered, before)
      requires candidate.Some? <==> NeedsWork(env, disk, before)
      requires candidate.None? ==> !db.pending && forall p :: p in paths ==> !env.isCpp(p)
      requires candidate.Some? ==> candidate.value == Candidate(env, disk, remembered, before)
      requires candidate.Some? ==> semanticsChanged == MeaningChanged(env, disk, remembered, before)
      requires candidate.Some? && semanticsChanged ==> db.pending
      requires candidate.Some? && !db.pending ==> Persisted(remembered, before) == candidate
      requires db.files == before.files - Removed(disk, before)
      requires db.manifest == before.manifest && db.ready == before.ready
      requires memory == if candidate.Some? then candidate else remembered
      requires trusted ==> ValidEnv(env) && CleanDisk(env, disk)
      requires trusted ==> Trusted(remembered, before) && Recoverable(env, disk, before) && Recoverable(env, disk, db)
      requires trusted && candidate.Some? ==> candidate.value == FullScan(env, disk)
      modifies this
      ensures trusted ==> Recoverable(env, disk, db)
      ensures trusted && outcome.Complete? ==> Trusted(memory, db)
      ensures !outcome.Crashed? ==> Leaves(env, disk, remembered, before, db, fails) && memory == old(memory)
      ensures !outcome.Crashed? ==> (outcome.Complete? <==> fails !! Reindexed(env, disk, remembered, before))
      ensures outcome.Crashed? ==> memory.None? && writesLeft == 0 && old(writesLeft) < 2 * |paths| + 3
      ensures old(writesLeft) <= writesLeft + 2 * |paths| + 3
      ensures db.files.Keys <= before.files.Keys + disk.Keys
      ensures SameBeside(old(db.files), db.files, Reindexed(env, disk, remembered, before))
      ensures paths == [] && candidate.None? ==> outcome == Complete && db == old(db) && writesLeft == old(writesLeft)
    {
      hide Recoverable, SameBeside, CleanDisk, SameFor, ContextOf, FullScan, Candidate, AffectedNames, Reindexed,
           NeedsWork, ValidEnv, Stored;
      PlanIsOnDisk(env, disk, remembered, before);
      var context := NoContext;
      if candidate.Some? {
        context := BuildCppMacroContext(Listing(env, candidate.value));
        ContextDefined(env, candidate.value);
      }
      assert Elements(paths) == Reindexed(env, disk, remembered, before);
      var ok, failed := StoreAll(env, disk, paths, fails, context, trusted);
      if !ok { return Crashed; }
      PlanIsStored(env, disk, before, db.files, Reindexed(env, disk, remembered, before), fails, context,
                   ContextOf(env, Candidate(env, disk, remembered, before)));
      if candidate.Some? && (!semanticsChanged || !failed) {
        if trusted {
          AllStoredAgree(env, disk, remembered, before, db.files, fails);
        }
        ok := Publish(candidate.value, env, disk, trusted);
        if !ok { return Crashed; }
      }
      outcome := if failed then Incomplete else Complete;
    }
  }

  /** A bound on the writes of one sync: marks, deletions, stores and the publication. */
  function Budget(disk: Disk, db: Database): nat {
    2 * |db.files| + 4 * |disk| + 5
  }

  lemma Smaller<T>(a: set<T>, b: set<T>)
    requires a <= b
    ensures |a| <= |b|
  {
    assert a + (b - a) == b;
  }

  lemma ChangedIsSmall(disk: Disk, db: Database)
    ensures |Changed(disk, db)| <= |disk|
  {
    Smaller(Changed(disk, db), disk.Keys);
  }

  lemma RemovedIsSmall(disk: Disk, db: Database)
    ensures |Removed(disk, db)| <= |db.files| && Removed(disk, db) !! disk.Keys
  {
    Smaller(Removed(disk, db), db.files.Keys);
  }

  lemma InOrder(env: Env, s: set<string>)
    requires ValidEnv(env)
    ensures |env.order(s)| == |s| && forall p :: p in env.order(s) <==> p in s
  {
  }

  // ---------------------------------------------------------------- whole runs

  /** One interrupted attempt: the files that fail to parse, and the number of writes before the process dies. */
  datatype Attempt = Attempt(fails: set<string>, writes: nat)

  /**
   From an index consistent with some earlier disk, any number of syncs of the present
   disk may fail to parse files or die after any write, each followed by a restart. One
   more sync that is not cut short and parses every file makes the index consistent, and
   with enough writes left it is not cut short.
   */
  method RecoverAfterCrashes(o: Orchestrator, env: Env, ghost before: Disk, disk: Disk, attempts: seq<Attempt>,
      writes: nat)
    returns (outcome: SyncOutcome)
    requires ValidEnv(env) && CleanEdit(env, before, disk)
    requires Consistent(env, before, o.db) && Trusted(o.memory, o.db)
    modifies o
    ensures Recoverable(env, disk, o.db)
    ensures !outcome.Incomplete?
    ensures outcome.Complete? ==> Consistent(env, disk, o.db) && Trusted(o.memory, o.db)
    ensures outcome.Crashed? ==> o.memory.None? && o.writesLeft == 0 && writes < 2 * |old(o.db.files)| + 6 * |disk| + 5
  {
    hide Recoverable, Consistent, CleanDisk, CleanEdit, ValidEnv, Leaves, Settles;
    CleanEditIsClean(env, before, disk);
    ConsistentIsRecoverable(env, before, disk, o.db);
    for k := 0 to |attempts|
      invariant Recoverable(env, disk, o.db) && Trusted(o.memory, o.db)
      invariant o.db.files.Keys <= old(o.db.files.Keys) + disk.Keys
    {
      o.writesLeft := attempts[k].writes;
      var _ := o.Sync(env, disk, attempts[k].fails);
      o.memory := None;
    }
    o.writesLeft := writes;
    Smaller(o.db.files.Keys, old(o.db.files.Keys) + disk.Keys);
    outcome := o.Sync(env, disk, {});
  }

  /** What becomes of one state of the disk: interrupted attempts to sync it, and then one with this many writes. */
  datatype Edit = Edit(disk: Disk, attempts: seq<Attempt>, writes: nat)

  /** The disk after so many edits. */
  function DiskAfter(before: Disk, edits: seq<Edit>, done: nat): Disk
    requires done <= |edits|
  {
    if done == 0 then before else edits[done - 1].disk
  }

  /**
   Whenever the disk is edited only after a sync of its last state completed, the index
   keeps up with it, through all interruptions in between. `done` edits are synced when
   the writes of a last sync are used up.
   */
  method KeepUp(o: Orchestrator, env: Env, ghost before: Disk, edits: seq<Edit>) returns (done: nat)
    requires ValidEnv(env)
    requires forall k :: 0 <= k < |edits| ==>
        CleanEdit(env, DiskAfter(before, edits, k), DiskAfter(before, edits, k + 1))
    requires Consistent(env, before, o.db) && Trusted(o.memory, o.db)
    modifies o
    ensures done <= |edits|
    ensures done == |edits| ==> Consistent(env, DiskAfter(before, edits, done), o.db)
    ensures done < |edits| ==> Recoverable(env, edits[done].disk, o.db) && o.memory.None? && o.writesLeft == 0
  {
    hide Recoverable, Consistent, CleanEdit, ValidEnv;
    done := 0;
    ghost var current := before;
    while done < |edits|
      invariant done <= |edits| && current == DiskAfter(before, edits, done)
      invariant Consistent(env, current, o.db) && Trusted(o.memory, o.db)
    {
      var edit := edits[done];
      assert CleanEdit(env, DiskAfter(before, edits, done), DiskAfter(before, edits, done + 1));
      var outcome := RecoverAfterCrashes(o, env, current, edit.disk, edit.attempts, edit.writes);
      if outcome.Crashed? {
        return;
      }
      current, done := edit.disk, done + 1;
    }
  }

  /**
   In a consistent index every stored file has the expansion the current context gives it,
   if the one it was stored with was regular, and if the file mentions no name through
   which a macro that changed its spacing since can reach it.
   */
  lemma ConsistentExpansions(env: Env, disk: Disk, db: Database, p: string, scope: Scope)
    requires Consistent(env, disk, db) && p in db.files && env.isCpp(p)
    requires RegularUnder(disk[p], db.files[p].context, scope)
    requires Respelled(db.files[p].context, ContextOf(env, FullScan(env, disk))) == {} ||
        (ValidEnv(env)
         && CleanContributions(FullScan(env, disk),
             Respellings(db.files[p].context, ContextOf(env, FullScan(env, disk))))
         && Avoids(disk[p], Respellings(db.files[p].context, ContextOf(env, FullScan(env, disk)))))
    ensures db.files[p].content == disk[p]
    ensures var current := ContextOf(env, FullScan(env, disk));
            Expanded(disk[p], ProjectOf(db.files[p].context, disk[p], scope)) ==
                Expanded(disk[p], ProjectOf(current, disk[p], scope))
  {
    hide Avoids, SameMeaning, SameText, Respelled, Respellings, RegularUnder, Expanded, BuildContext, ValidEnv,
         CleanContributions, WellFormedContext;
    var stored, current := db.files[p].context, ContextOf(env, FullScan(env, disk));
    var names: set<string> :| Avoids(disk[p], names) && SameMeaning(stored, current, names);
    if Respelled(stored, current) == {} {
      SameMeaningToTheLetter(stored, current, names);
      SameTextSameExpansion(stored, current, names, disk[p], scope);
    } else {
      ContextIsWellFormed(env, FullScan(env, disk), Respellings(stored, current));
      RespelledApart(stored, current, names);
      AvoidsBoth(disk[p], names, Respellings(stored, current));
      SameTextSameExpansion(stored, current, names + Respellings(stored, current), disk[p], scope);
    }
  }

  // ---------------------------------------------------------------- a retry in the same process

  /** The files that failed, though unchanged, were stored under a context that agrees with the present one. */
  ghost predicate FailuresAgree(env: Env, disk: Disk, memory: Option<Contributions>, db: Database, fails: set<string>) {
    forall p :: p in fails && p in Invalidated(env, disk, memory, db) && p in db.files ==>
      SameFor(disk[p], db.files[p].context, ContextOf(env, FullScan(env, disk)))
  }

  lemma InvalidatedIsStored(env: Env, disk: Disk, memory: Option<Contributions>, db: Database, p: string)
    requires p in disk && env.isCpp(p) && p in Reindexed(env, disk, memory, db)
    ensures p in Invalidated(env, disk, memory, db) <==> p !in Changed(disk, db)
  {
    hide AffectedNames, NeedsWork, Avoids;
  }

  /**
   After a sync that stored less than it planned while the meaning changed, the manifest
   in memory is that of the disk already. The next sync compares it with itself, so it
   plans the edited files only.
   */
  lemma RetryPlansEditedFiles(env: Env, disk: Disk, db: Database)
    requires db.pending
    ensures Reindexed(env, disk, Some(FullScan(env, disk)), db) == Changed(disk, db)
  {
    hide Affected, Avoids, ContextOf, FullScan, Changed;
    assert AffectedNames(env, disk, Some(FullScan(env, disk)), db) == {} by {
      UnchangedAffectsNothing(ContextOf(env, FullScan(env, disk)));
    }
    NothingToAvoid(disk);
  }

  lemma RetrySettles(env: Env, disk: Disk, memory: Option<Contributions>, before: Database, middle: Database,
      fails: set<string>)
    requires ValidEnv(env) && Recoverable(env, disk, before) && Trusted(memory, before)
    requires NeedsWork(env, disk, before) && MeaningChanged(env, disk, memory, before)
    requires Leaves(env, disk, memory, before, middle, fails) && !(fails !! Reindexed(env, disk, memory, before))
    ensures Settles(env, disk, Some(FullScan(env, disk)), middle) <==> FailuresAgree(env, disk, memory, before, fails)
  {
    hide SameFor, ContextOf, FullScan, Candidate, AffectedNames, Invalidated, MeaningChanged, Recoverable, ValidEnv;
    var target := ContextOf(env, FullScan(env, disk));
    CandidateIsFullScan(env, disk, memory, before);
    PlanIsOnDisk(env, disk, memory, before);
    RetryPlansEditedFiles(env, disk, middle);
    assert Candidate(env, disk, Some(FullScan(env, disk)), middle) == FullScan(env, disk) by {
      PendingScans(env, disk, middle);
    }
    assert NeedsWork(env, disk, middle);
    hide Reindexed, NeedsWork;
    if FailuresAgree(env, disk, memory, before, fails) {
      forall p | p in middle.files && p in disk && env.isCpp(p) && p !in Changed(disk, middle)
        ensures SameFor(disk[p], middle.files[p].context, target)
      {
        SameForItself(disk[p], target);
        if p !in Reindexed(env, disk, memory, before) {
          PlannedOrKept(env, disk, memory, before, p);
          KeptFileAgrees(env, disk, memory, before, p);
        } else if p in fails {
          InvalidatedIsStored(env, disk, memory, before, p);
        }
      }
    }
    if Settles(env, disk, Some(FullScan(env, disk)), middle) {
      forall p | p in fails && p in Invalidated(env, disk, memory, before) && p in before.files
        ensures SameFor(disk[p], before.files[p].context, target)
      {
        InvalidatedIsPlanned(env, disk, memory, before, p);
      }
    }
  }

  lemma PendingScans(env: Env, disk: Disk, db: Database)
    requires db.pending
    ensures Candidate(env, disk, Some(FullScan(env, disk)), db) == FullScan(env, disk)
  {
  }

  lemma PlannedOrKept(env: Env, disk: Disk, memory: Option<Contributions>, db: Database, p: string)
    requires p in disk && p !in Reindexed(env, disk, memory, db)
    ensures p in db.files && db.files[p].content == disk[p]
  {
    hide Invalidated;
  }

  lemma InvalidatedIsPlanned(env: Env, disk: Disk, memory: Option<Contributions>, db: Database, p: string)
    requires p in Invalidated(env, disk, memory, db)
    ensures p in disk && env.isCpp(p) && p !in Changed(disk, db) && p in Reindexed(env, disk, memory, db)
  {
    hide AffectedNames, NeedsWork, Avoids;
  }

  /**
   A sync of a consistent index in which `fails` do not parse, and a second one in the
   same process in which every file does. The second publishes the manifest and clears
   the mark, and yet the index is consistent only if the files that failed although they
   had not changed agree with the new context as they were stored before.
   */
  method RetryInSameProcess(o: Orchestrator, env: Env, ghost before: Disk, disk: Disk, fails: set<string>)
    returns (first: SyncOutcome, second: SyncOutcome)
    requires ValidEnv(env) && CleanEdit(env, before, disk)
    requires Consistent(env, before, o.db) && Trusted(o.memory, o.db)
    requires o.writesLeft >= 4 * |o.db.files| + 10 * |disk| + 10
    modifies o
    ensures first == (if fails !! Reindexed(env, disk, old(o.memory), old(o.db)) then Complete else Incomplete)
    ensures second == Complete && !o.db.pending
    ensures Consistent(env, disk, o.db) <==> FailuresAgree(env, disk, old(o.memory), old(o.db), fails)
  {
    hide Recoverable, Consistent, CleanDisk, CleanEdit, ValidEnv, Leaves, Settles, NeedsWork, FailuresAgree, Reindexed,
         Candidate, FullScan, MeaningChanged;
    ghost var memory, db := o.memory, o.db;
    CleanEditIsClean(env, before, disk);
    ConsistentIsRecoverable(env, before, disk, db);
    CandidateIsFullScan(env, disk, memory, db);
    TrustedSettles(env, disk, memory, db);
    first := o.Sync(env, disk, fails);
    ghost var middle := o.db;
    Smaller(middle.files.Keys, db.files.Keys + disk.Keys);
    second := o.Sync(env, disk, {});
    LeavesNothingPending(env, disk, if NeedsWork(env, disk, db) then Some(FullScan(env, disk))
        else memory, middle, o.db);
    if NeedsWork(env, disk, db) && MeaningChanged(env, disk, memory, db) && first.Incomplete? {
      RetrySettles(env, disk, memory, db, middle, fails);
    } else {
      FailuresDoNotMatter(env, disk, memory, db, middle, fails);
    }
  }

  lemma LeavesNothingPending(env: Env, disk: Disk, memory: Option<Contributions>, before: Database, after: Database)
    requires Leaves(env, disk, memory, before, after, {})
    ensures !after.pending
  {
    hide Stored, NeedsWork, MeaningChanged, Candidate;
  }

  /** Otherwise no unchanged file failed, and the manifest in memory is the published one. */
  lemma FailuresDoNotMatter(env: Env, disk: Disk, memory: Option<Contributions>, before: Database, middle: Database,
      fails: set<string>)
    requires Leaves(env, disk, memory, before, middle, fails) && Trusted(memory, before)
    requires !NeedsWork(env, disk, before) || !MeaningChanged(env, disk, memory, before) ||
        fails !! Reindexed(env, disk, memory, before)
    ensures FailuresAgree(env, disk, memory, before, fails)
    ensures Trusted(if NeedsWork(env, disk, before) then Some(Candidate(env, disk, memory, before)) else memory, middle)
  {
    hide Stored, ContextOf, Candidate, AffectedNames, FullScan, SameFor, Avoids;
    NothingToAvoid(disk);
  }

  /** The index a first run over the disk leaves. */
  function Indexed(env: Env, disk: Disk): Database {
    var context := ContextOf(env, FullScan(env, disk));
    Database(map p | p in disk :: FileRecord(disk[p], if env.isCpp(p) then context else NoContext),
        Some(FullScan(env, disk)), true, false)
  }

  lemma IndexedIsConsistent(env: Env, disk: Disk)
    ensures Consistent(env, disk, Indexed(env, disk))
  {
    hide SameFor, ContextOf, FullScan;
    forall p | p in disk ensures SameFor(disk[p], ContextOf(env, FullScan(env, disk)),
        ContextOf(env, FullScan(env, disk))) {
      SameForItself(disk[p], ContextOf(env, FullScan(env, disk)));
    }
  }

  const HEADER_BEFORE := "#define S int a;"
  const HEADER_AFTER := "#define S int b;"

  function Defines(replacement: string): Contribution {
    Contribution({"S"}, {}, [Definition("S", None, None, replacement)])
  }

  /** The header `h` defines `S`, and the files `f` and `g` use it. */
  function RetryDisk(header: string): Disk {
    map["h" := header, "f" := "S", "g" := "S"]
  }

  /** An environment that reads these contents for what they are. */
  ghost predicate ReadsHeader(env: Env) {
    && ValidEnv(env) && env.isCpp("h") && env.isCpp("f") && env.isCpp("g")
    && env.scan(HEADER_BEFORE) == Defines(BEFORE) && env.scan(HEADER_AFTER) == Defines(AFTER)
    && env.scan("S") == Contribution({}, {}, [])
  }

  /**
   The header is edited, and `f` does not parse in the sync that follows. The next sync in
   the same process completes, clears the mark, and leaves `f` as it was extracted under
   the old macro.
   */
  method RetryLeavesStaleFile(o: Orchestrator, env: Env) returns (first: SyncOutcome, second: SyncOutcome)
    requires ReadsHeader(env) && o.memory.None? && o.writesLeft >= 52
    requires o.db == Indexed(env, RetryDisk(HEADER_BEFORE))
    modifies o
    ensures first == Incomplete && second == Complete && !o.db.pending
    ensures !Consistent(env, RetryDisk(HEADER_AFTER), o.db)
  {
    hide Consistent, FailuresAgree, Indexed, Reindexed, CleanEdit, ContextOf, FullScan, ValidEnv, ReadsHeader;
    ghost var before, disk, db := RetryDisk(HEADER_BEFORE), RetryDisk(HEADER_AFTER), o.db;
    IndexedIsConsistent(env, before);
    RetryEditIsClean(env);
    assert |db.files| == 3 by { IndexedSize(env); }
    RetryFails(env);
    assert |disk| == 3 && ValidEnv(env) by { RetryDiskSize(env); }
    first, second := RetryInSameProcess(o, env, before, RetryDisk(HEADER_AFTER), {"f"});
    assert "f" in {"f"} * Reindexed(env, disk, None, db);
  }

  lemma RetryDiskSize(env: Env)
    requires ReadsHeader(env)
    ensures |RetryDisk(HEADER_AFTER)| == |RetryDisk(HEADER_BEFORE)| == 3 && ValidEnv(env)
  {
    assert RetryDisk(HEADER_AFTER).Keys == RetryDisk(HEADER_BEFORE).Keys == {"h", "f", "g"};
  }

  lemma IndexedSize(env: Env)
    ensures |Indexed(env, RetryDisk(HEADER_BEFORE)).files| == 3
  {
    assert Indexed(env, RetryDisk(HEADER_BEFORE)).files.Keys == {"h", "f", "g"};
  }

  lemma RetryEditIsClean(env: Env)
    requires ReadsHeader(env)
    ensures CleanEdit(env, RetryDisk(HEADER_BEFORE), RetryDisk(HEADER_AFTER))
  {
    hide FormalsVisible, Affected, ContextOf, FullScan, ReadsHeader;
    var first, second := FullScan(env, RetryDisk(HEADER_BEFORE)), FullScan(env, RetryDisk(HEADER_AFTER));
    PlainBody(BEFORE, Affected(ContextOf(env, first), ContextOf(env, second)));
    PlainBody(AFTER, Affected(ContextOf(env, first), ContextOf(env, second)));
    RetryScan(env);
  }

  lemma PlainBody(replacement: string, names: set<string>)
    requires '_' !in replacement
    ensures FormalsVisible(Definition("S", None, None, replacement), names)
  {
    var d := Definition("S", None, None, replacement);
    forall p: nat | StartsAt(replacement, p) ensures Word(replacement, p) !in FormalNames(d) {
      assert VA_ARGS[0] == '_' && Word(replacement, p)[0] == replacement[p];
    }
  }

  lemma OneDefinition(env: Env, replacement: string)
    requires ValidEnv(env)
    ensures var c := ContextOf(env, map["h" := Defines(replacement)]);
            && "S" in c.names && "S" in c.definitions && c.definitions["S"].replacement == replacement
            && c.definitions["S"].parameters == None && c.definitions["S"].variadic == None
  {
    var m := map["h" := Defines(replacement)];
    assert m.Keys == {"h"};
    InOrder(env, {"h"});
    var order := env.order({"h"});
    assert |order| == 1 && order[0] in order;
    var d := Definition("S", None, None, replacement);
    assert Listing(env, m) == File({"S"}, [d]);
    hide Listing;
    FileContext({"S"}, [d], map["S" := d]);
  }

  lemma RetryScan(env: Env)
    requires ReadsHeader(env)
    ensures FullScan(env, RetryDisk(HEADER_BEFORE)) == map["h" := Defines(BEFORE)]
    ensures FullScan(env, RetryDisk(HEADER_AFTER)) == map["h" := Defines(AFTER)]
  {
    hide ValidEnv;
    assert forall p :: p in RetryDisk(HEADER_BEFORE) <==> p == "h" || p == "f" || p == "g";
    assert IsEmpty(env.scan("S")) && !IsEmpty(Defines(BEFORE)) && !IsEmpty(Defines(AFTER));
  }

  lemma RetryContextsDiffer(env: Env)
    requires ValidEnv(env)
    ensures var first, second := ContextOf(env, map["h" := Defines(BEFORE)]),
        ContextOf(env, map["h" := Defines(AFTER)]);
            !SameFor("S", first, second) && !SameFor("S", second, first) && "S" in Affected(first, second)
  {
    hide ContextOf;
    var first, second := ContextOf(env, map["h" := Defines(BEFORE)]), ContextOf(env, map["h" := Defines(AFTER)]);
    OneDefinition(env, BEFORE);
    OneDefinition(env, AFTER);
    SignaturesDiffer(first.definitions["S"], second.definitions["S"]);
    hide SignatureOf;
    forall names: set<string> | Avoids("S", names)
      ensures !SameMeaning(first, second, names) && !SameMeaning(second, first, names)
    {
      assert StartsAt("S", 0) && Word("S", 0) == "S";
      assert !Alike(first, second, "S") && !Alike(second, first, "S");
    }
    assert "S" in ChangedNames(first, second);
    AffectedIsEmpty(first, second);
  }

  lemma RetryFails(env: Env)
    requires ReadsHeader(env)
    ensures var disk, db := RetryDisk(HEADER_AFTER), Indexed(env, RetryDisk(HEADER_BEFORE));
            && "f" in Reindexed(env, disk, None, db) && "g" in Reindexed(env, disk, None, db)
            && NeedsWork(env, disk, db) && MeaningChanged(env, disk, None, db)
            && Candidate(env, disk, None, db) == map["h" := Defines(AFTER)]
            && !FailuresAgree(env, disk, None, db, {"f"})
  {
    hide ContextOf, FullScan, Candidate, Affected, SameFor;
    var disk, db := RetryDisk(HEADER_AFTER), Indexed(env, RetryDisk(HEADER_BEFORE));
    RetryScan(env);
    RetryContextsDiffer(env);
    RetryCandidate(env);
    assert StartsAt("S", 0) && Word("S", 0) == "S";
    assert !Avoids("S", AffectedNames(env, disk, None, db));
    assert "h" in Cpp(env, Changed(disk, db));
    assert "f" in Invalidated(env, disk, None, db) && "g" in Invalidated(env, disk, None, db);
  }

  lemma RetryCandidate(env: Env)
    requires ReadsHeader(env)
    ensures var disk, db := RetryDisk(HEADER_AFTER), Indexed(env, RetryDisk(HEADER_BEFORE));
            Candidate(env, disk, None, db) == FullScan(env, disk)
  {
    hide Consistent, Recoverable, Candidate, CleanEdit;
    IndexedIsConsistent(env, RetryDisk(HEADER_BEFORE));
    RetryEditIsClean(env);
    ConsistentIsRecoverable(env, RetryDisk(HEADER_BEFORE), RetryDisk(HEADER_AFTER),
        Indexed(env, RetryDisk(HEADER_BEFORE)));
    CandidateIsFullScan(env, RetryDisk(HEADER_AFTER), None, Indexed(env, RetryDisk(HEADER_BEFORE)));
  }

  // ---------------------------------------------------------------- an edit that is taken back

  /** A sync, a restart, and a sync of another state of the disk in which every file parses. */
  method SyncAfterRestart(o: Orchestrator, env: Env, first: Disk, fails: set<string>, second: Disk, ghost size: nat)
    returns (outcome: SyncOutcome, last: SyncOutcome, ghost middle: Database)
    requires ValidEnv(env) && |o.db.files.Keys + first.Keys| <= size
    requires o.writesLeft >= Budget(first, o.db) + 2 * size + 4 * |second| + 5
    modifies o
    ensures outcome == if fails !! Reindexed(env, first, old(o.memory), old(o.db)) then Complete else Incomplete
    ensures last == Complete && !o.db.pending
    ensures Leaves(env, first, old(o.memory), old(o.db), middle, fails)
    ensures Leaves(env, second, None, middle, o.db, {})
    ensures Consistent(env, second, o.db) <==> Settles(env, second, None, middle)
  {
    hide Consistent, Recoverable, Reindexed, CleanDisk, ValidEnv, NeedsWork, Candidate, Leaves, Settles;
    outcome := o.Sync(env, first, fails);
    middle := o.db;
    Smaller(middle.files.Keys, old(o.db.files.Keys) + first.Keys);
    o.memory := None;
    last := o.Sync(env, second, {});
    LeavesNothingPending(env, second, None, middle, o.db);
  }

  /**
   The header is edited, `g` does not parse in the sync that follows, the process ends, and
   the edit is taken back. The next sync finds the published manifest confirmed, stores the
   header, completes, and leaves `f` as it was extracted under the macro that is gone.
   */
  method RevertedEditLeavesStaleFile(o: Orchestrator, env: Env) returns (first: SyncOutcome, second: SyncOutcome)
    requires ReadsHeader(env) && o.memory.None? && o.writesLeft >= 46
    requires o.db == Indexed(env, RetryDisk(HEADER_BEFORE))
    modifies o
    ensures first == Incomplete && second == Complete && !o.db.pending
    ensures !Consistent(env, RetryDisk(HEADER_BEFORE), o.db)
  {
    hide *;
    var before, after := RetryDisk(HEADER_BEFORE), RetryDisk(HEADER_AFTER);
    RevertFacts(env);
    ghost var middle;
    first, second, middle := SyncAfterRestart(o, env, after, {"g"}, before, 3);
    RevertIsNotSettled(env, middle);
  }

  lemma RevertFacts(env: Env)
    requires ReadsHeader(env)
    ensures var before, after := RetryDisk(HEADER_BEFORE), RetryDisk(HEADER_AFTER);
            var db := Indexed(env, before);
            && ValidEnv(env) && |db.files.Keys + after.Keys| == 3 && Budget(after, db) == 23 && |before| == 3
            && !({"g"} !! Reindexed(env, after, None, db))
  {
    hide Indexed, RetryDisk, Reindexed, NeedsWork, MeaningChanged, Candidate, FailuresAgree, ReadsHeader, ValidEnv;
    IndexedSize(env);
    IndexedKeys(env);
    RetryDiskSize(env);
    RetryFails(env);
    assert "g" in {"g"} * Reindexed(env, RetryDisk(HEADER_AFTER), None, Indexed(env, RetryDisk(HEADER_BEFORE)));
  }

  lemma IndexedKeys(env: Env)
    ensures Indexed(env, RetryDisk(HEADER_BEFORE)).files.Keys + RetryDisk(HEADER_AFTER).Keys == {"h", "f", "g"}
  {
  }

  lemma RevertIsNotSettled(env: Env, middle: Database)
    requires ReadsHeader(env)
    requires Leaves(env, RetryDisk(HEADER_AFTER), None, Indexed(env, RetryDisk(HEADER_BEFORE)), middle, {"g"})
    ensures !Settles(env, RetryDisk(HEADER_BEFORE), None, middle)
  {
    hide ContextOf, FullScan, Candidate, Affected, SameFor, NeedsWork, MeaningChanged, FailuresAgree, Reindexed;
    var disk, db := RetryDisk(HEADER_BEFORE), Indexed(env, RetryDisk(HEADER_BEFORE));
    RetryFails(env);
    RetryScan(env);
    RetryContextsDiffer(env);
    assert "g" in {"g"} * Reindexed(env, RetryDisk(HEADER_AFTER), None, db);
    assert "f" in middle.files && middle.files["f"] == FileRecord("S", ContextOf(env, map["h" := Defines(AFTER)]));
    assert middle.pending && middle.manifest == Some(FullScan(env, disk));
    RevertPlansEditedFiles(env, disk, middle);
    assert "f" !in Changed(disk, middle);
  }

  lemma RevertPlansEditedFiles(env: Env, disk: Disk, db: Database)
    requires db.pending && db.manifest == Some(FullScan(env, disk))
    ensures Reindexed(env, disk, None, db) == Changed(disk, db)
  {
    hide Affected, Avoids, ContextOf, FullScan, Changed;
    assert AffectedNames(env, disk, None, db) == {} by {
      UnchangedAffectsNothing(ContextOf(env, FullScan(env, disk)));
    }
    NothingToAvoid(disk);
  }

  /** Such an environment exists. */
  lemma HeaderIsRead()
    ensures exists env: Env :: ReadsHeader(env)
  {
    var scan := content =>
      if content == HEADER_BEFORE then Defines(BEFORE) else if content == HEADER_AFTER then Defines(AFTER)
          else Contribution({}, {}, []);
    var env := Env(_ => true, scan, s => SomeOrder(s));
    forall s: set<string> ensures |env.order(s)| == |s| && forall p: string :: p in env.order(s) <==> p in s {
      SomeOrderLists(s);
    }
    assert ReadsHeader(env);
  }

  ghost function SomeOrder(s: set<string>): seq<string> {
    if s == {} then [] else var x :| x in s; [x] + SomeOrder(s - {x})
  }

  lemma {:induction false} SomeOrderLists(s: set<string>)
    ensures |SomeOrder(s)| == |s| && forall p: string :: p in SomeOrder(s) <==> p in s
    decreases s
  {
    if s != {} {
      var x: string :| x in s && SomeOrder(s) == [x] + SomeOrder(s - {x});
      SomeOrderLists(s - {x});
    }
  }
}
