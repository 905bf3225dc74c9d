/**
 The windows in which a bulk load drops the triggers of the full-text search and the
 secondary indexes, and what opening the database repairs after a process died inside
 one. Every statement may be the last one before it dies.
 */
module BulkLoad {

  /** The triggers on the nodes table that keep the search index in step with it. */
  datatype Trigger = OnInsert | OnDelete | OnUpdate

  const FTS_TRIGGERS: seq<Trigger> := [OnInsert, OnDelete, OnUpdate]

  type Row = nat
  type Text = string

  /** An entry of the search index. */
  datatype Entry = Entry(row: Row, text: Text)

  /** The nodes by row, the entries of the search index, and the names of what else the schema has. */
  datatype Database = Database(nodes: map<Row, Text>, fts: set<Entry>, triggers: set<Trigger>, indexes: set<string>)

  /**
   What is executed. An insertion takes the place of the row `over` that holds a node of
   the same id; SQLite deletes that row without firing its delete trigger, unless
   recursive triggers are enabled, which they are not.
   */
  datatype Statement =
    | DropTrigger(trigger: Trigger) | CreateTrigger(trigger: Trigger) | Rebuild
    | DropIndex(name: string) | CreateIndex(name: string)
    | Insert(row: Row, text: Text, over: set<Row>) | Delete(row: Row) | Update(row: Row, text: Text)

  predicate IsWrite(s: Statement) {
    s.Insert? || s.Delete? || s.Update?
  }

  function Execute(db: Database, s: Statement): Database {
    match s
    case DropTrigger(t) => db.(triggers := db.triggers - {t})
    case CreateTrigger(t) => db.(triggers := db.triggers + {t})
    case Rebuild => db.(fts := set row | row in db.nodes :: Entry(row, db.nodes[row]))
    case DropIndex(name) => db.(indexes := db.indexes - {name})
    case CreateIndex(name) => db.(indexes := db.indexes + {name})
    case Insert(row, text, over) =>
      if row in db.nodes then db
      else db.(nodes := (db.nodes - over)[row := text],
               fts := if OnInsert in db.triggers then db.fts + {Entry(row, text)} else db.fts)
    case Delete(row) =>
      if row !in db.nodes then db
      else db.(nodes := db.nodes - {row}, fts := if OnDelete in db.triggers then db.fts - {Entry(row, db.nodes[row])}
          else db.fts)
    case Update(row, text) =>
      if row !in db.nodes then db
      else db.(nodes := db.nodes[row := text],
               fts := if OnUpdate in db.triggers then db.fts - {Entry(row, db.nodes[row])} + {Entry(row, text)}
                   else db.fts)
  }

  ghost predicate InStep(db: Database) {
    forall e: Entry :: e in db.fts <==> e.row in db.nodes && db.nodes[e.row] == e.text
  }

  predicate HasTriggers(db: Database) {
    forall t :: t in FTS_TRIGGERS ==> t in db.triggers
  }

  /** Where the triggers are all present, the search index holds exactly the nodes. */
  ghost predicate Sound(db: Database) {
    HasTriggers(db) ==> InStep(db)
  }

  predicate Has(db: Database, names: seq<string>) {
    forall name :: name in names ==> name in db.indexes
  }

  /** What an open database has: the triggers, the deferrable indexes, and a search index in step. */
  ghost predicate Healed(db: Database) {
    HasTriggers(db) && InStep(db) && Has(db, PARSE_INDEXES)
  }

  /** Nothing but deferrable indexes was dropped. */
  predicate KeepsOthers(before: Database, after: Database) {
    forall name :: name in before.indexes && name !in PARSE_INDEXES ==> name in after.indexes
  }

  lemma AllTriggers(db: Database)
    ensures HasTriggers(db) <==> OnInsert in db.triggers && OnDelete in db.triggers && OnUpdate in db.triggers
  {
    assert FTS_TRIGGERS[0] == OnInsert && FTS_TRIGGERS[1] == OnDelete && FTS_TRIGGERS[2] == OnUpdate;
  }

  /** The insertion takes the place of a stored node. */
  predicate Replaces(db: Database, s: Statement) {
    s.Insert? && s.row !in db.nodes && s.over * db.nodes.Keys != {}
  }

  /** With the triggers in place, a write keeps the search index in step exactly if it replaces no stored node. */
  lemma WriteKeepsStep(db: Database, s: Statement)
    requires HasTriggers(db) && InStep(db) && IsWrite(s)
    ensures InStep(Execute(db, s)) <==> !Replaces(db, s)
  {
    AllTriggers(db);
    var r := Execute(db, s);
    if Replaces(db, s) {
      var gone :| gone in s.over && gone in db.nodes;
      assert Entry(gone, db.nodes[gone]) in r.fts && gone !in r.nodes;
    } else if s.Insert? && s.row !in db.nodes {
      assert forall row :: row in db.nodes ==> row !in s.over by {
        assert forall row :: row in db.nodes && row in s.over ==> row in s.over * db.nodes.Keys;
      }
      assert db.nodes - s.over == db.nodes;
    }
  }

  /** A sound database stays so exactly if the write does not replace a stored node with all triggers in place. */
  lemma WriteKeeps(db: Database, s: Statement)
    requires Sound(db) && IsWrite(s)
    ensures Sound(Execute(db, s)) <==> !(HasTriggers(db) && Replaces(db, s))
  {
    if HasTriggers(db) { WriteKeepsStep(db, s); }
  }

  // ---------------------------------------------------------------- what was executed

  function ExecuteAll(db: Database, statements: seq<Statement>): Database
    decreases |statements|
  {
    if statements == [] then db else ExecuteAll(Execute(db, statements[0]), statements[1..])
  }

  lemma {:induction false} ExecuteJoin(db: Database, a: seq<Statement>, b: seq<Statement>)
    ensures ExecuteAll(db, a + b) == ExecuteAll(ExecuteAll(db, a), b)
    decreases |a|
  {
    if a == [] {
      assert a + b == b;
    } else {
      assert (a + b)[1..] == a[1..] + b;
      ExecuteJoin(Execute(db, a[0]), a[1..], b);
    }
  }

  /**
   No stored node was replaced with all triggers in place, since the search index was last
   rebuilt or a trigger was last missing.
   */
  predicate Promised(db: Database, log: seq<Statement>)
    decreases |log|
  {
    log == [] ||
    var earlier, s := log[..|log| - 1], log[|log| - 1];
    var before := ExecuteAll(db, earlier);
    || s.Rebuild?
    || !HasTriggers(Execute(before, s))
    || (Promised(db, earlier) && !(HasTriggers(before) && Replaces(before, s)))
  }

  /** No insertion takes a row that the search index still has an entry for. */
  predicate NoReuse(db: Database, log: seq<Statement>)
    decreases |log|
  {
    log == [] ||
    var earlier, s := log[..|log| - 1], log[|log| - 1];
    NoReuse(db, earlier) && TakesFreshRow(ExecuteAll(db, earlier), s)
  }

  predicate TakesFreshRow(db: Database, s: Statement) {
    s.Insert? && s.row !in db.nodes ==> forall e :: e in db.fts ==> e.row != s.row
  }

  /** The search index has an entry for a row that is gone. */
  predicate Stale(db: Database) {
    exists e :: e in db.fts && e.row !in db.nodes
  }

  /** While the promise stands the database is sound; once it is broken, unless rows are reused, an entry is stale. */
  ghost predicate Kept(db: Database, log: seq<Statement>) {
    var r := ExecuteAll(db, log);
    && (Promised(db, log) ==> Sound(r))
    && (NoReuse(db, log) && !Promised(db, log) ==> HasTriggers(r) && Stale(r))
  }

  /** So the promise is exact. */
  lemma PromiseIsExact(db: Database, log: seq<Statement>)
    requires Kept(db, log) && NoReuse(db, log)
    ensures Promised(db, log) <==> Sound(ExecuteAll(db, log))
  {
    hide Promised, NoReuse, ExecuteAll;
  }

  /** One more statement; a trigger is created only when the search index is in step. */
  lemma StepKeeps(db: Database, log: seq<Statement>, s: Statement)
    requires Kept(db, log) && (s.CreateTrigger? ==> InStep(ExecuteAll(db, log)))
    ensures ExecuteAll(db, log + [s]) == Execute(ExecuteAll(db, log), s) && Kept(db, log + [s])
  {
    var before, more := ExecuteAll(db, log), log + [s];
    ExecuteJoin(db, log, [s]);
    assert more[..|log|] == log && [s][1..] == [];
    assert NoReuse(db, more) ==> NoReuse(db, log) && TakesFreshRow(before, s);
    assert ExecuteAll(db, more) == Execute(before, s);
    var r := Execute(before, s);
    assert Promised(db, more) <==>
      s.Rebuild? || !HasTriggers(r) || (Promised(db, log) && !(HasTriggers(before) && Replaces(before, s)));
    hide ExecuteAll, Promised, NoReuse;
    AllTriggers(before);
    AllTriggers(r);
    hide HasTriggers;
    if IsWrite(s) && HasTriggers(before) {
      WriteOnPromise(before, s);
    }
  }

  /** A write with all triggers in place. */
  lemma WriteOnPromise(db: Database, s: Statement)
    requires HasTriggers(db) && IsWrite(s)
    ensures InStep(db) && Replaces(db, s) ==> Stale(Execute(db, s))
    ensures InStep(db) && !Replaces(db, s) ==> InStep(Execute(db, s))
    ensures Stale(db) && TakesFreshRow(db, s) ==> Stale(Execute(db, s))
  {
    AllTriggers(db);
    var r := Execute(db, s);
    if InStep(db) && Replaces(db, s) {
      var gone :| gone in s.over && gone in db.nodes;
      assert Entry(gone, db.nodes[gone]) in r.fts && gone !in r.nodes;
    } else if InStep(db) {
      WriteKeepsStep(db, s);
    }
    if Stale(db) && TakesFreshRow(db, s) {
      var e :| e in db.fts && e.row !in db.nodes;
      assert e in r.fts && e.row !in r.nodes;
    }
  }

  // ---------------------------------------------------------------- the three windows

  const PARSE_INDEXES := [
    "idx_nodes_kind", "idx_nodes_name", "idx_nodes_qualified_name", "idx_nodes_file_path", "idx_nodes_language",
    "idx_nodes_file_line", "idx_nodes_lower_name", "idx_unresolved_from_node", "idx_unresolved_name",
    "idx_unresolved_file_path", "idx_unresolved_from_name", "idx_unresolved_status", "idx_unresolved_failed_tail",
    "idx_files_language", "idx_files_modified_at", "idx_edges_kind", "idx_edges_source_kind", "idx_edges_target_kind",
    "idx_edges_provenance"]

  const EDGE_INDEXES := ["idx_edges_kind", "idx_edges_source_kind", "idx_edges_target_kind", "idx_edges_provenance"]

  const REF_INDEXES := [
    "idx_unresolved_from_node", "idx_unresolved_name", "idx_unresolved_file_path", "idx_unresolved_from_name",
    "idx_unresolved_failed_tail"]

  /** The indexes of the windows of the resolution are among those that opening repairs. */
  lemma WindowsAreHealed()
    ensures forall name :: name in EDGE_INDEXES + REF_INDEXES ==> name in PARSE_INDEXES
  {
    assert PARSE_INDEXES[15..19] == EDGE_INDEXES;
    assert PARSE_INDEXES[7..11] + [PARSE_INDEXES[12]] == REF_INDEXES;
  }

  datatype Window = Nodes | Parse | Edges | Refs

  function IndexesOf(w: Window): seq<string> {
    match w
    case Nodes => []
    case Parse => PARSE_INDEXES
    case Edges => EDGE_INDEXES
    case Refs => REF_INDEXES
  }

  /** What a process does with an open database: it opens and closes windows in any order, and writes. */
  datatype Operation = Begin(w: Window) | End(w: Window) | Write(s: Statement)

  /** What an operation comes to when it completes. */
  ghost predicate Done(o: Operation, before: Database, after: Database) {
    match o
    case Begin(w) =>
      if w.Nodes? then after == before.(triggers := {})
      else after == before.(indexes := before.indexes - set name | name in IndexesOf(w))
    case End(w) =>
      if w.Nodes? then after == before.(fts := after.fts, triggers := after.triggers) && HasTriggers(after) &&
          InStep(after)
      else after == before.(indexes := before.indexes + set name | name in IndexesOf(w))
    case Write(s) => after == Execute(before, s)
  }

  /** A process: what it does once the database is open, and the number of statements before it dies. */
  datatype Session = Session(operations: seq<Operation>, statements: nat)

  class DatabaseConnection {
    var db: Database
    /** How many more statements are executed before the process dies. */
    var statementsLeft: nat
    // What the database was first, and what was executed since.
    ghost var origin: Database
    ghost var log: seq<Statement>

    ghost predicate Valid()
      reads this
    {
      db == ExecuteAll(origin, log) && Kept(origin, log)
    }

    constructor (db: Database)
      requires Sound(db)
      ensures Valid() && this.db == db && statementsLeft == 0 && origin == db && log == []
    {
      this.db, statementsLeft := db, 0;
      origin, log := db, [];
    }

    method Exec(s: Statement) returns (ok: bool)
      requires Valid() && (s.CreateTrigger? ==> InStep(db))
      modifies this
      ensures Valid() && origin == old(origin)
      ensures ok <==> old(statementsLeft) > 0
      ensures db == if ok then Execute(old(db), s) else old(db)
      ensures log == if ok then old(log) + [s] else old(log)
      ensures statementsLeft == if ok then old(statementsLeft) - 1 else 0
    {
      hide ExecuteAll, Kept, Execute;
      ok := statementsLeft > 0;
      if ok {
        StepKeeps(origin, log, s);
        db, statementsLeft := Execute(db, s), statementsLeft - 1;
        log := log + [s];
      }
    }

    /** Without the triggers the search index may fall behind, and with any of them missing that is seen. */
    method BeginBulkNodeLoad() returns (ok: bool)
      requires Valid()
      modifies this
      ensures Valid() && origin == old(origin) && old(log) <= log
      ensures db == old(db).(triggers := db.triggers) && db.triggers <= old(db.triggers)
      ensures ok ==> db.triggers == {}
      ensures !ok ==> statementsLeft == 0
    {
      hide Valid;
      for k := 0 to |FTS_TRIGGERS|
        invariant Valid() && origin == old(origin) && old(log) <= log
        invariant db == old(db).(triggers := db.triggers) && db.triggers <= old(db.triggers)
        invariant forall j :: 0 <= j < k ==> FTS_TRIGGERS[j] !in db.triggers
      {
        ok := Exec(DropTrigger(FTS_TRIGGERS[k]));
        if !ok { return; }
      }
      ok := true;
      forall t: Trigger ensures t !in db.triggers {
        assert FTS_TRIGGERS[0] != t && FTS_TRIGGERS[1] != t ==> FTS_TRIGGERS[2] == t;
      }
    }

    /** The search index is rebuilt before the first trigger is there again. */
    method EndBulkNodeLoad() returns (ok: bool)
      requires Valid()
      modifies this
      ensures Valid() && origin == old(origin) && old(log) <= log
      ensures db == old(db).(fts := db.fts, triggers := db.triggers) && (db == old(db) || InStep(db))
      ensures ok ==> HasTriggers(db) && InStep(db)
      ensures !ok ==> statementsLeft == 0
    {
      hide Valid;
      ok := Exec(Rebuild);
      if !ok { return; }
      for k := 0 to |FTS_TRIGGERS|
        invariant Valid() && origin == old(origin) && old(log) <= log
        invariant InStep(db) && db == old(db).(fts := db.fts, triggers := db.triggers)
        invariant forall j :: 0 <= j < k ==> FTS_TRIGGERS[j] in db.triggers
      {
        ok := Exec(CreateTrigger(FTS_TRIGGERS[k]));
        if !ok { return; }
      }
      ok := true;
    }

    /** A missing trigger tells that a process died inside the window. */
    method HealBulkNodeLoad() returns (ok: bool)
      requires Valid()
      modifies this
      ensures Valid() && origin == old(origin) && old(log) <= log
      ensures db == old(db).(fts := db.fts, triggers := db.triggers)
      ensures ok ==> HasTriggers(db)
      ensures (ok && old(HasTriggers(db)) && db == old(db)) || (!old(HasTriggers(db)) && (InStep(db) || db == old(db)))
      ensures ok && !old(HasTriggers(db)) ==> InStep(db)
      ensures old(HasTriggers(db)) ==> ok && log == old(log)
      ensures !ok ==> statementsLeft == 0
    {
      hide Valid;
      AllTriggers(db);
      if OnInsert in db.triggers && OnDelete in db.triggers && OnUpdate in db.triggers {
        return true;
      }
      ok := EndBulkNodeLoad();
    }

    method DropIndexes(names: seq<string>) returns (ok: bool)
      requires Valid()
      modifies this
      ensures Valid() && origin == old(origin) && old(log) <= log
      ensures db == old(db).(indexes := db.indexes)
      ensures forall name :: name in old(db.indexes) && name !in names ==> name in db.indexes
      ensures ok ==> db.indexes == old(db.indexes) - set name | name in names
      ensures !ok ==> statementsLeft == 0
    {
      hide Valid;
      for k := 0 to |names|
        invariant Valid() && origin == old(origin) && old(log) <= log
        invariant db == old(db).(indexes := old(db.indexes) - set name | name in names[..k])
      {
        ok := Exec(DropIndex(names[k]));
        if !ok { return; }
        assert names[..k + 1] == names[..k] + [names[k]];
      }
      ok := true;
      assert names[..|names|] == names;
    }

    method CreateIndexes(names: seq<string>) returns (ok: bool)
      requires Valid()
      modifies this
      ensures Valid() && origin == old(origin) && old(log) <= log
      ensures db == old(db).(indexes := db.indexes)
      ensures old(db.indexes) <= db.indexes <= old(db.indexes) + set name | name in names
      ensures ok ==> db.indexes == old(db.indexes) + set name | name in names
      ensures !ok ==> statementsLeft == 0
      ensures names == [] ==> ok && log == old(log)
    {
      hide Valid;
      for k := 0 to |names|
        invariant Valid() && origin == old(origin) && old(log) <= log
        invariant db == old(db).(indexes := old(db.indexes) + set name | name in names[..k])
        invariant k == 0 ==> log == old(log)
      {
        ok := Exec(CreateIndex(names[k]));
        if !ok { return; }
        assert names[..k + 1] == names[..k] + [names[k]];
      }
      ok := true;
      assert names[..|names|] == names;
    }

    method HealBulkParseIndexes() returns (ok: bool)
      requires Valid()
      modifies this
      ensures Valid() && origin == old(origin) && old(log) <= log
      ensures db == old(db).(indexes := db.indexes)
      ensures old(db.indexes) <= db.indexes <= old(db.indexes) + set name | name in PARSE_INDEXES
      ensures ok ==> Has(db, PARSE_INDEXES)
      ensures !ok ==> statementsLeft == 0
      ensures old(Has(db, PARSE_INDEXES)) ==> ok && log == old(log)
    {
      hide Valid;
      var missing: seq<string> := [];
      for k := 0 to |PARSE_INDEXES|
        invariant forall j :: 0 <= j < k ==> PARSE_INDEXES[j] in db.indexes || PARSE_INDEXES[j] in missing
        invariant forall name :: name in missing ==> name in PARSE_INDEXES
        invariant old(Has(db, PARSE_INDEXES)) ==> missing == []
        invariant db == old(db) && log == old(log) && origin == old(origin) && Valid()
      {
        if PARSE_INDEXES[k] !in db.indexes {
          missing := missing + [PARSE_INDEXES[k]];
        }
      }
      ok := CreateIndexes(missing);
    }

    /**
     Opening repairs what a process left that died inside a window, and executes nothing if
     there is nothing to repair.
     */
    method Open() returns (ok: bool)
      requires Valid()
      modifies this
      ensures Valid() && origin == old(origin) && old(log) <= log
      ensures ok ==> HasTriggers(db) && Has(db, PARSE_INDEXES)
      ensures old(Sound(db)) ==> Sound(db) && (ok ==> Healed(db))
      ensures KeepsOthers(old(db), db) && db.nodes == old(db.nodes)
      ensures !ok ==> statementsLeft == 0
      ensures old(Healed(db)) ==> ok && db == old(db) && log == old(log)
    {
      hide Valid, InStep, PARSE_INDEXES;
      ok := HealBulkNodeLoad();
      if ok {
        ghost var healed := db;
        ok := HealBulkParseIndexes();
        SameNodes(healed, db);
        SameEntries(healed, db);
      }
    }

    /**
     One operation. When it completes it has done what it is for and nothing else. A sound
     database stays so exactly if it replaces no stored node with all triggers in place.
     */
    method Operate(o: Operation) returns (ok: bool)
      requires Valid() && (o.Write? ==> IsWrite(o.s))
      modifies this
      ensures Valid() && origin == old(origin) && old(log) <= log
      ensures old(Sound(db)) ==> (Sound(db) <==> !(ok && o.Write? && HasTriggers(old(db)) && Replaces(old(db), o.s)))
      ensures ok && (o == Begin(Nodes) || o == End(Nodes)) ==> Sound(db)
      ensures KeepsOthers(old(db), db)
      ensures !ok ==> statementsLeft == 0
      ensures ok ==> Done(o, old(db), db)
    {
      hide Execute, InStep, Valid, PARSE_INDEXES;
      ghost var before := db;
      match o
      case Begin(Nodes) =>
        ok := BeginBulkNodeLoad();
        SameEntries(before, db);
        AllTriggers(db);
      case End(Nodes) => ok := EndBulkNodeLoad();
      case Begin(w) =>
        IndexesAreHealed(w);
        ok := DropIndexes(IndexesOf(w));
        SameNodes(before, db);
      case End(w) =>
        ok := CreateIndexes(IndexesOf(w));
        SameNodes(before, db);
      case Write(s) =>
        ok := Exec(s);
        WritesKeepSchema(before, s);
        if Sound(before) { WriteKeeps(before, s); }
    }
  }

  lemma IndexesAreHealed(w: Window)
    ensures forall name :: name in IndexesOf(w) ==> name in PARSE_INDEXES
  {
    WindowsAreHealed();
  }

  lemma SameNodes(db: Database, after: Database)
    requires after == db.(indexes := after.indexes)
    ensures Sound(after) <==> Sound(db)
  {
  }

  lemma SameEntries(db: Database, after: Database)
    requires after.nodes == db.nodes && after.fts == db.fts
    ensures InStep(after) <==> InStep(db)
  {
  }

  lemma WritesKeepSchema(db: Database, s: Statement)
    requires IsWrite(s)
    ensures Execute(db, s).indexes == db.indexes && Execute(db, s).triggers == db.triggers
  {
  }

  // ---------------------------------------------------------------- whole runs

  predicate Writes(operations: seq<Operation>) {
    forall o :: o in operations ==> o.Write? ==> IsWrite(o.s)
  }

  /**
   Processes open the database one after the other, open and close windows in any order,
   write, and die after any statement. Once the next process has opened the database, the
   triggers and all deferrable indexes are there. The search index is in step wherever all
   triggers are, unless a stored node was replaced with all triggers in place and the index
   was not rebuilt since; and if the rows of deleted nodes are not reused, exactly then.
   */
  method Survive(c: DatabaseConnection, sessions: seq<Session>, statements: nat)
    returns (ok: bool, ghost executed: seq<Statement>)
    requires c.Valid() && c.log == []
    requires forall k :: 0 <= k < |sessions| ==> Writes(sessions[k].operations)
    modifies c
    ensures c.db == ExecuteAll(old(c.db), executed)
    ensures Promised(old(c.db), executed) ==> Sound(c.db) && (ok ==> Healed(c.db))
    ensures NoReuse(old(c.db), executed) ==> (Promised(old(c.db), executed) <==> Sound(c.db))
    ensures NoReuse(old(c.db), executed) && ok ==> (Promised(old(c.db), executed) <==> Healed(c.db))
    ensures ok ==> HasTriggers(c.db) && Has(c.db, PARSE_INDEXES)
    ensures KeepsOthers(old(c.db), c.db)
    ensures !ok ==> c.statementsLeft == 0
  {
    hide InStep, Kept, Promised, NoReuse, PARSE_INDEXES, ExecuteAll, Execute;
    assert c.origin == c.db by { NothingExecuted(c.origin); }
    for k := 0 to |sessions|
      invariant c.Valid() && c.origin == old(c.origin)
      invariant KeepsOthers(old(c.db), c.db)
    {
      c.statementsLeft := sessions[k].statements;
      ok := c.Open();
      var operations := sessions[k].operations;
      var i := 0;
      while ok && i < |operations|
        invariant c.Valid() && c.origin == old(c.origin)
        invariant KeepsOthers(old(c.db), c.db)
      {
        assert operations[i] in operations;
        ok := c.Operate(operations[i]);
        i := i + 1;
      }
    }
    c.statementsLeft := statements;
    ok := c.Open();
    executed := c.log;
    WhatIsKept(c.origin, c.log);
  }

  lemma NothingExecuted(db: Database)
    ensures ExecuteAll(db, []) == db
  {
  }

  lemma WhatIsKept(db: Database, log: seq<Statement>)
    requires Kept(db, log)
    ensures Promised(db, log) ==> Sound(ExecuteAll(db, log))
    ensures NoReuse(db, log) ==> (Promised(db, log) <==> Sound(ExecuteAll(db, log)))
  {
    if NoReuse(db, log) { PromiseIsExact(db, log); }
  }

  // ---------------------------------------------------------------- two processes at once

  function Drops(): seq<Statement> {
    [DropTrigger(OnInsert), DropTrigger(OnDelete), DropTrigger(OnUpdate)]
  }

  function Creates(): seq<Statement> {
    [CreateTrigger(OnInsert), CreateTrigger(OnDelete), CreateTrigger(OnUpdate)]
  }

  lemma ThreeSteps(db: Database, a: Statement, b: Statement, c: Statement)
    ensures ExecuteAll(db, [a, b, c]) == Execute(Execute(Execute(db, a), b), c)
  {
    assert [a, b, c][1..] == [b, c] && [b, c][1..] == [c] && [c][1..] == [];
    hide Execute;
    var x := Execute(Execute(db, a), b);
    assert ExecuteAll(x, [c]) == Execute(x, c);
    assert ExecuteAll(Execute(db, a), [b, c]) == ExecuteAll(x, [c]);
  }

  lemma {:induction false} WritesUnnoticed(db: Database, ws: seq<Statement>)
    requires db.triggers == {} && forall w :: w in ws ==> IsWrite(w)
    ensures var r := ExecuteAll(db, ws); r.fts == db.fts && r.triggers == {}
    decreases |ws|
  {
    if ws != [] {
      assert ws[0] in ws;
      assert forall w :: w in ws[1..] ==> w in ws;
      WritesUnnoticed(Execute(db, ws[0]), ws[1..]);
    }
  }

  /**
   A second process opens the database inside the window of a first one, which writes
   between the rebuild and the triggers the second creates. The triggers are all there
   then, and the search index is in step exactly if the writes change nothing.
   */
  lemma OpeningBetweenWrites(db: Database, ws: seq<Statement>)
    requires db.triggers == {} && forall w :: w in ws ==> IsWrite(w)
    ensures var r := ExecuteAll(db, [Rebuild] + ws + Creates());
            HasTriggers(r) && (InStep(r) <==> r.nodes == db.nodes)
  {
    var rebuilt := Execute(db, Rebuild);
    var written := ExecuteAll(rebuilt, ws);
    WritesUnnoticed(rebuilt, ws);
    ExecuteJoin(db, [Rebuild] + ws, Creates());
    ExecuteJoin(db, [Rebuild], ws);
    assert [Rebuild][1..] == [];
    assert ExecuteAll(db, [Rebuild]) == rebuilt;
    ThreeSteps(written, CreateTrigger(OnInsert), CreateTrigger(OnDelete), CreateTrigger(OnUpdate));
    var r := written.(triggers := written.triggers + {OnInsert} + {OnDelete} + {OnUpdate});
    assert ExecuteAll(written, Creates()) == r;
    AllTriggers(r);
    hide ExecuteAll;
    if InStep(r) {
      forall row ensures row in r.nodes <==> row in db.nodes
                 ensures row in r.nodes && row in db.nodes ==> r.nodes[row] == db.nodes[row]
      {
        assert row in r.nodes ==> Entry(row, r.nodes[row]) in r.fts;
        assert row in db.nodes ==> Entry(row, db.nodes[row]) in r.fts;
      }
    }
  }

  /** So a node that is written there stays missing from the search index, which a later opening does not repair. */
  lemma OpeningInsideAWindow(db: Database, row: Row, text: Text)
    requires Healed(db) && row !in db.nodes
    ensures var r := ExecuteAll(db, Drops() + ([Rebuild] + [Insert(row, text, {})] + Creates()));
            HasTriggers(r) && !InStep(r)
  {
    var dropped := db.(triggers := db.triggers - {OnInsert} - {OnDelete} - {OnUpdate});
    assert dropped.triggers == {} by {
      forall t: Trigger ensures t !in dropped.triggers { assert t == OnInsert || t == OnDelete || t == OnUpdate; }
    }
    var w := Insert(row, text, {});
    ThreeSteps(db, DropTrigger(OnInsert), DropTrigger(OnDelete), DropTrigger(OnUpdate));
    ExecuteJoin(db, Drops(), [Rebuild] + [w] + Creates());
    OpeningBetweenWrites(dropped, [w]);
    WrittenNode(dropped, row, text);
  }

  lemma WrittenNode(db: Database, row: Row, text: Text)
    requires row !in db.nodes
    ensures ExecuteAll(db, [Rebuild] + [Insert(row, text, {})] + Creates()).nodes != db.nodes
  {
    var w := Insert(row, text, {});
    var rebuilt := Execute(db, Rebuild);
    ExecuteJoin(db, [Rebuild] + [w], Creates());
    ExecuteJoin(db, [Rebuild], [w]);
    assert [Rebuild][1..] == [] && [w][1..] == [];
    assert ExecuteAll(db, [Rebuild]) == rebuilt && ExecuteAll(rebuilt, [w]) == Execute(rebuilt, w);
    ThreeSteps(Execute(rebuilt, w), CreateTrigger(OnInsert), CreateTrigger(OnDelete), CreateTrigger(OnUpdate));
    assert row in Execute(rebuilt, w).nodes;
  }
}
