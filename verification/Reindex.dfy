/**
 Replacing what is stored of a file. Edges that lead into the file from other files are
 put back on the new nodes, or the files they come from are remembered.
 */
module Reindex {
  import opened Options

  type Id = string
  type Path = string
  type Kind = string

  datatype Node = Node(id: Id, kind: Kind, name: string, filePath: Path, language: string)

  /** The reference an edge was resolved from, when it was recorded. */
  datatype Stamp = Stamp(refName: string, refKind: Option<Kind>)

  datatype Edge = Edge(
    source: Id, target: Id, kind: Kind, stamp: Option<Stamp>, line: Option<int>, col: Option<int>,
        provenance: Option<string>)

  /** What makes two edges the same row; a missing line or column counts as -1. */
  datatype Key = Key(source: Id, target: Id, kind: Kind, line: int, col: int)

  datatype Ref = Ref(from: Id, name: string, kind: Kind, line: int, col: int, filePath: Path, language: string)

  datatype FileRecord = FileRecord(contentHash: string, recoverySkipped: bool)

  datatype Database = Database(nodes: map<Id, Node>, edges: map<Key, Edge>, files: map<Path, FileRecord>,
      refs: seq<Ref>)

  function OrMinusOne(n: Option<int>): int {
    if n.Some? then n.value else -1
  }

  function KeyOf(e: Edge): Key {
    Key(e.source, e.target, e.kind, OrMinusOne(e.line), OrMinusOne(e.col))
  }

  /** Rows are stored under their keys and every edge and reference has stored ends. */
  ghost predicate Sound(db: Database) {
    && (forall id :: id in db.nodes ==> db.nodes[id].id == id)
    && (forall k :: k in db.edges ==> KeyOf(db.edges[k]) == k && k.source in db.nodes && k.target in db.nodes)
    && (forall r :: r in db.refs ==> r.from in db.nodes)
  }

  /** A file with nodes has a record. */
  ghost predicate Recorded(db: Database) {
    forall id :: id in db.nodes ==> db.nodes[id].filePath in db.files
  }

  // ---------------------------------------------------------------- writes

  function RefsWithout(refs: seq<Ref>, gone: set<Id>): (r: seq<Ref>)
    ensures forall ref :: ref in r <==> ref in refs && ref.from !in gone
  {
    if refs == [] then []
    else (if refs[0].from in gone then [] else [refs[0]]) + RefsWithout(refs[1..], gone)
  }

  /** Deleting nodes deletes the edges and the references that hang on them. */
  function Cascade(db: Database, gone: set<Id>): Database {
    db.(nodes := db.nodes - gone,
        edges := map k | k in db.edges && k.source !in gone && k.target !in gone :: db.edges[k],
        refs := RefsWithout(db.refs, gone))
  }

  function NodesOf(db: Database, path: Path): set<Id> {
    set id | id in db.nodes && db.nodes[id].filePath == path
  }

  function DeleteFile(db: Database, path: Path): Database {
    Cascade(db, NodesOf(db, path)).(files := db.files - {path})
  }

  predicate ValidNode(n: Node) {
    n.id != "" && n.kind != "" && n.name != "" && n.filePath != "" && n.language != ""
  }

  function ValidNodes(nodes: seq<Node>): (r: seq<Node>)
    ensures forall n :: n in r <==> n in nodes && ValidNode(n)
  {
    if nodes == [] then []
    else (if ValidNode(nodes[0]) then [nodes[0]] else []) + ValidNodes(nodes[1..])
  }

  /** Inserting or replacing: a node stored under the same id is deleted first, with all that hangs on it. */
  function PutNode(db: Database, n: Node): Database {
    var room := if n.id in db.nodes then Cascade(db, {n.id}) else db;
    room.(nodes := room.nodes[n.id := n])
  }

  function PutNodes(db: Database, nodes: seq<Node>): Database
    decreases |nodes|
  {
    if nodes == [] then db else PutNodes(PutNode(db, nodes[0]), nodes[1..])
  }

  /** Inserting or ignoring: an edge with an end missing, or of a key present already, is dropped. */
  function PutEdge(db: Database, e: Edge): Database {
    if e.source in db.nodes && e.target in db.nodes && KeyOf(e) !in db.edges then db.(edges := db.edges[KeyOf(e) := e])
        else db
  }

  function PutEdges(db: Database, edges: seq<Edge>): Database
    decreases |edges|
  {
    if edges == [] then db else PutEdges(PutEdge(db, edges[0]), edges[1..])
  }

  // ---------------------------------------------------------------- rewiring

  /** An edge from another file into the file that is replaced, with what its target was. */
  datatype Saved = Saved(
    source: Id, sourceFilePath: Path, sourceLanguage: string, targetName: string, targetKind: Kind,
    kind: Kind, stamp: Option<Stamp>, line: Option<int>, col: Option<int>, provenance: Option<string>)

  predicate Incoming(db: Database, path: Path, e: Edge)
    requires e.source in db.nodes && e.target in db.nodes
  {
    db.nodes[e.target].filePath == path && db.nodes[e.source].filePath != path
  }

  function Snapshot(db: Database, e: Edge): Saved
    requires e.source in db.nodes && e.target in db.nodes
  {
    var s, t := db.nodes[e.source], db.nodes[e.target];
    Saved(e.source, s.filePath, s.language, t.name, t.kind, e.kind, e.stamp, e.line, e.col, e.provenance)
  }

  /** `saved` lists the incoming edges of a file, in the order the store happens to give. */
  ghost predicate IsSnapshot(db: Database, path: Path, saved: seq<Saved>)
    requires Sound(db)
  {
    forall s :: s in saved <==>
        exists k :: k in db.edges && Incoming(db, path, db.edges[k]) && Snapshot(db, db.edges[k]) == s
  }

  /** The text under which nodes are looked up. */
  function NameKey(name: string, kind: Kind): string {
    name + "|" + kind
  }

  function Matches(nodes: seq<Node>, key: string): seq<Id> {
    if nodes == [] then []
    else (if NameKey(nodes[0].name, nodes[0].kind) == key then [nodes[0].id] else []) + Matches(nodes[1..], key)
  }

  function Candidates(nodes: seq<Node>, s: Saved): seq<Id> {
    Matches(nodes, NameKey(s.targetName, s.targetKind))
  }

  function Moved(s: Saved, target: Id): Edge {
    Edge(s.source, target, s.kind, s.stamp, s.line, s.col, s.provenance)
  }

  /** The edges put back: those with one candidate. */
  function Rewired(saved: seq<Saved>, nodes: seq<Node>): seq<Edge> {
    if saved == [] then []
    else
      var ids := Candidates(nodes, saved[0]);
      (if |ids| == 1 then [Moved(saved[0], ids[0])] else []) + Rewired(saved[1..], nodes)
  }

  /** The files whose edges had no candidate or several. */
  function Unplaced(saved: seq<Saved>, nodes: seq<Node>): set<Path> {
    if saved == [] then {}
    else (if |Candidates(nodes, saved[0])| == 1 then {} else {saved[0].sourceFilePath}) + Unplaced(saved[1..], nodes)
  }

  // ---------------------------------------------------------------- replacing a file

  datatype Extraction = Extraction(nodes: seq<Node>, edges: seq<Edge>, refs: seq<Ref>, recoverySkipped: bool)

  predicate Unchanged(db: Database, path: Path, contentHash: string, force: bool) {
    !force && path in db.files && db.files[path].contentHash == contentHash && !db.files[path].recoverySkipped
  }

  function Ids(nodes: seq<Node>): set<Id> {
    set n | n in nodes :: n.id
  }

  function EdgesWithin(edges: seq<Edge>, ids: set<Id>): (r: seq<Edge>)
    ensures forall e :: e in r <==> e in edges && e.source in ids && e.target in ids
  {
    if edges == [] then []
    else (if edges[0].source in ids && edges[0].target in ids then [edges[0]] else []) + EdgesWithin(edges[1..], ids)
  }

  /** The references from inserted nodes, completed with the file's path and language. */
  function RefsWithin(refs: seq<Ref>, ids: set<Id>, path: Path, language: string): (r: seq<Ref>)
    ensures forall ref :: ref in r ==> ref.from in ids
  {
    if refs == [] then []
    else
      var ref := refs[0];
      (if ref.from in ids
       then [ref.(filePath := if ref.filePath == "" then path else ref.filePath, language := if ref.language == ""
           then language else ref.language)]
       else []) + RefsWithin(refs[1..], ids, path, language)
  }

  /** The database once the old contents of the file are deleted, its new nodes, edges and references inserted. */
  function Replaced(db: Database, path: Path, language: string, x: Extraction): Database {
    var valid := ValidNodes(x.nodes);
    var cleared := if path in db.files then DeleteFile(db, path) else db;
    var filled := PutEdges(PutNodes(cleared, valid), EdgesWithin(x.edges, Ids(valid)));
    filled.(refs := filled.refs + RefsWithin(x.refs, Ids(valid), path, language))
  }

  /** All but the last write: a process that dies before the record of the file is written leaves this. */
  function Wired(db: Database, path: Path, language: string, x: Extraction, saved: seq<Saved>): Database {
    PutEdges(Replaced(db, path, language, x), Rewired(saved, ValidNodes(x.nodes)))
  }

  function Stored(db: Database, path: Path, contentHash: string, language: string, x: Extraction, force: bool,
      saved: seq<Saved>): Database {
    if Unchanged(db, path, contentHash, force) then db
    else
      var wired := Wired(db, path, language, x, saved);
      wired.(files := wired.files[path := FileRecord(contentHash, x.recoverySkipped)])
  }

  function Failures(db: Database, path: Path, contentHash: string, x: Extraction, force: bool,
      saved: seq<Saved>): set<Path> {
    if Unchanged(db, path, contentHash, force) then {} else Unplaced(saved, ValidNodes(x.nodes))
  }

  // ---------------------------------------------------------------- what writes keep

  /** Exactly the edges that do not touch `gone` are left. */
  ghost predicate EdgesLess(before: map<Key, Edge>, after: map<Key, Edge>, gone: set<Id>) {
    && (forall k :: k in after <==> k in before && k.source !in gone && k.target !in gone)
    && (forall k :: k in after ==> after[k] == before[k])
  }

  lemma CascadeKeeps(db: Database, gone: set<Id>)
    requires Sound(db)
    ensures Sound(Cascade(db, gone)) && EdgesLess(db.edges, Cascade(db, gone).edges, gone)
  {
  }

  lemma PutNodeKeeps(db: Database, n: Node)
    requires Sound(db)
    ensures Sound(PutNode(db, n)) && EdgesLess(db.edges, PutNode(db, n).edges, {n.id})
    ensures PutNode(db, n).nodes == db.nodes[n.id := n] && PutNode(db, n).files == db.files
  {
    CascadeKeeps(db, {n.id});
    assert (db.nodes - {n.id})[n.id := n] == db.nodes[n.id := n];
  }

  lemma EdgesLessTwice(a: map<Key, Edge>, b: map<Key, Edge>, c: map<Key, Edge>, some: set<Id>, more: set<Id>)
    requires EdgesLess(a, b, some) && EdgesLess(b, c, more)
    ensures EdgesLess(a, c, some + more)
  {
  }

  /** Where the nodes come from once some were inserted. */
  ghost predicate NodesMore(before: map<Id, Node>, after: map<Id, Node>, nodes: seq<Node>) {
    && after.Keys == before.Keys + Ids(nodes)
    && (forall id :: id in after ==> if id in Ids(nodes) then after[id] in nodes else after[id] == before[id])
  }

  lemma NodesMoreByOne(before: map<Id, Node>, after: map<Id, Node>, nodes: seq<Node>)
    requires nodes != [] && NodesMore(before[nodes[0].id := nodes[0]], after, nodes[1..])
    ensures NodesMore(before, after, nodes) && Ids(nodes) == {nodes[0].id} + Ids(nodes[1..])
  {
    assert nodes == [nodes[0]] + nodes[1..];
  }

  lemma {:induction false} PutNodesKeeps(db: Database, nodes: seq<Node>)
    requires Sound(db)
    ensures var r := PutNodes(db, nodes);
            Sound(r) && r.files == db.files && NodesMore(db.nodes, r.nodes, nodes) &&
                EdgesLess(db.edges, r.edges, Ids(nodes))
    decreases |nodes|
  {
    if nodes != [] {
      hide Sound, PutNode, EdgesLess, NodesMore;
      var one := PutNode(db, nodes[0]);
      PutNodeKeeps(db, nodes[0]);
      PutNodesKeeps(one, nodes[1..]);
      NodesMoreByOne(db.nodes, PutNodes(db, nodes).nodes, nodes);
      EdgesLessTwice(db.edges, one.edges, PutNodes(db, nodes).edges, {nodes[0].id}, Ids(nodes[1..]));
    }
  }

  lemma PutEdgeKeeps(db: Database, e: Edge)
    requires Sound(db)
    ensures Sound(PutEdge(db, e))
  {
  }

  /** Inserting edges only adds rows; each edge with both ends stored is present afterwards, under its key. */
  lemma {:induction false} PutEdgesKeeps(db: Database, edges: seq<Edge>)
    requires Sound(db)
    ensures var r := PutEdges(db, edges);
            && Sound(r) && r == db.(edges := r.edges)
            && (forall k :: k in db.edges ==> k in r.edges && r.edges[k] == db.edges[k])
            && (forall k :: k in r.edges ==> k in db.edges || r.edges[k] in edges)
            && (forall e :: e in edges && e.source in db.nodes && e.target in db.nodes ==> KeyOf(e) in r.edges)
    decreases |edges|
  {
    if edges != [] {
      PutEdgeKeeps(db, edges[0]);
      PutEdgesKeeps(PutEdge(db, edges[0]), edges[1..]);
      assert edges == [edges[0]] + edges[1..];
    }
  }

  lemma {:induction false} MatchesAreNodes(nodes: seq<Node>, key: string)
    ensures forall id :: id in Matches(nodes, key) ==> id in Ids(nodes)
    ensures forall n :: n in nodes && NameKey(n.name, n.kind) == key ==> n.id in Matches(nodes, key)
  {
    if nodes != [] {
      MatchesAreNodes(nodes[1..], key);
      assert nodes == [nodes[0]] + nodes[1..];
    }
  }

  lemma {:induction false} RewiredFacts(saved: seq<Saved>, nodes: seq<Node>)
    ensures forall s :: s in saved ==>
        if |Candidates(nodes, s)| == 1 then Moved(s, Candidates(nodes, s)[0]) in Rewired(saved, nodes)
                                       else s.sourceFilePath in Unplaced(saved, nodes)
    ensures forall e :: e in Rewired(saved, nodes) ==>
        exists s :: s in saved && |Candidates(nodes, s)| == 1 && e == Moved(s, Candidates(nodes, s)[0])
    ensures forall p :: p in Unplaced(saved, nodes) ==>
        exists s :: s in saved && |Candidates(nodes, s)| != 1 && p == s.sourceFilePath
  {
    hide Candidates;
    if saved != [] {
      RewiredFacts(saved[1..], nodes);
      assert saved == [saved[0]] + saved[1..];
    }
  }

  /** The old contents of a file, if it has a record. */
  function Cleared(db: Database, path: Path): set<Id> {
    if path in db.files then NodesOf(db, path) else {}
  }

  /** An edge that neither touches what is deleted nor a node that is inserted. */
  predicate Untouched(db: Database, path: Path, x: Extraction, k: Key) {
    k.source !in Cleared(db, path) && k.target !in Cleared(db, path) && k.source !in Ids(ValidNodes(x.nodes)) &&
        k.target !in Ids(ValidNodes(x.nodes))
  }

  lemma ClearedFacts(db: Database, path: Path)
    requires Sound(db)
    ensures var r := if path in db.files then DeleteFile(db, path) else db;
            Sound(r) && r.nodes == db.nodes - Cleared(db, path) && EdgesLess(db.edges, r.edges, Cleared(db, path))
  {
    CascadeKeeps(db, NodesOf(db, path));
  }

  lemma ReplacedFacts(db: Database, path: Path, language: string, x: Extraction)
    requires Sound(db)
    ensures var r := Replaced(db, path, language, x);
            && Sound(r) && NodesMore(db.nodes - Cleared(db, path), r.nodes, ValidNodes(x.nodes))
            && (forall k :: k in db.edges && Untouched(db, path, x, k) ==> k in r.edges && r.edges[k] == db.edges[k])
            && (forall k :: k in r.edges ==> (k in db.edges && Untouched(db, path, x, k)) || r.edges[k] in x.edges)
            && r.files == if path in db.files then db.files - {path} else db.files
  {
    var valid := ValidNodes(x.nodes);
    var cleared := if path in db.files then DeleteFile(db, path) else db;
    var put := PutNodes(cleared, valid);
    assert cleared.files == if path in db.files then db.files - {path} else db.files;
    hide ValidNodes, EdgesWithin, RefsWithin, NodesOf, Cleared, Ids, NodesMore, PutNodes, PutEdges, DeleteFile, Sound;
    ClearedFacts(db, path);
    PutNodesKeeps(cleared, valid);
    PutEdgesKeeps(put, EdgesWithin(x.edges, Ids(valid)));
    EdgesLessTwice(db.edges, cleared.edges, put.edges, Cleared(db, path), Ids(valid));
    RefsAdded(PutEdges(put, EdgesWithin(x.edges, Ids(valid))), RefsWithin(x.refs, Ids(valid), path, language),
        cleared.nodes, valid);
  }

  lemma RefsAdded(db: Database, refs: seq<Ref>, before: map<Id, Node>, nodes: seq<Node>)
    requires Sound(db) && NodesMore(before, db.nodes, nodes) && forall ref :: ref in refs ==> ref.from in Ids(nodes)
    ensures Sound(db.(refs := db.refs + refs))
  {
  }

  /** After replacing a file the database is sound, and only that file's record changed. */
  lemma StoredKeepsSound(db: Database, path: Path, contentHash: string, language: string, x: Extraction, force: bool,
      saved: seq<Saved>)
    requires Sound(db)
    ensures Sound(Stored(db, path, contentHash, language, x, force, saved))
  {
    ReplacedFacts(db, path, language, x);
    PutEdgesKeeps(Replaced(db, path, language, x), Rewired(saved, ValidNodes(x.nodes)));
    hide Replaced, Rewired;
  }

  // ---------------------------------------------------------------- nothing is lost

  /**
   An edge that led into the file from another one is there again, up to the identity of
   rows, if exactly one new node answers to its target's name and kind; otherwise the
   file it comes from is remembered.
   */
  lemma IncomingEdgeIsConserved(db: Database, path: Path, contentHash: string, language: string, x: Extraction,
      force: bool, saved: seq<Saved>, k: Key)
    requires Sound(db) && IsSnapshot(db, path, saved) && !Unchanged(db, path, contentHash, force)
    requires k in db.edges && Incoming(db, path, db.edges[k])
    ensures var r, e := Stored(db, path, contentHash, language, x, force, saved), db.edges[k];
            var ids := Candidates(ValidNodes(x.nodes), Snapshot(db, e));
            if |ids| == 1 then ids[0] in r.nodes && KeyOf(e.(target := ids[0])) in r.edges
            else db.nodes[e.source].filePath in Failures(db, path, contentHash, x, force, saved)
  {
    var e, valid := db.edges[k], ValidNodes(x.nodes);
    var s := Snapshot(db, e);
    assert s in saved;
    RewiredFacts(saved, valid);
    ReplacedFacts(db, path, language, x);
    var r := Replaced(db, path, language, x);
    PutEdgesKeeps(r, Rewired(saved, valid));
    SourceStays(db, path, language, x, e.source);
    if |Candidates(valid, s)| == 1 {
      var id := Candidates(valid, s)[0];
      MatchesAreNodes(valid, NameKey(s.targetName, s.targetKind));
      assert id in Candidates(valid, s);
      assert Moved(s, id) == e.(target := id);
    }
  }

  /** Nodes of other files stay stored, under their ids. */
  lemma SourceStays(db: Database, path: Path, language: string, x: Extraction, id: Id)
    requires Sound(db) && id in db.nodes && db.nodes[id].filePath != path
    ensures id in Replaced(db, path, language, x).nodes
  {
    ReplacedFacts(db, path, language, x);
    hide Replaced;
  }

  /** `k` is the identity of one of the edges. */
  ghost predicate KeyAmong(edges: seq<Edge>, k: Key) {
    exists e :: e in edges && KeyOf(e) == k
  }

  lemma PutEdgesKeys(db: Database, edges: seq<Edge>, k: Key)
    requires Sound(db)
    ensures k in PutEdges(db, edges).edges <==>
        k in db.edges || (k.source in db.nodes && k.target in db.nodes && KeyAmong(edges, k))
  {
    PutEdgesKeeps(db, edges);
    var r := PutEdges(db, edges);
    hide PutEdges;
    assert k in r.edges ==> KeyOf(r.edges[k]) == k && k.source in db.nodes && k.target in db.nodes;
    if KeyAmong(edges, k) && k.source in db.nodes && k.target in db.nodes {
      var e :| e in edges && KeyOf(e) == k;
      assert KeyOf(e) in r.edges;
    }
  }

  /** The edges left and inserted before any edge is put back. */
  lemma ReplacedKeys(db: Database, path: Path, language: string, x: Extraction, k: Key)
    requires Sound(db)
    ensures var r, ids := Replaced(db, path, language, x), Ids(ValidNodes(x.nodes));
            && Sound(r)
            && (k in r.edges <==>
                (k in db.edges && Untouched(db, path, x, k)) || KeyAmong(EdgesWithin(x.edges, ids), k))
  {
    var valid := ValidNodes(x.nodes);
    var cleared := if path in db.files then DeleteFile(db, path) else db;
    var put, within := PutNodes(cleared, valid), EdgesWithin(x.edges, Ids(valid));
    ReplacedFacts(db, path, language, x);
    assert KeyAmong(within, k) ==> k.source in Ids(valid) && k.target in Ids(valid);
    hide ValidNodes, EdgesWithin, RefsWithin, NodesOf, Cleared, Ids, PutNodes, PutEdges, DeleteFile, Sound, KeyAmong,
         NodesMore;
    ClearedFacts(db, path);
    PutNodesKeeps(cleared, valid);
    PutEdgesKeys(put, within, k);
    EdgesLessTwice(db.edges, cleared.edges, put.edges, Cleared(db, path), Ids(valid));
    InsertedIsStored(cleared.nodes, put.nodes, valid);
  }

  lemma InsertedIsStored(before: map<Id, Node>, after: map<Id, Node>, nodes: seq<Node>)
    requires NodesMore(before, after, nodes)
    ensures forall id :: id in Ids(nodes) ==> id in after
  {
  }

  /**
   An edge between other files is kept as it is unless a new node takes the id of one of
   its ends. If one does, the edge is lost, except that one of the same identity may be
   among the extracted edges or among those put back.
   */
  lemma OtherEdgeIsKept(db: Database, path: Path, contentHash: string, language: string, x: Extraction, force: bool,
      saved: seq<Saved>, k: Key)
    requires Sound(db) && k in db.edges
    requires db.nodes[k.source].filePath != path && db.nodes[k.target].filePath != path
    ensures var r, ids := Stored(db, path, contentHash, language, x, force, saved), Ids(ValidNodes(x.nodes));
            && (k.source !in ids && k.target !in ids ==> k in r.edges && r.edges[k] == db.edges[k])
            && (k in r.edges <==>
                || Unchanged(db, path, contentHash, force)
                || (k.source !in ids && k.target !in ids)
                || KeyAmong(EdgesWithin(x.edges, ids), k)
                || KeyAmong(Rewired(saved, ValidNodes(x.nodes)), k))
  {
    ReplacedFacts(db, path, language, x);
    ReplacedKeys(db, path, language, x, k);
    SourceStays(db, path, language, x, k.source);
    SourceStays(db, path, language, x, k.target);
    PutEdgesKeeps(Replaced(db, path, language, x), Rewired(saved, ValidNodes(x.nodes)));
    PutEdgesKeys(Replaced(db, path, language, x), Rewired(saved, ValidNodes(x.nodes)), k);
    hide Replaced, Rewired, PutEdges, Ids, KeyAmong, EdgesWithin, ValidNodes;
  }

  /** Edge `e` is an edge that led into the file before, put back on its only candidate. */
  ghost predicate PutBack(db: Database, path: Path, x: Extraction, was: Key, e: Edge)
    requires Sound(db)
  {
    && was in db.edges && Incoming(db, path, db.edges[was]) && e == db.edges[was].(target := e.target)
    && Candidates(ValidNodes(x.nodes), Snapshot(db, db.edges[was])) == [e.target]
  }

  lemma RewiredIsPutBack(db: Database, path: Path, x: Extraction, saved: seq<Saved>, e: Edge)
    requires Sound(db) && LookedUp(db, path, saved) && e in Rewired(saved, ValidNodes(x.nodes))
    ensures exists was :: PutBack(db, path, x, was, e)
  {
    var valid := ValidNodes(x.nodes);
    RewiredFacts(saved, valid);
    hide Candidates, Rewired;
    var s :| s in saved && |Candidates(valid, s)| == 1 && e == Moved(s, Candidates(valid, s)[0]);
    var was :| was in db.edges && Incoming(db, path, db.edges[was]) && Snapshot(db, db.edges[was]) == s;
    assert Candidates(valid, s) == [e.target];
    assert PutBack(db, path, x, was, e);
  }

  /** No edge appears but those extracted, those kept, and those that led into the file before. */
  lemma NoEdgeIsInvented(db: Database, path: Path, contentHash: string, language: string, x: Extraction, force: bool,
      saved: seq<Saved>, k: Key)
    requires Sound(db) && LookedUp(db, path, saved) &&
        k in Stored(db, path, contentHash, language, x, force, saved).edges
    ensures var e := Stored(db, path, contentHash, language, x, force, saved).edges[k];
            (k in db.edges && e == db.edges[k]) || e in x.edges || exists was :: PutBack(db, path, x, was, e)
  {
    ReplacedFacts(db, path, language, x);
    var r := Replaced(db, path, language, x);
    PutEdgesKeeps(r, Rewired(saved, ValidNodes(x.nodes)));
    var e := Stored(db, path, contentHash, language, x, force, saved).edges[k];
    UntouchedIsKept(db, path, language, x, k);
    hide Replaced, Rewired, PutEdges, PutBack, Untouched;
    if e in Rewired(saved, ValidNodes(x.nodes)) {
      RewiredIsPutBack(db, path, x, saved, e);
    }
  }

  lemma UntouchedIsKept(db: Database, path: Path, language: string, x: Extraction, k: Key)
    requires Sound(db)
    ensures var r := Replaced(db, path, language, x);
        k in r.edges ==> (k in db.edges && r.edges[k] == db.edges[k]) || r.edges[k] in x.edges
  {
    ReplacedFacts(db, path, language, x);
    hide Replaced;
  }

  /** With distinct ids, the node an edge is put back on is stored as extracted. */
  lemma CandidateIsStored(db: Database, path: Path, contentHash: string, language: string, x: Extraction, force: bool,
      saved: seq<Saved>, n: Node)
    requires Sound(db) && !Unchanged(db, path, contentHash, force) && n in ValidNodes(x.nodes)
    requires forall m :: m in ValidNodes(x.nodes) && m.id == n.id ==> m == n
    ensures var r := Stored(db, path, contentHash, language, x, force, saved); n.id in r.nodes && r.nodes[n.id] == n
  {
    ReplacedFacts(db, path, language, x);
    var valid := ValidNodes(x.nodes);
    var r := Replaced(db, path, language, x);
    PutEdgesKeeps(r, Rewired(saved, valid));
    assert n.id in Ids(valid);
    assert r.nodes[n.id] in valid && r.nodes[n.id].id == n.id;
    hide Replaced, Rewired, PutEdges;
  }

  predicate Plain(kind: Kind) {
    forall i :: 0 <= i < |kind| ==> kind[i] != '|'
  }

  /** Kinds hold no bar, so two nodes share the text they are looked up by only if name and kind agree. */
  lemma NameKeyTellsApart(name: string, kind: Kind, otherName: string, otherKind: Kind)
    requires Plain(kind) && Plain(otherKind)
    ensures NameKey(name, kind) == NameKey(otherName, otherKind) <==> name == otherName && kind == otherKind
  {
    if |name| < |otherName| {
      ShorterNameDiffers(name, kind, otherName, otherKind);
    } else if |otherName| < |name| {
      ShorterNameDiffers(otherName, otherKind, name, kind);
    } else {
      var a, b := NameKey(name, kind), NameKey(otherName, otherKind);
      assert a[..|name|] == name && b[..|name|] == otherName;
      assert a[|name| + 1..] == kind && b[|name| + 1..] == otherKind;
    }
  }

  lemma ShorterNameDiffers(name: string, kind: Kind, longer: string, longerKind: Kind)
    requires |name| < |longer| && Plain(kind)
    ensures NameKey(name, kind) != NameKey(longer, longerKind)
  {
    var a, b, i := NameKey(name, kind), NameKey(longer, longerKind), |longer|;
    assert b[i] == '|';
    if i < |a| {
      assert a[i] == kind[i - |name| - 1];
    }
  }

  /** A file with nodes keeps having a record, if the extractor names the file in every node. */
  lemma RecordedIsKept(db: Database, path: Path, contentHash: string, language: string, x: Extraction, force: bool,
      saved: seq<Saved>)
    requires Sound(db) && Recorded(db) && forall n :: n in x.nodes ==> n.filePath == path
    ensures Recorded(Stored(db, path, contentHash, language, x, force, saved))
  {
    ReplacedFacts(db, path, language, x);
    PutEdgesKeeps(Replaced(db, path, language, x), Rewired(saved, ValidNodes(x.nodes)));
    hide Replaced, Rewired, PutEdges;
  }

  /** A new node that takes an id of another file deletes that file's edges, and no one is told. */
  lemma SharedIdLosesEdge() returns (db: Database, x: Extraction, k: Key)
    ensures Sound(db) && Recorded(db) && IsSnapshot(db, "p", []) && k in db.edges
    ensures db.nodes[k.source].filePath != "p" && db.nodes[k.target].filePath != "p"
    ensures k !in Stored(db, "p", "h", "c", x, false, []).edges && Failures(db, "p", "h", x, false, []) == {}
  {
    var a, b := Node("a", "function", "f", "q", "c"), Node("b", "function", "g", "q", "c");
    var e := Edge("a", "b", "calls", None, None, None, None);
    k := KeyOf(e);
    db := Database(map["a" := a, "b" := b], map[k := e], map["q" := FileRecord("q", false)], []);
    var mine := a.(filePath := "p");
    x := Extraction([mine], [], [], false);
    assert mine in x.nodes && mine in ValidNodes(x.nodes);
    ReplacedFacts(db, "p", "c", x);
    assert !Untouched(db, "p", x, k);
    var r := Replaced(db, "p", "c", x);
    assert k !in r.edges;
    assert PutEdges(r, Rewired([], ValidNodes(x.nodes))) == r;
  }

  // ---------------------------------------------------------------- a file without a record

  /** The edges a store looks up before it deletes: those that lead into the file, if the file has a record. */
  ghost predicate LookedUp(db: Database, path: Path, saved: seq<Saved>)
    requires Sound(db)
  {
    if path in db.files then IsSnapshot(db, path, saved) else saved == []
  }

  /** The edge is still there, or there again on its only candidate, or the file it comes from is remembered. */
  ghost predicate Accounted(db: Database, path: Path, contentHash: string, language: string, x: Extraction, force: bool,
      saved: seq<Saved>, k: Key)
    requires Sound(db) && k in db.edges
  {
    var r, e := Stored(db, path, contentHash, language, x, force, saved), db.edges[k];
    var ids := Candidates(ValidNodes(x.nodes), Snapshot(db, e));
    || k in r.edges
    || (|ids| == 1 && KeyOf(e.(target := ids[0])) in r.edges)
    || db.nodes[e.source].filePath in Failures(db, path, contentHash, x, force, saved)
  }

  /** Without a record nothing is put back and no one is told: what leads to a new node was extracted with it. */
  lemma StoreWithoutRecord(db: Database, path: Path, contentHash: string, language: string, x: Extraction, force: bool,
      k: Key)
    requires Sound(db) && path !in db.files
    ensures var r, ids := Stored(db, path, contentHash, language, x, force, []), Ids(ValidNodes(x.nodes));
            && Failures(db, path, contentHash, x, force, []) == {}
            && (k in r.edges <==>
                || (k in db.edges && k.source !in ids && k.target !in ids)
                || KeyAmong(EdgesWithin(x.edges, ids), k))
            && (k in r.edges && k.target in ids ==> k.source in ids)
  {
    ReplacedKeys(db, path, language, x, k);
    hide Replaced, EdgesWithin, ValidNodes, Ids;
    assert Rewired([], ValidNodes(x.nodes)) == [];
    assert PutEdges(Replaced(db, path, language, x), []) == Replaced(db, path, language, x);
    WithinEnds(x.edges, Ids(ValidNodes(x.nodes)), k);
  }

  lemma WithinEnds(edges: seq<Edge>, ids: set<Id>, k: Key)
    ensures KeyAmong(EdgesWithin(edges, ids), k) ==> k.source in ids && k.target in ids
  {
    hide EdgesWithin;
  }

  /**
   An edge that leads into the file is accounted for exactly if the file has a record, or no new
   node takes the id of one of its ends, or it was extracted again, as it was or to its only
   candidate. From a node whose id is not taken none is extracted.
   */
  lemma AccountedIfRecorded(db: Database, path: Path, contentHash: string, language: string, x: Extraction, force: bool,
      saved: seq<Saved>, k: Key)
    requires Sound(db) && LookedUp(db, path, saved) && k in db.edges && Incoming(db, path, db.edges[k])
    ensures var e, ids := db.edges[k], Ids(ValidNodes(x.nodes));
            var within, found := EdgesWithin(x.edges, ids), Candidates(ValidNodes(x.nodes), Snapshot(db, e));
            && (Accounted(db, path, contentHash, language, x, force, saved, k) <==>
                || path in db.files
                || (k.source !in ids && k.target !in ids)
                || KeyAmong(within, k)
                || (|found| == 1 && KeyAmong(within, KeyOf(e.(target := found[0])))))
            && (k.source !in ids ==>
                (Accounted(db, path, contentHash, language, x, force, saved, k) <==>
                 path in db.files || k.target !in ids))
  {
    hide EdgesWithin, KeyAmong, ValidNodes, Stored, Failures, Replaced, Ids, Candidates, Incoming;
    if path !in db.files {
      var valid, e := ValidNodes(x.nodes), db.edges[k];
      var ids := Candidates(valid, Snapshot(db, e));
      StoreWithoutRecord(db, path, contentHash, language, x, force, k);
      WithinEnds(x.edges, Ids(valid), k);
      if |ids| == 1 {
        WithinEnds(x.edges, Ids(valid), KeyOf(e.(target := ids[0])));
        assert ids[0] in Ids(valid) by { CandidatesAreNew(valid, Snapshot(db, e)); }
        StoreWithoutRecord(db, path, contentHash, language, x, force, KeyOf(e.(target := ids[0])));
      }
    } else if Unchanged(db, path, contentHash, force) {
      assert Stored(db, path, contentHash, language, x, force, saved) == db by { UnchangedStays(db, path, contentHash,
          language, x, force, saved); }
    } else {
      IncomingEdgeIsConserved(db, path, contentHash, language, x, force, saved, k);
    }
  }

  lemma UnchangedStays(db: Database, path: Path, contentHash: string, language: string, x: Extraction, force: bool,
      saved: seq<Saved>)
    requires Unchanged(db, path, contentHash, force)
    ensures Stored(db, path, contentHash, language, x, force, saved) == db
  {
    hide Wired;
  }

  lemma CandidatesAreNew(nodes: seq<Node>, s: Saved)
    ensures forall id :: id in Candidates(nodes, s) ==> id in Ids(nodes)
  {
    MatchesAreNodes(nodes, NameKey(s.targetName, s.targetKind));
  }

  /**
   A process stores a file, puts an incoming edge back on its only candidate, and dies before
   it writes the record. The next store of the file finds none. If it stores the candidate's
   id again, the edge is gone, no other leads from its source to a new node, and no one is told.
   */
  lemma DeathBeforeRecordLosesEdge(db: Database, path: Path, language: string, x: Extraction, saved: seq<Saved>, k: Key,
      contentHash: string, y: Extraction, force: bool, id: Id)
    requires Sound(db) && path in db.files && IsSnapshot(db, path, saved)
    requires k in db.edges && Incoming(db, path, db.edges[k])
    requires Candidates(ValidNodes(x.nodes), Snapshot(db, db.edges[k])) == [id]
    requires id in Ids(ValidNodes(y.nodes)) && k.source !in Ids(ValidNodes(y.nodes))
    ensures var died, back := Wired(db, path, language, x, saved), KeyOf(db.edges[k].(target := id));
            var r := Stored(died, path, contentHash, language, y, force, []);
            && Sound(died) && path !in died.files && LookedUp(died, path, []) && back in died.edges
            && Failures(died, path, contentHash, y, force, []) == {} && back !in r.edges
            && forall other :: other in r.edges && other.source == k.source ==>
                 other.target !in Ids(ValidNodes(y.nodes))
  {
    var died := Wired(db, path, language, x, saved);
    var r := Stored(died, path, contentHash, language, y, force, []);
    WiredFacts(db, path, language, x, saved);
    assert KeyOf(db.edges[k].(target := id)) in died.edges by {
      IncomingEdgeIsConserved(db, path, "", language, x, true, saved, k);
    }
    hide Wired, Stored, Failures, Ids, Candidates, ValidNodes, Incoming, IsSnapshot, Sound;
    forall other | other in r.edges && other.source == k.source ensures other.target !in Ids(ValidNodes(y.nodes)) {
      StoreWithoutRecord(died, path, contentHash, language, y, force, other);
    }
    StoreWithoutRecord(died, path, contentHash, language, y, force, KeyOf(db.edges[k].(target := id)));
  }

  lemma WiredFacts(db: Database, path: Path, language: string, x: Extraction, saved: seq<Saved>)
    requires Sound(db)
    ensures var died := Wired(db, path, language, x, saved);
            Sound(died) && died.files == if path in db.files then db.files - {path} else db.files
  {
    ReplacedFacts(db, path, language, x);
    PutEdgesKeeps(Replaced(db, path, language, x), Rewired(saved, ValidNodes(x.nodes)));
    hide Replaced, Rewired;
  }

  // ---------------------------------------------------------------- removing a file

  /** The reference an edge was resolved from, if it is known. */
  function Resurrected(s: Saved): seq<Ref> {
    if s.stamp.None? || s.stamp.value.refName == "" then []
    else
      var kind := if s.stamp.value.refKind.Some? then s.stamp.value.refKind.value else s.kind;
      [Ref(s.source, s.stamp.value.refName, kind, if s.line.Some? then s.line.value else 0, if s.col.Some?
          then s.col.value else 0,
           s.sourceFilePath, s.sourceLanguage)]
  }

  function ResurrectedAll(saved: seq<Saved>): (r: seq<Ref>)
    ensures forall ref :: ref in r <==> exists s :: s in saved && ref in Resurrected(s)
  {
    if saved == [] then [] else Resurrected(saved[0]) + ResurrectedAll(saved[1..])
  }

  function Removed(db: Database, path: Path, saved: seq<Saved>): Database {
    DeleteFile(db.(refs := db.refs + ResurrectedAll(saved)), path)
  }

  /**
   When a file is removed, every edge that led into it and remembers its reference leaves
   that reference pending, and no other reference appears.
   */
  lemma RemovalLeavesReferences(db: Database, path: Path, saved: seq<Saved>)
    requires Sound(db) && IsSnapshot(db, path, saved)
    ensures Sound(Removed(db, path, saved)) && NodesOf(Removed(db, path, saved), path) == {}
    ensures forall k :: k in db.edges && Incoming(db, path, db.edges[k]) ==>
        forall ref :: ref in Resurrected(Snapshot(db, db.edges[k])) ==> ref in Removed(db, path, saved).refs
    ensures forall ref :: ref in db.refs && db.nodes[ref.from].filePath != path ==> ref in Removed(db, path, saved).refs
    ensures forall ref :: ref in Removed(db, path, saved).refs ==>
        ref in db.refs || exists k ::
            k in db.edges && Incoming(db, path, db.edges[k]) && ref in Resurrected(Snapshot(db, db.edges[k]))
  {
    var more := db.(refs := db.refs + ResurrectedAll(saved));
    ResurrectedFacts(db, path, saved);
    hide Resurrected, IsSnapshot;
    assert Sound(more);
    CascadeKeeps(more, NodesOf(more, path));
    assert NodesOf(more, path) == NodesOf(db, path);
  }

  lemma ResurrectedFacts(db: Database, path: Path, saved: seq<Saved>)
    requires Sound(db) && IsSnapshot(db, path, saved)
    ensures forall ref :: ref in ResurrectedAll(saved) ==> ref.from in db.nodes && db.nodes[ref.from].filePath != path
    ensures forall ref :: ref in ResurrectedAll(saved) <==>
        exists k ::
            k in db.edges && Incoming(db, path, db.edges[k]) && ref in Resurrected(Snapshot(db, db.edges[k]))
  {
    forall ref | ref in ResurrectedAll(saved)
      ensures ref.from in db.nodes && db.nodes[ref.from].filePath != path
    {
      var s :| s in saved && ref in Resurrected(s);
    }
    hide Resurrected;
  }

  // ---------------------------------------------------------------- the store as an object

  /** The ids of the nodes under each name and kind, in order. */
  method IndexByName(nodes: seq<Node>) returns (nameIndex: map<string, seq<Id>>)
    ensures forall key :: Matches(nodes, key) == if key in nameIndex then nameIndex[key] else []
  {
    nameIndex := map[];
    var i := 0;
    while i < |nodes|
      invariant 0 <= i <= |nodes|
      invariant forall key :: Matches(nodes[..i], key) == if key in nameIndex then nameIndex[key] else []
    {
      assert nodes[..i + 1] == nodes[..i] + [nodes[i]];
      var key := NameKey(nodes[i].name, nodes[i].kind);
      forall other {
        MatchesMore(nodes[..i], nodes[i], other);
      }
      nameIndex := nameIndex[key := (if key in nameIndex then nameIndex[key] else []) + [nodes[i].id]];
      i := i + 1;
    }
    assert nodes[..|nodes|] == nodes;
  }

  lemma RewireOne(saved: seq<Saved>, nodes: seq<Node>)
    requires saved != []
    ensures var ids := Candidates(nodes, saved[0]);
            && Rewired(saved, nodes) == (if |ids| == 1 then [Moved(saved[0], ids[0])] else []) +
                Rewired(saved[1..], nodes)
            && Unplaced(saved, nodes) == (if |ids| == 1 then {} else {saved[0].sourceFilePath}) +
                Unplaced(saved[1..], nodes)
  {
  }

  /** Edges with one candidate are put back; the files of the others are collected. */
  method Place(saved: seq<Saved>, newNodes: seq<Node>, nameIndex: map<string, seq<Id>>)
    returns (rewired: seq<Edge>, failed: set<Path>)
    requires forall key :: Matches(newNodes, key) == if key in nameIndex then nameIndex[key] else []
    ensures rewired == Rewired(saved, newNodes) && failed == Unplaced(saved, newNodes)
  {
    hide NameKey, Matches, Rewired, Unplaced, Moved;
    rewired, failed := [], {};
    var i := 0;
    assert saved[0..] == saved;
    NothingToRewire([], newNodes);
    while i < |saved|
      invariant 0 <= i <= |saved|
      invariant rewired + Rewired(saved[i..], newNodes) == Rewired(saved, newNodes)
      invariant failed + Unplaced(saved[i..], newNodes) == Unplaced(saved, newNodes)
    {
      var s := saved[i];
      var key := NameKey(s.targetName, s.targetKind);
      RewireOne(saved[i..], newNodes);
      assert saved[i..][1..] == saved[i + 1..];
      assert Candidates(newNodes, s) == if key in nameIndex then nameIndex[key] else [];
      if key in nameIndex && |nameIndex[key]| == 1 {
        rewired := rewired + [Moved(s, nameIndex[key][0])];
      } else {
        failed := failed + {s.sourceFilePath};
      }
      i := i + 1;
    }
    assert saved[i..] == [];
  }

  class Indexer {
    var db: Database

    /** The files to index again because an edge of theirs could not be put back. */
    var syncRewireFailures: set<Path>

    constructor (db: Database)
      ensures this.db == db && syncRewireFailures == {}
    {
      this.db, syncRewireFailures := db, {};
    }

    method InsertNodes(nodes: seq<Node>)
      modifies `db
      ensures db == PutNodes(old(db), nodes)
    {
      var i := 0;
      assert nodes[0..] == nodes;
      while i < |nodes|
        invariant 0 <= i <= |nodes| && PutNodes(db, nodes[i..]) == PutNodes(old(db), nodes)
      {
        assert nodes[i..][1..] == nodes[i + 1..];
        db := PutNode(db, nodes[i]);
        i := i + 1;
      }
    }

    /** The ends are looked up once, before the first row is written. */
    method InsertEdges(edges: seq<Edge>)
      modifies `db
      ensures db == PutEdges(old(db), edges)
    {
      var existing := db.nodes.Keys;
      var i := 0;
      assert edges[0..] == edges;
      while i < |edges|
        invariant 0 <= i <= |edges| && db.nodes.Keys == existing
        invariant PutEdges(db, edges[i..]) == PutEdges(old(db), edges)
      {
        assert edges[i..][1..] == edges[i + 1..];
        var e := edges[i];
        if e.source in existing && e.target in existing && KeyOf(e) !in db.edges {
          db := db.(edges := db.edges[KeyOf(e) := e]);
        }
        i := i + 1;
      }
    }

    /** Lists the edges that lead into a file from other files, in any order. */
    method IncomingCrossFileEdges(path: Path) returns (saved: seq<Saved>)
      requires Sound(db)
      ensures IsSnapshot(db, path, saved)
    {
      saved := [];
      var left := db.edges.Keys;
      while left != {}
        invariant left <= db.edges.Keys
        invariant forall s :: s in saved <==>
            exists k ::
                k in db.edges && k !in left && Incoming(db, path, db.edges[k]) && Snapshot(db, db.edges[k]) == s
        decreases |left|
      {
        var k :| k in left;
        left := left - {k};
        var e := db.edges[k];
        ghost var before := saved;
        if Incoming(db, path, e) {
          saved := saved + [Snapshot(db, e)];
        }
        assert forall s :: s in saved <==> s in before || (Incoming(db, path, e) && s == Snapshot(db, e));
      }
    }

    method RewireEdges(saved: seq<Saved>, newNodes: seq<Node>)
      modifies this
      ensures db == PutEdges(old(db), Rewired(saved, newNodes))
      ensures syncRewireFailures == old(syncRewireFailures) + Unplaced(saved, newNodes)
    {
      var nameIndex := IndexByName(newNodes);
      var rewired, failed := Place(saved, newNodes, nameIndex);
      InsertEdges(rewired);
      syncRewireFailures := syncRewireFailures + failed;
    }

    /** Replaces what is stored of a file; `saved` are the edges that led into it. */
    method StoreExtractionResult(path: Path, contentHash: string, language: string, x: Extraction, force: bool)
      returns (saved: seq<Saved>)
      requires Sound(db)
      modifies this
      ensures LookedUp(old(db), path, saved)
      ensures old(Recorded(db)) ==> IsSnapshot(old(db), path, saved)
      ensures db == Stored(old(db), path, contentHash, language, x, force, saved)
      ensures syncRewireFailures == old(syncRewireFailures) + Failures(old(db), path, contentHash, x, force, saved)
      ensures Sound(db)
    {
      hide Sound, Incoming, PutNodes, PutEdges, Rewired, Unplaced, ValidNodes, EdgesWithin, RefsWithin, NodesOf, Ids,
           Cascade, Recorded;
      if !force && path in db.files && db.files[path].contentHash == contentHash && !db.files[path].recoverySkipped {
        saved := IncomingCrossFileEdges(path);
        return;
      }
      saved := [];
      if path in db.files {
        saved := IncomingCrossFileEdges(path);
        db := DeleteFile(db, path);
      }
      if path !in old(db.files) && Recorded(db) { NothingIncoming(db, path); }
      var validNodes := ValidNodes(x.nodes);
      InsertNodes(validNodes);
      InsertEdges(EdgesWithin(x.edges, Ids(validNodes)));
      db := db.(refs := db.refs + RefsWithin(x.refs, Ids(validNodes), path, language));
      assert db == Replaced(old(db), path, language, x);
      if |saved| > 0 && |validNodes| > 0 {
        RewireEdges(saved, validNodes);
      } else {
        NothingToRewire(saved, validNodes);
        assert PutEdges(db, []) == db by { NoEdges(db); }
        if |saved| > 0 {
          syncRewireFailures := syncRewireFailures + (set s | s in saved :: s.sourceFilePath);
        }
      }
      db := db.(files := db.files[path := FileRecord(contentHash, x.recoverySkipped)]);
      StoredKeepsSound(old(db), path, contentHash, language, x, force, saved);
    }

    /** Removes a file that is gone, keeping what its importers referred to. */
    method RemoveFile(path: Path) returns (saved: seq<Saved>, resurrectedSources: set<Path>)
      requires Sound(db)
      modifies `db
      ensures IsSnapshot(old(db), path, saved) && db == Removed(old(db), path, saved)
      ensures resurrectedSources == set ref | ref in ResurrectedAll(saved) && ref.filePath != "" :: ref.filePath
    {
      saved := IncomingCrossFileEdges(path);
      var resurrected := ResurrectedAll(saved);
      assert db.refs + [] == db.refs;
      resurrectedSources := {};
      if |resurrected| > 0 {
        db := db.(refs := db.refs + resurrected);
        resurrectedSources := set ref | ref in resurrected && ref.filePath != "" :: ref.filePath;
      }
      db := DeleteFile(db, path);
    }
  }

  lemma {:induction false} MatchesMore(nodes: seq<Node>, n: Node, key: string)
    ensures Matches(nodes + [n], key) == Matches(nodes, key) + (if NameKey(n.name, n.kind) == key then [n.id] else [])
  {
    hide NameKey;
    if nodes == [] {
      assert nodes + [n] == [n] && [n][1..] == [];
    } else {
      assert (nodes + [n])[0] == nodes[0] && (nodes + [n])[1..] == nodes[1..] + [n];
      MatchesMore(nodes[1..], n, key);
    }
  }

  lemma NothingIncoming(db: Database, path: Path)
    requires Sound(db) && Recorded(db) && path !in db.files
    ensures IsSnapshot(db, path, [])
  {
  }

  lemma NoEdges(db: Database)
    ensures PutEdges(db, []) == db
  {
  }

  /** Without saved edges or without new nodes nothing is put back, and every saved edge is unplaced. */
  lemma {:induction false} NothingToRewire(saved: seq<Saved>, nodes: seq<Node>)
    requires saved == [] || nodes == []
    ensures Rewired(saved, nodes) == [] && Unplaced(saved, nodes) == set s | s in saved :: s.sourceFilePath
  {
    if saved != [] {
      assert saved == [saved[0]] + saved[1..];
      NothingToRewire(saved[1..], nodes);
    }
  }
}
