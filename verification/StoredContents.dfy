/**
 What is stored of a file once it was replaced, in terms of what was stored before and what
 was extracted: its nodes, its record, its edges and its references, and nothing else.
 */
module StoredContents {
  import opened Options
  import opened Reindex

  /** The node has all that a row needs. */
  predicate Complete(n: Node) {
    n.id != "" && n.kind != "" && n.name != "" && n.filePath != "" && n.language != ""
  }

  /** The node at `j` is complete, and no later complete node has its id. */
  predicate LastOfId(nodes: seq<Node>, j: nat) {
    j < |nodes| && Complete(nodes[j]) && forall i :: j < i < |nodes| && Complete(nodes[i]) ==>
        nodes[i].id != nodes[j].id
  }

  /** A complete node with this id is among the nodes. */
  predicate Extracted(nodes: seq<Node>, id: Id) {
    exists j :: 0 <= j < |nodes| && Complete(nodes[j]) && nodes[j].id == id
  }

  /** The node was stored for another file, or for a file without a record. */
  predicate Elsewhere(db: Database, path: Path, id: Id) {
    id in db.nodes && (db.nodes[id].filePath == path ==> path !in db.files)
  }

  /** The file was stored from these contents before, completely, and the store is not forced. */
  predicate StoredAlready(db: Database, path: Path, contentHash: string, force: bool) {
    path in db.files && db.files[path] == FileRecord(contentHash, false) && !force
  }

  /** Such a file is left alone, and no one is told to index again. */
  lemma SkippedIfStoredAlready(db: Database, path: Path, contentHash: string, language: string, x: Extraction,
      force: bool, saved: seq<Saved>)
    requires StoredAlready(db, path, contentHash, force)
    ensures Stored(db, path, contentHash, language, x, force, saved) == db
    ensures Failures(db, path, contentHash, x, force, saved) == {}
  {
    UnchangedStays(db, path, contentHash, language, x, force, saved);
  }

  // ---------------------------------------------------------------- nodes

  lemma {:induction false} ValidNodesAre(nodes: seq<Node>, id: Id)
    ensures id in Ids(ValidNodes(nodes)) <==> Extracted(nodes, id)
  {
    if id in Ids(ValidNodes(nodes)) {
      var n :| n in ValidNodes(nodes) && n.id == id;
      var j :| 0 <= j < |nodes| && nodes[j] == n;
    }
  }

  lemma {:induction false} LastStays(db: Database, nodes: seq<Node>, id: Id)
    requires Sound(db) && id !in Ids(ValidNodes(nodes))
    ensures id in PutNodes(db, ValidNodes(nodes)).nodes <==> id in db.nodes
    ensures id in db.nodes ==> PutNodes(db, ValidNodes(nodes)).nodes[id] == db.nodes[id]
  {
    PutNodesKeeps(db, ValidNodes(nodes));
    hide PutNodes, ValidNodes, Sound, EdgesLess;
  }

  lemma PutFirst(db: Database, nodes: seq<Node>)
    requires nodes != []
    ensures PutNodes(db, ValidNodes(nodes)) ==
        PutNodes(if ValidNode(nodes[0]) then PutNode(db, nodes[0]) else db, ValidNodes(nodes[1..]))
  {
    hide PutNode;
    var rest := ValidNodes(nodes[1..]);
    if ValidNode(nodes[0]) {
      assert ([nodes[0]] + rest)[1..] == rest;
    } else {
      assert [] + rest == rest;
    }
  }

  lemma {:induction false} LastIsPut(db: Database, nodes: seq<Node>, j: nat)
    requires Sound(db) && LastOfId(nodes, j)
    ensures var r := PutNodes(db, ValidNodes(nodes)).nodes; nodes[j].id in r && r[nodes[j].id] == nodes[j]
    decreases |nodes|
  {
    hide Sound, EdgesLess, PutNode, NodesMore, Ids;
    var one := if ValidNode(nodes[0]) then PutNode(db, nodes[0]) else db;
    PutNodeKeeps(db, nodes[0]);
    PutFirst(db, nodes);
    if j > 0 {
      LastIsPut(one, nodes[1..], j - 1);
    } else {
      NotAgain(nodes);
      LastStays(one, nodes[1..], nodes[0].id);
    }
  }

  lemma NotAgain(nodes: seq<Node>)
    requires LastOfId(nodes, 0)
    ensures nodes[0].id !in Ids(ValidNodes(nodes[1..]))
  {
    ValidNodesAre(nodes[1..], nodes[0].id);
    hide Ids, ValidNodes;
  }

  predicate Holds(nodes: map<Id, Node>, n: Node) {
    n.id in nodes && nodes[n.id] == n
  }

  /** The contents of the file are deleted, if the file has a record. */
  function Emptied(db: Database, path: Path): Database {
    if path in db.files then DeleteFile(db, path) else db
  }

  /** The new nodes are in, and the new edges and references are not yet. */
  function Filled(db: Database, path: Path, x: Extraction): Database {
    PutNodes(Emptied(db, path), ValidNodes(x.nodes))
  }

  function Within(x: Extraction): seq<Edge> {
    EdgesWithin(x.edges, Ids(ValidNodes(x.nodes)))
  }

  function NewRefs(x: Extraction, path: Path, language: string): seq<Ref> {
    RefsWithin(x.refs, Ids(ValidNodes(x.nodes)), path, language)
  }

  lemma StoreInSteps(db: Database, path: Path, contentHash: string, language: string, x: Extraction, force: bool,
      saved: seq<Saved>)
    requires !StoredAlready(db, path, contentHash, force)
    ensures var put := PutEdges(Filled(db, path, x), Within(x));
            var wired := PutEdges(put.(refs := put.refs + NewRefs(x, path, language)),
                Rewired(saved, ValidNodes(x.nodes)));
            Stored(db, path, contentHash, language, x, force, saved) ==
                wired.(files := wired.files[path := FileRecord(contentHash, x.recoverySkipped)])
  {
    hide DeleteFile, PutNodes, PutEdges, ValidNodes, EdgesWithin, RefsWithin, Ids, Rewired;
  }

  lemma EmptiedIs(db: Database, path: Path)
    requires Sound(db)
    ensures var r := Emptied(db, path);
            && Sound(r) && r.nodes == db.nodes - Cleared(db, path) && EdgesLess(db.edges, r.edges, Cleared(db, path))
            && r.files == if path in db.files then db.files - {path} else db.files
  {
    ClearedFacts(db, path);
    hide Sound, Cleared, EdgesLess;
  }

  lemma FilledIs(db: Database, path: Path, x: Extraction)
    requires Sound(db)
    ensures var r := Filled(db, path, x);
            && Sound(r) && r.files == Emptied(db, path).files
            && NodesMore(Emptied(db, path).nodes, r.nodes, ValidNodes(x.nodes))
            && EdgesLess(Emptied(db, path).edges, r.edges, Ids(ValidNodes(x.nodes)))
  {
    hide Sound, EdgesLess, NodesMore, Emptied, PutNodes, ValidNodes, Ids;
    EmptiedIs(db, path);
    PutNodesKeeps(Emptied(db, path), ValidNodes(x.nodes));
  }

  lemma EdgesAside(db: Database, edges: seq<Edge>)
    requires Sound(db)
    ensures var r := PutEdges(db, edges); Sound(r) && r == db.(edges := r.edges)
  {
    PutEdgesKeeps(db, edges);
    hide Sound, PutEdges;
  }

  /** Edges and references aside, a store is deletion, insertion and a record. */
  lemma StoreInParts(db: Database, path: Path, contentHash: string, language: string, x: Extraction, force: bool,
      saved: seq<Saved>)
    requires Sound(db) && !StoredAlready(db, path, contentHash, force)
    ensures var r := Stored(db, path, contentHash, language, x, force, saved);
            && r.nodes == Filled(db, path, x).nodes
            && r.files == db.files[path := FileRecord(contentHash, x.recoverySkipped)]
  {
    hide *;
    var put := PutEdges(Filled(db, path, x), Within(x));
    StoreInSteps(db, path, contentHash, language, x, force, saved);
    EmptiedIs(db, path);
    FilledIs(db, path, x);
    EdgesAside(Filled(db, path, x), Within(x));
    assert put.(refs := put.refs + NewRefs(x, path, language)) == Replaced(db, path, language, x) by {
      ReplacedInSteps(db, path, language, x);
    }
    ReplacedIsSound(db, path, language, x);
    EdgesAside(Replaced(db, path, language, x), Rewired(saved, ValidNodes(x.nodes)));
    var record := FileRecord(contentHash, x.recoverySkipped);
    assert (db.files - {path})[path := record] == db.files[path := record];
  }

  lemma ReplacedInSteps(db: Database, path: Path, language: string, x: Extraction)
    ensures var put := PutEdges(Filled(db, path, x), Within(x));
            put.(refs := put.refs + NewRefs(x, path, language)) == Replaced(db, path, language, x)
  {
    hide DeleteFile, PutNodes, PutEdges, ValidNodes, EdgesWithin, RefsWithin, Ids;
  }

  lemma ReplacedIsSound(db: Database, path: Path, language: string, x: Extraction)
    requires Sound(db)
    ensures Sound(Replaced(db, path, language, x))
  {
    ReplacedFacts(db, path, language, x);
    hide *;
  }

  /**
   Storing a file leaves its complete extracted nodes, the last of each id, and the nodes stored
   elsewhere whose ids none of them takes. The file's record is written, and no other changes.
   */
  lemma NodesAreReplaced(db: Database, path: Path, contentHash: string, language: string, x: Extraction, force: bool,
      saved: seq<Saved>)
    requires Sound(db) && !StoredAlready(db, path, contentHash, force)
    ensures var r := Stored(db, path, contentHash, language, x, force, saved);
            && (forall id :: id in r.nodes <==> Extracted(x.nodes, id) || Elsewhere(db, path, id))
            && (forall j: nat :: LastOfId(x.nodes, j) ==> Holds(r.nodes, x.nodes[j]))
            && (forall id :: id in r.nodes && !Extracted(x.nodes, id) ==> r.nodes[id] == db.nodes[id])
            && r.files == db.files[path := FileRecord(contentHash, x.recoverySkipped)]
  {
    StoreInParts(db, path, contentHash, language, x, force, saved);
    EmptiedIs(db, path);
    FilledIs(db, path, x);
    var emptied := Emptied(db, path);
    assert forall id :: id in emptied.nodes <==> Elsewhere(db, path, id);
    assert forall id :: id in emptied.nodes ==> emptied.nodes[id] == db.nodes[id];
    hide Sound, StoredAlready, Extracted, LastOfId, Emptied, Stored, PutNodes, ValidNodes, Elsewhere, EdgesLess, Ids,
         PutEdges, Within, NewRefs;
    var put := PutNodes(emptied, ValidNodes(x.nodes));
    forall j: nat | LastOfId(x.nodes, j) ensures Holds(put.nodes, x.nodes[j]) {
      LastIsPut(emptied, x.nodes, j);
    }
    forall id ensures id in Ids(ValidNodes(x.nodes)) <==> Extracted(x.nodes, id) { ValidNodesAre(x.nodes, id); }
  }

  // ---------------------------------------------------------------- edges

  /** No earlier edge is the same row. */
  predicate FirstOfKey(edges: seq<Edge>, j: nat) {
    j < |edges| && forall i :: 0 <= i < j ==> KeyOf(edges[i]) != KeyOf(edges[j])
  }

  predicate Has(edges: map<Key, Edge>, e: Edge) {
    KeyOf(e) in edges && edges[KeyOf(e)] == e
  }

  predicate BothExtracted(nodes: seq<Node>, e: Edge) {
    Extracted(nodes, e.source) && Extracted(nodes, e.target)
  }

  /** The edge leads from a node stored elsewhere to another, and no extracted node takes the id of either. */
  predicate Unaffected(db: Database, path: Path, x: Extraction, k: Key) {
    && k in db.edges && Elsewhere(db, path, k.source) && Elsewhere(db, path, k.target)
    && !Extracted(x.nodes, k.source) && !Extracted(x.nodes, k.target)
  }

  lemma PutFirstEdge(db: Database, edges: seq<Edge>, ids: set<Id>)
    requires edges != []
    ensures PutEdges(db, EdgesWithin(edges, ids)) ==
        PutEdges(if edges[0].source in ids && edges[0].target in ids then PutEdge(db, edges[0]) else db,
            EdgesWithin(edges[1..], ids))
  {
    hide PutEdge;
    var rest := EdgesWithin(edges[1..], ids);
    if edges[0].source in ids && edges[0].target in ids {
      assert ([edges[0]] + rest)[1..] == rest;
    } else {
      assert [] + rest == rest;
    }
  }

  lemma OneIsPut(db: Database, e: Edge)
    requires Sound(db) && e.source in db.nodes && e.target in db.nodes && KeyOf(e) !in db.edges
    ensures Has(PutEdge(db, e).edges, e)
  {
  }

  lemma OtherIsPut(db: Database, e: Edge, k: Key)
    requires Sound(db) && KeyOf(e) != k && k !in db.edges
    ensures Sound(PutEdge(db, e)) && k !in PutEdge(db, e).edges && PutEdge(db, e).nodes == db.nodes
  {
    PutEdgeKeeps(db, e);
  }

  lemma {:induction false} FirstIsPut(db: Database, edges: seq<Edge>, ids: set<Id>, j: nat)
    requires Sound(db) && ids <= db.nodes.Keys && FirstOfKey(edges, j) && KeyOf(edges[j]) !in db.edges
    requires edges[j].source in ids && edges[j].target in ids
    ensures Has(PutEdges(db, EdgesWithin(edges, ids)).edges, edges[j])
    decreases |edges|
  {
    hide PutEdges, EdgesWithin, PutEdge, Sound, KeyOf, Has;
    var e := edges[0];
    PutFirstEdge(db, edges, ids);
    if j > 0 {
      if e.source in ids && e.target in ids {
        OtherIsPut(db, e, KeyOf(edges[j]));
        FirstIsPut(PutEdge(db, e), edges[1..], ids, j - 1);
      } else {
        FirstIsPut(db, edges[1..], ids, j - 1);
      }
    } else {
      var one := PutEdge(db, e);
      OneIsPut(db, e);
      PutEdgeKeeps(db, e);
      PutEdgesKeeps(one, EdgesWithin(edges[1..], ids));
      StillHas(one.edges, PutEdges(one, EdgesWithin(edges[1..], ids)).edges, e);
    }
  }

  /**
   Storing a file stores every extracted edge between complete extracted nodes, the first of
   each row, and leaves the edges that have nothing to do with the file.
   */
  lemma EdgesAreStored(db: Database, path: Path, contentHash: string, language: string, x: Extraction, force: bool,
      saved: seq<Saved>)
    requires Sound(db) && !StoredAlready(db, path, contentHash, force)
    ensures var r := Stored(db, path, contentHash, language, x, force, saved);
            && (forall j: nat :: FirstOfKey(x.edges, j) && BothExtracted(x.nodes, x.edges[j]) ==>
                Has(r.edges, x.edges[j]))
            && (forall k :: Unaffected(db, path, x, k) ==> k in r.edges && r.edges[k] == db.edges[k])
  {
    hide Sound, StoredAlready, Extracted, Stored, Elsewhere, PutEdges, Filled, Within, Has, BothExtracted, KeyOf;
    var r := Stored(db, path, contentHash, language, x, force, saved);
    LaterEdges(db, path, contentHash, language, x, force, saved);
    var put := PutEdges(Filled(db, path, x), Within(x));
    forall j: nat | FirstOfKey(x.edges, j) && BothExtracted(x.nodes, x.edges[j]) ensures Has(r.edges, x.edges[j]) {
      FirstIsFilled(db, path, x, j);
      StillHas(put.edges, r.edges, x.edges[j]);
    }
    forall k | Unaffected(db, path, x, k) ensures k in r.edges && r.edges[k] == db.edges[k] {
      UnaffectedIsFilled(db, path, x, k);
    }
  }

  lemma StillHas(before: map<Key, Edge>, after: map<Key, Edge>, e: Edge)
    requires Has(before, e) && forall k :: k in before ==> k in after && after[k] == before[k]
    ensures Has(after, e)
  {
  }

  /** What is inserted later takes no edge away. */
  lemma LaterEdges(db: Database, path: Path, contentHash: string, language: string, x: Extraction, force: bool,
      saved: seq<Saved>)
    requires Sound(db) && !StoredAlready(db, path, contentHash, force)
    ensures var put, r := PutEdges(Filled(db, path, x), Within(x)),
        Stored(db, path, contentHash, language, x, force, saved);
            forall k :: k in put.edges ==> k in r.edges && r.edges[k] == put.edges[k]
  {
    hide *;
    StoreInSteps(db, path, contentHash, language, x, force, saved);
    ReplacedInSteps(db, path, language, x);
    ReplacedIsSound(db, path, language, x);
    PutEdgesKeeps(Replaced(db, path, language, x), Rewired(saved, ValidNodes(x.nodes)));
  }

  lemma UnaffectedIsFilled(db: Database, path: Path, x: Extraction, k: Key)
    requires Sound(db) && Unaffected(db, path, x, k)
    ensures k in db.edges
    ensures var put := PutEdges(Filled(db, path, x), Within(x)); k in put.edges && put.edges[k] == db.edges[k]
  {
    ElsewhereStays(db, path, k.source);
    ElsewhereStays(db, path, k.target);
    hide Sound, Extracted, Cleared, Elsewhere, Filled, Within, ValidNodes, Ids, PutEdges, Emptied;
    ValidNodesAre(x.nodes, k.source);
    ValidNodesAre(x.nodes, k.target);
    EmptiedIs(db, path);
    FilledIs(db, path, x);
    PutEdgesKeeps(Filled(db, path, x), Within(x));
    assert k in Emptied(db, path).edges;
    assert k in Filled(db, path, x).edges;
  }

  lemma ElsewhereStays(db: Database, path: Path, id: Id)
    requires Elsewhere(db, path, id)
    ensures id !in Cleared(db, path)
  {
  }

  lemma FirstIsFilled(db: Database, path: Path, x: Extraction, j: nat)
    requires Sound(db) && FirstOfKey(x.edges, j) && BothExtracted(x.nodes, x.edges[j])
    ensures Has(PutEdges(Filled(db, path, x), Within(x)).edges, x.edges[j])
  {
    var ids := Ids(ValidNodes(x.nodes));
    var put := Filled(db, path, x);
    hide Sound, Extracted, Filled, ValidNodes, Ids, PutEdges, Emptied, EdgesWithin, Has;
    ValidNodesAre(x.nodes, x.edges[j].source);
    ValidNodesAre(x.nodes, x.edges[j].target);
    FilledIs(db, path, x);
    InsertedIsStored(Emptied(db, path).nodes, put.nodes, ValidNodes(x.nodes));
    assert ids <= put.nodes.Keys;
    assert KeyOf(x.edges[j]) !in put.edges;
    FirstIsPut(put, x.edges, ids, j);
  }

  // ---------------------------------------------------------------- references

  /** The reference as extracted, with the file's path and language where it has none. */
  predicate Completes(ref: Ref, was: Ref, path: Path, language: string) {
    && ref.from == was.from && ref.name == was.name && ref.kind == was.kind && ref.line == was.line &&
        ref.col == was.col
    && (if was.filePath != "" then ref.filePath == was.filePath else ref.filePath == path)
    && (if was.language != "" then ref.language == was.language else ref.language == language)
  }

  lemma {:induction false} NewRefsAre(refs: seq<Ref>, ids: set<Id>, path: Path, language: string, ref: Ref)
    ensures ref in RefsWithin(refs, ids, path, language) <==>
        exists j :: 0 <= j < |refs| && refs[j].from in ids && Completes(ref, refs[j], path, language)
  {
    if refs != [] {
      NewRefsAre(refs[1..], ids, path, language, ref);
      var rest := RefsWithin(refs[1..], ids, path, language);
      if ref in RefsWithin(refs, ids, path, language) {
        if ref in rest {
          var j :| 0 <= j < |refs| - 1 && refs[1..][j].from in ids && Completes(ref, refs[1..][j], path, language);
          assert refs[j + 1] == refs[1..][j];
        } else {
          assert refs[0].from in ids && Completes(ref, refs[0], path, language);
        }
      }
      if j :| 0 <= j < |refs| && refs[j].from in ids && Completes(ref, refs[j], path, language) {
        if j > 0 {
          assert refs[1..][j - 1] == refs[j];
        }
      }
    }
  }

  lemma PutNodeRefs(db: Database, n: Node, ref: Ref)
    requires Sound(db)
    ensures ref in PutNode(db, n).refs <==> ref in db.refs && ref.from != n.id
  {
  }

  lemma {:induction false} PutNodesRefs(db: Database, nodes: seq<Node>, ref: Ref)
    requires Sound(db)
    ensures ref in PutNodes(db, nodes).refs <==> ref in db.refs && ref.from !in Ids(nodes)
    decreases |nodes|
  {
    if nodes != [] {
      assert Ids(nodes) == {nodes[0].id} + Ids(nodes[1..]) by { assert nodes == [nodes[0]] + nodes[1..]; }
      hide Sound, PutNode, Ids;
      PutNodeKeeps(db, nodes[0]);
      PutNodeRefs(db, nodes[0], ref);
      PutNodesRefs(PutNode(db, nodes[0]), nodes[1..], ref);
    }
  }

  /**
   Storing a file stores the extracted references of its complete nodes, completed, and leaves
   those of the nodes stored elsewhere whose ids none of the new nodes takes; there are no others.
   */
  lemma ReferencesAreStored(db: Database, path: Path, contentHash: string, language: string, x: Extraction, force: bool,
      saved: seq<Saved>, ref: Ref)
    requires Sound(db) && !StoredAlready(db, path, contentHash, force)
    ensures ref in Stored(db, path, contentHash, language, x, force, saved).refs <==>
        || (ref in db.refs && Elsewhere(db, path, ref.from) && !Extracted(x.nodes, ref.from))
        || exists j ::
            0 <= j < |x.refs| && Extracted(x.nodes, x.refs[j].from) && Completes(ref, x.refs[j], path, language)
  {
    hide *;
    var valid := ValidNodes(x.nodes);
    var filled := Filled(db, path, x);
    var put := PutEdges(filled, Within(x));
    StoreInSteps(db, path, contentHash, language, x, force, saved);
    ReplacedInSteps(db, path, language, x);
    ReplacedIsSound(db, path, language, x);
    EdgesAside(Replaced(db, path, language, x), Rewired(saved, valid));
    FilledIs(db, path, x);
    EdgesAside(filled, Within(x));
    FilledRefs(db, path, x, ref);
    NewRefsExtracted(x, path, language, ref);
  }

  lemma FilledRefs(db: Database, path: Path, x: Extraction, ref: Ref)
    requires Sound(db)
    ensures ref in Filled(db, path, x).refs <==>
        ref in db.refs && Elsewhere(db, path, ref.from) && !Extracted(x.nodes, ref.from)
  {
    assert ref in Emptied(db, path).refs <==> ref in db.refs && Elsewhere(db, path, ref.from);
    hide Sound, Extracted, Emptied, PutNodes, ValidNodes, Ids, Elsewhere;
    EmptiedIs(db, path);
    PutNodesRefs(Emptied(db, path), ValidNodes(x.nodes), ref);
    ValidNodesAre(x.nodes, ref.from);
  }

  lemma NewRefsExtracted(x: Extraction, path: Path, language: string, ref: Ref)
    ensures ref in NewRefs(x, path, language) <==>
        exists j :: 0 <= j < |x.refs| && Extracted(x.nodes, x.refs[j].from) && Completes(ref, x.refs[j], path, language)
  {
    hide Extracted, RefsWithin, ValidNodes, Ids, Completes;
    NewRefsAre(x.refs, Ids(ValidNodes(x.nodes)), path, language, ref);
    forall j | 0 <= j < |x.refs|
      ensures x.refs[j].from in Ids(ValidNodes(x.nodes)) <==> Extracted(x.nodes, x.refs[j].from)
    {
      ValidNodesAre(x.nodes, x.refs[j].from);
    }
  }

  /** What was stored completely is left alone when it is stored again from the same contents. */
  lemma StoredAgainIsSkipped(db: Database, path: Path, contentHash: string, language: string, x: Extraction,
      force: bool, saved: seq<Saved>, y: Extraction, otherSaved: seq<Saved>)
    requires Sound(db) && !x.recoverySkipped
    ensures var r := Stored(db, path, contentHash, language, x, force, saved);
            Stored(r, path, contentHash, language, y, false, otherSaved) == r
  {
    hide Stored, Sound;
    if StoredAlready(db, path, contentHash, force) {
      SkippedIfStoredAlready(db, path, contentHash, language, x, force, saved);
    } else {
      StoreInParts(db, path, contentHash, language, x, force, saved);
    }
    var r := Stored(db, path, contentHash, language, x, force, saved);
    SkippedIfStoredAlready(r, path, contentHash, language, y, false, otherSaved);
  }

  // ---------------------------------------------------------------- edges from other files

  /** The complete node at `i` is the only one with this name and kind. */
  predicate OnlyAnswer(nodes: seq<Node>, name: string, kind: Kind, i: nat) {
    i < |nodes| && Answers(nodes[i], name, kind) &&
        forall j :: 0 <= j < |nodes| && Answers(nodes[j], name, kind) ==> j == i
  }

  predicate Answers(n: Node, name: string, kind: Kind) {
    Complete(n) && n.name == name && n.kind == kind
  }

  lemma NameKeyAnswers(n: Node, name: string, kind: Kind)
    requires Plain(n.kind) && Plain(kind)
    ensures ValidNode(n) && NameKey(n.name, n.kind) == NameKey(name, kind) <==> Answers(n, name, kind)
  {
    NameKeyTellsApart(n.name, n.kind, name, kind);
    hide NameKey, Plain;
  }

  lemma MatchesFirst(nodes: seq<Node>, key: string)
    requires nodes != []
    ensures Matches(ValidNodes(nodes), key) ==
        (if ValidNode(nodes[0]) && NameKey(nodes[0].name, nodes[0].kind) == key then [nodes[0].id] else []) +
            Matches(ValidNodes(nodes[1..]), key)
  {
    hide NameKey;
    var rest := ValidNodes(nodes[1..]);
    if ValidNode(nodes[0]) {
      assert ([nodes[0]] + rest)[1..] == rest;
    } else {
      assert [] + rest == rest;
    }
  }

  lemma {:induction false} NoMatch(nodes: seq<Node>, name: string, kind: Kind)
    requires Plain(kind) && forall n :: n in nodes ==> Plain(n.kind)
    ensures Matches(ValidNodes(nodes), NameKey(name, kind)) == [] <==>
        forall j :: 0 <= j < |nodes| ==> !Answers(nodes[j], name, kind)
  {
    hide Plain, NameKey, Matches, ValidNode, Answers;
    if nodes == [] {
      assert Matches(ValidNodes([]), NameKey(name, kind)) == [] by { NothingMatches(NameKey(name, kind)); }
    } else {
      NoMatch(nodes[1..], name, kind);
      MatchesFirst(nodes, NameKey(name, kind));
      assert nodes[0] in nodes;
      NameKeyAnswers(nodes[0], name, kind);
      assert forall j :: 0 <= j < |nodes| - 1 ==> nodes[1..][j] == nodes[j + 1];
      assert forall j :: 0 < j < |nodes| ==> nodes[1..][j - 1] == nodes[j];
    }
  }

  lemma NothingMatches(key: string)
    ensures Matches(ValidNodes([]), key) == []
  {
  }

  /** If one complete node answers, it is the only candidate. */
  lemma {:induction false} OneMatch(nodes: seq<Node>, name: string, kind: Kind, i: nat)
    requires Plain(kind) && (forall n :: n in nodes ==> Plain(n.kind)) && OnlyAnswer(nodes, name, kind, i)
    ensures Matches(ValidNodes(nodes), NameKey(name, kind)) == [nodes[i].id]
  {
    hide Plain, NameKey, Matches, ValidNode, Answers;
    assert nodes[0] in nodes;
    MatchesFirst(nodes, NameKey(name, kind));
    NameKeyAnswers(nodes[0], name, kind);
    assert forall j :: 0 < j < |nodes| ==> nodes[1..][j - 1] == nodes[j];
    if i > 0 {
      OneMatch(nodes[1..], name, kind, i - 1);
    } else {
      NoMatch(nodes[1..], name, kind);
    }
  }

  /** An only candidate is the only complete node that answers. */
  lemma {:induction false} MatchIsOnly(nodes: seq<Node>, name: string, kind: Kind) returns (i: nat)
    requires Plain(kind) && forall n :: n in nodes ==> Plain(n.kind)
    requires |Matches(ValidNodes(nodes), NameKey(name, kind))| == 1
    ensures OnlyAnswer(nodes, name, kind, i)
  {
    hide Plain, NameKey, Matches, ValidNode, Answers;
    if nodes == [] {
      NothingMatches(NameKey(name, kind));
      assert false;
    } else {
      assert nodes[0] in nodes;
      MatchesFirst(nodes, NameKey(name, kind));
      NameKeyAnswers(nodes[0], name, kind);
      assert forall j :: 0 < j < |nodes| ==> nodes[1..][j - 1] == nodes[j];
      if Answers(nodes[0], name, kind) {
        NoMatch(nodes[1..], name, kind);
        i := 0;
      } else {
        i := MatchIsOnly(nodes[1..], name, kind);
        i := i + 1;
      }
    }
  }

  /** An edge leads into the file from a node of another one. */
  predicate LeadsIn(db: Database, path: Path, k: Key) {
    && k in db.edges && k.source in db.nodes && k.target in db.nodes
    && db.nodes[k.source].filePath != path && db.nodes[k.target].filePath == path
  }

  /**
   An edge that leads into a replaced file leads to the only complete new node that has its
   target's name and kind. If there is no such node, or there are several, the file the edge
   comes from is remembered.
   */
  lemma EdgeFollowsItsTarget(db: Database, path: Path, contentHash: string, language: string, x: Extraction,
      force: bool, saved: seq<Saved>, k: Key)
    requires Sound(db) && IsSnapshot(db, path, saved) && !StoredAlready(db, path, contentHash, force)
    requires LeadsIn(db, path, k) && Plain(db.nodes[k.target].kind) && forall n :: n in x.nodes ==> Plain(n.kind)
    ensures var r, e, t := Stored(db, path, contentHash, language, x, force, saved), db.edges[k], db.nodes[k.target];
            && (forall i: nat :: OnlyAnswer(x.nodes, t.name, t.kind, i) ==>
                  KeyOf(e.(target := x.nodes[i].id)) in r.edges)
            && ((forall i: nat :: !OnlyAnswer(x.nodes, t.name, t.kind, i)) ==>
                  db.nodes[k.source].filePath in Failures(db, path, contentHash, x, force, saved))
  {
    var e, t := db.edges[k], db.nodes[k.target];
    assert KeyOf(e) == k;
    var s := Snapshot(db, e);
    assert Candidates(ValidNodes(x.nodes), s) == Matches(ValidNodes(x.nodes), NameKey(t.name, t.kind));
    IncomingEdgeIsConserved(db, path, contentHash, language, x, force, saved, k);
    hide Sound, IsSnapshot, Plain, OnlyAnswer, Stored, Failures, Matches, ValidNodes, NameKey, Candidates, KeyOf,
         Snapshot;
    forall i: nat | OnlyAnswer(x.nodes, t.name, t.kind, i)
      ensures Candidates(ValidNodes(x.nodes), s) == [x.nodes[i].id]
    {
      OneMatch(x.nodes, t.name, t.kind, i);
    }
    if |Matches(ValidNodes(x.nodes), NameKey(t.name, t.kind))| == 1 {
      var i := MatchIsOnly(x.nodes, t.name, t.kind);
    }
  }

  /** No complete new node, or more than one, has the name and kind of the edge's target. */
  ghost predicate Unplaceable(db: Database, path: Path, x: Extraction, k: Key) {
    LeadsIn(db, path, k) && (Plain(db.nodes[k.target].kind) ==>
        forall i: nat :: !OnlyAnswer(x.nodes, db.nodes[k.target].name, db.nodes[k.target].kind, i))
  }

  /** Only the files of such edges are remembered. */
  lemma OnlyUnplacedAreRemembered(db: Database, path: Path, contentHash: string, x: Extraction, force: bool,
      saved: seq<Saved>, p: Path)
    requires Sound(db) && LookedUp(db, path, saved) && p in Failures(db, path, contentHash, x, force, saved)
    requires forall n :: n in x.nodes ==> Plain(n.kind)
    ensures exists k :: Unplaceable(db, path, x, k) && db.nodes[k.source].filePath == p
  {
    RewiredFacts(saved, ValidNodes(x.nodes));
    var s :| s in saved && |Candidates(ValidNodes(x.nodes), s)| != 1 && p == s.sourceFilePath;
    var k :| k in db.edges && Incoming(db, path, db.edges[k]) && Snapshot(db, db.edges[k]) == s;
    assert KeyOf(db.edges[k]) == k && LeadsIn(db, path, k);
    var t := db.nodes[k.target];
    hide Sound, LookedUp, Plain, OnlyAnswer, Failures, Matches, ValidNodes, NameKey, KeyOf;
    if i: nat :| Plain(t.kind) && OnlyAnswer(x.nodes, t.name, t.kind, i) {
      OneMatch(x.nodes, t.name, t.kind, i);
    }
    assert Unplaceable(db, path, x, k);
  }

  // ---------------------------------------------------------------- removing a file

  /** The reference that an edge was resolved from, as it becomes when the edge's target goes. */
  predicate Revives(ref: Ref, e: Edge, source: Node) {
    && e.stamp.Some? && e.stamp.value.refName != "" && ref.from == e.source && ref.name == e.stamp.value.refName
    && ref.kind == (if e.stamp.value.refKind.Some? then e.stamp.value.refKind.value else e.kind)
    && ref.line == (if e.line.Some? then e.line.value else 0) && ref.col == (if e.col.Some? then e.col.value else 0)
    && ref.filePath == source.filePath && ref.language == source.language
  }

  lemma ResurrectedRevives(db: Database, e: Edge, ref: Ref)
    requires e.source in db.nodes && e.target in db.nodes
    ensures ref in Resurrected(Snapshot(db, e)) <==> Revives(ref, e, db.nodes[e.source])
  {
  }

  /**
   Removing a file deletes its nodes, its record, and the edges and references that hang on
   them, and leaves pending the references of the edges that led into it; nothing else changes.
   */
  lemma RemovalIsExact(db: Database, path: Path, saved: seq<Saved>)
    requires Sound(db) && IsSnapshot(db, path, saved)
    ensures var r := Removed(db, path, saved);
            && (forall id :: id in r.nodes <==> id in db.nodes && db.nodes[id].filePath != path)
            && (forall id :: id in r.nodes ==> r.nodes[id] == db.nodes[id])
            && r.files == db.files - {path}
            && (forall k :: k in r.edges <==> k in db.edges && k.source in r.nodes && k.target in r.nodes)
            && (forall k :: k in r.edges ==> r.edges[k] == db.edges[k])
            && (forall ref :: ref in r.refs <==>
                  || (ref in db.refs && ref.from in r.nodes)
                  || exists k :: LeadsIn(db, path, k) && Revives(ref, db.edges[k], db.nodes[k.source]))
  {
    var r := Removed(db, path, saved);
    forall ref ensures ref in ResurrectedAll(saved) <==>
        exists k :: LeadsIn(db, path, k) && Revives(ref, db.edges[k], db.nodes[k.source]) {
      RevivedAre(db, path, saved, ref);
    }
    hide IsSnapshot, Revives, Resurrected, ResurrectedAll;
  }

  lemma RevivedAre(db: Database, path: Path, saved: seq<Saved>, ref: Ref)
    requires Sound(db) && IsSnapshot(db, path, saved)
    ensures ref in ResurrectedAll(saved) <==>
        exists k :: LeadsIn(db, path, k) && Revives(ref, db.edges[k], db.nodes[k.source])
  {
    hide Revives, Resurrected;
    forall k | k in db.edges
      ensures ref in Resurrected(Snapshot(db, db.edges[k])) <==> Revives(ref, db.edges[k], db.nodes[k.source])
    {
      ResurrectedRevives(db, db.edges[k], ref);
    }
    ResurrectedFacts(db, path, saved);
  }
}
