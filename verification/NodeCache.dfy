/**
 The node table behind its least-recently-used cache, and the batching of row inserts.
 Whatever is asked in whatever order, answers are those of the table alone.
 */
module NodeCache {
  import opened Options

  type Id = string
  type Path = string

  const MAX_CACHE_SIZE := 1000
  const PARAM_CHUNK_SIZE := 500

  datatype Node = Node(id: Id, kind: string, name: string, filePath: Path, language: string, rest: string)

  type Table = map<Id, Node>

  predicate ValidNode(n: Node) {
    n.id != "" && n.kind != "" && n.name != "" && n.filePath != "" && n.language != ""
  }

  // ---------------------------------------------------------------- the table alone

  function InsertRows(table: Table, rows: seq<Node>): Table
    decreases |rows|
  {
    if rows == [] then table else InsertRows(table[rows[0].id := rows[0]], rows[1..])
  }

  function OnlyValid(nodes: seq<Node>): (r: seq<Node>)
    ensures forall n :: n in r ==> ValidNode(n)
  {
    if nodes == [] then [] else (if ValidNode(nodes[0]) then [nodes[0]] else []) + OnlyValid(nodes[1..])
  }

  datatype Op =
    | GetNodeById(id: Id) | GetNodesByIds(ids: seq<Id>)
    | InsertNode(node: Node) | InsertNodes(nodes: seq<Node>) | UpdateNode(node: Node)
    | DeleteNode(id: Id) | DeleteNodesByFile(filePath: Path) | Clear

  function Apply(table: Table, op: Op): Table {
    match op
    case GetNodeById(_) => table
    case GetNodesByIds(_) => table
    case InsertNode(node) => if ValidNode(node) then table[node.id := node] else table
    case InsertNodes(nodes) => InsertRows(table, OnlyValid(nodes))
    case UpdateNode(node) => if ValidNode(node) && node.id in table then table[node.id := node] else table
    case DeleteNode(id) => table - {id}
    case DeleteNodesByFile(path) => map id | id in table && table[id].filePath != path :: table[id]
    case Clear => map[]
  }

  datatype Answer = One(node: Option<Node>) | Many(nodes: Table) | Nothing

  function AnswerOf(table: Table, op: Op): Answer {
    match op
    case GetNodeById(id) => One(if id in table then Some(table[id]) else None)
    case GetNodesByIds(ids) => Many(map id | id in ids && id in table :: table[id])
    case _ => Nothing
  }

  /** The answers of a table without any cache. */
  function Answers(table: Table, ops: seq<Op>): seq<Answer>
    decreases |ops|
  {
    if ops == [] then [] else [AnswerOf(table, ops[0])] + Answers(Apply(table, ops[0]), ops[1..])
  }

  ghost predicate RowsKeyed(table: Table) {
    forall id :: id in table ==> id != "" && table[id].id == id
  }

  lemma {:induction false} InsertRowsKeyed(table: Table, rows: seq<Node>)
    requires RowsKeyed(table) && forall n :: n in rows ==> ValidNode(n)
    ensures RowsKeyed(InsertRows(table, rows))
    ensures forall id :: id in InsertRows(table, rows) <==> id in table || exists n :: n in rows && n.id == id
    ensures forall id :: id in table && (forall n :: n in rows ==> n.id != id) ==>
        InsertRows(table, rows)[id] == table[id]
    decreases |rows|
  {
    if rows != [] {
      assert rows == [rows[0]] + rows[1..] && rows[0] in rows;
      InsertRowsKeyed(table[rows[0].id := rows[0]], rows[1..]);
    }
  }

  lemma {:induction false} InsertRowsJoin(table: Table, a: seq<Node>, b: seq<Node>)
    ensures InsertRows(table, a + b) == InsertRows(InsertRows(table, a), b)
    decreases |a|
  {
    if a == [] {
      assert a + b == b;
    } else {
      assert (a + b)[0] == a[0] && (a + b)[1..] == a[1..] + b;
      InsertRowsJoin(table[a[0].id := a[0]], a[1..], b);
    }
  }

  // ---------------------------------------------------------------- the cache

  /** The entries of an insertion-ordered map, the oldest first. */
  type Entries = seq<Node>

  ghost predicate Coherent(cache: Entries, table: Table) {
    DistinctIds(cache) && forall n :: n in cache ==> n.id in table && table[n.id] == n
  }

  predicate DistinctIds(cache: Entries) {
    forall i, j :: 0 <= i < j < |cache| ==> cache[i].id != cache[j].id
  }

  function Find(cache: Entries, id: Id): (r: Option<Node>)
    ensures r.Some? ==> r.value in cache && r.value.id == id
    ensures r.None? ==> forall n :: n in cache ==> n.id != id
  {
    if cache == [] then None else if cache[0].id == id then Some(cache[0]) else Find(cache[1..], id)
  }

  function Dropped(cache: Entries, id: Id): (r: Entries)
    ensures |r| <= |cache|
    ensures forall n :: n in r <==> n in cache && n.id != id
  {
    if cache == [] then []
    else if cache[0].id == id then Dropped(cache[1..], id)
    else [cache[0]] + Dropped(cache[1..], id)
  }

  lemma {:induction false} DroppedDistinct(cache: Entries, id: Id)
    requires DistinctIds(cache)
    ensures DistinctIds(Dropped(cache, id))
    ensures Find(cache, id).Some? ==> |Dropped(cache, id)| < |cache|
  {
    if cache != [] {
      DroppedDistinct(cache[1..], id);
      var rest := Dropped(cache[1..], id);
      forall k | 0 <= k < |rest| ensures rest[k].id != cache[0].id {
        assert rest[k] in cache[1..];
        var i :| 0 <= i < |cache| - 1 && cache[1..][i] == rest[k];
        assert cache[i + 1] == rest[k];
      }
    }
  }

  lemma DroppedKeeps(cache: Entries, table: Table, after: Table, id: Id)
    requires Coherent(cache, table)
    requires forall other :: other in table && other != id ==> other in after && after[other] == table[other]
    ensures Coherent(Dropped(cache, id), after)
    ensures Find(cache, id).Some? ==> |Dropped(cache, id)| < |cache|
  {
    hide DistinctIds, Dropped;
    DroppedDistinct(cache, id);
  }

  lemma AddedKeeps(cache: Entries, table: Table, n: Node)
    requires Coherent(cache, table) && n.id in table && table[n.id] == n && forall m :: m in cache ==> m.id != n.id
    ensures Coherent(cache + [n], table)
  {
    assert forall i :: 0 <= i < |cache| ==> cache[i] in cache;
  }

  lemma EvictedKeeps(cache: Entries, table: Table)
    requires Coherent(cache, table) && cache != []
    ensures Coherent(cache[1..], table)
  {
  }

  /** No row is written that the cache holds a node of. */
  ghost predicate Apart(rows: seq<Node>, cache: Entries) {
    forall n, m :: n in rows && m in cache ==> m.id != n.id
  }

  lemma NoneApart(cache: Entries)
    ensures Apart([], cache)
  {
  }

  lemma MoreApart(rows: seq<Node>, before: Entries, n: Node, after: Entries)
    requires Apart(rows, before) && forall m :: m in after <==> m in before && m.id != n.id
    ensures Apart(rows + [n], after)
  {
  }

  /**
   The cache once node `n` was asked for and found: it is the newest entry, and the oldest one
   makes room if it must.
   */
  function Used(cache: Entries, n: Node): Entries {
    if n in cache then Dropped(cache, n.id) + [n]
    else (if |cache| >= MAX_CACHE_SIZE then cache[1..] else cache) + [n]
  }

  /** The cache once these nodes were asked for, one after the other. */
  function UsedAll(cache: Entries, nodes: seq<Node>): Entries
    decreases |nodes|
  {
    if nodes == [] then cache else UsedAll(Used(cache, nodes[0]), nodes[1..])
  }

  /** The node is in the cache with fewer than `k` newer entries. */
  ghost predicate Recent(cache: Entries, n: Node, k: nat) {
    exists i :: 0 <= i < |cache| && cache[i] == n && |cache| - i <= k
  }

  lemma {:induction false} DroppedParts(a: Entries, b: Entries, id: Id)
    ensures Dropped(a + b, id) == Dropped(a, id) + Dropped(b, id)
  {
    if a == [] {
      assert a + b == b;
    } else {
      assert (a + b)[0] == a[0] && (a + b)[1..] == a[1..] + b;
      DroppedParts(a[1..], b, id);
    }
  }

  lemma DroppedAround(a: Entries, n: Node, b: Entries, id: Id)
    requires n.id != id
    ensures Dropped(a + ([n] + b), id) == Dropped(a, id) + ([n] + Dropped(b, id))
  {
    DroppedParts(a, [n] + b, id);
    DroppedParts([n], b, id);
    assert Dropped([n], id) == [n] by { assert [n][1..] == []; }
  }

  lemma RecentAt(a: Entries, n: Node, b: Entries, k: nat)
    requires |b| < k
    ensures Recent(a + ([n] + b), n, k)
  {
    assert (a + ([n] + b))[|a|] == n;
  }

  lemma RecentSplits(cache: Entries, n: Node, k: nat) returns (a: Entries, b: Entries)
    requires Recent(cache, n, k)
    ensures cache == a + ([n] + b) && |b| < k
  {
    var i :| 0 <= i < |cache| && cache[i] == n && |cache| - i <= k;
    a, b := cache[..i], cache[i + 1..];
  }

  lemma UsedPushes(cache: Entries, n: Node, m: Node, k: nat)
    requires Recent(cache, n, k) && k < MAX_CACHE_SIZE && (m.id == n.id ==> m == n)
    ensures Recent(Used(cache, m), n, k + 1)
  {
    hide Recent, Dropped;
    var a, b := RecentSplits(cache, n, k);
    if m == n {
      UsedIsRecent(cache, n);
      RecentGrows(Used(cache, n), n, 1, k + 1);
    } else if m in cache {
      DroppedAround(a, n, b, m.id);
      var da, db := Dropped(a, m.id), Dropped(b, m.id);
      assert Used(cache, m) == da + ([n] + (db + [m]));
      RecentAt(da, n, db + [m], k + 1);
    } else if |cache| >= MAX_CACHE_SIZE {
      assert Used(cache, m) == a[1..] + ([n] + (b + [m]));
      RecentAt(a[1..], n, b + [m], k + 1);
    } else {
      assert Used(cache, m) == a + ([n] + (b + [m]));
      RecentAt(a, n, b + [m], k + 1);
    }
  }

  lemma RecentGrows(cache: Entries, n: Node, k: nat, more: nat)
    requires Recent(cache, n, k) && k <= more
    ensures Recent(cache, n, more)
  {
  }

  lemma UsedIsRecent(cache: Entries, n: Node)
    ensures Recent(Used(cache, n), n, 1)
  {
    hide Dropped;
    var r := Used(cache, n);
    assert r[|r| - 1] == n;
  }

  /** A node asked for stays in the cache while fewer others are asked for than the cache holds. */
  lemma {:induction false} RecentlyUsedStays(cache: Entries, n: Node, k: nat, nodes: seq<Node>)
    requires Recent(cache, n, k) && k + |nodes| <= MAX_CACHE_SIZE
    requires forall m :: m in nodes && m.id == n.id ==> m == n
    ensures n in UsedAll(cache, nodes)
    decreases |nodes|
  {
    if nodes == [] {
    } else {
      assert nodes[0] in nodes && forall m :: m in nodes[1..] ==> m in nodes;
      UsedPushes(cache, n, nodes[0], k);
      RecentlyUsedStays(Used(cache, nodes[0]), n, k + 1, nodes[1..]);
    }
  }

  class QueryBuilder {
    var table: Table
    var nodeCache: Entries

    ghost predicate Valid()
      reads this
    {
      RowsKeyed(table) && Coherent(nodeCache, table) && |nodeCache| <= MAX_CACHE_SIZE
    }

    constructor (table: Table)
      requires RowsKeyed(table)
      ensures Valid() && this.table == table
    {
      this.table, nodeCache := table, [];
    }

    /** Adds a row just read; the oldest entry makes room. */
    method CacheNode(node: Node)
      requires Valid() && node.id in table && table[node.id] == node && forall m :: m in nodeCache ==> m.id != node.id
      modifies `nodeCache
      ensures Valid()
      ensures forall m :: m in nodeCache ==> m in old(nodeCache) || m == node
      ensures nodeCache == (if |old(nodeCache)| >= MAX_CACHE_SIZE then old(nodeCache)[1..] else old(nodeCache)) + [node]
    {
      if |nodeCache| >= MAX_CACHE_SIZE {
        EvictedKeeps(nodeCache, table);
        nodeCache := nodeCache[1..];
      }
      AddedKeeps(nodeCache, table, node);
      nodeCache := nodeCache + [node];
    }

    /** Moves an entry that was used to the end. */
    method Touch(node: Node)
      requires Valid() && node in nodeCache
      modifies `nodeCache
      ensures Valid() && forall m :: m in nodeCache <==> m in old(nodeCache)
      ensures nodeCache == Dropped(old(nodeCache), node.id) + [node]
    {
      DroppedKeeps(nodeCache, table, table, node.id);
      FindPresent(nodeCache, table, node);
      var rest := Dropped(nodeCache, node.id);
      AddedKeeps(rest, table, node);
      nodeCache := rest + [node];
    }

    method Query(id: Id) returns (answer: Option<Node>)
      requires Valid()
      modifies `nodeCache
      ensures Valid() && One(answer) == AnswerOf(table, GetNodeById(id))
      ensures nodeCache == if answer.Some? then Used(old(nodeCache), answer.value) else old(nodeCache)
    {
      answer := Find(nodeCache, id);
      if answer.Some? {
        Touch(answer.value);
        return;
      }
      if id !in table {
        return None;
      }
      CacheNode(table[id]);
      return Some(table[id]);
    }

    /** Serves what the cache has and reads the rest in chunks. */
    method QueryMany(ids: seq<Id>) returns (found: Table)
      requires Valid()
      modifies `nodeCache
      ensures Valid() && Many(found) == AnswerOf(table, GetNodesByIds(ids))
    {
      found := map[];
      var misses: seq<Id> := [];
      for k := 0 to |ids|
        invariant Valid()
        invariant forall id :: id in found ==> id in ids[..k] && id in table && found[id] == table[id]
        invariant forall id :: id in ids[..k] ==> id in found || id in misses
        invariant forall id :: id in misses ==> id in ids[..k]
      {
        assert ids[..k + 1] == ids[..k] + [ids[k]];
        var cached := Find(nodeCache, ids[k]);
        if cached.Some? {
          Touch(cached.value);
          found := found[ids[k] := cached.value];
        } else {
          misses := misses + [ids[k]];
        }
      }
      assert ids[..|ids|] == ids;
      found := ReadMisses(ids, misses, found);
    }

    method ReadMisses(ids: seq<Id>, misses: seq<Id>, before: Table) returns (found: Table)
      requires Valid() && (forall id :: id in before ==> id in ids && id in table && before[id] == table[id])
      requires (forall id :: id in ids ==> id in before || id in misses) && forall id :: id in misses ==> id in ids
      modifies `nodeCache
      ensures Valid() && found == map id | id in ids && id in table :: table[id]
    {
      hide Valid;
      found := before;
      var i := 0;
      assert misses[0..] == misses;
      while i < |misses|
        invariant 0 <= i && Valid()
        invariant forall id :: id in found ==> id in ids && id in table && found[id] == table[id]
        invariant forall id :: id in ids && id in table ==> id in found || (i < |misses| && id in misses[i..])
        decreases |misses| - i
      {
        var end := if i + PARAM_CHUNK_SIZE <= |misses| then i + PARAM_CHUNK_SIZE else |misses|;
        assert misses[i..] == misses[i..end] + misses[end..];
        found := ReadChunk(misses[i..end], found);
        i := i + PARAM_CHUNK_SIZE;
      }
    }

    /** One query for a chunk of ids: each row is read once, however often its id is asked for. */
    method ReadChunk(chunk: seq<Id>, before: Table) returns (found: Table)
      requires Valid()
      modifies `nodeCache
      ensures Valid()
      ensures forall id :: id in found <==> id in before || (id in chunk && id in table)
      ensures forall id :: id in found ==> found[id] == if id in chunk && id in table then table[id] else before[id]
    {
      hide Valid;
      found := before;
      var left := set id | id in chunk && id in table;
      while left != {}
        invariant forall id :: id in left ==> id in chunk && id in table
        invariant Valid()
        invariant forall id :: id in found ==> id in before || (id in chunk && id in table)
        invariant forall id :: id in before || (id in chunk && id in table) ==> id in found || id in left
        invariant forall id :: id in found && id !in left ==>
            found[id] == if id in chunk && id in table then table[id] else before[id]
        decreases |left|
      {
        var id :| id in left;
        left := left - {id};
        found := found[id := table[id]];
        assert table[id].id == id by { Keyed(id); }
        Recache(table[id]);
      }
    }

    lemma Keyed(id: Id)
      requires Valid() && id in table
      ensures table[id].id == id
    {
    }

    /** A row read again replaces its entry in place. */
    method Recache(node: Node)
      requires Valid() && node.id in table && table[node.id] == node
      modifies `nodeCache
      ensures Valid()
    {
      if Find(nodeCache, node.id).None? {
        CacheNode(node);
      } else if |nodeCache| >= MAX_CACHE_SIZE {
        EvictedKeeps(nodeCache, table);
        nodeCache := nodeCache[1..];
        if Find(nodeCache, node.id).None? {
          AddedKeeps(nodeCache, table, node);
          nodeCache := nodeCache + [node];
        }
      }
    }

    method Forget(id: Id)
      requires Valid()
      modifies `nodeCache
      ensures Valid() && forall n :: n in nodeCache <==> n in old(nodeCache) && n.id != id
    {
      DroppedKeeps(nodeCache, table, table, id);
      nodeCache := Dropped(nodeCache, id);
    }

    method Insert(node: Node)
      requires Valid()
      modifies this
      ensures Valid() && table == Apply(old(table), InsertNode(node))
    {
      if !ValidNode(node) {
        return;
      }
      DroppedKeeps(nodeCache, table, table[node.id := node], node.id);
      nodeCache := Dropped(nodeCache, node.id);
      table := table[node.id := node];
    }

    method InsertMany(nodes: seq<Node>)
      requires Valid()
      modifies this
      ensures Valid() && table == Apply(old(table), InsertNodes(nodes))
    {
      var rows := ForgetAll(nodes);
      InsertRowsKeyed(table, rows);
      RowsReplaced(nodeCache, table, rows);
      RunBatched(rows, false);
    }

    /** Forgets the nodes about to be written, and leaves out those that lack a required field. */
    method ForgetAll(nodes: seq<Node>) returns (rows: seq<Node>)
      requires Valid()
      modifies `nodeCache
      ensures Valid() && rows == OnlyValid(nodes)
      ensures Apart(rows, nodeCache)
    {
      hide Valid, ValidNode, Apart;
      assert Apart([], nodeCache) by { NoneApart(nodeCache); }
      rows := [];
      var i := 0;
      assert nodes[0..] == nodes;
      while i < |nodes|
        invariant 0 <= i <= |nodes| && Valid()
        invariant rows + OnlyValid(nodes[i..]) == OnlyValid(nodes)
        invariant Apart(rows, nodeCache)
      {
        assert nodes[i..][1..] == nodes[i + 1..];
        if ValidNode(nodes[i]) {
          ghost var before := nodeCache;
          Forget(nodes[i].id);
          MoreApart(rows, before, nodes[i], nodeCache);
          rows := rows + [nodes[i]];
        }
        i := i + 1;
      }
    }

    /** Rows go in by statements of 32, then 8, then one row; the effect is that of one row after another. */
    method RunBatched(rows: seq<Node>, oneByOne: bool)
      modifies `table
      ensures table == InsertRows(old(table), rows)
    {
      var sizes := if oneByOne then [1] else [32, 8, 1];
      var offset := 0;
      assert rows[..0] == [];
      for k := 0 to |sizes|
        invariant 0 <= offset <= |rows| && table == InsertRows(old(table), rows[..offset])
        invariant k == |sizes| ==> offset == |rows|
      {
        var size := sizes[k];
        while |rows| - offset >= size
          invariant 0 <= offset <= |rows| && table == InsertRows(old(table), rows[..offset])
          decreases |rows| - offset
        {
          InsertRowsJoin(old(table), rows[..offset], rows[offset..offset + size]);
          assert rows[..offset + size] == rows[..offset] + rows[offset..offset + size];
          table := InsertRows(table, rows[offset..offset + size]);
          offset := offset + size;
        }
      }
      assert rows[..offset] == rows;
    }

    method Update(node: Node)
      requires Valid()
      modifies this
      ensures Valid() && table == Apply(old(table), UpdateNode(node))
    {
      Forget(node.id);
      if !ValidNode(node) {
        return;
      }
      if node.id in table {
        table := table[node.id := node];
      }
    }

    method Delete(id: Id)
      requires Valid()
      modifies this
      ensures Valid() && table == Apply(old(table), DeleteNode(id))
    {
      Forget(id);
      table := table - {id};
    }

    method DeleteByFile(path: Path)
      requires Valid()
      modifies this
      ensures Valid() && table == Apply(old(table), DeleteNodesByFile(path))
    {
      var entries := nodeCache;
      var i := 0;
      while i < |entries|
        invariant 0 <= i <= |entries| && Valid() && table == old(table)
        invariant forall n :: n in nodeCache ==> n in entries
        invariant forall j :: 0 <= j < i && entries[j].filePath == path ==> entries[j] !in nodeCache
      {
        if entries[i].filePath == path {
          Forget(entries[i].id);
        }
        i := i + 1;
      }
      assert forall n :: n in nodeCache ==> n.filePath != path;
      assert forall k :: 0 <= k < |nodeCache| ==> nodeCache[k] in nodeCache;
      table := map id | id in table && table[id].filePath != path :: table[id];
    }

    method ClearAll()
      modifies this
      ensures Valid() && table == Apply(old(table), Clear)
    {
      nodeCache := [];
      table := map[];
    }

    /** Any operations in any order answer as the table alone would, and leave it the same table. */
    method Replay(ops: seq<Op>) returns (answers: seq<Answer>)
      requires Valid()
      modifies this
      ensures Valid() && answers == Answers(old(table), ops)
    {
      answers := [];
      var i := 0;
      assert ops[0..] == ops;
      while i < |ops|
        invariant 0 <= i <= |ops| && Valid()
        invariant answers + Answers(table, ops[i..]) == Answers(old(table), ops)
      {
        assert ops[i..][1..] == ops[i + 1..];
        var answer := Perform(ops[i]);
        answers := answers + [answer];
        i := i + 1;
      }
    }

    method Perform(op: Op) returns (answer: Answer)
      requires Valid()
      modifies this
      ensures Valid() && table == Apply(old(table), op) && answer == AnswerOf(old(table), op)
    {
      answer := Nothing;
      match op
      case GetNodeById(id) => var found := Query(id); answer := One(found);
      case GetNodesByIds(ids) => var found := QueryMany(ids); answer := Many(found);
      case InsertNode(node) => Insert(node);
      case InsertNodes(nodes) => InsertMany(nodes);
      case UpdateNode(node) => Update(node);
      case DeleteNode(id) => Delete(id);
      case DeleteNodesByFile(path) => DeleteByFile(path);
      case Clear => ClearAll();
    }
  }

  lemma FindPresent(cache: Entries, table: Table, node: Node)
    requires Coherent(cache, table) && node in cache
    ensures Find(cache, node.id) == Some(node)
  {
    var found := Find(cache, node.id);
    if found.Some? {
      assert table[found.value.id] == found.value && table[node.id] == node;
    }
  }

  lemma RowsReplaced(cache: Entries, table: Table, rows: seq<Node>)
    requires RowsKeyed(table) && Coherent(cache, table)
    requires (forall n :: n in rows ==> ValidNode(n)) && Apart(rows, cache)
    ensures Coherent(cache, InsertRows(table, rows))
  {
    InsertRowsKeyed(table, rows);
    assert forall k :: 0 <= k < |cache| ==> cache[k] in cache;
  }
}
