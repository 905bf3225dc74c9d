/**
 What a query reads: the node that was written last under its id, unless it was deleted since.
 Every answer of a run of operations is explained by one operation of the run.
 */
module LastWrites {
  import opened Options
  import opened NodeCache

  /** The node has all that a row needs. */
  predicate Complete(n: Node) {
    n.id != "" && n.kind != "" && n.name != "" && n.filePath != "" && n.language != ""
  }

  /** The node at `j` is complete, and no later complete node has its id. */
  predicate LastOfId(nodes: seq<Node>, j: nat) {
    j < |nodes| && Complete(nodes[j]) && forall i :: j < i < |nodes| && Complete(nodes[i]) ==>
        nodes[i].id != nodes[j].id
  }

  predicate LastAmong(nodes: seq<Node>, n: Node) {
    exists j: nat :: j < |nodes| && LastOfId(nodes, j) && nodes[j] == n
  }

  /** The operation leaves the row of `n`. */
  predicate Writes(table: Table, op: Op, n: Node) {
    match op
    case InsertNode(m) => m == n && Complete(n)
    case InsertNodes(nodes) => LastAmong(nodes, n)
    case UpdateNode(m) => m == n && Complete(n) && n.id in table
    case _ => false
  }

  /** The operation deletes the row of `n`. */
  predicate Deletes(op: Op, n: Node) {
    match op
    case DeleteNode(id) => id == n.id
    case DeleteNodesByFile(path) => path == n.filePath
    case Clear => true
    case _ => false
  }

  ghost predicate WritesTo(table: Table, op: Op, id: Id) {
    exists m :: Writes(table, op, m) && m.id == id
  }

  predicate Holds(table: Table, n: Node) {
    n.id in table && table[n.id] == n
  }

  predicate Named(nodes: seq<Node>, id: Id) {
    exists j :: 0 <= j < |nodes| && Complete(nodes[j]) && nodes[j].id == id
  }

  lemma {:induction false} SomeIsLast(nodes: seq<Node>, id: Id) returns (n: Node)
    requires Named(nodes, id)
    ensures LastAmong(nodes, n) && n.id == id
  {
    var j :| 0 <= j < |nodes| && Complete(nodes[j]) && nodes[j].id == id;
    if Named(nodes[j + 1..], id) {
      n := SomeIsLast(nodes[j + 1..], id);
      var k: nat :| k < |nodes| - j - 1 && LastOfId(nodes[j + 1..], k) && nodes[j + 1..][k] == n;
      assert forall i :: j < i < |nodes| ==> nodes[j + 1..][i - j - 1] == nodes[i];
      assert LastOfId(nodes, j + 1 + k);
    } else {
      n := nodes[j];
      assert forall i :: j < i < |nodes| ==> nodes[j + 1..][i - j - 1] == nodes[i];
      assert LastOfId(nodes, j);
    }
  }

  lemma LastIsNamed(nodes: seq<Node>, n: Node)
    requires LastAmong(nodes, n)
    ensures Complete(n) && Named(nodes, n.id)
  {
  }

  lemma FirstOrLater(nodes: seq<Node>, n: Node)
    requires nodes != []
    ensures LastAmong(nodes, n) <==>
        LastAmong(nodes[1..], n) || (nodes[0] == n && Complete(n) && !Named(nodes[1..], n.id))
    ensures Named(nodes, n.id) <==> Named(nodes[1..], n.id) || (Complete(nodes[0]) && nodes[0].id == n.id)
  {
    var rest := nodes[1..];
    assert forall i :: 0 < i < |nodes| ==> rest[i - 1] == nodes[i];
    if LastAmong(nodes, n) {
      var j: nat :| j < |nodes| && LastOfId(nodes, j) && nodes[j] == n;
      assert j > 0 ==> LastOfId(rest, j - 1);
    }
    if LastAmong(rest, n) {
      var j: nat :| j < |rest| && LastOfId(rest, j) && rest[j] == n;
      assert LastOfId(nodes, j + 1);
    }
    if nodes[0] == n && Complete(n) && !Named(rest, n.id) {
      assert LastOfId(nodes, 0);
    }
  }

  lemma FirstRow(table: Table, nodes: seq<Node>)
    requires nodes != []
    ensures InsertRows(table, OnlyValid(nodes)) ==
        InsertRows(if Complete(nodes[0]) then table[nodes[0].id := nodes[0]] else table, OnlyValid(nodes[1..]))
  {
    var rest := OnlyValid(nodes[1..]);
    if Complete(nodes[0]) {
      assert ([nodes[0]] + rest)[1..] == rest;
    } else {
      assert [] + rest == rest;
    }
  }

  lemma {:induction false} RowsInserted(table: Table, nodes: seq<Node>, n: Node)
    ensures Holds(InsertRows(table, OnlyValid(nodes)), n) <==>
        LastAmong(nodes, n) || (Holds(table, n) && !Named(nodes, n.id))
    decreases |nodes|
  {
    hide LastAmong, Named, OnlyValid, Complete;
    if nodes == [] {
      assert !LastAmong([], n) && !Named([], n.id) && OnlyValid([]) == [] by { NoneAmong(n); }
    } else {
      FirstRow(table, nodes);
      FirstOrLater(nodes, n);
      if LastAmong(nodes[1..], n) { LastIsNamed(nodes[1..], n); }
      RowsInserted(if Complete(nodes[0]) then table[nodes[0].id := nodes[0]] else table, nodes[1..], n);
    }
  }

  lemma NoneAmong(n: Node)
    ensures !LastAmong([], n) && !Named([], n.id) && OnlyValid([]) == []
  {
  }

  lemma WritesToNamed(table: Table, nodes: seq<Node>, id: Id)
    ensures WritesTo(table, InsertNodes(nodes), id) <==> Named(nodes, id)
  {
    hide LastAmong, Named;
    if Named(nodes, id) {
      var n := SomeIsLast(nodes, id);
      assert Writes(table, InsertNodes(nodes), n);
    }
    if WritesTo(table, InsertNodes(nodes), id) {
      var m :| Writes(table, InsertNodes(nodes), m) && m.id == id;
      LastIsNamed(nodes, m);
    }
  }

  /**
   A node is stored after an operation exactly if it was written, or was stored and neither
   deleted nor written over.
   */
  lemma OneOperation(table: Table, op: Op, n: Node)
    ensures Holds(Apply(table, op), n) <==>
        Writes(table, op, n) || (Holds(table, n) && !Deletes(op, n) && !WritesTo(table, op, n.id))
  {
    match op
    case InsertNode(m) => assert Complete(m) ==> Writes(table, op, m);
    case InsertNodes(nodes) =>
      RowsInserted(table, nodes, n);
      WritesToNamed(table, nodes, n.id);
    case UpdateNode(m) => assert Complete(m) && m.id in table ==> Writes(table, op, m);
    case _ =>
  }

  // ---------------------------------------------------------------- runs

  /** The table after the first `k` operations. */
  function After(table: Table, ops: seq<Op>, k: nat): Table
    requires k <= |ops|
  {
    if k == 0 then table else Apply(After(table, ops, k - 1), ops[k - 1])
  }

  /** Operation `i` leaves the row of `n`, and none before operation `k` deletes it or writes over it. */
  ghost predicate LeftBy(table: Table, ops: seq<Op>, k: nat, i: nat, n: Node) {
    && i < k <= |ops| && Writes(After(table, ops, i), ops[i], n) && UntouchedFrom(table, ops, i + 1, k, n)
  }

  ghost predicate WasLeft(table: Table, ops: seq<Op>, k: nat, n: Node) {
    exists i: nat :: LeftBy(table, ops, k, i, n)
  }

  ghost predicate UntouchedFrom(table: Table, ops: seq<Op>, i: nat, k: nat, n: Node)
    requires k <= |ops|
  {
    forall j: nat :: i <= j < k ==> Spares(table, ops, j, n)
  }

  /** Operation `j` neither deletes the row of `n` nor writes over it. */
  ghost predicate Spares(table: Table, ops: seq<Op>, j: nat, n: Node)
    requires j < |ops|
  {
    !Deletes(ops[j], n) && !WritesTo(After(table, ops, j), ops[j], n.id)
  }

  /** A node is stored exactly if an operation left it, or it was there before and nothing touched it. */
  lemma {:induction false} StoredIfLeft(table: Table, ops: seq<Op>, k: nat, n: Node)
    requires k <= |ops|
    ensures Holds(After(table, ops, k), n) <==>
        WasLeft(table, ops, k, n) || (Holds(table, n) && UntouchedFrom(table, ops, 0, k, n))
  {
    if k > 0 {
      StoredIfLeft(table, ops, k - 1, n);
      OneOperation(After(table, ops, k - 1), ops[k - 1], n);
      LeftByOneMore(table, ops, k, n);
      hide Writes, Deletes, WritesTo, Holds, Apply, WasLeft, Spares;
    }
  }

  lemma LeftByOneMore(table: Table, ops: seq<Op>, k: nat, n: Node)
    requires 0 < k <= |ops|
    ensures WasLeft(table, ops, k, n) <==>
        Writes(After(table, ops, k - 1), ops[k - 1], n) ||
        (WasLeft(table, ops, k - 1, n) && Spares(table, ops, k - 1, n))
    ensures Spares(table, ops, k - 1, n) <==>
        !Deletes(ops[k - 1], n) && !WritesTo(After(table, ops, k - 1), ops[k - 1], n.id)
  {
    hide Writes, Deletes, WritesTo, After;
    if Writes(After(table, ops, k - 1), ops[k - 1], n) {
      assert LeftBy(table, ops, k, k - 1, n);
    }
    if WasLeft(table, ops, k - 1, n) {
      var before := k - 1;
      var i: nat :| LeftBy(table, ops, before, i, n);
      if Spares(table, ops, k - 1, n) {
        assert LeftBy(table, ops, k, i, n);
      }
    }
    if WasLeft(table, ops, k, n) {
      var i: nat :| LeftBy(table, ops, k, i, n);
      if i < k - 1 {
        assert LeftBy(table, ops, k - 1, i, n) && Spares(table, ops, k - 1, n);
      }
    }
  }

  lemma {:induction false} AnswersAt(table: Table, ops: seq<Op>, k: nat)
    requires k < |ops|
    ensures |Answers(table, ops)| == |ops| && Answers(table, ops)[k] == AnswerOf(After(table, ops, k), ops[k])
    decreases k
  {
    hide AnswerOf, Apply;
    AnswersLength(table, ops);
    if k > 0 {
      AnswersAt(Apply(table, ops[0]), ops[1..], k - 1);
      AfterFirst(table, ops, k);
    }
  }

  lemma {:induction false} AnswersLength(table: Table, ops: seq<Op>)
    ensures |Answers(table, ops)| == |ops|
    decreases |ops|
  {
    hide AnswerOf, Apply;
    if ops != [] {
      AnswersLength(Apply(table, ops[0]), ops[1..]);
    }
  }

  lemma {:induction false} AfterFirst(table: Table, ops: seq<Op>, k: nat)
    requires 0 < k <= |ops|
    ensures After(table, ops, k) == After(Apply(table, ops[0]), ops[1..], k - 1)
  {
    hide Apply;
    if k > 1 {
      AfterFirst(table, ops, k - 1);
    }
  }

  /** The answer to operation `k` has the node under its id. */
  predicate Reads(answers: seq<Answer>, ops: seq<Op>, k: nat, n: Node) {
    k < |ops| && k < |answers| &&
    match ops[k]
    case GetNodeById(id) => answers[k] == One(Some(n))
    case GetNodesByIds(ids) => answers[k].Many? && Holds(answers[k].nodes, n)
    case _ => false
  }

  /** The operation asks for the node under this id. */
  predicate Asks(op: Op, id: Id) {
    match op
    case GetNodeById(asked) => asked == id
    case GetNodesByIds(ids) => id in ids
    case _ => false
  }

  lemma AfterKeyed(table: Table, ops: seq<Op>, k: nat)
    requires k <= |ops| && RowsKeyed(table)
    ensures RowsKeyed(After(table, ops, k))
  {
    if k > 0 {
      AfterKeyed(table, ops, k - 1);
      ApplyKeyed(After(table, ops, k - 1), ops[k - 1]);
    }
  }

  lemma ApplyKeyed(table: Table, op: Op)
    requires RowsKeyed(table)
    ensures RowsKeyed(Apply(table, op))
  {
    match op
    case InsertNodes(nodes) => InsertRowsKeyed(table, OnlyValid(nodes));
    case _ =>
  }

  /**
   In any run of operations a query reads a node exactly if it asks for it and the node is the
   last one written under its id and not deleted since.
   */
  lemma ReadIsLastWrite(table: Table, ops: seq<Op>, k: nat, n: Node)
    requires RowsKeyed(table) && k < |ops|
    ensures Reads(Answers(table, ops), ops, k, n) <==>
        Asks(ops[k], n.id) &&
        (WasLeft(table, ops, k, n) || (Holds(table, n) && UntouchedFrom(table, ops, 0, k, n)))
  {
    AnswersAt(table, ops, k);
    StoredIfLeft(table, ops, k, n);
    AfterKeyed(table, ops, k);
    hide Answers, WasLeft, UntouchedFrom, After;
  }
}
