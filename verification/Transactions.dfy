/**
 Nested transactions flattened into the outermost one. A program is what runs inside:
 writes, throws, catches and calls wrapped in transactions, nested at will.
 */
module Transactions {
  type Name = string
  type Value = int
  type Table = map<Name, Value>

  datatype Program =
    | Skip
    | Write(name: Name, value: Value)
    | Throw
    | Then(first: Program, second: Program)
    | Try(body: Program, handler: Program)
    | Transaction(body: Program)

  datatype Statement = Begin | Commit | Rollback

  /**
   A connection. `table` is what its statements see, and `saved`, while a transaction is
   open, the table a rollback restores. `commits` tells which COMMITs succeed.
   */
  datatype Connection = Connection(depth: nat, open: bool, table: Table, saved: Table, log: seq<Statement>,
      commits: nat -> bool)

  datatype Outcome = Done | Thrown

  datatype Run = Run(state: Connection, outcome: Outcome)

  /** The wrapper `transaction` puts around a function. */
  function Execute(p: Program, c: Connection): Run
    decreases p
  {
    match p
    case Skip => Run(c, Done)
    case Write(name, value) => Run(c.(table := c.table[name := value]), Done)
    case Throw => Run(c, Thrown)
    case Then(first, second) =>
      var r := Execute(first, c);
      if r.outcome == Thrown then r else Execute(second, r.state)
    case Try(body, handler) =>
      var r := Execute(body, c);
      if r.outcome == Thrown then Execute(handler, r.state) else r
    case Transaction(body) =>
      if c.depth > 0 then
        var r := Execute(body, c.(depth := c.depth + 1));
        Run(r.state.(depth := if r.state.depth > 0 then r.state.depth - 1 else 0), r.outcome)
      else
        var r := Execute(body, c.(depth := 1, open := true, saved := c.table, log := c.log + [Begin]));
        if r.outcome == Done && r.state.commits(|r.state.log|) then Run(Committed(r.state), Done)
            else Run(RolledBack(r.state), Thrown)
  }

  function Committed(c: Connection): Connection {
    c.(depth := 0, open := false, log := c.log + [Commit])
  }

  function RolledBack(c: Connection): Connection {
    c.(depth := 0, open := false, table := c.saved, log := c.log + [Rollback])
  }

  // ---------------------------------------------------------------- what a program does on its own

  datatype Effect = Effect(table: Table, outcome: Outcome)

  /** The program as if its transactions were not there. */
  function Plainly(p: Program, table: Table): Effect
    decreases p
  {
    match p
    case Skip => Effect(table, Done)
    case Write(name, value) => Effect(table[name := value], Done)
    case Throw => Effect(table, Thrown)
    case Then(first, second) =>
      var e := Plainly(first, table);
      if e.outcome == Thrown then e else Plainly(second, e.table)
    case Try(body, handler) =>
      var e := Plainly(body, table);
      if e.outcome == Thrown then Plainly(handler, e.table) else e
    case Transaction(body) => Plainly(body, table)
  }

  /**
   Inside a transaction a program does just what it does without any: no statement is
   issued, the depth is restored, and whatever was written stays, thrown or caught.
   */
  lemma {:induction false} InnerIsFlat(p: Program, c: Connection)
    requires c.depth > 0
    ensures Execute(p, c) == Run(c.(table := Plainly(p, c.table).table), Plainly(p, c.table).outcome)
    decreases p
  {
    hide Committed, RolledBack;
    match p
    case Skip =>
    case Write(name, value) =>
    case Throw =>
    case Then(first, second) =>
      InnerIsFlat(first, c);
      var e := Plainly(first, c.table);
      assert Execute(first, c).state == c.(table := e.table) && Execute(first, c).outcome == e.outcome;
      if e.outcome == Done {
        InnerIsFlat(second, c.(table := e.table));
      }
    case Try(body, handler) =>
      InnerIsFlat(body, c);
      var e := Plainly(body, c.table);
      assert Execute(body, c).state == c.(table := e.table) && Execute(body, c).outcome == e.outcome;
      if e.outcome == Thrown {
        InnerIsFlat(handler, c.(table := e.table));
      }
    case Transaction(body) =>
      InnerIsFlat(body, c.(depth := c.depth + 1));
  }

  /**
   The outermost transaction is all or nothing: one BEGIN and one COMMIT with every write
   made under it, in which case no exception leaves it, or one BEGIN and one ROLLBACK
   with the table as it was.
   */
  lemma OutermostIsAllOrNothing(body: Program, c: Connection)
    requires c.depth == 0
    ensures var r, e := Execute(Transaction(body), c), Plainly(body, c.table);
            && r.state.depth == 0 && !r.state.open
            && if e.outcome == Done && c.commits(|c.log| + 1)
               then r.outcome == Done && r.state.table == e.table && r.state.log == c.log + [Begin, Commit]
               else r.outcome == Thrown && r.state.table == c.table && r.state.log == c.log + [Begin, Rollback]
  {
    hide Plainly;
    var inside := c.(depth := 1, open := true, saved := c.table, log := c.log + [Begin]);
    var r := Execute(body, inside);
    assert Execute(Transaction(body), c) ==
           if r.outcome == Done && r.state.commits(|r.state.log|) then Run(Committed(r.state), Done)
               else Run(RolledBack(r.state), Thrown);
    InnerIsFlat(body, inside);
    hide Execute;
    assert c.log + [Begin] + [Commit] == c.log + [Begin, Commit];
    assert c.log + [Begin] + [Rollback] == c.log + [Begin, Rollback];
  }

  /** One BEGIN for each COMMIT or ROLLBACK, in turn. */
  predicate Balanced(log: seq<Statement>) {
    log == [] || (|log| >= 2 && log[|log| - 2] == Begin && log[|log| - 1] != Begin && Balanced(log[..|log| - 2]))
  }

  /** Between transactions every program leaves the connection closed, at depth zero, and its statements in pairs. */
  lemma {:induction false} StatementsArePaired(p: Program, c: Connection)
    requires c.depth == 0 && !c.open && Balanced(c.log)
    ensures var s := Execute(p, c).state; s.depth == 0 && !s.open && Balanced(s.log)
    decreases p
  {
    match p
    case Skip =>
    case Write(name, value) =>
    case Throw =>
    case Then(first, second) =>
      StatementsArePaired(first, c);
      StatementsArePaired(second, Execute(first, c).state);
    case Try(body, handler) =>
      StatementsArePaired(body, c);
      StatementsArePaired(handler, Execute(body, c).state);
    case Transaction(body) =>
      OutermostIsAllOrNothing(body, c);
      var log := Execute(p, c).state.log;
      assert log[..|log| - 2] == c.log;
  }

  // ---------------------------------------------------------------- the adapter

  class Adapter {
    var txDepth: nat
    var open: bool
    var table: Table
    var saved: Table
    var log: seq<Statement>
    const commits: nat -> bool

    ghost function State(): Connection
      reads this
    {
      Connection(txDepth, open, table, saved, log, commits)
    }

    constructor (table: Table, commits: nat -> bool)
      ensures State() == Connection(0, false, table, table, [], commits)
    {
      this.txDepth, this.open, this.table, this.saved, this.log, this.commits := 0, false, table, table, [], commits;
    }

    /** Runs a program; `thrown` tells whether an exception leaves it. */
    method Perform(p: Program) returns (thrown: bool)
      modifies this
      ensures Run(State(), if thrown then Thrown else Done) == Execute(p, old(State()))
      decreases p
    {
      match p
      case Skip => return false;
      case Write(name, value) =>
        table := table[name := value];
        return false;
      case Throw => return true;
      case Then(first, second) =>
        thrown := Perform(first);
        if !thrown {
          thrown := Perform(second);
        }
      case Try(body, handler) =>
        thrown := Perform(body);
        if thrown {
          thrown := Perform(handler);
        }
      case Transaction(body) =>
        if txDepth > 0 {
          txDepth := txDepth + 1;
          thrown := Perform(body);
          txDepth := if txDepth > 0 then txDepth - 1 else 0;
          return;
        }
        saved, open, log := table, true, log + [Begin];
        txDepth := 1;
        thrown := Perform(body);
        if !thrown && commits(|log|) {
          open, log := false, log + [Commit];
          txDepth := 0;
        } else {
          open, table, log := false, saved, log + [Rollback];
          txDepth := 0;
          thrown := true;
        }
    }
  }
}
