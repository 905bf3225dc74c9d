/**
 Circular dependencies between files, found by depth-first search. Each list reported is
 a simple cycle, and every cycle that the files tracked reach has an edge that closes one of
 them; so none is reported exactly when none is reached.
 */
module GraphCycles {
  type File = string

  /** The files tracked and, for every file, the other files it depends on. */
  datatype Project = Project(files: seq<File>, dependencies: map<File, seq<File>>)

  function DependenciesOf(p: Project, f: File): seq<File> {
    if f in p.dependencies then p.dependencies[f] else []
  }

  predicate DependsOn(p: Project, f: File, d: File) {
    d in DependenciesOf(p, f)
  }

  /** A chain of dependencies. */
  predicate IsChain(p: Project, c: seq<File>) {
    forall i :: 0 < i < |c| ==> DependsOn(p, c[i - 1], c[i])
  }

  predicate Distinct(c: seq<File>) {
    forall i, j :: 0 <= i < j < |c| ==> c[i] != c[j]
  }

  /** A chain whose last file depends on its first. */
  predicate IsCycle(p: Project, c: seq<File>) {
    c != [] && IsChain(p, c) && DependsOn(p, c[|c| - 1], c[0])
  }

  predicate IsSimpleCycle(p: Project, c: seq<File>) {
    IsCycle(p, c) && Distinct(c)
  }

  /** A chain from a tracked file leads to `f`. */
  ghost predicate Reached(p: Project, f: File) {
    exists c :: ReachedBy(p, f, c)
  }

  predicate ReachedBy(p: Project, f: File, c: seq<File>) {
    c != [] && c[0] in p.files && IsChain(p, c) && c[|c| - 1] == f
  }

  lemma ReachedOn(p: Project, f: File, d: File)
    requires Reached(p, f) && DependsOn(p, f, d)
    ensures Reached(p, d)
  {
    var c :| ReachedBy(p, f, c);
    assert ReachedBy(p, d, c + [d]);
  }

  // ---------------------------------------------------------------- cycles among files left in order

  /** The edge from `f` to `d` closes one of the cycles. */
  ghost predicate Closes(cycles: seq<seq<File>>, f: File, d: File) {
    exists c :: c in cycles && c != [] && c[|c| - 1] == f && c[0] == d
  }

  /** Every file depends only on files earlier in the list, or closes a cycle with what it depends on. */
  ghost predicate Topological(p: Project, done: seq<File>, cycles: seq<seq<File>>) {
    forall i, d :: 0 <= i < |done| && DependsOn(p, done[i], d) ==> d in done[..i] || Closes(cycles, done[i], d)
  }

  function FilesOf(list: seq<File>): set<File> {
    set f | f in list
  }

  /** What these files depend on is among them. */
  ghost predicate ClosedUnder(p: Project, files: set<File>) {
    forall f, d :: f in files && DependsOn(p, f, d) ==> d in files
  }

  /** Some edge of the chain closes a cycle. */
  ghost predicate HasClosing(cycles: seq<seq<File>>, c: seq<File>) {
    exists i :: 0 < i < |c| && Closes(cycles, c[i - 1], c[i])
  }

  /** A chain without such an edge goes down the list, a step at a time. */
  lemma {:induction false} ChainDescends(p: Project, done: seq<File>, cycles: seq<seq<File>>, c: seq<File>, i: nat)
      returns (j: nat)
    requires Topological(p, done, cycles) && c != [] && IsChain(p, c) && i < |done| && c[0] == done[i]
    requires !HasClosing(cycles, c)
    ensures j <= i && done[j] == c[|c| - 1] && (|c| > 1 ==> j < i)
    decreases |c|
  {
    hide Closes;
    if |c| == 1 {
      j := i;
    } else {
      assert DependsOn(p, c[0], c[1]) && !Closes(cycles, c[0], c[1]);
      var k :| 0 <= k < i && done[..i][k] == c[1];
      var rest := c[1..];
      assert IsChain(p, rest) by {
        assert forall n :: 0 < n < |c| - 1 ==> DependsOn(p, c[n], c[n + 1]);
      }
      assert !HasClosing(cycles, rest) by {
        forall n | 0 < n < |rest| ensures !Closes(cycles, rest[n - 1], rest[n]) {
          assert !Closes(cycles, c[n + 1 - 1], c[n + 1]);
        }
      }
      j := ChainDescends(p, done, cycles, rest, k);
    }
  }

  /** A cycle through a file of the list has such an edge, or else it would go round and round down the list. */
  lemma {:induction false} CycleHasClosing(p: Project, done: seq<File>, cycles: seq<seq<File>>, c: seq<File>, i: nat)
    requires Topological(p, done, cycles) && IsCycle(p, c) && i < |done| && c[0] == done[i]
    ensures HasClosing(cycles, c + [c[0]])
    decreases i
  {
    hide DependsOn, Closes;
    var round := c + [c[0]];
    if !HasClosing(cycles, round) {
      assert IsChain(p, round) by {
        forall n | 0 < n < |round| ensures DependsOn(p, round[n - 1], round[n]) {
          assert round[n - 1] == c[n - 1];
        }
      }
      var j := ChainDescends(p, done, cycles, round, i);
      CycleHasClosing(p, done, cycles, c, j);
    }
  }

  /** A chain stays among files that depend on nothing else. */
  lemma {:induction false} ChainStays(p: Project, files: set<File>, c: seq<File>)
    requires ClosedUnder(p, files) && c != [] && IsChain(p, c) && c[0] in files
    ensures c[|c| - 1] in files
    decreases |c|
  {
    if |c| > 1 {
      assert DependsOn(p, c[0], c[1]);
      assert IsChain(p, c[1..]) by {
        assert forall n :: 0 < n < |c| - 1 ==> DependsOn(p, c[n], c[n + 1]);
      }
      ChainStays(p, files, c[1..]);
    }
  }

  /** If the list holds the tracked files and all they lead to, every cycle reached has a closing edge. */
  lemma ReachedCyclesClose(p: Project, done: seq<File>, cycles: seq<seq<File>>, c: seq<File>)
    requires Topological(p, done, cycles) && ClosedUnder(p, FilesOf(done)) && forall t :: t in p.files ==> t in done
    requires IsCycle(p, c) && Reached(p, c[0])
    ensures HasClosing(cycles, c + [c[0]])
  {
    hide Topological, HasClosing, IsChain;
    var w :| ReachedBy(p, c[0], w);
    ChainStays(p, FilesOf(done), w);
    var i :| 0 <= i < |done| && done[i] == c[0];
    CycleHasClosing(p, done, cycles, c, i);
  }

  /** So if none was reported, no cycle is reached. */
  lemma NoCycleReached(p: Project, done: seq<File>)
    requires Topological(p, done, []) && forall t :: t in p.files ==> t in done
    ensures forall c: seq<File> :: IsCycle(p, c) ==> !Reached(p, c[0])
  {
    forall c: seq<File> | IsCycle(p, c) ensures !Reached(p, c[0]) {
      if Reached(p, c[0]) {
        assert ClosedUnder(p, FilesOf(done));
        ReachedCyclesClose(p, done, [], c);
        assert false;
      }
    }
  }

  lemma TopologicalMore(p: Project, done: seq<File>, cycles: seq<seq<File>>, f: File)
    requires Topological(p, done, cycles)
    requires forall d :: DependsOn(p, f, d) ==> d in done || Closes(cycles, f, d)
    ensures Topological(p, done + [f], cycles)
  {
    hide Closes;
    var more := done + [f];
    forall i, d | 0 <= i < |more| && DependsOn(p, more[i], d) ensures d in more[..i] || Closes(cycles, more[i], d) {
      if i < |done| {
        assert more[..i] == done[..i];
      } else {
        assert more[..i] == done;
      }
    }
  }

  /** Cycles found later close no fewer edges. */
  lemma ClosesStill(cycles: seq<seq<File>>, more: seq<seq<File>>)
    requires cycles <= more
    ensures forall f, d :: Closes(cycles, f, d) ==> Closes(more, f, d)
  {
    assert forall c :: c in cycles ==> c in more;
  }

  // ---------------------------------------------------------------- the search

  /** All files there are. */
  ghost function Universe(p: Project): set<File> {
    (set f | f in p.files) + p.dependencies.Keys + (set f, d | f in p.dependencies && d in p.dependencies[f] :: d)
  }

  class CycleFinder {
    const project: Project
    var cycles: seq<seq<File>>
    var visited: set<File>
    var recursionStack: set<File>

    /** The files left again, in the order they were left. */
    ghost var done: seq<File>

    constructor (project: Project)
      ensures this.project == project && Valid() && cycles == [] && recursionStack == {} && done == []
    {
      this.project := project;
      cycles, visited, recursionStack, done := [], {}, {}, [];
    }

    /** A file is left only after the files it depends on, those apart with which it closes a cycle. */
    ghost predicate Valid()
      reads this
    {
      && visited <= Universe(project)
      && (forall f :: f in visited <==> f in recursionStack || f in done)
      && (forall f :: f in visited ==> Reached(project, f))
      && (forall c :: c in cycles ==> IsSimpleCycle(project, c) && Reached(project, c[0]))
      && Topological(project, done, cycles)
      && (forall i, d :: 0 <= i < |done| && DependsOn(project, done[i], d) ==> d in visited)
    }

    /** The files entered and not yet left form the chain that led to `f`. */
    ghost predicate Led(path: seq<File>, f: File)
      reads this
    {
      && IsChain(project, path + [f]) && Distinct(path)
      && (forall e :: e in recursionStack <==> e in path)
      && Reached(project, f) && f in Universe(project)
    }

    /** A file met again on the chain that led to it closes a cycle. */
    method Report(f: File, path: seq<File>)
      requires Valid() && Led(path, f) && f in recursionStack
      modifies `cycles
      ensures Valid() && |cycles| == |old(cycles)| + 1 && old(cycles) <= cycles
      ensures path != [] && Closes(cycles, path[|path| - 1], f)
    {
      hide IsChain, IsSimpleCycle, Reached, Universe;
      var start := IndexOf(path, f);
      CycleClosed(project, path, f, start);
      var found := path[start..];
      ClosesStill(cycles, cycles + [found]);
      cycles := cycles + [found];
      assert found in cycles && found[|found| - 1] == path[|path| - 1] && found[0] == f;
    }

    method Enter(f: File)
      requires Valid() && f !in visited && Reached(project, f) && f in Universe(project)
      modifies `visited, `recursionStack
      ensures Valid() && visited == old(visited) + {f} && recursionStack == old(recursionStack) + {f} &&
          f !in old(recursionStack)
    {
      hide Topological, Reached, Universe, IsSimpleCycle;
      visited := visited + {f};
      recursionStack := recursionStack + {f};
    }

    method Leave(f: File)
      requires Valid() && f in visited
      requires forall d :: DependsOn(project, f, d) ==> d in done || (Closes(cycles, f, d) && d in visited)
      modifies `recursionStack, `done
      ensures Valid() && recursionStack == old(recursionStack) - {f} && done == old(done) + [f]
    {
      hide Topological, Reached, Universe, IsSimpleCycle;
      TopologicalMore(project, done, cycles, f);
      recursionStack := recursionStack - {f};
      done := done + [f];
    }

    method Dfs(f: File, path: seq<File>)
      requires Valid() && Led(path, f)
      modifies this
      ensures Valid() && recursionStack == old(recursionStack)
      ensures old(visited) <= visited && old(cycles) <= cycles && old(done) <= done
      ensures f in done || (f in visited && path != [] && Closes(cycles, path[|path| - 1], f))
      ensures f in recursionStack || f in done
      decreases Universe(project) - visited, 0
    {
      hide IsChain, IsSimpleCycle, Topological, Reached, Universe, Distinct, Closes;
      if f in recursionStack {
        Report(f, path);
        return;
      }
      if f in visited {
        return;
      }
      Enter(f);
      VisitDependencies(f, path);
      Leave(f);
    }

    method VisitDependencies(f: File, path: seq<File>)
      requires Valid() && IsChain(project, path + [f]) && Distinct(path) && f !in path && Reached(project, f)
      requires forall e :: e in recursionStack <==> e in path + [f]
      modifies this
      ensures Valid() && recursionStack == old(recursionStack)
      ensures old(visited) <= visited && old(cycles) <= cycles && old(done) <= done
      ensures forall d :: DependsOn(project, f, d) ==> d in done || (Closes(cycles, f, d) && d in visited)
      decreases Universe(project) - visited, 1
    {
      hide Valid, IsChain, Reached, Universe, Distinct, Closes;
      var dependencies := DependenciesOf(project, f);
      var k := 0;
      while k < |dependencies|
        invariant 0 <= k <= |dependencies|
        invariant Valid() && recursionStack == old(recursionStack)
        invariant old(visited) <= visited && old(cycles) <= cycles && old(done) <= done
        invariant forall i :: 0 <= i < k ==>
            dependencies[i] in done || (Closes(cycles, f, dependencies[i]) && dependencies[i] in visited)
      {
        PathGrows(project, path, f, dependencies[k]);
        ghost var found := cycles;
        Dfs(dependencies[k], path + [f]);
        ClosesStill(found, cycles);
        k := k + 1;
      }
    }

    method FindAll()
      requires Valid() && recursionStack == {} && done == []
      modifies this
      ensures Valid() && recursionStack == {}
      ensures forall f :: f in project.files ==> f in done
      ensures ClosedUnder(project, FilesOf(done))
    {
      hide IsChain, IsSimpleCycle, Topological, Closes, Reached, Universe, DependsOn;
      var k := 0;
      while k < |project.files|
        invariant 0 <= k <= |project.files| && Valid() && recursionStack == {}
        invariant forall i :: 0 <= i < k ==> project.files[i] in done
      {
        var f := project.files[k];
        if f !in visited {
          TrackedIsReached(project, f);
          Dfs(f, []);
        }
        k := k + 1;
      }
    }
  }

  lemma TrackedIsReached(p: Project, f: File)
    requires f in p.files
    ensures Reached(p, f) && f in Universe(p) && IsChain(p, [] + [f])
  {
    assert ReachedBy(p, f, [f]);
  }

  /** The place of `f` in a path that holds it. */
  method IndexOf(path: seq<File>, f: File) returns (i: nat)
    requires f in path
    ensures i < |path| && path[i] == f
  {
    i := 0;
    while path[i] != f
      decreases |path| - i
      invariant i < |path| && f in path[i..]
    {
      assert path[i..] == [path[i]] + path[i + 1..];
      i := i + 1;
    }
  }

  lemma CycleClosed(p: Project, path: seq<File>, f: File, start: nat)
    requires IsChain(p, path + [f]) && Distinct(path) && start < |path| && path[start] == f
    ensures IsSimpleCycle(p, path[start..]) && path[start..][0] == f
  {
    var all, c := path + [f], path[start..];
    forall i | 0 < i < |c| ensures DependsOn(p, c[i - 1], c[i]) {
      assert DependsOn(p, all[start + i - 1], all[start + i]);
    }
    assert DependsOn(p, all[|path| - 1], all[|path|]);
  }

  lemma PathGrows(p: Project, path: seq<File>, f: File, d: File)
    requires IsChain(p, path + [f]) && Distinct(path) && f !in path && Reached(p, f) && DependsOn(p, f, d)
    ensures IsChain(p, path + [f] + [d]) && Distinct(path + [f]) && Reached(p, d) && d in Universe(p)
  {
    ReachedOn(p, f, d);
  }

  /** Going round the cycle, some edge leads from the last file of a reported cycle to its first. */
  ghost predicate Covered(cycles: seq<seq<File>>, c: seq<File>)
    requires c != []
  {
    HasClosing(cycles, c + [c[0]])
  }

  lemma NothingCovered(c: seq<File>)
    requires c != []
    ensures !Covered([], c)
  {
  }

  /**
   Reports simple cycles of dependencies. Every cycle that is reached has an edge that closes a
   reported one, so that breaking these edges breaks all cycles; and none is reported exactly
   when none can be reached.
   */
  method FindCircularDependencies(p: Project) returns (cycles: seq<seq<File>>)
    ensures forall c :: c in cycles ==> IsSimpleCycle(p, c) && Reached(p, c[0])
    ensures forall c: seq<File> :: IsCycle(p, c) && Reached(p, c[0]) ==> Covered(cycles, c)
    ensures cycles == [] <==> forall c: seq<File> :: IsCycle(p, c) ==> !Reached(p, c[0])
  {
    hide Reached, IsChain, Topological, HasClosing, ClosedUnder, Distinct;
    var finder := new CycleFinder(p);
    finder.FindAll();
    cycles := finder.cycles;
    forall c: seq<File> | IsCycle(p, c) && Reached(p, c[0]) ensures Covered(cycles, c) {
      ReachedCyclesClose(p, finder.done, cycles, c);
    }
    if cycles == [] {
      forall c: seq<File> | IsCycle(p, c) ensures !Reached(p, c[0]) {
        NothingCovered(c);
      }
    } else {
      assert cycles[0] in cycles;
    }
  }
}
