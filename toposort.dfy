/** topological_sort: a depth-first post-order over the dependency dict. */
module TopoSort {
  import opened Seqs

  /** A dict from class name to the set of names it depends on; `keys` is the
      dict's insertion order, which fixes the order of the outer loop. Only a
      graph whose `keys` has no repeats and holds exactly `edges.Keys` stands
      for a dict (the schema's graph is one, by `Discovery.SchemaShape`); the
      sort's contract holds for every graph. */
  datatype Graph = Graph(keys: seq<string>, edges: map<string, set<string>>)

  /** dependencies.get(name, []) */
  function Deps(g: Graph, n: string): set<string> {
    if n in g.edges then g.edges[n] else {}
  }

  /** Every name the sort can meet: the keys and the members of the sets. */
  ghost function Names(g: Graph): set<string> {
    (set n | n in g.keys) + g.edges.Keys + (set m, n | m in g.edges && n in g.edges[m] :: n)
  }

  /** Consecutive names of p are joined by dependency edges. */
  ghost predicate IsPath(g: Graph, p: seq<string>) {
    forall i :: 0 <= i < |p| - 1 ==> p[i + 1] in Deps(g, p[i])
  }

  /** No name depends on itself, directly or through others. */
  ghost predicate Acyclic(g: Graph) {
    forall p :: |p| > 1 && IsPath(g, p) ==> p[0] != p[|p| - 1]
  }

  /** Every dependency of a listed name is listed before it. */
  ghost predicate DependenciesFirst(g: Graph, s: seq<string>) {
    forall i, d :: 0 <= i < |s| && d in Deps(g, s[i]) ==> d in s[..i]
  }

  lemma ProperSubsetSmaller(a: set<string>, b: set<string>)
    requires a < b
    ensures |a| < |b|
  {
    var extra := b - a;
    assert b == a + extra;
    assert extra != {};
  }

  lemma SubsetNoLarger(a: set<string>, b: set<string>)
    requires a <= b
    ensures |a| <= |b|
  {
    assert b == a + (b - a);
  }

  /** A dependency edge back into the current path closes a cycle. */
  lemma BackEdgeIsCycle(g: Graph, stack: seq<string>, d: string)
    requires |stack| > 0 && IsPath(g, stack)
    requires d in Deps(g, stack[|stack| - 1]) && d in stack
    ensures !Acyclic(g)
  {
    var j :| 0 <= j < |stack| && stack[j] == d;
    var p := stack[j..] + [d];
    assert IsPath(g, p) by {
      forall i | 0 <= i < |p| - 1 ensures p[i + 1] in Deps(g, p[i]) {
        if i < |p| - 2 {
          assert p[i] == stack[j + i] && p[i + 1] == stack[j + i + 1];
        }
      }
    }
    assert |p| > 1 && p[0] == p[|p| - 1];
  }

  lemma DepIsName(g: Graph, n: string, d: string)
    requires d in Deps(g, n)
    ensures d in Names(g)
  {
  }

  /** A list that starts with b, which starts with a, starts with a and
      holds every element of b. */
  lemma PrefixKept(a: seq<string>, b: seq<string>, c: seq<string>)
    requires a <= b && b <= c
    ensures a <= c
    ensures forall x :: x in b ==> x in c
  {
    forall x | x in b ensures x in c {
      var i :| 0 <= i < |b| && b[i] == x;
      assert c[i] == b[i];
    }
  }

  /** A name among its own dependencies is a cycle. */
  lemma SelfLoopIsCycle(g: Graph, n: string)
    requires n in Deps(g, n)
    ensures !Acyclic(g)
  {
    assert IsPath(g, [n, n]);
  }

  /** A name among its own dependencies defeats every listing that contains
      it: at its first occurrence it is not yet listed before itself. */
  lemma SelfLoopBreaksOrder(g: Graph, n: string, s: seq<string>)
    requires n in Deps(g, n) && n in s
    ensures !DependenciesFirst(g, s)
  {
    var i :| 0 <= i < |s| && s[i] == n;
    if n in s[..i] {
      FirstOccurrence(s[..i], n);
      var j :| 0 <= j < i && s[..i][j] == n && n !in s[..i][..j];
      assert s[..i][..j] == s[..j] && s[j] == n;
    } else {
      assert n !in s[..i] && n in Deps(g, s[i]);
    }
  }

  /** A name that occurs in a list has a first occurrence. */
  lemma {:induction false} FirstOccurrence(s: seq<string>, n: string)
    requires n in s
    ensures exists j :: 0 <= j < |s| && s[j] == n && n !in s[..j]
  {
    if s[0] == n {
      assert s[..0] == [];
    } else {
      FirstOccurrence(s[1..], n);
      var j :| 0 <= j < |s[1..]| && s[1..][j] == n && n !in s[1..][..j];
      assert s[..j + 1] == [s[0]] + s[1..][..j];
      assert s[j + 1] == n;
    }
  }

  /** The invariant of a sort in progress, over the visited set, the output
      so far and the names whose visit has started but not finished (in call
      order): visited names are exactly those finished or in progress, the
      names in progress form a dependency path, a finished name's
      dependencies are all visited, and without cycles the output lists
      dependencies first. */
  ghost predicate SortState(g: Graph, visited: set<string>, sorted: seq<string>, stack: seq<string>) {
    && Distinct(sorted)
    && Distinct(stack)
    && visited <= Names(g)
    && (forall n :: n in visited <==> n in sorted || n in stack)
    && (forall n :: n in sorted ==> n !in stack)
    && IsPath(g, stack)
    && (forall n :: n in sorted ==> Deps(g, n) <= visited)
    && (Acyclic(g) ==> DependenciesFirst(g, sorted))
  }

  /** Starting the visit of an unvisited name keeps the invariant. */
  lemma StartVisit(g: Graph, visited: set<string>, sorted: seq<string>, stack: seq<string>, x: string)
    requires SortState(g, visited, sorted, stack)
    requires x !in visited && x in Names(g)
    requires stack != [] ==> x in Deps(g, stack[|stack| - 1])
    ensures SortState(g, visited + {x}, sorted, stack + [x])
  {
    var s' := stack + [x];
    assert IsPath(g, s') by {
      forall i | 0 <= i < |s'| - 1 ensures s'[i + 1] in Deps(g, s'[i]) {
        if i < |stack| - 1 {
          assert s'[i] == stack[i] && s'[i + 1] == stack[i + 1];
        }
      }
    }
  }

  /** Finishing a visit whose dependencies are all finished or in progress
      moves the name from the path to the end of the output and keeps the
      invariant. */
  lemma FinishVisit(g: Graph, visited: set<string>, sorted: seq<string>, stack: seq<string>, x: string)
    requires SortState(g, visited, sorted, stack + [x])
    requires forall d :: d in Deps(g, x) ==> d in sorted || d in stack + [x]
    ensures SortState(g, visited, sorted + [x], stack)
  {
    var inner := stack + [x];
    assert x in inner;
    forall j | 0 <= j < |stack| ensures stack[j] != x {
      assert stack[j] == inner[j] && x == inner[|stack|];
    }
    assert IsPath(g, stack) by {
      forall i | 0 <= i < |stack| - 1 ensures stack[i + 1] in Deps(g, stack[i]) {
        assert stack[i] == inner[i] && stack[i + 1] == inner[i + 1];
      }
    }
    assert Distinct(stack) by {
      forall i, j | 0 <= i < j < |stack| ensures stack[i] != stack[j] {
        assert stack[i] == inner[i] && stack[j] == inner[j];
      }
    }
    if Acyclic(g) {
      forall d | d in Deps(g, x) ensures d in sorted {
        if d in inner {
          BackEdgeIsCycle(g, inner, d);
        }
      }
      var s' := sorted + [x];
      forall i, d | 0 <= i < |s'| && d in Deps(g, s'[i]) ensures d in s'[..i] {
        if i < |sorted| {
          assert s'[i] == sorted[i] && s'[..i] == sorted[..i];
        } else {
          assert s'[..i] == sorted;
        }
      }
    }
  }

  /** The state of one sort: the visited set and the output list the nested
      visit function updates, and (for the proof only) the names whose visit
      has started but not finished, in call order. */
  class TopologicalSorter {
    const graph: Graph
    var visited: set<string>
    var sortedClasses: seq<string>
    ghost var stack: seq<string>

    ghost predicate Valid()
      reads this
    {
      SortState(graph, visited, sortedClasses, stack)
    }

    constructor (g: Graph)
      ensures Valid() && graph == g
      ensures visited == {} && sortedClasses == [] && stack == []
    {
      graph := g;
      visited, sortedClasses, stack := {}, [], [];
    }

    /** visit: a name not yet visited is marked, its dependencies are visited
        in whatever order the set yields them, and it is appended last. */
    method Visit(className: string)
      requires Valid()
      requires className in Names(graph)
      requires stack != [] ==> className in Deps(graph, stack[|stack| - 1])
      modifies this
      ensures Valid()
      ensures stack == old(stack)
      ensures old(visited) <= visited
      ensures old(sortedClasses) <= sortedClasses
      ensures className in visited
      ensures className in sortedClasses || className in stack
      decreases |Names(graph) - visited|, 1
    {
      if className !in visited {
        StartVisit(graph, visited, sortedClasses, stack, className);
        ProperSubsetSmaller(Names(graph) - (visited + {className}), Names(graph) - visited);
        visited, stack := visited + {className}, stack + [className];
        VisitDependencies(className);
        FinishVisit(graph, visited, sortedClasses, old(stack), className);
        PrefixKept(old(sortedClasses), sortedClasses, sortedClasses + [className]);
        stack, sortedClasses := old(stack), sortedClasses + [className];
      }
    }

    /** The loop of visit over the dependencies of the name on top of the
        path: afterwards each of them is finished or still on the path. */
    method VisitDependencies(className: string)
      requires Valid()
      requires stack != [] && stack[|stack| - 1] == className
      modifies this
      ensures Valid()
      ensures stack == old(stack)
      ensures old(visited) <= visited
      ensures old(sortedClasses) <= sortedClasses
      ensures forall d :: d in Deps(graph, className) ==> d in sortedClasses || d in stack
      decreases |Names(graph) - visited| + 1, 0
    {
      var pending := Deps(graph, className);
      while pending != {}
        invariant Valid()
        invariant stack == old(stack)
        invariant old(visited) <= visited
        invariant old(sortedClasses) <= sortedClasses
        invariant pending <= Deps(graph, className)
        invariant Deps(graph, className) - pending <= visited
        decreases |pending|
      {
        var dep :| dep in pending;
        DepIsName(graph, className, dep);
        assert dep in Deps(graph, stack[|stack| - 1]);
        SubsetNoLarger(Names(graph) - visited, Names(graph) - old(visited));
        assert |Names(graph) - visited| < |Names(graph) - old(visited)| + 1;
        ghost var before := sortedClasses;
        Visit(dep);
        PrefixKept(old(sortedClasses), before, sortedClasses);
        pending := pending - {dep};
      }
    }
  }

  /** topological_sort: visits every key in dict order and returns the
      post-order. Every key is listed, no name twice, only names the graph
      mentions, every listed name's dependencies are listed too, and when the
      graph has no cycle each dependency comes before its dependents. */
  method TopologicalSort(dependencies: Graph) returns (sortedClasses: seq<string>)
    ensures Distinct(sortedClasses)
    ensures forall n :: n in dependencies.keys ==> n in sortedClasses
    ensures forall n :: n in sortedClasses ==> n in Names(dependencies)
    ensures forall n :: n in sortedClasses ==> Deps(dependencies, n) <= set m | m in sortedClasses
    ensures Acyclic(dependencies) ==> DependenciesFirst(dependencies, sortedClasses)
  {
    var sorter := new TopologicalSorter(dependencies);
    for i := 0 to |dependencies.keys|
      invariant sorter.Valid() && sorter.graph == dependencies && sorter.stack == []
      invariant forall j :: 0 <= j < i ==> dependencies.keys[j] in sorter.sortedClasses
    {
      sorter.Visit(dependencies.keys[i]);
    }
    sortedClasses := sorter.sortedClasses;
  }
}
