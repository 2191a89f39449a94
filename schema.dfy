/** generate_dataclasses_from_yaml: discovery, ordering and assembly of the
    generated module text. */
module Schema {
  import opened Wrappers
  import opened Document
  import opened Naming
  import opened Inference
  import opened CodeGen
  import opened Discovery
  import opened TopoSort
  import opened Seqs

  /** The fixed docstring and import lines every generated module starts with. */
  const Preamble: string :=
    "\"\"\"\nThe dataclasses are automatically generated from the given yaml schema\n\"\"\"\n"
    + "from dataclasses import dataclass\nfrom typing import List, Optional, Any\n\n"

  /** A document that is not a mapping has no `items()`: the source fails with
      an attribute error. */
  datatype GenerationError = NotAMapping

  /** The dependency dict of a registry, as the sort receives it. */
  function GraphOf(r: Registry): Graph {
    Graph(r.order, r.dependencies)
  }

  /** The names of the sort's output that have a registered class, in output
      order; the others are dropped. */
  function Registered(classes: map<string, string>, sorted: seq<string>): seq<string> {
    if sorted == [] then []
    else (if sorted[0] in classes then [sorted[0]] else []) + Registered(classes, sorted[1..])
  }

  /** The kept names are exactly the sorted names that have a class, and
      none repeats when the sort's output has no repeats. */
  lemma {:induction false} RegisteredMembers(classes: map<string, string>, sorted: seq<string>)
    ensures forall n :: n in Registered(classes, sorted) <==> n in sorted && n in classes
    ensures Distinct(sorted) ==> Distinct(Registered(classes, sorted))
  {
    if sorted != [] {
      RegisteredMembers(classes, sorted[1..]);
      assert sorted == [sorted[0]] + sorted[1..];
      var rest := Registered(classes, sorted[1..]);
      if sorted[0] in classes && Distinct(sorted) {
        assert sorted[0] !in sorted[1..];
        var names := [sorted[0]] + rest;
        forall i, j | 0 <= i < j < |names| ensures names[i] != names[j] {
          if i > 0 {
            assert names[i] == rest[i - 1] && names[j] == rest[j - 1];
          } else {
            assert names[j] == rest[j - 1];
          }
        }
      }
    }
  }

  /** Filtering a concatenation filters each part and keeps them in order, so
      the kept names keep their relative order in the sort's output. */
  lemma {:induction false} RegisteredAppend(classes: map<string, string>, s: seq<string>, t: seq<string>)
    ensures Registered(classes, s + t) == Registered(classes, s) + Registered(classes, t)
  {
    if s != [] {
      assert (s + t)[1..] == s[1..] + t;
      RegisteredAppend(classes, s[1..], t);
    } else {
      assert s + t == t;
    }
  }

  /** Every dependency of an emitted class that has a class of its own is
      emitted before it. */
  ghost predicate DefinedBeforeUse(g: Graph, classes: map<string, string>, names: seq<string>) {
    forall i, d :: 0 <= i < |names| && d in Deps(g, names[i]) && d in classes ==> d in names[..i]
  }

  /** Dropping the names without a class keeps the dependencies-first order
      of the sort among the classes that are emitted. */
  lemma RegisteredDependenciesFirst(g: Graph, classes: map<string, string>, sorted: seq<string>)
    requires Distinct(sorted) && DependenciesFirst(g, sorted)
    ensures DefinedBeforeUse(g, classes, Registered(classes, sorted))
  {
    var names := Registered(classes, sorted);
    forall i, d | 0 <= i < |names| && d in Deps(g, names[i]) && d in classes
      ensures d in names[..i]
    {
      EmittedBefore(g, classes, sorted, i, d);
    }
  }

  lemma EmittedBefore(g: Graph, classes: map<string, string>, sorted: seq<string>, i: nat, d: string)
    requires Distinct(sorted) && DependenciesFirst(g, sorted)
    requires i < |Registered(classes, sorted)| && d in classes
    requires d in Deps(g, Registered(classes, sorted)[i])
    ensures d in Registered(classes, sorted)[..i]
  {
    var names := Registered(classes, sorted);
    RegisteredMembers(classes, sorted);
    assert names[i] in sorted;
    var a :| 0 <= a < |sorted| && sorted[a] == names[i];
    var before, after := Registered(classes, sorted[..a]), Registered(classes, sorted[a + 1..]);
    RegisteredAround(classes, sorted, a);
    PositionInSplit(names, before, sorted[a], after, i);
    assert d in sorted[..a];
    RegisteredMembers(classes, sorted[..a]);
  }

  /** In a list without repeats, an element is preceded by exactly the part
      before its occurrence. */
  lemma PositionInSplit(names: seq<string>, before: seq<string>, x: string, after: seq<string>, i: nat)
    requires names == before + [x] + after && Distinct(names)
    requires i < |names| && names[i] == x
    ensures names[..i] == before
  {
    assert names[|before|] == x;
    assert i == |before|;
  }

  /** The kept names split around a kept name of the sort's output. */
  lemma RegisteredAround(classes: map<string, string>, sorted: seq<string>, a: nat)
    requires a < |sorted| && sorted[a] in classes
    ensures Registered(classes, sorted)
         == Registered(classes, sorted[..a]) + [sorted[a]] + Registered(classes, sorted[a + 1..])
  {
    var x, front, back := sorted[a], sorted[..a], sorted[a + 1..];
    assert sorted == front + ([x] + back);
    RegisteredAppend(classes, front, [x] + back);
    assert ([x] + back)[1..] == back;
    assert Registered(classes, [x] + back) == [x] + Registered(classes, back);
  }

  /** The class texts of the given names, in order. */
  function Blocks(classes: map<string, string>, names: seq<string>): (blocks: seq<string>)
    requires forall n :: n in names ==> n in classes
    ensures |blocks| == |names|
    ensures forall i :: 0 <= i < |names| ==> blocks[i] == classes[names[i]]
  {
    seq(|names|, i requires 0 <= i < |names| => classes[names[i]])
  }

  /** The module text for a registry and a sort result. */
  function Output(classes: map<string, string>, sorted: seq<string>): string {
    RegisteredMembers(classes, sorted);
    Preamble + Join(Blocks(classes, Registered(classes, sorted)), "\n\n")
  }

  /** generate_dataclasses_from_yaml with the default root name. A mapping
      gives the preamble followed by the registered classes in the order of
      the sort, which lists every registered class once; without cycles each
      class comes after the classes it depends on, both in the sort's result
      and among the class texts emitted. `sortedClasses` is the
      sort's result, which depends on the iteration order of the sets. */
  method GenerateDataclassesFromYaml(data: Node)
    returns (result: Result<string, GenerationError>, ghost sortedClasses: seq<string>)
    ensures result.Ok? <==> data.Map?
    ensures data.Map? ==> result.value == Output(Schema(data.entries).classes, sortedClasses)
    ensures data.Map? ==> Distinct(sortedClasses)
    ensures data.Map? ==> forall n :: n in Schema(data.entries).classes <==> n in Registered(Schema(data.entries).classes, sortedClasses)
    ensures data.Map? && Acyclic(GraphOf(Schema(data.entries))) ==> DependenciesFirst(GraphOf(Schema(data.entries)), sortedClasses)
    ensures data.Map? && Acyclic(GraphOf(Schema(data.entries))) ==>
              DefinedBeforeUse(GraphOf(Schema(data.entries)), Schema(data.entries).classes,
                               Registered(Schema(data.entries).classes, sortedClasses))
  {
    if !data.Map? {
      return Err(NotAMapping), [];
    }
    var generator := new SchemaGenerator();
    generator.RecursiveGenerateClasses("RootSchema", data.entries);
    var registry := generator.Snapshot();
    assert registry == Schema(data.entries);
    SchemaShape(data.entries);
    var sorted := TopologicalSort(Graph(generator.order, generator.classDependencies));
    if Acyclic(GraphOf(registry)) {
      RegisteredDependenciesFirst(GraphOf(registry), registry.classes, sorted);
    }
    RegisteredMembers(registry.classes, sorted);
    var names := Registered(generator.allClasses, sorted);
    var text := Preamble + Join(Blocks(generator.allClasses, names), "\n\n");
    return Ok(text), sorted;
  }

  /** The registry right after the root is registered. */
  function RootRegistry(doc: seq<(string, Node)>): Registry {
    Registry(
      Empty.classes["RootSchema" := ClassText("RootSchema", doc)],
      Empty.dependencies["RootSchema" := Dependencies(doc)],
      Empty.order + ["RootSchema"])
  }

  lemma SchemaUnfold(doc: seq<(string, Node)>)
    ensures Valid(RootRegistry(doc))
    ensures Schema(doc) == DiscoverFields(RootRegistry(doc), doc)
  {
  }

  /** Whatever the first field registers survives the rest of the walk. */
  lemma SchemaAfterFirstField(field: (string, Node), rest: seq<(string, Node)>)
    ensures Valid(Step(RootRegistry([field] + rest), field))
    ensures Extends(Step(RootRegistry([field] + rest), field), Schema([field] + rest))
  {
    var doc := [field] + rest;
    SchemaUnfold(doc);
    assert doc[0] == field && doc[1..] == rest;
    StepExtends(RootRegistry(doc), field);
    DiscoverFieldsExtends(Step(RootRegistry(doc), field), rest);
  }

  /** When the document's first field reuses its class name inside its own
      mapping (at any depth), that class is registered and depends on itself:
      the dependency dict has a cycle, and no listing of the classes that
      includes it, the sort's result among them, puts every dependency
      first. */
  lemma NameReuseMakesCycle(a: string, m: seq<(string, Node)>, rest: seq<(string, Node)>, path: seq<nat>, k: string)
    requires RecordKeyAt(m, path, k) && CamelCase(k) == CamelCase(a)
    ensures !Acyclic(GraphOf(Schema([(a, Map(m))] + rest)))
    ensures CamelCase(a) in GraphOf(Schema([(a, Map(m))] + rest)).keys
    ensures forall s :: CamelCase(a) in s ==> !DependenciesFirst(GraphOf(Schema([(a, Map(m))] + rest)), s)
  {
    var g := GraphOf(Schema([(a, Map(m))] + rest));
    SchemaAfterFirstField((a, Map(m)), rest);
    FirstFieldDependsOnItself(a, m, rest, path, k);
    SchemaShape([(a, Map(m))] + rest);
    SelfLoopIsCycle(g, CamelCase(a));
    forall s | CamelCase(a) in s ensures !DependenciesFirst(g, s) {
      SelfLoopBreaksOrder(g, CamelCase(a), s);
    }
  }

  /** The class of the first field lists itself among its dependencies once
      that field is walked. */
  lemma FirstFieldDependsOnItself(a: string, m: seq<(string, Node)>, rest: seq<(string, Node)>, path: seq<nat>, k: string)
    requires RecordKeyAt(m, path, k) && CamelCase(k) == CamelCase(a)
    ensures CamelCase(a) in Step(RootRegistry([(a, Map(m))] + rest), (a, Map(m))).dependencies
    ensures CamelCase(a) in Step(RootRegistry([(a, Map(m))] + rest), (a, Map(m))).dependencies[CamelCase(a)]
  {
    var doc := [(a, Map(m))] + rest;
    var name := CamelCase(a);
    var root := RootRegistry(doc);
    SchemaUnfold(doc);
    if name == "RootSchema" {
      assert RecordKeyAt(doc, [0], a);
      DependenciesComplete(doc, [0], a);
      assert Step(root, (a, Map(m))) == root;
    } else {
      DependenciesComplete(m, path, k);
      assert Step(root, (a, Map(m))) == Discover(root, name, m);
      DiscoverRegisters(root, name, m);
    }
  }

  /** The shape `{a: {b: {a: ...}}}`: the class of `a` depends on itself, and
      no listing that includes it puts every dependency first. */
  lemma NestedSameKeyIsCycle(a: string, b: string, inner: seq<(string, Node)>)
    ensures !Acyclic(GraphOf(Schema([(a, Map([(b, Map([(a, Map(inner))]))]))])))
    ensures forall s :: CamelCase(a) in s ==> !DependenciesFirst(GraphOf(Schema([(a, Map([(b, Map([(a, Map(inner))]))]))])), s)
  {
    var m := [(b, Map([(a, Map(inner))]))];
    assert RecordKeyAt(m, [0, 0], a) by {
      assert [0, 0][1..] == [0];
    }
    NameReuseMakesCycle(a, m, [], [0, 0], a);
    assert [(a, Map(m))] + [] == [(a, Map(m))];
  }

  /** A list whose head is a list of mappings is typed `List[List[Item]]`. */
  lemma NestedListType(key: string, es: seq<(string, Node)>)
    ensures FieldType(key, List([List([Map(es)])])) == "List[List[Item]]"
  {
    CamelCaseItem();
    assert InferType(List([Map(es)]), "") == "List[Item]";
    assert InferType(List([List([Map(es)])]), key) == "List[" + "List[Item]" + "]";
  }

  /** No class `Item` is ever registered for such a field: the generated
      module names a class it does not define. */
  lemma NestedListNamesUndefinedClass(key: string, es: seq<(string, Node)>)
    ensures FieldType(key, List([List([Map(es)])])) == "List[List[Item]]"
    ensures Schema([(key, List([List([Map(es)])]))]).classes.Keys == {"RootSchema"}
  {
    NestedListType(key, es);
    var doc := [(key, List([List([Map(es)])]))];
    SchemaUnfold(doc);
    assert doc[1..] == [];
    assert Step(RootRegistry(doc), doc[0]) == RootRegistry(doc);
  }

  /** A later field that reuses its class name inside its own mapping need
      not make a cycle: when the name was first registered from an earlier
      field's mapping without record fields (as `A` in
      `{x: {a: {y: 1}}, a: {a: {z: 1}}}`), that shape wins and the class has
      no dependencies. */
  lemma EarlierShapeWins(x: string, a: string, inner: seq<(string, Node)>, other: seq<(string, Node)>)
    requires CamelCase(x) != "RootSchema" && CamelCase(a) != "RootSchema" && CamelCase(x) != CamelCase(a)
    requires forall i :: 0 <= i < |inner| ==> RecordChild(inner[i].1).None?
    ensures CamelCase(a) in Schema([(x, Map([(a, Map(inner))])), (a, Map([(a, Map(other))]))]).dependencies
    ensures Schema([(x, Map([(a, Map(inner))])), (a, Map([(a, Map(other))]))]).dependencies[CamelCase(a)] == {}
  {
    var doc := [(x, Map([(a, Map(inner))])), (a, Map([(a, Map(other))]))];
    var root := RootRegistry(doc);
    SchemaUnfold(doc);
    var first := Step(root, doc[0]);
    FirstShapeRegistered(root, x, a, inner);
    assert Step(first, doc[1]) == first;
    assert DiscoverFields(root, doc) == DiscoverFields(first, doc[1..]);
    assert doc[1..][1..] == [];
  }

  /** Walking `x: {a: inner}` into a registry holding only `RootSchema`
      registers the class of `a` with the dependencies of `inner`. */
  lemma FirstShapeRegistered(root: Registry, x: string, a: string, inner: seq<(string, Node)>)
    requires Valid(root) && root.classes.Keys == {"RootSchema"}
    requires CamelCase(x) != "RootSchema" && CamelCase(a) != "RootSchema" && CamelCase(x) != CamelCase(a)
    requires forall i :: 0 <= i < |inner| ==> RecordChild(inner[i].1).None?
    ensures CamelCase(a) in Step(root, (x, Map([(a, Map(inner))]))).classes
    ensures CamelCase(a) in Step(root, (x, Map([(a, Map(inner))]))).dependencies
    ensures Step(root, (x, Map([(a, Map(inner))]))).dependencies[CamelCase(a)] == {}
  {
    var X, A := CamelCase(x), CamelCase(a);
    var fields := [(a, Map(inner))];
    var withX := Registry(
      root.classes[X := ClassText(X, fields)],
      root.dependencies[X := Dependencies(fields)],
      root.order + [X]);
    SingleFieldWalk(root, X, a, inner);
    assert Step(root, (x, Map(fields))) == Discover(withX, A, inner);
    DependenciesEmpty(inner);
    assert Valid(withX) by {
      assert X !in root.order;
    }
    DiscoverRegisters(withX, A, inner);
  }

  /** Discovering a mapping with a single mapping-valued field registers the
      mapping and then discovers the field's mapping. */
  lemma SingleFieldWalk(r: Registry, name: string, a: string, inner: seq<(string, Node)>)
    requires name !in r.classes
    ensures Discover(r, name, [(a, Map(inner))])
         == Discover(Registry(r.classes[name := ClassText(name, [(a, Map(inner))])],
                              r.dependencies[name := Dependencies([(a, Map(inner))])],
                              r.order + [name]),
                     CamelCase(a), inner)
  {
    var fields := [(a, Map(inner))];
    var registered := Registry(r.classes[name := ClassText(name, fields)],
                               r.dependencies[name := Dependencies(fields)],
                               r.order + [name]);
    assert Discover(r, name, fields) == DiscoverFields(registered, fields);
    assert fields[1..] == [];
    assert DiscoverFields(registered, fields) == Step(registered, fields[0]);
    assert RecordChild(Map(inner)) == Some(inner);
  }
}

