/** Class discovery: the depth-first, memoised walk of generate_dataclasses_from_yaml
    that registers one class per mapping name, the first shape seen winning. */
module Discovery {
  import opened Wrappers
  import opened Document
  import opened Naming
  import opened Inference
  import opened CodeGen
  import opened Seqs

  /** What the walk has built so far: the class text and the dependency set
      per registered name, and the order in which names were registered
      (the insertion order of both dicts). */
  datatype Registry = Registry(
    classes: map<string, string>,
    dependencies: map<string, set<string>>,
    order: seq<string>)

  const Empty := Registry(map[], map[], [])

  /** Both dicts have the same keys, and `order` lists each of them once. */
  ghost predicate Valid(r: Registry) {
    && Distinct(r.order)
    && (forall n :: n in r.order <==> n in r.classes)
    && r.classes.Keys == r.dependencies.Keys
  }

  /** b was reached from a by registering new names only: nothing registered
      in a is changed, and a's names keep their place at the front. */
  ghost predicate Extends(a: Registry, b: Registry) {
    && (forall n :: n in a.classes ==> n in b.classes && b.classes[n] == a.classes[n])
    && (forall n :: n in a.dependencies ==> n in b.dependencies && b.dependencies[n] == a.dependencies[n])
    && |a.order| <= |b.order| && b.order[..|a.order|] == a.order
  }

  /** recursive_generate_classes(name, data), as a function of the registry. */
  function Discover(r: Registry, name: string, data: seq<(string, Node)>): Registry
    decreases EntriesSize(data), 2
  {
    if name in r.classes then r
    else
      var registered := Registry(
        r.classes[name := ClassText(name, data)],
        r.dependencies[name := Dependencies(data)],
        r.order + [name]);
      DiscoverFields(registered, data)
  }

  /** The loop over the mapping's fields: every record field is discovered
      under its converted key, in field order. */
  function DiscoverFields(r: Registry, fields: seq<(string, Node)>): Registry
    decreases EntriesSize(fields), 1
  {
    if fields == [] then r else DiscoverFields(Step(r, fields[0]), fields[1..])
  }

  /** One iteration of that loop: a mapping value, or a list whose first element
      is a mapping, is discovered under the converted key; other values are skipped. */
  function Step(r: Registry, field: (string, Node)): Registry
    decreases NodeSize(field.1), 0
  {
    match RecordChild(field.1)
    case Some(c) => Discover(r, CamelCase(field.0), c)
    case None => r
  }

  /** The walk only ever adds: an already registered name keeps its class and
      dependencies (the first shape wins), and validity is preserved. */
  lemma {:induction false} DiscoverExtends(r: Registry, name: string, data: seq<(string, Node)>)
    requires Valid(r)
    ensures Valid(Discover(r, name, data)) && Extends(r, Discover(r, name, data))
    decreases EntriesSize(data), 2
  {
    if name !in r.classes {
      var registered := Registry(
        r.classes[name := ClassText(name, data)],
        r.dependencies[name := Dependencies(data)],
        r.order + [name]);
      assert name !in r.order;
      assert (r.order + [name])[..|r.order|] == r.order;
      DiscoverFieldsExtends(registered, data);
      ExtendsTransitive(r, registered, Discover(r, name, data));
    }
  }

  lemma {:induction false} DiscoverFieldsExtends(r: Registry, fields: seq<(string, Node)>)
    requires Valid(r)
    ensures Valid(DiscoverFields(r, fields)) && Extends(r, DiscoverFields(r, fields))
    decreases EntriesSize(fields), 1
  {
    if fields != [] {
      var next := Step(r, fields[0]);
      StepExtends(r, fields[0]);
      DiscoverFieldsExtends(next, fields[1..]);
      ExtendsTransitive(r, next, DiscoverFields(r, fields));
    }
  }

  lemma {:induction false} StepExtends(r: Registry, field: (string, Node))
    requires Valid(r)
    ensures Valid(Step(r, field)) && Extends(r, Step(r, field))
    decreases NodeSize(field.1), 0
  {
    match RecordChild(field.1) {
      case Some(c) => DiscoverExtends(r, CamelCase(field.0), c);
      case None =>
    }
  }

  lemma ExtendsTransitive(a: Registry, b: Registry, c: Registry)
    requires Extends(a, b) && Extends(b, c)
    ensures Extends(a, c)
  {
    assert c.order[..|a.order|] == c.order[..|b.order|][..|a.order|];
  }

  /** A name not yet registered is registered with the class text and the
      dependency set of the mapping it is discovered with, and takes the next
      place in the order. */
  lemma DiscoverRegisters(r: Registry, name: string, data: seq<(string, Node)>)
    requires Valid(r) && name !in r.classes
    ensures name in Discover(r, name, data).classes
    ensures Discover(r, name, data).classes[name] == ClassText(name, data)
    ensures name in Discover(r, name, data).dependencies
    ensures Discover(r, name, data).dependencies[name] == Dependencies(data)
    ensures |Discover(r, name, data).order| > |r.order| && Discover(r, name, data).order[|r.order|] == name
  {
    var registered := Registry(
      r.classes[name := ClassText(name, data)],
      r.dependencies[name := Dependencies(data)],
      r.order + [name]);
    assert name !in r.order;
    DiscoverFieldsExtends(registered, data);
    var result := DiscoverFields(registered, data);
    assert result.order[..|registered.order|] == registered.order;
    assert result.order[|r.order|] == result.order[..|registered.order|][|r.order|];
  }

  /** One loop iteration leaves the field's class name registered. */
  lemma StepRegisters(r: Registry, field: (string, Node))
    requires Valid(r) && RecordChild(field.1).Some?
    ensures CamelCase(field.0) in Step(r, field).classes
  {
    var c := RecordChild(field.1).value;
    if CamelCase(field.0) !in r.classes {
      DiscoverRegisters(r, CamelCase(field.0), c);
    }
  }

  /** After the field loop, every record field of the loop's mapping is
      registered (under its converted key, possibly by an earlier shape). */
  lemma {:induction false} DiscoverFieldsRegistersRecords(r: Registry, fields: seq<(string, Node)>)
    requires Valid(r)
    ensures forall i :: 0 <= i < |fields| && RecordChild(fields[i].1).Some?
              ==> CamelCase(fields[i].0) in DiscoverFields(r, fields).classes
    decreases |fields|
  {
    if fields != [] {
      var next := Step(r, fields[0]);
      StepExtends(r, fields[0]);
      DiscoverFieldsExtends(next, fields[1..]);
      DiscoverFieldsRegistersRecords(next, fields[1..]);
      if RecordChild(fields[0].1).Some? {
        StepRegisters(r, fields[0]);
      }
      forall i | 0 <= i < |fields| && RecordChild(fields[i].1).Some?
        ensures CamelCase(fields[i].0) in DiscoverFields(r, fields).classes
      {
        if i > 0 {
          assert fields[1..][i - 1] == fields[i];
        }
      }
    }
  }

  /** Every record field of a newly registered mapping names a registered
      class once the walk returns. */
  lemma DiscoverRegistersRecords(r: Registry, name: string, data: seq<(string, Node)>)
    requires Valid(r) && name !in r.classes
    ensures forall i :: 0 <= i < |data| && RecordChild(data[i].1).Some?
              ==> CamelCase(data[i].0) in Discover(r, name, data).classes
  {
    var registered := Registry(
      r.classes[name := ClassText(name, data)],
      r.dependencies[name := Dependencies(data)],
      r.order + [name]);
    assert name !in r.order;
    DiscoverFieldsRegistersRecords(registered, data);
  }

  /** The registry of a whole document: the walk started at RootSchema. */
  function Schema(doc: seq<(string, Node)>): Registry {
    Discover(Empty, "RootSchema", doc)
  }

  /** RootSchema is registered first, with the document's own class text, every
      top-level record field names a registered class, and both dicts share
      their keys, listed once each in registration order. */
  lemma SchemaShape(doc: seq<(string, Node)>)
    ensures Valid(Schema(doc))
    ensures |Schema(doc).order| > 0 && Schema(doc).order[0] == "RootSchema"
    ensures Schema(doc).classes["RootSchema"] == ClassText("RootSchema", doc)
    ensures forall i :: 0 <= i < |doc| && RecordChild(doc[i].1).Some?
              ==> CamelCase(doc[i].0) in Schema(doc).classes
  {
    DiscoverExtends(Empty, "RootSchema", doc);
    DiscoverRegisters(Empty, "RootSchema", doc);
    DiscoverRegistersRecords(Empty, "RootSchema", doc);
  }

  /** The two dicts the nested walk updates in place (all_classes and
      class_dependencies) and the order in which their keys were inserted. */
  class SchemaGenerator {
    var allClasses: map<string, string>
    var classDependencies: map<string, set<string>>
    var order: seq<string>

    function Snapshot(): Registry
      reads this
    {
      Registry(allClasses, classDependencies, order)
    }

    constructor ()
      ensures Snapshot() == Empty
    {
      allClasses, classDependencies, order := map[], map[], [];
    }

    /** recursive_generate_classes: a name already registered is left alone;
        otherwise its class text and dependencies are recorded and every
        record field is walked in field order. */
    method RecursiveGenerateClasses(className: string, subData: seq<(string, Node)>)
      modifies this
      ensures Snapshot() == Discover(old(Snapshot()), className, subData)
      decreases EntriesSize(subData)
    {
      if className in allClasses {
        return;
      }
      var classCode := GenerateDataclassCode(className, subData);
      allClasses := allClasses[className := classCode];
      var dependencies := Dependencies(subData);
      classDependencies := classDependencies[className := dependencies];
      order := order + [className];

      ghost var registered := Snapshot();
      for i := 0 to |subData|
        invariant DiscoverFields(registered, subData) == DiscoverFields(Snapshot(), subData[i..])
      {
        var key, value := subData[i].0, subData[i].1;
        EntrySmaller(subData, i);
        ghost var before := Snapshot();
        if value.Map? {
          var nestedClassName := CamelCase(key);
          assert RecordChild(value) == Some(value.entries);
          RecursiveGenerateClasses(nestedClassName, value.entries);
        } else if value.List? && |value.items| > 0 && value.items[0].Map? {
          var nestedClassName := CamelCase(key);
          assert RecordChild(value) == Some(value.items[0].entries);
          RecursiveGenerateClasses(nestedClassName, value.items[0].entries);
        }
        assert Snapshot() == Step(before, subData[i]);
        assert subData[i..][1..] == subData[i + 1..];
      }
    }
  }
}
