/** Field type inference and the nested class names a mapping depends on. */
module Inference {
  import opened Wrappers
  import opened Document
  import opened Naming

  /** Python's `key or default`: a missing key (None) and the empty key both
      fall back to the default. A missing key is written as "". */
  function KeyOr(key: string, default: string): string {
    if key == "" then default else key
  }

  /** infer_type: the type text of a field holding v under `key`.
      The tests run in the source's order; a boolean passes the integer test
      (bool is a subclass of int), so the boolean branch is never reached. */
  function InferType(v: Node, key: string): string {
    if v.Str? then "str"
    else if v.Int? || v.Bool? then "int"
    else if v.Flt? then "float"
    else if v.Bool? then "bool"
    else if v.List? then
      if |v.items| > 0 && v.items[0].Map? then "List[" + CamelCase(KeyOr(key, "Item")) + "]"
      else if |v.items| > 0 then "List[" + InferType(v.items[0], "") + "]"
      else "List[Any]"
    else if v.Map? then
      if v.entries == [] then "Optional[Any]" else CamelCase(KeyOr(key, "NestedClass"))
    else "Any"
  }

  /** The mapping a field's value turns into a class of its own: the value
      itself when it is a mapping (empty or not), the first element when the
      value is a list that starts with a mapping, nothing otherwise. */
  function RecordChild(v: Node): (r: Option<seq<(string, Node)>>)
    ensures r.Some? <==> v.Map? || (v.List? && |v.items| > 0 && v.items[0].Map?)
    ensures r.Some? && v.Map? ==> r.value == v.entries
    ensures r.Some? && v.List? ==> r.value == v.items[0].entries
    ensures r.Some? ==> EntriesSize(r.value) < NodeSize(v)
  {
    match v
    case Map(es) => Some(es)
    case List(items) =>
      if |items| > 0 && items[0].Map? then
        assert NodeSize(items[0]) <= ItemsSize(items);
        Some(items[0].entries)
      else None
    case _ => None
  }

  /** extract_dependencies: the class names of every record field of the
      mapping, and of the record fields of those fields' mappings, at any depth. */
  function Dependencies(es: seq<(string, Node)>): set<string>
    decreases EntriesSize(es)
  {
    if es == [] then {}
    else
      var here := match RecordChild(es[0].1)
        case Some(c) => {CamelCase(es[0].0)} + Dependencies(c)
        case None => {};
      here + Dependencies(es[1..])
  }

  /** `path` leads from es to a record field named k: each step is an index
      into the current mapping whose value is a record field, and the walk
      continues in that field's mapping. */
  ghost predicate RecordKeyAt(es: seq<(string, Node)>, path: seq<nat>, k: string)
    decreases |path|
  {
    && |path| > 0
    && path[0] < |es|
    && RecordChild(es[path[0]].1).Some?
    && if |path| == 1 then es[path[0]].0 == k
       else RecordKeyAt(RecordChild(es[path[0]].1).value, path[1..], k)
  }

  /** Every record field reachable from the mapping contributes its class name. */
  lemma {:induction false} DependenciesComplete(es: seq<(string, Node)>, path: seq<nat>, k: string)
    requires RecordKeyAt(es, path, k)
    ensures CamelCase(k) in Dependencies(es)
    decreases EntriesSize(es)
  {
    var i := path[0];
    if i == 0 {
      if |path| > 1 {
        DependenciesComplete(RecordChild(es[0].1).value, path[1..], k);
      }
    } else {
      assert es[1..][i - 1] == es[i];
      assert RecordKeyAt(es[1..], [i - 1] + path[1..], k) by {
        assert ([i - 1] + path[1..])[1..] == path[1..];
      }
      DependenciesComplete(es[1..], [i - 1] + path[1..], k);
    }
  }

  /** Every dependency is the class name of some reachable record field. */
  lemma {:induction false} DependencyWitness(es: seq<(string, Node)>, name: string)
    returns (path: seq<nat>, k: string)
    requires name in Dependencies(es)
    ensures RecordKeyAt(es, path, k) && CamelCase(k) == name
    decreases EntriesSize(es)
  {
    var child := RecordChild(es[0].1);
    if child.Some? && name == CamelCase(es[0].0) {
      path, k := [0], es[0].0;
    } else if child.Some? && name in Dependencies(child.value) {
      var p;
      p, k := DependencyWitness(child.value, name);
      path := [0] + p;
      assert path[1..] == p;
    } else {
      var p;
      p, k := DependencyWitness(es[1..], name);
      path := [p[0] + 1] + p[1..];
      assert path[1..] == p[1..];
      assert es[path[0]] == es[1..][p[0]];
    }
  }

  /** extract_dependencies, characterised: a name is a dependency exactly when
      some record field at any depth has a key that converts to it. */
  lemma DependenciesExactly(es: seq<(string, Node)>, name: string)
    ensures name in Dependencies(es)
        <==> exists path: seq<nat>, k: string :: RecordKeyAt(es, path, k) && CamelCase(k) == name
  {
    if name in Dependencies(es) {
      var path, k := DependencyWitness(es, name);
      assert exists path': seq<nat>, k': string :: RecordKeyAt(es, path', k') && CamelCase(k') == name by {
        assert RecordKeyAt(es, path, k) && CamelCase(k) == name;
      }
    } else {
      forall path, k | RecordKeyAt(es, path, k) ensures CamelCase(k) != name {
        DependenciesComplete(es, path, k);
      }
    }
  }

  /** A mapping has no dependencies exactly when none of its own fields is a
      record field (a mapping, possibly empty, or a list starting with one). */
  lemma DependenciesEmpty(es: seq<(string, Node)>)
    ensures Dependencies(es) == {} <==> forall i :: 0 <= i < |es| ==> RecordChild(es[i].1).None?
  {
    if exists i :: 0 <= i < |es| && RecordChild(es[i].1).Some? {
      var i :| 0 <= i < |es| && RecordChild(es[i].1).Some?;
      assert RecordKeyAt(es, [i], es[i].0);
      DependenciesComplete(es, [i], es[i].0);
    } else if Dependencies(es) != {} {
      var name :| name in Dependencies(es);
      var path, k := DependencyWitness(es, name);
    }
  }

  /** The inference table for scalars and empty collections. A boolean is
      typed `int`; None is `Any`; an empty mapping is `Optional[Any]`. */
  lemma InferTypeTable(key: string, s: string, n: int, b: bool)
    ensures InferType(Str(s), key) == "str"
    ensures InferType(Int(n), key) == "int"
    ensures InferType(Flt, key) == "float"
    ensures InferType(Bool(b), key) == "int"
    ensures InferType(Null, key) == "Any"
    ensures InferType(List([]), key) == "List[Any]"
    ensures InferType(Map([]), key) == "Optional[Any]"
  {
  }

  /** A list is typed by its first element alone; the rest is never looked at. */
  lemma InferTypeFirstElementOnly(x: Node, rest1: seq<Node>, rest2: seq<Node>, key: string)
    ensures InferType(List([x] + rest1), key) == InferType(List([x] + rest2), key)
  {
    assert ([x] + rest1)[0] == x && ([x] + rest2)[0] == x;
  }

  /** The key matters only when the value becomes a class: otherwise the type
      text is the same under every key, including none. */
  lemma InferTypeKeyIrrelevant(v: Node, k1: string, k2: string)
    requires RecordChild(v).None? || v == Map([])
    ensures InferType(v, k1) == InferType(v, k2)
  {
  }
}
