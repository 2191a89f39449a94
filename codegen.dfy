/** The source text of one generated dataclass. */
module CodeGen {
  import opened Document
  import opened Naming
  import opened Inference
  import opened Seqs

  /** The annotation written for a field: a non-empty mapping names its class,
      a list starting with a mapping is a list of that class, and every other
      value is typed by inference under its own key. */
  function FieldType(key: string, v: Node): string {
    if v.Map? && v.entries != [] then CamelCase(key)
    else if v.List? && |v.items| > 0 && v.items[0].Map? then "List[" + CamelCase(key) + "]"
    else InferType(v, key)
  }

  function FieldLine(key: string, v: Node): string {
    "    " + key + ": " + FieldType(key, v)
  }

  function EntryLine(e: (string, Node)): string {
    FieldLine(e.0, e.1)
  }

  /** The three shapes of a field line, as the loop of generate_dataclass_code
      builds them. */
  lemma FieldLineCases(key: string, v: Node)
    ensures v.Map? && v.entries != [] ==> FieldLine(key, v) == "    " + key + ": " + CamelCase(key)
    ensures !(v.Map? && v.entries != []) && v.List? && |v.items| > 0 && v.items[0].Map? ==>
              FieldLine(key, v) == "    " + key + ": List[" + CamelCase(key) + "]"
    ensures !(v.Map? && v.entries != []) && !(v.List? && |v.items| > 0 && v.items[0].Map?) ==>
              FieldLine(key, v) == "    " + key + ": " + InferType(v, key)
  {
    if !(v.Map? && v.entries != []) && v.List? && |v.items| > 0 && v.items[0].Map? {
      assert "    " + key + ": List[" + CamelCase(key) + "]" == "    " + key + ": " + ("List[" + CamelCase(key) + "]");
    }
  }

  /** One annotated line per entry, in entry order. */
  function FieldLines(es: seq<(string, Node)>): seq<string> {
    MapSeq(EntryLine, es)
  }

  function Header(name: string): seq<string> {
    ["@dataclass", "class " + name + ":"]
  }

  /** The lines of a generated class: the decorator, the class line, then
      `    pass` for an empty mapping or one annotated line per key, in key order. */
  function ClassLines(name: string, es: seq<(string, Node)>): (lines: seq<string>)
    ensures |lines| >= 3
    ensures lines[0] == "@dataclass" && lines[1] == "class " + name + ":"
    ensures es == [] ==> |lines| == 3 && lines[2] == "    pass"
    ensures es != [] ==> |lines| == 2 + |es|
    ensures es != [] ==> forall i :: 0 <= i < |es| ==> lines[2 + i] == FieldLine(es[i].0, es[i].1)
  {
    Header(name) + (if es == [] then ["    pass"] else FieldLines(es))
  }

  function ClassText(name: string, es: seq<(string, Node)>): string {
    Join(ClassLines(name, es), "\n")
  }

  /** generate_dataclass_code: builds the line list step by step and joins it. */
  method GenerateDataclassCode(className: string, data: seq<(string, Node)>) returns (code: string)
    ensures code == ClassText(className, data)
  {
    var lines := ["@dataclass"];
    lines := lines + ["class " + className + ":"];
    if |data| == 0 {
      lines := lines + ["    pass"];
      assert lines == ClassLines(className, data);
      return Join(lines, "\n");
    }
    for i := 0 to |data|
      invariant lines == Header(className) + FieldLines(data[..i])
    {
      var key, value := data[i].0, data[i].1;
      FieldLineCases(key, value);
      var line;
      if value.Map? && value.entries != [] {
        var nestedClassName := CamelCase(key);
        line := "    " + key + ": " + nestedClassName;
      } else if value.List? && |value.items| > 0 && value.items[0].Map? {
        var nestedClassName := CamelCase(key);
        line := "    " + key + ": List[" + nestedClassName + "]";
      } else {
        var valueType := InferType(value, key);
        line := "    " + key + ": " + valueType;
      }
      assert line == EntryLine(data[i]);
      MapSeqExtend(EntryLine, data, i);
      lines := lines + [line];
    }
    assert data[..|data|] == data;
    code := Join(lines, "\n");
  }

  /** For a non-empty key, the annotation is exactly what infer_type gives. */
  lemma FieldTypeIsInferred(key: string, v: Node)
    requires key != ""
    ensures FieldType(key, v) == InferType(v, key)
  {
  }

  /** With the empty key the field line of a non-empty mapping names the
      class with the empty name. */
  lemma FieldTypeEmptyKey(key: string, es: seq<(string, Node)>)
    requires key == "" && es != []
    ensures FieldType(key, Map(es)) == ""
  {
    CamelCaseCharwise(key);
  }

  /** With the empty key infer_type falls back to the name `NestedClass`, so
      its type text is not empty and differs from the field line's. */
  lemma InferTypeEmptyKey(key: string, es: seq<(string, Node)>)
    requires key == "" && es != []
    ensures InferType(Map(es), key) != ""
  {
    var fallback := KeyOr(key, "NestedClass");
    CamelCaseNonEmpty(fallback);
  }

  /** A list of mappings under `items` is annotated `List[Items]`: the class is
      named after the key as it stands, not after a singular form. */
  lemma ListOfMappingsField(rest: seq<Node>, es: seq<(string, Node)>)
    ensures FieldType("items", List([Map(es)] + rest)) == "List[Items]"
  {
    CamelCaseItems();
  }

  /** An empty mapping gives an `Optional[Any]` field (it still becomes a
      class of its own and a dependency; see Discovery and Inference). */
  lemma EmptyMappingField(key: string)
    ensures FieldType(key, Map([])) == "Optional[Any]"
  {
  }
}
