# settingsgen schema generator and write decision, in Dafny

This project models the core of `settingsgen`. Its first part turns a parsed YAML settings
document into the source text of Python dataclasses:

- **Class names** are derived from snake_case keys.
- **Field types** are inferred per value.
- **Dependencies** are the nested class names each mapping refers to.
- **Per-class code** is one `@dataclass` block per mapping.
- **Discovery** is a depth-first, memoised walk that registers one class per name; the first shape seen wins.
- **Ordering** is a depth-first post-order topological sort.
- **Assembly** adds a fixed preamble and joins the registered classes in sorted order.

Its second part is the write decision that regenerating `settings_types.py` goes through. It builds a structural summary of a module (imports, and per class the sorted method names and the attribute → type-text dict) and rewrites the file only when the summaries differ.

Modules:

- `Document`: the parsed YAML tree. `Node` is `Str | Int | Flt | Bool | Null | List | Map`, and a mapping is a sequence of (key, node) pairs.
- `Naming`: `convert_to_camel_case`, plus a character-wise reference reading of it.
- `Inference`: `infer_type`, and the record-field test shared by `extract_dependencies` and the discovery loop.
- `CodeGen`: `generate_dataclass_code`, as a method with a loop, proved against `ClassLines`.
- `Discovery`: `recursive_generate_classes`.
  - A class `SchemaGenerator` holds the two dicts the nested function updates in place.
  - Its method is proved equal to a spec function `Discover` over a `Registry` value.
  - The lemmas about `Discover` state what the walk guarantees.
- `TopoSort`: `topological_sort`.
  - A class `TopologicalSorter` holds `visited` and `sorted_classes`.
  - A ghost `stack` records the names whose visit is in progress; it carries the proof that without cycles every dependency comes first.
  - Set iteration order is a nondeterministic choice (`:|`), so everything proved holds for every order.
- `Schema`: `generate_dataclasses_from_yaml` end to end, plus two counterexample lemmas.
- `StringOrder`: Python's `<` on `str`, `sorted()` on lists and on sets, and the uniqueness of sorted lists.
- `Summary`: `extract_summary` over the nodes the tree walk yields.
  - It is a method with nested loops, proved against fold functions.
- `WriteDecision`: `should_save_file`.
- `Seqs`, `Wrappers`: small shared helpers (`Distinct`, `MapSeq`, `Join`, `Option`, `Result`).

## Model

| member | source | states |
|---|---|---|
| Naming.Capitalize | src/settingsgen/yaml_to_dataclass.py:11 | capitalizing a component keeps its length (first character upper-cased, the rest lower-cased) |
| Naming.SplitPieces | src/settingsgen/yaml_to_dataclass.py:10 | `split('_')`: no piece holds `_`; there is one more piece than there are underscores; joining the pieces with `_` gives the key back |
| Naming.CamelCaseCharwise | src/settingsgen/yaml_to_dataclass.py:8-11 | the class name equals the character-wise reading: underscores dropped, the first character and each character after `_` upper-cased, all others lower-cased |
| Naming.CamelCaseShape | src/settingsgen/yaml_to_dataclass.py:8-11 | a class name contains no `_`, and its length is the key's length minus its underscores |
| Naming.CamelCaseNonEmpty | src/settingsgen/yaml_to_dataclass.py:8-11 | a key that does not start with `_` gives a non-empty class name |
| Naming.CamelCaseItems | src/settingsgen/yaml_to_dataclass.py:8-11 | `items` gives `Items` (no singular form) |
| Naming.CamelCaseItem | src/settingsgen/yaml_to_dataclass.py:26 | the fallback `Item` gives `Item` |
| Naming.CamelCaseLowersInnerCapitals | src/settingsgen/yaml_to_dataclass.py:11 | `dbConfig` gives `Dbconfig`: capitals inside a component are lowered |
| Naming.CamelCaseSnake | src/settingsgen/yaml_to_dataclass.py:8-11 | `db_url` gives `DbUrl` |
| Document.Normalize | src/settingsgen/yaml_to_dataclass.py:129-136 | converting the loader's mappings and lists to plain ones gives back the same tree |
| Inference.InferTypeTable | src/settingsgen/yaml_to_dataclass.py:14-37 | str→`str`, int→`int`, float→`float`, bool→`int` (the int test comes first), None→`Any`, `[]`→`List[Any]`, `{}`→`Optional[Any]` |
| Inference.InferTypeFirstElementOnly | src/settingsgen/yaml_to_dataclass.py:24-30 | a list's type depends on its first element only |
| Inference.InferTypeKeyIrrelevant | src/settingsgen/yaml_to_dataclass.py:14-37 | the key changes the type text only for a non-empty mapping or a list whose head is a mapping |
| Inference.DependenciesComplete | src/settingsgen/yaml_to_dataclass.py:40-50 | every record field at any depth contributes the class name of its key |
| Inference.DependencyWitness | src/settingsgen/yaml_to_dataclass.py:40-50 | every dependency is the class name of some record field reachable from the mapping |
| Inference.DependenciesExactly | src/settingsgen/yaml_to_dataclass.py:40-50 | a name is a dependency if and only if some reachable record field's key converts to it |
| Inference.DependenciesEmpty | src/settingsgen/yaml_to_dataclass.py:40-50 | the set is empty if and only if no field of the mapping is a record field |
| CodeGen.ClassLines | src/settingsgen/yaml_to_dataclass.py:55-72 | `@dataclass`, then `class Name:`, then `    pass` alone for an empty mapping, otherwise exactly one `    key: type` line per key, in key order |
| CodeGen.GenerateDataclassCode | src/settingsgen/yaml_to_dataclass.py:53-72 | the line-by-line loop produces the newline-joined `ClassLines` |
| CodeGen.FieldTypeIsInferred | src/settingsgen/yaml_to_dataclass.py:61-70 | for a non-empty key, each field line's type is `infer_type(value, key)` |
| CodeGen.FieldTypeEmptyKey | src/settingsgen/yaml_to_dataclass.py:62-64 | with the empty key, the field line of a non-empty mapping names the class with the empty name |
| CodeGen.InferTypeEmptyKey | src/settingsgen/yaml_to_dataclass.py:35 | with the empty key, `infer_type` of a non-empty mapping falls back to `NestedClass` and is not empty, so it disagrees with the field line |
| CodeGen.ListOfMappingsField | src/settingsgen/yaml_to_dataclass.py:65-67 | a list of mappings under `items` is annotated `List[Items]` |
| CodeGen.EmptyMappingField | src/settingsgen/yaml_to_dataclass.py:68-70 | an empty mapping gives an `Optional[Any]` field |
| Discovery.DiscoverExtends | src/settingsgen/yaml_to_dataclass.py:80-98 | the walk only adds classes: a registered name keeps its class text and dependencies (first shape wins); the dicts keep equal key sets; each name is registered once, in registration order |
| Discovery.DiscoverFieldsExtends | src/settingsgen/yaml_to_dataclass.py:92-98 | the same for the loop over a mapping's fields |
| Discovery.StepExtends | src/settingsgen/yaml_to_dataclass.py:93-98 | the same for one loop iteration |
| Discovery.DiscoverRegisters | src/settingsgen/yaml_to_dataclass.py:83-90 | a new name is registered with the class text and dependency set of the mapping it is discovered with, at the next position |
| Discovery.StepRegisters | src/settingsgen/yaml_to_dataclass.py:93-98 | after one iteration over a record field, its class name is registered |
| Discovery.DiscoverFieldsRegistersRecords | src/settingsgen/yaml_to_dataclass.py:92-98 | after the loop, every record field's class name is registered |
| Discovery.DiscoverRegistersRecords | src/settingsgen/yaml_to_dataclass.py:80-98 | every record field of a newly registered mapping has a registered class when the walk returns |
| Discovery.SchemaShape | src/settingsgen/yaml_to_dataclass.py:75-100 | `RootSchema` is registered first with the document's class text; every top-level record field is registered; every registered name is a key of the dependency dict |
| Discovery.SchemaGenerator.constructor | src/settingsgen/yaml_to_dataclass.py:77-78 | both dicts start empty |
| Discovery.SchemaGenerator.RecursiveGenerateClasses | src/settingsgen/yaml_to_dataclass.py:80-98 | the in-place recursion leaves the dicts as `Discover` says |
| TopoSort.BackEdgeIsCycle | src/settingsgen/yaml_to_dataclass.py:116-121 | a dependency on a name whose visit is still in progress closes a cycle |
| TopoSort.SelfLoopIsCycle | src/settingsgen/yaml_to_dataclass.py:119 | a name among its own dependencies is a cycle |
| TopoSort.SelfLoopBreaksOrder | src/settingsgen/yaml_to_dataclass.py:116-121 | a name among its own dependencies makes dependencies-first fail for every listing that contains it |
| TopoSort.StartVisit | src/settingsgen/yaml_to_dataclass.py:117-118 | marking an unvisited name visited keeps the sort invariant |
| TopoSort.FinishVisit | src/settingsgen/yaml_to_dataclass.py:121 | appending a name whose dependencies are finished or in progress keeps the invariant; without cycles its dependencies are already listed |
| TopoSort.TopologicalSorter.constructor | src/settingsgen/yaml_to_dataclass.py:113-114 | empty output, nothing visited |
| TopoSort.TopologicalSorter.Visit | src/settingsgen/yaml_to_dataclass.py:116-121 | the visit terminates, keeps the invariant, only grows `visited`, only appends to the output, and leaves the name visited |
| TopoSort.TopologicalSorter.VisitDependencies | src/settingsgen/yaml_to_dataclass.py:119-120 | for any iteration order of the set, each dependency ends up listed or in progress |
| TopoSort.TopologicalSort | src/settingsgen/yaml_to_dataclass.py:111-126 | terminates; no name listed twice; every key listed; only names the dict mentions; every listed name's dependencies listed; without cycles each dependency comes before its dependents |
| Schema.RegisteredMembers | src/settingsgen/yaml_to_dataclass.py:108 | the names kept are exactly the sorted names that have a class, and none repeats |
| Schema.RegisteredAppend | src/settingsgen/yaml_to_dataclass.py:108 | dropping the names without a class from two lists in a row gives the two filtered lists in a row, so the kept names keep the sort's relative order |
| Schema.RegisteredAround | src/settingsgen/yaml_to_dataclass.py:108 | a kept name splits the kept names into those kept before it and those kept after it |
| Schema.RegisteredDependenciesFirst | src/settingsgen/yaml_to_dataclass.py:103-108 | when the sort lists dependencies first, every dependency of an emitted class that has a class of its own is emitted before it |
| Schema.GenerateDataclassesFromYaml | src/settingsgen/yaml_to_dataclass.py:75-108 | a non-mapping document fails; a mapping gives the preamble plus each registered class exactly once, in the sort's order; without cycles each class follows its dependencies, both in the sort's result and among the emitted class texts |
| Schema.FirstFieldDependsOnItself | src/settingsgen/yaml_to_dataclass.py:86-98 | when the document's first field reuses its class name inside its own mapping (at any depth), that class is among its own dependencies; for later fields an earlier shape registered under the name can win instead |
| Schema.NameReuseMakesCycle | src/settingsgen/yaml_to_dataclass.py:83-126 | a document whose first field reuses its class name inside its own mapping has a cyclic dependency dict in which that class is a key, and no listing that contains the class (the sort lists every key, so its result does) puts every dependency first |
| Schema.NestedSameKeyIsCycle | src/settingsgen/yaml_to_dataclass.py:83-126 | `{a: {b: {a: ...}}}` has a cyclic dependency dict, and no listing that contains the class of `a` puts every dependency first |
| Schema.EarlierShapeWins | src/settingsgen/yaml_to_dataclass.py:83-98 | a later field reusing its class name inside its own mapping adds no cycle when an earlier field's mapping without record fields registered that name first: the class has no dependencies |
| Schema.FirstShapeRegistered | src/settingsgen/yaml_to_dataclass.py:86-98 | walking `x: {a: inner}` right after the root registers the class of `a` with the (empty) dependencies of `inner` |
| Schema.NestedListType | src/settingsgen/yaml_to_dataclass.py:24-30 | a list whose head is a list of mappings is typed `List[List[Item]]`, whatever the key |
| Schema.NestedListNamesUndefinedClass | src/settingsgen/yaml_to_dataclass.py:24-30 | a list whose head is a list of mappings is typed `List[List[Item]]`, yet only `RootSchema` is registered |
| StringOrder.LessTotal | src/settingsgen/type_generator.py:40 | two different strings are ordered one way or the other |
| StringOrder.LessTransitive | src/settingsgen/type_generator.py:40 | string order is transitive |
| StringOrder.Sort | src/settingsgen/type_generator.py:40 | `sorted()` on a list gives a non-decreasing permutation |
| StringOrder.Insert | src/settingsgen/type_generator.py:40 | inserting into a sorted list keeps it sorted and adds exactly that element |
| StringOrder.SortedUnique | src/settingsgen/type_generator.py:40 | two sorted lists with the same elements (and multiplicities) are equal |
| StringOrder.SortOrderFree | src/settingsgen/type_generator.py:40 | two lists sort alike if and only if they hold the same elements equally often |
| StringOrder.SortSet | src/settingsgen/type_generator.py:45 | `sorted()` on a set gives an increasing list holding exactly the set's elements |
| StringOrder.SortSetOrderFree | src/settingsgen/type_generator.py:45 | two sets have the same sorted list if and only if they are equal |
| Summary.ExtractSummary | src/settingsgen/type_generator.py:11-47 | the walk loop builds `SummaryOf(nodes)` |
| Summary.SummarizeClassBody | src/settingsgen/type_generator.py:23-42 | the body loop builds the sorted method list and the attribute dict of `SummarizeClass` |
| Summary.BindTargetsEffect | src/settingsgen/type_generator.py:33-37 | an unannotated assignment records `Any` for each plain-name target and nothing else |
| Summary.BindEffect | src/settingsgen/type_generator.py:28-37 | a binding statement sets its name to its annotation text or `Any`; other statements leave the dict alone |
| Summary.LastBindingWins | src/settingsgen/type_generator.py:28-37 | an attribute's type text comes from the last statement binding it |
| Summary.AttributesExactly | src/settingsgen/type_generator.py:25-37 | an attribute is recorded if and only if some statement binds its name |
| Summary.AttributesPermutation | src/settingsgen/type_generator.py:28-37 | the statements of a body that binds each name once, in any order, give the same attribute dict |
| Summary.MethodNamesCount | src/settingsgen/type_generator.py:25-27 | each method name is listed as often as the body defines it |
| Summary.BodyPermutation | src/settingsgen/type_generator.py:23-40 | a class body reordered, each name still bound once, gives the same class summary |
| Summary.AttributesSwap | src/settingsgen/type_generator.py:28-37 | swapping two statements that bind different names leaves the dict unchanged |
| Summary.MethodsSummary | src/settingsgen/type_generator.py:23-40 | the method list is sorted, holds exactly the names of the body's function definitions, and holds each as often as it is defined |
| Summary.MethodsOrderFree | src/settingsgen/type_generator.py:40 | reordering method definitions leaves the method list unchanged |
| Summary.ImportsSummary | src/settingsgen/type_generator.py:16-21 | the import list is strictly sorted and holds exactly the modules some import statement names |
| Summary.ImportsOrderFree | src/settingsgen/type_generator.py:14-45 | modules naming the same imports, in any order and any number of times, have equal import lists |
| Summary.LastClassWins | src/settingsgen/type_generator.py:22-42 | a class name maps to the summary of the last class defined under it |
| Summary.NoClassNoEntry | src/settingsgen/type_generator.py:22-42 | a name no class statement defines is absent |
| Summary.NodesSwap | src/settingsgen/type_generator.py:11-47 | two adjacent walked nodes can change places without changing the summary, unless both define a class of the same name |
| Summary.NodesPermutation | src/settingsgen/type_generator.py:11-47 | the nodes of a module that defines each class once, in any order, give the same summary |
| Summary.SwappedImports | src/settingsgen/type_generator.py:16-21 | a module imported by a node list is still imported once two adjacent nodes change places |
| Summary.SwappedClasses | src/settingsgen/type_generator.py:22-42 | the class dict does not depend on the order of two adjacent nodes that do not define classes of the same name |
| Summary.ClassStepsCommute | src/settingsgen/type_generator.py:39-42 | recording two nodes that do not define classes of the same name gives the same dict in either order |
| WriteDecision.DiffersIffUnequal | src/settingsgen/type_generator.py:57-85 | the chain of comparisons returns true if and only if the two summaries differ |
| WriteDecision.DiffersSymmetric | src/settingsgen/type_generator.py:57-85 | the comparison is symmetric |
| WriteDecision.ShouldSaveFile | src/settingsgen/type_generator.py:50-85 | write when the existing content is empty, otherwise exactly when the summaries differ |
| WriteDecision.SameContentNotSaved | src/settingsgen/type_generator.py:50-85 | regenerating identical content never rewrites the file |
| WriteDecision.ReorderedMethodsNotSaved | src/settingsgen/type_generator.py:66-83 | reordering a class's methods, with the same attributes, does not rewrite the file |
| WriteDecision.SwappedClassesNotSaved | src/settingsgen/type_generator.py:50-85 | two adjacent classes of different names emitted in the other order do not rewrite the file |
| WriteDecision.PermutedNodesNotSaved | src/settingsgen/type_generator.py:50-85 | a module with the same nodes in another order, each class defined once, does not rewrite the file |
| WriteDecision.PermutedBodyNotSaved | src/settingsgen/type_generator.py:50-85 | a class whose statements come in another order, each name bound once, does not rewrite the file |
| WriteDecision.ReplaceNode | src/settingsgen/type_generator.py:11-47 | replacing one node by a node with the same imports and class summary keeps the module summary |
| WriteDecision.SameEffectSameSummary | src/settingsgen/type_generator.py:11-47 | modules that match node by node in imports and class summaries have equal summaries |

## Behaviour of the code worth knowing

- **Booleans are typed `int`.** `isinstance(value, int)` at `src/settingsgen/yaml_to_dataclass.py:18` accepts `True` and `False`, so the `bool` branch at line 22 is never reached (`Inference.InferTypeTable`).
- **List-of-mapping classes are named after the key as written.** Lines 65-67 convert the key itself: `items` gives `Items` (`CodeGen.ListOfMappingsField`).
- **Discovery is depth-first recursion** (lines 92-98), and the first shape registered under a class name wins (lines 83-84).
- **The dependency dict can be cyclic.** When the document's first field reuses its own class name inside its mapping, at any depth, that class depends on itself (`Schema.NameReuseMakesCycle`, `Schema.NestedSameKeyIsCycle`). For a later field the reuse need not cause a cycle, because an earlier shape registered under the name wins: in `{x: {a: {y: 1}}, a: {a: {z: 1}}}` the class `A` comes from `{y: 1}` and has no dependencies (`Schema.EarlierShapeWins`). The sort still terminates, since lines 117-118 mark a name before its dependencies are visited. With such a self-dependency no listing that contains the class, the sort's result included, puts every dependency first (`TopoSort.SelfLoopBreaksOrder`).
- **Some class names are never defined.** Line 28 types a list by its head without the key, so a list whose head is a list of mappings is annotated `List[List[Item]]` (line 26). Lines 96-98 walk only lists whose head is a mapping, so no `Item` class is generated (`Schema.NestedListNamesUndefinedClass`).
- **The visiting order of dependencies is the set's iteration order** (line 119), which Python does not fix. The ordering properties are proved for every order. The generated class names are distinct and each field is declared once, so a module whose classes, or whose statements within a class, come out in another order does not rewrite the types file (`WriteDecision.PermutedNodesNotSaved`, `WriteDecision.PermutedBodyNotSaved`).
- **Empty mappings** are typed `Optional[Any]` (line 33). Line 93 still walks them, so each gets a `pass` class of its own (lines 57-59) and counts as a dependency (lines 44-46).
- **Method names are compared too.** The write decision compares each class's sorted method names (`src/settingsgen/type_generator.py:72`), not only its attributes.

## Left out

- YAML parsing (ruamel), file reading and writing, and logging: the model takes an already parsed `Document.Node` and returns text or a decision.
- `generate_dataclass_file`, `smart_save_python_file` and `smart_schema_update`: file I/O and a reflection result that is never used.
- `ast.parse`, `ast.walk` and `ast.unparse`: the summary takes the walked nodes as given and each annotation as its unparsed text. A syntax error in either module's content is not modelled.
- `Naming.Capitalize`: case mapping covers ASCII letters only. Python's `str.capitalize` also maps other scripts, and can change the length of some non-ASCII strings.
- Float values are kept as a tag (`Flt`): nothing reads their value.
- `Summary.ExtractSummary`: the module of `from . import x` is `None` in the source. `sorted()` then raises when it is mixed with strings; the model always has a module name.
- `Summary.Stmt`: async function definitions and nested statements count as other statements. Only direct `def` statements of a class body are methods, as in the source.
- `Schema.GenerateDataclassesFromYaml`: the root name is fixed at its default `RootSchema`, the only value the repository passes.
- `Schema.GenerateDataclassesFromYaml`: the error for a non-mapping document is a single `NotAMapping` value, standing for the attribute error the source raises.
- `Schema.GenerateDataclassesFromYaml`: the output's dependency ordering is stated against the registered dependency dict. That dependencies of a class are themselves registered is not stated.
- Keys are strings. Non-string YAML keys are not modelled: the source prints `str(key)` in a field line and raises an attribute error when such a key names a class. The empty string key is modelled, and `key or default` then takes the default.
- Mappings are sequences of (key, node) pairs. The keys of a Python dict are distinct, but the model does not require this: every property is stated for any sequence of pairs, which covers every dict.
