/** extract_summary: the structural summary of a generated module, built from
    the nodes of its syntax tree in walk order (the parser and the tree walk
    themselves are not modelled; their output is the input here). */
module Summary {
  import opened StringOrder

  /** The target of an assignment: a plain name, or anything else (an
      attribute, a subscript, a tuple). */
  datatype Target = Name(id: string) | OtherTarget

  /** A statement of a class body. An annotation is kept as the text the
      source's unparser gives for it. */
  datatype Stmt =
    | FunctionDef(name: string)
    | AnnAssign(target: Target, annotation: string)
    | Assign(targets: seq<Target>)
    | OtherStmt

  /** A node met by the tree walk. */
  datatype WalkNode =
    | Import(names: seq<string>)
    | ImportFrom(moduleName: string)
    | ClassDef(name: string, body: seq<Stmt>)
    | OtherNode

  datatype ClassSummary = ClassSummary(methods: seq<string>, attributes: map<string, string>)

  datatype Summary = Summary(imports: seq<string>, classes: map<string, ClassSummary>)

  // ---------------------------------------------------------------------------
  // Class bodies

  /** The statement gives attribute k a type text. */
  predicate Binds(s: Stmt, k: string) {
    match s
    case AnnAssign(t, _) => t == Name(k)
    case Assign(ts) => Name(k) in ts
    case _ => false
  }

  /** The type text a binding statement records: its annotation, or `Any` for
      an unannotated assignment. */
  function BoundText(s: Stmt): string {
    if s.AnnAssign? then s.annotation else "Any"
  }

  /** Each plain-name target of an unannotated assignment is recorded as `Any`,
      left to right. */
  function BindTargets(attrs: map<string, string>, targets: seq<Target>): map<string, string>
    decreases |targets|
  {
    if targets == [] then attrs
    else
      var next := if targets[0].Name? then attrs[targets[0].id := "Any"] else attrs;
      BindTargets(next, targets[1..])
  }

  /** The effect of one body statement on the attribute dict. */
  function Bind(attrs: map<string, string>, s: Stmt): map<string, string> {
    match s
    case AnnAssign(t, ann) => if t.Name? then attrs[t.id := ann] else attrs
    case Assign(ts) => BindTargets(attrs, ts)
    case _ => attrs
  }

  /** The body loop applied to `attrs`, statement by statement. */
  function AttributesFrom(attrs: map<string, string>, body: seq<Stmt>): map<string, string>
    decreases |body|
  {
    if body == [] then attrs else AttributesFrom(Bind(attrs, body[0]), body[1..])
  }

  function Attributes(body: seq<Stmt>): map<string, string> {
    AttributesFrom(map[], body)
  }

  /** The names of the body's function definitions, in body order. */
  function MethodNames(body: seq<Stmt>): seq<string> {
    if body == [] then []
    else
      var last := body[|body| - 1];
      MethodNames(body[..|body| - 1]) + (if last.FunctionDef? then [last.name] else [])
  }

  function SummarizeClass(body: seq<Stmt>): ClassSummary {
    ClassSummary(Sort(MethodNames(body)), Attributes(body))
  }

  // ---------------------------------------------------------------------------
  // Whole modules

  /** The node imports module x. */
  predicate Imports(n: WalkNode, x: string) {
    match n
    case Import(names) => x in names
    case ImportFrom(m) => m == x
    case _ => false
  }

  /** Some node of the module imports x. */
  predicate ImportedBy(nodes: seq<WalkNode>, x: string) {
    exists i :: 0 <= i < |nodes| && Imports(nodes[i], x)
  }

  function ImportsFrom(acc: set<string>, nodes: seq<WalkNode>): set<string>
    decreases |nodes|
  {
    if nodes == [] then acc
    else
      var next := match nodes[0]
        case Import(names) => acc + set k | 0 <= k < |names| :: names[k]
        case ImportFrom(m) => acc + {m}
        case _ => acc;
      ImportsFrom(next, nodes[1..])
  }

  /** The effect of one node on the class dict: a class definition is
      summarised under its name, replacing an earlier class of that name. */
  function ClassStep(classes: map<string, ClassSummary>, n: WalkNode): map<string, ClassSummary> {
    if n.ClassDef? then classes[n.name := SummarizeClass(n.body)] else classes
  }

  function ClassesFrom(acc: map<string, ClassSummary>, nodes: seq<WalkNode>): map<string, ClassSummary>
    decreases |nodes|
  {
    if nodes == [] then acc else ClassesFrom(ClassStep(acc, nodes[0]), nodes[1..])
  }

  /** The summary of a module: its imported modules, sorted and each once, and
      one summary per class name. */
  function SummaryOf(nodes: seq<WalkNode>): Summary {
    Summary(SortSet(ImportsFrom({}, nodes)), ClassesFrom(map[], nodes))
  }

  /** extract_summary: one pass over the walked nodes, collecting import names
      into a set and class summaries into a dict. */
  method ExtractSummary(nodes: seq<WalkNode>) returns (summary: Summary)
    ensures summary == SummaryOf(nodes)
  {
    var classes: map<string, ClassSummary> := map[];
    var imports: set<string> := {};
    for i := 0 to |nodes|
      invariant ImportsFrom({}, nodes) == ImportsFrom(imports, nodes[i..])
      invariant ClassesFrom(map[], nodes) == ClassesFrom(classes, nodes[i..])
    {
      assert nodes[i..] == [nodes[i]] + nodes[i + 1..];
      match nodes[i] {
        case Import(names) =>
          ghost var before := imports;
          for j := 0 to |names|
            invariant imports == before + set k | 0 <= k < j :: names[k]
          {
            imports := imports + {names[j]};
          }
        case ImportFrom(m) =>
          imports := imports + {m};
        case ClassDef(name, body) =>
          var summary := SummarizeClassBody(body);
          classes := classes[name := summary];
        case OtherNode =>
      }
    }
    summary := Summary(SortSet(imports), classes);
  }

  /** The class-body part of extract_summary: method names are collected in
      body order and sorted, and the attribute dict is filled statement by
      statement. */
  method SummarizeClassBody(body: seq<Stmt>) returns (summary: ClassSummary)
    ensures summary == SummarizeClass(body)
  {
    var methodNames: seq<string> := [];
    var attributes: map<string, string> := map[];
    for j := 0 to |body|
      invariant methodNames == MethodNames(body[..j])
      invariant Attributes(body) == AttributesFrom(attributes, body[j..])
    {
      assert body[j..] == [body[j]] + body[j + 1..];
      assert body[..j + 1][..j] == body[..j];
      match body[j] {
        case FunctionDef(name) =>
          methodNames := methodNames + [name];
        case AnnAssign(target, annotation) =>
          if target.Name? {
            attributes := attributes[target.id := annotation];
          }
        case Assign(targets) =>
          ghost var before := attributes;
          for k := 0 to |targets|
            invariant BindTargets(before, targets) == BindTargets(attributes, targets[k..])
          {
            assert targets[k..][1..] == targets[k + 1..];
            if targets[k].Name? {
              attributes := attributes[targets[k].id := "Any"];
            }
          }
        case OtherStmt =>
      }
    }
    assert body[..|body|] == body;
    summary := ClassSummary(Sort(methodNames), attributes);
  }

  // ---------------------------------------------------------------------------
  // Properties of the attribute dict

  /** Assignments record `Any` for their plain-name targets and leave every
      other name as it was. */
  lemma {:induction false} BindTargetsEffect(attrs: map<string, string>, targets: seq<Target>, k: string)
    ensures Name(k) in targets ==> k in BindTargets(attrs, targets) && BindTargets(attrs, targets)[k] == "Any"
    ensures Name(k) !in targets ==>
              (k in BindTargets(attrs, targets) <==> k in attrs)
              && (k in attrs ==> BindTargets(attrs, targets)[k] == attrs[k])
    decreases |targets|
  {
    if targets != [] {
      var next := if targets[0].Name? then attrs[targets[0].id := "Any"] else attrs;
      BindTargetsEffect(next, targets[1..], k);
      assert targets == [targets[0]] + targets[1..];
    }
  }

  /** A binding statement sets its name to its type text; any other statement
      leaves the name alone. */
  lemma BindEffect(attrs: map<string, string>, s: Stmt, k: string)
    ensures Binds(s, k) ==> k in Bind(attrs, s) && Bind(attrs, s)[k] == BoundText(s)
    ensures !Binds(s, k) ==>
              (k in Bind(attrs, s) <==> k in attrs)
              && (k in attrs ==> Bind(attrs, s)[k] == attrs[k])
  {
    if s.Assign? {
      BindTargetsEffect(attrs, s.targets, k);
    }
  }

  /** Statements that do not bind k leave its entry as it was. */
  lemma {:induction false} UnboundKept(attrs: map<string, string>, body: seq<Stmt>, k: string)
    requires forall i :: 0 <= i < |body| ==> !Binds(body[i], k)
    ensures k in AttributesFrom(attrs, body) <==> k in attrs
    ensures k in attrs ==> AttributesFrom(attrs, body)[k] == attrs[k]
    decreases |body|
  {
    if body != [] {
      BindEffect(attrs, body[0], k);
      UnboundKept(Bind(attrs, body[0]), body[1..], k);
    }
  }

  /** The attribute dict after the first j statements feeds the rest. */
  lemma {:induction false} AttributesFromSplit(attrs: map<string, string>, body: seq<Stmt>, j: nat)
    requires j <= |body|
    ensures AttributesFrom(attrs, body) == AttributesFrom(AttributesFrom(attrs, body[..j]), body[j..])
    decreases |body|
  {
    if j > 0 {
      assert body[..j][1..] == body[1..][..j - 1];
      assert body[j..] == body[1..][j - 1..];
      AttributesFromSplit(Bind(attrs, body[0]), body[1..], j - 1);
    }
  }

  /** A class attribute is recorded exactly when some statement of the body
      binds its name. */
  lemma AttributesExactly(body: seq<Stmt>, k: string)
    ensures k in Attributes(body) <==> exists i :: 0 <= i < |body| && Binds(body[i], k)
  {
    if exists i :: 0 <= i < |body| && Binds(body[i], k) {
      var j :| 0 <= j < |body| && Binds(body[j], k) && forall i :: j < i < |body| ==> !Binds(body[i], k) by {
        LastBinding(body, k);
      }
      LastBindingWins(body, j, k);
    } else {
      UnboundKept(map[], body, k);
    }
  }

  lemma {:induction false} LastBinding(body: seq<Stmt>, k: string)
    requires exists i :: 0 <= i < |body| && Binds(body[i], k)
    ensures exists j :: 0 <= j < |body| && Binds(body[j], k) && forall i :: j < i < |body| ==> !Binds(body[i], k)
  {
    var last := body[|body| - 1];
    if Binds(last, k) {
      assert Binds(body[|body| - 1], k);
    } else {
      var front := body[..|body| - 1];
      var i0 :| 0 <= i0 < |body| && Binds(body[i0], k);
      assert Binds(front[i0], k);
      LastBinding(front, k);
      var j :| 0 <= j < |front| && Binds(front[j], k) && forall i :: j < i < |front| ==> !Binds(front[i], k);
      assert forall i :: j < i < |body| ==> !Binds(body[i], k) by {
        forall i | j < i < |body| ensures !Binds(body[i], k) {
          if i < |front| {
            assert front[i] == body[i];
          }
        }
      }
      assert Binds(body[j], k);
    }
  }

  /** The last statement binding a name decides its type text (a later
      binding overwrites an earlier one): the annotation, or `Any`. */
  lemma LastBindingWins(body: seq<Stmt>, j: nat, k: string)
    requires j < |body| && Binds(body[j], k)
    requires forall i :: j < i < |body| ==> !Binds(body[i], k)
    ensures k in Attributes(body) && Attributes(body)[k] == BoundText(body[j])
  {
    AttributesFromSplit(map[], body, j + 1);
    AttributesFromSplit(map[], body[..j + 1], j);
    assert body[..j + 1][..j] == body[..j];
    assert body[..j + 1][j..] == [body[j]];
    var before := AttributesFrom(map[], body[..j]);
    BindEffect(before, body[j], k);
    assert AttributesFrom(map[], body[..j + 1]) == Bind(before, body[j]);
    UnboundKept(Bind(before, body[j]), body[j + 1..], k);
  }

  /** Two statements binding different names can be swapped without changing
      the attribute dict: only the names and their texts matter, not the order
      of the fields. */
  lemma AttributesSwap(attrs: map<string, string>, s1: Stmt, s2: Stmt, rest: seq<Stmt>)
    requires forall k :: !(Binds(s1, k) && Binds(s2, k))
    ensures AttributesFrom(attrs, [s1, s2] + rest) == AttributesFrom(attrs, [s2, s1] + rest)
  {
    var a := Bind(Bind(attrs, s1), s2);
    var b := Bind(Bind(attrs, s2), s1);
    forall k ensures (k in a <==> k in b) && (k in a ==> a[k] == b[k]) {
      BindEffect(attrs, s1, k);
      BindEffect(attrs, s2, k);
      BindEffect(Bind(attrs, s1), s2, k);
      BindEffect(Bind(attrs, s2), s1, k);
    }
    assert a == b;
    assert ([s1, s2] + rest)[1..][1..] == rest;
    assert ([s2, s1] + rest)[1..][1..] == rest;
  }

  /** No name is bound by two statements of the body (the generated classes
      declare each field once). */
  ghost predicate BindingsDistinct(body: seq<Stmt>) {
    forall i, j, k :: 0 <= i < j < |body| && Binds(body[i], k) ==> !Binds(body[j], k)
  }

  /** The statements of a body that binds each name once can come in any
      order: the attribute dict is the same. */
  lemma AttributesPermutation(b1: seq<Stmt>, b2: seq<Stmt>)
    requires multiset(b1) == multiset(b2)
    requires BindingsDistinct(b1) && BindingsDistinct(b2)
    ensures Attributes(b1) == Attributes(b2)
  {
    forall k ensures (k in Attributes(b1) <==> k in Attributes(b2))
                  && (k in Attributes(b1) ==> Attributes(b1)[k] == Attributes(b2)[k]) {
      AttributesExactly(b1, k);
      AttributesExactly(b2, k);
      if i :| 0 <= i < |b1| && Binds(b1[i], k) {
        assert b1[i] in multiset(b2);
        var j :| 0 <= j < |b2| && b2[j] == b1[i];
        LastBindingWins(b1, i, k);
        LastBindingWins(b2, j, k);
      } else {
        forall j | 0 <= j < |b2| ensures !Binds(b2[j], k) {
          assert b2[j] in multiset(b1);
        }
      }
    }
  }

  /** Each method name occurs in the list as often as the body defines it. */
  lemma {:induction false} MethodNamesCount(body: seq<Stmt>, x: string)
    ensures multiset(MethodNames(body))[x] == multiset(body)[FunctionDef(x)]
    decreases |body|
  {
    if body != [] {
      var front := body[..|body| - 1];
      assert body == front + [body[|body| - 1]];
      MethodNamesCount(front, x);
    }
  }

  /** A class body whose statements are reordered, each name still bound
      once, gives the same class summary: the same sorted methods and the
      same attributes. */
  lemma BodyPermutation(b1: seq<Stmt>, b2: seq<Stmt>)
    requires multiset(b1) == multiset(b2)
    requires BindingsDistinct(b1) && BindingsDistinct(b2)
    ensures SummarizeClass(b1) == SummarizeClass(b2)
  {
    forall x ensures multiset(MethodNames(b1))[x] == multiset(MethodNames(b2))[x] {
      MethodNamesCount(b1, x);
      MethodNamesCount(b2, x);
    }
    assert multiset(MethodNames(b1)) == multiset(MethodNames(b2));
    MethodsOrderFree(b1, b2);
    AttributesPermutation(b1, b2);
  }

  // ---------------------------------------------------------------------------
  // Properties of the method list

  /** The summarised method list is sorted and holds exactly the names of
      the body's function definitions, each as often as it is defined. */
  lemma MethodsSummary(body: seq<Stmt>, x: string)
    ensures Sorted(SummarizeClass(body).methods)
    ensures multiset(SummarizeClass(body).methods) == multiset(MethodNames(body))
    ensures x in SummarizeClass(body).methods <==> exists i :: 0 <= i < |body| && body[i] == FunctionDef(x)
  {
    MethodNamesMembers(body, x);
    assert x in SummarizeClass(body).methods <==> x in multiset(MethodNames(body));
  }

  lemma {:induction false} MethodNamesMembers(body: seq<Stmt>, x: string)
    ensures x in MethodNames(body) <==> exists i :: 0 <= i < |body| && body[i] == FunctionDef(x)
  {
    if body != [] {
      var front := body[..|body| - 1];
      MethodNamesMembers(front, x);
      if exists i :: 0 <= i < |front| && front[i] == FunctionDef(x) {
        var i :| 0 <= i < |front| && front[i] == FunctionDef(x);
        assert body[i] == FunctionDef(x);
      }
      if exists i :: 0 <= i < |body| && body[i] == FunctionDef(x) {
        var i :| 0 <= i < |body| && body[i] == FunctionDef(x);
        if i < |front| {
          assert front[i] == FunctionDef(x);
        }
      }
    }
  }

  /** Reordering the method definitions of a class does not change its
      summary's method list. */
  lemma MethodsOrderFree(b1: seq<Stmt>, b2: seq<Stmt>)
    requires multiset(MethodNames(b1)) == multiset(MethodNames(b2))
    ensures SummarizeClass(b1).methods == SummarizeClass(b2).methods
  {
    SortOrderFree(MethodNames(b1), MethodNames(b2));
  }

  // ---------------------------------------------------------------------------
  // Properties of the import list

  lemma {:induction false} ImportsFromExactly(acc: set<string>, nodes: seq<WalkNode>, x: string)
    ensures x in ImportsFrom(acc, nodes) <==> x in acc || ImportedBy(nodes, x)
    decreases |nodes|
  {
    if nodes != [] {
      var next := match nodes[0]
        case Import(names) => acc + set k | 0 <= k < |names| :: names[k]
        case ImportFrom(m) => acc + {m}
        case _ => acc;
      ImportsFromExactly(next, nodes[1..], x);
      assert x in next <==> x in acc || Imports(nodes[0], x) by {
        if nodes[0].Import? && x in nodes[0].names {
          var k :| 0 <= k < |nodes[0].names| && nodes[0].names[k] == x;
        }
      }
      if exists i :: 0 <= i < |nodes[1..]| && Imports(nodes[1..][i], x) {
        var i :| 0 <= i < |nodes[1..]| && Imports(nodes[1..][i], x);
        assert Imports(nodes[i + 1], x);
      }
      if exists i :: 0 <= i < |nodes| && Imports(nodes[i], x) {
        var i :| 0 <= i < |nodes| && Imports(nodes[i], x);
        if i > 0 {
          assert Imports(nodes[1..][i - 1], x);
        }
      }
    }
  }

  /** The import list is sorted, names each module once, and holds exactly the
      modules some import statement names. */
  lemma ImportsSummary(nodes: seq<WalkNode>, x: string)
    ensures StrictlySorted(SummaryOf(nodes).imports)
    ensures x in SummaryOf(nodes).imports <==> ImportedBy(nodes, x)
  {
    ImportsFromExactly({}, nodes, x);
  }

  /** Two modules importing the same set of names, in whatever order and
      however often, have the same import list. */
  lemma ImportsOrderFree(n1: seq<WalkNode>, n2: seq<WalkNode>)
    requires forall x :: ImportedBy(n1, x) <==> ImportedBy(n2, x)
    ensures SummaryOf(n1).imports == SummaryOf(n2).imports
  {
    forall x ensures x in ImportsFrom({}, n1) <==> x in ImportsFrom({}, n2) {
      ImportsFromExactly({}, n1, x);
      ImportsFromExactly({}, n2, x);
    }
    assert ImportsFrom({}, n1) == ImportsFrom({}, n2);
  }

  // ---------------------------------------------------------------------------
  // Properties of the class dict

  /** The node defines a class named c. */
  predicate Defines(n: WalkNode, c: string) {
    n.ClassDef? && n.name == c
  }

  lemma {:induction false} ClassesUndefinedKept(acc: map<string, ClassSummary>, nodes: seq<WalkNode>, c: string)
    requires forall i :: 0 <= i < |nodes| ==> !Defines(nodes[i], c)
    ensures c in ClassesFrom(acc, nodes) <==> c in acc
    ensures c in acc ==> ClassesFrom(acc, nodes)[c] == acc[c]
    decreases |nodes|
  {
    if nodes != [] {
      ClassesUndefinedKept(ClassStep(acc, nodes[0]), nodes[1..], c);
    }
  }

  lemma {:induction false} ClassesFromSplit(acc: map<string, ClassSummary>, nodes: seq<WalkNode>, j: nat)
    requires j <= |nodes|
    ensures ClassesFrom(acc, nodes) == ClassesFrom(ClassesFrom(acc, nodes[..j]), nodes[j..])
    decreases |nodes|
  {
    if j > 0 {
      assert nodes[..j][1..] == nodes[1..][..j - 1];
      assert nodes[j..] == nodes[1..][j - 1..];
      ClassesFromSplit(ClassStep(acc, nodes[0]), nodes[1..], j - 1);
    }
  }

  /** A class name maps to the summary of the last class defined under that
      name; names no class statement defines are absent. */
  lemma LastClassWins(nodes: seq<WalkNode>, j: nat, c: string)
    requires j < |nodes| && Defines(nodes[j], c)
    requires forall i :: j < i < |nodes| ==> !Defines(nodes[i], c)
    ensures c in SummaryOf(nodes).classes
    ensures SummaryOf(nodes).classes[c] == SummarizeClass(nodes[j].body)
  {
    ClassesFromSplit(map[], nodes, j + 1);
    ClassesFromSplit(map[], nodes[..j + 1], j);
    assert nodes[..j + 1][..j] == nodes[..j];
    assert nodes[..j + 1][j..] == [nodes[j]];
    var before := ClassesFrom(map[], nodes[..j]);
    assert ClassesFrom(map[], nodes[..j + 1]) == ClassStep(before, nodes[j]);
    ClassesUndefinedKept(ClassStep(before, nodes[j]), nodes[j + 1..], c);
  }

  lemma NoClassNoEntry(nodes: seq<WalkNode>, c: string)
    requires forall i :: 0 <= i < |nodes| ==> !Defines(nodes[i], c)
    ensures c !in SummaryOf(nodes).classes
  {
    ClassesUndefinedKept(map[], nodes, c);
  }

  // ---------------------------------------------------------------------------
  // Order of the walked nodes

  /** Two adjacent nodes can change places without changing the summary,
      unless both define a class of the same name: the import list is
      sorted, and classes of different names land under different keys. */
  lemma NodesSwap(pre: seq<WalkNode>, x: WalkNode, y: WalkNode, post: seq<WalkNode>)
    requires !(x.ClassDef? && y.ClassDef? && x.name == y.name)
    ensures SummaryOf(pre + [x, y] + post) == SummaryOf(pre + [y, x] + post)
  {
    var n1 := pre + [x, y] + post;
    var n2 := pre + [y, x] + post;
    forall z ensures ImportedBy(n1, z) <==> ImportedBy(n2, z) {
      if ImportedBy(n1, z) {
        SwappedImports(pre, x, y, post, z);
      }
      if ImportedBy(n2, z) {
        SwappedImports(pre, y, x, post, z);
      }
    }
    ImportsOrderFree(n1, n2);
    SwappedClasses(pre, x, y, post);
  }

  /** No two nodes define a class of the same name (the generated module
      defines each class once). */
  ghost predicate ClassNamesDistinct(nodes: seq<WalkNode>) {
    forall i, j :: 0 <= i < j < |nodes| && nodes[i].ClassDef? && nodes[j].ClassDef?
      ==> nodes[i].name != nodes[j].name
  }

  /** The nodes of a module that defines each class once can come in any
      order: the summary is the same. */
  lemma NodesPermutation(n1: seq<WalkNode>, n2: seq<WalkNode>)
    requires multiset(n1) == multiset(n2)
    requires ClassNamesDistinct(n1) && ClassNamesDistinct(n2)
    ensures SummaryOf(n1) == SummaryOf(n2)
  {
    forall z ensures ImportedBy(n1, z) <==> ImportedBy(n2, z) {
      if ImportedBy(n1, z) {
        var i :| 0 <= i < |n1| && Imports(n1[i], z);
        assert n1[i] in multiset(n2);
        var j :| 0 <= j < |n2| && n2[j] == n1[i];
      }
      if ImportedBy(n2, z) {
        var j :| 0 <= j < |n2| && Imports(n2[j], z);
        assert n2[j] in multiset(n1);
        var i :| 0 <= i < |n1| && n1[i] == n2[j];
      }
    }
    ImportsOrderFree(n1, n2);
    var c1, c2 := SummaryOf(n1).classes, SummaryOf(n2).classes;
    forall c ensures (c in c1 <==> c in c2) && (c in c1 ==> c1[c] == c2[c]) {
      if i :| 0 <= i < |n1| && Defines(n1[i], c) {
        assert n1[i] in multiset(n2);
        var j :| 0 <= j < |n2| && n2[j] == n1[i];
        LastClassWins(n1, i, c);
        LastClassWins(n2, j, c);
      } else {
        forall j | 0 <= j < |n2| ensures !Defines(n2[j], c) {
          assert n2[j] in multiset(n1);
        }
        NoClassNoEntry(n1, c);
        NoClassNoEntry(n2, c);
      }
    }
    assert c1 == c2;
  }

  lemma SwappedImports(pre: seq<WalkNode>, x: WalkNode, y: WalkNode, post: seq<WalkNode>, z: string)
    requires ImportedBy(pre + [x, y] + post, z)
    ensures ImportedBy(pre + [y, x] + post, z)
  {
    var n1 := pre + [x, y] + post;
    var n2 := pre + [y, x] + post;
    var i :| 0 <= i < |n1| && Imports(n1[i], z);
    var k := if i == |pre| then i + 1 else if i == |pre| + 1 then i - 1 else i;
    assert n2[k] == n1[i];
  }

  lemma SwappedClasses(pre: seq<WalkNode>, x: WalkNode, y: WalkNode, post: seq<WalkNode>)
    requires !(x.ClassDef? && y.ClassDef? && x.name == y.name)
    ensures ClassesFrom(map[], pre + [x, y] + post) == ClassesFrom(map[], pre + [y, x] + post)
  {
    var acc := ClassesFrom(map[], pre);
    assert pre + [x, y] + post == pre + ([x, y] + post);
    assert pre + [y, x] + post == pre + ([y, x] + post);
    ClassesAfterPrefix(pre, [x, y] + post);
    ClassesAfterPrefix(pre, [y, x] + post);
    ClassesTwoSteps(acc, x, y, post);
    ClassesTwoSteps(acc, y, x, post);
    ClassStepsCommute(acc, x, y);
  }

  lemma ClassesAfterPrefix(pre: seq<WalkNode>, rest: seq<WalkNode>)
    ensures ClassesFrom(map[], pre + rest) == ClassesFrom(ClassesFrom(map[], pre), rest)
  {
    ClassesFromSplit(map[], pre + rest, |pre|);
    assert (pre + rest)[..|pre|] == pre && (pre + rest)[|pre|..] == rest;
  }

  lemma ClassesTwoSteps(acc: map<string, ClassSummary>, x: WalkNode, y: WalkNode, post: seq<WalkNode>)
    ensures ClassesFrom(acc, [x, y] + post) == ClassesFrom(ClassStep(ClassStep(acc, x), y), post)
  {
    assert ([x, y] + post)[1..] == [y] + post;
    assert ([y] + post)[1..] == post;
  }

  lemma ClassStepsCommute(acc: map<string, ClassSummary>, x: WalkNode, y: WalkNode)
    requires !(x.ClassDef? && y.ClassDef? && x.name == y.name)
    ensures ClassStep(ClassStep(acc, x), y) == ClassStep(ClassStep(acc, y), x)
  {
  }
}
