/** should_save_file: whether a regenerated module differs from the file on
    disk in a way that matters (imports, class names, method names, attribute
    names and type texts). */
module WriteDecision {
  import opened Wrappers
  import opened Summary

  /** The comparison for one class of the existing file: the class is missing
      from the new summary, or its sorted method lists differ, or its
      attribute names differ, or some attribute's type text differs. */
  function ClassDiffers(old_: ClassSummary, new_: Option<ClassSummary>): bool {
    || new_.None?
    || old_.methods != new_.value.methods
    || old_.attributes.Keys != new_.value.attributes.Keys
    || exists a | a in old_.attributes :: old_.attributes[a] != new_.value.attributes[a]
  }

  /** The comparisons of should_save_file after the empty-file test, in its
      order: imports, then class names, then class by class. The lookup of a
      class missing from the new summary is kept although the name test has
      already ruled it out. */
  function Differs(old_: Summary, new_: Summary): bool {
    if old_.imports != new_.imports then true
    else if old_.classes.Keys != new_.classes.Keys then true
    else exists c | c in old_.classes ::
      ClassDiffers(old_.classes[c], if c in new_.classes then Some(new_.classes[c]) else None)
  }

  /** The chain of comparisons decides exactly whether the summaries differ. */
  lemma DiffersIffUnequal(old_: Summary, new_: Summary)
    ensures Differs(old_, new_) <==> old_ != new_
  {
    if !Differs(old_, new_) {
      forall c | c in old_.classes ensures old_.classes[c] == new_.classes[c] {
        var a, b := old_.classes[c], new_.classes[c];
        assert !ClassDiffers(a, Some(b));
        assert a.attributes == b.attributes;
      }
      assert old_.classes == new_.classes;
    }
  }

  /** The comparison is symmetric in the old and the new summary. */
  lemma DiffersSymmetric(a: Summary, b: Summary)
    ensures Differs(a, b) == Differs(b, a)
  {
    DiffersIffUnequal(a, b);
    DiffersIffUnequal(b, a);
  }

  /** should_save_file. `existing` is None when the existing content is empty
      (no file, or an empty one): then the file is always written. Otherwise
      it is written exactly when the two summaries differ. */
  function ShouldSaveFile(existing: Option<seq<WalkNode>>, newNodes: seq<WalkNode>): (save: bool)
    ensures save <==> existing.None? || SummaryOf(existing.value) != SummaryOf(newNodes)
  {
    if existing.None? then true
    else
      DiffersIffUnequal(SummaryOf(existing.value), SummaryOf(newNodes));
      Differs(SummaryOf(existing.value), SummaryOf(newNodes))
  }

  /** Regenerating the same module never rewrites a non-empty file. */
  lemma SameContentNotSaved(nodes: seq<WalkNode>)
    ensures !ShouldSaveFile(Some(nodes), nodes)
  {
  }

  /** Method definitions reordered within a class leave the decision alone. */
  lemma ReorderedMethodsNotSaved(pre: seq<WalkNode>, name: string, b1: seq<Stmt>, b2: seq<Stmt>, post: seq<WalkNode>)
    requires multiset(MethodNames(b1)) == multiset(MethodNames(b2))
    requires Attributes(b1) == Attributes(b2)
    ensures !ShouldSaveFile(Some(pre + [ClassDef(name, b1)] + post), pre + [ClassDef(name, b2)] + post)
  {
    MethodsOrderFree(b1, b2);
    assert SameEffect(ClassDef(name, b1), ClassDef(name, b2));
    ReplaceNode(pre, ClassDef(name, b1), ClassDef(name, b2), post);
  }

  /** Replacing one node by a node of the same effect keeps the summary. */
  lemma ReplaceNode(pre: seq<WalkNode>, x: WalkNode, y: WalkNode, post: seq<WalkNode>)
    requires SameEffect(x, y)
    ensures SummaryOf(pre + [x] + post) == SummaryOf(pre + [y] + post)
  {
    var n1 := pre + [x] + post;
    var n2 := pre + [y] + post;
    forall i | 0 <= i < |n1| ensures SameEffect(n1[i], n2[i]) {
      if i < |pre| {
        assert n1[i] == pre[i] == n2[i];
      } else if i > |pre| {
        assert n1[i] == post[i - |pre| - 1] == n2[i];
      }
    }
    SameEffectSameSummary(n1, n2);
  }

  /** The two nodes affect the summary alike: they import the same modules,
      and both define a class of the same name and summary or neither defines
      a class. */
  ghost predicate SameEffect(a: WalkNode, b: WalkNode) {
    && (forall x :: Imports(a, x) <==> Imports(b, x))
    && a.ClassDef? == b.ClassDef?
    && (a.ClassDef? ==> a.name == b.name && SummarizeClass(a.body) == SummarizeClass(b.body))
  }

  /** Node lists that match node by node in effect have the same summary. */
  lemma SameEffectSameSummary(n1: seq<WalkNode>, n2: seq<WalkNode>)
    requires |n1| == |n2|
    requires forall i :: 0 <= i < |n1| ==> SameEffect(n1[i], n2[i])
    ensures SummaryOf(n1) == SummaryOf(n2)
  {
    forall x ensures ImportedBy(n1, x) <==> ImportedBy(n2, x) {
      if ImportedBy(n1, x) {
        var i :| 0 <= i < |n1| && Imports(n1[i], x);
        assert SameEffect(n1[i], n2[i]);
      }
      if ImportedBy(n2, x) {
        var i :| 0 <= i < |n2| && Imports(n2[i], x);
        assert SameEffect(n1[i], n2[i]);
      }
    }
    ImportsOrderFree(n1, n2);
    SameClassSteps(map[], n1, n2);
  }

  lemma {:induction false} SameClassSteps(acc: map<string, ClassSummary>, n1: seq<WalkNode>, n2: seq<WalkNode>)
    requires |n1| == |n2|
    requires forall i :: 0 <= i < |n1| ==> SameEffect(n1[i], n2[i])
    ensures ClassesFrom(acc, n1) == ClassesFrom(acc, n2)
    decreases |n1|
  {
    if n1 != [] {
      assert SameEffect(n1[0], n2[0]);
      assert ClassStep(acc, n1[0]) == ClassStep(acc, n2[0]);
      SameClassSteps(ClassStep(acc, n1[0]), n1[1..], n2[1..]);
    }
  }

  /** The classes of a module can come out in another order (the sort visits
      set members in iteration order): two adjacent classes of different
      names swapped do not rewrite the file. */
  lemma SwappedClassesNotSaved(pre: seq<WalkNode>, x: WalkNode, y: WalkNode, post: seq<WalkNode>)
    requires x.ClassDef? && y.ClassDef? && x.name != y.name
    ensures !ShouldSaveFile(Some(pre + [x, y] + post), pre + [y, x] + post)
  {
    NodesSwap(pre, x, y, post);
  }

  /** The classes of a module can come out in any order, and so can the
      statements of each class: when each class is defined once, a module
      with the same nodes in another order does not rewrite the file. */
  lemma PermutedNodesNotSaved(n1: seq<WalkNode>, n2: seq<WalkNode>)
    requires multiset(n1) == multiset(n2)
    requires ClassNamesDistinct(n1) && ClassNamesDistinct(n2)
    ensures !ShouldSaveFile(Some(n1), n2)
  {
    NodesPermutation(n1, n2);
  }

  /** A class whose statements come in another order, each name bound once,
      does not rewrite the file. */
  lemma PermutedBodyNotSaved(pre: seq<WalkNode>, name: string, b1: seq<Stmt>, b2: seq<Stmt>, post: seq<WalkNode>)
    requires multiset(b1) == multiset(b2)
    requires BindingsDistinct(b1) && BindingsDistinct(b2)
    ensures !ShouldSaveFile(Some(pre + [ClassDef(name, b1)] + post), pre + [ClassDef(name, b2)] + post)
  {
    BodyPermutation(b1, b2);
    assert SameEffect(ClassDef(name, b1), ClassDef(name, b2));
    ReplaceNode(pre, ClassDef(name, b1), ClassDef(name, b2), post);
  }
}
