/** Syntax trees as directed graphs whose node IDs are strings: production rules, the
    complete-production test, Collins and Duffy's tree fragments, and the proper co-rooted
    subtrees of Shawe-Taylor and Cristianini. */
module Trees {
  import opened Exceptions
  import opened Graphs

  type Tree = Digraph<string>

  // ---------------------------------------------------------------------------------------
  // Python's ordering of strings, and `sorted`
  // ---------------------------------------------------------------------------------------

  /** `a < b` on Python strings: code point by code point, a proper prefix first. */
  predicate StrLess(a: string, b: string)
    decreases |a|
  {
    if a == [] then b != []
    else if b == [] then false
    else if a[0] != b[0] then a[0] < b[0]
    else StrLess(a[1..], b[1..])
  }

  lemma {:induction false} StrLessIrreflexive(a: string)
    ensures !StrLess(a, a)
    decreases |a|
  {
    if a != [] {
      StrLessIrreflexive(a[1..]);
    }
  }

  lemma {:induction false} StrLessTotal(a: string, b: string)
    ensures a == b || StrLess(a, b) || StrLess(b, a)
    decreases |a|
  {
    if a != [] && b != [] && a[0] == b[0] {
      StrLessTotal(a[1..], b[1..]);
      if a[1..] == b[1..] {
        assert a == [a[0]] + a[1..] && b == [b[0]] + b[1..];
      }
    }
  }

  lemma {:induction false} StrLessTransitive(a: string, b: string, c: string)
    ensures StrLess(a, b) && StrLess(b, c) ==> StrLess(a, c)
    decreases |a|
  {
    if a != [] && b != [] && c != [] && a[0] == b[0] && b[0] == c[0] {
      StrLessTransitive(a[1..], b[1..], c[1..]);
    }
  }

  predicate SortedStr(xs: seq<string>) {
    forall i, j :: 0 <= i < j < |xs| ==> !StrLess(xs[j], xs[i])
  }

  /** Inserts `x` into a sorted list after the elements not greater than it. */
  function InsertStr(x: string, xs: seq<string>): (r: seq<string>)
    requires SortedStr(xs)
    ensures SortedStr(r) && multiset(r) == multiset(xs) + multiset{x}
  {
    if xs == [] then [x]
    else if StrLess(x, xs[0]) then
      InsertBeforeHead(x, xs);
      [x] + xs
    else
      var rest := InsertStr(x, xs[1..]);
      InsertAfterHead(x, xs, rest);
      [xs[0]] + rest
  }

  lemma InsertBeforeHead(x: string, xs: seq<string>)
    requires SortedStr(xs) && xs != [] && StrLess(x, xs[0])
    ensures SortedStr([x] + xs)
  {
    forall j | 0 <= j < |xs| ensures !StrLess(xs[j], x) {
      StrLessTransitive(xs[j], x, xs[0]);
      StrLessIrreflexive(xs[0]);
    }
    forall i, j | 0 <= i < j < |[x] + xs| ensures !StrLess(([x] + xs)[j], ([x] + xs)[i]) {
      assert ([x] + xs)[j] == xs[j - 1];
      if i > 0 {
        assert ([x] + xs)[i] == xs[i - 1];
      }
    }
  }

  lemma InsertAfterHead(x: string, xs: seq<string>, rest: seq<string>)
    requires SortedStr(xs) && xs != [] && !StrLess(x, xs[0])
    requires SortedStr(rest) && multiset(rest) == multiset(xs[1..]) + multiset{x}
    ensures SortedStr([xs[0]] + rest) && multiset([xs[0]] + rest) == multiset(xs) + multiset{x}
  {
    forall j | 0 <= j < |rest| ensures !StrLess(rest[j], xs[0]) {
      assert rest[j] in multiset(rest);
      if rest[j] != x {
        assert rest[j] in xs[1..];
        var k :| 0 <= k < |xs[1..]| && xs[1..][k] == rest[j];
        assert xs[k + 1] == rest[j];
      }
    }
    forall i, j | 0 <= i < j < |[xs[0]] + rest| ensures !StrLess(([xs[0]] + rest)[j], ([xs[0]] + rest)[i]) {
      assert ([xs[0]] + rest)[j] == rest[j - 1];
      if i > 0 {
        assert ([xs[0]] + rest)[i] == rest[i - 1];
      }
    }
    assert xs == [xs[0]] + xs[1..];
  }

  /** Python's `sorted` on a list of strings. */
  function SortStrings(xs: seq<string>): (r: seq<string>)
    ensures SortedStr(r) && multiset(r) == multiset(xs)
  {
    if xs == [] then []
    else
      assert xs == [xs[0]] + xs[1..];
      InsertStr(xs[0], SortStrings(xs[1..]))
  }

  /** A sorted list is determined by its elements. */
  lemma {:induction false} SortedUnique(a: seq<string>, b: seq<string>)
    requires SortedStr(a) && SortedStr(b) && multiset(a) == multiset(b)
    ensures a == b
    decreases |a|
  {
    if a != [] {
      SortedHeads(a, b);
      assert a == [a[0]] + a[1..] && b == [b[0]] + b[1..];
      assert multiset(a[1..]) == multiset(a) - multiset{a[0]};
      assert multiset(b[1..]) == multiset(b) - multiset{b[0]};
      SortedUnique(a[1..], b[1..]);
    }
  }

  /** Two sorted lists with the same elements start with the same element. */
  lemma SortedHeads(a: seq<string>, b: seq<string>)
    requires SortedStr(a) && SortedStr(b) && multiset(a) == multiset(b) && a != []
    ensures b != [] && a[0] == b[0]
  {
    assert a[0] in multiset(b) && b[0] in multiset(a);
    assert b != [];
    var i :| 0 <= i < |b| && b[i] == a[0];
    var j :| 0 <= j < |a| && a[j] == b[0];
    StrLessIrreflexive(a[0]);
    StrLessIrreflexive(b[0]);
    assert !StrLess(a[0], b[0]) && !StrLess(b[0], a[0]);
    StrLessTotal(a[0], b[0]);
  }

  /** A list of distinct elements holds each element once. */
  lemma {:induction false} DistinctMultiset<T>(xs: seq<T>)
    requires Distinct(xs)
    ensures multiset(xs) == multiset(set x | x in xs)
    decreases |xs|
  {
    if xs != [] {
      forall i | 0 <= i < |xs| - 1 ensures xs[1..][i] != xs[0] {
        assert xs[1..][i] == xs[i + 1];
      }
      DistinctMultiset(xs[1..]);
      assert xs == [xs[0]] + xs[1..];
      assert (set x | x in xs) == (set x | x in xs[1..]) + {xs[0]};
    }
  }

  /** Sorting two lists of distinct strings with the same members gives the same list. */
  lemma SortSameMembers(a: seq<string>, b: seq<string>)
    requires Distinct(a) && Distinct(b) && forall x :: x in a <==> x in b
    ensures SortStrings(a) == SortStrings(b)
  {
    DistinctMultiset(a);
    DistinctMultiset(b);
    assert (set x | x in a) == (set x | x in b);
    SortedUnique(SortStrings(a), SortStrings(b));
  }

  // ---------------------------------------------------------------------------------------
  // Production rules (get_production_rules)
  // ---------------------------------------------------------------------------------------

  /** A production rule `lhs -> rhs`, e.g. ('S', ('NP', 'VP')). */
  datatype Rule = Rule(lhs: string, rhs: seq<string>)

  /** What a rule shows for node `n`: its ID when no attribute is named (`attrib` is empty,
      standing for None), otherwise the value of that attribute, whose absence is a KeyError. */
  function Label(g: Tree, n: string, attrib: string): (r: Result<string>)
    ensures attrib == "" ==> r == Ok(n)
    ensures attrib != "" ==> (r.Ok? <==> n in g.attrs && attrib in g.attrs[n])
    ensures r.Ok? && attrib != "" ==> r.value == g.attrs[n][attrib]
    ensures r.Raise? ==> r.exc == KeyError
  {
    if attrib == "" then Ok(n)
    else if n in g.attrs && attrib in g.attrs[n] then Ok(g.attrs[n][attrib])
    else Raise(KeyError)
  }

  /** The labels of `ns`, in order; a KeyError when one of them has none. */
  function Labels(g: Tree, ns: seq<string>, attrib: string): (r: Result<seq<string>>)
    ensures r.Ok? <==> forall n :: n in ns ==> Label(g, n, attrib).Ok?
    ensures r.Ok? ==> |r.value| == |ns| && forall i :: 0 <= i < |ns| ==> Label(g, ns[i], attrib) == Ok(r.value[i])
    ensures r.Raise? ==> r.exc == KeyError
    ensures attrib == "" ==> r == Ok(ns)
  {
    if ns == [] then Ok([])
    else
      var l :- Label(g, ns[0], attrib);
      var ls :- Labels(g, ns[1..], attrib);
      assert forall n :: n in ns ==> n == ns[0] || n in ns[1..];
      assert attrib == "" ==> [l] + ls == ns by {
        if attrib == "" {
          assert ns == [ns[0]] + ns[1..];
        }
      }
      Ok([l] + ls)
  }

  /** The rule of node `n`: its label, and the labels of its successors sorted by node ID. */
  function RuleOf(g: Tree, n: string, attrib: string): (r: Result<Rule>)
    requires n in g.succ
    ensures attrib == "" ==> r == Ok(Rule(n, SortStrings(g.succ[n])))
    ensures r.Ok? <==> Label(g, n, attrib).Ok? && forall m :: m in g.succ[n] ==> Label(g, m, attrib).Ok?
    ensures r.Raise? ==> r.exc == KeyError
  {
    var lhs :- Label(g, n, attrib);
    var sorted := SortStrings(g.succ[n]);
    assert forall m :: m in sorted <==> m in g.succ[n] by {
      forall m ensures m in sorted <==> m in g.succ[n] {
        assert m in sorted <==> m in multiset(sorted);
      }
    }
    var rhs :- Labels(g, sorted, attrib);
    Ok(Rule(lhs, rhs))
  }

  /** The rules of the sources of the edges `es`, added one edge at a time; the first
      missing attribute stops the loop with a KeyError. */
  function RulesOf(g: Tree, es: seq<(string, string)>, attrib: string): (r: Result<set<Rule>>)
    requires forall e :: e in es ==> e.0 in g.succ
    ensures r.Ok? <==> forall e :: e in es ==> RuleOf(g, e.0, attrib).Ok?
    ensures r.Ok? ==> forall e :: e in es ==> RuleOf(g, e.0, attrib).value in r.value
    ensures r.Ok? ==> forall rule :: rule in r.value ==> exists e :: e in es && RuleOf(g, e.0, attrib) == Ok(rule)
    ensures r.Raise? ==> r.exc == KeyError
  {
    if es == [] then Ok({})
    else
      var init := es[..|es| - 1];
      var last := es[|es| - 1];
      assert forall e :: e in es <==> e in init || e == last;
      var rules :- RulesOf(g, init, attrib);
      var rule :- RuleOf(g, last.0, attrib);
      Ok(rules + {rule})
  }

  /** `if not root_node: root_node = topological_sort(g)[0]`: the empty string is falsy too. */
  function RootOf(g: Tree, root: Option<string>): (r: Result<string>)
    requires Wf(g)
    ensures r.Ok? ==> r.value in g.succ
    ensures root.Some? && root.value != "" ==> r == if root.value in g.succ then Ok(root.value) else Raise(KeyError)
    ensures root.None? || root == Some("") ==> r == TopologicalFirst(g)
  {
    ResolveRoot(g, if root == Some("") then None else root)
  }

  /** `get_production_rules(g, root_node, node_attrib)`: the rules of the sources of the
      depth-first edges from the root. */
  function ProductionRules(g: Tree, root: Option<string>, attrib: string): Result<set<Rule>>
    requires Wf(g)
  {
    var start :- RootOf(g, root);
    RulesOf(g, DfsEdges(g, start), attrib)
  }

  method GetProductionRules(g: Tree, root: Option<string>, attrib: string) returns (rules: Result<set<Rule>>)
    requires Wf(g)
    ensures rules == ProductionRules(g, root, attrib)
  {
    var rootNode: string;
    if root.None? || root == Some("") {
      var first := TopologicalFirst(g);
      if first.Raise? {
        return Raise(first.exc);
      }
      rootNode := first.value;
    } else {
      rootNode := root.value;
      if rootNode !in g.succ {
        return Raise(KeyError);
      }
    }
    rules := CollectRules(g, DfsEdges(g, rootNode), attrib);
  }

  /** The loop of `get_production_rules` over the depth-first edges, with its two branches. */
  method CollectRules(g: Tree, edges: seq<(string, string)>, attrib: string) returns (rules: Result<set<Rule>>)
    requires forall e :: e in edges ==> e.0 in g.succ
    ensures rules == RulesOf(g, edges, attrib)
  {
    var found: set<Rule> := {};
    if attrib != "" {
      for i := 0 to |edges|
        invariant RulesOf(g, edges[..i], attrib) == Ok(found)
      {
        assert edges[..i + 1][..i] == edges[..i];
        var rule := RuleOf(g, edges[i].0, attrib);
        if rule.Raise? {
          assert RulesOf(g, edges[..i + 1], attrib).Raise?;
          RulesOfPrefixFails(g, edges, attrib, i + 1);
          return Raise(KeyError);
        }
        found := found + {rule.value};
      }
    } else {
      for i := 0 to |edges|
        invariant RulesOf(g, edges[..i], attrib) == Ok(found)
      {
        assert edges[..i + 1][..i] == edges[..i];
        var source := edges[i].0;
        found := found + {Rule(source, SortStrings(g.succ[source]))};
      }
    }
    assert edges[..|edges|] == edges;
    return Ok(found);
  }

  /** Once a prefix of the edges fails, the whole loop fails. */
  lemma RulesOfPrefixFails(g: Tree, es: seq<(string, string)>, attrib: string, i: nat)
    requires forall e :: e in es ==> e.0 in g.succ
    requires i <= |es| && RulesOf(g, es[..i], attrib).Raise?
    ensures RulesOf(g, es, attrib) == Raise(KeyError)
  {
    var e :| e in es[..i] && RuleOf(g, e.0, attrib).Raise?;
    assert e in es;
  }

  /** A tree without edges has no rules. */
  lemma ProductionRulesEdgeless(g: Tree, root: Option<string>, attrib: string)
    requires Wf(g) && !IsProper(g) && RootOf(g, root).Ok?
    ensures ProductionRules(g, root, attrib) == Ok({})
  {
    assert g.succ[RootOf(g, root).value] == [];
  }

  /** Every rule is the rule of a node the search from the root reaches that has
      successors; when the graph is a forest and the root has no parent, each such node
      gives its rule. */
  lemma ProductionRulesOfInnerNodes(g: Tree, root: Option<string>, attrib: string, start: string)
    requires Wf(g) && RootOf(g, root) == Ok(start)
    ensures var r := ProductionRules(g, root, attrib);
      r.Ok? ==> forall rule :: rule in r.value ==>
        exists x :: x in Reached(g, start) && g.succ[x] != [] && RuleOf(g, x, attrib) == Ok(rule)
    ensures Forest(g) && InDegreeZero(g, start) ==>
      var r := ProductionRules(g, root, attrib);
      && (r.Ok? <==> forall x :: x in Reached(g, start) && g.succ[x] != [] ==> RuleOf(g, x, attrib).Ok?)
      && (r.Ok? ==> forall x :: x in Reached(g, start) && g.succ[x] != [] ==> RuleOf(g, x, attrib).value in r.value)
  {
    var es := DfsEdges(g, start);
    forall e | e in es ensures g.succ[e.0] != [] {
      assert HasEdge(g, e.0, e.1);
    }
    if Forest(g) && InDegreeZero(g, start) {
      DfsEdgesOfForest(g, start);
      forall x | x in Reached(g, start) && g.succ[x] != [] ensures (x, g.succ[x][0]) in es {
        assert HasEdge(g, x, g.succ[x][0]);
      }
    }
  }

  // ---------------------------------------------------------------------------------------
  // Proper co-rooted subtrees (count_proper_corooted_subtrees, get_proper_corooted_subtrees)
  // ---------------------------------------------------------------------------------------

  /** `count_proper_corooted_subtrees(tree, root)`: none for a tree without edges or a leaf
      root, and otherwise one for each way of choosing, for every child, either nothing
      below it or one of the child's own counted subtrees. */
  function CorootedCount(g: Tree, root: string): (r: nat)
    requires Wf(g) && root in g.succ
    decreases SubtreeMeasure(g, root), 1
  {
    if !IsProper(g) then 0
    else if IsLeaf(g, root) then 0
    else ChildrenProduct(g, root, |g.succ[root]|)
  }

  /** The product, over the first `n` successors of `root` (taken in order), of the count in
      the depth-first tree below each of them plus one. */
  function ChildrenProduct(g: Tree, root: string, n: nat): (r: nat)
    requires Wf(g) && root in g.succ && n <= |g.succ[root]|
    ensures r >= 1
    decreases SubtreeMeasure(g, root), 0, n
  {
    if n == 0 then 1
    else
      var init := ChildrenProduct(g, root, n - 1);
      var factor := ChildFactor(g, root, g.succ[root][n - 1]);
      PositiveProduct(init, factor);
      Times(init, factor)
  }

  /** The factor one child contributes: the count in the depth-first tree below it, plus one
      for leaving the child out. */
  function ChildFactor(g: Tree, root: string, child: string): (r: nat)
    requires Wf(g) && root in g.succ && child in g.succ[root]
    ensures r >= 1
    decreases SubtreeMeasure(g, root), 0, 0
  {
    DfsTreeShrinks(g, root, child);
    CorootedCount(DfsTree(g, child), child) + 1
  }

  /** The product of two counts. */
  function Times(a: nat, b: nat): nat {
    a * b
  }

  /** A product of positive counts is positive. */
  lemma PositiveProduct(a: nat, b: nat)
    requires a >= 1 && b >= 1
    ensures Times(a, b) >= 1
  {
  }

  method CountProperCorootedSubtrees(tree: Tree, root: string) returns (count: nat)
    requires Wf(tree) && root in tree.succ
    ensures count == CorootedCount(tree, root)
    decreases SubtreeMeasure(tree, root), 1
  {
    if !IsProper(tree) {
      return 0;
    }
    if IsLeaf(tree, root) {
      return 0;
    }
    count := MultiplyChildren(tree, root);
  }

  /** The loop of `count_proper_corooted_subtrees` over the children of `root`. */
  method MultiplyChildren(tree: Tree, root: string) returns (count: nat)
    requires Wf(tree) && root in tree.succ
    ensures count == ChildrenProduct(tree, root, |tree.succ[root]|)
    decreases SubtreeMeasure(tree, root), 0
  {
    var kids := tree.succ[root];
    count := 1;
    for i := 0 to |kids|
      invariant count == ChildrenProduct(tree, root, i)
    {
      var child := kids[i];
      DfsTreeShrinks(tree, root, child);
      var below := CountProperCorootedSubtrees(DfsTree(tree, child), child);
      ProductStep(tree, root, i);
      FactorOf(tree, root, child, below);
      count := Times(count, below + 1);
    }
  }

  lemma ProductStep(g: Tree, root: string, i: nat)
    requires Wf(g) && root in g.succ && i < |g.succ[root]|
    ensures ChildrenProduct(g, root, i + 1) ==
      Times(ChildrenProduct(g, root, i), ChildFactor(g, root, g.succ[root][i]))
  {
  }

  lemma FactorOf(g: Tree, root: string, child: string, below: nat)
    requires Wf(g) && root in g.succ && child in g.succ[root]
    requires below == CorootedCount(DfsTree(g, child), child)
    ensures ChildFactor(g, root, child) == below + 1
  {
  }

  /** `get_proper_corooted_subtrees(tree, root)`: for each child in turn, the depth-first
      tree below it followed by that tree's own list. */
  function CorootedSubtrees(g: Tree, root: string): (r: seq<Tree>)
    requires Wf(g) && root in g.succ
    ensures forall h, x :: h in r && x in h.succ ==> x in g.succ
    ensures InDegreeZero(g, root) ==> forall h :: h in r ==> root !in h.succ
    ensures r != [] ==> g.succ[root] != [] && r[0] == DfsTree(g, g.succ[root][0])
    decreases SubtreeMeasure(g, root), 1
  {
    if !IsProper(g) then []
    else if IsLeaf(g, root) then []
    else
      var r := ChildrenSubtrees(g, root, g.succ[root]);
      assert r[0] == DfsTree(g, g.succ[root][0]);
      r
  }

  /** `get_proper_corooted_subtrees(tree, root_node)`, with its loop over the root's
      successors. */
  method GetProperCorootedSubtrees(tree: Tree, root: string) returns (subtrees: seq<Tree>)
    requires Wf(tree) && root in tree.succ
    ensures subtrees == CorootedSubtrees(tree, root)
    decreases SubtreeMeasure(tree, root)
  {
    if !IsProper(tree) {
      return [];
    }
    if IsLeaf(tree, root) {
      return [];
    }
    var kids := tree.succ[root];
    subtrees := [];
    for i := 0 to |kids|
      invariant subtrees == ChildrenSubtrees(tree, root, kids[..i])
    {
      var child := kids[i];
      DfsTreeShrinks(tree, root, child);
      var childTree := DfsTree(tree, child);
      var below := GetProperCorootedSubtrees(childTree, child);
      SubtreesStep(tree, root, kids, i);
      PartOf(tree, root, child, below);
      subtrees := subtrees + ([childTree] + below);
    }
    SubtreesOfInnerRoot(tree, root, subtrees);
  }

  lemma SubtreesOfInnerRoot(g: Tree, root: string, subtrees: seq<Tree>)
    requires Wf(g) && root in g.succ && IsProper(g) && !IsLeaf(g, root)
    requires subtrees == ChildrenSubtrees(g, root, g.succ[root][..|g.succ[root]|])
    ensures subtrees == CorootedSubtrees(g, root)
  {
    assert g.succ[root][..|g.succ[root]|] == g.succ[root];
  }

  lemma SubtreesStep(g: Tree, root: string, kids: seq<string>, i: nat)
    requires Wf(g) && root in g.succ && kids == g.succ[root] && i < |kids|
    ensures ChildrenSubtrees(g, root, kids[..i + 1]) ==
      ChildrenSubtrees(g, root, kids[..i]) + ChildPart(g, root, kids[i])
  {
    var prefix := kids[..i + 1];
    assert prefix[..|prefix| - 1] == kids[..i] && prefix[|prefix| - 1] == kids[i];
    SubtreesSnoc(g, root, prefix);
  }

  lemma SubtreesSnoc(g: Tree, root: string, kids: seq<string>)
    requires Wf(g) && root in g.succ && kids != [] && forall k :: k in kids ==> k in g.succ[root]
    ensures ChildrenSubtrees(g, root, kids) ==
      ChildrenSubtrees(g, root, kids[..|kids| - 1]) + ChildPart(g, root, kids[|kids| - 1])
  {
  }

  lemma PartOf(g: Tree, root: string, child: string, below: seq<Tree>)
    requires Wf(g) && root in g.succ && child in g.succ[root]
    requires child in DfsTree(g, child).succ
    requires below == CorootedSubtrees(DfsTree(g, child), child)
    ensures ChildPart(g, root, child) == [DfsTree(g, child)] + below
  {
  }

  /** The lists of `get_proper_corooted_subtrees` for the successors in `kids`, in order. */
  function ChildrenSubtrees(g: Tree, root: string, kids: seq<string>): (r: seq<Tree>)
    requires Wf(g) && root in g.succ && forall k :: k in kids ==> k in g.succ[root]
    ensures |r| >= |kids|
    ensures kids != [] ==> r[0] == DfsTree(g, kids[0])
    ensures forall h, x :: h in r && x in h.succ ==> x in g.succ
    ensures InDegreeZero(g, root) ==> forall h :: h in r ==> root !in h.succ
    decreases SubtreeMeasure(g, root), 0, |kids|
  {
    if kids == [] then []
    else
      var init := ChildrenSubtrees(g, root, kids[..|kids| - 1]);
      var part := ChildPart(g, root, kids[|kids| - 1]);
      assert |kids| > 1 ==> kids[..|kids| - 1][0] == kids[0];
      var r := init + part;
      ConcatMembers(init, part);
      r
  }

  /** What one child adds to the list: the depth-first tree below it, then that tree's own
      proper co-rooted subtrees. */
  function ChildPart(g: Tree, root: string, child: string): (r: seq<Tree>)
    requires Wf(g) && root in g.succ && child in g.succ[root]
    ensures r != [] && r[0] == DfsTree(g, child)
    ensures forall h, x :: h in r && x in h.succ ==> x in g.succ
    ensures InDegreeZero(g, root) ==> forall h :: h in r ==> root !in h.succ
    decreases SubtreeMeasure(g, root), 0, 0
  {
    DfsTreeShrinks(g, root, child);
    var t := DfsTree(g, child);
    var below := CorootedSubtrees(t, child);
    assert InDegreeZero(g, root) ==> root !in t.succ by {
      if InDegreeZero(g, root) {
        assert HasEdge(g, root, child);
      }
    }
    PartFacts(g, root, t, below);
    [t] + below
  }

  /** The facts `ChildPart` returns, stated apart from how `t` and `below` are computed. */
  lemma PartFacts(g: Tree, root: string, t: Tree, below: seq<Tree>)
    requires forall x :: x in t.succ ==> x in g.succ
    requires forall h, x :: h in below && x in h.succ ==> x in t.succ
    ensures ([t] + below)[0] == t
    ensures forall h, x :: h in [t] + below && x in h.succ ==> x in g.succ
    ensures root !in t.succ ==> forall h :: h in [t] + below ==> root !in h.succ
  {
    ConcatMembers([t], below);
  }

  /** No proper co-rooted subtree is counted exactly when the tree has no edge or the root
      is a leaf; otherwise every child contributes a factor of at least one. */
  lemma CorootedCountZero(g: Tree, root: string)
    requires Wf(g) && root in g.succ
    ensures CorootedCount(g, root) == 0 <==> !IsProper(g) || IsLeaf(g, root)
  {
  }

  /** The list is empty exactly when the count is zero: an edgeless tree or a leaf root. */
  lemma CorootedSubtreesEmpty(g: Tree, root: string)
    requires Wf(g) && root in g.succ
    ensures CorootedSubtrees(g, root) == [] <==> !IsProper(g) || IsLeaf(g, root)
  {
    if IsProper(g) && !IsLeaf(g, root) {
      assert g.succ[root] != [];
    }
  }

  /** The members of a concatenation, and its first element. */
  lemma ConcatMembers<T>(a: seq<T>, b: seq<T>)
    ensures forall h :: h in a + b <==> h in a || h in b
    ensures a != [] ==> (a + b)[0] == a[0]
    ensures a == [] && b != [] ==> (a + b)[0] == b[0]
  {
  }

  // ---------------------------------------------------------------------------------------
  // Counting on small trees
  // ---------------------------------------------------------------------------------------

  /** A list of distinct elements whose only member is `a` is `[a]`. */
  lemma DistinctSingleton<T>(s: seq<T>, a: T)
    requires Distinct(s) && forall x :: x in s <==> x == a
    ensures s == [a]
  {
    DistinctMultiset(s);
    assert (set x | x in s) == {a};
    assert multiset({a}) == multiset{a};
    assert |s| == |multiset(s)| == 1;
    assert s[0] in s;
  }

  /** A list of distinct elements whose members are exactly `a` and `b` lists them in one
      order or the other. */
  lemma DistinctPair<T>(s: seq<T>, a: T, b: T)
    requires Distinct(s) && a != b && forall x :: x in s <==> x == a || x == b
    ensures s == [a, b] || s == [b, a]
  {
    DistinctMultiset(s);
    assert (set x | x in s) == {a, b};
    assert multiset({a, b}) == multiset{a, b};
    assert |s| == |multiset(s)| == 2;
    assert s[0] in s && s[1] in s && s[0] != s[1];
  }

  /** The search from a node without successors finds no edge. */
  lemma DfsEdgesOfLeaf(g: Tree, root: string)
    requires Wf(g) && root in g.succ && g.succ[root] == []
    ensures DfsEdges(g, root) == []
  {
  }

  /** The search from a node whose only successor is a leaf finds that one edge. */
  lemma DfsEdgesOfOneLeaf(g: Tree, root: string, c: string)
    requires Wf(g) && root in g.succ && g.succ[root] == [c] && c != root && g.succ[c] == []
    ensures DfsEdges(g, root) == [(root, c)]
  {
    var down := Explore(g, c, g.succ[c], {root} + {c});
    assert down == ([], {root} + {c});
    var across := Explore(g, root, [c][1..], down.1);
    assert across == ([], down.1);
    assert Explore(g, root, [c], {root}).0 == [(root, c)] + down.0 + across.0;
  }

  /** A graph without edges is not proper. */
  lemma EdgelessIfNoEdge(t: Tree)
    requires forall x, y :: !HasEdge(t, x, y)
    ensures !IsProper(t)
  {
    forall u | u in t.succ ensures t.succ[u] == [] {
      assert t.succ[u] == [] || HasEdge(t, u, t.succ[u][0]);
    }
  }

  /** A child without successors contributes the factor one. */
  lemma LeafFactor(g: Tree, root: string, c: string)
    requires Wf(g) && root in g.succ && c in g.succ[root] && g.succ[c] == []
    ensures ChildFactor(g, root, c) == 1
  {
    DfsEdgesOfLeaf(g, c);
    DfsTreeShrinks(g, root, c);
    EdgelessIfNoEdge(DfsTree(g, c));
    FactorOf(g, root, c, 0);
  }

  /** When the count is taken at an inner node, it is the product over its children. */
  lemma CountOfInnerNode(g: Tree, root: string)
    requires Wf(g) && root in g.succ && g.succ[root] != []
    ensures CorootedCount(g, root) == ChildrenProduct(g, root, |g.succ[root]|)
  {
    assert HasEdge(g, root, g.succ[root][0]);
  }

  /** With exactly one child the count is that child's factor. */
  lemma OneChildCount(g: Tree, root: string, c: string)
    requires Wf(g) && root in g.succ && g.succ[root] == [c]
    ensures CorootedCount(g, root) == ChildFactor(g, root, c)
  {
    CountOfInnerNode(g, root);
    ProductOfOne(g, root);
  }

  /** The only edge of `t` goes from `c` to `d`. */
  lemma OneEdgeTree(t: Tree, c: string, d: string)
    requires Wf(t) && c in t.succ && c != d
    requires forall x, y :: HasEdge(t, x, y) <==> (x, y) in [(c, d)]
    ensures t.succ[c] == [d] && d in t.succ && t.succ[d] == []
  {
    assert HasEdge(t, c, d);
    forall x ensures x in t.succ[c] <==> x == d {
      assert x in t.succ[c] <==> HasEdge(t, c, x);
    }
    DistinctSingleton(t.succ[c], d);
    assert t.succ[d] == [] || HasEdge(t, d, t.succ[d][0]);
  }

  /** A child whose only child `d` is a leaf contributes the factor two. */
  lemma ChainFactor(g: Tree, root: string, c: string, d: string)
    requires Wf(g) && root in g.succ && c in g.succ[root]
    requires g.succ[c] == [d] && d != c && g.succ[d] == []
    ensures ChildFactor(g, root, c) == 2
  {
    DfsEdgesOfOneLeaf(g, c, d);
    DfsTreeShrinks(g, root, c);
    var t := DfsTree(g, c);
    OneEdgeTree(t, c, d);
    OneChildCount(t, c, d);
    LeafFactor(t, c, d);
    FactorOf(g, root, c, 1);
  }

  /** With exactly two children the count is the product of their two factors. */
  lemma TwoChildrenCount(g: Tree, root: string, a: string, b: string)
    requires Wf(g) && root in g.succ && g.succ[root] == [a, b]
    ensures CorootedCount(g, root) == Times(ChildFactor(g, root, a), ChildFactor(g, root, b))
  {
    CountOfInnerNode(g, root);
    ProductOfTwo(g, root, a, b);
  }

  lemma ProductOfTwo(g: Tree, root: string, a: string, b: string)
    requires Wf(g) && root in g.succ && g.succ[root] == [a, b]
    ensures ChildrenProduct(g, root, 2) == Times(ChildFactor(g, root, a), ChildFactor(g, root, b))
  {
    ProductOfOne(g, root);
    ProductStep(g, root, 1);
  }

  /** The product over the first child alone is that child's factor. */
  lemma ProductOfOne(g: Tree, root: string)
    requires Wf(g) && root in g.succ && g.succ[root] != []
    ensures ChildrenProduct(g, root, 1) == ChildFactor(g, root, g.succ[root][0])
  {
    ProductStep(g, root, 0);
    assert ChildrenProduct(g, root, 0) == 1;
    OneTimes(ChildFactor(g, root, g.succ[root][0]));
  }

  /** 1 is the unit of `Times`. */
  lemma OneTimes(x: nat)
    ensures Times(1, x) == x
  {
  }
}
