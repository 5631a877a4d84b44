/** The example parse tree of tree_kernel.py ("Jeff ate the apple") and what the tree
    predicates and the co-rooted subtree count give on it. The module's `is_proper`,
    `is_leave` and `count_proper_corooted_subtrees` are the same definitions as those of
    tree.py and are modelled once, by `Graphs.IsProper`, `Graphs.IsLeaf` and
    `Trees.CorootedCount`. */
module TreeKernel {
  import opened Exceptions
  import opened Graphs
  import opened Trees
  import opened TreeFragments

  const NODES: seq<string> :=
    ["S", "NP-1", "N-1", "Jeff", "VP", "V", "ate", "NP-2", "D", "the", "N-2", "apple"]

  const EDGES: seq<(string, string)> :=
    [("S", "NP-1"), ("NP-1", "N-1"), ("N-1", "Jeff"),
     ("S", "VP"), ("VP", "V"), ("V", "ate"),
     ("VP", "NP-2"), ("NP-2", "D"), ("D", "the"),
     ("NP-2", "N-2"), ("N-2", "apple")]

  /** A graph holding exactly the example's nodes and edges. */
  ghost predicate IsExampleTree(t: Tree) {
    && Wf(t)
    && (forall x :: x in t.succ <==> x in NODES)
    && (forall x, y :: HasEdge(t, x, y) <==> (x, y) in EDGES)
  }

  /** `generate_example_tree()`: a fresh graph, then the nodes, then the edges. */
  method GenerateExampleTree() returns (tree: Tree)
    ensures IsExampleTree(tree)
  {
    EdgesWithinNodes();
    tree := BuildGraph(NODES, EDGES);
  }

  // ---------------------------------------------------------------------------------------
  // Facts about the two literal lists
  // ---------------------------------------------------------------------------------------

  lemma EdgesWithinNodes()
    ensures forall e :: e in EDGES ==> e.0 in NODES && e.1 in NODES
  {
  }

  lemma ListsDistinct()
    ensures Distinct(NODES) && Distinct(EDGES)
  {
  }

  lemma NoEdgeIntoS()
    ensures forall e :: e in EDGES ==> e.1 != "S"
  {
  }

  lemma EdgeIntoEveryOtherNode(x: string)
    requires x in NODES && x != "S"
    ensures exists e :: e in EDGES && e.1 == x
  {
  }

  lemma OneEdgeIntoEachNode()
    ensures forall e, f :: e in EDGES && f in EDGES && e.1 == f.1 ==> e.0 == f.0
  {
    EdgesFromParent();
  }

  /** The parent of each node in the example. */
  const PARENT: map<string, string> :=
    map["NP-1" := "S", "N-1" := "NP-1", "Jeff" := "N-1", "VP" := "S", "V" := "VP", "ate" := "V",
        "NP-2" := "VP", "D" := "NP-2", "the" := "D", "N-2" := "NP-2", "apple" := "N-2"]

  lemma EdgesFromParent()
    ensures forall e :: e in EDGES ==> e.1 in PARENT && PARENT[e.1] == e.0
  {
  }

  lemma EdgeFromExactlyInner(x: string)
    requires x in NODES
    ensures (forall e :: e in EDGES ==> e.0 != x) <==> x in ["Jeff", "ate", "the", "apple"]
  {
  }

  // ---------------------------------------------------------------------------------------
  // From the lists to the graph
  // ---------------------------------------------------------------------------------------

  /** A list of distinct elements is as long as the set of its members. */
  lemma {:induction false} CardOfDistinct<T>(xs: seq<T>, s: set<T>)
    requires Distinct(xs) && forall x :: x in s <==> x in xs
    ensures |s| == |xs|
    decreases |xs|
  {
    if xs != [] {
      var rest := xs[1..];
      forall i, j | 0 <= i < j < |rest| ensures rest[i] != rest[j] {
        assert rest[i] == xs[i + 1] && rest[j] == xs[j + 1];
      }
      forall x | x in s - {xs[0]} ensures x in rest {
        assert x in xs;
      }
      forall i | 0 <= i < |rest| ensures rest[i] != xs[0] {
        assert rest[i] == xs[i + 1];
      }
      CardOfDistinct(rest, s - {xs[0]});
    }
  }

  /** A node is a leaf exactly when no listed edge starts at it. */
  lemma LeafIffNoEdgeFrom(t: Tree, es: seq<(string, string)>, x: string)
    requires x in t.succ && forall u, v :: HasEdge(t, u, v) <==> (u, v) in es
    ensures IsLeaf(t, x) <==> forall e :: e in es ==> e.0 != x
  {
    if !IsLeaf(t, x) {
      var v :| HasEdge(t, x, v);
      assert (x, v) in es;
    }
  }

  /** The example has no cycles of parenthood: every node but `S` has exactly one parent,
      and `S` has none. */
  lemma ExampleTreeParents(t: Tree)
    requires IsExampleTree(t)
    ensures InDegreeZero(t, "S")
    ensures forall x :: x in t.succ && x != "S" ==> exists p :: HasEdge(t, p, x)
    ensures Forest(t)
  {
    NoEdgeIntoS();
    forall u | u in t.succ ensures "S" !in t.succ[u] {
      assert "S" in t.succ[u] ==> (u, "S") in EDGES;
    }
    forall x | x in t.succ && x != "S" ensures exists p :: HasEdge(t, p, x) {
      EdgeIntoEveryOtherNode(x);
      var e :| e in EDGES && e.1 == x;
      assert HasEdge(t, e.0, x);
    }
    OneEdgeIntoEachNode();
    forall p, q, x | HasEdge(t, p, x) && HasEdge(t, q, x) ensures p == q {
      assert (p, x) in EDGES && (q, x) in EDGES;
    }
  }

  /** The example has twelve nodes and eleven edges, so `is_proper` holds of it. */
  lemma ExampleTreeSize(t: Tree)
    requires IsExampleTree(t)
    ensures |t.nodes| == 12 && |Edges(t)| == 11 && IsProper(t)
  {
    ListsDistinct();
    CardOfDistinct(NODES, t.succ.Keys);
    CardOfDistinct(t.nodes, t.succ.Keys);
    forall e ensures e in Edges(t) <==> e in EDGES {
      assert e in Edges(t) <==> HasEdge(t, e.0, e.1);
    }
    CardOfDistinct(EDGES, Edges(t));
    IsProperIff(t);
  }

  /** `is_leave` holds exactly of the four words. */
  lemma ExampleTreeLeaves(t: Tree)
    requires IsExampleTree(t)
    ensures forall x :: x in t.succ ==> (IsLeaf(t, x) <==> x in ["Jeff", "ate", "the", "apple"])
  {
    forall x | x in t.succ ensures IsLeaf(t, x) <==> x in ["Jeff", "ate", "the", "apple"] {
      LeafIffNoEdgeFrom(t, EDGES, x);
      EdgeFromExactlyInner(x);
    }
  }

  lemma EdgesBelowNP2()
    ensures forall y :: ("NP-2", y) in EDGES <==> y in ["D", "N-2"]
    ensures forall y :: ("D", y) in EDGES <==> y in ["the"]
    ensures forall y :: ("N-2", y) in EDGES <==> y in ["apple"]
    ensures forall y :: ("the", y) !in EDGES && ("apple", y) !in EDGES
  {
  }

  /** The successors of `x` are the targets of the listed edges from `x`. */
  lemma ChildrenAre(t: Tree, es: seq<(string, string)>, x: string, ys: seq<string>)
    requires x in t.succ && forall u, v :: HasEdge(t, u, v) <==> (u, v) in es
    requires forall y :: (x, y) in es <==> y in ys
    ensures forall y :: y in t.succ[x] <==> y in ys
  {
    forall y ensures y in t.succ[x] <==> y in ys {
      assert y in t.succ[x] <==> HasEdge(t, x, y);
    }
  }

  lemma NoChildren(t: Tree, es: seq<(string, string)>, x: string)
    requires x in t.succ && forall u, v :: HasEdge(t, u, v) <==> (u, v) in es
    requires forall y :: (x, y) !in es
    ensures t.succ[x] == []
  {
    assert t.succ[x] == [] || HasEdge(t, x, t.succ[x][0]);
  }

  /** The successor lists below `NP-2`. */
  lemma ExampleSuccessors(t: Tree)
    requires IsExampleTree(t)
    ensures "NP-2" in t.succ && "D" in t.succ && "N-2" in t.succ && "the" in t.succ && "apple" in t.succ
    ensures t.succ["NP-2"] == ["D", "N-2"] || t.succ["NP-2"] == ["N-2", "D"]
    ensures t.succ["D"] == ["the"] && t.succ["N-2"] == ["apple"]
    ensures t.succ["the"] == [] && t.succ["apple"] == []
  {
    assert NODES[7] == "NP-2" && NODES[8] == "D" && NODES[9] == "the";
    assert NODES[10] == "N-2" && NODES[11] == "apple";
    EdgesBelowNP2();
    ChildrenAre(t, EDGES, "NP-2", ["D", "N-2"]);
    ChildrenAre(t, EDGES, "D", ["the"]);
    ChildrenAre(t, EDGES, "N-2", ["apple"]);
    NoChildren(t, EDGES, "the");
    NoChildren(t, EDGES, "apple");
    DistinctSingleton(t.succ["D"], "the");
    DistinctSingleton(t.succ["N-2"], "apple");
    DistinctPair(t.succ["NP-2"], "D", "N-2");
  }

  /** On the example the count is 1 at `D` (the subtree `D -> the`) and 4 at `NP-2` (the
      tree below it with or without each of `D -> the` and `N-2 -> apple`). */
  lemma ExampleCounts(t: Tree)
    requires IsExampleTree(t)
    ensures "D" in t.succ && CorootedCount(t, "D") == 1
    ensures "NP-2" in t.succ && CorootedCount(t, "NP-2") == 4
  {
    ExampleSuccessors(t);
    OneChildCount(t, "D", "the");
    LeafFactor(t, "D", "the");
    ChainFactor(t, "NP-2", "D", "the");
    ChainFactor(t, "NP-2", "N-2", "apple");
    if t.succ["NP-2"] == ["D", "N-2"] {
      TwoChildrenCount(t, "NP-2", "D", "N-2");
    } else {
      TwoChildrenCount(t, "NP-2", "N-2", "D");
    }
  }
}
