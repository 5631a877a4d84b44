/** Dependency graphs (dependency_graph.py): the labelled children of a node, the common
    dependency targets of two nodes, the Collins–Duffy count of common subgraphs and the
    dependency-rule subset test. Node IDs are integers, as in the example graphs, whose
    nodes and edges carry their word and relation under the attribute 'label'. */
module DependencyGraphs {
  import opened Exceptions
  import opened Graphs

  type DepGraph = Digraph<int>

  /** `graph.node[n][attrib]`; a node without the attribute gives a KeyError. */
  function NodeLabel(g: DepGraph, n: int, attrib: string): (r: Result<string>)
    ensures r.Ok? <==> n in g.attrs && attrib in g.attrs[n]
    ensures r.Ok? ==> r.value == g.attrs[n][attrib]
    ensures r.Raise? ==> r.exc == KeyError
  {
    if n in g.attrs && attrib in g.attrs[n] then Ok(g.attrs[n][attrib]) else Raise(KeyError)
  }

  /** `graph[u][v][attrib]`, the relation on the edge from `u` to `v`. */
  function EdgeLabel(g: DepGraph, u: int, v: int, attrib: string): (r: Result<string>)
    ensures r.Ok? <==> (u, v) in g.edgeAttrs && attrib in g.edgeAttrs[(u, v)]
    ensures r.Ok? ==> r.value == g.edgeAttrs[(u, v)][attrib]
    ensures r.Raise? ==> r.exc == KeyError
  {
    if (u, v) in g.edgeAttrs && attrib in g.edgeAttrs[(u, v)] then Ok(g.edgeAttrs[(u, v)][attrib])
    else Raise(KeyError)
  }

  // ---------------------------------------------------------------------------------------
  // dependency_children
  // ---------------------------------------------------------------------------------------

  /** The (relation, target) pairs of the edges from `n` to the nodes of `kids`. */
  function ChildrenOf(g: DepGraph, n: int, kids: seq<int>, attrib: string): (r: Result<set<(string, int)>>)
    ensures r.Ok? <==> forall t :: t in kids ==> EdgeLabel(g, n, t, attrib).Ok?
    ensures r.Ok? ==> forall rel, t :: (rel, t) in r.value <==> t in kids && EdgeLabel(g, n, t, attrib) == Ok(rel)
    ensures r.Raise? ==> r.exc == KeyError
  {
    if kids == [] then Ok({})
    else
      var last := kids[|kids| - 1];
      assert forall t :: t in kids <==> t in kids[..|kids| - 1] || t == last;
      var init :- ChildrenOf(g, n, kids[..|kids| - 1], attrib);
      var rel :- EdgeLabel(g, n, last, attrib);
      Ok(init + {(rel, last)})
  }

  /** `dependency_children(graph, node, edge_attrib)`: one (relation, target) pair per edge
      leaving `node`. */
  function DependencyChildren(g: DepGraph, n: int, attrib: string): (r: Result<set<(string, int)>>)
    requires n in g.succ
    ensures r.Ok? <==> forall t :: HasEdge(g, n, t) ==> EdgeLabel(g, n, t, attrib).Ok?
    ensures r.Ok? ==> forall rel, t :: (rel, t) in r.value <==> HasEdge(g, n, t) && EdgeLabel(g, n, t, attrib) == Ok(rel)
    ensures r.Ok? ==> (r.value == {} <==> g.succ[n] == [])
    ensures r.Raise? ==> r.exc == KeyError
  {
    var r := ChildrenOf(g, n, g.succ[n], attrib);
    assert r.Ok? && g.succ[n] != [] ==> (EdgeLabel(g, n, g.succ[n][0], attrib).value, g.succ[n][0]) in r.value;
    r
  }

  /** The loop of `dependency_children` over the out-edges of `n`. */
  method GetDependencyChildren(g: DepGraph, n: int, attrib: string) returns (children: Result<set<(string, int)>>)
    requires n in g.succ
    ensures children == DependencyChildren(g, n, attrib)
  {
    var kids := g.succ[n];
    var found: set<(string, int)> := {};
    for i := 0 to |kids|
      invariant ChildrenOf(g, n, kids[..i], attrib) == Ok(found)
    {
      assert kids[..i + 1][..i] == kids[..i];
      var rel := EdgeLabel(g, n, kids[i], attrib);
      if rel.Raise? {
        ChildrenOfPrefixFails(g, n, kids, attrib, i + 1);
        return Raise(KeyError);
      }
      found := found + {(rel.value, kids[i])};
    }
    assert kids[..|kids|] == kids;
    return Ok(found);
  }

  /** Once the edges to a prefix of the successors fail, all of them fail. */
  lemma ChildrenOfPrefixFails(g: DepGraph, n: int, kids: seq<int>, attrib: string, i: nat)
    requires i <= |kids| && ChildrenOf(g, n, kids[..i], attrib).Raise?
    ensures ChildrenOf(g, n, kids, attrib) == Raise(KeyError)
  {
    var t :| t in kids[..i] && EdgeLabel(g, n, t, attrib).Raise?;
    assert t in kids;
  }

  // ---------------------------------------------------------------------------------------
  // common_dependency_targets
  // ---------------------------------------------------------------------------------------

  /** Two targets, one from each set of children, reached over the same relation, one of
      which has no word. */
  predicate MissingWord(g1: DepGraph, g2: DepGraph, c1: set<(string, int)>, c2: set<(string, int)>, attrib: string) {
    exists p, q :: p in c1 && q in c2 && p.0 == q.0 &&
      (NodeLabel(g1, p.1, attrib).Raise? || NodeLabel(g2, q.1, attrib).Raise?)
  }

  /** The matching pairs over the relations outside `todo`. */
  function MatchesOutside(g1: DepGraph, g2: DepGraph, c1: set<(string, int)>, c2: set<(string, int)>, attrib: string, todo: set<string>): set<(int, int)> {
    set p, q | p in c1 && q in c2 && p.0 == q.0 && p.0 !in todo && NodeLabel(g1, p.1, attrib) == NodeLabel(g2, q.1, attrib) :: (p.1, q.1)
  }

  /** The pairs of targets reached over the same relation that carry the same word. */
  function Matches(g1: DepGraph, g2: DepGraph, c1: set<(string, int)>, c2: set<(string, int)>, attrib: string): (r: Result<set<(int, int)>>)
    ensures r.Raise? <==> MissingWord(g1, g2, c1, c2, attrib)
    ensures r.Raise? ==> r.exc == KeyError
    ensures r.Ok? ==> forall a, b :: (a, b) in r.value <==>
      exists rel :: (rel, a) in c1 && (rel, b) in c2 && NodeLabel(g1, a, attrib) == NodeLabel(g2, b, attrib)
  {
    if MissingWord(g1, g2, c1, c2, attrib) then Raise(KeyError)
    else
      var r := MatchesOutside(g1, g2, c1, c2, attrib, {});
      assert forall a, b :: (a, b) in r <==>
        exists rel :: (rel, a) in c1 && (rel, b) in c2 && NodeLabel(g1, a, attrib) == NodeLabel(g2, b, attrib) by {
        forall a, b | exists rel :: (rel, a) in c1 && (rel, b) in c2 && NodeLabel(g1, a, attrib) == NodeLabel(g2, b, attrib)
          ensures (a, b) in r
        {
          var rel :| (rel, a) in c1 && (rel, b) in c2 && NodeLabel(g1, a, attrib) == NodeLabel(g2, b, attrib);
          var p, q := (rel, a), (rel, b);
          assert (p.1, q.1) in r;
        }
      }
      Ok(r)
  }

  /** `common_dependency_targets(graph1, graph2, n1, n2, node_attrib, edge_attrib)`: the
      pairs (a, b) of a child of `n1` and a child of `n2` reached over the same relation
      whose words agree. */
  function CommonTargets(g1: DepGraph, g2: DepGraph, n1: int, n2: int, nodeAttrib: string, edgeAttrib: string): (r: Result<set<(int, int)>>)
    requires n1 in g1.succ && n2 in g2.succ
    ensures r.Raise? ==> r.exc == KeyError
    ensures r.Ok? ==> forall a, b :: (a, b) in r.value ==> HasEdge(g1, n1, a) && HasEdge(g2, n2, b)
  {
    var c1 :- DependencyChildren(g1, n1, edgeAttrib);
    var c2 :- DependencyChildren(g2, n2, edgeAttrib);
    Matches(g1, g2, c1, c2, nodeAttrib)
  }

  /** A common target is a pair of children reached over edges with the same relation and
      carrying the same word; every such pair is one. */
  lemma CommonTargetsMembers(g1: DepGraph, g2: DepGraph, n1: int, n2: int, nodeAttrib: string, edgeAttrib: string)
    requires n1 in g1.succ && n2 in g2.succ
    ensures var r := CommonTargets(g1, g2, n1, n2, nodeAttrib, edgeAttrib);
      r.Ok? ==> forall a, b :: (a, b) in r.value <==>
        && HasEdge(g1, n1, a) && HasEdge(g2, n2, b)
        && EdgeLabel(g1, n1, a, edgeAttrib) == EdgeLabel(g2, n2, b, edgeAttrib)
        && NodeLabel(g1, a, nodeAttrib) == NodeLabel(g2, b, nodeAttrib)
  {
    var r := CommonTargets(g1, g2, n1, n2, nodeAttrib, edgeAttrib);
    if r.Ok? {
      var c1 := DependencyChildren(g1, n1, edgeAttrib).value;
      var c2 := DependencyChildren(g2, n2, edgeAttrib).value;
      forall a, b ensures (a, b) in r.value <==>
        && HasEdge(g1, n1, a) && HasEdge(g2, n2, b)
        && EdgeLabel(g1, n1, a, edgeAttrib) == EdgeLabel(g2, n2, b, edgeAttrib)
        && NodeLabel(g1, a, nodeAttrib) == NodeLabel(g2, b, nodeAttrib)
      {
        if HasEdge(g1, n1, a) && HasEdge(g2, n2, b) && EdgeLabel(g1, n1, a, edgeAttrib) == EdgeLabel(g2, n2, b, edgeAttrib) {
          var rel := EdgeLabel(g1, n1, a, edgeAttrib).value;
          assert (rel, a) in c1 && (rel, b) in c2;
        }
      }
    }
  }

  function Swapped(s: set<(int, int)>): (r: set<(int, int)>)
    ensures forall a, b :: (a, b) in r <==> (b, a) in s
  {
    var r := set p | p in s :: (p.1, p.0);
    assert forall a, b :: (b, a) in s ==> (a, b) in r by {
      forall a, b | (b, a) in s ensures (a, b) in r {
        var p := (b, a);
        assert (p.1, p.0) in r;
      }
    }
    r
  }

  lemma MissingWordSwap(g1: DepGraph, g2: DepGraph, c1: set<(string, int)>, c2: set<(string, int)>, attrib: string)
    ensures MissingWord(g1, g2, c1, c2, attrib) <==> MissingWord(g2, g1, c2, c1, attrib)
  {
    if MissingWord(g1, g2, c1, c2, attrib) {
      var p, q :| p in c1 && q in c2 && p.0 == q.0 &&
        (NodeLabel(g1, p.1, attrib).Raise? || NodeLabel(g2, q.1, attrib).Raise?);
      assert q in c2 && p in c1 && q.0 == p.0;
    }
    if MissingWord(g2, g1, c2, c1, attrib) {
      var q, p :| q in c2 && p in c1 && q.0 == p.0 &&
        (NodeLabel(g2, q.1, attrib).Raise? || NodeLabel(g1, p.1, attrib).Raise?);
      assert p in c1 && q in c2 && p.0 == q.0;
    }
  }

  lemma MatchesSwap(g1: DepGraph, g2: DepGraph, c1: set<(string, int)>, c2: set<(string, int)>, attrib: string)
    ensures var r := Matches(g1, g2, c1, c2, attrib);
      var s := Matches(g2, g1, c2, c1, attrib);
      (r.Ok? <==> s.Ok?) && (r.Ok? ==> s.value == Swapped(r.value))
  {
    MissingWordSwap(g1, g2, c1, c2, attrib);
    var r := Matches(g1, g2, c1, c2, attrib);
    var s := Matches(g2, g1, c2, c1, attrib);
    if r.Ok? {
      forall a, b ensures (a, b) in s.value <==> (a, b) in Swapped(r.value) {
        PairSwap(g1, g2, c1, c2, attrib, a, b);
      }
    }
  }

  lemma PairSwap(g1: DepGraph, g2: DepGraph, c1: set<(string, int)>, c2: set<(string, int)>, attrib: string, a: int, b: int)
    ensures (exists rel :: (rel, a) in c2 && (rel, b) in c1 && NodeLabel(g2, a, attrib) == NodeLabel(g1, b, attrib)) <==>
      (exists rel :: (rel, b) in c1 && (rel, a) in c2 && NodeLabel(g1, b, attrib) == NodeLabel(g2, a, attrib))
  {
  }

  /** Exchanging the two graphs (and their nodes) exchanges the two sides of every common
      target, and fails exactly when the original fails. */
  lemma CommonTargetsSwap(g1: DepGraph, g2: DepGraph, n1: int, n2: int, nodeAttrib: string, edgeAttrib: string)
    requires n1 in g1.succ && n2 in g2.succ
    ensures var r := CommonTargets(g1, g2, n1, n2, nodeAttrib, edgeAttrib);
      var s := CommonTargets(g2, g1, n2, n1, nodeAttrib, edgeAttrib);
      (r.Ok? <==> s.Ok?) && (r.Ok? ==> s.value == Swapped(r.value))
  {
    var d1 := DependencyChildren(g1, n1, edgeAttrib);
    var d2 := DependencyChildren(g2, n2, edgeAttrib);
    if d1.Ok? && d2.Ok? {
      MatchesSwap(g1, g2, d1.value, d2.value, nodeAttrib);
    }
  }

  /** The `defaultdict(list)` of `common_dependency_targets`: the targets of each relation. */
  method GroupByRelation(children: set<(string, int)>) returns (m: map<string, seq<int>>)
    ensures forall rel, t :: (rel, t) in children <==> rel in m && t in m[rel]
    ensures forall rel :: rel in m ==> m[rel] != []
  {
    m := map[];
    var todo := children;
    while todo != {}
      invariant todo <= children
      invariant forall rel, t :: (rel, t) in children - todo <==> rel in m && t in m[rel]
      invariant forall rel :: rel in m ==> m[rel] != []
      decreases |todo|
    {
      var p :| p in todo;
      var ts := if p.0 in m then m[p.0] else [];
      m := m[p.0 := ts + [p.1]];
      todo := todo - {p};
    }
  }

  /** The inner two loops for one relation: every target of the first list is paired with
      every target of the second list, the first target's word looked up before the second
      list is walked. */
  function MatchLists(g1: DepGraph, g2: DepGraph, ts1: seq<int>, ts2: seq<int>, attrib: string): (r: Result<set<(int, int)>>)
    ensures r.Raise? ==> r.exc == KeyError
  {
    if (exists a :: a in ts1 && NodeLabel(g1, a, attrib).Raise?) ||
       (ts1 != [] && exists b :: b in ts2 && NodeLabel(g2, b, attrib).Raise?)
    then Raise(KeyError)
    else Ok(set a, b | a in ts1 && b in ts2 && NodeLabel(g1, a, attrib) == NodeLabel(g2, b, attrib) :: (a, b))
  }

  method MatchRelation(g1: DepGraph, g2: DepGraph, ts1: seq<int>, ts2: seq<int>, attrib: string) returns (r: Result<set<(int, int)>>)
    ensures r == MatchLists(g1, g2, ts1, ts2, attrib)
  {
    var found: set<(int, int)> := {};
    for i := 0 to |ts1|
      invariant forall a :: a in ts1[..i] ==> NodeLabel(g1, a, attrib).Ok?
      invariant i > 0 ==> forall b :: b in ts2 ==> NodeLabel(g2, b, attrib).Ok?
      invariant found == set a, b | a in ts1[..i] && b in ts2 && NodeLabel(g1, a, attrib) == NodeLabel(g2, b, attrib) :: (a, b)
    {
      var w1 := NodeLabel(g1, ts1[i], attrib);
      if w1.Raise? {
        return Raise(KeyError);
      }
      for j := 0 to |ts2|
        invariant forall b :: b in ts2[..j] ==> NodeLabel(g2, b, attrib).Ok?
        invariant found == (set a, b | a in ts1[..i] && b in ts2 && NodeLabel(g1, a, attrib) == NodeLabel(g2, b, attrib) :: (a, b))
          + (set b | b in ts2[..j] && w1 == NodeLabel(g2, b, attrib) :: (ts1[i], b))
      {
        var w2 := NodeLabel(g2, ts2[j], attrib);
        if w2.Raise? {
          assert ts2[j] in ts2;
          return Raise(KeyError);
        }
        if w1 == w2 {
          found := found + {(ts1[i], ts2[j])};
        }
      }
      assert ts2[..|ts2|] == ts2;
      assert ts1[..i + 1] == ts1[..i] + [ts1[i]];
    }
    assert ts1[..|ts1|] == ts1;
    return Ok(found);
  }

  /** Two targets over `rel`, one from each set of children, one of which has no word. */
  ghost predicate MissingWordOver(g1: DepGraph, g2: DepGraph, c1: set<(string, int)>, c2: set<(string, int)>, attrib: string, rel: string) {
    exists a, b :: (rel, a) in c1 && (rel, b) in c2 &&
      (NodeLabel(g1, a, attrib).Raise? || NodeLabel(g2, b, attrib).Raise?)
  }

  /** The matching pairs over `rel`. */
  function MatchesOver(g1: DepGraph, g2: DepGraph, c1: set<(string, int)>, c2: set<(string, int)>, attrib: string, rel: string): set<(int, int)> {
    set p, q | p in c1 && q in c2 && p.0 == rel && q.0 == rel && NodeLabel(g1, p.1, attrib) == NodeLabel(g2, q.1, attrib) :: (p.1, q.1)
  }

  /** The two inner loops for a relation shared by both nodes fail exactly when one of
      its targets has no word, */
  lemma RelationPartFails(g1: DepGraph, g2: DepGraph, c1: set<(string, int)>, c2: set<(string, int)>, attrib: string,
                          m1: map<string, seq<int>>, m2: map<string, seq<int>>, rel: string)
    requires forall r, t :: (r, t) in c1 <==> r in m1 && t in m1[r]
    requires forall r, t :: (r, t) in c2 <==> r in m2 && t in m2[r]
    requires rel in m1 && rel in m2 && m1[rel] != [] && m2[rel] != []
    ensures MatchLists(g1, g2, m1[rel], m2[rel], attrib).Raise? <==> MissingWordOver(g1, g2, c1, c2, attrib, rel)
  {
    var ts1, ts2 := m1[rel], m2[rel];
    assert ts1[0] in ts1 && ts2[0] in ts2;
    if MissingWordOver(g1, g2, c1, c2, attrib, rel) {
      var a, b :| (rel, a) in c1 && (rel, b) in c2 && (NodeLabel(g1, a, attrib).Raise? || NodeLabel(g2, b, attrib).Raise?);
      assert a in ts1 && b in ts2;
    }
    if exists a :: a in ts1 && NodeLabel(g1, a, attrib).Raise? {
      var a :| a in ts1 && NodeLabel(g1, a, attrib).Raise?;
      InGroup(c1, m1, rel, a);
      InGroup(c2, m2, rel, ts2[0]);
    }
    if exists b :: b in ts2 && NodeLabel(g2, b, attrib).Raise? {
      var b :| b in ts2 && NodeLabel(g2, b, attrib).Raise?;
      InGroup(c1, m1, rel, ts1[0]);
      InGroup(c2, m2, rel, b);
    }
  }

  /** and otherwise compute its part of the common targets. */
  lemma RelationPartValue(g1: DepGraph, g2: DepGraph, c1: set<(string, int)>, c2: set<(string, int)>, attrib: string,
                          m1: map<string, seq<int>>, m2: map<string, seq<int>>, rel: string)
    requires forall r, t :: (r, t) in c1 <==> r in m1 && t in m1[r]
    requires forall r, t :: (r, t) in c2 <==> r in m2 && t in m2[r]
    requires rel in m1 && rel in m2
    requires MatchLists(g1, g2, m1[rel], m2[rel], attrib).Ok?
    ensures MatchLists(g1, g2, m1[rel], m2[rel], attrib).value == MatchesOver(g1, g2, c1, c2, attrib, rel)
  {
    var ts1, ts2 := m1[rel], m2[rel];
    var r := MatchLists(g1, g2, ts1, ts2, attrib);
    var part := MatchesOver(g1, g2, c1, c2, attrib, rel);
    forall e | e in part ensures e in r.value {
      var p, q :| p in c1 && q in c2 && p.0 == rel && q.0 == rel && NodeLabel(g1, p.1, attrib) == NodeLabel(g2, q.1, attrib) && e == (p.1, q.1);
      assert p.1 in ts1 && q.1 in ts2;
    }
    forall e | e in r.value ensures e in part {
      var a, b :| a in ts1 && b in ts2 && NodeLabel(g1, a, attrib) == NodeLabel(g2, b, attrib) && e == (a, b);
      InGroup(c1, m1, rel, a);
      InGroup(c2, m2, rel, b);
      var p, q := (rel, a), (rel, b);
      assert p in c1 && q in c2;
    }
  }

  lemma GroupOf(c: set<(string, int)>, m: map<string, seq<int>>, p: (string, int))
    requires forall r, u :: (r, u) in c <==> r in m && u in m[r]
    requires p in c
    ensures p.0 in m
  {
    var (r, u) := p;
    assert (r, u) in c;
    assert r in m && u in m[r];
  }

  lemma InGroup(c: set<(string, int)>, m: map<string, seq<int>>, rel: string, t: int)
    requires forall r, u :: (r, u) in c <==> r in m && u in m[r]
    requires rel in m && t in m[rel]
    ensures (rel, t) in c
  {
  }

  lemma MatchesOutsideStep(g1: DepGraph, g2: DepGraph, c1: set<(string, int)>, c2: set<(string, int)>, attrib: string, todo: set<string>, rel: string)
    requires rel in todo
    ensures MatchesOutside(g1, g2, c1, c2, attrib, todo - {rel}) ==
      MatchesOutside(g1, g2, c1, c2, attrib, todo) + MatchesOver(g1, g2, c1, c2, attrib, rel)
  {
    var before := MatchesOutside(g1, g2, c1, c2, attrib, todo);
    var after := MatchesOutside(g1, g2, c1, c2, attrib, todo - {rel});
    var part := MatchesOver(g1, g2, c1, c2, attrib, rel);
    forall e | e in after ensures e in before + part {
      var p, q :| p in c1 && q in c2 && p.0 == q.0 && p.0 !in todo - {rel} && NodeLabel(g1, p.1, attrib) == NodeLabel(g2, q.1, attrib) && e == (p.1, q.1);
      if p.0 == rel {
        assert e in part;
      } else {
        assert e in before;
      }
    }
  }

  /** Before the loop over the shared relations nothing is found outside them. */
  lemma MatchesOutsideEnds(g1: DepGraph, g2: DepGraph, c1: set<(string, int)>, c2: set<(string, int)>, attrib: string,
                           m1: map<string, seq<int>>, m2: map<string, seq<int>>)
    requires forall r, t :: (r, t) in c1 <==> r in m1 && t in m1[r]
    requires forall r, t :: (r, t) in c2 <==> r in m2 && t in m2[r]
    ensures MatchesOutside(g1, g2, c1, c2, attrib, m1.Keys * m2.Keys) == {}
  {
    forall p, q | p in c1 && q in c2 && p.0 == q.0 ensures p.0 in m1.Keys * m2.Keys {
      GroupOf(c1, m1, p);
      GroupOf(c2, m2, q);
    }
  }

  /** A target without a word over one relation is one for the whole. */
  lemma MissingWordOverIsMissing(g1: DepGraph, g2: DepGraph, c1: set<(string, int)>, c2: set<(string, int)>, attrib: string, rel: string)
    requires MissingWordOver(g1, g2, c1, c2, attrib, rel)
    ensures MissingWord(g1, g2, c1, c2, attrib)
  {
    var a, b :| (rel, a) in c1 && (rel, b) in c2 &&
      (NodeLabel(g1, a, attrib).Raise? || NodeLabel(g2, b, attrib).Raise?);
    var p, q := (rel, a), (rel, b);
    assert p in c1 && q in c2 && p.0 == q.0;
  }

  /** A target without a word over some relation lies over a relation of both graphs. */
  lemma MissingWordOverShared(g1: DepGraph, g2: DepGraph, c1: set<(string, int)>, c2: set<(string, int)>, attrib: string,
                              m1: map<string, seq<int>>, m2: map<string, seq<int>>)
    requires forall r, t :: (r, t) in c1 <==> r in m1 && t in m1[r]
    requires forall r, t :: (r, t) in c2 <==> r in m2 && t in m2[r]
    requires MissingWord(g1, g2, c1, c2, attrib)
    ensures exists rel :: rel in m1.Keys * m2.Keys && MissingWordOver(g1, g2, c1, c2, attrib, rel)
  {
    var p, q :| p in c1 && q in c2 && p.0 == q.0 &&
      (NodeLabel(g1, p.1, attrib).Raise? || NodeLabel(g2, q.1, attrib).Raise?);
    var a, b := p.1, q.1;
    assert p == (p.0, a) && q == (p.0, b);
    assert (p.0, a) in c1 && (p.0, b) in c2;
    assert NodeLabel(g1, a, attrib).Raise? || NodeLabel(g2, b, attrib).Raise?;
    assert p.0 in m1.Keys * m2.Keys;
  }

  /** `common_dependency_targets`: the children of both nodes, their relations grouped into
      lists, and the loops over the shared relations. */
  method CommonDependencyTargets(g1: DepGraph, g2: DepGraph, n1: int, n2: int, nodeAttrib: string, edgeAttrib: string)
    returns (r: Result<set<(int, int)>>)
    requires n1 in g1.succ && n2 in g2.succ
    ensures r == CommonTargets(g1, g2, n1, n2, nodeAttrib, edgeAttrib)
  {
    var d1 := GetDependencyChildren(g1, n1, edgeAttrib);
    if d1.Raise? {
      return Raise(d1.exc);
    }
    var d2 := GetDependencyChildren(g2, n2, edgeAttrib);
    if d2.Raise? {
      return Raise(d2.exc);
    }
    var rels1 := GroupByRelation(d1.value);
    var rels2 := GroupByRelation(d2.value);
    r := MatchShared(g1, g2, d1.value, d2.value, nodeAttrib, rels1, rels2);
  }

  /** The loop over the relations both nodes have, and for each the loops over its two
      lists of targets. */
  method MatchShared(g1: DepGraph, g2: DepGraph, c1: set<(string, int)>, c2: set<(string, int)>, attrib: string,
                     rels1: map<string, seq<int>>, rels2: map<string, seq<int>>)
    returns (r: Result<set<(int, int)>>)
    requires forall rel, t :: (rel, t) in c1 <==> rel in rels1 && t in rels1[rel]
    requires forall rel, t :: (rel, t) in c2 <==> rel in rels2 && t in rels2[rel]
    requires forall rel :: rel in rels1 ==> rels1[rel] != []
    requires forall rel :: rel in rels2 ==> rels2[rel] != []
    ensures r == Matches(g1, g2, c1, c2, attrib)
  {
    var shared := rels1.Keys * rels2.Keys;
    var todo := shared;
    var found: set<(int, int)> := {};
    MatchesOutsideEnds(g1, g2, c1, c2, attrib, rels1, rels2);
    while todo != {}
      invariant todo <= shared
      invariant forall rel :: rel in shared - todo ==> !MissingWordOver(g1, g2, c1, c2, attrib, rel)
      invariant found == MatchesOutside(g1, g2, c1, c2, attrib, todo)
      decreases |todo|
    {
      var rel :| rel in todo;
      var part := MatchRelation(g1, g2, rels1[rel], rels2[rel], attrib);
      RelationPartFails(g1, g2, c1, c2, attrib, rels1, rels2, rel);
      if part.Raise? {
        MissingWordOverIsMissing(g1, g2, c1, c2, attrib, rel);
        return Raise(KeyError);
      }
      RelationPartValue(g1, g2, c1, c2, attrib, rels1, rels2, rel);
      MatchesOutsideStep(g1, g2, c1, c2, attrib, todo, rel);
      found := found + part.value;
      todo := todo - {rel};
    }
    if MissingWord(g1, g2, c1, c2, attrib) {
      MissingWordOverShared(g1, g2, c1, c2, attrib, rels1, rels2);
      assert false;
    }
    return Ok(found);
  }

  // ---------------------------------------------------------------------------------------
  // count_common_subgraphs
  // ---------------------------------------------------------------------------------------

  /** One pass of `result *= (count_common_subgraphs(...) + 2)` in front of the product of
      the remaining factors: the count's KeyError comes first, then the rest's. */
  function Step(c: Result<int>, rest: Result<int>): Result<int> {
    match c
    case Raise(e) => Raise(e)
    case Ok(v) =>
      match rest
      case Raise(e) => Raise(e)
      case Ok(w) => Ok(Times(v + 2, w))
  }

  /** `count_common_subgraphs(graph1, graph2, n1, n2, node_attrib, edge_attrib)`, the
      Collins–Duffy count C(n1, n2) of the common subgraphs rooted at `n1` and `n2`: nothing
      when the two words differ or one node has no children, and otherwise the product,
      over the common targets, of their own count plus two, less one. The counts of the
      targets are taken with 'label' for both attributes, whatever the caller named. */
  ghost function CountCommon(g1: DepGraph, g2: DepGraph, n1: int, n2: int, nodeAttrib: string, edgeAttrib: string): (r: Result<int>)
    requires Wf(g1) && Wf(g2)
    ensures r == Raise(AssertionError) <==> !Acyclic(g1) || !Acyclic(g2)
    ensures r.Raise? ==> r.exc == AssertionError || r.exc == KeyError
    ensures r.Ok? ==> r.value >= 0
    decreases if Acyclic(g1) && n1 in g1.succ then Rank(g1, n1) else 0, 4
  {
    if !Acyclic(g1) || !Acyclic(g2) then Raise(AssertionError)
    else if n1 !in g1.succ || n2 !in g2.succ then Raise(KeyError)
    else CountBelow(g1, g2, n1, n2, nodeAttrib, edgeAttrib)
  }

  /** The count once both graphs have passed the acyclicity assertion. */
  ghost function CountBelow(g1: DepGraph, g2: DepGraph, n1: int, n2: int, nodeAttrib: string, edgeAttrib: string): (r: Result<int>)
    requires Wf(g1) && Wf(g2) && Acyclic(g1) && Acyclic(g2) && n1 in g1.succ && n2 in g2.succ
    ensures r.Raise? ==> r.exc == KeyError
    ensures r.Ok? ==> r.value >= 0
    decreases Rank(g1, n1), 3
  {
    var w1 :- NodeLabel(g1, n1, nodeAttrib);
    var w2 :- NodeLabel(g2, n2, nodeAttrib);
    if w1 != w2 then Ok(0) else CountOfChildren(g1, g2, n1, n2, nodeAttrib, edgeAttrib)
  }

  /** The count once the two words agree: nothing when one node has no children. */
  ghost function CountOfChildren(g1: DepGraph, g2: DepGraph, n1: int, n2: int, nodeAttrib: string, edgeAttrib: string): (r: Result<int>)
    requires Wf(g1) && Wf(g2) && Acyclic(g1) && Acyclic(g2) && n1 in g1.succ && n2 in g2.succ
    ensures r.Raise? ==> r.exc == KeyError
    ensures r.Ok? ==> r.value >= 0
    decreases Rank(g1, n1), 2
  {
    var c1 :- DependencyChildren(g1, n1, edgeAttrib);
    var c2 :- DependencyChildren(g2, n2, edgeAttrib);
    if c1 == {} || c2 == {} then Ok(0) else CountOfTargets(g1, g2, n1, n2, nodeAttrib)
  }

  /** The count once both nodes have children: the product over the common targets, less
      one. */
  ghost function CountOfTargets(g1: DepGraph, g2: DepGraph, n1: int, n2: int, nodeAttrib: string): (r: Result<int>)
    requires Wf(g1) && Wf(g2) && Acyclic(g1) && Acyclic(g2) && n1 in g1.succ && n2 in g2.succ
    ensures r.Raise? ==> r.exc == KeyError
    ensures r.Ok? ==> r.value >= 0
    decreases Rank(g1, n1), 1
  {
    var targets :- CommonTargets(g1, g2, n1, n2, nodeAttrib, "label");
    LessOne(ProductOver(g1, g2, n1, n2, targets))
  }

  /** `result - 1`, once the product has been taken without a KeyError. */
  function LessOne(product: Result<int>): (r: Result<int>)
    ensures product.Raise? ==> r == product
    ensures product.Ok? ==> r == Ok(product.value - 1)
  {
    if product.Ok? then Ok(product.value - 1) else product
  }

  /** The product, over the pairs of `ts` taken in any order, of the count at the pair plus
      two. */
  ghost function ProductOver(g1: DepGraph, g2: DepGraph, n1: int, n2: int, ts: set<(int, int)>): (r: Result<int>)
    requires Wf(g1) && Wf(g2) && Acyclic(g1) && Acyclic(g2) && n1 in g1.succ
    requires forall a, b :: (a, b) in ts ==> HasEdge(g1, n1, a)
    ensures r.Raise? ==> r.exc == KeyError
    ensures r.Ok? ==> r.value >= 1 && (ts != {} ==> r.value >= 2)
    decreases Rank(g1, n1), 0, |ts|
  {
    if ts == {} then Ok(1)
    else
      var p := Pick(ts);
      var (a, b) := p;
      assert (a, b) in ts;
      RankDecreases(g1, n1, a);
      var c := CountCommon(g1, g2, a, b, "label", "label");
      assert c.Raise? ==> c.exc == KeyError;
      assert |ts - {p}| < |ts|;
      assert forall x, y :: (x, y) in ts - {p} ==> (x, y) in ts;
      var rest := ProductOver(g1, g2, n1, n2, ts - {p});
      StepBounds(c, rest);
      Step(c, rest)
  }

  /** The product of two counts. */
  function Times(a: int, b: int): int {
    a * b
  }

  /** A count is never negative and a product at least one, so one more factor makes the
      product at least two; and only a KeyError gets through. */
  lemma StepBounds(c: Result<int>, rest: Result<int>)
    requires c.Ok? ==> c.value >= 0
    requires rest.Ok? ==> rest.value >= 1
    requires c.Raise? ==> c.exc == KeyError
    requires rest.Raise? ==> rest.exc == KeyError
    ensures Step(c, rest).Ok? ==> Step(c, rest).value >= 2
    ensures Step(c, rest).Raise? ==> Step(c, rest).exc == KeyError
  {
  }

  /** The pair the product takes first. */
  ghost function Pick(ts: set<(int, int)>): (p: (int, int))
    requires ts != {}
    ensures p in ts
  {
    var p :| p in ts;
    p
  }

  /** Two factors whose only failure is a KeyError give the same outcome in either order. */
  lemma StepCommutes(c: Result<int>, d: Result<int>, rest: Result<int>)
    requires c.Raise? ==> c.exc == KeyError
    requires d.Raise? ==> d.exc == KeyError
    requires rest.Raise? ==> rest.exc == KeyError
    ensures Step(c, Step(d, rest)) == Step(d, Step(c, rest))
  {
    if c.Ok? && d.Ok? && rest.Ok? {
      var x, y, w := c.value + 2, d.value + 2, rest.value;
      assert Times(x, Times(y, w)) == y * (x * w) == Times(y, Times(x, w));
    }
  }

  /** The product does not depend on the order in which the loop takes the common
      targets: any of them may come first. */
  lemma {:induction false} ProductPick(g1: DepGraph, g2: DepGraph, n1: int, n2: int, ts: set<(int, int)>, x: (int, int))
    requires Wf(g1) && Wf(g2) && Acyclic(g1) && Acyclic(g2) && n1 in g1.succ
    requires forall a, b :: (a, b) in ts ==> HasEdge(g1, n1, a)
    requires x in ts
    ensures ProductOver(g1, g2, n1, n2, ts) ==
      Step(CountCommon(g1, g2, x.0, x.1, "label", "label"), ProductOver(g1, g2, n1, n2, ts - {x}))
    decreases |ts|
  {
    var p := Pick(ts);
    if p != x {
      ProductPick(g1, g2, n1, n2, ts - {p}, x);
      ProductPick(g1, g2, n1, n2, ts - {x}, p);
      assert ts - {p} - {x} == ts - {x} - {p};
      StepCommutes(CountCommon(g1, g2, p.0, p.1, "label", "label"), CountCommon(g1, g2, x.0, x.1, "label", "label"),
        ProductOver(g1, g2, n1, n2, ts - {p} - {x}));
    }
  }

  /** `k` times the outcome of the remaining factors. */
  function Scale(k: int, r: Result<int>): Result<int> {
    match r
    case Raise(e) => Raise(e)
    case Ok(v) => Ok(Times(k, v))
  }

  method CountCommonSubgraphs(g1: DepGraph, g2: DepGraph, n1: int, n2: int, nodeAttrib: string, edgeAttrib: string)
    returns (r: Result<int>)
    requires Wf(g1) && Wf(g2)
    ensures r == CountCommon(g1, g2, n1, n2, nodeAttrib, edgeAttrib)
    decreases if Acyclic(g1) && n1 in g1.succ then Rank(g1, n1) else 0, 4
  {
    if !Acyclic(g1) || !Acyclic(g2) {
      return Raise(AssertionError);
    }
    if n1 !in g1.succ || n2 !in g2.succ {
      return Raise(KeyError);
    }
    r := CountBelowNodes(g1, g2, n1, n2, nodeAttrib, edgeAttrib);
  }

  /** The body of `count_common_subgraphs` after its assertions. */
  method CountBelowNodes(g1: DepGraph, g2: DepGraph, n1: int, n2: int, nodeAttrib: string, edgeAttrib: string)
    returns (r: Result<int>)
    requires Wf(g1) && Wf(g2) && Acyclic(g1) && Acyclic(g2) && n1 in g1.succ && n2 in g2.succ
    ensures r == CountBelow(g1, g2, n1, n2, nodeAttrib, edgeAttrib)
    decreases Rank(g1, n1), 3
  {
    var w1 := NodeLabel(g1, n1, nodeAttrib);
    var w2 := NodeLabel(g2, n2, nodeAttrib);
    if w1.Raise? || w2.Raise? {
      return Raise(KeyError);
    }
    if w1.value != w2.value {
      return Ok(0);
    }
    assert CountBelow(g1, g2, n1, n2, nodeAttrib, edgeAttrib) == CountOfChildren(g1, g2, n1, n2, nodeAttrib, edgeAttrib);
    var c1 := GetDependencyChildren(g1, n1, edgeAttrib);
    if c1.Raise? {
      return Raise(c1.exc);
    }
    var c2 := GetDependencyChildren(g2, n2, edgeAttrib);
    if c2.Raise? {
      return Raise(c2.exc);
    }
    if c1.value == {} || c2.value == {} {
      return Ok(0);
    }
    assert CountOfChildren(g1, g2, n1, n2, nodeAttrib, edgeAttrib) == CountOfTargets(g1, g2, n1, n2, nodeAttrib);
    var targets := CommonDependencyTargets(g1, g2, n1, n2, nodeAttrib, "label");
    if targets.Raise? {
      return Raise(targets.exc);
    }
    var product := MultiplyCounts(g1, g2, n1, n2, targets.value);
    CountOfTargetsOfProduct(g1, g2, n1, n2, nodeAttrib, targets.value);
    if product.Raise? {
      return Raise(product.exc);
    }
    return Ok(product.value - 1);
  }

  /** Past the word and children checks, the count is the product less one. */
  lemma CountBelowOfProduct(g1: DepGraph, g2: DepGraph, n1: int, n2: int, nodeAttrib: string, edgeAttrib: string, ts: set<(int, int)>)
    requires Wf(g1) && Wf(g2) && Acyclic(g1) && Acyclic(g2) && n1 in g1.succ && n2 in g2.succ
    requires NodeLabel(g1, n1, nodeAttrib).Ok? && NodeLabel(g1, n1, nodeAttrib) == NodeLabel(g2, n2, nodeAttrib)
    requires DependencyChildren(g1, n1, edgeAttrib).Ok? && DependencyChildren(g1, n1, edgeAttrib).value != {}
    requires DependencyChildren(g2, n2, edgeAttrib).Ok? && DependencyChildren(g2, n2, edgeAttrib).value != {}
    requires CommonTargets(g1, g2, n1, n2, nodeAttrib, "label") == Ok(ts)
    ensures CountBelow(g1, g2, n1, n2, nodeAttrib, edgeAttrib) == LessOne(ProductOver(g1, g2, n1, n2, ts))
  {
    assert CountBelow(g1, g2, n1, n2, nodeAttrib, edgeAttrib) == CountOfChildren(g1, g2, n1, n2, nodeAttrib, edgeAttrib);
    assert CountOfChildren(g1, g2, n1, n2, nodeAttrib, edgeAttrib) == CountOfTargets(g1, g2, n1, n2, nodeAttrib);
    CountOfTargetsOfProduct(g1, g2, n1, n2, nodeAttrib, ts);
  }

  lemma CountOfTargetsOfProduct(g1: DepGraph, g2: DepGraph, n1: int, n2: int, nodeAttrib: string, ts: set<(int, int)>)
    requires Wf(g1) && Wf(g2) && Acyclic(g1) && Acyclic(g2) && n1 in g1.succ && n2 in g2.succ
    requires CommonTargets(g1, g2, n1, n2, nodeAttrib, "label") == Ok(ts)
    ensures CountOfTargets(g1, g2, n1, n2, nodeAttrib) == LessOne(ProductOver(g1, g2, n1, n2, ts))
  {
  }

  /** The loop `for n1_target, n2_target in ...: result *= (count_common_subgraphs(...) + 2)`. */
  method MultiplyCounts(g1: DepGraph, g2: DepGraph, n1: int, n2: int, targets: set<(int, int)>)
    returns (r: Result<int>)
    requires Wf(g1) && Wf(g2) && Acyclic(g1) && Acyclic(g2) && n1 in g1.succ
    requires forall a, b :: (a, b) in targets ==> HasEdge(g1, n1, a)
    ensures r == ProductOver(g1, g2, n1, n2, targets)
    decreases Rank(g1, n1), 0
  {
    var result := 1;
    var todo := targets;
    ScaleOne(ProductOver(g1, g2, n1, n2, targets));
    while todo != {}
      invariant todo <= targets
      invariant ProductOver(g1, g2, n1, n2, targets) == Scale(result, ProductOver(g1, g2, n1, n2, todo))
      decreases |todo|
    {
      var p :| p in todo;
      var (a, b) := p;
      assert (a, b) in targets;
      RankDecreases(g1, n1, a);
      ProductPick(g1, g2, n1, n2, todo, p);
      var count := CountCommonSubgraphs(g1, g2, a, b, "label", "label");
      ScaleStep(ProductOver(g1, g2, n1, n2, targets), result, count, ProductOver(g1, g2, n1, n2, todo - {p}));
      if count.Raise? {
        return Raise(count.exc);
      }
      result := result * (count.value + 2);
      todo := todo - {p};
    }
    return Ok(result);
  }

  lemma ScaleOne(r: Result<int>)
    ensures Scale(1, r) == r
  {
  }

  /** One pass of the loop: a failing count ends it with its KeyError, and otherwise its
      factor moves from the rest of the product into the accumulated result. */
  lemma ScaleStep(total: Result<int>, k: int, c: Result<int>, rest: Result<int>)
    requires total == Scale(k, Step(c, rest))
    ensures c.Raise? ==> total == Raise(c.exc)
    ensures c.Ok? ==> total == Scale(k * (c.value + 2), rest)
  {
    if c.Ok? && rest.Ok? {
      assert Times(k, Times(c.value + 2, rest.value)) == Times(k * (c.value + 2), rest.value);
    }
  }

  /** The count is zero exactly when the words differ, or when one node has no children, or
      when the two nodes have no common target, provided the lookups on the way succeed. */
  lemma CountZeroIff(g1: DepGraph, g2: DepGraph, n1: int, n2: int, nodeAttrib: string, edgeAttrib: string)
    requires Wf(g1) && Wf(g2) && Acyclic(g1) && Acyclic(g2) && n1 in g1.succ && n2 in g2.succ
    requires NodeLabel(g1, n1, nodeAttrib).Ok? && NodeLabel(g2, n2, nodeAttrib).Ok?
    ensures NodeLabel(g1, n1, nodeAttrib) != NodeLabel(g2, n2, nodeAttrib) ==>
      CountCommon(g1, g2, n1, n2, nodeAttrib, edgeAttrib) == Ok(0)
    ensures (NodeLabel(g1, n1, nodeAttrib) == NodeLabel(g2, n2, nodeAttrib) &&
      DependencyChildren(g1, n1, edgeAttrib).Ok? && DependencyChildren(g2, n2, edgeAttrib).Ok?) ==>
      var c1, c2 := DependencyChildren(g1, n1, edgeAttrib).value, DependencyChildren(g2, n2, edgeAttrib).value;
      var r := CountCommon(g1, g2, n1, n2, nodeAttrib, edgeAttrib);
      && (c1 == {} || c2 == {} ==> r == Ok(0))
      && (c1 != {} && c2 != {} && r.Ok? ==>
           (r.value == 0 <==> CommonTargets(g1, g2, n1, n2, nodeAttrib, "label") == Ok({})))
  {
    assert CountCommon(g1, g2, n1, n2, nodeAttrib, edgeAttrib) == CountBelow(g1, g2, n1, n2, nodeAttrib, edgeAttrib);
    if NodeLabel(g1, n1, nodeAttrib) == NodeLabel(g2, n2, nodeAttrib) {
      assert CountBelow(g1, g2, n1, n2, nodeAttrib, edgeAttrib) == CountOfChildren(g1, g2, n1, n2, nodeAttrib, edgeAttrib);
      var c1 := DependencyChildren(g1, n1, edgeAttrib);
      var c2 := DependencyChildren(g2, n2, edgeAttrib);
      if c1.Ok? && c2.Ok? && c1.value != {} && c2.value != {} {
        assert CountOfChildren(g1, g2, n1, n2, nodeAttrib, edgeAttrib) == CountOfTargets(g1, g2, n1, n2, nodeAttrib);
        var targets := CommonTargets(g1, g2, n1, n2, nodeAttrib, "label");
        if targets.Ok? {
          CountOfTargetsOfProduct(g1, g2, n1, n2, nodeAttrib, targets.value);
        }
      }
    }
  }

  /** With a single common target (a, b) the count is one more than the count at (a, b),
      which is taken with 'label' for both attributes. */
  lemma CountOneTarget(g1: DepGraph, g2: DepGraph, n1: int, n2: int, nodeAttrib: string, edgeAttrib: string, a: int, b: int)
    requires Wf(g1) && Wf(g2) && Acyclic(g1) && Acyclic(g2) && n1 in g1.succ && n2 in g2.succ
    requires NodeLabel(g1, n1, nodeAttrib).Ok? && NodeLabel(g1, n1, nodeAttrib) == NodeLabel(g2, n2, nodeAttrib)
    requires DependencyChildren(g1, n1, edgeAttrib).Ok? && DependencyChildren(g1, n1, edgeAttrib).value != {}
    requires DependencyChildren(g2, n2, edgeAttrib).Ok? && DependencyChildren(g2, n2, edgeAttrib).value != {}
    requires CommonTargets(g1, g2, n1, n2, nodeAttrib, "label") == Ok({(a, b)})
    ensures var inner := CountCommon(g1, g2, a, b, "label", "label");
      CountCommon(g1, g2, n1, n2, nodeAttrib, edgeAttrib) == if inner.Ok? then Ok(inner.value + 1) else inner
  {
    CountCommonOfTargets(g1, g2, n1, n2, nodeAttrib, edgeAttrib);
    CountOfOneTarget(g1, g2, n1, n2, nodeAttrib, a, b);
  }

  /** Past the word and children checks, the count is that of the common targets. */
  lemma CountCommonOfTargets(g1: DepGraph, g2: DepGraph, n1: int, n2: int, nodeAttrib: string, edgeAttrib: string)
    requires Wf(g1) && Wf(g2) && Acyclic(g1) && Acyclic(g2) && n1 in g1.succ && n2 in g2.succ
    requires NodeLabel(g1, n1, nodeAttrib).Ok? && NodeLabel(g1, n1, nodeAttrib) == NodeLabel(g2, n2, nodeAttrib)
    requires DependencyChildren(g1, n1, edgeAttrib).Ok? && DependencyChildren(g1, n1, edgeAttrib).value != {}
    requires DependencyChildren(g2, n2, edgeAttrib).Ok? && DependencyChildren(g2, n2, edgeAttrib).value != {}
    ensures CountCommon(g1, g2, n1, n2, nodeAttrib, edgeAttrib) == CountOfTargets(g1, g2, n1, n2, nodeAttrib)
  {
    assert CountCommon(g1, g2, n1, n2, nodeAttrib, edgeAttrib) == CountBelow(g1, g2, n1, n2, nodeAttrib, edgeAttrib);
    assert CountBelow(g1, g2, n1, n2, nodeAttrib, edgeAttrib) == CountOfChildren(g1, g2, n1, n2, nodeAttrib, edgeAttrib);
  }

  lemma CountOfOneTarget(g1: DepGraph, g2: DepGraph, n1: int, n2: int, nodeAttrib: string, a: int, b: int)
    requires Wf(g1) && Wf(g2) && Acyclic(g1) && Acyclic(g2) && n1 in g1.succ && n2 in g2.succ
    requires CommonTargets(g1, g2, n1, n2, nodeAttrib, "label") == Ok({(a, b)})
    ensures var inner := CountCommon(g1, g2, a, b, "label", "label");
      CountOfTargets(g1, g2, n1, n2, nodeAttrib) == if inner.Ok? then Ok(inner.value + 1) else inner
  {
    assert (a, b) in CommonTargets(g1, g2, n1, n2, nodeAttrib, "label").value;
    CountOfTargetsOfProduct(g1, g2, n1, n2, nodeAttrib, {(a, b)});
    ProductOfOneLessOne(g1, g2, n1, n2, a, b);
  }

  /** A product of the single factor (a, b), less one: the count at (a, b) plus one. */
  lemma ProductOfOneLessOne(g1: DepGraph, g2: DepGraph, n1: int, n2: int, a: int, b: int)
    requires Wf(g1) && Wf(g2) && Acyclic(g1) && Acyclic(g2) && HasEdge(g1, n1, a)
    ensures LessOne(ProductOver(g1, g2, n1, n2, {(a, b)})) == PlusOne(CountCommon(g1, g2, a, b, "label", "label"))
  {
    ProductPick(g1, g2, n1, n2, {(a, b)}, (a, b));
    assert {(a, b)} - {(a, b)} == {};
    ProductOfNone(g1, g2, n1, n2);
    LessOneOfSingleStep(ProductOver(g1, g2, n1, n2, {(a, b)}), CountCommon(g1, g2, a, b, "label", "label"),
      ProductOver(g1, g2, n1, n2, {(a, b)} - {(a, b)}));
  }

  lemma ProductOfNone(g1: DepGraph, g2: DepGraph, n1: int, n2: int)
    requires Wf(g1) && Wf(g2) && Acyclic(g1) && Acyclic(g2) && n1 in g1.succ
    ensures ProductOver(g1, g2, n1, n2, {}) == Ok(1)
  {
  }

  lemma LessOneOfSingleStep(total: Result<int>, c: Result<int>, rest: Result<int>)
    requires total == Step(c, rest) && rest == Ok(1)
    ensures LessOne(total) == PlusOne(c)
  {
  }

  /** A count plus one; a failure stays as it is. */
  function PlusOne(c: Result<int>): Result<int> {
    if c.Ok? then Ok(c.value + 1) else c
  }

  // Symmetry of the count

  /** The Collins–Duffy count is symmetric: exchanging the two graphs, and their nodes,
      gives the same outcome. */
  lemma CountCommonSymmetric(g1: DepGraph, g2: DepGraph, n1: int, n2: int, nodeAttrib: string, edgeAttrib: string)
    requires Wf(g1) && Wf(g2)
    ensures CountCommon(g2, g1, n2, n1, nodeAttrib, edgeAttrib) == CountCommon(g1, g2, n1, n2, nodeAttrib, edgeAttrib)
    decreases if Acyclic(g1) && n1 in g1.succ then Rank(g1, n1) else 0, 4
  {
    if Acyclic(g1) && Acyclic(g2) && n1 in g1.succ && n2 in g2.succ {
      CountBelowSymmetric(g1, g2, n1, n2, nodeAttrib, edgeAttrib);
    }
  }

  lemma CountBelowSymmetric(g1: DepGraph, g2: DepGraph, n1: int, n2: int, nodeAttrib: string, edgeAttrib: string)
    requires Wf(g1) && Wf(g2) && Acyclic(g1) && Acyclic(g2) && n1 in g1.succ && n2 in g2.succ
    ensures CountBelow(g2, g1, n2, n1, nodeAttrib, edgeAttrib) == CountBelow(g1, g2, n1, n2, nodeAttrib, edgeAttrib)
    decreases Rank(g1, n1), 3
  {
    if NodeLabel(g1, n1, nodeAttrib).Ok? && NodeLabel(g1, n1, nodeAttrib) == NodeLabel(g2, n2, nodeAttrib) {
      CountOfChildrenSymmetric(g1, g2, n1, n2, nodeAttrib, edgeAttrib);
    }
  }

  lemma CountOfChildrenSymmetric(g1: DepGraph, g2: DepGraph, n1: int, n2: int, nodeAttrib: string, edgeAttrib: string)
    requires Wf(g1) && Wf(g2) && Acyclic(g1) && Acyclic(g2) && n1 in g1.succ && n2 in g2.succ
    ensures CountOfChildren(g2, g1, n2, n1, nodeAttrib, edgeAttrib) == CountOfChildren(g1, g2, n1, n2, nodeAttrib, edgeAttrib)
    decreases Rank(g1, n1), 2
  {
    if && DependencyChildren(g1, n1, edgeAttrib).Ok? && DependencyChildren(g1, n1, edgeAttrib).value != {}
       && DependencyChildren(g2, n2, edgeAttrib).Ok? && DependencyChildren(g2, n2, edgeAttrib).value != {}
    {
      CountOfTargetsSymmetric(g1, g2, n1, n2, nodeAttrib);
    }
  }

  lemma CountOfTargetsSymmetric(g1: DepGraph, g2: DepGraph, n1: int, n2: int, nodeAttrib: string)
    requires Wf(g1) && Wf(g2) && Acyclic(g1) && Acyclic(g2) && n1 in g1.succ && n2 in g2.succ
    ensures CountOfTargets(g2, g1, n2, n1, nodeAttrib) == CountOfTargets(g1, g2, n1, n2, nodeAttrib)
    decreases Rank(g1, n1), 1
  {
    CommonTargetsSwap(g1, g2, n1, n2, nodeAttrib, "label");
    if CommonTargets(g1, g2, n1, n2, nodeAttrib, "label").Ok? {
      ProductSwap(g1, g2, n1, n2, CommonTargets(g1, g2, n1, n2, nodeAttrib, "label").value);
    }
  }

  /** The product over the exchanged pairs, in the exchanged graphs, is the same. */
  lemma {:induction false} ProductSwap(g1: DepGraph, g2: DepGraph, n1: int, n2: int, ts: set<(int, int)>)
    requires Wf(g1) && Wf(g2) && Acyclic(g1) && Acyclic(g2) && n1 in g1.succ && n2 in g2.succ
    requires forall a, b :: (a, b) in ts ==> HasEdge(g1, n1, a) && HasEdge(g2, n2, b)
    ensures ProductOver(g2, g1, n2, n1, Swapped(ts)) == ProductOver(g1, g2, n1, n2, ts)
    decreases Rank(g1, n1), 0, |ts|
  {
    if ts == {} {
      SwappedEmpty(ts);
    } else {
      var p := Pick(ts);
      var (a, b) := p;
      assert (a, b) in ts;
      RankDecreases(g1, n1, a);
      SwappedMinus(ts, a, b);
      ProductPick(g2, g1, n2, n1, Swapped(ts), (b, a));
      ProductSwap(g1, g2, n1, n2, ts - {p});
      CountCommonSymmetric(g1, g2, a, b, "label", "label");
    }
  }

  lemma SwappedEmpty(s: set<(int, int)>)
    requires s == {}
    ensures Swapped(s) == {}
  {
    forall e ensures e !in Swapped(s) {
      var (x, y) := e;
      assert (x, y) in Swapped(s) <==> (y, x) in s;
    }
  }

  lemma SwappedMinus(s: set<(int, int)>, a: int, b: int)
    ensures Swapped(s) - {(b, a)} == Swapped(s - {(a, b)})
  {
    forall e ensures e in Swapped(s) - {(b, a)} <==> e in Swapped(s - {(a, b)}) {
      var (x, y) := e;
      assert (x, y) in Swapped(s) <==> (y, x) in s;
      assert (x, y) in Swapped(s - {(a, b)}) <==> (y, x) in s - {(a, b)};
    }
  }

  // ---------------------------------------------------------------------------------------
  // get_dependency_rules, includes_all_subgraph_rules
  // ---------------------------------------------------------------------------------------

  /** A dependency rule (source word, relation, target word), e.g. ('woman', 'dt', 'the'). */
  datatype DepRule = DepRule(source: string, relation: string, target: string)

  /** The rule of the edge `e`, read from the attribute 'label' of its source, of itself and
      of its target, in that order. */
  function RuleOfEdge(g: DepGraph, e: (int, int)): (r: Result<DepRule>)
    ensures r.Ok? <==> NodeLabel(g, e.0, "label").Ok? && EdgeLabel(g, e.0, e.1, "label").Ok? && NodeLabel(g, e.1, "label").Ok?
    ensures r.Ok? ==> r.value == DepRule(NodeLabel(g, e.0, "label").value, EdgeLabel(g, e.0, e.1, "label").value, NodeLabel(g, e.1, "label").value)
    ensures r.Raise? ==> r.exc == KeyError
  {
    var source :- NodeLabel(g, e.0, "label");
    var relation :- EdgeLabel(g, e.0, e.1, "label");
    var target :- NodeLabel(g, e.1, "label");
    Ok(DepRule(source, relation, target))
  }

  /** The rules of the edges `es`, added one edge at a time; the first missing label stops
      the loop with a KeyError. */
  function RulesOfEdges(g: DepGraph, es: seq<(int, int)>): (r: Result<set<DepRule>>)
    ensures r.Ok? <==> forall e :: e in es ==> RuleOfEdge(g, e).Ok?
    ensures r.Ok? ==> forall rule :: rule in r.value <==> exists e :: e in es && RuleOfEdge(g, e) == Ok(rule)
    ensures r.Raise? ==> r.exc == KeyError
  {
    if es == [] then Ok({})
    else
      var init := es[..|es| - 1];
      var last := es[|es| - 1];
      assert forall e :: e in es <==> e in init || e == last;
      var rules :- RulesOfEdges(g, init);
      var rule :- RuleOfEdge(g, last);
      Ok(rules + {rule})
  }

  /** `if not root_node: root_node = topological_sort(graph)[0]`: node 0 is falsy too. */
  function DependencyRoot(g: DepGraph, root: Option<int>): (r: Result<int>)
    requires Wf(g)
    ensures r.Ok? ==> r.value in g.succ
    ensures root.Some? && root.value != 0 ==> r == if root.value in g.succ then Ok(root.value) else Raise(KeyError)
    ensures root.None? || root == Some(0) ==> r == TopologicalFirst(g)
  {
    ResolveRoot(g, if root == Some(0) then None else root)
  }

  /** `get_dependency_rules(graph, root_node)`: the rules of the depth-first edges from the
      root. The node and edge attribute the function is given are not used: every label is
      read from 'label'. */
  function DependencyRules(g: DepGraph, root: Option<int>): (r: Result<set<DepRule>>)
    requires Wf(g)
    ensures r.Raise? ==> r.exc == KeyError || r.exc == IndexError || r.exc == Unfeasible
    ensures r.Ok? ==> DependencyRoot(g, root).Ok?
    ensures r.Ok? ==> var start := DependencyRoot(g, root).value;
      forall rule :: rule in r.value <==>
        exists e :: e in DfsEdges(g, start) && RuleOfEdge(g, e) == Ok(rule)
  {
    var start :- DependencyRoot(g, root);
    RulesOfEdges(g, DfsEdges(g, start))
  }

  method GetDependencyRules(g: DepGraph, root: Option<int>) returns (rules: Result<set<DepRule>>)
    requires Wf(g)
    ensures rules == DependencyRules(g, root)
  {
    var rootNode: int;
    if root.None? || root == Some(0) {
      var first := TopologicalFirst(g);
      if first.Raise? {
        return Raise(first.exc);
      }
      rootNode := first.value;
    } else {
      rootNode := root.value;
      if rootNode !in g.succ {
        return Raise(KeyError);
      }
    }
    assert DependencyRoot(g, root) == Ok(rootNode);
    rules := CollectRules(g, DfsEdges(g, rootNode));
  }

  /** The loop `for source, target in dfs_edges(graph, root_node): rules.add(...)`. */
  method CollectRules(g: DepGraph, edges: seq<(int, int)>) returns (rules: Result<set<DepRule>>)
    ensures rules == RulesOfEdges(g, edges)
  {
    var found: set<DepRule> := {};
    for i := 0 to |edges|
      invariant RulesOfEdges(g, edges[..i]) == Ok(found)
    {
      assert edges[..i + 1][..i] == edges[..i];
      var rule := RuleOfEdge(g, edges[i]);
      if rule.Raise? {
        RulesOfEdgesPrefixFails(g, edges, i + 1);
        return Raise(KeyError);
      }
      found := found + {rule.value};
    }
    assert edges[..|edges|] == edges;
    return Ok(found);
  }

  lemma RulesOfEdgesPrefixFails(g: DepGraph, es: seq<(int, int)>, i: nat)
    requires i <= |es| && RulesOfEdges(g, es[..i]).Raise?
    ensures RulesOfEdges(g, es) == Raise(KeyError)
  {
    var e :| e in es[..i] && RuleOfEdge(g, e).Raise?;
    assert e in es;
  }

  /** `includes_all_subgraph_rules(graph, subgraph_candidate, subgraph_root_node)`: whether
      every rule of the candidate, searched from its root, is a rule of the graph, searched
      from its first node in topological order. The graph's rules are gathered first. */
  function IncludesAllSubgraphRules(g: DepGraph, sub: DepGraph, subRoot: Option<int>): (r: Result<bool>)
    requires Wf(g) && Wf(sub)
    ensures DependencyRules(g, None).Raise? ==> r == Raise(DependencyRules(g, None).exc)
    ensures DependencyRules(g, None).Ok? ==> r.Ok? == DependencyRules(sub, subRoot).Ok?
    ensures r.Ok? ==> (r.value <==> forall rule :: rule in DependencyRules(sub, subRoot).value ==> rule in DependencyRules(g, None).value)
  {
    var graphRules :- DependencyRules(g, None);
    var subRules :- DependencyRules(sub, subRoot);
    Ok(forall rule :: rule in subRules ==> rule in graphRules)
  }

  /** A root without children gives no rules. */
  lemma DependencyRulesOfLeafRoot(g: DepGraph, root: Option<int>)
    requires Wf(g) && DependencyRoot(g, root).Ok? && g.succ[DependencyRoot(g, root).value] == []
    ensures DependencyRules(g, root) == Ok({})
  {
  }

  /** In a graph in which every node has at most one parent, searched from a node without
      parents, every edge leaving a node the search reaches contributes its rule. */
  lemma DependencyRulesOfForest(g: DepGraph, root: Option<int>, x: int, y: int)
    requires Wf(g) && Forest(g) && DependencyRoot(g, root).Ok? && InDegreeZero(g, DependencyRoot(g, root).value)
    requires x in Reached(g, DependencyRoot(g, root).value) && HasEdge(g, x, y)
    requires DependencyRules(g, root).Ok?
    ensures RuleOfEdge(g, (x, y)).Ok? && RuleOfEdge(g, (x, y)).value in DependencyRules(g, root).value
  {
    DfsEdgesOfForest(g, DependencyRoot(g, root).value);
  }

  /** A graph includes all of its own rules. */
  lemma IncludesOwnRules(g: DepGraph)
    requires Wf(g) && DependencyRules(g, None).Ok?
    ensures IncludesAllSubgraphRules(g, g, None) == Ok(true)
    ensures IncludesAllSubgraphRules(g, g, Some(0)) == Ok(true)
  {
  }

  /** Inclusion of rules chains along candidates searched from their first node. */
  lemma IncludesTransitive(g: DepGraph, h: DepGraph, k: DepGraph, kRoot: Option<int>)
    requires Wf(g) && Wf(h) && Wf(k)
    requires IncludesAllSubgraphRules(g, h, None) == Ok(true) && IncludesAllSubgraphRules(h, k, kRoot) == Ok(true)
    ensures IncludesAllSubgraphRules(g, k, kRoot) == Ok(true)
  {
  }
}
