/** The ESU algorithm of Wernicke (2006), "Efficient Detection of Network Motifs", that
    enumerates the node-induced subgraphs of a given size: open and exclusive
    neighbourhoods, the recursive extension step with its worklist loop, and the two
    drivers that enumerate one size and sizes 1 .. k. Graphs are networkx DiGraphs over
    integer node IDs; as there, the neighbours of a node are its successors. */
module SubgraphEnumeration {
  import opened Exceptions
  import opened Graphs

  type IntGraph = Digraph<int>

  // ---------------------------------------------------------------------------------------
  // Neighbourhoods
  // ---------------------------------------------------------------------------------------

  /** `any(x in s for x in xs)`. */
  function AnyIn(xs: seq<int>, s: set<int>): (b: bool)
    ensures b <==> exists i :: 0 <= i < |xs| && xs[i] in s
  {
    if xs == [] then false
    else if xs[0] in s then true
    else
      var b := AnyIn(xs[1..], s);
      assert forall i :: 0 < i < |xs| ==> xs[i] == xs[1..][i - 1];
      b
  }

  /** An arbitrary element of `s` (`random.choice`, or the order a set is iterated in). */
  method Choose<T>(s: set<T>) returns (x: T)
    requires s != {}
    ensures x in s
  {
    x :| x in s;
  }

  /** Some neighbour (successor) of `v` lies in `s`. */
  predicate HasNeighborIn(g: IntGraph, v: int, s: set<int>)
    requires v in g.succ
  {
    exists i :: 0 <= i < |g.succ[v]| && g.succ[v][i] in s
  }

  /** N(V'): the nodes outside `sub` with a neighbour in `sub`. */
  function OpenNeighborhoodSet(g: IntGraph, sub: set<int>): (r: set<int>)
    ensures r !! sub
    ensures forall v :: v in r ==> v in g.succ && HasNeighborIn(g, v, sub)
    ensures forall v :: v in g.succ && v !in sub && HasNeighborIn(g, v, sub) ==> v in r
  {
    set v | v in g.succ && v !in sub && HasNeighborIn(g, v, sub)
  }

  /** `open_neighborhood`: walks the nodes outside the subset and keeps those with a
      neighbour inside it. */
  method OpenNeighborhood(g: IntGraph, sub: set<int>) returns (nbh: set<int>)
    ensures nbh == OpenNeighborhoodSet(g, sub)
  {
    nbh := {};
    var nodeSet := g.succ.Keys;
    var todo := nodeSet - sub;
    while todo != {}
      invariant todo <= nodeSet - sub
      invariant nbh == OpenNeighborhoodSet(g, sub) * (nodeSet - sub - todo)
      decreases |todo|
    {
      var v := Choose(todo);
      if AnyIn(g.succ[v], sub) {
        nbh := nbh + {v};
      }
      todo := todo - {v};
    }
  }

  /** The exclusive neighbourhood of `v` with respect to `sub`: the neighbours of `v` in
      neither `sub` nor N(sub). `v` must lie outside `sub` (an assertion), and must be a node
      of the graph (networkx refuses to list the neighbours of anything else). */
  function ExclusiveNeighborhoodOf(g: IntGraph, v: int, sub: set<int>): (r: Result<set<int>>)
    requires Wf(g)
    ensures r == Raise(AssertionError) <==> v in sub
    ensures r == Raise(NetworkXError) <==> v !in sub && v !in g.succ
    ensures r.Ok? ==> v in g.succ && forall w :: w in r.value <==>
                        HasEdge(g, v, w) && w !in sub && w !in OpenNeighborhoodSet(g, sub)
    ensures r.Ok? ==> forall w, u :: w in r.value && u in sub ==> !HasEdge(g, w, u)
  {
    if v in sub then Raise(AssertionError)
    else if v !in g.succ then Raise(NetworkXError)
    else Ok(set w | w in g.succ[v] && w !in sub && w !in OpenNeighborhoodSet(g, sub))
  }

  /** `exclusive_neighborhood`. */
  method ExclusiveNeighborhood(g: IntGraph, v: int, sub: set<int>) returns (r: Result<set<int>>)
    requires Wf(g)
    ensures r == ExclusiveNeighborhoodOf(g, v, sub)
  {
    if v in sub {
      return Raise(AssertionError);
    }
    var open := OpenNeighborhood(g, sub);
    if v !in g.succ {
      return Raise(NetworkXError);
    }
    var nbrs := g.succ[v];
    var excl := {};
    for i := 0 to |nbrs|
      invariant excl == set w | w in nbrs[..i] && w !in sub && w !in open
    {
      assert nbrs[..i + 1] == nbrs[..i] + [nbrs[i]];
      if nbrs[i] !in sub && nbrs[i] !in open {
        excl := excl + {nbrs[i]};
      }
    }
    assert nbrs[..|nbrs|] == nbrs;
    return Ok(excl);
  }

  /** A node is never its own neighbour. */
  predicate NoSelfLoops(g: IntGraph) {
    forall u :: u in g.succ ==> u !in g.succ[u]
  }

  /** Why self-loops matter: a node with an edge to itself and none into `sub` is its own
      exclusive neighbour, so extending by it puts it back into the next extension set,
      where the assertion of the next exclusive neighbourhood rejects it. */
  lemma SelfLoopIsOwnExclusiveNeighbor(g: IntGraph, w: int, sub: set<int>)
    requires Wf(g) && HasEdge(g, w, w) && w !in sub
    requires forall u :: u in sub ==> !HasEdge(g, w, u)
    ensures ExclusiveNeighborhoodOf(g, w, sub).Ok?
    ensures w in ExclusiveNeighborhoodOf(g, w, sub).value
  {
    forall i | 0 <= i < |g.succ[w]| ensures g.succ[w][i] !in sub {
      assert HasEdge(g, w, g.succ[w][i]);
    }
  }

  // ---------------------------------------------------------------------------------------
  // The extension step
  // ---------------------------------------------------------------------------------------

  /** What `extend_subgraph` returns: one subgraph once the node set is complete, a list of
      subgraphs otherwise. */
  datatype Extension = Subgraph(graph: IntGraph) | Subgraphs(graphs: seq<IntGraph>)

  /** The subgraphs an extension contributes to a list (`append` or `extend`). */
  function Flatten(e: Extension): (hs: seq<IntGraph>)
    ensures e.Subgraph? ==> hs == [e.graph]
    ensures e.Subgraphs? ==> hs == e.graphs
  {
    match e
    case Subgraph(h) => [h]
    case Subgraphs(hs) => hs
  }

  /** `h` is the subgraph of `g` induced by a set of `k` of its nodes. */
  predicate InducedOfSize(g: IntGraph, h: IntGraph, k: int)
    requires Wf(g)
  {
    && h.succ.Keys <= g.succ.Keys
    && h == Induced(g, h.succ.Keys)
    && |h.succ.Keys| == k
  }

  /** `h` is one of the subgraphs that extending `sub` by `ext` can yield: induced by `k`
      nodes, `sub` among them, and every added node taken from `ext` or above the start
      node `node`. */
  predicate GrownFrom(g: IntGraph, k: int, sub: set<int>, ext: set<int>, node: int, h: IntGraph)
    requires Wf(g)
  {
    && InducedOfSize(g, h, k)
    && sub <= h.succ.Keys
    && forall x :: x in h.succ.Keys && x !in sub ==> x in ext || x > node
  }

  /** `extend_subgraph(graph, k, subgraph_nodes, extension_nodes, node)`: once `sub` holds
      `k` nodes, the subgraph it induces; otherwise, as long as `ext` is not empty, take an
      arbitrary node `w` out of it, extend by the remaining nodes and the exclusive
      neighbours of `w` above `node`, recurse on `sub` plus `w`, and collect the results.
      The arbitrary choice stands for `random.choice`. Every subgraph found has `k` nodes and
      contains `sub`, and no error occurs when the sets are nodes of a graph without
      self-loops, `ext` lying outside `sub`. */
  method ExtendSubgraph(g: IntGraph, k: int, sub: set<int>, ext: set<int>, node: int)
    returns (r: Result<Extension>)
    requires Wf(g)
    ensures |sub| == k ==> r == Ok(Subgraph(Induced(g, sub)))
    ensures |sub| != k && r.Ok? ==> r.value.Subgraphs?
    ensures |sub| != k && ext == {} ==> r == Ok(Subgraphs([]))
    ensures r.Ok? && sub <= g.succ.Keys ==>
              forall h :: h in Flatten(r.value) ==> GrownFrom(g, k, sub, ext, node, h)
    ensures r.Raise? ==> r.exc == AssertionError || r.exc == NetworkXError
    ensures r.Raise? && ext <= g.succ.Keys ==> r.exc == AssertionError
    ensures sub <= g.succ.Keys && ext <= g.succ.Keys && ext !! sub && NoSelfLoops(g) ==> r.Ok?
    decreases |g.succ.Keys - sub|, 1
  {
    if |sub| == k {
      var h := Induced(g, sub);
      if sub <= g.succ.Keys {
        GrownBase(g, sub, ext, node);
        assert forall h' :: h' in [h] ==> h' == h;
      }
      return Ok(Subgraph(h));
    }
    var all: seq<IntGraph> := [];
    var todo := ext;
    while todo != {}
      invariant todo <= ext
      invariant ext == {} ==> all == []
      invariant sub <= g.succ.Keys ==>
                  forall h :: h in all ==> GrownFrom(g, k, sub, ext, node, h)
      decreases |todo|
    {
      var w := Choose(todo);
      todo := todo - {w};
      var more :- ExtendBy(g, k, sub, ext, todo, w, node);
      all := all + more;
    }
    return Ok(Subgraphs(all));
  }

  /** One pass of the loop of `extend_subgraph`: with `w` taken out of the worklist, leaving
      `todo`, extend `sub` plus `w` by `todo` and the exclusive neighbours of `w` above
      `node`, and return the subgraphs found. */
  method ExtendBy(g: IntGraph, k: int, sub: set<int>, ext: set<int>, todo: set<int>, w: int,
                  node: int)
    returns (r: Result<seq<IntGraph>>)
    requires Wf(g)
    requires w in ext && todo <= ext && w !in todo
    ensures r.Ok? && sub <= g.succ.Keys ==>
              forall h :: h in r.value ==> GrownFrom(g, k, sub, ext, node, h)
    ensures r.Raise? ==> r.exc == AssertionError || r.exc == NetworkXError
    ensures r.Raise? && ext <= g.succ.Keys ==> r.exc == AssertionError
    ensures sub <= g.succ.Keys && ext <= g.succ.Keys && ext !! sub && NoSelfLoops(g) ==> r.Ok?
    decreases |g.succ.Keys - sub|, 0
  {
    var excl :- ExclusiveNeighborhood(g, w, sub);
    var vbar := todo + set x | x in excl && x > node;
    ExtensionShrinks(g, sub, w);
    if sub <= g.succ.Keys && ext <= g.succ.Keys && ext !! sub && NoSelfLoops(g) {
      ExtensionStaysOutside(g, sub, ext, todo, w, excl, node);
    }
    var found :- ExtendSubgraph(g, k, sub + {w}, vbar, node);
    var more := Flatten(found);
    if sub <= g.succ.Keys {
      forall h | h in more ensures GrownFrom(g, k, sub, ext, node, h) {
        GrownStep(g, k, sub, ext, vbar, w, node, h);
      }
    }
    return Ok(more);
  }

  /** The subgraph induced by a complete node set is the one subgraph grown from it. */
  lemma GrownBase(g: IntGraph, sub: set<int>, ext: set<int>, node: int)
    requires Wf(g) && sub <= g.succ.Keys
    ensures GrownFrom(g, |sub|, sub, ext, node, Induced(g, sub))
  {
    var h := Induced(g, sub);
    assert h.succ.Keys == sub;
  }

  /** Adding a node of the graph that lies outside `sub` leaves fewer nodes outside. */
  lemma ExtensionShrinks(g: IntGraph, sub: set<int>, w: int)
    requires w in g.succ && w !in sub
    ensures |g.succ.Keys - (sub + {w})| < |g.succ.Keys - sub|
  {
    assert g.succ.Keys - (sub + {w}) == g.succ.Keys - sub - {w};
  }

  /** In a graph without self-loops, the next extension set (the rest of the worklist and
      the exclusive neighbours of `w` above `node`) is made of nodes outside `sub` plus `w`. */
  lemma ExtensionStaysOutside(g: IntGraph, sub: set<int>, ext: set<int>, todo: set<int>, w: int,
                              excl: set<int>, node: int)
    requires Wf(g) && NoSelfLoops(g)
    requires ext <= g.succ.Keys && ext !! sub
    requires todo <= ext && w !in todo
    requires ExclusiveNeighborhoodOf(g, w, sub) == Ok(excl)
    ensures todo + (set x | x in excl && x > node) <= g.succ.Keys
    ensures todo + (set x | x in excl && x > node) !! sub + {w}
  {
    assert w in g.succ && w !in g.succ[w];
  }

  /** A subgraph grown from `sub` plus `w` by `vbar` is grown from `sub` by `ext`, when `w`
      comes from `ext` and `vbar` holds nodes of `ext` and nodes above `node`. */
  lemma GrownStep(g: IntGraph, k: int, sub: set<int>, ext: set<int>, vbar: set<int>, w: int,
                  node: int, h: IntGraph)
    requires Wf(g)
    requires w in ext
    requires forall x :: x in vbar ==> x in ext || x > node
    requires GrownFrom(g, k, sub + {w}, vbar, node, h)
    ensures GrownFrom(g, k, sub, ext, node, h)
  {
  }

  // ---------------------------------------------------------------------------------------
  // The drivers
  // ---------------------------------------------------------------------------------------

  /** `h` is a subgraph of `k` nodes whose smallest node is `v`. */
  predicate StartedAt(g: IntGraph, k: int, h: IntGraph, v: int)
    requires Wf(g)
  {
    && InducedOfSize(g, h, k)
    && v in h.succ.Keys
    && forall x :: x in h.succ.Keys ==> v <= x
  }

  /** No edge leads to a larger node. Extension sets take only neighbours above the start
      node, and the neighbours of a node in a DiGraph are its successors, so on such a
      graph no subgraph with more than one node is ever grown. */
  predicate Descending(g: IntGraph) {
    forall u, v :: u in g.succ && v in g.succ[u] ==> v <= u
  }

  /** The graph with nodes 1 and 2 and the one edge 2 -> 1. */
  function TwoToOne(): (g: IntGraph)
    ensures Wf(g)
  {
    var g := Digraph([1, 2], map[1 := [], 2 := [1]], map[1 := map[], 2 := map[]],
                     map[(2, 1) := map[]]);
    assert forall u, v :: u in g.succ && v in g.succ[u] ==> v in g.succ;
    g
  }

  /** ESU over successors misses connected subgraphs of directed graphs: `TwoToOne` is
      weakly connected and has two nodes, yet it is `Descending`, so `EnumerateSizeK` with
      k = 2 returns no subgraph at all. */
  lemma DirectedGraphsAreMissed()
    ensures |TwoToOne().nodes| == 2
    ensures IsWeaklyConnected(TwoToOne()) == Ok(true)
    ensures Descending(TwoToOne())
  {
    var g := TwoToOne();
    assert HasEdge(g, 2, 1);
    assert 2 in Neighbours(g, 1);
    assert Component(g, [1], {}) == Component(g, Neighbours(g, 1), {1});
  }

  /** `__extract_subgraphs_from_node`, the body of the loop of ESU: extend `{v}` by the
      neighbours of `v` above it. */
  method ExtractFromNode(g: IntGraph, v: int, k: int) returns (r: Result<seq<IntGraph>>)
    requires Wf(g) && v in g.succ
    ensures r.Ok? ==> forall h :: h in r.value ==> StartedAt(g, k, h, v)
    ensures r.Raise? ==> r.exc == AssertionError
    ensures NoSelfLoops(g) ==> r.Ok?
    ensures k != 1 && Descending(g) ==> r == Ok([])
  {
    var ext := set x | x in g.succ[v] && x > v;
    assert Descending(g) ==> ext == {};
    StartExtension(g, v, ext);
    var found :- ExtendSubgraph(g, k, {v}, ext, v);
    var more := Flatten(found);
    forall h | h in more ensures StartedAt(g, k, h, v) {
      StartedFromGrown(g, k, v, ext, h);
    }
    return Ok(more);
  }

  /** The first extension set holds nodes of the graph above `v`. */
  lemma StartExtension(g: IntGraph, v: int, ext: set<int>)
    requires Wf(g) && v in g.succ && ext == set x | x in g.succ[v] && x > v
    ensures {v} <= g.succ.Keys && ext <= g.succ.Keys && ext !! {v}
    ensures forall x :: x in ext ==> x > v
  {
    forall x | x in ext ensures x in g.succ.Keys {
      assert HasEdge(g, v, x);
    }
  }

  /** A subgraph grown from `{v}` by nodes above `v` has `v` as its smallest node. */
  lemma StartedFromGrown(g: IntGraph, k: int, v: int, ext: set<int>, h: IntGraph)
    requires Wf(g) && forall x :: x in ext ==> x > v
    requires GrownFrom(g, k, {v}, ext, v, h)
    ensures StartedAt(g, k, h, v)
  {
  }

  /** `enumerate_all_size_k_subgraphs` (ESU): for each node `v` in turn, extend `{v}` by the
      neighbours of `v` above it. A size outside 1 .. |V| gives no subgraphs. Every subgraph
      found has `k` nodes and the node it was grown from (`origin`, an index into the node
      list) as its smallest node, the subgraphs come in the order of the nodes they were
      grown from, and the assertion in the extension step can fire only on a graph with a
      self-loop. */
  method EnumerateSizeK(g: IntGraph, k: int) returns (r: Result<seq<IntGraph>>, ghost origin: seq<int>)
    requires Wf(g)
    ensures !(1 <= k <= |g.nodes|) ==> r == Ok([])
    ensures r.Ok? ==> |origin| == |r.value|
    ensures r.Ok? ==> forall j :: 0 <= j < |r.value| ==>
                        0 <= origin[j] < |g.nodes| && StartedAt(g, k, r.value[j], g.nodes[origin[j]])
    ensures r.Ok? ==> forall i, j :: 0 <= i < j < |r.value| ==> origin[i] <= origin[j]
    ensures r.Raise? ==> r.exc == AssertionError
    ensures NoSelfLoops(g) ==> r.Ok?
    ensures k != 1 && Descending(g) ==> r == Ok([])
  {
    origin := [];
    if !(1 <= k <= |g.nodes|) {
      return Ok([]), origin;
    }
    var all: seq<IntGraph> := [];
    for i := 0 to |g.nodes|
      invariant |origin| == |all|
      invariant forall j :: 0 <= j < |all| ==>
                  0 <= origin[j] < i && StartedAt(g, k, all[j], g.nodes[origin[j]])
      invariant forall j, j' :: 0 <= j < j' < |all| ==> origin[j] <= origin[j']
      invariant k != 1 && Descending(g) ==> all == []
    {
      var more :- ExtractFromNode(g, g.nodes[i], k);
      AppendStarted(g, k, all, origin, more, i);
      all := all + more;
      origin := origin + seq(|more|, _ => i);
    }
    return Ok(all), origin;
  }

  /** One pass of the loop over the nodes: the subgraphs started at node `i` go after those
      started at earlier nodes. */
  lemma AppendStarted(g: IntGraph, k: int, all: seq<IntGraph>, origin: seq<int>, more: seq<IntGraph>, i: int)
    requires Wf(g) && 0 <= i < |g.nodes| && |origin| == |all|
    requires forall j :: 0 <= j < |all| ==> 0 <= origin[j] < i && StartedAt(g, k, all[j], g.nodes[origin[j]])
    requires forall j, j' :: 0 <= j < j' < |all| ==> origin[j] <= origin[j']
    requires forall h :: h in more ==> StartedAt(g, k, h, g.nodes[i])
    ensures var all', origin' := all + more, origin + seq(|more|, _ => i);
      && |origin'| == |all'|
      && (forall j :: 0 <= j < |all'| ==> 0 <= origin'[j] < i + 1 && StartedAt(g, k, all'[j], g.nodes[origin'[j]]))
      && (forall j, j' :: 0 <= j < j' < |all'| ==> origin'[j] <= origin'[j'])
  {
    var all', origin' := all + more, origin + seq(|more|, _ => i);
    forall j | |all| <= j < |all'|
      ensures origin'[j] == i && StartedAt(g, k, all'[j], g.nodes[origin'[j]])
    {
      assert all'[j] == more[j - |all|];
    }
  }

  /** The number of nodes of a subgraph. */
  function Size(h: IntGraph): nat {
    |h.succ.Keys|
  }

  /** `enumerate_all_subgraphs_upto_size_k`, on the graph with integer node IDs: `k` is cut
      down to |V|, and the subgraphs of sizes 1, 2, .., k are concatenated in that order. */
  method EnumerateUpToK(g: IntGraph, k: int) returns (r: Result<seq<IntGraph>>)
    requires Wf(g)
    ensures r.Ok? ==> forall j :: 0 <= j < |r.value| ==>
                        InducedOfSize(g, r.value[j], Size(r.value[j])) &&
                        1 <= Size(r.value[j]) <= k && Size(r.value[j]) <= |g.nodes|
    ensures r.Ok? ==> forall i, j :: 0 <= i < j < |r.value| ==> Size(r.value[i]) <= Size(r.value[j])
    ensures k < 1 ==> r == Ok([])
    ensures r.Raise? ==> r.exc == AssertionError
    ensures NoSelfLoops(g) ==> r.Ok?
  {
    var n := |g.nodes|;
    var top := if k > n then n else k;
    var all: seq<IntGraph> := [];
    var i := 1;
    while i <= top
      invariant 1 <= i && (i <= top + 1 || top < 1)
      invariant top < 1 ==> all == []
      invariant forall j :: 0 <= j < |all| ==>
                  InducedOfSize(g, all[j], Size(all[j])) && 1 <= Size(all[j]) < i
      invariant forall j, j' :: 0 <= j < j' < |all| ==> Size(all[j]) <= Size(all[j'])
    {
      var found, _ := EnumerateSizeK(g, i);
      var more :- found;
      AppendSized(g, all, more, i);
      all := all + more;
      i := i + 1;
    }
    return Ok(all);
  }

  /** One pass of the loop over the sizes: the subgraphs of size `i` go after the smaller
      ones. */
  lemma AppendSized(g: IntGraph, all: seq<IntGraph>, more: seq<IntGraph>, i: int)
    requires Wf(g) && i >= 1
    requires forall j :: 0 <= j < |all| ==> InducedOfSize(g, all[j], Size(all[j])) && 1 <= Size(all[j]) < i
    requires forall j, j' :: 0 <= j < j' < |all| ==> Size(all[j]) <= Size(all[j'])
    requires forall j :: 0 <= j < |more| ==> InducedOfSize(g, more[j], i)
    ensures var all' := all + more;
      && (forall j :: 0 <= j < |all'| ==> InducedOfSize(g, all'[j], Size(all'[j])) && 1 <= Size(all'[j]) < i + 1)
      && (forall j, j' :: 0 <= j < j' < |all'| ==> Size(all'[j]) <= Size(all'[j']))
  {
    var all' := all + more;
    forall j | 0 <= j < |all'|
      ensures InducedOfSize(g, all'[j], Size(all'[j]))
      ensures j < |all| ==> Size(all'[j]) < i
      ensures j >= |all| ==> Size(all'[j]) == i
    {
      if j < |all| {
        assert all'[j] == all[j];
      } else {
        assert all'[j] == more[j - |all|];
      }
    }
    forall j, j' | 0 <= j < j' < |all'| ensures Size(all'[j]) <= Size(all'[j']) {
      if j' < |all| {
        assert all'[j] == all[j] && all'[j'] == all[j'];
      }
    }
  }
}
