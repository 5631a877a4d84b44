/** Finite directed graphs in the shape networkx's DiGraph gives them: nodes in iteration
    order, ordered successor lists and an attribute dictionary per node and per edge; and
    the graph algorithms the kernels call: depth-first edges and trees, induced subgraphs,
    weak connectivity, acyclicity and the first node of a topological order. */
module Graphs {
  import opened Exceptions

  /** An attribute dictionary of a node or an edge. */
  type Attrs = map<string, string>

  datatype Digraph<N(==)> = Digraph(
    nodes: seq<N>,                   // the nodes, in iteration order
    succ: map<N, seq<N>>,            // the successors of each node, in insertion order
    attrs: map<N, Attrs>,            // the attribute dictionary of each node
    edgeAttrs: map<(N, N), Attrs>)   // the attribute dictionary of each edge

  predicate Distinct<T(==)>(xs: seq<T>) {
    forall i, j :: 0 <= i < j < |xs| ==> xs[i] != xs[j]
  }

  /** The elements of `xs` that lie in `s`, in their order. */
  function Keep<T(==)>(xs: seq<T>, s: set<T>): (r: seq<T>)
    ensures forall x :: x in r ==> x in xs && x in s
    ensures forall x :: x in xs && x in s ==> x in r
    ensures |r| <= |xs|
    ensures Distinct(xs) ==> Distinct(r)
  {
    if xs == [] then []
    else
      var rest := Keep(xs[1..], s);
      assert Distinct(xs) ==> xs[0] !in xs[1..] && Distinct(xs[1..]) by {
        if Distinct(xs) {
          forall i | 0 <= i < |xs| - 1 ensures xs[1..][i] != xs[0] {
            assert xs[1..][i] == xs[i + 1];
          }
        }
      }
      if xs[0] in s then [xs[0]] + rest else rest
  }

  lemma SubsetCard<T>(a: set<T>, b: set<T>)
    requires a <= b
    ensures |a| <= |b|
    decreases |b|
  {
    if b != {} {
      var x :| x in b;
      SubsetCard(a - {x}, b - {x});
    }
  }

  predicate HasEdge<N(==, !new)>(g: Digraph<N>, u: N, v: N) {
    u in g.succ && v in g.succ[u]
  }

  /** The edge set (networkx `edges()`). */
  function Edges<N(==, !new)>(g: Digraph<N>): set<(N, N)> {
    set u, v | u in g.succ && v in g.succ[u] :: (u, v)
  }

  /** What every graph keeps true: each node is listed once and has a successor list, and
      successor lists name nodes, each once. (Attribute dictionaries are looked up only
      where the code reads them, and a missing one is an error there.) */
  predicate Wf<N(==, !new)>(g: Digraph<N>) {
    && Distinct(g.nodes)
    && (forall n :: n in g.nodes ==> n in g.succ)
    && (forall n :: n in g.succ ==> n in g.nodes)
    && (forall u, v :: u in g.succ && v in g.succ[u] ==> v in g.succ)
    && (forall u :: u in g.succ ==> Distinct(g.succ[u]))
  }

  /** `is_proper(tree)`, `len(tree.edges()) > 0`: some node has a successor. */
  predicate IsProper<N(==, !new)>(g: Digraph<N>) {
    exists u :: u in g.succ && g.succ[u] != []
  }

  /** A graph is proper exactly when its edge set is not empty. */
  lemma IsProperIff<N(!new)>(g: Digraph<N>)
    ensures IsProper(g) <==> |Edges(g)| > 0
  {
    if IsProper(g) {
      var u :| u in g.succ && g.succ[u] != [];
      assert (u, g.succ[u][0]) in Edges(g);
    }
    if |Edges(g)| > 0 {
      var e :| e in Edges(g);
      assert e.0 in g.succ && e.1 in g.succ[e.0];
    }
  }

  /** A node without outgoing edges (out-degree 0). */
  function IsLeaf<N(==, !new)>(g: Digraph<N>, n: N): (r: bool)
    requires n in g.succ
    ensures r <==> forall v :: !HasEdge(g, n, v)
  {
    if |g.succ[n]| == 0 then true
    else
      assert HasEdge(g, n, g.succ[n][0]);
      false
  }

  /** No edge ends at `v`. */
  predicate InDegreeZero<N(==, !new)>(g: Digraph<N>, v: N) {
    forall u :: u in g.succ ==> v !in g.succ[u]
  }

  // ---------------------------------------------------------------------------------------
  // Building graphs (DiGraph(), add_node, add_edge, add_nodes_from, add_edges_from)
  // ---------------------------------------------------------------------------------------

  function Empty<N(==, !new)>(): (g: Digraph<N>)
    ensures Wf(g) && g.succ == map[]
  {
    Digraph([], map[], map[], map[])
  }

  /** `add_node`: a node already present is left as it is. */
  function AddNode<N(==, !new)>(g: Digraph<N>, n: N): (h: Digraph<N>)
    requires Wf(g)
    ensures Wf(h)
    ensures h.succ.Keys == g.succ.Keys + {n}
    ensures forall u :: u in g.succ ==> h.succ[u] == g.succ[u]
    ensures n !in g.succ ==> h.succ[n] == [] && h.nodes == g.nodes + [n]
    ensures forall x, y :: HasEdge(h, x, y) <==> HasEdge(g, x, y)
  {
    if n in g.succ then g
    else
      var h := Digraph(g.nodes + [n], g.succ[n := []], g.attrs[n := map[]], g.edgeAttrs);
      AddNodeWf(g, n, h);
      h
  }

  lemma AddNodeWf<N(!new)>(g: Digraph<N>, n: N, h: Digraph<N>)
    requires Wf(g) && n !in g.succ
    requires h == Digraph(g.nodes + [n], g.succ[n := []], g.attrs[n := map[]], g.edgeAttrs)
    ensures Wf(h)
  {
    assert n !in g.nodes;
    forall i, j | 0 <= i < j < |h.nodes| ensures h.nodes[i] != h.nodes[j] {
      if j < |g.nodes| {
        assert h.nodes[i] == g.nodes[i] && h.nodes[j] == g.nodes[j];
      } else {
        assert h.nodes[i] == g.nodes[i] && h.nodes[j] == n;
      }
    }
  }

  /** `add_edge`: adds the missing end nodes, then appends `v` to the successors of `u`
      unless the edge is already there. */
  function AddEdge<N(==, !new)>(g: Digraph<N>, u: N, v: N): (h: Digraph<N>)
    requires Wf(g)
    ensures Wf(h)
    ensures h.succ.Keys == g.succ.Keys + {u, v}
    ensures forall x, y :: HasEdge(h, x, y) <==> HasEdge(g, x, y) || (x == u && y == v)
    ensures forall x :: x in g.succ && x != u ==> h.succ[x] == g.succ[x]
    ensures h.succ[u] == if HasEdge(g, u, v) then g.succ[u]
                         else (if u in g.succ then g.succ[u] else []) + [v]
  {
    var h1 := AddNode(AddNode(g, u), v);
    AddEnds(g, u, v, h1);
    if v in h1.succ[u] then h1
    else
      var h := h1.(succ := h1.succ[u := h1.succ[u] + [v]], edgeAttrs := h1.edgeAttrs[(u, v) := map[]]);
      AppendEdgeWf(h1, u, v, h);
      h
  }

  /** The graph after adding both end nodes of an edge. */
  lemma AddEnds<N(!new)>(g: Digraph<N>, u: N, v: N, h1: Digraph<N>)
    requires Wf(g) && h1 == AddNode(AddNode(g, u), v)
    ensures Wf(h1) && h1.succ.Keys == g.succ.Keys + {u, v}
    ensures forall x :: x in g.succ ==> h1.succ[x] == g.succ[x]
    ensures h1.succ[u] == if u in g.succ then g.succ[u] else []
    ensures forall x, y :: HasEdge(h1, x, y) <==> HasEdge(g, x, y)
    ensures v in h1.succ[u] <==> HasEdge(g, u, v)
  {
  }

  lemma AppendEdgeWf<N(!new)>(g: Digraph<N>, u: N, v: N, h: Digraph<N>)
    requires Wf(g) && u in g.succ && v in g.succ && v !in g.succ[u]
    requires h == g.(succ := g.succ[u := g.succ[u] + [v]], edgeAttrs := g.edgeAttrs[(u, v) := map[]])
    ensures Wf(h)
    ensures forall x, y :: HasEdge(h, x, y) <==> HasEdge(g, x, y) || (x == u && y == v)
    ensures h.succ.Keys == g.succ.Keys && h.succ[u] == g.succ[u] + [v]
    ensures forall x :: x in g.succ && x != u ==> h.succ[x] == g.succ[x]
  {
    forall x, y ensures HasEdge(h, x, y) <==> HasEdge(g, x, y) || (x == u && y == v) {
      if x != u {
        assert x in h.succ ==> h.succ[x] == g.succ[x];
      }
    }
    var l := g.succ[u] + [v];
    forall i, j | 0 <= i < j < |l| ensures l[i] != l[j] {
      assert l[i] == g.succ[u][i];
      if j < |g.succ[u]| {
        assert l[j] == g.succ[u][j];
      }
    }
  }

  function AddNodesFrom<N(==, !new)>(g: Digraph<N>, ns: seq<N>): (h: Digraph<N>)
    requires Wf(g)
    ensures Wf(h)
    ensures forall x :: x in h.succ <==> x in g.succ || x in ns
    ensures forall x, y :: HasEdge(h, x, y) <==> HasEdge(g, x, y)
    decreases |ns|
  {
    if ns == [] then g else AddNodesFrom(AddNode(g, ns[0]), ns[1..])
  }

  /** The nodes the edges of `es` touch. */
  function Endpoints<N>(es: seq<(N, N)>): set<N> {
    if es == [] then {} else {es[0].0, es[0].1} + Endpoints(es[1..])
  }

  lemma EndpointsOf<N>(es: seq<(N, N)>, x: N)
    requires x in Endpoints(es)
    ensures exists e :: e in es && (x == e.0 || x == e.1)
  {
    if x !in {es[0].0, es[0].1} {
      EndpointsOf(es[1..], x);
      var e :| e in es[1..] && (x == e.0 || x == e.1);
      assert e in es;
    }
  }

  lemma {:induction false} EndpointsWithin<N>(es: seq<(N, N)>, k: set<N>)
    requires forall e :: e in es ==> e.0 in k && e.1 in k
    ensures Endpoints(es) <= k
  {
    if es != [] {
      assert es[0] in es;
      EndpointsWithin(es[1..], k);
    }
  }

  function AddEdgesFrom<N(==, !new)>(g: Digraph<N>, es: seq<(N, N)>): (h: Digraph<N>)
    requires Wf(g)
    ensures Wf(h)
    ensures h.succ.Keys == g.succ.Keys + Endpoints(es)
    ensures forall x, y :: HasEdge(h, x, y) <==> HasEdge(g, x, y) || (x, y) in es
    decreases |es|
  {
    if es == [] then g
    else
      var g1 := AddEdge(g, es[0].0, es[0].1);
      var h := AddEdgesFrom(g1, es[1..]);
      EdgesFromStep(g, g1, h, es);
      KeysFromStep(g.succ.Keys, g1.succ.Keys, h.succ.Keys, es);
      h
  }

  /** A fresh `DiGraph()`, then `add_nodes_from(ns)`, then `add_edges_from(es)` for edges
      between those nodes: exactly the nodes of `ns` and the edges of `es`. */
  method BuildGraph<N(==, !new)>(ns: seq<N>, es: seq<(N, N)>) returns (g: Digraph<N>)
    requires forall e :: e in es ==> e.0 in ns && e.1 in ns
    ensures Wf(g)
    ensures forall x :: x in g.succ <==> x in ns
    ensures forall x, y :: HasEdge(g, x, y) <==> (x, y) in es
  {
    g := Empty();
    g := AddNodesFrom(g, ns);
    EndpointsWithin(es, g.succ.Keys);
    g := AddEdgesFrom(g, es);
  }

  lemma KeysFromStep<N>(a: set<N>, b: set<N>, c: set<N>, es: seq<(N, N)>)
    requires es != [] && b == a + {es[0].0, es[0].1} && c == b + Endpoints(es[1..])
    ensures c == a + Endpoints(es)
  {
  }

  lemma EdgesFromStep<N(!new)>(g: Digraph<N>, g1: Digraph<N>, h: Digraph<N>, es: seq<(N, N)>)
    requires es != []
    requires forall x, y :: HasEdge(g1, x, y) <==> HasEdge(g, x, y) || (x == es[0].0 && y == es[0].1)
    requires forall x, y :: HasEdge(h, x, y) <==> HasEdge(g1, x, y) || (x, y) in es[1..]
    ensures forall x, y :: HasEdge(h, x, y) <==> HasEdge(g, x, y) || (x, y) in es
  {
    forall x, y ensures HasEdge(h, x, y) <==> HasEdge(g, x, y) || (x, y) in es {
      assert (x, y) in es <==> (x, y) == es[0] || (x, y) in es[1..];
    }
  }

  // ---------------------------------------------------------------------------------------
  // Depth-first search (networkx dfs_edges and dfs_tree)
  // ---------------------------------------------------------------------------------------

  /** Depth-first exploration below `u`, whose successors `kids` are still to be looked at,
      when the nodes in `visited` have already been seen. Returns the tree edges found, in
      the order they are discovered, and the nodes seen afterwards. This is the order in
      which dfs_edges yields them: a successor not yet seen is entered at once, and `u`'s
      next successor is looked at only when everything below the first is done. */
  function Explore<N(==, !new)>(g: Digraph<N>, u: N, kids: seq<N>, visited: set<N>): (r: (seq<(N, N)>, set<N>))
    requires Wf(g) && u in g.succ && u in visited && visited <= g.succ.Keys
    requires forall v :: v in kids ==> v in g.succ[u]
    ensures visited <= r.1 <= g.succ.Keys
    ensures forall x :: x in r.1 && x !in visited ==> !InDegreeZero(g, x)
    ensures forall e :: e in r.0 ==> HasEdge(g, e.0, e.1) && e.0 in r.1 && e.1 in r.1 && e.1 !in visited
    decreases |g.succ.Keys - visited|, |kids|
  {
    if kids == [] then ([], visited)
    else if kids[0] in visited then Explore(g, u, kids[1..], visited)
    else
      var v := kids[0];
      assert !InDegreeZero(g, v) by { assert v in g.succ[u]; }
      assert g.succ.Keys - (visited + {v}) < g.succ.Keys - visited;
      SubsetCard(g.succ.Keys - (visited + {v}), g.succ.Keys - visited);
      var down := Explore(g, v, g.succ[v], visited + {v});
      SubsetCard(g.succ.Keys - down.1, g.succ.Keys - (visited + {v}));
      var across := Explore(g, u, kids[1..], down.1);
      ExploreJoin(g, u, v, visited, down, across);
      ([(u, v)] + down.0 + across.0, across.1)
  }

  /** Entering `v` from `u` and then going on with `u`'s other successors keeps the facts
      `Explore` promises. */
  lemma ExploreJoin<N(!new)>(g: Digraph<N>, u: N, v: N, visited: set<N>,
                             down: (seq<(N, N)>, set<N>), across: (seq<(N, N)>, set<N>))
    requires Wf(g) && u in visited && HasEdge(g, u, v) && v !in visited && !InDegreeZero(g, v)
    requires visited + {v} <= down.1 <= across.1 <= g.succ.Keys
    requires forall x :: x in down.1 && x !in visited + {v} ==> !InDegreeZero(g, x)
    requires forall e :: e in down.0 ==>
               HasEdge(g, e.0, e.1) && e.0 in down.1 && e.1 in down.1 && e.1 !in visited + {v}
    requires forall x :: x in across.1 && x !in down.1 ==> !InDegreeZero(g, x)
    requires forall e :: e in across.0 ==>
               HasEdge(g, e.0, e.1) && e.0 in across.1 && e.1 in across.1 && e.1 !in down.1
    ensures forall x :: x in across.1 && x !in visited ==> !InDegreeZero(g, x)
    ensures forall e :: e in [(u, v)] + down.0 + across.0 ==>
              HasEdge(g, e.0, e.1) && e.0 in across.1 && e.1 in across.1 && e.1 !in visited
  {
  }

  /** networkx `dfs_edges(g, root)`: the edges of a depth-first search from `root`, in order. */
  function DfsEdges<N(==, !new)>(g: Digraph<N>, root: N): (r: seq<(N, N)>)
    requires Wf(g) && root in g.succ
    ensures forall e :: e in r ==> HasEdge(g, e.0, e.1) && e.1 != root
    ensures forall e :: e in r ==> e.0 == root || !InDegreeZero(g, e.0)
    ensures forall e :: e in r ==> !InDegreeZero(g, e.1)
  {
    Explore(g, root, g.succ[root], {root}).0
  }

  /** The nodes a depth-first search from `root` sees. */
  function Reached<N(==, !new)>(g: Digraph<N>, root: N): (r: set<N>)
    requires Wf(g) && root in g.succ
    ensures root in r && r <= g.succ.Keys
    ensures forall e :: e in DfsEdges(g, root) ==> e.0 in r && e.1 in r
  {
    Explore(g, root, g.succ[root], {root}).1
  }

  /** No edge leaves the node set `c`. */
  ghost predicate SuccClosed<N(!new)>(g: Digraph<N>, c: set<N>) {
    forall x, y :: x in c && HasEdge(g, x, y) ==> y in c
  }

  /** The exploration sees every successor it is given, and every successor of a node it
      newly sees. */
  lemma {:induction false} ExploreClosed<N(!new)>(g: Digraph<N>, u: N, kids: seq<N>, visited: set<N>)
    requires Wf(g) && u in g.succ && u in visited && visited <= g.succ.Keys
    requires forall v :: v in kids ==> v in g.succ[u]
    ensures forall v :: v in kids ==> v in Explore(g, u, kids, visited).1
    ensures forall x, y :: x in Explore(g, u, kids, visited).1 && x !in visited && HasEdge(g, x, y) ==>
              y in Explore(g, u, kids, visited).1
    decreases |g.succ.Keys - visited|, |kids|
  {
    if kids == [] {
    } else if kids[0] in visited {
      ExploreClosed(g, u, kids[1..], visited);
    } else {
      var v := kids[0];
      SubsetCard(g.succ.Keys - (visited + {v}), g.succ.Keys - visited);
      ExploreClosed(g, v, g.succ[v], visited + {v});
      var down := Explore(g, v, g.succ[v], visited + {v});
      SubsetCard(g.succ.Keys - down.1, g.succ.Keys - (visited + {v}));
      ExploreClosed(g, u, kids[1..], down.1);
    }
  }

  /** The exploration sees nothing outside a closed set that holds `u`. */
  lemma {:induction false} ExploreLeast<N(!new)>(g: Digraph<N>, u: N, kids: seq<N>, visited: set<N>, c: set<N>)
    requires Wf(g) && u in g.succ && u in visited && visited <= g.succ.Keys
    requires forall v :: v in kids ==> v in g.succ[u]
    requires SuccClosed(g, c) && u in c
    ensures Explore(g, u, kids, visited).1 - visited <= c
    decreases |g.succ.Keys - visited|, |kids|
  {
    if kids == [] {
    } else if kids[0] in visited {
      ExploreLeast(g, u, kids[1..], visited, c);
    } else {
      var v := kids[0];
      assert v in c by { assert HasEdge(g, u, v); }
      SubsetCard(g.succ.Keys - (visited + {v}), g.succ.Keys - visited);
      ExploreLeast(g, v, g.succ[v], visited + {v}, c);
      var down := Explore(g, v, g.succ[v], visited + {v});
      SubsetCard(g.succ.Keys - down.1, g.succ.Keys - (visited + {v}));
      ExploreLeast(g, u, kids[1..], down.1, c);
    }
  }

  /** The search sees exactly the nodes reachable from `root`: the least closed node set
      that holds it. */
  lemma ReachedIsLeastClosed<N(!new)>(g: Digraph<N>, root: N)
    requires Wf(g) && root in g.succ
    ensures SuccClosed(g, Reached(g, root))
    ensures forall c :: SuccClosed(g, c) && root in c ==> Reached(g, root) <= c
  {
    ExploreClosed(g, root, g.succ[root], {root});
    forall c | SuccClosed(g, c) && root in c ensures Reached(g, root) <= c {
      ExploreLeast(g, root, g.succ[root], {root}, c);
    }
  }

  /** Every node has at most one parent. */
  ghost predicate Forest<N(!new)>(g: Digraph<N>) {
    forall p, q, x :: HasEdge(g, p, x) && HasEdge(g, q, x) ==> p == q
  }

  /** Every node the exploration newly sees is the target of one of the tree edges it
      returns. */
  lemma {:induction false} ExploreEnters<N(!new)>(g: Digraph<N>, u: N, kids: seq<N>, visited: set<N>)
    requires Wf(g) && u in g.succ && u in visited && visited <= g.succ.Keys
    requires forall v :: v in kids ==> v in g.succ[u]
    ensures forall x :: x in Explore(g, u, kids, visited).1 && x !in visited ==>
              exists p :: (p, x) in Explore(g, u, kids, visited).0
    decreases |g.succ.Keys - visited|, |kids|
  {
    if kids == [] {
    } else if kids[0] in visited {
      ExploreEnters(g, u, kids[1..], visited);
    } else {
      var v := kids[0];
      var seen := visited + {v};
      SubsetCard(g.succ.Keys - seen, g.succ.Keys - visited);
      ExploreEnters(g, v, g.succ[v], seen);
      var down := Explore(g, v, g.succ[v], seen);
      SubsetCard(g.succ.Keys - down.1, g.succ.Keys - seen);
      ExploreEnters(g, u, kids[1..], down.1);
      var across := Explore(g, u, kids[1..], down.1);
      var edges := [(u, v)] + down.0 + across.0;
      assert Explore(g, u, kids, visited) == (edges, across.1);
      forall x | x in across.1 && x !in visited ensures exists p :: (p, x) in edges {
        if x == v {
          assert edges[0] == (u, v);
        } else if x in down.1 {
          var p :| (p, x) in down.0;
          assert (p, x) in edges;
        } else {
          var p :| (p, x) in across.0;
          assert (p, x) in edges;
        }
      }
    }
  }

  /** In a forest searched from a node without parents, the depth-first edges are exactly
      the edges leaving the nodes the search reaches: each such edge's target has that
      source as its only parent, so the search entered the target through it. */
  lemma DfsEdgesOfForest<N(!new)>(g: Digraph<N>, root: N)
    requires Wf(g) && root in g.succ && Forest(g) && InDegreeZero(g, root)
    ensures forall x, y :: x in Reached(g, root) && HasEdge(g, x, y) <==> (x, y) in DfsEdges(g, root)
  {
    ExploreEnters(g, root, g.succ[root], {root});
    ExploreClosed(g, root, g.succ[root], {root});
    forall x, y | x in Reached(g, root) && HasEdge(g, x, y) ensures (x, y) in DfsEdges(g, root) {
      assert y in Reached(g, root);
      assert y != root;
      var p :| (p, y) in DfsEdges(g, root);
      assert HasEdge(g, p, y);
    }
  }

  /** networkx `dfs_tree(g, root)`: a new graph holding `root` and the depth-first edges from
      it, inserted in discovery order; attributes are not copied. */
  function DfsTree<N(==, !new)>(g: Digraph<N>, root: N): (t: Digraph<N>)
    requires Wf(g) && root in g.succ
    ensures Wf(t) && root in t.succ
    ensures forall x, y :: HasEdge(t, x, y) <==> (x, y) in DfsEdges(g, root)
    ensures forall x :: x in t.succ ==> x in g.succ && (x == root || !InDegreeZero(g, x))
  {
    var es := DfsEdges(g, root);
    var t := AddEdgesFrom(AddNode(Empty(), root), es);
    forall x | x in t.succ ensures x in g.succ && (x == root || !InDegreeZero(g, x)) {
      if x != root {
        EndpointsOf(es, x);
      }
    }
    t
  }

  /** The measure that shrinks from a graph and a node to the depth-first tree of one of the
      node's successors: a tree below a child never holds more nodes than the graph, and
      leaves out the node itself when no edge enters it. */
  function SubtreeMeasure<N(==, !new)>(g: Digraph<N>, root: N): nat {
    |g.succ.Keys| + if InDegreeZero(g, root) then 0 else 1
  }

  lemma DfsTreeShrinks<N(!new)>(g: Digraph<N>, root: N, child: N)
    requires Wf(g) && root in g.succ && child in g.succ[root]
    ensures child in DfsTree(g, child).succ
    ensures InDegreeZero(DfsTree(g, child), child)
    ensures SubtreeMeasure(DfsTree(g, child), child) < SubtreeMeasure(g, root)
  {
    var t := DfsTree(g, child);
    forall u | u in t.succ ensures child !in t.succ[u] {
      assert !HasEdge(t, u, child);
    }
    assert t.succ.Keys <= g.succ.Keys;
    if InDegreeZero(g, root) {
      assert root !in t.succ.Keys by {
        assert root != child by { assert child in g.succ[root]; }
      }
      SubsetCard(t.succ.Keys, g.succ.Keys - {root});
    } else {
      SubsetCard(t.succ.Keys, g.succ.Keys);
    }
  }

  // ---------------------------------------------------------------------------------------
  // Induced subgraphs (networkx subgraph)
  // ---------------------------------------------------------------------------------------

  /** networkx `subgraph(nbunch)`: the nodes of `s` that are in the graph, the edges between
      them and their attribute dictionaries. */
  function Induced<N(==, !new)>(g: Digraph<N>, s: set<N>): (h: Digraph<N>)
    requires Wf(g)
    ensures Wf(h)
    ensures h.succ.Keys == g.succ.Keys * s
    ensures forall x, y :: HasEdge(h, x, y) <==> HasEdge(g, x, y) && x in s && y in s
    ensures forall u :: u in g.attrs && u in s ==> u in h.attrs && h.attrs[u] == g.attrs[u]
  {
    var h := Digraph(Keep(g.nodes, s),
                     map u | u in g.succ && u in s :: Keep(g.succ[u], s),
                     map u | u in g.attrs && u in s :: g.attrs[u],
                     map e | e in g.edgeAttrs && e.0 in s && e.1 in s :: g.edgeAttrs[e]);
    assert forall x, y :: HasEdge(h, x, y) <==> HasEdge(g, x, y) && x in s && y in s;
    h
  }

  // ---------------------------------------------------------------------------------------
  // Weak connectivity (networkx is_weakly_connected)
  // ---------------------------------------------------------------------------------------

  /** `x` and `y` are joined by an edge in one direction or the other. */
  predicate Linked<N(==, !new)>(g: Digraph<N>, x: N, y: N) {
    HasEdge(g, x, y) || HasEdge(g, y, x)
  }

  /** The nodes of `us` with an edge to `v`, in their order. */
  function PredecessorsIn<N(==, !new)>(g: Digraph<N>, v: N, us: seq<N>): (r: seq<N>)
    requires forall u :: u in us ==> u in g.succ
    ensures forall u :: u in r ==> u in us && HasEdge(g, u, v)
    ensures forall u :: u in us && HasEdge(g, u, v) ==> u in r
  {
    if us == [] then []
    else (if v in g.succ[us[0]] then [us[0]] else []) + PredecessorsIn(g, v, us[1..])
  }

  /** The neighbours of `u` when edge directions are ignored. */
  function Neighbours<N(==, !new)>(g: Digraph<N>, u: N): (r: seq<N>)
    requires Wf(g) && u in g.succ
    ensures forall v :: v in r ==> v in g.succ && Linked(g, u, v)
    ensures forall v :: v in g.succ && Linked(g, u, v) ==> v in r
  {
    g.succ[u] + PredecessorsIn(g, u, g.nodes)
  }

  /** A node set that no edge leaves or enters. */
  ghost predicate Closed<N(!new)>(g: Digraph<N>, c: set<N>) {
    forall x, y :: x in c && Linked(g, x, y) ==> y in c
  }

  /** The nodes joined to `todo` or `seen` by undirected paths that avoid `seen`, together
      with `seen`: a worklist search ignoring edge directions. */
  function Component<N(==, !new)>(g: Digraph<N>, todo: seq<N>, seen: set<N>): (r: set<N>)
    requires Wf(g) && seen <= g.succ.Keys && forall x :: x in todo ==> x in g.succ
    ensures seen <= r <= g.succ.Keys
    ensures forall x :: x in todo ==> x in r
    decreases |g.succ.Keys - seen|, |todo|
  {
    if todo == [] then seen
    else if todo[0] in seen then Component(g, todo[1..], seen)
    else
      var x := todo[0];
      assert g.succ.Keys - (seen + {x}) < g.succ.Keys - seen;
      SubsetCard(g.succ.Keys - (seen + {x}), g.succ.Keys - seen);
      Component(g, Neighbours(g, x) + todo[1..], seen + {x})
  }

  /** When every neighbour of a seen node is seen or still to do, the search ends in a
      closed set. */
  lemma {:induction false} ComponentClosed<N(!new)>(g: Digraph<N>, todo: seq<N>, seen: set<N>)
    requires Wf(g) && seen <= g.succ.Keys && forall x :: x in todo ==> x in g.succ
    requires forall x, y :: x in seen && Linked(g, x, y) ==> y in seen || y in todo
    ensures Closed(g, Component(g, todo, seen))
    decreases |g.succ.Keys - seen|, |todo|
  {
    if todo == [] {
    } else if todo[0] in seen {
      ComponentClosed(g, todo[1..], seen);
    } else {
      var x := todo[0];
      SubsetCard(g.succ.Keys - (seen + {x}), g.succ.Keys - seen);
      var next := Neighbours(g, x) + todo[1..];
      forall a, b | a in seen + {x} && Linked(g, a, b) ensures b in seen + {x} || b in next {
        if a == x {
          assert b in g.succ by { assert HasEdge(g, a, b) || HasEdge(g, b, a); }
          assert b in Neighbours(g, x);
        } else {
          assert b in seen || b in todo;
        }
      }
      ComponentClosed(g, next, seen + {x});
    }
  }

  /** The search finds nothing outside a closed set that holds `todo` and `seen`. */
  lemma {:induction false} ComponentLeast<N(!new)>(g: Digraph<N>, todo: seq<N>, seen: set<N>, c: set<N>)
    requires Wf(g) && seen <= g.succ.Keys && forall x :: x in todo ==> x in g.succ
    requires Closed(g, c) && seen <= c && forall x :: x in todo ==> x in c
    ensures Component(g, todo, seen) <= c
    decreases |g.succ.Keys - seen|, |todo|
  {
    if todo == [] {
    } else if todo[0] in seen {
      ComponentLeast(g, todo[1..], seen, c);
    } else {
      var x := todo[0];
      SubsetCard(g.succ.Keys - (seen + {x}), g.succ.Keys - seen);
      forall y | y in Neighbours(g, x) ensures y in c {
        assert Linked(g, x, y);
      }
      ComponentLeast(g, Neighbours(g, x) + todo[1..], seen + {x}, c);
    }
  }

  /** networkx `is_weakly_connected`: undefined for the graph without nodes. */
  function IsWeaklyConnected<N(==, !new)>(g: Digraph<N>): Result<bool>
    requires Wf(g)
  {
    if g.nodes == [] then Raise(PointlessConcept)
    else Ok(Component(g, [g.nodes[0]], {}) == g.succ.Keys)
  }

  /** A graph with nodes is weakly connected iff the only closed node set holding its first
      node is the set of all nodes. */
  lemma WeaklyConnectedIff<N(!new)>(g: Digraph<N>)
    requires Wf(g) && g.nodes != []
    ensures IsWeaklyConnected(g) == Ok(true) <==>
      forall c :: c <= g.succ.Keys && g.nodes[0] in c && Closed(g, c) ==> c == g.succ.Keys
  {
    var comp := Component(g, [g.nodes[0]], {});
    ComponentClosed(g, [g.nodes[0]], {});
    forall c | c <= g.succ.Keys && g.nodes[0] in c && Closed(g, c) && comp == g.succ.Keys
      ensures c == g.succ.Keys
    {
      ComponentLeast(g, [g.nodes[0]], {}, c);
    }
  }

  // ---------------------------------------------------------------------------------------
  // Acyclicity and topological order (networkx is_directed_acyclic_graph, topological_sort)
  // ---------------------------------------------------------------------------------------

  /** A listing of all nodes, each once, in which every edge points forward. */
  predicate IsTopologicalOrder<N(==, !new)>(g: Digraph<N>, ord: seq<N>) {
    && Distinct(ord)
    && (forall x :: x in ord ==> x in g.succ)
    && (forall x :: x in g.succ ==> x in ord)
    && (forall i, j :: 0 <= i < |ord| && 0 <= j < |ord| && HasEdge(g, ord[i], ord[j]) ==> i < j)
  }

  /** No edge from a node of `rem` ends at `x`. */
  predicate SourceIn<N(==, !new)>(g: Digraph<N>, rem: set<N>, x: N) {
    forall u :: u in rem && u in g.succ ==> x !in g.succ[u]
  }

  /** The nodes of `us` that are sources within `rem`, in their order. */
  function SourcesIn<N(==, !new)>(g: Digraph<N>, rem: set<N>, us: seq<N>): (r: seq<N>)
    ensures forall x :: x in r ==> x in us && x in rem && SourceIn(g, rem, x)
    ensures forall x :: x in us && x in rem && SourceIn(g, rem, x) ==> x in r
    ensures Distinct(us) ==> Distinct(r)
  {
    if us == [] then []
    else
      var rest := SourcesIn(g, rem, us[1..]);
      assert Distinct(us) ==> us[0] !in us[1..] && Distinct(us[1..]) by {
        if Distinct(us) {
          forall i | 0 <= i < |us| - 1 ensures us[1..][i] != us[0] {
            assert us[1..][i] == us[i + 1];
          }
        }
      }
      if us[0] in rem && SourceIn(g, rem, us[0]) then [us[0]] + rest else rest
  }

  /** The members of a list. */
  function SetOf<T>(c: seq<T>): set<T> {
    set x | x in c
  }

  /** The node list holds exactly the nodes. */
  lemma NodesOf<N(!new)>(g: Digraph<N>)
    requires Wf(g)
    ensures SetOf(g.nodes) == g.succ.Keys
  {
    forall n | n in g.succ ensures n in SetOf(g.nodes) {
      assert n in g.nodes;
    }
  }

  /** The nodes of `rem` in layers: first the sources within `rem` (in node order), then the
      same for what remains; `None` when some nonempty remainder has no source, that is,
      when the edges within `rem` form a cycle. */
  function PeelOrder<N(==, !new)>(g: Digraph<N>, rem: set<N>): (r: Option<seq<N>>)
    requires Wf(g) && rem <= g.succ.Keys
    decreases |rem|
  {
    if rem == {} then Some([])
    else
      var srcs := SourcesIn(g, rem, g.nodes);
      if srcs == [] then None
      else
        var layer := SetOf(srcs);
        assert |rem - {srcs[0]}| == |rem| - 1;
        SubsetCard(rem - layer, rem - {srcs[0]});
        match PeelOrder(g, rem - layer)
        case None => None
        case Some(rest) => Some(srcs + rest)
  }

  /** networkx `is_directed_acyclic_graph`. */
  function Acyclic<N(==, !new)>(g: Digraph<N>): bool
    requires Wf(g)
  {
    PeelOrder(g, g.succ.Keys).Some?
  }

  /** `ord` lists the nodes of `rem`, each once, with every edge between them pointing forward. */
  predicate OrderOf<N(==, !new)>(g: Digraph<N>, rem: set<N>, ord: seq<N>) {
    && Distinct(ord)
    && (forall x :: x in ord ==> x in rem)
    && (forall x :: x in rem ==> x in ord)
    && (forall i, j :: 0 <= i < |ord| && 0 <= j < |ord| && HasEdge(g, ord[i], ord[j]) ==> i < j)
  }

  /** Sources first, then an order of the rest, is an order of the whole. */
  lemma PrependLayer<N(!new)>(g: Digraph<N>, rem: set<N>, srcs: seq<N>, rest: seq<N>)
    requires Distinct(srcs) && forall x :: x in srcs ==> x in rem && SourceIn(g, rem, x)
    requires OrderOf(g, rem - SetOf(srcs), rest)
    ensures OrderOf(g, rem, srcs + rest)
  {
    var ord := srcs + rest;
    forall i, j | 0 <= i < j < |ord| ensures ord[i] != ord[j] {
      if j < |srcs| {
        assert ord[i] == srcs[i] && ord[j] == srcs[j];
      } else if i < |srcs| {
        assert ord[i] == srcs[i] && ord[j] == rest[j - |srcs|];
        assert rest[j - |srcs|] in rest;
      } else {
        assert ord[i] == rest[i - |srcs|] && ord[j] == rest[j - |srcs|];
      }
    }
    forall i, j | 0 <= i < |ord| && 0 <= j < |ord| ensures HasEdge(g, ord[i], ord[j]) ==> i < j {
      if j < |srcs| {
        assert ord[j] == srcs[j];
        assert ord[i] in rem by {
          if i < |srcs| {
            assert ord[i] == srcs[i];
          } else {
            assert ord[i] == rest[i - |srcs|] && rest[i - |srcs|] in rest;
          }
        }
        assert srcs[j] in srcs && SourceIn(g, rem, srcs[j]);
        assert !HasEdge(g, ord[i], ord[j]);
      } else if |srcs| <= i {
        assert ord[i] == rest[i - |srcs|] && ord[j] == rest[j - |srcs|];
      }
    }
  }

  lemma {:induction false} PeelOrderSound<N(!new)>(g: Digraph<N>, rem: set<N>)
    requires Wf(g) && rem <= g.succ.Keys && PeelOrder(g, rem).Some?
    ensures OrderOf(g, rem, PeelOrder(g, rem).value)
    ensures rem != {} ==> SourceIn(g, rem, PeelOrder(g, rem).value[0])
    decreases |rem|
  {
    if rem != {} {
      var srcs := SourcesIn(g, rem, g.nodes);
      var layer := SetOf(srcs);
      PeelOrderStep(g, rem);
      PeelOrderSound(g, rem - layer);
      PrependLayer(g, rem, srcs, PeelOrder(g, rem - layer).value);
      assert srcs[0] in srcs;
    }
  }

  /** A successful peeling of a nonempty `rem` is its sources followed by a successful
      peeling of the rest. */
  lemma PeelOrderStep<N(!new)>(g: Digraph<N>, rem: set<N>)
    requires Wf(g) && rem <= g.succ.Keys && rem != {} && PeelOrder(g, rem).Some?
    ensures var srcs := SourcesIn(g, rem, g.nodes);
      && srcs != [] && |rem - SetOf(srcs)| < |rem|
      && PeelOrder(g, rem - SetOf(srcs)).Some?
      && PeelOrder(g, rem).value == srcs + PeelOrder(g, rem - SetOf(srcs)).value
  {
    var srcs := SourcesIn(g, rem, g.nodes);
    assert srcs[0] in rem;
    assert |rem - {srcs[0]}| == |rem| - 1;
    SubsetCard(rem - SetOf(srcs), rem - {srcs[0]});
  }

  /** The first position of `ord` that holds an element of `rem`. */
  lemma {:induction false} FirstIn<N>(ord: seq<N>, rem: set<N>) returns (i: int)
    requires rem != {} && forall x :: x in rem ==> x in ord
    ensures 0 <= i < |ord| && ord[i] in rem && forall j :: 0 <= j < i ==> ord[j] !in rem
  {
    if ord[0] in rem {
      i := 0;
    } else {
      forall x | x in rem ensures x in ord[1..] {
        var k :| 0 <= k < |ord| && ord[k] == x;
        assert ord[1..][k - 1] == x;
      }
      var i' := FirstIn(ord[1..], rem);
      i := i' + 1;
      forall j | 0 <= j < i ensures ord[j] !in rem {
        if j > 0 { assert ord[j] == ord[1..][j - 1]; }
      }
    }
  }

  /** The earliest element of `rem` in a topological order is a source within `rem`. */
  lemma EarliestIsSource<N(!new)>(g: Digraph<N>, rem: set<N>, ord: seq<N>, i: int)
    requires IsTopologicalOrder(g, ord) && rem <= g.succ.Keys
    requires 0 <= i < |ord| && ord[i] in rem && forall j :: 0 <= j < i ==> ord[j] !in rem
    ensures SourceIn(g, rem, ord[i])
  {
    forall u | u in rem && u in g.succ ensures ord[i] !in g.succ[u] {
      var j :| 0 <= j < |ord| && ord[j] == u;
      assert !(j < i);
      assert !HasEdge(g, ord[j], ord[i]);
    }
  }

  lemma {:induction false} PeelOrderComplete<N(!new)>(g: Digraph<N>, rem: set<N>, ord: seq<N>)
    requires Wf(g) && rem <= g.succ.Keys && IsTopologicalOrder(g, ord)
    ensures PeelOrder(g, rem).Some?
    decreases |rem|
  {
    if rem != {} {
      var i := FirstIn(ord, rem);
      EarliestIsSource(g, rem, ord, i);
      var srcs := SourcesIn(g, rem, g.nodes);
      assert ord[i] in g.nodes;
      assert ord[i] in srcs;
      var layer := SetOf(srcs);
      assert srcs[0] in rem;
      assert |rem - {srcs[0]}| == |rem| - 1;
      SubsetCard(rem - layer, rem - {srcs[0]});
      PeelOrderComplete(g, rem - layer, ord);
    }
  }

  /** Peeling succeeds exactly on graphs that have a topological order. */
  lemma AcyclicIff<N(!new)>(g: Digraph<N>)
    requires Wf(g)
    ensures Acyclic(g) <==> exists ord :: IsTopologicalOrder(g, ord)
  {
    if Acyclic(g) {
      PeelOrderSound(g, g.succ.Keys);
      assert IsTopologicalOrder(g, PeelOrder(g, g.succ.Keys).value);
    }
    if exists ord :: IsTopologicalOrder(g, ord) {
      var ord :| IsTopologicalOrder(g, ord);
      PeelOrderComplete(g, g.succ.Keys, ord);
    }
  }

  /** The position of `x` in `xs`. */
  function IndexOf<T(==)>(xs: seq<T>, x: T): (i: nat)
    requires x in xs
    ensures i < |xs| && xs[i] == x
  {
    if xs[0] == x then 0 else 1 + IndexOf(xs[1..], x)
  }

  /** How far from the end of the peeled topological order `n` lies. */
  function Rank<N(==, !new)>(g: Digraph<N>, n: N): nat
    requires Wf(g) && Acyclic(g) && n in g.succ
  {
    PeelOrderSound(g, g.succ.Keys);
    var ord := PeelOrder(g, g.succ.Keys).value;
    |ord| - IndexOf(ord, n)
  }

  /** Every edge of an acyclic graph leads to a node of smaller rank, so a recursion along
      the edges ends. */
  lemma RankDecreases<N(!new)>(g: Digraph<N>, u: N, v: N)
    requires Wf(g) && Acyclic(g) && HasEdge(g, u, v)
    ensures Rank(g, v) < Rank(g, u)
  {
    PeelOrderSound(g, g.succ.Keys);
    var ord := PeelOrder(g, g.succ.Keys).value;
    var i, j := IndexOf(ord, u), IndexOf(ord, v);
    assert HasEdge(g, ord[i], ord[j]);
  }

  /** `topological_sort(g)[0]`: the first node of a topological order, which no edge
      enters. The empty order has no first element, and a graph with a cycle has no order. */
  function TopologicalFirst<N(==, !new)>(g: Digraph<N>): (r: Result<N>)
    requires Wf(g)
    ensures r.Ok? ==> r.value in g.succ && InDegreeZero(g, r.value)
    ensures r == Raise(IndexError) <==> g.nodes == []
    ensures r == Raise(Unfeasible) <==> g.nodes != [] && !Acyclic(g)
    ensures r.Ok? || r == Raise(IndexError) || r == Raise(Unfeasible)
  {
    if g.nodes == [] then Raise(IndexError)
    else
      match PeelOrder(g, g.succ.Keys)
      case None => Raise(Unfeasible)
      case Some(ord) =>
        assert g.nodes[0] in g.succ.Keys;
        PeelOrderSound(g, g.succ.Keys);
        Ok(ord[0])
  }

  /** `if not root_node: root_node = topological_sort(g)[0]`, followed by the search's
      lookup of the root, which fails for a node the graph does not have. */
  function ResolveRoot<N(==, !new)>(g: Digraph<N>, root: Option<N>): (r: Result<N>)
    requires Wf(g)
    ensures r.Ok? ==> r.value in g.succ
    ensures root.Some? ==> r == if root.value in g.succ then Ok(root.value) else Raise(KeyError)
    ensures root.None? ==> r == TopologicalFirst(g)
  {
    match root
    case Some(n) => if n in g.succ then Ok(n) else Raise(KeyError)
    case None => TopologicalFirst(g)
  }
}
