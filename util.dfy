/** Helpers: a memoising wrapper around a function, and the two list conversions that turn
    (ID, label) tuples into the (ID, attribute dictionary) tuples networkx's
    `add_nodes_from` and `add_edges_from` accept. */
module Util {

  /** `memoize(f)`, the dictionary class `memodict`: calling it with positional arguments
      `args` looks `args` up in the dictionary; a missing key is computed with `f` and
      stored (`__missing__`). `A` stands for the tuple of positional arguments. */
  class Memo<A(==), R> {
    const f: A -> R
    var cache: map<A, R>

    /** Every stored result is the result of `f` on its key. */
    ghost predicate Valid()
      reads this
    {
      forall a :: a in cache ==> cache[a] == f(a)
    }

    constructor (f: A -> R)
      ensures this.f == f && cache == map[]
      ensures Valid()
    {
      this.f := f;
      cache := map[];
    }

    /** `__call__(*args, **kwargs)`: the keyword arguments are accepted and dropped. A
        stored key gives back its stored result and leaves the dictionary as it was; a new
        key gives `f(args)`, which is stored under it. */
    method Call<K>(args: A, kwargs: K) returns (r: R)
      requires Valid()
      modifies this
      ensures Valid()
      ensures r == f(args)
      ensures args in old(cache) ==> r == old(cache)[args] && cache == old(cache)
      ensures args !in old(cache) ==> cache == old(cache)[args := f(args)]
    {
      if args in cache {
        r := cache[args];
      } else {
        r := Missing(args);
      }
    }

    /** `__missing__(key)`: compute `f(key)`, store it under `key` and return it. */
    method Missing(key: A) returns (r: R)
      requires Valid()
      modifies this
      ensures Valid()
      ensures r == f(key) && cache == old(cache)[key := r]
    {
      r := f(key);
      cache := cache[key := r];
    }
  }

  /** A networkx attribute dictionary holding just a label. */
  function Labelled<L>(name: L): (d: map<string, L>)
    ensures d.Keys == {"label"} && d["label"] == name
  {
    map["label" := name]
  }

  /** `label_nodes`: each (node ID, label) pair becomes (node ID, {'label': label}), in the
      same order. */
  method LabelNodes<I, L>(pairs: seq<(I, L)>) returns (nodes: seq<(I, map<string, L>)>)
    ensures |nodes| == |pairs|
    ensures forall i :: 0 <= i < |pairs| ==>
              nodes[i].0 == pairs[i].0 && nodes[i].1 == Labelled(pairs[i].1)
  {
    nodes := [];
    for i := 0 to |pairs|
      invariant |nodes| == i
      invariant forall j :: 0 <= j < i ==>
                  nodes[j].0 == pairs[j].0 && nodes[j].1 == Labelled(pairs[j].1)
    {
      var (id, name) := pairs[i];
      nodes := nodes + [(id, Labelled(name))];
    }
  }

  /** `label_edges`: each (source ID, target ID, label) triple becomes (source ID, target ID,
      {'label': label}), in the same order. */
  method LabelEdges<I, L>(triples: seq<(I, I, L)>) returns (edges: seq<(I, I, map<string, L>)>)
    ensures |edges| == |triples|
    ensures forall i :: 0 <= i < |triples| ==>
              edges[i].0 == triples[i].0 && edges[i].1 == triples[i].1 &&
              edges[i].2 == Labelled(triples[i].2)
  {
    edges := [];
    for i := 0 to |triples|
      invariant |edges| == i
      invariant forall j :: 0 <= j < i ==>
                  edges[j].0 == triples[j].0 && edges[j].1 == triples[j].1 &&
                  edges[j].2 == Labelled(triples[j].2)
    {
      var (source, target, name) := triples[i];
      edges := edges + [(source, target, Labelled(name))];
    }
  }
}
