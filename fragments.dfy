/** Collins–Duffy tree fragments (tree.py): the complete-production test, the fragment
    predicate and the naive enumeration of all fragments of a tree. */
module TreeFragments {
  import opened Exceptions
  import opened Graphs
  import opened Trees

  // ---------------------------------------------------------------------------------------
  // contains_only_complete_productions
  // ---------------------------------------------------------------------------------------

  /** `contains_only_complete_productions(tree, subtree, subtree_root_node, node_attrib)`:
      the tree's rules (from its own topological first node) are computed first, then the
      subtree's; the answer is whether every rule of the subtree is a rule of the tree. */
  function ContainsOnlyCompleteProductions(tree: Tree, sub: Tree, subRoot: Option<string>, attrib: string): (r: Result<bool>)
    requires Wf(tree) && Wf(sub)
    ensures ProductionRules(tree, None, attrib).Raise? ==> r == Raise(ProductionRules(tree, None, attrib).exc)
    ensures r.Ok? <==> ProductionRules(tree, None, attrib).Ok? && ProductionRules(sub, subRoot, attrib).Ok?
    ensures r.Ok? ==> (r.value <==> forall rule :: rule in ProductionRules(sub, subRoot, attrib).value ==>
                                                  rule in ProductionRules(tree, None, attrib).value)
  {
    var treeRules :- ProductionRules(tree, None, attrib);
    var subRules :- ProductionRules(sub, subRoot, attrib);
    Ok(subRules <= treeRules)
  }

  /** Every tree whose rules can be extracted consists only of its own complete productions. */
  lemma CompleteProductionsReflexive(tree: Tree, attrib: string)
    requires Wf(tree) && ProductionRules(tree, None, attrib).Ok?
    ensures ContainsOnlyCompleteProductions(tree, tree, None, attrib) == Ok(true)
  {
  }

  /** On a forest, the test holds exactly when each node the search from the subtree's root
      reaches and that has successors has a rule, and that rule is one of the tree's. */
  lemma CompleteProductionsOfInnerNodes(tree: Tree, sub: Tree, subRoot: Option<string>, attrib: string, start: string)
    requires Wf(tree) && Wf(sub) && RootOf(sub, subRoot) == Ok(start) && Forest(sub)
    requires ProductionRules(tree, None, attrib).Ok?
    requires subRoot.None? ==> InDegreeZero(sub, start)
    ensures InDegreeZero(sub, start) ==>
      (ContainsOnlyCompleteProductions(tree, sub, subRoot, attrib) == Ok(true) <==>
        forall x :: x in Reached(sub, start) && sub.succ[x] != [] ==>
          RuleOf(sub, x, attrib).Ok? && RuleOf(sub, x, attrib).value in ProductionRules(tree, None, attrib).value)
  {
    ProductionRulesOfInnerNodes(sub, subRoot, attrib, start);
  }

  // ---------------------------------------------------------------------------------------
  // is_treefragment
  // ---------------------------------------------------------------------------------------

  /** `is_treefragment(tree, tree_fragment, node_attrib)`: weakly connected (networkx raises
      on a graph without nodes), at least one edge, and only complete productions of the
      tree, the fragment's root being its topological first node. */
  function IsTreeFragment(tree: Tree, frag: Tree, attrib: string): (r: Result<bool>)
    requires Wf(tree) && Wf(frag)
    ensures frag.nodes == [] <==> r == Raise(PointlessConcept)
    ensures r == Ok(true) ==> IsProper(frag) && ContainsOnlyCompleteProductions(tree, frag, None, attrib) == Ok(true)
    ensures frag.nodes != [] && !IsProper(frag) ==> r == Ok(false)
  {
    var connected :- IsWeaklyConnected(frag);
    if connected && IsProper(frag) then
      var complete :- ContainsOnlyCompleteProductions(tree, frag, None, attrib);
      Ok(complete)
    else
      Ok(false)
  }

  /** A fragment with nodes is accepted exactly when it is weakly connected (no closed set of
      its nodes holding its first node leaves any node out), has an edge, and consists of
      complete productions of the tree; it raises exactly when extracting rules raises. */
  lemma TreeFragmentIff(tree: Tree, frag: Tree, attrib: string)
    requires Wf(tree) && Wf(frag) && frag.nodes != []
    ensures IsTreeFragment(tree, frag, attrib) == Ok(true) <==>
      && (forall c :: c <= frag.succ.Keys && frag.nodes[0] in c && Closed(frag, c) ==> c == frag.succ.Keys)
      && IsProper(frag)
      && ContainsOnlyCompleteProductions(tree, frag, None, attrib) == Ok(true)
    ensures IsTreeFragment(tree, frag, attrib).Raise? <==>
      && (forall c :: c <= frag.succ.Keys && frag.nodes[0] in c && Closed(frag, c) ==> c == frag.succ.Keys)
      && IsProper(frag)
      && ContainsOnlyCompleteProductions(tree, frag, None, attrib).Raise?
  {
    WeaklyConnectedIff(frag);
  }

  // ---------------------------------------------------------------------------------------
  // itertools.combinations
  // ---------------------------------------------------------------------------------------

  /** `itertools.combinations(xs, k)`: the length-`k` subsequences of `xs`, in lexicographic
      order of their positions. */
  function Combinations<T>(xs: seq<T>, k: nat): (r: seq<seq<T>>)
    ensures k == 0 ==> r == [[]]
    ensures |xs| < k ==> r == []
    decreases |xs|
  {
    if k == 0 then [[]]
    else if |xs| < k then []
    else
      var with := Combinations(xs[1..], k - 1);
      seq(|with|, i requires 0 <= i < |with| => [xs[0]] + with[i]) + Combinations(xs[1..], k)
  }

  /** Each combination has `k` members, all taken from `xs`. */
  lemma {:induction false} CombinationsSound<T>(xs: seq<T>, k: nat)
    ensures forall c :: c in Combinations(xs, k) ==> |c| == k && SetOf(c) <= SetOf(xs)
    decreases |xs|
  {
    if k != 0 && |xs| >= k {
      CombinationsSound(xs[1..], k - 1);
      CombinationsSound(xs[1..], k);
      CombinationsStep(xs, Combinations(xs[1..], k - 1), Combinations(xs[1..], k), k);
    }
  }

  lemma CombinationsStep<T>(xs: seq<T>, with: seq<seq<T>>, without: seq<seq<T>>, k: nat)
    requires xs != [] && k >= 1
    requires forall c :: c in with ==> |c| == k - 1 && SetOf(c) <= SetOf(xs[1..])
    requires forall c :: c in without ==> |c| == k && SetOf(c) <= SetOf(xs[1..])
    ensures var r := seq(|with|, i requires 0 <= i < |with| => [xs[0]] + with[i]) + without;
      forall c :: c in r ==> |c| == k && SetOf(c) <= SetOf(xs)
  {
    var r := seq(|with|, i requires 0 <= i < |with| => [xs[0]] + with[i]) + without;
    assert SetOf(xs) == {xs[0]} + SetOf(xs[1..]) by {
      assert xs == [xs[0]] + xs[1..];
    }
    forall c | c in r ensures |c| == k && SetOf(c) <= SetOf(xs) {
      var i :| 0 <= i < |r| && r[i] == c;
      if i < |with| {
        assert c == [xs[0]] + with[i];
        assert with[i] in with;
        assert SetOf(c) == {xs[0]} + SetOf(with[i]);
      } else {
        assert c == without[i - |with|];
      }
    }
  }

  /** No set node appears twice in a combination of distinct nodes. */
  lemma {:induction false} CombinationsDistinct<T>(xs: seq<T>, k: nat)
    requires Distinct(xs)
    ensures forall c :: c in Combinations(xs, k) ==> Distinct(c)
    decreases |xs|
  {
    if k != 0 && |xs| >= k {
      CombinationsDistinct(xs[1..], k - 1);
      CombinationsDistinct(xs[1..], k);
      CombinationsSound(xs[1..], k - 1);
      var with := Combinations(xs[1..], k - 1);
      forall i | 0 <= i < |with| ensures Distinct([xs[0]] + with[i]) {
        assert with[i] in with;
        assert xs[0] !in SetOf(xs[1..]);
        var c := [xs[0]] + with[i];
        forall p, q | 0 <= p < q < |c| ensures c[p] != c[q] {
          if p == 0 {
            assert c[q] == with[i][q - 1];
            assert c[q] in SetOf(with[i]);
          } else {
            assert c[p] == with[i][p - 1] && c[q] == with[i][q - 1];
          }
        }
      }
    }
  }

  lemma {:induction false} SetOfCard<T>(xs: seq<T>)
    ensures |SetOf(xs)| <= |xs|
  {
    if xs != [] {
      SetOfCard(xs[1..]);
      assert SetOf(xs) == {xs[0]} + SetOf(xs[1..]) by {
        assert xs == [xs[0]] + xs[1..];
      }
    }
  }

  /** Every `k`-element set of members of `xs` is the member set of one of the combinations. */
  lemma {:induction false} CombinationsComplete<T>(xs: seq<T>, k: nat, s: set<T>)
    requires s <= SetOf(xs) && |s| == k
    ensures exists c :: c in Combinations(xs, k) && SetOf(c) == s
    decreases |xs|
  {
    if k == 0 {
      var e: seq<T> := [];
      assert SetOf(e) == s;
      assert e in Combinations(xs, k);
    } else {
      SetOfCard(xs);
      SubsetCard(s, SetOf(xs));
      if xs[0] in s {
        var s' := s - {xs[0]};
        TailMembers(xs, s');
        CombinationsComplete(xs[1..], k - 1, s');
        var c' :| c' in Combinations(xs[1..], k - 1) && SetOf(c') == s';
        WithFirst(xs, k, c', s);
      } else {
        TailMembers(xs, s);
        CombinationsComplete(xs[1..], k, s);
        var c :| c in Combinations(xs[1..], k) && SetOf(c) == s;
        WithoutFirst(xs, k, c);
      }
    }
  }

  lemma TailMembers<T>(xs: seq<T>, s: set<T>)
    requires xs != [] && s <= SetOf(xs) && xs[0] !in s
    ensures s <= SetOf(xs[1..])
  {
    forall x | x in s ensures x in SetOf(xs[1..]) {
      var i :| 0 <= i < |xs| && xs[i] == x;
      assert xs[1..][i - 1] == x;
    }
  }

  lemma WithFirst<T>(xs: seq<T>, k: nat, c: seq<T>, s: set<T>)
    requires 1 <= k <= |xs| && c in Combinations(xs[1..], k - 1)
    requires xs[0] in s && SetOf(c) == s - {xs[0]}
    ensures [xs[0]] + c in Combinations(xs, k) && SetOf([xs[0]] + c) == s
  {
    assert SetOf([xs[0]] + c) == {xs[0]} + SetOf(c);
    var with := Combinations(xs[1..], k - 1);
    var i :| 0 <= i < |with| && with[i] == c;
    var r := seq(|with|, i requires 0 <= i < |with| => [xs[0]] + with[i]) + Combinations(xs[1..], k);
    assert r[i] == [xs[0]] + c;
  }

  /** Step of `CombinationsComplete`: a combination of the tail is one of the whole list. */
  lemma WithoutFirst<T>(xs: seq<T>, k: nat, c: seq<T>)
    requires 1 <= k <= |xs| && c in Combinations(xs[1..], k)
    ensures c in Combinations(xs, k)
  {
  }

  // ---------------------------------------------------------------------------------------
  // get_subtrees
  // ---------------------------------------------------------------------------------------

  /** The combinations of `nodes` of every size from `n` up to `hi`, smallest size first. */
  function CandidatesFrom<T>(nodes: seq<T>, n: nat, hi: nat): (r: seq<seq<T>>)
    ensures n > hi ==> r == []
    decreases hi + 1 - n
  {
    if n > hi then [] else Combinations(nodes, n) + CandidatesFrom(nodes, n + 1, hi)
  }

  /** Every candidate is a non-empty selection of the nodes. */
  lemma {:induction false} CandidatesSound<T>(nodes: seq<T>, n: nat, hi: nat)
    requires n >= 1
    ensures forall c :: c in CandidatesFrom(nodes, n, hi) ==> c != [] && SetOf(c) <= SetOf(nodes)
    decreases hi + 1 - n
  {
    if n <= hi {
      CandidatesSound(nodes, n + 1, hi);
      CombinationsSound(nodes, n);
      var now, later := Combinations(nodes, n), CandidatesFrom(nodes, n + 1, hi);
      assert CandidatesFrom(nodes, n, hi) == now + later;
      ConcatMembers(now, later);
      forall c | c in now + later ensures c != [] && SetOf(c) <= SetOf(nodes) {
        if c in now {
          assert |c| == n;
        }
      }
    }
  }

  /** Every set of nodes with between `n` and `hi` members is the member set of a candidate. */
  lemma {:induction false} CandidatesComplete<T>(nodes: seq<T>, n: nat, hi: nat, s: set<T>)
    requires s <= SetOf(nodes) && n <= |s| <= hi
    ensures exists c :: c in CandidatesFrom(nodes, n, hi) && SetOf(c) == s
    decreases hi + 1 - n
  {
    var now, later := Combinations(nodes, n), CandidatesFrom(nodes, n + 1, hi);
    ConcatMembers(now, later);
    if |s| == n {
      CombinationsComplete(nodes, n, s);
      var c :| c in now && SetOf(c) == s;
      assert c in now + later;
    } else {
      CandidatesComplete(nodes, n + 1, hi, s);
      var c :| c in later && SetOf(c) == s;
      assert c in now + later;
    }
  }

  /** The `get_subtrees` generator resumed at the candidate node sets `cands` after having
      yielded `found`: each candidate's induced subgraph is yielded when it is a fragment; an
      exception from `is_treefragment` ends the enumeration. */
  function KeepFragments(tree: Tree, found: seq<Tree>, cands: seq<seq<string>>, attrib: string): (r: Result<seq<Tree>>)
    requires Wf(tree)
    decreases |cands|
  {
    if cands == [] then Ok(found)
    else
      var sub := Induced(tree, SetOf(cands[0]));
      var ok :- IsTreeFragment(tree, sub, attrib);
      KeepFragments(tree, if ok then found + [sub] else found, cands[1..], attrib)
  }

  /** `get_subtrees(tree, node_attrib)`, as the list of everything it yields. */
  function Subtrees(tree: Tree, attrib: string): Result<seq<Tree>>
    requires Wf(tree)
  {
    KeepFragments(tree, [], CandidatesFrom(tree.nodes, 1, |tree.nodes|), attrib)
  }

  /** `get_subtrees`, with its loop over sizes and its loop over the combinations of one size. */
  method GetSubtrees(tree: Tree, attrib: string) returns (r: Result<seq<Tree>>)
    requires Wf(tree)
    ensures r == Subtrees(tree, attrib)
  {
    var found: seq<Tree> := [];
    var total := |tree.nodes|;
    for n := 1 to total + 1
      invariant KeepFragments(tree, found, CandidatesFrom(tree.nodes, n, total), attrib) == Subtrees(tree, attrib)
    {
      var combos := Combinations(tree.nodes, n);
      ghost var rest := CandidatesFrom(tree.nodes, n + 1, total);
      SizeStart(tree.nodes, n, total);
      for j := 0 to |combos|
        invariant KeepFragments(tree, found, combos[j..] + rest, attrib) == Subtrees(tree, attrib)
      {
        var sub := Induced(tree, SetOf(combos[j]));
        var ok := IsTreeFragment(tree, sub, attrib);
        SliceStep(combos, j, rest);
        KeepStep(tree, found, combos[j..] + rest, attrib);
        if ok.Raise? {
          return Raise(ok.exc);
        }
        if ok.value {
          found := found + [sub];
        }
      }
      SliceEnd(combos, rest);
    }
    r := Ok(found);
  }

  lemma SizeStart<T>(nodes: seq<T>, n: nat, hi: nat)
    requires n <= hi
    ensures Combinations(nodes, n)[0..] + CandidatesFrom(nodes, n + 1, hi) == CandidatesFrom(nodes, n, hi)
  {
    assert Combinations(nodes, n)[0..] == Combinations(nodes, n);
  }

  /** Step of the `get_subtrees` loop proof: the empty suffix contributes nothing. */
  lemma SliceEnd<T>(xs: seq<T>, rest: seq<T>)
    ensures xs[|xs|..] + rest == rest
  {
  }

  /** Step of the `get_subtrees` loop proof: a suffix is its first element and the rest. */
  lemma SliceStep<T>(xs: seq<T>, j: nat, rest: seq<T>)
    requires j < |xs|
    ensures (xs[j..] + rest)[0] == xs[j] && (xs[j..] + rest)[1..] == xs[j + 1..] + rest
  {
  }

  lemma KeepStep(tree: Tree, found: seq<Tree>, cands: seq<seq<string>>, attrib: string)
    requires Wf(tree) && cands != []
    ensures var sub := Induced(tree, SetOf(cands[0]));
      var ok := IsTreeFragment(tree, sub, attrib);
      KeepFragments(tree, found, cands, attrib) ==
        if ok.Raise? then Raise(ok.exc)
        else KeepFragments(tree, if ok.value then found + [sub] else found, cands[1..], attrib)
  {
  }

  lemma CandidatesSplit(cands: seq<seq<string>>)
    requires cands != []
    ensures forall c :: c in cands <==> c == cands[0] || c in cands[1..]
  {
    assert cands == [cands[0]] + cands[1..];
  }

  /** The enumeration succeeds exactly when no candidate makes `is_treefragment` raise. */
  lemma {:induction false} KeepFragmentsOk(tree: Tree, found: seq<Tree>, cands: seq<seq<string>>, attrib: string)
    requires Wf(tree)
    ensures KeepFragments(tree, found, cands, attrib).Ok? <==>
      forall c :: c in cands ==> IsTreeFragment(tree, Induced(tree, SetOf(c)), attrib).Ok?
    decreases |cands|
  {
    if cands != [] {
      CandidatesSplit(cands);
      var sub := Induced(tree, SetOf(cands[0]));
      var ok := IsTreeFragment(tree, sub, attrib);
      if ok.Ok? {
        KeepFragmentsOk(tree, if ok.value then found + [sub] else found, cands[1..], attrib);
      }
    }
  }

  /** `h` is the subgraph that one of `cands` induces, and a fragment of the tree. */
  predicate KeptFrom(tree: Tree, cands: seq<seq<string>>, attrib: string, h: Tree)
    requires Wf(tree)
  {
    exists c :: c in cands && h == Induced(tree, SetOf(c)) && IsTreeFragment(tree, h, attrib) == Ok(true)
  }

  /** When it succeeds, it yields after `found` exactly the induced subgraphs of the
      candidates that are fragments. */
  lemma {:induction false} KeepFragmentsYields(tree: Tree, found: seq<Tree>, cands: seq<seq<string>>, attrib: string)
    requires Wf(tree)
    ensures var r := KeepFragments(tree, found, cands, attrib);
      r.Ok? ==> forall h :: h in r.value <==> h in found || KeptFrom(tree, cands, attrib, h)
    decreases |cands|
  {
    if cands != [] {
      var sub := Induced(tree, SetOf(cands[0]));
      var ok := IsTreeFragment(tree, sub, attrib);
      if ok.Ok? {
        var found' := if ok.value then found + [sub] else found;
        KeepStep(tree, found, cands, attrib);
        KeepFragmentsYields(tree, found', cands[1..], attrib);
        forall h ensures
          (h in found' || KeptFrom(tree, cands[1..], attrib, h)) <==> (h in found || KeptFrom(tree, cands, attrib, h))
        {
          assert h in found' <==> h in found || (ok.value && h == sub);
          KeptSplit(tree, cands, attrib, h);
        }
      }
    }
  }

  /** A fragment kept from `cands` is kept from its first candidate or from the rest. */
  lemma KeptSplit(tree: Tree, cands: seq<seq<string>>, attrib: string, h: Tree)
    requires Wf(tree) && cands != []
    ensures KeptFrom(tree, cands, attrib, h) <==>
      (h == Induced(tree, SetOf(cands[0])) && IsTreeFragment(tree, h, attrib) == Ok(true)) ||
      KeptFrom(tree, cands[1..], attrib, h)
  {
    CandidatesSplit(cands);
  }

  /** When it fails, it raises what some candidate's `is_treefragment` raises. */
  lemma {:induction false} KeepFragmentsRaises(tree: Tree, found: seq<Tree>, cands: seq<seq<string>>, attrib: string)
    requires Wf(tree)
    ensures var r := KeepFragments(tree, found, cands, attrib);
      r.Raise? ==> exists c :: c in cands && IsTreeFragment(tree, Induced(tree, SetOf(c)), attrib) == Raise(r.exc)
    decreases |cands|
  {
    if cands != [] {
      CandidatesSplit(cands);
      var sub := Induced(tree, SetOf(cands[0]));
      var ok := IsTreeFragment(tree, sub, attrib);
      if ok.Ok? {
        KeepFragmentsRaises(tree, if ok.value then found + [sub] else found, cands[1..], attrib);
      }
    }
  }

  /** `get_subtrees` yields exactly the induced subgraphs on the non-empty node sets of the
      tree that are fragments of it, and raises exactly when one of them makes
      `is_treefragment` raise. */
  lemma SubtreesExact(tree: Tree, attrib: string)
    requires Wf(tree)
    ensures Subtrees(tree, attrib).Ok? <==>
      forall s :: s <= tree.succ.Keys && s != {} ==> IsTreeFragment(tree, Induced(tree, s), attrib).Ok?
    ensures Subtrees(tree, attrib).Ok? ==> forall h :: h in Subtrees(tree, attrib).value <==>
      exists s :: s <= tree.succ.Keys && s != {} && h == Induced(tree, s) && IsTreeFragment(tree, h, attrib) == Ok(true)
  {
    SubtreesOkIff(tree, attrib);
    SubtreesMembers(tree, attrib);
  }

  lemma SubtreesOkIff(tree: Tree, attrib: string)
    requires Wf(tree)
    ensures Subtrees(tree, attrib).Ok? <==>
      forall s :: s <= tree.succ.Keys && s != {} ==> IsTreeFragment(tree, Induced(tree, s), attrib).Ok?
  {
    var cands := CandidatesFrom(tree.nodes, 1, |tree.nodes|);
    KeepFragmentsOk(tree, [], cands, attrib);
    NodesOf(tree);
    CandidatesAreSubsets(tree.nodes);
  }

  lemma SubtreesMembers(tree: Tree, attrib: string)
    requires Wf(tree)
    ensures Subtrees(tree, attrib).Ok? ==> forall h :: h in Subtrees(tree, attrib).value <==>
      exists s :: s <= tree.succ.Keys && s != {} && h == Induced(tree, s) && IsTreeFragment(tree, h, attrib) == Ok(true)
  {
    var cands := CandidatesFrom(tree.nodes, 1, |tree.nodes|);
    KeepFragmentsYields(tree, [], cands, attrib);
    forall h ensures KeptFrom(tree, cands, attrib, h) <==>
      exists s :: s <= tree.succ.Keys && s != {} && h == Induced(tree, s) && IsTreeFragment(tree, h, attrib) == Ok(true)
    {
      KeptFromSubset(tree, attrib, h);
    }
  }

  /** A graph is kept from some candidate exactly when it is the fragment induced by some
      non-empty set of nodes. */
  lemma KeptFromSubset(tree: Tree, attrib: string, h: Tree)
    requires Wf(tree)
    ensures KeptFrom(tree, CandidatesFrom(tree.nodes, 1, |tree.nodes|), attrib, h) <==>
      exists s :: s <= tree.succ.Keys && s != {} && h == Induced(tree, s) && IsTreeFragment(tree, h, attrib) == Ok(true)
  {
    if KeptFrom(tree, CandidatesFrom(tree.nodes, 1, |tree.nodes|), attrib, h) {
      KeptIsSubset(tree, attrib, h);
    }
    if exists s :: s <= tree.succ.Keys && s != {} && h == Induced(tree, s) && IsTreeFragment(tree, h, attrib) == Ok(true) {
      var s :| s <= tree.succ.Keys && s != {} && h == Induced(tree, s) && IsTreeFragment(tree, h, attrib) == Ok(true);
      SubsetIsKept(tree, attrib, h, s);
    }
  }

  lemma KeptIsSubset(tree: Tree, attrib: string, h: Tree)
    requires Wf(tree) && KeptFrom(tree, CandidatesFrom(tree.nodes, 1, |tree.nodes|), attrib, h)
    ensures exists s :: s <= tree.succ.Keys && s != {} && h == Induced(tree, s) && IsTreeFragment(tree, h, attrib) == Ok(true)
  {
    var cands := CandidatesFrom(tree.nodes, 1, |tree.nodes|);
    var c :| c in cands && h == Induced(tree, SetOf(c)) && IsTreeFragment(tree, h, attrib) == Ok(true);
    NodesOf(tree);
    CandidatesSound(tree.nodes, 1, |tree.nodes|);
    assert c[0] in SetOf(c);
    var s := SetOf(c);
    assert s <= tree.succ.Keys && s != {} && h == Induced(tree, s) && IsTreeFragment(tree, h, attrib) == Ok(true);
  }

  lemma SubsetIsKept(tree: Tree, attrib: string, h: Tree, s: set<string>)
    requires Wf(tree) && s <= tree.succ.Keys && s != {} && h == Induced(tree, s) && IsTreeFragment(tree, h, attrib) == Ok(true)
    ensures KeptFrom(tree, CandidatesFrom(tree.nodes, 1, |tree.nodes|), attrib, h)
  {
    var cands := CandidatesFrom(tree.nodes, 1, |tree.nodes|);
    NodesOf(tree);
    CandidatesAreSubsets(tree.nodes);
    var c :| c in cands && SetOf(c) == s;
  }

  /** The candidate sets of `get_subtrees` are exactly the non-empty sets of nodes. */
  lemma CandidatesAreSubsets<T>(nodes: seq<T>)
    ensures forall c :: c in CandidatesFrom(nodes, 1, |nodes|) ==> SetOf(c) <= SetOf(nodes) && SetOf(c) != {}
    ensures forall s :: s <= SetOf(nodes) && s != {} ==>
      exists c :: c in CandidatesFrom(nodes, 1, |nodes|) && SetOf(c) == s
  {
    var cands := CandidatesFrom(nodes, 1, |nodes|);
    CandidatesSound(nodes, 1, |nodes|);
    forall c | c in cands ensures SetOf(c) != {} {
      assert c[0] in SetOf(c);
    }
    forall s | s <= SetOf(nodes) && s != {} ensures exists c :: c in cands && SetOf(c) == s {
      SetOfCard(nodes);
      SubsetCard(s, SetOf(nodes));
      CandidatesComplete(nodes, 1, |nodes|, s);
    }
  }
}
