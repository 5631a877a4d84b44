# discoursekernels in Dafny

A Dafny model of the core of `discoursekernels`, a small Python library of kernels for
natural-language structures, with proofs about that model. The model covers:

- the string kernels of Shawe-Taylor and Cristianini (2004):
  - the k-suffix indicator, the p-spectrum double loop and the brute-force blended
    spectrum (`spectrum_kernel.py`);
  - the all-subsequences, fixed-length and gap-weighted subsequence kernels, each in its
    recursive and its table form (`subsequence_kernels.py`);
- the parse-tree functions of `tree.py` and `tree_kernel.py`:
  - production-rule extraction and the complete-production test;
  - the Collins and Duffy (2001) tree-fragment predicate and the naive enumeration of
    all fragments;
  - the proper co-rooted subtrees and their count;
  - the example tree "Jeff ate the apple";
- the dependency-graph functions of `dependency_graph.py`: labelled children, common
  dependency targets, the Collins–Duffy count of common subgraphs (the product of
  `C + 2` over the common targets, minus one), dependency rules and the rule-subset test;
- the ESU subgraph enumeration of Wernicke (2006) (`subgraph_enumeration.py`):
  - open and exclusive neighbourhoods;
  - the recursive extension step with its worklist loop;
  - the drivers for one size and for sizes 1 .. k;
- from `util.py`: the `memoize` dictionary class and the two label-wrapping list maps.

The networkx graph the code works on is the value `Graphs.Digraph`. It holds:

- the nodes in iteration order;
- an ordered successor list per node;
- an attribute dictionary per node and per edge.

The networkx algorithms the code calls are defined over that value, in `graphs.dfy`:
`add_node(s_from)`, `add_edge(s_from)`, `dfs_edges`, `dfs_tree`, `subgraph`,
`is_weakly_connected`, `is_directed_acyclic_graph` and `topological_sort(g)[0]`.

On the inputs the callers supply, each Python exception on an error path becomes
`Exceptions.Result.Raise`, including a failed `assert` and a missing key or attribute.
The inputs a `requires` excludes are listed under "Left out". The functions that loop in
the source are methods with loops over `seq`, `set`, `map` and `array2`. Each loop is
either proved equal to a specification function, whose properties are proved as lemmas,
or specified directly by its postconditions.

Module layout, one file per module:

| file | module | models |
|---|---|---|
| exceptions.dfy | Exceptions | Python exceptions, `Result`, `Option` |
| graphs.dfy | Graphs | networkx `DiGraph` and the algorithms used on it |
| spectrum.dfy | SpectrumKernel | `spectrum_kernel.py` |
| subsequence.dfy | SubsequenceKernels | `subsequence_kernels.py` |
| trees.dfy | Trees | `tree.py`: rules, co-rooted subtrees and their count |
| fragments.dfy | TreeFragments | `tree.py`: complete productions, fragments, `get_subtrees` |
| tree_kernel.dfy | TreeKernel | `tree_kernel.py` |
| dependency.dfy | DependencyGraphs | `dependency_graph.py` |
| subgraph_enumeration.dfy | SubgraphEnumeration | `subgraph_enumeration.py` |
| util.dfy | Util | `util.py` |

Where the code and the documented intent differ, the model follows the code:

- The fixed-length kernel's table form and its recursive form are meant to agree. As
  written they do not, and `FixedLengthDpDiverges` names an input on which they differ.
- The test files call the kernels under other names and with other argument orders:
  - `*_recursive` and `*_dp1` names;
  - `(s, t, p)` for `p_spectrum_kernel`, whose code order is `(p, s, t)`;
  - `(s, t, k)` for `k_suffix_kernel`, whose code order is `(k, s, t)`. Read that way,
    the table expects 0 for ('', '', 1), ('', '', 2), ('a', '', 1) and ('a', 'a', 2),
    where a string is shorter than k. The code's assertion fails on these, and
    `KSuffixKernelTestTable` states both the entries that hold and the four that raise.

  Worked values from the tests are stated with the code's own functions and argument
  order.

## Model

| member | source | states |
|---|---|---|
| SpectrumKernel.PySuffix | spectrum_kernel.py:36-37 | Python's `s[-k:]` has length k when 0 < k <= \|s\|, and is the whole string for k = 0 or k > \|s\| |
| SpectrumKernel.PySlice | spectrum_kernel.py:74 | `s[i:j]` clamps both bounds to \|s\|; within bounds it is the Dafny slice `s[i..j]` |
| SpectrumKernel.KSuffixKernel | spectrum_kernel.py:7-38 | the assertion fails (AssertionError) exactly when \|s\| < k or \|t\| < k; otherwise the value is 0 or 1 |
| SpectrumKernel.KSuffixKernelMatches | spectrum_kernel.py:31-38 | with both strings at least k long the value is 1 exactly when the last k symbols agree; for k = 0, exactly when the whole strings agree |
| SpectrumKernel.KSuffixKernelSymmetric | spectrum_kernel.py:7-38 | swapping s and t does not change the result, error included |
| SpectrumKernel.KSuffixKernelTestTable | spectrum_kernel.py:31-38 | the test table's entries read in the code's argument order: five hold, and the four with a string shorter than k raise AssertionError where the table expects 0 |
| SpectrumKernel.KSuffixKernelOfWindows | spectrum_kernel.py:74 | on two strings of length exactly k the indicator is plain equality |
| SpectrumKernel.PSpectrumStep | spectrum_kernel.py:72-74 | one comparison of the double loop raises only when the whole call raises; a comparison that succeeds is the equality of the two windows |
| SpectrumKernel.PSpectrumKernel | spectrum_kernel.py:41-75 | the method raises AssertionError exactly when some window of t is too short, and otherwise returns the number of index pairs i, j in 0..\|s\|-p with equal windows |
| SpectrumKernel.PSpectrumTooLong | spectrum_kernel.py:72-73 | for p > \|s\| the double loop is empty: the result is 0 and no assertion fails |
| SpectrumKernel.PSpectrumBound | spectrum_kernel.py:71-75 | the count is at most the square of the number of windows of s |
| SpectrumKernel.PSpectrumEmptyWindows | spectrum_kernel.py:71-75 | for p = 0 every pair of empty windows matches: (\|s\|+1)^2 |
| SpectrumKernel.PSpectrumEqualLength | spectrum_kernel.py:50-52 | on strings of equal length the loop computes the documented spectrum sum, and it is symmetric |
| SpectrumKernel.PSpectrumIgnoresTailOfT | spectrum_kernel.py:73 | as written, p = 1, s = "a", t = "ba" gives 0 although the documented sum is 1 |
| SpectrumKernel.SpectrumKernel | spectrum_kernel.py:50-52 | the double loop with the second bound taken from \|t\| computes the documented sum over both strings' windows |
| SpectrumKernel.SpectrumCountSymmetric | spectrum_kernel.py:50-52 | the documented spectrum sum is symmetric in s and t for every p |
| SpectrumKernel.PSpectrumWorkedValues | test_spectrum_kernel.py:20-24 | (2, bar, bar) = 2, (2, bar, bat) = 1, (2, bar, car) = 1, (2, bar, cat) = 0 in the code's argument order |
| SpectrumKernel.BruteforceBlendedSpectrumKernel | spectrum_kernel.py:78-106 | the triple loop returns the sum over h < p of the number of equal length-(h+1) substring pairs |
| SpectrumKernel.BlendedSpectrumMonotone | spectrum_kernel.py:102-105 | allowing longer substrings never lowers the count |
| SpectrumKernel.BlendedSpectrumSymmetric | spectrum_kernel.py:101-106 | the blended count does not depend on the order of s and t |
| SpectrumKernel.BlendedSpectrumDoctests | spectrum_kernel.py:88-93 | ('a','a',1) = 1, ('a','b',1) = 0, ('ab','ab',1) = 2 |
| SpectrumKernel.BlendedSpectrumAbccc | test_spectrum_kernel.py:39-40 | ('abccc','abc',2) and ('abc','abccc',2) both give 7 |
| SubsequenceKernels.AllSub | subsequence_kernels.py:12-29 | the recursion on prefixes s[:i], t[:j] is at least 1 |
| SubsequenceKernels.AllSubsequencesKernelBase | subsequence_kernels.py:21-22 | the kernel is never below 1 (the empty subsequence), and is 1 when either input is empty |
| SubsequenceKernels.AllSubPrefix | subsequence_kernels.py:24-29 | the prefix-indexed recursion equals the kernel applied to the sliced strings s[:i], t[:j] |
| SubsequenceKernels.AllSubsequencesKernelBar | test_subsequence_kernels.py:8 | kernel('bar', 'bar') = 8 |
| SubsequenceKernels.AllSubsequencesKernelBarCar | test_subsequence_kernels.py:9 | kernel('bar', 'car') = 4 |
| SubsequenceKernels.AllSubsequencesKernelGattaCata | test_subsequence_kernels.py:13 | kernel('gatta', 'cata') = 14 |
| SubsequenceKernels.AllNoncontiguousSubsequencesKernel | subsequence_kernels.py:32-57 | the table method, column 0 left at 0, returns the table recursion `NcDp` at (\|s\|, \|t\|) |
| SubsequenceKernels.NcDpMonotone | subsequence_kernels.py:48-56 | each row of the table is at least the row above it: dp[i-1][j] <= dp[i][j] |
| SubsequenceKernels.NcPreBelowMatches | subsequence_kernels.py:50-55 | the running `pre[j]` never exceeds the all-subsequences sum over matches of s_i in t[:j] |
| SubsequenceKernels.NcDpBelowAllSub | subsequence_kernels.py:43-57 | the table never exceeds the all-subsequences count |
| SubsequenceKernels.NcDpDiverges | subsequence_kernels.py:43-45 | as written, an empty t gives 0 instead of 1, and ('a', 'a') gives 1 instead of 2 |
| SubsequenceKernels.AllSubsequencesKernelDp | subsequence_kernels.py:43-57 | the same loops over a table whose column 0 counts the empty subsequence return all_subsequences_kernel(s, t) |
| SubsequenceKernels.FixedLengthNaiveBase | subsequence_kernels.py:65-69 | p = 0 gives 1; p > 0 with an empty input gives 0 |
| SubsequenceKernels.FixedTooLong | subsequence_kernels.py:60-76 | no common subsequence of s[:i] is longer than i: the count is 0 for p > i |
| SubsequenceKernels.FixedSumIsAllSub | subsequence_kernels.py:60-76 | summing the fixed-length counts over p = 0 .. P (P >= i) gives the all-subsequences count of the prefixes |
| SubsequenceKernels.FixedLengthNaiveSumsToAllSubsequences | subsequence_kernels.py:60-76 | the sum over p of fixed_length_subsequences_kernel_naive(s, t, p) is all_subsequences_kernel(s, t) |
| SubsequenceKernels.FixedLengthNaiveGattaCata | test_subsequence_kernels.py:52-55 | ('gatta', 'cata') gives 6, 5 and 2 for p = 1, 2, 3, and with p = 0 they add up to 14 |
| SubsequenceKernels.PrefixLength | subsequence_kernels.py:92 | the length of `s[:len(s)-p+l]`, counted from the end for a negative bound, never exceeds \|s\| |
| SubsequenceKernels.FixedLengthSubsequencesKernel | subsequence_kernels.py:79-102 | the table method, with rows bounded by `s[:len(s)-p+l]`, `dp_recursive` aliasing `dp` and `last` never advancing, returns the table recursion `FixedLengthDp` |
| SubsequenceKernels.FlDpPositive | subsequence_kernels.py:85-99 | every entry of that table is at least 1 |
| SubsequenceKernels.FixedLengthDpIgnoresP | subsequence_kernels.py:88-99 | every p >= 1 gives the same result |
| SubsequenceKernels.FixedLengthDpAtZero | subsequence_kernels.py:85-102 | for p = 0 the table returns 1, as the naive recursion does |
| SubsequenceKernels.FixedLengthDpDiverges | subsequence_kernels.py:89-98 | ('ga', 'ca', 1): the table gives 2, the naive recursion 1 |
| SubsequenceKernels.Tail | subsequence_kernels.py:114 | the last symbol as a string: length 1, or 0 for the empty prefix |
| SubsequenceKernels.GapWeightedSubsequencesKernelRecursive | subsequence_kernels.py:105-128 | the recursion runs forever (RecursionError) exactly when p < 1 and the last symbols agree; otherwise for p < 1 it is 0 |
| SubsequenceKernels.GapRecLengthOne | subsequence_kernels.py:118-119 | p = 1 gives lambda^2 when the last symbols (or empty tails) agree, else 0 |
| SubsequenceKernels.GapRecLastSymbolsDiffer | subsequence_kernels.py:121-128 | p > 1 with differing last symbols gives 0 |
| SubsequenceKernels.GapWeightedRecursiveZeroWeight | subsequence_kernels.py:119-127 | with lambda = 0 and p >= 1 the kernel is 0 |
| SubsequenceKernels.GapRecSymmetric | subsequence_kernels.py:123-127 | the prefix recursion is symmetric in the two strings |
| SubsequenceKernels.GapWeightedRecursiveSymmetric | subsequence_kernels.py:105-128 | the kernel, error included, is symmetric in the two strings |
| SubsequenceKernels.GapRecursiveReusesLastSymbol | subsequence_kernels.py:124-127 | as written, ('a', 'a', 2) gives lambda^4 although no common subsequence of length 2 exists; the suffix kernel gives 0 |
| SubsequenceKernels.GapWeightedSubsequencesKernel | subsequence_kernels.py:131-155 | the table method returns the gap-weighted kernel for p >= 2 and 0 for p < 2 |
| SubsequenceKernels.GapLevel | subsequence_kernels.py:145-154 | one level l >= 2 turns the `dps` table of level l-1 into that of level l, keeps row and column 0 of `dp` at 0 (its interior is scratch, rewritten before it is read), and returns kern[l] |
| SubsequenceKernels.GapRow | subsequence_kernels.py:147-154 | one row fills `dp[i][*]` and `dps[i][*]` with their level-l values, leaves every other row alone and adds the row's matching cells to kern[l] |
| SubsequenceKernels.GapDpClosedForm | subsequence_kernels.py:149-151 | `dp[i][j]` of level l is the lambda-weighted sum of the previous `dps` over the rectangle above and to the left |
| SubsequenceKernels.GapDpsIsSuffixKernel | subsequence_kernels.py:137-153 | on level p, `dps[i][j]` is the gap-weighted suffix kernel of s[:i] and t[:j] (common subsequences ending at both last symbols) |
| SubsequenceKernels.GapSuffixKernelTooLong | subsequence_kernels.py:137-153 | the suffix kernel is 0 when p exceeds either prefix length |
| SubsequenceKernels.GapKernIsKernel | subsequence_kernels.py:152-154 | kern[l] is the gap-weighted kernel of length l for every l >= 1 |
| SubsequenceKernels.GapWeightedLengthOne | subsequence_kernels.py:144-145 | the gap-weighted kernel of ('a', 'a', 1) is lambda^2, which the table method misses because its levels start at 2 |
| Graphs.IsProperIff | tree.py:12-17 | `is_proper` holds exactly when the edge set is not empty |
| Graphs.IsLeaf | tree.py:20-22 | `is_leave` holds exactly when no edge leaves the node |
| Graphs.AddNode | tree_kernel.py:22-23 | adds the node with an empty successor list at the end of the node order, leaving every other node and every edge as it was |
| Graphs.AddEdge | tree_kernel.py:24-27 | adds both ends as nodes and exactly the edge (u, v); v is appended to u's successors unless already there, and other successor lists stay the same |
| Graphs.AddNodesFrom | tree_kernel.py:22-23 | the node set grows by exactly the listed nodes; the edges stay the same |
| Graphs.AddEdgesFrom | tree_kernel.py:24-27 | the node set grows by exactly the endpoints, and the edge set by exactly the listed edges |
| Graphs.BuildGraph | tree_kernel.py:21-27 | a fresh graph with the nodes added and then the edges holds exactly those nodes and edges |
| Graphs.DfsEdges | tree.py:61 | every `dfs_edges` edge is an edge of the graph, never enters the root, and leaves the root or a node with a parent |
| Graphs.Reached | tree.py:61 | the reached nodes contain the root and the ends of every depth-first edge |
| Graphs.ReachedIsLeastClosed | tree.py:61 | the reached nodes are closed under successors, and are the least such set that contains the root |
| Graphs.DfsEdgesOfForest | tree.py:61-70 | on a forest searched from a node without parent, the depth-first edges are exactly the edges leaving the reached nodes, in both directions |
| Graphs.DfsTree | tree.py:116 | `dfs_tree` holds the root and exactly the depth-first edges, over nodes of the graph |
| Graphs.DfsTreeShrinks | tree.py:116-118 | a child is the parentless root of its own depth-first tree, which is strictly smaller, so the recursion ends |
| Graphs.Induced | tree.py:172 | `subgraph(s)` keeps the nodes in s, exactly the edges between them, and their attribute dictionaries |
| Graphs.WeaklyConnectedIff | tree.py:203 | `is_weakly_connected` answers true exactly when every edge-closed node set containing the first node is the whole node set |
| Graphs.PeelOrderSound | tree.py:58 | a successful peeling of sources is a topological order of the remaining nodes that starts with a source |
| Graphs.PeelOrderComplete | tree.py:58 | if any topological order exists, peeling sources succeeds |
| Graphs.AcyclicIff | dependency_graph.py:93-94 | `is_directed_acyclic_graph` holds exactly when a topological order exists |
| Graphs.RankDecreases | dependency_graph.py:106-111 | along every edge of an acyclic graph the rank in the topological order drops, so the recursion ends |
| Graphs.TopologicalFirst | tree.py:56-58 | `topological_sort(g)[0]`: IndexError exactly on the empty graph, Unfeasible exactly on a cyclic one, and otherwise a node without parent |
| Graphs.ResolveRoot | dependency_graph.py:133-135 | a given root must be a node (KeyError otherwise); no root means the first node of a topological order |
| Trees.StrLessTotal | tree.py:63 | Python's string order is total |
| Trees.SortStrings | tree.py:63 | `sorted` returns a sorted permutation of its input |
| Trees.SortedUnique | tree.py:63 | two sorted lists with the same elements are equal |
| Trees.SortSameMembers | tree.py:70 | the sorted successors depend only on the set of successors, not on their order |
| Trees.Label | tree.py:62 | the node ID when no attribute is given; else the attribute, and KeyError exactly when it is missing |
| Trees.Labels | tree.py:64-65 | maps `Label` over a list: succeeds exactly when every label exists, keeping length and order |
| Trees.RuleOf | tree.py:62-66 | the rule of a node is (its label, the labels of its sorted successors); KeyError exactly when a label is missing |
| Trees.RulesOf | tree.py:61-70 | the rule set of a list of edges holds exactly the rules of their sources, and fails exactly when one of those fails |
| Trees.RootOf | tree.py:56-58 | a falsy root (None or '') means the first node of a topological order; any other must be a node |
| Trees.GetProductionRules | tree.py:25-72 | the method returns the rule set of the depth-first edges from the resolved root, or the error |
| Trees.CollectRules | tree.py:61-70 | the loop adds the rule of each edge's source and fails on the first missing label |
| Trees.ProductionRulesEdgeless | tree.py:61-70 | a tree without edges has no rules |
| Trees.ProductionRulesOfInnerNodes | tree.py:60-70 | every rule comes from a reached node with successors; on a forest searched from a node without parent, every such node gives its rule |
| Trees.CountProperCorootedSubtrees | tree.py:122-147 | the method returns the co-rooted count: 0 without edges or at a leaf, else the product over the children of (child's count + 1) |
| Trees.MultiplyChildren | tree.py:142-147 | the loop multiplies, child by child in order, the depth-first subtree count plus one |
| Trees.ChildrenProduct | tree.py:142-147 | the product over the children is at least 1 |
| Trees.CorootedCountZero | tree.py:134-140 | the count is 0 exactly when the tree has no edge or the root is a leaf |
| Trees.LeafFactor | tree.py:146 | a leaf child contributes the factor 1 |
| Trees.ChainFactor | tree.py:146 | a child with one leaf child contributes the factor 2 |
| Trees.OneChildCount | tree.py:142-147 | with one child the count is that child's factor |
| Trees.TwoChildrenCount | tree.py:142-147 | with two children the count is the product of their factors |
| Trees.CorootedSubtrees | tree.py:102-119 | every subtree holds nodes of the tree and, for a root without parent, never the root; the first one is the depth-first tree of the first child |
| Trees.GetProperCorootedSubtrees | tree.py:102-119 | the method returns, child by child, the child's depth-first tree followed by that tree's own co-rooted subtrees |
| Trees.CorootedSubtreesEmpty | tree.py:105-111 | the list is empty exactly when the tree has no edge or the root is a leaf |
| TreeFragments.ContainsOnlyCompleteProductions | tree.py:75-97 | the tree's rule errors come first; otherwise true exactly when every rule of the fragment is a rule of the tree |
| TreeFragments.CompleteProductionsReflexive | tree.py:94-97 | a tree contains only complete productions of itself |
| TreeFragments.CompleteProductionsOfInnerNodes | tree.py:94-97 | for a forest fragment from a root without parent: true exactly when the rule of every reached inner node is a rule of the tree |
| TreeFragments.IsTreeFragment | tree.py:177-208 | a node-less fragment raises (connectivity is undecided); a fragment without edges is rejected; an accepted one is proper with complete productions |
| TreeFragments.TreeFragmentIff | tree.py:203-208 | accepted exactly when weakly connected, proper and made of complete productions; it raises exactly when the production test raises on a connected proper fragment |
| TreeFragments.Combinations | tree.py:171 | `itertools.combinations`: one empty choice for k = 0, none when k exceeds the list |
| TreeFragments.CombinationsSound | tree.py:171 | every combination has k elements drawn from the list |
| TreeFragments.CombinationsDistinct | tree.py:171 | combinations of a list without repeats have no repeats |
| TreeFragments.CombinationsComplete | tree.py:171 | every k-element subset of the list is the set of some combination |
| TreeFragments.CandidatesSound | tree.py:170-171 | the candidates of sizes n .. hi (n >= 1) are non-empty subsets of the nodes |
| TreeFragments.CandidatesComplete | tree.py:170-171 | every node subset of a size in n .. hi is a candidate |
| TreeFragments.GetSubtrees | tree.py:150-174 | the method returns the induced subgraphs of the candidates that pass `is_treefragment`, in order, or the first error |
| TreeFragments.KeepFragmentsOk | tree.py:172-174 | the filter succeeds exactly when the fragment test succeeds on every candidate |
| TreeFragments.KeepFragmentsYields | tree.py:172-174 | the filter's result holds exactly the earlier results and the accepted induced subgraphs |
| TreeFragments.KeepFragmentsRaises | tree.py:172-174 | a failing filter fails with the error of one of the candidates |
| TreeFragments.SubtreesExact | tree.py:150-174 | `get_subtrees` succeeds exactly when the test succeeds on every non-empty node set, and yields exactly the accepted induced subgraphs |
| TreeKernel.GenerateExampleTree | tree_kernel.py:19-28 | the example tree holds exactly its 12 nodes and 11 edges |
| TreeKernel.OneEdgeIntoEachNode | tree_kernel.py:24-27 | no node of the example has two parents |
| TreeKernel.EdgeFromExactlyInner | tree_kernel.py:22-27 | the nodes no edge leaves are exactly Jeff, ate, the and apple |
| TreeKernel.LeafIffNoEdgeFrom | tree_kernel.py:14-16 | in a graph with exactly the listed edges, a leaf is a node no listed edge leaves |
| TreeKernel.ExampleTreeParents | tree_kernel.py:19-28 | S has no parent, every other node has one, and the tree is a forest |
| TreeKernel.ExampleTreeSize | tree_kernel.py:19-28 | 12 nodes, 11 edges, and the tree is proper |
| TreeKernel.ExampleTreeLeaves | tree_kernel.py:14-16 | the leaves are exactly Jeff, ate, the and apple |
| TreeKernel.ExampleSuccessors | tree_kernel.py:24-27 | the successor lists of NP-2, D, N-2, the and apple |
| TreeKernel.ExampleCounts | tree_kernel.py:39-64 | the co-rooted count is 1 at D and 4 at NP-2 |
| DependencyGraphs.NodeLabel | dependency_graph.py:78-80 | `graph.node[n][attrib]`, KeyError exactly when it is missing |
| DependencyGraphs.EdgeLabel | dependency_graph.py:31 | `edge_attrs[attrib]`, KeyError exactly when it is missing |
| DependencyGraphs.DependencyChildren | dependency_graph.py:8-32 | exactly the (edge label, target) pairs of the out-edges; empty exactly when none leaves; KeyError exactly when a label is missing |
| DependencyGraphs.GetDependencyChildren | dependency_graph.py:29-32 | the loop over the out-edges builds that set |
| DependencyGraphs.GroupByRelation | dependency_graph.py:68-72 | each relation maps to a non-empty list, and a target lies in a relation's list exactly when the pair is a child |
| DependencyGraphs.MatchRelation | dependency_graph.py:77-82 | the nested loop over one relation's targets computes the matching pairs, failing on the first missing node label |
| DependencyGraphs.Matches | dependency_graph.py:74-82 | (a, b) is a match exactly when some relation reaches a and b and their node labels agree; KeyError exactly when a label is missing |
| DependencyGraphs.CommonTargets | dependency_graph.py:35-83 | every common target pair is a pair of out-neighbours of n1 and n2; errors are KeyError |
| DependencyGraphs.CommonTargetsMembers | dependency_graph.py:66-83 | (a, b) is a common target exactly when n1 to a and n2 to b carry the same relation and a, b have equal node labels |
| DependencyGraphs.CommonTargetsSwap | dependency_graph.py:35-83 | swapping the graphs swaps every pair and keeps success and failure |
| DependencyGraphs.CommonDependencyTargets | dependency_graph.py:35-83 | the method computes `CommonTargets`, error included |
| DependencyGraphs.CountCommon | dependency_graph.py:86-112 | AssertionError exactly when a graph has a cycle; otherwise KeyError or a count >= 0 |
| DependencyGraphs.CountBelow | dependency_graph.py:99-112 | the branch after the label test gives KeyError or a count >= 0 |
| DependencyGraphs.ProductOver | dependency_graph.py:105-111 | the product of (C + 2) over a set of targets is at least 1, and at least 2 when the set is not empty |
| DependencyGraphs.ProductPick | dependency_graph.py:106-111 | the product does not depend on the order in which the set is visited |
| DependencyGraphs.CountCommonSubgraphs | dependency_graph.py:86-112 | the method computes `CountCommon`, error included |
| DependencyGraphs.CountBelowNodes | dependency_graph.py:99-112 | the method computes `CountBelow` |
| DependencyGraphs.MultiplyCounts | dependency_graph.py:105-111 | the loop over the targets computes `ProductOver` |
| DependencyGraphs.CountZeroIff | dependency_graph.py:96-112 | differing root labels give 0, a node without children gives 0, and otherwise the count is 0 exactly when there is no common target |
| DependencyGraphs.CountOneTarget | dependency_graph.py:105-112 | with one common target (a, b) the count is C(a, b) + 1, computed with the 'label' attributes |
| DependencyGraphs.CountCommonSymmetric | dependency_graph.py:86-112 | swapping the two graphs and nodes gives the same result, error included |
| DependencyGraphs.RuleOfEdge | dependency_graph.py:138-140 | (source label, edge label, target label), each read from 'label'; KeyError exactly when one is missing |
| DependencyGraphs.RulesOfEdges | dependency_graph.py:137-140 | the rules of a list of edges, failing exactly when one edge's rule fails |
| DependencyGraphs.DependencyRoot | dependency_graph.py:133-135 | a falsy root (None or 0) means the first node of a topological order |
| DependencyGraphs.DependencyRules | dependency_graph.py:115-141 | on success, exactly the rules of the depth-first edges from the resolved root; errors are KeyError, IndexError or Unfeasible |
| DependencyGraphs.GetDependencyRules | dependency_graph.py:115-141 | the method computes `DependencyRules` |
| DependencyGraphs.CollectRules | dependency_graph.py:137-141 | the loop adds each edge's rule and fails on the first missing label |
| DependencyGraphs.DependencyRulesOfLeafRoot | dependency_graph.py:137-141 | a root without out-edges has no rules |
| DependencyGraphs.DependencyRulesOfForest | dependency_graph.py:137-141 | on a forest searched from a node without parent, every edge leaving a reached node contributes its rule |
| DependencyGraphs.IncludesAllSubgraphRules | dependency_graph.py:144-157 | the graph's errors come first; otherwise true exactly when the subgraph's rules are a subset of the graph's rules |
| DependencyGraphs.IncludesOwnRules | dependency_graph.py:144-157 | a graph includes its own rules |
| DependencyGraphs.IncludesTransitive | dependency_graph.py:144-157 | rule inclusion is transitive |
| SubgraphEnumeration.AnyIn | subgraph_enumeration.py:30-31 | `any(x in s for x in xs)` holds exactly when some element of xs lies in s |
| SubgraphEnumeration.Choose | subgraph_enumeration.py:87 | an arbitrary element of a non-empty set |
| SubgraphEnumeration.OpenNeighborhoodSet | subgraph_enumeration.py:18-33 | the open neighbourhood is disjoint from the subset and holds exactly the other nodes with a neighbour in it |
| SubgraphEnumeration.OpenNeighborhood | subgraph_enumeration.py:26-33 | the loop computes that set |
| SubgraphEnumeration.ExclusiveNeighborhoodOf | subgraph_enumeration.py:36-52 | AssertionError exactly when the node is in the subset, NetworkXError exactly when it is not a node; otherwise its neighbours outside the subset and its open neighbourhood, none with an edge into the subset |
| SubgraphEnumeration.ExclusiveNeighborhood | subgraph_enumeration.py:45-52 | the loop computes that result |
| SubgraphEnumeration.SelfLoopIsOwnExclusiveNeighbor | subgraph_enumeration.py:45-52 | a node with a self-loop and no edge into the subset is its own exclusive neighbour |
| SubgraphEnumeration.Flatten | subgraph_enumeration.py:97-100 | a single subgraph is appended, a list is extended |
| SubgraphEnumeration.ExtendSubgraph | subgraph_enumeration.py:76-101 | a subset of k nodes gives its induced subgraph; with an empty extension set and fewer or more nodes, the empty list; otherwise a list of induced k-node subgraphs containing the subset, grown only by extension nodes or nodes above the start node; errors only from the assertion, none without self-loops |
| SubgraphEnumeration.ExtendBy | subgraph_enumeration.py:85-100 | the worklist loop keeps the same guarantees over the nodes still to take |
| SubgraphEnumeration.GrownBase | subgraph_enumeration.py:81-82 | the subgraph induced by the subset is one the extension can yield |
| SubgraphEnumeration.GrownStep | subgraph_enumeration.py:89-95 | what the recursive call yields from the subset plus w is a result of the current call |
| SubgraphEnumeration.ExtensionShrinks | subgraph_enumeration.py:94-95 | adding a new node leaves fewer nodes outside the subset, so the recursion ends |
| SubgraphEnumeration.ExtensionStaysOutside | subgraph_enumeration.py:89-94 | without self-loops the new extension set stays within the graph and outside the new subset |
| SubgraphEnumeration.ExtractFromNode | subgraph_enumeration.py:104-107 | every subgraph grown from a node has k nodes and that node as its minimum; for k != 1 on a graph whose edges all lead to smaller or equal nodes, none is grown |
| SubgraphEnumeration.StartExtension | subgraph_enumeration.py:66-67 | the first extension set is the node's neighbours above it, outside the subset |
| SubgraphEnumeration.StartedFromGrown | subgraph_enumeration.py:66-68 | a subgraph grown from a node by larger nodes has that node as its minimum |
| SubgraphEnumeration.EnumerateSizeK | subgraph_enumeration.py:55-73 | [] unless 1 <= k <= \|V\|; otherwise induced k-node subgraphs, grouped by start node in node order, each start node its subgraph's minimum; for k != 1 on a graph whose edges all lead to smaller or equal nodes, [] |
| SubgraphEnumeration.DirectedGraphsAreMissed | subgraph_enumeration.py:61-67 | the graph with the one edge 2 -> 1 is weakly connected with two nodes, yet all its edges lead downwards, so ESU with k = 2 finds no subgraph |
| SubgraphEnumeration.AppendStarted | subgraph_enumeration.py:69-72 | appending the next node's subgraphs keeps the grouping by start node |
| SubgraphEnumeration.EnumerateUpToK | subgraph_enumeration.py:128-150 | k is cut down to \|V\|; the result lists induced subgraphs of sizes 1 .. k in non-decreasing size |
| SubgraphEnumeration.AppendSized | subgraph_enumeration.py:147-149 | appending the subgraphs of the next size keeps the sizes in order |
| Util.Memo.constructor | util.py:29-30 | a new memo dictionary holds f and is empty |
| Util.Memo.Call | util.py:31-32 | returns f(args); a stored key leaves the dictionary as it was, a new one is added; keyword arguments are ignored |
| Util.Memo.Missing | util.py:33-35 | computes f(key), stores it under key and returns it |
| Util.Labelled | util.py:47 | the dictionary {'label': name} |
| Util.LabelNodes | util.py:39-48 | same length and order; each label becomes {'label': label} |
| Util.LabelEdges | util.py:51-60 | same length and order; each edge label becomes {'label': label} |

## Left out

- networkx itself is not part of this model. Its functions are redefined over `Graphs.Digraph` from their documented behaviour.
- Depth-first order: `Graphs.DfsEdges` visits successors in list order. Its properties are stated as sets of reached nodes and edges, not as the order in which networkx yields them.
- `Graphs.DfsEdges`: for graphs where a node has two parents, only that every depth-first edge is an edge of the graph leaving a reached node is stated. On a forest searched from a node without parent, the depth-first edges are proved to be exactly the edges leaving the reached nodes (`Graphs.DfsEdgesOfForest`).
- `topological_sort(g)[0]` is modelled as some node without parent (`Graphs.TopologicalFirst`). Which one networkx picks is not modelled.
- numpy float arrays and floating point: lambda and the gap-weighted tables are exact `real`, and the counting tables are `nat`.
- The `repoze.lru` cache on the recursive string kernels does not change their values, so it is left out.
- Generators: `get_subtrees` yields lazily; the model returns the whole list.
- Python's recursion limit: only unbounded recursion (`p < 1` in the gap-weighted recursion) becomes RecursionError. Deep but finite recursion is modelled as completing.
- The parallel variants `enumerate_all_size_k_subgraphs_parellel` and `enumerate_all_subgraphs_upto_size_k_parallel` are concurrency only, and are left out.
- `random.choice` is an arbitrary choice (`SubgraphEnumeration.Choose`).
- `SubgraphEnumeration.ExtendSubgraph` removes from a local copy of the extension set. The caller's set is emptied in place, which is not modelled.
- `SubgraphEnumeration.ExtendSubgraph`, `SubgraphEnumeration.ExtendBy`, `SubgraphEnumeration.ExtractFromNode` and `SubgraphEnumeration.EnumerateSizeK` state soundness only: every yielded graph is an induced k-node subgraph, with its start node as minimum. Completeness is not stated, and on directed graphs it does not hold, because the neighbours of a DiGraph node are its successors (the source warns of this at subgraph_enumeration.py:24 and 43). For the one edge 2 -> 1 and k = 2, node 1 has no successor and node 2's only successor is not above 2, so the result is [] although {1, 2} is weakly connected (`SubgraphEnumeration.DirectedGraphsAreMissed`). That each connected k-node subgraph of an undirected-style graph, with edges both ways, is yielded exactly once is not proved either.
- `SubgraphEnumeration.EnumerateSizeK`: the `isinstance(node, int)` assertion always holds, because graphs there have `int` node IDs.
- `SubgraphEnumeration.EnumerateUpToK` enumerates the given integer-labelled graph directly. `convert_node_labels_to_integers`, the relabelling to 1..\|V\| with the old IDs kept as an attribute, is not modelled.
- `SubgraphEnumeration.EnumerateUpToK` states the size bound, the size order and that each result is induced. That the results for each size are exactly `EnumerateSizeK`'s is not stated.
- `DependencyGraphs.DependencyRules`: `get_dependency_rules` accepts `node_attrib` and `edge_attrib` but reads 'label' regardless, so the model has no such parameters.
- `Trees.CorootedCount`, `Trees.CountProperCorootedSubtrees`, `Trees.CorootedSubtrees` and `Trees.GetProperCorootedSubtrees` require the root to be a node of the tree. For any other root the source returns 0 or [] when the tree has no edge, and otherwise hands it to networkx `out_degree` and `successors`, which raise NetworkXError or, for `out_degree`, return a dictionary; every caller passes a node.
- `Graphs.IsLeaf` requires the node to be in the graph, where networkx `out_degree` of an absent node raises NetworkXError or returns a dictionary instead of a degree, neither of which is modelled; every caller passes a node.
- `DependencyGraphs.DependencyChildren` and `DependencyGraphs.GetDependencyChildren` require the node to be in the graph; for an absent node networkx `out_edges` raises NetworkXError, which is not modelled.
- `DependencyGraphs.CommonTargets` and `DependencyGraphs.CommonDependencyTargets` require both nodes to be in their graphs; for an absent node networkx raises NetworkXError, which is not modelled. `DependencyGraphs.CountCommon` takes any nodes and reports the KeyError of `graph.node[n]`.
- `SpectrumKernel.KSuffixKernel`, `SpectrumKernel.PSpectrumKernel`, `SpectrumKernel.BruteforceBlendedSpectrumKernel` and `SubsequenceKernels.FixedLengthSubsequencesKernel` take the length as a `nat`. Python would accept a negative length and slice from the other end; no caller passes one.
- Attribute dictionaries hold strings only, and node IDs of dependency graphs are `int`.
- `Trees.CorootedSubtrees` states the nodes, the absent root and the first element. That the list holds one depth-first tree per node strictly below the root, in preorder, is not proved.
- The valid and invalid fragments of test_tree.py are not checked one by one against `TreeFragments.IsTreeFragment`. The count of four fragments rooted at NP-2 is proved (`TreeKernel.ExampleCounts`).
- `PSpectrumWorkedValues`: the test value ('statistics', 'computation', 3) = 2 is not proved.
- The `NotImplementedError` stubs of tree_kernel.py (`get_production_rules`, `contains_only_complete_productions`, `get_syntax_subtrees`, `count_syntax_subtrees`) are left out.
- `draw_multiple_graphs` and `print_source` of util.py are display helpers for IPython, and are left out.
- `fixed_length_subsequences_kernel` with `debug=True` also returns the table. Only the count is modelled.
- The kernels that appear only in the test files are not part of this model. These are `p_suffix_kernel`, `blended_spectrum_kernel`, the `*_dp1` and `*_recursive` kernels and `is_subtree`.

## Findings

| source | as written | input that shows it | evidently intended | confidence | as-written member | corrected member |
|---|---|---|---|---|---|---|
| spectrum_kernel.py:73 | the inner loop runs j over `len(s)-p+1` | p = 1, s = "a", t = "ba" gives 0; the documented sum gives 1 (and t shorter than s raises AssertionError) | j ranges over `len(t)-p+1`, as in the docstring's sum | not executed | SpectrumKernel.PSpectrumIgnoresTailOfT | SpectrumKernel.SpectrumKernel |
| subsequence_kernels.py:43-45 | only row 0 of the table is set to 1; column 0 stays 0 | s = "a", t = "a" gives 1 instead of 2, and any s with t = "" gives 0 instead of 1 | dp[i][0] = 1 as well, so the table gives the all-subsequences count | not executed | SubsequenceKernels.NcDpDiverges | SubsequenceKernels.AllSubsequencesKernelDp |
| subsequence_kernels.py:124-127 | the loops run over the whole of s and t, not over `s_head` and `t_head` | s = "a", t = "a", p = 2 gives lambda^4, though no common subsequence of length 2 exists | the loops run over the heads, so the last symbol is used once | not executed | SubsequenceKernels.GapRecursiveReusesLastSymbol | SubsequenceKernels.GapDpsIsSuffixKernel |
| subsequence_kernels.py:145 | the levels start at l = 2, and `kern[1]` is never set | s = "a", t = "a", p = 1 gives 0 instead of lambda^2 | p = 1 returns the level-1 sum of the `dps` table | not executed | SubsequenceKernels.GapWeightedSubsequencesKernel | SubsequenceKernels.GapKernIsKernel |
