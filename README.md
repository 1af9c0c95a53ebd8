# kmotif and kstar, modelled in Dafny

The two tools in `kmotif/` read an undirected graph as a list of edges. They
relabel its nodes by non-increasing degree and build a compact adjacency
structure: offsets `cd` into one flat neighbour array `adj`. Then they
compute over that structure:

- `kmotif` counts sets of k nodes by backtracking. Every node u in turn is
  the root, and nodes 0..u are marked. Level l holds a range of a shared
  candidate list. Choosing a candidate appends its unmarked neighbours to
  that list and marks them. One level further down, the search counts on
  with the rest of the range plus those new nodes. On the way back the new
  nodes are unmarked. At level k-1 the size of the range is added to the
  count.
- `kstar` computes two sums of binomial coefficients. The upper bound adds
  C(d(u), k-1) over the nodes whose segment length d(u) is at least k-1.
  The lower bound adds C(f(u), k-1), where f(u) counts the entries of u's
  segment that are larger than u.

The model follows the C code's own structure:

| file | module | what it models |
|---|---|---|
| `Graph.dfy` | `Graph` | edges, degrees and neighbour lists of an edge list, the compact graph as a value (`Csr`), and counting facts |
| `Sorting.dfy` | `Sorting` | the two `qsort` calls, as one in-place sort of an array segment by an integer key |
| `Sparse.dfy` | `SparseGraph` | struct `sparse` as class `Sparse`, with `degord` (`DegOrd`) and `mksparse` (`MkSparse`) as methods over arrays |
| `MotifSpec.dfy` | `MotifSpec` | what `kmotif_rec` adds, as functions of the graph, the pool and the marked set, and the proof that this is the number of connected k-node sets |
| `KMotif.dfy` | `KMotif` | struct `special` as class `Special` (`allocspecial` is its constructor), plus `kmotif_rec` (`Rec`, `Choose`) and `kmotif` (`KMotif`) as methods over its arrays |
| `KStar.dfy` | `KStar` | `choose` as a recursive function proved equal to the binomial coefficient, the k-stars the two sums bound, and `kstar` as methods with its three loops over `tab` and the counter `d` |
| `Driver.dfy` | `Driver` | the two `main` functions without reading and printing: `degord`, `mksparse`, then `kmotif` or `kstar` |

`degord` and `mksparse` appear in both C files. The two `degord`s are
identical. The two `mksparse`s differ only in where the degree counts
live: `kmotif.c` keeps them in a local array it frees, while
`kstarLBUB.c` keeps them in `g->d`. `Sparse.MkSparse` keeps them in the
field `d`, as `kstarLBUB.c` does. `SparseGraph.Build` is the same sequence
of steps on local arrays.

What the model proves:

- After `degord`, `newlabel` is a permutation and `map` (`origLabel`) is
  its inverse. The edges are relabelled, and degrees do not increase along
  the new labels.
- After `mksparse`:
  - `d` holds the degrees and `cd` their prefix sums, with `cd[n] == 2e`;
  - `md` is the largest degree;
  - segment u of `adj` holds, in ascending order, exactly the neighbours u
    has in the edge list;
  - the compact graph is symmetric.
- `kmotif` returns `Total(g, k, n)`. On a symmetric graph this is the
  number of sets of k nodes that are connected, meaning that no split of
  the set into two non-empty parts is edge-free. The candidate list never
  overflows its n slots. Every mark `kmotif_rec` sets is cleared again; the
  marks of the roots tried so far stay set.
- `choose(n, k)` is C(n, k) for every n and k, because its division is
  exact.
- `kstar` returns the two sums described above, and `lb <= ub`.
  - A k-star, in the words of the header of `kstarLBUB.c`, is a set of k
    nodes made of a node and k-1 of its neighbours. `ub` is at least the
    number of k-stars on every graph.
  - `lb` is at most that number when no edge between two different nodes
    is listed twice; self-loops may be present and may repeat, since a loop
    at u only adds the entry u, which is never larger than u. With such an
    edge listed twice `lb` can exceed the number of k-stars (see
    "## Findings").
  - Dropping out of the decrement loop early does not change the result.
  - `d` never goes below zero.
  - `tab` is all false after each node.
  - With no repeated neighbours, C(d(u), k-1) counts the (k-1)-sets of u's
    neighbours, and C(f(u), k-1) counts those whose members are all larger
    than u.

The header of `kmotif.c` (lines 4-5) calls the result the k-motifs and
cites the k-clique listing algorithm of Chiba and Nishizeki as its
inspiration. What the code counts is connected node sets: at level l the
pool holds every unmarked neighbour of every chosen node, not only the
common neighbours. For the star 0–1, 0–2, 0–3, 0–4 and k = 3 it counts the six sets {0, a, b},
none of which is a clique. The model follows the code:
`MotifSpec.TotalIsConnectedSets` proves the count is the number of
connected k-sets.

The graph that `kmotif` and `kstar` read is passed in different forms.
`KMotif.KMotif` takes the compact graph as a `Csr` value, since `kmotif`
only reads `g->cd` and `g->adj`. `KStar.KStar` reads the arrays of a
`Sparse` object, because it also needs `g->d`. `Driver.Motifs` and
`Driver.Stars` put the steps together as the two `main` functions do. All
counters are unbounded naturals.

## Model

| member | source | states |
|---|---|---|
| Graph.DegSumIsTwiceEdges | kmotif/kstarLBUB.c:139-153 | over nodes below n, where every endpoint lies, the degrees add up to twice the number of edges, so the 2e slots of `adj` are exactly what the segments need |
| Graph.DegRelabel | kmotif/kstarLBUB.c:118-121 | after relabelling every endpoint by an injective labelling, the degree of the new label of x is the old degree of x |
| Graph.NbrsSymmetric | kmotif/kstarLBUB.c:155-158 | b is among a's neighbours in the edge list exactly when a is among b's, since every edge is written from both ends |
| Graph.NbrsLength | kmotif/kstarLBUB.c:139-158 | the neighbour list of x has as many entries as x's degree, which is the length of its segment |
| Graph.NbrsWithin | kmotif/kstarLBUB.c:155-158 | every neighbour written for x is a node below n |
| Graph.RoomForOneMore | kmotif/kmotif.c:230-235 | a duplicate-free list of nodes below n that lacks v has fewer than n entries, so the append into the n-slot candidate list stays in bounds |
| Graph.NbrsFrom | kmotif/kstarLBUB.c:155-158 | v is a neighbour of x only if some edge of the list joins x and v |
| Graph.NoRepeatedEdgeNbrs | kmotif/kstarLBUB.c:155-158 | when no edge between two different nodes is listed twice, no node gets the same larger neighbour twice; a self-loop only adds the node itself |
| Graph.RelabelNoRepeatedEdge | kmotif/kstarLBUB.c:118-121 | relabelling through a permutation keeps an edge list free of repeated edges |
| Graph.SameMultisetAbove | kmotif/kstarLBUB.c:160-161 | a rearrangement of a segment, such as its sorted form, keeps its larger entries free of repeats |
| Graph.SameMultisetDistinct | kmotif/kstarLBUB.c:109 | a rearrangement of a duplicate-free sequence, such as the node list after qsort, is duplicate free |
| Sorting.SortSegment | kmotif/kstarLBUB.c:160-161 | the segment ends up sorted by the key and is a permutation of what it was; the rest of the array is unchanged |
| SparseGraph.CountDegrees | kmotif/kstarLBUB.c:137-142 | the counting loop leaves `d[x]` equal to the degree of x in the edge list |
| SparseGraph.SortByDegree | kmotif/kstarLBUB.c:100-109 | the sorted list pairs every node, exactly once, with its own degree, in non-increasing order of degree |
| SparseGraph.Labels | kmotif/kstarLBUB.c:110-115 | `newlabel` is a permutation of 0..n-1, `map` is its inverse, and `map[i]` is the node at position i |
| SparseGraph.RelabelEdges | kmotif/kstarLBUB.c:118-121 | every endpoint of every edge is replaced, in place, by its new label |
| SparseGraph.PrefixSums | kmotif/kstarLBUB.c:144-151 | `cd[0] = 0` and `cd[x+1] = cd[x] + d[x]`; md is at least every degree and equals one of them (0 with no nodes); every `d[x]` is reset to 0 |
| SparseGraph.PrefixOfDegrees | kmotif/kstarLBUB.c:144-151 | offsets built from the degrees end at the degree sum and never decrease |
| SparseGraph.Place | kmotif/kstarLBUB.c:156-157 | one write `adj[cd[x] + d[x]++] = v`: v lands at the cursor of x, the cursor goes up by one, and nothing else changes |
| SparseGraph.ScatterEdge | kmotif/kstarLBUB.c:155-158 | one iteration of the scatter loop writes edge i from both ends and keeps the scatter invariant: every segment holds the neighbours from edges 0..i, and its cursor is their number |
| SparseGraph.Scatter | kmotif/kstarLBUB.c:153-158 | segment x of `adj` holds the neighbours of x in edge order, every entry is a node, and the cursors `d[x]` are back at the degrees |
| SparseGraph.SortSegments | kmotif/kstarLBUB.c:160-171 | every segment is sorted ascending and keeps its entries |
| SparseGraph.CompactSymmetric | kmotif/kstarLBUB.c:153-171 | segments holding each node's neighbours give a well-formed, symmetric compact graph |
| SparseGraph.Build | kmotif/kmotif.c:158-197 | the steps of `mksparse` on local arrays: degrees, offsets with `cd[n] = 2e`, the maximum degree, and sorted segments holding each node's neighbours |
| SparseGraph.Sparse.constructor | kmotif/kstarLBUB.c:37-49 | the structure as it stands before `degord`: n nodes and the edge list, every endpoint below n |
| SparseGraph.Sparse.DegOrd | kmotif/kstarLBUB.c:97-123 | `newlabel` is a permutation and `map` its inverse; edges are relabelled; node i has the degree `map[i]` had; degrees do not increase along the new labels |
| SparseGraph.Sparse.MkSparse | kmotif/kstarLBUB.c:134-174 | `d` holds the degrees and `cd` their prefix sums, with `cd[n] = 2e`; `md` is the maximum degree; each segment is ascending with exactly the node's neighbours; the compact graph is well formed and symmetric |
| MotifSpec.Scan | kmotif/kmotif.c:230-236 | the nodes one neighbour scan appends are unmarked entries of the segment, none twice, and every entry ends up marked or appended |
| MotifSpec.ConnectedAdd | kmotif/kmotif.c:230-238 | adding a neighbour of a connected set keeps it connected |
| MotifSpec.FrontierStep | kmotif/kmotif.c:226-238 | choosing pool[i] gives the level below a search state of the same kind: the chosen set is connected and marked, the new pool (the rest of the pool, then the new neighbours) has no duplicates and lies next to the chosen set, and every neighbour of the chosen set is marked |
| MotifSpec.FamilySplit | kmotif/kmotif.c:225-243 | the sets reachable from S split into those containing u, which are counted one level down, and those avoiding it |
| MotifSpec.FamilyLast | kmotif/kmotif.c:204-206 | at level k-1 the one-node extensions of the chosen set are exactly the pool nodes, so adding the range size counts them |
| MotifSpec.FamilyEmpty | kmotif/kmotif.c:225-243 | once every neighbour of the chosen set is excluded, nothing can be added |
| MotifSpec.CountIsFamily | kmotif/kmotif.c:201-245 | at level l, what `kmotif_rec` adds is the number of sets of k-l nodes, outside the excluded nodes (the marked ones not in the pool), whose union with the chosen nodes is connected |
| MotifSpec.CountFromIsFamily | kmotif/kmotif.c:225-243 | the loop iterations from position i on add the number of such sets that avoid pool[..i] |
| MotifSpec.ChooseSplit | kmotif/kmotif.c:225-243 | one iteration of the loop splits the remaining sets into those through pool[i] and those avoiding it |
| MotifSpec.RootSearch | kmotif/kmotif.c:253-267 | the search under root u counts the sets of k-1 nodes above u that are connected together with u |
| MotifSpec.RootedIsAdded | kmotif/kmotif.c:253-267 | the connected k-sets whose smallest node is u are exactly those sets with u added |
| MotifSpec.RootIsRooted | kmotif/kmotif.c:253-272 | root u adds the number of connected k-sets whose smallest node is u |
| MotifSpec.TotalIsReaching | kmotif/kmotif.c:253-273 | roots 0..m-1 together add the number of connected k-sets having a node below m |
| MotifSpec.TotalIsConnectedSets | kmotif/kmotif.c:248-277 | on a symmetric graph, the total over all roots is the number of connected sets of k nodes |
| KMotif.ScanSkip | kmotif/kmotif.c:231-232 | a marked neighbour leaves the list and the marks as they were, and the scan state moves one entry on |
| KMotif.ScanAdd | kmotif/kmotif.c:231-235 | an unmarked neighbour fits in the list, and appending and marking it moves the scan state one entry on |
| KMotif.MarksUnique | kmotif/kmotif.c:240-242 | two mark arrays of one length that mark the same set are equal; this is how the marks are shown to be restored |
| KMotif.Special.constructor | kmotif/kmotif.c:63-72 | `p`, `q` and `motif` have k slots, `list` and `r` have n, and nothing is marked |
| KMotif.Special.ScanNeighbours | kmotif/kmotif.c:230-236 | the used part of the list grows by exactly `Scan(Seg(g, u), M)`, those nodes become marked, the list stays duplicate-free and marked, and no other level's `q` changes |
| KMotif.Special.ScanEntry | kmotif/kmotif.c:231-235 | one adjacency entry moves the scan state one entry on |
| KMotif.Special.Append | kmotif/kmotif.c:233-234 | the list gains v at `q[l]`, `q[l]` goes up by one and `r[v]` is set |
| KMotif.Special.Unmark | kmotif/kmotif.c:240-242 | clearing the marks of list[lo..hi) leaves exactly the earlier marked set |
| KMotif.Special.UnmarkFresh | kmotif/kmotif.c:240-242 | the nodes one choice appended are unmarked again |
| KMotif.Special.Rec | kmotif/kmotif.c:201-245 | `kmotif_rec` adds `Count` for its level, pool and marks, and it leaves the marks, the used part of the list and the levels above as it found them |
| KMotif.Special.Choose | kmotif/kmotif.c:225-243 | one loop iteration adds the count one level down for the next pool, and it restores the marks and the list below `q[l-1]` |
| KMotif.Root | kmotif/kmotif.c:253-272 | root u adds `RootCount`, and afterwards exactly nodes 0..u are marked |
| KMotif.KMotif | kmotif/kmotif.c:248-277 | the result is `Total(g, k, n)`, which on a symmetric graph is the number of connected sets of k nodes |
| KStar.Absorption | kmotif/kstarLBUB.c:179 | k·C(n, k) = n·C(n-1, k-1), so the division in `choose` leaves no remainder |
| KStar.ChooseStep | kmotif/kstarLBUB.c:179 | n·C(n-1, k-1)/k is C(n, k) for every n and k >= 1; for k > n the product is 0 |
| KStar.Choose | kmotif/kstarLBUB.c:176-180 | `choose(n, k)` is the binomial coefficient C(n, k) given by Pascal's rule, for every n and k; for k > n the factor n reaches 0 and the result is 0 |
| KStar.SubsetsCard | kmotif/kstarLBUB.c:176-180 | C(n, j), with n the size of X, is the number of j-element subsets of X, the number of ways to pick the leaves of a star |
| KStar.BinomMonotone | kmotif/kstarLBUB.c:193-215 | C(m, j) <= C(n, j) when m <= n |
| KStar.AboveAtMost | kmotif/kstarLBUB.c:203-211 | the entries after position t can raise the count of larger entries by at most one each, which is why stopping early is safe |
| KStar.AboveCard | kmotif/kstarLBUB.c:203-211 | when no entry larger than u repeats, f(u) is the number of distinct neighbours larger than u |
| KStar.LowerBelowUpper | kmotif/kstarLBUB.c:193-215 | the lower bound never exceeds the upper bound |
| KStar.StarsAt | kmotif/kstarLBUB.c:193-215 | with no repeated neighbours, C(d(u), j) counts the j-sets of u's neighbours, and C(f(u), j) counts those whose members are all larger than u |
| KStar.StarsCentred | kmotif/kstarLBUB.c:4 | every k-star with centre c is c added to a set of k-1 neighbours of c |
| KStar.StarLeaves | kmotif/kstarLBUB.c:4 | a k-node star W centred at c is c added to the k-1 neighbours W - {c} |
| KStar.CentredCard | kmotif/kstarLBUB.c:193-196 | centre c has at most C(d(c), k-1) such neighbour sets, and none when d(c) < k-1 |
| KStar.UpperStep | kmotif/kstarLBUB.c:193-196 | taking centre c in adds at most the term `ub` gets for c |
| KStar.UpperCounts | kmotif/kstarLBUB.c:191-196 | the upper sum over the nodes below m is at least the number of k-stars with a centre below m |
| KStar.StarsRising | kmotif/kstarLBUB.c:203-215 | c with k-1 of its larger neighbours is a k-star centred at c and at no node below c |
| KStar.RisingStar | kmotif/kstarLBUB.c:203-215 | one such set is a star centred at c and not at any node below c |
| KStar.RisingCard | kmotif/kstarLBUB.c:203-215 | there are C(f'(c), k-1) such sets, with f'(c) the number of distinct neighbours larger than c |
| KStar.RisingPack | kmotif/kstarLBUB.c:203-215 | taking centre c in adds at least that many k-stars |
| KStar.DistinctLowerCounts | kmotif/kstarLBUB.c:191-215 | the lower sum with f'(u) in place of f(u), over the nodes below m, is at most the number of k-stars with a centre below m |
| KStar.LowerIsDistinct | kmotif/kstarLBUB.c:203-215 | when no segment repeats an entry larger than its node, f(u) = f'(u), so the two lower sums agree |
| KStar.DistinctLowerBelowStars | kmotif/kstarLBUB.c:203-215 | counting each larger neighbour once, the lower sum is at most the number of k-stars on every graph |
| KStar.StarBounds | kmotif/kstarLBUB.c:4-16 | the number of k-stars is at most the upper sum on every graph; when no segment repeats an entry larger than its node, it is at least the lower sum, which then equals the distinct lower sum |
| KStar.DoubledSegments | kmotif/kstarLBUB.c:153-158 | the graph built from the edge list (0, 1), (1, 0) has segments [1, 1] and [0, 0], the neighbour lists of that edge list |
| KStar.DoubledStars | kmotif/kstarLBUB.c:4 | that graph has exactly one 2-star, {0, 1} |
| KStar.LowerOvershoots | kmotif/kstarLBUB.c:203-215 | on that graph with k = 2, lb is 2 while there is one 2-star; counting distinct larger neighbours gives 1 |
| KStar.Mark | kmotif/kstarLBUB.c:199-201 | afterwards `tab[x]` is set exactly for the entries x of u's segment |
| KStar.Excess | kmotif/kstarLBUB.c:203-211 | after the decrement loop, with or without the early exit, d >= k-1 exactly when f(u) >= k-1, and then d = f(u); d never goes below zero |
| KStar.Clear | kmotif/kstarLBUB.c:217-219 | clearing the entries of u's segment leaves `tab` all false |
| KStar.Star | kmotif/kstarLBUB.c:193-220 | node u adds C(d(u), k-1) to ub when d(u) >= k-1 and C(f(u), k-1) to lb when f(u) >= k-1, and it leaves `tab` all false |
| KStar.KStar | kmotif/kstarLBUB.c:184-226 | ub is at least the number of k-stars; when no segment repeats an entry larger than its node, lb is at most that number and equals the distinct lower sum; ub is the sum of C(d(u), k-1) over nodes with d(u) >= k-1, lb the sum of C(f(u), k-1) over nodes with f(u) >= k-1, and lb <= ub |
| Driver.Prepare | kmotif/kstarLBUB.c:249-253 | after `degord` and `mksparse` the stored degrees match the offsets, and the compact graph is that of the relabelled edge list: well formed, symmetric, each segment ascending with exactly its node's neighbours |
| Driver.Motifs | kmotif/kmotif.c:300-315 | the number `main` prints is the number of connected k-node sets of the graph built from the edge list |
| Driver.Stars | kmotif/kstarLBUB.c:249-264 | ub is at least the number of k-stars of the graph built from the edge list, lb <= ub, and lb is at most that number when no edge between two different nodes is listed twice, self-loops allowed |
| Driver.NoRepeatedEdgeLargerOnce | kmotif/kstarLBUB.c:118-161 | an edge list that lists no edge between two different nodes twice gives segments that repeat no entry larger than their node |

## Left out

- Reading the edge list (`readedgelist`), the argument parsing, timing and printing in `main` (`Driver` models its other steps), and `freesparse`/`freespecial`/`free`. They are I/O and memory management. The model starts from the edge list and n as `readedgelist` leaves them, with every endpoint below n. `rmhub.c` is not part of this model.
- 32- and 64-bit widths. Counts, offsets and degrees are unbounded naturals, so none of the C code's `unsigned` or `unsigned long long` wrap-around is modelled, including in `n * choose(...)`.
- KMotif.KMotif: requires 2 <= k < 256. For k = 1 (or 0), `kmotif_rec` at level 1 takes neither the `l == k-1` branch nor stays inside the k-slot arrays `p`, `q` and `motif`, so its behaviour is undefined.
- KStar.KStar: requires 1 <= k < 256. For k = 0, `k-1` converts to the largest unsigned value and no node qualifies.
- Driver.Motifs and Driver.Stars: state the results for the graph after relabelling. The proof that relabelling keeps the number of connected sets and of k-stars unchanged is not part of this model.
- The order `qsort` gives to nodes of equal degree. The comparators never answer "equal", so that order is unspecified. The model uses whatever its selection sort produces and proves only "sorted and a permutation".
- KMotif.KMotif: takes the compact graph as an immutable `Csr` value rather than reading the arrays of a `Sparse` object. It does not capture that `kmotif` shares those arrays with the structure `mksparse` built.
- `tab` in `kstar` is written and cleared but never read. The model proves that it is all false after every node and otherwise leaves it out of the result.
- The commented-out enumeration and printing blocks in `kmotif_rec` and `mksparse`.

## Findings

| source | as written | input that shows it | evidently intended | confidence | as-written member | corrected member |
|---|---|---|---|---|---|---|
| kmotif/kstarLBUB.c:203-215 | f(u) counts every entry of u's segment larger than u, so a neighbour listed twice counts twice | the edge list (0, 1), (1, 0), so n = 2, with k = 2: segment 0 is [1, 1] and lb = 2, but the only 2-star is {0, 1} | count each larger neighbour once, so that lb never exceeds the number of k-stars, as lines 4 and 16 promise | not executed | KStar.LowerOvershoots | KStar.DistinctLowerBelowStars |

`KStar.KStar` keeps the loop as written, so `lb` is `LowerBound`. With the
corrected count, f'(u), the lower sum is `DistinctLowerBound`, and
`KStar.DistinctLowerBelowStars` shows it never exceeds the number of
k-stars. `KStar.KStar` and `Driver.Stars` state that the two sums agree
whenever no edge between two different nodes is listed twice; repeated
self-loops do not matter, because a loop at u adds only the entry u.
