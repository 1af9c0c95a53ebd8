/**
 * The two programs end to end, without reading the edge list, timing and
 * printing: `degord`, then `mksparse`, then `kmotif` or `kstar` on the
 * structure `mksparse` built.
 */
module Driver {
  import opened Graph
  import opened SparseGraph
  import opened MotifSpec
  import opened KMotif
  import opened KStar

  /**
   * G is the compact graph of the edge list es relabelled by a permutation:
   * segment u is ascending and holds exactly the neighbours of u.
   */
  ghost predicate BuiltFrom(G: Csr, n: nat, es: seq<Edge>, newlabel: seq<nat>)
  {
    IsPermutation(newlabel, n) && EdgesWithin(es, n) && G.n == n && Wf(G) && Symmetric(G) &&
    forall u :: 0 <= u < n ==>
      Ascending(Seg(G, u)) && multiset(Seg(G, u)) == multiset(Nbrs(Relabel(es, newlabel), u))
  }

  /** Reads the structure `mksparse` leaves behind: n nodes, edges relabelled through newlabel. */
  method Prepare(n: nat, es: seq<Edge>) returns (g: Sparse, newlabel: seq<nat>)
    requires EdgesWithin(es, n)
    ensures fresh(g) && fresh(g.d) && fresh(g.cd) && fresh(g.adj)
    ensures Degrees(g) && BuiltFrom(g.Compact(), n, es, newlabel)
  {
    g := new Sparse(n, es);
    var nl := g.DegOrd();
    newlabel := nl[..];
    g.MkSparse();
    var G := g.Compact();
    forall u | 0 <= u < n
      ensures Seg(G, u) == g.adj[g.cd[u]..g.cd[u + 1]]
    {
    }
  }

  /**
   * `main` of kmotif.c: the number it prints is the number of connected
   * sets of k nodes of the graph that was read, relabelled.
   */
  method Motifs(n: nat, es: seq<Edge>, k: nat) returns (count: nat, G: Csr, newlabel: seq<nat>)
    requires EdgesWithin(es, n) && 2 <= k < 256
    ensures BuiltFrom(G, n, es, newlabel)
    ensures count == |ConnectedSets(G, k)|
  {
    var g;
    g, newlabel := Prepare(n, es);
    G := Csr(g.n, g.cd[..], g.adj[..]);
    count := KMotif.KMotif(G, k);
  }

  /**
   * `main` of kstarLBUB.c: ub is at least the number of k-stars of the graph
   * that was read, relabelled, and lb at most that number when no edge
   * between two different nodes is listed twice.
   */
  method Stars(n: nat, es: seq<Edge>, k: nat) returns (ub: nat, lb: nat, G: Csr, newlabel: seq<nat>)
    requires EdgesWithin(es, n) && 1 <= k < 256
    ensures BuiltFrom(G, n, es, newlabel)
    ensures ub == UpperBound(G, k - 1, n) && lb == LowerBound(G, k - 1, n)
    ensures lb <= ub && |KStars(G, k)| <= ub
    ensures NoRepeatedEdge(es) ==> lb <= |KStars(G, k)|
  {
    var g;
    g, newlabel := Prepare(n, es);
    G := Csr(g.n, g.cd[..], g.adj[..]);
    ub, lb := KStar.KStar(g, k);
    if NoRepeatedEdge(es) {
      NoRepeatedEdgeLargerOnce(G, n, es, newlabel);
    }
  }

  /** Without repeated edges no segment lists a larger neighbour twice. */
  lemma NoRepeatedEdgeLargerOnce(G: Csr, n: nat, es: seq<Edge>, newlabel: seq<nat>)
    requires BuiltFrom(G, n, es, newlabel) && NoRepeatedEdge(es)
    ensures LargerOnce(G)
  {
    RelabelNoRepeatedEdge(es, newlabel);
    forall u | 0 <= u < n
      ensures DistinctAbove(Seg(G, u), u)
    {
      NoRepeatedEdgeNbrs(Relabel(es, newlabel), u);
      SameMultisetAbove(Nbrs(Relabel(es, newlabel), u), Seg(G, u), u);
    }
  }
}
