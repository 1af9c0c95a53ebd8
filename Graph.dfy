/**
 * Edge lists as read from the input, the degree of a node, the neighbour
 * sequence that the compact adjacency builder writes for it, and the compact
 * (offset array + flat neighbour array) graph value used by both counters.
 */
module Graph {

  /** One undirected edge as read from the edge list (struct `edge`). */
  datatype Edge = Edge(s: nat, t: nat)

  /** Every endpoint is a node id below n. */
  predicate EdgesWithin(es: seq<Edge>, n: nat)
  {
    forall i :: 0 <= i < |es| ==> es[i].s < n && es[i].t < n
  }

  /** `x` is an endpoint of `e` once per matching end: a self-loop counts twice. */
  function Hits(e: Edge, x: nat): nat
  {
    (if e.s == x then 1 else 0) + (if e.t == x then 1 else 0)
  }

  /** Degree of x: the number of endpoint occurrences of x in es. */
  function Deg(es: seq<Edge>, x: nat): nat
  {
    if es == [] then 0 else Deg(es[..|es| - 1], x) + Hits(es[|es| - 1], x)
  }

  /**
   * The other endpoint of every edge at x, edge by edge, the source end
   * first: the order in which the scatter pass writes x's segment.
   */
  function Nbrs(es: seq<Edge>, x: nat): seq<nat>
  {
    if es == [] then []
    else
      var e := es[|es| - 1];
      Nbrs(es[..|es| - 1], x) + (if e.s == x then [e.t] else []) + (if e.t == x then [e.s] else [])
  }

  /** Sum of the degrees of the nodes 0..m-1. */
  function DegSum(es: seq<Edge>, m: nat): nat
  {
    if m == 0 then 0 else DegSum(es, m - 1) + Deg(es, m - 1)
  }

  /** Every endpoint replaced by its new label. */
  function Relabel(es: seq<Edge>, newlabel: seq<nat>): (r: seq<Edge>)
    requires EdgesWithin(es, |newlabel|)
    ensures |r| == |es|
    ensures forall i :: 0 <= i < |es| ==> r[i] == Edge(newlabel[es[i].s], newlabel[es[i].t])
  {
    seq(|es|, i requires 0 <= i < |es| => Edge(newlabel[es[i].s], newlabel[es[i].t]))
  }

  /** The nodes 0..n-1. */
  function Nodes(n: nat): (r: set<nat>)
    ensures forall x: nat :: x in r <==> x < n
  {
    if n == 0 then {} else Nodes(n - 1) + {n - 1}
  }

  /** No value occurs twice in s. */
  predicate Distinct<T(==)>(s: seq<T>)
  {
    forall i, j :: 0 <= i < j < |s| ==> s[i] != s[j]
  }

  /** No value larger than u occurs twice in s. */
  predicate DistinctAbove(s: seq<nat>, u: nat)
  {
    forall i, j :: 0 <= i < j < |s| && s[i] > u ==> s[i] != s[j]
  }

  /** s is in ascending order. */
  predicate Ascending(s: seq<nat>)
  {
    forall i, j :: 0 <= i < j < |s| ==> s[i] <= s[j]
  }

  /** `newlabel` is a permutation of 0..n-1. */
  predicate IsPermutation(newlabel: seq<nat>, n: nat)
  {
    |newlabel| == n && Distinct(newlabel) && forall x :: 0 <= x < n ==> newlabel[x] < n
  }

  /** `inv` and `f` are inverse permutations of 0..n-1. */
  predicate Inverse(f: seq<nat>, inv: seq<nat>, n: nat)
  {
    |f| == n && |inv| == n &&
    (forall x :: 0 <= x < n ==> f[x] < n && inv[f[x]] == x) &&
    (forall i :: 0 <= i < n ==> inv[i] < n && f[inv[i]] == i)
  }

  // ---------------------------------------------------------------------
  // Degrees and neighbour sequences

  lemma DegAppend(es: seq<Edge>, e: Edge, x: nat)
    ensures Deg(es + [e], x) == Deg(es, x) + Hits(e, x)
    ensures Nbrs(es + [e], x) == Nbrs(es, x) + (if e.s == x then [e.t] else []) + (if e.t == x then [e.s] else [])
  {
    assert (es + [e])[..|es|] == es;
  }

  lemma {:induction false} NbrsLength(es: seq<Edge>, x: nat)
    ensures |Nbrs(es, x)| == Deg(es, x)
  {
    if es != [] {
      NbrsLength(es[..|es| - 1], x);
    }
  }

  /** Degrees only grow along a prefix of the edge list. */
  lemma {:induction false} DegPrefix(es: seq<Edge>, i: nat, x: nat)
    requires i < |es|
    ensures Deg(es[..i + 1], x) == Deg(es[..i], x) + Hits(es[i], x)
    ensures Nbrs(es[..i + 1], x) == Nbrs(es[..i], x) + (if es[i].s == x then [es[i].t] else []) + (if es[i].t == x then [es[i].s] else [])
    ensures Deg(es[..i + 1], x) <= Deg(es, x)
    decreases |es|
  {
    assert es[..i + 1][..i] == es[..i];
    if i + 1 < |es| {
      DegPrefix(es[..|es| - 1], i, x);
      assert es[..|es| - 1][..i + 1] == es[..i + 1];
      assert es[..|es| - 1][..i] == es[..i];
    } else {
      assert es[..i + 1] == es;
    }
  }

  /** Adjacency read off the edge list is symmetric. */
  lemma {:induction false} NbrsSymmetric(es: seq<Edge>, a: nat, b: nat)
    ensures b in Nbrs(es, a) <==> a in Nbrs(es, b)
  {
    if es != [] {
      NbrsSymmetric(es[..|es| - 1], a, b);
    }
  }

  /** Only nodes below n occur as neighbours. */
  lemma {:induction false} NbrsWithin(es: seq<Edge>, n: nat, x: nat)
    requires EdgesWithin(es, n)
    ensures forall v :: v in Nbrs(es, x) ==> v < n
  {
    if es != [] {
      NbrsWithin(es[..|es| - 1], n, x);
    }
  }

  /** e and f join the same two nodes, in either direction. */
  predicate SameEnds(e: Edge, f: Edge)
  {
    (e.s == f.s && e.t == f.t) || (e.s == f.t && e.t == f.s)
  }

  /** No edge between two different nodes is listed twice, in either direction; a self-loop may be. */
  predicate NoRepeatedEdge(es: seq<Edge>)
  {
    forall i, j :: 0 <= i < j < |es| && es[i].s != es[i].t ==> !SameEnds(es[i], es[j])
  }

  /** A neighbour v of x is there because of an edge joining x and v. */
  lemma {:induction false} NbrsFrom(es: seq<Edge>, x: nat, v: nat)
    ensures v in Nbrs(es, x) ==> exists i :: 0 <= i < |es| && SameEnds(es[i], Edge(x, v))
  {
    if es != [] {
      var f := es[..|es| - 1];
      NbrsFrom(f, x, v);
      if v in Nbrs(f, x) {
        var i :| 0 <= i < |f| && SameEnds(f[i], Edge(x, v));
        assert es[i] == f[i];
      }
    }
  }

  /** Without repeated edges no node has the same larger neighbour twice. */
  lemma {:induction false} NoRepeatedEdgeNbrs(es: seq<Edge>, x: nat)
    requires NoRepeatedEdge(es)
    ensures DistinctAbove(Nbrs(es, x), x)
  {
    if es != [] {
      var f, e := es[..|es| - 1], es[|es| - 1];
      assert NoRepeatedEdge(f);
      NoRepeatedEdgeNbrs(f, x);
      var p := Nbrs(f, x);
      if e.s == x && e.t == x {
        assert Nbrs(es, x) == p + [x, x];
      } else if e.s == x || e.t == x {
        var v := if e.s == x then e.t else e.s;
        assert Nbrs(es, x) == p + [v];
        forall i | 0 <= i < |f|
          ensures !SameEnds(f[i], Edge(x, v))
        {
          assert f[i] == es[i] && (es[i].s != es[i].t ==> !SameEnds(es[i], e));
        }
        NbrsFrom(f, x, v);
      }
    }
  }

  /** Relabelling by an injective map keeps an edge list free of repeated edges. */
  lemma RelabelNoRepeatedEdge(es: seq<Edge>, newlabel: seq<nat>)
    requires EdgesWithin(es, |newlabel|) && Distinct(newlabel) && NoRepeatedEdge(es)
    ensures NoRepeatedEdge(Relabel(es, newlabel))
  {
    var r := Relabel(es, newlabel);
    forall i, j | 0 <= i < j < |r| && r[i].s != r[i].t
      ensures !SameEnds(r[i], r[j])
    {
      assert es[i].s != es[i].t && !SameEnds(es[i], es[j]);
    }
  }

  lemma {:induction false} DegSumAppend(es: seq<Edge>, e: Edge, m: nat)
    ensures DegSum(es + [e], m) == DegSum(es, m) + (if e.s < m then 1 else 0) + (if e.t < m then 1 else 0)
  {
    if m > 0 {
      DegSumAppend(es, e, m - 1);
      DegAppend(es, e, m - 1);
    }
  }

  /** The degrees of all nodes add up to twice the number of edges. */
  lemma {:induction false} DegSumIsTwiceEdges(es: seq<Edge>, n: nat)
    requires EdgesWithin(es, n)
    ensures DegSum(es, n) == 2 * |es|
  {
    if es == [] {
      DegSumOfNone(n);
    } else {
      var front := es[..|es| - 1];
      assert front + [es[|es| - 1]] == es;
      DegSumIsTwiceEdges(front, n);
      DegSumAppend(front, es[|es| - 1], n);
    }
  }

  lemma {:induction false} DegSumOfNone(m: nat)
    ensures DegSum([], m) == 0
  {
    if m > 0 {
      DegSumOfNone(m - 1);
    }
  }

  /** Relabelling by an injective map moves each degree with its node. */
  lemma {:induction false} DegRelabel(es: seq<Edge>, newlabel: seq<nat>, x: nat)
    requires EdgesWithin(es, |newlabel|) && Distinct(newlabel) && x < |newlabel|
    ensures Deg(Relabel(es, newlabel), newlabel[x]) == Deg(es, x)
  {
    if es != [] {
      var front := es[..|es| - 1];
      assert Relabel(es, newlabel)[..|es| - 1] == Relabel(front, newlabel);
      DegRelabel(front, newlabel, x);
    }
  }

  // ---------------------------------------------------------------------
  // Counting distinct elements

  /** The set of nodes occurring in s. */
  function Elems(s: seq<nat>): set<nat>
  {
    set x | x in s
  }

  lemma {:induction false} DistinctCard(s: seq<nat>)
    requires Distinct(s)
    ensures |Elems(s)| == |s|
  {
    if s != [] {
      var front := s[..|s| - 1];
      assert Distinct(front);
      DistinctCard(front);
      assert s == front + [s[|s| - 1]];
      assert s[|s| - 1] !in front;
      assert Elems(s) == Elems(front) + {s[|s| - 1]};
    }
  }

  /** A sequence has at most as many distinct values as entries. */
  lemma {:induction false} ElemsCard(s: seq<nat>)
    ensures |Elems(s)| <= |s|
  {
    if s != [] {
      var front := s[..|s| - 1];
      ElemsCard(front);
      assert s == front + [s[|s| - 1]];
      assert Elems(s) == Elems(front) + {s[|s| - 1]};
    }
  }

  /** A duplicate-free sequence holds every value at most once. */
  lemma {:induction false} DistinctCount<T>(s: seq<T>, x: T)
    requires Distinct(s)
    ensures multiset(s)[x] <= 1
  {
    if s != [] {
      var front := s[..|s| - 1];
      assert Distinct(front);
      DistinctCount(front, x);
      assert s == front + [s[|s| - 1]];
      assert s[|s| - 1] !in front;
    }
  }

  /** A rearrangement of a duplicate-free sequence is duplicate free. */
  lemma SameMultisetDistinct<T>(s: seq<T>, t: seq<T>)
    requires Distinct(s) && multiset(s) == multiset(t)
    ensures Distinct(t)
  {
    forall i, j | 0 <= i < j < |t|
      ensures t[i] != t[j]
    {
      var x := t[j];
      assert t == t[..j] + [x] + t[j + 1..];
      assert multiset(t)[x] == multiset(t[..j])[x] + 1 + multiset(t[j + 1..])[x];
      DistinctCount(s, x);
      assert x !in t[..j];
      assert t[..j][i] == t[i];
    }
  }

  /** Under DistinctAbove(s, u) a value larger than u occurs at most once. */
  lemma {:induction false} AboveCount(s: seq<nat>, u: nat, x: nat)
    requires DistinctAbove(s, u) && x > u
    ensures multiset(s)[x] <= 1
  {
    if s != [] {
      var front := s[..|s| - 1];
      assert DistinctAbove(front, u);
      AboveCount(front, u, x);
      assert s == front + [s[|s| - 1]];
      assert s[|s| - 1] == x ==> x !in front;
    }
  }

  /** A rearrangement keeps the larger values free of repeats. */
  lemma SameMultisetAbove(s: seq<nat>, t: seq<nat>, u: nat)
    requires DistinctAbove(s, u) && multiset(s) == multiset(t)
    ensures DistinctAbove(t, u)
  {
    forall i, j | 0 <= i < j < |t| && t[i] > u
      ensures t[i] != t[j]
    {
      var x := t[i];
      assert t == t[..i] + [x] + t[i + 1..];
      assert multiset(t)[x] == multiset(t[..i])[x] + 1 + multiset(t[i + 1..])[x];
      AboveCount(s, u, x);
      assert x !in t[i + 1..];
      assert t[i + 1..][j - i - 1] == t[j];
    }
  }

  lemma {:induction false} NodesCard(n: nat)
    ensures |Nodes(n)| == n
  {
    if n > 0 {
      NodesCard(n - 1);
    }
  }

  lemma {:induction false} SubsetCard<T>(a: set<T>, b: set<T>)
    requires a <= b
    ensures |a| <= |b|
  {
    if a != {} {
      var x :| x in a;
      SubsetCard(a - {x}, b - {x});
    }
  }

  /**
   * A duplicate-free sequence of nodes below n that misses some node v below n
   * is shorter than n: the candidate list never overflows its n slots.
   */
  lemma RoomForOneMore(s: seq<nat>, n: nat, v: nat)
    requires Distinct(s) && v < n && v !in s
    requires forall x :: x in s ==> x < n
    ensures |s| < n
  {
    DistinctCard(s);
    NodesCard(n);
    SubsetCard(Elems(s), Nodes(n) - {v});
  }

  // ---------------------------------------------------------------------
  // The compact graph: offsets cd (length n+1) into the flat array adj

  datatype Csr = Csr(n: nat, cd: seq<nat>, adj: seq<nat>)

  /** Offsets start at 0, never decrease, end at |adj|; neighbours are nodes. */
  ghost predicate Wf(g: Csr)
  {
    |g.cd| == g.n + 1 && g.cd[0] == 0 && g.cd[g.n] == |g.adj| &&
    (forall i, j :: 0 <= i <= j <= g.n ==> g.cd[i] <= g.cd[j]) &&
    (forall j :: 0 <= j < |g.adj| ==> g.adj[j] < g.n)
  }

  /** Node u's segment adj[cd[u]..cd[u+1]). */
  ghost function Seg(g: Csr, u: nat): (r: seq<nat>)
    requires Wf(g) && u < g.n
    ensures forall v :: v in r ==> v < g.n
  {
    g.adj[g.cd[u]..g.cd[u + 1]]
  }

  /** b is a neighbour of a other than a itself. */
  ghost predicate Adj(g: Csr, a: nat, b: nat)
  {
    Wf(g) && a < g.n && a != b && b in Seg(g, a)
  }

  ghost predicate Symmetric(g: Csr)
  {
    forall a, b :: Adj(g, a, b) ==> Adj(g, b, a)
  }
}
