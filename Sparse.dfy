/**
 * The graph front end shared by both programs: the `sparse` structure, the
 * relabelling by non-increasing degree (`degord`) and the construction of
 * the compact adjacency (`mksparse`). The two C files carry identical copies
 * of `degord`; their `mksparse` copies differ only in whether the degree
 * array survives as `g->d`, and this model keeps it, as kstarLBUB.c does.
 */
module SparseGraph {
  import opened Graph
  import opened Sorting

  /** struct `nodedeg`: a node with its degree. */
  datatype NodeDeg = NodeDeg(node: nat, deg: nat)

  /** Sort key putting larger degrees first (comparator `compare_nodedeg`). */
  function ByDegreeDesc(nd: NodeDeg): int
  {
    -(nd.deg as int)
  }

  /** Sort key for ascending neighbour ids (comparator `cmpfunc`). */
  function ById(v: nat): int
  {
    v
  }

  /** The degree-counting loop at the start of `degord` and of `mksparse`. */
  method CountDegrees(edges: array<Edge>, n: nat) returns (d: array<nat>)
    requires EdgesWithin(edges[..], n)
    ensures fresh(d) && d.Length == n
    ensures forall x :: 0 <= x < n ==> d[x] == Deg(edges[..], x)
  {
    ghost var es := edges[..];
    d := new nat[n](_ => 0);
    var i := 0;
    while i < edges.Length
      invariant 0 <= i <= edges.Length
      invariant forall x :: 0 <= x < n ==> d[x] == Deg(es[..i], x)
    {
      forall x | 0 <= x < n
        ensures Deg(es[..i + 1], x) == Deg(es[..i], x) + Hits(es[i], x)
      {
        DegPrefix(es, i, x);
      }
      d[edges[i].s] := d[edges[i].s] + 1;
      d[edges[i].t] := d[edges[i].t] + 1;
      i := i + 1;
    }
    assert es[..edges.Length] == es;
  }

  /** Two segments that lie outside [lo, hi) are equal when only [lo, hi) changed. */
  lemma SliceOutside(a: seq<nat>, b: seq<nat>, lo: nat, hi: nat, x: nat, y: nat)
    requires |a| == |b| && x <= y <= |a|
    requires y <= lo || hi <= x
    requires forall j :: 0 <= j < |a| && !(lo <= j < hi) ==> a[j] == b[j]
    ensures a[x..y] == b[x..y]
  {
  }

  /**
   * The nodes 0..n-1 with their degrees, sorted by non-increasing degree:
   * every node occurs exactly once, paired with its own degree.
   */
  method SortByDegree(deg: array<nat>) returns (nodedeglist: array<NodeDeg>)
    ensures fresh(nodedeglist) && nodedeglist.Length == deg.Length
    ensures forall i :: 0 <= i < deg.Length ==>
              nodedeglist[i].node < deg.Length && nodedeglist[i].deg == deg[nodedeglist[i].node]
    ensures forall i, j :: 0 <= i < j < deg.Length ==> nodedeglist[i].node != nodedeglist[j].node
    ensures forall x :: 0 <= x < deg.Length ==> NodeDeg(x, deg[x]) in nodedeglist[..]
    ensures forall i, j :: 0 <= i < j < deg.Length ==> nodedeglist[i].deg >= nodedeglist[j].deg
  {
    var n := deg.Length;
    nodedeglist := new NodeDeg[n](i requires 0 <= i < n reads deg => NodeDeg(i, deg[i]));
    ghost var initial := nodedeglist[..];
    SortSegment(nodedeglist, 0, n, ByDegreeDesc);
    assert nodedeglist[0..n] == nodedeglist[..];
    assert initial[0..n] == initial;
    ghost var sorted := nodedeglist[..];
    SameMultisetDistinct(initial, sorted);
    forall j | 0 <= j < n
      ensures sorted[j].node < n && sorted[j].deg == deg[sorted[j].node]
    {
      assert sorted[j] in multiset(initial);
    }
    forall x | 0 <= x < n
      ensures NodeDeg(x, deg[x]) in nodedeglist[..]
    {
      assert initial[x] in multiset(sorted);
    }
    forall i, j | 0 <= i < j < n
      ensures nodedeglist[i].deg >= nodedeglist[j].deg
    {
      assert ByDegreeDesc(sorted[i]) <= ByDegreeDesc(sorted[j]);
    }
  }

  /** newlabel[nodedeglist[i].node] = i and orig[i] = nodedeglist[i].node. */
  method Labels(nodedeglist: array<NodeDeg>, ghost deg: seq<nat>) returns (newlabel: array<nat>, orig: array<nat>)
    requires |deg| == nodedeglist.Length
    requires forall i :: 0 <= i < nodedeglist.Length ==> nodedeglist[i].node < nodedeglist.Length
    requires forall i, j :: 0 <= i < j < nodedeglist.Length ==> nodedeglist[i].node != nodedeglist[j].node
    requires forall x :: 0 <= x < nodedeglist.Length ==> NodeDeg(x, deg[x]) in nodedeglist[..]
    ensures fresh(newlabel) && fresh(orig)
    ensures IsPermutation(newlabel[..], nodedeglist.Length) && Inverse(newlabel[..], orig[..], nodedeglist.Length)
    ensures forall i :: 0 <= i < nodedeglist.Length ==> orig[i] == nodedeglist[i].node
  {
    var n := nodedeglist.Length;
    newlabel := new nat[n];
    orig := new nat[n];
    var i := 0;
    while i < n
      invariant 0 <= i <= n
      invariant forall j :: 0 <= j < i ==> orig[j] == nodedeglist[j].node && newlabel[nodedeglist[j].node] == j
    {
      newlabel[nodedeglist[i].node] := i;
      orig[i] := nodedeglist[i].node;
      i := i + 1;
    }
    forall x | 0 <= x < n
      ensures newlabel[x] < n && orig[newlabel[x]] == x
    {
      assert NodeDeg(x, deg[x]) in nodedeglist[..];
      var j :| 0 <= j < n && nodedeglist[j] == NodeDeg(x, deg[x]);
    }
  }

  /** Rewrites every endpoint of every edge to its new label, in place. */
  method RelabelEdges(edges: array<Edge>, newlabel: array<nat>)
    requires EdgesWithin(edges[..], newlabel.Length)
    modifies edges
    ensures edges[..] == Relabel(old(edges[..]), newlabel[..])
  {
    var i := 0;
    while i < edges.Length
      invariant 0 <= i <= edges.Length
      invariant forall j :: 0 <= j < i ==> edges[j] == Edge(newlabel[old(edges[j]).s], newlabel[old(edges[j]).t])
      invariant forall j :: i <= j < edges.Length ==> edges[j] == old(edges[j])
    {
      edges[i] := Edge(newlabel[edges[i].s], newlabel[edges[i].t]);
      i := i + 1;
    }
  }

  /**
   * The prefix-sum pass: cum[i] is the sum of the first i counts, max the
   * largest count, and every count is reset to 0 to serve as a cursor.
   */
  method PrefixSums(deg: array<nat>) returns (cum: array<nat>, max: nat)
    modifies deg
    ensures fresh(cum) && cum.Length == deg.Length + 1
    ensures forall x :: 0 <= x < deg.Length ==> deg[x] == 0
    ensures cum[0] == 0 && forall x :: 0 <= x < deg.Length ==> cum[x + 1] == cum[x] + old(deg[x])
    ensures forall x :: 0 <= x < deg.Length ==> old(deg[x]) <= max
    ensures if deg.Length == 0 then max == 0 else exists x :: 0 <= x < deg.Length && old(deg[x]) == max
  {
    ghost var d0 := deg[..];
    var n := deg.Length;
    cum := new nat[n + 1];
    cum[0] := 0;
    max := 0;
    ghost var argmax := 0;
    var i := 0;
    while i < n
      invariant 0 <= i <= n
      invariant forall x :: 0 <= x < i ==> deg[x] == 0
      invariant forall x :: i <= x < n ==> deg[x] == d0[x]
      invariant cum[0] == 0 && forall x :: 0 <= x < i ==> cum[x + 1] == cum[x] + d0[x]
      invariant forall x :: 0 <= x < i ==> d0[x] <= max
      invariant if i == 0 then max == 0 else argmax < i && d0[argmax] == max
    {
      if max <= deg[i] {
        argmax := i;
        max := deg[i];
      }
      cum[i + 1] := cum[i] + deg[i];
      deg[i] := 0;
      i := i + 1;
    }
  }

  /**
   * Offsets built as prefix sums of the degrees end at the degree sum and
   * never decrease.
   */
  lemma {:induction false} PrefixOfDegrees(es: seq<Edge>, cum: seq<nat>, n: nat)
    requires |cum| == n + 1 && cum[0] == 0
    requires forall x :: 0 <= x < n ==> cum[x + 1] == cum[x] + Deg(es, x)
    ensures cum[n] == DegSum(es, n)
    ensures forall a, b :: 0 <= a <= b <= n ==> cum[a] <= cum[b]
  {
    if n > 0 {
      PrefixOfDegrees(es, cum[..n], n - 1);
      forall a, b | 0 <= a <= b <= n
        ensures cum[a] <= cum[b]
      {
        if b == n {
          if a < n {
            assert cum[..n][a] <= cum[..n][n - 1];
          }
        } else {
          assert cum[..n][a] <= cum[..n][b];
        }
      }
    }
  }

  /** Offsets that delimit one segment of Deg(es, x) slots per node x. */
  ghost predicate Offsets(es: seq<Edge>, cum: seq<nat>, n: nat)
  {
    |cum| == n + 1 && cum[0] == 0 && cum[n] == 2 * |es| &&
    (forall x :: 0 <= x < n ==> cum[x + 1] == cum[x] + Deg(es, x)) &&
    (forall a, b :: 0 <= a <= b <= n ==> cum[a] <= cum[b])
  }

  /** The filled part s[cum[x]..cum[x] + d[x]) of x's segment reads c. */
  ghost predicate Holds(s: seq<nat>, cum: seq<nat>, d: seq<nat>, x: nat, c: seq<nat>)
  {
    x < |d| && x + 1 < |cum| && cum[x] + d[x] <= cum[x + 1] <= |s| &&
    s[cum[x]..cum[x] + d[x]] == c
  }

  /**
   * After the first k edges are scattered, x's cursor d[x] is its degree so
   * far and the filled part of its segment holds its neighbours so far.
   */
  ghost predicate Filled(s: seq<nat>, cum: seq<nat>, d: seq<nat>, es: seq<Edge>, k: nat, x: nat)
  {
    k <= |es| && Holds(s, cum, d, x, Nbrs(es[..k], x)) && d[x] == Deg(es[..k], x)
  }

  /**
   * Writing v at w's cursor and advancing it extends w's filled part by v
   * and leaves the filled part of every other node alone.
   */
  lemma Put(s: seq<nat>, cum: seq<nat>, n: nat, d: seq<nat>, w: nat, v: nat, x: nat, c: seq<nat>)
    requires |cum| == n + 1 && |d| == n && w < n && x < n
    requires forall a, b :: 0 <= a <= b <= n ==> cum[a] <= cum[b]
    requires cum[w] + d[w] < cum[w + 1] <= |s|
    requires Holds(s, cum, d, x, c)
    ensures Holds(s[cum[w] + d[w] := v], cum, d[w := d[w] + 1], x, if x == w then c + [v] else c)
  {
    var s1 := s[cum[w] + d[w] := v];
    if x == w {
      assert s1[cum[x]..cum[x] + d[x] + 1] == c + [v];
    } else {
      if w < x {
        assert cum[w + 1] <= cum[x];
      } else {
        assert cum[x + 1] <= cum[w];
      }
      assert s1[cum[x]..cum[x] + d[x]] == c;
    }
  }

  /** Edge es[k] fits in the segments of its ends after the first k edges. */
  lemma {:induction false} CursorRoom(es: seq<Edge>, n: nat, cum: seq<nat>, k: nat, x: nat)
    requires Offsets(es, cum, n) && k < |es| && x < n
    ensures cum[x] + Deg(es[..k], x) + Hits(es[k], x) <= cum[x + 1] <= 2 * |es|
  {
    DegPrefix(es, k, x);
  }

  /** Two writes at the cursors of a and then b extend the filled part of x accordingly. */
  lemma PutTwice(cum: seq<nat>, n: nat, s0: seq<nat>, d0: seq<nat>, s1: seq<nat>, d1: seq<nat>,
                 s2: seq<nat>, d2: seq<nat>, a: nat, va: nat, b: nat, vb: nat, x: nat, c0: seq<nat>)
    requires |cum| == n + 1 && |d0| == n && a < n && b < n && x < n
    requires forall i, j :: 0 <= i <= j <= n ==> cum[i] <= cum[j]
    requires cum[a] + d0[a] < cum[a + 1] <= |s0|
    requires s1 == s0[cum[a] + d0[a] := va] && d1 == d0[a := d0[a] + 1]
    requires cum[b] + d1[b] < cum[b + 1] <= |s0|
    requires s2 == s1[cum[b] + d1[b] := vb] && d2 == d1[b := d1[b] + 1]
    requires Holds(s0, cum, d0, x, c0)
    ensures Holds(s2, cum, d2, x, c0 + (if x == a then [va] else []) + (if x == b then [vb] else []))
  {
    Put(s0, cum, n, d0, a, va, x, c0);
    var c1 := if x == a then c0 + [va] else c0;
    Put(s1, cum, n, d1, b, vb, x, c1);
    assert (if x == b then c1 + [vb] else c1) == c0 + (if x == a then [va] else []) + (if x == b then [vb] else []);
  }

  /** After one scatter step node x is filled for the first k + 1 edges. */
  lemma StepAt(es: seq<Edge>, n: nat, cum: seq<nat>, k: nat, s0: seq<nat>, d0: seq<nat>, s1: seq<nat>, d1: seq<nat>,
               s2: seq<nat>, d2: seq<nat>, x: nat)
    requires EdgesWithin(es, n) && Offsets(es, cum, n) && k < |es| && |d0| == n && x < n
    requires Filled(s0, cum, d0, es, k, x)
    requires cum[es[k].s] + d0[es[k].s] < cum[es[k].s + 1] <= |s0|
    requires s1 == s0[cum[es[k].s] + d0[es[k].s] := es[k].t] && d1 == d0[es[k].s := d0[es[k].s] + 1]
    requires cum[es[k].t] + d1[es[k].t] < cum[es[k].t + 1] <= |s0|
    requires s2 == s1[cum[es[k].t] + d1[es[k].t] := es[k].s] && d2 == d1[es[k].t := d1[es[k].t] + 1]
    ensures Filled(s2, cum, d2, es, k + 1, x)
  {
    DegPrefix(es, k, x);
    PutTwice(cum, n, s0, d0, s1, d1, s2, d2, es[k].s, es[k].t, es[k].t, es[k].s, x, Nbrs(es[..k], x));
  }

  /**
   * The scatter pass after its first k edges: every node is filled for those
   * edges and every slot holds a node.
   */
  ghost predicate Scattered(es: seq<Edge>, n: nat, cum: seq<nat>, k: nat, s: seq<nat>, d: seq<nat>)
  {
    EdgesWithin(es, n) && Offsets(es, cum, n) && k <= |es| && |d| == n && |s| == 2 * |es| &&
    (forall x :: 0 <= x < n ==> Filled(s, cum, d, es, k, x)) &&
    (forall j :: 0 <= j < |s| ==> s[j] < n)
  }

  /** Both writes of step k fit in the segments of the two ends of e == es[k]. */
  lemma ScatterRoom(es: seq<Edge>, n: nat, cum: seq<nat>, k: nat, s0: seq<nat>, d0: seq<nat>, e: Edge)
    requires Scattered(es, n, cum, k, s0, d0) && k < |es| && e == es[k]
    ensures e.s < n && e.t < n && |cum| == n + 1 && |d0| == n
    ensures cum[e.s] + d0[e.s] < cum[e.s + 1] <= |s0|
    ensures cum[e.t] + d0[e.t] + (if e.s == e.t then 1 else 0) < cum[e.t + 1] <= |s0|
  {
    assert Filled(s0, cum, d0, es, k, e.s) && Filled(s0, cum, d0, es, k, e.t);
    CursorRoom(es, n, cum, k, e.s);
    CursorRoom(es, n, cum, k, e.t);
  }

  /** One scatter step, for every node at once. */
  lemma ScatterStep(es: seq<Edge>, n: nat, cum: seq<nat>, k: nat, e: Edge, s0: seq<nat>, d0: seq<nat>,
                    pa: nat, s1: seq<nat>, d1: seq<nat>, pb: nat, s2: seq<nat>, d2: seq<nat>)
    requires Scattered(es, n, cum, k, s0, d0) && k < |es| && e == es[k] && e.s < |d0| && e.t < |d0|
    requires e.s < |cum| && pa == cum[e.s] + d0[e.s] < |s0|
    requires s1 == s0[pa := e.t] && d1 == d0[e.s := d0[e.s] + 1]
    requires e.t < |cum| && pb == cum[e.t] + d1[e.t] < |s1|
    requires s2 == s1[pb := e.s] && d2 == d1[e.t := d1[e.t] + 1]
    ensures Scattered(es, n, cum, k + 1, s2, d2)
  {
    ScatterRoom(es, n, cum, k, s0, d0, e);
    var k1 := k + 1;
    forall x | 0 <= x < n
      ensures Filled(s2, cum, d2, es, k1, x)
    {
      StepAt(es, n, cum, k, s0, d0, s1, d1, s2, d2, x);
    }
  }

  /** Writes v at x's cursor and advances the cursor; c, s and d name the arrays' contents. */
  method Place(nbr: array<nat>, cum: array<nat>, deg: array<nat>, x: nat, v: nat,
               ghost c: seq<nat>, ghost s: seq<nat>, ghost d: seq<nat>)
    requires nbr != deg && cum != deg && cum != nbr
    requires c == cum[..] && s == nbr[..] && d == deg[..]
    requires x < |d| && x < |c| && c[x] + d[x] < |s|
    modifies nbr, deg
    ensures nbr[..] == s[c[x] + d[x] := v]
    ensures deg[..] == d[x := d[x] + 1]
  {
    nbr[cum[x] + deg[x]] := v;
    deg[x] := deg[x] + 1;
  }

  /** Scatters edge k: its target into its source's segment, then its source into its target's. */
  method ScatterEdge(edges: array<Edge>, cum: array<nat>, deg: array<nat>, nbr: array<nat>, k: nat,
                     ghost es: seq<Edge>, ghost c: seq<nat>)
    requires nbr != deg && cum != deg && cum != nbr
    requires es == edges[..] && c == cum[..] && k < |es|
    requires Scattered(es, deg.Length, c, k, nbr[..], deg[..])
    modifies nbr, deg
    ensures Scattered(es, deg.Length, c, k + 1, nbr[..], deg[..])
  {
    var e := edges[k];
    ghost var s0, d0 := nbr[..], deg[..];
    ScatterRoom(es, deg.Length, c, k, s0, d0, e);
    Place(nbr, cum, deg, e.s, e.t, c, s0, d0);
    ghost var s1, d1 := nbr[..], deg[..];
    Place(nbr, cum, deg, e.t, e.s, c, s1, d1);
    ScatterStep(es, deg.Length, c, k, e, s0, d0, c[e.s] + d0[e.s], s1, d1, c[e.t] + d1[e.t], nbr[..], deg[..]);
  }

  /**
   * The scatter pass: with every cursor at 0, writes the other endpoint of
   * each edge at the cursor of each of its ends; afterwards segment x reads
   * Nbrs(es, x) and the cursors are back at the degrees.
   */
  method Scatter(edges: array<Edge>, cum: array<nat>, deg: array<nat>) returns (nbr: array<nat>)
    requires deg.Length + 1 == cum.Length && EdgesWithin(edges[..], deg.Length) && deg != cum
    requires Offsets(edges[..], cum[..], deg.Length)
    requires forall x :: 0 <= x < deg.Length ==> deg[x] == 0
    modifies deg
    ensures fresh(nbr) && nbr.Length == 2 * edges.Length
    ensures forall x :: 0 <= x < deg.Length ==> deg[x] == Deg(edges[..], x)
    ensures forall x :: 0 <= x < deg.Length ==> SegRaw(nbr[..], cum[..], edges[..], x)
    ensures forall j :: 0 <= j < nbr.Length ==> nbr[j] < deg.Length
  {
    ghost var es := edges[..];
    var n := deg.Length;
    nbr := new nat[2 * edges.Length](_ => 0);
    assert edges.Length > 0 ==> n > 0 by {
      if edges.Length > 0 { assert es[0].s < n; }
    }
    ghost var c := cum[..];
    var k := 0;
    while k < edges.Length
      invariant 0 <= k <= edges.Length
      invariant Scattered(es, n, c, k, nbr[..], deg[..])
    {
      ScatterEdge(edges, cum, deg, nbr, k, es, c);
      k := k + 1;
    }
    assert es[..edges.Length] == es;
    forall x | 0 <= x < n
      ensures deg[x] == Deg(es, x) && SegRaw(nbr[..], c, es, x)
    {
      assert Filled(nbr[..], c, deg[..], es, k, x);
    }
  }

  /** Segment u of s is sorted and holds the neighbours of u. */
  ghost predicate SegDone(s: seq<nat>, cum: seq<nat>, es: seq<Edge>, u: nat)
  {
    u + 1 < |cum| && cum[u] <= cum[u + 1] <= |s| &&
    Ascending(s[cum[u]..cum[u + 1]]) && multiset(s[cum[u]..cum[u + 1]]) == multiset(Nbrs(es, u))
  }

  /** Segment u of s holds the neighbours of u in scatter order. */
  ghost predicate SegRaw(s: seq<nat>, cum: seq<nat>, es: seq<Edge>, u: nat)
  {
    u + 1 < |cum| && cum[u] <= cum[u + 1] <= |s| && s[cum[u]..cum[u + 1]] == Nbrs(es, u)
  }

  lemma SortedByIdAscending(s: seq<nat>)
    requires SortedBy(s, ById)
    ensures Ascending(s)
  {
    forall i, j | 0 <= i < j < |s|
      ensures s[i] <= s[j]
    {
      assert ById(s[i]) <= ById(s[j]);
    }
  }

  /** Sorting segment i in place leaves every other segment alone. */
  lemma OtherSegments(cum: seq<nat>, n: nat, i: nat, before: seq<nat>, after: seq<nat>, u: nat)
    requires |cum| == n + 1 && i < n && u < n && u != i && |before| == |after| && cum[n] <= |before|
    requires forall a, b :: 0 <= a <= b <= n ==> cum[a] <= cum[b]
    requires forall j :: 0 <= j < |after| && !(cum[i] <= j < cum[i + 1]) ==> after[j] == before[j]
    ensures after[cum[u]..cum[u + 1]] == before[cum[u]..cum[u + 1]]
  {
    assert u < i ==> cum[u + 1] <= cum[i];
    assert u > i ==> cum[i + 1] <= cum[u];
    assert cum[u + 1] <= cum[n];
    SliceOutside(after, before, cum[i], cum[i + 1], cum[u], cum[u + 1]);
  }

  /** A permutation of a slice keeps every value of the slice below n. */
  lemma PermutedBelow(before: seq<nat>, after: seq<nat>, lo: nat, hi: nat, n: nat)
    requires lo <= hi <= |before| == |after|
    requires forall j :: 0 <= j < |before| ==> before[j] < n
    requires forall j :: 0 <= j < |after| && !(lo <= j < hi) ==> after[j] == before[j]
    requires multiset(after[lo..hi]) == multiset(before[lo..hi])
    ensures forall j :: 0 <= j < |after| ==> after[j] < n
  {
    forall j | lo <= j < hi
      ensures after[j] < n
    {
      assert after[lo..hi][j - lo] in multiset(before[lo..hi]);
    }
  }

  /** Sorting segment i in place finishes it and leaves every other segment alone. */
  lemma SortStep(es: seq<Edge>, cum: seq<nat>, n: nat, i: nat, before: seq<nat>, after: seq<nat>)
    requires Offsets(es, cum, n) && i < n && |before| == |after| == 2 * |es|
    requires forall u :: 0 <= u < i ==> SegDone(before, cum, es, u)
    requires forall u :: i <= u < n ==> SegRaw(before, cum, es, u)
    requires forall j :: 0 <= j < |after| && !(cum[i] <= j < cum[i + 1]) ==> after[j] == before[j]
    requires Ascending(after[cum[i]..cum[i + 1]])
    requires multiset(after[cum[i]..cum[i + 1]]) == multiset(before[cum[i]..cum[i + 1]])
    ensures forall u :: 0 <= u <= i ==> SegDone(after, cum, es, u)
    ensures forall u :: i < u < n ==> SegRaw(after, cum, es, u)
  {
    forall u | 0 <= u < n && u != i
      ensures after[cum[u]..cum[u + 1]] == before[cum[u]..cum[u + 1]]
    {
      OtherSegments(cum, n, i, before, after, u);
    }
    assert SegRaw(before, cum, es, i);
    forall u | 0 <= u <= i
      ensures SegDone(after, cum, es, u)
    {
      if u < i {
        assert SegDone(before, cum, es, u);
      }
    }
    forall u | i < u < n
      ensures SegRaw(after, cum, es, u)
    {
      assert SegRaw(before, cum, es, u);
    }
  }

  /** Sorts every segment ascending, keeping its elements. */
  method SortSegments(ghost es: seq<Edge>, cum: array<nat>, nbr: array<nat>, n: nat)
    requires cum.Length == n + 1 && Offsets(es, cum[..], n) && nbr.Length == 2 * |es| && cum != nbr
    requires forall x :: 0 <= x < n ==> SegRaw(nbr[..], cum[..], es, x)
    requires forall j :: 0 <= j < nbr.Length ==> nbr[j] < n
    modifies nbr
    ensures forall u :: 0 <= u < n ==> SegDone(nbr[..], cum[..], es, u)
    ensures forall j :: 0 <= j < nbr.Length ==> nbr[j] < n
  {
    var i := 0;
    while i < n
      invariant 0 <= i <= n
      invariant forall u :: 0 <= u < i ==> SegDone(nbr[..], cum[..], es, u)
      invariant forall u :: i <= u < n ==> SegRaw(nbr[..], cum[..], es, u)
      invariant forall j :: 0 <= j < nbr.Length ==> nbr[j] < n
    {
      ghost var before := nbr[..];
      assert cum[i + 1] <= cum[n];
      SortSegment(nbr, cum[i], cum[i + 1], ById);
      SortedByIdAscending(nbr[cum[i]..cum[i + 1]]);
      SortStep(es, cum[..], n, i, before, nbr[..]);
      PermutedBelow(before, nbr[..], cum[i], cum[i + 1], n);
      i := i + 1;
    }
  }

  /**
   * A compact graph whose segments hold, in some order, the neighbours read
   * off a list of edges is well formed and symmetric.
   */
  lemma CompactSymmetric(es: seq<Edge>, n: nat, cum: seq<nat>, adj: seq<nat>)
    requires EdgesWithin(es, n) && Offsets(es, cum, n) && |adj| == 2 * |es|
    requires forall j :: 0 <= j < |adj| ==> adj[j] < n
    requires forall u :: 0 <= u < n ==> SegDone(adj, cum, es, u)
    ensures Wf(Csr(n, cum, adj)) && Symmetric(Csr(n, cum, adj))
  {
    var g := Csr(n, cum, adj);
    assert Wf(g);
    forall a: nat, b: nat | Adj(g, a, b)
      ensures Adj(g, b, a)
    {
      assert SegDone(adj, cum, es, a);
      assert b in multiset(Nbrs(es, a));
      NbrsSymmetric(es, a, b);
      NbrsWithin(es, n, a);
      assert SegDone(adj, cum, es, b);
      assert a in multiset(adj[cum[b]..cum[b + 1]]);
    }
  }

  /** The steps of `mksparse`, on local arrays. */
  method Build(edges: array<Edge>, n: nat) returns (deg: array<nat>, cum: array<nat>, nbr: array<nat>, max: nat)
    requires EdgesWithin(edges[..], n)
    ensures fresh(deg) && fresh(cum) && fresh(nbr)
    ensures deg.Length == n && cum.Length == n + 1 && nbr.Length == 2 * edges.Length
    ensures forall x :: 0 <= x < n ==> deg[x] == Deg(edges[..], x)
    ensures Offsets(edges[..], cum[..], n)
    ensures forall x :: 0 <= x < n ==> deg[x] <= max
    ensures if n == 0 then max == 0 else exists x :: 0 <= x < n && deg[x] == max
    ensures forall j :: 0 <= j < nbr.Length ==> nbr[j] < n
    ensures forall u :: 0 <= u < n ==> SegDone(nbr[..], cum[..], edges[..], u)
  {
    ghost var es := edges[..];
    deg := CountDegrees(edges, n);
    cum, max := PrefixSums(deg);
    PrefixOfDegrees(es, cum[..], n);
    DegSumIsTwiceEdges(es, n);
    nbr := Scatter(edges, cum, deg);
    assert edges[..] == es;
    SortSegments(es, cum, nbr, n);
  }

  /** struct `sparse`. */
  class Sparse {
    /** Number of nodes. */
    const n: nat
    /** The edge list; its length is the number of edges `e`. */
    const edges: array<Edge>
    /** Maximum degree. */
    var md: nat
    /** origLabel[i] = original label of node i. */
    var origLabel: array<nat>
    /** d[i] = degree of node i. */
    var d: array<nat>
    /** Cumulative degrees, starting with 0; length n + 1. */
    var cd: array<nat>
    /** The neighbours of node u are adj[cd[u]..cd[u+1]). */
    var adj: array<nat>

    /** The compact graph as a value. */
    ghost function Compact(): Csr
      reads this, cd, adj
    {
      Csr(n, cd[..], adj[..])
    }

    /**
     * The structure as the edge-list reader hands it over: n is one more
     * than the largest id read, so every endpoint is below n.
     */
    constructor (n: nat, es: seq<Edge>)
      requires EdgesWithin(es, n)
      ensures this.n == n && edges[..] == es && fresh(edges)
    {
      this.n := n;
      edges := new Edge[|es|](i requires 0 <= i < |es| => es[i]);
      md := 0;
      origLabel := new nat[0];
      d := new nat[0];
      cd := new nat[0];
      adj := new nat[0];
    }

    /**
     * Relabels the nodes by non-increasing degree: newlabel is a
     * permutation, origLabel its inverse, every endpoint of every edge is
     * replaced by its new label, and degrees do not increase along the
     * new labels.
     */
    method DegOrd() returns (newlabel: array<nat>)
      requires EdgesWithin(edges[..], n)
      modifies this`origLabel, edges
      ensures fresh(origLabel) && fresh(newlabel)
      ensures IsPermutation(newlabel[..], n) && Inverse(newlabel[..], origLabel[..], n)
      ensures edges[..] == Relabel(old(edges[..]), newlabel[..])
      ensures EdgesWithin(edges[..], n)
      ensures forall i :: 0 <= i < n ==> Deg(edges[..], i) == Deg(old(edges[..]), origLabel[i])
      ensures forall i, j :: 0 <= i < j < n ==> Deg(edges[..], i) >= Deg(edges[..], j)
    {
      ghost var es := edges[..];
      var deg := CountDegrees(edges, n);
      var nodedeglist := SortByDegree(deg);
      var orig;
      newlabel, orig := Labels(nodedeglist, deg[..]);
      origLabel := orig;
      RelabelEdges(edges, newlabel);
      forall i | 0 <= i < n
        ensures Deg(edges[..], i) == Deg(es, origLabel[i]) == nodedeglist[i].deg
      {
        DegRelabel(es, newlabel[..], origLabel[i]);
      }
    }

    /**
     * Builds the compact adjacency of the current edge list: d holds the
     * degrees, cd their prefix sums, md the largest degree, and segment u
     * of adj holds, in ascending order, the other endpoint of every edge at
     * u (both directions of each edge; self-loops and repeated edges kept).
     */
    method MkSparse()
      requires EdgesWithin(edges[..], n)
      modifies this`md, this`d, this`cd, this`adj
      ensures fresh(d) && fresh(cd) && fresh(adj)
      ensures d.Length == n && cd.Length == n + 1 && adj.Length == 2 * edges.Length
      ensures forall x :: 0 <= x < n ==> d[x] == Deg(edges[..], x)
      ensures cd[0] == 0 && forall x :: 0 <= x < n ==> cd[x + 1] == cd[x] + d[x]
      ensures cd[n] == 2 * edges.Length
      ensures forall x :: 0 <= x < n ==> d[x] <= md
      ensures if n == 0 then md == 0 else exists x :: 0 <= x < n && d[x] == md
      ensures Wf(Compact()) && Symmetric(Compact())
      ensures forall u :: 0 <= u < n ==>
                Ascending(adj[cd[u]..cd[u + 1]]) && multiset(adj[cd[u]..cd[u + 1]]) == multiset(Nbrs(edges[..], u))
    {
      var deg, cum, nbr, max := Build(edges, n);
      d, cd, adj, md := deg, cum, nbr, max;
      CompactSymmetric(edges[..], n, cd[..], adj[..]);
      forall u | 0 <= u < n
        ensures Ascending(adj[cd[u]..cd[u + 1]]) && multiset(adj[cd[u]..cd[u + 1]]) == multiset(Nbrs(edges[..], u))
      {
        assert SegDone(adj[..], cd[..], edges[..], u);
      }
    }
  }
}
