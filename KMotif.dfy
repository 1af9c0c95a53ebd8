/**
 * The backtracking counter of kmotif.c: the work arrays of `special`, the
 * neighbour scan that fills the candidate list, the recursion `kmotif_rec`
 * and the driver `kmotif`. Each method is proved against the search
 * functions of MotifSpec, and the driver's result is the number of
 * connected node sets of size k.
 */
module KMotif {
  import opened Graph
  import opened MotifSpec

  /** r marks exactly the nodes of M. */
  ghost predicate Marks(r: seq<bool>, M: set<nat>)
  {
    (forall x :: 0 <= x < |r| ==> (r[x] <==> x in M)) &&
    (forall x :: x in M ==> x < |r|)
  }

  /** The used part of the candidate list: duplicate-free and all marked. */
  ghost predicate Listed(s: seq<nat>, M: set<nat>)
  {
    Distinct(s) && forall v :: v in s ==> v in M
  }

  /** Two mark arrays of the same length that mark the same set are equal. */
  lemma MarksUnique(r1: seq<bool>, r2: seq<bool>, M: set<nat>)
    requires Marks(r1, M) && Marks(r2, M) && |r1| == |r2|
    ensures r1 == r2
  {
    forall x | 0 <= x < |r1|
      ensures r1[x] == r2[x]
    {
      assert r1[x] <==> x in M;
    }
  }

  /** One more adjacency entry read by the scan: the entry is appended unless it is marked. */
  lemma ScanStep(s: seq<nat>, a: nat, j: nat, M: set<nat>)
    requires a <= j < |s|
    ensures Scan(s[a..j + 1], M) ==
      var A := Scan(s[a..j], M); if s[j] in M || s[j] in A then A else A + [s[j]]
  {
    assert s[a..j + 1][..j - a] == s[a..j];
    assert s[a..j + 1][j - a] == s[j];
  }

  /** Choosing position i of the pool: the pool below is the rest of the pool and the new neighbours. */
  lemma PoolAfter(L: seq<nat>, P: seq<nat>, lo: nat, i: nat, hi: nat, nw: seq<nat>)
    requires lo <= i < hi <= |L| && P == L[lo..hi] && L[hi..] == nw
    ensures L[i + 1..] == P[i - lo + 1..] + nw
  {
    assert L[i + 1..] == L[i + 1..hi] + L[hi..];
    assert L[i + 1..hi] == P[i - lo + 1..];
  }

  /**
   * The state of the neighbour scan of u after adjacency entries
   * cd[u]..j: A is what it appended to the list L0, N what is marked.
   */
  ghost predicate ScanInv(g: Csr, u: nat, j: nat, M: set<nat>, L0: seq<nat>, A: seq<nat>, N: set<nat>,
                          rs: seq<bool>, ls: seq<nat>)
  {
    Wf(g) && u < g.n && |rs| == g.n && g.cd[u] <= j <= g.cd[u + 1] &&
    A == Scan(g.adj[g.cd[u]..j], M) && N == M + Elems(A) && ls == L0 + A &&
    Marks(rs, N) && Listed(ls, N)
  }

  /** A marked entry is skipped. */
  lemma ScanSkip(g: Csr, u: nat, j: nat, M: set<nat>, L0: seq<nat>, A: seq<nat>, N: set<nat>,
                 rs: seq<bool>, ls: seq<nat>)
    requires ScanInv(g, u, j, M, L0, A, N, rs, ls) && j < g.cd[u + 1] && rs[g.adj[j]]
    ensures ScanInv(g, u, j + 1, M, L0, A, N, rs, ls)
  {
    ScanStep(g.adj, g.cd[u], j, M);
  }

  /** An unmarked entry fits in the list, is appended and marked. */
  lemma ScanAdd(g: Csr, u: nat, j: nat, M: set<nat>, L0: seq<nat>, A: seq<nat>, N: set<nat>,
                rs: seq<bool>, ls: seq<nat>)
    requires ScanInv(g, u, j, M, L0, A, N, rs, ls) && j < g.cd[u + 1] && !rs[g.adj[j]]
    ensures |ls| < g.n
    ensures ScanInv(g, u, j + 1, M, L0, A + [g.adj[j]], N + {g.adj[j]}, rs[g.adj[j] := true], ls + [g.adj[j]])
  {
    var v := g.adj[j];
    ScanStep(g.adj, g.cd[u], j, M);
    RoomForOneMore(ls, g.n, v);
    assert v !in N && v !in ls;
    assert Listed(ls + [v], N + {v});
    assert Elems(A + [v]) == Elems(A) + {v};
  }

  /** The work arrays of the search (struct `special`). */
  class Special {
    /** The motif size. */
    const k: nat
    /** list[p[l]..q[l]) are the candidates for the node at position l + 1. */
    const p: array<nat>
    const q: array<nat>
    /** The candidate list, one slot per node. */
    const list: array<nat>
    /** r[x] is set when x must not be considered again. */
    const r: array<bool>
    /** The nodes chosen so far. */
    const motif: array<nat>

    ghost predicate Valid()
      reads this
    {
      p.Length == k && q.Length == k && motif.Length == k && list.Length == r.Length &&
      p != q && p != list && p != motif && q != list && q != motif && list != motif
    }

    /** allocspecial: p, q and motif of length k, list and r of length n, nothing marked. */
    constructor (n: nat, k: nat)
      ensures this.k == k && Valid() && list.Length == n
      ensures Marks(r[..], {})
      ensures fresh(p) && fresh(q) && fresh(list) && fresh(r) && fresh(motif)
    {
      this.k := k;
      p := new nat[k];
      q := new nat[k];
      list := new nat[n];
      r := new bool[n](_ => false);
      motif := new nat[k];
    }

    /**
     * Appends to the list, at q[l], every neighbour of u that is not marked
     * yet and marks it: the list grows by exactly Scan(Seg(g, u), M).
     */
    method ScanNeighbours(g: Csr, u: nat, l: nat, ghost M: set<nat>)
      requires Valid() && Wf(g) && g.n == list.Length && u < g.n && l < k
      requires Marks(r[..], M) && q[l] <= list.Length && Listed(list[..q[l]], M)
      modifies q, list, r
      ensures q[l] <= list.Length && list[..q[l]] == old(list[..q[l]]) + Scan(Seg(g, u), M)
      ensures Marks(r[..], M + Elems(Scan(Seg(g, u), M)))
      ensures Listed(list[..q[l]], M + Elems(Scan(Seg(g, u), M)))
      ensures forall j :: 0 <= j < k && j != l ==> q[j] == old(q[j])
    {
      ghost var L0 := list[..q[l]];
      ghost var A: seq<nat> := [];
      ghost var N := M;
      var j := g.cd[u];
      assert g.adj[g.cd[u]..j] == [];
      assert L0 + A == L0;
      while j < g.cd[u + 1]
        invariant q[l] <= list.Length
        invariant ScanInv(g, u, j, M, L0, A, N, r[..], list[..q[l]])
        invariant forall i :: 0 <= i < k && i != l ==> q[i] == old(q[i])
      {
        A, N := ScanEntry(g, u, j, l, M, L0, A, N);
        j := j + 1;
      }
    }

    /** The body of the scan loop for adjacency entry j of u. */
    method ScanEntry(g: Csr, u: nat, j: nat, l: nat, ghost M: set<nat>, ghost L0: seq<nat>, ghost A: seq<nat>, ghost N: set<nat>)
      returns (ghost A': seq<nat>, ghost N': set<nat>)
      requires Valid() && g.n == list.Length && l < k && q[l] <= list.Length
      requires ScanInv(g, u, j, M, L0, A, N, r[..], list[..q[l]]) && j < g.cd[u + 1]
      modifies q, list, r
      ensures q[l] <= list.Length && ScanInv(g, u, j + 1, M, L0, A', N', r[..], list[..q[l]])
      ensures forall i :: 0 <= i < k && i != l ==> q[i] == old(q[i])
    {
      ghost var rs, ls := r[..], list[..q[l]];
      var v := g.adj[j];
      if !r[v] {
        ScanAdd(g, u, j, M, L0, A, N, rs, ls);
        Append(v, l);
        A', N' := A + [v], N + {v};
      } else {
        ScanSkip(g, u, j, M, L0, A, N, rs, ls);
        A', N' := A, N;
      }
    }

    /** One appended candidate: list[q[l]] := v, q[l]++, r[v] := 1. */
    method Append(v: nat, l: nat)
      requires Valid() && l < k && v < r.Length && q[l] < list.Length
      modifies q, list, r
      ensures q[l] == old(q[l]) + 1 && list[..q[l]] == old(list[..q[l]]) + [v]
      ensures r[..] == old(r[..])[v := true]
      ensures forall i :: 0 <= i < k && i != l ==> q[i] == old(q[i])
    {
      ghost var L := list[..q[l]];
      list[q[l]] := v;
      r[v] := true;
      q[l] := q[l] + 1;
      assert list[..q[l]] == L + [v];
    }

    /**
     * Clears the marks of list[lo..hi), the neighbours one choice added:
     * the marked set is M again.
     */
    method Unmark(lo: nat, hi: nat, ghost M: set<nat>)
      requires Valid() && lo <= hi <= list.Length
      requires Distinct(list[lo..hi]) && Elems(list[lo..hi]) !! M
      requires Marks(r[..], M + Elems(list[lo..hi]))
      modifies r
      ensures Marks(r[..], M)
    {
      var j := lo;
      while j < hi
        invariant lo <= j <= hi
        invariant Marks(r[..], M + Elems(list[j..hi]))
      {
        ghost var rest := list[j..hi];
        assert rest == [list[j]] + list[j + 1..hi];
        assert list[j] !in list[j + 1..hi] by {
          assert list[lo..hi][j - lo] == list[j];
          assert forall t :: j + 1 <= t < hi ==> list[lo..hi][t - lo] == list[t];
        }
        assert list[j] in Elems(list[lo..hi]) by {
          assert list[lo..hi][j - lo] == list[j];
        }
        r[list[j]] := false;
        assert Elems(list[j + 1..hi]) == Elems(rest) - {list[j]};
        j := j + 1;
      }
    }

    /**
     * kmotif_rec at level l: nodes motif[0..l) are chosen, the candidates
     * P are list[p[l-1]..q[l-1]) and r marks M. It adds Count to the total and
     * leaves the marks and the used part of the list as it found them.
     */
    method Rec(g: Csr, l: nat, ghost M: set<nat>, ghost P: seq<nat>, n0: nat) returns (n: nat)
      requires Valid() && Wf(g) && g.n == list.Length && 1 <= l < k
      requires p[l - 1] <= q[l - 1] <= list.Length && P == list[p[l - 1]..q[l - 1]]
      requires Marks(r[..], M) && Listed(list[..q[l - 1]], M) && forall v :: v in P ==> v in M
      modifies p, q, list, r, motif
      decreases k - l, 1
      ensures n == n0 + Count(g, k, l, P, M)
      ensures r[..] == old(r[..])
      ensures list[..old(q[l - 1])] == old(list[..q[l - 1]])
      ensures forall j :: 0 <= j < l ==> p[j] == old(p[j]) && q[j] == old(q[j]) && motif[j] == old(motif[j])
    {
      var lo, hi := p[l - 1], q[l - 1];
      if l == k - 1 {
        n := n0 + (hi - lo);
      } else {
        ghost var L, R := list[..hi], r[..];
        n := n0;
        var i := lo;
        while i < hi
          invariant lo <= i <= hi && p[l - 1] == lo && q[l - 1] == hi
          invariant list[..hi] == L && r[..] == R
          invariant forall j :: 0 <= j < l ==> p[j] == old(p[j]) && q[j] == old(q[j]) && motif[j] == old(motif[j])
          invariant n + CountFrom(g, k, l, P, i - lo, M) == n0 + Count(g, k, l, P, M)
        {
          CountFromStep(g, k, l, P, i - lo, M);
          n := Choose(g, l, lo, hi, i, M, P, n);
          i := i + 1;
        }
      }
    }

    /**
     * One iteration of the loop of kmotif_rec: choose u = list[i], collect
     * its unmarked neighbours behind the list, recurse one level down and
     * clear their marks again.
     */
    method Choose(g: Csr, l: nat, lo: nat, hi: nat, i: nat, ghost M: set<nat>, ghost P: seq<nat>, n0: nat)
      returns (n: nat)
      requires Valid() && Wf(g) && g.n == list.Length && 1 <= l < k - 1
      requires lo == p[l - 1] && hi == q[l - 1] && lo <= i < hi <= list.Length && P == list[lo..hi]
      requires Marks(r[..], M) && Listed(list[..hi], M) && forall v :: v in P ==> v in M
      modifies p, q, list, r, motif
      decreases k - l, 0
      ensures n == n0 + Count(g, k, l + 1, NextPool(g, P, i - lo, M), M + Elems(Fresh(g, P, i - lo, M)))
      ensures r[..] == old(r[..]) && list[..hi] == old(list[..hi])
      ensures forall j :: 0 <= j < l ==> p[j] == old(p[j]) && q[j] == old(q[j]) && motif[j] == old(motif[j])
    {
      ghost var R := r[..];
      ghost var nw := Fresh(g, P, i - lo, M);
      ghost var next := NextPool(g, P, i - lo, M);
      var u := list[i];
      assert u == P[i - lo] && u in P;
      assert u < g.n by {
        assert u in M;
      }
      motif[l] := u;
      p[l] := i + 1;
      q[l] := q[l - 1];
      assert q[l] == hi && list[..q[l]] == old(list[..hi]);
      ScanNeighbours(g, u, l, M);
      var top := q[l];
      ghost var L' := list[..top];
      PoolAfter(L', P, lo, i, hi, nw);
      n := Rec(g, l + 1, M + Elems(nw), next, n0);
      assert list[..top] == L';
      UnmarkFresh(hi, top, M, nw, L');
      MarksUnique(r[..], R, M);
    }

    /** Unmark for the neighbours one choice appended at list[hi..top). */
    method UnmarkFresh(hi: nat, top: nat, ghost M: set<nat>, ghost nw: seq<nat>, ghost L: seq<nat>)
      requires Valid() && hi <= top <= list.Length && list[..top] == L && L[hi..] == nw
      requires Distinct(nw) && Elems(nw) !! M && Marks(r[..], M + Elems(nw))
      modifies r
      ensures Marks(r[..], M)
    {
      assert list[hi..top] == nw;
      Unmark(hi, top, M);
    }
  }

  /**
   * kmotif: every node u in turn is the root (the smallest node) of the
   * sets searched; nodes 0..u are marked while u is the root. The result is
   * Total, which for a symmetric graph is the number of connected k-sets.
   */
  method KMotif(g: Csr, k: nat) returns (n: nat)
    requires Wf(g) && 2 <= k < 256
    ensures n == Total(g, k, g.n)
    ensures Symmetric(g) ==> n == |ConnectedSets(g, k)|
  {
    var s := new Special(g.n, k);
    n := 0;
    var u := 0;
    while u < g.n
      invariant u <= g.n && s.Valid() && s.k == k && s.list.Length == g.n
      invariant fresh(s.p) && fresh(s.q) && fresh(s.list) && fresh(s.r) && fresh(s.motif)
      invariant Marks(s.r[..], Nodes(u))
      invariant n == Total(g, k, u)
    {
      n := Root(g, s, u, n);
      u := u + 1;
    }
    if Symmetric(g) {
      TotalIsConnectedSets(g, k);
    }
  }

  /** The body of the loop of kmotif for root u. */
  method Root(g: Csr, s: Special, u: nat, n0: nat) returns (n: nat)
    requires Wf(g) && 2 <= s.k && s.Valid() && s.list.Length == g.n && u < g.n
    requires Marks(s.r[..], Nodes(u))
    modifies s.p, s.q, s.list, s.r, s.motif
    ensures n == n0 + RootCount(g, s.k, u)
    ensures Marks(s.r[..], Nodes(u + 1))
  {
    s.r[u] := true;
    s.motif[0] := u;
    s.p[0] := 0;
    s.q[0] := 0;
    assert Marks(s.r[..], Nodes(u + 1));
    assert s.list[..0] == [];
    s.ScanNeighbours(g, u, 0, Nodes(u + 1));
    ghost var P0 := RootPool(g, u);
    ghost var M0 := Nodes(u + 1) + Elems(P0);
    var top := s.q[0];
    assert s.list[..top] == P0;
    assert s.list[0..top] == P0;
    n := s.Rec(g, 1, M0, P0, n0);
    s.UnmarkFresh(0, top, Nodes(u + 1), P0, P0);
  }
}
