/**
 * What `kmotif_rec` and `kmotif` compute, as functions of the compact graph,
 * and why it is the number of connected node sets of size k.
 *
 * The backtracking search keeps a chosen set S (motif[0..l)), a pool of
 * candidates (list[p[l-1]..q[l-1])) and a marked set M (the nodes with
 * r[x] == 1). Count follows the C recursion literally; CountIsFamily shows
 * that it counts the node sets T of size k - l that are disjoint from
 * M minus the pool and make S + T connected. Summed over the roots this is
 * the number of connected k-node sets, each counted once, from its
 * smallest node.
 */
module MotifSpec {
  import opened Graph

  // ---------------------------------------------------------------------
  // The search as the C code runs it

  /**
   * The nodes a neighbour scan appends to the candidate list: the entries
   * of seg that are not marked, each once, in the order of first occurrence
   * (a node is marked as soon as it is appended).
   */
  function Scan(seg: seq<nat>, M: set<nat>): (r: seq<nat>)
    ensures forall v :: v in r ==> v in seg && v !in M
    ensures Distinct(r)
    ensures forall v :: v in seg ==> v in M || v in r
  {
    if seg == [] then []
    else
      var a := Scan(seg[..|seg| - 1], M);
      var v := seg[|seg| - 1];
      assert seg == seg[..|seg| - 1] + [v];
      if v in M || v in a then a else a + [v]
  }

  /**
   * The amount `kmotif_rec` adds to *n at level l with candidate pool
   * `pool` and marked set M: the pool size at the last level, otherwise
   * the sum over the pool positions.
   */
  ghost function Count(g: Csr, k: nat, l: nat, pool: seq<nat>, M: set<nat>): nat
    requires Wf(g) && l < k && forall v :: v in pool ==> v < g.n
    decreases k - l, 1
  {
    if l == k - 1 then |pool| else CountFrom(g, k, l, pool, 0, M)
  }

  /** The unmarked neighbours of pool[i], which its choice appends and marks. */
  ghost function Fresh(g: Csr, pool: seq<nat>, i: nat, M: set<nat>): (r: seq<nat>)
    requires Wf(g) && i < |pool| && forall v :: v in pool ==> v < g.n
    ensures forall v :: v in r ==> v < g.n && v !in M
  {
    assert pool[i] in pool;
    Scan(Seg(g, pool[i]), M)
  }

  /** The pool one level down once pool[i] is chosen: the rest of the pool, then Fresh. */
  ghost function NextPool(g: Csr, pool: seq<nat>, i: nat, M: set<nat>): (r: seq<nat>)
    requires Wf(g) && i < |pool| && forall v :: v in pool ==> v < g.n
    ensures forall v :: v in r ==> v < g.n
  {
    var nw := Fresh(g, pool, i, M);
    var r := pool[i + 1..] + nw;
    assert forall v :: v in r ==> v < g.n by {
      forall v | v in r
        ensures v < g.n
      {
        if v in pool[i + 1..] {
          assert v in pool;
        } else {
          assert v in nw;
        }
      }
    }
    r
  }

  /**
   * The iterations i, i+1, ... of the loop at level l: node pool[i] is
   * chosen, the rest of the pool after it and its unmarked neighbours form
   * the next pool, and those neighbours are marked for the call below.
   */
  ghost function CountFrom(g: Csr, k: nat, l: nat, pool: seq<nat>, i: nat, M: set<nat>): nat
    requires Wf(g) && l < k - 1 && i <= |pool| && forall v :: v in pool ==> v < g.n
    decreases k - l, 0, |pool| - i
  {
    if i == |pool| then 0
    else
      Count(g, k, l + 1, NextPool(g, pool, i, M), M + Elems(Fresh(g, pool, i, M))) +
      CountFrom(g, k, l, pool, i + 1, M)
  }

  /** The first pool of root u: its neighbours above u (nodes 0..u are marked). */
  ghost function RootPool(g: Csr, u: nat): seq<nat>
    requires Wf(g) && u < g.n
  {
    Scan(Seg(g, u), Nodes(u + 1))
  }

  /** The amount added for root u. */
  ghost function RootCount(g: Csr, k: nat, u: nat): nat
    requires Wf(g) && 2 <= k && u < g.n
  {
    Count(g, k, 1, RootPool(g, u), Nodes(u + 1) + Elems(RootPool(g, u)))
  }

  /** The amounts added for the roots 0..m-1. */
  ghost function Total(g: Csr, k: nat, m: nat): nat
    requires Wf(g) && 2 <= k && m <= g.n
  {
    if m == 0 then 0 else Total(g, k, m - 1) + RootCount(g, k, m - 1)
  }

  // ---------------------------------------------------------------------
  // Connected node sets

  /** Some edge leaves C towards the rest of W. */
  ghost predicate Cut(g: Csr, W: set<nat>, C: set<nat>)
  {
    exists a, b :: a in C && b in W && b !in C && Adj(g, a, b)
  }

  /** W is nonempty and no split of W into two nonempty parts is edge-free. */
  ghost predicate Connected(g: Csr, W: set<nat>)
  {
    W != {} && forall C :: C <= W && C != {} && C != W ==> Cut(g, W, C)
  }

  /** t is a neighbour of some member of S. */
  ghost predicate Touches(g: Csr, S: set<nat>, t: nat)
  {
    exists s :: s in S && Adj(g, s, t)
  }

  /** The sets T of j nodes, none in X, that make S + T connected. */
  ghost function Family(g: Csr, S: set<nat>, X: set<nat>, j: nat): set<set<nat>>
  {
    set T | T <= Nodes(g.n) && |T| == j && T !! X && Connected(g, S + T)
  }

  /** The connected sets of k nodes. */
  ghost function ConnectedSets(g: Csr, k: nat): set<set<nat>>
  {
    set W | W <= Nodes(g.n) && |W| == k && Connected(g, W)
  }

  /** The connected sets of k nodes whose smallest node is u. */
  ghost function Rooted(g: Csr, k: nat, u: nat): set<set<nat>>
  {
    set W | W <= Nodes(g.n) && |W| == k && Connected(g, W) && u in W && W !! Nodes(u)
  }

  /** The connected sets of k nodes with a node below m. */
  ghost function Reaching(g: Csr, k: nat, m: nat): set<set<nat>>
  {
    set W | W <= Nodes(g.n) && |W| == k && Connected(g, W) && !(W !! Nodes(m))
  }

  /** Every set of F with x added. */
  ghost function AddToAll(F: set<set<nat>>, x: nat): set<set<nat>>
  {
    set T | T in F :: T + {x}
  }

  /** Every element of E as a one-element set. */
  ghost function Singletons(E: set<nat>): set<set<nat>>
  {
    set t | t in E :: {t}
  }

  /**
   * The state of the search at one level: S is connected and marked, the
   * pool is duplicate-free, marked, outside S and next to S, and every
   * neighbour of S is marked.
   */
  ghost predicate Frontier(g: Csr, S: set<nat>, pool: seq<nat>, M: set<nat>)
  {
    Wf(g) && Connected(g, S) && S <= M && M <= Nodes(g.n) && Distinct(pool) &&
    (forall v :: v in pool ==> v in M && v !in S && Touches(g, S, v)) &&
    (forall t :: Touches(g, S, t) ==> t in M)
  }

  // ---------------------------------------------------------------------
  // Connectivity lemmas

  lemma SingletonConnected(g: Csr, u: nat)
    ensures Connected(g, {u})
  {
    forall C | C <= {u} && C != {}
      ensures C == {u}
    {
      var x :| x in C;
      assert x == u;
    }
  }

  /** Adding a neighbour of a connected set keeps it connected. */
  lemma ConnectedAdd(g: Csr, S: set<nat>, t: nat)
    requires Symmetric(g) && Connected(g, S) && t !in S && Touches(g, S, t)
    ensures Connected(g, S + {t})
  {
    var W := S + {t};
    var s :| s in S && Adj(g, s, t);
    forall C | C <= W && C != {} && C != W
      ensures Cut(g, W, C)
    {
      if t in C {
        var C' := C - {t};
        if C' == {} {
          assert C == {t};
          assert t in C && s in W && s !in C && Adj(g, t, s);
        } else {
          var w :| w in W && w !in C;
          assert w in S && w !in C';
          assert Cut(g, S, C');
          var a, b :| a in C' && b in S && b !in C' && Adj(g, a, b);
          assert a in C && b in W && b !in C;
        }
      } else {
        if C == S {
          assert s in C && t in W && t !in C && Adj(g, s, t);
        } else {
          assert Cut(g, S, C);
          var a, b :| a in C && b in S && b !in C && Adj(g, a, b);
          assert b in W;
        }
      }
    }
  }

  /** A connected union of two disjoint nonempty parts has an edge between them. */
  lemma ConnectedSplit(g: Csr, S: set<nat>, T: set<nat>)
    requires Connected(g, S + T) && S !! T && S != {} && T != {}
    ensures exists t :: t in T && Touches(g, S, t)
  {
    var t0 :| t0 in T;
    assert t0 !in S;
    assert Cut(g, S + T, S);
    var a, b :| a in S && b in S + T && b !in S && Adj(g, a, b);
    assert b in T && Touches(g, S, b);
  }

  // ---------------------------------------------------------------------
  // Counting families of sets

  /** Adding an element that no set of F holds keeps the sets apart. */
  lemma {:induction false} AddElemCard(F: set<set<nat>>, x: nat)
    requires forall T :: T in F ==> x !in T
    ensures |AddToAll(F, x)| == |F|
    decreases |F|
  {
    if F != {} {
      var T0 :| T0 in F;
      var F' := F - {T0};
      AddElemCard(F', x);
      assert AddToAll(F, x) == AddToAll(F', x) + {T0 + {x}};
      forall T | T in F'
        ensures T + {x} != T0 + {x}
      {
        assert (T + {x}) - {x} == T;
        assert (T0 + {x}) - {x} == T0;
      }
    }
  }

  lemma {:induction false} SingletonsCard(E: set<nat>)
    ensures |Singletons(E)| == |E|
    decreases |E|
  {
    if E != {} {
      var t :| t in E;
      SingletonsCard(E - {t});
      assert Singletons(E) == Singletons(E - {t}) + {{t}};
      forall x | x in E - {t}
        ensures {x} != {t}
      {
        assert t !in {x};
      }
    }
  }

  /** A set through u is a set for S + {u} one node smaller, with u added. */
  lemma SplitCover(g: Csr, S: set<nat>, X: set<nat>, u: nat, j: nat, T: set<nat>)
    requires u !in X && 1 <= j && T in Family(g, S, X, j)
    ensures T in Family(g, S, X + {u}, j) + AddToAll(Family(g, S + {u}, X + {u}, j - 1), u)
  {
    if u in T {
      var T' := T - {u};
      assert (S + {u}) + T' == S + T;
      assert T' in Family(g, S + {u}, X + {u}, j - 1);
      assert T == T' + {u};
    }
  }

  /** Adding u to a set that avoids X + {u} gives a set one larger that avoids X. */
  lemma AddOutside(T: set<nat>, u: nat, X: set<nat>)
    requires u !in X && T !! X + {u}
    ensures u !in T && |T + {u}| == |T| + 1 && (T + {u}) !! X
  {
    assert u in X + {u};
    forall x | x in T + {u}
      ensures x !in X
    {
      if x != u {
        assert x in T;
      }
    }
  }

  /** A set for S + {u} that avoids u, with u added, is a set for S. */
  lemma SplitBack(g: Csr, S: set<nat>, X: set<nat>, u: nat, j: nat, T: set<nat>)
    requires u < g.n && u !in X && 1 <= j && T in Family(g, S + {u}, X + {u}, j - 1)
    ensures T + {u} in Family(g, S, X, j)
  {
    AddOutside(T, u, X);
    assert S + (T + {u}) == (S + {u}) + T;
  }

  /**
   * The sets through u and the sets avoiding u: the ones through u are the
   * sets for S + {u} one node smaller, with u added.
   */
  lemma FamilySplit(g: Csr, S: set<nat>, X: set<nat>, u: nat, j: nat)
    requires u < g.n && u !in X && 1 <= j
    ensures |Family(g, S, X, j)| == |Family(g, S, X + {u}, j)| + |Family(g, S + {u}, X + {u}, j - 1)|
  {
    var A := Family(g, S, X + {u}, j);
    var B0 := Family(g, S + {u}, X + {u}, j - 1);
    var B := AddToAll(B0, u);
    forall T | T in Family(g, S, X, j)
      ensures T in A + B
    {
      SplitCover(g, S, X, u, j, T);
    }
    forall T | T in B0
      ensures T + {u} in Family(g, S, X, j)
    {
      SplitBack(g, S, X, u, j, T);
    }
    assert Family(g, S, X, j) == A + B;
    assert A * B == {};
    AddElemCard(B0, u);
  }

  /** With every neighbour of S excluded nothing can be added to S. */
  lemma FamilyEmpty(g: Csr, S: set<nat>, X: set<nat>, j: nat)
    requires Connected(g, S) && S <= X && 1 <= j
    requires forall t :: Touches(g, S, t) ==> t in X
    ensures Family(g, S, X, j) == {}
  {
    if T :| T in Family(g, S, X, j) {
      ConnectedSplit(g, S, T);
      assert false;
    }
  }

  /** A one-node set that connects to S is a pool node. */
  lemma LastCover(g: Csr, S: set<nat>, X: set<nat>, E: set<nat>, T: set<nat>)
    requires Connected(g, S) && S <= X && T in Family(g, S, X, 1)
    requires forall t :: Touches(g, S, t) ==> t in X + E
    ensures T in Singletons(E)
  {
    var t :| t in T;
    assert T == {t} by {
      assert |T - {t}| == 0;
    }
    ConnectedSplit(g, S, T);
    assert Touches(g, S, t);
  }

  /** A pool node alone is a one-node set that connects to S. */
  lemma LastBack(g: Csr, S: set<nat>, X: set<nat>, E: set<nat>, t: nat)
    requires Symmetric(g) && Connected(g, S) && X !! E && E <= Nodes(g.n)
    requires t in E && t !in S && Touches(g, S, t)
    ensures {t} in Family(g, S, X, 1)
  {
    ConnectedAdd(g, S, t);
    assert t in Nodes(g.n);
  }

  /** At the last level the sets of one node are the pool nodes. */
  lemma FamilyLast(g: Csr, S: set<nat>, X: set<nat>, E: set<nat>)
    requires Symmetric(g) && Connected(g, S) && S <= X && X !! E && E <= Nodes(g.n)
    requires forall t :: Touches(g, S, t) ==> t in X + E
    requires forall t :: t in E ==> t !in S && Touches(g, S, t)
    ensures Family(g, S, X, 1) == Singletons(E)
  {
    forall T | T in Family(g, S, X, 1)
      ensures T in Singletons(E)
    {
      LastCover(g, S, X, E, T);
    }
    forall T | T in Singletons(E)
      ensures T in Family(g, S, X, 1)
    {
      var t :| t in E && T == {t};
      LastBack(g, S, X, E, t);
    }
  }

  // ---------------------------------------------------------------------
  // The search counts connected sets

  lemma ElemsSplit(s: seq<nat>, i: nat)
    requires i < |s|
    ensures Elems(s[i..]) == {s[i]} + Elems(s[i + 1..])
  {
    assert s[i..] == [s[i]] + s[i + 1..];
  }

  lemma ElemsConcat(a: seq<nat>, b: seq<nat>)
    ensures Elems(a + b) == Elems(a) + Elems(b)
  {
  }

  /** A pool node after position i, or a new neighbour of u, is next to S + {u}. */
  lemma PoolStep(g: Csr, S: set<nat>, pool: seq<nat>, M: set<nat>, i: nat, u: nat, nw: seq<nat>, v: nat)
    requires Frontier(g, S, pool, M) && i < |pool| && u == pool[i] && u < g.n
    requires nw == Scan(Seg(g, u), M) && v in pool[i + 1..] + nw
    ensures v in M + Elems(nw) && v !in S + {u} && Touches(g, S + {u}, v)
  {
    if v in pool[i + 1..] {
      var j :| i + 1 <= j < |pool| && pool[j] == v;
      assert v in pool && v != u;
      var s :| s in S && Adj(g, s, v);
      assert s in S + {u};
    } else {
      assert v in nw;
      assert Adj(g, u, v);
    }
  }

  /** Every neighbour of S + {u} is marked once u's neighbours are. */
  lemma TouchStep(g: Csr, S: set<nat>, pool: seq<nat>, M: set<nat>, u: nat, nw: seq<nat>, t: nat)
    requires Frontier(g, S, pool, M) && u < g.n
    requires nw == Scan(Seg(g, u), M) && Touches(g, S + {u}, t)
    ensures t in M + Elems(nw)
  {
    var s :| s in S + {u} && Adj(g, s, t);
    if s != u {
      assert Touches(g, S, t);
    } else {
      assert t in Seg(g, u);
    }
  }

  /** Choosing pool[i] moves the search to a state of the same kind one level down. */
  lemma FrontierStep(g: Csr, S: set<nat>, pool: seq<nat>, M: set<nat>, i: nat, u: nat, nw: seq<nat>)
    requires Symmetric(g) && Frontier(g, S, pool, M) && i < |pool| && u == pool[i] && u < g.n
    requires nw == Scan(Seg(g, u), M)
    ensures Frontier(g, S + {u}, pool[i + 1..] + nw, M + Elems(nw))
  {
    assert u in pool;
    ConnectedAdd(g, S, u);
    DistinctConcat(pool[i + 1..], nw);
    forall v | v in pool[i + 1..] + nw
      ensures v in M + Elems(nw) && v !in S + {u} && Touches(g, S + {u}, v)
    {
      PoolStep(g, S, pool, M, i, u, nw, v);
    }
    forall t | Touches(g, S + {u}, t)
      ensures t in M + Elems(nw)
    {
      TouchStep(g, S, pool, M, u, nw, t);
    }
  }

  lemma DistinctConcat(a: seq<nat>, b: seq<nat>)
    requires Distinct(a) && Distinct(b) && forall v :: v in a ==> v !in b
    ensures Distinct(a + b)
  {
    forall i, j | 0 <= i < j < |a + b|
      ensures (a + b)[i] != (a + b)[j]
    {
      if i < |a| && j >= |a| {
        assert (a + b)[i] in a && (a + b)[j] in b;
      }
    }
  }

  /** The pool and mark bookkeeping of one step: the excluded set grows by u. */
  lemma ExcludedStep(M: set<nat>, pool: seq<nat>, i: nat, nw: seq<nat>)
    requires i < |pool| && Distinct(pool) && pool[i] in M && forall v :: v in nw ==> v !in M
    ensures (M + Elems(nw)) - Elems(pool[i + 1..] + nw) == M - Elems(pool[i + 1..])
    ensures M - Elems(pool[i + 1..]) == (M - Elems(pool[i..])) + {pool[i]}
  {
    ElemsConcat(pool[i + 1..], nw);
    ElemsSplit(pool, i);
    assert pool[i] !in Elems(pool[i + 1..]);
  }

  /**
   * The search at level l counts the sets of k - l nodes outside the
   * excluded set (marked and not in the pool) that connect to S.
   */
  lemma {:induction false} CountIsFamily(g: Csr, k: nat, l: nat, S: set<nat>, pool: seq<nat>, M: set<nat>)
    requires Symmetric(g) && Frontier(g, S, pool, M) && l < k
    ensures Count(g, k, l, pool, M) == |Family(g, S, M - Elems(pool), k - l)|
    decreases k - l, 1
  {
    if l == k - 1 {
      FamilyLast(g, S, M - Elems(pool), Elems(pool));
      SingletonsCard(Elems(pool));
      DistinctCard(pool);
    } else {
      CountFromIsFamily(g, k, l, S, pool, 0, M);
      assert pool[0..] == pool;
    }
  }

  lemma {:induction false} CountFromIsFamily(g: Csr, k: nat, l: nat, S: set<nat>, pool: seq<nat>, i: nat, M: set<nat>)
    requires Symmetric(g) && Frontier(g, S, pool, M) && l < k - 1 && i <= |pool|
    ensures CountFrom(g, k, l, pool, i, M) == |Family(g, S, M - Elems(pool[i..]), k - l)|
    decreases k - l, 0, |pool| - i, 2
  {
    PoolWithin(g, S, pool, M);
    if i == |pool| {
      PoolDone(g, S, pool, M, k - l);
    } else {
      ChooseIsFamily(g, k, l, S, pool, i, M);
    }
  }

  /** Pool nodes are nodes of the graph. */
  lemma PoolWithin(g: Csr, S: set<nat>, pool: seq<nat>, M: set<nat>)
    requires Frontier(g, S, pool, M)
    ensures forall v :: v in pool ==> v < g.n
  {
    forall v | v in pool
      ensures v < g.n
    {
      assert v in M && v in Nodes(g.n);
    }
  }

  /** Once the whole pool is chosen or skipped, no set is left to count. */
  lemma PoolDone(g: Csr, S: set<nat>, pool: seq<nat>, M: set<nat>, j: nat)
    requires Frontier(g, S, pool, M) && 1 <= j
    ensures Family(g, S, M - Elems(pool[|pool|..]), j) == {}
  {
    assert Elems(pool[|pool|..]) == {};
    FamilyEmpty(g, S, M - Elems(pool[|pool|..]), j);
  }

  /** One iteration: the sets containing pool[i] plus those counted from i + 1. */
  lemma {:induction false} ChooseIsFamily(g: Csr, k: nat, l: nat, S: set<nat>, pool: seq<nat>, i: nat, M: set<nat>)
    requires Symmetric(g) && Frontier(g, S, pool, M) && l < k - 1 && i < |pool|
    ensures CountFrom(g, k, l, pool, i, M) == |Family(g, S, M - Elems(pool[i..]), k - l)|
    decreases k - l, 0, |pool| - i, 1
  {
    assert forall v :: v in pool ==> v < g.n;
    var u := pool[i];
    var next, M' := NextPool(g, pool, i, M), M + Elems(Fresh(g, pool, i, M));
    CountFromStep(g, k, l, pool, i, M);
    ChooseFrontier(g, S, pool, M, i);
    CountIsFamily(g, k, l + 1, S + {u}, next, M');
    CountFromIsFamily(g, k, l, S, pool, i + 1, M);
    ChooseSplit(g, S, pool, M, i, k - l);
  }

  /** One iteration of the loop at level l, as CountFrom counts it. */
  lemma CountFromStep(g: Csr, k: nat, l: nat, P: seq<nat>, t: nat, M: set<nat>)
    requires Wf(g) && l < k - 1 && t < |P| && forall v :: v in P ==> v < g.n
    ensures CountFrom(g, k, l, P, t, M) ==
      Count(g, k, l + 1, NextPool(g, P, t, M), M + Elems(Fresh(g, P, t, M))) + CountFrom(g, k, l, P, t + 1, M)
  {
  }

  /** Choosing pool[i] next leaves a frontier for the search one level below. */
  lemma ChooseFrontier(g: Csr, S: set<nat>, pool: seq<nat>, M: set<nat>, i: nat)
    requires Symmetric(g) && Frontier(g, S, pool, M) && i < |pool|
    ensures Frontier(g, S + {pool[i]}, NextPool(g, pool, i, M), M + Elems(Fresh(g, pool, i, M)))
  {
    var u := pool[i];
    assert u in pool;
    var nw := Scan(Seg(g, u), M);
    assert Fresh(g, pool, i, M) == nw && NextPool(g, pool, i, M) == pool[i + 1..] + nw;
    FrontierStep(g, S, pool, M, i, u, nw);
  }

  /**
   * The sets counted from pool[i] on split into those containing pool[i]
   * (counted one level below) and those avoiding it (counted from i + 1).
   */
  lemma ChooseSplit(g: Csr, S: set<nat>, pool: seq<nat>, M: set<nat>, i: nat, j: nat)
    requires Frontier(g, S, pool, M) && i < |pool| && 1 <= j
    ensures |Family(g, S, M - Elems(pool[i..]), j)| ==
            |Family(g, S, M - Elems(pool[i + 1..]), j)| +
            |Family(g, S + {pool[i]}, (M + Elems(Fresh(g, pool, i, M))) - Elems(NextPool(g, pool, i, M)), j - 1)|
  {
    var u := pool[i];
    assert u in pool;
    ExcludedStep(M, pool, i, Scan(Seg(g, u), M));
    FamilySplit(g, S, M - Elems(pool[i..]), u, j);
  }

  /** The search state when root u is chosen and its first pool scanned. */
  lemma RootFrontier(g: Csr, u: nat)
    requires Wf(g) && u < g.n
    ensures Frontier(g, {u}, RootPool(g, u), Nodes(u + 1) + Elems(RootPool(g, u)))
    ensures (Nodes(u + 1) + Elems(RootPool(g, u))) - Elems(RootPool(g, u)) == Nodes(u + 1)
  {
    var P0 := RootPool(g, u);
    var M0 := Nodes(u + 1) + Elems(P0);
    SingletonConnected(g, u);
    forall v | v in P0
      ensures v in M0 && v !in {u} && Touches(g, {u}, v)
    {
      assert v in Seg(g, u) && v !in Nodes(u + 1);
      assert Adj(g, u, v);
    }
    forall t | Touches(g, {u}, t)
      ensures t in M0
    {
      assert t in Seg(g, u);
    }
    forall v | v in Elems(P0)
      ensures v !in Nodes(u + 1)
    {
      assert v in P0;
    }
  }

  lemma RootCover(g: Csr, k: nat, u: nat, W: set<nat>)
    requires 2 <= k && W in Rooted(g, k, u)
    ensures W - {u} in Family(g, {u}, Nodes(u + 1), k - 1) && W == (W - {u}) + {u}
  {
    var T := W - {u};
    assert {u} + T == W;
    forall x | x in T
      ensures x !in Nodes(u + 1)
    {
      assert x in W && x != u && x !in Nodes(u);
    }
  }

  lemma RootBack(g: Csr, k: nat, u: nat, T: set<nat>)
    requires 2 <= k && u < g.n && T in Family(g, {u}, Nodes(u + 1), k - 1)
    ensures T + {u} in Rooted(g, k, u)
  {
    assert T <= Nodes(g.n) && |T| == k - 1 && T !! Nodes(u + 1) && Connected(g, {u} + T);
    AddRoot(g, k, u, T);
  }

  lemma AddRoot(g: Csr, k: nat, u: nat, T: set<nat>)
    requires 2 <= k && u < g.n && T <= Nodes(g.n) && |T| == k - 1 && T !! Nodes(u + 1) && Connected(g, {u} + T)
    ensures T + {u} in Rooted(g, k, u)
  {
    var W := T + {u};
    assert Nodes(u + 1) == Nodes(u) + {u};
    AddOutside(T, u, Nodes(u));
    assert W == {u} + T;
    assert Connected(g, W);
    assert u in Nodes(g.n);
    assert W <= Nodes(g.n) && |W| == k;
  }

  /** The connected k-sets rooted at u are the sets found below root u, with u added. */
  lemma RootedIsAdded(g: Csr, k: nat, u: nat)
    requires 2 <= k && u < g.n
    ensures Rooted(g, k, u) == AddToAll(Family(g, {u}, Nodes(u + 1), k - 1), u)
  {
    var F := Family(g, {u}, Nodes(u + 1), k - 1);
    forall W | W in Rooted(g, k, u)
      ensures W in AddToAll(F, u)
    {
      RootCover(g, k, u, W);
    }
    forall W | W in AddToAll(F, u)
      ensures W in Rooted(g, k, u)
    {
      var T :| T in F && W == T + {u};
      RootBack(g, k, u, T);
    }
  }

  /** The search below root u counts the sets of k - 1 nodes above u that connect to u. */
  lemma RootSearch(g: Csr, k: nat, u: nat)
    requires Wf(g) && Symmetric(g) && 2 <= k && u < g.n
    ensures Count(g, k, 1, RootPool(g, u), Nodes(u + 1) + Elems(RootPool(g, u))) == |Family(g, {u}, Nodes(u + 1), k - 1)|
  {
    var P0 := RootPool(g, u);
    var M0 := Nodes(u + 1) + Elems(P0);
    RootFrontier(g, u);
    CountIsFamily(g, k, 1, {u}, P0, M0);
  }

  /** Root u counts the connected k-sets whose smallest node is u. */
  lemma RootIsRooted(g: Csr, k: nat, u: nat)
    requires Wf(g) && Symmetric(g) && 2 <= k && u < g.n
    ensures RootCount(g, k, u) == |Rooted(g, k, u)|
  {
    RootSearch(g, k, u);
    RootedIsAdded(g, k, u);
    var F := Family(g, {u}, Nodes(u + 1), k - 1);
    forall T | T in F
      ensures u !in T
    {
      assert u in Nodes(u + 1);
    }
    AddElemCard(F, u);
  }

  /** The roots 0..m-1 together count the connected k-sets with a node below m. */
  lemma {:induction false} TotalIsReaching(g: Csr, k: nat, m: nat)
    requires Wf(g) && Symmetric(g) && 2 <= k && m <= g.n
    ensures Total(g, k, m) == |Reaching(g, k, m)|
  {
    if m == 0 {
      assert Reaching(g, k, 0) == {};
    } else {
      TotalIsReaching(g, k, m - 1);
      RootIsRooted(g, k, m - 1);
      forall W | W in Reaching(g, k, m)
        ensures W in Reaching(g, k, m - 1) + Rooted(g, k, m - 1)
      {
        if W !! Nodes(m - 1) {
          var x :| x in W && x in Nodes(m);
          assert x == m - 1;
        }
      }
      assert Reaching(g, k, m) == Reaching(g, k, m - 1) + Rooted(g, k, m - 1);
      assert Reaching(g, k, m - 1) * Rooted(g, k, m - 1) == {};
    }
  }

  /**
   * The number `kmotif` returns is the number of connected sets of k
   * nodes: every such set is counted exactly once.
   */
  lemma TotalIsConnectedSets(g: Csr, k: nat)
    requires Wf(g) && Symmetric(g) && 2 <= k
    ensures Total(g, k, g.n) == |ConnectedSets(g, k)|
  {
    TotalIsReaching(g, k, g.n);
    forall W | W in ConnectedSets(g, k)
      ensures W in Reaching(g, k, g.n)
    {
      var x :| x in W;
      assert x in W * Nodes(g.n);
    }
    assert Reaching(g, k, g.n) == ConnectedSets(g, k);
  }
}
