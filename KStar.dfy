/**
 * The k-star bounds of kstarLBUB.c: the binomial `choose` and `kstar`,
 * which adds up over the nodes u of the compact graph C(d(u), k - 1) for the
 * upper bound and C(f(u), k - 1) for the lower bound, where d(u) is the
 * length of u's segment and f(u) the number of its entries larger than u.
 */
module KStar {
  import opened Graph
  import opened SparseGraph
  import opened MotifSpec

  // ---------------------------------------------------------------------
  // Binomial coefficients

  /** The binomial coefficient, by Pascal's rule. */
  function Binom(n: nat, j: nat): nat
  {
    if j == 0 then 1 else if n == 0 then 0 else Binom(n - 1, j - 1) + Binom(n - 1, j)
  }

  lemma {:induction false} BinomAbove(n: nat, j: nat)
    requires n < j
    ensures Binom(n, j) == 0
  {
    if n > 0 {
      BinomAbove(n - 1, j - 1);
      BinomAbove(n - 1, j);
    }
  }

  lemma {:induction false} BinomOne(n: nat)
    ensures Binom(n, 1) == n
  {
    if n > 0 {
      BinomOne(n - 1);
    }
  }

  /** x * (y + z) == x * y + x * z. */
  lemma Distrib(x: int, y: int, z: int)
    ensures x * (y + z) == x * y + x * z
  {
  }

  /** j * C(n, j) == n * C(n - 1, j - 1): the division in `choose` is exact. */
  lemma {:induction false} Absorption(n: nat, j: nat)
    requires 1 <= j && 1 <= n
    ensures j * Binom(n, j) == n * Binom(n - 1, j - 1)
    decreases n
  {
    if n == 1 {
      if j > 1 {
        BinomAbove(0, j - 1);
        BinomAbove(0, j);
      }
    } else if j == 1 {
      BinomOne(n);
    } else {
      var a, b := Binom(n - 1, j - 1), Binom(n - 1, j);
      var c, e := Binom(n - 2, j - 2), Binom(n - 2, j - 1);
      assert Binom(n, j) == a + b && a == c + e;
      Absorption(n - 1, j);
      Absorption(n - 1, j - 1);
      var i, m := j - 1, n - 1;
      assert j * b == m * e && i * a == m * c;
      calc {
        j * Binom(n, j);
        == { Distrib(j, a, b); }
        j * a + j * b;
        == { MulSucc(i, a); }
        i * a + a + j * b;
        == m * c + a + m * e;
        == { Distrib(m, c, e); }
        m * a + a;
        == { MulSucc(m, a); }
        n * a;
      }
    }
  }

  /** (x + 1) * y == x * y + y. */
  lemma MulSucc(x: int, y: int)
    ensures (x + 1) * y == x * y + y
  {
  }

  /** C(m, j) <= C(n, j) when m <= n. */
  lemma {:induction false} BinomMonotone(m: nat, n: nat, j: nat)
    requires m <= n
    ensures Binom(m, j) <= Binom(n, j)
    decreases n
  {
    if m < n && j > 0 {
      BinomMonotone(m, n - 1, j);
    }
  }

  /** j * m >= j for m >= 1. */
  lemma {:induction false} MulAtLeast(j: nat, m: nat)
    requires 1 <= m
    ensures j * m >= j
  {
    if m > 1 {
      MulAtLeast(j, m - 1);
      Distrib(j, m - 1, 1);
    }
  }

  /** A division with no remainder. */
  lemma DivExact(a: nat, j: nat, x: nat)
    requires 1 <= j && a == j * x
    ensures a / j == x
  {
    var q, r := a / j, a % j;
    assert a == j * q + r && 0 <= r < j;
    if q < x {
      MulAtLeast(j, x - q);
      Distrib(j, q, x - q);
    } else if q > x {
      MulAtLeast(j, q - x);
      Distrib(j, x, q - x);
    }
  }

  /** n - 1 in unsigned 32-bit arithmetic: 0 - 1 wraps to the largest value. */
  function Pred(n: nat): nat
  {
    if n == 0 then 0xFFFF_FFFF else n - 1
  }

  /**
   * One step of `choose`: n * C(n - 1, j - 1) / j is C(n, j). Once n falls
   * below j the factor C(n - 1, j - 1) is 0, and at n == 0 the factor n is.
   */
  lemma ChooseStep(n: nat, j: nat, c: nat)
    requires 1 <= j && c == Binom(Pred(n), j - 1)
    ensures (n * c) / j == Binom(n, j)
  {
    if j <= n {
      Absorption(n, j);
      DivExact(n * c, j, Binom(n, j));
    } else if n > 0 {
      BinomAbove(n - 1, j - 1);
      BinomAbove(n, j);
    }
  }

  /** choose(n, k): 1 for k == 0, else n * choose(n - 1, k - 1) / k. */
  function Choose(n: nat, j: nat): (r: nat)
    ensures r == Binom(n, j)
    decreases j
  {
    if j == 0 then 1
    else
      var c := Choose(Pred(n), j - 1);
      ChooseStep(n, j, c);
      (n * c) / j
  }

  /** The j-element subsets of X. */
  ghost function Subsets(X: set<nat>, j: nat): set<set<nat>>
  {
    set T | T <= X && |T| == j
  }

  /** C(|X|, j) counts the j-element subsets of X. */
  lemma {:induction false} SubsetsCard(X: set<nat>, j: nat)
    ensures |Subsets(X, j)| == Binom(|X|, j)
    decreases |X|
  {
    if j == 0 {
      forall T | T in Subsets(X, 0)
        ensures T == {}
      {
      }
      assert Subsets(X, 0) == {{}};
      assert |Subsets(X, j)| == 1 == Binom(|X|, j);
    } else if X == {} {
      forall T | T <= X
        ensures |T| == 0
      {
        assert T == {};
      }
      assert Subsets(X, j) == {};
      assert |Subsets(X, j)| == 0 == Binom(|X|, j);
    } else {
      var x :| x in X;
      var Y := X - {x};
      SubsetsCard(Y, j);
      SubsetsCard(Y, j - 1);
      SubsetsSplit(X, x, j);
      assert |X| == |Y| + 1;
      assert Binom(|X|, j) == Binom(|Y|, j - 1) + Binom(|Y|, j);
    }
  }

  /** The j-subsets of X either avoid x or are (j-1)-subsets of X - {x} with x added. */
  lemma SubsetsSplit(X: set<nat>, x: nat, j: nat)
    requires x in X && 1 <= j
    ensures |Subsets(X, j)| == |Subsets(X - {x}, j)| + |Subsets(X - {x}, j - 1)|
  {
    var Y := X - {x};
    var A, F := Subsets(Y, j), Subsets(Y, j - 1);
    var B := AddToAll(F, x);
    SubsetsCover(X, x, j);
    AddElemCard(F, x);
    assert A !! B;
    assert |A + B| == |A| + |B|;
  }

  /** The j-subsets of X are those of X - {x} and those of X - {x} of size j - 1 with x added. */
  lemma SubsetsCover(X: set<nat>, x: nat, j: nat)
    requires x in X && 1 <= j
    ensures Subsets(X, j) == Subsets(X - {x}, j) + AddToAll(Subsets(X - {x}, j - 1), x)
    ensures forall T :: T in AddToAll(Subsets(X - {x}, j - 1), x) ==> x in T
  {
    var Y := X - {x};
    var A, F := Subsets(Y, j), Subsets(Y, j - 1);
    var B := AddToAll(F, x);
    forall T | T in Subsets(X, j)
      ensures T in A + B
    {
      if x in T {
        assert T - {x} in F;
        assert T == (T - {x}) + {x};
      } else {
        assert T <= Y;
      }
    }
    forall T | T in B
      ensures T in Subsets(X, j) && x in T
    {
      var T0 :| T0 in F && T == T0 + {x};
      AddedSubset(X, x, j, T0);
    }
  }

  /** A (j-1)-subset of X - {x} with x added is a j-subset of X. */
  lemma AddedSubset(X: set<nat>, x: nat, j: nat, T0: set<nat>)
    requires x in X && 1 <= j && T0 in Subsets(X - {x}, j - 1)
    ensures T0 + {x} in Subsets(X, j)
  {
    assert x !in T0;
    assert T0 * {x} == {};
    assert |T0 + {x}| == |T0| + |{x}|;
  }

  // ---------------------------------------------------------------------
  // The bounds

  /** The number of entries of s larger than u. */
  function Above(s: seq<nat>, u: nat): (r: nat)
    ensures r <= |s|
  {
    if s == [] then 0 else Above(s[..|s| - 1], u) + (if s[|s| - 1] > u then 1 else 0)
  }

  /** The values in s larger than u. */
  ghost function Larger(s: seq<nat>, u: nat): set<nat>
  {
    set v | v in s && v > u
  }

  lemma AbovePush(s: seq<nat>, t: nat, u: nat)
    requires t < |s|
    ensures Above(s[..t + 1], u) == Above(s[..t], u) + (if s[t] > u then 1 else 0)
  {
    assert s[..t + 1][..t] == s[..t];
  }

  /** The entries after position t add at most one each. */
  lemma {:induction false} AboveAtMost(s: seq<nat>, t: nat, u: nat)
    requires t <= |s|
    ensures Above(s, u) <= Above(s[..t], u) + (|s| - t)
    decreases |s| - t
  {
    if t < |s| {
      AboveAtMost(s, t + 1, u);
      AbovePush(s, t, u);
    } else {
      assert s[..t] == s;
    }
  }

  /** Without a larger value repeated, Above counts the larger values. */
  lemma {:induction false} AboveCard(s: seq<nat>, u: nat)
    requires DistinctAbove(s, u)
    ensures |Larger(s, u)| == Above(s, u)
  {
    if s != [] {
      var f, x := s[..|s| - 1], s[|s| - 1];
      assert DistinctAbove(f, u);
      AboveCard(f, u);
      assert s == f + [x];
      LargerPush(f, x, u);
      assert x > u ==> x !in f;
    }
  }

  lemma LargerPush(f: seq<nat>, x: nat, u: nat)
    ensures Larger(f + [x], u) == Larger(f, u) + (if x > u then {x} else {})
  {
  }

  /** d(u): the length of u's segment. */
  ghost function Degree(g: Csr, u: nat): nat
    requires Wf(g) && u < g.n
  {
    |Seg(g, u)|
  }

  /** f(u): the entries of u's segment larger than u. */
  ghost function Up(g: Csr, u: nat): nat
    requires Wf(g) && u < g.n
  {
    Above(Seg(g, u), u)
  }

  /** The sum over u < m with d(u) >= j of C(d(u), j). */
  ghost function UpperBound(g: Csr, j: nat, m: nat): nat
    requires Wf(g) && m <= g.n
  {
    if m == 0 then 0
    else UpperBound(g, j, m - 1) + (if Degree(g, m - 1) >= j then Binom(Degree(g, m - 1), j) else 0)
  }

  /** The sum over u < m with f(u) >= j of C(f(u), j). */
  ghost function LowerBound(g: Csr, j: nat, m: nat): nat
    requires Wf(g) && m <= g.n
  {
    if m == 0 then 0
    else LowerBound(g, j, m - 1) + (if Up(g, m - 1) >= j then Binom(Up(g, m - 1), j) else 0)
  }

  /** The lower bound never exceeds the upper one. */
  lemma {:induction false} LowerBelowUpper(g: Csr, j: nat, m: nat)
    requires Wf(g) && m <= g.n
    ensures LowerBound(g, j, m) <= UpperBound(g, j, m)
  {
    if m > 0 {
      LowerBelowUpper(g, j, m - 1);
      BinomMonotone(Up(g, m - 1), Degree(g, m - 1), j);
    }
  }

  /**
   * Without repeated neighbours C(d(u), j) counts the j-sets of neighbours
   * of u (the stars of j + 1 nodes centred at u), and C(f(u), j) those whose
   * members are all larger than u.
   */
  lemma StarsAt(g: Csr, u: nat, j: nat)
    requires Wf(g) && u < g.n && Distinct(Seg(g, u))
    ensures Binom(Degree(g, u), j) == |Subsets(Elems(Seg(g, u)), j)|
    ensures Binom(Up(g, u), j) == |Subsets(Larger(Seg(g, u), u), j)|
  {
    DistinctCard(Seg(g, u));
    AboveCard(Seg(g, u), u);
    SubsetsCard(Elems(Seg(g, u)), j);
    SubsetsCard(Larger(Seg(g, u), u), j);
  }

  // ---------------------------------------------------------------------
  // What the bounds bound

  /** Every node of W other than c is a neighbour of c: W holds a star centred at c. */
  ghost predicate StarAt(g: Csr, W: set<nat>, c: nat)
  {
    c in W && forall w :: w in W && w != c ==> Adj(g, c, w)
  }

  /** The sets of k nodes made of a node below m and k - 1 of its neighbours. */
  ghost function StarsBelow(g: Csr, k: nat, m: nat): set<set<nat>>
  {
    set W | W <= Nodes(g.n) && |W| == k && exists c: nat :: c < m && StarAt(g, W, c)
  }

  /** The k-stars: the sets of k nodes made of a node and k - 1 of its neighbours. */
  ghost function KStars(g: Csr, k: nat): set<set<nat>>
  {
    StarsBelow(g, k, g.n)
  }

  /**
   * No segment lists a neighbour larger than its node twice: the edge list
   * repeated no edge between two different nodes (self-loops may repeat).
   */
  ghost predicate LargerOnce(g: Csr)
  {
    Wf(g) && forall u :: 0 <= u < g.n ==> DistinctAbove(Seg(g, u), u)
  }

  /** The sum over u < m of C(f'(u), j), where f'(u) counts u's distinct larger neighbours. */
  ghost function DistinctLowerBound(g: Csr, j: nat, m: nat): nat
    requires Wf(g) && m <= g.n
  {
    if m == 0 then 0
    else
      var f := |Larger(Seg(g, m - 1), m - 1)|;
      DistinctLowerBound(g, j, m - 1) + (if f >= j then Binom(f, j) else 0)
  }

  /** c added to every set of k - 1 neighbours of c other than c. */
  ghost function Centred(g: Csr, k: nat, c: nat): set<set<nat>>
    requires Wf(g) && 1 <= k && c < g.n
  {
    AddToAll(Subsets(Elems(Seg(g, c)) - {c}, k - 1), c)
  }

  /** c added to every set of k - 1 neighbours of c larger than c. */
  ghost function Rising(g: Csr, k: nat, c: nat): set<set<nat>>
    requires Wf(g) && 1 <= k && c < g.n
  {
    AddToAll(Subsets(Larger(Seg(g, c), c), k - 1), c)
  }

  /** Every star centred at c is c together with k - 1 neighbours of c other than c. */
  lemma StarsCentred(g: Csr, k: nat, c: nat)
    requires Wf(g) && 1 <= k && c < g.n
    ensures StarsBelow(g, k, c + 1) <= StarsBelow(g, k, c) + Centred(g, k, c)
  {
    forall W | W in StarsBelow(g, k, c + 1) && W !in StarsBelow(g, k, c)
      ensures W in Centred(g, k, c)
    {
      var c': nat :| c' < c + 1 && StarAt(g, W, c');
      assert c' == c;
      StarLeaves(g, k, c, W);
    }
  }

  /** A star W of k nodes centred at c is c added to the k - 1 neighbours W - {c}. */
  lemma StarLeaves(g: Csr, k: nat, c: nat, W: set<nat>)
    requires Wf(g) && 1 <= k && c < g.n && |W| == k && StarAt(g, W, c)
    ensures W in Centred(g, k, c)
  {
    var T := W - {c};
    assert T <= Elems(Seg(g, c)) - {c};
    assert W == T + {c};
  }

  /** With c as its smallest node, c and j of its larger neighbours make a star centred at c only. */
  lemma StarsRising(g: Csr, k: nat, c: nat)
    requires Wf(g) && 1 <= k && c < g.n
    ensures StarsBelow(g, k, c) + Rising(g, k, c) <= StarsBelow(g, k, c + 1)
    ensures StarsBelow(g, k, c) !! Rising(g, k, c)
  {
    forall W | W in Rising(g, k, c)
      ensures W in StarsBelow(g, k, c + 1) && W !in StarsBelow(g, k, c)
    {
      var T :| T in Subsets(Larger(Seg(g, c), c), k - 1) && W == T + {c};
      RisingStar(g, k, c, T);
    }
  }

  /** c and k - 1 of its larger neighbours make a star with centre c and no centre below c. */
  lemma RisingStar(g: Csr, k: nat, c: nat, T: set<nat>)
    requires Wf(g) && 1 <= k && c < g.n && T in Subsets(Larger(Seg(g, c), c), k - 1)
    ensures T + {c} in StarsBelow(g, k, c + 1) && T + {c} !in StarsBelow(g, k, c)
  {
    var W := T + {c};
    assert c !in T;
    assert StarAt(g, W, c);
    forall c': nat | c' < c
      ensures !StarAt(g, W, c')
    {
      assert c' !in W;
    }
  }

  /** C(d(c), k - 1) is at least the number of stars whose centre is c. */
  lemma CentredCard(g: Csr, k: nat, c: nat)
    requires Wf(g) && 1 <= k && c < g.n
    ensures |Centred(g, k, c)| <= (if Degree(g, c) >= k - 1 then Binom(Degree(g, c), k - 1) else 0)
  {
    var E, j := Elems(Seg(g, c)) - {c}, k - 1;
    AddElemCard(Subsets(E, j), c);
    SubsetsCard(E, j);
    ElemsCard(Seg(g, c));
    SubsetCard(E, Elems(Seg(g, c)));
    BinomMonotone(|E|, Degree(g, c), j);
    if Degree(g, c) < j {
      BinomAbove(Degree(g, c), j);
    }
  }

  /** C(f'(c), k - 1) is the number of stars made of c and larger neighbours. */
  lemma RisingCard(g: Csr, k: nat, c: nat)
    requires Wf(g) && 1 <= k && c < g.n
    ensures |Rising(g, k, c)| == Binom(|Larger(Seg(g, c), c)|, k - 1)
  {
    AddElemCard(Subsets(Larger(Seg(g, c), c), k - 1), c);
    SubsetsCard(Larger(Seg(g, c), c), k - 1);
  }

  /** A set covered by A and B has at most |A| + |B| elements. */
  lemma CoverCard<T>(X: set<T>, A: set<T>, B: set<T>)
    requires X <= A + B
    ensures |X| <= |A| + |B|
  {
    SubsetCard(X, A + B);
  }

  /** Two disjoint subsets of X have at most |X| elements together. */
  lemma PackCard<T>(X: set<T>, A: set<T>, B: set<T>)
    requires A + B <= X && A !! B
    ensures |A| + |B| <= |X|
  {
    SubsetCard(A + B, X);
  }

  /** Adding centre c adds at most C(d(c), j) stars. */
  lemma UpperStep(g: Csr, k: nat, c: nat)
    requires Wf(g) && 1 <= k && c < g.n
    ensures |StarsBelow(g, k, c + 1)| <= |StarsBelow(g, k, c)| + (if Degree(g, c) >= k - 1 then Binom(Degree(g, c), k - 1) else 0)
  {
    CentredCover(g, k, c);
    CentredCard(g, k, c);
  }

  /** Centre c adds at most as many stars as it has neighbour sets. */
  lemma CentredCover(g: Csr, k: nat, c: nat)
    requires Wf(g) && 1 <= k && c < g.n
    ensures |StarsBelow(g, k, c + 1)| <= |StarsBelow(g, k, c)| + |Centred(g, k, c)|
  {
    StarsCentred(g, k, c);
    CoverCard(StarsBelow(g, k, c + 1), StarsBelow(g, k, c), Centred(g, k, c));
  }

  /** Centre c adds at least as many stars as it has sets of larger neighbours. */
  lemma RisingPack(g: Csr, k: nat, c: nat)
    requires Wf(g) && 1 <= k && c < g.n
    ensures |StarsBelow(g, k, c)| + |Rising(g, k, c)| <= |StarsBelow(g, k, c + 1)|
  {
    StarsRising(g, k, c);
    PackCard(StarsBelow(g, k, c + 1), StarsBelow(g, k, c), Rising(g, k, c));
  }

  /** The upper sum over u < m is at least the number of stars centred below m. */
  lemma {:induction false} UpperCounts(g: Csr, k: nat, m: nat)
    requires Wf(g) && 1 <= k && m <= g.n
    ensures |StarsBelow(g, k, m)| <= UpperBound(g, k - 1, m)
  {
    if m == 0 {
      assert StarsBelow(g, k, 0) == {};
    } else {
      UpperCounts(g, k, m - 1);
      UpperStep(g, k, m - 1);
    }
  }

  /** The number of stars centred below m is at least the distinct lower sum over u < m. */
  lemma {:induction false} DistinctLowerCounts(g: Csr, k: nat, m: nat)
    requires Wf(g) && 1 <= k && m <= g.n
    ensures DistinctLowerBound(g, k - 1, m) <= |StarsBelow(g, k, m)|
  {
    if m > 0 {
      var c := m - 1;
      DistinctLowerCounts(g, k, c);
      RisingPack(g, k, c);
      RisingCard(g, k, c);
    }
  }

  /** Without a repeated larger neighbour f(u) is f'(u), so the two lower sums agree. */
  lemma {:induction false} LowerIsDistinct(g: Csr, j: nat, m: nat)
    requires LargerOnce(g) && m <= g.n
    ensures LowerBound(g, j, m) == DistinctLowerBound(g, j, m)
  {
    if m > 0 {
      LowerIsDistinct(g, j, m - 1);
      AboveCard(Seg(g, m - 1), m - 1);
    }
  }

  /** Counting each larger neighbour once, the lower sum is at most the number of k-stars. */
  lemma DistinctLowerBelowStars(g: Csr, k: nat)
    requires Wf(g) && 1 <= k
    ensures DistinctLowerBound(g, k - 1, g.n) <= |KStars(g, k)|
  {
    DistinctLowerCounts(g, k, g.n);
  }

  /**
   * The upper sum is at least the number of k-stars on every graph; when no
   * larger neighbour is listed twice the lower sum is at most that number.
   */
  lemma StarBounds(g: Csr, k: nat)
    requires Wf(g) && 1 <= k
    ensures LowerBound(g, k - 1, g.n) <= UpperBound(g, k - 1, g.n)
    ensures |KStars(g, k)| <= UpperBound(g, k - 1, g.n)
    ensures LargerOnce(g) ==> LowerBound(g, k - 1, g.n) == DistinctLowerBound(g, k - 1, g.n) <= |KStars(g, k)|
  {
    LowerBelowUpper(g, k - 1, g.n);
    UpperCounts(g, k, g.n);
    DistinctLowerCounts(g, k, g.n);
    if LargerOnce(g) {
      LowerIsDistinct(g, k - 1, g.n);
    }
  }

  /** The compact graph of the edge list (0, 1), (1, 0): one edge, listed from both ends. */
  ghost function Doubled(): Csr
  {
    Csr(2, [0, 2, 4], [1, 1, 0, 0])
  }

  /** Segment u of Doubled() is the neighbour list of u in that edge list. */
  lemma DoubledSegments()
    ensures Wf(Doubled()) && Seg(Doubled(), 0) == [1, 1] && Seg(Doubled(), 1) == [0, 0]
    ensures Seg(Doubled(), 0) == Nbrs([Edge(0, 1), Edge(1, 0)], 0)
    ensures Seg(Doubled(), 1) == Nbrs([Edge(0, 1), Edge(1, 0)], 1)
  {
    var es := [Edge(0, 1), Edge(1, 0)];
    assert es[..1] == [Edge(0, 1)] && es[..1][..0] == [];
  }

  /** Doubled() has one 2-star, {0, 1}. */
  lemma DoubledStars()
    ensures KStars(Doubled(), 2) == {{0, 1}}
  {
    var G := Doubled();
    DoubledSegments();
    assert Nodes(2) == {0, 1};
    assert StarAt(G, {0, 1}, 0);
    forall W | W in KStars(G, 2)
      ensures W == {0, 1}
    {
      if 0 !in W {
        SubsetCard(W, {1});
      } else if 1 !in W {
        SubsetCard(W, {0});
      }
    }
  }

  /**
   * With an edge listed twice, f(u) counts the repeated neighbour twice and
   * lb exceeds the number of k-stars: on Doubled() with k = 2, lb is 2 for
   * one 2-star, while counting each larger neighbour once gives 1.
   */
  lemma LowerOvershoots()
    ensures Wf(Doubled()) && LowerBound(Doubled(), 1, 2) == 2
    ensures |KStars(Doubled(), 2)| == 1 && DistinctLowerBound(Doubled(), 1, 2) == 1
  {
    DoubledSegments();
    DoubledStars();
    DoubledUp();
    DoubledLarger();
    BinomOne(2);
    BinomOne(1);
  }

  /** f(0) is 2 on Doubled(): the entry 1 is counted twice. */
  lemma DoubledUp()
    ensures Wf(Doubled()) && Up(Doubled(), 0) == 2 && Up(Doubled(), 1) == 0
  {
    DoubledSegments();
    assert [1, 1][..1] == [1] && [1][..0] == [];
    assert [0, 0][..1] == [0] && [0][..0] == [];
  }

  /** Node 0 of Doubled() has one distinct larger neighbour, node 1 none. */
  lemma DoubledLarger()
    ensures Wf(Doubled()) && |Larger(Seg(Doubled(), 0), 0)| == 1 && |Larger(Seg(Doubled(), 1), 1)| == 0
  {
    DoubledSegments();
    assert Larger([1, 1], 0) == {1} && Larger([0, 0], 1) == {};
  }

  // ---------------------------------------------------------------------
  // kstar

  /** The stored degree of every node is the length of its segment. */
  ghost predicate Degrees(g: Sparse)
    reads g, g.d, g.cd, g.adj
  {
    g.d.Length == g.n && g.cd.Length == g.n + 1 && Wf(g.Compact()) &&
    forall x :: 0 <= x < g.n ==> g.d[x] == g.cd[x + 1] - g.cd[x]
  }

  /**
   * kstar: ub and lb over all nodes, with k - 1 leaves per star; the work
   * array tab is all false again after each node.
   */
  method KStar(g: Sparse, k: nat) returns (ub: nat, lb: nat)
    requires 1 <= k < 256 && Degrees(g)
    ensures ub == UpperBound(g.Compact(), k - 1, g.n)
    ensures lb == LowerBound(g.Compact(), k - 1, g.n)
    ensures lb <= ub
    ensures |KStars(g.Compact(), k)| <= ub
    ensures LargerOnce(g.Compact()) ==> lb == DistinctLowerBound(g.Compact(), k - 1, g.n) <= |KStars(g.Compact(), k)|
  {
    ghost var G := g.Compact();
    var tab := new bool[g.n](_ => false);
    lb, ub := 0, 0;
    var u := 0;
    while u < g.n
      invariant u <= g.n && G == g.Compact()
      invariant forall x :: 0 <= x < tab.Length ==> !tab[x]
      invariant ub == UpperBound(G, k - 1, u) && lb == LowerBound(G, k - 1, u)
    {
      ub, lb := Star(g, G, tab, u, k, ub, lb);
      u := u + 1;
    }
    StarBounds(G, k);
  }

  /** The body of the loop of kstar for node u. */
  method Star(g: Sparse, ghost G: Csr, tab: array<bool>, u: nat, k: nat, ub0: nat, lb0: nat)
    returns (ub: nat, lb: nat)
    requires 1 <= k && Degrees(g) && G == g.Compact() && u < g.n && tab.Length == g.n
    requires forall x :: 0 <= x < tab.Length ==> !tab[x]
    modifies tab
    ensures forall x :: 0 <= x < tab.Length ==> !tab[x]
    ensures ub == ub0 + (if Degree(G, u) >= k - 1 then Binom(Degree(G, u), k - 1) else 0)
    ensures lb == lb0 + (if Up(G, u) >= k - 1 then Binom(Up(G, u), k - 1) else 0)
  {
    var d := g.d[u];
    ub, lb := ub0, lb0;
    if d >= k - 1 {
      ub := ub + Choose(d, k - 1);
    }
    if d >= k - 1 {
      Mark(g, G, tab, u);
      d := Excess(g, G, u, k);
      if d >= k - 1 {
        lb := lb + Choose(d, k - 1);
      }
      Clear(g, G, tab, u);
    } else {
      BinomAbove(Up(G, u), k - 1);
    }
  }

  /** Sets tab[v] for every entry v of u's segment. */
  method Mark(g: Sparse, ghost G: Csr, tab: array<bool>, u: nat)
    requires Degrees(g) && G == g.Compact() && u < g.n && tab.Length == g.n
    requires forall x :: 0 <= x < tab.Length ==> !tab[x]
    modifies tab
    ensures forall x :: 0 <= x < tab.Length ==> (tab[x] <==> x in Seg(G, u))
  {
    var lo, hi := g.cd[u], g.cd[u + 1];
    ghost var s := Seg(G, u);
    assert s[..0] == [];
    var i := lo;
    while i < hi
      invariant lo <= i <= hi
      invariant forall x :: 0 <= x < tab.Length ==> (tab[x] <==> x in s[..i - lo])
    {
      assert s[..i - lo + 1] == s[..i - lo] + [g.adj[i]];
      tab[g.adj[i]] := true;
      i := i + 1;
    }
    assert s[..hi - lo] == s;
  }

  /** Clears tab[v] for every entry v of u's segment, which leaves tab all false. */
  method Clear(g: Sparse, ghost G: Csr, tab: array<bool>, u: nat)
    requires Degrees(g) && G == g.Compact() && u < g.n && tab.Length == g.n
    requires forall x :: 0 <= x < tab.Length ==> (tab[x] ==> x in Seg(G, u))
    modifies tab
    ensures forall x :: 0 <= x < tab.Length ==> !tab[x]
  {
    var lo, hi := g.cd[u], g.cd[u + 1];
    ghost var s := Seg(G, u);
    assert s[0..] == s;
    var i := lo;
    while i < hi
      invariant lo <= i <= hi
      invariant forall x :: 0 <= x < tab.Length ==> (tab[x] ==> x in s[i - lo..])
    {
      assert s[i - lo..] == [g.adj[i]] + s[i - lo + 1..];
      tab[g.adj[i]] := false;
      i := i + 1;
    }
  }

  /**
   * The decrement loop of kstar for u with d(u) >= k - 1: d starts at d(u)
   * and loses one for every entry not larger than u, stopping once it falls
   * below k - 1. Whether it stops early or not, d >= k - 1 exactly when
   * f(u) >= k - 1, and then d == f(u); d never goes below zero.
   */
  method Excess(g: Sparse, ghost G: Csr, u: nat, k: nat) returns (d: nat)
    requires 1 <= k && Degrees(g) && G == g.Compact() && u < g.n && g.d[u] >= k - 1
    ensures d >= k - 1 <==> Up(G, u) >= k - 1
    ensures d >= k - 1 ==> d == Up(G, u)
  {
    ghost var s := Seg(G, u);
    var lo, hi := g.cd[u], g.cd[u + 1];
    d := g.d[u];
    assert s[..0] == [];
    var i := lo;
    while i < hi
      invariant lo <= i <= hi && d >= k - 1
      invariant d == Above(s[..i - lo], u) + (hi - i)
    {
      var v := g.adj[i];
      AbovePush(s, i - lo, u);
      if v <= u {
        d := d - 1;
        if d < k - 1 {
          AboveAtMost(s, i - lo + 1, u);
          break;
        }
      }
      i := i + 1;
    }
    if i == hi {
      assert s[..hi - lo] == s;
    }
  }
}
