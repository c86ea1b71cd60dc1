/** The enumeration of K_n's edges and 4-cliques in the order
    `itertools.combinations(range(n), k)` yields them: lexicographic, one
    nested counter per chosen vertex (the same nesting as the i < j < k < s
    loops of `count_k4_mono`). */
module Enumeration {
  import opened Seqs
  import opened Graph

  /** Binomial coefficient C(m, k), by Pascal's rule. */
  function Choose(m: nat, k: nat): nat {
    if k == 0 then 1
    else if m == 0 then 0
    else Choose(m - 1, k - 1) + Choose(m - 1, k)
  }

  lemma {:induction false} ChooseOne(m: nat)
    ensures Choose(m, 1) == m
  {
    if m > 0 {
      ChooseOne(m - 1);
    }
  }

  /** C(m, 2) is the closed form m(m-1)/2 the scripts' `math.comb(n, 2)` gives. */
  lemma {:induction false} ChooseTwo(m: nat)
    ensures Choose(m, 2) == m * (m - 1) / 2
  {
    if m > 0 {
      ChooseTwo(m - 1);
      ChooseOne(m - 1);
      assert m * (m - 1) == (m - 1) * (m - 2) + 2 * (m - 1);
    }
  }

  // ---- Edges --------------------------------------------------------------

  /** Edges (u, v), (u, v+1), ..., (u, n-1). */
  function EdgeRow(u: nat, v: nat, n: nat): seq<Edge>
    decreases n - v
  {
    if v >= n then [] else [Edge(u, v)] + EdgeRow(u, v + 1, n)
  }

  /** Rows u, u+1, ..., n-1, each row starting at its diagonal. */
  function EdgeRows(u: nat, n: nat): seq<Edge>
    decreases n - u
  {
    if u >= n then [] else EdgeRow(u, u + 1, n) + EdgeRows(u + 1, n)
  }

  /** `list(G.edges())` for `nx.complete_graph(n)`, equal to
      `list(combinations(range(n), 2))`. */
  function AllEdges(n: nat): seq<Edge> {
    EdgeRows(0, n)
  }

  function EdgeSet(n: nat): set<Edge> {
    set e | e in AllEdges(n)
  }

  lemma {:induction false} EdgeRowFacts(u: nat, v: nat, n: nat)
    ensures forall e :: e in EdgeRow(u, v, n) <==> e.u == u && v <= e.v < n
    ensures Distinct(EdgeRow(u, v, n))
    ensures v <= n ==> |EdgeRow(u, v, n)| == n - v
    decreases n - v
  {
    if v < n {
      EdgeRowFacts(u, v + 1, n);
    }
  }

  lemma {:induction false} EdgeRowsFacts(u: nat, n: nat)
    ensures forall e :: e in EdgeRows(u, n) <==> u <= e.u < e.v < n
    ensures Distinct(EdgeRows(u, n))
    ensures u <= n ==> |EdgeRows(u, n)| == Choose(n - u, 2)
    decreases n - u
  {
    if u < n {
      EdgeRowFacts(u, u + 1, n);
      EdgeRowsFacts(u + 1, n);
      DistinctConcat(EdgeRow(u, u + 1, n), EdgeRows(u + 1, n));
      ChooseOne(n - u - 1);
    }
  }

  /** The edge list holds every edge of K_n exactly once: C(n, 2) of them. */
  lemma AllEdgesFacts(n: nat)
    ensures forall e :: e in AllEdges(n) <==> ValidEdge(e, n)
    ensures forall e :: e in EdgeSet(n) <==> ValidEdge(e, n)
    ensures Distinct(AllEdges(n))
    ensures |AllEdges(n)| == Choose(n, 2) == n * (n - 1) / 2
  {
    EdgeRowsFacts(0, n);
    ChooseTwo(n);
  }

  // ---- 4-cliques ----------------------------------------------------------

  function K4sD(a: nat, b: nat, c: nat, d: nat, n: nat): seq<K4>
    decreases n - d
  {
    if d >= n then [] else [K4(a, b, c, d)] + K4sD(a, b, c, d + 1, n)
  }

  function K4sC(a: nat, b: nat, c: nat, n: nat): seq<K4>
    decreases n - c
  {
    if c >= n then [] else K4sD(a, b, c, c + 1, n) + K4sC(a, b, c + 1, n)
  }

  function K4sB(a: nat, b: nat, n: nat): seq<K4>
    decreases n - b
  {
    if b >= n then [] else K4sC(a, b, b + 1, n) + K4sB(a, b + 1, n)
  }

  function K4sA(a: nat, n: nat): seq<K4>
    decreases n - a
  {
    if a >= n then [] else K4sB(a, a + 1, n) + K4sA(a + 1, n)
  }

  /** `list(combinations(G.nodes(), 4))`. */
  function AllK4s(n: nat): seq<K4> {
    K4sA(0, n)
  }

  function K4Set(n: nat): set<K4> {
    set q | q in AllK4s(n)
  }

  lemma {:induction false} K4sDFacts(a: nat, b: nat, c: nat, d: nat, n: nat)
    ensures forall q :: q in K4sD(a, b, c, d, n) <==> q.a == a && q.b == b && q.c == c && d <= q.d < n
    ensures Distinct(K4sD(a, b, c, d, n))
    ensures d <= n ==> |K4sD(a, b, c, d, n)| == Choose(n - d, 1)
    decreases n - d
  {
    if d < n {
      K4sDFacts(a, b, c, d + 1, n);
      ChooseOne(n - d);
      ChooseOne(n - d - 1);
    }
  }

  lemma {:induction false} K4sCFacts(a: nat, b: nat, c: nat, n: nat)
    ensures forall q :: q in K4sC(a, b, c, n) <==> q.a == a && q.b == b && c <= q.c < q.d < n
    ensures Distinct(K4sC(a, b, c, n))
    ensures c <= n ==> |K4sC(a, b, c, n)| == Choose(n - c, 2)
    decreases n - c
  {
    if c < n {
      K4sDFacts(a, b, c, c + 1, n);
      K4sCFacts(a, b, c + 1, n);
      DistinctConcat(K4sD(a, b, c, c + 1, n), K4sC(a, b, c + 1, n));
    }
  }

  lemma {:induction false} K4sBFacts(a: nat, b: nat, n: nat)
    ensures forall q :: q in K4sB(a, b, n) <==> q.a == a && b <= q.b < q.c < q.d < n
    ensures Distinct(K4sB(a, b, n))
    ensures b <= n ==> |K4sB(a, b, n)| == Choose(n - b, 3)
    decreases n - b
  {
    if b < n {
      K4sCFacts(a, b, b + 1, n);
      K4sBFacts(a, b + 1, n);
      DistinctConcat(K4sC(a, b, b + 1, n), K4sB(a, b + 1, n));
    }
  }

  lemma {:induction false} K4sAFacts(a: nat, n: nat)
    ensures forall q :: q in K4sA(a, n) <==> a <= q.a < q.b < q.c < q.d < n
    ensures Distinct(K4sA(a, n))
    ensures a <= n ==> |K4sA(a, n)| == Choose(n - a, 4)
    decreases n - a
  {
    if a < n {
      K4sBFacts(a, a + 1, n);
      K4sAFacts(a + 1, n);
      DistinctConcat(K4sB(a, a + 1, n), K4sA(a + 1, n));
    }
  }

  /** The clique list holds every 4-subset of [0, n) exactly once: C(n, 4)
      of them. */
  lemma AllK4sFacts(n: nat)
    ensures forall q :: q in AllK4s(n) <==> ValidK4(q, n)
    ensures forall q :: q in K4Set(n) <==> ValidK4(q, n)
    ensures Distinct(AllK4s(n))
    ensures |AllK4s(n)| == Choose(n, 4)
  {
    K4sAFacts(0, n);
  }
}
