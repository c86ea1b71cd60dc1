/** Counting monochromatic cliques in a finished colouring, and the
    agreement of the scripts' different counting tests with it. */
module Evaluation {
  import opened Graph
  import opened Enumeration
  import opened Score

  /** `sum(1 for q in ks if p(q))`. */
  function CountWhere(ks: seq<K4>, p: K4 -> bool): nat {
    if |ks| == 0 then 0 else (if p(ks[0]) then 1 else 0) + CountWhere(ks[1..], p)
  }

  /** The number of monochromatic cliques of K_n under `col`. */
  function MonoCount(col: Coloring, n: nat): nat {
    CountWhere(AllK4s(n), q => IsMono(col, q))
  }

  /** Every edge of K_n is coloured. */
  predicate TotalColoring(col: Coloring, n: nat) {
    EdgeSet(n) <= col.Keys
  }

  /** Two tests that agree on every clique of `ks` count the same cliques. */
  lemma {:induction false} CountWhereAgree(ks: seq<K4>, p1: K4 -> bool, p2: K4 -> bool)
    requires forall q :: q in ks ==> p1(q) == p2(q)
    ensures CountWhere(ks, p1) == CountWhere(ks, p2)
  {
    if |ks| > 0 {
      CountWhereAgree(ks[1..], p1, p2);
    }
  }

  /** Counting one more clique at the end. */
  lemma {:induction false} CountWhereSnoc(ks: seq<K4>, q: K4, p: K4 -> bool)
    ensures CountWhere(ks + [q], p) == CountWhere(ks, p) + (if p(q) then 1 else 0)
  {
    if |ks| > 0 {
      assert (ks + [q])[1..] == ks[1..] + [q];
      CountWhereSnoc(ks[1..], q, p);
    }
  }

  /** A test that is the disjoint union of two tests counts their sum. */
  lemma {:induction false} CountWhereSplit(ks: seq<K4>, p: K4 -> bool, p1: K4 -> bool, p2: K4 -> bool)
    requires forall q :: q in ks ==> (p(q) <==> p1(q) || p2(q)) && !(p1(q) && p2(q))
    ensures CountWhere(ks, p) == CountWhere(ks, p1) + CountWhere(ks, p2)
  {
    if |ks| > 0 {
      CountWhereSplit(ks[1..], p, p1, p2);
    }
  }

  /** Under a total colouring every clique of K_n is fully coloured. */
  lemma TotalColorsEveryClique(col: Coloring, n: nat, q: K4)
    requires TotalColoring(col, n) && ValidK4(q, n)
    ensures FullyColored(col, q)
  {
    EdgesOfValid(q, n);
    AllEdgesFacts(n);
  }

  /** Any test that, on fully coloured cliques, holds exactly of the
      monochromatic ones counts the monochromatic cliques of a total
      colouring. */
  lemma CountsMono(col: Coloring, n: nat, p: K4 -> bool)
    requires TotalColoring(col, n)
    requires forall q :: ValidK4(q, n) && FullyColored(col, q) ==> (p(q) <==> IsMono(col, q))
    ensures CountWhere(AllK4s(n), p) == MonoCount(col, n)
  {
    AllK4sFacts(n);
    forall q | q in AllK4s(n)
      ensures p(q) == IsMono(col, q)
    {
      TotalColorsEveryClique(col, n, q);
    }
    CountWhereAgree(AllK4s(n), p, q => IsMono(col, q));
  }

  /** `sum(1 for k4 in all_k4s if k4_contributions[k4] > 0)`: with every
      edge coloured, and the cache exact on fully coloured cliques, the
      cliques with a positive score are exactly the monochromatic ones. */
  lemma PositiveScoresCountMono(m: map<K4, nat>, col: Coloring, n: nat)
    requires TotalColoring(col, n)
    requires forall q :: q in K4Set(n) ==> q in m
    requires forall q :: q in K4Set(n) && FullyColored(col, q) ==> m[q] == Penalty(col, q)
    ensures CountWhere(AllK4s(n), q => q in m && m[q] > 0) == MonoCount(col, n)
  {
    AllK4sFacts(n);
    forall q | ValidK4(q, n) && FullyColored(col, q)
      ensures (q in m && m[q] > 0) <==> IsMono(col, q)
    {
      PenaltyPositiveIffMono(col, q);
    }
    CountsMono(col, n, q => q in m && m[q] > 0);
  }
}
