/** How the per-probe scores of two scripts relate: makehui.py's
    probability of a colour is exactly half of the score test.py computes
    for the same probe, although the two visit the cliques through the edge
    in different orders. */
module Agreement {
  import opened Seqs
  import opened Graph
  import opened Enumeration
  import opened Score
  import opened EdgeIndex
  import opened GreedyUpdated
  import opened Sequential

  /** Taking one clique out of a list takes its penalty out of the sum. */
  lemma {:induction false} PenaltySumRemove(cur: Coloring, ys: seq<K4>, i: nat)
    requires i < |ys|
    ensures PenaltySum(cur, ys) == PenaltySum(cur, ys[..i] + ys[i + 1..]) + Penalty(cur, ys[i])
  {
    var init, last := ys[..|ys| - 1], ys[|ys| - 1];
    if i == |ys| - 1 {
      assert ys[..i] + ys[i + 1..] == init;
    } else {
      assert ys[..i] + ys[i + 1..] == (init[..i] + init[i + 1..]) + [last];
      PenaltySumRemove(cur, init, i);
    }
  }

  /** Two lists without repeats holding the same cliques have the same
      penalty sum, whatever their order. */
  lemma {:induction false} PenaltySumReorder(cur: Coloring, xs: seq<K4>, ys: seq<K4>)
    requires Distinct(xs) && Distinct(ys)
    requires forall q :: q in xs <==> q in ys
    ensures PenaltySum(cur, xs) == PenaltySum(cur, ys)
    decreases |xs|
  {
    if |xs| > 0 {
      var init, last := xs[..|xs| - 1], xs[|xs| - 1];
      assert xs == init + [last];
      assert last in ys;
      var i :| 0 <= i < |ys| && ys[i] == last;
      var rest := ys[..i] + ys[i + 1..];
      RemoveAt(ys, i);
      assert Distinct(init);
      assert last !in init;
      PenaltySumRemove(cur, ys, i);
      PenaltySumReorder(cur, init, rest);
    } else {
      HeadIsMember(ys);
    }
  }

  /** The filtered sum of test.py is the sum over the filtered list. */
  lemma {:induction false} PenaltyThroughIsSum(cur: Coloring, ks: seq<K4>, e: Edge)
    ensures PenaltyThrough(cur, ks, e) == PenaltySum(cur, K4sWith(ks, e))
  {
    if |ks| > 0 {
      var init, last := ks[..|ks| - 1], ks[|ks| - 1];
      PenaltyThroughIsSum(cur, init, e);
      if Contains(last, e) {
        assert K4sWith(ks, e)[..|K4sWith(ks, e)| - 1] == K4sWith(init, e);
      } else {
        assert K4sWith(ks, e) == K4sWith(init, e);
      }
    }
  }

  /** For every uncoloured edge of K_n and either colour, twice makehui's
      probability is test.py's score: both add up the penalties of the
      cliques through the edge once it has the colour, makehui halving
      each. So both scripts rank the two colours of an edge alike. */
  lemma ProbabilityIsHalfScore(n: nat, col: Coloring, e: Edge, c: Color)
    requires ValidEdge(e, n) && e !in col
    ensures 2 * ProbabilityEdgeColor(n, col, e, c) == ScoreForEdge(n, col, e, c)
  {
    var cur := col[e := c];
    var visited := VisitedCliques(Avoiding(AllEdges(n), e), e);
    ProbabilityIsHalfPenalty(n, col, e, c);
    AllK4sFacts(n);
    K4sWithFacts(AllK4s(n), e);
    SubScoresArePenalties(cur, AllK4s(n), n, e, c);
    PenaltyThroughIsSum(cur, AllK4s(n), e);
    PenaltySumReorder(cur, visited, K4sWith(AllK4s(n), e));
  }
}
