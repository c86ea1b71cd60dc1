/** `greedy_coloring_updated` (test.py): no cache and no index. Each probe
    temporarily colours the edge, sums the scores of every clique of K_n
    holding both endpoints, and deletes the temporary colour again. */
module GreedyUpdated {
  import opened Wrappers
  import opened Seqs
  import opened Graph
  import opened Enumeration
  import opened Score
  import opened Evaluation
  import opened Selection

  /** `u in sg and v in sg`: the clique holds both endpoints of `e`. */
  predicate Holds(q: K4, e: Edge) {
    HasVertex(q, e.u) && HasVertex(q, e.v)
  }

  /** The loop of lines 17-30 over the cliques `ks`: the sub-score of each
      clique holding `e`, read from `cur`, in which `e` already carries `c`. */
  function SubScores(cur: Coloring, ks: seq<K4>, e: Edge, c: Color): nat {
    if |ks| == 0 then 0
    else SubScores(cur, ks[..|ks| - 1], e, c) + (if Holds(ks[|ks| - 1], e) then PolicyScore(cur, ks[|ks| - 1], c) else 0)
  }

  /** The reference: the colour-free penalties of the cliques of `ks` that
      contain `e`. */
  function PenaltyThrough(cur: Coloring, ks: seq<K4>, e: Edge): nat {
    if |ks| == 0 then 0
    else PenaltyThrough(cur, ks[..|ks| - 1], e) + (if Contains(ks[|ks| - 1], e) then Penalty(cur, ks[|ks| - 1]) else 0)
  }

  /** The score `calculate_score_for_edge` returns for the probe (e, c). */
  function ScoreForEdge(n: nat, col: Coloring, e: Edge, c: Color): nat {
    SubScores(col[e := c], AllK4s(n), e, c)
  }

  /** For a valid edge coloured `c`, the sub-scores over cliques of K_n are
      the penalties of the cliques through the edge. */
  lemma {:induction false} SubScoresArePenalties(cur: Coloring, ks: seq<K4>, n: nat, e: Edge, c: Color)
    requires ValidEdge(e, n) && e in cur && cur[e] == c
    requires forall q :: q in ks ==> ValidK4(q, n)
    ensures SubScores(cur, ks, e, c) == PenaltyThrough(cur, ks, e)
  {
    if |ks| > 0 {
      var q := ks[|ks| - 1];
      assert q in ks;
      assert forall q' :: q' in ks[..|ks| - 1] ==> q' in ks;
      SubScoresArePenalties(cur, ks[..|ks| - 1], n, e, c);
      EdgesOfValid(q, n);
      if Contains(q, e) {
        var k :| 0 <= k < 6 && EdgesOf(q)[k] == e;
        assert ColorsOf(cur, q)[k] == Some(c);
        PolicyIsPenalty(cur, q, c);
      }
    }
  }

  /** Lines 7-35: colour `e` with `c` in place, sum the sub-scores of the
      cliques holding its endpoints, then delete the entry for `e`. The score
      is the total penalty of the cliques through `e` once it has colour
      `c`; the colouring comes back as it was when `e` was uncoloured, and
      without `e` when it was not. */
  method CalculateScoreForEdge(n: nat, col: Coloring, e: Edge, c: Color) returns (score: nat, colAfter: Coloring)
    ensures score == ScoreForEdge(n, col, e, c)
    ensures ValidEdge(e, n) ==> score == PenaltyThrough(col[e := c], AllK4s(n), e)
    ensures e !in col ==> colAfter == col
    ensures e in col ==> colAfter == col - {e}
  {
    var cur := col[e := c];
    var ks := AllK4s(n);
    score := 0;
    var i := 0;
    while i < |ks|
      invariant 0 <= i <= |ks|
      invariant score == SubScores(cur, ks[..i], e, c)
    {
      assert ks[..i + 1][..i] == ks[..i];
      if Holds(ks[i], e) {
        score := score + PolicyScore(cur, ks[i], c);
      }
      i := i + 1;
    }
    assert ks[..i] == ks;
    colAfter := cur - {e};
    if ValidEdge(e, n) {
      AllK4sFacts(n);
      SubScoresArePenalties(cur, ks, n, e, c);
    }
  }

  /** The score of every probe, as a function value the selection can score
      with. */
  function ScoreOf(n: nat, col: Coloring): Probe -> int {
    (p: Probe) => ScoreForEdge(n, col, p.edge, p.color)
  }

  /** Lines 50-56 for one edge of the list: nothing if it is coloured,
      else both colours in the order 0, 1, each a temporary colour that
      `calculate_score_for_edge` deletes again. */
  method ProbeEdge(n: nat, col: Coloring, edge: Edge, ghost seen: seq<Probe>,
                   best: Option<Probe>, bestScore: int, ghost bi: nat)
    returns (best': Option<Probe>, bestScore': int, ghost bi': nat, colAfter: Coloring)
    requires BestSoFar(seen, ScoresOf(seen, ScoreOf(n, col)), best, bestScore, bi)
    ensures colAfter == col
    ensures var seen' := seen + (if edge in col then [] else [Probe(edge, 0), Probe(edge, 1)]);
      BestSoFar(seen', ScoresOf(seen', ScoreOf(n, col)), best', bestScore', bi')
  {
    var f := ScoreOf(n, col);
    best', bestScore', bi', colAfter := best, bestScore, bi, col;
    if edge in col {
      assert seen + [] == seen;
      return;
    }
    ghost var seen' := seen;
    var color := 0;
    while color < 2
      invariant 0 <= color <= 2
      invariant colAfter == col
      invariant seen' == seen + [Probe(edge, 0), Probe(edge, 1)][..color]
      invariant BestSoFar(seen', ScoresOf(seen', f), best', bestScore', bi')
    {
      var p := Probe(edge, color);
      var score;
      score, colAfter := CalculateScoreForEdge(n, colAfter, edge, color);
      BestSoFarStep(seen', ScoresOf(seen', f), best', bestScore', bi', p, score);
      ScoresOfSnoc(seen', f, p);
      if best'.None? || score < bestScore' {
        best', bestScore', bi' := Some(p), score, |seen'|;
      }
      seen' := seen' + [p];
      color := color + 1;
    }
    assert [Probe(edge, 0), Probe(edge, 1)][..color] == [Probe(edge, 0), Probe(edge, 1)];
  }

  /** What the scan of lines 49-56 leaves, read off edge by edge: a best
      probe exists unless every edge of the list is coloured, is for an
      uncoloured edge of the list, and has the least score of every colour
      of every such edge. */
  lemma LeastScore(n: nat, col: Coloring, allEdges: seq<Edge>, best: Option<Probe>, bestScore: int, bi: nat)
    requires BestSoFar(Probes(allEdges, col.Keys), ScoresOf(Probes(allEdges, col.Keys), ScoreOf(n, col)),
                       best, bestScore, bi)
    ensures best.None? <==> forall e :: e in allEdges ==> e in col
    ensures best.Some? ==>
      best.value.edge in allEdges && best.value.edge !in col
      && bestScore == ScoreForEdge(n, col, best.value.edge, best.value.color)
    ensures forall e, c: Color :: e in allEdges && e !in col ==> bestScore <= ScoreForEdge(n, col, e, c)
  {
    var f := ScoreOf(n, col);
    var ps := Probes(allEdges, col.Keys);
    BestIsLeast(ps, f, best, bestScore, bi);
    ProbesMembers(allEdges, col.Keys);
    ProbesComplete(allEdges, col.Keys);
    forall e, c: Color | e in allEdges && e !in col
      ensures bestScore <= ScoreForEdge(n, col, e, c)
    {
      assert Probe(e, c) in ps;
      assert bestScore <= f(Probe(e, c));
    }
    if best.None? {
      forall e | e in allEdges
        ensures e in col
      {
        ProbedFirst(allEdges, col.Keys, e);
      }
    }
  }

  /** Lines 49-56: every uncoloured edge of the list with colour 0 then 1,
      keeping the first probe whose score is strictly below the best so far.
      Every temporary colour is deleted again, so the colouring is handed
      back unchanged. */
  method SelectBestScore(n: nat, col: Coloring, allEdges: seq<Edge>)
    returns (best: Option<Probe>, bestScore: int, colAfter: Coloring, ghost bi: nat)
    ensures colAfter == col
    ensures best.None? <==> forall e :: e in allEdges ==> e in col
    ensures best.Some? ==>
      best.value.edge in allEdges && best.value.edge !in col
      && bestScore == ScoreForEdge(n, col, best.value.edge, best.value.color)
    ensures forall e, c: Color :: e in allEdges && e !in col ==> bestScore <= ScoreForEdge(n, col, e, c)
    ensures BestSoFar(Probes(allEdges, col.Keys), ScoresOf(Probes(allEdges, col.Keys), ScoreOf(n, col)),
                      best, bestScore, bi)
  {
    best, bestScore, bi := None, 0, 0;
    colAfter := col;
    ghost var seen: seq<Probe> := [];
    var idx := 0;
    while idx < |allEdges|
      invariant 0 <= idx <= |allEdges|
      invariant colAfter == col
      invariant seen == Probes(allEdges[..idx], col.Keys)
      invariant BestSoFar(seen, ScoresOf(seen, ScoreOf(n, col)), best, bestScore, bi)
    {
      var edge := allEdges[idx];
      ProbesSnoc(allEdges, idx, col.Keys);
      best, bestScore, bi, colAfter := ProbeEdge(n, colAfter, edge, seen, best, bestScore, bi);
      seen := seen + (if edge in col then [] else [Probe(edge, 0), Probe(edge, 1)]);
      idx := idx + 1;
    }
    assert allEdges[..idx] == allEdges;
    LeastScore(n, col, allEdges, best, bestScore, bi);
  }

  /** `all(colorings.get(x) == colorings.get(edges[0]) for x in edges)`:
      every edge of `q` reads as its first, coloured or not. */
  predicate AllAsFirst(col: Coloring, q: K4) {
    forall i :: 0 <= i < 6 ==> ColorsOf(col, q)[i] == ColorsOf(col, q)[0]
  }

  /** `greedy_coloring_updated(n)`: colours every edge of K_n, one per step,
      each time the first uncoloured (edge, colour) of least score, and
      counts the cliques whose edges all read as the first. `log` records
      the commits in order. */
  method GreedyColoringUpdated(n: nat) returns (col: Coloring, sameColoredK4: nat, ghost log: seq<Probe>)
    ensures col.Keys == EdgeSet(n)
    ensures CommitLog(log, col)
    ensures |log| == n * (n - 1) / 2
    ensures sameColoredK4 == MonoCount(col, n)
  {
    AllEdgesFacts(n);
    col := map[];
    var allEdges := AllEdges(n);
    log := [];
    while |allEdges| > 0
      invariant Distinct(allEdges)
      invariant forall e :: e in allEdges <==> ValidEdge(e, n) && e !in col
      invariant col.Keys <= EdgeSet(n)
      invariant CommitLog(log, col)
      invariant |log| == |col|
      invariant |col| + |allEdges| == n * (n - 1) / 2
      decreases |allEdges|
    {
      ProbesNonEmpty(allEdges, col.Keys);
      var best, bestScore, colAfter, bi := SelectBestScore(n, col, allEdges);
      col := colAfter;
      ProbesMembers(allEdges, col.Keys);
      var p := best.value;
      assert p in Probes(allEdges, col.Keys);
      CommitLogStep(log, col, p);
      RemoveMember(allEdges, p.edge);
      col := col[p.edge := p.color];
      allEdges := Remove(allEdges, p.edge);
      log := log + [p];
    }
    sameColoredK4 := CountWhere(AllK4s(n), q => AllAsFirst(col, q));
    CountsMono(col, n, q => AllAsFirst(col, q));
  }
}
