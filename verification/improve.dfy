/** `optimized_greedy_coloring` (improve.py): a cache of per-clique scores,
    a trial update per probe that is reverted from a snapshot, a strict-`<`
    choice of the best probe, and a commit of one edge per step. */
module Improve {
  import opened Wrappers
  import opened Seqs
  import opened Graph
  import opened Enumeration
  import opened Score
  import opened Evaluation
  import opened Selection

  /** `sum(k4_contributions.values())` right after the trial
      `update_k4_scores(edge, color)`, made while `edge` is still uncoloured. */
  function TrialScore(n: nat, col: Coloring, contrib: map<K4, nat>, p: Probe): nat {
    var ks := AllK4s(n);
    Total(UpdateScores(contrib, Affected(ks, p.edge), col, p.color, false), ks)
  }

  /** What a probe is ranked by, over an exact cache: the total of the
      cache less the penalties of the cliques through the edge that already
      hold the other colour. The probed edge's own colour is not counted,
      since the trial runs before `colorings[edge]` is set. */
  lemma TrialBreaks(n: nat, col: Coloring, e: Edge, c: Color)
    ensures TrialScore(n, col, Scores(col, n), Probe(e, c)) + BrokenPenalty(col, AllK4s(n), e, c)
         == Total(Scores(col, n), AllK4s(n))
  {
    AllK4sFacts(n);
    TrialBreaksOn(Scores(col, n), Affected(AllK4s(n), e), col, AllK4s(n), e, c);
  }

  /** The trial score of every probe, as a function value the selection can
      score with. */
  function TrialOf(n: nat, col: Coloring, contrib: map<K4, nat>): Probe -> int {
    (p: Probe) => TrialScore(n, col, contrib, p)
  }

  /** After probing `seen`, `best` is the first probe of least trial score
      among them (None before the first probe) and `bestScore` its score. */
  predicate Scanned(n: nat, col: Coloring, contrib: map<K4, nat>, seen: seq<Probe>,
                    best: Option<Probe>, bestScore: nat, bi: nat)
  {
    BestSoFar(seen, ScoresOf(seen, TrialOf(n, col, contrib)), best, bestScore, bi)
  }

  /** One probe of the scan: it replaces the best so far exactly when its
      score is strictly lower (or nothing was probed yet). */
  lemma ScanStep(n: nat, col: Coloring, contrib: map<K4, nat>, seen: seq<Probe>,
                 best: Option<Probe>, bestScore: nat, bi: nat, p: Probe)
    requires Scanned(n, col, contrib, seen, best, bestScore, bi)
    ensures best.None? || TrialScore(n, col, contrib, p) < bestScore ==>
      Scanned(n, col, contrib, seen + [p], Some(p), TrialScore(n, col, contrib, p), |seen|)
    ensures !(best.None? || TrialScore(n, col, contrib, p) < bestScore) ==>
      Scanned(n, col, contrib, seen + [p], best, bestScore, bi)
  {
    var f := TrialOf(n, col, contrib);
    ScoresOfSnoc(seen, f, p);
    BestSoFarStep(seen, ScoresOf(seen, f), best, bestScore, bi, p, TrialScore(n, col, contrib, p));
  }

  /** What the scan of lines 41-53 leaves, read off edge by edge: a best
      probe exists unless every edge of the list is coloured, is for an
      uncoloured edge of the list, and has the least trial score of every
      colour of every such edge. */
  lemma LeastTrial(n: nat, col: Coloring, contrib: map<K4, nat>, allEdges: seq<Edge>,
                   best: Option<Probe>, bestScore: nat, bi: nat)
    requires Scanned(n, col, contrib, Probes(allEdges, col.Keys), best, bestScore, bi)
    ensures best.None? <==> forall e :: e in allEdges ==> e in col
    ensures best.Some? ==>
      best.value.edge in allEdges && best.value.edge !in col && bestScore == TrialScore(n, col, contrib, best.value)
    ensures forall e, c: Color :: e in allEdges && e !in col ==> bestScore <= TrialScore(n, col, contrib, Probe(e, c))
  {
    var f := TrialOf(n, col, contrib);
    var ps := Probes(allEdges, col.Keys);
    BestIsLeast(ps, f, best, bestScore, bi);
    ProbesMembers(allEdges, col.Keys);
    ProbesComplete(allEdges, col.Keys);
    forall e, c: Color | e in allEdges && e !in col
      ensures bestScore <= TrialScore(n, col, contrib, Probe(e, c))
    {
      assert Probe(e, c) in ps;
      assert bestScore <= f(Probe(e, c));
    }
    if best.None? {
      forall e | e in allEdges
        ensures e in col
      {
        ProbedFirst(allEdges, col.Keys, e);
      }
    }
  }

  /** Lines 46-53 for one probe: the trial update, the total it yields, and
      the revert from `original_scores`, which hands back the cache as it
      was. */
  method Trial(n: nat, col: Coloring, contrib: map<K4, nat>, original: map<K4, nat>, p: Probe)
    returns (totalScore: nat, contribAfter: map<K4, nat>)
    requires contrib.Keys == K4Set(n)
    requires Affected(AllK4s(n), p.edge) <= contrib.Keys
    requires original == Snapshot(contrib, Affected(AllK4s(n), p.edge))
    ensures totalScore == TrialScore(n, col, contrib, p)
    ensures contribAfter == contrib
  {
    var ks := AllK4s(n);
    var affected := Affected(ks, p.edge);
    contribAfter := UpdateScores(contrib, affected, col, p.color, false);
    totalScore := Total(contribAfter, ks);
    RevertRestores(contrib, affected, col, p.color, false);
    contribAfter := contribAfter + original;
  }

  /** One probe of the scan: its trial, then the strict-`<` comparison with
      the best so far. */
  method ScanProbe(n: nat, col: Coloring, contrib: map<K4, nat>, original: map<K4, nat>, p: Probe,
                   ghost seen: seq<Probe>, best: Option<Probe>, bestScore: nat, ghost bi: nat)
    returns (best': Option<Probe>, bestScore': nat, ghost bi': nat, contribAfter: map<K4, nat>)
    requires contrib.Keys == K4Set(n)
    requires Affected(AllK4s(n), p.edge) <= contrib.Keys
    requires original == Snapshot(contrib, Affected(AllK4s(n), p.edge))
    requires Scanned(n, col, contrib, seen, best, bestScore, bi)
    ensures contribAfter == contrib
    ensures Scanned(n, col, contrib, seen + [p], best', bestScore', bi')
  {
    var totalScore;
    totalScore, contribAfter := Trial(n, col, contrib, original, p);
    ScanStep(n, col, contrib, seen, best, bestScore, bi, p);
    best', bestScore', bi' := best, bestScore, bi;
    if best.None? || totalScore < bestScore {
      best', bestScore', bi' := Some(p), totalScore, |seen|;
    }
  }

  /** Lines 42-53 for one edge of the list: nothing if it is coloured,
      else both colours in the order 0, 1, each trial reverted from a
      snapshot of the affected scores taken before either trial. */
  method ProbeEdge(n: nat, col: Coloring, contrib: map<K4, nat>, edge: Edge, ghost seen: seq<Probe>,
                   best: Option<Probe>, bestScore: nat, ghost bi: nat)
    returns (best': Option<Probe>, bestScore': nat, ghost bi': nat, contribAfter: map<K4, nat>)
    requires contrib.Keys == K4Set(n)
    requires Scanned(n, col, contrib, seen, best, bestScore, bi)
    ensures contribAfter == contrib
    ensures Scanned(n, col, contrib, seen + (if edge in col then [] else [Probe(edge, 0), Probe(edge, 1)]),
                    best', bestScore', bi')
  {
    best', bestScore', bi', contribAfter := best, bestScore, bi, contrib;
    if edge in col {
      assert seen + [] == seen;
      return;
    }
    var original := Snapshot(contrib, Affected(AllK4s(n), edge));
    ghost var seen' := seen;
    var color: int := 0;
    while color < 2
      invariant 0 <= color <= 2
      invariant contribAfter == contrib
      invariant seen' == seen + [Probe(edge, 0), Probe(edge, 1)][..color]
      invariant Scanned(n, col, contrib, seen', best', bestScore', bi')
    {
      var p := Probe(edge, color);
      best', bestScore', bi', contribAfter := ScanProbe(n, col, contribAfter, original, p, seen', best', bestScore', bi');
      seen' := seen' + [p];
      color := color + 1;
    }
    assert [Probe(edge, 0), Probe(edge, 1)][..color] == [Probe(edge, 0), Probe(edge, 1)];
  }

  /** Lines 41-53: probe every uncoloured edge of `allEdges` with colour 0
      then 1, each probe a trial update that is reverted from
      `original_scores`. Returns the first probe of least trial score and the
      cache as the loop leaves it, which is the cache it was given. */
  method SelectBest(n: nat, col: Coloring, contrib: map<K4, nat>, allEdges: seq<Edge>)
    returns (best: Option<Probe>, contribAfter: map<K4, nat>, ghost bi: nat)
    requires contrib.Keys == K4Set(n)
    ensures contribAfter == contrib
    ensures best.None? <==> |Probes(allEdges, col.Keys)| == 0
    ensures best.None? <==> forall e :: e in allEdges ==> e in col
    ensures best.Some? ==> best.value.edge in allEdges && best.value.edge !in col
    ensures best.Some? ==> forall e, c: Color :: e in allEdges && e !in col ==>
      TrialScore(n, col, contrib, best.value) <= TrialScore(n, col, contrib, Probe(e, c))
    ensures best.Some? ==>
      && bi < |Probes(allEdges, col.Keys)|
      && Probes(allEdges, col.Keys)[bi] == best.value
      && FirstMinimum(ScoresOf(Probes(allEdges, col.Keys), TrialOf(n, col, contrib)), bi)
  {
    contribAfter := contrib;
    best := None;
    bi := 0;
    var bestScore: nat := 0;
    ghost var seen: seq<Probe> := [];
    var idx := 0;
    while idx < |allEdges|
      invariant 0 <= idx <= |allEdges|
      invariant contribAfter == contrib
      invariant seen == Probes(allEdges[..idx], col.Keys)
      invariant Scanned(n, col, contrib, seen, best, bestScore, bi)
    {
      var edge := allEdges[idx];
      ProbesSnoc(allEdges, idx, col.Keys);
      best, bestScore, bi, contribAfter := ProbeEdge(n, col, contribAfter, edge, seen, best, bestScore, bi);
      seen := seen + (if edge in col then [] else [Probe(edge, 0), Probe(edge, 1)]);
      idx := idx + 1;
    }
    assert allEdges[..idx] == allEdges;
    LeastTrial(n, col, contrib, allEdges, best, bestScore, bi);
  }

  /** `optimized_greedy_coloring(n)`: colours every edge of K_n, one per
      step, and counts the cliques left with a positive score. `log` records
      the commits in order. */
  method OptimizedGreedyColoring(n: nat) returns (col: Coloring, sameColoredK4: nat, ghost log: seq<Probe>)
    ensures col.Keys == EdgeSet(n)
    ensures CommitLog(log, col)
    ensures |log| == n * (n - 1) / 2
    ensures sameColoredK4 == MonoCount(col, n)
  {
    var ks := AllK4s(n);
    AllK4sFacts(n);
    AllEdgesFacts(n);
    col := map[];
    var contrib := InitialScores(n);
    var allEdges := AllEdges(n);
    log := [];
    while |allEdges| > 0
      invariant contrib == Scores(col, n)
      invariant Distinct(allEdges)
      invariant forall e :: e in allEdges <==> ValidEdge(e, n) && e !in col
      invariant col.Keys <= EdgeSet(n)
      invariant CommitLog(log, col)
      invariant |log| == |col|
      invariant |col| + |allEdges| == n * (n - 1) / 2
      decreases |allEdges|
    {
      ProbesNonEmpty(allEdges, col.Keys);
      var best, contribAfter, bi := SelectBest(n, col, contrib, allEdges);
      contrib := contribAfter;
      ProbesMembers(allEdges, col.Keys);
      var p := best.value;
      assert p in Probes(allEdges, col.Keys);
      CommitLogStep(log, col, p);
      CommitRescores(col, n, p.edge, p.color);
      RemoveMember(allEdges, p.edge);
      col := col[p.edge := p.color];
      contrib := UpdateScores(contrib, Affected(ks, p.edge), col, p.color, false);
      ExactScores(contrib, col, n);
      allEdges := Remove(allEdges, p.edge);
      log := log + [p];
    }
    sameColoredK4 := CountWhere(ks, q => q in contrib && contrib[q] > 0);
    PositiveScoresCountMono(contrib, col, n);
  }
}
