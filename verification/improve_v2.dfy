/** `optimized_greedy_coloring_v2` (improve_v2.py): scores updated through
    the `edge_to_k4s` index, the less-used colour tried first, and a commit
    as soon as a trial total beats the lowest total of the pass.

    The trial update of a probe that does not commit is never undone (the
    undo call is commented out in the source), so the cache may hold stale
    trial scores for cliques that are not yet fully coloured; cliques whose
    six edges are coloured always hold their exact penalty. */
module ImproveV2 {
  import opened Wrappers
  import opened Seqs
  import opened Graph
  import opened Enumeration
  import opened Score
  import opened Evaluation
  import opened Selection
  import opened EdgeIndex

  /** Lines 106-111: the order in which the two colours are tried. */
  function ColorOrder(colorCnt: seq<nat>): (order: seq<Color>)
    requires |colorCnt| == 2
    ensures |order| == 2 && order[0] != order[1]
    ensures colorCnt[order[0]] <= colorCnt[order[1]]
    ensures colorCnt[0] == colorCnt[1] ==> order[0] == 0
  {
    if colorCnt[0] as int - colorCnt[1] as int > 0 then [1, 0]
    else if colorCnt[1] as int - colorCnt[0] as int > 0 then [0, 1]
    else [0, 1]
  }

  /** The edges carrying colour `c`. */
  function ColorClass(col: Coloring, c: Color): set<Edge> {
    set e | e in col && col[e] == c
  }

  /** `set(tuple(edge_to_k4s[edge]))`, with the lookup corrected to an
      empty list for an edge in no clique. */
  function AffectedSet(index: map<Edge, seq<K4>>, e: Edge): set<K4> {
    set q | q in AffectedK4s(index, e)
  }

  /** Lines 48-65, `update_k4_scores(edge, color, undo)`: only the cliques
      the index lists under `edge` change; with `undo` each of them is reset
      to 2^-5, not to the score it had before. */
  function UpdateK4Scores(contrib: map<K4, nat>, index: map<Edge, seq<K4>>, col: Coloring,
                          e: Edge, c: Color, undo: bool): (r: map<K4, nat>)
    ensures r.Keys == contrib.Keys
    ensures forall q :: q in contrib && q !in AffectedK4s(index, e) ==> r[q] == contrib[q]
    ensures undo ==> forall q :: q in contrib && q in AffectedK4s(index, e) ==> r[q] == UncoloredScore
  {
    UpdateScores(contrib, AffectedSet(index, e), col, c, undo)
  }

  /** The index-driven update rescores the same cliques as the scan of
      improve.py, with the same scores. */
  lemma IndexedUpdateIsScan(contrib: map<K4, nat>, index: map<Edge, seq<K4>>, n: nat,
                            col: Coloring, e: Edge, c: Color)
    requires IsEdgeIndex(index, AllK4s(n))
    ensures forall q :: q in contrib ==>
      UpdateK4Scores(contrib, index, col, e, c, false)[q] == UpdateScores(contrib, Affected(AllK4s(n), e), col, c, false)[q]
  {
    AffectedK4sExact(index, n, e);
    AllK4sFacts(n);
    assert AffectedSet(index, e) == Affected(AllK4s(n), e);
  }

  /** A second trial on the same edge overwrites every score the first one
      wrote, so a trial total only depends on the cache before both. */
  lemma TrialOverwrites(contrib: map<K4, nat>, index: map<Edge, seq<K4>>, col1: Coloring, col2: Coloring,
                        e: Edge, c1: Color, c2: Color)
    ensures UpdateK4Scores(UpdateK4Scores(contrib, index, col1, e, c1, false), index, col2, e, c2, false)
         == UpdateK4Scores(contrib, index, col2, e, c2, false)
  {
  }

  /** The total of the cache after the trial `update_k4_scores(e, c)`. */
  function TrialTotal(n: nat, contrib: map<K4, nat>, index: map<Edge, seq<K4>>, col: Coloring, e: Edge, c: Color): nat {
    Total(UpdateK4Scores(contrib, index, col, e, c, false), AllK4s(n))
  }

  /** Over an exact cache, a trial total is the total of the cache less
      the penalties of the cliques through the edge that already hold the
      other colour, as in improve.py. */
  lemma TrialTotalBreaks(n: nat, index: map<Edge, seq<K4>>, col: Coloring, e: Edge, c: Color)
    requires IsEdgeIndex(index, AllK4s(n))
    ensures TrialTotal(n, Scores(col, n), index, col, e, c) + BrokenPenalty(col, AllK4s(n), e, c)
         == Total(Scores(col, n), AllK4s(n))
  {
    AffectedK4sExact(index, n, e);
    AllK4sFacts(n);
    TrialBreaksOn(Scores(col, n), AffectedSet(index, e), col, AllK4s(n), e, c);
  }

  /** `total_score < lowest_total_score`, with None for `float('inf')`. */
  predicate Beats(total: nat, lowest: Option<nat>) {
    lowest.None? || total < lowest.value
  }

  /** The cache covers every clique and is exact on fully coloured ones. */
  ghost predicate ExactOnFull(contrib: map<K4, nat>, col: Coloring, n: nat) {
    && contrib.Keys == K4Set(n)
    && forall q :: q in contrib && FullyColored(col, q) ==> contrib[q] == Penalty(col, q)
  }

  /** A trial on an uncoloured edge only touches cliques that are not
      fully coloured. */
  lemma TrialKeepsExact(contrib: map<K4, nat>, index: map<Edge, seq<K4>>, col: Coloring, n: nat, e: Edge, c: Color)
    requires IsEdgeIndex(index, AllK4s(n))
    requires ExactOnFull(contrib, col, n) && e !in col
    ensures ExactOnFull(UpdateK4Scores(contrib, index, col, e, c, false), col, n)
  {
    AffectedK4sExact(index, n, e);
    forall q | q in AffectedK4s(index, e)
      ensures !FullyColored(col, q)
    {
      var i :| 0 <= i < 6 && EdgesOf(q)[i] == e;
      assert ColorsOf(col, q)[i].None?;
    }
  }

  /** The commit rescores every clique through the new edge exactly, and
      the others keep their exact scores. */
  lemma CommitKeepsExact(contrib: map<K4, nat>, index: map<Edge, seq<K4>>, col: Coloring, n: nat, e: Edge, c: Color)
    requires IsEdgeIndex(index, AllK4s(n))
    requires ExactOnFull(contrib, col, n) && e !in col
    ensures ExactOnFull(UpdateK4Scores(contrib, index, col[e := c], e, c, false), col[e := c], n)
  {
    var col' := col[e := c];
    IndexedUpdateIsScan(contrib, index, n, col', e, c);
    forall q | q in contrib && FullyColored(col', q)
      ensures UpdateScores(contrib, Affected(AllK4s(n), e), col', c, false)[q] == Penalty(col', q)
    {
      if Contains(q, e) {
        var i :| 0 <= i < 6 && EdgesOf(q)[i] == e;
        assert ColorsOf(col', q)[i] == Some(c);
        PolicyIsPenalty(col', q, c);
      } else {
        ColorsOfFrame(col, q, e, c);
      }
    }
  }

  /** Colouring a fresh edge `e` with `c` adds it to class `c` only. */
  lemma ColorClassStep(col: Coloring, e: Edge, c: Color)
    requires e !in col
    ensures |ColorClass(col[e := c], c)| == |ColorClass(col, c)| + 1
    ensures |ColorClass(col[e := c], 1 - c)| == |ColorClass(col, 1 - c)|
  {
    assert ColorClass(col[e := c], c) == ColorClass(col, c) + {e};
    assert ColorClass(col[e := c], 1 - c) == ColorClass(col, 1 - c);
  }

  /** What holds between the steps of the run. */
  ghost predicate RunState(n: nat, index: map<Edge, seq<K4>>, col: Coloring, contrib: map<K4, nat>,
                           allEdges: seq<Edge>, colorCnt: seq<nat>, log: seq<Probe>)
  {
    && IsEdgeIndex(index, AllK4s(n))
    && ExactOnFull(contrib, col, n)
    && Distinct(allEdges)
    && (forall e :: e in allEdges <==> ValidEdge(e, n) && e !in col)
    && col.Keys <= EdgeSet(n)
    && CommitLog(log, col)
    && |log| == |col|
    && |col| + |allEdges| == n * (n - 1) / 2
    && |colorCnt| == 2
    && colorCnt[0] == |ColorClass(col, 0)| && colorCnt[1] == |ColorClass(col, 1)|
    && colorCnt[0] + colorCnt[1] == |col|
  }

  /** Lines 135-144: record the colour, rescore, drop the edge from
      `all_edges` and count the colour. */
  method Commit(n: nat, index: map<Edge, seq<K4>>, col: Coloring, contrib: map<K4, nat>,
                allEdges: seq<Edge>, colorCnt: seq<nat>, ghost log: seq<Probe>, idx: nat, c: Color)
    returns (col': Coloring, contrib': map<K4, nat>, allEdges': seq<Edge>, colorCnt': seq<nat>, ghost log': seq<Probe>)
    requires RunState(n, index, col, contrib, allEdges, colorCnt, log)
    requires idx < |allEdges|
    ensures RunState(n, index, col', contrib', allEdges', colorCnt', log')
    ensures col' == col[allEdges[idx] := c] && Extends(col, col')
    ensures allEdges' == allEdges[..idx] + allEdges[idx + 1..]
    ensures colorCnt'[c] == colorCnt[c] + 1 && colorCnt'[1 - c] == colorCnt[1 - c]
    ensures contrib' == UpdateK4Scores(contrib, index, col', allEdges[idx], c, false)
  {
    var edge := allEdges[idx];
    AllEdgesFacts(n);
    colorCnt' := colorCnt[c := colorCnt[c] + 1];
    CommitLogStep(log, col, Probe(edge, c));
    ColorClassStep(col, edge, c);
    CommitKeepsExact(contrib, index, col, n, edge, c);
    col' := col[edge := c];
    contrib' := UpdateK4Scores(contrib, index, col', edge, c, false);
    RemoveAt(allEdges, idx);
    allEdges' := Remove(allEdges, edge);
    log' := log + [Probe(edge, c)];
  }

  /** Lines 105-150 for the edge at position `idx` of `all_edges`: the two
      colours in `ColorOrder` order, each a trial update left in the cache,
      committing the first whose trial total beats `lowest`. */
  method TryEdge(n: nat, index: map<Edge, seq<K4>>, col: Coloring, contrib: map<K4, nat>,
                 allEdges: seq<Edge>, colorCnt: seq<nat>, ghost log: seq<Probe>, lowest: Option<nat>, idx: nat)
    returns (col': Coloring, contrib': map<K4, nat>, allEdges': seq<Edge>, colorCnt': seq<nat>,
             ghost log': seq<Probe>, lowest': Option<nat>)
    requires RunState(n, index, col, contrib, allEdges, colorCnt, log)
    requires idx < |allEdges| && allEdges[idx] !in col
    ensures RunState(n, index, col', contrib', allEdges', colorCnt', log')
    ensures Extends(col, col') && lowest'.Some?
    ensures (col' == col && allEdges' == allEdges && lowest' == lowest) || |allEdges'| == |allEdges| - 1
    ensures lowest.None? ==>
      |allEdges'| == |allEdges| - 1 && col' == col[allEdges[idx] := ColorOrder(colorCnt)[0]]
    ensures
      var e, order := allEdges[idx], ColorOrder(colorCnt);
      var t0, t1 := TrialTotal(n, contrib, index, col, e, order[0]), TrialTotal(n, contrib, index, col, e, order[1]);
      if Beats(t0, lowest) then
        col' == col[e := order[0]] && lowest' == Some(t0) && allEdges' == allEdges[..idx] + allEdges[idx + 1..]
      else if Beats(t1, lowest) then
        col' == col[e := order[1]] && lowest' == Some(t1) && allEdges' == allEdges[..idx] + allEdges[idx + 1..]
      else
        col' == col && lowest' == lowest && allEdges' == allEdges
        && contrib' == UpdateK4Scores(contrib, index, col, e, order[1], false)
  {
    var edge := allEdges[idx];
    var order := ColorOrder(colorCnt);
    col', contrib', allEdges', colorCnt', log', lowest' := col, contrib, allEdges, colorCnt, log, lowest;
    // First colour of the order.
    contrib' := UpdateK4Scores(contrib, index, col, edge, order[0], false);
    TrialKeepsExact(contrib, index, col, n, edge, order[0]);
    var totalScore := Total(contrib', AllK4s(n));
    if Beats(totalScore, lowest) {
      lowest' := Some(totalScore);
      TrialOverwrites(contrib, index, col, col[edge := order[0]], edge, order[0], order[0]);
      col', contrib', allEdges', colorCnt', log' := Commit(n, index, col, contrib', allEdges, colorCnt, log, idx, order[0]);
      return;
    }
    // Second colour: its trial overwrites the first one's scores.
    ghost var afterFirst := contrib';
    contrib' := UpdateK4Scores(contrib', index, col, edge, order[1], false);
    TrialOverwrites(contrib, index, col, col, edge, order[0], order[1]);
    TrialKeepsExact(afterFirst, index, col, n, edge, order[1]);
    totalScore := Total(contrib', AllK4s(n));
    if Beats(totalScore, lowest) {
      lowest' := Some(totalScore);
      TrialOverwrites(contrib, index, col, col[edge := order[1]], edge, order[1], order[1]);
      col', contrib', allEdges', colorCnt', log' := Commit(n, index, col, contrib', allEdges, colorCnt, log, idx, order[1]);
    }
  }

  /** One pass of the `while all_edges` loop (lines 96-159): the `for edge
      in all_edges` loop with Python's list-iterator semantics, so that the
      element after a removed one is skipped. The first edge of the list is
      always committed, with the colour `ColorOrder` puts first. */
  method Pass(n: nat, index: map<Edge, seq<K4>>, col: Coloring, contrib: map<K4, nat>,
              allEdges: seq<Edge>, colorCnt: seq<nat>, ghost log: seq<Probe>)
    returns (col': Coloring, contrib': map<K4, nat>, allEdges': seq<Edge>, colorCnt': seq<nat>, ghost log': seq<Probe>)
    requires RunState(n, index, col, contrib, allEdges, colorCnt, log)
    requires |allEdges| > 0
    ensures RunState(n, index, col', contrib', allEdges', colorCnt', log')
    ensures Extends(col, col')
    ensures |allEdges'| < |allEdges|
    ensures allEdges[0] in col' && col'[allEdges[0]] == ColorOrder(colorCnt)[0]
  {
    ghost var first := ColorOrder(colorCnt)[0];
    col', contrib', allEdges', colorCnt', log' := col, contrib, allEdges, colorCnt, log;
    var lowest: Option<nat> := None;
    var idx := 0;
    while idx < |allEdges'|
      invariant RunState(n, index, col', contrib', allEdges', colorCnt', log')
      invariant 0 <= idx <= |allEdges'| + 1
      invariant Extends(col, col')
      invariant lowest.None? ==> allEdges' == allEdges && col' == col && colorCnt' == colorCnt && idx == 0
      invariant lowest.Some? ==> |allEdges'| < |allEdges| && idx > 0
      invariant idx > 0 ==> allEdges[0] in col' && col'[allEdges[0]] == first
      decreases |allEdges'| + 1 - idx
    {
      var edge := allEdges'[idx];
      if edge !in col' {
        col', contrib', allEdges', colorCnt', log', lowest :=
          TryEdge(n, index, col', contrib', allEdges', colorCnt', log', lowest, idx);
      }
      idx := idx + 1;
    }
  }

  /** `optimized_greedy_coloring_v2(n)`: passes until `all_edges` is empty,
      then the count of cliques with a positive score. */
  method OptimizedGreedyColoringV2(n: nat) returns (col: Coloring, sameColoredK4: nat, ghost log: seq<Probe>)
    ensures col.Keys == EdgeSet(n)
    ensures CommitLog(log, col)
    ensures |log| == n * (n - 1) / 2
    ensures sameColoredK4 == MonoCount(col, n)
  {
    var ks := AllK4s(n);
    AllK4sFacts(n);
    AllEdgesFacts(n);
    var index := BuildEdgeIndex(n);
    var contrib := InitialScores(n);
    col := map[];
    var allEdges := AllEdges(n);
    var colorCnt: seq<nat> := [0, 0];
    log := [];
    assert ColorClass(col, 0) == {} && ColorClass(col, 1) == {};
    while |allEdges| > 0
      invariant RunState(n, index, col, contrib, allEdges, colorCnt, log)
      decreases |allEdges|
    {
      col, contrib, allEdges, colorCnt, log := Pass(n, index, col, contrib, allEdges, colorCnt, log);
    }
    sameColoredK4 := CountWhere(ks, q => q in contrib && contrib[q] > 0);
    PositiveScoresCountMono(contrib, col, n);
  }
}
