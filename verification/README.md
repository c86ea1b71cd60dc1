# Greedy two-colourings of K_n with few monochromatic K4s — a Dafny model

The repository colours the edges of the complete graph K_n with two colours.
It tries to leave few monochromatic 4-cliques (K4s). Five scripts do this in
different ways; this project models the core of each one.

- `improve.py`, `optimized_greedy_coloring`: a cache of per-K4 scores. Each
  (edge, colour) probe is a trial update of the cache followed by a revert
  from a snapshot. The first probe with the least total is committed.
- `improve_v2.py`, `optimized_greedy_coloring_v2`: the same cache, updated
  through an edge-to-K4 index. The less-used colour is tried first, and a
  probe is committed as soon as its total beats the lowest total of the
  pass. Failed trials are left in the cache.
- `improve_v3.py`, `greedy_coloring_v3`: no cache. Each probe is rated by
  `calculate_edge_impact`, which charges for every K4 the colour would
  complete as monochromatic.
- `test.py`, `greedy_coloring_updated`: no cache and no index. Each probe
  temporarily colours the edge and sums the scores of all K4s through it.
- `makehui.py`: edges are coloured in list order, each with the colour whose
  "probability" over the K4s through it is smaller.

Modelling choices:

- Every score in the scripts is a multiple of 2^-6 between 0 and 1. Scores
  are therefore integers scaled by 64: 2^-5 becomes 2, 2^(k-6) becomes 2^k,
  1/64 becomes 1, and `2**0 - 2**-5` becomes 62. The scripts' floats hold
  these values exactly, so the scaling loses nothing.
- Edges and K4s are datatypes with their vertices in increasing order. A
  colouring is a map from edges to colours 0 and 1.
- `itertools.combinations` order is reproduced by nested recursive
  enumerations (`Enumeration.AllEdges`, `Enumeration.AllK4s`). The same
  nesting gives the `i < j < k < s` loops of makehui.py.
- `list.remove` is `Seqs.Remove`, which drops the first occurrence.
- The greedy selections keep the first probe whose score is strictly below
  the best so far. `Selection.FirstMinimum` states this: nothing is smaller,
  and everything earlier is strictly larger.
- Each run returns a ghost log of its commits. `Selection.CommitLog` states
  that the log lists every coloured edge once, with its final colour.
  `Selection.CommitLogReplays` shows what such a log means: replayed from
  the empty colouring, each step colours an edge that is still uncoloured,
  and the last step leaves the final colouring. The log is an output of the
  run; the run's contract does not tie it to the steps the run made (see
  "Left out").
- Each script's final count is proved equal to one reference,
  `Evaluation.MonoCount`: the number of monochromatic K4s of the final
  colouring.
- The score formula of `update_k4_scores` depends on the colour being
  committed (`Score.PolicyScore`). It is related to a colour-free reference,
  `Score.Penalty`.

How the scripts break ties and what they rank by:

- Ties. improve.py, improve_v3.py and test.py keep the first strict minimum
  in list order, trying colour 0 before colour 1. improve_v2.py uses its
  colour counts only to order the two colours of one edge. makehui.py gives
  a tie to colour 0.
- What a probe is ranked by.
  - improve.py and improve_v2.py rank by the total of the whole cache after
    the trial update. The trial runs before the edge is coloured (improve.py
    lines 46 and 56, improve_v2.py lines 120 and 138), so the probed edge's
    own colour is never counted. Over an exact cache the trial total is the
    current total less the penalties of the K4s through the edge that
    already hold the other colour (`Improve.TrialBreaks`,
    `ImproveV2.TrialTotalBreaks`). A colour is credited for the K4s it
    breaks and is not charged for the K4s it extends, so the trial total is
    in general not the total the cache holds after the commit.
  - improve_v3.py ranks by an impact that counts only the K4s the colour
    completes as monochromatic. Its comment on line 17 says "same color or
    uncolored", but the test compares against `colorings.get(e, -1)`, so an
    uncoloured edge fails it. The model follows the test. The docstring
    (lines 8-10) says the function returns the difference in total score
    that colouring the edge would make, and it does not
    (`ImproveV3.ImpactIsNotPenaltyChange`). Take a K4 through the edge
    whose k >= 1 coloured edges all carry the colour. Colouring the edge
    raises the K4's score by 2^(k-6), but the term is 1 - 2^-5 for k = 5
    and 0 otherwise. For example, five edges of colour 0 give a rise of
    2^-1 and a term of 62/64; one edge of colour 0 gives a rise of 2^-5
    and a term of 0. `ImproveV3.ImpactCountsNewMono` states what the
    impact does measure.
  - test.py and makehui.py rank by the penalties of the K4s through the
    edge alone.
- Partial colourings. Three counts also count K4s that are not fully
  coloured:
  - test.py counts a K4 when all its edges read as its first edge, so an
    uncoloured K4 counts.
  - makehui.py counts a K4 whose colour sum is 0, so an uncoloured K4
    counts.
  - improve_v3.py counts a K4 that shows a single colour among its coloured
    edges.

  At the end of every run all edges are coloured. For that case each count
  is proved equal to the number of monochromatic K4s.

## Model

| member | source | states |
|---|---|---|
| Enumeration.AllEdgesFacts | improve.py:34 | `list(G.edges())` holds every edge u < v < n exactly once, C(n, 2) = n(n-1)/2 of them |
| Enumeration.AllK4sFacts | improve.py:13 | `combinations(G.nodes(), 4)` holds every 4-subset exactly once, C(n, 4) of them |
| Seqs.RemoveAt | improve.py:58 | `list.remove` on a list without repeats drops exactly that element, keeps the order of the rest, and leaves no repeats |
| Score.PolicyScore | improve.py:21-31 | the score `update_k4_scores` writes is at most 2^0, and is 0 exactly when some edge of the K4 carries the other colour |
| Score.PolicyIsPenalty | improve.py:25-30 | once the committed colour is on one of the K4's edges, the written score is the colour-free penalty (0 if both colours occur, else 2^(k-6) for k coloured edges, or 2^-5 if none is) |
| Score.PenaltyPositiveIffMono | improve.py:61 | on a fully coloured K4 the penalty is positive exactly when the K4 is monochromatic |
| Score.ZeroStaysZero | improve.py:26-27 | a K4 whose penalty is 0 keeps penalty 0 under any colouring that extends the current one |
| Score.PenaltyValues | improve.py:26-30 | for a K4 of K_n: 2^-5 when none of its edges is coloured, 0 once one of its edges has colour 0 and another colour 1, and 2^(k-6) when its k > 0 coloured edges all share one colour |
| Score.PolicyAgainstPenalty | improve.py:21-31 | the score an update for colour c writes is the K4's penalty unless the K4 already holds the other colour, and 0 if it does |
| Score.InitialScores | improve.py:17-18 | the initial cache gives every K4 2^-5, which is its penalty under the empty colouring |
| Score.UpdateScores | improve.py:21-31 | an update changes only the affected K4s and keeps the key set; with `undo` (improve_v2.py) each affected K4 is reset to 2^-5 |
| Score.RevertRestores | improve.py:43-53 | `k4_contributions.update(original_scores)` after a trial update gives back exactly the cache before the trial |
| Score.CommitRescores | improve.py:56-57 | committing a colour and then updating the K4s through the edge leaves a cache that is exact for the new colouring |
| Evaluation.CountsMono | test.py:62-67 | any per-K4 test that, on fully coloured K4s, holds exactly of the monochromatic ones counts the monochromatic K4s of a total colouring |
| Evaluation.PositiveScoresCountMono | improve.py:60-61 | with every edge coloured and the cache exact on fully coloured K4s, the K4s with a positive score are exactly the monochromatic ones |
| Selection.ProbesMembers | improve.py:41-44 | every probe made is for an edge of the list that is not yet coloured |
| Selection.ProbesNonEmpty | improve.py:35-44 | while uncoloured edges remain, at least two probes are made, so a best edge always exists |
| Selection.ProbesComplete | improve.py:41-44 | every uncoloured edge of the list is probed with both colours |
| Selection.BestIsLeast | improve.py:48-51 | after the scan, the best probe is one of the probes, exists once there is a probe, and scores no more than any of them |
| Selection.BestSoFarStep | improve.py:48-51 | the strict `<` against the best so far keeps the first probe of least score |
| Selection.CommitLogStep | improve.py:56-58 | committing a probe for an uncoloured edge extends the colouring and keeps every edge coloured once |
| Selection.CommitLogReplays | improve.py:56-58 | a commit log, replayed in order from the empty colouring, colours a still uncoloured edge at each step and ends at the final colouring |
| Improve.Trial | improve.py:43-53 | a trial gives the total of the cache after the trial update, and the revert hands back the cache unchanged |
| Improve.ProbeEdge | improve.py:42-53 | a coloured edge is skipped; otherwise colours 0 then 1 are tried, and the best so far is the first least trial total; the cache is unchanged |
| Improve.TrialBreaks | improve.py:43-47 | over an exact cache, a trial total is the current total less the penalties of the K4s through the edge that already hold the other colour; the probed edge's own colour is not counted |
| Improve.LeastTrial | improve.py:36-53 | a best probe exists exactly when some listed edge is uncoloured; it is for such an edge, and no colour of any such edge has a lower trial total |
| Improve.SelectBest | improve.py:36-53 | a best probe exists exactly when some listed edge is uncoloured; it has the least trial total over every colour of every such edge, and is the first such probe; the cache is unchanged |
| Improve.OptimizedGreedyColoring | improve.py:7-63 | every edge of K_n ends up coloured, the returned log lists each of the C(n, 2) edges once with its final colour, and the returned count is the number of monochromatic K4s |
| EdgeIndex.AppendClique | improve_v2.py:42-45 | appending one K4 under each of its six edges keeps the index exact for the K4s seen so far |
| EdgeIndex.BuildEdgeIndex | improve_v2.py:40-45 | the index maps every edge to the K4s containing it, in enumeration order, and has no key for an edge in no K4 |
| EdgeIndex.AffectedK4sExact | improve_v2.py:49 | the corrected lookup lists exactly the K4s of K_n through the edge, each once |
| EdgeIndex.CliqueListedSixTimes | improve_v2.py:42-45 | every K4 is listed under exactly its six edges |
| EdgeIndex.KeyErrorBelowFour | improve_v2.py:49 | for n = 2 or 3, the edge (0, 1) is probed but has no key in the index, so the direct lookup fails |
| ImproveV2.ColorOrder | improve_v2.py:106-111 | the two colours are tried less-used first, colour 0 first on a tie |
| ImproveV2.UpdateK4Scores | improve_v2.py:48-65 | the indexed update changes only the K4s listed under the edge; with `undo` it resets them to 2^-5 |
| ImproveV2.IndexedUpdateIsScan | improve_v2.py:49-51 | the indexed update rescores the same K4s, with the same scores, as improve.py's scan of all K4s |
| ImproveV2.TrialOverwrites | improve_v2.py:113-122 | a second trial on the same edge overwrites the first trial's scores completely |
| ImproveV2.TrialTotalBreaks | improve_v2.py:113-122 | over an exact cache, a trial total is the current total less the penalties of the K4s through the edge that already hold the other colour, as in improve.py |
| ImproveV2.TrialKeepsExact | improve_v2.py:120 | a trial update that is never undone still leaves every fully coloured K4 with its exact penalty |
| ImproveV2.CommitKeepsExact | improve_v2.py:137-140 | colouring the edge and updating its K4s keeps every fully coloured K4 exact under the new colouring |
| ImproveV2.ColorClassStep | improve_v2.py:137 | `color_cnt[color] += 1` tracks the number of edges of each colour |
| ImproveV2.Commit | improve_v2.py:134-144 | a commit colours the edge, bumps its colour count, rescores its K4s, and removes it from `all_edges` |
| ImproveV2.TryEdge | improve_v2.py:105-150 | the first colour whose trial total beats the lowest total of the pass is committed; if neither does, nothing is committed and the second trial stays in the cache |
| ImproveV2.Pass | improve_v2.py:95-159 | a pass colours at least one edge; the first edge of the list always gets the colour tried first |
| ImproveV2.OptimizedGreedyColoringV2 | improve_v2.py:29-168 | every edge of K_n ends up coloured, the returned log lists each of the C(n, 2) edges once with its final colour, and the count of positive scores is the number of monochromatic K4s |
| ImproveV3.OtherColorsAll | improve_v3.py:16-17 | the other colours all equal `color` exactly when every other edge of the K4 carries `color`, so an uncoloured edge fails the test |
| ImproveV3.CompletesMono | improve_v3.py:16-17 | colouring the edge makes the K4 monochromatic exactly when its other five edges already carry that colour |
| ImproveV3.ImpactTermValue | improve_v3.py:15-18 | a K4's term is 1 - 2^-5 if the colour completes it as monochromatic, and 0 otherwise |
| ImproveV3.ImpactSumCounts | improve_v3.py:12-19 | the impact is 1 - 2^-5 times the number of listed K4s that the colour completes |
| ImproveV3.ImpactCountsNewMono | improve_v3.py:7-19 | for an uncoloured edge, the impact is 1 - 2^-5 times the number of monochromatic K4s the commit would add |
| ImproveV3.CalculateEdgeImpact | improve_v3.py:7-19 | the impact is never negative |
| ImproveV3.ImpactIsNotPenaltyChange | improve_v3.py:8-18 | for a K4 through an uncoloured edge whose k >= 1 coloured edges share the colour, colouring the edge doubles the K4's penalty, yet the term is never that rise, so the impact is not the score difference the docstring describes |
| ImproveV3.LeastImpact | improve_v3.py:35-46 | a best probe exists once the list is not empty; it is for a listed edge, and no colour of any listed edge has a lower impact |
| ImproveV3.SelectLeastImpact | improve_v3.py:35-46 | the chosen probe is for a listed edge, has the least impact over every colour of every listed edge, and is the first such probe in the order edge by edge, colour 0 before 1 |
| ImproveV3.SingleColorIffMono | improve_v3.py:55 | on a fully coloured K4, a single colour among its edges means monochromatic |
| ImproveV3.GreedyColoringV3 | improve_v3.py:21-58 | every edge of K_n ends up coloured, the returned log lists each of the C(n, 2) edges once with its final colour, and the count is the number of monochromatic K4s |
| GreedyUpdated.SubScoresArePenalties | test.py:17-30 | for a valid edge carrying colour c, each sub-score is the K4's colour-free penalty, and exactly the K4s through the edge are summed |
| GreedyUpdated.CalculateScoreForEdge | test.py:7-35 | the score is the total penalty of the K4s through the edge once it has the colour; the colouring comes back unchanged if the edge was uncoloured, and without the edge if it was coloured |
| GreedyUpdated.ProbeEdge | test.py:49-56 | a coloured edge is skipped; otherwise colours 0 then 1 are scored and the best so far is the first least score; the colouring is unchanged |
| GreedyUpdated.LeastScore | test.py:44-56 | a best probe exists exactly when some listed edge is uncoloured; it is for such an edge, and no colour of any such edge has a lower score |
| GreedyUpdated.SelectBestScore | test.py:44-56 | a best probe exists exactly when some listed edge is uncoloured; it has the least score over every colour of every such edge and is the first such probe; every temporary colour is deleted again |
| GreedyUpdated.GreedyColoringUpdated | test.py:37-69 | every edge of K_n ends up coloured, the returned log lists each of the C(n, 2) edges once with its final colour, and the count is the number of monochromatic K4s |
| Sequential.SumTestIsMono | makehui.py:23 | on a fully coloured K4, colours summing to 6 or 0 means monochromatic |
| Sequential.CountK4Mono | makehui.py:5-25 | under a total colouring, the count is the number of monochromatic K4s |
| Sequential.CliqueOn | makehui.py:46 | the K4 on four vertices holds exactly those vertices, in increasing order |
| Sequential.VisitedAreThrough | makehui.py:38-46 | the two loops visit every K4 of K_n through the edge exactly once, and nothing else |
| Sequential.FillHalves | makehui.py:50-57 | a K4's term with the edge uncoloured is half its penalty once the edge has the colour |
| Sequential.ProbTermHalfPenalty | makehui.py:50-57 | for a K4 through an uncoloured edge, the term is half the penalty the K4 would have with the edge coloured |
| Sequential.ProbabilityIsHalfPenalty | makehui.py:27-58 | twice the probability of a colour is the total penalty of the K4s through the edge once it has that colour |
| Sequential.ChosenColor | makehui.py:78 | the chosen colour is never the more probable of the two, and a tie gives colour 0 |
| Sequential.ColorNext | makehui.py:73-80 | the next edge of the list is added to the colouring, with colour 1 exactly when colour 1 is strictly less probable given the edges coloured before it; every earlier choice is kept |
| Sequential.SequentialColoring | makehui.py:60-80 | the first edge gets the given colour and every later edge the less probable colour given the edges before it; all edges end up coloured and the count is the number of monochromatic K4s |
| Agreement.ProbabilityIsHalfScore | makehui.py:27-58 | for every uncoloured edge and colour, twice makehui's probability equals test.py's score, so the two scripts rank the two colours of an edge alike |

## Left out

- Graph construction with networkx, the plots (matplotlib), printing,
  timing and the tqdm and numpy imports are not modelled. The complete graph
  is implicit in the edge and K4 enumerations.
- The random first colour of makehui.py (line 67) is a parameter,
  `firstColor`, of `Sequential.SequentialColoring`.
- The printed bounds are not modelled: they are output only.
  improve.py:74, improve_v2.py:179, improve_v3.py:68 and test.py:80 print a
  "theoretical minimum" `C(n,4) // 32`, floor-divided. makehui.py:84
  prints `C(n,4) / 32`, true division, as a float labelled "maximum".
- `compute_affected_k4s` (improve_v2.py:14-24) is never called and is not
  modelled.
- improve_v2.py's `i`, `flag`, `sum_up`, `edge_color_cnt` and `colored_k4s`
  only feed printing or commented-out code, and are not modelled.
- The fixed sizes the scripts run with (`n = 20`, `n = 8`, `nodes_num =
  30`) and their calls of each function are not modelled; every routine is
  modelled for any n. makehui.py's algorithm is itself top-level code
  (lines 60-80) and is modelled as `Sequential.SequentialColoring`.
- Sequential.SequentialColoring: requires n >= 2, so that the edge list is
  not empty when `leave_edges[0]` (makehui.py:68) is read; the script runs
  only with `nodes_num = 30`.
- Improve.OptimizedGreedyColoring: its contract states the end result, not
  that each commit was the least probe of its step. That per-step choice is
  the contract of `Improve.SelectBest`.
- Improve.OptimizedGreedyColoring, ImproveV2.OptimizedGreedyColoringV2,
  ImproveV3.GreedyColoringV3 and GreedyUpdated.GreedyColoringUpdated: the
  returned log is a ghost output, and the contracts do not tie it to the
  steps the method made. That no edge is ever recoloured is a loop
  invariant of each run (each commit goes through
  `Selection.CommitLogStep`), not a postcondition.
- ImproveV3.GreedyColoringV3: its contract states the end result. The
  per-step choice is the contract of `ImproveV3.SelectLeastImpact`.
- GreedyUpdated.GreedyColoringUpdated: its contract states the end result.
  The per-step choice is the contract of `GreedyUpdated.SelectBestScore`.
- ImproveV2.OptimizedGreedyColoringV2: its contract states the end result.
  Which edges a pass commits is stated per edge by `ImproveV2.TryEdge`.
- ImproveV2.Pass: states only that the pass commits at least one edge and
  how it colours the first one. The later commits depend on trial totals
  that the stale cache makes hard to state in closed form.
- Sequential.ProbabilityEdgeColor: for a pair that is not an edge of K_n
  (a loop, or a vertex outside the graph) the model still reads a four-vertex
  K4. networkx would build a smaller subgraph there. The script only passes
  edges of the graph.
- ImproveV3.CalculateEdgeImpact: its own contract states only that the
  impact is non-negative. Its meaning is stated by
  `ImproveV3.ImpactCountsNewMono`. That meaning is not the score
  difference the docstring (improve_v3.py:8-10) promises, as
  `ImproveV3.ImpactIsNotPenaltyChange` shows.

## Findings

| source | as written | input that shows it | evidently intended | confidence | as-written member | corrected member |
|---|---|---|---|---|---|---|
| improve_v2.py:49 | `edge_to_k4s[edge]` indexes the edge-to-K4 map directly; that map only has keys for edges that lie in some K4 | n = 2 or n = 3: K_n has edges but no K4, so the map is empty and the first probe of edge (0, 1) raises KeyError; improve_v3.py:13 does the same | an edge in no K4 affects nothing: `edge_to_k4s.get(edge, [])` | high (not executed) | EdgeIndex.LookupAsWritten, EdgeIndex.KeyErrorBelowFour | EdgeIndex.AffectedK4s, EdgeIndex.AffectedK4sExact |
