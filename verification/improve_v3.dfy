/** `greedy_coloring_v3` (improve_v3.py): no score cache at all. Each probe
    is rated by `calculate_edge_impact`, which looks only at the cliques
    through the probed edge and charges 62/64 for each one the colour would
    complete as monochromatic. */
module ImproveV3 {
  import opened Wrappers
  import opened Seqs
  import opened Graph
  import opened Enumeration
  import opened Score
  import opened Evaluation
  import opened Selection
  import opened EdgeIndex

  /** `2**0 - 2**-5`, the term of a completed clique, scaled by 64. */
  const CompletedTerm: int := Scale - UncoloredScore

  /** `colorings.get(x, -1)`: the colour of `x`, or -1 if it has none. */
  function ColorOrMinusOne(col: Coloring, x: Edge): int {
    if x in col then col[x] else -1
  }

  /** `[colorings.get(x, -1) for x in es if x != e]`. */
  function OtherColors(col: Coloring, es: seq<Edge>, e: Edge): seq<int> {
    if |es| == 0 then []
    else (if es[0] != e then [ColorOrMinusOne(col, es[0])] else []) + OtherColors(col, es[1..], e)
  }

  /** `s.count(c)`. */
  function Occurrences(s: seq<int>, c: int): nat {
    if |s| == 0 then 0 else Occurrences(s[..|s| - 1], c) + (if s[|s| - 1] == c then 1 else 0)
  }

  /** The term of one clique `q` for the probe (e, c), scaled by 64: the
      colours of the other edges followed by `c`; if all but the last equal
      `c`, `2**(count - 6) - 2**-5`, otherwise nothing. An uncoloured edge
      reads -1 and so fails the test. */
  function ImpactTerm(col: Coloring, q: K4, e: Edge, c: Color): (r: int)
    ensures r >= 0
  {
    var others := OtherColors(col, EdgesOf(q), e);
    var colors := others + [c];
    assert colors[..|colors| - 1] == others;
    Pow2Monotone(1, Occurrences(colors, c));
    if forall i :: 0 <= i < |colors| - 1 ==> colors[i] == c
    then Pow2(Occurrences(colors, c)) - UncoloredScore
    else 0
  }

  /** The sum of the terms over a list of cliques. */
  function ImpactSum(col: Coloring, ks: seq<K4>, e: Edge, c: Color): (r: int)
    ensures r >= 0
  {
    if |ks| == 0 then 0 else ImpactTerm(col, ks[0], e, c) + ImpactSum(col, ks[1..], e, c)
  }

  /** `calculate_edge_impact(edge, color, ...)`, over the cliques the index
      lists for the edge. The lookup is the corrected one: an edge the index
      does not know has no cliques. */
  function CalculateEdgeImpact(index: map<Edge, seq<K4>>, col: Coloring, e: Edge, c: Color): (r: int)
    ensures r >= 0
  {
    ImpactSum(col, AffectedK4s(index, e), e, c)
  }

  /** The other colours all equal `c` exactly when every other edge of the
      list carries colour `c`. */
  lemma {:induction false} OtherColorsAll(col: Coloring, es: seq<Edge>, e: Edge, c: Color)
    ensures (forall x :: x in OtherColors(col, es, e) ==> x == c) <==>
            (forall y :: y in es && y != e ==> y in col && col[y] == c)
  {
    if |es| > 0 {
      var rest := OtherColors(col, es[1..], e);
      var head := if es[0] != e then [ColorOrMinusOne(col, es[0])] else [];
      assert OtherColors(col, es, e) == head + rest;
      OtherColorsAll(col, es[1..], e, c);
      if forall x :: x in head + rest ==> x == c {
        forall y | y in es && y != e
          ensures y in col && col[y] == c
        {
          if y == es[0] {
            assert ColorOrMinusOne(col, y) in head + rest;
          } else {
            assert y in es[1..];
            forall x | x in rest
              ensures x == c
            {
              assert x in head + rest;
            }
          }
        }
      } else {
        var x :| x in head + rest && x != c;
        if x in head {
          assert es[0] in es;
        } else {
          var y :| y in es[1..] && y != e && !(y in col && col[y] == c);
          assert y in es;
        }
      }
    }
  }

  /** In a list without repeats, leaving out an edge it holds drops one
      entry. */
  lemma {:induction false} OtherColorsLength(col: Coloring, es: seq<Edge>, e: Edge)
    requires Distinct(es)
    ensures |OtherColors(col, es, e)| == if e in es then |es| - 1 else |es|
  {
    if |es| > 0 {
      assert Distinct(es[1..]);
      OtherColorsLength(col, es[1..], e);
      assert es[0] == e ==> e !in es[1..];
      assert e in es <==> e == es[0] || e in es[1..];
    }
  }

  /** A list of one value `c` throughout counts `c` at every position. */
  lemma {:induction false} OccurrencesAll(s: seq<int>, c: int)
    requires forall i :: 0 <= i < |s| ==> s[i] == c
    ensures Occurrences(s, c) == |s|
  {
    if |s| > 0 {
      OccurrencesAll(s[..|s| - 1], c);
    }
  }

  /** Colouring `e` with `c` makes a clique through `e` monochromatic exactly
      when its other five edges already carry `c`. */
  lemma CompletesMono(col: Coloring, q: K4, e: Edge, c: Color)
    requires Contains(q, e)
    ensures IsMono(col[e := c], q) <==> forall y :: y in EdgesOf(q) && y != e ==> y in col && col[y] == c
  {
    var col' := col[e := c];
    var k :| 0 <= k < 6 && EdgesOf(q)[k] == e;
    assert ColorsOf(col', q)[k] == Some(c);
    if IsMono(col', q) {
      forall y | y in EdgesOf(q) && y != e
        ensures y in col && col[y] == c
      {
        var i :| 0 <= i < 6 && EdgesOf(q)[i] == y;
        assert ColorsOf(col', q)[i] == ColorsOf(col', q)[k];
      }
    } else if forall y :: y in EdgesOf(q) && y != e ==> y in col && col[y] == c {
      forall i | 0 <= i < 6
        ensures ColorsOf(col', q)[i] == Some(c)
      {
        assert EdgesOf(q)[i] in EdgesOf(q);
      }
      assert IsMono(col', q);
    }
  }

  /** The term of a clique of K_n through `e` is 62 if colour `c` would
      complete it as monochromatic, and 0 otherwise. */
  lemma ImpactTermValue(col: Coloring, q: K4, n: nat, e: Edge, c: Color)
    requires ValidK4(q, n) && Contains(q, e)
    ensures ImpactTerm(col, q, e, c) == if IsMono(col[e := c], q) then CompletedTerm else 0
  {
    EdgesOfValid(q, n);
    var others := OtherColors(col, EdgesOf(q), e);
    var colors := others + [c];
    assert colors[..|colors| - 1] == others;
    OtherColorsAll(col, EdgesOf(q), e, c);
    OtherColorsLength(col, EdgesOf(q), e);
    CompletesMono(col, q, e, c);
    if forall x :: x in others ==> x == c {
      forall i | 0 <= i < |colors|
        ensures colors[i] == c
      {
        if i < |others| {
          assert colors[i] in others;
        }
      }
      OccurrencesAll(colors, c);
      assert Pow2(6) == 64;
    }
  }

  /** Summed over cliques of K_n through `e`, the terms count the cliques
      that colour would complete. */
  lemma {:induction false} ImpactSumCounts(col: Coloring, ks: seq<K4>, n: nat, e: Edge, c: Color)
    requires forall q :: q in ks ==> ValidK4(q, n) && Contains(q, e)
    ensures ImpactSum(col, ks, e, c) == CompletedTerm * CountWhere(ks, q => IsMono(col[e := c], q))
  {
    if |ks| > 0 {
      assert ks[0] in ks;
      assert forall q :: q in ks[1..] ==> q in ks;
      ImpactTermValue(col, ks[0], n, e, c);
      ImpactSumCounts(col, ks[1..], n, e, c);
    }
  }

  /** Counting over the cliques of a list that hold `e` is counting the
      list with "holds `e`" added to the test. */
  lemma {:induction false} CountThrough(ks: seq<K4>, e: Edge, p: K4 -> bool, pe: K4 -> bool)
    requires forall q :: pe(q) == (Contains(q, e) && p(q))
    ensures CountWhere(K4sWith(ks, e), p) == CountWhere(ks, pe)
  {
    if |ks| > 0 {
      var init := ks[..|ks| - 1];
      var last := ks[|ks| - 1];
      assert ks == init + [last];
      CountThrough(init, e, p, pe);
      K4sWithSnoc(init, last, e);
      CountWhereSnoc(init, last, pe);
      CountWhereSnoc(K4sWith(init, e), last, p);
      assert K4sWith(init, e) + [] == K4sWith(init, e);
    }
  }

  /** Colouring an uncoloured edge adds exactly the monochromatic cliques it
      completes: no clique through it was monochromatic before, and the
      others do not change. */
  lemma MonoCountStep(col: Coloring, n: nat, e: Edge, c: Color)
    requires e !in col
    ensures MonoCount(col[e := c], n) ==
      MonoCount(col, n) + CountWhere(AllK4s(n), q => Contains(q, e) && IsMono(col[e := c], q))
  {
    var col' := col[e := c];
    forall q | q in AllK4s(n)
      ensures IsMono(col', q) <==> IsMono(col, q) || (Contains(q, e) && IsMono(col', q))
      ensures !(IsMono(col, q) && Contains(q, e) && IsMono(col', q))
    {
      if Contains(q, e) {
        var k :| 0 <= k < 6 && EdgesOf(q)[k] == e;
        assert ColorsOf(col, q)[k].None?;
      } else {
        ColorsOfFrame(col, q, e, c);
      }
    }
    CountWhereSplit(AllK4s(n), q => IsMono(col', q), q => IsMono(col, q),
                    q => Contains(q, e) && IsMono(col', q));
  }

  /** The impact of a probe on an uncoloured edge is 62 for each
      monochromatic clique that committing it would add to the count. */
  lemma ImpactCountsNewMono(index: map<Edge, seq<K4>>, n: nat, col: Coloring, e: Edge, c: Color)
    requires IsEdgeIndex(index, AllK4s(n))
    requires e !in col
    ensures CalculateEdgeImpact(index, col, e, c) == CompletedTerm * (MonoCount(col[e := c], n) - MonoCount(col, n))
  {
    AffectedK4sExact(index, n, e);
    ImpactSumCounts(col, AffectedK4s(index, e), n, e, c);
    CountThrough(AllK4s(n), e, q => IsMono(col[e := c], q), q => Contains(q, e) && IsMono(col[e := c], q));
    MonoCountStep(col, n, e, c);
  }

  /** The impact term is not the change of the clique's score that the
      colouring causes. For a clique through the uncoloured edge `e` whose
      coloured edges all carry `c`, colouring `e` with `c` doubles the
      penalty, a rise of 2^(k-6) for k coloured edges; the term is 62/64
      when k = 5 and 0 otherwise, so never that rise. */
  lemma ImpactIsNotPenaltyChange(col: Coloring, q: K4, n: nat, e: Edge, c: Color)
    requires ValidK4(q, n) && Contains(q, e) && e !in col
    requires ColoredEdges(col, q) != {} && forall x :: x in ColoredEdges(col, q) ==> col[x] == c
    ensures Penalty(col[e := c], q) == 2 * Penalty(col, q)
    ensures ImpactTerm(col, q, e, c) != Penalty(col[e := c], q) - Penalty(col, q)
  {
    var col' := col[e := c];
    var k := |ColoredEdges(col, q)|;
    assert ColoredEdges(col', q) == ColoredEdges(col, q) + {e};
    PenaltySingleColor(col, q, n, c);
    PenaltySingleColor(col', q, n, c);
    ImpactTermValue(col, q, n, e, c);
    if k <= 5 {
      Pow2Monotone(k, 5);
      assert Pow2(5) == 32;
    } else {
      Pow2Monotone(6, k);
      assert Pow2(6) == 64;
    }
  }

  /** The impact of every probe, as a function value the selection can
      score with. */
  function ImpactOf(index: map<Edge, seq<K4>>, col: Coloring): Probe -> int {
    (p: Probe) => CalculateEdgeImpact(index, col, p.edge, p.color)
  }

  /** What the scan of lines 40-46 leaves, read off probe by probe: the
      best probe has the least impact of all, and exists once there is an
      edge. */
  lemma LeastImpact(index: map<Edge, seq<K4>>, col: Coloring, allEdges: seq<Edge>,
                    best: Option<Probe>, bestImpact: int, bi: nat)
    requires BestSoFar(Probes(allEdges, {}), ScoresOf(Probes(allEdges, {}), ImpactOf(index, col)), best, bestImpact, bi)
    ensures best.Some? ==>
      best.value.edge in allEdges && bestImpact == CalculateEdgeImpact(index, col, best.value.edge, best.value.color)
    ensures forall e, c: Color :: e in allEdges ==> best.Some? && bestImpact <= CalculateEdgeImpact(index, col, e, c)
  {
    var f := ImpactOf(index, col);
    var ps := Probes(allEdges, {});
    BestIsLeast(ps, f, best, bestImpact, bi);
    ProbesMembers(allEdges, {});
    ProbesComplete(allEdges, {});
    forall e, c: Color | e in allEdges
      ensures best.Some? && bestImpact <= CalculateEdgeImpact(index, col, e, c)
    {
      assert Probe(e, c) in ps;
      assert bestImpact <= f(Probe(e, c));
    }
  }

  /** Lines 40-46: every edge of the list with colour 0 then 1, keeping the
      first probe whose impact is strictly below the best so far. */
  method SelectLeastImpact(index: map<Edge, seq<K4>>, col: Coloring, allEdges: seq<Edge>)
    returns (best: Option<Probe>, bestImpact: int, ghost bi: nat)
    ensures best.Some? ==>
      best.value.edge in allEdges && bestImpact == CalculateEdgeImpact(index, col, best.value.edge, best.value.color)
    ensures forall e, c: Color :: e in allEdges ==> best.Some? && bestImpact <= CalculateEdgeImpact(index, col, e, c)
    ensures BestSoFar(Probes(allEdges, {}), ScoresOf(Probes(allEdges, {}), ImpactOf(index, col)), best, bestImpact, bi)
  {
    var f := ImpactOf(index, col);
    best, bestImpact, bi := None, 0, 0;
    ghost var seen: seq<Probe> := [];
    var idx := 0;
    while idx < |allEdges|
      invariant 0 <= idx <= |allEdges|
      invariant seen == Probes(allEdges[..idx], {})
      invariant BestSoFar(seen, ScoresOf(seen, f), best, bestImpact, bi)
    {
      var edge := allEdges[idx];
      ProbesSnoc(allEdges, idx, {});
      ghost var seen0 := seen;
      var color := 0;
      while color < 2
        invariant 0 <= color <= 2
        invariant seen == seen0 + [Probe(edge, 0), Probe(edge, 1)][..color]
        invariant BestSoFar(seen, ScoresOf(seen, f), best, bestImpact, bi)
      {
        var p := Probe(edge, color);
        var impact := CalculateEdgeImpact(index, col, edge, color);
        BestSoFarStep(seen, ScoresOf(seen, f), best, bestImpact, bi, p, impact);
        ScoresOfSnoc(seen, f, p);
        if best.None? || impact < bestImpact {
          best, bestImpact, bi := Some(p), impact, |seen|;
        }
        seen := seen + [p];
        color := color + 1;
      }
      assert [Probe(edge, 0), Probe(edge, 1)][..color] == [Probe(edge, 0), Probe(edge, 1)];
      idx := idx + 1;
    }
    assert allEdges[..idx] == allEdges;
    LeastImpact(index, col, allEdges, best, bestImpact, bi);
  }

  /** `len(set(colorings[x] for x in edges if x in colorings)) == 1`. */
  predicate SingleColor(col: Coloring, q: K4) {
    |set x | x in EdgesOf(q) && x in col :: col[x]| == 1
  }

  /** On a fully coloured clique, one colour among its edges means
      monochromatic. */
  lemma SingleColorIffMono(col: Coloring, q: K4)
    requires FullyColored(col, q)
    ensures SingleColor(col, q) <==> IsMono(col, q)
  {
    var s := set x | x in EdgesOf(q) && x in col :: col[x];
    var e0 := EdgesOf(q)[0];
    assert ColorsOf(col, q)[0].Some?;
    assert e0 in col && col[e0] in s;
    if IsMono(col, q) {
      forall v | v in s
        ensures v == col[e0]
      {
        var x :| x in EdgesOf(q) && x in col && col[x] == v;
        var i :| 0 <= i < 6 && EdgesOf(q)[i] == x;
        assert ColorsOf(col, q)[i] == ColorsOf(col, q)[0];
      }
      assert s == {col[e0]};
    } else {
      var i :| 0 <= i < 6 && ColorsOf(col, q)[i] != ColorsOf(col, q)[0];
      var ei := EdgesOf(q)[i];
      assert ColorsOf(col, q)[i].Some?;
      assert ei in col && col[ei] in s && col[ei] != col[e0];
      assert {col[e0], col[ei]} <= s;
      assert |{col[e0], col[ei]}| == 2;
      SubsetCard(s, {col[e0], col[ei]});
    }
  }

  lemma SubsetCard(s: set<Color>, t: set<Color>)
    requires t <= s
    ensures |t| <= |s|
  {
    assert s == t + (s - t);
  }

  /** `greedy_coloring_v3(n)`: colours every edge of K_n, one per step, each
      time the first (edge, colour) of least impact, and counts the cliques
      whose edges carry a single colour. `log` records the commits in
      order. */
  method GreedyColoringV3(n: nat) returns (col: Coloring, sameColoredK4: nat, ghost log: seq<Probe>)
    ensures col.Keys == EdgeSet(n)
    ensures CommitLog(log, col)
    ensures |log| == n * (n - 1) / 2
    ensures sameColoredK4 == MonoCount(col, n)
  {
    AllK4sFacts(n);
    AllEdgesFacts(n);
    var index := BuildEdgeIndex(n);
    col := map[];
    var allEdges := AllEdges(n);
    log := [];
    while |allEdges| > 0
      invariant Distinct(allEdges)
      invariant forall e :: e in allEdges <==> ValidEdge(e, n) && e !in col
      invariant col.Keys <= EdgeSet(n)
      invariant CommitLog(log, col)
      invariant |log| == |col|
      invariant |col| + |allEdges| == n * (n - 1) / 2
      decreases |allEdges|
    {
      ProbesNonEmpty(allEdges, {});
      var best, bestImpact, bi := SelectLeastImpact(index, col, allEdges);
      ProbesMembers(allEdges, {});
      var p := best.value;
      assert p in Probes(allEdges, {});
      CommitLogStep(log, col, p);
      RemoveMember(allEdges, p.edge);
      col := col[p.edge := p.color];
      allEdges := Remove(allEdges, p.edge);
      log := log + [p];
    }
    sameColoredK4 := CountWhere(AllK4s(n), q => SingleColor(col, q));
    forall q | ValidK4(q, n) && FullyColored(col, q)
      ensures SingleColor(col, q) <==> IsMono(col, q)
    {
      SingleColorIffMono(col, q);
    }
    CountsMono(col, n, q => SingleColor(col, q));
  }
}
