/** The sequential colourer of makehui.py: edges are coloured in list order,
    each with the colour whose "probability" over the cliques through the
    edge is smaller, and the result is scored by counting cliques whose
    colour attributes sum to 0 or 6. */
module Sequential {
  import opened Wrappers
  import opened Seqs
  import opened Graph
  import opened Enumeration
  import opened Score
  import opened Evaluation

  // ---- Colour arithmetic over a clique's six entries ----------------------

  /** `sum(get_edge_attributes(...).values())`: the colours of the coloured
      edges added up; an uncoloured edge has no attribute. */
  function ColorSum(cs: seq<Option<Color>>): nat {
    if |cs| == 0 then 0 else (if cs[0].Some? then cs[0].value else 0) + ColorSum(cs[1..])
  }

  /** With colours 0 and 1 the sum counts the entries of colour 1. */
  lemma {:induction false} ColorSumCountsOnes(cs: seq<Option<Color>>)
    ensures ColorSum(cs) == CountColor(cs, 1)
  {
    if |cs| > 0 {
      ColorSumCountsOnes(cs[1..]);
    }
  }

  /** Every coloured entry has colour 0 or colour 1. */
  lemma {:induction false} CountColoredSplit(cs: seq<Option<Color>>)
    ensures CountColored(cs) == CountColor(cs, 0) + CountColor(cs, 1)
  {
    if |cs| > 0 {
      CountColoredSplit(cs[1..]);
    }
  }

  /** A colour is counted at all exactly when it occurs. */
  lemma {:induction false} CountColorZero(cs: seq<Option<Color>>, c: Color)
    ensures CountColor(cs, c) == 0 <==> Some(c) !in cs
  {
    if |cs| > 0 {
      CountColorZero(cs[1..], c);
      assert forall x :: x in cs <==> x == cs[0] || x in cs[1..];
    }
  }

  /** Colouring one uncoloured entry adds one coloured entry. */
  lemma {:induction false} CountColoredFill(cs: seq<Option<Color>>, k: nat, c: Color)
    requires k < |cs| && cs[k].None?
    ensures CountColored(cs[k := Some(c)]) == CountColored(cs) + 1
  {
    if k > 0 {
      assert cs[k := Some(c)][1..] == cs[1..][k - 1 := Some(c)];
      CountColoredFill(cs[1..], k - 1, c);
    } else {
      assert cs[k := Some(c)][1..] == cs[1..];
    }
  }

  /** Colouring edge `e` of clique `q` changes only the entry of `e`. */
  lemma ColorsOfFill(col: Coloring, q: K4, n: nat, e: Edge, c: Color, k: nat)
    requires ValidK4(q, n) && k < 6 && EdgesOf(q)[k] == e
    ensures ColorsOf(col[e := c], q) == ColorsOf(col, q)[k := Some(c)]
  {
    EdgesOfValid(q, n);
  }

  // ---- count_k4_mono ------------------------------------------------------

  /** The test of line 23: the colour attributes of the clique sum to 6 or
      to 0. */
  predicate SumsToSixOrZero(col: Coloring, q: K4) {
    ColorSum(ColorsOf(col, q)) == 6 || ColorSum(ColorsOf(col, q)) == 0
  }

  /** On a fully coloured clique, summing to 6 or 0 means monochromatic. */
  lemma SumTestIsMono(col: Coloring, q: K4)
    requires FullyColored(col, q)
    ensures SumsToSixOrZero(col, q) <==> IsMono(col, q)
  {
    var cs := ColorsOf(col, q);
    ColorSumCountsOnes(cs);
    CountColoredSplit(cs);
    CountColoredAll(cs);
    CountColorZero(cs, 0);
    CountColorZero(cs, 1);
    assert cs[0] in cs;
    if SumsToSixOrZero(col, q) {
      var c: Color := if ColorSum(cs) == 6 then 1 else 0;
      forall i | 0 <= i < 6
        ensures cs[i] == Some(c)
      {
        assert cs[i] in cs;
      }
    }
  }

  /** `count_k4_mono(graph)`: the cliques met by the i < j < k < s loops,
      which are the cliques of K_n in `AllK4s` order, whose colours sum to 6
      or 0. With every edge coloured this is the number of monochromatic
      cliques. */
  function CountK4Mono(col: Coloring, n: nat): (r: nat)
    ensures TotalColoring(col, n) ==> r == MonoCount(col, n)
  {
    var r := CountWhere(AllK4s(n), q => SumsToSixOrZero(col, q));
    if TotalColoring(col, n) then
      assert forall q :: ValidK4(q, n) && FullyColored(col, q) ==> (SumsToSixOrZero(col, q) <==> IsMono(col, q)) by {
        forall q | ValidK4(q, n) && FullyColored(col, q)
          ensures SumsToSixOrZero(col, q) <==> IsMono(col, q)
        {
          SumTestIsMono(col, q);
        }
      }
      CountsMono(col, n, q => SumsToSixOrZero(col, q));
      r
    else r
  }

  // ---- calculate_probability_edge_color -----------------------------------

  function Min(x: nat, y: nat): nat {
    if x <= y then x else y
  }

  function Max(x: nat, y: nat): nat {
    if x <= y then y else x
  }

  /** `subgraph([w, x, y, z])` for four distinct vertices: the clique on
      them, its vertices put in increasing order by a five-comparator
      sorting network. */
  function CliqueOn(w: Vertex, x: Vertex, y: Vertex, z: Vertex): (q: K4)
    ensures HasVertex(q, w) && HasVertex(q, x) && HasVertex(q, y) && HasVertex(q, z)
    ensures q.a <= q.b <= q.c <= q.d
    ensures forall v :: HasVertex(q, v) ==> v == w || v == x || v == y || v == z
  {
    var w1, x1 := Min(w, x), Max(w, x);
    var y1, z1 := Min(y, z), Max(y, z);
    var w2, y2 := Min(w1, y1), Max(w1, y1);
    var x2, z2 := Min(x1, z1), Max(x1, z1);
    var x3, y3 := Min(x2, y2), Max(x2, y2);
    K4(w2, x3, y3, z2)
  }

  /** The pairs (i, j) the two loops of lines 38-44 visit for `e`: every
      i < j of K_n with neither endpoint on `e`, in loop order. */
  function Avoiding(ps: seq<Edge>, e: Edge): seq<Edge> {
    if |ps| == 0 then []
    else
      var p := ps[|ps| - 1];
      Avoiding(ps[..|ps| - 1], e) + (if p.u != e.u && p.u != e.v && p.v != e.u && p.v != e.v then [p] else [])
  }

  /** The cliques `subgraph([i, j, edge[0], edge[1]])` the loops meet. */
  function VisitedCliques(ps: seq<Edge>, e: Edge): (r: seq<K4>)
    ensures |r| == |ps|
  {
    if |ps| == 0 then []
    else
      var p := ps[|ps| - 1];
      VisitedCliques(ps[..|ps| - 1], e) + [CliqueOn(p.u, p.v, e.u, e.v)]
  }

  /** The term of one clique (lines 50-57), scaled by 64: 1/64 if none of
      its edges is coloured; otherwise, if every coloured edge has colour
      `c`, 2^-(6 - m) for `m` coloured edges; else nothing. */
  function ProbTerm(col: Coloring, q: K4, c: Color): nat {
    ProbTermOf(ColorsOf(col, q), c)
  }

  /** The same term, read from the clique's six colour entries. */
  function ProbTermOf(cs: seq<Option<Color>>, c: Color): nat {
    var m := CountColored(cs);
    var s := ColorSum(cs);
    if m == 0 then 1
    else if c == 1 then (if m == s then Pow2(m) else 0)
    else (if s == 0 then Pow2(m) else 0)
  }

  function ProbSum(col: Coloring, ks: seq<K4>, c: Color): nat {
    if |ks| == 0 then 0 else ProbSum(col, ks[..|ks| - 1], c) + ProbTerm(col, ks[|ks| - 1], c)
  }

  /** `calculate_probability_edge_color(graph, edge, c)`, scaled by 64. */
  function ProbabilityEdgeColor(n: nat, col: Coloring, e: Edge, c: Color): nat {
    ProbSum(col, VisitedCliques(Avoiding(AllEdges(n), e), e), c)
  }

  /** The pairs visited are exactly the edges of K_n off `e`, each once. */
  lemma {:induction false} AvoidingFacts(ps: seq<Edge>, e: Edge)
    ensures forall p :: p in Avoiding(ps, e) <==> p in ps && p.u != e.u && p.u != e.v && p.v != e.u && p.v != e.v
    ensures Distinct(ps) ==> Distinct(Avoiding(ps, e))
  {
    if |ps| > 0 {
      var init := ps[..|ps| - 1];
      assert ps == init + [ps[|ps| - 1]];
      AvoidingFacts(init, e);
      if Distinct(ps) {
        assert Distinct(init);
      }
    }
  }

  /** The clique on a visited pair and `e`: a valid clique through `e`
      whose other two vertices are the pair. */
  lemma CliqueOnPair(p: Edge, e: Edge, n: nat)
    requires ValidEdge(p, n) && ValidEdge(e, n)
    requires p.u != e.u && p.u != e.v && p.v != e.u && p.v != e.v
    ensures ValidK4(CliqueOn(p.u, p.v, e.u, e.v), n)
    ensures Contains(CliqueOn(p.u, p.v, e.u, e.v), e)
  {
    var q := CliqueOn(p.u, p.v, e.u, e.v);
    EdgesOfValid(q, n);
  }

  /** The two vertices of a clique through `e` other than its endpoints. */
  lemma OtherPair(q: K4, e: Edge, n: nat) returns (p: Edge)
    requires ValidK4(q, n) && ValidEdge(e, n) && Contains(q, e)
    ensures ValidEdge(p, n) && p.u != e.u && p.u != e.v && p.v != e.u && p.v != e.v
    ensures CliqueOn(p.u, p.v, e.u, e.v) == q
  {
    if e == Edge(q.a, q.b) {
      p := Edge(q.c, q.d);
    } else if e == Edge(q.a, q.c) {
      p := Edge(q.b, q.d);
    } else if e == Edge(q.a, q.d) {
      p := Edge(q.b, q.c);
    } else if e == Edge(q.b, q.c) {
      p := Edge(q.a, q.d);
    } else if e == Edge(q.b, q.d) {
      p := Edge(q.a, q.c);
    } else {
      p := Edge(q.a, q.b);
    }
  }

  /** Distinct pairs off `e` give distinct cliques. */
  lemma CliqueOnInjective(p1: Edge, p2: Edge, e: Edge, n: nat)
    requires ValidEdge(p1, n) && ValidEdge(p2, n) && ValidEdge(e, n)
    requires p1.u != e.u && p1.u != e.v && p1.v != e.u && p1.v != e.v
    requires p2.u != e.u && p2.u != e.v && p2.v != e.u && p2.v != e.v
    requires CliqueOn(p1.u, p1.v, e.u, e.v) == CliqueOn(p2.u, p2.v, e.u, e.v)
    ensures p1 == p2
  {
    var q := CliqueOn(p1.u, p1.v, e.u, e.v);
    assert HasVertex(q, p2.u) && HasVertex(q, p2.v);
  }

  lemma {:induction false} VisitedCliquesAt(ps: seq<Edge>, e: Edge, k: nat)
    requires k < |ps|
    ensures VisitedCliques(ps, e)[k] == CliqueOn(ps[k].u, ps[k].v, e.u, e.v)
  {
    if k < |ps| - 1 {
      assert ps[..|ps| - 1][k] == ps[k];
      VisitedCliquesAt(ps[..|ps| - 1], e, k);
    }
  }

  /** The loops of lines 38-44 meet every clique of K_n through `e` exactly
      once, and nothing else. */
  lemma VisitedAreThrough(n: nat, e: Edge)
    requires ValidEdge(e, n)
    ensures forall q :: q in VisitedCliques(Avoiding(AllEdges(n), e), e) <==> ValidK4(q, n) && Contains(q, e)
    ensures Distinct(VisitedCliques(Avoiding(AllEdges(n), e), e))
  {
    AllEdgesFacts(n);
    var ps := Avoiding(AllEdges(n), e);
    AvoidingFacts(AllEdges(n), e);
    var ks := VisitedCliques(ps, e);
    forall k | 0 <= k < |ps|
      ensures ks[k] == CliqueOn(ps[k].u, ps[k].v, e.u, e.v)
      ensures ValidK4(ks[k], n) && Contains(ks[k], e)
    {
      VisitedCliquesAt(ps, e, k);
      assert ps[k] in ps;
      CliqueOnPair(ps[k], e, n);
    }
    forall q | ValidK4(q, n) && Contains(q, e)
      ensures q in ks
    {
      var p := OtherPair(q, e, n);
      assert p in ps;
      var k :| 0 <= k < |ps| && ps[k] == p;
      assert ks[k] == q;
    }
    forall i, j | 0 <= i < j < |ks|
      ensures ks[i] != ks[j]
    {
      assert ps[i] in ps && ps[j] in ps;
      if ks[i] == ks[j] {
        CliqueOnInjective(ps[i], ps[j], e, n);
      }
    }
  }

  /** Filling an empty entry with `c` adds `c` to the colours present and
      nothing else. */
  lemma FillPresent(cs: seq<Option<Color>>, k: nat, c: Color, d: Color)
    requires k < |cs| && cs[k].None?
    ensures Some(d) in cs[k := Some(c)] <==> Some(d) in cs || d == c
  {
    var cs' := cs[k := Some(c)];
    assert cs'[k] == Some(c);
    if Some(d) in cs' && d != c {
      var i :| 0 <= i < |cs'| && cs'[i] == Some(d);
      assert cs[i] == Some(d);
    }
    if Some(d) in cs {
      var i :| 0 <= i < |cs| && cs[i] == Some(d);
      assert i != k && cs'[i] == Some(d);
    }
  }

  /** Filling an empty entry with `c` doubles the term: the term with `c`
      missing is half the penalty with `c` in place. */
  lemma FillHalves(cs: seq<Option<Color>>, k: nat, c: Color)
    requires k < |cs| && cs[k].None?
    ensures 2 * ProbTermOf(cs, c) == PenaltyOf(cs[k := Some(c)])
  {
    var cs' := cs[k := Some(c)];
    CountColoredFill(cs, k, c);
    ColorSumCountsOnes(cs);
    CountColoredSplit(cs);
    CountColorZero(cs, 1 - c);
    FillPresent(cs, k, c, c);
    FillPresent(cs, k, c, 1 - c);
    assert Mixed(cs') <==> Some(1 - c) in cs;
  }

  /** Per clique through an uncoloured edge `e`, the term is half the
      penalty the clique would have once `e` has colour `c`. */
  lemma ProbTermHalfPenalty(col: Coloring, q: K4, n: nat, e: Edge, c: Color)
    requires ValidK4(q, n) && Contains(q, e) && e !in col
    ensures 2 * ProbTerm(col, q, c) == Penalty(col[e := c], q)
  {
    var k :| 0 <= k < 6 && EdgesOf(q)[k] == e;
    ColorsOfFill(col, q, n, e, c, k);
    FillHalves(ColorsOf(col, q), k, c);
  }

  /** Summed over a list of cliques through an uncoloured `e`. */
  lemma {:induction false} ProbSumHalfPenalties(col: Coloring, ks: seq<K4>, n: nat, e: Edge, c: Color)
    requires e !in col
    requires forall q :: q in ks ==> ValidK4(q, n) && Contains(q, e)
    ensures 2 * ProbSum(col, ks, c) == PenaltySum(col[e := c], ks)
  {
    if |ks| > 0 {
      assert ks[|ks| - 1] in ks;
      assert forall q :: q in ks[..|ks| - 1] ==> q in ks;
      ProbSumHalfPenalties(col, ks[..|ks| - 1], n, e, c);
      ProbTermHalfPenalty(col, ks[|ks| - 1], n, e, c);
    }
  }

  /** The penalties of a list of cliques, added up. */
  function PenaltySum(col: Coloring, ks: seq<K4>): nat {
    if |ks| == 0 then 0 else PenaltySum(col, ks[..|ks| - 1]) + Penalty(col, ks[|ks| - 1])
  }

  /** For an uncoloured edge of K_n, twice the probability of `c` is the
      total penalty of the cliques through the edge once it has colour `c`,
      each of them counted once. */
  lemma ProbabilityIsHalfPenalty(n: nat, col: Coloring, e: Edge, c: Color)
    requires ValidEdge(e, n) && e !in col
    ensures forall q :: q in VisitedCliques(Avoiding(AllEdges(n), e), e) <==> ValidK4(q, n) && Contains(q, e)
    ensures Distinct(VisitedCliques(Avoiding(AllEdges(n), e), e))
    ensures 2 * ProbabilityEdgeColor(n, col, e, c) == PenaltySum(col[e := c], VisitedCliques(Avoiding(AllEdges(n), e), e))
  {
    VisitedAreThrough(n, e);
    ProbSumHalfPenalties(col, VisitedCliques(Avoiding(AllEdges(n), e), e), n, e, c);
  }

  // ---- The sequential loop ------------------------------------------------

  /** Line 78: the chosen colour is never the more probable one, and a tie
      goes to colour 0. */
  function ChosenColor(prob0: nat, prob1: nat): (r: Color)
    ensures (if r == 0 then prob0 else prob1) <= (if r == 0 then prob1 else prob0)
    ensures prob0 == prob1 ==> r == 0
  {
    if prob0 > prob1 then 1 else 0
  }

  /** The k-th edge of `es` was coloured, in `col`, with the less probable
      colour given `before`, which holds exactly the edges ahead of it. */
  ghost predicate ChoseAgainst(n: nat, es: seq<Edge>, col: Coloring, before: Coloring, k: nat)
    requires k < |es|
  {
    && before.Keys == (set e | e in es[..k])
    && Extends(before, col)
    && es[k] in col
    && col[es[k]] == ChosenColor(ProbabilityEdgeColor(n, before, es[k], 0),
                                 ProbabilityEdgeColor(n, before, es[k], 1))
  }

  /** Colouring a further, uncoloured edge keeps every earlier choice. */
  lemma ChoseAgainstStep(n: nat, es: seq<Edge>, col: Coloring, before: Coloring, k: nat, e: Edge, c: Color)
    requires k < |es| && ChoseAgainst(n, es, col, before, k) && e !in col
    ensures ChoseAgainst(n, es, col[e := c], before, k)
  {
  }

  /** The state of the loop of lines 71-80 after the first `idx` edges of
      `es`: those are coloured, the first with `firstColor`, and every later
      one with its less probable colour. */
  ghost predicate Colored(n: nat, es: seq<Edge>, firstColor: Color, col: Coloring, before: seq<Coloring>, idx: nat) {
    && 1 <= idx <= |es|
    && |before| == idx
    && col.Keys == (set e | e in es[..idx])
    && es[0] in col && col[es[0]] == firstColor
    && forall k :: 1 <= k < idx ==> ChoseAgainst(n, es, col, before[k], k)
  }

  /** One pass of lines 73-80 on `es[idx]`: the two probabilities, the
      choice, and the colouring of the edge. */
  method ColorNext(n: nat, es: seq<Edge>, ghost firstColor: Color, col: Coloring, ghost before: seq<Coloring>, idx: nat)
    returns (col': Coloring, ghost before': seq<Coloring>)
    requires Distinct(es) && idx < |es|
    requires Colored(n, es, firstColor, col, before, idx)
    ensures Extends(col, col') && col'.Keys == col.Keys + {es[idx]}
    ensures col'[es[idx]] == 1 <==> ProbabilityEdgeColor(n, col, es[idx], 1) < ProbabilityEdgeColor(n, col, es[idx], 0)
    ensures Colored(n, es, firstColor, col', before', idx + 1)
  {
    var e := es[idx];
    var prob0 := ProbabilityEdgeColor(n, col, e, 0);
    var prob1 := ProbabilityEdgeColor(n, col, e, 1);
    var chosen := ChosenColor(prob0, prob1);
    assert e !in col;
    forall k | 1 <= k < idx
      ensures ChoseAgainst(n, es, col[e := chosen], before[k], k)
    {
      ChoseAgainstStep(n, es, col, before[k], k, e, chosen);
    }
    assert ChoseAgainst(n, es, col[e := chosen], col, idx);
    before' := before + [col];
    col' := col[e := chosen];
    assert es[..idx + 1] == es[..idx] + [e];
  }

  /** Lines 60-80 and the count of line 83: colour the first edge with
      `firstColor` (drawn at random by the script), then every other edge
      in list order with the less probable colour given the edges coloured
      before it, and count the monochromatic cliques. `before[k]` is the
      colouring the k-th edge was chosen against. */
  method SequentialColoring(n: nat, firstColor: Color)
    returns (col: Coloring, numK4: nat, ghost before: seq<Coloring>)
    requires n >= 2
    ensures col.Keys == EdgeSet(n)
    ensures numK4 == MonoCount(col, n)
    ensures col[AllEdges(n)[0]] == firstColor
    ensures |before| == |AllEdges(n)|
    ensures forall k :: 1 <= k < |AllEdges(n)| ==> ChoseAgainst(n, AllEdges(n), col, before[k], k)
  {
    var es := AllEdges(n);
    AllEdgesFacts(n);
    col := map[es[0] := firstColor];
    before := [map[]];
    var idx := 1;
    assert es[..1] == [es[0]];
    while idx < |es|
      invariant Colored(n, es, firstColor, col, before, idx)
      decreases |es| - idx
    {
      col, before := ColorNext(n, es, firstColor, col, before, idx);
      idx := idx + 1;
    }
    assert es[..idx] == es;
    numK4 := CountK4Mono(col, n);
  }
}
