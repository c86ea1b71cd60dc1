/** The per-K4 penalty policy and the `k4_contributions` cache.

    Every score in the scripts is a multiple of 2^-6 between 0 and 1, so
    scores are kept here as integers scaled by 64: 2^-5 becomes 2 and
    2^(k-6) becomes 2^k. */
module Score {
  import opened Wrappers
  import opened Graph
  import opened Enumeration

  /** The factor 2^6 every score is multiplied by. */
  const Scale: nat := 64

  /** 2^-5, the score of a K4 none of whose edges is coloured, scaled. */
  const UncoloredScore: nat := 2

  function Pow2(k: nat): (r: nat)
    ensures r >= 1
  {
    if k == 0 then 1 else 2 * Pow2(k - 1)
  }

  lemma {:induction false} Pow2Monotone(j: nat, k: nat)
    requires j <= k
    ensures Pow2(j) <= Pow2(k)
    decreases k
  {
    if j < k {
      Pow2Monotone(j, k - 1);
    }
  }

  /** Number of entries equal to `Some(c)`. */
  function CountColor(cs: seq<Option<Color>>, c: Color): nat {
    if |cs| == 0 then 0 else (if cs[0] == Some(c) then 1 else 0) + CountColor(cs[1..], c)
  }

  /** Number of coloured entries. */
  function CountColored(cs: seq<Option<Color>>): nat {
    if |cs| == 0 then 0 else (if cs[0].Some? then 1 else 0) + CountColored(cs[1..])
  }

  /** Some entry carries a colour other than `c`. */
  predicate Conflicts(cs: seq<Option<Color>>, c: Color) {
    exists i :: 0 <= i < |cs| && cs[i].Some? && cs[i].value != c
  }

  /** Both colours occur. */
  predicate Mixed(cs: seq<Option<Color>>) {
    Some(0) in cs && Some(1) in cs
  }

  /** The score `update_k4_scores(edge, c)` writes for a clique `q`, read
      from the colouring as it stands when the update runs. */
  function PolicyScore(col: Coloring, q: K4, c: Color): (r: nat)
    ensures r <= Scale
    ensures r == 0 <==> Conflicts(ColorsOf(col, q), c)
  {
    var cs := ColorsOf(col, q);
    CountColorBound(cs, c);
    Pow2Monotone(CountColor(cs, c), 6);
    if Conflicts(cs, c) then 0
    else
      var k := CountColor(cs, c);
      if k > 0 then Pow2(k) else UncoloredScore
  }

  /** The colour-free penalty of six colour entries: 0 once both colours
      occur, otherwise 2^(k-6) for k coloured entries, or 2^-5 when none is. */
  function PenaltyOf(cs: seq<Option<Color>>): nat {
    if Mixed(cs) then 0
    else
      var k := CountColored(cs);
      if k > 0 then Pow2(k) else UncoloredScore
  }

  /** The penalty of a clique under a colouring. */
  function Penalty(col: Coloring, q: K4): nat {
    PenaltyOf(ColorsOf(col, q))
  }

  lemma {:induction false} CountColorBound(cs: seq<Option<Color>>, c: Color)
    ensures CountColor(cs, c) <= |cs|
  {
    if |cs| > 0 {
      CountColorBound(cs[1..], c);
    }
  }

  lemma {:induction false} CountColorAll(cs: seq<Option<Color>>, c: Color)
    requires !Conflicts(cs, c)
    ensures CountColor(cs, c) == CountColored(cs)
  {
    if |cs| > 0 {
      assert !Conflicts(cs[1..], c) by {
        forall i | 0 <= i < |cs| - 1 && cs[1..][i].Some?
          ensures cs[1..][i].value == c
        {
          assert cs[i + 1] == cs[1..][i];
        }
      }
      CountColorAll(cs[1..], c);
    }
  }

  lemma {:induction false} CountColoredNone(cs: seq<Option<Color>>)
    requires forall i :: 0 <= i < |cs| ==> cs[i].None?
    ensures CountColored(cs) == 0
  {
    if |cs| > 0 {
      CountColoredNone(cs[1..]);
    }
  }

  lemma {:induction false} CountColoredAll(cs: seq<Option<Color>>)
    requires forall i :: 0 <= i < |cs| ==> cs[i].Some?
    ensures CountColored(cs) == |cs|
  {
    if |cs| > 0 {
      CountColoredAll(cs[1..]);
    }
  }

  /** Once `c` is present in the clique, the score `update_k4_scores(_, c)`
      writes is the colour-free penalty: the update is exact right after a
      commit of colour `c` to one of the clique's edges. */
  lemma PolicyIsPenalty(col: Coloring, q: K4, c: Color)
    requires Some(c) in ColorsOf(col, q)
    ensures PolicyScore(col, q, c) == Penalty(col, q)
  {
    var cs := ColorsOf(col, q);
    if Conflicts(cs, c) {
      var i :| 0 <= i < |cs| && cs[i].Some? && cs[i].value != c;
      assert cs[i] == Some(1 - c);
      assert Mixed(cs);
    } else {
      assert Some(1 - c) !in cs;
      CountColorAll(cs, c);
    }
  }

  /** On a fully coloured clique the penalty is positive exactly when the
      clique is monochromatic. */
  lemma PenaltyPositiveIffMono(col: Coloring, q: K4)
    requires FullyColored(col, q)
    ensures Penalty(col, q) > 0 <==> IsMono(col, q)
  {
    var cs := ColorsOf(col, q);
    if IsMono(col, q) {
      var c := cs[0].value;
      assert Some(1 - c) !in cs;
      CountColoredAll(cs);
    } else {
      var i :| 0 <= i < 6 && cs[i] != cs[0];
      assert cs[i].value != cs[0].value;
      assert Mixed(cs);
    }
  }

  /** A zero penalty is permanent: the two colours that caused it stay on
      their edges in every extension of the colouring. */
  lemma {:induction false} ZeroStaysZero(col1: Coloring, col2: Coloring, q: K4)
    requires Extends(col1, col2)
    requires Penalty(col1, q) == 0
    ensures Penalty(col2, q) == 0
  {
    var cs1, cs2 := ColorsOf(col1, q), ColorsOf(col2, q);
    assert Mixed(cs1);
    var i :| 0 <= i < 6 && cs1[i] == Some(0);
    var j :| 0 <= j < 6 && cs1[j] == Some(1);
    assert cs2[i] == Some(0) && cs2[j] == Some(1);
  }

  /** The edges of `q` that carry a colour. */
  function ColoredEdges(col: Coloring, q: K4): set<Edge> {
    set e | e in EdgesOf(q) && e in col
  }

  /** Over edges without repeats, the number of coloured entries is the
      number of distinct coloured edges. */
  lemma {:induction false} CountColoredCard(col: Coloring, es: seq<Edge>, cs: seq<Option<Color>>)
    requires |cs| == |es|
    requires forall i, j :: 0 <= i < j < |es| ==> es[i] != es[j]
    requires forall i :: 0 <= i < |es| ==> cs[i] == Lookup(col, es[i])
    ensures CountColored(cs) == |set e | e in es && e in col|
  {
    if |es| > 0 {
      var tail := es[1..];
      assert forall i, j :: 0 <= i < j < |tail| ==> tail[i] != tail[j] by {
        forall i, j | 0 <= i < j < |tail|
          ensures tail[i] != tail[j]
        {
          assert tail[i] == es[i + 1] && tail[j] == es[j + 1];
        }
      }
      CountColoredCard(col, tail, cs[1..]);
      var rest := set e | e in tail && e in col;
      assert es[0] !in tail by {
        forall i | 0 <= i < |tail|
          ensures tail[i] != es[0]
        {
          assert tail[i] == es[i + 1];
        }
      }
      assert es == [es[0]] + tail;
      if es[0] in col {
        assert (set e | e in es && e in col) == rest + {es[0]};
      } else {
        assert (set e | e in es && e in col) == rest;
      }
    }
  }

  /** The colour entries of a valid clique count its coloured edges. */
  lemma CountColoredEdges(col: Coloring, q: K4, n: nat)
    requires ValidK4(q, n)
    ensures CountColored(ColorsOf(col, q)) == |ColoredEdges(col, q)|
  {
    EdgesOfValid(q, n);
    CountColoredCard(col, EdgesOf(q), ColorsOf(col, q));
  }

  /** A clique with no coloured edge scores 2^-5. */
  lemma PenaltyUncolored(col: Coloring, q: K4)
    requires ColoredEdges(col, q) == {}
    ensures Penalty(col, q) == UncoloredScore
  {
    var cs, es := ColorsOf(col, q), EdgesOf(q);
    assert forall i :: 0 <= i < 6 ==> es[i] !in ColoredEdges(col, q);
    CountColoredNone(cs);
    assert Some(0) !in cs;
  }

  /** A clique with an edge of each colour scores 0. */
  lemma PenaltyBothColors(col: Coloring, q: K4, e0: Edge, e1: Edge)
    requires e0 in ColoredEdges(col, q) && col[e0] == 0
    requires e1 in ColoredEdges(col, q) && col[e1] == 1
    ensures Penalty(col, q) == 0
  {
    var cs, es := ColorsOf(col, q), EdgesOf(q);
    var i :| 0 <= i < 6 && es[i] == e0;
    var j :| 0 <= j < 6 && es[j] == e1;
    assert cs[i] == Some(0) && cs[j] == Some(1);
    assert Mixed(cs);
  }

  /** A clique whose k > 0 coloured edges all carry `c` scores 2^(k-6). */
  lemma PenaltySingleColor(col: Coloring, q: K4, n: nat, c: Color)
    requires ValidK4(q, n)
    requires ColoredEdges(col, q) != {}
    requires forall e :: e in ColoredEdges(col, q) ==> col[e] == c
    ensures Penalty(col, q) == Pow2(|ColoredEdges(col, q)|)
  {
    var cs, es := ColorsOf(col, q), EdgesOf(q);
    CountColoredEdges(col, q, n);
    assert Some(1 - c) !in cs by {
      forall i | 0 <= i < 6
        ensures cs[i] != Some(1 - c)
      {
        if es[i] in col {
          assert es[i] in ColoredEdges(col, q);
        }
      }
    }
  }

  /** The values of the penalty in terms of the clique's edges: 2^-5 when
      none is coloured, 0 once one edge has colour 0 and another colour 1,
      and 2^(k-6) when its k > 0 coloured edges all carry the colour `c`. */
  lemma PenaltyValues(col: Coloring, q: K4, n: nat, c: Color)
    requires ValidK4(q, n)
    ensures ColoredEdges(col, q) == {} ==> Penalty(col, q) == UncoloredScore
    ensures ((exists e0 :: e0 in ColoredEdges(col, q) && col[e0] == 0) &&
             (exists e1 :: e1 in ColoredEdges(col, q) && col[e1] == 1)) ==> Penalty(col, q) == 0
    ensures ColoredEdges(col, q) != {} && (forall e :: e in ColoredEdges(col, q) ==> col[e] == c) ==>
      Penalty(col, q) == Pow2(|ColoredEdges(col, q)|)
  {
    if ColoredEdges(col, q) == {} {
      PenaltyUncolored(col, q);
    }
    if (exists e0 :: e0 in ColoredEdges(col, q) && col[e0] == 0) &&
       (exists e1 :: e1 in ColoredEdges(col, q) && col[e1] == 1) {
      var e0 :| e0 in ColoredEdges(col, q) && col[e0] == 0;
      var e1 :| e1 in ColoredEdges(col, q) && col[e1] == 1;
      PenaltyBothColors(col, q, e0, e1);
    }
    if ColoredEdges(col, q) != {} && (forall e :: e in ColoredEdges(col, q) ==> col[e] == c) {
      PenaltySingleColor(col, q, n, c);
    }
  }

  /** The score `update_k4_scores(_, c)` writes is the clique's penalty
      unless the clique already holds the other colour, and 0 if it does. */
  lemma PolicyAgainstPenalty(col: Coloring, q: K4, c: Color)
    ensures !Conflicts(ColorsOf(col, q), c) ==> PolicyScore(col, q, c) == Penalty(col, q)
    ensures Conflicts(ColorsOf(col, q), c) ==> PolicyScore(col, q, c) == 0
  {
    var cs := ColorsOf(col, q);
    if !Conflicts(cs, c) {
      CountColorAll(cs, c);
    }
  }

  // ---- The k4_contributions cache ----------------------------------------

  /** The exact penalty of every clique of K_n under `col`. */
  function Scores(col: Coloring, n: nat): (m: map<K4, nat>)
    ensures m.Keys == K4Set(n)
  {
    map q | q in K4Set(n) :: Penalty(col, q)
  }

  /** A cache that covers every clique and holds each clique's penalty is
      the exact cache. */
  lemma ExactScores(m: map<K4, nat>, col: Coloring, n: nat)
    requires m.Keys == K4Set(n)
    requires forall q :: q in K4Set(n) ==> m[q] == Penalty(col, q)
    ensures m == Scores(col, n)
  {
    assert forall q :: q in m ==> m[q] == Scores(col, n)[q];
  }

  /** The cache as initialised: every clique at 2^-5. */
  function InitialScores(n: nat): (m: map<K4, nat>)
    ensures m.Keys == K4Set(n)
    ensures m == Scores(map[], n)
  {
    forall q | q in K4Set(n)
      ensures Penalty(map[], q) == UncoloredScore
    {
      CountColoredNone(ColorsOf(map[], q));
    }
    map q | q in K4Set(n) :: UncoloredScore
  }

  /** The cliques of `ks` that contain `e`: the `affected_k4s` scan of
      `all_k4s`. */
  function Affected(ks: seq<K4>, e: Edge): set<K4> {
    set q | q in ks && Contains(q, e)
  }

  /** `update_k4_scores(edge, c, undo)`: rescores the cliques in `affected`
      from `col` (or, with `undo`, resets them to 2^-5) and leaves every
      other entry alone. */
  function UpdateScores(m: map<K4, nat>, affected: set<K4>, col: Coloring, c: Color, undo: bool): (r: map<K4, nat>)
    ensures r.Keys == m.Keys
    ensures forall q :: q in m && q !in affected ==> r[q] == m[q]
    ensures undo ==> forall q :: q in m && q in affected ==> r[q] == UncoloredScore
  {
    map q | q in m :: if q in affected then (if undo then UncoloredScore else PolicyScore(col, q, c)) else m[q]
  }

  /** `original_scores`: the entries of the affected cliques. */
  function Snapshot(m: map<K4, nat>, affected: set<K4>): map<K4, nat>
    requires affected <= m.Keys
  {
    map q | q in affected :: m[q]
  }

  /** `k4_contributions.update(original_scores)` undoes a trial update
      exactly, whatever the trial wrote. */
  lemma RevertRestores(m: map<K4, nat>, affected: set<K4>, col: Coloring, c: Color, undo: bool)
    requires affected <= m.Keys
    ensures UpdateScores(m, affected, col, c, undo) + Snapshot(m, affected) == m
  {
  }

  /** Colouring `e` with `c` and then running `update_k4_scores(e, c)`
      turns exact scores for `col` into exact scores for the new colouring. */
  lemma CommitRescores(col: Coloring, n: nat, e: Edge, c: Color)
    ensures forall q :: q in K4Set(n) ==>
      UpdateScores(Scores(col, n), Affected(AllK4s(n), e), col[e := c], c, false)[q] == Penalty(col[e := c], q)
  {
    var col' := col[e := c];
    AllK4sFacts(n);
    forall q | q in K4Set(n)
      ensures UpdateScores(Scores(col, n), Affected(AllK4s(n), e), col', c, false)[q] == Penalty(col', q)
    {
      if Contains(q, e) {
        var i :| 0 <= i < 6 && EdgesOf(q)[i] == e;
        assert ColorsOf(col', q)[i] == Some(c);
        PolicyIsPenalty(col', q, c);
      } else {
        ColorsOfFrame(col, q, e, c);
      }
    }
  }

  /** `sum(k4_contributions.values())`, over the cliques in insertion order. */
  function Total(m: map<K4, nat>, ks: seq<K4>): nat {
    if |ks| == 0 then 0 else (if ks[0] in m then m[ks[0]] else 0) + Total(m, ks[1..])
  }

  /** The penalties, under `col`, of the cliques of `ks` through `e` that
      already hold the colour other than `c`: the cliques a trial of `c` on
      `e` scores 0. */
  function BrokenPenalty(col: Coloring, ks: seq<K4>, e: Edge, c: Color): nat {
    if |ks| == 0 then 0
    else
      (if Contains(ks[0], e) && Conflicts(ColorsOf(col, ks[0]), c) then Penalty(col, ks[0]) else 0)
      + BrokenPenalty(col, ks[1..], e, c)
  }

  /** Over cliques whose cached score is their penalty, a trial of `c` on
      `e` lowers the total by exactly the penalties of the cliques through
      `e` that hold the other colour, and changes nothing else. */
  lemma {:induction false} TrialBreaksOn(m: map<K4, nat>, affected: set<K4>, col: Coloring, ks: seq<K4>, e: Edge, c: Color)
    requires forall q :: q in ks ==> q in m && m[q] == Penalty(col, q) && (q in affected <==> Contains(q, e))
    ensures Total(UpdateScores(m, affected, col, c, false), ks) + BrokenPenalty(col, ks, e, c) == Total(m, ks)
  {
    if |ks| > 0 {
      var q := ks[0];
      assert forall x :: x in ks[1..] ==> x in ks;
      TrialBreaksOn(m, affected, col, ks[1..], e, c);
      PolicyAgainstPenalty(col, q, c);
    }
  }
}
