/** What the greedy loops probe and how they pick: every uncoloured
    (edge, colour) pair in list order, colour 0 before colour 1, keeping
    the first pair whose score is strictly below the best so far. */
module Selection {
  import opened Wrappers
  import opened Graph

  /** A candidate assignment: colour `color` for edge `edge`. */
  datatype Probe = Probe(edge: Edge, color: Color)

  /** The probes of the loop `for edge in es: if edge not in skip: for
      color in [0, 1]`, in the order it makes them. */
  function Probes(es: seq<Edge>, skip: set<Edge>): seq<Probe> {
    if |es| == 0 then []
    else
      var e := es[|es| - 1];
      Probes(es[..|es| - 1], skip) + (if e in skip then [] else [Probe(e, 0), Probe(e, 1)])
  }

  /** Every probe is for an edge of the list outside `skip`. */
  lemma {:induction false} ProbesMembers(es: seq<Edge>, skip: set<Edge>)
    ensures forall p :: p in Probes(es, skip) ==> p.edge in es && p.edge !in skip
  {
    if |es| > 0 {
      ProbesMembers(es[..|es| - 1], skip);
    }
  }

  /** The probes of one more edge follow the probes already made. */
  lemma ProbesSnoc(es: seq<Edge>, i: nat, skip: set<Edge>)
    requires i < |es|
    ensures Probes(es[..i + 1], skip) ==
      Probes(es[..i], skip) + (if es[i] in skip then [] else [Probe(es[i], 0), Probe(es[i], 1)])
  {
    assert es[..i + 1][..i] == es[..i];
  }

  /** A list with an edge outside `skip` has something to probe. */
  lemma ProbesNonEmpty(es: seq<Edge>, skip: set<Edge>)
    requires |es| > 0 && forall e :: e in es ==> e !in skip
    ensures |Probes(es, skip)| >= 2
  {
  }

  /** Every edge of the list outside `skip` is probed with both colours. */
  lemma {:induction false} ProbesComplete(es: seq<Edge>, skip: set<Edge>)
    ensures forall e, c: Color :: e in es && e !in skip ==> Probe(e, c) in Probes(es, skip)
  {
    if |es| > 0 {
      var init, last := es[..|es| - 1], es[|es| - 1];
      ProbesComplete(init, skip);
      forall e, c: Color | e in es && e !in skip
        ensures Probe(e, c) in Probes(es, skip)
      {
        if e == last {
          var tail := [Probe(e, 0), Probe(e, 1)];
          assert Probe(e, c) in tail;
        } else {
          assert es == init + [last];
          assert e in init;
        }
      }
    }
  }

  /** The probe of an edge with colour 0 is among the probes when the edge
      is listed and not skipped. */
  lemma ProbedFirst(es: seq<Edge>, skip: set<Edge>, e: Edge)
    ensures e in es && e !in skip ==> Probe(e, 0) in Probes(es, skip)
  {
    ProbesComplete(es, skip);
  }

  /** Index `i` holds the first minimum of `scores`: nothing is smaller, and
      everything before it is strictly larger. This is what a scan with a
      strict `<` against the best so far selects. */
  predicate FirstMinimum(scores: seq<int>, i: int) {
    && 0 <= i < |scores|
    && (forall j :: 0 <= j < |scores| ==> scores[i] <= scores[j])
    && (forall j :: 0 <= j < i ==> scores[i] < scores[j])
  }

  /** One more step of the strict-`<` scan keeps the first minimum. */
  lemma FirstMinimumStep(scores: seq<int>, i: int, x: int)
    requires FirstMinimum(scores, i)
    ensures x < scores[i] ==> FirstMinimum(scores + [x], |scores|)
    ensures x >= scores[i] ==> FirstMinimum(scores + [x], i)
  {
    var s := scores + [x];
    assert forall j :: 0 <= j < |scores| ==> s[j] == scores[j];
  }

  /** The score of each probe of `ps`, in order. */
  function ScoresOf(ps: seq<Probe>, f: Probe -> int): (r: seq<int>)
    ensures |r| == |ps|
    ensures forall k :: 0 <= k < |ps| ==> r[k] == f(ps[k])
  {
    seq(|ps|, k requires 0 <= k < |ps| => f(ps[k]))
  }

  lemma ScoresOfSnoc(ps: seq<Probe>, f: Probe -> int, p: Probe)
    ensures ScoresOf(ps + [p], f) == ScoresOf(ps, f) + [f(p)]
  {
  }

  /** After the probes `seen`, with `scores` their scores, `best` is the
      first probe of least score (None before the first probe, standing for
      the `float('inf')` start) and `bestScore` its score. */
  predicate BestSoFar(seen: seq<Probe>, scores: seq<int>, best: Option<Probe>, bestScore: int, bi: nat) {
    && |scores| == |seen|
    && (best.None? <==> |seen| == 0)
    && (best.Some? ==> bi < |seen| && seen[bi] == best.value && bestScore == scores[bi] && FirstMinimum(scores, bi))
  }

  /** One probe of the scan `if score < best_score: best = probe`. */
  lemma BestSoFarStep(seen: seq<Probe>, scores: seq<int>, best: Option<Probe>, bestScore: int, bi: nat,
                      p: Probe, x: int)
    requires BestSoFar(seen, scores, best, bestScore, bi)
    ensures best.None? || x < bestScore ==> BestSoFar(seen + [p], scores + [x], Some(p), x, |seen|)
    ensures !(best.None? || x < bestScore) ==> BestSoFar(seen + [p], scores + [x], best, bestScore, bi)
  {
    if best.Some? {
      FirstMinimumStep(scores, bi, x);
    }
  }

  /** At the end of a scan over the probes `ps`, the best probe is one of
      them, exists as soon as there is a probe, and scores no more than any
      of them. */
  lemma BestIsLeast(ps: seq<Probe>, f: Probe -> int, best: Option<Probe>, bestScore: int, bi: nat)
    requires BestSoFar(ps, ScoresOf(ps, f), best, bestScore, bi)
    ensures best.Some? <==> |ps| > 0
    ensures best.Some? ==> best.value in ps && bestScore == f(best.value)
    ensures forall p :: p in ps ==> best.Some? && bestScore <= f(p)
  {
    forall p | p in ps
      ensures best.Some? && bestScore <= f(p)
    {
      var k :| 0 <= k < |ps| && ps[k] == p;
      assert ScoresOf(ps, f)[k] == f(p);
    }
  }

  /** Records of the commits a greedy run made, in order. */
  predicate CommitLog(log: seq<Probe>, col: Coloring) {
    && (forall i, j :: 0 <= i < j < |log| ==> log[i].edge != log[j].edge)
    && (forall i :: 0 <= i < |log| ==> log[i].edge in col && col[log[i].edge] == log[i].color)
    && (forall e :: e in col ==> exists i :: 0 <= i < |log| && log[i].edge == e)
  }

  /** Committing a fresh edge extends the log and the colouring together. */
  lemma CommitLogStep(log: seq<Probe>, col: Coloring, p: Probe)
    requires CommitLog(log, col) && p.edge !in col
    ensures CommitLog(log + [p], col[p.edge := p.color])
    ensures Extends(col, col[p.edge := p.color])
  {
    var log', col' := log + [p], col[p.edge := p.color];
    forall e | e in col'
      ensures exists i :: 0 <= i < |log'| && log'[i].edge == e
    {
      if e == p.edge {
        assert log'[|log|].edge == e;
      } else {
        var i :| 0 <= i < |log| && log[i].edge == e;
        assert log'[i].edge == e;
      }
    }
  }

  /** The colouring that committing `log` in order builds from the empty
      colouring. */
  function Replay(log: seq<Probe>): Coloring {
    if |log| == 0 then map[]
    else Replay(log[..|log| - 1])[log[|log| - 1].edge := log[|log| - 1].color]
  }

  /** Replaying a log without repeated edges colours exactly its edges, each
      with its logged colour. */
  lemma {:induction false} ReplayColors(log: seq<Probe>)
    requires forall i, j :: 0 <= i < j < |log| ==> log[i].edge != log[j].edge
    ensures forall e :: e in Replay(log) <==> exists i :: 0 <= i < |log| && log[i].edge == e
    ensures forall i :: 0 <= i < |log| ==> Replay(log)[log[i].edge] == log[i].color
  {
    if |log| > 0 {
      var init, last := log[..|log| - 1], log[|log| - 1];
      ReplayColors(init);
      forall e
        ensures e in Replay(log) <==> exists i :: 0 <= i < |log| && log[i].edge == e
      {
        if e in Replay(init) {
          var i :| 0 <= i < |init| && init[i].edge == e;
          assert log[i].edge == e;
        }
        if exists i :: 0 <= i < |log| && log[i].edge == e {
          var i :| 0 <= i < |log| && log[i].edge == e;
          if i < |init| {
            assert init[i].edge == e;
          }
        }
      }
      forall i | 0 <= i < |log|
        ensures Replay(log)[log[i].edge] == log[i].color
      {
        if i < |init| {
          assert init[i] == log[i];
        }
      }
    }
  }

  /** Replaying a log without repeated edges, every step colours an edge
      that is still uncoloured. */
  lemma ReplayFresh(log: seq<Probe>, i: nat)
    requires forall i, j :: 0 <= i < j < |log| ==> log[i].edge != log[j].edge
    requires i < |log|
    ensures log[i].edge !in Replay(log[..i])
  {
    var pre := log[..i];
    assert forall j, k :: 0 <= j < k < |pre| ==> pre[j].edge != pre[k].edge by {
      forall j, k | 0 <= j < k < |pre|
        ensures pre[j].edge != pre[k].edge
      {
        assert pre[j] == log[j] && pre[k] == log[k];
      }
    }
    ReplayColors(pre);
    forall j | 0 <= j < |pre|
      ensures pre[j].edge != log[i].edge
    {
      assert pre[j] == log[j];
    }
  }

  /** A commit log is a run that builds the colouring: replayed from the
      empty colouring, every step colours an edge that is still uncoloured,
      and the last step leaves exactly `col`. */
  lemma CommitLogReplays(log: seq<Probe>, col: Coloring)
    requires CommitLog(log, col)
    ensures forall e :: e in Replay(log) <==> e in col
    ensures forall e :: e in col ==> Replay(log)[e] == col[e]
    ensures forall i :: 0 <= i < |log| ==> log[i].edge !in Replay(log[..i])
  {
    ReplayEndsAt(log, col);
    forall i | 0 <= i < |log|
      ensures log[i].edge !in Replay(log[..i])
    {
      ReplayFresh(log, i);
    }
  }

  /** Replaying a commit log ends at the colouring it describes. */
  lemma ReplayEndsAt(log: seq<Probe>, col: Coloring)
    requires CommitLog(log, col)
    ensures Replay(log) == col
  {
    ReplayColors(log);
    var r := Replay(log);
    forall e | e in col
      ensures e in r && r[e] == col[e]
    {
      var i :| 0 <= i < |log| && log[i].edge == e;
    }
    assert r.Keys == col.Keys;
  }
}
