/** `edge_to_k4s`: the index from an edge to the cliques containing it,
    built in improve_v2.py and improve_v3.py. */
module EdgeIndex {
  import opened Wrappers
  import opened Seqs
  import opened Graph
  import opened Enumeration

  /** The cliques of `ks` that contain `e`, in the order of `ks`. */
  function K4sWith(ks: seq<K4>, e: Edge): seq<K4> {
    if |ks| == 0 then []
    else K4sWith(ks[..|ks| - 1], e) + (if Contains(ks[|ks| - 1], e) then [ks[|ks| - 1]] else [])
  }

  lemma {:induction false} K4sWithFacts(ks: seq<K4>, e: Edge)
    ensures forall q :: q in K4sWith(ks, e) <==> q in ks && Contains(q, e)
    ensures Distinct(ks) ==> Distinct(K4sWith(ks, e))
  {
    if |ks| > 0 {
      var init, last := ks[..|ks| - 1], ks[|ks| - 1];
      K4sWithFacts(init, e);
      assert ks == init + [last];
      if Distinct(ks) {
        assert Distinct(init);
        assert last !in init;
        DistinctConcat(K4sWith(init, e), if Contains(last, e) then [last] else []);
      }
    }
  }

  /** `index` maps each edge to the cliques of `ks` containing it, in order,
      and has no key for an edge that lies in no clique. */
  ghost predicate IsEdgeIndex(index: map<Edge, seq<K4>>, ks: seq<K4>) {
    && (forall e :: e in index ==> index[e] == K4sWith(ks, e) && |index[e]| > 0)
    && (forall e :: e !in index ==> K4sWith(ks, e) == [])
  }

  /** `if edge not in edge_to_k4s: edge_to_k4s[edge] = []` followed by
      `edge_to_k4s[edge].append(q)`. */
  function AddTo(index: map<Edge, seq<K4>>, e: Edge, q: K4): map<Edge, seq<K4>> {
    if e in index then index[e := index[e] + [q]] else index[e := [q]]
  }

  /** The index after appending `q` under its first `j` edges. */
  ghost predicate PartlyAppended(index: map<Edge, seq<K4>>, ks: seq<K4>, q: K4, j: nat)
    requires j <= 6
  {
    && (forall e :: e in index ==>
          index[e] == K4sWith(ks, e) + (if e in EdgesOf(q)[..j] then [q] else []) && |index[e]| > 0)
    && (forall e :: e !in index ==> K4sWith(ks, e) == [] && e !in EdgesOf(q)[..j])
  }

  lemma PartlyAppendedStep(index: map<Edge, seq<K4>>, ks: seq<K4>, q: K4, j: nat)
    requires j < 6 && Distinct(EdgesOf(q))
    requires PartlyAppended(index, ks, q, j)
    ensures PartlyAppended(AddTo(index, EdgesOf(q)[j], q), ks, q, j + 1)
  {
    var edges := EdgesOf(q);
    assert edges[j] !in edges[..j];
    assert forall e :: e in edges[..j + 1] <==> e in edges[..j] || e == edges[j];
  }

  lemma {:induction false} K4sWithSnoc(ks: seq<K4>, q: K4, e: Edge)
    ensures K4sWith(ks + [q], e) == K4sWith(ks, e) + (if Contains(q, e) then [q] else [])
  {
    assert (ks + [q])[..|ks|] == ks;
  }

  lemma PartlyAppendedDone(index: map<Edge, seq<K4>>, ks: seq<K4>, q: K4)
    requires PartlyAppended(index, ks, q, 6)
    ensures IsEdgeIndex(index, ks + [q])
  {
    assert EdgesOf(q)[..6] == EdgesOf(q);
    forall e
      ensures K4sWith(ks + [q], e) == K4sWith(ks, e) + (if Contains(q, e) then [q] else [])
    {
      K4sWithSnoc(ks, q, e);
    }
  }

  /** The inner loop of improve_v2.py lines 42-45: append clique `q` to
      the list of each of its six edges. */
  method AppendClique(index: map<Edge, seq<K4>>, ghost ks: seq<K4>, q: K4) returns (index': map<Edge, seq<K4>>)
    requires IsEdgeIndex(index, ks)
    requires Distinct(EdgesOf(q))
    ensures IsEdgeIndex(index', ks + [q])
  {
    var edges := EdgesOf(q);
    index' := index;
    var j := 0;
    while j < 6
      invariant 0 <= j <= 6
      invariant PartlyAppended(index', ks, q, j)
    {
      PartlyAppendedStep(index', ks, q, j);
      index' := AddTo(index', edges[j], q);
      j := j + 1;
    }
    PartlyAppendedDone(index', ks, q);
  }

  /** improve_v2.py lines 40-45 (improve_v3.py lines 27-31): every clique,
      in enumeration order, appended to the lists of its six edges. */
  method BuildEdgeIndex(n: nat) returns (index: map<Edge, seq<K4>>)
    ensures IsEdgeIndex(index, AllK4s(n))
  {
    var ks := AllK4s(n);
    AllK4sFacts(n);
    index := map[];
    var i := 0;
    while i < |ks|
      invariant 0 <= i <= |ks|
      invariant IsEdgeIndex(index, ks[..i])
    {
      EdgesOfValid(ks[i], n);
      assert ks[..i + 1] == ks[..i] + [ks[i]];
      index := AppendClique(index, ks[..i], ks[i]);
      i := i + 1;
    }
    assert ks[..i] == ks;
  }

  /** `edge_to_k4s[edge]` as the scripts write it: a missing key raises
      KeyError, shown as None. */
  function LookupAsWritten(index: map<Edge, seq<K4>>, e: Edge): Option<seq<K4>> {
    if e in index then Some(index[e]) else None
  }

  /** `edge_to_k4s.get(edge, [])`: the lookup with an empty list for an
      edge that lies in no clique. */
  function AffectedK4s(index: map<Edge, seq<K4>>, e: Edge): seq<K4> {
    if e in index then index[e] else []
  }

  /** The index answers, for every edge, exactly the cliques containing it,
      each once, in enumeration order. */
  lemma AffectedK4sExact(index: map<Edge, seq<K4>>, n: nat, e: Edge)
    requires IsEdgeIndex(index, AllK4s(n))
    ensures AffectedK4s(index, e) == K4sWith(AllK4s(n), e)
    ensures forall q :: q in AffectedK4s(index, e) <==> ValidK4(q, n) && Contains(q, e)
    ensures Distinct(AffectedK4s(index, e))
  {
    AllK4sFacts(n);
    K4sWithFacts(AllK4s(n), e);
  }

  /** A clique of K_n has six distinct edges. */
  lemma SixEdges(q: K4, n: nat)
    requires ValidK4(q, n)
    ensures |set e | e in EdgesOf(q)| == 6
  {
    var es := EdgesOf(q);
    EdgesOfValid(q, n);
    assert (set e | e in es) == {es[0], es[1], es[2], es[3], es[4], es[5]};
  }

  /** Each clique of K_n is listed under exactly its six edges. */
  lemma CliqueListedSixTimes(index: map<Edge, seq<K4>>, n: nat, q: K4)
    requires IsEdgeIndex(index, AllK4s(n)) && ValidK4(q, n)
    ensures (set e | e in index && q in index[e]) == set e | e in EdgesOf(q)
    ensures |set e | e in index && q in index[e]| == 6
  {
    AllK4sFacts(n);
    forall e
      ensures e in index && q in index[e] <==> e in EdgesOf(q)
    {
      K4sWithFacts(AllK4s(n), e);
    }
    SixEdges(q, n);
  }

  /** For n = 2 or 3, K_n has edges but no clique, so the index is empty
      and the first `edge_to_k4s[edge]` of the greedy loop raises KeyError
      on the edge (0, 1). */
  lemma KeyErrorBelowFour(index: map<Edge, seq<K4>>, n: nat)
    requires n == 2 || n == 3
    requires IsEdgeIndex(index, AllK4s(n))
    ensures ValidEdge(Edge(0, 1), n) && Edge(0, 1) in AllEdges(n)
    ensures LookupAsWritten(index, Edge(0, 1)).None?
  {
    AllEdgesFacts(n);
    AllK4sFacts(n);
    K4sWithFacts(AllK4s(n), Edge(0, 1));
  }
}
