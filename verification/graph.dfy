/** Vertices, edges, 4-cliques and colourings of the complete graph K_n. */
module Graph {
  import opened Wrappers

  type Vertex = nat

  /** The two colours, written 0 and 1 as in the scripts. */
  type Color = c: int | 0 <= c <= 1

  /** An edge (u, v) of K_n; the scripts only ever build it with u < v. */
  datatype Edge = Edge(u: Vertex, v: Vertex)

  /** A 4-clique, as the sorted vertex 4-tuple that `combinations` yields. */
  datatype K4 = K4(a: Vertex, b: Vertex, c: Vertex, d: Vertex)

  /** The `colorings` dictionary: an edge is uncoloured when it has no entry. */
  type Coloring = map<Edge, Color>

  predicate ValidEdge(e: Edge, n: nat) {
    e.u < e.v < n
  }

  predicate ValidK4(q: K4, n: nat) {
    q.a < q.b < q.c < q.d < n
  }

  /** `list(combinations(k4, 2))`: the six edges of a clique, in that order. */
  function EdgesOf(q: K4): seq<Edge> {
    [Edge(q.a, q.b), Edge(q.a, q.c), Edge(q.a, q.d),
     Edge(q.b, q.c), Edge(q.b, q.d), Edge(q.c, q.d)]
  }

  /** `edge in k4_edges[k4]`. */
  predicate Contains(q: K4, e: Edge) {
    e in EdgesOf(q)
  }

  /** `x in k4` for the vertex tuple. */
  predicate HasVertex(q: K4, x: Vertex) {
    x == q.a || x == q.b || x == q.c || x == q.d
  }

  /** `colorings.get(e, None)`. */
  function Lookup(col: Coloring, e: Edge): Option<Color> {
    if e in col then Some(col[e]) else None
  }

  /** The colours of the six edges of `q`, in `EdgesOf` order. */
  function ColorsOf(col: Coloring, q: K4): (cs: seq<Option<Color>>)
    ensures |cs| == 6
    ensures forall i :: 0 <= i < 6 ==> cs[i] == Lookup(col, EdgesOf(q)[i])
  {
    [Lookup(col, Edge(q.a, q.b)), Lookup(col, Edge(q.a, q.c)), Lookup(col, Edge(q.a, q.d)),
     Lookup(col, Edge(q.b, q.c)), Lookup(col, Edge(q.b, q.d)), Lookup(col, Edge(q.c, q.d))]
  }

  /** All six edges of `q` carry a colour. */
  predicate FullyColored(col: Coloring, q: K4) {
    forall i :: 0 <= i < 6 ==> ColorsOf(col, q)[i].Some?
  }

  /** A monochromatic K4: all six edges coloured, all with the same colour. */
  predicate IsMono(col: Coloring, q: K4) {
    FullyColored(col, q) && forall i :: 0 <= i < 6 ==> ColorsOf(col, q)[i] == ColorsOf(col, q)[0]
  }

  /** `col2` keeps every colour `col1` assigned: colourings only grow. */
  predicate Extends(col1: Coloring, col2: Coloring) {
    forall e :: e in col1 ==> e in col2 && col2[e] == col1[e]
  }

  /** The edges of a valid clique are valid edges, pairwise distinct, and
      are exactly the pairs of its vertices. */
  lemma EdgesOfValid(q: K4, n: nat)
    requires ValidK4(q, n)
    ensures forall e :: e in EdgesOf(q) ==> ValidEdge(e, n)
    ensures forall i, j :: 0 <= i < j < 6 ==> EdgesOf(q)[i] != EdgesOf(q)[j]
    ensures forall e :: ValidEdge(e, n) ==>
      (Contains(q, e) <==> HasVertex(q, e.u) && HasVertex(q, e.v))
  {
  }

  /** Colouring an edge outside `q` does not change what `q` sees. */
  lemma ColorsOfFrame(col: Coloring, q: K4, e: Edge, c: Color)
    requires !Contains(q, e)
    ensures ColorsOf(col[e := c], q) == ColorsOf(col, q)
  {
  }
}
