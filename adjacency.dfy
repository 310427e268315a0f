/** The edge-adjacency table of a walkmesh (next_vertex): every directed edge of
    every triangle, mapped to the corner of that triangle that follows it. */
module Adjacency {
  import opened WalkTypes

  type NextVertex = map<Edge, u32>

  /** One insert into next_vertex; None when the key is already present, which
      the constructor treats as fatal (its assert on the insert's result). */
  function Insert(m: Option<NextVertex>, e: Edge, v: u32): Option<NextVertex>
  {
    match m
    case None => None
    case Some(table) => if e in table then None else Some(table[e := v])
  }

  /** The three inserts one triangle (x,y,z) makes: (x,y)->z, (y,z)->x, (z,x)->y. */
  function InsertTriangle(m: Option<NextVertex>, t: Triangle): Option<NextVertex>
  {
    Insert(Insert(Insert(m, Edge(t.x, t.y), t.z), Edge(t.y, t.z), t.x), Edge(t.z, t.x), t.y)
  }

  /** The table the constructor builds from the triangles in order, or None when
      some insert finds its key already present. */
  function NextVertexTable(triangles: seq<Triangle>): Option<NextVertex>
    decreases |triangles|
  {
    if triangles == [] then Some(map[])
    else InsertTriangle(NextVertexTable(triangles[..|triangles| - 1]), triangles[|triangles| - 1])
  }

  /** No directed edge occurs twice among the 3 * |triangles| directed edges. */
  ghost predicate DirectedEdgesUnique(triangles: seq<Triangle>)
  {
    forall i, k, j, l ::
      0 <= i < |triangles| && k < 3 && 0 <= j < |triangles| && l < 3 && (i != j || k != l) ==>
        EdgeAt(triangles[i], k) != EdgeAt(triangles[j], l)
  }

  /** m holds exactly the directed edges of the triangles, each mapped to the
      corner that follows the edge in its triangle. */
  ghost predicate NextVertexOf(triangles: seq<Triangle>, m: NextVertex)
  {
    && (forall i, k :: 0 <= i < |triangles| && k < 3 ==>
          EdgeAt(triangles[i], k) in m && m[EdgeAt(triangles[i], k)] == Rotate(triangles[i], k).z)
    && (forall e :: e in m ==>
          exists i, k :: 0 <= i < |triangles| && k < 3 && e == EdgeAt(triangles[i], k))
  }

  /** The three inserts of one triangle succeed exactly when its three directed
      edges are new and pairwise distinct. */
  lemma InsertTriangleDefined(m: NextVertex, t: Triangle)
    ensures InsertTriangle(Some(m), t).Some? <==>
      (&& EdgeAt(t, 0) !in m && EdgeAt(t, 1) !in m && EdgeAt(t, 2) !in m
       && EdgeAt(t, 0) != EdgeAt(t, 1) && EdgeAt(t, 1) != EdgeAt(t, 2) && EdgeAt(t, 0) != EdgeAt(t, 2))
    ensures InsertTriangle(Some(m), t).Some? ==>
      InsertTriangle(Some(m), t).value == m[EdgeAt(t, 0) := t.z][EdgeAt(t, 1) := t.x][EdgeAt(t, 2) := t.y]
  {
  }

  /** Construction succeeds exactly when no directed edge repeats, and then the
      table is the adjacency of the triangles (WalkMesh.cpp:17-26). */
  lemma {:induction false} AdjacencySpec(triangles: seq<Triangle>)
    ensures NextVertexTable(triangles).Some? <==> DirectedEdgesUnique(triangles)
    ensures NextVertexTable(triangles).Some? ==> NextVertexOf(triangles, NextVertexTable(triangles).value)
    decreases |triangles|
  {
    if triangles != [] {
      var n := |triangles|;
      var prefix := triangles[..n - 1];
      var t := triangles[n - 1];
      AdjacencySpec(prefix);
      match NextVertexTable(prefix)
      case None =>
        PrefixRepeats(prefix, triangles);
      case Some(m) =>
        if NextVertexTable(triangles).Some? {
          ExtendUnique(prefix, m, triangles);
          ExtendTable(prefix, m, triangles);
        } else {
          ExtendRepeats(prefix, m, triangles);
        }
    }
  }

  /** Step of AdjacencySpec: a repeat among the first triangles is a repeat of all. */
  lemma PrefixRepeats(prefix: seq<Triangle>, triangles: seq<Triangle>)
    requires |triangles| > 0 && prefix == triangles[..|triangles| - 1]
    requires !DirectedEdgesUnique(prefix)
    ensures !DirectedEdgesUnique(triangles)
  {
    var i, k, j, l :| 0 <= i < |prefix| && k < 3 && 0 <= j < |prefix| && l < 3 && (i != j || k != l) &&
      EdgeAt(prefix[i], k) == EdgeAt(prefix[j], l);
    assert triangles[i] == prefix[i] && triangles[j] == prefix[j];
  }

  /** Step of AdjacencySpec: a failed insert of the last triangle is a repeat. */
  lemma ExtendRepeats(prefix: seq<Triangle>, m: NextVertex, triangles: seq<Triangle>)
    requires |triangles| > 0 && prefix == triangles[..|triangles| - 1]
    requires NextVertexOf(prefix, m)
    requires InsertTriangle(Some(m), triangles[|triangles| - 1]).None?
    ensures !DirectedEdgesUnique(triangles)
  {
    var n := |triangles|;
    var t := triangles[n - 1];
    InsertTriangleDefined(m, t);
    if EdgeAt(t, 0) == EdgeAt(t, 1) {
      assert EdgeAt(triangles[n - 1], 0) == EdgeAt(triangles[n - 1], 1);
    } else if EdgeAt(t, 1) == EdgeAt(t, 2) {
      assert EdgeAt(triangles[n - 1], 1) == EdgeAt(triangles[n - 1], 2);
    } else if EdgeAt(t, 0) == EdgeAt(t, 2) {
      assert EdgeAt(triangles[n - 1], 0) == EdgeAt(triangles[n - 1], 2);
    } else {
      var l :| l < 3 && EdgeAt(t, l) in m;
      var i, k :| 0 <= i < |prefix| && k < 3 && EdgeAt(t, l) == EdgeAt(prefix[i], k);
      assert triangles[i] == prefix[i];
      assert EdgeAt(triangles[n - 1], l) == EdgeAt(triangles[i], k);
    }
  }

  /** Step of AdjacencySpec: a successful last insert keeps the edges unique. */
  lemma ExtendUnique(prefix: seq<Triangle>, m: NextVertex, triangles: seq<Triangle>)
    requires |triangles| > 0 && prefix == triangles[..|triangles| - 1]
    requires DirectedEdgesUnique(prefix) && NextVertexOf(prefix, m)
    requires InsertTriangle(Some(m), triangles[|triangles| - 1]).Some?
    ensures DirectedEdgesUnique(triangles)
  {
    var n := |triangles|;
    var t := triangles[n - 1];
    InsertTriangleDefined(m, t);
    forall i, k, j, l | 0 <= i < n && k < 3 && 0 <= j < n && l < 3 && (i != j || k != l)
      ensures EdgeAt(triangles[i], k) != EdgeAt(triangles[j], l)
    {
      if i < n - 1 && j < n - 1 {
        assert triangles[i] == prefix[i] && triangles[j] == prefix[j];
      } else if i < n - 1 {
        assert triangles[i] == prefix[i];
        assert EdgeAt(prefix[i], k) in m;
      } else if j < n - 1 {
        assert triangles[j] == prefix[j];
        assert EdgeAt(prefix[j], l) in m;
      }
    }
  }

  /** Step of AdjacencySpec: the last triangle's inserts extend the table. */
  lemma ExtendTable(prefix: seq<Triangle>, m: NextVertex, triangles: seq<Triangle>)
    requires |triangles| > 0 && prefix == triangles[..|triangles| - 1]
    requires NextVertexOf(prefix, m)
    requires InsertTriangle(Some(m), triangles[|triangles| - 1]).Some?
    ensures NextVertexOf(triangles, InsertTriangle(Some(m), triangles[|triangles| - 1]).value)
  {
    var n := |triangles|;
    var t := triangles[n - 1];
    InsertTriangleDefined(m, t);
    var m' := InsertTriangle(Some(m), t).value;
    forall i, k | 0 <= i < n && k < 3
      ensures EdgeAt(triangles[i], k) in m' && m'[EdgeAt(triangles[i], k)] == Rotate(triangles[i], k).z
    {
      if i < n - 1 {
        assert triangles[i] == prefix[i];
        assert EdgeAt(prefix[i], k) in m;
      }
    }
    forall e | e in m'
      ensures exists i, k :: 0 <= i < n && k < 3 && e == EdgeAt(triangles[i], k)
    {
      if e in m {
        var i, k :| 0 <= i < |prefix| && k < 3 && e == EdgeAt(prefix[i], k);
        assert triangles[i] == prefix[i];
      } else if e == EdgeAt(t, 0) {
        assert e == EdgeAt(triangles[n - 1], 0);
      } else if e == EdgeAt(t, 1) {
        assert e == EdgeAt(triangles[n - 1], 1);
      } else {
        assert e == EdgeAt(triangles[n - 1], 2);
      }
    }
  }

  /** Failure is final: once a prefix of the triangles repeats a directed edge,
      so does the whole list. */
  lemma AdjacencyFailureSticks(triangles: seq<Triangle>, n: nat)
    requires n <= |triangles|
    requires NextVertexTable(triangles[..n]).None?
    ensures NextVertexTable(triangles).None?
  {
    AdjacencySpec(triangles[..n]);
    AdjacencySpec(triangles);
    var i, k, j, l :| 0 <= i < n && k < 3 && 0 <= j < n && l < 3 && (i != j || k != l) &&
      EdgeAt(triangles[..n][i], k) == EdgeAt(triangles[..n][j], l);
    assert EdgeAt(triangles[i], k) == EdgeAt(triangles[j], l);
  }

  /** Following an edge stays within one triangle: if (a,b) -> c then (b,c) -> a
      and (c,a) -> b, so each entry of next_vertex names a whole triangle. */
  lemma {:induction false} NextVertexRotationClosed(triangles: seq<Triangle>, m: NextVertex, a: u32, b: u32)
    requires NextVertexOf(triangles, m)
    requires Edge(a, b) in m
    ensures IsRotationOf(Triangle(a, b, m[Edge(a, b)]), triangles)
    ensures Edge(b, m[Edge(a, b)]) in m && m[Edge(b, m[Edge(a, b)])] == a
    ensures Edge(m[Edge(a, b)], a) in m && m[Edge(m[Edge(a, b)], a)] == b
  {
    var i, k :| 0 <= i < |triangles| && k < 3 && Edge(a, b) == EdgeAt(triangles[i], k);
    var t := triangles[i];
    assert Triangle(a, b, m[Edge(a, b)]) == Rotate(t, k);
    var k1 := (k + 1) % 3;
    var k2 := (k + 2) % 3;
    assert EdgeAt(t, k1) in m && m[EdgeAt(t, k1)] == Rotate(t, k1).z;
    assert EdgeAt(t, k2) in m && m[EdgeAt(t, k2)] == Rotate(t, k2).z;
  }

  /** do_next (WalkMesh.cpp:18-21): insert (a,b) -> c unless (a,b) is already a key. */
  method DoNext(nextVertex: NextVertex, a: u32, b: u32, c: u32) returns (inserted: bool, result: NextVertex)
    ensures inserted <==> Edge(a, b) !in nextVertex
    ensures Insert(Some(nextVertex), Edge(a, b), c) == if inserted then Some(result) else None
    ensures !inserted ==> result == nextVertex
  {
    inserted := Edge(a, b) !in nextVertex;
    result := if inserted then nextVertex[Edge(a, b) := c] else nextVertex;
  }

  /** The adjacency-building loop of the constructor (WalkMesh.cpp:17-26): None
      when a directed edge is inserted twice, otherwise exactly the adjacency. */
  method BuildNextVertex(triangles: seq<Triangle>) returns (r: Option<NextVertex>)
    ensures r == NextVertexTable(triangles)
    ensures r.Some? <==> DirectedEdgesUnique(triangles)
    ensures r.Some? ==> NextVertexOf(triangles, r.value)
  {
    AdjacencySpec(triangles);
    var nextVertex: NextVertex := map[];
    var i := 0;
    while i < |triangles|
      invariant 0 <= i <= |triangles|
      invariant NextVertexTable(triangles[..i]) == Some(nextVertex)
    {
      var tri := triangles[i];
      assert triangles[..i + 1][..i] == triangles[..i];
      ghost var before := nextVertex;
      var ok;
      ok, nextVertex := DoNext(nextVertex, tri.x, tri.y, tri.z);
      if ok {
        ok, nextVertex := DoNext(nextVertex, tri.y, tri.z, tri.x);
      }
      if ok {
        ok, nextVertex := DoNext(nextVertex, tri.z, tri.x, tri.y);
      }
      if !ok {
        assert NextVertexTable(triangles[..i + 1]) == InsertTriangle(Some(before), tri);
        AdjacencyFailureSticks(triangles, i + 1);
        return None;
      }
      i := i + 1;
    }
    assert triangles[..i] == triangles;
    r := Some(nextVertex);
  }
}
