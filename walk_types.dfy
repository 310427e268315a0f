/** Value types shared by the walkmesh model: indices, triangles, directed edges,
    barycentric weights and walk points. Floating-point vectors are modelled as
    triples of reals that the model carries but never computes with. */
module WalkTypes {

  /** The source's uint32_t: every vertex index and index-table field. */
  type u32 = x: int | 0 <= x < 0x1_0000_0000

  datatype Option<T> = None | Some(value: T)

  datatype Result<T, E> = Success(value: T) | Failure(error: E)

  /** glm::uvec3 of vertex indices, in winding order. */
  datatype Triangle = Triangle(x: u32, y: u32, z: u32)

  /** glm::uvec2 used as a key of next_vertex: the directed edge a -> b. */
  datatype Edge = Edge(a: u32, b: u32)

  /** Barycentric weights (glm::vec3 of floats), one per index of a triangle. */
  datatype Weights = Weights(x: real, y: real, z: real)

  /** A location on a walkmesh: a triangle and weights relative to its corners. */
  datatype WalkPoint = WalkPoint(indices: Triangle, weights: Weights)

  /** A vertex position or normal (glm::vec3); only sliced and stored. */
  datatype Vec3 = Vec3(x: real, y: real, z: real)

  /** The k-th cyclic rotation of t: (x,y,z), (y,z,x) or (z,x,y) for k = 0, 1, 2. */
  function Rotate(t: Triangle, k: nat): Triangle
  {
    if k == 0 then t
    else if k == 1 then Triangle(t.y, t.z, t.x)
    else Triangle(t.z, t.x, t.y)
  }

  /** The directed edge rotation k of t starts with: (x,y), (y,z) or (z,x). */
  function EdgeAt(t: Triangle, k: nat): Edge
  {
    var r := Rotate(t, k);
    Edge(r.x, r.y)
  }

  /** t is one of the three cyclic rotations of some triangle of the list. */
  ghost predicate IsRotationOf(t: Triangle, triangles: seq<Triangle>)
  {
    exists i, k :: 0 <= i < |triangles| && k < 3 && t == Rotate(triangles[i], k)
  }

  /** Every index of t is below n (a valid index into n vertices). */
  predicate IndicesBelow(t: Triangle, n: int)
  {
    t.x < n && t.y < n && t.z < n
  }

  /** Every triangle of the list only references vertices below n. */
  ghost predicate AllIndicesBelow(triangles: seq<Triangle>, n: int)
  {
    forall i :: 0 <= i < |triangles| ==> IndicesBelow(triangles[i], n)
  }

  /** All three weights are non-negative: the point lies in or on the triangle. */
  predicate Inside(w: Weights)
  {
    w.x >= 0.0 && w.y >= 0.0 && w.z >= 0.0
  }

  /** A rotation of a triangle whose indices are in range has indices in range. */
  lemma RotationInRange(triangles: seq<Triangle>, t: Triangle, n: int)
    requires IsRotationOf(t, triangles)
    requires AllIndicesBelow(triangles, n)
    ensures IndicesBelow(t, n)
  {
    var i, k :| 0 <= i < |triangles| && k < 3 && t == Rotate(triangles[i], k);
    assert IndicesBelow(triangles[i], n);
  }
}
