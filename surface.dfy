/** One walkmesh: its vertex and normal buffers, its triangles and the
    edge-adjacency table built from them. No field changes after construction,
    so the mesh is a value. */
module Surface {
  import opened WalkTypes
  import opened Adjacency

  datatype WalkMesh = WalkMesh(
    vertices: seq<Vec3>,
    normals: seq<Vec3>,
    triangles: seq<Triangle>,
    nextVertex: NextVertex)
  {
    /** The invariants of a mesh built by the collection loader: one normal per
        vertex, every triangle index in range, and next_vertex the adjacency of
        the triangles (which exists only when no directed edge repeats). */
    ghost predicate Valid()
    {
      && |normals| == |vertices|
      && AllIndicesBelow(triangles, |vertices|)
      && NextVertexTable(triangles) == Some(nextVertex)
    }
  }

  /** Facts about next_vertex that every valid mesh has. */
  lemma ValidAdjacency(mesh: WalkMesh)
    requires mesh.Valid()
    ensures DirectedEdgesUnique(mesh.triangles)
    ensures NextVertexOf(mesh.triangles, mesh.nextVertex)
  {
    AdjacencySpec(mesh.triangles);
  }
}
