/** The walkmesh collection (WalkMeshes): the loader that validates the five
    chunks of a walkmesh file and cuts them into named meshes, and the lookup by
    name. The chunks are given as sequences; reading them from a file is not
    modelled. */
module Collection {
  import opened WalkTypes
  import opened Adjacency
  import opened Surface

  /** One record of the idxA chunk: ranges into names, vertices and triangles. */
  datatype IndexEntry = IndexEntry(
    nameBegin: u32, nameEnd: u32,
    vertexBegin: u32, vertexEnd: u32,
    triangleBegin: u32, triangleEnd: u32)

  /** The chunks p..., n..., tri0, str0 and idxA, in file order. */
  datatype Chunks = Chunks(
    vertices: seq<Vec3>,
    normals: seq<Vec3>,
    triangles: seq<Triangle>,
    names: seq<char>,
    index: seq<IndexEntry>)

  /** The runtime_errors the loader and lookup throw, plus the constructor's
      assert on a repeated directed edge. */
  datatype Error =
    | MismatchedSizes
    | InvalidNameIndices
    | InvalidVertexIndices
    | InvalidTriangleIndices
    | InvalidTriangle
    | DuplicateDirectedEdge
    | DuplicatedName(name: string)
    | NotFound(name: string)

  datatype NamedMesh = NamedMesh(name: string, mesh: WalkMesh)

  datatype WalkMeshes = WalkMeshes(meshes: map<string, WalkMesh>)

  predicate NameRangeOk(c: Chunks, e: IndexEntry)
  {
    e.nameBegin <= e.nameEnd && e.nameEnd <= |c.names|
  }

  predicate VertexRangeOk(c: Chunks, e: IndexEntry)
  {
    e.vertexBegin <= e.vertexEnd && e.vertexEnd <= |c.vertices|
  }

  predicate TriangleRangeOk(c: Chunks, e: IndexEntry)
  {
    e.triangleBegin <= e.triangleEnd && e.triangleEnd <= |c.triangles|
  }

  /** Every index of t lies in the entry's vertex range [vertex_begin, vertex_end). */
  predicate InVertexRange(t: Triangle, e: IndexEntry)
  {
    && e.vertexBegin <= t.x < e.vertexEnd
    && e.vertexBegin <= t.y < e.vertexEnd
    && e.vertexBegin <= t.z < e.vertexEnd
  }

  /** Global indices to local ones: subtract vertex_begin. */
  function Localize(t: Triangle, e: IndexEntry): Triangle
    requires InVertexRange(t, e)
  {
    Triangle(t.x - e.vertexBegin, t.y - e.vertexBegin, t.z - e.vertexBegin)
  }

  /** The triangles of the entry's range, remapped to local indices, or None
      when one of them leaves the entry's vertex range. Adding vertex_begin back
      gives the global triangle, and every local index is below the number of
      vertices the mesh receives. */
  function Remapped(triangles: seq<Triangle>, e: IndexEntry): (r: Option<seq<Triangle>>)
    requires e.triangleBegin <= e.triangleEnd <= |triangles|
    ensures r.Some? <==> forall ti :: e.triangleBegin <= ti < e.triangleEnd ==> InVertexRange(triangles[ti], e)
    ensures r.Some? ==> |r.value| == e.triangleEnd - e.triangleBegin
    ensures r.Some? ==> forall k :: 0 <= k < |r.value| ==>
      var l, g := r.value[k], triangles[e.triangleBegin + k];
      g.x == l.x + e.vertexBegin && g.y == l.y + e.vertexBegin && g.z == l.z + e.vertexBegin
    ensures r.Some? ==> AllIndicesBelow(r.value, e.vertexEnd - e.vertexBegin)
  {
    if forall ti :: e.triangleBegin <= ti < e.triangleEnd ==> InVertexRange(triangles[ti], e) then
      var local := seq(e.triangleEnd - e.triangleBegin,
                       k requires 0 <= k < e.triangleEnd - e.triangleBegin =>
                         assert InVertexRange(triangles[e.triangleBegin + k], e);
                         Localize(triangles[e.triangleBegin + k], e));
      assert forall k :: 0 <= k < |local| ==> local[k] == Localize(triangles[e.triangleBegin + k], e);
      Some(local)
    else None
  }

  /** The remapping loop (WalkMesh.cpp:280-292). */
  method RemapTriangles(triangles: seq<Triangle>, e: IndexEntry) returns (r: Option<seq<Triangle>>)
    requires e.triangleBegin <= e.triangleEnd <= |triangles|
    ensures r == Remapped(triangles, e)
  {
    var wmTriangles: seq<Triangle> := [];
    var ti := e.triangleBegin;
    while ti != e.triangleEnd
      invariant e.triangleBegin <= ti <= e.triangleEnd
      invariant |wmTriangles| == ti - e.triangleBegin
      invariant forall j :: e.triangleBegin <= j < ti ==> InVertexRange(triangles[j], e)
      invariant forall k :: 0 <= k < |wmTriangles| ==>
        InVertexRange(triangles[e.triangleBegin + k], e) &&
        wmTriangles[k] == Localize(triangles[e.triangleBegin + k], e)
      decreases e.triangleEnd - ti
    {
      var t := triangles[ti];
      if !InVertexRange(t, e) {
        assert !InVertexRange(triangles[ti], e);
        return None;
      }
      wmTriangles := wmTriangles + [Localize(t, e)];
      ti := ti + 1;
    }
    var intended := Remapped(triangles, e);
    assert intended.Some?;
    forall k | 0 <= k < |wmTriangles|
      ensures wmTriangles[k] == intended.value[k]
    {
      var l, g := intended.value[k], triangles[e.triangleBegin + k];
      assert g.x == l.x + e.vertexBegin && g.y == l.y + e.vertexBegin && g.z == l.z + e.vertexBegin;
    }
    assert wmTriangles == intended.value;
    r := Some(wmTriangles);
  }

  /** What one index entry yields on its own (WalkMesh.cpp:265-296): the first
      failing check's error, in the source's order, or the named mesh with the
      sliced vertices and normals and the remapped triangles; that mesh is
      valid. */
  function LoadEntry(c: Chunks, e: IndexEntry): (r: Result<NamedMesh, Error>)
    requires |c.vertices| == |c.normals|
    ensures !NameRangeOk(c, e) ==> r == Failure(InvalidNameIndices)
    ensures NameRangeOk(c, e) && !VertexRangeOk(c, e) ==> r == Failure(InvalidVertexIndices)
    ensures NameRangeOk(c, e) && VertexRangeOk(c, e) && !TriangleRangeOk(c, e) ==> r == Failure(InvalidTriangleIndices)
    ensures NameRangeOk(c, e) && VertexRangeOk(c, e) && TriangleRangeOk(c, e) ==>
      (r == Failure(InvalidTriangle) <==>
         exists ti :: e.triangleBegin <= ti < e.triangleEnd && !InVertexRange(c.triangles[ti], e))
    ensures NameRangeOk(c, e) && VertexRangeOk(c, e) && TriangleRangeOk(c, e) && Remapped(c.triangles, e).Some? ==>
      (r == Failure(DuplicateDirectedEdge) <==> !DirectedEdgesUnique(Remapped(c.triangles, e).value))
    ensures (&& NameRangeOk(c, e) && VertexRangeOk(c, e) && TriangleRangeOk(c, e)
             && Remapped(c.triangles, e).Some? && DirectedEdgesUnique(Remapped(c.triangles, e).value))
            ==> r.Success?
    ensures r.Success? ==>
      && NameRangeOk(c, e) && VertexRangeOk(c, e) && TriangleRangeOk(c, e)
      && r.value.name == c.names[e.nameBegin..e.nameEnd]
      && r.value.mesh.vertices == c.vertices[e.vertexBegin..e.vertexEnd]
      && r.value.mesh.normals == c.normals[e.vertexBegin..e.vertexEnd]
      && Remapped(c.triangles, e) == Some(r.value.mesh.triangles)
      && r.value.mesh.Valid()
    ensures r.Failure? ==> r.error != MismatchedSizes && !r.error.DuplicatedName? && !r.error.NotFound?
  {
    if !NameRangeOk(c, e) then Failure(InvalidNameIndices)
    else if !VertexRangeOk(c, e) then Failure(InvalidVertexIndices)
    else if !TriangleRangeOk(c, e) then Failure(InvalidTriangleIndices)
    else
      match Remapped(c.triangles, e)
      case None => Failure(InvalidTriangle)
      case Some(local) =>
        Build(c.names[e.nameBegin..e.nameEnd], c.vertices[e.vertexBegin..e.vertexEnd],
              c.normals[e.vertexBegin..e.vertexEnd], local)
  }

  /** Constructing the WalkMesh from one entry's sliced vertices and normals and
      its remapped triangles (WalkMesh.cpp:293-295, running the constructor at
      WalkMesh.cpp:13-41): it fails with the duplicate-edge error exactly when
      some directed edge repeats, and otherwise yields a valid mesh holding the
      given parts. */
  function Build(name: string, vertices: seq<Vec3>, normals: seq<Vec3>, local: seq<Triangle>): (r: Result<NamedMesh, Error>)
    requires |vertices| == |normals| && AllIndicesBelow(local, |vertices|)
    ensures r.Success? <==> DirectedEdgesUnique(local)
    ensures r.Failure? ==> r.error == DuplicateDirectedEdge
    ensures r.Success? ==>
      && r.value.name == name && r.value.mesh.vertices == vertices
      && r.value.mesh.normals == normals && r.value.mesh.triangles == local
      && r.value.mesh.Valid()
  {
    AdjacencySpec(local);
    match NextVertexTable(local)
    case None => Failure(DuplicateDirectedEdge)
    case Some(nextVertex) => Success(NamedMesh(name, WalkMesh(vertices, normals, local, nextVertex)))
  }

  /** Adding one entry's outcome to the meshes loaded so far: its error, or the
      duplicate-name error when its name is already present (WalkMesh.cpp:294-299),
      or the meshes with it added. */
  function Add(meshes: map<string, WalkMesh>, outcome: Result<NamedMesh, Error>): Result<map<string, WalkMesh>, Error>
  {
    match outcome
    case Failure(err) => Failure(err)
    case Success(nm) =>
      if nm.name in meshes then Failure(DuplicatedName(nm.name))
      else Success(meshes[nm.name := nm.mesh])
  }

  /** The outcomes, added in order, stopping at the first error. */
  function Collect(outcomes: seq<Result<NamedMesh, Error>>): Result<map<string, WalkMesh>, Error>
    decreases |outcomes|
  {
    if outcomes == [] then Success(map[])
    else
      match Collect(outcomes[..|outcomes| - 1])
      case Failure(err) => Failure(err)
      case Success(meshes) => Add(meshes, outcomes[|outcomes| - 1])
  }

  /** What each index entry yields on its own, in index order. */
  function Outcomes(c: Chunks, index: seq<IndexEntry>): seq<Result<NamedMesh, Error>>
    requires |c.vertices| == |c.normals|
  {
    seq(|index|, i requires 0 <= i < |index| => LoadEntry(c, index[i]))
  }

  /** The whole load (WalkMesh.cpp:258-302 after the chunks are read). */
  function Loaded(c: Chunks): Result<WalkMeshes, Error>
  {
    if |c.vertices| != |c.normals| then Failure(MismatchedSizes)
    else
      match Collect(Outcomes(c, c.index))
      case Failure(err) => Failure(err)
      case Success(meshes) => Success(WalkMeshes(meshes))
  }

  predicate AllLoad(outcomes: seq<Result<NamedMesh, Error>>)
  {
    forall i :: 0 <= i < |outcomes| ==> outcomes[i].Success?
  }

  ghost predicate DistinctNames(outcomes: seq<Result<NamedMesh, Error>>)
    requires AllLoad(outcomes)
  {
    forall i, j :: 0 <= i < j < |outcomes| ==> outcomes[i].value.name != outcomes[j].value.name
  }

  /** The meshes hold exactly the outcomes' meshes, each under its own name. */
  ghost predicate HoldsExactly(meshes: map<string, WalkMesh>, outcomes: seq<Result<NamedMesh, Error>>)
    requires AllLoad(outcomes)
  {
    && (forall i :: 0 <= i < |outcomes| ==>
          outcomes[i].value.name in meshes && meshes[outcomes[i].value.name] == outcomes[i].value.mesh)
    && (forall name :: name in meshes ==>
          exists i :: 0 <= i < |outcomes| && outcomes[i].value.name == name)
  }

  /** Collecting succeeds exactly when every outcome is a mesh and no two share a
      name; the result then holds exactly those meshes under their names. */
  lemma {:induction false} CollectSpec(outcomes: seq<Result<NamedMesh, Error>>)
    ensures Collect(outcomes).Success? <==> AllLoad(outcomes) && DistinctNames(outcomes)
    ensures Collect(outcomes).Success? ==> HoldsExactly(Collect(outcomes).value, outcomes)
    decreases |outcomes|
  {
    if outcomes != [] {
      var n := |outcomes|;
      var prefix := outcomes[..n - 1];
      CollectSpec(prefix);
      assert forall i :: 0 <= i < n - 1 ==> outcomes[i] == prefix[i];
      match Collect(prefix)
      case Failure(_) =>
        if AllLoad(prefix) {
          var i, j :| 0 <= i < j < n - 1 && prefix[i].value.name == prefix[j].value.name;
          assert outcomes[i] == prefix[i] && outcomes[j] == prefix[j];
        } else {
          var i :| 0 <= i < n - 1 && !prefix[i].Success?;
          assert outcomes[i] == prefix[i];
        }
      case Success(meshes) =>
        AddSpec(prefix, meshes, outcomes[n - 1]);
        assert outcomes == prefix + [outcomes[n - 1]];
    }
  }

  /** Step of CollectSpec: adding one outcome to a successful prefix. */
  lemma AddSpec(prefix: seq<Result<NamedMesh, Error>>, meshes: map<string, WalkMesh>, last: Result<NamedMesh, Error>)
    requires AllLoad(prefix) && DistinctNames(prefix) && HoldsExactly(meshes, prefix)
    ensures Add(meshes, last).Success? <==> AllLoad(prefix + [last]) && DistinctNames(prefix + [last])
    ensures Add(meshes, last).Success? ==> HoldsExactly(Add(meshes, last).value, prefix + [last])
  {
    var all := prefix + [last];
    var n := |all|;
    assert forall i :: 0 <= i < n - 1 ==> all[i] == prefix[i];
    assert all[n - 1] == last;
    if last.Success? {
      var nm := last.value;
      if nm.name in meshes {
        var i :| 0 <= i < |prefix| && prefix[i].value.name == nm.name;
        assert all[i].value.name == all[n - 1].value.name;
      } else {
        var meshes' := meshes[nm.name := nm.mesh];
        forall name | name in meshes'
          ensures exists i :: 0 <= i < n && all[i].value.name == name
        {
          if name in meshes {
            var i :| 0 <= i < |prefix| && prefix[i].value.name == name;
            assert all[i] == prefix[i];
          } else {
            assert all[n - 1].value.name == name;
          }
        }
      }
    } else {
      assert !all[n - 1].Success?;
    }
  }

  /** Once an outcome in the first n is a failure, collecting the rest changes nothing. */
  lemma {:induction false} CollectFailureSticks(outcomes: seq<Result<NamedMesh, Error>>, n: nat)
    requires n <= |outcomes|
    requires Collect(outcomes[..n]).Failure?
    ensures Collect(outcomes) == Collect(outcomes[..n])
    decreases |outcomes|
  {
    if n == |outcomes| {
      assert outcomes[..n] == outcomes;
    } else {
      var prefix := outcomes[..|outcomes| - 1];
      assert prefix[..n] == outcomes[..n];
      CollectFailureSticks(prefix, n);
    }
  }

  /** Collecting stops at the first outcome that cannot be added. */
  lemma CollectStopsAt(outcomes: seq<Result<NamedMesh, Error>>, i: nat)
    requires i < |outcomes|
    requires Collect(outcomes[..i]).Success?
    requires Add(Collect(outcomes[..i]).value, outcomes[i]).Failure?
    ensures Collect(outcomes) == Add(Collect(outcomes[..i]).value, outcomes[i])
  {
    assert outcomes[..i + 1][..i] == outcomes[..i];
    CollectFailureSticks(outcomes, i + 1);
  }

  /** The load reports the first problem: when the entries before entry i load
      with distinct names and entry i fails (on its own, or by repeating a name),
      the whole load fails with that error, whatever follows. */
  lemma FirstFailureWins(c: Chunks, i: nat)
    requires |c.vertices| == |c.normals|
    requires i < |c.index|
    requires Collect(Outcomes(c, c.index)[..i]).Success?
    requires Add(Collect(Outcomes(c, c.index)[..i]).value, Outcomes(c, c.index)[i]).Failure?
    ensures Loaded(c) == Failure(Add(Collect(Outcomes(c, c.index)[..i]).value, Outcomes(c, c.index)[i]).error)
  {
    CollectStopsAt(Outcomes(c, c.index), i);
  }

  /** The body of the loader's loop for one index entry (WalkMesh.cpp:265-292):
      the range checks, the slices, the remap and the adjacency build. */
  method LoadIndexEntry(c: Chunks, e: IndexEntry) returns (r: Result<NamedMesh, Error>)
    requires |c.vertices| == |c.normals|
    ensures r == LoadEntry(c, e)
  {
    if !(e.nameBegin <= e.nameEnd && e.nameEnd <= |c.names|) {
      return Failure(InvalidNameIndices);
    }
    if !(e.vertexBegin <= e.vertexEnd && e.vertexEnd <= |c.vertices|) {
      return Failure(InvalidVertexIndices);
    }
    if !(e.triangleBegin <= e.triangleEnd && e.triangleEnd <= |c.triangles|) {
      return Failure(InvalidTriangleIndices);
    }

    var wmVertices := c.vertices[e.vertexBegin..e.vertexEnd];
    var wmNormals := c.normals[e.vertexBegin..e.vertexEnd];

    var wmTriangles := RemapTriangles(c.triangles, e);
    if wmTriangles.None? {
      return Failure(InvalidTriangle);
    }

    var name := c.names[e.nameBegin..e.nameEnd];

    var nextVertex := BuildNextVertex(wmTriangles.value);
    if nextVertex.None? {
      return Failure(DuplicateDirectedEdge);
    }
    r := Success(NamedMesh(name, WalkMesh(wmVertices, wmNormals, wmTriangles.value, nextVertex.value)));
  }

  /** The loader (WalkMeshes::WalkMeshes after the chunks are read,
      WalkMesh.cpp:258-302): a size check, then each entry in order, throwing at
      the first problem, including a name seen before. */
  method LoadWalkMeshes(c: Chunks) returns (r: Result<WalkMeshes, Error>)
    ensures r == Loaded(c)
  {
    if |c.vertices| != |c.normals| {
      return Failure(MismatchedSizes);
    }
    var meshes: map<string, WalkMesh> := map[];
    var i := 0;
    while i < |c.index|
      invariant 0 <= i <= |c.index|
      invariant Collect(Outcomes(c, c.index)[..i]) == Success(meshes)
    {
      ghost var outcomes := Outcomes(c, c.index);
      assert outcomes[..i + 1][..i] == outcomes[..i];
      var entry := LoadIndexEntry(c, c.index[i]);
      assert entry == outcomes[i];
      if entry.Failure? {
        FirstFailureWins(c, i);
        return Failure(entry.error);
      }
      var name := entry.value.name;
      if name in meshes {
        FirstFailureWins(c, i);
        return Failure(DuplicatedName(name));
      }
      meshes := meshes[name := entry.value.mesh];
      i := i + 1;
    }
    assert Outcomes(c, c.index)[..i] == Outcomes(c, c.index);
    r := Success(WalkMeshes(meshes));
  }

  /** WalkMeshes::lookup (WalkMesh.cpp:304-310): the mesh stored under the
      name, or the not-found error exactly when there is none. */
  function Lookup(w: WalkMeshes, name: string): (r: Result<WalkMesh, Error>)
    ensures r.Success? <==> name in w.meshes
    ensures r.Success? ==> r.value == w.meshes[name]
    ensures r.Failure? ==> r.error == NotFound(name)
  {
    if name !in w.meshes then Failure(NotFound(name)) else Success(w.meshes[name])
  }

  /** The load succeeds exactly when the sizes agree, every entry loads on its
      own and no two entries share a name. The result then holds exactly the
      entries' meshes, each under its name, and every one of them is valid. */
  lemma LoadedSpec(c: Chunks)
    ensures Loaded(c).Success? <==>
      |c.vertices| == |c.normals| && AllLoad(Outcomes(c, c.index)) && DistinctNames(Outcomes(c, c.index))
    ensures Loaded(c).Success? ==> HoldsExactly(Loaded(c).value.meshes, Outcomes(c, c.index))
    ensures Loaded(c).Success? ==> forall name :: name in Loaded(c).value.meshes ==> Loaded(c).value.meshes[name].Valid()
  {
    if |c.vertices| == |c.normals| {
      var outcomes := Outcomes(c, c.index);
      CollectSpec(outcomes);
      if Loaded(c).Success? {
        var meshes := Loaded(c).value.meshes;
        forall name | name in meshes
          ensures meshes[name].Valid()
        {
          var i :| 0 <= i < |outcomes| && outcomes[i].value.name == name;
          assert outcomes[i] == LoadEntry(c, c.index[i]);
        }
      }
    }
  }

  /** After a successful load, looking up a name finds a mesh exactly when some
      entry carries that name, and then it is that entry's mesh, which is valid. */
  lemma LookupAfterLoad(c: Chunks, name: string)
    requires Loaded(c).Success?
    ensures |c.vertices| == |c.normals| && AllLoad(Outcomes(c, c.index))
    ensures Lookup(Loaded(c).value, name).Success? <==>
      exists i :: 0 <= i < |c.index| && Outcomes(c, c.index)[i].value.name == name
    ensures forall i :: 0 <= i < |c.index| && Outcomes(c, c.index)[i].value.name == name ==>
      Lookup(Loaded(c).value, name) == Success(Outcomes(c, c.index)[i].value.mesh)
    ensures Lookup(Loaded(c).value, name).Success? ==> Lookup(Loaded(c).value, name).value.Valid()
  {
    LoadedSpec(c);
  }
}
