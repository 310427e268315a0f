# Walkmesh index-level model

This project models the index-level core of the game's walkmesh code
(`WalkMesh.cpp`). A walkmesh is a triangle mesh that characters walk on. A
walk point is a triangle's three vertex indices plus barycentric weights. By
convention a point on an edge has its last weight 0, and the edge is then the
first two indices.

The model covers six pieces:

- **Adjacency build** (`Adjacency`, the `WalkMesh` constructor). It builds the
  table `next_vertex`, which maps every directed edge (a, b) of every triangle
  to that triangle's third corner. A directed edge seen twice is a fatal error.
- **The mesh value** (`Surface.WalkMesh`) and the invariants the loader
  establishes for it.
- **The nearest-point scan** (`Nearest`, `nearest_walk_point`). This part
  covers which candidate points are offered, the keep-the-first-strictly-closer
  selection, and where the result's indices come from.
- **The in-triangle step** (`Stepping.WalkInTriangle`, `walk_in_triangle`).
  This part covers which branch is taken, how the indices are reordered, the
  crossing time and the exit weights.
- **The edge crossing** (`Stepping.CrossEdge`, `cross_edge`). This is the
  `next_vertex` lookup plus the re-expressed walk point.
- **The collection** (`Collection`, the `WalkMeshes` constructor once the
  chunks are read, and `WalkMeshes::lookup`). It covers the validation order,
  the slicing, the index remap from global to local, the duplicate-name error
  and lookup by name.

Geometry is floating point in the source. Here it is an input: one "probe" per
triangle for the nearest-point scan, and the projected weights of the step's
target for `walk_in_triangle`. Reals stand in for floats, and `u32` is
`uint32_t`.

`WalkMesh` and `WalkMeshes` are modelled as values, because no field of either
changes after construction. Each loop of the source is a method proved equal to
a specification function: the adjacency loop, the nearest scan, the remapping
loop and the loader loop. The properties are then proved about those functions.

Two comments in the source ask for more than the code does. In both places
the model follows the code:

- **Which edge `walk_in_triangle` exits through.** The comment at
  WalkMesh.cpp:155 asks for the edge that is crossed first, meaning the
  earliest crossing time. The code takes the first negative projected weight in
  the fixed order x, y, z. `Stepping.WalkInTriangle` models the code.
  `Stepping.EarliestCrossing` and `Stepping.IntendedStep` model what the
  comment asks for (see Findings).
- **The triangle `cross_edge` moves to.** The comment at WalkMesh.cpp:207
  names the new triangle (edge.y, edge.x, [other point]). The code looks up
  (indices.x, indices.y) unchanged and builds (indices.x, indices.y, next).
  For a walk point whose indices follow its triangle's winding, as
  `nearest_walk_point` and a successful `cross_edge` leave them, this still
  reaches the neighbouring triangle: `walk_in_triangle` has already put the
  exited edge in front in reversed order (`Stepping.ExitThenCross`). It does
  not hold after a wall; see "## Left out".

## Model

| member | source | states |
|---|---|---|
| Adjacency.DoNext | WalkMesh.cpp:18-21 | inserts (a,b) -> c exactly when (a,b) is not yet a key; otherwise reports failure and leaves the table unchanged |
| Adjacency.InsertTriangleDefined | WalkMesh.cpp:22-25 | one triangle's three inserts succeed iff its three directed edges are new and pairwise distinct; the table then gains exactly those three entries |
| Adjacency.AdjacencySpec | WalkMesh.cpp:17-26 | building succeeds iff no directed edge occurs twice among all triangles; the table then holds exactly the directed edges, each mapped to the corner that follows it in its triangle |
| Adjacency.AdjacencyFailureSticks | WalkMesh.cpp:22-26 | a repeated directed edge among the first n triangles makes the whole build fail |
| Adjacency.NextVertexRotationClosed | WalkMesh.cpp:16-26 | if (a,b) -> c then (a,b,c) is a rotation of a mesh triangle, (b,c) -> a and (c,a) -> b |
| Adjacency.BuildNextVertex | WalkMesh.cpp:13-26 | the constructor's loop returns the specified table; it fails iff a directed edge repeats, and otherwise returns the full adjacency |
| Surface.ValidAdjacency | WalkMesh.cpp:13-26 | a valid mesh has unique directed edges, and its next_vertex is their adjacency |
| WalkTypes.RotationInRange | WalkMesh.cpp:125-127 | a rotation of a mesh triangle whose indices are in range has its indices in range |
| Nearest.SegmentWeights | WalkMesh.cpp:96-111 | the clamped segment point's weights lie on the edge: both non-negative, summing to 1, third weight 0 |
| Nearest.Offer | WalkMesh.cpp:85-118 | a candidate replaces the best so far iff it is strictly closer (or nothing is held yet); the state then holds the first nearest of the candidates seen |
| Nearest.CandidateProvenance | WalkMesh.cpp:82-122 | every candidate has non-negative weights and indices that are a rotation of the triangle offering it; it lies on an edge (last weight 0, the other two summing to 1) or is that triangle's projected point |
| Nearest.ScanTriangle | WalkMesh.cpp:74-123 | one triangle's pass keeps the invariant: if the state held the first nearest of the candidates seen before, it holds the first nearest once this triangle's candidates (the inside point, or its three edges in order) are appended, and a best distance is then always held |
| Nearest.NearestWalkPoint | WalkMesh.cpp:65-129 | on a non-empty mesh the result is the first candidate of least squared distance; its indices are a rotation of a mesh triangle, in range on a valid mesh; its weights are non-negative; it is on an edge (last weight 0, the other two summing to 1) or a projected point |
| Stepping.FirstNegative | WalkMesh.cpp:158-176 | no branch is taken iff every projected weight is non-negative; otherwise the branch's weight is negative and every earlier slot's weight is non-negative |
| Stepping.ExitOrder | WalkMesh.cpp:162-183 | the exit indices put the dropped corner last and the crossed directed edge in front, reversed; each slot is a fixed corner of the start triangle |
| Stepping.CrossTimeZeroesWeight | WalkMesh.cpp:163-177 | for a start weight >= 0 and a projected weight < 0, the time formula equals s / (s - p), lies in [0, 1), and the crossed weight is exactly 0 there |
| Stepping.WalkInTriangle | WalkMesh.cpp:132-190 | a step that stays inside takes time 1 on the same triangle; otherwise the first negative weight picks the exit, the indices follow the exit order, the time follows the crossing formula, the weights are as written and the last weight is 0 |
| Stepping.YBranchMisplacesPoint | WalkMesh.cpp:169-175 | a concrete start and target for which the y branch's weights differ from the point reached along the step |
| Stepping.AsWrittenAgreesOffY | WalkMesh.cpp:162-183 | in the x and z branches the as-written exit weights equal the corrected ones, so the crossed deltas occur only in the y branch |
| Stepping.ExitWeightsFollowPoint | WalkMesh.cpp:164-185 | the corrected exit weights are the interpolated weights of the corners the exit order places in each slot; weights summing to 1 keep summing to 1 |
| Stepping.EarliestCrossing | WalkMesh.cpp:155-157 | none iff the target is inside; otherwise a negative weight whose crossing time is not after any other negative weight's |
| Stepping.FixedOrderLeavesTriangle | WalkMesh.cpp:155-183 | a concrete start and target for which the fixed x, y, z order exits through the wrong edge and returns a negative weight |
| Stepping.IntendedStep | WalkMesh.cpp:151-189 | from a point inside its triangle, the corrected step returns a point inside its triangle: the full step, or the earliest exit at a time in [0, 1) with last weight 0, in exit order, with the weights of the point reached |
| Stepping.CrossEdge | WalkMesh.cpp:192-227 | crosses iff (x,y) is a key of next_vertex and then gives the same weights on (x, y, next); otherwise the point is unchanged with the identity rotation; on a valid mesh it crosses iff some triangle owns that directed edge, and the new indices are a rotation of a mesh triangle and in range |
| Stepping.ExitThenCross | WalkMesh.cpp:162-210 | after an exit from a mesh triangle, the exit point's first two indices are a directed edge of that triangle reversed; any triangle cross_edge then finds is a rotation of a mesh triangle |
| Stepping.DoubleExitIsRotation | WalkMesh.cpp:166-182 | two exit orders applied one after the other give a cyclic rotation of the original indices |
| Stepping.WallThenExitFindsOwnTriangle | WalkMesh.cpp:162-226 | on a valid mesh, exiting, failing to cross (so the point keeps its reversed winding) and exiting again puts a directed edge of the same triangle in front; cross_edge then finds it and builds a rotation of that same triangle |
| Collection.Remapped | WalkMesh.cpp:279-292 | the remap succeeds iff every triangle of the range lies in the entry's vertex range; each local triangle plus vertex_begin is the global one, and its indices are below the slice's length |
| Collection.RemapTriangles | WalkMesh.cpp:279-292 | the remapping loop returns the specified remap, failing at an out-of-range triangle |
| Collection.LoadEntry | WalkMesh.cpp:264-296 | one entry fails with name, vertex or triangle range errors in that order, then on an out-of-range triangle, then on a repeated directed edge; an entry passing every check succeeds, and it yields the name slice and the vertex and normal slices with the remapped triangles, forming a valid mesh |
| Collection.Build | WalkMesh.cpp:293-295 | constructing the mesh fails with the duplicate-edge error exactly when a directed edge repeats; otherwise it yields a valid mesh holding exactly the given name, vertices, normals and triangles |
| Collection.LoadIndexEntry | WalkMesh.cpp:264-296 | the loop body for one entry returns the specified outcome |
| Collection.CollectSpec | WalkMesh.cpp:294-301 | adding the outcomes in order succeeds iff each outcome is a mesh and no two names are equal; the map then holds exactly those meshes under their names |
| Collection.CollectFailureSticks | WalkMesh.cpp:264-301 | once an error occurs among the first entries, the later entries do not change the result |
| Collection.CollectStopsAt | WalkMesh.cpp:294-301 | adding stops at the first outcome that cannot be added: the result is that outcome's error |
| Collection.FirstFailureWins | WalkMesh.cpp:264-301 | the load fails with the error of the first entry that fails, by its own checks or by repeating a name |
| Collection.LoadWalkMeshes | WalkMesh.cpp:258-302 | the loader returns the specified load: the size mismatch first, then the entries in order |
| Collection.LoadedSpec | WalkMesh.cpp:258-302 | the load succeeds iff the sizes agree, every entry loads and the names are distinct; it then holds exactly the entries' meshes under their names, all valid |
| Collection.Lookup | WalkMesh.cpp:304-310 | a mesh is found iff the name is stored, and it is the stored mesh; otherwise the error is not-found for that name |
| Collection.LookupAfterLoad | WalkMesh.cpp:294-310 | after a successful load, a name is found iff some entry carries it; the mesh found is that entry's mesh and is valid |

## Left out

- Floating-point geometry is not modelled: `barycentric_weights`, the segment
  parameters, squared distances and the projection of the step. They are
  inputs. Reals have no rounding, infinity or NaN.
- The constructor's debug check that vertex normals agree with face normals
  (WalkMesh.cpp:28-40) is not modelled. It is floating-point only, but in a
  build with assertions its assert (WalkMesh.cpp:39) aborts the load, like the
  repeated-edge assert the model turns into `DuplicateDirectedEdge`. The model
  never fails at this check.
- The quaternion `cross_edge` computes (WalkMesh.cpp:214-220) is not computed.
  `Stepping.Rotation` records only which two faces' normals it aligns.
- Reading the chunks from a file (`read_chunk`, WalkMesh.cpp:230-252) is not
  modelled. Neither is the trailing-data warning on standard error
  (WalkMesh.cpp:254-256). The chunks are given as sequences.
- Error messages carry no file name. The duplicate-name and not-found errors
  carry the name.
- Adjacency.BuildNextVertex: a repeated directed edge is treated as a failure.
  The source uses `assert`, so a build without assertions would silently keep
  the first entry instead.
- Adjacency.BuildNextVertex: building stops at the first failed insert, where
  the source aborts at that insert's assert.
- Nearest.SegmentWeights: for a zero-length edge (max 0, along 0), the source
  divides 0 by 0. The model uses amt = 0, giving weights (1, 0, 0). In floats
  the source gets NaN weights and a NaN distance, so `dis2 < closest_dis2` is
  false and it never takes that candidate; the model can take it.
- Nearest.NearestWalkPoint: the initial infinite best distance is modelled as
  "nothing held yet". A candidate whose distance is infinite or NaN therefore
  cannot be represented.
- Nearest.NearestWalkPoint: requires one probe per triangle, because the
  probes stand in for the geometry computed in the loop.
- Stepping.WalkInTriangle requires a non-zero weight change in the slot it
  divides by. The source divides by it without a check.
- Stepping.WalkInTriangle: the null-pointer asserts on its output parameters
  are not modelled, because the outputs are return values. The same holds for
  Stepping.CrossEdge.
- Stepping.CrossEdge: after a wall the model, like the source, does not reach
  a neighbour. Each exit order reverses the triangle's winding, and a failed
  `cross_edge` returns that reversed point unchanged (WalkMesh.cpp:223). A
  later exit from it then leads with one of the triangle's own directed edges,
  and `cross_edge` "crosses" onto the same triangle, with a rotation from the
  face to its own reversed face (`Stepping.WallThenExitFindsOwnTriangle`). No
  corrected crossing is modelled, because what the caller should do at a wall
  lies outside `WalkMesh.cpp`.
- Stepping.CrossEdge: the source passes the found vertex through an `int`
  before storing it as an unsigned index. That round trip does not change the
  value, so it is not modelled.
- `to_world_point`, `to_world_smooth_normal` and the declarations in
  `WalkMesh.hpp` are not part of this model.
- The walking loop in `PlayMode.cpp` and the delivery-order declarations in
  `OrderModels.hpp` are not part of this model.

## Findings

| source | as written | input that shows it | evidently intended | confidence | as-written member | corrected member |
|---|---|---|---|---|---|---|
| WalkMesh.cpp:171-172 | in the y branch, slot x receives start.x + wv.z * time and slot y receives start.z + wv.x * time | start weights (0.5, 0.25, 0.25), projected weights (1, -0.5, 0.5): time 1/3, result (7/12, 5/12, 0) | start.x + wv.x * time and start.z + wv.z * time, giving (2/3, 1/3, 0), the point actually reached | high (the x and z branches pair each start weight with its own delta), not executed | Stepping.AsWrittenExitWeights, Stepping.YBranchMisplacesPoint | Stepping.ExitWeights, Stepping.ExitWeightsFollowPoint |
| WalkMesh.cpp:155-183 | exits through the first negative projected weight in the order x, y, z | start weights (0.5, 0.25, 0.25), projected weights (-0.5, -1, 2.5): y reaches 0 at time 0.2 and x at 0.5; the source exits through the x edge with weights (1.375, -0.375, 0) | exit through the edge crossed first (the comment at line 155), which keeps the weights non-negative | medium (the comment at line 155), not executed | Stepping.FirstNegative, Stepping.FixedOrderLeavesTriangle | Stepping.EarliestCrossing, Stepping.IntendedStep |
