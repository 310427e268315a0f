/** Stepping on a walkmesh: walk_in_triangle (how far a step stays in the
    current triangle, and the walk point on the exit edge when it does not) and
    cross_edge (re-expressing an edge point in the neighbouring triangle).

    The barycentric weights of the step's target ("projected weights") come from
    floating-point geometry and are an input here. */
module Stepping {
  import opened WalkTypes
  import opened Adjacency
  import opened Surface

  /** A slot of a triangle or weight triple. */
  datatype Coord = X | Y | Z

  function Rank(c: Coord): nat
  {
    match c
    case X => 0
    case Y => 1
    case Z => 2
  }

  function Get(w: Weights, c: Coord): real
  {
    match c
    case X => w.x
    case Y => w.y
    case Z => w.z
  }

  function Corner(t: Triangle, c: Coord): u32
  {
    match c
    case X => t.x
    case Y => t.y
    case Z => t.z
  }

  function Abs(r: real): real
  {
    if r < 0.0 then -r else r
  }

  /** The branch walk_in_triangle takes: the first negative projected weight in
      the fixed order x, y, z, or None when the whole step stays inside. */
  function FirstNegative(w: Weights): (c: Option<Coord>)
    ensures c.None? <==> Inside(w)
    ensures c.Some? ==> Get(w, c.value) < 0.0
    ensures c.Some? ==> forall d :: Rank(d) < Rank(c.value) ==> Get(w, d) >= 0.0
  {
    if w.x < 0.0 then Some(X)
    else if w.y < 0.0 then Some(Y)
    else if w.z < 0.0 then Some(Z)
    else None
  }

  /** Which directed edge of t lies opposite corner c: (y,z), (z,x) or (x,y). */
  function OppositeEdge(c: Coord): nat
  {
    match c
    case X => 1
    case Y => 2
    case Z => 0
  }

  /** For exit through the edge opposite c, the slot of the start triangle that
      lands in slot d of the exit walk point. */
  function Origin(c: Coord, d: Coord): Coord
  {
    match (c, d)
    case (X, X) => Z
    case (X, Y) => Y
    case (Y, X) => X
    case (Y, Y) => Z
    case (Z, X) => Y
    case (Z, Y) => X
    case (_, Z) => c
  }

  /** The index order of the exit walk point (WalkMesh.cpp:166-168, 173-175,
      180-182): the dropped corner last, and the crossed edge reversed in front. */
  function ExitOrder(t: Triangle, c: Coord): (r: Triangle)
    ensures r.z == Corner(t, c)
    ensures Edge(r.y, r.x) == EdgeAt(t, OppositeEdge(c))
    ensures forall d :: Corner(r, d) == Corner(t, Origin(c, d))
  {
    match c
    case X => Triangle(t.z, t.y, t.x)
    case Y => Triangle(t.x, t.z, t.y)
    case Z => Triangle(t.y, t.x, t.z)
  }

  /** The float division of the exit branch is by a non-zero weight change. */
  predicate CrossingDefined(start: Weights, stepProj: Weights)
  {
    FirstNegative(stepProj).Some? ==>
      Get(stepProj, FirstNegative(stepProj).value) != Get(start, FirstNegative(stepProj).value)
  }

  /** time = 1 - |step_proj.c / wv.c| with wv = step_proj - start.weights. */
  function CrossTime(start: Weights, stepProj: Weights, c: Coord): real
    requires Get(stepProj, c) != Get(start, c)
  {
    1.0 - Abs(Get(stepProj, c) / (Get(stepProj, c) - Get(start, c)))
  }

  /** One weight moved along its change for the given time: base + delta * time. */
  function Advance(base: real, delta: real, time: real): real
  {
    base + delta * time
  }

  /** The point start + t * (step_proj - start) along the step, in barycentric terms. */
  function Interp(start: Weights, stepProj: Weights, t: real): Weights
  {
    Weights(
      Advance(start.x, stepProj.x - start.x, t),
      Advance(start.y, stepProj.y - start.y, t),
      Advance(start.z, stepProj.z - start.z, t))
  }

  function Sum(w: Weights): real
  {
    w.x + w.y + w.z
  }

  /** The exit weights as the source writes them (WalkMesh.cpp:164-165, 171-172,
      178-179, 185); the y branch takes wv.z for slot x and wv.x for slot y. */
  function AsWrittenExitWeights(start: Weights, stepProj: Weights, c: Coord, time: real): Weights
  {
    var wv := Weights(stepProj.x - start.x, stepProj.y - start.y, stepProj.z - start.z);
    match c
    case X => Weights(Advance(start.z, wv.z, time), Advance(start.y, wv.y, time), 0.0)
    case Y => Weights(Advance(start.x, wv.z, time), Advance(start.z, wv.x, time), 0.0)
    case Z => Weights(Advance(start.y, wv.y, time), Advance(start.x, wv.x, time), 0.0)
  }

  /** The corrected exit weights: each slot takes the interpolated weight of the
      corner that lands in it, and the crossed slot is pinned to 0. */
  function ExitWeights(start: Weights, stepProj: Weights, c: Coord, time: real): Weights
  {
    var p := Interp(start, stepProj, time);
    Weights(Get(p, Origin(c, X)), Get(p, Origin(c, Y)), 0.0)
  }

  /** walk_in_triangle (WalkMesh.cpp:132-190), as written. When every projected
      weight is non-negative the whole step is taken in the same triangle;
      otherwise the first negative weight in x, y, z order names the exit edge,
      the indices are reordered so that edge comes first, reversed, with the
      dropped corner last, and the last weight is 0. */
  method WalkInTriangle(start: WalkPoint, stepProj: Weights) returns (end: WalkPoint, time: real)
    requires CrossingDefined(start.weights, stepProj)
    ensures FirstNegative(stepProj).None? ==> time == 1.0 && end == WalkPoint(start.indices, stepProj)
    ensures FirstNegative(stepProj).Some? ==>
      var c := FirstNegative(stepProj).value;
      && end.indices == ExitOrder(start.indices, c)
      && end.weights.z == 0.0
      && time == CrossTime(start.weights, stepProj, c)
      && end.weights == AsWrittenExitWeights(start.weights, stepProj, c, time)
  {
    var s := start.weights;
    var wv := Weights(stepProj.x - s.x, stepProj.y - s.y, stepProj.z - s.z);

    time := 1.0;
    end := start;

    if stepProj.x >= 0.0 && stepProj.y >= 0.0 && stepProj.z >= 0.0 {
      end := end.(weights := stepProj);
      time := 1.0;
    } else {
      var w := end.weights;
      var t := end.indices;
      if stepProj.x < 0.0 {
        time := CrossTime(s, stepProj, X);  // 1 - |step_proj.x / wv.x|
        w := w.(x := Advance(s.z, wv.z, time), y := Advance(s.y, wv.y, time));
        t := Triangle(start.indices.z, start.indices.y, start.indices.x);
      } else if stepProj.y < 0.0 {
        time := CrossTime(s, stepProj, Y);  // 1 - |step_proj.y / wv.y|
        w := w.(x := Advance(s.x, wv.z, time), y := Advance(s.z, wv.x, time));
        t := Triangle(start.indices.x, start.indices.z, start.indices.y);
      } else if stepProj.z < 0.0 {
        time := CrossTime(s, stepProj, Z);  // 1 - |step_proj.z / wv.z|
        w := w.(x := Advance(s.y, wv.y, time), y := Advance(s.x, wv.x, time));
        t := Triangle(start.indices.y, start.indices.x, start.indices.z);
      }
      w := w.(z := 0.0);
      end := WalkPoint(t, w);
    }
  }

  /** The time formula is the moment the crossed weight reaches 0: for a start
      weight s >= 0 and a projected weight p < 0 it equals s / (s - p), lies in
      [0, 1), and the interpolated weight there is exactly 0. */
  lemma CrossTimeZeroesWeight(start: Weights, stepProj: Weights, c: Coord)
    requires Get(start, c) >= 0.0 > Get(stepProj, c)
    ensures CrossTime(start, stepProj, c) == Get(start, c) / (Get(start, c) - Get(stepProj, c))
    ensures 0.0 <= CrossTime(start, stepProj, c) < 1.0
    ensures Get(Interp(start, stepProj, CrossTime(start, stepProj, c)), c) == 0.0
  {
    var s, p := Get(start, c), Get(stepProj, c);
    var d := p - s;
    assert d < 0.0;
    var q := p / d;
    assert q * d == p;
    assert q > 0.0;
    assert Abs(q) == q;
    var t := 1.0 - q;
    assert t * (s - p) == s;
    assert t == s / (s - p);
    assert s + d * t == 0.0;
    match c
    case X =>
    case Y =>
    case Z =>
  }

  /** Corrected exit weights denote the point reached along the step: slot d of
      the exit walk point carries the interpolated weight of the corner that the
      exit order puts there, the crossed corner's weight being 0 at that time;
      and the weights still sum to 1. */
  lemma ExitWeightsFollowPoint(start: Weights, stepProj: Weights, c: Coord)
    requires Get(start, c) >= 0.0 > Get(stepProj, c)
    ensures var t := CrossTime(start, stepProj, c);
      forall d :: Get(ExitWeights(start, stepProj, c, t), d) == Get(Interp(start, stepProj, t), Origin(c, d))
    ensures Sum(start) == 1.0 && Sum(stepProj) == 1.0 ==>
      Sum(ExitWeights(start, stepProj, c, CrossTime(start, stepProj, c))) == 1.0
  {
    var t := CrossTime(start, stepProj, c);
    CrossTimeZeroesWeight(start, stepProj, c);
    var p := Interp(start, stepProj, t);
    assert Get(p, c) == 0.0;
    if Sum(start) == 1.0 && Sum(stepProj) == 1.0 {
      assert Sum(p) == Sum(start) + (Sum(stepProj) - Sum(start)) * t;
    }
  }

  /** The input that shows the y branch's crossed deltas: start weights
      (0.5, 0.25, 0.25) and projected weights (1, -0.5, 0.5) take the y branch at
      time 1/3; the source puts (7/12, 5/12, 0) where the point reached is
      (2/3, 1/3, 0) in the exit order. */
  lemma YBranchMisplacesPoint()
    ensures var s, p := Weights(0.5, 0.25, 0.25), Weights(1.0, -0.5, 0.5);
      && FirstNegative(p) == Some(Y)
      && CrossTime(s, p, Y) == 1.0 / 3.0
      && AsWrittenExitWeights(s, p, Y, CrossTime(s, p, Y)) == Weights(7.0 / 12.0, 5.0 / 12.0, 0.0)
      && ExitWeights(s, p, Y, CrossTime(s, p, Y)) == Weights(2.0 / 3.0, 1.0 / 3.0, 0.0)
  {
    var s, p := Weights(0.5, 0.25, 0.25), Weights(1.0, -0.5, 0.5);
    CrossTimeZeroesWeight(s, p, Y);
  }

  /** The exit the source's comment asks for ("which edge is crossed first"):
      among the negative projected weights, the one whose crossing time is
      smallest, ties going to the earlier slot. */
  function EarliestCrossing(start: Weights, stepProj: Weights): (c: Option<Coord>)
    requires Inside(start)
    ensures c.None? <==> Inside(stepProj)
    ensures c.Some? ==> Get(stepProj, c.value) < 0.0
    ensures c.Some? ==> forall d :: Get(stepProj, d) < 0.0 ==>
      CrossTime(start, stepProj, c.value) <= CrossTime(start, stepProj, d)
  {
    var b1 := if stepProj.x < 0.0 then Some(X) else None;
    var b2 := if stepProj.y < 0.0 && (b1.None? || CrossTime(start, stepProj, Y) < CrossTime(start, stepProj, b1.value))
      then Some(Y) else b1;
    if stepProj.z < 0.0 && (b2.None? || CrossTime(start, stepProj, Z) < CrossTime(start, stepProj, b2.value))
    then Some(Z) else b2
  }

  /** A weight that is non-negative at the start stays non-negative along the
      step up to time t, provided t does not pass its own crossing time. */
  lemma StaysNonNegative(s: real, p: real, t: real)
    requires s >= 0.0 && 0.0 <= t <= 1.0
    requires p < 0.0 ==> t <= s / (s - p)
    ensures s + (p - s) * t >= 0.0
  {
    if p >= 0.0 {
      assert s + (p - s) * t == s * (1.0 - t) + p * t;
      assert s * (1.0 - t) >= 0.0;
      assert p * t >= 0.0;
    } else {
      var tc := s / (s - p);
      assert tc * (s - p) == s;
      assert (s - p) * t <= (s - p) * tc;
    }
  }

  /** The intended walk_in_triangle: the full step when it stays inside,
      otherwise the earliest exit with the corrected weights. From a point in
      its triangle, the result is again in (or on) the triangle, the exit
      weight is 0, and the weights of the exit point are those of the point
      reached along the step. */
  function IntendedStep(start: WalkPoint, stepProj: Weights): (r: (WalkPoint, real))
    requires Inside(start.weights)
    ensures Inside(r.0.weights)
    ensures Inside(stepProj) ==> r == (WalkPoint(start.indices, stepProj), 1.0)
    ensures !Inside(stepProj) ==>
      && 0.0 <= r.1 < 1.0
      && r.0.weights.z == 0.0
      && (forall d :: Get(r.0.weights, d) == Get(Interp(start.weights, stepProj, r.1), Origin(EarliestCrossing(start.weights, stepProj).value, d)))
      && r.0.indices == ExitOrder(start.indices, EarliestCrossing(start.weights, stepProj).value)
  {
    match EarliestCrossing(start.weights, stepProj)
    case None => (WalkPoint(start.indices, stepProj), 1.0)
    case Some(c) =>
      var s := start.weights;
      var t := CrossTime(s, stepProj, c);
      CrossTimeZeroesWeight(s, stepProj, c);
      ExitWeightsFollowPoint(s, stepProj, c);
      var p := Interp(s, stepProj, t);
      ReachedPointInside(s, stepProj, c);
      (WalkPoint(ExitOrder(start.indices, c), ExitWeights(s, stepProj, c, t)), t)
  }

  /** Step of IntendedStep: at the earliest crossing time every interpolated
      weight is still non-negative. */
  lemma ReachedPointInside(s: Weights, p: Weights, c: Coord)
    requires Inside(s)
    requires EarliestCrossing(s, p) == Some(c)
    ensures Inside(Interp(s, p, CrossTime(s, p, c)))
  {
    var t := CrossTime(s, p, c);
    CrossTimeZeroesWeight(s, p, c);
    SlotStaysNonNegative(s, p, t, X);
    SlotStaysNonNegative(s, p, t, Y);
    SlotStaysNonNegative(s, p, t, Z);
  }

  /** One slot of ReachedPointInside. */
  lemma SlotStaysNonNegative(s: Weights, p: Weights, t: real, d: Coord)
    requires Inside(s) && 0.0 <= t <= 1.0
    requires Get(p, d) < 0.0 ==> t <= CrossTime(s, p, d)
    ensures Get(Interp(s, p, t), d) >= 0.0
  {
    var sd, pd := Get(s, d), Get(p, d);
    if pd < 0.0 {
      CrossTimeZeroesWeight(s, p, d);
    }
    StaysNonNegative(sd, pd, t);
    match d
    case X =>
    case Y =>
    case Z =>
  }

  /** The x and z branches write the corrected exit weights: the crossed deltas
      of WalkMesh.cpp:171-172 are confined to the y branch. */
  lemma AsWrittenAgreesOffY(start: Weights, stepProj: Weights, c: Coord)
    requires c != Y
    requires Get(start, c) >= 0.0 > Get(stepProj, c)
    ensures AsWrittenExitWeights(start, stepProj, c, CrossTime(start, stepProj, c)) ==
            ExitWeights(start, stepProj, c, CrossTime(start, stepProj, c))
  {
  }

  /** The input that shows the fixed x, y, z order is not the first crossing:
      from (0.5, 0.25, 0.25) towards (-0.5, -1, 2.5) the y weight reaches 0 at
      time 0.2, before the x weight does at 0.5; the source still exits through
      the x edge and returns a point with a negative weight. */
  lemma FixedOrderLeavesTriangle()
    ensures var s, p := Weights(0.5, 0.25, 0.25), Weights(-0.5, -1.0, 2.5);
      && FirstNegative(p) == Some(X)
      && EarliestCrossing(s, p) == Some(Y)
      && AsWrittenExitWeights(s, p, X, CrossTime(s, p, X)) == Weights(1.375, -0.375, 0.0)
      && !Inside(AsWrittenExitWeights(s, p, X, CrossTime(s, p, X)))
  {
    var s, p := Weights(0.5, 0.25, 0.25), Weights(-0.5, -1.0, 2.5);
    CrossTimeZeroesWeight(s, p, X);
    CrossTimeZeroesWeight(s, p, Y);
  }

  /** The rotation cross_edge returns. Its quaternion is floating-point
      geometry; the model records which face normals it aligns: the normal of
      `fromFace` (by its winding) is turned onto the normal of `toFace`. */
  datatype Rotation = Identity | Align(fromFace: Triangle, toFace: Triangle)

  /** cross_edge (WalkMesh.cpp:192-227): when (indices.x, indices.y) is a key of
      next_vertex the point is re-expressed on the triangle of that directed edge
      with the same weights; otherwise it stays put and the rotation is the
      identity. On a valid mesh the lookup succeeds exactly when some triangle
      has that directed edge, and the new indices are a rotation of it. */
  method CrossEdge(mesh: WalkMesh, start: WalkPoint) returns (crossed: bool, end: WalkPoint, rotation: Rotation)
    requires start.weights.z == 0.0
    ensures crossed <==> Edge(start.indices.x, start.indices.y) in mesh.nextVertex
    ensures crossed ==>
      var next := mesh.nextVertex[Edge(start.indices.x, start.indices.y)];
      && end == WalkPoint(Triangle(start.indices.x, start.indices.y, next), start.weights)
      && rotation == Align(start.indices, Triangle(start.indices.y, start.indices.x, next))
    ensures !crossed ==> end == start && rotation == Identity
    ensures mesh.Valid() ==>
      (crossed <==> exists j, l :: 0 <= j < |mesh.triangles| && l < 3 &&
                                   EdgeAt(mesh.triangles[j], l) == Edge(start.indices.x, start.indices.y))
    ensures mesh.Valid() && crossed ==>
      IsRotationOf(end.indices, mesh.triangles) && IndicesBelow(end.indices, |mesh.vertices|)
  {
    var edge := Edge(start.indices.x, start.indices.y);
    if edge in mesh.nextVertex {
      var next := mesh.nextVertex[edge];
      end := WalkPoint(Triangle(start.indices.x, start.indices.y, next), start.weights);
      rotation := Align(start.indices, Triangle(start.indices.y, start.indices.x, next));
      crossed := true;
      if mesh.Valid() {
        ValidAdjacency(mesh);
        NextVertexRotationClosed(mesh.triangles, mesh.nextVertex, edge.a, edge.b);
        RotationInRange(mesh.triangles, end.indices, |mesh.vertices|);
      }
    } else {
      end := start;
      rotation := Identity;
      crossed := false;
      if mesh.Valid() {
        ValidAdjacency(mesh);
      }
    }
  }

  /** Rotating twice is rotating by the sum of the shifts. */
  lemma EdgeAtRotate(t: Triangle, k: nat, m: nat)
    requires k < 3 && m < 3
    ensures EdgeAt(Rotate(t, k), m) == EdgeAt(t, (k + m) % 3)
    ensures Rotate(Rotate(t, k), m) == Rotate(t, (k + m) % 3)
  {
  }

  /** Exiting twice without a successful crossing in between: each exit order
      swaps two slots, so two of them compose to a cyclic rotation. */
  lemma DoubleExitIsRotation(t: Triangle, c: Coord, d: Coord)
    ensures exists m :: m < 3 && ExitOrder(ExitOrder(t, c), d) == Rotate(t, m)
  {
    var e := ExitOrder(ExitOrder(t, c), d);
    match (c, d)
    case (X, X) => assert e == Rotate(t, 0);
    case (X, Y) => assert e == Rotate(t, 2);
    case (X, Z) => assert e == Rotate(t, 1);
    case (Y, X) => assert e == Rotate(t, 1);
    case (Y, Y) => assert e == Rotate(t, 0);
    case (Y, Z) => assert e == Rotate(t, 2);
    case (Z, X) => assert e == Rotate(t, 2);
    case (Z, Y) => assert e == Rotate(t, 1);
    case (Z, Z) => assert e == Rotate(t, 0);
  }

  /** The wall case: cross_edge returns an exit point unchanged when its edge
      has no neighbour (WalkMesh.cpp:223), and that point has its triangle's
      winding reversed. A second exit from it puts one of the triangle's own
      directed edges in front, so cross_edge then finds the same triangle: the
      indices it builds are a rotation of that very triangle. */
  lemma {:induction false} WallThenExitFindsOwnTriangle(mesh: WalkMesh, i: nat, k: nat, c: Coord, d: Coord)
    requires mesh.Valid() && i < |mesh.triangles| && k < 3
    ensures var e := ExitOrder(ExitOrder(Rotate(mesh.triangles[i], k), c), d);
      && Edge(e.x, e.y) in mesh.nextVertex
      && exists m :: m < 3 && Triangle(e.x, e.y, mesh.nextVertex[Edge(e.x, e.y)]) == Rotate(mesh.triangles[i], m)
  {
    var t := mesh.triangles[i];
    var e := ExitOrder(ExitOrder(Rotate(t, k), c), d);
    DoubleExitIsRotation(Rotate(t, k), c, d);
    var m :| m < 3 && e == Rotate(Rotate(t, k), m);
    EdgeAtRotate(t, k, m);
    var j := (k + m) % 3;
    ValidAdjacency(mesh);
    assert Edge(e.x, e.y) == EdgeAt(t, j);
    assert mesh.nextVertex[EdgeAt(t, j)] == Rotate(t, j).z;
    assert Triangle(e.x, e.y, mesh.nextVertex[Edge(e.x, e.y)]) == Rotate(t, j);
  }

  /** Exiting a mesh triangle and then crossing: the exit point's first two
      indices are the reverse of a directed edge of that triangle whose next
      vertex is the dropped corner, so cross_edge looks up the opposite
      direction of that edge; whatever it finds there is a rotation of a mesh
      triangle. */
  lemma {:induction false} ExitThenCross(mesh: WalkMesh, i: nat, k: nat, c: Coord)
    requires mesh.Valid() && i < |mesh.triangles| && k < 3
    ensures var e := ExitOrder(Rotate(mesh.triangles[i], k), c);
      && Edge(e.y, e.x) == EdgeAt(mesh.triangles[i], (k + OppositeEdge(c)) % 3)
      && Edge(e.y, e.x) in mesh.nextVertex && mesh.nextVertex[Edge(e.y, e.x)] == e.z
      && (Edge(e.x, e.y) in mesh.nextVertex ==> IsRotationOf(Triangle(e.x, e.y, mesh.nextVertex[Edge(e.x, e.y)]), mesh.triangles))
  {
    var t := mesh.triangles[i];
    var e := ExitOrder(Rotate(t, k), c);
    var k' := (k + OppositeEdge(c)) % 3;
    EdgeAtRotate(t, k, OppositeEdge(c));
    assert e.z == Rotate(t, k').z by {
      match c
      case X =>
      case Y =>
      case Z =>
    }
    ValidAdjacency(mesh);
    assert EdgeAt(t, k') in mesh.nextVertex && mesh.nextVertex[EdgeAt(t, k')] == Rotate(t, k').z;
    if Edge(e.x, e.y) in mesh.nextVertex {
      NextVertexRotationClosed(mesh.triangles, mesh.nextVertex, e.x, e.y);
    }
  }
}
