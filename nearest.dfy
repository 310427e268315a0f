/** nearest_walk_point: the brute-force scan over the triangles for the walk
    point closest to a world point. The floating-point geometry (barycentric
    weights of the projection, segment parameters, squared distances) is an
    input: one probe per triangle. What is modelled is the candidate each
    branch offers, the keep-the-first-strictly-smaller selection, and where the
    result's indices come from. */
module Nearest {
  import opened WalkTypes
  import opened Adjacency
  import opened Surface

  /** What the geometry reports for check_edge on one edge (a, b): along =
      dot(p - a, b - a), max = dot(b - a, b - a), and the squared distance to
      the clamped point. */
  datatype EdgeProbe = EdgeProbe(along: real, max: real, dis2: real)

  /** What the geometry reports for one triangle: the barycentric weights of
      the projected point, its squared distance, and the three edge probes in
      the order check_edge is called: (x,y), (y,z), (z,x). */
  datatype TriangleProbe = TriangleProbe(coords: Weights, dis2: real, xy: EdgeProbe, yz: EdgeProbe, zx: EdgeProbe)

  /** A walk point offered to the scan together with its squared distance. */
  datatype Candidate = Candidate(point: WalkPoint, dis2: real)

  function ProbeAt(p: TriangleProbe, k: nat): EdgeProbe
  {
    if k == 0 then p.xy else if k == 1 then p.yz else p.zx
  }

  /** The weights check_edge gives the closest point of segment (a, b)
      (WalkMesh.cpp:101-111): a itself, b itself, or the mix at along / max.
      They lie on the edge: both non-negative, summing to 1, the third 0. */
  function SegmentWeights(p: EdgeProbe): (w: Weights)
    ensures w.z == 0.0 && w.x >= 0.0 && w.y >= 0.0 && w.x + w.y == 1.0
  {
    if p.along < 0.0 then Weights(1.0, 0.0, 0.0)
    else if p.along > p.max then Weights(0.0, 1.0, 0.0)
    else
      var amt := if p.max == 0.0 then 0.0 else p.along / p.max;
      assert amt <= 1.0 by {
        if p.max != 0.0 {
          assert amt * p.max == p.along;
        }
      }
      Weights(1.0 - amt, amt, 0.0)
  }

  /** check_edge(ai, bi, ci) for rotation k of t: the candidate on edge (ai, bi). */
  function EdgeCandidate(t: Triangle, k: nat, p: EdgeProbe): Candidate
  {
    Candidate(WalkPoint(Rotate(t, k), SegmentWeights(p)), p.dis2)
  }

  /** The candidates one triangle offers, in order (WalkMesh.cpp:82-122): the
      projected point when it is inside, else the three edges. */
  function TriangleCandidates(t: Triangle, p: TriangleProbe): seq<Candidate>
  {
    if Inside(p.coords) then [Candidate(WalkPoint(t, p.coords), p.dis2)]
    else [EdgeCandidate(t, 0, p.xy), EdgeCandidate(t, 1, p.yz), EdgeCandidate(t, 2, p.zx)]
  }

  /** Every candidate the scan sees, in the order it sees them. */
  function Candidates(triangles: seq<Triangle>, probes: seq<TriangleProbe>): seq<Candidate>
    requires |probes| == |triangles|
    decreases |triangles|
  {
    if triangles == [] then []
    else
      Candidates(triangles[..|triangles| - 1], probes[..|probes| - 1])
        + TriangleCandidates(triangles[|triangles| - 1], probes[|probes| - 1])
  }

  /** q is the first candidate of minimal squared distance: no candidate is
      closer, and every earlier one is strictly farther. */
  ghost predicate FirstNearest(cs: seq<Candidate>, q: int)
  {
    && 0 <= q < |cs|
    && (forall j :: 0 <= j < |cs| ==> cs[q].dis2 <= cs[j].dis2)
    && (forall j :: 0 <= j < q ==> cs[q].dis2 < cs[j].dis2)
  }

  /** The scan's state (closest, closest_dis2) after it has seen `seen`: nothing
      yet while closest_dis2 is infinity (None), else the first nearest of `seen`. */
  ghost predicate Tracks(closest: WalkPoint, closestDis2: Option<real>, seen: seq<Candidate>, q: int)
  {
    if closestDis2.None? then seen == []
    else FirstNearest(seen, q) && closest == seen[q].point && closestDis2.value == seen[q].dis2
  }

  /** The update both branches make (WalkMesh.cpp:85-88, 114-118): take the
      candidate when it is strictly closer than the best so far. The new state
      tracks the first nearest of the candidates seen including this one. */
  method Offer(closest: WalkPoint, closestDis2: Option<real>, c: Candidate, ghost seen: seq<Candidate>, ghost q: int)
    returns (closest': WalkPoint, closestDis2': Option<real>, ghost q': int)
    requires Tracks(closest, closestDis2, seen, q)
    ensures Tracks(closest', closestDis2', seen + [c], q')
    ensures closestDis2.None? || c.dis2 < closestDis2.value ==> closest' == c.point && closestDis2' == Some(c.dis2)
    ensures !(closestDis2.None? || c.dis2 < closestDis2.value) ==> closest' == closest && closestDis2' == closestDis2
  {
    if closestDis2.None? || c.dis2 < closestDis2.value {
      closest', closestDis2', q' := c.point, Some(c.dis2), |seen|;
    } else {
      closest', closestDis2', q' := closest, closestDis2, q;
    }
  }

  /** Where a candidate comes from: its indices are a cyclic rotation of the
      triangle that offered it, its weights are non-negative, and it is either
      on an edge (last weight 0, the other two summing to 1) or that
      triangle's own projected point. */
  lemma {:induction false} CandidateProvenance(triangles: seq<Triangle>, probes: seq<TriangleProbe>, q: nat)
    requires |probes| == |triangles|
    requires q < |Candidates(triangles, probes)|
    ensures var c := Candidates(triangles, probes)[q];
      && Inside(c.point.weights)
      && exists i, k :: 0 <= i < |triangles| && k < 3 && c.point.indices == Rotate(triangles[i], k) &&
           ((c.point.weights.z == 0.0 && c.point.weights.x + c.point.weights.y == 1.0) ||
            c.point == WalkPoint(triangles[i], probes[i].coords))
    decreases |triangles|
  {
    var n := |triangles|;
    var prefix, prefixProbes := triangles[..n - 1], probes[..n - 1];
    var head := Candidates(prefix, prefixProbes);
    var cs := Candidates(triangles, probes);
    assert cs == head + TriangleCandidates(triangles[n - 1], probes[n - 1]);
    if q < |head| {
      CandidateProvenance(prefix, prefixProbes, q);
      var i, k :| 0 <= i < |prefix| && k < 3 && head[q].point.indices == Rotate(prefix[i], k) &&
        ((head[q].point.weights.z == 0.0 && head[q].point.weights.x + head[q].point.weights.y == 1.0) ||
         head[q].point == WalkPoint(prefix[i], prefixProbes[i].coords));
      assert cs[q] == head[q];
      assert triangles[i] == prefix[i] && probes[i] == prefixProbes[i];
    } else {
      var t, p := triangles[n - 1], probes[n - 1];
      var r := q - |head|;
      assert cs[q] == TriangleCandidates(t, p)[r];
      if Inside(p.coords) {
        assert cs[q].point == WalkPoint(Rotate(t, 0), p.coords);
      } else {
        assert cs[q] == EdgeCandidate(t, r, ProbeAt(p, r));
      }
    }
  }

  /** One pass of the scan's loop body (WalkMesh.cpp:74-123): the projected
      point is offered when it is inside the triangle, otherwise the three
      edges are offered in order. Afterwards the state tracks the first nearest
      of the candidates seen so far, this triangle's included. */
  method ScanTriangle(closest: WalkPoint, closestDis2: Option<real>, tri: Triangle, probe: TriangleProbe,
                      ghost seen: seq<Candidate>, ghost q: int)
    returns (closest': WalkPoint, closestDis2': Option<real>, ghost q': int)
    requires Tracks(closest, closestDis2, seen, q)
    ensures Tracks(closest', closestDis2', seen + TriangleCandidates(tri, probe), q')
    ensures closestDis2'.Some?
  {
    if Inside(probe.coords) {
      closest', closestDis2', q' := Offer(closest, closestDis2, Candidate(WalkPoint(tri, probe.coords), probe.dis2), seen, q);
    } else {
      var e0, e1, e2 := EdgeCandidate(tri, 0, probe.xy), EdgeCandidate(tri, 1, probe.yz), EdgeCandidate(tri, 2, probe.zx);
      closest', closestDis2', q' := Offer(closest, closestDis2, e0, seen, q);
      closest', closestDis2', q' := Offer(closest', closestDis2', e1, seen + [e0], q');
      closest', closestDis2', q' := Offer(closest', closestDis2', e2, seen + [e0] + [e1], q');
      assert seen + [e0] + [e1] + [e2] == seen + TriangleCandidates(tri, probe);
    }
  }

  /** nearest_walk_point (WalkMesh.cpp:65-129). On a non-empty mesh it returns
      the point of the first candidate with the smallest reported squared
      distance; its indices are a rotation of a mesh triangle (so on a valid
      mesh every index is below vertices.size(), the asserts at lines 125-127),
      its weights are non-negative, and it is on an edge (last weight 0, the
      other two summing to 1) unless it is a triangle's projected point. */
  method NearestWalkPoint(mesh: WalkMesh, probes: seq<TriangleProbe>) returns (closest: WalkPoint)
    requires |mesh.triangles| > 0
    requires |probes| == |mesh.triangles|
    ensures exists q :: FirstNearest(Candidates(mesh.triangles, probes), q) &&
                        closest == Candidates(mesh.triangles, probes)[q].point
    ensures IsRotationOf(closest.indices, mesh.triangles)
    ensures Inside(closest.weights)
    ensures (closest.weights.z == 0.0 && closest.weights.x + closest.weights.y == 1.0) ||
            exists i :: 0 <= i < |mesh.triangles| && closest == WalkPoint(mesh.triangles[i], probes[i].coords)
    ensures mesh.Valid() ==> IndicesBelow(closest.indices, |mesh.vertices|)
  {
    var triangles := mesh.triangles;
    closest := WalkPoint(Triangle(0, 0, 0), Weights(0.0, 0.0, 0.0));
    var closestDis2: Option<real> := None;  // infinity
    ghost var q := 0;
    var i := 0;
    while i < |triangles|
      invariant 0 <= i <= |triangles|
      invariant i > 0 ==> closestDis2.Some?
      invariant Tracks(closest, closestDis2, Candidates(triangles[..i], probes[..i]), q)
    {
      ghost var seen := Candidates(triangles[..i], probes[..i]);
      assert triangles[..i + 1][..i] == triangles[..i] && probes[..i + 1][..i] == probes[..i];
      assert Candidates(triangles[..i + 1], probes[..i + 1]) == seen + TriangleCandidates(triangles[i], probes[i]);
      closest, closestDis2, q := ScanTriangle(closest, closestDis2, triangles[i], probes[i], seen, q);
      i := i + 1;
    }
    assert triangles[..i] == triangles && probes[..i] == probes;
    CandidateProvenance(triangles, probes, q);
    if mesh.Valid() {
      RotationInRange(triangles, closest.indices, |mesh.vertices|);
    }
  }
}
