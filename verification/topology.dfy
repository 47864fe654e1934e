/**
 * Boundary-representation topology as seen by the main window: faces with an
 * underlying surface and a list of boundary edges, tolerant geometric equality
 * of edges, and the linear scan for the faces of a shape that own a given edge.
 * Kernel objects are abstracted to records; a face's kernel identity is its id.
 */
module Topology {
  import opened Wrappers
  import opened Geometry

  type FaceId = nat

  /** The dynamic type of an edge's 3D curve (the Geom_Curve subclasses). */
  datatype CurveKind =
    | Line | Circle | Ellipse | Hyperbola | Parabola
    | BezierCurve | BSplineCurve | TrimmedCurve | OffsetCurve

  /**
   * An edge handle: either null, or an edge whose 3D curve may be absent, with
   * its first and last vertex taken with the edge's orientation.
   */
  datatype Edge =
    | NullEdge
    | Edge(curve: Option<CurveKind>, start: Point, end: Point)

  /** The surface-type tag returned by the surface adaptor. */
  datatype SurfaceType = Plane | Cylinder | Torus | BSpline | Other

  /** The underlying surface of a face, carrying the data centerline synthesis reads. */
  datatype Surface =
    | PlaneSurface
    | CylinderSurface(axis: Axis, radius: real)
    | TorusSurface(axis: Axis, majorRadius: real, minorRadius: real)
    | BSplineSurface
    | OtherSurface

  datatype Face = Face(id: FaceId, surface: Surface, edges: seq<Edge>)

  /** Linear coincidence tolerance of the kernel (its default confusion tolerance). */
  const Confusion: real := 0.0000001

  /** The surface-type tag of a face; every unlisted surface kind is Other. */
  function Classify(f: Face): (t: SurfaceType)
    ensures t == Cylinder <==> f.surface.CylinderSurface?
    ensures t == Torus <==> f.surface.TorusSurface?
    ensures t == Plane <==> f.surface.PlaneSurface?
    ensures t == BSpline <==> f.surface.BSplineSurface?
  {
    match f.surface
    case PlaneSurface => Plane
    case CylinderSurface(_, _) => Cylinder
    case TorusSurface(_, _, _) => Torus
    case BSplineSurface => BSpline
    case OtherSurface => Other
  }

  /** The surface types the outer-shell extraction accepts, both as seed and as neighbour. */
  predicate IsAllowed(t: SurfaceType)
  {
    t == Cylinder || t == Torus || t == BSpline
  }

  /**
   * The seed test and the neighbour test accept a face exactly when its surface
   * is a cylinder, a torus or a B-spline; planes and every other kind are refused.
   */
  lemma AllowedSurfaces(f: Face)
    ensures IsAllowed(Classify(f)) <==>
              f.surface.CylinderSurface? || f.surface.TorusSurface? || f.surface.BSplineSurface?
    ensures !IsAllowed(Plane) && !IsAllowed(Other)
  {
  }

  /** Two points coincide when their distance is below the confusion tolerance. */
  predicate Near(p: Point, q: Point)
  {
    Dist2(p, q) < Confusion * Confusion
  }

  /** The same edge traversed the other way. */
  function Reversed(e: Edge): (r: Edge)
    ensures r.NullEdge? <==> e.NullEdge?
    ensures e.Edge? ==> r.curve == e.curve && r.start == e.end && r.end == e.start
  {
    match e
    case NullEdge => NullEdge
    case Edge(c, s, t) => Edge(c, t, s)
  }

  /** Endpoints coincide pairwise in the given order. */
  predicate EndpointsMatch(e1: Edge, e2: Edge)
    requires e1.Edge? && e2.Edge?
  {
    Near(e1.start, e2.start) && Near(e1.end, e2.end)
  }

  /**
   * Tolerant geometric edge equality: both edges non-null with a 3D curve of the
   * same dynamic type, and endpoints coinciding in the same order or reversed.
   */
  function AreEdgesSame(e1: Edge, e2: Edge): (same: bool)
    ensures same ==> e1.Edge? && e2.Edge? && e1.curve.Some? && e1.curve == e2.curve
    ensures same ==> EndpointsMatch(e1, e2) || EndpointsMatch(e1, Reversed(e2))
    ensures (e1.Edge? && e2.Edge? && e1.curve.Some? && e1.curve == e2.curve
             && (EndpointsMatch(e1, e2) || EndpointsMatch(e1, Reversed(e2)))) ==> same
  {
    if e1.NullEdge? || e2.NullEdge? then false
    else if e1.curve.None? || e2.curve.None? then false
    else if e1.curve.value != e2.curve.value then false
    else
      var sameOrder := Near(e1.start, e2.start) && Near(e1.end, e2.end);
      var reverseOrder := Near(e1.start, e2.end) && Near(e1.end, e2.start);
      sameOrder || reverseOrder
  }

  /** A null edge, or an edge without a 3D curve, equals nothing. */
  lemma EdgesSameNeedsCurves(e1: Edge, e2: Edge)
    requires e1.NullEdge? || e2.NullEdge? || e1.curve.None? || e2.curve.None?
    ensures !AreEdgesSame(e1, e2)
  {
  }

  /** Edges whose curve types differ are never equal, even with coinciding endpoints. */
  lemma EdgesSameNeedsSameKind(e1: Edge, e2: Edge)
    requires e1.Edge? && e2.Edge? && e1.curve != e2.curve
    ensures !AreEdgesSame(e1, e2)
  {
  }

  /** Edge equality is symmetric. */
  lemma EdgesSameSymmetric(e1: Edge, e2: Edge)
    ensures AreEdgesSame(e1, e2) == AreEdgesSame(e2, e1)
  {
    if e1.Edge? && e2.Edge? {
      Dist2Symmetric(e1.start, e2.start);
      Dist2Symmetric(e1.end, e2.end);
      Dist2Symmetric(e1.start, e2.end);
      Dist2Symmetric(e1.end, e2.start);
    }
  }

  /** Dist2 does not depend on the order of its arguments. */
  lemma Dist2Symmetric(p: Point, q: Point)
    ensures Dist2(p, q) == Dist2(q, p)
  {
    assert (p.x - q.x) * (p.x - q.x) == (q.x - p.x) * (q.x - p.x);
    assert (p.y - q.y) * (p.y - q.y) == (q.y - p.y) * (q.y - p.y);
    assert (p.z - q.z) * (p.z - q.z) == (q.z - p.z) * (q.z - p.z);
  }

  /** Edge equality does not see the orientation of either edge. */
  lemma EdgesSameReversal(e1: Edge, e2: Edge)
    ensures AreEdgesSame(e1, Reversed(e2)) == AreEdgesSame(e1, e2)
    ensures AreEdgesSame(Reversed(e1), e2) == AreEdgesSame(e1, e2)
  {
  }

  /** Every edge that has a 3D curve equals itself and its reversal. */
  lemma EdgeSameAsItself(e: Edge)
    requires e.Edge? && e.curve.Some?
    ensures AreEdgesSame(e, e)
    ensures AreEdgesSame(e, Reversed(e))
  {
    assert Near(e.start, e.start);
  }

  /**
   * Tolerant equality is not transitive: three collinear segments whose endpoints
   * drift by just under the tolerance at each step.
   */
  lemma EdgesSameNotTransitive()
    ensures exists a: Edge, b: Edge, c: Edge ::
      AreEdgesSame(a, b) && AreEdgesSame(b, c) && !AreEdgesSame(a, c)
  {
    var a := Edge(Some(Line), Point(0.0, 0.0, 0.0), Point(1.0, 0.0, 0.0));
    var b := Edge(Some(Line), Point(0.00000006, 0.0, 0.0), Point(1.00000006, 0.0, 0.0));
    var c := Edge(Some(Line), Point(0.00000012, 0.0, 0.0), Point(1.00000012, 0.0, 0.0));
    assert Dist2(a.start, b.start) == 0.0000000000000036 && Dist2(a.end, b.end) == 0.0000000000000036;
    assert Dist2(b.start, c.start) == 0.0000000000000036 && Dist2(b.end, c.end) == 0.0000000000000036;
    assert Dist2(a.start, c.start) == 0.0000000000000144;
    assert Dist2(a.start, c.end) > 1.0;
    assert AreEdgesSame(a, b) && AreEdgesSame(b, c);
    assert !AreEdgesSame(a, c);
  }

  /** Face g owns an edge equal to e (edge of g first, as the scan compares them). */
  ghost predicate OwnsEdgeLike(g: Face, e: Edge)
  {
    exists j :: 0 <= j < |g.edges| && AreEdgesSame(g.edges[j], e)
  }

  /** Face g owns an edge equal to one of f's edges. */
  ghost predicate Adjacent(f: Face, g: Face)
  {
    exists i :: 0 <= i < |f.edges| && OwnsEdgeLike(g, f.edges[i])
  }

  /** The ids of a sequence of faces. */
  function Ids(faces: seq<Face>): (s: set<FaceId>)
    ensures forall k :: 0 <= k < |faces| ==> faces[k].id in s
  {
    set k | 0 <= k < |faces| :: faces[k].id
  }

  /** Every id in Ids(faces) is the id of some listed face. */
  lemma IdsMember(faces: seq<Face>, id: FaceId)
    requires id in Ids(faces)
    ensures exists k :: 0 <= k < |faces| && faces[k].id == id
  {
  }

  lemma IdsAppend(faces: seq<Face>, f: Face)
    ensures Ids(faces + [f]) == Ids(faces) + {f.id}
  {
    var s := faces + [f];
    assert forall k :: 0 <= k < |faces| ==> s[k] == faces[k];
    assert s[|faces|] == f;
  }

  /** No id occurs twice. */
  predicate DistinctIds(faces: seq<Face>)
  {
    forall k, l :: 0 <= k < l < |faces| ==> faces[k].id != faces[l].id
  }

  lemma DistinctIdsAppend(faces: seq<Face>, f: Face)
    requires DistinctIds(faces) && f.id !in Ids(faces)
    ensures DistinctIds(faces + [f])
  {
    var s := faces + [f];
    forall k, l | 0 <= k < l < |s|
      ensures s[k].id != s[l].id
    {
      assert s[k] == faces[k];
      if l < |faces| {
        assert s[l] == faces[l];
      }
    }
  }

  /** Kernel identity determines the face: faces with the same id are the same face. */
  ghost predicate IdsIdentify(faces: seq<Face>)
  {
    forall k, l :: 0 <= k < |faces| && 0 <= l < |faces| && faces[k].id == faces[l].id ==> faces[k] == faces[l]
  }

  /** Index of the first edge of `face` equal to `edge`, or the edge count when none is. */
  method FirstMatchingEdge(face: Face, edge: Edge) returns (j: nat)
    ensures j <= |face.edges|
    ensures j < |face.edges| ==> AreEdgesSame(face.edges[j], edge)
    ensures forall jj :: 0 <= jj < j ==> !AreEdgesSame(face.edges[jj], edge)
  {
    j := 0;
    while j < |face.edges| && !AreEdgesSame(face.edges[j], edge)
      invariant 0 <= j <= |face.edges|
      invariant forall jj :: 0 <= jj < j ==> !AreEdgesSame(face.edges[jj], edge)
    {
      j := j + 1;
    }
  }

  /** Each listed face is face `idx[k]` of `shape`, taken from the first `i` faces, in increasing position. */
  ghost predicate ListedFrom(shape: seq<Face>, i: nat, faceList: seq<Face>, idx: seq<nat>)
  {
    && |idx| == |faceList|
    && (forall k :: 0 <= k < |faceList| ==> idx[k] < i && i <= |shape| && faceList[k] == shape[idx[k]])
    && (forall k, l :: 0 <= k < l < |faceList| ==> idx[k] < idx[l])
  }

  /** Each listed face owns an edge equal to `edge`. */
  ghost predicate AllOwn(faceList: seq<Face>, edge: Edge)
  {
    forall k :: 0 <= k < |faceList| ==> OwnsEdgeLike(faceList[k], edge)
  }

  /** No owner earlier in `shape` than a listed face shares its identity. */
  ghost predicate FirstOwners(shape: seq<Face>, edge: Edge, faceList: seq<Face>, idx: seq<nat>)
    requires ListedFrom(shape, |shape|, faceList, idx)
  {
    forall k, m :: 0 <= k < |faceList| && 0 <= m < idx[k] && OwnsEdgeLike(shape[m], edge) ==>
      shape[m].id != faceList[k].id
  }

  /** Every owner among the first `i` faces of `shape` has its identity listed. */
  ghost predicate Covers(shape: seq<Face>, edge: Edge, i: nat, faceList: seq<Face>)
  {
    forall m :: 0 <= m < i && m < |shape| && OwnsEdgeLike(shape[m], edge) ==> shape[m].id in Ids(faceList)
  }

  /** A listing taken from the first `i` faces is also taken from all of them. */
  lemma ListedWithin(shape: seq<Face>, i: nat, faceList: seq<Face>, idx: seq<nat>)
    requires i <= |shape| && ListedFrom(shape, i, faceList, idx)
    ensures ListedFrom(shape, |shape|, faceList, idx)
  {
  }

  /**
   * The scan state after the first `i` faces of `shape`: the listed faces come
   * from those faces, in order, each owns an edge equal to `edge` and is the
   * first owner of its identity; no identity is listed twice; and every owner
   * among the first `i` faces has its identity listed.
   */
  ghost predicate ScanInv(shape: seq<Face>, edge: Edge, i: nat, faceList: seq<Face>, idx: seq<nat>)
  {
    && i <= |shape|
    && ListedFrom(shape, i, faceList, idx)
    && AllOwn(faceList, edge)
    && (ListedWithin(shape, i, faceList, idx); FirstOwners(shape, edge, faceList, idx))
    && DistinctIds(faceList)
    && Covers(shape, edge, i, faceList)
  }

  /** Passing over face i, which owns no equal edge or whose identity is listed, keeps the scan state. */
  lemma ScanSkip(shape: seq<Face>, edge: Edge, i: nat, faceList: seq<Face>, idx: seq<nat>)
    requires ScanInv(shape, edge, i, faceList, idx) && i < |shape|
    requires !OwnsEdgeLike(shape[i], edge) || shape[i].id in Ids(faceList)
    ensures ScanInv(shape, edge, i + 1, faceList, idx)
  {
    assert ListedFrom(shape, i + 1, faceList, idx);
    assert Covers(shape, edge, i + 1, faceList);
  }

  /** Listing face i extends a listing taken from the first i faces. */
  lemma ListedAppend(shape: seq<Face>, i: nat, faceList: seq<Face>, idx: seq<nat>)
    requires i < |shape| && ListedFrom(shape, i, faceList, idx)
    ensures ListedFrom(shape, i + 1, faceList + [shape[i]], idx + [i])
  {
    var fl := faceList + [shape[i]];
    var ix := idx + [i];
    assert forall k :: 0 <= k < |faceList| ==> fl[k] == faceList[k] && ix[k] == idx[k];
  }

  /** Listing face i, whose identity is new, keeps every listed face the first owner of its identity. */
  lemma FirstOwnerAppend(shape: seq<Face>, edge: Edge, i: nat, faceList: seq<Face>, idx: seq<nat>)
    requires i < |shape| && ListedFrom(shape, i, faceList, idx)
    requires ListedFrom(shape, |shape|, faceList, idx) && FirstOwners(shape, edge, faceList, idx)
    requires Covers(shape, edge, i, faceList)
    requires shape[i].id !in Ids(faceList)
    requires ListedFrom(shape, |shape|, faceList + [shape[i]], idx + [i])
    ensures FirstOwners(shape, edge, faceList + [shape[i]], idx + [i])
  {
    var fl := faceList + [shape[i]];
    var ix := idx + [i];
    forall k, m | 0 <= k < |fl| && 0 <= m < ix[k] && OwnsEdgeLike(shape[m], edge)
      ensures shape[m].id != fl[k].id
    {
      if k < |faceList| {
        assert fl[k] == faceList[k] && ix[k] == idx[k];
      } else {
        assert shape[m].id in Ids(faceList);
      }
    }
  }

  /** Listing face i, an owner whose identity is new, keeps the scan state. */
  lemma ScanAdd(shape: seq<Face>, edge: Edge, i: nat, faceList: seq<Face>, idx: seq<nat>)
    requires ScanInv(shape, edge, i, faceList, idx) && i < |shape|
    requires OwnsEdgeLike(shape[i], edge) && shape[i].id !in Ids(faceList)
    ensures Ids(faceList + [shape[i]]) == Ids(faceList) + {shape[i].id}
    ensures ScanInv(shape, edge, i + 1, faceList + [shape[i]], idx + [i])
  {
    var fl := faceList + [shape[i]];
    var ix := idx + [i];
    IdsAppend(faceList, shape[i]);
    DistinctIdsAppend(faceList, shape[i]);
    ListedAppend(shape, i, faceList, idx);
    ListedWithin(shape, i, faceList, idx);
    ListedWithin(shape, i + 1, fl, ix);
    FirstOwnerAppend(shape, edge, i, faceList, idx);
    assert AllOwn(fl, edge) by {
      assert forall k :: 0 <= k < |faceList| ==> fl[k] == faceList[k];
    }
    assert Covers(shape, edge, i + 1, fl);
  }

  /**
   * The faces of `shape` that own an edge equal to `edge`, scanning faces in
   * enumeration order and each face's edges until the first match; a face
   * already listed (same identity) is not listed again, so each identity is
   * listed through its first owner. `idx` gives the position in `shape` of
   * each listed face.
   */
  method GetFacesSharingEdge(shape: seq<Face>, edge: Edge) returns (faceList: seq<Face>, idx: seq<nat>)
    ensures |idx| == |faceList|
    ensures forall k :: 0 <= k < |faceList| ==> idx[k] < |shape| && faceList[k] == shape[idx[k]]
    ensures forall k, l :: 0 <= k < l < |faceList| ==> idx[k] < idx[l]
    ensures forall k :: 0 <= k < |faceList| ==> OwnsEdgeLike(faceList[k], edge)
    ensures forall k, m :: 0 <= k < |faceList| && 0 <= m < idx[k] && OwnsEdgeLike(shape[m], edge) ==>
              shape[m].id != faceList[k].id
    ensures DistinctIds(faceList)
    ensures forall k :: 0 <= k < |shape| && OwnsEdgeLike(shape[k], edge) ==> shape[k].id in Ids(faceList)
    ensures IdsIdentify(shape) ==>
              forall k :: 0 <= k < |shape| && OwnsEdgeLike(shape[k], edge) ==> shape[k] in faceList
  {
    faceList := [];
    idx := [];
    var uniqueFaces: set<FaceId> := {};
    var i := 0;
    while i < |shape|
      invariant ScanInv(shape, edge, i, faceList, idx)
      invariant uniqueFaces == Ids(faceList)
    {
      var face := shape[i];
      var j := FirstMatchingEdge(face, edge);
      if j < |face.edges| && face.id !in uniqueFaces {
        ScanAdd(shape, edge, i, faceList, idx);
        uniqueFaces := uniqueFaces + {face.id};
        faceList := faceList + [face];
        idx := idx + [i];
      } else {
        ScanSkip(shape, edge, i, faceList, idx);
      }
      i := i + 1;
    }
    ScanDone(shape, edge, faceList, idx);
  }

  /** The scan state after every face of `shape` gives the listing's full contract. */
  lemma ScanDone(shape: seq<Face>, edge: Edge, faceList: seq<Face>, idx: seq<nat>)
    requires ScanInv(shape, edge, |shape|, faceList, idx)
    ensures |idx| == |faceList|
    ensures forall k :: 0 <= k < |faceList| ==> idx[k] < |shape| && faceList[k] == shape[idx[k]]
    ensures forall k, l :: 0 <= k < l < |faceList| ==> idx[k] < idx[l]
    ensures forall k :: 0 <= k < |faceList| ==> OwnsEdgeLike(faceList[k], edge)
    ensures forall k, m :: 0 <= k < |faceList| && 0 <= m < idx[k] && OwnsEdgeLike(shape[m], edge) ==>
              shape[m].id != faceList[k].id
    ensures DistinctIds(faceList)
    ensures forall k :: 0 <= k < |shape| && OwnsEdgeLike(shape[k], edge) ==> shape[k].id in Ids(faceList)
    ensures IdsIdentify(shape) ==>
              forall k :: 0 <= k < |shape| && OwnsEdgeLike(shape[k], edge) ==> shape[k] in faceList
  {
    SharingListed(shape, edge, faceList);
  }

  /** When identities determine faces, an owner whose identity is listed is itself listed. */
  lemma SharingListed(shape: seq<Face>, edge: Edge, faceList: seq<Face>)
    requires forall k :: 0 <= k < |faceList| ==> faceList[k] in shape
    requires forall k :: 0 <= k < |shape| && OwnsEdgeLike(shape[k], edge) ==> shape[k].id in Ids(faceList)
    ensures IdsIdentify(shape) ==>
              forall k :: 0 <= k < |shape| && OwnsEdgeLike(shape[k], edge) ==> shape[k] in faceList
  {
    if IdsIdentify(shape) {
      forall k | 0 <= k < |shape| && OwnsEdgeLike(shape[k], edge)
        ensures shape[k] in faceList
      {
        IdsMember(faceList, shape[k].id);
        var h :| 0 <= h < |faceList| && faceList[h].id == shape[k].id;
        var b :| 0 <= b < |shape| && shape[b] == faceList[h];
      }
    }
  }
}
