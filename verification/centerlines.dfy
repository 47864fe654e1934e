/**
 * Analytic centerlines of an extracted shell: each cylindrical face yields its
 * axis as a bounded line, each toroidal face the circle of its major radius
 * about the torus axis, every other face nothing. Faces are handled one by one;
 * a face whose edge comes out without a 3D curve is dropped without affecting
 * the others.
 */
module Centerlines {
  import opened Wrappers
  import opened Geometry
  import opened Topology

  /** Half-length of the bounded axis line, in model units. */
  const AxisHalfLength: real := 500.0

  /** An analytic centerline edge. */
  datatype CenterCurve =
    | AxisLine(axis: Axis, first: real, last: real)
    | CenterCircle(center: Point, normal: Point, radius: real)

  /** The centerline a single face asks for, before the kernel builds its edge. */
  function FaceCenterline(f: Face): (c: Option<CenterCurve>)
    ensures c.Some? <==> Classify(f) == Cylinder || Classify(f) == Torus
  {
    match f.surface
    case CylinderSurface(axis, _) => Some(AxisLine(axis, -AxisHalfLength, AxisHalfLength))
    case TorusSurface(axis, major, _) => Some(CenterCircle(axis.location, axis.direction, major))
    case _ => None
  }

  /**
   * The centerline edges of `faces`, in face order. `hasCurve` stands for the
   * kernel's edge construction: it tells whether the edge built for a curve
   * ends up with a valid 3D curve.
   */
  function ExtractCenterlines(faces: seq<Face>, hasCurve: CenterCurve -> bool): (r: seq<CenterCurve>)
    ensures |r| <= |faces|
    ensures forall k :: 0 <= k < |r| ==> hasCurve(r[k])
    ensures forall k :: 0 <= k < |r| ==> exists j :: 0 <= j < |faces| && FaceCenterline(faces[j]) == Some(r[k])
    decreases |faces|
  {
    if |faces| == 0 then []
    else
      var rest := ExtractCenterlines(faces[1..], hasCurve);
      var c := FaceCenterline(faces[0]);
      if c.Some? && hasCurve(c.value) then
        var r := [c.value] + rest;
        assert forall k :: 1 <= k < |r| ==> r[k] == rest[k - 1];
        assert forall j :: 0 <= j < |faces| - 1 ==> faces[1..][j] == faces[j + 1];
        r
      else
        assert forall j :: 0 <= j < |faces| - 1 ==> faces[1..][j] == faces[j + 1];
        rest
  }

  /** Whether face f produces a kept centerline. */
  predicate Emits(f: Face, hasCurve: CenterCurve -> bool)
  {
    FaceCenterline(f).Some? && hasCurve(FaceCenterline(f).value)
  }

  /** Faces are handled independently: the result over a concatenation is the concatenation. */
  lemma {:induction false} ExtractConcat(a: seq<Face>, b: seq<Face>, hasCurve: CenterCurve -> bool)
    ensures ExtractCenterlines(a + b, hasCurve) == ExtractCenterlines(a, hasCurve) + ExtractCenterlines(b, hasCurve)
    decreases |a|
  {
    if |a| > 0 {
      assert (a + b)[1..] == a[1..] + b;
      assert (a + b)[0] == a[0];
      ExtractConcat(a[1..], b, hasCurve);
    } else {
      assert a + b == b;
    }
  }

  /**
   * A face that yields nothing (not a cylinder or torus, or its edge has no
   * curve) leaves the centerlines of the faces around it exactly as they were.
   */
  lemma SkippedFaceIsIsolated(a: seq<Face>, f: Face, b: seq<Face>, hasCurve: CenterCurve -> bool)
    requires !Emits(f, hasCurve)
    ensures ExtractCenterlines(a + [f] + b, hasCurve) == ExtractCenterlines(a, hasCurve) + ExtractCenterlines(b, hasCurve)
  {
    assert [f][1..] == [];
    assert ExtractCenterlines([f], hasCurve) == ExtractCenterlines([], hasCurve) == [];
    ExtractConcat(a, [f], hasCurve);
    assert ExtractCenterlines(a + [f], hasCurve) == ExtractCenterlines(a, hasCurve);
    ExtractConcat(a + [f], b, hasCurve);
  }

  /** Every face that emits a centerline finds it in the result. */
  lemma {:induction false} ExtractComplete(faces: seq<Face>, hasCurve: CenterCurve -> bool, j: nat)
    requires j < |faces| && Emits(faces[j], hasCurve)
    ensures FaceCenterline(faces[j]).value in ExtractCenterlines(faces, hasCurve)
    decreases |faces|
  {
    if j > 0 {
      ExtractComplete(faces[1..], hasCurve, j - 1);
    }
  }

  /** The number of centerlines is the number of faces that emit one. */
  function EmittingCount(faces: seq<Face>, hasCurve: CenterCurve -> bool): (n: nat)
    ensures n <= |faces|
    decreases |faces|
  {
    if |faces| == 0 then 0
    else (if Emits(faces[0], hasCurve) then 1 else 0) + EmittingCount(faces[1..], hasCurve)
  }

  lemma {:induction false} ExtractCount(faces: seq<Face>, hasCurve: CenterCurve -> bool)
    ensures |ExtractCenterlines(faces, hasCurve)| == EmittingCount(faces, hasCurve)
    decreases |faces|
  {
    if |faces| > 0 {
      ExtractCount(faces[1..], hasCurve);
    }
  }

  /**
   * A cylinder face with a valid edge yields its axis over parameters -500..500;
   * a torus face with a valid edge yields the circle of its major radius in the
   * plane through the axis location normal to the axis direction.
   */
  lemma SingleFaceCenterline(f: Face, hasCurve: CenterCurve -> bool)
    ensures f.surface.CylinderSurface? && hasCurve(AxisLine(f.surface.axis, -500.0, 500.0)) ==>
              ExtractCenterlines([f], hasCurve) == [AxisLine(f.surface.axis, -500.0, 500.0)]
    ensures f.surface.TorusSurface? && hasCurve(CenterCircle(f.surface.axis.location, f.surface.axis.direction, f.surface.majorRadius)) ==>
              ExtractCenterlines([f], hasCurve)
                == [CenterCircle(f.surface.axis.location, f.surface.axis.direction, f.surface.majorRadius)]
    ensures !(f.surface.CylinderSurface? || f.surface.TorusSurface?) ==> ExtractCenterlines([f], hasCurve) == []
  {
    assert [f][1..] == [];
  }
}
