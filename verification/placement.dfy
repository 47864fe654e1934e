/**
 * Placement arithmetic of the parametric elbow model: a hollow tube along the
 * x axis, a rotary sleeve and a fixed sleeve slid over it, and an arc sector
 * obtained by revolving a half-ring profile about an axis parallel to z. The
 * rigid-body record (reference and rotation points of the arc sector and of the
 * two sleeves) is derived from the same parameters.
 */
module Placement {
  import opened Geometry

  /** Radial clearance between the tube and everything slid over it. */
  const Tolerance: real := 0.001

  /** Linear deflection used to mesh the tube and the sleeves; the arc uses half of it. */
  const MeshPrecision: real := 1.0

  /** The user's parameters; sleeve positions are measured from the tube's right end. */
  datatype ElbowParams = ElbowParams(
    tubeOuterRadius: real, tubeInnerRadius: real, tubeLength: real,
    rotaryThickness: real, rotaryLength: real, rotaryPos: real,
    fixedThickness: real, fixedLength: real, fixedPos: real,
    arcRadius: real, arcThickness: real, arcAngle: real)

  /** The record kept for a sleeve: its inputs, derived radii and its two frame points. */
  datatype SleeveRecord = SleeveRecord(
    thickness: real, length: real, position: real,
    rOut: real, rIn: real, ref: Point, rot: Point)

  /** The record kept for the arc sector. */
  datatype ArcRecord = ArcRecord(
    r: real, thickness: real, angle: real, position: real,
    rOut: real, rIn: real, ref: Point, rot: Point)

  datatype Records = Records(rotary: SleeveRecord, fixed: SleeveRecord, arc: ArcRecord)

  /**
   * The rigid-body records, field by field in the order the model builder fills
   * them. Note that the fixed sleeve's outer radius is taken from the rotary
   * sleeve's inner radius and thickness; no other value reads that field.
   */
  function ElbowRecords(p: ElbowParams): (r: Records)
    ensures r.rotary.position + p.rotaryPos == p.tubeLength && r.fixed.position + p.fixedPos == p.tubeLength
    ensures r.arc.position == r.rotary.position - Tolerance
    ensures r.rotary.rIn == p.tubeOuterRadius + Tolerance && r.fixed.rIn == r.rotary.rIn && r.arc.rIn == r.rotary.rIn
    ensures r.arc.ref == r.arc.rot && r.rotary.rot == r.arc.rot && r.fixed.rot == r.fixed.ref
  {
    var rPosition := p.tubeLength - p.rotaryPos;
    var rIn := p.tubeOuterRadius + Tolerance;
    var rotaryROut := rIn + p.rotaryThickness;
    var rotaryRef := Point(rPosition + p.rotaryLength / 2.0, 0.0, 0.0);

    var fPosition := p.tubeLength - p.fixedPos;
    var fIn := p.tubeOuterRadius + Tolerance;
    var fixedROut := rIn + p.rotaryThickness;
    var fixedRef := Point(fPosition + p.fixedLength / 2.0, 0.0, 0.0);
    var fixedRot := Point(fPosition + p.fixedLength / 2.0, 0.0, 0.0);

    var aPosition := rPosition - Tolerance;
    var aIn := p.tubeOuterRadius + Tolerance;
    var aOut := aIn + p.arcThickness;
    var arcRot := Point(aPosition, -p.arcRadius, 0.0);

    Records(
      SleeveRecord(p.rotaryThickness, p.rotaryLength, rPosition, rotaryROut, rIn, rotaryRef, arcRot),
      SleeveRecord(p.fixedThickness, p.fixedLength, fPosition, fixedROut, fIn, fixedRef, fixedRot),
      ArcRecord(p.arcRadius, p.arcThickness, p.arcAngle, aPosition, aOut, aIn, arcRot, arcRot))
  }

  /** A reference point and a rotation point, as written for one rigid volume. */
  datatype Frame = Frame(ref: Point, rot: Point)

  /** The frames written to the rigid-body file: arc sector, rotary sleeve, fixed sleeve. */
  function RigidBodyFrames(p: ElbowParams): (frames: seq<Frame>)
    ensures |frames| == 3
    ensures frames[0].ref == frames[0].rot && frames[1].rot == frames[0].rot && frames[2].ref == frames[2].rot
    ensures frames[1].ref.x - frames[1].rot.x == p.rotaryLength / 2.0 + Tolerance
    ensures frames[1].rot.y == -p.arcRadius && frames[1].ref.y == 0.0 && frames[2].ref.y == 0.0
  {
    var rec := ElbowRecords(p);
    [Frame(rec.arc.ref, rec.arc.rot), Frame(rec.rotary.ref, rec.rotary.rot), Frame(rec.fixed.ref, rec.fixed.rot)]
  }

  /** A solid cylinder on an axis with the given radius and height along the axis. */
  datatype Cylinder = Cylinder(axis: Axis, radius: real, height: real)

  /** The outer cylinder with the inner one cut away. */
  datatype Hollow = Hollow(outer: Cylinder, inner: Cylinder, deflection: real)

  /** A profile edge: an arc through three points, or a straight segment. */
  datatype Segment =
    | ArcThrough(start: Point, middle: Point, end: Point)
    | Straight(start: Point, end: Point)

  /** The arc sector: a closed profile revolved about an axis by an angle. */
  datatype ArcSector = ArcSector(profile: seq<Segment>, revolveAxis: Axis, angle: real, deflection: real)

  datatype ElbowGeometry = ElbowGeometry(tube: Hollow, rotary: Hollow, fixed: Hollow, arc: ArcSector)

  /** A hollow cylinder on the x axis starting at `x`, with radii measured outward from `rIn`. */
  function SleeveAt(x: real, rIn: real, rOut: real, length: real): (h: Hollow)
    ensures h.inner.axis == h.outer.axis && h.outer.axis == Axis(Point(x, 0.0, 0.0), XDir)
    ensures h.outer.height == length && h.inner.height == length
    ensures h.outer.radius - h.inner.radius == rOut - rIn && h.inner.radius == rIn
  {
    var axis := Axis(Point(x, 0.0, 0.0), XDir);
    Hollow(Cylinder(axis, rOut, length), Cylinder(axis, rIn, length), MeshPrecision)
  }

  /** The half-ring cross-section in the plane x == a: outer arc, right edge, inner arc, left edge. */
  function ArcProfile(a: real, rIn: real, rOut: real): (r: seq<Segment>)
    ensures |r| == 4 && r[0].ArcThrough? && r[1].Straight? && r[2].ArcThrough? && r[3].Straight?
    ensures forall i :: 0 <= i < |r| ==> r[i].start.x == a && r[i].end.x == a
    ensures r[0].middle.x == a && r[2].middle.x == a
    ensures RadialDist2(r[0].start) == rOut * rOut && RadialDist2(r[0].middle) == rOut * rOut
            && RadialDist2(r[0].end) == rOut * rOut
    ensures RadialDist2(r[2].start) == rIn * rIn && RadialDist2(r[2].middle) == rIn * rIn
            && RadialDist2(r[2].end) == rIn * rIn
  {
    var outerArc := ArcThrough(Point(a, 0.0, -rOut), Point(a, -rOut, 0.0), Point(a, 0.0, rOut));
    var innerArc := ArcThrough(Point(a, 0.0, -rIn), Point(a, -rIn, 0.0), Point(a, 0.0, rIn));
    var leftEdge := Straight(Point(a, 0.0, -rIn), Point(a, 0.0, -rOut));
    var rightEdge := Straight(Point(a, 0.0, rIn), Point(a, 0.0, rOut));
    [outerArc, rightEdge, innerArc, leftEdge]
  }

  /** The four solids of the model, as the builder constructs them. */
  function ElbowModel(p: ElbowParams): (g: ElbowGeometry)
    ensures g.tube.outer.axis == Axis(Origin, XDir) && g.tube.inner.axis == g.tube.outer.axis
    ensures g.tube.outer.radius == p.tubeOuterRadius && g.tube.inner.radius == p.tubeInnerRadius
    ensures g.rotary.outer.axis == Axis(Point(p.tubeLength - p.rotaryPos, 0.0, 0.0), XDir)
    ensures g.fixed.outer.axis == Axis(Point(p.tubeLength - p.fixedPos, 0.0, 0.0), XDir)
    ensures g.rotary.inner.axis == g.rotary.outer.axis && g.fixed.inner.axis == g.fixed.outer.axis
    ensures g.arc.revolveAxis.direction == ZDir
    ensures g.arc.revolveAxis.location == Point(g.rotary.outer.axis.location.x - Tolerance, -p.arcRadius, 0.0)
    ensures g.arc.deflection * 2.0 == g.tube.deflection && g.rotary.deflection == g.tube.deflection
  {
    var tubeAxis := Axis(Origin, XDir);
    var tube := Hollow(Cylinder(tubeAxis, p.tubeOuterRadius, p.tubeLength),
                       Cylinder(tubeAxis, p.tubeInnerRadius, p.tubeLength), MeshPrecision);

    var rotaryFromLeft := p.tubeLength - p.rotaryPos;
    var rotaryInner := p.tubeOuterRadius + Tolerance;
    var rotary := SleeveAt(rotaryFromLeft, rotaryInner, rotaryInner + p.rotaryThickness, p.rotaryLength);

    var fixedFromLeft := p.tubeLength - p.fixedPos;
    var fixedInner := p.tubeOuterRadius + Tolerance;
    var fixed := SleeveAt(fixedFromLeft, fixedInner, fixedInner + p.fixedThickness, p.fixedLength);

    var arcPosition := rotaryFromLeft - Tolerance;
    var arcInner := p.tubeOuterRadius + Tolerance;
    var arcOuter := arcInner + p.arcThickness;
    var axis := Axis(Point(arcPosition, -p.arcRadius, 0.0), ZDir);
    var arc := ArcSector(ArcProfile(arcPosition, arcInner, arcOuter), axis, p.arcAngle, MeshPrecision * 0.5);

    ElbowGeometry(tube, rotary, fixed, arc)
  }

  /**
   * Position from the left end is tube length minus the input, so a larger input
   * places the sleeve strictly further left, in the record and in the solid.
   */
  lemma RotaryPositionDecreasing(p: ElbowParams, q: ElbowParams)
    requires q == p.(rotaryPos := q.rotaryPos) && q.rotaryPos > p.rotaryPos
    ensures ElbowRecords(q).rotary.position < ElbowRecords(p).rotary.position
    ensures ElbowModel(q).rotary.outer.axis.location.x < ElbowModel(p).rotary.outer.axis.location.x
    ensures ElbowRecords(p).rotary.position + p.rotaryPos == p.tubeLength
  {
  }

  /** The same rule for the fixed sleeve. */
  lemma FixedPositionDecreasing(p: ElbowParams, q: ElbowParams)
    requires q == p.(fixedPos := q.fixedPos) && q.fixedPos > p.fixedPos
    ensures ElbowRecords(q).fixed.position < ElbowRecords(p).fixed.position
    ensures ElbowModel(q).fixed.outer.axis.location.x < ElbowModel(p).fixed.outer.axis.location.x
    ensures ElbowRecords(p).fixed.position + p.fixedPos == p.tubeLength
  {
  }

  /**
   * Every part slid over the tube has its inner radius at the tube's outer radius
   * plus the clearance, so strictly outside the tube, in the records and in the solids.
   */
  lemma RadialClearance(p: ElbowParams)
    ensures var rec := ElbowRecords(p);
            && rec.rotary.rIn == p.tubeOuterRadius + Tolerance
            && rec.fixed.rIn == p.tubeOuterRadius + Tolerance
            && rec.arc.rIn == p.tubeOuterRadius + Tolerance
    ensures var g := ElbowModel(p);
            && g.rotary.inner.radius > g.tube.outer.radius
            && g.fixed.inner.radius > g.tube.outer.radius
            && g.rotary.inner.radius == ElbowRecords(p).rotary.rIn
            && g.fixed.inner.radius == ElbowRecords(p).fixed.rIn
  {
  }

  /**
   * Outer radius is inner radius plus the part's own thickness, for every solid
   * and record field except the fixed sleeve's record, which uses the rotary
   * thickness: it agrees with the fixed sleeve's solid exactly when the two
   * thicknesses are equal.
   */
  lemma OuterRadii(p: ElbowParams)
    ensures var rec := ElbowRecords(p);
            && rec.rotary.rOut == rec.rotary.rIn + p.rotaryThickness
            && rec.arc.rOut == rec.arc.rIn + p.arcThickness
            && rec.fixed.rOut == rec.fixed.rIn + p.rotaryThickness
    ensures var g := ElbowModel(p);
            && g.rotary.outer.radius == g.rotary.inner.radius + p.rotaryThickness
            && g.fixed.outer.radius == g.fixed.inner.radius + p.fixedThickness
            && g.tube.outer.radius - g.tube.inner.radius == p.tubeOuterRadius - p.tubeInnerRadius
    ensures ElbowRecords(p).fixed.rOut == ElbowModel(p).fixed.outer.radius
            <==> p.rotaryThickness == p.fixedThickness
  {
  }

  /**
   * Frame coupling: the arc's rotation point is its revolve-axis origin, just
   * left of the rotary sleeve at the arc radius below the tube axis; the arc's
   * reference point is that same point; the rotary sleeve rotates about it too;
   * the fixed sleeve rotates about its own reference point, its mid-length.
   */
  lemma FrameCoupling(p: ElbowParams)
    ensures var rec := ElbowRecords(p);
            && rec.arc.rot == Point(rec.rotary.position - Tolerance, -p.arcRadius, 0.0)
            && rec.arc.rot == ElbowModel(p).arc.revolveAxis.location
            && rec.arc.ref == rec.arc.rot
            && rec.rotary.rot == rec.arc.rot
            && rec.fixed.rot == rec.fixed.ref
            && rec.rotary.ref == Point(rec.rotary.position + p.rotaryLength / 2.0, 0.0, 0.0)
            && rec.fixed.ref == Point(rec.fixed.position + p.fixedLength / 2.0, 0.0, 0.0)
    ensures ElbowModel(p).arc.revolveAxis.direction == ZDir
    ensures var fr := RigidBodyFrames(p);
            && fr[0] == Frame(ElbowRecords(p).arc.ref, ElbowRecords(p).arc.rot)
            && fr[1] == Frame(ElbowRecords(p).rotary.ref, ElbowRecords(p).rotary.rot)
            && fr[2] == Frame(ElbowRecords(p).fixed.ref, ElbowRecords(p).fixed.rot)
            && fr[1].rot == fr[0].rot
  {
  }

  /** The documented example: tube 1000 long, rotary sleeve 100 long placed 200 from the right. */
  lemma ExampleElbow()
    ensures var p := ElbowParams(50.0, 40.0, 1000.0, 10.0, 100.0, 200.0, 10.0, 80.0, 400.0, 80.0, 15.0, 1.5707963);
            var rec := ElbowRecords(p);
            && rec.rotary.position == 800.0
            && rec.rotary.ref == Point(850.0, 0.0, 0.0)
            && rec.fixed.ref == Point(640.0, 0.0, 0.0)
            && rec.arc.rot == Point(799.999, -80.0, 0.0)
            && rec.rotary.rIn == 50.001 && rec.rotary.rOut == 60.001 && rec.arc.rOut == 65.001
  {
  }

  /** Squared distance from the x axis. */
  function RadialDist2(pt: Point): (d: real)
    ensures d >= 0.0
  {
    pt.y * pt.y + pt.z * pt.z
  }

  /** Consecutive segments, each taken forwards or backwards, form one loop. */
  ghost predicate ClosedLoop(profile: seq<Segment>, backwards: seq<bool>)
  {
    && |profile| > 0 && |backwards| == |profile|
    && forall i :: 0 <= i < |profile| ==>
         Tail(profile[i], backwards[i]) == Head(profile[(i + 1) % |profile|], backwards[(i + 1) % |profile|])
  }

  /** Where a segment begins when traversed in the given direction: one of its two endpoints. */
  function Head(s: Segment, backwards: bool): (pt: Point)
    ensures pt == s.start || pt == s.end
    ensures pt == Tail(s, !backwards)
  {
    if backwards then s.end else s.start
  }

  /** Where a segment ends when traversed in the given direction: one of its two endpoints. */
  function Tail(s: Segment, backwards: bool): (pt: Point)
    ensures pt == s.start || pt == s.end
  {
    if backwards then s.start else s.end
  }

  /**
   * The arc sector's cross-section is closed: outer arc, then the right edge and
   * inner arc traversed backwards, then the left edge back to the start. All its
   * points lie in the plane x == arc position; the outer arc's points lie on the
   * circle of the outer radius about the tube axis and the inner arc's on the
   * circle of the inner radius.
   */
  lemma ArcProfileClosed(p: ElbowParams)
    ensures var arc := ElbowModel(p).arc;
            && |arc.profile| == 4
            && ClosedLoop(arc.profile, [false, true, true, false])
    ensures var arc := ElbowModel(p).arc;
            var a := ElbowRecords(p).arc;
            && arc.profile[0].ArcThrough? && arc.profile[2].ArcThrough?
            && RadialDist2(arc.profile[0].start) == a.rOut * a.rOut
            && RadialDist2(arc.profile[0].middle) == a.rOut * a.rOut
            && RadialDist2(arc.profile[0].end) == a.rOut * a.rOut
            && RadialDist2(arc.profile[2].start) == a.rIn * a.rIn
            && RadialDist2(arc.profile[2].middle) == a.rIn * a.rIn
            && RadialDist2(arc.profile[2].end) == a.rIn * a.rIn
            && (forall i :: 0 <= i < 4 ==> arc.profile[i].start.x == a.position && arc.profile[i].end.x == a.position)
            && arc.profile[0].middle.x == a.position && arc.profile[2].middle.x == a.position
  {
    var arc := ElbowModel(p).arc;
    var b := [false, true, true, false];
    assert (0 + 1) % 4 == 1 && (1 + 1) % 4 == 2 && (2 + 1) % 4 == 3 && (3 + 1) % 4 == 0;
    forall i | 0 <= i < 4
      ensures Tail(arc.profile[i], b[i]) == Head(arc.profile[(i + 1) % 4], b[(i + 1) % 4])
    {
    }
  }

  /**
   * With a positive inner radius and a positive arc thickness the four corners
   * of the profile are distinct, so the loop encloses a proper half ring.
   */
  lemma ArcProfileCornersDistinct(p: ElbowParams)
    requires p.tubeOuterRadius + Tolerance > 0.0 && p.arcThickness > 0.0
    ensures var pr := ElbowModel(p).arc.profile;
            var corners := [pr[0].start, pr[0].end, pr[2].start, pr[2].end];
            forall i, j :: 0 <= i < j < 4 ==> corners[i] != corners[j]
  {
  }
}
