# Tube main window: topology and placement core

This project models the logic inside the main window of the Tube tool that is
more than Qt, VTK or OpenCASCADE plumbing:

- **Tolerant edge equality.** Two edges are equal when both are non-null and
  have a 3D curve, the curve types match, and the endpoints coincide within the
  kernel's confusion tolerance, in the same order or reversed.
- **Faces sharing an edge.** A linear scan over the faces of a shape lists each
  face at most once. A face is listed through its first edge equal to the query
  edge.
- **Outer-shell extraction.** This is a breadth-first search from a picked seed
  face. It uses a FIFO queue and a visited set compared by face identity. The
  search accepts only cylindrical, toroidal and B-spline faces.
- **Display mesh and pick map.** Face triangulations are concatenated into one
  mesh. Node indices are shifted by the running node total. Every emitted cell
  id maps back to its face, so a picked cell names a face.
- **Parametric elbow placement.** This covers:
  - sleeve positions measured from the tube's left end;
  - radial clearance;
  - the rigid-body reference and rotation points;
  - the closed four-segment profile of the arc sector.
- **Analytic centerlines.** Each cylindrical face yields its axis as a bounded
  line. Each toroidal face yields the circle of its major radius.

Kernel objects are records:

- A face is an id, a surface and a list of edges.
- An edge is an optional curve kind and two endpoints.
- A face triangulation is an optional pair: a node count and 1-based index triples.

A face's kernel identity (`IsSame`) is its id. Distances are exact reals. The
test `Distance < tol` is written as squared distance `< tol * tol`.

Modules, one file each:

| module | file | what |
|---|---|---|
| Wrappers | wrappers.dfy | `Option` |
| Geometry | geometry.dfy | points, axes, squared distance |
| Topology | topology.dfy | edges, faces, surface types, `AreEdgesSame`, `GetFacesSharingEdge` |
| Patch | patch.dfy | the outer-shell breadth-first search |
| Tessellation | tessellation.dfy | mesh offsets, pick map, the two display paths and the mesh-only conversion |
| Placement | placement.dfy | elbow records, frames and solids |
| Centerlines | centerlines.dfy | centerline synthesis |

## Model

| member | source | states |
|---|---|---|
| Topology.Classify | mainwindow.cpp:775-779 | The surface-type tag is Cylinder, Torus, Plane or BSpline exactly when the face's surface is of that kind. |
| Topology.AllowedSurfaces | mainwindow.cpp:779 | `IsAllowed`, the seed test (:779) and the neighbour test (:820), accepts a face exactly when its surface is a cylinder, a torus or a B-spline. Planes and every other kind are refused. |
| Topology.AreEdgesSame | mainwindow.cpp:834-866 | Edges are equal iff both are non-null with a 3D curve of the same kind and the endpoints coincide pairwise, in order or after reversing the second edge. |
| Topology.EdgesSameNeedsCurves | mainwindow.cpp:836-848 | A null edge, or an edge without a 3D curve, equals no edge. |
| Topology.EdgesSameNeedsSameKind | mainwindow.cpp:851-853 | Edges with different curve types are never equal, whatever their endpoints. |
| Topology.EdgesSameSymmetric | mainwindow.cpp:856-865 | Edge equality is symmetric. |
| Topology.Dist2Symmetric | mainwindow.cpp:862-863 | The distance used by the endpoint test does not depend on argument order. |
| Topology.EdgesSameReversal | mainwindow.cpp:862-865 | Reversing either edge does not change the answer. |
| Topology.EdgeSameAsItself | mainwindow.cpp:856-865 | Every non-null edge with a curve equals itself and its reversal. |
| Topology.EdgesSameNotTransitive | mainwindow.cpp:861-865 | The tolerance makes equality non-transitive: three concrete segments with a equal to b and b equal to c, but a not equal to c. |
| Topology.IdsMember | mainwindow.cpp:880-882 | An identity in the set of listed identities belongs to some listed face. |
| Topology.IdsAppend | mainwindow.cpp:880-882 | Appending a face adds exactly its identity to the identity set. |
| Topology.DistinctIdsAppend | mainwindow.cpp:880-882 | Appending a face whose identity is new keeps the identities distinct. |
| Topology.FirstMatchingEdge | mainwindow.cpp:875-886 | Returns the index of the first edge equal to the query edge, or the edge count when none is equal. |
| Topology.ListedAppend | mainwindow.cpp:881-882 | Appending face i to a listing taken from the first i faces gives a listing, in shape order, taken from the first i+1 faces. |
| Topology.FirstOwnerAppend | mainwindow.cpp:880-882 | Listing a face whose identity is new keeps every listed face the first owner of its identity. |
| Topology.ScanSkip | mainwindow.cpp:877-885 | Passing over a face that owns no equal edge, or whose identity is already listed, keeps the scan state. |
| Topology.ScanAdd | mainwindow.cpp:879-884 | Listing an owner with a new identity adds exactly that identity and keeps the scan state. |
| Topology.ScanDone | mainwindow.cpp:869-888 | The scan state after every face gives the listing's full contract. |
| Topology.SharingListed | mainwindow.cpp:880-882 | When identities determine faces, an owner whose identity is listed is itself listed. |
| Topology.GetFacesSharingEdge | mainwindow.cpp:869-888 | The listed faces come in shape order. Each owns an edge equal to the query edge. Each identity is listed through its first owning face: no earlier owner shares a listed face's identity. No identity is listed twice. Every face of the shape owning such an edge has its identity listed, and the face itself is listed when identities determine faces. |
| Patch.ReachSeed | mainwindow.cpp:779-794 | An allowed seed is reachable from itself. |
| Patch.ReachStep | mainwindow.cpp:806-825 | An allowed face of the shape sharing an edge with a reachable face is reachable. |
| Patch.UnvisitedShrinks | mainwindow.cpp:801-802 | Visiting a new identity shrinks the unvisited part of the finite identity universe, which makes the loop terminate. |
| Patch.CoveredExtend | mainwindow.cpp:824 | Pushing onto the queue never uncovers a face. |
| Patch.EdgesCoveredExtend | mainwindow.cpp:824 | Pushing onto the queue keeps the already scanned edges' neighbours covered. |
| Patch.AllCoveredExtend | mainwindow.cpp:824 | Pushing onto the queue keeps every result face's neighbours covered. |
| Patch.CoveredPop | mainwindow.cpp:798-802 | Popping the queue head and marking it visited keeps every covered face covered. |
| Patch.AllCoveredAppend | mainwindow.cpp:803-826 | A face whose edges are all scanned can join the result without breaking coverage. |
| Patch.IdsIdentifyTail | mainwindow.cpp:772 | If identities determine faces over the seed and the shape, they do so over the shape. |
| Patch.ClosedAtEnd | mainwindow.cpp:797-830 | When identities determine faces over the seed and the shape, an empty queue with every result face's neighbours covered means the result is closed under edge-sharing allowed neighbours. |
| Patch.ClosedContainsChain | mainwindow.cpp:806-826 | A closed patch holding the start of a chain of edge-sharing allowed faces holds its end. |
| Patch.EnqueueOne | mainwindow.cpp:824 | Appending an unvisited allowed face sharing an edge with the current face keeps the queue's appended part made of such faces. |
| Patch.EnqueueAllowed | mainwindow.cpp:813-825 | Pushes only unvisited allowed faces of the shape that share an edge with the current face. Every allowed listed face ends up visited or queued. |
| Patch.EnqueueNeighbours | mainwindow.cpp:807-826 | Only unvisited faces reachable from the seed are pushed, and the queue only grows at its end. When identities determine faces over the shape, after all edges of the current face are scanned every allowed face sharing one of its edges is visited or queued. |
| Patch.KnownInUniverse | mainwindow.cpp:772-794 | The seed and every face of the shape carry identities of the search's universe. |
| Patch.SkipKeepsInv | mainwindow.cpp:801 | Discarding an already visited queue head keeps the search invariant. |
| Patch.VisitNext | mainwindow.cpp:797-827 | One round keeps the search invariant. It appends the head exactly when the head is unvisited. The pair (unvisited identities, queue length) decreases. |
| Patch.AcceptKeepsInv | mainwindow.cpp:802-826 | Accepting a new face and pushing its neighbours keeps the search invariant. |
| Patch.SearchStart | mainwindow.cpp:788-794 | The state with the seed alone in the queue satisfies the search invariant. |
| Patch.SearchDone | mainwindow.cpp:797-830 | At the end of the search, the result starts with the seed. Identities are distinct, and every face is allowed, reachable and known. When identities determine faces, the result is closed and holds every reachable face. |
| Patch.FindConnectedOuterSurface | mainwindow.cpp:772-831 | A disallowed seed gives the null shape. Otherwise the result starts with the seed, never holds an identity twice, and holds only allowed faces of the shape reachable from the seed. When identities determine faces, the result is closed and is exactly the reachable faces. |
| Tessellation.CellsBeforeMonotone | mainwindow.cpp:617-652 | Each face's cell range ends no later than any later face's range begins. |
| Tessellation.NodesBeforeMonotone | mainwindow.cpp:605-651 | Each face's node range ends no later than any later face's range begins. |
| Tessellation.CellOwner | mainwindow.cpp:617-652 | Every cell id below the triangle total lies in some face's range. |
| Tessellation.CellOwnerUnique | mainwindow.cpp:617-652 | No cell id lies in two faces' ranges. |
| Tessellation.PrefixCellsBefore | mainwindow.cpp:621-655 | The running cell total before a face depends only on the faces before it. |
| Tessellation.NullTriangulationContributesNothing | mainwindow.cpp:625-653 | A face with a null triangulation adds no nodes and no cells. |
| Tessellation.ToGlobal | mainwindow.cpp:644 | Subtracting the face's node offset and adding one recovers each 1-based local node index from its global point id. |
| Tessellation.GlobalIdsInRange | mainwindow.cpp:644 | When the local index is in 1..NbNodes, each global point id lies in the face's own node range [NodesBefore(k), NodesBefore(k) + NbNodes), and so below the total. |
| Tessellation.EmitFace | mainwindow.cpp:625-653 | A face's triangles become the next cells, shifted by the node offset. Each new cell id maps to the face, and other map entries are untouched. |
| Tessellation.BuildMesh | mainwindow.cpp:603-655 | The point count is the node total and the cell count is the triangle total. The map keys are exactly 0..T-1. Triangle i of face k is cell CellsBefore(k)+i, shifted by face k's node offset, and maps to face k. |
| Tessellation.DisplayShape | mainwindow.cpp:558-655 | A null shape warns and leaves the map. A failed mesher leaves the map. Otherwise the map is rebuilt with keys exactly 0..T-1, each mapped to its face. |
| Tessellation.DisplayMeshedShape | mainwindow.cpp:1243-1341 | A null shape warns and leaves the map. Otherwise the map is cleared first. Zero triangles display nothing and leave the map empty. Otherwise the keys are exactly 0..T-1. |
| Tessellation.ConvertToPolyData | mainwindow.cpp:88-142 | A failed mesher is an error. Otherwise the point and cell counts are the totals and every cell carries the shifted indices of its triangle. |
| Tessellation.PickedFace | mainwindow.cpp:757-760 | A pick yields a face exactly when the cell id is not -1 and is a key of the map, and then it is the mapped face. |
| Tessellation.PickRoundTrip | mainwindow.cpp:745-761 | Picking a cell id yields a face exactly when the id is in 0..T-1. The face is the one whose cell range contains the id. |
| Placement.ElbowRecords | mainwindow.cpp:225-248 | Sleeve positions are tube length minus the input. The arc sits 0.001 left of the rotary sleeve. All three inner radii are the tube's outer radius plus 0.001. Arc ref equals arc rot, the rotary sleeve rotates about the arc's point, and the fixed sleeve about its own reference point. |
| Placement.RigidBodyFrames | mainwindow.cpp:264-275 | Three frames. The arc's reference and rotation points coincide, the rotary sleeve shares the arc's rotation point, and the fixed sleeve's coincide. The rotary reference is half its length plus 0.001 right of its rotation point. The rotation point is at −arc radius off the tube axis, and the sleeve references are on it. |
| Placement.SleeveAt | mainwindow.cpp:316-337 | A sleeve is two cylinders sharing the axis through (x, 0, 0) in direction +x, so on the tube axis. Both have the given length; the inner radius is the given one and the radii differ by outer minus inner. |
| Placement.ArcProfile | mainwindow.cpp:346-383 | Outer arc, right edge, inner arc, left edge, all in the plane x = a. The outer arc's three points are on the outer radius about the tube axis and the inner arc's on the inner radius. |
| Placement.ElbowModel | mainwindow.cpp:305-390 | The tube lies on the x axis from the origin, with the given outer and inner radii. Each sleeve's two cylinders lie on the tube axis, starting at (tube length − input, 0, 0) in direction +x. The arc revolves about a z-parallel axis through (rotary position − 0.001, −arc radius, 0), at half the tube's deflection. |
| Placement.RotaryPositionDecreasing | mainwindow.cpp:225 | The rotary position from the left is tube length minus the input, so it strictly decreases as the input grows, in the record and in the solid. |
| Placement.FixedPositionDecreasing | mainwindow.cpp:231 | The same rule holds for the fixed sleeve. |
| Placement.RadialClearance | mainwindow.cpp:226-241 | Every inner radius of a sleeve or the arc is the tube's outer radius plus 0.001. The sleeves are coaxial with the tube (`ElbowModel`), so they sit strictly outside it. The records and the solids agree. |
| Placement.OuterRadii | mainwindow.cpp:226-242 | Each outer radius is inner radius plus the part's own thickness. The exception is the fixed sleeve's record, which uses the rotary thickness and matches the fixed solid exactly when the thicknesses are equal. |
| Placement.FrameCoupling | mainwindow.cpp:236-248 | Arc rot is (rotary position − 0.001, −arc radius, 0) and is the revolve-axis origin. Arc ref equals arc rot, rotary rot equals arc rot, and fixed rot equals fixed ref. The frames are written in the order arc, rotary, fixed. |
| Placement.ExampleElbow | mainwindow.cpp:225-248 | A tube 1000 long with the rotary sleeve (length 100) placed 200 from the right gives rotary ref (850,0,0), fixed ref (640,0,0) and arc rot (799.999,−80,0). |
| Placement.ArcProfileClosed | mainwindow.cpp:346-383 | The four profile segments form one closed loop. Every start, end and arc middle point lies in the plane x = arc position. The outer arc's three points are on the outer radius about the tube axis and the inner arc's on the inner radius. |
| Placement.ArcProfileCornersDistinct | mainwindow.cpp:351-372 | With positive inner radius and positive thickness the four corners of the profile are distinct. |
| Centerlines.FaceCenterline | mainwindow.cpp:1145-1179 | A face asks for a centerline exactly when it is a cylinder or a torus. |
| Centerlines.ExtractCenterlines | mainwindow.cpp:1121-1204 | At most one centerline per face. Each has a valid curve and is the centerline of some face. |
| Centerlines.ExtractComplete | mainwindow.cpp:1129-1200 | Every face whose centerline edge has a valid curve contributes it. |
| Centerlines.ExtractConcat | mainwindow.cpp:1129-1200 | Faces are handled independently: the result over a concatenation is the concatenation of the results. |
| Centerlines.SkippedFaceIsIsolated | mainwindow.cpp:1145-1198 | A face that yields nothing leaves the centerlines of the faces around it unchanged. |
| Centerlines.ExtractCount | mainwindow.cpp:1129-1200 | The number of centerlines is the number of faces with a valid centerline edge. |
| Centerlines.SingleFaceCenterline | mainwindow.cpp:1149-1193 | A cylinder gives its axis line over −500..500. A torus gives the circle about its axis with its major radius. Any other face gives nothing. |

## Left out

- Qt widgets, layouts, message boxes and signal wiring are not modelled; only the outcome of a display request is.
- VTK rendering, actors and the interactor style are not modelled. The picker is reduced to a map lookup on the picked cell id.
- Point coordinates and location transforms of triangulation nodes are not modelled: the mesh keeps the point count, not the points.
- Floating-point arithmetic is not modelled: all geometry uses exact reals.
- Integer overflow of the running offsets and cell ids is not modelled; they are unbounded.
- Kernel operations are abstracted:
  - The triangulations the mesher leaves on each face are an input.
  - Whether the mesher finished is a boolean input.
  - The surface-type query is `Classify` on the face record.
  - Whether a built centerline edge has a 3D curve is the function parameter `hasCurve`.
  - Cylinder, cut and revolve construction are records of their arguments (`ElbowModel`).
- Exceptions are modelled through outcomes:
  - A thrown mesher failure is `MeshFailed` or `None`.
  - A kernel exception while building a centerline is the same as an edge without a curve.
- The `rigidbody.info` file text and the file paths are not modelled; the frame values are.
- File import (STEP/IGES) is left out as I/O.
- Result-field browsing is left out as pure VTK display.
- The neighbour-side visited test of the search (mainwindow.cpp:815) is modelled as an identity lookup. The source's `ShapeHash` (mainwindow.h:99-103) hashes the argument's address. The insert at mainwindow.cpp:802 hashes `&currentFace`; the lookup at :815 hashes `&adjFace`, a different local. The standard library caches hash codes because the hasher is not `noexcept`, so that lookup never finds a visited face. A visited face is therefore pushed again once for each later accepted face and shared edge that lists it. The pop-side test at mainwindow.cpp:801 discards those copies only because `currentFace` occupies the same stack slot on every iteration. The result is unaffected, so the model's result equals the source's.
- Null faces in the centerline loop (mainwindow.cpp:1135) are not modelled, since face enumeration yields no null faces.
- Patch.FindConnectedOuterSurface: closure and completeness are stated only when face identities determine faces over the seed and the shape. Otherwise the identity-based visited set may keep one of two different faces that share an identity.
