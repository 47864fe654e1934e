/**
 * Conversion of a triangulated shape into one display mesh: every face's nodes
 * are appended to a global point list and its triangles to a global cell list,
 * with node indices shifted by the running node total, and each emitted cell id
 * is mapped back to the face it came from so that a picked cell names a face.
 */
module Tessellation {
  import opened Wrappers
  import opened Topology

  /** A triangle of a face triangulation: three 1-based indices into the face's nodes. */
  datatype Triangle = Triangle(n1: int, n2: int, n3: int)

  /** A face triangulation: its node count and its triangles. */
  datatype Triangulation = Triangulation(nbNodes: nat, triangles: seq<Triangle>)

  /** A face with the triangulation the mesher left on it, if any. */
  datatype MeshedFace = MeshedFace(face: Face, triangulation: Option<Triangulation>)

  /** A display cell: three 0-based global point ids. */
  datatype Cell = Cell(a: int, b: int, c: int)

  /** The display mesh: how many points were inserted, and the cells in insertion order. */
  datatype PolyData = PolyData(numPoints: nat, cells: seq<Cell>)

  /** Nodes a face contributes; a face without triangulation contributes none. */
  function NodeCount(m: MeshedFace): (n: nat)
  {
    if m.triangulation.Some? then m.triangulation.value.nbNodes else 0
  }

  /** Triangles a face contributes; a face without triangulation contributes none. */
  function TriangleCount(m: MeshedFace): (n: nat)
  {
    if m.triangulation.Some? then |m.triangulation.value.triangles| else 0
  }

  /** Running node total before face k: the offset of face k's first node. */
  function NodesBefore(faces: seq<MeshedFace>, k: nat): (n: nat)
    requires k <= |faces|
  {
    if k == 0 then 0 else NodesBefore(faces, k - 1) + NodeCount(faces[k - 1])
  }

  /** Running triangle total before face k: the id of face k's first cell. */
  function CellsBefore(faces: seq<MeshedFace>, k: nat): (n: nat)
    requires k <= |faces|
  {
    if k == 0 then 0 else CellsBefore(faces, k - 1) + TriangleCount(faces[k - 1])
  }

  /** A triangle's 1-based local indices as global point ids, given the face's node offset. */
  function ToGlobal(t: Triangle, offset: int): (c: Cell)
    ensures c.a - offset + 1 == t.n1 && c.b - offset + 1 == t.n2 && c.c - offset + 1 == t.n3
  {
    Cell(t.n1 - 1 + offset, t.n2 - 1 + offset, t.n3 - 1 + offset)
  }

  /** The keys of the map are exactly the ids lo .. hi-1. */
  ghost predicate KeysAre(faceMap: map<int, Face>, lo: int, hi: int)
  {
    forall c :: c in faceMap <==> lo <= c < hi
  }

  /** Triangle i of face k was emitted as cell CellsBefore(k) + i, mapped back to face k. */
  ghost predicate Emitted(faces: seq<MeshedFace>, k: nat, i: nat, cells: seq<Cell>, faceMap: map<int, Face>)
    requires k < |faces| && i < TriangleCount(faces[k])
  {
    var c := CellsBefore(faces, k) + i;
    && CellAt(faces, k, i, cells)
    && c in faceMap && faceMap[c] == faces[k].face
  }

  /** Triangle i of face k is cell CellsBefore(k) + i, shifted by face k's node offset. */
  ghost predicate CellAt(faces: seq<MeshedFace>, k: nat, i: nat, cells: seq<Cell>)
    requires k < |faces| && i < TriangleCount(faces[k])
  {
    var c := CellsBefore(faces, k) + i;
    c < |cells| && cells[c] == ToGlobal(faces[k].triangulation.value.triangles[i], NodesBefore(faces, k))
  }

  /** Face k's cell range ends no later than face j's begins. */
  lemma {:induction false} CellsBeforeMonotone(faces: seq<MeshedFace>, k: nat, j: nat)
    requires k < j <= |faces|
    ensures CellsBefore(faces, k) + TriangleCount(faces[k]) <= CellsBefore(faces, j)
    decreases j
  {
    if j > k + 1 {
      CellsBeforeMonotone(faces, k, j - 1);
    }
  }

  /** Face k's node range ends no later than face j's begins. */
  lemma {:induction false} NodesBeforeMonotone(faces: seq<MeshedFace>, k: nat, j: nat)
    requires k < j <= |faces|
    ensures NodesBefore(faces, k) + NodeCount(faces[k]) <= NodesBefore(faces, j)
    decreases j
  {
    if j > k + 1 {
      NodesBeforeMonotone(faces, k, j - 1);
    }
  }

  /**
   * Every cell id below the triangle total lies in some face's range; with
   * CellOwnerUnique, the ranges of the faces, in enumeration order, tile 0 .. T-1.
   */
  lemma {:induction false} CellOwner(faces: seq<MeshedFace>, c: int)
    requires 0 <= c < CellsBefore(faces, |faces|)
    ensures exists k :: 0 <= k < |faces| && CellsBefore(faces, k) <= c < CellsBefore(faces, k) + TriangleCount(faces[k])
    decreases |faces|
  {
    var n := |faces| - 1;
    var init := faces[..n];
    assert forall k :: 0 <= k <= n ==> CellsBefore(init, k) == CellsBefore(faces, k) by {
      forall k | 0 <= k <= n
        ensures CellsBefore(init, k) == CellsBefore(faces, k)
      {
        PrefixCellsBefore(faces, n, k);
      }
    }
    if c >= CellsBefore(faces, n) {
      assert CellsBefore(faces, n) <= c < CellsBefore(faces, n) + TriangleCount(faces[n]);
    } else {
      CellOwner(init, c);
      var k :| 0 <= k < n && CellsBefore(init, k) <= c < CellsBefore(init, k) + TriangleCount(init[k]);
      assert init[k] == faces[k];
    }
  }

  /** No cell id lies in the ranges of two different faces. */
  lemma CellOwnerUnique(faces: seq<MeshedFace>, c: int)
    ensures forall k, l ::
              0 <= k < |faces| && 0 <= l < |faces|
              && CellsBefore(faces, k) <= c < CellsBefore(faces, k) + TriangleCount(faces[k])
              && CellsBefore(faces, l) <= c < CellsBefore(faces, l) + TriangleCount(faces[l])
              ==> k == l
  {
    forall k, l |
      0 <= k < |faces| && 0 <= l < |faces|
      && CellsBefore(faces, k) <= c < CellsBefore(faces, k) + TriangleCount(faces[k])
      && CellsBefore(faces, l) <= c < CellsBefore(faces, l) + TriangleCount(faces[l])
      ensures k == l
    {
      if k < l {
        CellsBeforeMonotone(faces, k, l);
      } else if l < k {
        CellsBeforeMonotone(faces, l, k);
      }
    }
  }

  /** Running totals only look at the faces before k. */
  lemma {:induction false} PrefixCellsBefore(faces: seq<MeshedFace>, n: nat, k: nat)
    requires k <= n <= |faces|
    ensures CellsBefore(faces[..n], k) == CellsBefore(faces, k)
    decreases k
  {
    if k > 0 {
      PrefixCellsBefore(faces, n, k - 1);
      assert faces[..n][k - 1] == faces[k - 1];
    }
  }

  /** A face with a null triangulation adds no nodes and no cells. */
  lemma NullTriangulationContributesNothing(faces: seq<MeshedFace>, k: nat)
    requires k < |faces| && faces[k].triangulation.None?
    ensures CellsBefore(faces, k + 1) == CellsBefore(faces, k)
    ensures NodesBefore(faces, k + 1) == NodesBefore(faces, k)
  {
  }

  /**
   * A triangle whose local indices lie in 1 .. NbNodes of its face gets global
   * point ids inside that face's node range, hence below the total node count.
   */
  lemma GlobalIdsInRange(faces: seq<MeshedFace>, k: nat, i: nat)
    requires k < |faces| && faces[k].triangulation.Some?
    requires i < |faces[k].triangulation.value.triangles|
    requires var t := faces[k].triangulation.value.triangles[i];
             var n := faces[k].triangulation.value.nbNodes;
             1 <= t.n1 <= n && 1 <= t.n2 <= n && 1 <= t.n3 <= n
    ensures var g := ToGlobal(faces[k].triangulation.value.triangles[i], NodesBefore(faces, k));
            && NodesBefore(faces, k) <= g.a < NodesBefore(faces, k) + NodeCount(faces[k])
            && NodesBefore(faces, k) <= g.b < NodesBefore(faces, k) + NodeCount(faces[k])
            && NodesBefore(faces, k) <= g.c < NodesBefore(faces, k) + NodeCount(faces[k])
            && g.a < NodesBefore(faces, |faces|) && g.b < NodesBefore(faces, |faces|)
            && g.c < NodesBefore(faces, |faces|)
  {
    NodesBeforeMonotone(faces, k, |faces|);
  }

  /**
   * Emits one face: its triangles become the next cells, shifted by `offset`,
   * and each new cell id maps to the face. Entries of `faceMap` outside the new
   * ids are untouched.
   */
  method EmitFace(m: MeshedFace, offset: nat, cells: seq<Cell>, faceMap: map<int, Face>)
    returns (cells': seq<Cell>, faceMap': map<int, Face>)
    ensures |cells'| == |cells| + TriangleCount(m) && cells'[..|cells|] == cells
    ensures forall c :: c in faceMap' <==> c in faceMap || |cells| <= c < |cells| + TriangleCount(m)
    ensures forall c :: c in faceMap && !(|cells| <= c < |cells| + TriangleCount(m)) ==> faceMap'[c] == faceMap[c]
    ensures forall c :: |cells| <= c < |cells| + TriangleCount(m) ==>
              cells'[c] == ToGlobal(m.triangulation.value.triangles[c - |cells|], offset)
              && faceMap'[c] == m.face
  {
    cells' := cells;
    faceMap' := faceMap;
    if m.triangulation.None? {
      assert cells'[..|cells|] == cells;
      return;
    }
    var tris := m.triangulation.value.triangles;
    var start := |cells|;
    var i := 0;
    while i < |tris|
      invariant 0 <= i <= |tris|
      invariant |cells'| == start + i && cells'[..start] == cells
      invariant forall c :: c in faceMap' <==> c in faceMap || start <= c < start + i
      invariant forall c :: c in faceMap && !(start <= c < start + i) ==> faceMap'[c] == faceMap[c]
      invariant forall c :: start <= c < start + i ==>
                  cells'[c] == ToGlobal(tris[c - start], offset) && faceMap'[c] == m.face
    {
      ghost var cells0 := cells';
      cells' := cells' + [ToGlobal(tris[i], offset)];
      faceMap' := faceMap'[start + i := m.face];
      assert forall c :: 0 <= c < |cells0| ==> cells'[c] == cells0[c];
      assert cells'[..start] == cells0[..start];
      i := i + 1;
    }
  }

  /**
   * The face loop shared by the three display paths: faces are emitted in
   * enumeration order starting from an empty mesh and an empty (cleared) map.
   * The map's keys are exactly the cell ids 0 .. T-1, T the triangle total;
   * triangle i of face k is cell CellsBefore(k) + i, with point ids shifted by
   * the node total of the faces before k, and maps back to face k.
   */
  method BuildMesh(faces: seq<MeshedFace>) returns (mesh: PolyData, faceMap: map<int, Face>)
    ensures mesh.numPoints == NodesBefore(faces, |faces|)
    ensures |mesh.cells| == CellsBefore(faces, |faces|)
    ensures KeysAre(faceMap, 0, |mesh.cells|)
    ensures forall k, i :: 0 <= k < |faces| && 0 <= i < TriangleCount(faces[k]) ==>
              Emitted(faces, k, i, mesh.cells, faceMap)
  {
    var points := 0;
    var cells: seq<Cell> := [];
    faceMap := map[];
    var f := 0;
    while f < |faces|
      invariant 0 <= f <= |faces|
      invariant points == NodesBefore(faces, f)
      invariant |cells| == CellsBefore(faces, f)
      invariant KeysAre(faceMap, 0, |cells|)
      invariant forall k, i :: 0 <= k < f && 0 <= i < TriangleCount(faces[k]) ==>
                  Emitted(faces, k, i, cells, faceMap)
    {
      ghost var cells0 := cells;
      ghost var map0 := faceMap;
      cells, faceMap := EmitFace(faces[f], points, cells, faceMap);
      forall k, i | 0 <= k < f + 1 && 0 <= i < TriangleCount(faces[k])
        ensures Emitted(faces, k, i, cells, faceMap)
      {
        if k < f {
          CellsBeforeMonotone(faces, k, f);
          assert Emitted(faces, k, i, cells0, map0);
          var c := CellsBefore(faces, k) + i;
          assert cells[c] == cells[..|cells0|][c] == cells0[c];
        }
      }
      points := points + NodeCount(faces[f]);
      f := f + 1;
    }
    mesh := PolyData(points, cells);
  }

  /** Outcome of a display request. */
  datatype DisplayOutcome =
    | InvalidShape          // null shape: warned, nothing else done
    | MeshFailed            // the mesher reported it was not done
    | NoTriangles           // zero triangles in total: warned, nothing displayed
    | Displayed(mesh: PolyData)

  /**
   * Display of the imported or extracted shape, which rebuilds the pick map.
   * A null shape, or a mesher that did not finish, leaves the previous map as it
   * was; otherwise the previous map is discarded and the new one covers exactly
   * the emitted cells.
   */
  method DisplayShape(faceMap: map<int, Face>, shape: Option<seq<MeshedFace>>, meshDone: bool)
    returns (outcome: DisplayOutcome, faceMap': map<int, Face>)
    ensures shape.None? ==> outcome == InvalidShape && faceMap' == faceMap
    ensures shape.Some? && !meshDone ==> outcome == MeshFailed && faceMap' == faceMap
    ensures shape.Some? && meshDone ==>
              && outcome.Displayed?
              && |outcome.mesh.cells| == CellsBefore(shape.value, |shape.value|)
              && KeysAre(faceMap', 0, |outcome.mesh.cells|)
              && forall k, i :: 0 <= k < |shape.value| && 0 <= i < TriangleCount(shape.value[k]) ==>
                   Emitted(shape.value, k, i, outcome.mesh.cells, faceMap')
  {
    if shape.None? {
      return InvalidShape, faceMap;
    }
    if !meshDone {
      return MeshFailed, faceMap;
    }
    var mesh;
    mesh, faceMap' := BuildMesh(shape.value);
    outcome := Displayed(mesh);
  }

  /**
   * Display of the meshed copy. A null shape leaves the previous map; otherwise
   * the map is cleared first, so with zero triangles in total the map ends empty
   * and nothing is displayed.
   */
  method DisplayMeshedShape(faceMap: map<int, Face>, shape: Option<seq<MeshedFace>>)
    returns (outcome: DisplayOutcome, faceMap': map<int, Face>)
    ensures shape.None? ==> outcome == InvalidShape && faceMap' == faceMap
    ensures shape.Some? && CellsBefore(shape.value, |shape.value|) == 0 ==>
              outcome == NoTriangles && faceMap' == map[]
    ensures shape.Some? && CellsBefore(shape.value, |shape.value|) > 0 ==>
              && outcome.Displayed?
              && |outcome.mesh.cells| == CellsBefore(shape.value, |shape.value|)
              && KeysAre(faceMap', 0, |outcome.mesh.cells|)
              && forall k, i :: 0 <= k < |shape.value| && 0 <= i < TriangleCount(shape.value[k]) ==>
                   Emitted(shape.value, k, i, outcome.mesh.cells, faceMap')
  {
    if shape.None? {
      return InvalidShape, faceMap;
    }
    var mesh;
    mesh, faceMap' := BuildMesh(shape.value);
    if |mesh.cells| == 0 {
      assert forall c :: c !in faceMap';
      return NoTriangles, faceMap';
    }
    outcome := Displayed(mesh);
  }

  /**
   * The mesh-only conversion used for the parametric model's parts: the same
   * offsets, no pick map; a mesher that did not finish is an error.
   */
  method ConvertToPolyData(faces: seq<MeshedFace>, meshDone: bool) returns (r: Option<PolyData>)
    ensures r.None? <==> !meshDone
    ensures r.Some? ==> r.value.numPoints == NodesBefore(faces, |faces|)
    ensures r.Some? ==> |r.value.cells| == CellsBefore(faces, |faces|)
    ensures r.Some? ==> forall k, i :: 0 <= k < |faces| && 0 <= i < TriangleCount(faces[k]) ==>
              CellAt(faces, k, i, r.value.cells)
  {
    if !meshDone {
      return None;
    }
    var mesh, faceMap := BuildMesh(faces);
    forall k, i | 0 <= k < |faces| && 0 <= i < TriangleCount(faces[k])
      ensures CellAt(faces, k, i, mesh.cells)
    {
      assert Emitted(faces, k, i, mesh.cells, faceMap);
    }
    return Some(mesh);
  }

  /** The face a picked cell maps to; -1 means the picker hit nothing. */
  function PickedFace(faceMap: map<int, Face>, cellId: int): (r: Option<Face>)
    ensures r.Some? <==> cellId != -1 && cellId in faceMap
    ensures r.Some? ==> r.value == faceMap[cellId]
  {
    if cellId != -1 && cellId in faceMap then Some(faceMap[cellId]) else None
  }

  /**
   * Picking any cell of a displayed mesh returns the face that cell was emitted
   * for, and picking outside 0 .. T-1 returns nothing.
   */
  lemma PickRoundTrip(faces: seq<MeshedFace>, cells: seq<Cell>, faceMap: map<int, Face>, cellId: int)
    requires |cells| == CellsBefore(faces, |faces|) && KeysAre(faceMap, 0, |cells|)
    requires forall k, i :: 0 <= k < |faces| && 0 <= i < TriangleCount(faces[k]) ==>
               Emitted(faces, k, i, cells, faceMap)
    ensures PickedFace(faceMap, cellId).Some? <==> 0 <= cellId < |cells|
    ensures 0 <= cellId < |cells| ==>
              exists k :: 0 <= k < |faces|
                && CellsBefore(faces, k) <= cellId < CellsBefore(faces, k) + TriangleCount(faces[k])
                && PickedFace(faceMap, cellId) == Some(faces[k].face)
  {
    if 0 <= cellId < |cells| {
      CellOwner(faces, cellId);
      var k :| 0 <= k < |faces| && CellsBefore(faces, k) <= cellId < CellsBefore(faces, k) + TriangleCount(faces[k]);
      var i := cellId - CellsBefore(faces, k);
      assert PickedFace(faceMap, cellId) == Some(faces[k].face) by {
        assert Emitted(faces, k, i, cells, faceMap);
      }
    } else {
      assert cellId !in faceMap;
    }
  }
}
