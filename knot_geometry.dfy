/**
 * Topology of the tube mesh that the knot visualiser sweeps along a closed
 * curve: the integer side of the C# `KnotGeometry` class, whose
 * `GenerateTubeVertices` and `GenerateTubeIndices` build the vertex and
 * triangle index lists (KnotGeometry.cs). "The source" below means that class.
 *
 * The curve is sampled at `steps + 1` rings (ring `steps` re-samples the start
 * of the closed curve) and every ring carries `radialSegments + 1` points
 * (column `radialSegments` duplicates column 0 to close the cross-section).
 * The vertex list stores those points ring by ring; the index list joins
 * consecutive rings with two triangles per grid cell.
 *
 * The floating-point side (curve formulas, Frenet-like frames, the circular
 * offset of each point) is abstracted: the vertex generator receives it as two
 * functions, `sample` (what is computed once per ring) and `place` (what is
 * computed per column of a ring).
 */
module KnotGeometry {

  /** The two integer knobs of a knot's parameters that shape the mesh. */
  datatype KnotParameters = KnotParameters(resolution: int, tubularSegments: int)

  // ---------------------------------------------------------------------------
  // Grid layout shared by both buffers
  // ---------------------------------------------------------------------------

  /** Points per ring: one per radial segment plus the duplicated seam column. */
  function Stride(radialSegments: int): int {
    radialSegments + 1
  }

  /** List position of the point of ring `i`, column `j` in ring-major order. */
  function VertexIndex(i: int, j: int, radialSegments: int): int {
    i * Stride(radialSegments) + j
  }

  /**
   * Number of points the vertex loops emit: `steps + 1` rings of
   * `radialSegments + 1` columns, and none when either loop never runs.
   */
  function VertexCount(steps: int, radialSegments: int): (n: nat)
    ensures n > 0 <==> steps >= 0 && radialSegments >= 0
  {
    if steps < 0 || radialSegments < 0 then 0 else (steps + 1) * (radialSegments + 1)
  }

  /** Splitting a ring-major position recovers its row and column. */
  lemma {:induction false} RowMajorSplit(i: int, j: int, n: int)
    requires 0 <= j < n
    ensures (i * n + j) / n == i && (i * n + j) % n == j
  {
    var x := i * n + j;
    var q, m := x / n, x % n;
    assert n * (q - i) == j - m;
    if q > i {
      MulMonotone(n, 1, q - i);
    } else if q < i {
      MulMonotone(n, 1, i - q);
    }
  }

  /** `n * a <= n * b` for a non-negative factor `n` and `a <= b`. */
  lemma MulMonotone(n: int, a: int, b: int)
    requires 0 <= n && a <= b
    ensures n * a <= n * b
  {
    assert n * b - n * a == n * (b - a);
  }

  /** A position below `s * n` lies in one of the first `s` rows. */
  lemma RowBelow(x: int, s: int, n: int)
    requires 0 <= x < s * n && 0 < n
    ensures 0 <= x / n < s
  {
    var q := x / n;
    assert x == n * q + x % n;
    if q >= s {
      MulMonotone(n, s, q);
    }
    if q < 0 {
      MulMonotone(n, q, -1);
    }
  }

  // ---------------------------------------------------------------------------
  // Index buffer
  // ---------------------------------------------------------------------------

  /**
   * The six indices emitted for cell (i, j): triangles (a, b, c) and (c, b, d)
   * where a, c are columns j, j + 1 of ring i and b, d the same columns of
   * ring i + 1.
   */
  function CellIndices(i: int, j: int, radialSegments: int): (cell: seq<int>)
    ensures |cell| == 6
    ensures cell[0] == VertexIndex(i, j, radialSegments)
    ensures cell[1] == cell[4] == VertexIndex(i + 1, j, radialSegments)
    ensures cell[2] == cell[3] == VertexIndex(i, j + 1, radialSegments)
    ensures cell[5] == VertexIndex(i + 1, j + 1, radialSegments)
  {
    var a := i * (radialSegments + 1) + j;
    var b := a + radialSegments + 1;
    var c := a + 1;
    var d := b + 1;
    [a, b, c, c, b, d]
  }

  /**
   * Reference for the index buffer, by list position: position `k` is entry
   * `k % 6` of cell number `k / 6`, cells numbered ring by ring.
   */
  function IndexAt(k: int, radialSegments: int): int
    requires 0 <= k && 1 <= radialSegments
  {
    var cell := k / 6;
    CellIndices(cell / radialSegments, cell % radialSegments, radialSegments)[k % 6]
  }

  /**
   * The whole index buffer for `steps` rings of cells and `radialSegments`
   * cells per ring; empty when either count is not positive.
   */
  function TubeIndices(steps: int, radialSegments: int): seq<int> {
    if steps <= 0 || radialSegments <= 0 then []
    else seq(6 * steps * radialSegments, k requires 0 <= k => IndexAt(k, radialSegments))
  }

  /** Cell (i, j) sits at positions 6 * (i * r + j) up to 6 * (i * r + j) + 5. */
  lemma CellLayout(i: int, j: int, m: int, r: int)
    requires 0 <= i && 0 <= j < r && 0 <= m < 6
    ensures IndexAt(6 * (i * r + j) + m, r) == CellIndices(i, j, r)[m]
  {
    RowMajorSplit(i * r + j, m, 6);
    RowMajorSplit(i, j, r);
  }

  /**
   * Builds the triangle index list with the source's two nested loops: for
   * every ring i below `steps` and column j below `radialSegments` it appends
   * a, b, c, c, b, d.
   */
  method GenerateTubeIndices(steps: int, radialSegments: int) returns (indices: seq<int>)
    ensures indices == TubeIndices(steps, radialSegments)
    ensures |indices| == if steps <= 0 || radialSegments <= 0 then 0 else 6 * steps * radialSegments
    ensures forall k :: 0 <= k < |indices| ==> 0 <= indices[k] < VertexCount(steps, radialSegments)
  {
    ghost var s := if steps > 0 then steps else 0;
    ghost var r := if radialSegments > 0 then radialSegments else 0;
    indices := [];
    var i := 0;
    while i < steps
      invariant 0 <= i <= s
      invariant |indices| == 6 * i * r
      invariant forall k :: 0 <= k < |indices| ==> r > 0 && indices[k] == IndexAt(k, radialSegments)
    {
      var j := 0;
      while j < radialSegments
        invariant 0 <= j <= r
        invariant |indices| == 6 * (i * r + j)
        invariant forall k :: 0 <= k < |indices| ==> r > 0 && indices[k] == IndexAt(k, radialSegments)
      {
        ghost var p := |indices|;
        var a := i * (radialSegments + 1) + j;
        var b := a + radialSegments + 1;
        var c := a + 1;
        var d := b + 1;

        indices := indices + [a];
        indices := indices + [b];
        indices := indices + [c];

        indices := indices + [c];
        indices := indices + [b];
        indices := indices + [d];

        forall k | p <= k < p + 6
          ensures indices[k] == IndexAt(k, radialSegments)
        {
          CellLayout(i, j, k - p, radialSegments);
        }
        j := j + 1;
      }
      NextRing(i, r);
      i := i + 1;
    }
    AllCellsBuilt(steps, radialSegments, indices);
    TubeIndicesBounded(steps, radialSegments);
  }

  /** Finishing a ring of `r` cells leaves the list at the start of the next ring. */
  lemma NextRing(i: int, r: int)
    ensures 6 * (i * r + r) == 6 * (i + 1) * r
  {
  }

  /** A list that agrees with the reference at every position up to `6 * steps * r` is the reference. */
  lemma AllCellsBuilt(steps: int, radialSegments: int, indices: seq<int>)
    requires var s, r := (if steps > 0 then steps else 0), (if radialSegments > 0 then radialSegments else 0);
      |indices| == 6 * s * r
    requires forall k :: 0 <= k < |indices| ==> radialSegments > 0 && indices[k] == IndexAt(k, radialSegments)
    ensures indices == TubeIndices(steps, radialSegments)
  {
  }

  /** Cell (i, j) occupies six consecutive positions holding a, b, c, c, b, d. */
  lemma TubeIndicesCell(steps: int, r: int, i: int, j: int)
    requires 0 <= i < steps && 0 <= j < r
    ensures 6 * (i * r + j) + 6 <= |TubeIndices(steps, r)|
    ensures TubeIndices(steps, r)[6 * (i * r + j)..6 * (i * r + j) + 6] == CellIndices(i, j, r)
  {
    var p := 6 * (i * r + j);
    CellInRange(steps, r, i, j);
    var t := TubeIndices(steps, r);
    forall k | p <= k < p + 6
      ensures t[k] == CellIndices(i, j, r)[k - p]
    {
      CellLayout(i, j, k - p, r);
    }
  }

  /** Entry `m` of cell (i, j) in the whole list. */
  lemma CellEntry(steps: int, r: int, i: int, j: int, m: int)
    requires 0 <= i < steps && 0 <= j < r && 0 <= m < 6
    ensures 6 * (i * r + j) + m < |TubeIndices(steps, r)|
    ensures TubeIndices(steps, r)[6 * (i * r + j) + m] == CellIndices(i, j, r)[m]
    ensures CellIndices(i, j, r)[m] in TubeIndices(steps, r)
  {
    CellInRange(steps, r, i, j);
    CellLayout(i, j, m, r);
    var t, k := TubeIndices(steps, r), 6 * (i * r + j) + m;
    assert t[k] == CellIndices(i, j, r)[m];
  }

  /** Cell number i * r + j is below the cell count when (i, j) is inside the grid. */
  lemma CellInRange(steps: int, r: int, i: int, j: int)
    requires 0 <= i < steps && 0 <= j < r
    ensures 6 * (i * r + j) + 6 <= 6 * steps * r
  {
    MulMonotone(r, i + 1, steps);
  }

  /** Every index addresses one of the (steps + 1) * (r + 1) points. */
  lemma TubeIndicesBounded(steps: int, r: int)
    ensures forall k :: 0 <= k < |TubeIndices(steps, r)| ==> 0 <= TubeIndices(steps, r)[k] < VertexCount(steps, r)
  {
    var t := TubeIndices(steps, r);
    forall k | 0 <= k < |t|
      ensures 0 <= t[k] < VertexCount(steps, r)
    {
      var cell := k / 6;
      RowBelow(k, steps * r, 6);
      RowBelow(cell, steps, r);
      CellBounded(steps, r, cell / r, cell % r);
    }
  }

  /** Every corner of a cell inside the grid is a point of the grid. */
  lemma CellBounded(steps: int, r: int, i: int, j: int)
    requires 0 <= i < steps && 0 <= j < r
    ensures forall m :: 0 <= m < 6 ==> 0 <= CellIndices(i, j, r)[m] < VertexCount(steps, r)
  {
    var cell := CellIndices(i, j, r);
    assert 0 <= cell[0] by {
      MulMonotone(r + 1, 0, i);
    }
    assert cell[5] <= VertexIndex(steps, r, r) by {
      MulMonotone(r + 1, i + 1, steps);
    }
    assert cell[0] <= cell[2] <= cell[1] <= cell[5];
    LastCorner(steps, r);
  }

  /** The bound is tight: the last index is the last point of the last ring. */
  lemma TubeIndicesLastIsLastVertex(steps: int, r: int)
    requires steps >= 1 && r >= 1
    ensures |TubeIndices(steps, r)| > 0
    ensures TubeIndices(steps, r)[|TubeIndices(steps, r)| - 1] == VertexCount(steps, r) - 1
  {
    var last := 6 * ((steps - 1) * r + r - 1) + 5;
    assert last == 6 * steps * r - 1 by { LastPosition(steps, r); }
    CellLayout(steps - 1, r - 1, 5, r);
    assert CellIndices(steps - 1, r - 1, r)[5] == VertexCount(steps, r) - 1 by { LastCorner(steps, r); }
  }

  /** The sixth entry of the last cell is the last list position. */
  lemma LastPosition(steps: int, r: int)
    ensures 6 * ((steps - 1) * r + r - 1) + 5 == 6 * steps * r - 1
  {
  }

  /** The top-right corner of the grid is the last point. */
  lemma LastCorner(steps: int, r: int)
    requires steps >= 0 && r >= 0
    ensures VertexIndex(steps, r, r) == VertexCount(steps, r) - 1
  {
  }

  /** No point is left out: every point of the grid is a corner of some triangle. */
  lemma EveryVertexReferenced(steps: int, r: int, v: int)
    requires steps >= 1 && r >= 1 && 0 <= v < VertexCount(steps, r)
    ensures v in TubeIndices(steps, r)
  {
    var i, j, m := CornerOf(steps, r, v);
    CellEntry(steps, r, i, j, m);
  }

  /** Finds a cell of the grid and a corner of it that is the point at position `v`. */
  lemma CornerOf(steps: int, r: int, v: int) returns (i: int, j: int, m: int)
    requires steps >= 1 && r >= 1 && 0 <= v < VertexCount(steps, r)
    ensures 0 <= i < steps && 0 <= j < r && 0 <= m < 6
    ensures CellIndices(i, j, r)[m] == v
  {
    var ring, column := v / (r + 1), v % (r + 1);
    RowBelow(v, steps + 1, r + 1);
    assert v == VertexIndex(ring, column, r);
    i := if ring < steps then ring else steps - 1;
    j := if column < r then column else r - 1;
    m := if ring < steps && column < r then 0
         else if column < r then 1
         else if ring < steps then 2
         else 5;
  }

  /**
   * Corners a, c of a cell lie on ring i and b, d on ring i + 1; a, b are in
   * column j and c, d in column j + 1, so no triangle wraps past the end of
   * a ring.
   */
  lemma CellStaysInRings(i: int, j: int, r: int)
    requires 0 <= j < r
    ensures var cell := CellIndices(i, j, r);
      && cell[0] / (r + 1) == cell[2] / (r + 1) == i
      && cell[1] / (r + 1) == cell[5] / (r + 1) == i + 1
      && cell[0] % (r + 1) == cell[1] % (r + 1) == j
      && cell[2] % (r + 1) == cell[5] % (r + 1) == j + 1
      && cell[0] % (r + 1) < r
  {
    RowMajorSplit(i, j, r + 1);
    RowMajorSplit(i, j + 1, r + 1);
    RowMajorSplit(i + 1, j, r + 1);
    RowMajorSplit(i + 1, j + 1, r + 1);
  }

  /** The directed edges of triangle number `t` (0 or 1) of a cell. */
  function TriangleEdges(cell: seq<int>, t: int): set<(int, int)>
    requires |cell| == 6 && 0 <= t < 2
  {
    var x, y, z := cell[3 * t], cell[3 * t + 1], cell[3 * t + 2];
    {(x, y), (y, z), (z, x)}
  }

  /**
   * The two triangles of a cell split one quad: together they cover exactly
   * the four distinct corners, they share only the diagonal c-b, and they run
   * along it in opposite directions (the same winding).
   */
  lemma QuadSplit(i: int, j: int, r: int)
    requires 1 <= r
    ensures var cell := CellIndices(i, j, r);
      var a, b, c, d := cell[0], cell[1], cell[2], cell[5];
      var first, second := {cell[0], cell[1], cell[2]}, {cell[3], cell[4], cell[5]};
      && |first| == 3 && |second| == 3
      && first * second == {b, c}
      && first + second == {a, b, c, d}
      && |first + second| == 4
      && (b, c) in TriangleEdges(cell, 0) && (c, b) in TriangleEdges(cell, 1)
      && TriangleEdges(cell, 0) * TriangleEdges(cell, 1) == {}
  {
  }

  /**
   * Neighbouring cells share an edge and traverse it in opposite directions,
   * so the winding is consistent across the whole tube: along a ring, cell
   * (i, j) and (i, j + 1) share the edge c-d; across rings, cell (i, j) and
   * (i + 1, j) share the edge b-d.
   */
  lemma NeighbourCellsAgreeOnWinding(i: int, j: int, r: int)
    requires 1 <= r
    ensures var cell, next := CellIndices(i, j, r), CellIndices(i, j + 1, r);
      (cell[5], cell[2]) in TriangleEdges(cell, 1) && (cell[2], cell[5]) in TriangleEdges(next, 0)
    ensures var cell, above := CellIndices(i, j, r), CellIndices(i + 1, j, r);
      (cell[4], cell[5]) in TriangleEdges(cell, 1) && (cell[5], cell[4]) in TriangleEdges(above, 0)
  {
  }

  // ---------------------------------------------------------------------------
  // Vertex buffer
  // ---------------------------------------------------------------------------

  /**
   * Reference for the vertex buffer, by list position: position `k` holds the
   * point placed at column `k % (r + 1)` of ring `k / (r + 1)`.
   */
  function TubeVertices<R, V>(steps: int, r: int, sample: int -> R, place: (R, int) -> V): seq<V> {
    seq(VertexCount(steps, r), k requires 0 <= k < VertexCount(steps, r) => place(sample(k / Stride(r)), k % Stride(r)))
  }

  /**
   * Builds the vertex list with the source's two nested loops: rings
   * i = 0..resolution, and within each ring columns j = 0..tubularSegments.
   * `sample(i)` stands for what the source computes once per ring (the curve
   * point and frame at t = 2 pi i / resolution), `place(s, j)` for the point
   * at angle 2 pi j / tubularSegments around that ring's centre.
   */
  method GenerateTubeVertices<R, V>(parameters: KnotParameters, sample: int -> R, place: (R, int) -> V)
    returns (vertices: seq<V>)
    ensures vertices == TubeVertices(parameters.resolution, parameters.tubularSegments, sample, place)
    ensures |vertices| == VertexCount(parameters.resolution, parameters.tubularSegments)
  {
    var steps := parameters.resolution;
    var radialSegments := parameters.tubularSegments;
    ghost var columns := if radialSegments >= 0 then radialSegments + 1 else 0;
    vertices := [];
    var i := 0;
    while i <= steps
      invariant 0 <= i && (i <= steps + 1 || i == 0)
      invariant |vertices| == i * columns
      invariant forall k :: 0 <= k < |vertices| ==>
        columns > 0 && vertices[k] == place(sample(k / Stride(radialSegments)), k % Stride(radialSegments))
      decreases steps + 1 - i
    {
      var ring := sample(i);
      var j := 0;
      while j <= radialSegments
        invariant 0 <= j <= columns
        invariant |vertices| == i * columns + j
        invariant forall k :: 0 <= k < |vertices| ==>
          columns > 0 && vertices[k] == place(sample(k / Stride(radialSegments)), k % Stride(radialSegments))
        decreases radialSegments + 1 - j
      {
        RowMajorSplit(i, j, radialSegments + 1);
        vertices := vertices + [place(ring, j)];
        j := j + 1;
      }
      assert i * columns + columns == (i + 1) * columns;
      i := i + 1;
    }
  }

  /** Position i * (r + 1) + j holds the point of ring i, column j. */
  lemma VertexLayout<R, V>(steps: int, r: int, sample: int -> R, place: (R, int) -> V, i: int, j: int)
    requires 0 <= i <= steps && 0 <= j <= r
    ensures 0 <= VertexIndex(i, j, r) < |TubeVertices(steps, r, sample, place)|
    ensures TubeVertices(steps, r, sample, place)[VertexIndex(i, j, r)] == place(sample(i), j)
  {
    RowMajorSplit(i, j, r + 1);
    MulMonotone(r + 1, i + 1, steps + 1);
  }

  // ---------------------------------------------------------------------------
  // The two buffers together
  // ---------------------------------------------------------------------------

  /** Every index built from (steps, r) addresses a point of the vertex list built from the same pair. */
  lemma IndicesAddressVertices<R, V>(steps: int, r: int, sample: int -> R, place: (R, int) -> V)
    ensures forall k :: 0 <= k < |TubeIndices(steps, r)| ==>
      0 <= TubeIndices(steps, r)[k] < |TubeVertices(steps, r, sample, place)|
  {
    TubeIndicesBounded(steps, r);
  }

  /**
   * Cell (i, j) joins the points of columns j and j + 1 on rings i and i + 1:
   * its corners a, b, c, d address exactly those four points.
   */
  lemma CellJoinsNeighbouringRings<R, V>(steps: int, r: int, sample: int -> R, place: (R, int) -> V, i: int, j: int)
    requires 0 <= i < steps && 0 <= j < r
    ensures var cell, vs := CellIndices(i, j, r), TubeVertices(steps, r, sample, place);
      && 0 <= cell[0] < |vs| && 0 <= cell[1] < |vs| && 0 <= cell[2] < |vs| && 0 <= cell[5] < |vs|
      && vs[cell[0]] == place(sample(i), j)
      && vs[cell[1]] == place(sample(i + 1), j)
      && vs[cell[2]] == place(sample(i), j + 1)
      && vs[cell[5]] == place(sample(i + 1), j + 1)
  {
    VertexLayout(steps, r, sample, place, i, j);
    VertexLayout(steps, r, sample, place, i + 1, j);
    VertexLayout(steps, r, sample, place, i, j + 1);
    VertexLayout(steps, r, sample, place, i + 1, j + 1);
  }
}
