# Knot tube mesh topology

A Dafny model of the integer side of the knot visualiser's tube
tessellation (`KnotGeometry.cs`). A closed knot curve is sampled at
`Resolution + 1` rings. Ring `Resolution` samples the same curve point as
ring 0. Each ring carries `TubularSegments + 1` points, and the last column
duplicates column 0 to close the cross-section. The generator emits two
buffers:

- the **vertex list**, built ring by ring, so that list position
  `i * (TubularSegments + 1) + j` holds the point of ring `i`, column `j`;
- the **index list**, two triangles `(a, b, c)` and `(c, b, d)` per grid
  cell `(i, j)`, where `a = i * (r + 1) + j`, `b = a + r + 1`, `c = a + 1`
  and `d = b + 1`.

Everything lives in module `KnotGeometry` (`knot_geometry.dfy`):

- `GenerateTubeIndices` and `GenerateTubeVertices` are methods with the
  source's nested loops. They append to a local sequence where the source
  calls `List.Add`.
- Each method is proved equal to a closed-form reference that gives the
  list by position: `TubeIndices` and `TubeVertices`.
- Lemmas about those references state the mesh properties: size, bounds,
  cell layout, quad splitting, no wrap across rings, consistent winding,
  and that the index list and vertex list fit together.

The 3D work is abstracted. `GenerateTubeVertices` receives two functions:

- `sample(i)` stands for what the source computes once per ring: the curve
  point and the frame at `t = 2 pi i / Resolution`.
- `place(s, j)` stands for the point at angle `2 pi j / TubularSegments`
  around that ring's centre.

Integers are unbounded. Both methods take `int` arguments like the source
and have no preconditions, because the source validates nothing:

- `steps <= 0` or `radialSegments <= 0` gives an empty index list.
- A negative `Resolution` or `TubularSegments` gives an empty vertex list.
- `Resolution = 0` still produces one ring (with `t = 0/0` inside the
  abstracted `sample`).

There is no error for a zero or negative `Resolution` or
`TubularSegments`, in the code or in the model. In the method, `sample` is called once per
ring, before the column loop, as in the source; the contract cannot distinguish this from one call per
point, because `sample` is a pure function.

## Model

| member | source | states |
|---|---|---|
| `KnotGeometry.GenerateTubeIndices` | KnotGeometry.cs:171-195 | The nested loops produce exactly the reference list `TubeIndices`. It has `6 * steps * radialSegments` entries, or none when either count is not positive. Every entry addresses one of the `VertexCount` points. |
| `KnotGeometry.CellIndices` | KnotGeometry.cs:179-190 | The six indices of cell (i, j) are the grid points (i, j), (i+1, j), (i, j+1), (i, j+1), (i+1, j), (i+1, j+1). So `b` is the same column one ring up, `c` the next column, and `d` both. |
| `KnotGeometry.TubeIndicesCell` | KnotGeometry.cs:175-191 | Cell (i, j) occupies the six positions starting at `6 * (i * r + j)`, which hold a, b, c, c, b, d. Cells follow ring by ring, column by column. |
| `KnotGeometry.CellEntry` | KnotGeometry.cs:184-190 | Each of the six values of a cell inside the grid occurs in the index list, at position `6 * (i * r + j) + m`. |
| `KnotGeometry.TubeIndicesBounded` | KnotGeometry.cs:175-182 | Every index, for any `steps` and `r`, lies in `[0, (steps + 1) * (r + 1))`. |
| `KnotGeometry.CellBounded` | KnotGeometry.cs:179-182 | All four corners of a cell with `i < steps` and `j < r` lie in `[0, (steps + 1) * (r + 1))`. |
| `KnotGeometry.TubeIndicesLastIsLastVertex` | KnotGeometry.cs:175-190 | The bound is tight. The last index, `d` of cell (steps-1, r-1), is `(steps + 1) * (r + 1) - 1`. |
| `KnotGeometry.EveryVertexReferenced` | KnotGeometry.cs:175-190 | With `steps, r >= 1`, every point position below `(steps + 1) * (r + 1)` occurs in the index list, so no vertex goes unused. |
| `KnotGeometry.CellStaysInRings` | KnotGeometry.cs:177-182 | For `j < r`, corners a and c lie on ring i and b and d on ring i + 1. Corners a and b are in column j, and c and d in column j + 1, so `a % (r + 1) < r` and no triangle wraps past a ring's end. |
| `KnotGeometry.QuadSplit` | KnotGeometry.cs:184-190 | Each triangle has three distinct corners. The two triangles share exactly {b, c}, their union is the four distinct corners {a, b, c, d}, and they run the shared diagonal in opposite directions with no directed edge in common. |
| `KnotGeometry.NeighbourCellsAgreeOnWinding` | KnotGeometry.cs:175-190 | Neighbouring cells traverse their shared edge in opposite directions. Along a ring that is edge c-d, and across rings edge b-d. So the fixed winding is consistent over the whole tube. |
| `KnotGeometry.VertexCount` | KnotGeometry.cs:150-157 | The vertex loops emit at least one point exactly when both `Resolution` and `TubularSegments` are non-negative. |
| `KnotGeometry.GenerateTubeVertices` | KnotGeometry.cs:144-169 | The nested loops produce exactly the reference list `TubeVertices`: `VertexCount` points, position k holding `place(sample(k / (r + 1)), k % (r + 1))`. |
| `KnotGeometry.VertexLayout` | KnotGeometry.cs:150-165 | Ring-major order: for `0 <= i <= steps` and `0 <= j <= r`, position `i * (r + 1) + j` exists and holds the point of ring i, column j. |
| `KnotGeometry.IndicesAddressVertices` | KnotGeometry.cs:150-182 | Every index built from `(steps, r)` is a valid position in the vertex list built from the same `(Resolution, TubularSegments)`. |
| `KnotGeometry.CellJoinsNeighbouringRings` | KnotGeometry.cs:150-182 | The corners a, b, c, d of cell (i, j) address the points of ring i column j, ring i+1 column j, ring i column j+1, and ring i+1 column j+1. |

## Left out

- Curve formulas (`GetTrefoilPosition`, `GetFigureEightPosition`, `GetCinquefoilPosition`, `GetTorusKnotPosition`, `GetLissajousPosition`, `GetCelticPosition`): floating-point trigonometry with `float` casts. They are inside the abstract `sample` function.
- `GetKnotPosition` dispatch: its only non-float content is the `Vector3.Zero` fallback for an unknown tag, which a closed enumeration cannot reach.
- The legacy `GetKnotPosition(KnotType, ...)` overload: dead code that always returns zero.
- `GetTangent` and `GetFrenetFrame`: finite differences, normalisation (square roots), cross products and the 0.9 threshold. They are inside `sample`.
- The per-point offset `TubeRadius * cos(angle) * normal + TubeRadius * sin(angle) * binormal` and the angle `2 pi j / TubularSegments`: floating point. They are inside `place`.
- `KnotParameters` defaults and its non-integer fields: plain data. Only `Resolution` and `TubularSegments` are modelled.
- `GenerateTubeIndices`: does not model C#'s 32-bit `int` limits. The source never returns a list longer than about 2^31 entries: it throws once `6 * steps * radialSegments` would exceed that (for example `steps = radialSegments = 20000`). Corners can wrap around before that happens: with `radialSegments = int.MaxValue - 1`, `d` of the first cell wraps to `int.MinValue` and is appended, but the call throws before it returns. The model has unbounded integers and sequences and returns the mathematical list instead.
- `GenerateTubeVertices`: does not model C#'s 32-bit `int` limits. The source throws once the vertex list would exceed about 2^31 entries, so its counters never wrap while points are appended. The only input that never returns is `Resolution == int.MaxValue` with `TubularSegments < 0`: no point is appended and `i++` wraps to `int.MinValue`, which still satisfies `i <= steps`. The model's loops always end and return the mathematical list.
- `GenerateTubeVertices`: the `List<Vector3>` is modelled as an immutable sequence that the loop reassigns. Points are of an abstract type.
- `wwwroot/babylon-scene.js` is not part of this model. It covers scene, camera, lighting, canvas, render loop and texture work for an external renderer.
