# Voxel meshing core of `cube`, modelled in Dafny

`cube` is a small Go voxel engine. This project models the three parts of it that turn cubes into
geometry, and proves what each of them computes.

- **The greedy mesher** (`renderer/greedy.go`). It rasterises a list of cubes into a 15³ solidity
  lattice plus a position → colour map. It then sweeps a plane along each axis. For each plane it
  builds a 15×15 boolean mask, which is true where solidity changes across the plane. The mask sits
  in a buffer of 16² = 256 entries, whose last 31 entries are never written. It merges the
  mask greedily into rectangles (width first, then height) and emits one quad per rectangle: four
  vertices of six floats, plus six indices whose winding depends on the axis and the side.
  - The sweep is imperative: a class with its two buffers, and an `array<bool>` for the `visited`
    mask, which is written in place.
  - Each method is proved against pure specification functions:
    - `PlaneMask`, the mask of a plane;
    - `Scan`, the greedy merge;
    - `MeshFaces`, the faces a cube list yields;
    - `Vertices`/`Indices`, the buffers a face list is written into.
  - The lemmas are about those functions:
    - the merge partitions the mask exactly;
    - an empty list gives no geometry;
    - a lone cube gives six unit quads: 24 vertices and 36 indices.
- **The chunk** (`pkg/primitive/chunk.go`). A 16³ array of cubes, written in place by `SetBlock`.
  It has bounds-checked reads and the face-exposure query.
- **The naive mesher** (`renderer/mesher.go`). It emits 36 vertices per cube, copied from a fixed
  corner table, with no merging and no culling.

Modules:
- `Primitive` holds the shared records.
- `GreedyLattice`, `GreedyMerge` and `GreedyFaces` hold the pure side of the greedy mesher.
- `GreedyMeshing` is the greedy mesher's class.
- `GreedyProperties` holds the whole-mesh lemmas.
- `Chunks` and `CubeMeshing` model the chunk and the naive mesher.

Two behaviours of the code are kept as written:

- **Quad colour.** The colour of a quad is read at the rectangle's corner after `x[d]++`
  (renderer/greedy.go:108, 122), that is, at the voxel past the plane.
  - For a negative face that voxel is empty, and an empty cell never has a recorded colour. So
    every negative face gets the default colour (1, 0, 0).
  - `GreedyProperties.NegativeFacesDefault` proves this for every cube list, and
    `GreedyProperties.LoneCube` shows it on a lone cube: its three negative faces carry
    `DefaultColor`, not the cube's colour.
- **Merging ignores colour.** The mask is built from solidity alone (renderer/greedy.go:103). So
  adjacent faces of different colours, and faces whose solid voxel lies on different sides of
  the plane, are merged into one quad. The merged quad takes the colour and the side read at its
  corner. `GreedyFaces.PlaneMask` states the mask in those terms.

## Model

| member | source | states |
|---|---|---|
| Primitive.Trunc | renderer/greedy.go:70 | `int(cube.X)` truncates toward zero: the result is the integer part, on either side of 0 |
| GreedyLattice.Cell | renderer/greedy.go:98-99 | the point whose coordinate along the sweep axis `d` is `t` and along `u`, `v` is `a`, `b` |
| GreedyLattice.Along | renderer/greedy.go:91-92 | `q`, `du`, `dv`: `len` along one axis and 0 along the others |
| GreedyLattice.CellAddAlong | renderer/greedy.go:101 | adding `q` to a point of plane `t` gives the same in-plane point in plane `t + 1` |
| GreedyLattice.EmptyLattice | renderer/greedy.go:60-66 | the freshly made lattice is 15³ and has no solid cell |
| GreedyLattice.MarkSolid | renderer/greedy.go:72 | setting one cell solid makes exactly that point occupied in addition to the old ones |
| GreedyLattice.IsNotEmptyBlock | renderer/greedy.go:143-145 | true iff the point lies in the volume and its cell is solid: points at `-1` or `15` along `d` read as empty |
| GreedyLattice.GetColor | renderer/greedy.go:170-179 | the recorded colour of an in-volume point that has one, otherwise the default (1, 0, 0) |
| GreedyLattice.SolidOfCell | renderer/greedy.go:58-77 | a cell is solid iff some cube truncates to it and it lies in [0, 15)³; every other cube is dropped |
| GreedyLattice.ColorsOfKeys | renderer/greedy.go:68-75 | the colour map has exactly the in-volume cells of the cubes as keys |
| GreedyLattice.Voxel | renderer/greedy.go:70 | the cell a cube is rasterised into: its three coordinates truncated toward zero, as `Trunc` states |
| GreedyLattice.SolidOf | renderer/greedy.go:58-77 | the lattice built cube by cube; it is always 15³, and `SolidOfCell` characterises its solid cells |
| GreedyLattice.ColorsOf | renderer/greedy.go:68-75 | the colour map built cube by cube, a later cube overwriting an earlier one; `ColorsOfKeys` and `ColorsOfLast` give its keys and values |
| GreedyLattice.ColorsOfLast | renderer/greedy.go:69-75 | the recorded colour of a cell is that of the last cube that truncates to it |
| GreedyMerge.IdxInverse | renderer/greedy.go:98-104 | the counter `n` of cell `(a, b)` is `15 b + a`, below 225, and determines `a` and `b` |
| GreedyMerge.WidthFrom | renderer/greedy.go:148-151 | the width loop continued from width `w`: the result lies between `w` and `Size - i` |
| GreedyMerge.WidthFromFacts | renderer/greedy.go:148-151 | the cells the width loop passes over are true, and it stops at a false cell or the edge of the plane |
| GreedyMerge.HeightFrom | renderer/greedy.go:153-166 | the height loop continued from height `h`: the result lies between `h` and `Size - j` |
| GreedyMerge.HeightFromFacts | renderer/greedy.go:153-166 | the rows the height loop passes over are all true over the width, and it stops at a row that is not, or at the edge |
| GreedyMerge.Width | renderer/greedy.go:148-151 | the width grown at `(i, j)` is between 1 and `Size - i` |
| GreedyMerge.Height | renderer/greedy.go:153-166 | the height grown at `(i, j)` is between 1 and `Size - j` |
| GreedyMerge.Grow | renderer/greedy.go:147-168 | the rectangle `findWidthAndHeight` describes starts at `(i, j)` and lies in the plane |
| GreedyMerge.GrowFacts | renderer/greedy.go:147-168 | at a true cell every cell of that rectangle is true; the width stops at a false cell or the edge, and the height at a row that is not all true or the edge |
| GreedyMerge.ClearRect | renderer/greedy.go:264-270 | `markAsVisited` on a sequence: the rectangle's rows cleared one by one; the buffer keeps its 256 entries |
| GreedyMerge.ClearRectAt | renderer/greedy.go:264-270 | after clearing, a cell of the plane is true iff it was true and the rectangle does not cover it; the unused tail is untouched |
| GreedyMerge.ClearRectCell | renderer/greedy.go:264-270 | `markAsVisited` makes a cell false iff the rectangle covers it, and leaves every other cell as it was |
| GreedyMerge.ClearCount | renderer/greedy.go:264-270 | clearing an all-true rectangle removes exactly `w * h` true cells |
| GreedyMerge.Scan | renderer/greedy.go:110-139 | the merge loop from cell `(i, j)` on: the rectangles it emits, in order, and the mask it leaves, always 256 entries; `MergePartition` states what the whole-plane scan computes |
| GreedyMerge.ScanCell | renderer/greedy.go:113-137 | the loop body at cell `(i, j)`: grow at a true cell, otherwise move on by one |
| GreedyMerge.ScanGrow | renderer/greedy.go:113-133 | at a true cell: the grown rectangle, then the scan from `i + w` in the mask with that rectangle cleared |
| GreedyMerge.ScanCons | renderer/greedy.go:113-133 | at a true cell the scan emits the grown rectangle, clears it and resumes at `i + w` |
| GreedyMerge.ScanSkip | renderer/greedy.go:134-137 | at a false cell the scan moves to the next cell and emits nothing |
| GreedyMerge.ScanStep | renderer/greedy.go:113-133 | emitting the grown rectangle keeps "rectangles so far + what the scan still finds" equal to the whole plane's result |
| GreedyMerge.ScanNextRow | renderer/greedy.go:111-112 | the end of a row continues at the start of the next |
| GreedyMerge.MergePartition | renderer/greedy.go:110-140 | the emitted rectangles lie in the mask, are pairwise disjoint and cover every true cell; their total area equals the number of true cells; the mask is all false afterwards |
| GreedyFaces.PlaneMask | renderer/greedy.go:96-106 | mask cell `(a, b)` is true iff solidity differs between the voxels at `t` and `t + 1` along `d`; the unused tail is false |
| GreedyFaces.PlaneMaskFrom | renderer/greedy.go:96-106 | a buffer holding each cell's XOR of the two `isNotEmptyBlock` calls, with a false tail, is that mask |
| GreedyFaces.VertexFloats | renderer/greedy.go:209-212 | one vertex: three coordinates, then the three colour floats |
| GreedyFaces.QuadVertices | renderer/greedy.go:207-214 | `addFaceVertices`: 24 floats, the corners `x`, `x+du`, `x+dv`, `x+du+dv` in that order |
| GreedyFaces.FaceVertices | renderer/greedy.go:181-205 | a face's 24 floats; a negative face passes `dv` before `du` |
| GreedyFaces.WindingA | renderer/greedy.go:216-222 | the index pattern `(2,1,0, 2,3,1)` relative to `idx` |
| GreedyFaces.WindingB | renderer/greedy.go:224-230 | the index pattern `(0,2,1, 1,2,3)` relative to `idx` |
| GreedyFaces.FaceIndices | renderer/greedy.go:181-205 | a face's six indices: pattern A for +X, +Z and -Y, pattern B for +Y, -X and -Z |
| GreedyFaces.FaceTriangles | renderer/greedy.go:216-262 | every winding splits the quad into triangles `{0,1,2}` and `{1,2,3}` relative to `idx` |
| GreedyFaces.FaceIndicesRange | renderer/greedy.go:216-262 | every index of a face lies in `[idx, idx + 3]` |
| GreedyFaces.Vertices | renderer/greedy.go:207-214 | `k` faces write `24 k` floats |
| GreedyFaces.Indices | renderer/greedy.go:216-262 | `k` faces write `6 k` indices |
| GreedyFaces.VerticesSnoc | renderer/greedy.go:207-214 | one more face appends its 24 floats |
| GreedyFaces.IndicesSnoc | renderer/greedy.go:217-221 | one more face appends 6 indices built on `idx = len(vertices)/6 - 4`, its own first vertex |
| GreedyFaces.VerticesAt | renderer/greedy.go:207-214 | face `k` occupies floats `[24 k, 24 k + 24)`: `x`, `x+du`, `x+dv`, `x+du+dv`, each followed by the colour |
| GreedyFaces.IndicesAt | renderer/greedy.go:216-262 | face `k` occupies indices `[6 k, 6 k + 6)`, built on vertex `4 k` |
| GreedyFaces.IndicesRange | renderer/greedy.go:216-262 | every index names one of the vertices written |
| GreedyFaces.PlaneFace | renderer/greedy.go:113-128 | the face of one rectangle, read at its corner in plane `t + 1`: positive iff that voxel is solid, coloured by `getColor` there, extents `w` along `u` and `h` along `v` |
| GreedyFaces.FacesOf | renderer/greedy.go:110-139 | one face per rectangle, in rectangle order |
| GreedyFaces.PlaneFaces | renderer/greedy.go:96-139 | the faces of one plane: those of the greedy merge of its mask |
| GreedyFaces.PlanesUpTo | renderer/greedy.go:96-139 | the faces of planes `-1 .. t - 1` of an axis, plane by plane |
| GreedyFaces.AxisFaces | renderer/greedy.go:87-141 | `generateDirectionMesh`: the faces of planes `-1 .. 14` |
| GreedyFaces.AxesUpTo | renderer/greedy.go:82-84 | the faces of the first `n` axes, in axis order |
| GreedyFaces.MeshFaces | renderer/greedy.go:79-85 | `generateMesh`: every face the greedy mesher emits for a cube list |
| GreedyFaces.FacesOfIndex | renderer/greedy.go:113-130 | the `k`-th face of a plane is built from the `k`-th rectangle at its corner in plane `t + 1`; it is positive iff that voxel is solid and takes the colour read there |
| GreedyMeshing.GreedyMesher.constructor | renderer/greedy.go:24-26 | both buffers start empty |
| GreedyMeshing.GreedyMesher.CreateMesh | renderer/greedy.go:28-33 | the buffers are reset, then hold exactly the faces of `cubes`, whatever they held before |
| GreedyMeshing.GreedyMesher.GetMesh | renderer/greedy.go:50-52 | returns the vertex and index buffers of the emitted faces |
| GreedyMeshing.GreedyMesher.PopulateSolidAndColors | renderer/greedy.go:58-77 | returns the lattice and colour map of the cubes, taken in order |
| GreedyMeshing.GreedyMesher.GenerateMesh | renderer/greedy.go:79-85 | appends the faces of the x, y and z sweeps, in that order |
| GreedyMeshing.GreedyMesher.GenerateDirectionMesh | renderer/greedy.go:87-141 | appends the faces of planes `-1 .. 14` of axis `d`, in order |
| GreedyMeshing.GreedyMesher.SweepPlane | renderer/greedy.go:96-139 | one plane: appends that plane's faces and leaves `visited` all false for the next |
| GreedyMeshing.GreedyMesher.BuildMask | renderer/greedy.go:96-106 | `visited` becomes the plane's mask |
| GreedyMeshing.GreedyMesher.MergePlane | renderer/greedy.go:110-139 | appends one face per rectangle of the greedy merge of `visited`, in scan order, and leaves the merge's residue |
| GreedyMeshing.GreedyMesher.MergeRow | renderer/greedy.go:111-138 | one row of the merge keeps the emitted faces in step with the merge of the whole plane |
| GreedyMeshing.GreedyMesher.MergeStep | renderer/greedy.go:112-137 | one cell of the merge: advances `i` and `n` by `w` or by 1 and keeps the emitted faces in step with the merge |
| GreedyMeshing.GreedyMesher.MergeAt | renderer/greedy.go:113-133 | at a true cell: emits the face of the grown rectangle, clears it from `visited` and returns its width |
| GreedyMeshing.GreedyMesher.FindWidthAndHeight | renderer/greedy.go:147-168 | returns the width and height of the rectangle `Grow` describes |
| GreedyMeshing.GreedyMesher.MarkAsVisited | renderer/greedy.go:264-270 | `visited` loses exactly the cells of the rectangle |
| GreedyMeshing.GreedyMesher.GeneratePositiveFace | renderer/greedy.go:181-192 | appends the quad and the positive winding of axis `d` |
| GreedyMeshing.GreedyMesher.GenerateNegativeFace | renderer/greedy.go:194-205 | appends the quad with `du` and `dv` swapped and the negative winding of axis `d` |
| GreedyMeshing.GreedyMesher.AddFaceVertices | renderer/greedy.go:207-214 | appends the 24 floats of `x`, `x+du`, `x+dv`, `x+du+dv`, each with the colour; nothing else changes |
| GreedyMeshing.GreedyMesher.AddPositiveXFaceIndices | renderer/greedy.go:216-222 | appends `(2,1,0, 2,3,1)` relative to `idx` |
| GreedyMeshing.GreedyMesher.AddPositiveYFaceIndices | renderer/greedy.go:224-230 | appends `(0,2,1, 1,2,3)` relative to `idx` |
| GreedyMeshing.GreedyMesher.AddPositiveZFaceIndices | renderer/greedy.go:232-238 | appends `(2,1,0, 2,3,1)` relative to `idx` |
| GreedyMeshing.GreedyMesher.AddNegativeXFaceIndices | renderer/greedy.go:240-246 | appends `(0,2,1, 1,2,3)` relative to `idx` |
| GreedyMeshing.GreedyMesher.AddNegativeYFaceIndices | renderer/greedy.go:248-254 | appends `(2,1,0, 2,3,1)` relative to `idx` |
| GreedyMeshing.GreedyMesher.AddNegativeZFaceIndices | renderer/greedy.go:256-262 | appends `(0,2,1, 1,2,3)` relative to `idx` |
| GreedyMeshing.CleanAfterMerge | renderer/greedy.go:110-140 | after the merge of a plane's mask the whole `visited` buffer is false again |
| GreedyProperties.PlaneNoBoundary | renderer/greedy.go:96-140 | a plane with no solid/empty boundary emits nothing |
| GreedyProperties.PlaneOneBoundary | renderer/greedy.go:96-140 | a plane with a single boundary cell emits exactly one 1×1 face there |
| GreedyProperties.EmptyCubes | renderer/greedy.go:28-33 | an empty cube list gives no face, no vertex and no index |
| GreedyProperties.LoneLattice | renderer/greedy.go:58-77 | a single in-volume cube gives a lattice with one solid cell and a one-entry colour map |
| GreedyProperties.LoneBoundary | renderer/greedy.go:96-106 | around a lone voxel the mask is true only at its in-plane position, in the two planes on either side of it |
| GreedyProperties.LonePlaneFaces | renderer/greedy.go:108-128 | the plane before the voxel emits its positive face in its colour; the plane at it emits the negative face one step further on, in the default colour |
| GreedyProperties.LonePlane | renderer/greedy.go:96-140 | each plane of a sweep emits that face, or nothing |
| GreedyProperties.LonePlanesUpTo | renderer/greedy.go:87-141 | a sweep over a lone voxel emits its positive face, then its negative face |
| GreedyProperties.AxesUpToAll | renderer/greedy.go:82-84 | the mesh is the x sweep, then the y sweep, then the z sweep |
| GreedyProperties.LoneCube | renderer/greedy.go:79-141 | a lone in-volume cube gives exactly six unit faces, two per axis in axis order: 6 quads, 144 floats (24 vertices) and 36 indices |
| GreedyProperties.ColorsAreSolid | renderer/greedy.go:68-75 | the colour map of a cube list has only solid cells as keys |
| GreedyProperties.FacesOfNegative | renderer/greedy.go:113-128 | every negative face of a plane is read at an empty cell and gets the default colour |
| GreedyProperties.PlanesUpToNegative | renderer/greedy.go:96-139 | the same for the planes of an axis |
| GreedyProperties.AxesUpToNegative | renderer/greedy.go:82-84 | the same for the sweeps of all axes |
| GreedyProperties.NegativeFacesDefault | renderer/greedy.go:108-128 | for every cube list, every negative face of the mesh has colour (1, 0, 0) |
| Chunks.FaceStep | pkg/primitive/chunk.go:34-48 | each of the six face names faces a unit neighbour; any other name is unknown |
| Chunks.Chunk.constructor | pkg/primitive/chunk.go:12-14 | a 16³ grid of zero cubes at the given position |
| Chunks.Chunk.SetBlock | pkg/primitive/chunk.go:16-20 | an in-range write changes that one cell, which `GetBlock` then returns, and nothing else; an out-of-range write changes nothing |
| Chunks.Chunk.GetBlock | pkg/primitive/chunk.go:22-27 | the cell in range; the zero cube, whose size is 0, outside |
| Chunks.Chunk.WorldPosition | pkg/primitive/chunk.go:29-31 | the position given at creation, held in a constant field that no method can write |
| Chunks.Chunk.IsFaceExposed | pkg/primitive/chunk.go:33-49 | a known face is exposed iff the neighbour lies outside the chunk or has size 0; an unknown name is never exposed |
| Chunks.FaceReadable | pkg/primitive/chunk.go:33-46 | exactly the inputs for which `IsFaceExposed` does not index out of range: the unchecked neighbour read happens only off the edge the face looks at |
| Chunks.EdgesExposed | pkg/primitive/chunk.go:33-46 | left at x = 0, right at x = 15, bottom at y = 0, top at y = 15, back at z = 0, front at z = 15 are exposed |
| Chunks.InteriorExposed | pkg/primitive/chunk.go:33-46 | an interior face is exposed iff the neighbouring cube has size 0 |
| CubeMeshing.Offset | renderer/mesher.go:52 | the coordinate `centre ± size / 2` of a corner |
| CubeMeshing.VertexFloats | renderer/mesher.go:50-97 | one vertex of the table: three corner coordinates, then the cube's colour; six floats |
| CubeMeshing.CubeVertices | renderer/mesher.go:50-98 | a cube yields 216 floats |
| CubeMeshing.MeshOf | renderer/mesher.go:46-102 | a list of `k` cubes yields `216 k` floats |
| CubeMeshing.FaceTableShape | renderer/mesher.go:51-97 | every corner of a face lies on its plane: front z+, back z-, left x-, right x+, top y+, bottom y-; corner 3 repeats corner 2 and corner 5 repeats corner 0 |
| CubeMeshing.CubeVertex | renderer/mesher.go:50-98 | vertex `i` of face `f` occupies floats `[36 f + 6 i, 36 f + 6 i + 6)` and is that table corner |
| CubeMeshing.VertexShape | renderer/mesher.go:48-97 | every vertex carries the cube's colour as floats 3-5; each coordinate is centre ± Size/2, on the face's side along its axis |
| CubeMeshing.SharedDiagonal | renderer/mesher.go:51-97 | in every face, vertex 3 equals vertex 2 and vertex 5 equals vertex 0 |
| CubeMeshing.MeshBlock | renderer/mesher.go:46-101 | cube `k` occupies floats `[216 k, 216 k + 216)`, in input order |
| CubeMeshing.MeshAppend | renderer/mesher.go:46-101 | the mesh of two lists in sequence is the two meshes in sequence |
| CubeMeshing.CubeMesher.constructor | renderer/mesher.go:16-18 | the vertex list starts empty |
| CubeMeshing.CubeMesher.CreateMesh | renderer/mesher.go:20-24 | the list is cleared and then holds the mesh of `cubes` alone |
| CubeMeshing.CubeMesher.CreateCube | renderer/mesher.go:46-102 | appends the mesh of `cubes` to the list |
| CubeMeshing.CubeMesher.GetMesh | renderer/mesher.go:38-40 | returns the vertex list and an empty (nil) index list |

## Left out

- GL code is not modelled: `setupBuffers`, `Bind`, `Unbind`, `Draw` and `EnableBackfaceCulling` in
  both meshers (renderer/greedy.go:35-48, 272-301; renderer/mesher.go:26-35, 104-122). These are
  calls into the OpenGL bindings. `CreateMesh` is modelled up to the point where it hands the
  buffers to `setupBuffers`.
- The `String` methods are left out. They only format the buffers for display.
- float32 is modelled as exact reals, uint32 as unbounded integers and `int` as unbounded
  integers, with no rounding and no wrap-around.
  - The greedy mesher's coordinates are small integers, so they convert exactly.
  - An index `len(vertices)/6 - 4` is formed only after four vertices have been appended, so it is
    never negative.
- Primitive.Trunc: the conversion of a float32 beyond the range of `int` is not modelled. Go
  leaves its result implementation-defined.
- `generateDirectionMesh` takes the volume size as a parameter, but its only caller passes 15.
  The model fixes it at 15. The unused constant `chunkSize = 10` is not modelled.
- GreedyLattice.IsNotEmptyBlock demands non-negative in-plane coordinates; every call site passes
  such coordinates. The Go function short-circuits: it returns false without indexing when the
  coordinate along `d` is negative or any coordinate is at least 15. It would panic only when the
  coordinate along `d` is non-negative, all three are below 15 and an in-plane one is negative.
- Chunks.Chunk.IsFaceExposed demands that the neighbour it reads is in range whenever it reads one.
  The source indexes without a check, and Go would panic there.
- The greedy mesher keeps its solidity lattice as an immutable nested sequence: it is built once
  and then only read. Only the `visited` buffer is an array updated in place.
- GreedyMeshing.GreedyMesher.GetMesh returns copies of the buffers. Go returns slices that alias the
  mesher's own storage, and that aliasing is not modelled.
- A Go nil slice and an empty slice are the same value here. `GetMesh` of the naive mesher returns
  an empty index list.

The remaining files (renderers, camera, input, engine, message bus, textures, blocks and the demo
programs) are not part of this model.
