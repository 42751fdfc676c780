/** The greedy mesher itself (renderer/greedy.go): an object holding the
    vertex and index buffers, which `CreateMesh` refills from a cube list
    by sweeping a plane along each axis, building the face mask of each
    plane, merging it into rectangles and emitting one quad per rectangle. */
module GreedyMeshing {
  import opened Primitive
  import opened GreedyLattice
  import opened GreedyMerge
  import opened GreedyFaces

  class GreedyMesher {
    /** Six floats per vertex: position, then colour. */
    var vertices: seq<real>
    /** Three vertex numbers per triangle, two triangles per face. */
    var indices: seq<int>
    /** The faces emitted so far, in emission order. */
    ghost var faces: seq<Face>

    /** The buffers hold exactly the emitted faces. */
    ghost predicate Valid()
      reads this
    {
      vertices == Vertices(faces) && indices == Indices(faces)
    }

    /** `NewGreedyMesher`: empty buffers. */
    constructor ()
      ensures Valid() && faces == []
    {
      vertices := [];
      indices := [];
      faces := [];
    }

    /** `CreateMesh`: the buffers are reset and refilled with the faces of
        `cubes`. */
    method CreateMesh(cubes: seq<Cube>)
      modifies this
      ensures Valid() && faces == MeshFaces(cubes)
    {
      vertices := [];
      indices := [];
      faces := [];
      GenerateMesh(cubes);
    }

    /** `GetMesh`: the two buffers, holding the emitted faces. */
    method GetMesh() returns (vs: seq<real>, ixs: seq<int>)
      requires Valid()
      ensures vs == Vertices(faces) && ixs == Indices(faces)
    {
      vs, ixs := vertices, indices;
    }

    /** `populateSolidAndColors`: the lattice and the colour map of the
        cubes, one cube at a time. */
    method PopulateSolidAndColors(cubes: seq<Cube>) returns (solid: Lattice, cubeColors: map<Point, Color>)
      ensures solid == SolidOf(cubes) && cubeColors == ColorsOf(cubes)
    {
      solid := EmptyLattice();
      cubeColors := map[];
      for k := 0 to |cubes|
        invariant solid == SolidOf(cubes[..k]) && cubeColors == ColorsOf(cubes[..k])
      {
        assert cubes[..k + 1][..k] == cubes[..k];
        var cube := cubes[k];
        var pos := Point(Trunc(cube.x), Trunc(cube.y), Trunc(cube.z));
        if pos.x >= 0 && pos.x < Size && pos.y >= 0 && pos.y < Size && pos.z >= 0 && pos.z < Size {
          solid := MarkSolid(solid, pos);
          cubeColors := cubeColors[pos := cube.color];
        }
      }
      assert cubes[..|cubes|] == cubes;
    }

    /** `generateMesh`: the three sweeps, x, then y, then z. */
    method GenerateMesh(cubes: seq<Cube>)
      requires Valid()
      modifies this
      ensures Valid() && faces == old(faces) + MeshFaces(cubes)
    {
      var solid, cubeColors := PopulateSolidAndColors(cubes);
      for d := 0 to 3
        invariant Valid() && faces == old(faces) + AxesUpTo(solid, cubeColors, d)
      {
        GenerateDirectionMesh(d, solid, cubeColors);
        AppendAssoc(old(faces), AxesUpTo(solid, cubeColors, d), AxisFaces(solid, cubeColors, d));
      }
    }

    /** `generateDirectionMesh`: the planes `x[d] = -1 .. Size - 1` in
        order, each through the mask build and the merge. The `visited`
        buffer is all false whenever a plane starts. */
    method GenerateDirectionMesh(d: Axis, solid: Lattice, cubeColors: map<Point, Color>)
      requires Valid() && WellFormed(solid)
      modifies this
      ensures Valid() && faces == old(faces) + AxisFaces(solid, cubeColors, d)
    {
      var visited := new bool[MaskLength](_ => false);
      var t := -1;
      while t < Size
        invariant -1 <= t <= Size
        invariant Valid() && faces == old(faces) + PlanesUpTo(solid, cubeColors, d, t)
        invariant visited.Length == MaskLength
        invariant forall q :: 0 <= q < MaskLength ==> !visited[q]
      {
        SweepPlane(visited, solid, cubeColors, d, t);
        AppendAssoc(old(faces), PlanesUpTo(solid, cubeColors, d, t), PlaneFaces(solid, cubeColors, d, t));
        t := t + 1;
      }
    }

    /** One pass of the loop of `generateDirectionMesh`, for plane `t`: the
        mask is built into `visited` and merged, which emits the faces of
        the plane and leaves the buffer all false again. */
    method SweepPlane(visited: array<bool>, solid: Lattice, cubeColors: map<Point, Color>, d: Axis, t: int)
      requires Valid() && WellFormed(solid) && visited.Length == MaskLength
      requires forall q :: 0 <= q < MaskLength ==> !visited[q]
      modifies this, visited
      ensures Valid() && faces == old(faces) + PlaneFaces(solid, cubeColors, d, t)
      ensures forall q :: 0 <= q < MaskLength ==> !visited[q]
    {
      BuildMask(visited, solid, d, t);
      MergePlane(visited, solid, cubeColors, d, t);
      CleanAfterMerge(visited[..], PlaneMask(solid, d, t));
    }

    /** The first half of a plane of `generateDirectionMesh`: cell `n`,
        i.e. `(a, b)`, of `visited` is set to whether solidity differs
        across the plane there. */
    method BuildMask(visited: array<bool>, solid: Lattice, d: Axis, t: int)
      requires visited.Length == MaskLength && WellFormed(solid)
      requires forall q :: PlaneCells <= q < MaskLength ==> !visited[q]
      modifies visited
      ensures visited[..] == PlaneMask(solid, d, t)
    {
      var n := 0;
      for b := 0 to Size
        invariant n == b * 15
        invariant forall q :: PlaneCells <= q < MaskLength ==> !visited[q]
        invariant forall a', b' {:trigger visited[Idx(a', b')]} :: 0 <= a' < Size && 0 <= b' < b ==>
          visited[Idx(a', b')] == MaskBit(solid, d, t, a', b')
      {
        for a := 0 to Size
          invariant n == b * 15 + a
          invariant forall q :: PlaneCells <= q < MaskLength ==> !visited[q]
          invariant forall a', b' {:trigger visited[Idx(a', b')]} :: 0 <= a' < Size && 0 <= b' < Size && Before(a', b', a, b) ==>
            visited[Idx(a', b')] == MaskBit(solid, d, t, a', b')
        {
          var x := Cell(d, t, a, b);
          CellAddAlong(d, t, a, b);
          var currentBlock := IsNotEmptyBlock(x, d, solid);
          var compareBlock := IsNotEmptyBlock(x.Add(Along(d, 1)), d, solid);
          visited[n] := currentBlock != compareBlock;
          n := n + 1;
        }
      }
      PlaneMaskFrom(visited[..], solid, d, t);
    }

    /** The second half of a plane of `generateDirectionMesh`: the scan of
        `visited` cell by cell, growing, emitting and clearing a rectangle
        at each true cell. The faces emitted are those of the plane, and
        the buffer is left as the scan leaves it. */
    method MergePlane(visited: array<bool>, solid: Lattice, cubeColors: map<Point, Color>, d: Axis, t: int)
      requires Valid() && WellFormed(solid) && visited.Length == MaskLength
      modifies this, visited
      ensures Valid() && faces == old(faces) + MaskFaces(solid, cubeColors, d, t, old(visited[..]))
      ensures visited[..] == Scan(old(visited[..]), 0, 0).residue
    {
      ghost var mask := visited[..];
      ghost var goal := Scan(mask, 0, 0);
      ghost var emitted: seq<Rect> := [];
      var n := 0;
      for j := 0 to Size
        invariant n == Idx(0, j)
        invariant Valid() && faces == old(faces) + FacesOf(solid, cubeColors, d, t, emitted)
        invariant emitted + Scan(visited[..], 0, j).rects == goal.rects
        invariant Scan(visited[..], 0, j).residue == goal.residue
      {
        n, emitted := MergeRow(visited, solid, cubeColors, d, t, j, n, old(faces), emitted, goal);
      }
      assert emitted + [] == emitted;
    }

    /** The inner loop of the merge over row `j`, from cell `n`, i.e.
        `(0, j)`, to the start of the next row. */
    method MergeRow(visited: array<bool>, solid: Lattice, cubeColors: map<Point, Color>, d: Axis, t: int,
                    j: int, n: int, ghost base: seq<Face>, ghost emitted: seq<Rect>, ghost goal: Merge)
      returns (n': int, ghost emitted': seq<Rect>)
      requires WellFormed(solid) && visited.Length == MaskLength
      requires 0 <= j < Size && n == Idx(0, j)
      requires Valid() && faces == base + FacesOf(solid, cubeColors, d, t, emitted)
      requires emitted + Scan(visited[..], 0, j).rects == goal.rects
      requires Scan(visited[..], 0, j).residue == goal.residue
      modifies this, visited
      ensures n' == Idx(0, j + 1)
      ensures Valid() && faces == base + FacesOf(solid, cubeColors, d, t, emitted')
      ensures emitted' + Scan(visited[..], 0, j + 1).rects == goal.rects
      ensures Scan(visited[..], 0, j + 1).residue == goal.residue
    {
      var i := 0;
      n', emitted' := n, emitted;
      while i < Size
        invariant 0 <= i <= Size && n' == Idx(i, j)
        invariant Valid() && faces == base + FacesOf(solid, cubeColors, d, t, emitted')
        invariant emitted' + Scan(visited[..], i, j).rects == goal.rects
        invariant Scan(visited[..], i, j).residue == goal.residue
        decreases Size - i
      {
        i, n', emitted' := MergeStep(visited, solid, cubeColors, d, t, i, j, n', base, emitted', goal);
      }
      ScanNextRow(visited[..], j);
    }

    /** One step of the scan of row `j` at cell `n`, i.e. `(i, j)`: a true
        cell is merged and the scan jumps past the rectangle, a false one
        is skipped. The rectangles emitted so far followed by those the
        scan still finds stay those of the whole plane. */
    method MergeStep(visited: array<bool>, solid: Lattice, cubeColors: map<Point, Color>, d: Axis, t: int,
                     i: int, j: int, n: int, ghost base: seq<Face>, ghost emitted: seq<Rect>, ghost goal: Merge)
      returns (i': int, n': int, ghost emitted': seq<Rect>)
      requires WellFormed(solid) && visited.Length == MaskLength
      requires 0 <= i < Size && 0 <= j < Size && n == Idx(i, j)
      requires Valid() && faces == base + FacesOf(solid, cubeColors, d, t, emitted)
      requires emitted + Scan(visited[..], i, j).rects == goal.rects
      requires Scan(visited[..], i, j).residue == goal.residue
      modifies this, visited
      ensures i < i' <= Size && n' == Idx(i', j)
      ensures Valid() && faces == base + FacesOf(solid, cubeColors, d, t, emitted')
      ensures emitted' + Scan(visited[..], i', j).rects == goal.rects
      ensures Scan(visited[..], i', j).residue == goal.residue
    {
      if visited[n] {
        ghost var v := visited[..];
        ghost var r := Grow(v, i, j);
        var w := MergeAt(visited, n, solid, cubeColors, d, t, i, j);
        assert faces == base + FacesOf(solid, cubeColors, d, t, emitted + [r]) by {
          FacesOfSnoc(solid, cubeColors, d, t, base, emitted, r);
        }
        assert (emitted + [r]) + Scan(visited[..], i + w, j).rects == goal.rects
            && Scan(visited[..], i + w, j).residue == goal.residue by {
          assert visited[..] == ClearRect(v, r) && w == r.w;
          ScanStep(v, i, j, emitted, goal);
        }
        i', n', emitted' := i + w, n + w, emitted + [r];
      } else {
        ScanSkip(visited[..], i, j);
        i', n', emitted' := i + 1, n + 1, emitted;
      }
    }

    /** The body of the merge loop at a true cell `n`, i.e. `(i, j)`: the
        rectangle grown there becomes one face, positive when the cell past
        the plane is solid, and is cleared from the buffer. */
    method MergeAt(visited: array<bool>, n: int, solid: Lattice, cubeColors: map<Point, Color>, d: Axis, t: int,
                   i: int, j: int) returns (w: int)
      requires Valid() && WellFormed(solid) && visited.Length == MaskLength
      requires 0 <= i < Size && 0 <= j < Size && n == Idx(i, j) && visited[Idx(i, j)]
      modifies this, visited
      ensures w == Grow(old(visited[..]), i, j).w
      ensures visited[..] == ClearRect(old(visited[..]), Grow(old(visited[..]), i, j))
      ensures Valid() && faces == old(faces) + [PlaneFace(solid, cubeColors, d, t, Grow(old(visited[..]), i, j))]
    {
      var h;
      w, h := FindWidthAndHeight(visited, n, i, j);
      var x := Cell(d, t + 1, i, j);
      var du := Along(U(d), w);
      var dv := Along(V(d), h);
      var color := GetColor(x, d, cubeColors);
      if IsNotEmptyBlock(x, d, solid) {
        GeneratePositiveFace(d, x, du, dv, color);
      } else {
        GenerateNegativeFace(d, x, du, dv, color);
      }
      MarkAsVisited(visited, n, w, h, i, j);
    }

    /** `findWidthAndHeight`: the run of true cells from `(i, j)` along the
        row, then the number of rows below it that are true across that
        whole width; together, the rectangle `Grow` describes. */
    method FindWidthAndHeight(visited: array<bool>, n: int, i: int, j: int) returns (w: int, h: int)
      requires visited.Length == MaskLength && 0 <= i < Size && 0 <= j < Size && n == Idx(i, j)
      ensures Rect(i, j, w, h) == Grow(visited[..], i, j)
    {
      ghost var m := visited[..];
      w := 1;
      while w + i < Size && visited[n + w]
        invariant 1 <= w <= Size - i
        invariant WidthFrom(m, i, j, w) == Width(m, i, j)
        decreases Size - w
      {
        w := w + 1;
      }
      h := 1;
      var done := false;
      while h + j < Size
        invariant 1 <= h <= Size - j && !done
        invariant HeightFrom(m, i, j, w, h) == Height(m, i, j, w)
        decreases Size - h
      {
        for k := 0 to w
          invariant !done
          invariant forall a {:trigger m[Idx(a, j + h)]} :: i <= a < i + k ==> m[Idx(a, j + h)]
        {
          assert m[Idx(i + k, j + h)] == visited[n + k + h * 15];
          if !visited[n + k + h * 15] {
            done := true;
            break;
          }
        }
        if done {
          break;
        }
        h := h + 1;
      }
    }

    /** `markAsVisited`: the `h` rows of `w` cells from `n` are set false,
        i.e. the rectangle at `(i, j)` is cleared. */
    method MarkAsVisited(visited: array<bool>, n: int, w: int, h: int, ghost i: int, ghost j: int)
      requires visited.Length == MaskLength && Within(Rect(i, j, w, h)) && n == Idx(i, j)
      modifies visited
      ensures visited[..] == ClearRect(old(visited[..]), Rect(i, j, w, h))
    {
      ghost var m := visited[..];
      ghost var r := Rect(i, j, w, h);
      for l := 0 to h
        invariant visited[..] == ClearRows(m, r, l)
      {
        for k := 0 to w
          invariant visited[..] == ClearRun(ClearRows(m, r, l), Idx(i, j + l), k)
        {
          visited[n + k + l * 15] := false;
        }
      }
    }

    /** `generatePositiveFace`: the quad with corners `x`, `x + du`,
        `x + dv`, `x + du + dv`, and the winding of the positive face of
        axis `d`. */
    method GeneratePositiveFace(d: Axis, x: Point, du: Point, dv: Point, color: Color)
      requires Valid()
      modifies this
      ensures Valid() && faces == old(faces) + [Face(d, true, x, du, dv, color)]
    {
      ghost var f := Face(d, true, x, du, dv, color);
      AddFaceVertices(x, du, dv, color);
      assert LastQuad() == 4 * |faces|;
      if d == 0 {
        AddPositiveXFaceIndices();
      } else if d == 1 {
        AddPositiveYFaceIndices();
      } else {
        AddPositiveZFaceIndices();
      }
      EmitFace(f);
    }

    /** `generateNegativeFace`: as the positive face with `du` and `dv`
        swapped, and the winding of the negative face of axis `d`. */
    method GenerateNegativeFace(d: Axis, x: Point, du: Point, dv: Point, color: Color)
      requires Valid()
      modifies this
      ensures Valid() && faces == old(faces) + [Face(d, false, x, du, dv, color)]
    {
      ghost var f := Face(d, false, x, du, dv, color);
      AddFaceVertices(x, dv, du, color);
      assert LastQuad() == 4 * |faces|;
      if d == 0 {
        AddNegativeXFaceIndices();
      } else if d == 1 {
        AddNegativeYFaceIndices();
      } else {
        AddNegativeZFaceIndices();
      }
      EmitFace(f);
    }

    /** Records `f` as emitted once its floats and indices are in the
        buffers. */
    ghost method EmitFace(f: Face)
      requires vertices == Vertices(faces) + FaceVertices(f)
      requires indices == Indices(faces) + FaceIndices(f, 4 * |faces|)
      modifies this
      ensures Valid() && faces == old(faces) + [f]
      ensures vertices == old(vertices) && indices == old(indices)
    {
      VerticesSnoc(faces, f);
      IndicesSnoc(faces, f);
      faces := faces + [f];
    }

    /** `addFaceVertices`: the four corners, each followed by the colour. */
    method AddFaceVertices(x: Point, du: Point, dv: Point, color: Color)
      modifies this
      ensures vertices == old(vertices) + QuadVertices(x, du, dv, color)
      ensures indices == old(indices) && faces == old(faces)
    {
      vertices := vertices + [
        x.x as real, x.y as real, x.z as real, color.r, color.g, color.b,
        (x.x + du.x) as real, (x.y + du.y) as real, (x.z + du.z) as real, color.r, color.g, color.b,
        (x.x + dv.x) as real, (x.y + dv.y) as real, (x.z + dv.z) as real, color.r, color.g, color.b,
        (x.x + du.x + dv.x) as real, (x.y + du.y + dv.y) as real, (x.z + du.z + dv.z) as real, color.r, color.g, color.b
      ];
    }

    /** The first vertex of the last four in the buffer. */
    function LastQuad(): int
      reads this
    {
      |vertices| / 6 - 4
    }

    /** `addPositiveXFaceIndices`: triangles `(2,1,0)` and `(2,3,1)` over
        the last four vertices. */
    method AddPositiveXFaceIndices()
      modifies this
      ensures indices == old(indices) + WindingA(old(LastQuad()))
      ensures vertices == old(vertices) && faces == old(faces)
    {
      var idx := |vertices| / 6 - 4;
      indices := indices + [idx + 2, idx + 1, idx, idx + 2, idx + 3, idx + 1];
    }

    /** `addPositiveYFaceIndices`: triangles `(0,2,1)` and `(1,2,3)`. */
    method AddPositiveYFaceIndices()
      modifies this
      ensures indices == old(indices) + WindingB(old(LastQuad()))
      ensures vertices == old(vertices) && faces == old(faces)
    {
      var idx := |vertices| / 6 - 4;
      indices := indices + [idx, idx + 2, idx + 1, idx + 1, idx + 2, idx + 3];
    }

    /** `addPositiveZFaceIndices`: triangles `(2,1,0)` and `(2,3,1)`. */
    method AddPositiveZFaceIndices()
      modifies this
      ensures indices == old(indices) + WindingA(old(LastQuad()))
      ensures vertices == old(vertices) && faces == old(faces)
    {
      var idx := |vertices| / 6 - 4;
      indices := indices + [idx + 2, idx + 1, idx, idx + 2, idx + 3, idx + 1];
    }

    /** `addNegativeXFaceIndices`: triangles `(0,2,1)` and `(1,2,3)`. */
    method AddNegativeXFaceIndices()
      modifies this
      ensures indices == old(indices) + WindingB(old(LastQuad()))
      ensures vertices == old(vertices) && faces == old(faces)
    {
      var idx := |vertices| / 6 - 4;
      indices := indices + [idx, idx + 2, idx + 1, idx + 1, idx + 2, idx + 3];
    }

    /** `addNegativeYFaceIndices`: triangles `(2,1,0)` and `(2,3,1)`. */
    method AddNegativeYFaceIndices()
      modifies this
      ensures indices == old(indices) + WindingA(old(LastQuad()))
      ensures vertices == old(vertices) && faces == old(faces)
    {
      var idx := |vertices| / 6 - 4;
      indices := indices + [idx + 2, idx + 1, idx, idx + 2, idx + 3, idx + 1];
    }

    /** `addNegativeZFaceIndices`: triangles `(0,2,1)` and `(1,2,3)`. */
    method AddNegativeZFaceIndices()
      modifies this
      ensures indices == old(indices) + WindingB(old(LastQuad()))
      ensures vertices == old(vertices) && faces == old(faces)
    {
      var idx := |vertices| / 6 - 4;
      indices := indices + [idx, idx + 2, idx + 1, idx + 1, idx + 2, idx + 3];
    }
  }

  /** Emitting one more rectangle emits one more face. */
  lemma FacesOfSnoc(solid: Lattice, colors: map<Point, Color>, d: Axis, t: int, base: seq<Face>, rs: seq<Rect>, r: Rect)
    requires WellFormed(solid)
    ensures base + FacesOf(solid, colors, d, t, rs + [r]) == (base + FacesOf(solid, colors, d, t, rs)) + [PlaneFace(solid, colors, d, t, r)]
  {
    assert (rs + [r])[..|rs|] == rs;
    AppendAssoc(base, FacesOf(solid, colors, d, t, rs), [PlaneFace(solid, colors, d, t, r)]);
  }

  /** After a plane's merge the buffer is all false again: the scan clears
      every cell of the plane and leaves the tail, false in the mask, as it
      was. */
  lemma CleanAfterMerge(v: seq<bool>, mask: seq<bool>)
    requires |mask| == MaskLength && v == Scan(mask, 0, 0).residue
    requires forall q :: PlaneCells <= q < MaskLength ==> !mask[q]
    ensures forall q :: 0 <= q < MaskLength ==> !v[q]
  {
    ScanResidue(mask, 0, 0);
    ScanTail(mask, 0, 0);
    forall q | 0 <= q < PlaneCells ensures !v[q] {
      ColRowInverse(q);
    }
  }
}
