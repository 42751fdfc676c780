/** The naive mesher of renderer/mesher.go: every cube becomes 36 vertices
    (six faces of two triangles), each vertex six floats (position, then
    colour), with no merging and no culling. */
module CubeMeshing {
  import opened Primitive

  /** Which side of the centre a corner lies on, along one axis. */
  datatype Sign = Minus | Plus

  /** A corner of the unit cube as three signs (x, y, z). */
  datatype Corner = Corner(sx: Sign, sy: Sign, sz: Sign)

  /** The floats of one vertex per cube. */
  const VertexStride := 6
  /** The vertices of one face: two triangles. */
  const FaceVertexCount := 6
  /** The floats of one face: 6 vertices of 6 floats. */
  const FaceFloatCount := 36
  /** The floats of one cube: 36 vertices of 6 floats. */
  const CubeFloats := 216

  /** `createCube`'s vertex table, face by face. Each face is two
      triangles of three corners. */
  const Front: seq<Corner> := [
    Corner(Minus, Minus, Plus), Corner(Plus, Minus, Plus), Corner(Plus, Plus, Plus),
    Corner(Plus, Plus, Plus), Corner(Minus, Plus, Plus), Corner(Minus, Minus, Plus)]
  const Back: seq<Corner> := [
    Corner(Minus, Minus, Minus), Corner(Plus, Minus, Minus), Corner(Plus, Plus, Minus),
    Corner(Plus, Plus, Minus), Corner(Minus, Plus, Minus), Corner(Minus, Minus, Minus)]
  const Left: seq<Corner> := [
    Corner(Minus, Plus, Plus), Corner(Minus, Plus, Minus), Corner(Minus, Minus, Minus),
    Corner(Minus, Minus, Minus), Corner(Minus, Minus, Plus), Corner(Minus, Plus, Plus)]
  const Right: seq<Corner> := [
    Corner(Plus, Plus, Plus), Corner(Plus, Plus, Minus), Corner(Plus, Minus, Minus),
    Corner(Plus, Minus, Minus), Corner(Plus, Minus, Plus), Corner(Plus, Plus, Plus)]
  const Top: seq<Corner> := [
    Corner(Minus, Plus, Minus), Corner(Plus, Plus, Minus), Corner(Plus, Plus, Plus),
    Corner(Plus, Plus, Plus), Corner(Minus, Plus, Plus), Corner(Minus, Plus, Minus)]
  const Bottom: seq<Corner> := [
    Corner(Minus, Minus, Minus), Corner(Plus, Minus, Minus), Corner(Plus, Minus, Plus),
    Corner(Plus, Minus, Plus), Corner(Minus, Minus, Plus), Corner(Minus, Minus, Minus)]

  /** The faces in emission order. */
  const FaceTable: seq<seq<Corner>> := [Front, Back, Left, Right, Top, Bottom]

  /** The coordinate `centre +/- size / 2`. */
  function Offset(s: Sign, centre: real, size: real): real {
    if s == Plus then centre + size / 2.0 else centre - size / 2.0
  }

  /** The six floats of the vertex of cube `c` at corner `k`. */
  function VertexFloats(c: Cube, k: Corner): (v: seq<real>)
    ensures |v| == VertexStride
  {
    [Offset(k.sx, c.x, c.size), Offset(k.sy, c.y, c.size), Offset(k.sz, c.z, c.size),
     c.color.r, c.color.g, c.color.b]
  }

  /** The floats one cube contributes: the vertices of its six faces in
      table order, each face's six corners in order. */
  function CubeVertices(c: Cube): (v: seq<real>)
    ensures |v| == CubeFloats
  {
    seq(CubeFloats, n requires 0 <= n < CubeFloats =>
      VertexFloats(c, FaceTable[n / FaceFloatCount][n % FaceFloatCount / VertexStride])[n % VertexStride])
  }

  /** The floats of all cubes, in input order. */
  function MeshOf(cubes: seq<Cube>): (v: seq<real>)
    ensures |v| == CubeFloats * |cubes|
  {
    if cubes == [] then [] else MeshOf(cubes[..|cubes| - 1]) + CubeVertices(cubes[|cubes| - 1])
  }

  /** The plane each face of the table lies on, as an axis and a side:
      front z+, back z-, left x-, right x+, top y+, bottom y-. */
  function FacePlane(f: int): (int, Sign)
    requires 0 <= f < 6
  {
    [(2, Plus), (2, Minus), (0, Minus), (0, Plus), (1, Plus), (1, Minus)][f]
  }

  function CornerSign(k: Corner, axis: int): Sign
    requires 0 <= axis < 3
  {
    if axis == 0 then k.sx else if axis == 1 then k.sy else k.sz
  }

  /** Every corner of face `f` lies on the face's plane, and the face is
      two triangles sharing a diagonal: the fourth corner repeats the third
      and the sixth repeats the first. */
  lemma FaceTableShape(f: int)
    requires 0 <= f < 6
    ensures |FaceTable[f]| == FaceVertexCount
    ensures forall k :: k in FaceTable[f] ==> CornerSign(k, FacePlane(f).0) == FacePlane(f).1
    ensures FaceTable[f][3] == FaceTable[f][2] && FaceTable[f][5] == FaceTable[f][0]
  {
    if f == 0 {
    } else if f == 1 {
    } else if f == 2 {
    } else if f == 3 {
    } else if f == 4 {
    } else {
    }
  }

  /** Vertex `i` of face `f` of a cube: the six floats of that table
      corner. */
  lemma CubeVertex(c: Cube, f: int, i: int)
    requires 0 <= f < 6 && 0 <= i < FaceVertexCount
    ensures |FaceTable[f]| == FaceVertexCount
    ensures var at := FaceFloatCount * f + VertexStride * i;
      CubeVertices(c)[at .. at + VertexStride] == VertexFloats(c, FaceTable[f][i])
  {
    var at := FaceFloatCount * f + VertexStride * i;
    forall j | 0 <= j < VertexStride
      ensures CubeVertices(c)[at + j] == VertexFloats(c, FaceTable[f][i])[j]
    {
      assert (at + j) / FaceFloatCount == f;
      assert (at + j) % FaceFloatCount == VertexStride * i + j;
      assert (VertexStride * i + j) / VertexStride == i;
      assert (at + j) % VertexStride == j;
    }
  }

  /** Every vertex of a cube carries the cube's colour as its floats 3 to
      5; each of its position floats is the centre on that axis plus or
      minus half the size, and the one along the axis of its face is on
      that face's side. */
  lemma VertexShape(c: Cube, f: int, i: int)
    requires 0 <= f < 6 && 0 <= i < FaceVertexCount
    ensures var v := CubeVertices(c)[FaceFloatCount * f + VertexStride * i .. FaceFloatCount * f + VertexStride * i + VertexStride];
      var axis := FacePlane(f).0;
      v[3..] == [c.color.r, c.color.g, c.color.b] &&
      (v[0] == c.x - c.size / 2.0 || v[0] == c.x + c.size / 2.0) &&
      (v[1] == c.y - c.size / 2.0 || v[1] == c.y + c.size / 2.0) &&
      (v[2] == c.z - c.size / 2.0 || v[2] == c.z + c.size / 2.0) &&
      v[axis] == Offset(FacePlane(f).1, [c.x, c.y, c.z][axis], c.size)
  {
    CubeVertex(c, f, i);
    FaceTableShape(f);
    assert FaceTable[f][i] in FaceTable[f];
  }

  /** Each face of a cube is two triangles sharing a diagonal: vertex 3
      repeats vertex 2 and vertex 5 repeats vertex 0. */
  lemma SharedDiagonal(c: Cube, f: int)
    requires 0 <= f < 6
    ensures var base := FaceFloatCount * f;
      CubeVertices(c)[base + 18 .. base + 24] == CubeVertices(c)[base + 12 .. base + 18] &&
      CubeVertices(c)[base + 30 .. base + 36] == CubeVertices(c)[base .. base + 6]
  {
    FaceTableShape(f);
    CubeVertex(c, f, 0);
    CubeVertex(c, f, 2);
    CubeVertex(c, f, 3);
    CubeVertex(c, f, 5);
  }

  /** Cube `k` of the list occupies floats `[216 k, 216 k + 216)` of the
      mesh. */
  lemma {:induction false} MeshBlock(cubes: seq<Cube>, k: int)
    requires 0 <= k < |cubes|
    ensures MeshOf(cubes)[CubeFloats * k .. CubeFloats * k + CubeFloats] == CubeVertices(cubes[k])
  {
    var init := cubes[..|cubes| - 1];
    if k < |cubes| - 1 {
      MeshBlock(init, k);
      assert init[k] == cubes[k];
      assert MeshOf(cubes)[..CubeFloats * |init|] == MeshOf(init);
    }
  }

  /** The mesh of a concatenation is the concatenation of the meshes. */
  lemma {:induction false} MeshAppend(cubes: seq<Cube>, more: seq<Cube>)
    ensures MeshOf(cubes + more) == MeshOf(cubes) + MeshOf(more)
    decreases |more|
  {
    if more == [] {
      assert cubes + more == cubes;
    } else {
      var init := more[..|more| - 1];
      assert (cubes + more)[..|cubes + more| - 1] == cubes + init;
      MeshAppend(cubes, init);
    }
  }

  /** The mesh of the first `n + 1` cubes extends that of the first `n`
      by the floats of cube `n`. */
  lemma MeshPrefix(cubes: seq<Cube>, n: int)
    requires 0 <= n < |cubes|
    ensures MeshOf(cubes[..n + 1]) == MeshOf(cubes[..n]) + CubeVertices(cubes[n])
  {
    assert cubes[..n + 1][..n] == cubes[..n];
  }

  class CubeMesher {
    var vertices: seq<real>

    /** `NewCubeMesher`: an empty vertex list. */
    constructor ()
      ensures vertices == []
    {
      vertices := [];
    }

    /** `CreateMesh` (generation part): the list is cleared first, so the
        result depends on `cubes` alone. */
    method CreateMesh(cubes: seq<Cube>)
      modifies this
      ensures vertices == MeshOf(cubes)
    {
      vertices := [];
      CreateCube(cubes);
    }

    /** `createCube`: appends each cube's 216 floats, in input order. */
    method CreateCube(cubes: seq<Cube>)
      modifies this
      ensures vertices == old(vertices) + MeshOf(cubes)
    {
      for n := 0 to |cubes|
        invariant vertices == old(vertices) + MeshOf(cubes[..n])
      {
        var cubeVertices := CubeVertices(cubes[n]);
        MeshPrefix(cubes, n);
        AppendAssoc(old(vertices), MeshOf(cubes[..n]), cubeVertices);
        vertices := vertices + cubeVertices;
      }
      assert cubes[..|cubes|] == cubes;
    }

    /** `GetMesh`: the vertex list and no index list. */
    method GetMesh() returns (v: seq<real>, indices: seq<int>)
      ensures v == vertices && indices == []
    {
      return vertices, [];
    }
  }
}
