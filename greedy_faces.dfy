/** What the greedy mesher (renderer/greedy.go) emits, as pure functions:
    the face mask of each sweep plane, the face generated for each merged
    rectangle, the vertex and index buffers a list of faces is written
    into, and the list of faces a cube list yields. */
module GreedyFaces {
  import opened Primitive
  import opened GreedyLattice
  import opened GreedyMerge

  /** The mask cell `(a, b)` of plane `x[d] = t`: the solidity of the voxel
      at `t` differs from that of the voxel one step further along `d`. */
  function MaskBit(solid: Lattice, d: Axis, t: int, a: int, b: int): bool
    requires WellFormed(solid) && 0 <= a && 0 <= b
  {
    var x := Cell(d, t, a, b);
    IsNotEmptyBlock(x, d, solid) != IsNotEmptyBlock(x.Add(Along(d, 1)), d, solid)
  }

  /** The solid/empty boundary between the voxels at `t` and `t + 1` along
      `d`, at in-plane position `(a, b)`. */
  ghost predicate Boundary(solid: Lattice, d: Axis, t: int, a: int, b: int)
    requires WellFormed(solid)
  {
    Occupied(solid, Cell(d, t, a, b)) != Occupied(solid, Cell(d, t + 1, a, b))
  }

  /** The `visited` buffer once the mask of plane `x[d] = t` is built: a
      cell is true exactly where solidity changes across the plane (so
      colour and the side the solid voxel is on are ignored), and the unused
      tail of the buffer is false. */
  function PlaneMask(solid: Lattice, d: Axis, t: int): (m: seq<bool>)
    requires WellFormed(solid)
    ensures |m| == MaskLength
    ensures forall a, b {:trigger m[Idx(a, b)]} :: 0 <= a < Size && 0 <= b < Size ==> m[Idx(a, b)] == Boundary(solid, d, t, a, b)
    ensures forall q :: PlaneCells <= q < MaskLength ==> !m[q]
  {
    var m := seq(MaskLength, k requires 0 <= k < MaskLength =>
      k < PlaneCells && MaskBit(solid, d, t, Col(k), Row(k)));
    assert forall a, b {:trigger m[Idx(a, b)]} :: 0 <= a < Size && 0 <= b < Size ==> m[Idx(a, b)] == Boundary(solid, d, t, a, b) by {
      forall a, b {:trigger m[Idx(a, b)]} | 0 <= a < Size && 0 <= b < Size
        ensures m[Idx(a, b)] == Boundary(solid, d, t, a, b)
      {
        IdxInverse(a, b);
        CellAddAlong(d, t, a, b);
      }
    }
    m
  }

  /** A buffer holding the mask bit of every cell and false in its tail is
      the plane's mask. */
  lemma PlaneMaskFrom(v: seq<bool>, solid: Lattice, d: Axis, t: int)
    requires WellFormed(solid) && |v| == MaskLength
    requires forall a, b {:trigger v[Idx(a, b)]} :: 0 <= a < Size && 0 <= b < Size ==> v[Idx(a, b)] == MaskBit(solid, d, t, a, b)
    requires forall q :: PlaneCells <= q < MaskLength ==> !v[q]
    ensures v == PlaneMask(solid, d, t)
  {
    var m := PlaneMask(solid, d, t);
    forall q | 0 <= q < MaskLength ensures v[q] == m[q] {
      if q < PlaneCells {
        ColRowInverse(q);
        CellAddAlong(d, t, Col(q), Row(q));
      }
    }
  }

  /** One call of `generatePositiveFace` (`positive`) or
      `generateNegativeFace`: axis, start corner `x`, the extents `du` and
      `dv` as passed, and the colour. */
  datatype Face = Face(d: Axis, positive: bool, x: Point, du: Point, dv: Point, color: Color)

  /** One vertex: three coordinates followed by the three colour floats. */
  function VertexFloats(p: Point, c: Color): (r: seq<real>)
    ensures |r| == 6
  {
    [p.x as real, p.y as real, p.z as real, c.r, c.g, c.b]
  }

  /** `addFaceVertices`: the corners `x`, `x + du`, `x + dv`, `x + du + dv`. */
  function QuadVertices(x: Point, du: Point, dv: Point, c: Color): (r: seq<real>)
    ensures |r| == 24
  {
    VertexFloats(x, c) + VertexFloats(x.Add(du), c) + VertexFloats(x.Add(dv), c)
      + VertexFloats(x.Add(du).Add(dv), c)
  }

  /** The 24 floats of a face; a negative face swaps `du` and `dv`. */
  function FaceVertices(f: Face): (r: seq<real>)
    ensures |r| == 24
  {
    if f.positive then QuadVertices(f.x, f.du, f.dv, f.color)
    else QuadVertices(f.x, f.dv, f.du, f.color)
  }

  /** The winding `(2,1,0, 2,3,1)` of +X, +Z and -Y faces. */
  function WindingA(base: int): seq<int> {
    [base + 2, base + 1, base, base + 2, base + 3, base + 1]
  }

  /** The winding `(0,2,1, 1,2,3)` of +Y, -X and -Z faces. */
  function WindingB(base: int): seq<int> {
    [base, base + 2, base + 1, base + 1, base + 2, base + 3]
  }

  /** The six indices of a face whose first vertex is `base`
      (`add*FaceIndices`): winding A for +X, +Z and -Y, B for +Y, -X and -Z. */
  function FaceIndices(f: Face, base: int): (r: seq<int>)
    ensures |r| == 6
  {
    if f.positive then (if f.d == 1 then WindingB(base) else WindingA(base))
    else (if f.d == 1 then WindingA(base) else WindingB(base))
  }

  /** Whatever the winding, a face's indices form the triangles
      `{base, base+1, base+2}` and `{base+1, base+2, base+3}`: two
      triangles over the face's four vertices, split along the diagonal
      from vertex 1 to vertex 2. */
  lemma FaceTriangles(f: Face, base: int)
    ensures multiset(FaceIndices(f, base)[..3]) == multiset{base, base + 1, base + 2}
    ensures multiset(FaceIndices(f, base)[3..]) == multiset{base + 1, base + 2, base + 3}
  {
    var r := FaceIndices(f, base);
    if r == WindingA(base) {
      assert r[..3] == [base + 2, base + 1, base];
      assert r[3..] == [base + 2, base + 3, base + 1];
    } else {
      assert r[..3] == [base, base + 2, base + 1];
      assert r[3..] == [base + 1, base + 2, base + 3];
    }
  }

  /** Every index of a face lies among its own four vertices. */
  lemma FaceIndicesRange(f: Face, base: int)
    ensures forall q :: 0 <= q < 6 ==> base <= FaceIndices(f, base)[q] <= base + 3
  {
    var r := FaceIndices(f, base);
    FaceTriangles(f, base);
    forall q | 0 <= q < 6 ensures base <= r[q] <= base + 3 {
      if q < 3 {
        assert r[q] == r[..3][q];
        assert r[q] in multiset(r[..3]);
      } else {
        assert r[q] == r[3..][q - 3];
        assert r[q] in multiset(r[3..]);
      }
    }
  }

  /** The vertex buffer after emitting the faces `fs` in order. */
  function Vertices(fs: seq<Face>): (r: seq<real>)
    ensures |r| == 24 * |fs|
    decreases |fs|, 1
  {
    if fs == [] then [] else VerticesLast(fs)
  }

  /** The vertex buffer of a non-empty face list: that of all faces but
      the last, followed by the last face's floats. (A separate step of the
      recursion, so that a mention of `Vertices` does not unfold down to
      individual floats.) */
  function VerticesLast(fs: seq<Face>): (r: seq<real>)
    requires fs != []
    ensures |r| == 24 * |fs|
    decreases |fs|, 0
  {
    Vertices(fs[..|fs| - 1]) + FaceVertices(fs[|fs| - 1])
  }

  /** The index buffer after emitting the faces `fs` in order: face `k`
      is built on the four vertices from `4 * k` on. */
  function Indices(fs: seq<Face>): (r: seq<int>)
    ensures |r| == 6 * |fs|
    decreases |fs|, 1
  {
    if fs == [] then [] else IndicesLast(fs)
  }

  /** The index buffer of a non-empty face list: that of all faces but
      the last, followed by the last face's six indices. */
  function IndicesLast(fs: seq<Face>): (r: seq<int>)
    requires fs != []
    ensures |r| == 6 * |fs|
    decreases |fs|, 0
  {
    Indices(fs[..|fs| - 1]) + FaceIndices(fs[|fs| - 1], 4 * (|fs| - 1))
  }

  /** Every index names a vertex of the buffer: the faces `fs` write
      `4 * |fs|` vertices, and every index is below that. */
  lemma {:induction false} IndicesRange(fs: seq<Face>)
    ensures forall q :: 0 <= q < |Indices(fs)| ==> 0 <= Indices(fs)[q] < 4 * |fs|
  {
    if fs != [] {
      var init := fs[..|fs| - 1];
      IndicesRange(init);
      var a, b := Indices(init), FaceIndices(fs[|fs| - 1], 4 * (|fs| - 1));
      FaceIndicesRange(fs[|fs| - 1], 4 * (|fs| - 1));
      assert Indices(fs) == a + b;
      forall q | 0 <= q < |a| + 6 ensures 0 <= (a + b)[q] < 4 * |fs| {
        if q < |a| {
          assert (a + b)[q] == a[q];
        } else {
          assert (a + b)[q] == b[q - |a|];
        }
      }
    }
  }

  /** Emitting one more face appends its 24 floats to the vertex buffer. */
  lemma VerticesSnoc(fs: seq<Face>, f: Face)
    ensures Vertices(fs + [f]) == Vertices(fs) + FaceVertices(f)
  {
    assert (fs + [f])[..|fs|] == fs;
  }

  /** Emitting one more face appends its 6 indices, built on the first
      vertex it adds, `4 * |fs|`. */
  lemma IndicesSnoc(fs: seq<Face>, f: Face)
    ensures Indices(fs + [f]) == Indices(fs) + FaceIndices(f, 4 * |fs|)
  {
    assert (fs + [f])[..|fs|] == fs;
  }

  /** Face `k` of the list owns floats `[24 k, 24 k + 24)` of the vertex
      buffer. */
  lemma {:induction false} VerticesAt(fs: seq<Face>, k: int)
    requires 0 <= k < |fs|
    ensures Vertices(fs)[24 * k .. 24 * k + 24] == FaceVertices(fs[k])
  {
    var init := fs[..|fs| - 1];
    var a, b := Vertices(init), FaceVertices(fs[|fs| - 1]);
    assert Vertices(fs) == a + b;
    AppendSlice(a, b, 24 * k, 24 * k + 24);
    if k < |fs| - 1 {
      VerticesAt(init, k);
      assert init[k] == fs[k];
    }
  }

  /** Face `k` of the list owns indices `[6 k, 6 k + 6)` of the index
      buffer, built on its own four vertices from `4 * k` on. */
  lemma {:induction false} IndicesAt(fs: seq<Face>, k: int)
    requires 0 <= k < |fs|
    ensures Indices(fs)[6 * k .. 6 * k + 6] == FaceIndices(fs[k], 4 * k)
  {
    var init := fs[..|fs| - 1];
    var a, b := Indices(init), FaceIndices(fs[|fs| - 1], 4 * (|fs| - 1));
    assert Indices(fs) == a + b;
    AppendSlice(a, b, 6 * k, 6 * k + 6);
    if k < |fs| - 1 {
      IndicesAt(init, k);
      assert init[k] == fs[k];
    }
  }

  /** The face emitted for the rectangle `r` of the mask of plane `t`:
      everything is read at the rectangle's start corner after `x[d]++`,
      i.e. in plane `t + 1`. The face is positive when that voxel is
      solid, and takes its recorded colour or the default one. */
  function PlaneFace(solid: Lattice, colors: map<Point, Color>, d: Axis, t: int, r: Rect): Face
    requires WellFormed(solid)
  {
    var x := Cell(d, t + 1, r.i, r.j);
    Face(d, Occupied(solid, x), x, Along(U(d), r.w), Along(V(d), r.h), GetColor(x, d, colors))
  }

  /** The faces emitted for the rectangles `rs` of plane `t`, in order. */
  function FacesOf(solid: Lattice, colors: map<Point, Color>, d: Axis, t: int, rs: seq<Rect>): (fs: seq<Face>)
    requires WellFormed(solid)
    ensures |fs| == |rs|
  {
    if rs == [] then []
    else FacesOf(solid, colors, d, t, rs[..|rs| - 1]) + [PlaneFace(solid, colors, d, t, rs[|rs| - 1])]
  }

  /** Face `k` of a plane is the face of its rectangle `k`. */
  lemma {:induction false} FacesOfIndex(solid: Lattice, colors: map<Point, Color>, d: Axis, t: int, rs: seq<Rect>, k: int)
    requires WellFormed(solid) && 0 <= k < |rs|
    ensures FacesOf(solid, colors, d, t, rs)[k] == PlaneFace(solid, colors, d, t, rs[k])
  {
    if k < |rs| - 1 {
      FacesOfIndex(solid, colors, d, t, rs[..|rs| - 1], k);
    }
  }

  /** The faces the merge loop emits for a plane whose mask is `m`. */
  function MaskFaces(solid: Lattice, colors: map<Point, Color>, d: Axis, t: int, m: seq<bool>): seq<Face>
    requires WellFormed(solid) && |m| == MaskLength
  {
    FacesOf(solid, colors, d, t, Scan(m, 0, 0).rects)
  }

  /** The faces emitted for plane `t`. */
  function PlaneFaces(solid: Lattice, colors: map<Point, Color>, d: Axis, t: int): seq<Face>
    requires WellFormed(solid)
  {
    MaskFaces(solid, colors, d, t, PlaneMask(solid, d, t))
  }

  /** The faces emitted for the planes `-1 .. t - 1` of axis `d`. */
  function PlanesUpTo(solid: Lattice, colors: map<Point, Color>, d: Axis, t: int): seq<Face>
    requires WellFormed(solid) && -1 <= t
    decreases |solid|, t
  {
    if t == -1 then [] else PlanesUpTo(solid, colors, d, t - 1) + PlaneFaces(solid, colors, d, t - 1)
  }

  /** `generateDirectionMesh`: the faces of the planes `-1 .. Size - 1`. */
  function AxisFaces(solid: Lattice, colors: map<Point, Color>, d: Axis): seq<Face>
    requires WellFormed(solid)
  {
    PlanesUpTo(solid, colors, d, Size)
  }

  /** The faces of the axes `0 .. n - 1`, in axis order. */
  function AxesUpTo(solid: Lattice, colors: map<Point, Color>, n: int): seq<Face>
    requires WellFormed(solid) && 0 <= n <= 3
    decreases |solid|, n
  {
    if n == 0 then [] else AxesUpTo(solid, colors, n - 1) + AxisFaces(solid, colors, n - 1)
  }

  /** `generateMesh`: every face the greedy mesher emits for `cubes`. */
  function MeshFaces(cubes: seq<Cube>): seq<Face> {
    AxesUpTo(SolidOf(cubes), ColorsOf(cubes), 3)
  }
}
