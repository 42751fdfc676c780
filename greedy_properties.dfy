/** Whole-mesh properties of the greedy mesher (renderer/greedy.go): an
    empty cube list yields no face at all, and a lone cube yields exactly
    its six unit faces, in the order the sweeps emit them. */
module GreedyProperties {
  import opened Primitive
  import opened GreedyLattice
  import opened GreedyMerge
  import opened GreedyFaces

  /** A rectangle inside the plane covers at least one cell, and exactly
      one only when it is `1 x 1`. */
  lemma RectArea(r: Rect)
    requires Within(r)
    ensures r.w * r.h >= 1
    ensures r.w * r.h == 1 ==> r.w == 1 && r.h == 1
  {
    assert r.w * r.h == r.w * (r.h - 1) + r.w;
    assert r.w * (r.h - 1) >= 0;
    assert r.w * r.h == (r.w - 1) * r.h + r.h;
    assert (r.w - 1) * r.h >= 0;
  }

  /** The area of rectangles inside the plane bounds their number. */
  lemma {:induction false} AreaBoundsCount(rs: seq<Rect>)
    requires forall k :: 0 <= k < |rs| ==> Within(rs[k])
    ensures |rs| <= Area(rs)
  {
    if rs != [] {
      RectArea(rs[0]);
      AreaBoundsCount(rs[1..]);
    }
  }

  /** A plane with no solid/empty boundary emits no face. */
  lemma PlaneNoBoundary(solid: Lattice, colors: map<Point, Color>, d: Axis, t: int)
    requires WellFormed(solid)
    requires forall a, b :: 0 <= a < Size && 0 <= b < Size ==> !Boundary(solid, d, t, a, b)
    ensures PlaneFaces(solid, colors, d, t) == []
  {
    var m := PlaneMask(solid, d, t);
    CountNone(m);
    MergePartition(m);
    AreaBoundsCount(Scan(m, 0, 0).rects);
  }

  /** A plane whose only boundary cell is `(a0, b0)` emits one face: that of
      the `1 x 1` rectangle at the cell. */
  lemma PlaneOneBoundary(solid: Lattice, colors: map<Point, Color>, d: Axis, t: int, a0: int, b0: int)
    requires WellFormed(solid) && 0 <= a0 < Size && 0 <= b0 < Size
    requires forall a, b :: 0 <= a < Size && 0 <= b < Size ==> (Boundary(solid, d, t, a, b) <==> a == a0 && b == b0)
    ensures PlaneFaces(solid, colors, d, t) == [PlaneFace(solid, colors, d, t, Rect(a0, b0, 1, 1))]
  {
    var m := PlaneMask(solid, d, t);
    CountOne(m, a0, b0);
    MergePartition(m);
    var rs := Scan(m, 0, 0).rects;
    AreaBoundsCount(rs);
    assert |rs| == 1;
    var r := rs[0];
    RectArea(r);
    assert r.w == 1 && r.h == 1;
    assert Covers(r, r.i, r.j);
    assert m[Idx(r.i, r.j)];
    assert r == Rect(a0, b0, 1, 1);
    assert rs == [r];
    assert FacesOf(solid, colors, d, t, rs) == FacesOf(solid, colors, d, t, []) + [PlaneFace(solid, colors, d, t, r)];
  }

  /** Planes `-1 .. t - 1` of an axis with no boundary emit no face. */
  lemma {:induction false} PlanesUpToNone(solid: Lattice, colors: map<Point, Color>, d: Axis, t: int)
    requires WellFormed(solid) && -1 <= t
    requires forall p :: !Occupied(solid, p)
    ensures PlanesUpTo(solid, colors, d, t) == []
    decreases t
  {
    if t > -1 {
      PlanesUpToNone(solid, colors, d, t - 1);
      PlaneNoBoundary(solid, colors, d, t - 1);
    }
  }

  /** A lattice with no solid voxel yields no face on any axis. */
  lemma {:induction false} AxesUpToNone(solid: Lattice, colors: map<Point, Color>, n: int)
    requires WellFormed(solid) && 0 <= n <= 3
    requires forall p :: !Occupied(solid, p)
    ensures AxesUpTo(solid, colors, n) == []
  {
    if n > 0 {
      AxesUpToNone(solid, colors, n - 1);
      PlanesUpToNone(solid, colors, n - 1, Size);
    }
  }

  /** An empty cube list gives an empty mesh: no face, so no vertex and no
      index. */
  lemma EmptyCubes()
    ensures MeshFaces([]) == []
    ensures Vertices(MeshFaces([])) == [] && Indices(MeshFaces([])) == []
  {
    AxesUpToNone(SolidOf([]), ColorsOf([]), 3);
  }

  /** The two faces a lone cube at `p` with colour `c` gets on axis `d`:
      the positive face at its own voxel, in its colour, then the negative
      face one step further along `d`, where the colour lookup finds no
      cube and falls back to the default colour. */
  function LoneFaces(p: Point, c: Color, d: Axis): (fs: seq<Face>)
    ensures |fs| == 2
  {
    [Face(d, true, p, Along(U(d), 1), Along(V(d), 1), c),
     Face(d, false, p.Add(Along(d, 1)), Along(U(d), 1), Along(V(d), 1), DefaultColor)]
  }

  /** `solid` holds exactly one solid voxel, at `p`. */
  ghost predicate Lone(solid: Lattice, p: Point)
    requires WellFormed(solid)
  {
    forall q :: Occupied(solid, q) <==> q == p
  }

  /** The lattice and colour map built from a single in-volume cube. */
  lemma LoneLattice(c: Cube)
    requires InVolume(Voxel(c))
    ensures Lone(SolidOf([c]), Voxel(c))
    ensures ColorsOf([c]) == map[Voxel(c) := c.color]
  {
    assert [c][..0] == [];
  }

  /** The boundaries of a lattice with one solid voxel at `p`: the planes
      just before and just at `p` along `d`, at `p`'s in-plane position
      only. */
  lemma LoneBoundary(solid: Lattice, p: Point, d: Axis, t: int)
    requires WellFormed(solid) && Lone(solid, p)
    ensures forall a, b :: 0 <= a < Size && 0 <= b < Size ==>
      (Boundary(solid, d, t, a, b) <==> (t == p.At(d) - 1 || t == p.At(d)) && a == p.At(U(d)) && b == p.At(V(d)))
  {
    forall a, b | 0 <= a < Size && 0 <= b < Size
      ensures Boundary(solid, d, t, a, b) <==> (t == p.At(d) - 1 || t == p.At(d)) && a == p.At(U(d)) && b == p.At(V(d))
    {
      CellEq(d, t, a, b, p);
      CellEq(d, t + 1, a, b, p);
    }
  }

  /** The face the plane just before `p` along `d` emits for the unit
      rectangle at `p`, and the one the plane at `p` emits. */
  lemma LonePlaneFaces(solid: Lattice, p: Point, col: Color, d: Axis)
    requires WellFormed(solid) && Lone(solid, p) && InVolume(p)
    ensures PlaneFace(solid, map[p := col], d, p.At(d) - 1, Rect(p.At(U(d)), p.At(V(d)), 1, 1)) == LoneFaces(p, col, d)[0]
    ensures PlaneFace(solid, map[p := col], d, p.At(d), Rect(p.At(U(d)), p.At(V(d)), 1, 1)) == LoneFaces(p, col, d)[1]
  {
    var a, b := p.At(U(d)), p.At(V(d));
    CellEq(d, p.At(d), a, b, p);
    CellEq(d, p.At(d) + 1, a, b, p);
    CellAddAlong(d, p.At(d), a, b);
  }

  /** The faces plane `t` of axis `d` emits around a lone voxel: its
      positive face from the plane just before it, its negative face from
      the plane at it, and nothing from any other plane. */
  lemma LonePlane(solid: Lattice, p: Point, col: Color, d: Axis, t: int)
    requires WellFormed(solid) && Lone(solid, p) && InVolume(p)
    ensures PlaneFaces(solid, map[p := col], d, t) ==
      if t == p.At(d) - 1 then LoneFaces(p, col, d)[..1]
      else if t == p.At(d) then LoneFaces(p, col, d)[1..]
      else []
  {
    LoneBoundary(solid, p, d, t);
    if t == p.At(d) - 1 || t == p.At(d) {
      LonePlaneFaces(solid, p, col, d);
      PlaneOneBoundary(solid, map[p := col], d, t, p.At(U(d)), p.At(V(d)));
    } else {
      PlaneNoBoundary(solid, map[p := col], d, t);
    }
  }

  /** Planes `-1 .. t - 1` of axis `d` around a lone voxel: nothing before
      it, then its positive face, then its negative face. */
  lemma {:induction false} LonePlanesUpTo(solid: Lattice, p: Point, col: Color, d: Axis, t: int)
    requires WellFormed(solid) && Lone(solid, p) && InVolume(p) && -1 <= t
    ensures PlanesUpTo(solid, map[p := col], d, t) ==
      if t < p.At(d) then []
      else if t == p.At(d) then LoneFaces(p, col, d)[..1]
      else LoneFaces(p, col, d)
    decreases t
  {
    if t > -1 {
      LonePlanesUpTo(solid, p, col, d, t - 1);
      LonePlane(solid, p, col, d, t - 1);
      if t - 1 == p.At(d) {
        assert LoneFaces(p, col, d)[..1] + LoneFaces(p, col, d)[1..] == LoneFaces(p, col, d);
      }
    }
  }

  /** The faces of all three axes, in axis order. */
  lemma AxesUpToAll(solid: Lattice, colors: map<Point, Color>)
    requires WellFormed(solid)
    ensures AxesUpTo(solid, colors, 3) ==
      AxisFaces(solid, colors, 0) + AxisFaces(solid, colors, 1) + AxisFaces(solid, colors, 2)
  {
    assert AxesUpTo(solid, colors, 1) == AxisFaces(solid, colors, 0);
  }

  /** A lone cube in the volume gives exactly six faces, two per axis in
      axis order: 6 quads, 24 vertices (144 floats) and 36 indices. */
  lemma LoneCube(c: Cube)
    requires InVolume(Voxel(c))
    ensures MeshFaces([c]) ==
      LoneFaces(Voxel(c), c.color, 0) + LoneFaces(Voxel(c), c.color, 1) + LoneFaces(Voxel(c), c.color, 2)
    ensures |MeshFaces([c])| == 6
    ensures |Vertices(MeshFaces([c]))| == 144 && |Indices(MeshFaces([c]))| == 36
  {
    var p, solid, colors := Voxel(c), SolidOf([c]), ColorsOf([c]);
    LoneLattice(c);
    AxesUpToAll(solid, colors);
    LonePlanesUpTo(solid, p, c.color, 0, Size);
    LonePlanesUpTo(solid, p, c.color, 1, Size);
    LonePlanesUpTo(solid, p, c.color, 2, Size);
  }

  /** Every colour the map records is that of a solid cell. */
  ghost predicate ColorsOnSolid(solid: Lattice, colors: map<Point, Color>)
    requires WellFormed(solid)
  {
    forall p :: p in colors ==> Occupied(solid, p)
  }

  /** Every negative face of `fs` carries the default colour. */
  ghost predicate NegativeDefault(fs: seq<Face>) {
    forall f :: f in fs && !f.positive ==> f.color == DefaultColor
  }

  /** The colour map of a cube list records solid cells only. */
  lemma ColorsAreSolid(cubes: seq<Cube>)
    ensures ColorsOnSolid(SolidOf(cubes), ColorsOf(cubes))
  {
    forall p | p in ColorsOf(cubes) ensures Occupied(SolidOf(cubes), p) {
      ColorsOfKeys(cubes, p);
      SolidOfCell(cubes, p);
    }
  }

  /** The faces of one plane: a negative face is read at an empty cell,
      which has no recorded colour, so it gets the default colour. */
  lemma {:induction false} FacesOfNegative(solid: Lattice, colors: map<Point, Color>, d: Axis, t: int, rs: seq<Rect>)
    requires WellFormed(solid) && ColorsOnSolid(solid, colors)
    ensures NegativeDefault(FacesOf(solid, colors, d, t, rs))
  {
    if rs != [] {
      FacesOfNegative(solid, colors, d, t, rs[..|rs| - 1]);
    }
  }

  lemma {:induction false} PlanesUpToNegative(solid: Lattice, colors: map<Point, Color>, d: Axis, t: int)
    requires WellFormed(solid) && ColorsOnSolid(solid, colors) && -1 <= t
    ensures NegativeDefault(PlanesUpTo(solid, colors, d, t))
    decreases t
  {
    if t > -1 {
      PlanesUpToNegative(solid, colors, d, t - 1);
      FacesOfNegative(solid, colors, d, t - 1, Scan(PlaneMask(solid, d, t - 1), 0, 0).rects);
    }
  }

  lemma {:induction false} AxesUpToNegative(solid: Lattice, colors: map<Point, Color>, n: int)
    requires WellFormed(solid) && ColorsOnSolid(solid, colors) && 0 <= n <= 3
    ensures NegativeDefault(AxesUpTo(solid, colors, n))
  {
    if n > 0 {
      AxesUpToNegative(solid, colors, n - 1);
      PlanesUpToNegative(solid, colors, n - 1, Size);
    }
  }

  /** Whatever the cube list, every negative face of the mesh carries the
      default colour (1, 0, 0): the quad colour is read past the plane, at
      the empty side of a negative face. */
  lemma NegativeFacesDefault(cubes: seq<Cube>)
    ensures forall f :: f in MeshFaces(cubes) && !f.positive ==> f.color == DefaultColor
  {
    ColorsAreSolid(cubes);
    AxesUpToNegative(SolidOf(cubes), ColorsOf(cubes), 3);
  }
}
