/** The working volume of the greedy mesher (renderer/greedy.go): integer
    points, the three axes, the boolean solidity lattice filled from a cube
    list, and the colour lookup. */
module GreedyLattice {
  import opened Primitive

  /** The side of the working volume (`expandedChunkSize`). */
  const Size: int := 15

  /** An axis index: 0 is x, 1 is y, 2 is z. */
  type Axis = d: int | 0 <= d < 3

  /** The first in-plane axis of a sweep along `d`. */
  function U(d: Axis): Axis { (d + 1) % 3 }

  /** The second in-plane axis of a sweep along `d`. */
  function V(d: Axis): Axis { (d + 2) % 3 }

  /** An integer lattice point (the `[3]int` arrays of the source). */
  datatype Point = Point(x: int, y: int, z: int) {
    function At(d: Axis): int {
      if d == 0 then x else if d == 1 then y else z
    }
    function Add(o: Point): Point {
      Point(x + o.x, y + o.y, z + o.z)
    }
  }

  /** The point whose coordinate along `d` is `t`, along `U(d)` is `a` and
      along `V(d)` is `b`. */
  function Cell(d: Axis, t: int, a: int, b: int): (p: Point)
    ensures p.At(d) == t && p.At(U(d)) == a && p.At(V(d)) == b
  {
    if d == 0 then Point(t, a, b) else if d == 1 then Point(b, t, a) else Point(a, b, t)
  }

  /** The vector of length `len` along axis `e` (`du`, `dv`, `q`). */
  function Along(e: Axis, len: int): (p: Point)
    ensures p.At(e) == len
    ensures forall f: Axis :: f != e ==> p.At(f) == 0
  {
    if e == 0 then Point(len, 0, 0) else if e == 1 then Point(0, len, 0) else Point(0, 0, len)
  }

  lemma CellAddAlong(d: Axis, t: int, a: int, b: int)
    ensures Cell(d, t, a, b).Add(Along(d, 1)) == Cell(d, t + 1, a, b)
  {
  }

  lemma CellEq(d: Axis, t: int, a: int, b: int, p: Point)
    ensures Cell(d, t, a, b) == p <==> t == p.At(d) && a == p.At(U(d)) && b == p.At(V(d))
  {
  }

  predicate InVolume(p: Point) {
    0 <= p.x < Size && 0 <= p.y < Size && 0 <= p.z < Size
  }

  /** The solidity lattice, indexed `[x][y][z]`. */
  type Lattice = seq<seq<seq<bool>>>

  predicate WellFormed(s: Lattice) {
    |s| == Size &&
    (forall a :: 0 <= a < Size ==> |s[a]| == Size) &&
    (forall a, b :: 0 <= a < Size && 0 <= b < Size ==> |s[a][b]| == Size)
  }

  /** A point is occupied when it lies in the volume and its cell is solid;
      every point outside the volume reads as empty. */
  predicate Occupied(s: Lattice, p: Point)
    requires WellFormed(s)
  {
    InVolume(p) && s[p.x][p.y][p.z]
  }

  /** The all-empty lattice (three nested `make` calls). */
  function EmptyLattice(): (s: Lattice)
    ensures WellFormed(s)
    ensures forall p :: !Occupied(s, p)
  {
    seq(Size, _ => seq(Size, _ => seq(Size, _ => false)))
  }

  /** The lattice with the cell at `p` set solid. */
  function MarkSolid(s: Lattice, p: Point): (r: Lattice)
    requires WellFormed(s) && InVolume(p)
    ensures WellFormed(r)
    ensures forall q :: Occupied(r, q) <==> q == p || Occupied(s, q)
  {
    s[p.x := s[p.x][p.y := s[p.x][p.y][p.z := true]]]
  }

  /** `isNotEmptyBlock`: only the coordinate along `d` is checked against
      zero; the source never passes a negative in-plane coordinate (it would
      index out of range), so that is demanded here. */
  function IsNotEmptyBlock(x: Point, d: Axis, solid: Lattice): (r: bool)
    requires WellFormed(solid)
    requires x.At(U(d)) >= 0 && x.At(V(d)) >= 0
    ensures r <==> Occupied(solid, x)
  {
    x.At(d) >= 0 && x.x < |solid| && x.y < |solid| && x.z < |solid| && solid[x.x][x.y][x.z]
  }

  /** The colour used when no cube colour is recorded for a point. */
  const DefaultColor := Color(1.0, 0.0, 0.0)

  /** `getColor`: the recorded colour of `x`, or the default colour when
      `x` lies outside the volume or has no recorded colour. */
  function GetColor(x: Point, d: Axis, cubeColors: map<Point, Color>): (c: Color)
    ensures InVolume(x) && x in cubeColors ==> c == cubeColors[x]
    ensures !InVolume(x) || x !in cubeColors ==> c == DefaultColor
  {
    if 0 <= x.At(d) < Size && 0 <= x.x < Size && 0 <= x.y < Size && 0 <= x.z < Size && x in cubeColors
    then cubeColors[x]
    else DefaultColor
  }

  /** The lattice cell a cube is rasterised into: its position truncated
      toward zero. */
  function Voxel(c: Cube): Point {
    Point(Trunc(c.x), Trunc(c.y), Trunc(c.z))
  }

  /** The lattice `populateSolidAndColors` builds from `cubes`. */
  function SolidOf(cubes: seq<Cube>): (s: Lattice)
    ensures WellFormed(s)
  {
    if cubes == [] then EmptyLattice()
    else
      var s := SolidOf(cubes[..|cubes| - 1]);
      var p := Voxel(cubes[|cubes| - 1]);
      if InVolume(p) then MarkSolid(s, p) else s
  }

  /** The colour map `populateSolidAndColors` builds from `cubes`. */
  function ColorsOf(cubes: seq<Cube>): map<Point, Color> {
    if cubes == [] then map[]
    else
      var m := ColorsOf(cubes[..|cubes| - 1]);
      var c := cubes[|cubes| - 1];
      if InVolume(Voxel(c)) then m[Voxel(c) := c.color] else m
  }

  /** A cell is solid exactly when some cube of the list is rasterised into
      it and lies in the volume; every other cube is dropped. */
  lemma {:induction false} SolidOfCell(cubes: seq<Cube>, p: Point)
    ensures Occupied(SolidOf(cubes), p) <==>
      InVolume(p) && exists k :: 0 <= k < |cubes| && Voxel(cubes[k]) == p
  {
    if cubes != [] {
      var init := cubes[..|cubes| - 1];
      SolidOfCell(init, p);
      if InVolume(p) && exists k :: 0 <= k < |cubes| && Voxel(cubes[k]) == p {
        var k :| 0 <= k < |cubes| && Voxel(cubes[k]) == p;
        if k < |cubes| - 1 {
          assert init[k] == cubes[k];
        }
      }
      if exists k :: 0 <= k < |init| && Voxel(init[k]) == p {
        var k :| 0 <= k < |init| && Voxel(init[k]) == p;
        assert cubes[k] == init[k];
      }
    }
  }

  /** The colour map records exactly the in-volume cells of the cubes. */
  lemma {:induction false} ColorsOfKeys(cubes: seq<Cube>, p: Point)
    ensures p in ColorsOf(cubes) <==>
      InVolume(p) && exists k :: 0 <= k < |cubes| && Voxel(cubes[k]) == p
  {
    if cubes != [] {
      var init := cubes[..|cubes| - 1];
      ColorsOfKeys(init, p);
      if InVolume(p) && exists k :: 0 <= k < |cubes| && Voxel(cubes[k]) == p {
        var k :| 0 <= k < |cubes| && Voxel(cubes[k]) == p;
        if k < |cubes| - 1 {
          assert init[k] == cubes[k];
        }
      }
      if exists k :: 0 <= k < |init| && Voxel(init[k]) == p {
        var k :| 0 <= k < |init| && Voxel(init[k]) == p;
        assert cubes[k] == init[k];
      }
    }
  }

  /** The colour recorded for a cell is that of the LAST cube of the list
      rasterised into it: a later cube overwrites an earlier one. */
  lemma {:induction false} ColorsOfLast(cubes: seq<Cube>, k: int)
    requires 0 <= k < |cubes| && InVolume(Voxel(cubes[k]))
    requires forall k' :: k < k' < |cubes| ==> Voxel(cubes[k']) != Voxel(cubes[k])
    ensures Voxel(cubes[k]) in ColorsOf(cubes)
    ensures ColorsOf(cubes)[Voxel(cubes[k])] == cubes[k].color
  {
    if k < |cubes| - 1 {
      var init := cubes[..|cubes| - 1];
      assert init[k] == cubes[k];
      forall k' | k < k' < |init| ensures Voxel(init[k']) != Voxel(init[k]) {
        assert init[k'] == cubes[k'];
      }
      ColorsOfLast(init, k);
    }
  }
}
