/** The value records shared by the chunk grid and the two meshers: a colour,
    a world position and the cube record with the fields the core reads. */
module Primitive {

  /** An RGB colour of three float32 components, modelled as exact reals. */
  datatype Color = Color(r: real, g: real, b: real)

  /** A world-space position (three float32 components, modelled as reals). */
  datatype Vec3 = Vec3(x: real, y: real, z: real)

  /** A cube: centre position, edge length and colour. */
  datatype Cube = Cube(x: real, y: real, z: real, size: real, color: Color)

  /** The zero value `Cube{}` of the source: every field is zero. */
  const ZeroCube := Cube(0.0, 0.0, 0.0, 0.0, Color(0.0, 0.0, 0.0))

  /** Conversion of a float to an integer, truncating toward zero. */
  function Trunc(f: real): (n: int)
    ensures 0.0 <= f ==> 0 <= n && n as real <= f < n as real + 1.0
    ensures f < 0.0 ==> n <= 0 && n as real - 1.0 < f <= n as real
  {
    if 0.0 <= f then f.Floor else -((-f).Floor)
  }

  /** Concatenation is associative; stated once so that callers need not
      compare sequences element by element. */
  lemma AppendAssoc<T>(a: seq<T>, b: seq<T>, c: seq<T>)
    ensures (a + b) + c == a + (b + c)
  {
  }

  /** A slice of a concatenation that lies in one operand is a slice of
      that operand. */
  lemma AppendSlice<T>(a: seq<T>, b: seq<T>, lo: int, hi: int)
    requires 0 <= lo <= hi <= |a| + |b|
    ensures hi <= |a| ==> (a + b)[lo..hi] == a[lo..hi]
    ensures |a| <= lo ==> (a + b)[lo..hi] == b[lo - |a|..hi - |a|]
  {
    if hi <= |a| {
      assert forall q :: lo <= q < hi ==> (a + b)[q] == a[q];
    }
    if |a| <= lo {
      assert forall q :: lo <= q < hi ==> (a + b)[q] == b[q - |a|];
    }
  }
}
