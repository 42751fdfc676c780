/** The chunk grid of pkg/primitive/chunk.go: a fixed 16 x 16 x 16 block of
    cubes at a world position, with bounds-checked cell access and a query
    that tells whether a cell's face borders an empty cell or the chunk's
    edge. */
module Chunks {
  import opened Primitive

  /** The side of a chunk, in cells. */
  const ChunkSize: int := 16

  predicate InChunk(x: int, y: int, z: int) {
    0 <= x < ChunkSize && 0 <= y < ChunkSize && 0 <= z < ChunkSize
  }

  datatype Option<T> = None | Some(value: T)

  /** The step from a cell to its neighbour across a face. */
  datatype Step = Step(dx: int, dy: int, dz: int)

  /** The six face names the chunk understands and the neighbour each one
      faces; any other name is unknown. */
  function FaceStep(face: string): (s: Option<Step>)
    ensures s.Some? ==> s.value.dx * s.value.dx + s.value.dy * s.value.dy + s.value.dz * s.value.dz == 1
  {
    if face == "left" then Some(Step(-1, 0, 0))
    else if face == "right" then Some(Step(1, 0, 0))
    else if face == "bottom" then Some(Step(0, -1, 0))
    else if face == "top" then Some(Step(0, 1, 0))
    else if face == "back" then Some(Step(0, 0, -1))
    else if face == "front" then Some(Step(0, 0, 1))
    else None
  }

  /** The cell across `face` from `(x, y, z)` lies outside the chunk while
      `(x, y, z)` itself lies inside: the cell is on the chunk's edge on
      that side. */
  predicate OnEdge(x: int, y: int, z: int, s: Step) {
    !InChunk(x + s.dx, y + s.dy, z + s.dz)
  }

  /** `IsFaceExposed` reads the neighbour without a range check, but only
      when the cell is not on the edge that face looks at; a read outside
      the array would panic, so that read must be in range. */
  predicate FaceReadable(x: int, y: int, z: int, face: string) {
    if face == "left" then x == 0 || InChunk(x - 1, y, z)
    else if face == "right" then x == ChunkSize - 1 || InChunk(x + 1, y, z)
    else if face == "bottom" then y == 0 || InChunk(x, y - 1, z)
    else if face == "top" then y == ChunkSize - 1 || InChunk(x, y + 1, z)
    else if face == "back" then z == 0 || InChunk(x, y, z - 1)
    else if face == "front" then z == ChunkSize - 1 || InChunk(x, y, z + 1)
    else true
  }

  class Chunk {
    /** The cells, indexed `[x, y, z]`. */
    const blocks: array3<Cube>
    /** The chunk's position in the world; it is set once, at creation. */
    const position: Vec3

    predicate Valid() {
      blocks.Length0 == ChunkSize && blocks.Length1 == ChunkSize && blocks.Length2 == ChunkSize
    }

    /** `NewChunk`: every cell holds the zero cube. */
    constructor (position: Vec3)
      ensures Valid() && fresh(blocks)
      ensures this.position == position
      ensures forall x, y, z :: InChunk(x, y, z) ==> blocks[x, y, z] == ZeroCube
    {
      this.position := position;
      blocks := new Cube[ChunkSize, ChunkSize, ChunkSize]((_, _, _) => ZeroCube);
    }

    /** `SetBlock`: an in-chunk write replaces that one cell; a write with
        any coordinate outside the chunk is ignored. */
    method SetBlock(x: int, y: int, z: int, cube: Cube)
      requires Valid()
      modifies blocks
      ensures forall a, b, c :: InChunk(a, b, c) ==>
        blocks[a, b, c] == (if InChunk(x, y, z) && a == x && b == y && c == z then cube else old(blocks[a, b, c]))
      ensures forall a, b, c ::
        GetBlock(a, b, c) == (if InChunk(x, y, z) && a == x && b == y && c == z then cube else old(GetBlock(a, b, c)))
      ensures !InChunk(x, y, z) ==> unchanged(blocks)
    {
      if 0 <= x < ChunkSize && 0 <= y < ChunkSize && 0 <= z < ChunkSize {
        blocks[x, y, z] := cube;
      }
    }

    /** `GetBlock`: the cell at `(x, y, z)`, or the zero cube (whose size
        is 0) for any coordinate outside the chunk. */
    function GetBlock(x: int, y: int, z: int): (r: Cube)
      requires Valid()
      reads blocks
      ensures InChunk(x, y, z) ==> r == blocks[x, y, z]
      ensures !InChunk(x, y, z) ==> r == ZeroCube && r.size == 0.0
    {
      if 0 <= x < ChunkSize && 0 <= y < ChunkSize && 0 <= z < ChunkSize then blocks[x, y, z] else ZeroCube
    }

    /** `WorldPosition`: the position the chunk was created with. */
    function WorldPosition(): (p: Vec3)
      ensures p == position
    {
      position
    }

    /** `IsFaceExposed`: a known face of a cell is exposed exactly when the
        neighbour across it lies outside the chunk or holds an empty
        (size 0) cube; in particular every face on the chunk's edge is
        exposed. An unknown face name is never exposed. */
    function IsFaceExposed(x: int, y: int, z: int, face: string): (r: bool)
      requires Valid() && FaceReadable(x, y, z, face)
      reads blocks
      ensures FaceStep(face).None? ==> !r
      ensures FaceStep(face).Some? ==>
        var s := FaceStep(face).value;
        (r <==> OnEdge(x, y, z, s) || GetBlock(x + s.dx, y + s.dy, z + s.dz).size == 0.0)
      ensures InChunk(x, y, z) && FaceStep(face).Some? && OnEdge(x, y, z, FaceStep(face).value) ==> r
    {
      if face == "left" then x == 0 || blocks[x - 1, y, z].size == 0.0
      else if face == "right" then x == ChunkSize - 1 || blocks[x + 1, y, z].size == 0.0
      else if face == "bottom" then y == 0 || blocks[x, y - 1, z].size == 0.0
      else if face == "top" then y == ChunkSize - 1 || blocks[x, y + 1, z].size == 0.0
      else if face == "back" then z == 0 || blocks[x, y, z - 1].size == 0.0
      else if face == "front" then z == ChunkSize - 1 || blocks[x, y, z + 1].size == 0.0
      else false
    }
  }

  /** The edge cells of each face are exposed whatever the chunk holds:
      left at x = 0, right at x = 15, bottom at y = 0, top at y = 15, back
      at z = 0, front at z = 15. */
  lemma EdgesExposed(ch: Chunk, x: int, y: int, z: int)
    requires ch.Valid() && InChunk(x, y, z)
    ensures x == 0 ==> ch.IsFaceExposed(x, y, z, "left")
    ensures x == ChunkSize - 1 ==> ch.IsFaceExposed(x, y, z, "right")
    ensures y == 0 ==> ch.IsFaceExposed(x, y, z, "bottom")
    ensures y == ChunkSize - 1 ==> ch.IsFaceExposed(x, y, z, "top")
    ensures z == 0 ==> ch.IsFaceExposed(x, y, z, "back")
    ensures z == ChunkSize - 1 ==> ch.IsFaceExposed(x, y, z, "front")
  {
  }

  /** An interior face is exposed exactly when the neighbouring cell holds
      a cube of size 0. */
  lemma InteriorExposed(ch: Chunk, x: int, y: int, z: int, face: string)
    requires ch.Valid() && InChunk(x, y, z) && FaceStep(face).Some?
    requires !OnEdge(x, y, z, FaceStep(face).value)
    ensures var s := FaceStep(face).value;
      ch.IsFaceExposed(x, y, z, face) <==> ch.blocks[x + s.dx, y + s.dy, z + s.dz].size == 0.0
  {
  }
}
