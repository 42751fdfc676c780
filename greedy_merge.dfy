/** The rectangle merge of one sweep plane (renderer/greedy.go): the face
    mask is a flat boolean buffer `visited` laid out row by row, with cell
    `(a, b)` (column `a` along U, row `b` along V) at index `b * Size + a`.
    Unvisited true cells are grown into rectangles, width first and then
    height, and each rectangle is cleared once it is emitted. */
module GreedyMerge {
  import opened GreedyLattice

  /** The length the source allocates for `visited`: `(Size + 1)^2`, with
      `Size` written out as 15 so that index arithmetic stays linear. */
  const MaskLength: int := 16 * 16

  /** The number of cells of a plane, `PlaneCells`; only these cells of
      `visited` are ever written or read. */
  const PlaneCells: int := 15 * 15

  /** The flat index of mask cell `(a, b)`, `b * Size + a`, written as
      fifteen copies of `b` so that the solver sees a linear term. */
  function Idx(a: int, b: int): int { b + b + b + b + b + b + b + b + b + b + b + b + b + b + b + a }

  function Col(k: int): int { k % 15 }

  function Row(k: int): int { k / 15 }

  lemma IdxInverse(a: int, b: int)
    requires 0 <= a < Size && 0 <= b < Size
    ensures 0 <= Idx(a, b) < PlaneCells
    ensures Col(Idx(a, b)) == a && Row(Idx(a, b)) == b
  {
  }

  lemma ColRowInverse(k: int)
    requires 0 <= k < PlaneCells
    ensures 0 <= Col(k) < Size && 0 <= Row(k) < Size && Idx(Col(k), Row(k)) == k
  {
  }

  /** Cell `(a, b)` comes before cell `(i, j)` in the row-major scan. */
  predicate Before(a: int, b: int, i: int, j: int) {
    b < j || (b == j && a < i)
  }

  /** Every mask cell before `(i, j)` in scan order is false. */
  ghost predicate ClearBefore(m: seq<bool>, i: int, j: int)
    requires |m| == MaskLength
  {
    forall a, b {:trigger m[Idx(a, b)]} :: 0 <= a < Size && 0 <= b < Size && Before(a, b, i, j) ==> !m[Idx(a, b)]
  }

  /** A merged rectangle: corner `(i, j)`, `w` cells along U, `h` along V. */
  datatype Rect = Rect(i: int, j: int, w: int, h: int)

  predicate Covers(r: Rect, a: int, b: int) {
    r.i <= a < r.i + r.w && r.j <= b < r.j + r.h
  }

  /** The rectangle is non-empty and lies in the plane. */
  predicate Within(r: Rect) {
    0 <= r.i && 1 <= r.w && r.i + r.w <= Size && 0 <= r.j && 1 <= r.h && r.j + r.h <= Size
  }

  /** The rectangle lies in the plane and every cell it covers is true. */
  ghost predicate Inside(m: seq<bool>, r: Rect)
    requires |m| == MaskLength
  {
    Within(r) && forall a, b {:trigger m[Idx(a, b)]} :: Covers(r, a, b) ==> m[Idx(a, b)]
  }

  /** Every cell of row `b` from column `i` on, `w` cells wide, is true. */
  predicate RowFull(m: seq<bool>, i: int, w: int, b: int)
    requires |m| == MaskLength && 0 <= i && i + w <= Size && 0 <= b < Size
  {
    forall a {:trigger m[Idx(a, b)]} :: i <= a < i + w ==> m[Idx(a, b)]
  }

  /** The width loop of `findWidthAndHeight`, continued from width `w`. */
  function WidthFrom(m: seq<bool>, i: int, j: int, w: int): (r: int)
    requires |m| == MaskLength && 0 <= i < Size && 0 <= j < Size && 1 <= w <= Size - i
    ensures w <= r <= Size - i
    decreases |m|, Size - i - w
  {
    if w + i < Size && m[Idx(i, j) + w] then WidthFrom(m, i, j, w + 1) else w
  }

  /** The run found from width `w` on is all true and stops at a false
      cell or at the edge of the plane. */
  lemma {:induction false} WidthFromFacts(m: seq<bool>, i: int, j: int, w: int)
    requires |m| == MaskLength && 0 <= i < Size && 0 <= j < Size && 1 <= w <= Size - i
    ensures forall a {:trigger m[Idx(a, j)]} :: i + w <= a < i + WidthFrom(m, i, j, w) ==> m[Idx(a, j)]
    ensures i + WidthFrom(m, i, j, w) < Size ==> !m[Idx(i + WidthFrom(m, i, j, w), j)]
    decreases |m|, Size - i - w
  {
    if w + i < Size && m[Idx(i, j) + w] {
      WidthFromFacts(m, i, j, w + 1);
    }
  }

  /** The width `findWidthAndHeight` computes for the cell `(i, j)`. */
  function Width(m: seq<bool>, i: int, j: int): (r: int)
    requires |m| == MaskLength && 0 <= i < Size && 0 <= j < Size
    ensures 1 <= r <= Size - i
  {
    WidthFrom(m, i, j, 1)
  }

  /** The height loop of `findWidthAndHeight`, continued from height `h`. */
  function HeightFrom(m: seq<bool>, i: int, j: int, w: int, h: int): (r: int)
    requires |m| == MaskLength && 0 <= i < Size && 0 <= j < Size
    requires 1 <= w <= Size - i && 1 <= h <= Size - j
    ensures h <= r <= Size - j
    decreases |m|, Size - j - h
  {
    if h + j < Size && RowFull(m, i, w, j + h) then HeightFrom(m, i, j, w, h + 1) else h
  }

  /** The rows added from height `h` on are full, and the row below the
      last one is not (or the edge of the plane is reached). */
  lemma {:induction false} HeightFromFacts(m: seq<bool>, i: int, j: int, w: int, h: int)
    requires |m| == MaskLength && 0 <= i < Size && 0 <= j < Size
    requires 1 <= w <= Size - i && 1 <= h <= Size - j
    ensures forall b :: j + h <= b < j + HeightFrom(m, i, j, w, h) ==> RowFull(m, i, w, b)
    ensures j + HeightFrom(m, i, j, w, h) < Size ==> !RowFull(m, i, w, j + HeightFrom(m, i, j, w, h))
    decreases |m|, Size - j - h
  {
    if h + j < Size && RowFull(m, i, w, j + h) {
      HeightFromFacts(m, i, j, w, h + 1);
    }
  }

  /** The height `findWidthAndHeight` computes for a run of width `w`. */
  function Height(m: seq<bool>, i: int, j: int, w: int): (r: int)
    requires |m| == MaskLength && 0 <= i < Size && 0 <= j < Size && 1 <= w <= Size - i
    ensures 1 <= r <= Size - j
  {
    HeightFrom(m, i, j, w, 1)
  }

  lemma GrowInside(m: seq<bool>, i: int, j: int, w: int, h: int)
    requires |m| == MaskLength && 0 <= i < Size && 0 <= j < Size
    requires w == Width(m, i, j) && h == Height(m, i, j, w)
    ensures m[Idx(i, j)] ==> Inside(m, Rect(i, j, w, h))
  {
    WidthFromFacts(m, i, j, 1);
    HeightFromFacts(m, i, j, w, 1);
    if m[Idx(i, j)] {
      forall a, b {:trigger m[Idx(a, b)]} | Covers(Rect(i, j, w, h), a, b) ensures m[Idx(a, b)] {
        if b > j {
          assert RowFull(m, i, w, b);
        } else if a > i {
          assert i < a < i + w;
        }
      }
    }
  }

  /** The rectangle `findWidthAndHeight` grows from the cell `(i, j)`. */
  function Grow(m: seq<bool>, i: int, j: int): (r: Rect)
    requires |m| == MaskLength && 0 <= i < Size && 0 <= j < Size
    ensures r.i == i && r.j == j && Within(r)
  {
    var w := Width(m, i, j);
    Rect(i, j, w, Height(m, i, j, w))
  }

  /** The rectangle grown from a true cell lies in the plane, covers only
      true cells, cannot be widened, and cannot be heightened by a whole row
      of its width. */
  lemma GrowFacts(m: seq<bool>, i: int, j: int)
    requires |m| == MaskLength && 0 <= i < Size && 0 <= j < Size && m[Idx(i, j)]
    ensures Inside(m, Grow(m, i, j))
    ensures i + Grow(m, i, j).w < Size ==> !m[Idx(i + Grow(m, i, j).w, j)]
    ensures j + Grow(m, i, j).h < Size ==> !RowFull(m, i, Grow(m, i, j).w, j + Grow(m, i, j).h)
  {
    var w := Width(m, i, j);
    WidthFromFacts(m, i, j, 1);
    HeightFromFacts(m, i, j, w, 1);
    GrowInside(m, i, j, w, Height(m, i, j, w));
  }

  /** The first `k` cells of the run starting at flat index `start` set
      false: the inner loop of `markAsVisited`. */
  function ClearRun(m: seq<bool>, start: int, k: int): (c: seq<bool>)
    requires 0 <= k && 0 <= start && start + k <= |m|
    ensures |c| == |m|
  {
    if k == 0 then m else ClearRun(m, start, k - 1)[start + k - 1 := false]
  }

  /** The first `l` rows of the rectangle set false: the outer loop of
      `markAsVisited`. */
  function ClearRows(m: seq<bool>, r: Rect, l: int): (c: seq<bool>)
    requires |m| == MaskLength && Within(r) && 0 <= l <= r.h
    ensures |c| == MaskLength
  {
    if l == 0 then m else ClearRun(ClearRows(m, r, l - 1), Idx(r.i, r.j + l - 1), r.w)
  }

  lemma {:induction false} ClearRunAt(m: seq<bool>, i: int, b: int, k: int, w: int)
    requires |m| == MaskLength && 0 <= i && 0 <= k <= w && i + w <= Size && 0 <= b < Size
    ensures forall a', b' {:trigger ClearRun(m, Idx(i, b), k)[Idx(a', b')]} :: 0 <= a' < Size && 0 <= b' < Size ==>
      ClearRun(m, Idx(i, b), k)[Idx(a', b')] == (m[Idx(a', b')] && !(b' == b && i <= a' < i + k))
    ensures forall q {:trigger ClearRun(m, Idx(i, b), k)[q]} :: PlaneCells <= q < MaskLength ==> ClearRun(m, Idx(i, b), k)[q] == m[q]
  {
    if k > 0 {
      ClearRunAt(m, i, b, k - 1, w);
    }
  }

  lemma {:induction false} ClearRowsAt(m: seq<bool>, r: Rect, l: int)
    requires |m| == MaskLength && Within(r) && 0 <= l <= r.h
    ensures forall a, b {:trigger ClearRows(m, r, l)[Idx(a, b)]} :: 0 <= a < Size && 0 <= b < Size ==>
      ClearRows(m, r, l)[Idx(a, b)] == (m[Idx(a, b)] && !Covers(Rect(r.i, r.j, r.w, l), a, b))
    ensures forall q {:trigger ClearRows(m, r, l)[q]} :: PlaneCells <= q < MaskLength ==> ClearRows(m, r, l)[q] == m[q]
  {
    if l > 0 {
      ClearRowsAt(m, r, l - 1);
      ClearRunAt(ClearRows(m, r, l - 1), r.i, r.j + l - 1, r.w, r.w);
    }
  }

  /** `markAsVisited`: the rows of the rectangle cleared one by one. */
  function ClearRect(m: seq<bool>, r: Rect): (c: seq<bool>)
    requires |m| == MaskLength && Within(r)
    ensures |c| == MaskLength
  {
    ClearRows(m, r, r.h)
  }

  /** Clearing a rectangle sets every cell it covers false and keeps every
      other cell, including the unused tail of the buffer. */
  lemma ClearRectAt(m: seq<bool>, r: Rect)
    requires |m| == MaskLength && Within(r)
    ensures forall a, b {:trigger ClearRect(m, r)[Idx(a, b)]} :: 0 <= a < Size && 0 <= b < Size ==>
      ClearRect(m, r)[Idx(a, b)] == (m[Idx(a, b)] && !Covers(r, a, b))
    ensures forall q {:trigger ClearRect(m, r)[q]} :: PlaneCells <= q < MaskLength ==> ClearRect(m, r)[q] == m[q]
  {
    ClearRowsAt(m, r, r.h);
  }

  lemma ClearRectCell(m: seq<bool>, r: Rect, a: int, b: int)
    requires |m| == MaskLength && Within(r) && 0 <= a < Size && 0 <= b < Size
    ensures ClearRect(m, r)[Idx(a, b)] == (m[Idx(a, b)] && !Covers(r, a, b))
  {
    ClearRectAt(m, r);
  }

  /** A rectangle of true cells of the cleared mask lies on true cells of
      the original mask, away from the cleared rectangle. */
  lemma InsideCleared(m: seq<bool>, r: Rect, s: Rect)
    requires |m| == MaskLength && Within(r) && Inside(ClearRect(m, r), s)
    ensures Inside(m, s)
    ensures forall a, b :: Covers(s, a, b) ==> !Covers(r, a, b)
  {
    forall a, b {:trigger Covers(s, a, b)} | Covers(s, a, b) ensures m[Idx(a, b)] && !Covers(r, a, b) {
      ClearRectCell(m, r, a, b);
    }
  }

  /** The outcome of scanning a plane: the emitted rectangles, in emission
      order, and the mask left behind. */
  datatype Merge = Merge(rects: seq<Rect>, residue: seq<bool>)

  /** The merge loop of `generateDirectionMesh` from cell `(i, j)` on. */
  function Scan(m: seq<bool>, i: int, j: int): (s: Merge)
    requires |m| == MaskLength && 0 <= i <= Size && 0 <= j <= Size
    ensures |s.residue| == MaskLength
    decreases |m|, Size - j, Size - i, 2
  {
    if j == Size then Merge([], m)
    else if i == Size then Scan(m, 0, j + 1)
    else ScanCell(m, i, j)
  }

  /** The scan at cell `(i, j)` of the plane. */
  function ScanCell(m: seq<bool>, i: int, j: int): (s: Merge)
    requires |m| == MaskLength && 0 <= i < Size && 0 <= j < Size
    ensures |s.residue| == MaskLength
    decreases |m|, Size - j, Size - i, 1
  {
    if m[Idx(i, j)] then ScanGrow(m, i, j) else Scan(m, i + 1, j)
  }

  /** The scan at a true cell `(i, j)`: the rectangle grown there, then the
      scan past it in the mask with the rectangle cleared. */
  function ScanGrow(m: seq<bool>, i: int, j: int): (s: Merge)
    requires |m| == MaskLength && 0 <= i < Size && 0 <= j < Size
    ensures |s.residue| == MaskLength
    decreases |m|, Size - j, Size - i, 0
  {
    var r := Grow(m, i, j);
    var rest := Scan(ClearRect(m, r), i + r.w, j);
    Merge([r] + rest.rects, rest.residue)
  }

  /** The scan from a true cell emits the rectangle grown there and goes
      on past it in the cleared mask. */
  lemma ScanCons(m: seq<bool>, i: int, j: int)
    requires |m| == MaskLength && 0 <= i < Size && 0 <= j < Size && m[Idx(i, j)]
    ensures Scan(m, i, j).rects ==
      [Grow(m, i, j)] + Scan(ClearRect(m, Grow(m, i, j)), i + Grow(m, i, j).w, j).rects
    ensures Scan(m, i, j).residue == Scan(ClearRect(m, Grow(m, i, j)), i + Grow(m, i, j).w, j).residue
  {
    assert Scan(m, i, j) == ScanCell(m, i, j) == ScanGrow(m, i, j);
  }

  /** A step of the merge loop at a true cell keeps the rectangles emitted
      so far, followed by those the scan still finds, equal to the whole
      scan `goal`. */
  lemma ScanStep(m: seq<bool>, i: int, j: int, emitted: seq<Rect>, goal: Merge)
    requires |m| == MaskLength && 0 <= i < Size && 0 <= j < Size && m[Idx(i, j)]
    requires emitted + Scan(m, i, j).rects == goal.rects && Scan(m, i, j).residue == goal.residue
    ensures (emitted + [Grow(m, i, j)]) + Scan(ClearRect(m, Grow(m, i, j)), i + Grow(m, i, j).w, j).rects == goal.rects
    ensures Scan(ClearRect(m, Grow(m, i, j)), i + Grow(m, i, j).w, j).residue == goal.residue
  {
    var r := Grow(m, i, j);
    ScanCons(m, i, j);
    assert (emitted + [r]) + Scan(ClearRect(m, r), i + r.w, j).rects == emitted + ([r] + Scan(ClearRect(m, r), i + r.w, j).rects);
  }

  /** The scan passes over a false cell. */
  lemma ScanSkip(m: seq<bool>, i: int, j: int)
    requires |m| == MaskLength && 0 <= i < Size && 0 <= j < Size && !m[Idx(i, j)]
    ensures Scan(m, i, j) == Scan(m, i + 1, j)
  {
    assert Scan(m, i, j) == ScanCell(m, i, j);
  }

  /** The scan goes on from the end of a row to the start of the next. */
  lemma ScanNextRow(m: seq<bool>, j: int)
    requires |m| == MaskLength && 0 <= j < Size
    ensures Scan(m, Size, j) == Scan(m, 0, j + 1)
  {
  }

  /** The number of true cells in columns `0 .. c-1` of row `b`. */
  function CountRow(m: seq<bool>, b: int, c: int): nat
    requires |m| == MaskLength && 0 <= b < Size && 0 <= c <= Size
  {
    if c == 0 then 0 else CountRow(m, b, c - 1) + (if m[Idx(c - 1, b)] then 1 else 0)
  }

  /** The number of true cells in rows `0 .. n-1`. */
  function CountRows(m: seq<bool>, n: int): nat
    requires |m| == MaskLength && 0 <= n <= Size
  {
    if n == 0 then 0 else CountRows(m, n - 1) + CountRow(m, n - 1, Size)
  }

  /** The number of true cells of the mask. */
  function CountTrue(m: seq<bool>): nat
    requires |m| == MaskLength
  {
    CountRows(m, Size)
  }

  /** The total area of a list of rectangles. */
  function Area(rs: seq<Rect>): int {
    if rs == [] then 0 else rs[0].w * rs[0].h + Area(rs[1..])
  }

  /** How many of the columns `0 .. c-1` fall in `[lo, lo + len)`. */
  function Overlap(lo: int, len: int, c: int): int {
    if c <= lo then 0 else if c >= lo + len then len else c - lo
  }

  lemma {:induction false} RowClearCount(m: seq<bool>, r: Rect, b: int, c: int)
    requires |m| == MaskLength && Inside(m, r) && 0 <= b < Size && 0 <= c <= Size
    ensures CountRow(ClearRect(m, r), b, c) + (if r.j <= b < r.j + r.h then Overlap(r.i, r.w, c) else 0)
            == CountRow(m, b, c)
  {
    if c > 0 {
      RowClearCount(m, r, b, c - 1);
      ClearRectCell(m, r, c - 1, b);
    }
  }

  lemma {:induction false} RowsClearCount(m: seq<bool>, r: Rect, n: int)
    requires |m| == MaskLength && Inside(m, r) && 0 <= n <= Size
    ensures CountRows(ClearRect(m, r), n) + r.w * Overlap(r.j, r.h, n) == CountRows(m, n)
  {
    if n > 0 {
      RowsClearCount(m, r, n - 1);
      RowClearCount(m, r, n - 1, Size);
      var o := Overlap(r.j, r.h, n - 1);
      if r.j <= n - 1 < r.j + r.h {
        assert Overlap(r.j, r.h, n) == o + 1;
        MulStep(r.w, o);
      } else {
        assert Overlap(r.j, r.h, n) == o;
      }
    }
  }

  lemma MulStep(w: int, o: int)
    ensures w * (o + 1) == w * o + w
  {
  }

  /** Clearing a rectangle of true cells removes exactly `w * h` of them. */
  lemma ClearCount(m: seq<bool>, r: Rect)
    requires |m| == MaskLength && Inside(m, r)
    ensures CountTrue(ClearRect(m, r)) + r.w * r.h == CountTrue(m)
  {
    RowsClearCount(m, r, Size);
  }

  lemma {:induction false} CountRowNone(m: seq<bool>, b: int, c: int)
    requires |m| == MaskLength && 0 <= b < Size && 0 <= c <= Size
    requires forall a {:trigger m[Idx(a, b)]} :: 0 <= a < c ==> !m[Idx(a, b)]
    ensures CountRow(m, b, c) == 0
  {
    if c > 0 {
      CountRowNone(m, b, c - 1);
    }
  }

  lemma {:induction false} CountRowsNone(m: seq<bool>, n: int)
    requires |m| == MaskLength && 0 <= n <= Size && ClearBefore(m, 0, n)
    ensures CountRows(m, n) == 0
  {
    if n > 0 {
      CountRowsNone(m, n - 1);
      CountRowNone(m, n - 1, Size);
    }
  }

  /** A mask without true cells counts zero. */
  lemma CountNone(m: seq<bool>)
    requires |m| == MaskLength && ClearBefore(m, 0, Size)
    ensures CountTrue(m) == 0
  {
    CountRowsNone(m, Size);
  }

  lemma {:induction false} CountRowOne(m: seq<bool>, a0: int, b: int, c: int)
    requires |m| == MaskLength && 0 <= b < Size && 0 <= c <= Size && 0 <= a0 < Size
    requires forall a {:trigger m[Idx(a, b)]} :: 0 <= a < Size ==> (m[Idx(a, b)] <==> a == a0)
    ensures CountRow(m, b, c) == if a0 < c then 1 else 0
  {
    if c > 0 {
      CountRowOne(m, a0, b, c - 1);
    }
  }

  lemma {:induction false} CountRowsOne(m: seq<bool>, a0: int, b0: int, n: int)
    requires |m| == MaskLength && 0 <= n <= Size && 0 <= a0 < Size && 0 <= b0 < Size
    requires forall a, b {:trigger m[Idx(a, b)]} :: 0 <= a < Size && 0 <= b < Size ==> (m[Idx(a, b)] <==> a == a0 && b == b0)
    ensures CountRows(m, n) == if b0 < n then 1 else 0
  {
    if n > 0 {
      CountRowsOne(m, a0, b0, n - 1);
      if n - 1 == b0 {
        CountRowOne(m, a0, n - 1, Size);
      } else {
        CountRowNone(m, n - 1, Size);
      }
    }
  }

  /** A mask with exactly one true cell counts one. */
  lemma CountOne(m: seq<bool>, a0: int, b0: int)
    requires |m| == MaskLength && 0 <= a0 < Size && 0 <= b0 < Size
    requires forall a, b {:trigger m[Idx(a, b)]} :: 0 <= a < Size && 0 <= b < Size ==> (m[Idx(a, b)] <==> a == a0 && b == b0)
    ensures CountTrue(m) == 1
  {
    CountRowsOne(m, a0, b0, Size);
  }

  /** A rectangle of true cells followed by rectangles of true cells of
      the mask it leaves behind: all of them lie on true cells. */
  lemma SoundCons(m: seq<bool>, r: Rect, rest: seq<Rect>)
    requires |m| == MaskLength && Inside(m, r)
    requires forall k :: 0 <= k < |rest| ==> Inside(ClearRect(m, r), rest[k])
    ensures forall k :: 0 <= k < |[r] + rest| ==> Inside(m, ([r] + rest)[k])
  {
    forall k | 0 <= k < |rest| ensures Inside(m, rest[k]) {
      InsideCleared(m, r, rest[k]);
    }
  }

  /** No two rectangles of the list share a cell. */
  ghost predicate Disjoint(rs: seq<Rect>) {
    forall k1, k2, a, b :: (0 <= k1 < k2 < |rs| && Covers(rs[k1], a, b)) ==> !Covers(rs[k2], a, b)
  }

  /** Rectangles found in the mask a rectangle leaves behind do not meet
      it. */
  lemma DisjointCons(m: seq<bool>, r: Rect, rest: seq<Rect>)
    requires |m| == MaskLength && Within(r) && Disjoint(rest)
    requires forall k :: 0 <= k < |rest| ==> Inside(ClearRect(m, r), rest[k])
    ensures Disjoint([r] + rest)
  {
    forall k | 0 <= k < |rest| ensures forall a, b :: Covers(rest[k], a, b) ==> !Covers(r, a, b) {
      InsideCleared(m, r, rest[k]);
    }
  }

  /** Every rectangle of the scan lies in the plane and covers only cells
      that are true in the mask the scan started from. */
  lemma {:induction false} ScanSound(m: seq<bool>, i: int, j: int)
    requires |m| == MaskLength && 0 <= i <= Size && 0 <= j <= Size
    ensures forall k :: 0 <= k < |Scan(m, i, j).rects| ==> Inside(m, Scan(m, i, j).rects[k])
    decreases Size - j, Size - i, 1
  {
    if j == Size {
    } else if i == Size {
      ScanSound(m, 0, j + 1);
    } else if m[Idx(i, j)] {
      ScanSoundGrow(m, i, j);
    } else {
      ScanSkip(m, i, j);
      ScanSound(m, i + 1, j);
    }
  }

  /** The step of `ScanSound` at a true cell, where a rectangle is grown. */
  lemma {:induction false} ScanSoundGrow(m: seq<bool>, i: int, j: int)
    requires |m| == MaskLength && 0 <= i < Size && 0 <= j < Size && m[Idx(i, j)]
    ensures forall k :: 0 <= k < |Scan(m, i, j).rects| ==> Inside(m, Scan(m, i, j).rects[k])
    decreases Size - j, Size - i, 0
  {
    var r := Grow(m, i, j);
    var m' := ClearRect(m, r);
    var rest := Scan(m', i + r.w, j).rects;
    GrowFacts(m, i, j);
    ScanSound(m', i + r.w, j);
    SoundCons(m, r, rest);
    ScanCons(m, i, j);
  }

  /** No two rectangles of the scan share a cell. */
  lemma {:induction false} ScanDisjoint(m: seq<bool>, i: int, j: int)
    requires |m| == MaskLength && 0 <= i <= Size && 0 <= j <= Size
    ensures Disjoint(Scan(m, i, j).rects)
    decreases Size - j, Size - i, 1
  {
    if j == Size {
    } else if i == Size {
      ScanDisjoint(m, 0, j + 1);
    } else if m[Idx(i, j)] {
      ScanDisjointGrow(m, i, j);
    } else {
      ScanDisjoint(m, i + 1, j);
    }
  }

  /** The step of `ScanDisjoint` at a true cell, where a rectangle is grown. */
  lemma {:induction false} ScanDisjointGrow(m: seq<bool>, i: int, j: int)
    requires |m| == MaskLength && 0 <= i < Size && 0 <= j < Size && m[Idx(i, j)]
    ensures Disjoint(Scan(m, i, j).rects)
    decreases Size - j, Size - i, 0
  {
    var r := Grow(m, i, j);
    var m' := ClearRect(m, r);
    var rest := Scan(m', i + r.w, j).rects;
    ScanDisjoint(m', i + r.w, j);
    ScanSound(m', i + r.w, j);
    DisjointCons(m, r, rest);
    ScanCons(m, i, j);
  }

  /** Some rectangle of `rs` covers the cell `(a, b)`. */
  ghost predicate Covered(rs: seq<Rect>, a: int, b: int) {
    exists k :: 0 <= k < |rs| && Covers(rs[k], a, b)
  }

  lemma CoveredCons(r: Rect, rest: seq<Rect>, a: int, b: int)
    requires Covers(r, a, b) || Covered(rest, a, b)
    ensures Covered([r] + rest, a, b)
  {
    if !Covers(r, a, b) {
      var k :| 0 <= k < |rest| && Covers(rest[k], a, b);
      assert ([r] + rest)[k + 1] == rest[k];
    } else {
      assert ([r] + rest)[0] == r;
    }
  }

  /** Every true cell at or after `(i, j)` in scan order is covered by
      some rectangle of `rs`. */
  ghost predicate CoversFrom(m: seq<bool>, rs: seq<Rect>, i: int, j: int)
    requires |m| == MaskLength
  {
    forall a, b {:trigger m[Idx(a, b)]} :: 0 <= a < Size && 0 <= b < Size && !Before(a, b, i, j) && m[Idx(a, b)] ==>
      Covered(rs, a, b)
  }

  /** A rectangle grown at its corner, followed by rectangles covering the
      mask it leaves behind from its right neighbour on, covers the mask
      from its corner on. */
  lemma CompleteCons(m: seq<bool>, r: Rect, rest: seq<Rect>)
    requires |m| == MaskLength && Within(r)
    requires CoversFrom(ClearRect(m, r), rest, r.i + r.w, r.j)
    ensures CoversFrom(m, [r] + rest, r.i, r.j)
  {
    forall a, b {:trigger m[Idx(a, b)]} | 0 <= a < Size && 0 <= b < Size && !Before(a, b, r.i, r.j) && m[Idx(a, b)]
      ensures Covered([r] + rest, a, b)
    {
      if !Covers(r, a, b) {
        ClearRectCell(m, r, a, b);
      }
      CoveredCons(r, rest, a, b);
    }
  }

  /** Every true cell at or after `(i, j)` in scan order is covered by some
      rectangle of the scan. */
  lemma {:induction false} ScanComplete(m: seq<bool>, i: int, j: int)
    requires |m| == MaskLength && 0 <= i <= Size && 0 <= j <= Size
    ensures CoversFrom(m, Scan(m, i, j).rects, i, j)
    decreases Size - j, Size - i, 1
  {
    if j == Size {
    } else if i == Size {
      ScanComplete(m, 0, j + 1);
    } else if m[Idx(i, j)] {
      ScanCompleteGrow(m, i, j);
    } else {
      ScanComplete(m, i + 1, j);
    }
  }

  /** The step of `ScanComplete` at a true cell, where a rectangle is grown. */
  lemma {:induction false} ScanCompleteGrow(m: seq<bool>, i: int, j: int)
    requires |m| == MaskLength && 0 <= i < Size && 0 <= j < Size && m[Idx(i, j)]
    ensures CoversFrom(m, Scan(m, i, j).rects, i, j)
    decreases Size - j, Size - i, 0
  {
    var r := Grow(m, i, j);
    var m' := ClearRect(m, r);
    ScanComplete(m', i + r.w, j);
    CompleteCons(m, r, Scan(m', i + r.w, j).rects);
    ScanCons(m, i, j);
  }

  /** After the rectangle grown at `(i, j)` is cleared, every cell before
      its right neighbour is false. */
  lemma GrowClears(m: seq<bool>, i: int, j: int)
    requires |m| == MaskLength && 0 <= i < Size && 0 <= j < Size && ClearBefore(m, i, j)
    ensures ClearBefore(ClearRect(m, Grow(m, i, j)), i + Grow(m, i, j).w, j)
  {
    ClearRectAt(m, Grow(m, i, j));
  }

  /** Once the scan is over the mask is all false. */
  lemma {:induction false} ScanResidue(m: seq<bool>, i: int, j: int)
    requires |m| == MaskLength && 0 <= i <= Size && 0 <= j <= Size && ClearBefore(m, i, j)
    ensures ClearBefore(Scan(m, i, j).residue, 0, Size)
    decreases Size - j, Size - i, 1
  {
    if j == Size {
    } else if i == Size {
      ScanResidue(m, 0, j + 1);
    } else if m[Idx(i, j)] {
      ScanResidueGrow(m, i, j);
    } else {
      ScanResidue(m, i + 1, j);
    }
  }

  /** The step of `ScanResidue` at a true cell, where a rectangle is grown. */
  lemma {:induction false} ScanResidueGrow(m: seq<bool>, i: int, j: int)
    requires |m| == MaskLength && 0 <= i < Size && 0 <= j < Size && ClearBefore(m, i, j) && m[Idx(i, j)]
    ensures ClearBefore(Scan(m, i, j).residue, 0, Size)
    decreases Size - j, Size - i, 0
  {
    var r := Grow(m, i, j);
    GrowClears(m, i, j);
    ScanCons(m, i, j);
    ScanResidue(ClearRect(m, r), i + r.w, j);
  }

  /** The two buffers agree on the unused tail `PlaneCells ..`. */
  ghost predicate SameTail(x: seq<bool>, y: seq<bool>)
    requires |x| == MaskLength && |y| == MaskLength
  {
    forall q :: PlaneCells <= q < MaskLength ==> x[q] == y[q]
  }

  /** A buffer agreeing on the tail with the mask a rectangle leaves behind
      agrees on it with the mask itself. */
  lemma TailCons(m: seq<bool>, r: Rect, res: seq<bool>)
    requires |m| == MaskLength && |res| == MaskLength && Within(r) && SameTail(res, ClearRect(m, r))
    ensures SameTail(res, m)
  {
    ClearRectAt(m, r);
  }

  /** The scan leaves the unused tail of the buffer as it was. */
  lemma {:induction false} ScanTail(m: seq<bool>, i: int, j: int)
    requires |m| == MaskLength && 0 <= i <= Size && 0 <= j <= Size
    ensures SameTail(Scan(m, i, j).residue, m)
    decreases Size - j, Size - i, 1
  {
    if j == Size {
    } else if i == Size {
      ScanTail(m, 0, j + 1);
    } else if m[Idx(i, j)] {
      ScanTailGrow(m, i, j);
    } else {
      ScanTail(m, i + 1, j);
    }
  }

  /** The step of `ScanTail` at a true cell, where a rectangle is grown. */
  lemma {:induction false} ScanTailGrow(m: seq<bool>, i: int, j: int)
    requires |m| == MaskLength && 0 <= i < Size && 0 <= j < Size && m[Idx(i, j)]
    ensures SameTail(Scan(m, i, j).residue, m)
    decreases Size - j, Size - i, 0
  {
    var r := Grow(m, i, j);
    var m' := ClearRect(m, r);
    ScanTail(m', i + r.w, j);
    TailCons(m, r, Scan(m', i + r.w, j).residue);
    ScanCons(m, i, j);
  }

  /** A rectangle of true cells followed by rectangles whose area is the
      count of what it leaves behind: the areas add up to the count. */
  lemma AreaCons(m: seq<bool>, r: Rect, rest: seq<Rect>)
    requires |m| == MaskLength && Inside(m, r) && Area(rest) == CountTrue(ClearRect(m, r))
    ensures Area([r] + rest) == CountTrue(m)
  {
    ClearCount(m, r);
    assert ([r] + rest)[1..] == rest;
  }

  /** The areas of the scan's rectangles add up to the number of true
      cells. */
  lemma {:induction false} ScanArea(m: seq<bool>, i: int, j: int)
    requires |m| == MaskLength && 0 <= i <= Size && 0 <= j <= Size && ClearBefore(m, i, j)
    ensures Area(Scan(m, i, j).rects) == CountTrue(m)
    decreases Size - j, Size - i, 1
  {
    if j == Size {
      CountNone(m);
    } else if i == Size {
      ScanArea(m, 0, j + 1);
    } else if m[Idx(i, j)] {
      ScanAreaGrow(m, i, j);
    } else {
      ScanArea(m, i + 1, j);
    }
  }

  /** The step of `ScanArea` at a true cell, where a rectangle is grown. */
  lemma {:induction false} ScanAreaGrow(m: seq<bool>, i: int, j: int)
    requires |m| == MaskLength && 0 <= i < Size && 0 <= j < Size && ClearBefore(m, i, j) && m[Idx(i, j)]
    ensures Area(Scan(m, i, j).rects) == CountTrue(m)
    decreases Size - j, Size - i, 0
  {
    var r := Grow(m, i, j);
    var m' := ClearRect(m, r);
    GrowClears(m, i, j);
    GrowFacts(m, i, j);
    ScanArea(m', i + r.w, j);
    AreaCons(m, r, Scan(m', i + r.w, j).rects);
    ScanCons(m, i, j);
  }

  /** The merge of a whole plane partitions its true cells: every
      rectangle lies on true cells, no two rectangles overlap, every true
      cell is covered, the areas add up to the number of true cells, and
      the mask is all false afterwards. */
  lemma MergePartition(m: seq<bool>)
    requires |m| == MaskLength
    ensures forall k :: 0 <= k < |Scan(m, 0, 0).rects| ==> Inside(m, Scan(m, 0, 0).rects[k])
    ensures Disjoint(Scan(m, 0, 0).rects)
    ensures forall a, b {:trigger m[Idx(a, b)]} :: 0 <= a < Size && 0 <= b < Size && m[Idx(a, b)] ==>
      Covered(Scan(m, 0, 0).rects, a, b)
    ensures Area(Scan(m, 0, 0).rects) == CountTrue(m)
    ensures ClearBefore(Scan(m, 0, 0).residue, 0, Size)
  {
    ScanSound(m, 0, 0);
    ScanDisjoint(m, 0, 0);
    ScanComplete(m, 0, 0);
    ScanResidue(m, 0, 0);
    ScanArea(m, 0, 0);
  }
}
