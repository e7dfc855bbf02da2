/** The heatmap plane: one 8-bit counter per pixel, incremented over the
    footprint of every kept detection box. */
module HeatmapPlane {
  import opened Shapes

  /** The cells have numpy's uint8 type: an increment wraps 255 to 0. */
  const CellModulus: nat := 256

  function Increment(v: int): int
  {
    (v + 1) % CellModulus
  }

  /** numpy's reading of one slice bound against an axis of length n: a
      negative bound counts back from the end, and the result is clipped to
      the axis. */
  function SliceBound(v: int, n: nat): (b: nat)
    ensures b <= n
  {
    if v < 0 then (if v + n < 0 then 0 else v + n)
    else if v > n then n
    else v
  }

  /** Whether cell (r, c) of a height x width plane lies in the slice
      [y:y+h, x:x+w] selected by box b. */
  predicate Covers(b: Box, height: nat, width: nat, r: int, c: int)
  {
    SliceBound(b.y, height) <= r < SliceBound(b.y + b.h, height) &&
    SliceBound(b.x, width) <= c < SliceBound(b.x + b.w, width)
  }

  /** For a box inside the plane the slice is exactly rows y..y+h-1 and
      columns x..x+w-1. */
  lemma CoversInside(b: Box, height: nat, width: nat, r: int, c: int)
    requires 0 <= b.y && 0 <= b.h && b.y + b.h <= height
    requires 0 <= b.x && 0 <= b.w && b.x + b.w <= width
    ensures Covers(b, height, width, r, c) <==> b.y <= r < b.y + b.h && b.x <= c < b.x + b.w
  {
  }

  function Min(a: int, b: int): int
  {
    if a < b then a else b
  }

  /** For a box whose bounds are not negative but may run past the plane, the
      slice is clipped at the far edges; a start past an edge selects nothing. */
  lemma CoversClipped(b: Box, height: nat, width: nat, r: int, c: int)
    requires 0 <= b.y && 0 <= b.y + b.h && 0 <= b.x && 0 <= b.x + b.w
    ensures Covers(b, height, width, r, c) <==>
      b.y <= r < Min(b.y + b.h, height) && b.x <= c < Min(b.x + b.w, width)
  {
  }

  /** A height x width grid of uint8 values, row by row. */
  ghost predicate IsPlane(g: seq<seq<int>>, height: nat, width: nat)
  {
    |g| == height &&
    (forall r :: 0 <= r < height ==> |g[r]| == width) &&
    (forall r, c :: 0 <= r < height && 0 <= c < width ==> 0 <= g[r][c] < CellModulus)
  }

  /** The all-zero plane. */
  function Zeros(height: nat, width: nat): seq<seq<int>>
  {
    seq(height, r => seq(width, c => 0))
  }

  /** The plane after heatmap[y:y+h, x:x+w] += 1 with box b. */
  function AddedBox(g: seq<seq<int>>, b: Box, height: nat, width: nat): seq<seq<int>>
  {
    seq(|g|, r requires 0 <= r < |g| =>
      seq(|g[r]|, c requires 0 <= c < |g[r]| =>
        if Covers(b, height, width, r, c) then Increment(g[r][c]) else g[r][c]))
  }

  /** Adding a box keeps a plane a plane, and changes exactly the cells of
      its slice, each by one modulo 256. */
  lemma AddedBoxCells(g: seq<seq<int>>, b: Box, height: nat, width: nat)
    requires IsPlane(g, height, width)
    ensures IsPlane(AddedBox(g, b, height, width), height, width)
    ensures forall r, c :: 0 <= r < height && 0 <= c < width ==>
      AddedBox(g, b, height, width)[r][c] == if Covers(b, height, width, r, c) then (g[r][c] + 1) % CellModulus else g[r][c]
  {
  }

  class Heatmap {
    const cells: array2<int>
    /** The plane's contents, row by row. */
    ghost var plane: seq<seq<int>>

    /** The cells hold exactly the plane, whose values are uint8. */
    ghost predicate Valid()
      reads this, cells
    {
      IsPlane(plane, cells.Length0, cells.Length1) &&
      forall r, c :: 0 <= r < cells.Length0 && 0 <= c < cells.Length1 ==> cells[r, c] == plane[r][c]
    }

    /** np.zeros_like over one channel of the first frame. */
    constructor (height: nat, width: nat)
      ensures Valid() && fresh(cells)
      ensures cells.Length0 == height && cells.Length1 == width
      ensures plane == Zeros(height, width)
    {
      cells := new int[height, width]((r, c) => 0);
      plane := Zeros(height, width);
    }

    /** heatmap[y:y+h, x:x+w] += 1: every cell of the box's slice is
        incremented with uint8 wrap-around, every other cell is unchanged. */
    method AddBox(b: Box)
      requires Valid()
      modifies this, cells
      ensures Valid()
      ensures plane == AddedBox(old(plane), b, cells.Length0, cells.Length1)
    {
      var height, width := cells.Length0, cells.Length1;
      var rowLo, rowHi := SliceBound(b.y, height), SliceBound(b.y + b.h, height);
      var colLo, colHi := SliceBound(b.x, width), SliceBound(b.x + b.w, width);
      var r := rowLo;
      while r < rowHi
        invariant rowLo <= r <= height && (r == rowLo || r <= rowHi) && plane == old(plane)
        invariant forall i, k :: 0 <= i < height && 0 <= k < width ==>
          cells[i, k] == if rowLo <= i < r && colLo <= k < colHi then Increment(old(cells[i, k])) else old(cells[i, k])
      {
        var c := colLo;
        while c < colHi
          invariant colLo <= c <= width && (c == colLo || c <= colHi) && plane == old(plane)
          invariant forall i, k :: 0 <= i < height && 0 <= k < width ==>
            cells[i, k] == if (rowLo <= i < r && colLo <= k < colHi) || (i == r && colLo <= k < c)
                           then Increment(old(cells[i, k])) else old(cells[i, k])
        {
          cells[r, c] := Increment(cells[r, c]);
          c := c + 1;
        }
        r := r + 1;
      }
      AddedBoxCells(plane, b, height, width);
      plane := AddedBox(plane, b, height, width);
    }
  }
}
