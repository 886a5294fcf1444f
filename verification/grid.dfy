/** The grid engine: column and row boundaries in image-pixel space, the
    clamp a drag applies to one interior boundary, and the cell rectangles
    that lie between adjacent boundaries. */
module Grid {

  /** The positions `initGridData` pushes along one axis: for a count of
      `count` cells, `count + 1` multiples of `extent / count`, from 0 up to
      `extent`. A negative count (which `parseInt(...) || 1` lets through)
      makes the push loop run zero times. */
  function UniformBoundaries(extent: real, count: int): (b: seq<real>)
    requires count != 0
    ensures |b| == if count < 0 then 0 else count + 1
    ensures count > 0 ==> b[0] == 0.0 && b[count] == extent
    ensures forall i :: 0 <= i < |b| - 1 ==> b[i + 1] - b[i] == extent / count as real
  {
    if count < 0 then []
    else seq(count + 1, i => (extent / count as real) * i as real)
  }

  /** One push of the `initGridData` loop extends the prefix built so far by
      the next uniform boundary. */
  lemma UniformPush(extent: real, count: int, i: int)
    requires count != 0 && 0 <= i < |UniformBoundaries(extent, count)|
    ensures UniformBoundaries(extent, count)[..i] + [(extent / count as real) * i as real]
            == UniformBoundaries(extent, count)[..i + 1]
  {
    var b := UniformBoundaries(extent, count);
    assert b[i] == (extent / count as real) * i as real;
    assert b[..i + 1] == b[..i] + [b[i]];
  }

  /** Boundaries that never go back: every cell is at least empty. */
  predicate Ascending(b: seq<real>)
  {
    forall i, j :: 0 <= i < j < |b| ==> b[i] <= b[j]
  }

  /** Boundaries that strictly increase: every cell has positive extent. */
  predicate Increasing(b: seq<real>)
  {
    forall i, j :: 0 <= i < j < |b| ==> b[i] < b[j]
  }

  /** With an image of positive extent and at least one cell, the uniform
      boundaries strictly increase. */
  lemma UniformIsIncreasing(extent: real, count: int)
    requires extent > 0.0 && count >= 1
    ensures Increasing(UniformBoundaries(extent, count))
  {
    var b := UniformBoundaries(extent, count);
    var step := extent / count as real;
    assert step > 0.0;
    forall i, j | 0 <= i < j < |b|
      ensures b[i] < b[j]
    {
      assert b[j] - b[i] == step * (j - i) as real;
    }
  }

  /** `Math.max(lo, Math.min(hi, v))`. */
  function Clamp(lo: real, hi: real, v: real): (r: real)
    ensures lo <= r
    ensures lo <= hi ==> r <= hi
    ensures lo <= v <= hi ==> r == v
    ensures lo <= hi && v < lo ==> r == lo
    ensures lo <= hi && hi < v ==> r == hi
    ensures hi < lo ==> r == lo
  {
    var m := if hi < v then hi else v;
    if lo < m then m else lo
  }

  /** The least distance a dragged boundary keeps from each neighbour. */
  const MinGap: real := 2.0

  /** The new position `onDrag` gives interior boundary `index` when the
      pointer is at image coordinate `pointer`. */
  function DragTarget(b: seq<real>, index: int, pointer: real): (v: real)
    requires 1 <= index < |b| - 1
    ensures v >= b[index - 1] + MinGap
    ensures b[index - 1] + 2.0 * MinGap <= b[index + 1] ==> v <= b[index + 1] - MinGap
    ensures b[index + 1] - b[index - 1] < 2.0 * MinGap ==> v == b[index - 1] + MinGap
    ensures b[index - 1] + MinGap <= pointer <= b[index + 1] - MinGap ==> v == pointer
  {
    Clamp(b[index - 1] + MinGap, b[index + 1] - MinGap, pointer)
  }

  /** A drag keeps strictly increasing boundaries strictly increasing exactly
      when the dragged boundary's neighbours are more than MinGap apart;
      otherwise the clamp puts it at or past its right neighbour. */
  lemma DragKeepsIncreasing(b: seq<real>, index: int, pointer: real)
    requires Increasing(b) && 1 <= index < |b| - 1
    ensures Increasing(b[index := DragTarget(b, index, pointer)])
            <==> b[index + 1] - b[index - 1] > MinGap
  {
    var v := DragTarget(b, index, pointer);
    var b' := b[index := v];
    if b[index + 1] - b[index - 1] > MinGap {
      assert b[index - 1] < v < b[index + 1];
      forall i, j | 0 <= i < j < |b'|
        ensures b'[i] < b'[j]
      {
        if i == index {
          assert b[index + 1] <= b[j];
        } else if j == index {
          assert b[i] <= b[index - 1];
        }
      }
    } else {
      assert b'[index + 1] <= b'[index];
    }
  }

  lemma QuotientAtMostOne(a: real, n: real)
    requires 0.0 < n && a <= n
    ensures a / n <= 1.0
  {
    assert a / n * n == a;
  }

  /** On a uniform grid whose cells are at most one pixel wide, the very
      first drag of boundary 1 leaves a cell of zero or negative width. */
  lemma NarrowUniformGridCollapses(extent: real, count: int, pointer: real)
    requires extent > 0.0 && count >= 2 && extent <= count as real
    ensures var b := UniformBoundaries(extent, count);
            Increasing(b) && !Increasing(b[1 := DragTarget(b, 1, pointer)])
  {
    var b := UniformBoundaries(extent, count);
    UniformIsIncreasing(extent, count);
    var step := extent / count as real;
    assert b[2] - b[0] == 2.0 * step;
    QuotientAtMostOne(extent, count as real);
    DragKeepsIncreasing(b, 1, pointer);
  }

  /** An axis-aligned rectangle in image-pixel space. */
  datatype Rect = Rect(x: real, y: real, w: real, h: real)

  /** Cell (r, c): its left and top edges are boundaries c and r, its right
      and bottom edges boundaries c + 1 and r + 1. */
  function CellRect(gx: seq<real>, gy: seq<real>, r: int, c: int): (cell: Rect)
    requires 0 <= r < |gy| - 1 && 0 <= c < |gx| - 1
    ensures cell.x == gx[c] && cell.x + cell.w == gx[c + 1]
    ensures cell.y == gy[r] && cell.y + cell.h == gy[r + 1]
  {
    var x := gx[c];
    var y := gy[r];
    Rect(x, y, gx[c + 1] - x, gy[r + 1] - y)
  }

  /** The point (px, py) lies in cell (r, c), taking each cell as closed on
      its left and top edges and open on its right and bottom ones. */
  predicate InCell(gx: seq<real>, gy: seq<real>, r: int, c: int, px: real, py: real)
  {
    && 0 <= r < |gy| - 1 && 0 <= c < |gx| - 1
    && var cell := CellRect(gx, gy, r, c);
    && cell.x <= px < cell.x + cell.w
    && cell.y <= py < cell.y + cell.h
  }

  /** Neighbouring cells share their common edge. */
  lemma AdjacentCellsShareEdges(gx: seq<real>, gy: seq<real>, r: int, c: int)
    requires 0 <= r < |gy| - 1 && 0 <= c < |gx| - 1
    ensures c + 1 < |gx| - 1 ==>
              CellRect(gx, gy, r, c).x + CellRect(gx, gy, r, c).w == CellRect(gx, gy, r, c + 1).x
    ensures r + 1 < |gy| - 1 ==>
              CellRect(gx, gy, r, c).y + CellRect(gx, gy, r, c).h == CellRect(gx, gy, r + 1, c).y
  {
  }

  /** Every position from the first boundary up to (not including) the last
      falls between some pair of adjacent boundaries. */
  lemma {:induction false} SpanOf(b: seq<real>, p: real) returns (i: int)
    requires Ascending(b) && |b| >= 2 && b[0] <= p < b[|b| - 1]
    ensures 0 <= i < |b| - 1 && b[i] <= p < b[i + 1]
    decreases |b|
  {
    if p < b[|b| - 2] || |b| == 2 {
      if |b| == 2 {
        i := 0;
      } else {
        var prefix := b[..|b| - 1];
        assert Ascending(prefix);
        i := SpanOf(prefix, p);
      }
    } else {
      i := |b| - 2;
    }
  }

  /** The cells of an ascending grid tile the rectangle spanned by its first
      and last boundaries: a point lies in some cell exactly when it lies in
      that rectangle, and it never lies in two cells. */
  lemma CellsTileImage(gx: seq<real>, gy: seq<real>, px: real, py: real)
    requires Ascending(gx) && Ascending(gy) && |gx| >= 2 && |gy| >= 2
    ensures (exists r, c :: InCell(gx, gy, r, c, px, py))
            <==> gx[0] <= px < gx[|gx| - 1] && gy[0] <= py < gy[|gy| - 1]
    ensures forall r1, c1, r2, c2 ::
              InCell(gx, gy, r1, c1, px, py) && InCell(gx, gy, r2, c2, px, py) ==> r1 == r2 && c1 == c2
  {
    if gx[0] <= px < gx[|gx| - 1] && gy[0] <= py < gy[|gy| - 1] {
      var c := SpanOf(gx, px);
      var r := SpanOf(gy, py);
      assert InCell(gx, gy, r, c, px, py);
    }
  }

  /** The extents of the cells along one axis, in order. */
  function Extents(b: seq<real>): (e: seq<real>)
    requires |b| >= 1
    ensures |e| == |b| - 1
  {
    seq(|b| - 1, i requires 0 <= i < |b| - 1 => b[i + 1] - b[i])
  }

  function Sum(s: seq<real>): real
  {
    if s == [] then 0.0 else Sum(s[..|s| - 1]) + s[|s| - 1]
  }

  /** The cell widths (or heights) add up to the distance from the first
      boundary to the last, that is, to the image width (or height). */
  lemma {:induction false} ExtentsSum(b: seq<real>)
    requires |b| >= 1
    ensures Sum(Extents(b)) == b[|b| - 1] - b[0]
  {
    if |b| > 1 {
      var prefix := b[..|b| - 1];
      ExtentsSum(prefix);
      assert Extents(b)[..|b| - 2] == Extents(prefix);
    }
  }

  /** The cell widths of column c are the extents of the column boundaries. */
  lemma CellWidthsAreExtents(gx: seq<real>, gy: seq<real>, r: int, c: int)
    requires 0 <= r < |gy| - 1 && 0 <= c < |gx| - 1
    ensures CellRect(gx, gy, r, c).w == Extents(gx)[c]
    ensures CellRect(gx, gy, r, c).h == Extents(gy)[r]
  {
  }
}
