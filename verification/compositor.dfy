/** The pixel half of `renderCanvas`: the erase-margin pass, which clears
    strips along the four sides of every cell, then the chroma-key pass,
    which makes pixels close to the background colour transparent. The
    canvas is an RGBA byte buffer, four bytes per pixel, row after row. */
module Compositor {
  import opened Grid
  import opened Color

  /** The four erase margins, as `parseInt(...) || 0` reads them. */
  datatype Margins = Margins(top: int, bottom: int, left: int, right: int)

  /** `t || b || l || r_pad`: at least one margin is set. */
  predicate AnyMargin(m: Margins)
  {
    m.top != 0 || m.bottom != 0 || m.left != 0 || m.right != 0
  }

  /** The span of signed length `len` from `start` holds `p`; as in
      `clearRect`, a negative length runs backwards from `start`. */
  predicate InSpan(p: real, start: real, len: real)
  {
    if len >= 0.0 then start <= p < start + len else start + len <= p < start
  }

  /** `clearRect(rect)` clears pixel (px, py). */
  predicate Covers(rect: Rect, px: int, py: int)
  {
    InSpan(px as real, rect.x, rect.w) && InSpan(py as real, rect.y, rect.h)
  }

  /** The pixel column and row byte `j` of a buffer `width` pixels wide
      belongs to. */
  function PixelX(width: nat, j: int): int
    requires width > 0
  {
    (j / 4) % width
  }

  function PixelY(width: nat, j: int): int
    requires width > 0
  {
    (j / 4) / width
  }

  /** The buffer after `clearRect(rect)`: the bytes of every covered pixel
      become 0 (transparent black), all others stay. */
  function Cleared(s: seq<byte>, width: nat, rect: Rect): (t: seq<byte>)
    ensures |t| == |s|
  {
    seq(|s|, j requires 0 <= j < |s| =>
      if width > 0 && Covers(rect, PixelX(width, j), PixelY(width, j)) then 0 else s[j])
  }

  /** The canvas primitive `clearRect` on the byte buffer. */
  method ClearRect(data: array<byte>, width: nat, rect: Rect)
    modifies data
    ensures data[..] == Cleared(old(data[..]), width, rect)
  {
    forall j | 0 <= j < data.Length && width > 0 && Covers(rect, PixelX(width, j), PixelY(width, j)) {
      data[j] := 0;
    }
  }

  /** The four strips the margin pass clears in a cell. */
  function TopStrip(cell: Rect, m: Margins): Rect
  {
    Rect(cell.x, cell.y, cell.w, m.top as real)
  }

  function BottomStrip(cell: Rect, m: Margins): Rect
  {
    Rect(cell.x, cell.y + cell.h - m.bottom as real, cell.w, m.bottom as real)
  }

  function LeftStrip(cell: Rect, m: Margins): Rect
  {
    Rect(cell.x, cell.y, m.left as real, cell.h)
  }

  function RightStrip(cell: Rect, m: Margins): Rect
  {
    Rect(cell.x + cell.w - m.right as real, cell.y, m.right as real, cell.h)
  }

  /** Pixel (px, py) lies in one of the margin strips of cell (r, c). */
  predicate InCellMargin(gx: seq<real>, gy: seq<real>, m: Margins, r: int, c: int, px: int, py: int)
  {
    && 0 <= r < |gy| - 1 && 0 <= c < |gx| - 1
    && var cell := CellRect(gx, gy, r, c);
    || Covers(TopStrip(cell, m), px, py)
    || Covers(BottomStrip(cell, m), px, py)
    || Covers(LeftStrip(cell, m), px, py)
    || Covers(RightStrip(cell, m), px, py)
  }

  /** Pixel (px, py) lies in a margin strip of one of the cells of the
      first n rows. */
  ghost predicate InRowsMargin(gx: seq<real>, gy: seq<real>, m: Margins, n: int, px: int, py: int)
  {
    exists r, c :: r < n && InCellMargin(gx, gy, m, r, c, px, py)
  }

  /** Pixel (px, py) lies in a margin strip of cell (r, c') for some c' < n. */
  ghost predicate InRowMargin(gx: seq<real>, gy: seq<real>, m: Margins, r: int, n: int, px: int, py: int)
  {
    exists c :: c < n && InCellMargin(gx, gy, m, r, c, px, py)
  }

  /** The clears of one iteration of the cell loop: each strip whose margin
      is non-zero, in the order top, bottom, left, right. */
  function ClearCell(s: seq<byte>, width: nat, gx: seq<real>, gy: seq<real>, m: Margins, r: int, c: int): (t: seq<byte>)
    requires 0 <= r < |gy| - 1 && 0 <= c < |gx| - 1
    ensures |t| == |s|
  {
    var cell := CellRect(gx, gy, r, c);
    var s1 := if m.top != 0 then Cleared(s, width, TopStrip(cell, m)) else s;
    var s2 := if m.bottom != 0 then Cleared(s1, width, BottomStrip(cell, m)) else s1;
    var s3 := if m.left != 0 then Cleared(s2, width, LeftStrip(cell, m)) else s2;
    if m.right != 0 then Cleared(s3, width, RightStrip(cell, m)) else s3
  }

  /** The number of cells along an axis: one fewer than the boundaries, and
      none when there are no boundaries (the loops run `length - 1` times). */
  function CellCount(b: seq<real>): nat
  {
    if |b| == 0 then 0 else |b| - 1
  }

  /** The cell loop of row r after its first n iterations. */
  function ClearRowCells(s: seq<byte>, width: nat, gx: seq<real>, gy: seq<real>, m: Margins, r: int, n: nat): (t: seq<byte>)
    requires 0 <= r < |gy| - 1 && n <= CellCount(gx)
    ensures |t| == |s|
  {
    if n == 0 then s else ClearCell(ClearRowCells(s, width, gx, gy, m, r, n - 1), width, gx, gy, m, r, n - 1)
  }

  /** The row loop after its first n iterations. */
  function ClearRows(s: seq<byte>, width: nat, gx: seq<real>, gy: seq<real>, m: Margins, n: nat): (t: seq<byte>)
    requires n <= CellCount(gy)
    ensures |t| == |s|
  {
    if n == 0 then s
    else ClearRowCells(ClearRows(s, width, gx, gy, m, n - 1), width, gx, gy, m, n - 1, CellCount(gx))
  }

  /** The whole margin pass, skipped when every margin is 0. */
  function MarginPass(s: seq<byte>, width: nat, gx: seq<real>, gy: seq<real>, m: Margins): (t: seq<byte>)
    ensures |t| == |s|
  {
    if AnyMargin(m) then ClearRows(s, width, gx, gy, m, CellCount(gy)) else s
  }

  /** One iteration of the cell loop of the margin pass. */
  method ClearCellMargins(data: array<byte>, width: nat, gx: seq<real>, gy: seq<real>, m: Margins, r: int, c: int)
    requires 0 <= r < |gy| - 1 && 0 <= c < |gx| - 1
    modifies data
    ensures data[..] == ClearCell(old(data[..]), width, gx, gy, m, r, c)
  {
    var cell := CellRect(gx, gy, r, c);
    if m.top != 0 { ClearRect(data, width, TopStrip(cell, m)); }
    if m.bottom != 0 { ClearRect(data, width, BottomStrip(cell, m)); }
    if m.left != 0 { ClearRect(data, width, LeftStrip(cell, m)); }
    if m.right != 0 { ClearRect(data, width, RightStrip(cell, m)); }
  }

  /** The column loop of the margin pass for row r. */
  method ClearRowMargins(data: array<byte>, width: nat, gx: seq<real>, gy: seq<real>, m: Margins, r: int)
    requires 0 <= r < |gy| - 1
    modifies data
    ensures data[..] == ClearRowCells(old(data[..]), width, gx, gy, m, r, CellCount(gx))
  {
    ghost var s := data[..];
    var cIdx := 0;
    while cIdx < |gx| - 1
      invariant 0 <= cIdx <= CellCount(gx)
      invariant data[..] == ClearRowCells(s, width, gx, gy, m, r, cIdx)
    {
      ClearCellMargins(data, width, gx, gy, m, r, cIdx);
      cIdx := cIdx + 1;
    }
  }

  /** The margin pass of `renderCanvas`: when some margin is set, for each
      row, for each column, clear the cell's non-zero margin strips. */
  method ApplyMargins(data: array<byte>, width: nat, gx: seq<real>, gy: seq<real>, m: Margins)
    modifies data
    ensures data[..] == MarginPass(old(data[..]), width, gx, gy, m)
  {
    if AnyMargin(m) {
      ghost var s := data[..];
      var rIdx := 0;
      while rIdx < |gy| - 1
        invariant 0 <= rIdx <= CellCount(gy)
        invariant data[..] == ClearRows(s, width, gx, gy, m, rIdx)
      {
        ClearRowMargins(data, width, gx, gy, m, rIdx);
        rIdx := rIdx + 1;
      }
    }
  }

  /** One cell's clears zero exactly the pixels in that cell's strips. */
  lemma ClearCellAt(s: seq<byte>, width: nat, gx: seq<real>, gy: seq<real>, m: Margins, r: int, c: int, j: int)
    requires 0 <= r < |gy| - 1 && 0 <= c < |gx| - 1 && 0 <= j < |s|
    ensures ClearCell(s, width, gx, gy, m, r, c)[j]
            == if width > 0 && InCellMargin(gx, gy, m, r, c, PixelX(width, j), PixelY(width, j)) then 0 else s[j]
  {
  }

  /** A strip of one of the first n cells of a row is a strip of one of the
      first n - 1 or of cell n - 1, and conversely. */
  lemma RowMarginSplit(gx: seq<real>, gy: seq<real>, m: Margins, r: int, n: int, px: int, py: int)
    ensures InRowMargin(gx, gy, m, r, n, px, py)
            <==> InRowMargin(gx, gy, m, r, n - 1, px, py) || InCellMargin(gx, gy, m, r, n - 1, px, py)
  {
    if InRowMargin(gx, gy, m, r, n, px, py) {
      var c :| c < n && InCellMargin(gx, gy, m, r, c, px, py);
      if c < n - 1 {
        assert InRowMargin(gx, gy, m, r, n - 1, px, py);
      }
    }
    if InRowMargin(gx, gy, m, r, n - 1, px, py) {
      var c :| c < n - 1 && InCellMargin(gx, gy, m, r, c, px, py);
      assert InRowMargin(gx, gy, m, r, n, px, py);
    }
    if InCellMargin(gx, gy, m, r, n - 1, px, py) {
      assert InRowMargin(gx, gy, m, r, n, px, py);
    }
  }

  lemma {:induction false} ClearRowCellsAt(s: seq<byte>, width: nat, gx: seq<real>, gy: seq<real>, m: Margins, r: int, n: nat, j: int)
    requires 0 <= r < |gy| - 1 && n <= CellCount(gx) && 0 <= j < |s|
    ensures ClearRowCells(s, width, gx, gy, m, r, n)[j]
            == if width > 0 && InRowMargin(gx, gy, m, r, n, PixelX(width, j), PixelY(width, j)) then 0 else s[j]
  {
    if n > 0 {
      ClearRowCellsAt(s, width, gx, gy, m, r, n - 1, j);
      ClearCellAt(ClearRowCells(s, width, gx, gy, m, r, n - 1), width, gx, gy, m, r, n - 1, j);
      if width > 0 {
        RowMarginSplit(gx, gy, m, r, n, PixelX(width, j), PixelY(width, j));
      }
    }
  }

  /** A strip of a cell in row r < n is a strip of the first n rows. */
  lemma RowMarginInRows(gx: seq<real>, gy: seq<real>, m: Margins, r: int, k: int, n: int, px: int, py: int)
    ensures r < n && InRowMargin(gx, gy, m, r, k, px, py) ==> InRowsMargin(gx, gy, m, n, px, py)
  {
    if r < n && InRowMargin(gx, gy, m, r, k, px, py) {
      var c :| c < k && InCellMargin(gx, gy, m, r, c, px, py);
    }
  }

  /** A strip of the first n rows is a strip of the first n - 1 rows or of
      row n - 1. */
  lemma RowsMarginSplit(gx: seq<real>, gy: seq<real>, m: Margins, n: int, px: int, py: int)
    ensures InRowsMargin(gx, gy, m, n, px, py) ==>
              InRowsMargin(gx, gy, m, n - 1, px, py) || InRowMargin(gx, gy, m, n - 1, CellCount(gx), px, py)
  {
    if InRowsMargin(gx, gy, m, n, px, py) {
      var r, c :| r < n && InCellMargin(gx, gy, m, r, c, px, py);
      if r < n - 1 {
        assert InRowsMargin(gx, gy, m, n - 1, px, py);
      } else {
        assert InRowMargin(gx, gy, m, n - 1, CellCount(gx), px, py);
      }
    }
  }

  lemma {:induction false} ClearRowsAt(s: seq<byte>, width: nat, gx: seq<real>, gy: seq<real>, m: Margins, n: nat, j: int)
    requires n <= CellCount(gy) && 0 <= j < |s|
    ensures ClearRows(s, width, gx, gy, m, n)[j]
            == if width > 0 && InRowsMargin(gx, gy, m, n, PixelX(width, j), PixelY(width, j)) then 0 else s[j]
  {
    if n > 0 {
      var prev := ClearRows(s, width, gx, gy, m, n - 1);
      ClearRowsAt(s, width, gx, gy, m, n - 1, j);
      ClearRowCellsAt(prev, width, gx, gy, m, n - 1, CellCount(gx), j);
      if width > 0 {
        var px, py := PixelX(width, j), PixelY(width, j);
        RowsMarginSplit(gx, gy, m, n, px, py);
        RowMarginInRows(gx, gy, m, n - 1, CellCount(gx), n, px, py);
        if InRowsMargin(gx, gy, m, n - 1, px, py) {
          var r, c :| r < n - 1 && InCellMargin(gx, gy, m, r, c, px, py);
          assert InRowsMargin(gx, gy, m, n, px, py);
        }
      }
    }
  }

  /** With every margin 0 each strip is empty. */
  lemma NoMarginNoStrip(gx: seq<real>, gy: seq<real>, m: Margins, n: int, px: int, py: int)
    ensures !AnyMargin(m) ==> !InRowsMargin(gx, gy, m, n, px, py)
  {
    if InRowsMargin(gx, gy, m, n, px, py) {
      var r, c :| r < n && InCellMargin(gx, gy, m, r, c, px, py);
    }
  }

  /** The margin pass makes transparent black exactly the pixels that lie in
      some cell's top, bottom, left or right strip, and leaves every other
      byte as it was; with all four margins 0 nothing changes. */
  lemma MarginPassAt(s: seq<byte>, width: nat, gx: seq<real>, gy: seq<real>, m: Margins, j: int)
    requires 0 <= j < |s|
    ensures MarginPass(s, width, gx, gy, m)[j]
            == if width > 0 && InRowsMargin(gx, gy, m, CellCount(gy), PixelX(width, j), PixelY(width, j)) then 0 else s[j]
  {
    if AnyMargin(m) {
      ClearRowsAt(s, width, gx, gy, m, CellCount(gy), j);
    } else if width > 0 {
      NoMarginNoStrip(gx, gy, m, CellCount(gy), PixelX(width, j), PixelY(width, j));
    }
  }

  /** n * n, written as the sum of the first n odd numbers so that no
      product appears when the solver unfolds it. */
  function Square(n: nat): nat
  {
    if n == 0 then 0 else Square(n - 1) + 2 * n - 1
  }

  lemma {:induction false} SquareIsProduct(n: nat)
    ensures Square(n) == n * n
  {
    if n > 0 {
      SquareIsProduct(n - 1);
    }
  }

  function Abs(x: int): nat
  {
    if x < 0 then -x else x
  }

  /** The squared Euclidean RGB distance of the pixel starting at byte i
      from the key colour. */
  function Distance2(s: seq<byte>, i: int, key: Rgb): (d2: int)
    requires 0 <= i && i + 2 < |s|
    ensures d2 >= 0
  {
    Square(Abs(s[i] as int - key.r as int)) + Square(Abs(s[i + 1] as int - key.g as int))
    + Square(Abs(s[i + 2] as int - key.b as int))
  }

  /** The distance depends on the three colour bytes alone. */
  lemma SameDistance(s: seq<byte>, t: seq<byte>, i: int, key: Rgb)
    requires 0 <= i && i + 2 < |s| && i + 2 < |t|
    requires s[i] == t[i] && s[i + 1] == t[i + 1] && s[i + 2] == t[i + 2]
    ensures Distance2(s, i, key) == Distance2(t, i, key)
  {
  }

  /** `Math.sqrt(d2) < thresh`, stated without the square root. */
  predicate WithinThreshold(d2: int, thresh: int)
  {
    thresh > 0 && d2 < Square(thresh)
  }

  /** A non-negative number lies below t > 0 exactly when its square lies
      below t * t. */
  lemma RootBelow(x: real, d: real, t: real)
    requires 0.0 <= x && x * x == d && 0.0 < t
    ensures x < t <==> d < t * t
  {
    if x < t {
      calc {
        d;
      ==
        x * x;
      <=
        x * t;
      <
        t * t;
      }
    } else {
      calc {
        d;
      ==
        x * x;
      >=
        t * x;
      >=
        t * t;
      }
    }
  }

  /** For any non-negative root `dist` of `d2`, `dist < thresh` holds exactly
      when WithinThreshold does, so the squared test decides what the
      source's `Math.sqrt` test decides. */
  lemma ThresholdMatchesDistance(d2: int, thresh: int, dist: real)
    requires 0.0 <= dist && dist * dist == d2 as real
    ensures dist < thresh as real <==> WithinThreshold(d2, thresh)
  {
    if thresh > 0 {
      var t := thresh as real;
      RootBelow(dist, d2 as real, t);
      SquareIsProduct(thresh);
      assert Square(thresh) as real == t * t;
    }
  }

  /** The chroma-key test for the pixel starting at byte i: not yet
      transparent, and closer than the threshold to the key. */
  predicate KeyedOut(s: seq<byte>, i: int, key: Rgb, thresh: int)
    requires 0 <= i && i + 3 < |s|
  {
    s[i + 3] != 0 && WithinThreshold(Distance2(s, i, key), thresh)
  }

  /** The alpha byte the chroma-key loop leaves on the pixel starting at
      byte i. */
  function KeyedAlpha(s: seq<byte>, i: int, key: Rgb, thresh: int): byte
    requires 0 <= i && i + 3 < |s|
  {
    if KeyedOut(s, i, key, thresh) then 0 else s[i + 3]
  }

  /** The buffer after the chroma-key loop. */
  function ChromaKeyed(s: seq<byte>, key: Rgb, thresh: int): (t: seq<byte>)
    requires |s| % 4 == 0
    ensures |t| == |s|
  {
    seq(|s|, j requires 0 <= j < |s| => if j % 4 == 3 then KeyedAlpha(s, j - 3, key, thresh) else s[j])
  }

  /** The chroma key never touches a colour channel, and it makes a pixel's
      alpha 0 exactly when the pixel was already transparent or lies within
      the threshold of the key; any other alpha is kept. */
  lemma ChromaKeyedAt(s: seq<byte>, key: Rgb, thresh: int, j: int)
    requires |s| % 4 == 0 && 0 <= j < |s|
    ensures j % 4 != 3 ==> ChromaKeyed(s, key, thresh)[j] == s[j]
    ensures j % 4 == 3 ==>
              (ChromaKeyed(s, key, thresh)[j] == 0 <==> s[j] == 0 || WithinThreshold(Distance2(s, j - 3, key), thresh))
    ensures ChromaKeyed(s, key, thresh)[j] == 0 || ChromaKeyed(s, key, thresh)[j] == s[j]
  {
  }

  /** A pixel starting at a multiple of 4 fits in a buffer whose length is
      a multiple of 4. */
  lemma PixelFits(i: int, n: int)
    requires 0 <= i < n && i % 4 == 0 && n % 4 == 0
    ensures i + 4 <= n && (i + 1) % 4 == 1 && (i + 2) % 4 == 2 && (i + 3) % 4 == 3
  {
    var a, b := i / 4, n / 4;
    assert i == 4 * a && n == 4 * b;
    assert a < b;
  }

  /** The chroma-key loop of `renderCanvas`, stride 4 over the buffer. */
  method ChromaKey(data: array<byte>, key: Rgb, thresh: int)
    requires data.Length % 4 == 0
    modifies data
    ensures data[..] == ChromaKeyed(old(data[..]), key, thresh)
  {
    ghost var s := data[..];
    var i := 0;
    while i < data.Length
      invariant 0 <= i <= data.Length && i % 4 == 0
      invariant forall k :: 0 <= k < i ==> data[k] == if k % 4 == 3 then KeyedAlpha(s, k - 3, key, thresh) else s[k]
      invariant forall k :: i <= k < data.Length ==> data[k] == s[k]
    {
      PixelFits(i, data.Length);
      if data[i + 3] == 0 {
        i := i + 4;
        continue;
      }
      var dist2 := Distance2(data[..], i, key);
      SameDistance(data[..], s, i, key);
      if WithinThreshold(dist2, thresh) {
        data[i + 3] := 0;
      }
      i := i + 4;
    }
  }

  /** Keying twice is keying once. */
  lemma ChromaKeyIdempotent(s: seq<byte>, key: Rgb, thresh: int)
    requires |s| % 4 == 0
    ensures ChromaKeyed(ChromaKeyed(s, key, thresh), key, thresh) == ChromaKeyed(s, key, thresh)
  {
    var t := ChromaKeyed(s, key, thresh);
    var u := ChromaKeyed(t, key, thresh);
    forall j | 0 <= j < |s|
      ensures u[j] == t[j]
    {
      if j % 4 == 3 {
        assert t[j - 3] == s[j - 3] && t[j - 2] == s[j - 2] && t[j - 1] == s[j - 1];
        assert Distance2(t, j - 3, key) == Distance2(s, j - 3, key);
      }
    }
  }

  /** A threshold within a smaller one is within a larger one. */
  lemma WithinLargerThreshold(d2: int, thresh: int, thresh': int)
    requires thresh <= thresh' && WithinThreshold(d2, thresh)
    ensures WithinThreshold(d2, thresh')
  {
    SquareMonotone(thresh, thresh');
  }

  lemma {:induction false} SquareMonotone(a: nat, b: nat)
    requires a <= b
    ensures Square(a) <= Square(b)
    decreases b - a
  {
    if a < b {
      SquareMonotone(a, b - 1);
    }
  }

  /** A higher threshold masks at least the pixels a lower one masks. */
  lemma ChromaKeyMonotone(s: seq<byte>, key: Rgb, thresh: int, thresh': int, j: int)
    requires |s| % 4 == 0 && thresh <= thresh' && 0 <= j < |s| && j % 4 == 3
    requires ChromaKeyed(s, key, thresh)[j] == 0
    ensures ChromaKeyed(s, key, thresh')[j] == 0
  {
    if s[j] != 0 {
      WithinLargerThreshold(Distance2(s, j - 3, key), thresh, thresh');
    }
  }

  /** The pixel buffer `renderCanvas` leaves behind, given the freshly drawn
      image: margins first, then the chroma key when it is switched on. */
  function Rendered(s: seq<byte>, width: nat, gx: seq<real>, gy: seq<real>, m: Margins,
                    removeBg: bool, key: Rgb, thresh: int): (t: seq<byte>)
    requires |s| % 4 == 0
    ensures |t| == |s|
  {
    var cleared := MarginPass(s, width, gx, gy, m);
    if removeBg then ChromaKeyed(cleared, key, thresh) else cleared
  }

  /** The pixel work of `renderCanvas` on the canvas buffer. */
  method Render(data: array<byte>, width: nat, gx: seq<real>, gy: seq<real>, m: Margins,
                removeBg: bool, key: Rgb, thresh: int)
    requires data.Length % 4 == 0
    modifies data
    ensures data[..] == Rendered(old(data[..]), width, gx, gy, m, removeBg, key, thresh)
  {
    ApplyMargins(data, width, gx, gy, m);
    if removeBg {
      ChromaKey(data, key, thresh);
    }
  }

  /** Every byte of a pixel in a margin strip ends up 0, whether or not the
      chroma key runs: the key pass skips the already transparent pixel. */
  lemma RenderedMarginIsTransparent(s: seq<byte>, width: nat, gx: seq<real>, gy: seq<real>, m: Margins,
                                    removeBg: bool, key: Rgb, thresh: int, j: int)
    requires |s| % 4 == 0 && 0 <= j < |s| && width > 0
    requires InRowsMargin(gx, gy, m, CellCount(gy), PixelX(width, j), PixelY(width, j))
    ensures Rendered(s, width, gx, gy, m, removeBg, key, thresh)[j] == 0
  {
    MarginPassAt(s, width, gx, gy, m, j);
  }

  /** The four bytes of a pixel share its coordinates. */
  lemma SamePixel(width: nat, j: int)
    requires width > 0 && j >= 3 && j % 4 == 3
    ensures PixelX(width, j - 3) == PixelX(width, j - 2) == PixelX(width, j - 1) == PixelX(width, j)
    ensures PixelY(width, j - 3) == PixelY(width, j - 2) == PixelY(width, j - 1) == PixelY(width, j)
  {
    assert (j - 3) / 4 == (j - 2) / 4 == (j - 1) / 4 == j / 4;
  }

  /** Outside the margin strips the render result is the chroma-keyed image
      (or the image itself when keying is off). */
  lemma RenderedOutsideMargins(s: seq<byte>, width: nat, gx: seq<real>, gy: seq<real>, m: Margins,
                               removeBg: bool, key: Rgb, thresh: int, j: int)
    requires |s| % 4 == 0 && 0 <= j < |s|
    requires !(width > 0 && InRowsMargin(gx, gy, m, CellCount(gy), PixelX(width, j), PixelY(width, j)))
    ensures Rendered(s, width, gx, gy, m, removeBg, key, thresh)[j]
            == if removeBg then ChromaKeyed(s, key, thresh)[j] else s[j]
  {
    var cleared := MarginPass(s, width, gx, gy, m);
    MarginPassAt(s, width, gx, gy, m, j);
    if j % 4 == 3 {
      if width > 0 {
        SamePixel(width, j);
      }
      MarginPassAt(s, width, gx, gy, m, j - 3);
      MarginPassAt(s, width, gx, gy, m, j - 2);
      MarginPassAt(s, width, gx, gy, m, j - 1);
      assert Distance2(cleared, j - 3, key) == Distance2(s, j - 3, key);
    }
  }

  /** A white key with threshold 10 masks the opaque pixel (250, 250, 250),
      at distance about 8.66, and keeps (249, 249, 249), at about 10.39. */
  lemma WhiteKeyExample()
    ensures ChromaKeyed([250, 250, 250, 255, 249, 249, 249, 255], Rgb(255, 255, 255), 10)
            == [250, 250, 250, 0, 249, 249, 249, 255]
  {
    var s: seq<byte> := [250, 250, 250, 255, 249, 249, 249, 255];
    SquareIsProduct(5);
    SquareIsProduct(6);
    SquareIsProduct(10);
    assert Distance2(s, 0, Rgb(255, 255, 255)) == 75;
    assert Distance2(s, 4, Rgb(255, 255, 255)) == 108;
  }
}
