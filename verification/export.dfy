/** Names of the exported slices: the archive entry, and the single-cell
    download, for cell (r, c) is `slice_{r+1}_{c+1}.png`. */
module Export {

  predicate IsDigit(ch: char)
  {
    '0' <= ch <= '9'
  }

  /** The decimal digit for `d`. */
  function DigitChar(d: int): (ch: char)
    requires 0 <= d < 10
    ensures IsDigit(ch) && ch as int - '0' as int == d
  {
    ('0' as int + d) as char
  }

  /** A template literal's rendering of a non-negative integer. */
  function Decimal(n: nat): (s: string)
    ensures |s| >= 1
    ensures forall i :: 0 <= i < |s| ==> IsDigit(s[i])
  {
    if n < 10 then [DigitChar(n)] else Decimal(n / 10) + [DigitChar(n % 10)]
  }

  function DigitValue(ch: char): (d: nat)
    requires IsDigit(ch)
    ensures d < 10
  {
    ch as int - '0' as int
  }

  /** The value of a string of decimal digits. */
  function DecimalValue(s: string): nat
    requires forall i :: 0 <= i < |s| ==> IsDigit(s[i])
  {
    if s == [] then 0 else 10 * DecimalValue(s[..|s| - 1]) + DigitValue(s[|s| - 1])
  }

  /** Reading a rendered number back gives the number. */
  lemma {:induction false} DecimalValueOfDecimal(n: nat)
    ensures DecimalValue(Decimal(n)) == n
  {
    if n >= 10 {
      var s := Decimal(n);
      assert s[..|s| - 1] == Decimal(n / 10);
      DecimalValueOfDecimal(n / 10);
    }
  }

  /** Different numbers render differently. */
  lemma DecimalInjective(m: nat, n: nat)
    requires Decimal(m) == Decimal(n)
    ensures m == n
  {
    DecimalValueOfDecimal(m);
    DecimalValueOfDecimal(n);
  }

  /** The file name of cell (r, c). */
  function SliceName(r: nat, c: nat): string
  {
    "slice_" + (Decimal(r + 1) + "_" + (Decimal(c + 1) + ".png"))
  }

  /** Every slice name starts with `slice_` and ends with `.png`. */
  lemma SliceNameShape(r: nat, c: nat)
    ensures |SliceName(r, c)| >= 12
    ensures SliceName(r, c)[..6] == "slice_" && SliceName(r, c)[|SliceName(r, c)| - 4..] == ".png"
  {
  }

  /** In a run of digits followed by `_`, the first `_` is the one right
      after the digits. */
  lemma UnderscoreAfterDigits(a: string, x: string, k: int)
    requires forall i :: 0 <= i < |a| ==> IsDigit(a[i])
    requires 0 <= k <= |a| && (a + "_" + x)[k] == '_'
    ensures k == |a|
  {
  }

  /** A run of digits followed by `_` can be split at that `_` in only one
      way. */
  lemma SplitAtUnderscore(a: string, x: string, b: string, y: string)
    requires forall i :: 0 <= i < |a| ==> IsDigit(a[i])
    requires forall i :: 0 <= i < |b| ==> IsDigit(b[i])
    requires a + "_" + x == b + "_" + y
    ensures a == b && x == y
  {
    var s := a + "_" + x;
    var m := if |a| <= |b| then |a| else |b|;
    assert s[m] == '_' by {
      assert s[|a|] == '_' && s[|b|] == (b + "_" + y)[|b|] == '_';
    }
    UnderscoreAfterDigits(a, x, m);
    UnderscoreAfterDigits(b, y, m);
    assert a == s[..|a|] == b;
    assert x == s[|a| + 1..] == y;
  }

  lemma DropCommonPrefix(p: string, x: string, y: string)
    requires p + x == p + y
    ensures x == y
  {
    assert x == (p + x)[|p|..];
    assert y == (p + y)[|p|..];
  }

  lemma DropCommonSuffix(x: string, y: string, q: string)
    requires x + q == y + q
    ensures x == y
  {
    assert x == (x + q)[..|x|];
    assert y == (y + q)[..|y|];
  }

  /** No two cells share a file name, so no archive entry overwrites
      another. */
  lemma SliceNameInjective(r1: nat, c1: nat, r2: nat, c2: nat)
    requires SliceName(r1, c1) == SliceName(r2, c2)
    ensures r1 == r2 && c1 == c2
  {
    var d1, d2 := Decimal(c1 + 1), Decimal(c2 + 1);
    var t1 := Decimal(r1 + 1) + "_" + (d1 + ".png");
    var t2 := Decimal(r2 + 1) + "_" + (d2 + ".png");
    DropCommonPrefix("slice_", t1, t2);
    SplitAtUnderscore(Decimal(r1 + 1), d1 + ".png", Decimal(r2 + 1), d2 + ".png");
    DropCommonSuffix(d1, d2, ".png");
    DecimalInjective(r1 + 1, r2 + 1);
    DecimalInjective(c1 + 1, c2 + 1);
  }

  /** The names the export loop gives row r's first n cells, in column order. */
  function RowNames(r: nat, n: int): (names: seq<string>)
    ensures |names| == if n < 0 then 0 else n
  {
    if n <= 0 then [] else RowNames(r, n - 1) + [SliceName(r, n - 1)]
  }

  /** The names the export loop gives the first `rows` rows of a grid with
      `cols` columns: row outer, column inner. */
  function SliceNames(rows: int, cols: int): (names: seq<string>)
  {
    if rows <= 0 then [] else SliceNames(rows - 1, cols) + RowNames(rows - 1, cols)
  }

  /** The export visits every cell once: rows * cols names when both counts
      are positive, none otherwise. */
  lemma {:induction false} SliceNamesCount(rows: int, cols: int)
    ensures |SliceNames(rows, cols)| == if rows > 0 && cols > 0 then rows * cols else 0
  {
    if rows > 0 {
      var prefix := SliceNames(rows - 1, cols);
      assert |SliceNames(rows, cols)| == |prefix| + |RowNames(rows - 1, cols)|;
      SliceNamesCount(rows - 1, cols);
      if cols > 0 {
        OneMoreRow(rows, cols);
      }
    }
  }

  lemma OneMoreRow(rows: int, cols: int)
    ensures (rows - 1) * cols + cols == rows * cols
  {
  }

  lemma {:induction false} RowNamesAt(r: nat, n: int, c: nat)
    requires c < n
    ensures RowNames(r, n)[c] == SliceName(r, c)
  {
    if c < n - 1 {
      RowNamesAt(r, n - 1, c);
    }
  }

  lemma {:induction false} RowMajorBound(r: int, n: int, cols: int, c: int)
    requires 0 <= r < n && 0 <= c < cols
    ensures r * cols + c < n * cols
    decreases n
  {
    assert (r + 1) * cols == r * cols + cols;
    if r + 1 < n {
      RowMajorBound(r, n - 1, cols, c);
      assert n * cols == (n - 1) * cols + cols;
    }
  }

  /** The names of the first n rows are a prefix of the names of the first
      `rows` rows. */
  lemma {:induction false} SliceNamesPrefix(n: int, rows: int, cols: int)
    requires 0 <= n <= rows
    ensures SliceNames(n, cols) <= SliceNames(rows, cols)
    decreases rows
  {
    if n < rows {
      SliceNamesPrefix(n, rows - 1, cols);
    }
  }

  /** Cell (r, c) comes right after the names of the rows above it, at
      column offset c. */
  lemma SliceNamesAtRowStart(rows: int, cols: int, r: nat, c: nat)
    requires r < rows && c < cols
    ensures |SliceNames(r, cols)| + c < |SliceNames(rows, cols)|
    ensures SliceNames(rows, cols)[|SliceNames(r, cols)| + c] == SliceName(r, c)
  {
    SliceNamesPrefix(r + 1, rows, cols);
    RowNamesAt(r, cols, c);
    var above := SliceNames(r, cols);
    assert SliceNames(r + 1, cols) == above + RowNames(r, cols);
    assert SliceNames(r + 1, cols)[|above| + c] == SliceName(r, c);
  }

  /** Row-major order: cell (r, c) is entry r * cols + c. */
  lemma SliceNamesAt(rows: int, cols: int, r: nat, c: nat)
    requires r < rows && c < cols
    ensures |SliceNames(rows, cols)| == rows * cols && r * cols + c < rows * cols
    ensures SliceNames(rows, cols)[r * cols + c] == SliceName(r, c)
  {
    SliceNamesCount(rows, cols);
    SliceNamesCount(r, cols);
    RowMajorBound(r, rows, cols, c);
    SliceNamesAtRowStart(rows, cols, r, c);
    if r == 0 {
      assert r * cols == 0;
    }
  }

  /** Every exported name is the name of a cell of the grid. */
  lemma {:induction false} SliceNamesMember(rows: int, cols: int, k: int)
    requires 0 <= k < |SliceNames(rows, cols)|
    ensures exists r: nat, c: nat :: r < rows && c < cols && SliceNames(rows, cols)[k] == SliceName(r, c)
  {
    var prefix := SliceNames(rows - 1, cols);
    if k < |prefix| {
      SliceNamesMember(rows - 1, cols, k);
    } else {
      RowNamesAt(rows - 1, cols, k - |prefix|);
    }
  }

  lemma {:induction false} RowNamesDistinct(r: nat, n: int)
    ensures forall i, j :: 0 <= i < j < |RowNames(r, n)| ==> RowNames(r, n)[i] != RowNames(r, n)[j]
  {
    if n > 0 {
      RowNamesDistinct(r, n - 1);
      var names := RowNames(r, n);
      forall i, j | 0 <= i < j < |names|
        ensures names[i] != names[j]
      {
        RowNamesAt(r, n, i);
        RowNamesAt(r, n, j);
        if names[i] == names[j] {
          SliceNameInjective(r, i, r, j);
        }
      }
    }
  }

  /** The names of an export are pairwise different: the archive ends up
      with one entry per cell. */
  lemma {:induction false} SliceNamesDistinct(rows: int, cols: int)
    ensures forall i, j :: 0 <= i < j < |SliceNames(rows, cols)| ==>
              SliceNames(rows, cols)[i] != SliceNames(rows, cols)[j]
  {
    if rows > 0 {
      SliceNamesDistinct(rows - 1, cols);
      RowNamesDistinct(rows - 1, cols);
      var prefix, row := SliceNames(rows - 1, cols), RowNames(rows - 1, cols);
      var names := SliceNames(rows, cols);
      forall i, j | 0 <= i < j < |names|
        ensures names[i] != names[j]
      {
        if i < |prefix| && |prefix| <= j {
          SliceNamesMember(rows - 1, cols, i);
          var r: nat, c: nat :| r < rows - 1 && c < cols && prefix[i] == SliceName(r, c);
          RowNamesAt(rows - 1, cols, j - |prefix|);
          if names[i] == names[j] {
            SliceNameInjective(r, c, rows - 1, j - |prefix|);
          }
        } else if |prefix| <= i {
          assert names[i] == row[i - |prefix|] && names[j] == row[j - |prefix|];
        }
      }
    }
  }
}
