/**
 * The layout sizer: every cell of a row is scaled to the same width, the
 * row's share of the desired width; its height follows from the image's
 * aspect ratio. Rows are measured across and columns down with a
 * shape-dependent measure, and the canvas is sized from the widest row and
 * the tallest column plus padding.
 */
module Sizing {
  import opened Geometry
  import opened Partition

  datatype Shape = RectangleShape | CircleShape

  /** A computed target size of one cell. */
  datatype Size = Size(width: nat, height: nat)

  /** Padding around the canvas edge and between cells. */
  function Padding(shape: Shape): (pad: nat)
    ensures pad >= 1
  {
    if shape == CircleShape then 20 else 1
  }

  /**
   * Size of one cell scaled to the given width: the width is the target width
   * and the height keeps the image's aspect ratio, rounded down
   * (CellSizeKeepsAspectRatio).
   */
  function CellSize(img: Image, calculatedWidth: nat): (s: Size)
    requires ValidImage(img)
    ensures s.width == calculatedWidth
  {
    Size(calculatedWidth, ScaledHeight(ImageHeight(img), calculatedWidth, Width(img.bounds)))
  }

  /** An image's height scaled by calculatedWidth / width, rounded down. */
  function ScaledHeight(height: int, calculatedWidth: nat, width: int): nat
    requires width >= 1 && height >= 0
  {
    height * calculatedWidth / width
  }

  /** The cell's height over its width is the image's, up to rounding the height down. */
  lemma CellSizeKeepsAspectRatio(img: Image, calculatedWidth: nat)
    requires ValidImage(img)
    ensures CellSize(img, calculatedWidth).height * Width(img.bounds) <= ImageHeight(img) * calculatedWidth
    ensures ImageHeight(img) * calculatedWidth < (CellSize(img, calculatedWidth).height + 1) * Width(img.bounds)
  {
    var ow, oh := Width(img.bounds), ImageHeight(img);
    var h := oh * calculatedWidth / ow;
    assert ow * h + (oh * calculatedWidth) % ow == oh * calculatedWidth;
  }

  /** The diameter of the circle a cell is cropped to: 4/5 of its smaller side, rounded down. */
  function Diameter(s: Size): (d: nat)
    ensures d <= s.width && d <= s.height
  {
    Min(s.width, s.height) * 4 / 5
  }

  /** The diameter is 4/5 of the smaller side, rounded down. */
  lemma DiameterIsFourFifths(s: Size)
    ensures 5 * Diameter(s) <= 4 * Min(s.width, s.height) < 5 * Diameter(s) + 5
  {
  }

  /** What a cell adds to the width of its row. */
  function RowMeasure(shape: Shape, s: Size): nat
  {
    if shape == RectangleShape then s.width else Diameter(s)
  }

  /** What a cell adds to the height of its column. */
  function ColMeasure(shape: Shape, s: Size): nat
  {
    if shape == RectangleShape then s.height else Diameter(s)
  }

  predicate ValidRows(m: seq<seq<Image>>)
  {
    forall i, j :: 0 <= i < |m| && 0 <= j < |m[i]| ==> ValidImage(m[i][j])
  }

  /** The rows of a list of valid images hold only valid images. */
  lemma RowsAreValid(s: seq<Image>, rows: nat)
    requires rows >= 1
    requires forall i :: 0 <= i < |s| ==> ValidImage(s[i])
    ensures ValidRows(Rows(s, rows))
  {
    var m := Rows(s, rows);
    forall i, j | 0 <= i < |m| && 0 <= j < |m[i]| ensures ValidImage(m[i][j]) {
      RowAt(s, rows, i, j);
    }
  }

  /**
   * The width every cell of a row of the given number of columns is scaled
   * to: the desired width divided evenly, rounded down.
   */
  function Share(desiredWidth: nat, columns: nat): (w: nat)
    requires columns >= 1
    ensures columns * w <= desiredWidth < columns * (w + 1)
  {
    DivisionParts(desiredWidth, columns);
    desiredWidth / columns
  }

  /** Sizes of the cells of one row: each gets the row's share of the desired width. */
  function SizeRow(row: seq<Image>, desiredWidth: nat): (r: seq<Size>)
    requires forall j :: 0 <= j < |row| ==> ValidImage(row[j])
    ensures |r| == |row|
  {
    seq(|row|, j requires 0 <= j < |row| => CellSize(row[j], Share(desiredWidth, |row|)))
  }

  /** Cell j of a row is scaled to the row's share of the desired width. */
  lemma SizeRowAt(row: seq<Image>, desiredWidth: nat, j: nat)
    requires forall k :: 0 <= k < |row| ==> ValidImage(row[k])
    requires j < |row|
    ensures SizeRow(row, desiredWidth)[j] == CellSize(row[j], Share(desiredWidth, |row|))
  {
  }

  /** The size matrix: one size per cell, with the same shape as the image matrix. */
  function SizeMatrix(m: seq<seq<Image>>, desiredWidth: nat): (sm: seq<seq<Size>>)
    requires ValidRows(m)
    ensures |sm| == |m|
    ensures forall i :: 0 <= i < |m| ==> sm[i] == SizeRow(m[i], desiredWidth)
  {
    seq(|m|, i requires 0 <= i < |m| => SizeRow(m[i], desiredWidth))
  }

  /** Width of a row: the sum of its cells' row measures. */
  function RowWidth(shape: Shape, r: seq<Size>): nat
  {
    if |r| == 0 then 0 else RowWidth(shape, r[..|r| - 1]) + RowMeasure(shape, r[|r| - 1])
  }

  /** The widest row's width, 0 when there is no row. */
  function MaxWidth(shape: Shape, sm: seq<seq<Size>>): nat
  {
    if |sm| == 0 then 0 else Max(MaxWidth(shape, sm[..|sm| - 1]), RowWidth(shape, sm[|sm| - 1]))
  }

  /** Height of column col: the sum of the column measures of the rows long enough to have that column. */
  function ColHeight(shape: Shape, sm: seq<seq<Size>>, col: nat): nat
  {
    if |sm| == 0 then 0
    else
      var last := sm[|sm| - 1];
      ColHeight(shape, sm[..|sm| - 1], col) + (if |last| > col then ColMeasure(shape, last[col]) else 0)
  }

  /** The tallest of columns 0 .. columns - 1, 0 when there is none. */
  function MaxHeight(shape: Shape, sm: seq<seq<Size>>, columns: nat): nat
  {
    if columns == 0 then 0 else Max(MaxHeight(shape, sm, columns - 1), ColHeight(shape, sm, columns - 1))
  }

  /** MaxWidth is the width of some row and no row is wider. */
  lemma {:induction false} MaxWidthIsMaximum(shape: Shape, sm: seq<seq<Size>>)
    ensures forall i :: 0 <= i < |sm| ==> RowWidth(shape, sm[i]) <= MaxWidth(shape, sm)
    ensures |sm| > 0 ==> exists i :: 0 <= i < |sm| && RowWidth(shape, sm[i]) == MaxWidth(shape, sm)
  {
    if |sm| > 0 {
      var init := sm[..|sm| - 1];
      MaxWidthIsMaximum(shape, init);
      assert forall i :: 0 <= i < |init| ==> sm[i] == init[i];
    }
  }

  /** MaxHeight is the height of some column below columns and no such column is taller. */
  lemma {:induction false} MaxHeightIsMaximum(shape: Shape, sm: seq<seq<Size>>, columns: nat)
    ensures forall c :: 0 <= c < columns ==> ColHeight(shape, sm, c) <= MaxHeight(shape, sm, columns)
    ensures columns > 0 ==> exists c :: 0 <= c < columns && ColHeight(shape, sm, c) == MaxHeight(shape, sm, columns)
  {
    if columns > 0 {
      MaxHeightIsMaximum(shape, sm, columns - 1);
    }
  }

  /** Width of a row of rectangles is its length times the row's share of the desired width. */
  lemma {:induction false} RectangleRowWidth(row: seq<Image>, desiredWidth: nat, k: nat)
    requires forall j :: 0 <= j < |row| ==> ValidImage(row[j])
    requires k <= |row|
    ensures |row| > 0 ==> RowWidth(RectangleShape, SizeRow(row, desiredWidth)[..k]) == k * Share(desiredWidth, |row|)
  {
    if k > 0 {
      var r := SizeRow(row, desiredWidth);
      RectangleRowWidth(row, desiredWidth, k - 1);
      assert r[..k][..k - 1] == r[..k - 1];
    }
  }

  /** A row of rectangles never exceeds the desired width. */
  lemma RectangleRowFitsDesiredWidth(row: seq<Image>, desiredWidth: nat)
    requires forall j :: 0 <= j < |row| ==> ValidImage(row[j])
    ensures RowWidth(RectangleShape, SizeRow(row, desiredWidth)) <= desiredWidth
  {
    var r := SizeRow(row, desiredWidth);
    RectangleRowWidth(row, desiredWidth, |row|);
    assert r[..|row|] == r;
  }

  /** A row of circles is never wider than the same row of rectangles. */
  lemma {:induction false} CircleRowNarrower(r: seq<Size>)
    ensures RowWidth(CircleShape, r) <= RowWidth(RectangleShape, r)
  {
    if |r| > 0 {
      CircleRowNarrower(r[..|r| - 1]);
    }
  }

  /** Adding cell col to a row's prefix adds the cell's row measure to its width. */
  lemma RowWidthStep(shape: Shape, r: seq<Size>, col: nat)
    requires col < |r|
    ensures RowWidth(shape, r[..col + 1]) == RowWidth(shape, r[..col]) + RowMeasure(shape, r[col])
  {
    assert r[..col + 1][..col] == r[..col];
  }

  /**
   * The body of the sizing loop for one row: every cell gets the row's share
   * of the desired width and the height that keeps its aspect ratio, and the
   * row's width accumulates each cell's row measure.
   */
  method SizeCells(cells: seq<Image>, desiredWidth: nat, shape: Shape) returns (rowSizes: seq<Size>, rowWidth: nat)
    requires forall j :: 0 <= j < |cells| ==> ValidImage(cells[j])
    ensures rowSizes == SizeRow(cells, desiredWidth)
    ensures rowWidth == RowWidth(shape, SizeRow(cells, desiredWidth))
  {
    ghost var sizes := SizeRow(cells, desiredWidth);
    rowSizes := seq(|cells|, _ => Size(0, 0));
    var calculatedWidth := if |cells| > 0 then Share(desiredWidth, |cells|) else 0;
    rowWidth := 0;
    for col := 0 to |cells|
      invariant |rowSizes| == |cells|
      invariant forall j :: 0 <= j < col ==> rowSizes[j] == sizes[j]
      invariant rowWidth == RowWidth(shape, sizes[..col])
    {
      var originalWidth := Width(cells[col].bounds);
      var originalHeight := ImageHeight(cells[col]);
      var w := calculatedWidth;
      var h := ScaledHeight(originalHeight, calculatedWidth, originalWidth);
      SizeRowAt(cells, desiredWidth, col);
      rowSizes := rowSizes[col := Size(w, h)];
      if shape == RectangleShape {
        rowWidth := rowWidth + w;
      } else {
        rowWidth := rowWidth + Diameter(Size(w, h));
      }
      RowWidthStep(shape, sizes, col);
    }
    assert rowSizes == sizes;
    assert sizes[..|cells|] == sizes;
  }

  /**
   * The sizing loop: fills the size matrix row by row and accumulates the
   * width of each row, keeping the largest.
   */
  method ComputeSizes(matrix: array<seq<Image>>, desiredWidth: nat, shape: Shape)
    returns (imagesSize: array<seq<Size>>, maxWidth: nat)
    requires ValidRows(matrix[..])
    ensures imagesSize.Length == matrix.Length
    ensures imagesSize[..] == SizeMatrix(matrix[..], desiredWidth)
    ensures maxWidth == MaxWidth(shape, SizeMatrix(matrix[..], desiredWidth))
  {
    ghost var sm := SizeMatrix(matrix[..], desiredWidth);
    maxWidth := 0;
    imagesSize := new seq<Size>[matrix.Length];
    for row := 0 to matrix.Length
      invariant forall i :: 0 <= i < row ==> imagesSize[i] == sm[i]
      invariant maxWidth == MaxWidth(shape, sm[..row])
    {
      assert sm[row] == SizeRow(matrix[row], desiredWidth);
      var rowSizes, rowWidth := SizeCells(matrix[row], desiredWidth, shape);
      imagesSize[row] := rowSizes;
      if rowWidth > maxWidth {
        maxWidth := rowWidth;
      }
      assert sm[..row + 1][..row] == sm[..row];
    }
    assert sm[..matrix.Length] == sm;
  }

  /**
   * The column loop: for every column index below maxNumberOfColumns, sums the
   * column measure over the rows that have that column, keeping the largest sum.
   */
  method ComputeMaxHeight(imagesSize: array<seq<Size>>, maxNumberOfColumns: nat, shape: Shape)
    returns (maxHeight: nat)
    ensures maxHeight == MaxHeight(shape, imagesSize[..], maxNumberOfColumns)
  {
    maxHeight := 0;
    for col := 0 to maxNumberOfColumns
      invariant maxHeight == MaxHeight(shape, imagesSize[..], col)
    {
      var colHeight := 0;
      for row := 0 to imagesSize.Length
        invariant colHeight == ColHeight(shape, imagesSize[..row], col)
      {
        var cells := imagesSize[row];
        if |cells| > col {
          if shape == RectangleShape {
            colHeight := colHeight + cells[col].height;
          } else {
            colHeight := colHeight + Diameter(Size(cells[col].width, cells[col].height));
          }
        }
        assert imagesSize[..row + 1][..row] == imagesSize[..row];
      }
      assert imagesSize[..imagesSize.Length] == imagesSize[..];
      if colHeight > maxHeight {
        maxHeight := colHeight;
      }
    }
  }

  /**
   * The far corner of the canvas: the widest row plus padding left of every
   * column and after the last, by the tallest column plus padding above every
   * row and below the last.
   */
  function CanvasEnd(shape: Shape, sorted: seq<Image>, numberOfRows: nat, desiredWidth: nat): (end: Point)
    requires numberOfRows >= 1
    requires forall i :: 0 <= i < |sorted| ==> ValidImage(sorted[i])
    ensures end.x >= MaxColumns(|sorted|, numberOfRows) * Padding(shape) + Padding(shape)
    ensures end.y >= numberOfRows * Padding(shape) + Padding(shape)
  {
    var m := Rows(sorted, numberOfRows);
    RowsAreValid(sorted, numberOfRows);
    var sm := SizeMatrix(m, desiredWidth);
    var pad := Padding(shape);
    var columns := MaxColumns(|sorted|, numberOfRows);
    Point(MaxWidth(shape, sm) + (columns + 1) * pad, MaxHeight(shape, sm, columns) + (numberOfRows + 1) * pad)
  }
}
