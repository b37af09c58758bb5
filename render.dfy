/**
 * The placer: walks the rows top to bottom and the cells of each row left to
 * right with a cursor (spX, spY), recomputes each cell's size, and draws the
 * resized image at the cursor, directly for rectangles or through a circular
 * mask for circles. Pixels are not modelled: the canvas records every draw
 * call it receives.
 */
module Render {
  import opened Geometry
  import opened Mask
  import opened Sizing

  datatype Option<T> = None | Some(value: T)

  /**
   * One draw call: the image of cell (row, col), resized to w x h, drawn with
   * its top-left corner at (x, y), through mask when there is one.
   */
  datatype Placement = Placement(row: nat, col: nat, x: int, y: int, w: nat, h: nat, mask: Option<Circle>)

  /** The output image: its bounds, fixed at allocation, and the draws made on it so far. */
  class Canvas {
    const bounds: Rectangle
    var drawn: seq<Placement>

    constructor (end: Point)
      ensures bounds == Rectangle(Point(0, 0), end)
      ensures drawn == []
    {
      bounds := Rectangle(Point(0, 0), end);
      drawn := [];
    }

    /** Draws the image of cell (row, col), resized to width x height, at sp. */
    method DrawRaw(row: nat, col: nat, sp: Point, width: nat, height: nat)
      modifies this
      ensures drawn == old(drawn) + [Placement(row, col, sp.x, sp.y, width, height, None)]
    {
      drawn := drawn + [Placement(row, col, sp.x, sp.y, width, height, None)];
    }

    /**
     * Draws the image of cell (row, col), resized to width x height, at sp
     * through the circular mask built for that size and the given diameter.
     */
    method DrawInCircle(row: nat, col: nat, sp: Point, width: nat, height: nat, diameter: nat)
      modifies this
      ensures drawn == old(drawn) + [Placement(row, col, sp.x, sp.y, width, height, Some(MaskFor(width, height, diameter)))]
    {
      var mask := MaskFor(width, height, diameter);
      drawn := drawn + [Placement(row, col, sp.x, sp.y, width, height, Some(mask))];
    }
  }

  /**
   * The size a cell is drawn at: its computed size for rectangles, a square of
   * the circle's diameter for circles. It is what the sizer measured.
   */
  function Drawn(shape: Shape, s: Size): (d: Size)
    ensures d.width == RowMeasure(shape, s) && d.height == ColMeasure(shape, s)
    ensures d.width <= s.width && d.height <= s.height
  {
    if shape == RectangleShape then s else Size(Diameter(s), Diameter(s))
  }

  /** The tallest drawn height in a row, 0 for an empty row. */
  function RowHeight(shape: Shape, r: seq<Size>): nat
  {
    if |r| == 0 then 0 else Max(RowHeight(shape, r[..|r| - 1]), Drawn(shape, r[|r| - 1]).height)
  }

  /** Left edge of cell col: padding, then each earlier cell's drawn width plus padding. */
  function CellX(shape: Shape, r: seq<Size>, col: nat): int
    requires col <= |r|
  {
    if col == 0 then Padding(shape) else CellX(shape, r, col - 1) + Drawn(shape, r[col - 1]).width + Padding(shape)
  }

  /** Top edge of row i: padding, then each earlier row's height plus padding. */
  function RowY(shape: Shape, sm: seq<seq<Size>>, i: nat): int
    requires i <= |sm|
  {
    if i == 0 then Padding(shape) else RowY(shape, sm, i - 1) + RowHeight(shape, sm[i - 1]) + Padding(shape)
  }

  /** The draw call for cell col of a row whose cells have the given sizes, placed at height y. */
  function CellDraw(shape: Shape, sizes: seq<Size>, row: nat, col: nat, y: int): Placement
    requires col < |sizes|
  {
    var d := Drawn(shape, sizes[col]);
    var mask := if shape == RectangleShape then None else Some(MaskFor(d.width, d.height, d.width));
    Placement(row, col, CellX(shape, sizes, col), y, d.width, d.height, mask)
  }

  /** The draw calls of one row, left to right, at height y. */
  function RowDraws(shape: Shape, sizes: seq<Size>, row: nat, y: int): (ps: seq<Placement>)
    ensures |ps| == |sizes|
  {
    seq(|sizes|, j requires 0 <= j < |sizes| => CellDraw(shape, sizes, row, j, y))
  }

  /** The draw call for cell (i, j). */
  function PlacementAt(shape: Shape, sm: seq<seq<Size>>, i: nat, j: nat): Placement
    requires i < |sm| && j < |sm[i]|
  {
    CellDraw(shape, sm[i], i, j, RowY(shape, sm, i))
  }

  /** The draw calls of row i, left to right. */
  function RowPlacements(shape: Shape, sm: seq<seq<Size>>, i: nat): (ps: seq<Placement>)
    requires i < |sm|
    ensures |ps| == |sm[i]|
  {
    RowDraws(shape, sm[i], i, RowY(shape, sm, i))
  }

  /** The draw calls of the first k rows, in drawing order. */
  function PlacementsUpTo(shape: Shape, sm: seq<seq<Size>>, k: nat): seq<Placement>
    requires k <= |sm|
  {
    if k == 0 then [] else PlacementsUpTo(shape, sm, k - 1) + RowPlacements(shape, sm, k - 1)
  }

  /** All draw calls of the collage, in drawing order. */
  function Placements(shape: Shape, sm: seq<seq<Size>>): seq<Placement>
  {
    PlacementsUpTo(shape, sm, |sm|)
  }

  /** Advancing past cell col moves the cursor by its drawn width plus padding and may raise the row height. */
  lemma CursorStep(shape: Shape, sizes: seq<Size>, col: nat)
    requires col < |sizes|
    ensures CellX(shape, sizes, col + 1) == CellX(shape, sizes, col) + Drawn(shape, sizes[col]).width + Padding(shape)
    ensures RowHeight(shape, sizes[..col + 1]) == Max(RowHeight(shape, sizes[..col]), Drawn(shape, sizes[col]).height)
  {
    assert sizes[..col + 1][..col] == sizes[..col];
  }

  /**
   * The body of the render loop for one row: the cursor starts at the left
   * padding, every cell's size is recomputed, the cell is drawn at the cursor
   * and the cursor moves right by its drawn width plus padding. On row 0 the
   * cursor's height is set to the padding when the first cell is drawn.
   * Returns the cursor's height and the tallest drawn cell.
   */
  method DrawRow(canvas: Canvas, cells: seq<Image>, row: nat, desiredWidth: nat, shape: Shape, spY0: int)
    returns (spY: int, rowHeight: nat)
    requires forall j :: 0 <= j < |cells| ==> ValidImage(cells[j])
    modifies canvas
    ensures spY == if row == 0 && |cells| > 0 then Padding(shape) else spY0
    ensures canvas.drawn == old(canvas.drawn) + RowDraws(shape, SizeRow(cells, desiredWidth), row, spY)
    ensures rowHeight == RowHeight(shape, SizeRow(cells, desiredWidth))
  {
    ghost var sizes := SizeRow(cells, desiredWidth);
    ghost var y := if row == 0 && |cells| > 0 then Padding(shape) else spY0;
    ghost var rd := RowDraws(shape, sizes, row, y);
    var padding := Padding(shape);
    var spX := 0;
    spY := spY0;
    rowHeight := 0;
    var calculatedWidth := if |cells| > 0 then Share(desiredWidth, |cells|) else 0;
    for col := 0 to |cells|
      invariant canvas.drawn == old(canvas.drawn) + rd[..col]
      invariant col > 0 ==> spX == CellX(shape, sizes, col)
      invariant spY == if col > 0 then y else spY0
      invariant rowHeight == RowHeight(shape, sizes[..col])
    {
      var originalWidth := Width(cells[col].bounds);
      var w := calculatedWidth;
      var h := ScaledHeight(ImageHeight(cells[col]), calculatedWidth, originalWidth);
      SizeRowAt(cells, desiredWidth, col);
      if col == 0 {
        spX := padding;
      }
      if row == 0 {
        spY := padding;
      }
      var sp := Point(spX, spY);
      ghost var drawnBefore := canvas.drawn;
      if shape == RectangleShape {
        canvas.DrawRaw(row, col, sp, w, h);
      } else {
        w := Diameter(Size(w, h));
        h := w;
        canvas.DrawInCircle(row, col, sp, w, h, w);
      }
      assert canvas.drawn == drawnBefore + [rd[col]];
      spX := spX + w + padding;
      if h > rowHeight {
        rowHeight := h;
      }
      assert rd[..col + 1] == rd[..col] + [rd[col]];
      assert old(canvas.drawn) + rd[..col + 1] == old(canvas.drawn) + rd[..col] + [rd[col]];
      CursorStep(shape, sizes, col);
    }
    assert rd[..|cells|] == rd;
    assert sizes[..|cells|] == sizes;
  }

  /**
   * The render loop: draws the rows top to bottom, moving the cursor down by
   * each row's tallest drawn cell plus padding. The source re-derives every
   * cell's size rather than reading the sizer's table; the contract says the
   * result is the table's. Row 0 must be a longest row, as the partitioner
   * guarantees: the cursor's height is set to the padding only when row 0 has
   * a cell.
   */
  method Render(canvas: Canvas, matrix: array<seq<Image>>, desiredWidth: nat, shape: Shape)
    requires matrix.Length >= 1
    requires ValidRows(matrix[..])
    requires forall i :: 0 <= i < matrix.Length ==> |matrix[i]| <= |matrix[0]|
    modifies canvas
    ensures canvas.drawn == old(canvas.drawn) + Placements(shape, SizeMatrix(matrix[..], desiredWidth))
  {
    ghost var sm := SizeMatrix(matrix[..], desiredWidth);
    var padding := Padding(shape);
    var spY := 0;
    for row := 0 to matrix.Length
      invariant canvas.drawn == old(canvas.drawn) + PlacementsUpTo(shape, sm, row)
      invariant row > 0 && |sm[0]| > 0 ==> spY == RowY(shape, sm, row)
    {
      var rowHeight;
      ghost var drawnBefore := canvas.drawn;
      ghost var spYBefore := spY;
      assert sm[row] == SizeRow(matrix[row], desiredWidth);
      spY, rowHeight := DrawRow(canvas, matrix[row], row, desiredWidth, shape, spY);
      RowAppended(shape, sm, row, old(canvas.drawn), drawnBefore, canvas.drawn, spYBefore, spY);
      spY := spY + rowHeight + padding;
    }
  }

  /**
   * One step of the render loop: once the draws of rows 0 .. row - 1 are on
   * the canvas, drawing row row at the cursor's height appends its placements,
   * and the cursor moved past the row is the top edge of the next row.
   */
  lemma {:induction false} RowAppended(shape: Shape, sm: seq<seq<Size>>, row: nat, base: seq<Placement>,
                                       before: seq<Placement>, after: seq<Placement>, y0: int, y: int)
    requires row < |sm|
    requires forall i :: 0 <= i < |sm| ==> |sm[i]| <= |sm[0]|
    requires before == base + PlacementsUpTo(shape, sm, row)
    requires row > 0 && |sm[0]| > 0 ==> y0 == RowY(shape, sm, row)
    requires y == if row == 0 && |sm[row]| > 0 then Padding(shape) else y0
    requires after == before + RowDraws(shape, sm[row], row, y)
    ensures after == base + PlacementsUpTo(shape, sm, row + 1)
    ensures |sm[0]| > 0 ==> y + RowHeight(shape, sm[row]) + Padding(shape) == RowY(shape, sm, row + 1)
  {
    if |sm[row]| > 0 {
      assert y == RowY(shape, sm, row);
    } else {
      assert RowDraws(shape, sm[row], row, y) == [] == RowPlacements(shape, sm, row);
    }
    if |sm[0]| > 0 && row == 0 {
      assert y == RowY(shape, sm, row);
    }
    assert base + PlacementsUpTo(shape, sm, row + 1) == base + PlacementsUpTo(shape, sm, row) + RowPlacements(shape, sm, row);
  }
}
