/**
 * Properties of the layout the render loop produces: the draw calls
 * enumerate the cells row by row, no two drawn cells overlap, every cell lies
 * inside the canvas horizontally, every circular mask stays inside its cell,
 * and the rows stacked one under the other need a canvas at least as tall as
 * the one that is allocated.
 */
module Layout {
  import opened Geometry
  import opened Mask
  import opened Partition
  import opened Sizing
  import opened Render

  /** The left edge of cell col is the padding, the widths of the cells before it and a padding after each. */
  lemma {:induction false} CellXIsPrefixWidth(shape: Shape, r: seq<Size>, col: nat)
    requires col <= |r|
    ensures CellX(shape, r, col) == Padding(shape) + RowWidth(shape, r[..col]) + col * Padding(shape)
  {
    if col > 0 {
      CellXIsPrefixWidth(shape, r, col - 1);
      RowWidthStep(shape, r, col - 1);
    }
  }

  /** A prefix of a row is never wider than the row. */
  lemma {:induction false} RowWidthOfPrefix(shape: Shape, r: seq<Size>, k: nat)
    requires k <= |r|
    ensures RowWidth(shape, r[..k]) <= RowWidth(shape, r)
  {
    if k < |r| {
      var init := r[..|r| - 1];
      RowWidthOfPrefix(shape, init, k);
      assert init[..k] == r[..k];
    } else {
      assert r[..k] == r;
    }
  }

  /** No cell of a row is drawn taller than the row's height. */
  lemma {:induction false} RowHeightIsMaximum(shape: Shape, r: seq<Size>, j: nat)
    requires j < |r|
    ensures Drawn(shape, r[j]).height <= RowHeight(shape, r)
  {
    if j < |r| - 1 {
      var init := r[..|r| - 1];
      RowHeightIsMaximum(shape, init, j);
      assert init[j] == r[j];
    }
  }

  /** A cell ends, padding included, no further right than where any later cell of its row starts. */
  lemma {:induction false} CellXIncreases(shape: Shape, r: seq<Size>, j: nat, k: nat)
    requires j < k <= |r|
    ensures CellX(shape, r, j) + Drawn(shape, r[j]).width + Padding(shape) <= CellX(shape, r, k)
  {
    if k > j + 1 {
      CellXIncreases(shape, r, j, k - 1);
    }
  }

  /** A row ends, padding included, no lower than where any later row starts. */
  lemma {:induction false} RowYIncreases(shape: Shape, sm: seq<seq<Size>>, i: nat, k: nat)
    requires i < k <= |sm|
    ensures RowY(shape, sm, i) + RowHeight(shape, sm[i]) + Padding(shape) <= RowY(shape, sm, k)
  {
    if k > i + 1 {
      RowYIncreases(shape, sm, i, k - 1);
    }
  }

  /** Every row starts at least one padding below the top edge. */
  lemma {:induction false} RowYAtLeastPadding(shape: Shape, sm: seq<seq<Size>>, i: nat)
    requires i <= |sm|
    ensures RowY(shape, sm, i) >= Padding(shape)
  {
    if i > 0 {
      RowYAtLeastPadding(shape, sm, i - 1);
    }
  }

  /**
   * Two different cells are drawn on disjoint rectangles, separated by at
   * least one pixel: side by side within a row, one above the other across
   * rows.
   */
  lemma CellsDoNotOverlap(shape: Shape, sm: seq<seq<Size>>, i: nat, j: nat, k: nat, l: nat)
    requires i < |sm| && j < |sm[i]| && k < |sm| && l < |sm[k]|
    requires i != k || j != l
    ensures var p, q := PlacementAt(shape, sm, i, j), PlacementAt(shape, sm, k, l);
      p.x + p.w < q.x || q.x + q.w < p.x || p.y + p.h < q.y || q.y + q.h < p.y
  {
    if i == k {
      if j < l {
        CellXIncreases(shape, sm[i], j, l);
      } else {
        CellXIncreases(shape, sm[i], l, j);
      }
    } else if i < k {
      RowYIncreases(shape, sm, i, k);
      RowHeightIsMaximum(shape, sm[i], j);
    } else {
      RowYIncreases(shape, sm, k, i);
      RowHeightIsMaximum(shape, sm[k], l);
    }
  }

  /**
   * Every cell lies inside the canvas horizontally, at least one padding
   * from either edge, when the canvas is as wide as the widest row plus one
   * padding per column and one more, and no row has more than columns cells.
   * It also starts at least one padding below the top edge.
   */
  lemma CellWithinCanvasWidth(shape: Shape, sm: seq<seq<Size>>, i: nat, j: nat, columns: nat)
    requires i < |sm| && j < |sm[i]| && |sm[i]| <= columns
    ensures var p := PlacementAt(shape, sm, i, j);
      Padding(shape) <= p.x && p.x + p.w + Padding(shape) <= MaxWidth(shape, sm) + (columns + 1) * Padding(shape)
      && Padding(shape) <= p.y
  {
    var r, pad := sm[i], Padding(shape);
    CellXIsPrefixWidth(shape, r, j);
    RowWidthStep(shape, r, j);
    RowWidthOfPrefix(shape, r, j + 1);
    MaxWidthIsMaximum(shape, sm);
    MulMonotone(j + 1, columns, pad);
    MulStep(j, pad);
    MulStep(columns, pad);
    RowYAtLeastPadding(shape, sm, i);
  }

  /**
   * Every cell lies, padding included, above the bottom of the stacked rows:
   * the top padding plus every row's height and a padding under each.
   */
  lemma CellWithinStackedRows(shape: Shape, sm: seq<seq<Size>>, i: nat, j: nat)
    requires i < |sm| && j < |sm[i]|
    ensures var p := PlacementAt(shape, sm, i, j);
      p.y + p.h + Padding(shape) <= RowY(shape, sm, |sm|)
  {
    RowYIncreases(shape, sm, i, |sm|);
    RowHeightIsMaximum(shape, sm[i], j);
  }

  /** A cell is cropped to a circle exactly when the shape is the circle, and then it is a square of the cell's diameter. */
  lemma CellShape(shape: Shape, sm: seq<seq<Size>>, i: nat, j: nat)
    requires i < |sm| && j < |sm[i]|
    ensures var p := PlacementAt(shape, sm, i, j);
      (p.mask.Some? <==> shape == CircleShape)
      && (shape == RectangleShape ==> p.w == sm[i][j].width && p.h == sm[i][j].height)
      && (shape == CircleShape ==> p.w == p.h == Diameter(sm[i][j]) && p.mask.value.r == p.w / 2
                                   && p.mask.value.p == Point(p.w / 2, p.w / 2))
  {
  }

  /** The circular mask of a cell never shows a pixel outside the cell. */
  lemma MaskWithinCell(shape: Shape, sm: seq<seq<Size>>, i: nat, j: nat, x: int, y: int)
    requires i < |sm| && j < |sm[i]|
    requires PlacementAt(shape, sm, i, j).mask.Some?
    requires At(PlacementAt(shape, sm, i, j).mask.value, x, y) == Opaque
    ensures 0 <= x < PlacementAt(shape, sm, i, j).w && 0 <= y < PlacementAt(shape, sm, i, j).h
  {
    var d := Drawn(shape, sm[i][j]);
    MaskWithinImage(d.width, d.height, d.width, x, y);
  }

  /**
   * When the rows have the partitioner's lengths, the draw calls of the first
   * k rows are one per cell, row by row and left to right: call t is the
   * draw of cell (row, col) with RowStart(row) + col == t.
   */
  lemma {:induction false} PlacementsEnumerateCells(shape: Shape, sm: seq<seq<Size>>, n: nat, rows: nat, k: nat)
    requires rows >= 1 && |sm| == rows && k <= rows
    requires forall i :: 0 <= i < rows ==> |sm[i]| == RowLength(n, rows, i)
    ensures |PlacementsUpTo(shape, sm, k)| == RowStart(n, rows, k)
    ensures forall t :: 0 <= t < |PlacementsUpTo(shape, sm, k)| ==>
      PlacementsUpTo(shape, sm, k)[t].row < k
      && PlacementsUpTo(shape, sm, k)[t].col < |sm[PlacementsUpTo(shape, sm, k)[t].row]|
      && RowStart(n, rows, PlacementsUpTo(shape, sm, k)[t].row) + PlacementsUpTo(shape, sm, k)[t].col == t
      && PlacementsUpTo(shape, sm, k)[t] == PlacementAt(shape, sm, PlacementsUpTo(shape, sm, k)[t].row, PlacementsUpTo(shape, sm, k)[t].col)
  {
    if k > 0 {
      PlacementsEnumerateCells(shape, sm, n, rows, k - 1);
      RowsAreConsecutive(n, rows, k - 1);
      var before, rp := PlacementsUpTo(shape, sm, k - 1), RowPlacements(shape, sm, k - 1);
      var all := PlacementsUpTo(shape, sm, k);
      assert all == before + rp;
      forall t | |before| <= t < |all|
        ensures all[t].row == k - 1 && all[t].col == t - |before|
        ensures all[t] == PlacementAt(shape, sm, k - 1, t - |before|)
      {
        assert all[t] == rp[t - |before|];
      }
    }
  }
  /** The top edges of the first k rows do not depend on the rows after them. */
  lemma {:induction false} RowYOfPrefix(shape: Shape, sm: seq<seq<Size>>, k: nat, i: nat)
    requires i <= k <= |sm|
    ensures RowY(shape, sm[..k], i) == RowY(shape, sm, i)
  {
    if i > 0 {
      RowYOfPrefix(shape, sm, k, i - 1);
      assert sm[..k][i - 1] == sm[i - 1];
    }
  }

  /**
   * A column is never taller than the rows stacked: each of its cells is at
   * most as tall as its row, so the column with a padding above every row
   * and below the last ends no lower than the last row does.
   */
  lemma {:induction false} ColHeightWithinStackedRows(shape: Shape, sm: seq<seq<Size>>, col: nat)
    ensures ColHeight(shape, sm, col) + (|sm| + 1) * Padding(shape) <= RowY(shape, sm, |sm|)
  {
    var n, pad := |sm|, Padding(shape);
    if n > 0 {
      var init, last := sm[..n - 1], sm[n - 1];
      ColHeightWithinStackedRows(shape, init, col);
      RowYOfPrefix(shape, sm, n - 1, n - 1);
      if |last| > col {
        RowHeightIsMaximum(shape, last, col);
      }
      MulStep(n, pad);
    }
  }

  /** The tallest column, with the padding of every row and one more, fits in the stacked rows. */
  lemma MaxHeightWithinStackedRows(shape: Shape, sm: seq<seq<Size>>, columns: nat)
    ensures MaxHeight(shape, sm, columns) + (|sm| + 1) * Padding(shape) <= RowY(shape, sm, |sm|)
  {
    MaxHeightIsMaximum(shape, sm, columns);
    if columns > 0 {
      var c :| 0 <= c < columns && ColHeight(shape, sm, c) == MaxHeight(shape, sm, columns);
      ColHeightWithinStackedRows(shape, sm, c);
    } else {
      ColHeightWithinStackedRows(shape, sm, 0);
    }
  }
}
