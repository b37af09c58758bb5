/**
 * The collage engine end to end: sort the images tallest first, cut them into
 * rows, size every cell, size the canvas from the widest row and the tallest
 * column, and draw every cell at the cursor. The canvas is a recorder of draw
 * calls; the lemmas describe the draw calls of a collage in terms of the
 * sorted images.
 */
module Collage {
  import opened Geometry
  import opened Mask
  import opened Partition
  import opened Sizing
  import opened Render
  import opened Layout

  /** What the engine demands of its input images. */
  predicate AllValid(s: seq<Image>)
  {
    forall i :: 0 <= i < |s| ==> ValidImage(s[i])
  }

  /** The size matrix of the sorted images cut into the given number of rows. */
  function CollageSizes(sorted: seq<Image>, numberOfRows: nat, desiredWidth: nat): (sm: seq<seq<Size>>)
    requires numberOfRows >= 1 && AllValid(sorted)
    ensures |sm| == numberOfRows
    ensures forall i :: 0 <= i < numberOfRows ==> |sm[i]| == RowLength(|sorted|, numberOfRows, i)
  {
    RowsAreValid(sorted, numberOfRows);
    SizeMatrix(Rows(sorted, numberOfRows), desiredWidth)
  }

  /** The draw calls of the collage of the sorted images, one per image (DrawOrderIsSortedOrder). */
  function CollageDraws(shape: Shape, sorted: seq<Image>, numberOfRows: nat, desiredWidth: nat): (ps: seq<Placement>)
    requires numberOfRows >= 1 && AllValid(sorted)
    ensures |ps| == |sorted|
  {
    var sm := CollageSizes(sorted, numberOfRows, desiredWidth);
    PlacementsEnumerateCells(shape, sm, |sorted|, numberOfRows, numberOfRows);
    RowsAreConsecutive(|sorted|, numberOfRows, numberOfRows - 1);
    Placements(shape, sm)
  }

  /**
   * makeImageCollage: sorts the caller's images in place, tallest first,
   * partitions them into rows, sizes the cells and the canvas, allocates the
   * canvas and renders every cell onto it.
   */
  method MakeImageCollage(desiredWidth: nat, numberOfRows: nat, shape: Shape, images: array<Image>)
    returns (output: Canvas)
    requires numberOfRows >= 1
    requires AllValid(images[..])
    modifies images
    ensures HeightsNonIncreasing(images[..])
    ensures multiset(images[..]) == old(multiset(images[..]))
    ensures AllValid(images[..])
    ensures fresh(output)
    ensures output.bounds == Rectangle(Point(0, 0), CanvasEnd(shape, images[..], numberOfRows, desiredWidth))
    ensures output.drawn == CollageDraws(shape, images[..], numberOfRows, desiredWidth)
  {
    SortByHeight(images);
    ValidAfterPermutation(old(images[..]), images[..]);
    output := LayOutSorted(desiredWidth, numberOfRows, shape, images[..]);
  }

  /**
   * The part of makeImageCollage after the sort: partitions the sorted images
   * into rows, sizes the cells and the canvas, allocates the canvas and
   * renders every cell onto it.
   */
  method LayOutSorted(desiredWidth: nat, numberOfRows: nat, shape: Shape, sorted: seq<Image>)
    returns (output: Canvas)
    requires numberOfRows >= 1
    requires AllValid(sorted)
    ensures fresh(output)
    ensures output.bounds == Rectangle(Point(0, 0), CanvasEnd(shape, sorted, numberOfRows, desiredWidth))
    ensures output.drawn == CollageDraws(shape, sorted, numberOfRows, desiredWidth)
  {
    var matrix, maxNumberOfColumns := PartitionRows(sorted, numberOfRows);
    ghost var sm := CollageSizes(sorted, numberOfRows, desiredWidth);
    RowsAreValid(sorted, numberOfRows);
    var imagesSize, maxWidth := ComputeSizes(matrix, desiredWidth, shape);
    assert imagesSize[..] == sm;
    var maxHeight := ComputeMaxHeight(imagesSize, maxNumberOfColumns, shape);
    var padding := Padding(shape);
    var endX: int := maxWidth + (maxNumberOfColumns as int - 1) * padding + 2 * padding;
    var endY: int := maxHeight + (numberOfRows as int - 1) * padding + 2 * padding;
    PaddingAroundCells(maxNumberOfColumns, padding);
    PaddingAroundCells(numberOfRows, padding);
    assert Point(endX, endY) == CanvasEnd(shape, sorted, numberOfRows, desiredWidth);
    output := new Canvas(Point(endX, endY));
    Render.Render(output, matrix, desiredWidth, shape);
    assert output.drawn == Placements(shape, sm);
  }

  /** A permutation of valid images holds only valid images. */
  lemma ValidAfterPermutation(a: seq<Image>, b: seq<Image>)
    requires AllValid(a) && multiset(a) == multiset(b)
    ensures AllValid(b)
  {
    forall i | 0 <= i < |b|
      ensures ValidImage(b[i])
    {
      assert b[i] in multiset(a);
    }
  }

  /** n cells take one padding before each cell after the first and two more at the ends: n + 1 paddings. */
  lemma PaddingAroundCells(n: int, pad: int)
    ensures (n - 1) * pad + 2 * pad == (n + 1) * pad
  {
  }

  /**
   * Draw call t draws the t-th image of the sorted list, from its cell in the
   * partition, at that cell's measured size: the row's share of the desired
   * width and the image's scaled height, or for circles the diameter.
   */
  lemma DrawOrderIsSortedOrder(shape: Shape, sorted: seq<Image>, numberOfRows: nat, desiredWidth: nat, t: nat)
    requires numberOfRows >= 1 && AllValid(sorted)
    requires t < |sorted|
    ensures CollageDraws(shape, sorted, numberOfRows, desiredWidth)[t].row < numberOfRows
    ensures CollageDraws(shape, sorted, numberOfRows, desiredWidth)[t].col
            < |Rows(sorted, numberOfRows)[CollageDraws(shape, sorted, numberOfRows, desiredWidth)[t].row]|
    ensures var p, m := CollageDraws(shape, sorted, numberOfRows, desiredWidth)[t], Rows(sorted, numberOfRows);
      m[p.row][p.col] == sorted[t]
      && p.w == RowMeasure(shape, CellSize(sorted[t], Share(desiredWidth, |m[p.row]|)))
      && p.h == ColMeasure(shape, CellSize(sorted[t], Share(desiredWidth, |m[p.row]|)))
  {
    var sm, m := CollageSizes(sorted, numberOfRows, desiredWidth), Rows(sorted, numberOfRows);
    var p := CollageDraws(shape, sorted, numberOfRows, desiredWidth)[t];
    PlacementsEnumerateCells(shape, sm, |sorted|, numberOfRows, numberOfRows);
    RowsAreValid(sorted, numberOfRows);
    RowAt(sorted, numberOfRows, p.row, p.col);
    SizeRowAt(m[p.row], desiredWidth, p.col);
  }

  /** Every draw call lies inside the canvas horizontally, a padding from each side, and a padding below the top. */
  lemma EveryDrawWithinCanvasWidth(shape: Shape, sorted: seq<Image>, numberOfRows: nat, desiredWidth: nat, t: nat)
    requires numberOfRows >= 1 && AllValid(sorted)
    requires t < |sorted|
    ensures var p, end := CollageDraws(shape, sorted, numberOfRows, desiredWidth)[t], CanvasEnd(shape, sorted, numberOfRows, desiredWidth);
      Padding(shape) <= p.x && p.x + p.w + Padding(shape) <= end.x && Padding(shape) <= p.y
  {
    var sm := CollageSizes(sorted, numberOfRows, desiredWidth);
    var p := CollageDraws(shape, sorted, numberOfRows, desiredWidth)[t];
    PlacementsEnumerateCells(shape, sm, |sorted|, numberOfRows, numberOfRows);
    FirstRowIsLongest(|sorted|, numberOfRows, p.row);
    CellWithinCanvasWidth(shape, sm, p.row, p.col, MaxColumns(|sorted|, numberOfRows));
  }

  /** Two different draw calls cover disjoint rectangles. */
  lemma DrawsDoNotOverlap(shape: Shape, sorted: seq<Image>, numberOfRows: nat, desiredWidth: nat, t: nat, u: nat)
    requires numberOfRows >= 1 && AllValid(sorted)
    requires t < |sorted| && u < |sorted| && t != u
    ensures var p, q := CollageDraws(shape, sorted, numberOfRows, desiredWidth)[t], CollageDraws(shape, sorted, numberOfRows, desiredWidth)[u];
      p.x + p.w < q.x || q.x + q.w < p.x || p.y + p.h < q.y || q.y + q.h < p.y
  {
    var sm := CollageSizes(sorted, numberOfRows, desiredWidth);
    var ps := CollageDraws(shape, sorted, numberOfRows, desiredWidth);
    PlacementsEnumerateCells(shape, sm, |sorted|, numberOfRows, numberOfRows);
    CellsDoNotOverlap(shape, sm, ps[t].row, ps[t].col, ps[u].row, ps[u].col);
  }

  /**
   * Circles are drawn through a mask that never shows a pixel outside the
   * cell; rectangles are drawn without a mask.
   */
  lemma MasksStayInsideDraws(shape: Shape, sorted: seq<Image>, numberOfRows: nat, desiredWidth: nat, t: nat, x: int, y: int)
    requires numberOfRows >= 1 && AllValid(sorted)
    requires t < |sorted|
    ensures var p := CollageDraws(shape, sorted, numberOfRows, desiredWidth)[t];
      (p.mask.Some? <==> shape == CircleShape)
      && (p.mask.Some? && At(p.mask.value, x, y) == Opaque ==> 0 <= x < p.w && 0 <= y < p.h)
  {
    var sm := CollageSizes(sorted, numberOfRows, desiredWidth);
    var p := CollageDraws(shape, sorted, numberOfRows, desiredWidth)[t];
    PlacementsEnumerateCells(shape, sm, |sorted|, numberOfRows, numberOfRows);
    CellShape(shape, sm, p.row, p.col);
    if p.mask.Some? && At(p.mask.value, x, y) == Opaque {
      MaskWithinCell(shape, sm, p.row, p.col, x, y);
    }
  }

  /**
   * The canvas the rows actually need: as wide as the source's canvas, and as
   * tall as every row's height plus a padding above each row and below the
   * last. It is never shorter than the source's canvas.
   */
  function FittedCanvasEnd(shape: Shape, sorted: seq<Image>, numberOfRows: nat, desiredWidth: nat): (end: Point)
    requires numberOfRows >= 1 && AllValid(sorted)
    ensures end.x == CanvasEnd(shape, sorted, numberOfRows, desiredWidth).x
    ensures end.y >= CanvasEnd(shape, sorted, numberOfRows, desiredWidth).y
  {
    var sm := CollageSizes(sorted, numberOfRows, desiredWidth);
    MaxHeightWithinStackedRows(shape, sm, MaxColumns(|sorted|, numberOfRows));
    Point(CanvasEnd(shape, sorted, numberOfRows, desiredWidth).x, RowY(shape, sm, numberOfRows))
  }

  /** Every draw call lies inside the fitted canvas, a padding from each edge. */
  lemma EveryDrawWithinFittedCanvas(shape: Shape, sorted: seq<Image>, numberOfRows: nat, desiredWidth: nat, t: nat)
    requires numberOfRows >= 1 && AllValid(sorted)
    requires t < |sorted|
    ensures var p, end := CollageDraws(shape, sorted, numberOfRows, desiredWidth)[t], FittedCanvasEnd(shape, sorted, numberOfRows, desiredWidth);
      Padding(shape) <= p.x && p.x + p.w + Padding(shape) <= end.x
      && Padding(shape) <= p.y && p.y + p.h + Padding(shape) <= end.y
  {
    var sm := CollageSizes(sorted, numberOfRows, desiredWidth);
    var p := CollageDraws(shape, sorted, numberOfRows, desiredWidth)[t];
    PlacementsEnumerateCells(shape, sm, |sorted|, numberOfRows, numberOfRows);
    EveryDrawWithinCanvasWidth(shape, sorted, numberOfRows, desiredWidth, t);
    CellWithinStackedRows(shape, sm, p.row, p.col);
  }

  /** An image of the given width and height with its top-left corner at the origin. */
  function Sized(width: nat, height: nat): (img: Image)
    ensures Width(img.bounds) == width && ImageHeight(img) == height
  {
    Image(Rectangle(Point(0, 0), Point(width, height)))
  }

  /** Four images cut into two rows hold two images each. */
  lemma {:induction false} RowsOfFour(s: seq<Image>)
    requires |s| == 4
    ensures Rows(s, 2) == [s[..2], s[2..]]
  {
    var m := Rows(s, 2);
    assert m[0] == Row(s, 2, 0);
    assert m[1] == Row(s, 2, 1);
    assert m[0] == s[..2];
    assert m[1] == s[2..];
  }

  /** A two-cell row of 400 x 400 rectangles: 800 wide, 400 tall, cells at x = 1 and x = 402. */
  lemma {:induction false} SquarePairRow(y: int, row: nat)
    ensures var r := [Size(400, 400), Size(400, 400)];
      RowWidth(RectangleShape, r) == 800 && RowHeight(RectangleShape, r) == 400
      && RowDraws(RectangleShape, r, row, y) == [Placement(row, 0, 1, y, 400, 400, None), Placement(row, 1, 402, y, 400, 400, None)]
  {
    var r := [Size(400, 400), Size(400, 400)];
    assert r[..1] == [Size(400, 400)];
    assert r[..1][..0] == [];
    assert CellX(RectangleShape, r, 1) == 402;
  }

  /** Two rows of two 400 x 400 rectangles: 800 wide, 800 tall, rows at y = 1 and y = 402. */
  lemma {:induction false} SquareGrid()
    ensures var z := Size(400, 400);
      var g := [[z, z], [z, z]];
      MaxWidth(RectangleShape, g) == 800 && MaxHeight(RectangleShape, g, 2) == 800
      && Placements(RectangleShape, g) == [
           Placement(0, 0, 1, 1, 400, 400, None), Placement(0, 1, 402, 1, 400, 400, None),
           Placement(1, 0, 1, 402, 400, 400, None), Placement(1, 1, 402, 402, 400, 400, None)]
  {
    var z := Size(400, 400);
    var g := [[z, z], [z, z]];
    SquarePairRow(1, 0);
    SquarePairRow(402, 1);
    assert g[..1] == [[z, z]];
    assert g[..1][..0] == [];
    assert MaxWidth(RectangleShape, g[..1]) == 800;
    assert ColHeight(RectangleShape, g[..1], 0) == 400 && ColHeight(RectangleShape, g[..1], 1) == 400;
    assert ColHeight(RectangleShape, g, 0) == 800 && ColHeight(RectangleShape, g, 1) == 800;
    assert MaxHeight(RectangleShape, g, 1) == 800;
    assert RowY(RectangleShape, g, 1) == 402;
    assert PlacementsUpTo(RectangleShape, g, 1) == RowPlacements(RectangleShape, g, 0);
  }

  /** A 100 x 100 image in a row of two at width 800 is scaled to 400 x 400. */
  lemma SquareCell()
    ensures CellSize(Sized(100, 100), Share(800, 2)) == Size(400, 400)
  {
    assert Share(800, 2) == 400;
  }

  /** Four 100 x 100 images in two rows at width 800 are all sized 400 x 400. */
  lemma {:induction false} FourSquaresSizes()
    ensures var q, z := Sized(100, 100), Size(400, 400);
      CollageSizes([q, q, q, q], 2, 800) == [[z, z], [z, z]]
  {
    var q, z := Sized(100, 100), Size(400, 400);
    var s := [q, q, q, q];
    RowsOfFour(s);
    assert s[..2] == [q, q] && s[2..] == [q, q];
    SquareCell();
    assert SizeRow([q, q], 800) == [z, z];
  }

  /**
   * Four 100 x 100 images in two rows of rectangles at width 800: two cells
   * of 400 x 400 per row, a canvas of 803 x 803, the cells a pixel apart.
   */
  lemma FourSquaresInTwoRows()
    ensures var s := [Sized(100, 100), Sized(100, 100), Sized(100, 100), Sized(100, 100)];
      AllValid(s) && HeightsNonIncreasing(s)
      && CanvasEnd(RectangleShape, s, 2, 800) == Point(803, 803)
      && CollageDraws(RectangleShape, s, 2, 800) == [
           Placement(0, 0, 1, 1, 400, 400, None), Placement(0, 1, 402, 1, 400, 400, None),
           Placement(1, 0, 1, 402, 400, 400, None), Placement(1, 1, 402, 402, 400, 400, None)]
  {
    FourSquaresSizes();
    SquareGrid();
  }

  /** With a single row, the row is the whole list. */
  lemma {:induction false} RowsOfOne(s: seq<Image>)
    ensures Rows(s, 1) == [s]
  {
    var m := Rows(s, 1);
    RowsAreConsecutive(|s|, 1, 0);
    assert m[0] == Row(s, 1, 0);
    assert m[0] == s;
  }

  /** The three images of the circle example, tallest first, scaled to a third of 800 each. */
  lemma ThreeImagesSizes()
    ensures var s := [Sized(100, 200), Sized(100, 100), Sized(100, 50)];
      CollageSizes(s, 1, 800) == [[Size(266, 532), Size(266, 266), Size(266, 133)]]
  {
    var s := [Sized(100, 200), Sized(100, 100), Sized(100, 50)];
    RowsOfOne(s);
    assert Share(800, 3) == 266;
    SizeRowAt(s, 800, 0);
    SizeRowAt(s, 800, 1);
    SizeRowAt(s, 800, 2);
    assert SizeRow(s, 800)[0] == Size(266, 532);
    assert SizeRow(s, 800)[1] == Size(266, 266);
    assert SizeRow(s, 800)[2] == Size(266, 133);
    assert SizeRow(s, 800) == [Size(266, 532), Size(266, 266), Size(266, 133)];
  }

  /**
   * A row of circles cropped from cells of 266 x 532, 266 x 266 and 266 x 133:
   * diameters 212, 212 and 106, drawn 20 apart from x = 20.
   */
  lemma {:induction false} ThreeCirclesRow()
    ensures var r := [Size(266, 532), Size(266, 266), Size(266, 133)];
      RowWidth(CircleShape, r) == 530 && RowHeight(CircleShape, r) == 212
      && RowDraws(CircleShape, r, 0, 20) == [
           Placement(0, 0, 20, 20, 212, 212, Some(Circle(Point(106, 106), 106))),
           Placement(0, 1, 252, 20, 212, 212, Some(Circle(Point(106, 106), 106))),
           Placement(0, 2, 484, 20, 106, 106, Some(Circle(Point(53, 53), 53)))]
  {
    var r := [Size(266, 532), Size(266, 266), Size(266, 133)];
    assert Diameter(r[0]) == 212 && Diameter(r[1]) == 212 && Diameter(r[2]) == 106;
    assert r[..2] == [r[0], r[1]] && r[..2][..1] == [r[0]] && r[..2][..1][..0] == [];
    assert RowWidth(CircleShape, r[..2][..1]) == 212 && RowHeight(CircleShape, r[..2][..1]) == 212;
    assert RowWidth(CircleShape, r[..2]) == 424 && RowHeight(CircleShape, r[..2]) == 212;
    assert CellX(CircleShape, r, 1) == 252;
    assert CellX(CircleShape, r, 2) == 484;
  }

  /** The one-row grid of those three cells: 530 wide, 212 tall. */
  lemma {:induction false} ThreeCirclesGrid()
    ensures var g := [[Size(266, 532), Size(266, 266), Size(266, 133)]];
      MaxWidth(CircleShape, g) == 530 && MaxHeight(CircleShape, g, 3) == 212
      && Placements(CircleShape, g) == [
           Placement(0, 0, 20, 20, 212, 212, Some(Circle(Point(106, 106), 106))),
           Placement(0, 1, 252, 20, 212, 212, Some(Circle(Point(106, 106), 106))),
           Placement(0, 2, 484, 20, 106, 106, Some(Circle(Point(53, 53), 53)))]
  {
    var r := [Size(266, 532), Size(266, 266), Size(266, 133)];
    var g := [r];
    ThreeCirclesRow();
    assert g[..0] == [];
    assert ColHeight(CircleShape, g, 0) == 212 && ColHeight(CircleShape, g, 1) == 212 && ColHeight(CircleShape, g, 2) == 106;
    assert MaxHeight(CircleShape, g, 1) == 212 && MaxHeight(CircleShape, g, 2) == 212;
    assert PlacementsUpTo(CircleShape, g, 1) == RowPlacements(CircleShape, g, 0);
  }

  /**
   * Images of 100 x 200, 100 x 100 and 100 x 50 in one row of circles at
   * width 800: each cell is a third of 800 wide, each circle 4/5 of its
   * cell's smaller side, 20 pixels of padding around and between them, and a
   * canvas of 610 x 252.
   */
  lemma ThreeCirclesInOneRow()
    ensures var s := [Sized(100, 200), Sized(100, 100), Sized(100, 50)];
      AllValid(s) && HeightsNonIncreasing(s)
      && CanvasEnd(CircleShape, s, 1, 800) == Point(610, 252)
      && CollageDraws(CircleShape, s, 1, 800) == [
           Placement(0, 0, 20, 20, 212, 212, Some(Circle(Point(106, 106), 106))),
           Placement(0, 1, 252, 20, 212, 212, Some(Circle(Point(106, 106), 106))),
           Placement(0, 2, 484, 20, 106, 106, Some(Circle(Point(53, 53), 53)))]
  {
    ThreeImagesSizes();
    ThreeCirclesGrid();
  }

  /** The images of the overflow example, scaled to half of 800 each. */
  lemma OverflowSizes()
    ensures var s := [Sized(100, 100), Sized(10, 90), Sized(10, 80), Sized(100, 70)];
      CollageSizes(s, 2, 800) == [[Size(400, 400), Size(400, 3600)], [Size(400, 3200), Size(400, 280)]]
  {
    var s := [Sized(100, 100), Sized(10, 90), Sized(10, 80), Sized(100, 70)];
    RowsOfFour(s);
    var r0, r1 := s[..2], s[2..];
    assert r0 == [s[0], s[1]] && r1 == [s[2], s[3]];
    OverflowCells();
    SizeRowAt(r0, 800, 0);
    SizeRowAt(r0, 800, 1);
    SizeRowAt(r1, 800, 0);
    SizeRowAt(r1, 800, 1);
    assert SizeRow(r0, 800) == [Size(400, 400), Size(400, 3600)];
    assert SizeRow(r1, 800) == [Size(400, 3200), Size(400, 280)];
  }

  /** The cells of the overflow example: each image scaled to 400 wide. */
  lemma OverflowCells()
    ensures Share(800, 2) == 400
    ensures CellSize(Sized(100, 100), 400) == Size(400, 400) && CellSize(Sized(10, 90), 400) == Size(400, 3600)
    ensures CellSize(Sized(10, 80), 400) == Size(400, 3200) && CellSize(Sized(100, 70), 400) == Size(400, 280)
  {
  }

  /** The grid of the overflow example: its tallest column is 3880, but its rows stack to 6800. */
  lemma {:induction false} OverflowGrid()
    ensures var g := [[Size(400, 400), Size(400, 3600)], [Size(400, 3200), Size(400, 280)]];
      MaxHeight(RectangleShape, g, 2) == 3880
      && RowY(RectangleShape, g, 1) == 3602 && RowY(RectangleShape, g, 2) == 6803
      && Placements(RectangleShape, g)[2] == Placement(1, 0, 1, 3602, 400, 3200, None)
  {
    var r0, r1 := [Size(400, 400), Size(400, 3600)], [Size(400, 3200), Size(400, 280)];
    var g := [r0, r1];
    assert g[..1] == [r0] && g[..1][..0] == [];
    assert r0[..1] == [r0[0]] && r0[..1][..0] == [];
    assert r1[..1] == [r1[0]] && r1[..1][..0] == [];
    assert RowHeight(RectangleShape, r0) == 3600 && RowHeight(RectangleShape, r1) == 3200;
    assert ColHeight(RectangleShape, g[..1], 0) == 400 && ColHeight(RectangleShape, g[..1], 1) == 3600;
    assert ColHeight(RectangleShape, g, 0) == 3600 && ColHeight(RectangleShape, g, 1) == 3880;
    assert MaxHeight(RectangleShape, g, 1) == 3600;
    assert PlacementsUpTo(RectangleShape, g, 1) == RowPlacements(RectangleShape, g, 0);
    assert |RowPlacements(RectangleShape, g, 0)| == 2;
    assert Placements(RectangleShape, g)[2] == RowPlacements(RectangleShape, g, 1)[0];
  }

  /**
   * The source's canvas can be too short for its rows. Images of 100 x 100,
   * 10 x 90, 10 x 80 and 100 x 70, in two rows of rectangles at width 800,
   * give a canvas 3883 high, because its height comes from the tallest
   * column (400 + 3200 or 3600 + 280); but the cursor moves down by the
   * tallest cell of each row, so the third image is drawn from y = 3602 to
   * 6802. The fitted canvas is 6803 high.
   */
  lemma CanvasCutsOffLowerRow()
    ensures var s := [Sized(100, 100), Sized(10, 90), Sized(10, 80), Sized(100, 70)];
      AllValid(s) && HeightsNonIncreasing(s)
      && CanvasEnd(RectangleShape, s, 2, 800).y == 3883
      && CollageDraws(RectangleShape, s, 2, 800)[2] == Placement(1, 0, 1, 3602, 400, 3200, None)
      && CollageDraws(RectangleShape, s, 2, 800)[2].y + CollageDraws(RectangleShape, s, 2, 800)[2].h
         > CanvasEnd(RectangleShape, s, 2, 800).y
      && FittedCanvasEnd(RectangleShape, s, 2, 800).y == 6803
  {
    OverflowSizes();
    OverflowGrid();
  }
}
