/** Geometry of the fixed sampling grid laid over a 400P disparity frame:
    6 columns of 106 px and 4 rows of 99 px starting one pixel in from the
    top-left corner, numbered column-major (index = 4 * column + row). */
module GridSpec {

  const Columns: nat := 6
  const Rows: nat := 4
  const CellWidth: nat := 106
  const CellHeight: nat := 99
  /** Offset of the grid's top-left corner from the frame's, on both axes. */
  const Origin: nat := 1
  const NumBoxes: nat := 24

  /** Resolution of the 400P mono sensors the disparity frame comes from. */
  const SensorWidth: nat := 640
  const SensorHeight: nat := 400

  /** The smallest frame in which every cell centre can be read. */
  const MinFrameWidth: nat := 585
  const MinFrameHeight: nat := 348

  /** A cell's bounding box, half-open on both axes: [x1, x2) x [y1, y2). */
  datatype Cell = Cell(x1: nat, x2: nat, y1: nat, y2: nat)

  function Index(i: nat, j: nat): nat { Rows * i + j }
  function Column(k: nat): nat { k / Rows }
  function Row(k: nat): nat { k % Rows }

  /** The cell in column i and row j. */
  function CellOf(i: nat, j: nat): (c: Cell)
    ensures c.x2 == c.x1 + CellWidth && c.y2 == c.y1 + CellHeight
    ensures (c.x1 - Origin) / CellWidth == i && (c.y1 - Origin) / CellHeight == j
  {
    Cell(Origin + CellWidth * i, Origin + CellWidth * (i + 1),
         Origin + CellHeight * j, Origin + CellHeight * (j + 1))
  }

  /** The cell stored at index k of the grid. */
  function CellAt(k: nat): (c: Cell)
    ensures c.x2 == c.x1 + CellWidth && c.y2 == c.y1 + CellHeight
    ensures k < NumBoxes ==>
      InGridArea(c.x1, c.y1) && c.x2 <= Origin + Columns * CellWidth && c.y2 <= Origin + Rows * CellHeight
  {
    CellOf(Column(k), Row(k))
  }

  predicate Contains(c: Cell, x: int, y: int) {
    c.x1 <= x < c.x2 && c.y1 <= y < c.y2
  }

  /** The rectangle [1, 637) x [1, 397) that the grid spans. */
  predicate InGridArea(x: int, y: int) {
    Origin <= x < Origin + Columns * CellWidth && Origin <= y < Origin + Rows * CellHeight
  }

  /** The pixel sampled for cell k: the integer midpoint of its corners. */
  function CentreX(k: nat): (x: nat)
    ensures x == CellAt(k).x1 + CellWidth / 2 && x < CellAt(k).x2
  {
    (CellAt(k).x1 + CellAt(k).x2) / 2
  }

  function CentreY(k: nat): (y: nat)
    ensures y == CellAt(k).y1 + CellHeight / 2 && y < CellAt(k).y2
  {
    (CellAt(k).y1 + CellAt(k).y2) / 2
  }

  /** Column-major numbering is a bijection between the 6 x 4 (column, row)
      pairs and the indices 0 .. 23. */
  lemma IndexBijection(i: nat, j: nat)
    requires i < Columns && j < Rows
    ensures Index(i, j) < NumBoxes
    ensures Column(Index(i, j)) == i && Row(Index(i, j)) == j
  {
  }

  lemma IndexSurjective(k: nat)
    requires k < NumBoxes
    ensures Column(k) < Columns && Row(k) < Rows
    ensures Index(Column(k), Row(k)) == k
  {
  }

  /** Horizontally and vertically neighbouring cells share an edge. */
  lemma AdjacentCellsShareEdges(k: nat)
    requires k < NumBoxes
    ensures Column(k) + 1 < Columns ==>
      CellAt(k + Rows).x1 == CellAt(k).x2 &&
      CellAt(k + Rows).y1 == CellAt(k).y1 && CellAt(k + Rows).y2 == CellAt(k).y2
    ensures Row(k) + 1 < Rows ==>
      CellAt(k + 1).y1 == CellAt(k).y2 &&
      CellAt(k + 1).x1 == CellAt(k).x1 && CellAt(k + 1).x2 == CellAt(k).x2
  {
    if Column(k) + 1 < Columns {
      assert Column(k + Rows) == Column(k) + 1 && Row(k + Rows) == Row(k);
    }
    if Row(k) + 1 < Rows {
      assert Column(k + 1) == Column(k) && Row(k + 1) == Row(k) + 1;
    }
  }

  /** No pixel lies in two cells. */
  lemma CellsDisjoint(k1: nat, k2: nat, x: int, y: int)
    requires k1 < NumBoxes && k2 < NumBoxes
    requires Contains(CellAt(k1), x, y) && Contains(CellAt(k2), x, y)
    ensures k1 == k2
  {
  }

  /** A pixel lies in some cell exactly when it lies in the grid area. */
  lemma CellsCoverGridArea(x: int, y: int)
    ensures InGridArea(x, y) <==> exists k :: 0 <= k < NumBoxes && Contains(CellAt(k), x, y)
  {
    if InGridArea(x, y) {
      var i, j := (x - Origin) / CellWidth, (y - Origin) / CellHeight;
      IndexBijection(i, j);
      assert Contains(CellAt(Index(i, j)), x, y);
    }
    forall k | 0 <= k < NumBoxes && Contains(CellAt(k), x, y)
      ensures InGridArea(x, y)
    {
      IndexSurjective(k);
    }
  }

  /** Each sampled point lies inside its own cell, at a fixed offset from the
      cell's corner, and inside the smallest frame the sampler accepts. */
  lemma CentreInsideCell(k: nat)
    requires k < NumBoxes
    ensures CentreX(k) == 54 + 106 * Column(k) && CentreY(k) == 50 + 99 * Row(k)
    ensures Contains(CellAt(k), CentreX(k), CentreY(k))
    ensures CentreX(k) < MinFrameWidth && CentreY(k) < MinFrameHeight
  {
  }

  /** The minimum frame size is the least one that holds every centre, and
      the 640 x 400 sensor frame is at least that large. */
  lemma MinFrameIsTight()
    ensures CentreX(NumBoxes - 1) == MinFrameWidth - 1
    ensures CentreY(Rows - 1) == MinFrameHeight - 1
    ensures MinFrameWidth <= SensorWidth && MinFrameHeight <= SensorHeight
  {
  }

  /** Different cells sample different pixels. */
  lemma CentresDistinct(k1: nat, k2: nat)
    requires k1 < NumBoxes && k2 < NumBoxes && k1 != k2
    ensures CentreX(k1) != CentreX(k2) || CentreY(k1) != CentreY(k2)
  {
  }
}
