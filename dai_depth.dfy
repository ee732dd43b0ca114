/** The disparity grid sampler of the depth camera wrapper: reduce a
    normalised disparity frame to one scaled reading per grid cell. */
module DaiDepth {
  import opened GridSpec

  /** numpy's uint16, the element type of the corner table and the result. */
  type u16 = x: int | 0 <= x < 0x1_0000

  /** uint16 addition as numpy performs it on uint16 scalars: modulo 2^16. */
  function AddU16(a: u16, b: u16): (r: u16)
    ensures a + b < 0x1_0000 ==> r == a + b
    ensures a + b >= 0x1_0000 ==> r == a + b - 0x1_0000
  {
    (a + b) % 0x1_0000
  }

  /** Numerator of the scale that converts a [0, 255] normalised pixel back to
      disparity units: extended disparity doubles the range from 95 to 190. */
  function ScaleNumerator(extended: bool): (n: nat)
    ensures extended <==> n == 190
    ensures !extended <==> n == 95
  {
    if extended then 190 else 95
  }

  const ScaleDenominator: nat := 255

  /** A pixel times the scale, truncated toward zero as the store into a
      uint16 array does. */
  function Reading(pixel: nat, extended: bool): (r: nat)
    ensures extended ==> r * 255 <= pixel * 190 < (r + 1) * 255
    ensures !extended ==> r * 255 <= pixel * 95 < (r + 1) * 255
  {
    pixel * ScaleNumerator(extended) / ScaleDenominator
  }

  /** A normalised pixel gives a reading of at most the scale's numerator,
      reached at 255. */
  lemma ReadingBound(pixel: nat, extended: bool)
    requires pixel <= 255
    ensures Reading(pixel, extended) <= ScaleNumerator(extended)
    ensures pixel == 255 ==> Reading(pixel, extended) == ScaleNumerator(extended)
  {
  }

  lemma ReadingMonotone(p: nat, q: nat, extended: bool)
    requires p <= q
    ensures Reading(p, extended) <= Reading(q, extended)
  {
  }

  // ---------------------------------------------------------------------------
  // Frames

  /** The frame holds every cell centre; frame[y, x] is row y, column x. */
  predicate FrameFits(frame: array2<nat>) {
    frame.Length0 >= MinFrameHeight && frame.Length1 >= MinFrameWidth
  }

  /** Every pixel lies in the normalised range [0, 255]. */
  ghost predicate Normalised(frame: array2<nat>)
    reads frame
  {
    forall y, x :: 0 <= y < frame.Length0 && 0 <= x < frame.Length1 ==> frame[y, x] <= 255
  }

  function CentrePixel(frame: array2<nat>, k: nat): nat
    reads frame
    requires FrameFits(frame) && k < NumBoxes
  {
    CentreInsideCell(k);
    frame[CentreY(k), CentreX(k)]
  }

  /** The readings the sampler returns, cell by cell. */
  function GridReadings(frame: array2<nat>, extended: bool): (r: seq<nat>)
    reads frame
    requires FrameFits(frame)
    ensures |r| == NumBoxes
    ensures forall k :: 0 <= k < NumBoxes ==>
      r[k] == Reading(frame[50 + 99 * Row(k), 54 + 106 * Column(k)], extended)
  {
    seq(NumBoxes, k requires 0 <= k < NumBoxes reads frame => Reading(CentrePixel(frame, k), extended))
  }

  /** Every cell's reading fits the uint16 result array, so the store does not
      depend on how out-of-range values would be converted. */
  ghost predicate ReadingsFitU16(frame: array2<nat>, extended: bool)
    reads frame
    requires FrameFits(frame)
  {
    forall k :: 0 <= k < NumBoxes ==> Reading(CentrePixel(frame, k), extended) < 0x1_0000
  }

  /** A normalised frame gives readings of at most 190 (extended) or 95, which
      fit the result array. */
  lemma NormalisedReadingsBounded(frame: array2<nat>, extended: bool)
    requires FrameFits(frame) && Normalised(frame)
    ensures ReadingsFitU16(frame, extended)
    ensures forall k :: 0 <= k < NumBoxes ==> GridReadings(frame, extended)[k] <= ScaleNumerator(extended)
  {
  }

  // ---------------------------------------------------------------------------
  // The filtered sub-region of a cell, computed for every cell but not used
  // for the reading

  /** numpy clips a non-negative slice bound to the length of the axis. */
  function Clip(bound: nat, length: nat): (r: nat)
    ensures r <= length && r <= bound && (r == bound || r == length)
  {
    if bound < length then bound else length
  }

  /** Number of elements numpy's slice [lo:hi] selects once both bounds lie
      within the axis. */
  function SliceLength(lo: nat, hi: nat): nat {
    if lo < hi then hi - lo else 0
  }

  /** Some pixel in rows [y, yhi) and columns [xlo, xhi) has value v. */
  ghost predicate InBlock(frame: array2<nat>, y: nat, yhi: nat, xlo: nat, xhi: nat, v: nat)
    reads frame
  {
    exists py, px :: y <= py < yhi && xlo <= px < xhi &&
      py < frame.Length0 && px < frame.Length1 && frame[py, px] == v
  }

  /** Pixels of row y from column xlo up to xhi, left to right. */
  function RowSlice(frame: array2<nat>, y: nat, xlo: nat, xhi: nat): (r: seq<nat>)
    reads frame
    requires y < frame.Length0 && xhi <= frame.Length1
    ensures |r| == SliceLength(xlo, xhi)
    ensures forall n :: 0 <= n < |r| ==> r[n] == frame[y, xlo + n]
    ensures forall v :: v in r <==> InBlock(frame, y, y + 1, xlo, xhi, v)
  {
    if xlo < xhi then
      var r := seq(xhi - xlo, n requires 0 <= n < xhi - xlo reads frame => frame[y, xlo + n]);
      assert forall x :: xlo <= x < xhi ==> frame[y, x] == r[x - xlo];
      r
    else []
  }

  /** Pixels of rows y up to yhi, columns xlo up to xhi, in row-major order. */
  function Block(frame: array2<nat>, y: nat, yhi: nat, xlo: nat, xhi: nat): (r: seq<nat>)
    reads frame
    requires yhi <= frame.Length0 && xhi <= frame.Length1
    ensures |r| == SliceLength(y, yhi) * SliceLength(xlo, xhi)
    ensures forall v :: v in r <==> InBlock(frame, y, yhi, xlo, xhi, v)
    decreases yhi - y
  {
    if y < yhi then
      MulStep(yhi - (y + 1), SliceLength(xlo, xhi));
      RowSlice(frame, y, xlo, xhi) + Block(frame, y + 1, yhi, xlo, xhi)
    else []
  }

  /** One more row of width w adds w elements. */
  lemma MulStep(a: nat, w: nat)
    ensures (a + 1) * w == a * w + w && a * w >= 0
  {
  }

  /** The block is laid out row-major: pixel (py, px) sits at position
      (py - y) * width + (px - xlo). */
  lemma {:induction false} BlockLayout(frame: array2<nat>, y: nat, yhi: nat, xlo: nat, xhi: nat, py: nat, px: nat)
    requires yhi <= frame.Length0 && xhi <= frame.Length1
    requires y <= py < yhi && xlo <= px < xhi
    ensures 0 <= (py - y) * (xhi - xlo) + (px - xlo) < |Block(frame, y, yhi, xlo, xhi)|
    ensures Block(frame, y, yhi, xlo, xhi)[(py - y) * (xhi - xlo) + (px - xlo)] == frame[py, px]
    decreases py - y
  {
    var w := xhi - xlo;
    var row, rest := RowSlice(frame, y, xlo, xhi), Block(frame, y + 1, yhi, xlo, xhi);
    assert Block(frame, y, yhi, xlo, xhi) == row + rest;
    if py == y {
      assert (py - y) * w == 0;
      assert (row + rest)[px - xlo] == row[px - xlo];
    } else {
      BlockLayout(frame, y + 1, yhi, xlo, xhi, py, px);
      var n := (py - (y + 1)) * w + (px - xlo);
      MulStep(py - (y + 1), w);
      assert (py - y) * w + (px - xlo) == w + n;
      assert (row + rest)[w + n] == rest[n];
    }
  }

  /** Some pixel inside both cell c and the frame has value v. */
  ghost predicate InCell(frame: array2<nat>, c: Cell, v: nat)
    reads frame
  {
    exists y, x :: c.y1 <= y < c.y2 && y < frame.Length0 &&
                   c.x1 <= x < c.x2 && x < frame.Length1 && frame[y, x] == v
  }

  /** numpy's frame[y1:y2, x1:x2], flattened. */
  function Region(frame: array2<nat>, c: Cell): (r: seq<nat>)
    reads frame
    ensures |r| == SliceLength(Clip(c.y1, frame.Length0), Clip(c.y2, frame.Length0)) *
                   SliceLength(Clip(c.x1, frame.Length1), Clip(c.x2, frame.Length1))
    ensures forall v :: v in r <==> InCell(frame, c, v)
  {
    Block(frame, Clip(c.y1, frame.Length0), Clip(c.y2, frame.Length0),
          Clip(c.x1, frame.Length1), Clip(c.x2, frame.Length1))
  }

  /** numpy's boolean-mask selection s[keep(s)]: every element that passes is
      kept, as often as it occurs, and nothing else. */
  function Filter(s: seq<nat>, keep: nat -> bool): (r: seq<nat>)
    ensures |r| <= |s|
    ensures forall v {:trigger multiset(r)[v]} :: multiset(r)[v] == if keep(v) then multiset(s)[v] else 0
    ensures forall v :: v in r <==> v in s && keep(v)
  {
    if s == [] then []
    else
      assert s == [s[0]] + s[1..];
      (if keep(s[0]) then [s[0]] else []) + Filter(s[1..], keep)
  }

  /** A cell's pixels inside the frame, without zeros and values of 190 or more,
      each as often as it occurs in the cell's slice. */
  method Subframe(frame: array2<nat>, c: Cell) returns (subframe: seq<nat>)
    ensures forall v {:trigger multiset(subframe)[v]} ::
      multiset(subframe)[v] == if 0 < v < 190 then multiset(Region(frame, c))[v] else 0
    ensures forall v :: v in subframe <==> 0 < v < 190 && InCell(frame, c, v)
  {
    subframe := Region(frame, c);
    ghost var inCell := subframe;
    subframe := Filter(subframe, v => v > 0);
    ghost var positive := subframe;
    subframe := Filter(subframe, v => v < 190);
    forall v ensures multiset(subframe)[v] == if 0 < v < 190 then multiset(inCell)[v] else 0 {
      assert multiset(subframe)[v] == if v < 190 then multiset(positive)[v] else 0;
      assert multiset(positive)[v] == if v > 0 then multiset(inCell)[v] else 0;
    }
  }


  // ---------------------------------------------------------------------------
  // The sampler

  /** Column k of the corner table holds the corners of cell k. */
  ghost predicate CornersAt(pts: array2<u16>, k: nat)
    reads pts
    requires pts.Length0 == 4 && k < pts.Length1
  {
    pts[0, k] == CellAt(k).x1 && pts[1, k] == CellAt(k).x2 &&
    pts[2, k] == CellAt(k).y1 && pts[3, k] == CellAt(k).y2
  }

  /** The 4 x 24 corner table, filled column-wise by two nested loops; the
      ghost count records that each column is written by exactly one
      iteration. */
  method CornerTable() returns (pts: array2<u16>, ghost writes: seq<nat>)
    ensures fresh(pts)
    ensures pts.Length0 == 4 && pts.Length1 == NumBoxes
    ensures forall k :: 0 <= k < NumBoxes ==> CornersAt(pts, k)
    ensures |writes| == NumBoxes && forall k :: 0 <= k < NumBoxes ==> writes[k] == 1
  {
    pts := new u16[4, NumBoxes];
    writes := seq(NumBoxes, _ => 0);
    for i := 0 to Columns
      invariant forall k :: 0 <= k < Rows * i ==>
        pts[0, k] == CellAt(k).x1 && pts[1, k] == CellAt(k).x2 &&
        pts[2, k] == CellAt(k).y1 && pts[3, k] == CellAt(k).y2
      invariant |writes| == NumBoxes
      invariant forall k :: 0 <= k < NumBoxes ==> writes[k] == if k < Rows * i then 1 else 0
    {
      for j := 0 to Rows
        invariant forall k :: 0 <= k < Rows * i + j ==>
          pts[0, k] == CellAt(k).x1 && pts[1, k] == CellAt(k).x2 &&
          pts[2, k] == CellAt(k).y1 && pts[3, k] == CellAt(k).y2
        invariant |writes| == NumBoxes
        invariant forall k :: 0 <= k < NumBoxes ==> writes[k] == if k < Rows * i + j then 1 else 0
      {
        var k := Index(i, j);
        IndexBijection(i, j);
        pts[0, k] := Origin + CellWidth * i;
        pts[1, k] := Origin + CellWidth * (i + 1);
        pts[2, k] := Origin + CellHeight * j;
        pts[3, k] := Origin + CellHeight * (j + 1);
        writes := writes[k := writes[k] + 1];
      }
    }
  }

  /** The uint16 midpoints of column k of the corner table do not wrap and
      are the centre of cell k. */
  lemma CornerMidpoints(pts: array2<u16>, k: nat)
    requires pts.Length0 == 4 && k < NumBoxes <= pts.Length1 && CornersAt(pts, k)
    ensures AddU16(pts[0, k], pts[1, k]) / 2 == CentreX(k) < MinFrameWidth
    ensures AddU16(pts[2, k], pts[3, k]) / 2 == CentreY(k) < MinFrameHeight
  {
    CentreInsideCell(k);
  }

  /** Read each cell's centre pixel and scale it. `extended` is the wrapper's
      extended-disparity setting. The method has no modifies clause, so the
      frame is left unchanged. */
  method GetGridDisparity(frame: array2<nat>, extended: bool) returns (disparities: array<u16>)
    requires FrameFits(frame)
    requires ReadingsFitU16(frame, extended)
    ensures fresh(disparities)
    ensures disparities.Length == NumBoxes
    ensures forall k :: 0 <= k < NumBoxes ==> disparities[k] == GridReadings(frame, extended)[k]
  {
    var pts;
    ghost var writes;
    pts, writes := CornerTable();
    disparities := new u16[NumBoxes];
    ghost var expected := GridReadings(frame, extended);
    for i := 0 to NumBoxes
      invariant forall k :: 0 <= k < NumBoxes ==> CornersAt(pts, k)
      invariant forall k :: 0 <= k < i ==> disparities[k] == expected[k]
    {
      var subframe := Subframe(frame, Cell(pts[0, i], pts[1, i], pts[2, i], pts[3, i]));
      CornerMidpoints(pts, i);
      var y := AddU16(pts[2, i], pts[3, i]) / 2;
      var x := AddU16(pts[0, i], pts[1, i]) / 2;
      var reading := Reading(frame[y, x], extended);
      assert reading == expected[i] < 0x1_0000 by {
        assert frame[y, x] == CentrePixel(frame, i);
      }
      disparities[i] := reading;
    }
  }

  // ---------------------------------------------------------------------------
  // What the readings depend on

  /** Frames that agree on the 24 centre pixels give the same readings. */
  lemma ReadingsDependOnlyOnCentres(f: array2<nat>, g: array2<nat>, extended: bool)
    requires FrameFits(f) && FrameFits(g)
    requires forall k :: 0 <= k < NumBoxes ==> CentrePixel(f, k) == CentrePixel(g, k)
    ensures GridReadings(f, extended) == GridReadings(g, extended)
  {
  }

  /** Changing one pixel that is no cell's centre leaves every reading as it was. */
  lemma NonCentrePixelIgnored(f: array2<nat>, g: array2<nat>, extended: bool, y0: nat, x0: nat)
    requires FrameFits(f) && f.Length0 == g.Length0 && f.Length1 == g.Length1
    requires forall k :: 0 <= k < NumBoxes ==> CentreY(k) != y0 || CentreX(k) != x0
    requires forall y, x :: 0 <= y < f.Length0 && 0 <= x < f.Length1 && (y != y0 || x != x0) ==>
      f[y, x] == g[y, x]
    ensures GridReadings(f, extended) == GridReadings(g, extended)
  {
  }

  /** Raising the centre pixel of cell k0 never lowers its reading and leaves
      every other reading as it was. */
  lemma RaisingCentreMonotone(f: array2<nat>, g: array2<nat>, extended: bool, k0: nat)
    requires FrameFits(f) && f.Length0 == g.Length0 && f.Length1 == g.Length1
    requires k0 < NumBoxes
    requires CentrePixel(f, k0) <= CentrePixel(g, k0)
    requires forall y, x ::
      0 <= y < f.Length0 && 0 <= x < f.Length1 && (y != CentreY(k0) || x != CentreX(k0)) ==>
        f[y, x] == g[y, x]
    ensures GridReadings(f, extended)[k0] <= GridReadings(g, extended)[k0]
    ensures forall k :: 0 <= k < NumBoxes && k != k0 ==>
      GridReadings(f, extended)[k] == GridReadings(g, extended)[k]
  {
  }
}
