/** The position generators behind "arrange tables" and "add tables in a grid"
    (`generateGridPositions`, `generateRowPositions` and the grid shape used by
    `addTableInGrid`, admin/js/table-plan-editor.js). Positions are canvas pixels. */
module Arrangement {
  import opened Arith

  datatype Pos = Pos(x: real, y: real)

  /** `Math.ceil(Math.sqrt(n))`: the least `c` with `c * c >= n`. */
  function CeilSqrt(n: nat): (c: nat)
    ensures c * c >= n
    ensures c == 0 || (c - 1) * (c - 1) < n
    ensures n > 0 ==> c > 0
  {
    CeilSqrtFrom(n, 0)
  }

  function CeilSqrtFrom(n: nat, c: nat): (r: nat)
    requires c == 0 || (c - 1) * (c - 1) < n
    ensures r * r >= n
    ensures r == 0 || (r - 1) * (r - 1) < n
    ensures r >= c
    decreases n - c
  {
    if c * c >= n then c
    else
      assert c < n by {
        if c >= n {
          MulMono(1, c, c);
        }
      }
      CeilSqrtFrom(n, c + 1)
  }

  /** `Math.ceil(count / cols)` for positive `cols`. */
  function CeilDiv(count: nat, cols: nat): (r: nat)
    requires cols > 0
    ensures r * cols >= count
    ensures r == 0 || (r - 1) * cols < count
  {
    var r := (count + cols - 1) / cols;
    assert count + cols - 1 == r * cols + (count + cols - 1) % cols;
    r
  }

  /** Row and column shape of a grid of `count` tables: `cols = ceil(sqrt(count))`
      and `rows = ceil(count / cols)`, enough cells for all of them. */
  function GridCols(count: nat): nat {
    CeilSqrt(count)
  }

  function GridRows(count: nat): (rows: nat)
    requires count > 0
    ensures rows > 0 && rows * GridCols(count) >= count
  {
    CeilDiv(count, GridCols(count))
  }

  /** The start of cell `k` when a length `len` is cut into `n` equal cells. */
  function Cell(k: nat, n: nat, len: real): (r: real)
    requires n > 0
    ensures k < n && len >= 0.0 ==> 0.0 <= r <= len && (len > 0.0 ==> r < len)
  {
    var step := len / n as real;
    if k < n && len >= 0.0 then
      assert step * (n as real) == len;
      assert (k as real) * step <= (n as real) * step;
      if len > 0.0 then
        assert (k as real) * step < (n as real) * step;
        (k as real) * step
      else (k as real) * step
    else (k as real) * step
  }

  /** Position `i` of `generateGridPositions(count, w, h)`: row `i / cols`,
      column `i % cols`, cells of `(w - 80) / cols × (h - 80) / rows` starting 40
      pixels in from the corner. */
  function GridPosition(i: nat, count: nat, w: real, h: real): Pos
    requires i < count
  {
    var cols := GridCols(count);
    var rows := GridRows(count);
    Pos(40.0 + Cell(i % cols, cols, w - 80.0), 40.0 + Cell(i / cols, rows, h - 80.0))
  }

  /** `generateGridPositions`: exactly `count` positions, the `i`-th in row
      `i / cols` and column `i % cols`. */
  method GenerateGridPositions(count: nat, w: real, h: real) returns (positions: seq<Pos>)
    ensures |positions| == count
    ensures forall i :: 0 <= i < count ==> positions[i] == GridPosition(i, count, w, h)
  {
    positions := [];
    if count == 0 {
      return;
    }
    var cols := GridCols(count);
    var rows := GridRows(count);
    var i := 0;
    while i < count
      invariant 0 <= i <= count
      invariant |positions| == i
      invariant forall k :: 0 <= k < i ==> positions[k] == GridPosition(k, count, w, h)
    {
      var row := i / cols;
      var col := i % cols;
      positions := positions + [Pos(40.0 + Cell(col, cols, w - 80.0), 40.0 + Cell(row, rows, h - 80.0))];
      i := i + 1;
    }
  }

  /** On a canvas at least 80 pixels wide and high every grid position keeps the
      40-pixel margin: it lies in `[40, w - 40) × [40, h - 40)` (or exactly on the
      margin when the canvas is 80 pixels). */
  lemma GridPositionInside(i: nat, count: nat, w: real, h: real)
    requires i < count && w >= 80.0 && h >= 80.0
    ensures var p := GridPosition(i, count, w, h);
      40.0 <= p.x <= w - 40.0 && 40.0 <= p.y <= h - 40.0
      && (w > 80.0 ==> p.x < w - 40.0) && (h > 80.0 ==> p.y < h - 40.0)
  {
    var cols := GridCols(count);
    var rows := GridRows(count);
    RowBelow(i, count);
  }

  /** The row of table `i` is one of the grid's rows. */
  lemma RowBelow(i: nat, count: nat)
    requires i < count
    ensures i % GridCols(count) < GridCols(count) && i / GridCols(count) < GridRows(count)
  {
    var cols := GridCols(count);
    var rows := GridRows(count);
    DivMod(i, cols);
    if i / cols >= rows {
      MulMono(rows, i / cols, cols);
    }
  }

  /** The step between two tables of the "rows" pattern. */
  const RowStep: real := 100.0

  /** The unit vectors of the four rays, in the order right, down, left, up. */
  function Direction(d: nat): Pos
    requires d < 4
  {
    if d == 0 then Pos(1.0, 0.0)
    else if d == 1 then Pos(0.0, 1.0)
    else if d == 2 then Pos(-1.0, 0.0)
    else Pos(0.0, -1.0)
  }

  /** Tables per ray: `Math.ceil(count / 4)`. */
  function PerRay(count: nat): (p: nat)
    ensures 4 * p >= count
  {
    (count + 3) / 4
  }

  /** Position `k` of `generateRowPositions(count, w, h)`: the centre first, then
      each ray in turn filled outwards with `PerRay(count)` tables at steps of 100
      pixels before the next ray starts. */
  function RowPosition(k: nat, count: nat, w: real, h: real): Pos
    requires k == 0 || k <= 4 * PerRay(count)
  {
    if k == 0 then Pos(w / 2.0, h / 2.0)
    else
      var per := PerRay(count);
      OnRay(w, h, (k - 1) / per, (k - 1) % per + 1)
  }

  /** Table `i` (from 1) along ray `d`. */
  function OnRay(w: real, h: real, d: nat, i: nat): Pos
    requires d < 4
  {
    var dir := Direction(d);
    Pos(w / 2.0 + dir.x * (i as real) * RowStep, h / 2.0 + dir.y * (i as real) * RowStep)
  }

  /** `generateRowPositions`: the centre, then for each ray in turn up to
      `PerRay(count)` tables outwards, stopping once `count` positions exist. It
      always emits the centre, so `count == 0` still gives one position. */
  method GenerateRowPositions(count: nat, w: real, h: real) returns (positions: seq<Pos>)
    ensures |positions| == if count == 0 then 1 else count
    ensures forall k :: 0 <= k < |positions| ==> positions[k] == RowPosition(k, count, w, h)
  {
    positions := [Pos(w / 2.0, h / 2.0)];
    if count > 1 {
      var d := 0;
      while d < 4
        invariant 0 <= d <= 4
        invariant |positions| == Min(1 + d * PerRay(count), count)
        invariant forall k :: 0 <= k < |positions| ==> positions[k] == RowPosition(k, count, w, h)
      {
        positions := PushRay(positions, count, w, h, d);
        d := d + 1;
      }
    }
  }

  /** The body of the `directions.forEach` callback: tables `1 .. PerRay(count)`
      along ray `d`, as long as fewer than `count` positions exist. */
  method PushRay(positions: seq<Pos>, count: nat, w: real, h: real, d: nat) returns (r: seq<Pos>)
    requires d < 4
    requires |positions| == Min(1 + d * PerRay(count), count)
    requires forall k :: 0 <= k < |positions| ==> positions[k] == RowPosition(k, count, w, h)
    ensures |r| == Min(1 + (d + 1) * PerRay(count), count)
    ensures forall k :: 0 <= k < |r| ==> r[k] == RowPosition(k, count, w, h)
  {
    var per := PerRay(count);
    var cx := w / 2.0;
    var cy := h / 2.0;
    var dir := Direction(d);
    var base := 1 + d * per;
    NextRay(d, per);
    r := positions;
    var i := 1;
    while i < per + 1 && |r| < count
      invariant 1 <= i <= per + 1
      invariant |r| == Min(base + (i - 1), count)
      invariant forall k :: 0 <= k < |r| ==> r[k] == RowPosition(k, count, w, h)
    {
      var k := |r|;
      NextOnRay(count, w, h, d, i, k);
      var p := Pos(cx + dir.x * (i as real) * RowStep, cy + dir.y * (i as real) * RowStep);
      OnRayFormula(w, h, d, i, cx, cy, dir);
      r := r + [p];
      assert forall q :: 0 <= q < k ==> r[q] == RowPosition(q, count, w, h);
      i := i + 1;
    }
  }

  /** The point the loop computes from the centre and the direction is `OnRay`. */
  lemma OnRayFormula(w: real, h: real, d: nat, i: nat, cx: real, cy: real, dir: Pos)
    requires d < 4 && cx == w / 2.0 && cy == h / 2.0 && dir == Direction(d)
    ensures Pos(cx + dir.x * (i as real) * RowStep, cy + dir.y * (i as real) * RowStep) == OnRay(w, h, d, i)
  {
  }

  /** The table pushed as number `i` of ray `d` is the next position of the pattern. */
  lemma NextOnRay(count: nat, w: real, h: real, d: nat, i: nat, k: nat)
    requires d < 4 && 1 <= i <= PerRay(count) && k == 1 + d * PerRay(count) + (i - 1) && k < count
    ensures k <= 4 * PerRay(count)
    ensures RowPosition(k, count, w, h) == OnRay(w, h, d, i)
  {
    RaySlot(d, PerRay(count), i);
  }

  lemma NextRay(d: nat, per: nat)
    ensures (d + 1) * per == d * per + per
  {
  }

  /** Table `i` (from 1) of ray `d` is number `d * per + i` of the pattern. */
  lemma RaySlot(d: nat, per: nat, i: nat)
    requires per > 0 && 1 <= i <= per
    ensures (d * per + (i - 1)) / per == d && (d * per + (i - 1)) % per == i - 1
  {
    var n := d * per + (i - 1);
    var q := n / per;
    DivMod(n, per);
    if q < d {
      MulMono(q + 1, d, per);
    } else if q > d {
      MulMono(d + 1, q, per);
    }
  }

  /** The positions of the "rows" pattern are pairwise distinct. */
  lemma RowPositionsDistinct(j: nat, k: nat, count: nat, w: real, h: real)
    requires j < k && k <= 4 * PerRay(count)
    ensures RowPosition(j, count, w, h) != RowPosition(k, count, w, h)
  {
    var per := PerRay(count);
    if j > 0 {
      SlotsApart(w, h, j - 1, k - 1, per);
    } else {
      RayBelow(k - 1, per);
      RaysApart(w, h, 0, 1, (k - 1) / per, (k - 1) % per + 1);
    }
  }

  /** Two different indices below `4 * per` are different points on the rays. */
  lemma SlotsApart(w: real, h: real, a: nat, b: nat, per: nat)
    requires per > 0 && a != b && a < 4 * per && b < 4 * per
    ensures a / per < 4 && b / per < 4
    ensures OnRay(w, h, a / per, a % per + 1) != OnRay(w, h, b / per, b % per + 1)
  {
    RayBelow(a, per);
    RayBelow(b, per);
    SameSlotSameIndex(a, b, per);
    RaysApart(w, h, a / per, a % per + 1, b / per, b % per + 1);
  }

  /** Different indices have different ray slots. */
  lemma SameSlotSameIndex(a: nat, b: nat, per: nat)
    requires per > 0 && a != b
    ensures (a / per, a % per) != (b / per, b % per)
  {
    DivMod(a, per);
    DivMod(b, per);
  }

  /** `n < 4 * per` lies on one of the four rays. */
  lemma RayBelow(n: nat, per: nat)
    requires per > 0 && n < 4 * per
    ensures n / per < 4
  {
    DivMod(n, per);
    if n / per >= 4 {
      MulMono(4, n / per, per);
    }
  }

  /** A table on a ray is never at the centre, and two different slots on the
      rays are different points. */
  lemma RaysApart(w: real, h: real, d1: nat, i1: nat, d2: nat, i2: nat)
    requires d1 < 4 && d2 < 4 && i1 >= 1 && i2 >= 1
    ensures OnRay(w, h, d2, i2) != Pos(w / 2.0, h / 2.0)
    ensures (d1, i1) != (d2, i2) ==> OnRay(w, h, d1, i1) != OnRay(w, h, d2, i2)
  {
  }
}
