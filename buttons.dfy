/** The order-station button layout: its fixed canvas, the button record, the
    integer geometry the editor applies on every mouse move (grid snapping,
    clamping, the half-open overlap test) and the grid auto-layout that turns a
    list of meal sets or ingredients into buttons (admin/js/layout-editor.js). */
module Buttons {
  import opened Text
  import opened Arith

  const CanvasWidth := 675
  const CanvasHeight := 570
  const ButtonWidth := 170
  const ButtonHeight := 100

  /** One button of a tab: `{id, type, linked_id, x, y, width, height, label,
      category_id, radio_group_id}`. */
  datatype Button = Button(
    id: string,
    kind: string,
    linkedId: nat,
    x: int,
    y: int,
    width: int,
    height: int,
    labelText: string,
    categoryId: int,
    radioGroupId: int)

  /** A domain object to be laid out (a meal set or an ingredient). */
  datatype Item = Item(kind: string, linkedId: nat, labelText: string, categoryId: int, radioGroupId: int)

  /** An axis-aligned rectangle; it covers the pixels `[x, x+w) × [y, y+h)`. */
  datatype Rect = Rect(x: int, y: int, w: int, h: int)

  function RectOf(b: Button): Rect {
    Rect(b.x, b.y, b.width, b.height)
  }

  predicate InsideCanvas(r: Rect) {
    0 <= r.x && r.x + r.w <= CanvasWidth && 0 <= r.y && r.y + r.h <= CanvasHeight
  }

  // ---------------------------------------------------------------------------
  // Snapping and clamping
  // ---------------------------------------------------------------------------

  /** `Math.round(v / grid) * grid`: the multiple of `grid` nearest to `v`, a tie
      going up (JavaScript rounds halves toward +infinity). */
  function Snap(v: int, grid: int): (r: int)
    requires grid > 0
    ensures r % grid == 0
    ensures 2 * (r - v) <= grid && 2 * (v - r) < grid
  {
    var q := (2 * v + grid) / (2 * grid);
    DivMod(2 * v + grid, 2 * grid);
    MultipleMod(q, grid);
    q * grid
  }

  /** A value already on the grid is left where it is. */
  lemma SnapOnGrid(v: int, grid: int)
    requires grid > 0 && v % grid == 0
    ensures Snap(v, grid) == v
  {
    var r := Snap(v, grid);
    DivMod(v, grid);
    DivMod(r, grid);
    var k := r / grid - v / grid;
    assert r - v == k * grid;
    if k >= 1 { MulMono(1, k, grid); }
    if k <= -1 { MulMono(k, -1, grid); }
  }

  /** `Math.max(lo, Math.min(v, hi))`. */
  function MaxMin(lo: int, v: int, hi: int): (r: int)
    ensures lo <= r
    ensures lo <= hi ==> r <= hi
    ensures lo <= v <= hi ==> r == v
    ensures v < lo ==> r == lo
    ensures lo <= hi < v ==> r == hi
  {
    var m := if v < hi then v else hi;
    if m < lo then lo else m
  }

  // ---------------------------------------------------------------------------
  // Collision
  // ---------------------------------------------------------------------------

  /** The negation of the editor's separation test
      `x+w <= b.x || x >= b.x+b.w || y+h <= b.y || y >= b.y+b.h`. */
  predicate Overlaps(a: Rect, b: Rect) {
    !(a.x + a.w <= b.x || a.x >= b.x + b.w || a.y + a.h <= b.y || a.y >= b.y + b.h)
  }

  predicate Covers(r: Rect, px: int, py: int) {
    r.x <= px < r.x + r.w && r.y <= py < r.y + r.h
  }

  /** For rectangles of positive size the separation test is exactly "they share a
      pixel": so it is symmetric, and rectangles that only touch along an edge do
      not collide. */
  lemma OverlapsIffSharedPixel(a: Rect, b: Rect)
    requires a.w > 0 && a.h > 0 && b.w > 0 && b.h > 0
    ensures Overlaps(a, b) <==> exists px, py :: Covers(a, px, py) && Covers(b, px, py)
    ensures Overlaps(a, b) == Overlaps(b, a)
  {
    if Overlaps(a, b) {
      var px := if a.x < b.x then b.x else a.x;
      var py := if a.y < b.y then b.y else a.y;
      assert Covers(a, px, py) && Covers(b, px, py);
    }
  }

  /** `checkCollision(excludeId, x, y, width, height)` over the buttons of the
      current tab: some button other than `excludeId` fails the separation test. */
  function CheckCollision(buttons: seq<Button>, excludeId: string, r: Rect): (hit: bool)
    ensures hit <==> exists i :: 0 <= i < |buttons| && buttons[i].id != excludeId && Overlaps(r, RectOf(buttons[i]))
  {
    if buttons == [] then false
    else
      (buttons[0].id != excludeId && Overlaps(r, RectOf(buttons[0])))
      || (assert forall i :: 1 <= i < |buttons| ==> buttons[i] == buttons[1..][i - 1];
          CheckCollision(buttons[1..], excludeId, r))
  }

  // ---------------------------------------------------------------------------
  // Grid auto-layout (generateButtonLayout)
  // ---------------------------------------------------------------------------

  /** `Math.floor((CANVAS_WIDTH - spacing) / (DEFAULT_BUTTON_WIDTH + spacing))`. */
  function Columns(spacing: nat): int {
    (CanvasWidth - spacing) / (ButtonWidth + spacing)
  }

  /** How many rows of buttons fit between the top and the bottom of the canvas. */
  function Rows(spacing: nat): nat {
    CanvasHeight / (ButtonHeight + spacing)
  }

  /** How many buttons the auto-layout can place. */
  function Capacity(spacing: nat): nat {
    if Columns(spacing) > 0 then Columns(spacing) * Rows(spacing) else 0
  }

  function SlotX(i: nat, spacing: nat): int
    requires Columns(spacing) > 0
  {
    spacing + (i % Columns(spacing)) * (ButtonWidth + spacing)
  }

  function SlotY(i: nat, spacing: nat): int
    requires Columns(spacing) > 0
  {
    spacing + (i / Columns(spacing)) * (ButtonHeight + spacing)
  }

  /** `btn_${type}_${linked_id}`. */
  function ButtonId(kind: string, linkedId: nat): string {
    "btn_" + kind + "_" + NatToString(linkedId)
  }

  /** The button the auto-layout makes of the `i`-th item. */
  function PlaceItem(item: Item, i: nat, spacing: nat): Button
    requires Columns(spacing) > 0
  {
    Button(ButtonId(item.kind, item.linkedId), item.kind, item.linkedId,
           SlotX(i, spacing), SlotY(i, spacing), ButtonWidth, ButtonHeight,
           item.labelText, item.categoryId, item.radioGroupId)
  }

  /** Slot `i` lies inside the canvas exactly when `i` is below the capacity: the
      horizontal test never fails for a column the layout uses, and the vertical
      one fails from the first row that does not fit onwards. */
  lemma SlotFitsIffBelowCapacity(i: nat, spacing: nat)
    requires Columns(spacing) > 0
    ensures (SlotX(i, spacing) + ButtonWidth <= CanvasWidth && SlotY(i, spacing) + ButtonHeight <= CanvasHeight)
            <==> i < Capacity(spacing)
    ensures 0 <= SlotX(i, spacing) && 0 <= SlotY(i, spacing)
  {
    SlotXFits(i, spacing);
    SlotYFitsIff(i, spacing);
  }

  /** Every column the layout uses fits horizontally. */
  lemma SlotXFits(i: nat, spacing: nat)
    requires Columns(spacing) > 0
    ensures 0 <= SlotX(i, spacing) && SlotX(i, spacing) + ButtonWidth <= CanvasWidth
  {
    var c, w := Columns(spacing), ButtonWidth + spacing;
    var col := i % c;
    DivMod(i, c);
    // c * w <= CanvasWidth - spacing, and col <= c - 1.
    MulLeIffLeDiv(c, w, CanvasWidth - spacing);
    MulMono(col, c - 1, w);
    assert (c - 1) * w == c * w - w;
    MulMono(0, col, w);
  }

  /** Row `i / c` fits vertically exactly when `i` is below the capacity. */
  lemma SlotYFitsIff(i: nat, spacing: nat)
    requires Columns(spacing) > 0
    ensures 0 <= SlotY(i, spacing)
    ensures SlotY(i, spacing) + ButtonHeight <= CanvasHeight <==> i < Capacity(spacing)
  {
    var c, h := Columns(spacing), ButtonHeight + spacing;
    var row := i / c;
    // Row `row` fits exactly when row + 1 <= Rows(spacing).
    assert SlotY(i, spacing) + ButtonHeight == (row + 1) * h;
    MulLeIffLeDiv(row + 1, h, CanvasHeight);
    // row < Rows(spacing) exactly when i < c * Rows(spacing).
    MulLeIffLeDiv(Rows(spacing), c, i);
    MulMono(0, row, h);
  }

  /** `generateButtonLayout(items)`: item `i` goes to column `i % cols`, row
      `i / cols`; items whose slot would leave the canvas are dropped. The result is
      the placed prefix of the items, in order, as long as the capacity allows. */
  method GenerateButtonLayout(items: seq<Item>, spacing: nat) returns (buttons: seq<Button>)
    ensures |buttons| == Min(|items|, Capacity(spacing))
    ensures forall i :: 0 <= i < |buttons| ==> Columns(spacing) > 0 && buttons[i] == PlaceItem(items[i], i, spacing)
    ensures forall i :: 0 <= i < |buttons| ==>
      buttons[i].width == ButtonWidth && buttons[i].height == ButtonHeight && InsideCanvas(RectOf(buttons[i]))
  {
    buttons := [];
    var cols := (CanvasWidth - spacing) / (ButtonWidth + spacing);
    var index := 0;
    while index < |items|
      invariant 0 <= index <= |items|
      invariant |buttons| == Min(index, Capacity(spacing))
      invariant forall i :: 0 <= i < |buttons| ==> Columns(spacing) > 0 && buttons[i] == PlaceItem(items[i], i, spacing)
    {
      // With cols <= 0 JavaScript's `index % cols` is NaN (cols == 0) or every slot
      // starts right of the canvas (cols < 0, spacing > CANVAS_WIDTH): nothing is pushed.
      if cols > 0 {
        var col := index % cols;
        var row := index / cols;
        var x := spacing + col * (ButtonWidth + spacing);
        var y := spacing + row * (ButtonHeight + spacing);
        SlotFitsIffBelowCapacity(index, spacing);
        if x + ButtonWidth <= CanvasWidth && y + ButtonHeight <= CanvasHeight {
          var item := items[index];
          buttons := buttons + [Button(ButtonId(item.kind, item.linkedId), item.kind, item.linkedId,
                                       x, y, ButtonWidth, ButtonHeight,
                                       item.labelText, item.categoryId, item.radioGroupId)];
        }
      }
      index := index + 1;
    }
    forall i | 0 <= i < |buttons|
      ensures InsideCanvas(RectOf(buttons[i]))
    {
      SlotFitsIffBelowCapacity(i, spacing);
    }
  }

  /** With the default spacing of 5 the canvas holds 3 columns by 5 rows. */
  lemma DefaultSpacingCapacity()
    ensures Columns(5) == 3 && Rows(5) == 5 && Capacity(5) == 15
  {
  }
}
