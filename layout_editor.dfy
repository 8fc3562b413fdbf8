/** The state of the order-station layout editor (`EditorState`,
    admin/js/layout-editor.js) and the handlers that change it: dragging one
    button or a group, resizing by a handle, the single/multi selection, format
    copy, label editing and tab switching. Mouse positions arrive already
    relative to the canvas (or to the pressed button, for the grab offset). */
module LayoutEditor {
  import opened Wrappers
  import opened Text
  import opened Buttons

  datatype Point = Point(x: int, y: int)

  /** A width and a height; also the format that format copy carries. */
  datatype Format = Format(width: int, height: int)

  datatype Tab = Tab(id: string, name: string, visible: bool, buttons: seq<Button>)

  /** `layoutData.settings`. */
  datatype Settings = Settings(spacing: int, minSize: int, snapToGrid: bool, gridSize: int, collisionDetection: bool)

  /** `{bg, text, border}` colours of a category or a tab. */
  datatype Palette = Palette(bg: string, text: string, border: string)

  const FallbackPalette := Palette("#e2e8f0", "#1e293b", "#cbd5e1")

  datatype Handle = Right | Bottom | Corner

  /** Which document-level mouse listeners are attached: none, those of a single
      drag (with the grab offset inside the button), those of a group drag (with
      the mouse at press time and each selected button's start position), or
      those of a resize (its button, handle, mouse at press and start size). */
  datatype Gesture =
    | Idle
    | Dragging(offset: Point)
    | GroupDragging(mouse: Point, starts: seq<Point>)
    | Resizing(target: nat, handle: Handle, mouseAt: Point, start: Format)

  // ---------------------------------------------------------------------------
  // Geometry of one mouse move
  // ---------------------------------------------------------------------------

  /** One coordinate of a dragged button: snapped to the grid if snapping is on,
      then clamped with `Math.max(0, Math.min(v, limit - size))`. */
  function Place(v: int, size: int, limit: int, snap: bool, grid: int): (p: int)
    requires grid > 0
    ensures 0 <= p
    ensures size <= limit ==> p + size <= limit
    ensures size > limit ==> p == 0
    ensures !snap && 0 <= v <= limit - size ==> p == v
    ensures snap && 0 <= v <= limit - size ==> 2 * (p - v) <= grid && 2 * (v - p) < grid
    ensures snap && 0 < p < limit - size ==> p % grid == 0
  {
    MaxMin(0, if snap then Snap(v, grid) else v, limit - size)
  }

  /** One extent of a resized button: snapped if snapping is on, then clamped with
      `Math.max(minSize, Math.min(v, limit - pos))`. */
  function Extent(v: int, pos: int, minSize: int, limit: int, snap: bool, grid: int): (e: int)
    requires grid > 0
    ensures minSize <= e
    ensures minSize <= limit - pos ==> pos + e <= limit
    ensures !snap && minSize <= v <= limit - pos ==> e == v
    ensures snap && minSize < e < limit - pos ==> e % grid == 0
  {
    MaxMin(minSize, if snap then Snap(v, grid) else v, limit - pos)
  }

  /** An extent that is already on the grid (or unsnapped) and within bounds
      survives a resize step unchanged. */
  lemma ExtentKeepsFittingValue(v: int, pos: int, minSize: int, limit: int, snap: bool, grid: int)
    requires grid > 0
    requires minSize <= v <= limit - pos
    requires snap ==> v % grid == 0
    ensures Extent(v, pos, minSize, limit, snap, grid) == v
  {
    if snap { SnapOnGrid(v, grid); }
  }

  /** The button `b` moved so that its top-left corner follows the mouse. */
  function Dragged(b: Button, target: Point, s: Settings): (r: Button)
    requires s.gridSize > 0
    ensures r == b.(x := r.x, y := r.y)
    ensures 0 <= b.width <= CanvasWidth && 0 <= b.height <= CanvasHeight ==> InsideCanvas(RectOf(r))
  {
    b.(x := Place(target.x, b.width, CanvasWidth, s.snapToGrid, s.gridSize),
       y := Place(target.y, b.height, CanvasHeight, s.snapToGrid, s.gridSize))
  }

  /** `bs` with `vals[q]` written at position `at[q]`, for the first `k` entries. */
  function Scatter(bs: seq<Button>, at: seq<nat>, vals: seq<Button>, k: nat): (r: seq<Button>)
    requires k <= |at| && |vals| == |at|
    requires forall q :: 0 <= q < |at| ==> at[q] < |bs|
    ensures |r| == |bs|
  {
    if k == 0 then bs else Scatter(bs, at, vals, k - 1)[at[k - 1] := vals[k - 1]]
  }

  /** With distinct positions every written value survives, and every position not
      written keeps its old button. */
  lemma {:induction false} ScatterContents(bs: seq<Button>, at: seq<nat>, vals: seq<Button>, k: nat)
    requires k <= |at| && |vals| == |at| && Distinct(at)
    requires forall q :: 0 <= q < |at| ==> at[q] < |bs|
    ensures forall q :: 0 <= q < k ==> Scatter(bs, at, vals, k)[at[q]] == vals[q]
    ensures forall j :: 0 <= j < |bs| && j !in at[..k] ==> Scatter(bs, at, vals, k)[j] == bs[j]
  {
    if k > 0 {
      ScatterContents(bs, at, vals, k - 1);
      assert at[..k] == at[..k - 1] + [at[k - 1]];
    }
  }

  /** Where a group drag puts each listed button: its recorded start shifted by
      `(dx, dy)`, then snapped and clamped for that button alone. */
  function GroupTargets(bs: seq<Button>, multi: seq<nat>, starts: seq<Point>, dx: int, dy: int, s: Settings): (r: seq<Button>)
    requires s.gridSize > 0 && |starts| == |multi|
    requires forall q :: 0 <= q < |multi| ==> multi[q] < |bs|
    ensures |r| == |multi|
    ensures forall q :: 0 <= q < |multi| ==> r[q] == Dragged(bs[multi[q]], Point(starts[q].x + dx, starts[q].y + dy), s)
  {
    seq(|multi|, q requires 0 <= q < |multi| => Dragged(bs[multi[q]], Point(starts[q].x + dx, starts[q].y + dy), s))
  }

  /** The button list after a group drag with mouse delta `(dx, dy)`. */
  function GroupDragged(bs: seq<Button>, multi: seq<nat>, starts: seq<Point>, dx: int, dy: int, s: Settings): (r: seq<Button>)
    requires s.gridSize > 0 && |starts| == |multi|
    requires forall q :: 0 <= q < |multi| ==> multi[q] < |bs|
    ensures |r| == |bs|
  {
    Scatter(bs, multi, GroupTargets(bs, multi, starts, dx, dy, s), |multi|)
  }

  /** A group drag moves every selected button by the same delta from its own
      recorded start, then snaps and clamps it on its own; every other button keeps
      its place. */
  lemma GroupDragMoves(bs: seq<Button>, multi: seq<nat>, starts: seq<Point>, dx: int, dy: int, s: Settings)
    requires s.gridSize > 0 && |starts| == |multi| && Distinct(multi)
    requires forall q :: 0 <= q < |multi| ==> multi[q] < |bs|
    ensures var r := GroupDragged(bs, multi, starts, dx, dy, s);
      forall k :: 0 <= k < |multi| ==>
        r[multi[k]] == Dragged(bs[multi[k]], Point(starts[k].x + dx, starts[k].y + dy), s)
    ensures var r := GroupDragged(bs, multi, starts, dx, dy, s);
      forall j :: 0 <= j < |bs| && j !in multi ==> r[j] == bs[j]
  {
    ScatterContents(bs, multi, GroupTargets(bs, multi, starts, dx, dy, s), |multi|);
    assert multi[..|multi|] == multi;
  }

  /** The `forEach` of `handleMultiDrag`: moves the listed buttons one after the
      other in a copy of the button list. A move reads only the button's size and
      fields other than its position, which no step changes, so each step may read
      the button from the list as it was before the loop. */
  method MoveGroup(bs: seq<Button>, multi: seq<nat>, starts: seq<Point>, dx: int, dy: int, s: Settings)
    returns (r: seq<Button>)
    requires s.gridSize > 0 && |starts| == |multi|
    requires forall q :: 0 <= q < |multi| ==> multi[q] < |bs|
    ensures r == GroupDragged(bs, multi, starts, dx, dy, s)
  {
    ghost var targets := GroupTargets(bs, multi, starts, dx, dy, s);
    r := bs;
    var k := 0;
    while k < |multi|
      invariant 0 <= k <= |multi|
      invariant r == Scatter(bs, multi, targets, k)
    {
      var i := multi[k];
      r := r[i := Dragged(bs[i], Point(starts[k].x + dx, starts[k].y + dy), s)];
      k := k + 1;
    }
  }

  /** The size a resize handle asks for when the mouse has moved by `(dx, dy)`
      since the press: `right` feeds the mouse movement into the width only, `bottom` into
      the height only, `corner` into both; both extents are then snapped and
      clamped against the canvas edge beyond the button's corner. */
  function ResizeTarget(b: Button, handle: Handle, start: Format, dx: int, dy: int, s: Settings): (f: Format)
    requires s.gridSize > 0
    ensures s.minSize <= f.width && s.minSize <= f.height
    ensures s.minSize <= CanvasWidth - b.x ==> b.x + f.width <= CanvasWidth
    ensures s.minSize <= CanvasHeight - b.y ==> b.y + f.height <= CanvasHeight
  {
    var w := if handle == Bottom then start.width else start.width + dx;
    var h := if handle == Right then start.height else start.height + dy;
    Format(Extent(w, b.x, s.minSize, CanvasWidth, s.snapToGrid, s.gridSize),
           Extent(h, b.y, s.minSize, CanvasHeight, s.snapToGrid, s.gridSize))
  }

  /** The `right` handle changes only the width and the `bottom` handle only the
      height, provided the other extent already fits (on the grid when snapping,
      between the minimum size and the canvas edge). */
  lemma ResizeHandleAxes(b: Button, handle: Handle, start: Format, dx: int, dy: int, s: Settings)
    requires s.gridSize > 0
    ensures var f := ResizeTarget(b, handle, start, dx, dy, s);
      && ((handle == Right && s.minSize <= start.height <= CanvasHeight - b.y
           && (s.snapToGrid ==> start.height % s.gridSize == 0)) ==> f.height == start.height)
      && ((handle == Bottom && s.minSize <= start.width <= CanvasWidth - b.x
           && (s.snapToGrid ==> start.width % s.gridSize == 0)) ==> f.width == start.width)
  {
    if handle == Right && s.minSize <= start.height <= CanvasHeight - b.y && (s.snapToGrid ==> start.height % s.gridSize == 0) {
      ExtentKeepsFittingValue(start.height, b.y, s.minSize, CanvasHeight, s.snapToGrid, s.gridSize);
    }
    if handle == Bottom && s.minSize <= start.width <= CanvasWidth - b.x && (s.snapToGrid ==> start.width % s.gridSize == 0) {
      ExtentKeepsFittingValue(start.width, b.x, s.minSize, CanvasWidth, s.snapToGrid, s.gridSize);
    }
  }

  // ---------------------------------------------------------------------------
  // Selections
  // ---------------------------------------------------------------------------

  predicate Distinct(s: seq<nat>) {
    forall i, j :: 0 <= i < j < |s| ==> s[i] != s[j]
  }

  /** `Array.prototype.indexOf`: the first position of `x`, or -1. */
  function IndexOf(s: seq<nat>, x: nat): (k: int)
    ensures -1 <= k < |s|
    ensures k == -1 <==> x !in s
    ensures 0 <= k ==> s[k] == x && x !in s[..k]
  {
    if s == [] then -1
    else if s[0] == x then 0
    else
      var k := IndexOf(s[1..], x);
      assert s[1..][..if k < 0 then 0 else k] == s[1..if k < 0 then 1 else k + 1];
      if k < 0 then -1 else k + 1
  }

  /** `splice(k, 1)`. */
  function RemoveAt(s: seq<nat>, k: nat): (r: seq<nat>)
    requires k < |s|
    ensures |r| == |s| - 1 && r == s[..k] + s[k + 1..]
    ensures Distinct(s) ==> Distinct(r) && (set e | e in r) == (set e | e in s) - {s[k]}
  {
    var r := s[..k] + s[k + 1..];
    assert forall e :: e in r <==> exists i :: 0 <= i < |s| && i != k && s[i] == e by {
      forall e ensures e in r <==> exists i :: 0 <= i < |s| && i != k && s[i] == e {
        if e in r {
          var j :| 0 <= j < |r| && r[j] == e;
          if j < k { assert s[j] == e; } else { assert s[j + 1] == e; }
        }
        if exists i :: 0 <= i < |s| && i != k && s[i] == e {
          var i :| 0 <= i < |s| && i != k && s[i] == e;
          if i < k { assert r[i] == e; } else { assert r[i - 1] == e; }
        }
      }
    }
    r
  }

  /** The buttons a selection covers, whichever of the two forms it takes. */
  function Members(selected: Option<nat>, multi: seq<nat>): set<nat> {
    (if selected.Some? then {selected.value} else {}) + (set e | e in multi)
  }

  /** The selection after `toggleButtonSelection(i)`: a lone single selection is
      first promoted into the list, then `i` is added to or removed from it, and a
      list left with one member is demoted back to a single selection. In effect
      `i` is toggled in the set of selected buttons, and the two forms are never
      in use at once. */
  function Toggled(selected: Option<nat>, multi: seq<nat>, i: nat): (r: (Option<nat>, seq<nat>))
    requires Distinct(multi) && !(selected.Some? && |multi| > 0)
    ensures Distinct(r.1) && !(r.0.Some? && |r.1| > 0)
    ensures Members(r.0, r.1) ==
      if i in Members(selected, multi) then Members(selected, multi) - {i} else Members(selected, multi) + {i}
    ensures selected.Some? && multi == [] && i != selected.value ==> r == (None, [selected.value, i])
    ensures selected == None && |multi| == 2 && i in multi ==> r.0.Some? && r.1 == []
  {
    var m1 := if selected.Some? then [selected.value] else multi;
    assert Members(None, m1) == Members(selected, multi);
    if selected.Some? && i != selected.value then
      assert i !in m1 && m1 + [i] == [selected.value, i];
      ToggledInList(m1, i)
    else
      ToggledInList(m1, i)
  }

  /** Every selected index is below `n` exactly when each selection form's
      indices are. */
  lemma MembersBelow(selected: Option<nat>, multi: seq<nat>, n: nat)
    ensures (forall e :: e in Members(selected, multi) ==> e < n) <==>
      (selected.Some? ==> selected.value < n) && (forall k :: 0 <= k < |multi| ==> multi[k] < n)
  {
    if (selected.Some? ==> selected.value < n) && (forall k :: 0 <= k < |multi| ==> multi[k] < n) {
      forall e | e in Members(selected, multi) ensures e < n {
        if e in multi {
          var k :| 0 <= k < |multi| && multi[k] == e;
        }
      }
    }
    if forall e :: e in Members(selected, multi) ==> e < n {
      if selected.Some? {
        assert selected.value in Members(selected, multi);
      }
      forall k | 0 <= k < |multi| ensures multi[k] < n {
        assert multi[k] in Members(selected, multi);
      }
    }
  }

  /** The same toggle once a single selection has been promoted into the list. */
  function ToggledInList(m: seq<nat>, i: nat): (r: (Option<nat>, seq<nat>))
    requires Distinct(m)
    ensures Distinct(r.1) && !(r.0.Some? && |r.1| > 0)
    ensures Members(r.0, r.1) == if i in m then Members(None, m) - {i} else Members(None, m) + {i}
    ensures i !in m ==> r == (None, m + [i])
    ensures |m| == 2 && i in m ==> r.0.Some? && r.1 == []
  {
    var k := IndexOf(m, i);
    if k >= 0 then
      var m2 := RemoveAt(m, k);
      assert Members(None, m2) == Members(None, m) - {i};
      if |m2| == 1 then
        assert (set e | e in m2) == {m2[0]};
        assert Members(Some(m2[0]), []) == Members(None, m2);
        (Some(m2[0]), [])
      else (None, m2)
    else
      assert (set e | e in m + [i]) == (set e | e in m) + {i};
      assert Members(None, m + [i]) == Members(None, m) + {i};
      (None, m + [i])
  }

  /** The drag a plain press starts. */
  datatype Press = SingleDrag | GroupDrag

  /** What a plain (no modifier) press on button `i` does to the selection and
      which drag it starts, AS WRITTEN: `selectButton` runs first and empties the
      multi-selection, so the `selectedButtons.length > 0` test that follows is
      always false. */
  function PressAsWritten(selected: Option<nat>, multi: seq<nat>, i: nat): (r: (Option<nat>, seq<nat>, Press))
    ensures r.2 == SingleDrag && r.0 == Some(i) && r.1 == []
  {
    var afterSelect: seq<nat> := [];
    (Some(i), afterSelect, if |afterSelect| > 0 then GroupDrag else SingleDrag)
  }

  /** The group drag can never start, even on a member of a group of two or more. */
  lemma GroupDragUnreachableAsWritten()
    ensures var r := PressAsWritten(None, [0, 1], 0); r.2 == SingleDrag && r.1 == []
  {
  }

  /** The press as evidently intended: pressing a member of the multi-selection
      drags the whole group and keeps the selection; any other press selects the
      button alone and drags it. */
  function PressCorrected(selected: Option<nat>, multi: seq<nat>, i: nat): (r: (Option<nat>, seq<nat>, Press))
    ensures i in multi ==> r == (selected, multi, GroupDrag)
    ensures i !in multi ==> r == (Some(i), [], SingleDrag)
    ensures Members(r.0, r.1) == if i in multi then Members(selected, multi) else {i}
  {
    if i in multi then (selected, multi, GroupDrag) else (Some(i), [], SingleDrag)
  }

  // ---------------------------------------------------------------------------
  // The editor
  // ---------------------------------------------------------------------------

  class Editor {
    var tabs: seq<Tab>
    /** Index of `currentTab` in `tabs`. */
    var currentTab: nat
    var settings: Settings
    /** `selectedButton` and `selectedButtons`, as indices into the current tab. */
    var selected: Option<nat>
    var multi: seq<nat>
    var gesture: Gesture
    var hasUnsavedChanges: bool
    var formatCopyMode: bool
    var copiedFormat: Option<Format>
    var categories: map<int, Palette>
    var tabColors: map<string, Palette>

    predicate Valid()
      reads this
    {
      && currentTab < |tabs|
      && settings.gridSize > 0
      && (selected.Some? ==> selected.value < |tabs[currentTab].buttons|)
      && (forall k :: 0 <= k < |multi| ==> multi[k] < |tabs[currentTab].buttons|)
      && Distinct(multi)
      // at most one of the two selection forms is in use
      && !(selected.Some? && |multi| > 0)
      && (gesture.Dragging? ==> selected.Some?)
      && (gesture.GroupDragging? ==> |gesture.starts| == |multi|)
      && (gesture.Resizing? ==> gesture.target < |tabs[currentTab].buttons|)
    }

    function Current(): seq<Button>
      reads this
      requires currentTab < |tabs|
    {
      tabs[currentTab].buttons
    }

    /** The initial `EditorState`: two empty tabs, default settings, nothing selected. */
    constructor ()
      ensures Valid()
      ensures |tabs| == 2 && currentTab == 0 && tabs[0].buttons == [] && tabs[1].buttons == []
      ensures settings == Settings(5, 50, true, 10, true)
      ensures selected == None && multi == [] && gesture == Idle
      ensures !hasUnsavedChanges && !formatCopyMode && copiedFormat == None
    {
      tabs := [Tab("tab1", "Hauptgerichte", true, []), Tab("tab2", "Einzeln", true, [])];
      currentTab := 0;
      settings := Settings(5, 50, true, 10, true);
      selected := None;
      multi := [];
      gesture := Idle;
      hasUnsavedChanges := false;
      formatCopyMode := false;
      copiedFormat := None;
      categories := map[];
      tabColors := map[];
    }

    /** Replaces the button list of the current tab. */
    method SetCurrent(bs: seq<Button>)
      requires Valid() && |bs| == |Current()|
      modifies this`tabs
      ensures Valid()
      ensures tabs == old(tabs)[currentTab := old(tabs)[currentTab].(buttons := bs)]
    {
      tabs := tabs[currentTab := tabs[currentTab].(buttons := bs)];
    }

    /** `markUnsaved`. */
    method MarkUnsaved()
      modifies this`hasUnsavedChanges
      ensures hasUnsavedChanges
    {
      hasUnsavedChanges := true;
    }

    /** `checkCollision` against the buttons of the current tab. */
    function Collides(excludeId: string, r: Rect): (hit: bool)
      reads this
      requires currentTab < |tabs|
      ensures hit <==> exists i :: 0 <= i < |Current()| && Current()[i].id != excludeId && Overlaps(r, RectOf(Current()[i]))
    {
      CheckCollision(Current(), excludeId, r)
    }

    // --- selection ------------------------------------------------------------

    /** `selectButton`: the pressed button becomes the only selection. */
    method SelectButton(i: nat)
      requires Valid() && gesture.Idle? && i < |Current()|
      modifies this`selected, this`multi
      ensures Valid()
      ensures selected == Some(i) && multi == []
      ensures Members(selected, multi) == {i}
    {
      multi := [];
      selected := Some(i);
    }

    /** `deselectButton`: nothing stays selected. */
    method DeselectButton()
      requires Valid() && gesture.Idle?
      modifies this`selected, this`multi
      ensures Valid()
      ensures selected == None && multi == [] && Members(selected, multi) == {}
    {
      multi := [];
      selected := None;
    }

    /** `toggleButtonSelection` (Ctrl/Cmd + press): a lone single selection is first
        promoted into the list, then `i` is added to or removed from it, and a list
        left with one member is demoted back to a single selection. */
    method ToggleButtonSelection(i: nat)
      requires Valid() && gesture.Idle? && i < |Current()|
      modifies this`selected, this`multi
      ensures Valid()
      ensures (selected, multi) == Toggled(old(selected), old(multi), i)
    {
      var r := Toggled(selected, multi, i);
      MembersBelow(selected, multi, |Current()|);
      MembersBelow(r.0, r.1, |Current()|);
      selected, multi := r.0, r.1;
    }

    // --- format copy ------------------------------------------------------------

    /** `toggleFormatCopyMode`: refused (`ok == false`) with nothing selected;
        otherwise switches the mode on, capturing exactly the selected button's
        size, or off. */
    method ToggleFormatCopyMode() returns (ok: bool)
      requires Valid()
      modifies this`formatCopyMode, this`copiedFormat
      ensures ok <==> old(selected).Some?
      ensures !ok ==> formatCopyMode == old(formatCopyMode) && copiedFormat == old(copiedFormat)
      ensures ok && !old(formatCopyMode) ==>
        formatCopyMode && copiedFormat == Some(Format(Current()[selected.value].width, Current()[selected.value].height))
      ensures ok && old(formatCopyMode) ==> !formatCopyMode && copiedFormat == None
    {
      if selected == None {
        return false;
      }
      ok := true;
      if !formatCopyMode {
        formatCopyMode := true;
        var b := Current()[selected.value];
        copiedFormat := Some(Format(b.width, b.height));
      } else {
        DeactivateFormatCopyMode();
      }
    }

    /** `deactivateFormatCopyMode`. */
    method DeactivateFormatCopyMode()
      modifies this`formatCopyMode, this`copiedFormat
      ensures !formatCopyMode && copiedFormat == None
    {
      formatCopyMode := false;
      copiedFormat := None;
    }

    /** `applyFormatToButton`: the copied width and height replace the target's;
        position, label and every other button are left alone. */
    method ApplyFormatToButton(i: nat)
      requires Valid() && i < |Current()|
      modifies this`tabs, this`hasUnsavedChanges
      ensures Valid()
      ensures old(copiedFormat) == None ==> tabs == old(tabs) && hasUnsavedChanges == old(hasUnsavedChanges)
      ensures old(copiedFormat).Some? ==>
        && hasUnsavedChanges
        && tabs == old(tabs)[currentTab := old(tabs)[currentTab].(buttons :=
             old(Current())[i := old(Current())[i].(width := copiedFormat.value.width, height := copiedFormat.value.height)])]
    {
      if copiedFormat == None {
        return;
      }
      var b := Current()[i];
      SetCurrent(Current()[i := b.(width := copiedFormat.value.width, height := copiedFormat.value.height)]);
      MarkUnsaved();
    }

    // --- label, tabs ------------------------------------------------------------

    /** `saveLabelEdit`: the trimmed input becomes the selected button's label;
        an input that trims to nothing (or no selection) changes nothing. */
    method SaveLabelEdit(input: string) returns (saved: bool)
      requires Valid()
      modifies this`tabs, this`hasUnsavedChanges
      ensures Valid()
      ensures saved <==> old(selected).Some? && Trim(input) != []
      ensures !saved ==> tabs == old(tabs) && hasUnsavedChanges == old(hasUnsavedChanges)
      ensures saved ==>
        && hasUnsavedChanges
        && tabs == old(tabs)[currentTab := old(tabs)[currentTab].(buttons :=
             old(Current())[selected.value := old(Current())[selected.value].(labelText := Trim(input))])]
    {
      if selected == None {
        return false;
      }
      var newLabel := Trim(input);
      if newLabel == [] {
        return false;
      }
      var i := selected.value;
      SetCurrent(Current()[i := Current()[i].(labelText := newLabel)]);
      MarkUnsaved();
      saved := true;
    }

    /** `switchTab`: selecting another tab also clears the selection. */
    method SwitchTab(t: nat)
      requires Valid() && gesture.Idle? && t < |tabs|
      modifies this`currentTab, this`selected, this`multi
      ensures Valid()
      ensures currentTab == t
      ensures t == old(currentTab) ==> selected == old(selected) && multi == old(multi)
      ensures t != old(currentTab) ==> selected == None && multi == []
    {
      if currentTab == t {
        return;
      }
      currentTab := t;
      multi := [];
      selected := None;
    }

    /** `getCategoryColor`: the category's own palette; for category 0 (meal sets)
        the colours of the current tab; otherwise light grey. */
    function GetCategoryColor(categoryId: int): (p: Palette)
      reads this
      requires Valid()
      ensures categoryId in categories ==> p == categories[categoryId]
      ensures categoryId !in categories && categoryId == 0 && tabs[currentTab].name in tabColors ==>
        p == tabColors[tabs[currentTab].name]
      ensures categoryId !in categories && (categoryId != 0 || tabs[currentTab].name !in tabColors) ==>
        p == FallbackPalette
    {
      if categoryId in categories then categories[categoryId]
      else if categoryId == 0 && tabs[currentTab].name in tabColors then tabColors[tabs[currentTab].name]
      else FallbackPalette
    }

    // --- single drag --------------------------------------------------------------

    /** A press on button `i` without modifier and outside format-copy mode (the
        corrected dispatch of `handleButtonMouseDown`, see `PressCorrected`):
        a member of the multi-selection starts a group drag from `mouse`; any
        other button is selected alone and dragged by its grab point `offset`. */
    method HandleButtonMouseDown(i: nat, mouse: Point, offset: Point)
      requires Valid() && gesture.Idle? && i < |Current()|
      modifies this`selected, this`multi, this`gesture
      ensures Valid()
      ensures (selected, multi, if gesture.GroupDragging? then GroupDrag else SingleDrag)
        == PressCorrected(old(selected), old(multi), i)
      ensures gesture.Dragging? ==> gesture.offset == offset
      ensures gesture.GroupDragging? ==> gesture.mouse == mouse && gesture.starts == StartsOf(Current(), multi)
    {
      if i in multi {
        StartMultiDrag(mouse);
      } else {
        SelectButton(i);
        gesture := Dragging(offset);
      }
    }

    /** `handleDrag`: the selected button follows the mouse (snapped, then
        clamped into the canvas). A collision never stops the move; it is only
        reported, as the red border. */
    method HandleDrag(mouse: Point) returns (collision: bool)
      requires Valid()
      modifies this`tabs
      ensures Valid()
      ensures !old(gesture).Dragging? ==> tabs == old(tabs) && !collision
      ensures old(gesture).Dragging? ==>
        var i := selected.value;
        var o := gesture.offset;
        && tabs == old(tabs)[currentTab := old(tabs)[currentTab].(buttons :=
             old(Current())[i := Dragged(old(Current())[i], Point(mouse.x - o.x, mouse.y - o.y), settings)])]
        && (collision <==> settings.collisionDetection && Collides(Current()[i].id, RectOf(Current()[i])))
    {
      if !gesture.Dragging? {
        return false;
      }
      var i := selected.value;
      var b := Dragged(Current()[i], Point(mouse.x - gesture.offset.x, mouse.y - gesture.offset.y), settings);
      SetCurrent(Current()[i := b]);
      collision := settings.collisionDetection && Collides(b.id, RectOf(b));
    }

    /** `stopDrag`: ends the drag, reports whether the button now overlaps another
        and marks the layout as changed. */
    method StopDrag() returns (overlapWarning: bool)
      requires Valid()
      modifies this`gesture, this`hasUnsavedChanges
      ensures Valid()
      ensures !old(gesture).Dragging? ==> gesture == old(gesture) && hasUnsavedChanges == old(hasUnsavedChanges) && !overlapWarning
      ensures old(gesture).Dragging? ==>
        && gesture == Idle && hasUnsavedChanges
        && (overlapWarning <==> settings.collisionDetection && Collides(Current()[selected.value].id, RectOf(Current()[selected.value])))
    {
      if !gesture.Dragging? {
        return false;
      }
      gesture := Idle;
      var b := Current()[selected.value];
      overlapWarning := settings.collisionDetection && Collides(b.id, RectOf(b));
      MarkUnsaved();
    }

    // --- group drag ---------------------------------------------------------------

    function StartsOf(bs: seq<Button>, m: seq<nat>): (starts: seq<Point>)
      requires forall k :: 0 <= k < |m| ==> m[k] < |bs|
      ensures |starts| == |m|
      ensures forall k :: 0 <= k < |m| ==> starts[k] == Point(bs[m[k]].x, bs[m[k]].y)
    {
      seq(|m|, k requires 0 <= k < |m| => Point(bs[m[k]].x, bs[m[k]].y))
    }

    /** `startMultiDrag`: records every selected button's position and the mouse. */
    method StartMultiDrag(mouse: Point)
      requires Valid() && gesture.Idle?
      modifies this`gesture
      ensures Valid()
      ensures gesture == GroupDragging(mouse, StartsOf(Current(), multi))
    {
      gesture := GroupDragging(mouse, StartsOf(Current(), multi));
    }

    /** `handleMultiDrag`: every selected button gets the same mouse delta from
        its recorded start and is then snapped and clamped on its own; the other
        buttons stay where they are. */
    method HandleMultiDrag(mouse: Point)
      requires Valid()
      modifies this`tabs
      ensures Valid()
      ensures !old(gesture).GroupDragging? ==> tabs == old(tabs)
      ensures old(gesture).GroupDragging? ==>
        tabs == old(tabs)[currentTab := old(tabs)[currentTab].(buttons := Current())]
      ensures old(gesture).GroupDragging? ==>
        Current() == GroupDragged(old(Current()), multi, gesture.starts, mouse.x - gesture.mouse.x, mouse.y - gesture.mouse.y, settings)
    {
      if !gesture.GroupDragging? {
        return;
      }
      var dx, dy := mouse.x - gesture.mouse.x, mouse.y - gesture.mouse.y;
      var bs := MoveGroup(Current(), multi, gesture.starts, dx, dy, settings);
      SetCurrent(bs);
      assert multi == old(multi) && gesture == old(gesture) && settings == old(settings);
    }

    /** `stopMultiDrag`: ends the group drag and marks the layout as changed. */
    method StopMultiDrag()
      requires Valid()
      modifies this`gesture, this`hasUnsavedChanges
      ensures Valid()
      ensures !old(gesture).GroupDragging? ==> gesture == old(gesture) && hasUnsavedChanges == old(hasUnsavedChanges)
      ensures old(gesture).GroupDragging? ==> gesture == Idle && hasUnsavedChanges
    {
      if gesture.GroupDragging? {
        gesture := Idle;
        MarkUnsaved();
      }
    }

    // --- resize ---------------------------------------------------------------------

    /** `startResize`: selects the button and remembers the mouse and its size. */
    method StartResize(i: nat, handle: Handle, mouse: Point)
      requires Valid() && gesture.Idle? && i < |Current()|
      modifies this`selected, this`multi, this`gesture
      ensures Valid()
      ensures selected == Some(i) && multi == []
      ensures gesture == Resizing(i, handle, mouse, Format(Current()[i].width, Current()[i].height))
    {
      SelectButton(i);
      gesture := Resizing(i, handle, mouse, Format(Current()[i].width, Current()[i].height));
    }

    /** `handleResize`: computes the size the handle asks for; a collision (with
        detection on) blocks that step, leaving the size and the dirty flag as
        they were; otherwise only the button's width and height change. */
    method HandleResize(mouse: Point) returns (blocked: bool)
      requires Valid()
      modifies this`tabs, this`hasUnsavedChanges
      ensures Valid()
      ensures !old(gesture).Resizing? ==> tabs == old(tabs) && hasUnsavedChanges == old(hasUnsavedChanges) && !blocked
      ensures old(gesture).Resizing? ==>
        var g := gesture;
        var b := old(Current())[g.target];
        var f := ResizeTarget(b, g.handle, g.start, mouse.x - g.mouseAt.x, mouse.y - g.mouseAt.y, settings);
        && (blocked <==> settings.collisionDetection && CheckCollision(old(Current()), b.id, Rect(b.x, b.y, f.width, f.height)))
        && (blocked ==> tabs == old(tabs) && hasUnsavedChanges == old(hasUnsavedChanges))
        && (!blocked ==>
              && hasUnsavedChanges
              && tabs == old(tabs)[currentTab := old(tabs)[currentTab].(buttons :=
                   old(Current())[g.target := b.(width := f.width, height := f.height)])])
    {
      if !gesture.Resizing? {
        return false;
      }
      var g := gesture;
      var b := Current()[g.target];
      var f := ResizeTarget(b, g.handle, g.start, mouse.x - g.mouseAt.x, mouse.y - g.mouseAt.y, settings);
      if settings.collisionDetection && Collides(b.id, Rect(b.x, b.y, f.width, f.height)) {
        return true;
      }
      blocked := false;
      SetCurrent(Current()[g.target := b.(width := f.width, height := f.height)]);
      MarkUnsaved();
    }

    /** `stopResize`. */
    method StopResize()
      requires Valid()
      modifies this`gesture
      ensures Valid()
      ensures old(gesture).Resizing? ==> gesture == Idle
      ensures !old(gesture).Resizing? ==> gesture == old(gesture)
    {
      if gesture.Resizing? {
        gesture := Idle;
      }
    }

    // --- press dispatch -------------------------------------------------------------

    /** The `mousedown` listener of a button: in format-copy mode with a copied
        format the button takes that format; with Ctrl/Cmd its selection is
        toggled; otherwise it is pressed for dragging. */
    method PressButton(i: nat, ctrl: bool, mouse: Point, offset: Point)
      requires Valid() && gesture.Idle? && i < |Current()|
      modifies this`tabs, this`hasUnsavedChanges, this`selected, this`multi, this`gesture
      ensures Valid()
      ensures old(formatCopyMode && copiedFormat.Some?) ==>
        && tabs == old(tabs)[currentTab := old(tabs)[currentTab].(buttons :=
             old(Current())[i := old(Current())[i].(width := copiedFormat.value.width, height := copiedFormat.value.height)])]
        && hasUnsavedChanges
        && selected == old(selected) && multi == old(multi) && gesture == Idle
      ensures !old(formatCopyMode && copiedFormat.Some?) ==>
        tabs == old(tabs) && hasUnsavedChanges == old(hasUnsavedChanges)
      ensures !old(formatCopyMode && copiedFormat.Some?) && ctrl ==>
        gesture == Idle && (selected, multi) == Toggled(old(selected), old(multi), i)
      ensures !old(formatCopyMode && copiedFormat.Some?) && !ctrl ==>
        && (selected, multi, if gesture.GroupDragging? then GroupDrag else SingleDrag)
             == PressCorrected(old(selected), old(multi), i)
        && (gesture.Dragging? ==> gesture.offset == offset)
        && (gesture.GroupDragging? ==> gesture.mouse == mouse && gesture.starts == StartsOf(Current(), multi))
    {
      if formatCopyMode && copiedFormat.Some? {
        ApplyFormatToButton(i);
      } else if ctrl {
        ToggleButtonSelection(i);
      } else {
        HandleButtonMouseDown(i, mouse, offset);
      }
    }
  }
}
