# Table plan and order-station editors: a verified model

This project models, in Dafny, the logic of three pieces of the admin front end:

- **The order-station button layout editor** (`admin/js/layout-editor.js`).
  - Data: a 675 × 570 pixel canvas with two tabs of buttons.
  - Geometry: the grid auto-layout that places meal sets and ingredients, the half-open collision test, dragging with snap-then-clamp, group dragging, and resizing by a handle (blocked when the new size collides).
  - State: the single/multi selection state machine, format copy, label editing, tab switching, the dirty flag, the category colours and `darkenColor`.
  - The global `EditorState` is the class `LayoutEditor.Editor`. Its handlers are methods that state the whole new state.
- **The table-plan editor** (`admin/js/table-plan-editor.js`).
  - `SecurityUtils`: the HTML-escaping sanitiser and the range validator (`Security`).
  - `CanvasManager`: the clamped room size and zoom, and the metre/pixel conversions (`Canvas.CanvasManager`).
  - `TableManager` (`Tables.TableManager`):
    - the `Map` of tables, with add, update, delete, clear and load;
    - the margin-expanded collision test;
    - the drag gesture that is reverted at mouse-up when it ends in a collision;
    - bulk grid insertion;
    - the "grid" and "rows" arrangements (`Arrangement`);
    - format copy and paste.
- **The event date helpers** `formatEventDate` and `formatDateForInput` (`admin/js/event-manager.js`, module `EventDates`).
  - They read `DD-MM-YY(YY)` strings day-first, pivoting two-digit years.
  - They pass ISO strings through, and write `DD.MM.YYYY` or `YYYY-MM-DD` with zero padding.
  - `new Date(year, month, day)` is modelled as a proleptic Gregorian calendar with day numbers. Its day and month roll-over is modelled too.

## Number representation and JavaScript built-ins

- Button coordinates are `int`. Table sizes, positions, zoom and room size are exact `real`s.
- JavaScript's built-ins are written out in module `Text`:
  - `trim` (with ECMAScript's white-space set);
  - `parseInt` without a radix (leading white space, a sign, `0x` hexadecimal, the longest digit prefix, `NaN` as `None`);
  - `parseInt(s, 16)` (leading white space, a sign, an optional `0x`, the longest run of hexadecimal digits, `NaN` as `None`);
  - `split` and `join` on one character;
  - `String(n)`, `padStart(2, '0')` and `toString(16)`.
- Other JavaScript semantics are modelled explicitly:
  - `Math.round` on integers (halves go up);
  - `Math.floor`;
  - `Math.ceil(Math.sqrt(n))`;
  - the truncating `%` on numbers (`Tables.JsRem`).

## Where the code is followed

- The "rows" arrangement fills the four rays one after another: right, then down, then left, then up. It does not deal tables to the rays in turn.
- The right and bottom resize handles re-snap and re-clamp both sides, not only the one they drag.

## Model

| member | source | states |
|---|---|---|
| Buttons.Snap | admin/js/layout-editor.js:535-539 | `Math.round(v / grid) * grid`: the result is a multiple of the grid and the nearest one to `v`, a half going up |
| Buttons.SnapOnGrid | admin/js/layout-editor.js:535-539 | a coordinate already on the grid is not moved by snapping |
| Buttons.MaxMin | admin/js/layout-editor.js:541-542 | `Math.max(lo, Math.min(v, hi))` is at least `lo`, at most `hi` when `lo <= hi`, `v` inside the range, `lo` below it and `hi` above it |
| Buttons.OverlapsIffSharedPixel | admin/js/layout-editor.js:672-685 | the negated separation test holds exactly when the two rectangles share a pixel; so it is symmetric, and rectangles that only touch along an edge do not collide |
| Buttons.CheckCollision | admin/js/layout-editor.js:672-685 | `checkCollision` is true exactly when some button with a different id fails the separation test with the candidate rectangle |
| Buttons.SlotFitsIffBelowCapacity | admin/js/layout-editor.js:333-342 | the slot of item `i` lies inside the canvas exactly when `i` is below columns × rows |
| Buttons.SlotXFits | admin/js/layout-editor.js:333-339 | every column the auto-layout uses fits horizontally |
| Buttons.SlotYFitsIff | admin/js/layout-editor.js:335-342 | the row of item `i` fits vertically exactly when `i` is below the capacity |
| Buttons.GenerateButtonLayout | admin/js/layout-editor.js:327-359 | the output is the placed prefix of the items, in order: `min(#items, capacity)` buttons, button `i` is item `i` in column `i % cols`, row `i / cols`, with id `btn_<type>_<linked_id>`; every button is 170 × 100 and lies inside the canvas |
| Buttons.DefaultSpacingCapacity | admin/js/layout-editor.js:7-14 | with the default spacing of 5 the canvas takes 3 columns by 5 rows, 15 buttons |
| Colors.RemoveFirst | admin/js/layout-editor.js:165 | `replace('#', '')` drops only a first `#`: a string without one is unchanged, a leading one is removed |
| Colors.RemoveFirstAt | admin/js/layout-editor.js:165 | `replace('#', '')` cuts out exactly the first `#`, wherever it is, and keeps everything before and after it in order |
| Colors.PairIsSubstring | admin/js/layout-editor.js:166-168 | the two characters a channel reads are `substring(i, i + 2)` with both ends cut back to the length of the string |
| Colors.Channel | admin/js/layout-editor.js:166-168 | `parseInt(hex.substring(2k, 2k + 2), 16)`: two hexadecimal digits give their value; whatever else parses (one digit, a sign or white space before a digit) lies strictly between -256 and 256, and is negative only when the two characters hold a minus sign |
| Colors.ParsePair | admin/js/layout-editor.js:166-168 | at most two characters parse to a value strictly between -256 and 256, and two hexadecimal digits to their value |
| Colors.ChannelText | admin/js/layout-editor.js:174-177 | `toString(16).padStart(2, '0')` of a channel: `NaN` is written as the text `NaN`; any number is written without an `N` and so that `parseInt(…, 16)` reads it back; a byte is exactly two lower-case hexadecimal digits of its value |
| Colors.DarkenColor | admin/js/layout-editor.js:164-178 | the result is `#` followed by at least six characters; it contains an `N` (only the text `NaN` writes one) exactly when one of the three channels does not parse; a colour of six hexadecimal digits darkened by 0 to 100 % is `#` and six lower-case hexadecimal digits |
| Colors.DarkenDigits | admin/js/layout-editor.js:166-177 | the same three facts for the digits left after `replace` |
| Colors.ShorthandColor | admin/js/layout-editor.js:164-177 | a shorthand colour such as `#abc` is not expanded: its third channel reads nothing and is `NaN`, so the result contains `NaN` |
| Colors.DarkenBounds | admin/js/layout-editor.js:170-172 | for `0 <= p <= 100`, `floor(c * (100 - p) / 100)` lies between 0 and `c`, and `p = 0` keeps `c` |
| Colors.DarkenColorChannels | admin/js/layout-editor.js:164-178 | for a colour whose first six characters after `replace` are hexadecimal digits, each channel is a byte, and each channel read back from the result is the darkened input channel, never brighter than it, and equal to it for `p = 0` |
| LayoutEditor.Place | admin/js/layout-editor.js:532-542 | a dragged coordinate is never negative and keeps the button inside when it fits; it is 0 for a button larger than the canvas, unchanged when already in range without snapping, within half a grid step of the mouse when snapping, and on the grid away from the far edge |
| LayoutEditor.Extent | admin/js/layout-editor.js:616-624 | a resized side is at least the minimum size and stays inside the canvas whenever the minimum does; it is unchanged when in range without snapping, and on the grid strictly between the two bounds |
| LayoutEditor.ExtentKeepsFittingValue | admin/js/layout-editor.js:616-624 | a side that is in range (and on the grid when snapping) is kept by snap-then-clamp |
| LayoutEditor.Dragged | admin/js/layout-editor.js:526-555 | a drag changes only `x` and `y`, and the button ends inside the canvas whenever it fits |
| LayoutEditor.ScatterContents | admin/js/layout-editor.js:485-500 | each written position holds its new button and every other position is unchanged |
| LayoutEditor.GroupTargets | admin/js/layout-editor.js:485-500 | selected button `q` goes to its recorded start plus the common mouse delta, snapped and clamped on its own |
| LayoutEditor.GroupDragMoves | admin/js/layout-editor.js:481-507 | a group drag moves every selected button by `Dragged` from its start plus the delta and leaves every unselected button unchanged |
| LayoutEditor.MoveGroup | admin/js/layout-editor.js:485-500 | the `forEach` over the selection computes exactly `GroupDragged` |
| LayoutEditor.ResizeTarget | admin/js/layout-editor.js:601-624 | the new width and height are at least the minimum size and keep the button inside the canvas whenever the minimum does |
| LayoutEditor.ResizeHandleAxes | admin/js/layout-editor.js:608-624 | the right handle leaves a height that is already valid (and on the grid) unchanged; the bottom handle does the same for the width |
| LayoutEditor.IndexOf | admin/js/layout-editor.js:702 | `indexOf` is -1 exactly when the button is not selected, and otherwise its first position |
| LayoutEditor.RemoveAt | admin/js/layout-editor.js:706 | `splice(k, 1)` is the list without its `k`-th member, the rest in order; a duplicate-free list loses exactly that member |
| LayoutEditor.Toggled | admin/js/layout-editor.js:691-725 | a Ctrl-click flips exactly the clicked button in the selected set; the two selection forms are never used together; a lone single selection is promoted into the list; a list of two that loses one member demotes the other to the single selection |
| LayoutEditor.ToggledInList | admin/js/layout-editor.js:699-722 | the same flip once the single selection has been promoted: appended when absent, removed when present, demoted when one remains |
| LayoutEditor.PressAsWritten | admin/js/layout-editor.js:440-448 | as written, a plain press always ends with only the pressed button selected and a single-button drag |
| LayoutEditor.GroupDragUnreachableAsWritten | admin/js/layout-editor.js:440-448 | pressing a member of a two-button selection still empties the selection and starts a single drag |
| LayoutEditor.PressCorrected | admin/js/layout-editor.js:440-448 | pressing a member of the multi-selection keeps the selection and starts a group drag; any other press selects the button alone and drags it |
| LayoutEditor.Editor.constructor | admin/js/layout-editor.js:17-45 | the initial state: two empty tabs, spacing 5, minimum size 50, snapping on a 10 px grid, collision detection on, nothing selected or copied, no unsaved changes |
| LayoutEditor.Editor.MarkUnsaved | admin/js/layout-editor.js:995-998 | sets the dirty flag |
| LayoutEditor.Editor.Collides | admin/js/layout-editor.js:672-685 | `checkCollision` against the current tab: some other button fails the separation test |
| LayoutEditor.Editor.SelectButton | admin/js/layout-editor.js:727-751 | the pressed button becomes the only selection and the list is emptied |
| LayoutEditor.Editor.DeselectButton | admin/js/layout-editor.js:753-772 | nothing stays selected |
| LayoutEditor.Editor.ToggleButtonSelection | admin/js/layout-editor.js:691-725 | the new selection is `Toggled` of the old one, and the editor invariant (exclusive, duplicate-free, in range) is kept |
| LayoutEditor.Editor.ToggleFormatCopyMode | admin/js/layout-editor.js:816-840 | succeeds exactly when a button is selected; switching on captures exactly its width and height; switching off clears the mode and the format |
| LayoutEditor.Editor.DeactivateFormatCopyMode | admin/js/layout-editor.js:842-854 | clears both the mode and the copied format |
| LayoutEditor.Editor.ApplyFormatToButton | admin/js/layout-editor.js:856-870 | without a copied format nothing changes; otherwise only the target's width and height change, and the dirty flag is set |
| LayoutEditor.Editor.SaveLabelEdit | admin/js/layout-editor.js:897-920 | saves exactly when a button is selected and the trimmed input is not empty; then only that button's label changes, to the trimmed input |
| LayoutEditor.Editor.SwitchTab | admin/js/layout-editor.js:926-937 | the current tab becomes `t`; a real switch clears the selection, and switching to the current tab changes nothing |
| LayoutEditor.Editor.GetCategoryColor | admin/js/layout-editor.js:197-214 | a known category's colours; for category 0, the current tab's colours when its name has some; otherwise the light-grey fallback |
| LayoutEditor.Editor.HandleButtonMouseDown | admin/js/layout-editor.js:440-448 | a plain press leaves the selection and the started gesture as `PressCorrected` says; a single drag records the grab offset, a group drag the mouse and the start position of every selected button |
| LayoutEditor.Editor.HandleDrag | admin/js/layout-editor.js:526-555 | outside a drag nothing moves; during one, only the selected button moves, to `Dragged` of mouse minus grab offset; a collision only sets the warning result and never stops the move |
| LayoutEditor.Editor.StopDrag | admin/js/layout-editor.js:557-586 | ends the drag, sets the dirty flag and warns exactly when collision detection is on and the button overlaps another |
| LayoutEditor.Editor.StartsOf | admin/js/layout-editor.js:470-476 | records each selected button's position, in selection order |
| LayoutEditor.Editor.StartMultiDrag | admin/js/layout-editor.js:466-524 | starts a group drag with the mouse and every selected button's start position |
| LayoutEditor.Editor.HandleMultiDrag | admin/js/layout-editor.js:481-507 | during a group drag the current tab becomes `GroupDragged` of its buttons with the mouse delta; other tabs are unchanged |
| LayoutEditor.Editor.StopMultiDrag | admin/js/layout-editor.js:509-520 | ends the group drag and sets the dirty flag |
| LayoutEditor.Editor.StartResize | admin/js/layout-editor.js:592-599 | selects the button alone and records handle, mouse and start size |
| LayoutEditor.Editor.HandleResize | admin/js/layout-editor.js:601-651 | computes `ResizeTarget`; when collision detection is on and the new rectangle collides, nothing changes and the dirty flag is not set; otherwise only the button's width and height change and the flag is set |
| LayoutEditor.Editor.StopResize | admin/js/layout-editor.js:653-662 | ends the resize gesture |
| LayoutEditor.Editor.PressButton | admin/js/layout-editor.js:401-415 | the button's `mousedown`: in format-copy mode with a format, the pressed button takes the copied width and height, the layout is marked unsaved and the selection and gesture are untouched; otherwise the buttons and the dirty flag are unchanged, and with Ctrl/Cmd the selection is toggled and no drag starts, while a plain press selects and starts the drag of `PressCorrected` with its offset, mouse and start positions |
| Security.EscapeChar | admin/js/table-plan-editor.js:8-11 | each of `< > " ' &` becomes an entity starting with `&` and ending with `;`; any other character stands for itself |
| Security.Escape | admin/js/table-plan-editor.js:7-11 | the escaped text contains no raw `<`, `>`, `"` or `'`, and is never shorter |
| Security.EscapeAppend | admin/js/table-plan-editor.js:7-11 | the replacement works character by character in one pass: escaping a concatenation is the concatenation of the escapes |
| Security.UnescapeEscape | admin/js/table-plan-editor.js:7-11 | escaping loses nothing: decoding the five entities gives every input back |
| Security.TrimStartEscape | admin/js/table-plan-editor.js:7-12 | escaping commutes with dropping leading white space |
| Security.TrimEndEscape | admin/js/table-plan-editor.js:7-12 | escaping commutes with dropping trailing white space |
| Security.SanitizeIsEscapedTrim | admin/js/table-plan-editor.js:7-12 | trimming after escaping is the same as escaping after trimming |
| Security.SanitizeInputSpec | admin/js/table-plan-editor.js:5-13 | `sanitizeInput` has no raw `< > " '`, equals the escape of the trimmed input, and decodes back to the trimmed input |
| Security.ValidateNumber | admin/js/table-plan-editor.js:15-18 | the number is returned exactly when there is one and it lies in `[min, max]`; otherwise `null` |
| Security.OrDefault | admin/js/table-plan-editor.js:244-248 | `value \|\| fallback`: a non-zero number is kept; `null` and 0 give the fallback |
| Canvas.ClampZoom | admin/js/table-plan-editor.js:118 | the zoom is clamped into `[0.2, 3]` and unchanged inside it |
| Canvas.ClampRoom | admin/js/table-plan-editor.js:110-111 | a room side is clamped into `[1, 100]` metres and unchanged inside it |
| Canvas.FitZoom | admin/js/table-plan-editor.js:147-158 | the fitted zoom lies in `[0.2, 3]`, makes the scaled canvas fit the viewport minus 80 px on each axis where that is possible, and is one of the two axis scales when neither bound applies |
| Canvas.CanvasManager.constructor | admin/js/table-plan-editor.js:80-90 | a 10 m × 8 m room at zoom 1 |
| Canvas.CanvasManager.MetersToPixels | admin/js/table-plan-editor.js:172-174 | non-negative lengths give non-negative pixel sizes, and positive lengths positive sizes |
| Canvas.CanvasManager.PixelsToMeters | admin/js/table-plan-editor.js:176-178 | non-negative pixel sizes give non-negative lengths |
| Canvas.CanvasManager.ConversionRoundTrip | admin/js/table-plan-editor.js:172-178 | the two conversions are inverse to each other at every zoom |
| Canvas.CanvasManager.SetRoomSize | admin/js/table-plan-editor.js:109-114 | each side becomes its input clamped to `[1, 100]` |
| Canvas.CanvasManager.SetZoom | admin/js/table-plan-editor.js:116-137 | the zoom becomes its input clamped to `[0.2, 3]` |
| Canvas.CanvasManager.ZoomIn | admin/js/table-plan-editor.js:139-141 | multiplies the zoom by 1.2 when that stays in range; at 3 it stays 3 |
| Canvas.CanvasManager.ZoomOut | admin/js/table-plan-editor.js:143-145 | divides the zoom by 1.2 when that stays in range; at 0.2 it stays 0.2 |
| Canvas.CanvasManager.FitToView | admin/js/table-plan-editor.js:147-170 | the zoom becomes `FitZoom` of the canvas size and the viewport |
| Canvas.ZoomInThenOut | admin/js/table-plan-editor.js:139-145 | a zoom-in that is not clamped is undone by a zoom-out |
| Arrangement.CeilSqrt | admin/js/table-plan-editor.js:614 | `Math.ceil(Math.sqrt(n))` is the least `c` with `c * c >= n` |
| Arrangement.CeilDiv | admin/js/table-plan-editor.js:615 | `Math.ceil(count / cols)` is the least `r` with `r * cols >= count` |
| Arrangement.GridRows | admin/js/table-plan-editor.js:614-615 | rows × columns hold every table |
| Arrangement.Cell | admin/js/table-plan-editor.js:617-626 | the start of a cell lies inside the side it is cut from |
| Arrangement.GenerateGridPositions | admin/js/table-plan-editor.js:612-631 | exactly `count` positions; position `i` is in row `i / cols` and column `i % cols` of the grid |
| Arrangement.GridPositionInside | admin/js/table-plan-editor.js:612-631 | every grid position lies inside the 40 px margin of a canvas of at least 80 px |
| Arrangement.RowBelow | admin/js/table-plan-editor.js:620-622 | each table's row and column are inside the grid |
| Arrangement.PerRay | admin/js/table-plan-editor.js:650 | the four rays of `Math.ceil(count / 4)` tables hold every table |
| Arrangement.GenerateRowPositions | admin/js/table-plan-editor.js:633-660 | exactly `count` positions for `count >= 1` (one for 0), the first at the canvas centre and the rest along the rays right, down, left, up, 100 px apart |
| Arrangement.PushRay | admin/js/table-plan-editor.js:649-656 | one ray's loop appends its tables until the ray or the count is exhausted |
| Arrangement.OnRayFormula | admin/js/table-plan-editor.js:651-654 | the point the loop computes is table `i` of ray `d` |
| Arrangement.NextOnRay | admin/js/table-plan-editor.js:649-656 | the table pushed as number `i` of ray `d` is the next position of the pattern |
| Arrangement.RowPositionsDistinct | admin/js/table-plan-editor.js:633-660 | no two tables of the "rows" pattern are put on the same spot |
| Arrangement.SlotsApart | admin/js/table-plan-editor.js:649-656 | two different table numbers are different points on the rays |
| Arrangement.RaysApart | admin/js/table-plan-editor.js:649-656 | no ray point is the centre, and different (ray, step) pairs are different points |
| Tables.Checked | admin/js/table-plan-editor.js:244-248 | `validateNumber(v, lo, hi) \|\| fallback`: the value when it is in range and non-zero, the fallback otherwise |
| Tables.BuildTableValid | admin/js/table-plan-editor.js:239-255 | the table has the fresh id; width and height in `[30, 300]`, x and y in `(0, 2000]` (0 falls back to 50), rotation in `[-180, 180]`; the counter advances exactly when no number was given, and the number is then `T<counter>`, else the sanitised input; the shape defaults to `rectangle`; in-range values are kept |
| Tables.Updated | admin/js/table-plan-editor.js:366-381 | only number, width, height and rotation change; out-of-range sizes keep the old value; a valid rotation is stored in `[0, 360)` by adding 360 to negatives |
| Tables.ExpandSymmetric | admin/js/table-plan-editor.js:408-432 | growing the candidate by the margin is the same as growing the other table by it |
| Tables.TruncFrac | admin/js/table-plan-editor.js:542-543 | what truncation toward zero leaves of a number: in `[0, 1)` for non-negatives and in `(-1, 0]` for negatives |
| Tables.JsRemNonNegative | admin/js/table-plan-editor.js:542-543 | `%` of a non-negative position wraps it into `[0, m)` |
| Tables.JsRemNegative | admin/js/table-plan-editor.js:542-543 | `%` of a negative position stays in `(-m, 0]`, with the sign of the dividend |
| Tables.JsRemSmall | admin/js/table-plan-editor.js:542-543 | a position already inside the room is not wrapped |
| Tables.GridCellTable | admin/js/table-plan-editor.js:540-555 | what `addTable` builds for cell `k` is the grid's `k`-th table, given the number passed and the counter of that moment |
| Tables.GridTables | admin/js/table-plan-editor.js:533-557 | a grid insertion makes exactly `count` tables |
| Tables.InsertedContents | admin/js/table-plan-editor.js:251 | after a run of `tables.set`, the keys are the old ones plus the new ids; old entries not overwritten are unchanged; each new id holds its table |
| Tables.RemoveId | admin/js/table-plan-editor.js:393 | `delete` removes exactly that key from the insertion order and keeps it duplicate-free |
| Tables.FirstOccurrences | admin/js/table-plan-editor.js:682-685 | the key order of a `Map` filled by `set`: duplicate-free, and holding exactly the ids present |
| Tables.LoadedContents | admin/js/table-plan-editor.js:680-686 | the loaded map has exactly the ids of the data, each entry is the last one with its id, and every entry is keyed by its own id |
| Tables.LoadedKeys | admin/js/table-plan-editor.js:680-686 | the loaded keys are exactly the first occurrences of the ids, and every entry is keyed by its own id |
| Tables.LoadAll | admin/js/table-plan-editor.js:682-685 | the `forEach` of `loadTables` builds exactly `Loaded` with the key order `FirstOccurrences` |
| Tables.SanitizeNumberLabel | admin/js/table-plan-editor.js:242 | an automatic number `T<n>` is its own sanitised form |
| Tables.NumberLabelInjective | admin/js/table-plan-editor.js:242 | different counters give different automatic numbers |
| Tables.GridEntry | admin/js/table-plan-editor.js:533-557 | after a grid insertion, the `k`-th new id holds the grid's `k`-th table |
| Tables.GridNumbers | admin/js/table-plan-editor.js:545-552 | the `k`-th grid table is numbered `T<next>` when the number is passed explicitly (so all share it) and `T<next + k>` when `addTable` draws it |
| Tables.GridNumbersDistinct | admin/js/table-plan-editor.js:242 | when `addTable` draws the numbers, no two tables of a grid share one |
| Tables.MoveTo | admin/js/table-plan-editor.js:583-585 | moving a table changes only its `x` and `y` |
| Tables.MoveAll | admin/js/table-plan-editor.js:582-592 | keeps the keys; changes only `x` and `y`; the `k`-th table takes the `k`-th position when there is one and stays put otherwise |
| Tables.ClampPosition | admin/js/table-plan-editor.js:475-476 | the dragged position is never negative, keeps the table inside the canvas when it fits, and is unchanged when already in range |
| Tables.TableManager.constructor | admin/js/table-plan-editor.js:225-237 | no tables, nothing selected, dragged or copied, collision detection on with a margin of 2, counter 1 |
| Tables.TableManager.CheckCollision | admin/js/table-plan-editor.js:405-436 | false when detection is off; otherwise true exactly when the candidate, grown by the margin, strictly overlaps another table's box; the excluded id never counts |
| Tables.TableManager.AddTable | admin/js/table-plan-editor.js:239-255 | adds exactly one entry, under the fresh id and at the end of the key order; the table and the new counter are `BuildTable`'s |
| Tables.TableManager.SelectTable | admin/js/table-plan-editor.js:298-312 | the table becomes the selection |
| Tables.TableManager.UpdateSelectedTable | admin/js/table-plan-editor.js:353-385 | without a selected table nothing changes; otherwise only that table changes, to `Updated` |
| Tables.TableManager.DeleteSelectedTable | admin/js/table-plan-editor.js:387-403 | removes exactly the selected table from the map and the key order and clears the selection; without a selection nothing changes |
| Tables.TableManager.HandleMouseDown | admin/js/table-plan-editor.js:438-455 | only the left button starts a drag: it selects the table and records the grab offset |
| Tables.TableManager.HandleMouseMove | admin/js/table-plan-editor.js:457-497 | the clamped position is recorded whether or not it collides, keeps the table inside the canvas when it fits, and the collision result is `Blocked` at that position |
| Tables.TableManager.HandleMouseUp | admin/js/table-plan-editor.js:499-531 | commits the recorded position only when it does not collide, otherwise leaves the table where it was; afterwards no table is dragged and no position is recorded |
| Tables.TableManager.Job | admin/js/table-plan-editor.js:533-537 | a grid insertion in the current state uses `ceil(sqrt(count))` columns |
| Tables.TableManager.AddGridCell | admin/js/table-plan-editor.js:541-554 | one inner-loop step adds the grid's next table |
| Tables.TableManager.AddGridRow | admin/js/table-plan-editor.js:541-555 | the inner loop adds one row of tables, up to the count |
| Tables.TableManager.AddGridRows | admin/js/table-plan-editor.js:540-556 | the outer loop adds every requested table |
| Tables.TableManager.AddGrid | admin/js/table-plan-editor.js:533-557 | adds exactly `count` tables under the fresh ids, in order, each the grid's table of its cell; the counter advances by `count` only when `addTable` draws the numbers |
| Tables.TableManager.AddTableInGrid | admin/js/table-plan-editor.js:533-557 | as written: adds exactly `count` tables, all numbered `T<counter>`, and the counter does not move |
| Tables.TableManager.AddTableInGridNumbered | admin/js/table-plan-editor.js:533-557 | as intended: adds exactly `count` tables numbered `T<counter>`, `T<counter + 1>`, and so on, all different; the counter advances by `count` |
| Tables.TableManager.MoveTables | admin/js/table-plan-editor.js:582-592 | keeps the keys, and moves the `k`-th table in key order to the `k`-th position when there is one |
| Tables.TableManager.ArrangeTablesInPattern | admin/js/table-plan-editor.js:559-595 | keeps the keys and changes only `x` and `y`; table `k` goes to the grid, "rows" or circle position `k`; an unknown pattern or an empty plan moves nothing |
| Tables.TableManager.ClearAll | admin/js/table-plan-editor.js:662-674 | empties the map and clears the selection |
| Tables.TableManager.LoadTables | admin/js/table-plan-editor.js:680-686 | leaves exactly the loaded tables, keyed by their ids, and no selection |
| Tables.TableManager.ToggleCollisionDetection | admin/js/table-plan-editor.js:696-708 | flips collision detection |
| Tables.TableManager.SetCollisionMargin | admin/js/table-plan-editor.js:710-713 | the margin becomes its input clamped to `[0, 10]` |
| Tables.TableManager.CopyTableFormat | admin/js/table-plan-editor.js:715-732 | captures exactly the selected table's width, height, rotation and shape; without a selected table nothing changes |
| Tables.TableManager.PasteTableFormat | admin/js/table-plan-editor.js:734-751 | copies width, height, rotation and shape onto the selected table and leaves `x`, `y` and number unchanged; without a selection or a format nothing changes |
| Text.TrimSlice | admin/js/table-plan-editor.js:12 | `trim()` returns the slice between the leading and trailing white space: only white space lies outside it, and it neither starts nor ends with white space |
| Text.LowerHexChar | admin/js/layout-editor.js:174-177 | `toString(16)` writes a lower-case digit of the right value |
| Text.HexDigits | admin/js/layout-editor.js:174-177 | `n.toString(16)` of a natural number: non-empty lower-case hexadecimal digits that denote `n`, one digit exactly below 16 and two from 16 to 255, never an `N` or a `-` |
| Text.PaddedHex | admin/js/layout-editor.js:174-177 | `v.toString(16).padStart(2, '0')` of any integer is read back by `parseInt(…, 16)` and holds no `N`; a byte is exactly two lower-case digits of its value |
| Text.ParseHex | admin/js/layout-editor.js:166-168 | `parseInt(s, 16)` yields a negative number only for a string containing a minus sign |
| Text.ParseHexOfHexDigits | admin/js/layout-editor.js:166-168 | a non-empty run of hexadecimal digits parses to its value |
| Text.ParseHexOfNegative | admin/js/layout-editor.js:166-168 | a minus sign followed by hexadecimal digits parses to the negated value |
| Text.TrimStartSuffix | admin/js/table-plan-editor.js:12 | what is dropped at the front of a string is white space, and what is kept is the rest of the string |
| Text.NatToString | admin/js/event-manager.js:46-48 | `String(n)`: non-empty decimal digits, one digit exactly below 10, no leading zero |
| Text.DecimalOfNatToString | admin/js/event-manager.js:46-48 | the digits of `String(n)` denote `n` |
| Text.Pad2 | admin/js/event-manager.js:46-47 | `padStart(2, '0')` gives at least two digits, and exactly two below 100 |
| Text.ParseInt | admin/js/event-manager.js:27-29 | `parseInt` yields a negative number only for a string containing a minus sign |
| Text.ParseIntNatToString | admin/js/event-manager.js:27-29 | `parseInt` reads back every decimal rendering of a natural number |
| Text.ParseIntOfDigits | admin/js/event-manager.js:27-29 | a non-empty digit string parses to its decimal value, leading zeros included |
| Text.ParseIntPad2 | admin/js/event-manager.js:27-29 | `parseInt` reads back a zero-padded day or month |
| Text.Split | admin/js/event-manager.js:19 | `split` gives at least one piece, no piece holds the separator, and there is one piece exactly when the separator is absent |
| Text.JoinSplit | admin/js/event-manager.js:19 | joining the pieces of a split gives the string back |
| Text.SplitJoin | admin/js/event-manager.js:19 | splitting a join of separator-free pieces gives the pieces back |
| EventDates.DaysInMonth | admin/js/event-manager.js:35 | a month has 28 to 31 days, and 29 exactly for February of a leap year |
| EventDates.DayFromYearStep | admin/js/event-manager.js:35 | consecutive years' day numbers differ by the length of the year |
| EventDates.MonthBoundary | admin/js/event-manager.js:35 | the day after a month's last day is the first of the next month, across year ends too |
| EventDates.DayNumberInjective | admin/js/event-manager.js:35 | different valid dates have different day numbers |
| EventDates.DayNumberBefore | admin/js/event-manager.js:35 | a valid date before a month's first day has a smaller day number |
| EventDates.MonthBefore | admin/js/event-manager.js:35 | the last day of the previous month is valid and is the day before the month's first |
| EventDates.MonthAfter | admin/js/event-manager.js:35 | the first day of the next month is valid and is the day after the month's last |
| EventDates.Normalize | admin/js/event-manager.js:35 | `Date`'s day roll-over: the result is a valid date with the same day number as the possibly out-of-range day |
| EventDates.NormalizeKeepsValid | admin/js/event-manager.js:35 | a valid date is not moved |
| EventDates.CarriedMonth | admin/js/event-manager.js:28 | a month index carried into years leaves a month from 1 to 12 |
| EventDates.MakeDateDay | admin/js/event-manager.js:35 | `new Date(y, m, d)` is a valid date exactly when its day number is in range, and it is day `d` counted from the first of the carried month |
| EventDates.MakeDateOfValid | admin/js/event-manager.js:35 | a valid in-range date whose year is not 0 to 99 is built back exactly from its own year, month index and day |
| EventDates.RolloverExample | admin/js/event-manager.js:35 | 31 February 2024 is 2 March 2024, and day 0 of January 2023 is 31 December 2022 |
| EventDates.PivotYear | admin/js/event-manager.js:31-33 | a year below 50 becomes 2000 + year, 50 to 99 becomes 1900 + year, larger years are unchanged; a two-digit year lands in 1950 to 2049 with the same last two digits |
| EventDates.DayFirstYear | admin/js/event-manager.js:19-33 | a year read from a dash-split part is never negative, so the pivoted year is at least 100 and `Date` leaves it alone |
| EventDates.DayFirstOrder | admin/js/event-manager.js:26-29 | a non-ISO three-part string is read day first: day from part 0, month from part 1, year from part 2 |
| EventDates.Fallbacks | admin/js/event-manager.js:11-55 | the empty string gives `-` and `''`; a dash with other than three parts, an invalid day-first date, or an unparseable dash-free string gives the input back and `''` |
| EventDates.IsoPassthrough | admin/js/event-manager.js:64-70 | a three-part string whose first part has four characters is returned unchanged by `formatDateForInput` and goes to the `Date` parser in `formatEventDate` |
| EventDates.DayFirstReadsBack | admin/js/event-manager.js:26-29 | a zero-padded `DD-MM-<digits>` string is read as that day, month and year |
| EventDates.DayFirstDateOf | admin/js/event-manager.js:27-35 | the day-first date of a valid date's own day, month and pivot-matching year is that date |
| EventDates.DayFirstFormats | admin/js/event-manager.js:42-50 | a day-first string with a valid date is written as `DD.MM.YYYY` and as `YYYY-MM-DD` of that date |
| EventDates.DayFirstRoundTrip | admin/js/event-manager.js:11-55 | `DD-MM-YY(YY)` of a valid date formats to that date's `DD.MM.YYYY` and `YYYY-MM-DD` |
| EventDates.DottedSplit | admin/js/event-manager.js:46-50 | `DD.MM.YYYY` has exactly the three fields day, month, year, with two-digit day and month |
| EventDates.DottedReadBack | admin/js/event-manager.js:46-50 | the three fields of `DD.MM.YYYY` parse back to the date's day, month and year |
| EventDates.IsoSplit | admin/js/event-manager.js:92-97 | `YYYY-MM-DD` of a four-digit year has exactly the three fields year, month, day, of lengths 4, 2, 2 |
| EventDates.IsoReadBack | admin/js/event-manager.js:92-97 | the three fields of `YYYY-MM-DD` parse back to the date's year, month and day |
| EventDates.InputFormStable | admin/js/event-manager.js:58-102 | `formatDateForInput` leaves its own output for a four-digit year unchanged |

## Left out

- Everything that renders or talks to the page or the server: DOM styling, classes and `innerHTML`, `alert`/`confirm`, status messages and notifications, `console` logging, every `fetch` and `LayoutManager`.
- `loadCategories` fills `categories` and `tabColors` from the server; the model starts with both maps empty and reads them in `GetCategoryColor`.
- `generateDefaultLayout` fetches its items; only the `generateButtonLayout` part is modelled.
- The settings inputs of `initializeEventHandlers` (snap, grid size, collision, spacing, minimum size) are not modelled. The editor invariant assumes a positive grid size; a grid size of 0 or `NaN` typed into the form is outside the model.
- `handleTabNameChange`, `syncTabNames`, `applyTabColors`, `openLabelModal`/`closeLabelModal` and the Escape-key and canvas-click listeners only touch the page or call `deselectButton`/`deactivateFormatCopyMode`, which are modelled.
- Buttons are selected by index into the current tab's list, not by object reference. The editor has no button deletion, so indices are stable while a tab is shown.
- Mouse positions arrive already relative to the canvas (or to the pressed button, for the grab offset); `getBoundingClientRect` is not modelled.
- Canvas.CanvasManager.SetZoom: the scroll re-centring of the wrapper is not modelled.
- Canvas.CanvasManager.FitToView: the viewport size is a parameter, and the delayed scroll centring is not modelled.
- `init`, `updateCanvasSize`, `updateScale`, `toggleGrid`, `getMousePosition` and `updateCoordinates` of `CanvasManager` only touch the page.
- `SecurityUtils.generateId` uses the clock and `Math.random`; the model takes a fresh id as a parameter.
- `parseFloat` is not modelled: `validateNumber` and the table fields take an already-parsed optional number, with `None` for `NaN` or a missing field.
- Security.SanitizeInput: the `String(input)` branch for non-string input is not modelled; every caller in the core passes a string.
- `generateCirclePositions` uses trigonometry; its positions are an input of `ArrangeTablesInPattern`.
- `createTableElement`, `updateTableElement`, `showTableControls`, `handleEnterPress`, `getAllTables` and `showNotification` only touch the page or copy the map.
- Tables.TableManager.HandleMouseMove: the existence test of the table's DOM element is modelled only as the existence of the table itself.
- Tables.TableManager.DeleteSelectedTable, Tables.TableManager.UpdateSelectedTable, Tables.TableManager.CopyTableFormat and Tables.TableManager.PasteTableFormat: an empty-string `selectedTable`, which JavaScript treats as no selection, is not distinguished from other ids. Generated ids are never empty.
- Strings are sequences of Unicode code points. JavaScript's `length`, indices and `substring` count UTF-16 code units, so a string with characters outside the Basic Multilingual Plane has a different length in the model (`admin/js/event-manager.js` lines 22 and 68 test `parts[0].length === 4`, so a first field of four characters counted differently takes the other branch; the colour digits are ASCII in practice).
- Floating point: zoom, pixel sizes and table positions are exact reals, so IEEE rounding is not modelled.
- The `Date` string parser (`new Date(s)` and its local-time getters) is a parameter `parse` of both date helpers. Its results are not modelled.
- EventDates.MakeDate: the validity limit of a `Date` is checked on the local day number (±100,000,000 days), not on the UTC millisecond value. Time zones and daylight saving time are not modelled.
- `new Date(y, m, d)` maps years 0 to 99 to 1900 to 1999. The model includes this, but it is never reached from the day-first branch (`EventDates.DayFirstYear`).
- The right resize handle re-snaps and re-clamps the height as well as the width, as the code does. `LayoutEditor.ResizeHandleAxes` states when the other axis is left alone.

## Findings

| source | as written | input that shows it | evidently intended | confidence | as-written member | corrected member |
|---|---|---|---|---|---|---|
| admin/js/layout-editor.js:440-448 | `handleButtonMouseDown` calls `selectButton` first. That empties `selectedButtons`, so the group-drag branch is never taken. | Two buttons selected with Ctrl-click, then a plain press on one of them. The selection collapses to that button, and only it is dragged. | Pressing a member of the multi-selection drags the whole group and keeps the selection. | high, not executed | LayoutEditor.GroupDragUnreachableAsWritten | LayoutEditor.Editor.HandleButtonMouseDown |
| admin/js/table-plan-editor.js:545-552 | `addTableInGrid` passes the number `T${nextTableNumber}` explicitly. `addTable` then never advances the counter. | A grid of 2 tables with the counter at 1: both tables are numbered `T1`. | Each grid table gets its own number `T<n>`, `T<n+1>`, and so on. | high, not executed | Tables.TableManager.AddTableInGrid | Tables.TableManager.AddTableInGridNumbered |
