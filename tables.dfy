/** `TableManager` of the table-plan editor (admin/js/table-plan-editor.js): the
    tables of a room plan kept in a `Map` by id, the single selection, the drag
    gesture that is reverted at mouse-up when it ends in a collision, the
    arrangement patterns, bulk grid insertion and format copy/paste. Sizes are in
    centimetres, positions in canvas pixels, and a table's size on the canvas is
    its size in metres converted by the canvas manager. */
module Tables {
  import opened Wrappers
  import opened Text
  import opened Security
  import opened Canvas
  import opened Arrangement
  import opened Arith

  datatype Table = Table(
    id: string,
    number: string,
    shape: string,
    width: real,
    height: real,
    x: real,
    y: real,
    rotation: real)

  /** The argument of `addTable`. Missing strings are `""`; numbers are already
      read by `parseFloat`, `None` standing for `NaN` or a missing field. */
  datatype TableData = TableData(
    number: string,
    shape: string,
    width: Option<real>,
    height: Option<real>,
    x: Option<real>,
    y: Option<real>,
    rotation: Option<real>)

  /** `copiedFormat`. */
  datatype TableFormat = TableFormat(width: real, height: real, rotation: real, shape: string)

  /** A rectangle `[x, x+w] × [y, y+h]` on the canvas. */
  datatype Box = Box(x: real, y: real, w: real, h: real)

  /** The automatic table number `T<n>`. */
  function NumberLabel(n: nat): string {
    "T" + NatToString(n)
  }

  /** `validateNumber(v, lo, hi) || fallback`: a value in range other than 0,
      else the fallback. */
  function Checked(v: Option<real>, lo: real, hi: real, fallback: real): (r: real)
    requires lo <= fallback <= hi
    ensures lo <= r <= hi
    ensures v.Some? && lo <= v.value <= hi && v.value != 0.0 ==> r == v.value
    ensures !(v.Some? && lo <= v.value <= hi && v.value != 0.0) ==> r == fallback
  {
    OrDefault(ValidateNumber(v, lo, hi), fallback)
  }

  /** The table `addTable` builds under `id` while the counter is `next`, and the
      counter afterwards. Sizes outside `[30, 300]` become 80, positions outside
      `[0, 2000]` (and 0 itself, which `||` treats as missing) become 50, a
      rotation outside `[-180, 180]` becomes 0; only a missing number consumes the
      counter. The source sanitises the automatic number too, which leaves it as it
      is (`SanitizeNumberLabel`). */
  function BuildTable(id: string, data: TableData, next: nat): (Table, nat)
  {
    var next' := if data.number == "" then next + 1 else next;
    (Table(
      id,
      if data.number == "" then NumberLabel(next) else SanitizeInput(data.number),
      if data.shape == "" then "rectangle" else data.shape,
      Checked(data.width, 30.0, 300.0, 80.0),
      Checked(data.height, 30.0, 300.0, 80.0),
      Checked(data.x, 0.0, 2000.0, 50.0),
      Checked(data.y, 0.0, 2000.0, 50.0),
      Checked(data.rotation, -180.0, 180.0, 0.0)),
     next')
  }

  /** What `addTable` guarantees about the table it builds: sizes in `[30, 300]`,
      a position in `(0, 2000]`, a rotation in `[-180, 180]`, the given values
      kept where they are valid, the number given or drawn from the counter, and
      the counter advanced exactly when it was drawn from. */
  lemma BuildTableValid(id: string, data: TableData, next: nat)
    ensures var (t, next') := BuildTable(id, data, next);
      && t.id == id
      && 30.0 <= t.width <= 300.0 && 30.0 <= t.height <= 300.0
      && 0.0 < t.x <= 2000.0 && 0.0 < t.y <= 2000.0
      && -180.0 <= t.rotation <= 180.0
      && (data.number == "" ==> t.number == NumberLabel(next) && next' == next + 1)
      && (data.number != "" ==> t.number == SanitizeInput(data.number) && next' == next)
      && t.shape == (if data.shape == "" then "rectangle" else data.shape)
      && (data.width.Some? && 30.0 <= data.width.value <= 300.0 ==> t.width == data.width.value)
      && (data.height.Some? && 30.0 <= data.height.value <= 300.0 ==> t.height == data.height.value)
      && (data.x.Some? && 0.0 < data.x.value <= 2000.0 ==> t.x == data.x.value)
      && (data.x == None || data.x.value <= 0.0 || data.x.value > 2000.0 ==> t.x == 50.0)
      && (data.y.Some? && 0.0 < data.y.value <= 2000.0 ==> t.y == data.y.value)
      && (data.rotation.Some? && -180.0 <= data.rotation.value <= 180.0 ==> t.rotation == data.rotation.value)
  {
  }

  /** The table after `updateSelectedTable` with the four form fields: an empty
      number field or an invalid size or rotation leaves that attribute alone; a
      negative rotation is stored plus 360, so a stored rotation lies in
      `[0, 360)`. Nothing else changes. */
  function Updated(t: Table, number: string, width: Option<real>, height: Option<real>, rotation: Option<real>): (r: Table)
    ensures r == t.(number := r.number, width := r.width, height := r.height, rotation := r.rotation)
    ensures r.number == if number == "" then t.number else SanitizeInput(number)
    ensures r.width == if ValidateNumber(width, 30.0, 300.0).Some? then width.value else t.width
    ensures r.height == if ValidateNumber(height, 30.0, 300.0).Some? then height.value else t.height
    ensures ValidateNumber(rotation, -180.0, 180.0) == None ==> r.rotation == t.rotation
    ensures ValidateNumber(rotation, -180.0, 180.0).Some? ==>
      0.0 <= r.rotation < 360.0 && (r.rotation == rotation.value || r.rotation == rotation.value + 360.0)
  {
    var w := ValidateNumber(width, 30.0, 300.0);
    var h := ValidateNumber(height, 30.0, 300.0);
    var rot := ValidateNumber(rotation, -180.0, 180.0);
    t.(number := if number == "" then t.number else SanitizeInput(number),
       width := if w.Some? then w.value else t.width,
       height := if h.Some? then h.value else t.height,
       rotation := if rot.Some? then (if rot.value < 0.0 then rot.value + 360.0 else rot.value) else t.rotation)
  }

  /** The strict overlap test of `checkCollision`. */
  predicate Overlap(a: Box, b: Box) {
    a.x < b.x + b.w && a.x + a.w > b.x && a.y < b.y + b.h && a.y + a.h > b.y
  }

  /** A box grown by `margin` on every side. */
  function Expand(r: Box, margin: real): Box {
    Box(r.x - margin, r.y - margin, r.w + 2.0 * margin, r.h + 2.0 * margin)
  }

  /** Growing the candidate by the margin is the same as growing the other table:
      the margin is a minimum distance, symmetric between the two. */
  lemma ExpandSymmetric(a: Box, b: Box, margin: real)
    ensures Overlap(Expand(a, margin), b) <==> Overlap(a, Expand(b, margin))
  {
  }

  /** `x % m` of JavaScript on numbers: `x - m * trunc(x / m)`, the remainder of
      truncating division, with the sign of `x` (`JsRemNonNegative`,
      `JsRemNegative`, `JsRemSmall`). */
  function JsRem(x: real, m: real): real
    requires m > 0.0
  {
    TruncFrac(x / m) * m
  }

  /** The remainder of a non-negative `x` lies in `[0, m)`. */
  lemma JsRemNonNegative(x: real, m: real)
    requires m > 0.0 && x >= 0.0
    ensures 0.0 <= JsRem(x, m) < m
  {
    var f := TruncFrac(x / m);
    QuotientSign(x, m);
    FracScaled(f, m);
    assert JsRem(x, m) == f * m;
  }

  /** The remainder of a negative `x` lies in `(-m, 0]`. */
  lemma JsRemNegative(x: real, m: real)
    requires m > 0.0 && x < 0.0
    ensures -m < JsRem(x, m) <= 0.0
  {
    QuotientSign(x, m);
    FracScaled(TruncFrac(x / m), m);
  }

  /** A value already in `[0, m)` is its own remainder. */
  lemma JsRemSmall(x: real, m: real)
    requires m > 0.0 && 0.0 <= x < m
    ensures JsRem(x, m) == x
  {
    QuotientSign(x, m);
    QuotientBelowOne(x, m);
    QuotientTimes(x, m);
  }

  /** `d - trunc(d)`: what truncation toward zero leaves of `d`. */
  function TruncFrac(d: real): (f: real)
    ensures d >= 0.0 ==> 0.0 <= f < 1.0
    ensures d < 0.0 ==> -1.0 < f <= 0.0
    ensures 0.0 <= d < 1.0 ==> f == d
  {
    if d >= 0.0 then d - (d.Floor as real) else d + ((-d).Floor as real)
  }

  lemma QuotientTimes(x: real, m: real)
    requires m > 0.0
    ensures (x / m) * m == x
  {
  }

  lemma QuotientSign(x: real, m: real)
    requires m > 0.0
    ensures x >= 0.0 <==> x / m >= 0.0
  {
    var d := x / m;
    assert d * m == x;
    ScaleIff(0.0, d, m);
  }

  lemma QuotientBelowOne(x: real, m: real)
    requires m > 0.0
    ensures 0.0 <= x < m ==> x / m < 1.0
  {
    var d := x / m;
    assert d * m == x;
    ScaleIff(1.0, d, m);
  }

  /** A fraction of `m` strictly between `-m` and `m`, with the sign of the fraction. */
  lemma FracScaled(f: real, m: real)
    requires -1.0 < f < 1.0 && m > 0.0
    ensures f >= 0.0 ==> 0.0 <= f * m < m
    ensures f <= 0.0 ==> -m < f * m <= 0.0
  {
    if f >= 0.0 {
      ScaleLe(0.0, f, m);
      ScaleLt(f, 1.0, m);
    } else {
      ScaleLt(-1.0, f, m);
      ScaleLe(f, 0.0, m);
    }
  }

  /** Multiplying by a positive `m` keeps the order both ways. */
  lemma ScaleIff(a: real, b: real, m: real)
    requires m > 0.0
    ensures a <= b <==> a * m <= b * m
  {
    if a <= b {
      ScaleLe(a, b, m);
    } else {
      ScaleLt(b, a, m);
    }
  }

  lemma ScaleLe(a: real, b: real, m: real)
    requires a <= b && m > 0.0
    ensures a * m <= b * m
  {
    assert b * m - a * m == (b - a) * m;
  }

  lemma ScaleLt(a: real, b: real, m: real)
    requires a < b && m > 0.0
    ensures a * m < b * m
  {
    assert b * m - a * m == (b - a) * m;
  }

  /** The arguments of `addTableInGrid`. */
  datatype GridRequest = GridRequest(startX: real, startY: real, count: nat, shape: string, width: real, height: real)

  /** What `addTableInGrid` passes to `addTable` for the table in column `col`
      of row `row`: spaced by the table size plus 20 cm, wrapped around the room
      with `%`, converted from centimetres to pixels. */
  function GridData(g: GridRequest, row: nat, col: nat, roomWidth: real, roomHeight: real, number: string): TableData
    requires roomWidth > 0.0 && roomHeight > 0.0
  {
    var x := JsRem(g.startX + (col as real) * (g.width + 20.0), roomWidth * 100.0);
    var y := JsRem(g.startY + (row as real) * (g.height + 20.0), roomHeight * 100.0);
    TableData(number, g.shape, Some(g.width), Some(g.height),
              Some((x / 100.0) * PixelsPerMeter), Some((y / 100.0) * PixelsPerMeter), None)
  }

  /** One grid insertion: the request, the fresh ids of its tables, the counter
      when it starts, whether the number is passed explicitly, the room size in
      metres and the number of columns, `ceil(sqrt(count))`. */
  datatype GridJob = GridJob(g: GridRequest, ids: seq<string>, next: nat, explicitNumber: bool,
                             roomWidth: real, roomHeight: real, cols: nat)
  {
    predicate WellFormed() {
      |ids| == g.count && roomWidth > 0.0 && roomHeight > 0.0 && (g.count > 0 ==> cols > 0)
    }
  }

  /** The `k`-th table of a grid insertion: the table `addTable` builds from the
      grid cell `k / cols`, `k % cols`, numbered `T<next>` when the number is
      passed explicitly and `T<next + k>` when `addTable` draws it. */
  function GridTable(j: GridJob, k: nat): Table
    requires j.WellFormed() && k < j.g.count
  {
    var data := GridData(j.g, k / j.cols, k % j.cols, j.roomWidth, j.roomHeight, "");
    Table(j.ids[k],
          NumberLabel(if j.explicitNumber then j.next else j.next + k),
          if j.g.shape == "" then "rectangle" else j.g.shape,
          Checked(data.width, 30.0, 300.0, 80.0),
          Checked(data.height, 30.0, 300.0, 80.0),
          Checked(data.x, 0.0, 2000.0, 50.0),
          Checked(data.y, 0.0, 2000.0, 50.0),
          Checked(data.rotation, -180.0, 180.0, 0.0))
  }

  /** What `addTable` builds for cell `k` of a grid insertion is `GridTable(j, k)`,
      given the number that is passed and the counter of that moment. */
  lemma GridCellTable(j: GridJob, k: nat, number: string, next: nat)
    requires j.WellFormed() && k < j.g.count
    requires number == (if j.explicitNumber then NumberLabel(j.next) else "")
    requires next == (if j.explicitNumber then j.next else j.next + k)
    ensures BuildTable(j.ids[k], GridData(j.g, k / j.cols, k % j.cols, j.roomWidth, j.roomHeight, number), next).0 == GridTable(j, k)
  {
    var d := GridData(j.g, k / j.cols, k % j.cols, j.roomWidth, j.roomHeight, number);
    var d0 := GridData(j.g, k / j.cols, k % j.cols, j.roomWidth, j.roomHeight, "");
    assert d == d0.(number := number);
    var t := BuildTable(j.ids[k], d, next).0;
    if j.explicitNumber {
      SanitizeNumberLabel(j.next);
      assert number != "";
      assert t.number == NumberLabel(j.next);
    } else {
      assert t.number == NumberLabel(j.next + k);
    }
    assert t.width == Checked(d0.width, 30.0, 300.0, 80.0);
  }

  /** The tables of a whole grid insertion, in order. */
  function GridTables(j: GridJob): (r: seq<Table>)
    requires j.WellFormed()
    ensures |r| == j.g.count
  {
    seq(j.g.count, k requires 0 <= k < j.g.count => GridTable(j, k))
  }

  /** `tabs` are the tables of the grid insertion `j`. */
  ghost predicate GridTablesAre(j: GridJob, tabs: seq<Table>)
    requires j.WellFormed()
  {
    |tabs| == j.g.count && forall k {:trigger GridTable(j, k)} :: 0 <= k < j.g.count ==> tabs[k] == GridTable(j, k)
  }

  /** What `addTable` builds in column `col` of row `row` is the grid's table `k`. */
  lemma GridCellAt(j: GridJob, tabs: seq<Table>, k: nat, row: nat, col: nat, number: string, next: nat)
    requires j.WellFormed() && GridTablesAre(j, tabs) && k < j.g.count
    requires col < j.cols && k == row * j.cols + col
    requires number == (if j.explicitNumber then NumberLabel(j.next) else "")
    requires next == (if j.explicitNumber then j.next else j.next + k)
    ensures BuildTable(j.ids[k], GridData(j.g, row, col, j.roomWidth, j.roomHeight, number), next).0 == tabs[k]
  {
    RaySlot(row, j.cols, col + 1);
    GridCellTable(j, k, number, next);
  }

  /** `base` after the first `n` of `tabs` are put in turn under the ids `ids`. */
  function Inserted(base: map<string, Table>, ids: seq<string>, tabs: seq<Table>, n: nat): map<string, Table>
    requires |tabs| == |ids| && n <= |ids|
  {
    if n == 0 then base else Inserted(base, ids, tabs, n - 1)[ids[n - 1] := tabs[n - 1]]
  }

  /** With distinct ids, each inserted id holds its own table and every other key
      of `base` keeps its entry. */
  lemma {:induction false} InsertedContents(base: map<string, Table>, ids: seq<string>, tabs: seq<Table>, n: nat)
    requires |tabs| == |ids| && n <= |ids| && Unique(ids)
    ensures forall id :: id in Inserted(base, ids, tabs, n) <==> id in base || id in ids[..n]
    ensures forall id :: id in base && id !in ids[..n] ==> Inserted(base, ids, tabs, n)[id] == base[id]
    ensures forall k :: 0 <= k < n ==> Inserted(base, ids, tabs, n)[ids[k]] == tabs[k]
  {
    if n > 0 {
      InsertedContents(base, ids, tabs, n - 1);
      assert ids[..n] == ids[..n - 1] + [ids[n - 1]];
      forall k | 0 <= k < n - 1
        ensures Inserted(base, ids, tabs, n)[ids[k]] == tabs[k]
      {
        assert ids[k] != ids[n - 1];
      }
    }
  }

  /** The `n`-th id of an insertion is not yet a key. */
  lemma InsertedFresh(base: map<string, Table>, ids: seq<string>, tabs: seq<Table>, n: nat)
    requires |tabs| == |ids| && n < |ids| && Unique(ids)
    requires forall k :: 0 <= k < |ids| ==> ids[k] !in base
    ensures ids[n] !in Inserted(base, ids, tabs, n)
  {
    InsertedContents(base, ids, tabs, n);
  }

  /** `order` without `id`. */
  function RemoveId(order: seq<string>, id: string): (r: seq<string>)
    ensures forall e :: e in r <==> e in order && e != id
    ensures Unique(order) ==> Unique(r)
  {
    if order == [] then []
    else if order[0] == id then RemoveId(order[1..], id)
    else
      assert Unique(order) ==> Unique(order[1..]) && order[0] !in order[1..];
      [order[0]] + RemoveId(order[1..], id)
  }

  predicate Unique(s: seq<string>) {
    forall i, j :: 0 <= i < j < |s| ==> s[i] != s[j]
  }

  /** The map left by `loadTables(data)`: each entry put under its id in turn, so
      a later entry with the same id replaces an earlier one. */
  function Loaded(data: seq<Table>): map<string, Table>
  {
    if data == [] then map[] else Loaded(data[..|data| - 1])[data[|data| - 1].id := data[|data| - 1]]
  }

  /** Exactly the ids of the loaded entries are keys, and each key holds the last
      entry with that id. */
  lemma {:induction false} LoadedContents(data: seq<Table>)
    ensures forall id :: id in Loaded(data) <==> exists k :: 0 <= k < |data| && data[k].id == id
    ensures forall k :: 0 <= k < |data| && (forall j :: k < j < |data| ==> data[j].id != data[k].id) ==>
      data[k].id in Loaded(data) && Loaded(data)[data[k].id] == data[k]
    ensures forall id :: id in Loaded(data) ==> Loaded(data)[id].id == id
  {
    if data != [] {
      var init := data[..|data| - 1];
      LoadedContents(init);
      assert forall k :: 0 <= k < |init| ==> init[k] == data[k];
    }
  }

  /** One pass of the `loadTables` loop, and the table invariants of what it
      builds: the keys are the listed ids and each entry sits under its own id. */
  lemma LoadStep(data: seq<Table>, k: nat)
    requires k < |data|
    ensures Loaded(data[..k + 1]) == Loaded(data[..k])[data[k].id := data[k]]
    ensures FirstOccurrences(data[..k + 1]) ==
      if data[k].id in FirstOccurrences(data[..k]) then FirstOccurrences(data[..k])
      else FirstOccurrences(data[..k]) + [data[k].id]
  {
    assert data[..k + 1][..k] == data[..k];
    LoadedKeys(data[..k + 1]);
  }

  /** The table invariants of a loaded map: its keys are the listed ids, in the
      order of first appearance, and each entry sits under its own id. */
  lemma LoadedKeys(data: seq<Table>)
    ensures forall id :: id in Loaded(data) <==> id in FirstOccurrences(data)
    ensures forall id :: id in Loaded(data) ==> Loaded(data)[id].id == id
  {
    LoadedContents(data);
  }

  /** The `data.forEach` of `loadTables`, starting from an empty `Map`: each entry
      is set under its id, and an id seen for the first time joins the key order. */
  method LoadAll(data: seq<Table>) returns (m: map<string, Table>, order: seq<string>)
    ensures m == Loaded(data) && order == FirstOccurrences(data)
  {
    m, order := map[], [];
    var k := 0;
    while k < |data|
      invariant 0 <= k <= |data|
      invariant m == Loaded(data[..k]) && order == FirstOccurrences(data[..k])
    {
      LoadStep(data, k);
      m := m[data[k].id := data[k]];
      if data[k].id !in order {
        order := order + [data[k].id];
      }
      k := k + 1;
    }
    assert data[..k] == data;
  }

  /** The ids of `data` in order of first appearance: the iteration order of the
      `Map` after `loadTables`. */
  function FirstOccurrences(data: seq<Table>): (r: seq<string>)
    ensures Unique(r)
    ensures forall id :: id in r <==> exists k :: 0 <= k < |data| && data[k].id == id
  {
    if data == [] then []
    else
      var init := FirstOccurrences(data[..|data| - 1]);
      assert forall k :: 0 <= k < |data| - 1 ==> data[..|data| - 1][k] == data[k];
      if data[|data| - 1].id in init then init else init + [data[|data| - 1].id]
  }

  /** The automatic numbers are their own sanitised form. */
  lemma SanitizeNumberLabel(n: nat)
    ensures SanitizeInput(NumberLabel(n)) == NumberLabel(n)
  {
    var s := NumberLabel(n);
    EscapePlain(s);
    assert forall k :: 0 <= k < |s| ==> !IsWhitespace(s[k]) by {
      forall k | 0 <= k < |s| ensures !IsWhitespace(s[k]) {
        if k > 0 { assert s[k] == NatToString(n)[k - 1]; }
      }
    }
    TrimPlain(s);
  }

  lemma {:induction false} EscapePlain(s: string)
    requires forall k :: 0 <= k < |s| ==> !IsSpecial(s[k])
    ensures Escape(s) == s
    decreases |s|
  {
    if s != [] {
      EscapePlain(s[1..]);
    }
  }

  lemma TrimPlain(s: string)
    requires forall k :: 0 <= k < |s| ==> !IsWhitespace(s[k])
    ensures Trim(s) == s
  {
    assert TrimStart(s) == s;
    assert TrimEnd(s) == s;
  }

  /** The `k`-th table of a grid insertion is stored under the `k`-th id. */
  lemma GridEntry(base: map<string, Table>, j: GridJob, k: nat)
    requires j.WellFormed() && Unique(j.ids) && k < j.g.count
    ensures j.ids[k] in Inserted(base, j.ids, GridTables(j), j.g.count)
    ensures Inserted(base, j.ids, GridTables(j), j.g.count)[j.ids[k]] == GridTable(j, k)
  {
    InsertedContents(base, j.ids, GridTables(j), j.g.count);
    assert j.ids[..j.g.count] == j.ids;
  }

  /** The numbers a grid insertion hands out: `T<next>` for every table when the
      number is passed explicitly, so all are equal; `T<next + k>` for the `k`-th
      table when `addTable` draws it. */
  lemma GridNumbers(base: map<string, Table>, j: GridJob)
    requires j.WellFormed() && Unique(j.ids)
    ensures var m := Inserted(base, j.ids, GridTables(j), j.g.count);
      forall k :: 0 <= k < j.g.count ==>
        j.ids[k] in m && m[j.ids[k]].number == NumberLabel(if j.explicitNumber then j.next else j.next + k)
    ensures var m := Inserted(base, j.ids, GridTables(j), j.g.count);
      j.explicitNumber ==>
        forall a, b :: 0 <= a < b < j.g.count ==> m[j.ids[a]].number == m[j.ids[b]].number
  {
    var m := Inserted(base, j.ids, GridTables(j), j.g.count);
    forall k | 0 <= k < j.g.count
      ensures j.ids[k] in m && m[j.ids[k]].number == NumberLabel(if j.explicitNumber then j.next else j.next + k)
    {
      GridEntry(base, j, k);
    }
  }

  /** When `addTable` draws the numbers, no two tables of a grid share one. */
  lemma GridNumbersDistinct(base: map<string, Table>, j: GridJob)
    requires j.WellFormed() && Unique(j.ids) && !j.explicitNumber
    ensures var m := Inserted(base, j.ids, GridTables(j), j.g.count);
      forall a, b :: 0 <= a < b < j.g.count ==>
        j.ids[a] in m && j.ids[b] in m && m[j.ids[a]].number != m[j.ids[b]].number
  {
    var m := Inserted(base, j.ids, GridTables(j), j.g.count);
    GridNumbers(base, j);
    forall a, b | 0 <= a < b < j.g.count
      ensures j.ids[a] in m && j.ids[b] in m && m[j.ids[a]].number != m[j.ids[b]].number
    {
      NumberLabelInjective(j.next + a, j.next + b);
    }
  }

  /** Different counters give different automatic numbers. */
  lemma NumberLabelInjective(a: nat, b: nat)
    requires a != b
    ensures NumberLabel(a) != NumberLabel(b)
  {
    DecimalOfNatToString(a);
    DecimalOfNatToString(b);
    assert NumberLabel(a)[1..] == NatToString(a);
    assert NumberLabel(b)[1..] == NatToString(b);
  }

  /** The pattern names `arrangeTablesInPattern` knows. The circle positions need
      trigonometry and are an input here. */
  function PatternTarget(pattern: string, k: nat, n: nat, w: real, h: real, circle: seq<Pos>): Option<Pos>
    requires k < n
  {
    if pattern == "circle" then (if k < |circle| then Some(circle[k]) else None)
    else if pattern == "grid" then Some(GridPosition(k, n, w, h))
    else if pattern == "rows" then Some(RowPosition(k, n, w, h))
    else None
  }

  function At(positions: seq<Pos>, k: nat): Option<Pos> {
    if k < |positions| then Some(positions[k]) else None
  }

  function MoveTo(t: Table, p: Option<Pos>): (r: Table)
    ensures r == t.(x := r.x, y := r.y)
  {
    if p.Some? then t.(x := p.value.x, y := p.value.y) else t
  }

  /** The `tables.forEach` of `arrangeTablesInPattern` on a copy of the map: the
      `k`-th table in `order` takes the `k`-th position, if there is one. Only `x`
      and `y` change, and a table without a position stays put. */
  method MoveAll(m: map<string, Table>, order: seq<string>, positions: seq<Pos>) returns (r: map<string, Table>)
    requires Unique(order) && forall q :: 0 <= q < |order| ==> order[q] in m
    ensures r.Keys == m.Keys
    ensures forall id :: id in r ==> r[id] == m[id].(x := r[id].x, y := r[id].y)
    ensures forall k :: 0 <= k < |order| ==> r[order[k]] == MoveTo(m[order[k]], At(positions, k))
  {
    r := m;
    var k := 0;
    while k < |order|
      invariant 0 <= k <= |order|
      invariant r.Keys == m.Keys
      invariant forall id :: id in r ==> r[id] == m[id].(x := r[id].x, y := r[id].y)
      invariant forall q :: 0 <= q < k ==> r[order[q]] == MoveTo(m[order[q]], At(positions, q))
      invariant forall q :: k <= q < |order| ==> r[order[q]] == m[order[q]]
    {
      var id := order[k];
      ghost var before := r;
      if k < |positions| {
        r := r[id := r[id].(x := positions[k].x, y := positions[k].y)];
      }
      assert forall q :: 0 <= q < |order| && q != k ==> r[order[q]] == before[order[q]];
      k := k + 1;
    }
  }

  /** `Math.max(0, Math.min(v, limit - size))`. */
  function ClampPosition(v: real, size: real, limit: real): (r: real)
    ensures 0.0 <= r
    ensures size <= limit ==> r + size <= limit
    ensures 0.0 <= v <= limit - size ==> r == v
  {
    var m := if v < limit - size then v else limit - size;
    if 0.0 < m then m else 0.0
  }

  class TableManager {
    const canvas: CanvasManager
    /** The `Map` of tables: its entries, and its keys in insertion order. */
    var tables: map<string, Table>
    var order: seq<string>
    var selectedTable: Option<string>
    var draggedTable: Option<string>
    var dragOffset: Pos
    var tempPosition: Option<Pos>
    var copiedFormat: Option<TableFormat>
    var collisionDetection: bool
    var collisionMargin: real
    var nextTableNumber: nat

    ghost predicate Valid()
      reads this, canvas
    {
      && canvas.Valid()
      && Unique(order)
      && (forall id :: id in tables <==> id in order)
      && (forall id :: id in tables ==> tables[id].id == id)
      && 0.0 <= collisionMargin <= 10.0
    }

    constructor (c: CanvasManager)
      requires c.Valid()
      ensures Valid()
      ensures canvas == c && tables == map[] && order == []
      ensures selectedTable == None && draggedTable == None && tempPosition == None && copiedFormat == None
      ensures collisionDetection && collisionMargin == 2.0 && nextTableNumber == 1
    {
      canvas := c;
      tables := map[];
      order := [];
      selectedTable := None;
      draggedTable := None;
      dragOffset := Pos(0.0, 0.0);
      tempPosition := None;
      copiedFormat := None;
      collisionDetection := true;
      collisionMargin := 2.0;
      nextTableNumber := 1;
    }

    /** The box a table covers on the canvas (`updateTableElement` sizes). */
    function BoxOf(t: Table): Box
      reads canvas
      requires canvas.Valid()
    {
      Box(t.x, t.y, canvas.MetersToPixels(t.width / 100.0), canvas.MetersToPixels(t.height / 100.0))
    }

    /** What `checkCollision(excludeId, …)` answers for the box `r`: detection is
        on and `r`, grown by the margin, strictly overlaps some other table. */
    predicate Blocked(excludeId: string, r: Box)
      reads this, canvas
      requires canvas.Valid()
    {
      collisionDetection &&
      exists id :: id in tables && id != excludeId && Overlap(Expand(r, collisionMargin), BoxOf(tables[id]))
    }

    /** `checkCollision`: walks the tables in order and stops at the first hit. */
    method CheckCollision(excludeId: string, r: Box) returns (hit: bool)
      requires Valid()
      ensures hit == Blocked(excludeId, r)
      ensures !collisionDetection ==> !hit
    {
      if !collisionDetection {
        return false;
      }
      var grown := Expand(r, collisionMargin);
      var k := 0;
      while k < |order|
        invariant 0 <= k <= |order|
        invariant forall q :: 0 <= q < k ==> order[q] == excludeId || !Overlap(grown, BoxOf(tables[order[q]]))
      {
        var id := order[k];
        if id != excludeId && Overlap(grown, BoxOf(tables[id])) {
          return true;
        }
        k := k + 1;
      }
      forall id | id in tables && id != excludeId
        ensures !Overlap(grown, BoxOf(tables[id]))
      {
        var q :| 0 <= q < |order| && order[q] == id;
      }
      return false;
    }

    /** `addTable` with `freshId` standing for `SecurityUtils.generateId()`: exactly
        one entry is added, under the fresh id, at the end of the iteration order. */
    method AddTable(data: TableData, freshId: string) returns (t: Table)
      requires Valid() && freshId !in tables
      modifies this`tables, this`order, this`nextTableNumber
      ensures Valid()
      ensures (t, nextTableNumber) == BuildTable(freshId, data, old(nextTableNumber))
      ensures tables == old(tables)[freshId := t] && order == old(order) + [freshId]
    {
      var r := BuildTable(freshId, data, nextTableNumber);
      t := r.0;
      nextTableNumber := r.1;
      tables := tables[freshId := t];
      order := order + [freshId];
    }

    /** `selectTable`. */
    method SelectTable(id: string)
      modifies this`selectedTable
      ensures selectedTable == Some(id)
    {
      selectedTable := Some(id);
    }

    /** `updateSelectedTable` with the values of the four form fields. */
    method UpdateSelectedTable(number: string, width: Option<real>, height: Option<real>, rotation: Option<real>)
      requires Valid()
      modifies this`tables
      ensures Valid()
      ensures old(selectedTable) == None || old(selectedTable).value !in old(tables) ==> tables == old(tables)
      ensures old(selectedTable).Some? && old(selectedTable).value in old(tables) ==>
        var id := selectedTable.value;
        tables == old(tables)[id := Updated(old(tables)[id], number, width, height, rotation)]
    {
      if selectedTable == None || selectedTable.value !in tables {
        return;
      }
      var id := selectedTable.value;
      tables := tables[id := Updated(tables[id], number, width, height, rotation)];
    }

    /** `deleteSelectedTable`: removes only the selected table and clears the
        selection. */
    method DeleteSelectedTable()
      requires Valid()
      modifies this`tables, this`order, this`selectedTable
      ensures Valid()
      ensures old(selectedTable) == None ==> tables == old(tables) && order == old(order) && selectedTable == None
      ensures old(selectedTable).Some? ==>
        && tables == old(tables) - {old(selectedTable).value}
        && order == RemoveId(old(order), old(selectedTable).value)
        && selectedTable == None
    {
      if selectedTable == None {
        return;
      }
      var id := selectedTable.value;
      tables := tables - {id};
      order := RemoveId(order, id);
      selectedTable := None;
    }

    /** `handleMouseDown` for the primary button (`button == 0`) on a table, with
        the grab point inside the table already divided by the zoom. */
    method HandleMouseDown(button: int, id: string, offset: Pos)
      modifies this`draggedTable, this`selectedTable, this`dragOffset
      ensures button != 0 ==> draggedTable == old(draggedTable) && selectedTable == old(selectedTable) && dragOffset == old(dragOffset)
      ensures button == 0 ==> draggedTable == Some(id) && selectedTable == Some(id) && dragOffset == offset
    {
      if button != 0 {
        return;
      }
      draggedTable := Some(id);
      SelectTable(id);
      dragOffset := offset;
    }

    /** `handleMouseMove` with the mouse in unzoomed canvas pixels: the tentative
        position is clamped into the room and recorded whether or not it collides;
        the stored table does not move. */
    method HandleMouseMove(mouse: Pos) returns (collision: bool)
      requires Valid()
      modifies this`tempPosition
      ensures Valid()
      ensures old(draggedTable) == None || old(draggedTable).value !in tables ==> tempPosition == old(tempPosition) && !collision
      ensures old(draggedTable).Some? && old(draggedTable).value in tables ==>
        var t := tables[draggedTable.value];
        var b := BoxOf(t);
        var cw := canvas.CanvasWidthPx();
        var ch := canvas.CanvasHeightPx();
        && tempPosition == Some(Pos(ClampPosition(mouse.x - dragOffset.x, b.w, cw), ClampPosition(mouse.y - dragOffset.y, b.h, ch)))
        && (b.w <= cw ==> tempPosition.value.x + b.w <= cw)
        && (b.h <= ch ==> tempPosition.value.y + b.h <= ch)
        && (collision == Blocked(t.id, Box(tempPosition.value.x, tempPosition.value.y, b.w, b.h)))
    {
      if draggedTable == None || draggedTable.value !in tables {
        return false;
      }
      var t := tables[draggedTable.value];
      var b := BoxOf(t);
      var x := ClampPosition(mouse.x - dragOffset.x, b.w, canvas.CanvasWidthPx());
      var y := ClampPosition(mouse.y - dragOffset.y, b.h, canvas.CanvasHeightPx());
      collision := CheckCollision(draggedTable.value, Box(x, y, b.w, b.h));
      tempPosition := Some(Pos(x, y));
    }

    /** `handleMouseUp`: the tentative position is committed only if it does not
        collide, otherwise the table stays where it was; the gesture ends either way. */
    method HandleMouseUp()
      requires Valid()
      modifies this`tables, this`draggedTable, this`tempPosition
      ensures Valid()
      ensures old(draggedTable) == None ==> tables == old(tables) && draggedTable == None && tempPosition == old(tempPosition)
      ensures old(draggedTable).Some? ==> draggedTable == None && tempPosition == None
      ensures old(draggedTable).Some? && old(draggedTable).value in old(tables) && old(tempPosition).Some? ==>
        var id := old(draggedTable).value;
        var t := old(tables)[id];
        var p := old(tempPosition).value;
        var b := BoxOf(t);
        && (Blocked(id, Box(p.x, p.y, b.w, b.h)) ==> tables == old(tables))
        && (!Blocked(id, Box(p.x, p.y, b.w, b.h)) ==> tables == old(tables)[id := t.(x := p.x, y := p.y)])
      ensures old(draggedTable).Some? && (old(draggedTable).value !in old(tables) || old(tempPosition) == None) ==>
        tables == old(tables)
    {
      if draggedTable == None {
        return;
      }
      var id := draggedTable.value;
      if id in tables && tempPosition.Some? {
        var t := tables[id];
        var p := tempPosition.value;
        var b := BoxOf(t);
        var hit := CheckCollision(id, Box(p.x, p.y, b.w, b.h));
        if !hit {
          tables := tables[id := t.(x := p.x, y := p.y)];
        }
      }
      draggedTable := None;
      tempPosition := None;
    }

    /** The insertion `addTableInGrid(g)` starts in the present state. */
    function Job(g: GridRequest, ids: seq<string>, explicitNumber: bool): (j: GridJob)
      reads this, canvas
      requires Valid() && |ids| == g.count
      ensures j.WellFormed() && j.cols == GridCols(g.count)
    {
      GridJob(g, ids, nextTableNumber, explicitNumber, canvas.roomWidth, canvas.roomHeight, GridCols(g.count))
    }

    /** The state after the first `done` tables of the grid insertion `j` (whose
        tables are `tabs`) are added to the map `base` with key order `baseOrder`. */
    ghost predicate GridAt(j: GridJob, tabs: seq<Table>, base: map<string, Table>, baseOrder: seq<string>, done: nat)
      reads this, canvas
    {
      && j.WellFormed() && done <= j.g.count && Unique(j.ids) && GridTablesAre(j, tabs)
      && (forall k :: 0 <= k < |j.ids| ==> j.ids[k] !in base)
      && Valid() && j.roomWidth == canvas.roomWidth && j.roomHeight == canvas.roomHeight
      && order == baseOrder + j.ids[..done] && tables == Inserted(base, j.ids, tabs, done)
      && nextTableNumber == if j.explicitNumber then j.next else j.next + done
    }

    /** One pass of the inner loop of `addTableInGrid`: table `k` of the grid,
        in column `col` of row `row`. */
    method AddGridCell(j: GridJob, k: nat, row: nat, col: nat,
                       ghost tabs: seq<Table>, ghost base: map<string, Table>, ghost baseOrder: seq<string>)
      requires GridAt(j, tabs, base, baseOrder, k) && k < j.g.count
      requires col < j.cols && k == row * j.cols + col
      modifies this`tables, this`order, this`nextTableNumber
      ensures GridAt(j, tabs, base, baseOrder, k + 1)
    {
      InsertedFresh(base, j.ids, tabs, k);
      AppendStep(baseOrder, j.ids, k);
      var number := if j.explicitNumber then NumberLabel(nextTableNumber) else "";
      GridCellAt(j, tabs, k, row, col, number, nextTableNumber);
      var t := AddTable(GridData(j.g, row, col, canvas.roomWidth, canvas.roomHeight, number), j.ids[k]);
    }

    /** The inner loop of `addTableInGrid`: row `row` of the grid, from column 0
        until the row or the requested count is full. */
    method AddGridRow(j: GridJob, row: nat, tableCount: nat,
                      ghost tabs: seq<Table>, ghost base: map<string, Table>, ghost baseOrder: seq<string>)
      returns (count: nat)
      requires GridAt(j, tabs, base, baseOrder, tableCount)
      requires tableCount == row * j.cols && tableCount < j.g.count
      modifies this`tables, this`order, this`nextTableNumber
      ensures count == Arith.Min(tableCount + j.cols, j.g.count)
      ensures GridAt(j, tabs, base, baseOrder, count)
    {
      count := tableCount;
      var col := 0;
      while col < j.cols && count < j.g.count
        invariant 0 <= col <= j.cols
        invariant count == tableCount + col && count <= j.g.count
        invariant GridAt(j, tabs, base, baseOrder, count)
      {
        AddGridCell(j, count, row, col, tabs, base, baseOrder);
        count := count + 1;
        col := col + 1;
      }
      RowExhausted(tableCount, j.cols, col, j.g.count, count);
    }

    /** The outer loop of `addTableInGrid`: `rows` rows of `j.cols` columns, until
        all `j.g.count` tables are placed. */
    method AddGridRows(j: GridJob, rows: nat,
                       ghost tabs: seq<Table>, ghost base: map<string, Table>, ghost baseOrder: seq<string>)
      requires GridAt(j, tabs, base, baseOrder, 0) && j.g.count > 0 && rows * j.cols >= j.g.count
      modifies this`tables, this`order, this`nextTableNumber
      ensures GridAt(j, tabs, base, baseOrder, j.g.count)
    {
      var tableCount := 0;
      var row := 0;
      while row < rows && tableCount < j.g.count
        invariant 0 <= row <= rows
        invariant tableCount == Arith.Min(row * j.cols, j.g.count)
        invariant GridAt(j, tabs, base, baseOrder, tableCount)
      {
        NextRow(row, j.cols, j.g.count, tableCount);
        tableCount := AddGridRow(j, row, tableCount, tabs, base, baseOrder);
        row := row + 1;
      }
      LoopExhausted(row, rows, j.cols, j.g.count, tableCount);
    }

    /** The grid insertion loop of `addTableInGrid`. With `explicitNumber` every
        table is handed the number `T<nextTableNumber>` of the moment (the code as
        written); without it `addTable` numbers each one itself. */
    method AddGrid(g: GridRequest, ids: seq<string>, explicitNumber: bool)
      requires Valid() && |ids| == g.count && Unique(ids)
      requires forall k :: 0 <= k < |ids| ==> ids[k] !in tables
      modifies this`tables, this`order, this`nextTableNumber
      ensures Valid()
      ensures order == old(order) + ids
      ensures tables == Inserted(old(tables), ids, GridTables(old(Job(g, ids, explicitNumber))), g.count)
      ensures nextTableNumber == if explicitNumber then old(nextTableNumber) else old(nextTableNumber) + g.count
    {
      var j := Job(g, ids, explicitNumber);
      if g.count == 0 {
        return;
      }
      var rows := CeilDiv(g.count, j.cols);
      assert GridTablesAre(j, GridTables(j));
      assert GridAt(j, GridTables(j), tables, order, 0);
      AddGridRows(j, rows, GridTables(j), tables, order);
      WholePrefix(ids, g.count);
    }

    /** `addTableInGrid` AS WRITTEN: it passes `T<nextTableNumber>` explicitly, so
        `addTable` never advances the counter and every table of the grid gets the
        same number. */
    method AddTableInGrid(g: GridRequest, ids: seq<string>)
      requires Valid() && |ids| == g.count && Unique(ids)
      requires forall k :: 0 <= k < |ids| ==> ids[k] !in tables
      modifies this`tables, this`order, this`nextTableNumber
      ensures Valid()
      ensures order == old(order) + ids
      ensures tables == Inserted(old(tables), ids, GridTables(old(Job(g, ids, true))), g.count)
      ensures forall k :: 0 <= k < g.count ==> ids[k] in tables && tables[ids[k]].number == NumberLabel(old(nextTableNumber))
      ensures nextTableNumber == old(nextTableNumber)
    {
      ghost var j := Job(g, ids, true);
      AddGrid(g, ids, true);
      GridNumbers(old(tables), j);
    }

    /** `addTableInGrid` as evidently intended: `count` new tables numbered
        `T<n>`, `T<n+1>`, … from the counter, which ends `count` further on, so the
        new numbers are pairwise different. */
    method AddTableInGridNumbered(g: GridRequest, ids: seq<string>)
      requires Valid() && |ids| == g.count && Unique(ids)
      requires forall k :: 0 <= k < |ids| ==> ids[k] !in tables
      modifies this`tables, this`order, this`nextTableNumber
      ensures Valid()
      ensures order == old(order) + ids
      ensures tables == Inserted(old(tables), ids, GridTables(old(Job(g, ids, false))), g.count)
      ensures forall k :: 0 <= k < g.count ==> ids[k] in tables && tables[ids[k]].number == NumberLabel(old(nextTableNumber) + k)
      ensures forall j, k :: 0 <= j < k < g.count ==> tables[ids[j]].number != tables[ids[k]].number
      ensures nextTableNumber == old(nextTableNumber) + g.count
    {
      ghost var job := Job(g, ids, false);
      AddGrid(g, ids, false);
      GridNumbers(old(tables), job);
      GridNumbersDistinct(old(tables), job);
    }

    /** The `forEach` of `arrangeTablesInPattern`: the `k`-th table in map order
        moves to `positions[k]` where there is one. */
    method MoveTables(positions: seq<Pos>)
      requires Valid()
      modifies this`tables
      ensures Valid()
      ensures tables.Keys == old(tables).Keys
      ensures forall k :: 0 <= k < |order| ==> tables[order[k]] == MoveTo(old(tables)[order[k]], At(positions, k))
    {
      assert forall q :: 0 <= q < |order| ==> order[q] in tables;
      tables := MoveAll(tables, order, positions);
    }

    /** `arrangeTablesInPattern`: with at least one table, the `k`-th table in map
        order moves to the `k`-th position of the pattern (if there is one); an
        unknown pattern moves nothing. Only `x` and `y` change. */
    method ArrangeTablesInPattern(pattern: string, circle: seq<Pos>)
      requires Valid()
      modifies this`tables
      ensures Valid()
      ensures tables.Keys == old(tables).Keys
      ensures forall k :: 0 <= k < |order| ==>
        tables[order[k]] == MoveTo(old(tables)[order[k]],
          PatternTarget(pattern, k, |order|, canvas.CanvasWidthPx(), canvas.CanvasHeightPx(), circle))
    {
      var n := |order|;
      if n == 0 {
        return;
      }
      var w := canvas.CanvasWidthPx();
      var h := canvas.CanvasHeightPx();
      var positions: seq<Pos> := [];
      if pattern == "circle" {
        positions := circle;
      } else if pattern == "grid" {
        positions := GenerateGridPositions(n, w, h);
      } else if pattern == "rows" {
        positions := GenerateRowPositions(n, w, h);
      }
      assert forall k :: 0 <= k < n ==> PatternTarget(pattern, k, n, w, h, circle) == At(positions, k);
      MoveTables(positions);
    }

    /** `clearAll`: no tables and no selection. */
    method ClearAll()
      requires Valid()
      modifies this`tables, this`order, this`selectedTable
      ensures Valid()
      ensures tables == map[] && order == [] && selectedTable == None
    {
      tables := map[];
      order := [];
      selectedTable := None;
    }

    /** `loadTables`: clears everything and puts each entry under its own id. */
    method LoadTables(data: seq<Table>)
      requires Valid()
      modifies this`tables, this`order, this`selectedTable
      ensures Valid()
      ensures tables == Loaded(data) && order == FirstOccurrences(data) && selectedTable == None
    {
      ClearAll();
      tables, order := LoadAll(data);
      LoadedKeys(data);
    }

    /** `toggleCollisionDetection`. */
    method ToggleCollisionDetection()
      modifies this`collisionDetection
      ensures collisionDetection == !old(collisionDetection)
    {
      collisionDetection := !collisionDetection;
    }

    /** `setCollisionMargin`: the margin clamped to `[0, 10]` pixels. */
    method SetCollisionMargin(margin: real)
      requires Valid()
      modifies this`collisionMargin
      ensures Valid()
      ensures 0.0 <= margin <= 10.0 ==> collisionMargin == margin
      ensures margin < 0.0 ==> collisionMargin == 0.0
      ensures margin > 10.0 ==> collisionMargin == 10.0
    {
      collisionMargin := if margin < 0.0 then 0.0 else if margin > 10.0 then 10.0 else margin;
    }

    /** `copyTableFormat`: remembers size, rotation and shape of the selected table. */
    method CopyTableFormat()
      requires Valid()
      modifies this`copiedFormat
      ensures old(selectedTable) == None || old(selectedTable).value !in tables ==> copiedFormat == old(copiedFormat)
      ensures old(selectedTable).Some? && old(selectedTable).value in tables ==>
        var t := tables[selectedTable.value];
        copiedFormat == Some(TableFormat(t.width, t.height, t.rotation, t.shape))
    {
      if selectedTable == None || selectedTable.value !in tables {
        return;
      }
      var t := tables[selectedTable.value];
      copiedFormat := Some(TableFormat(t.width, t.height, t.rotation, t.shape));
    }

    /** `pasteTableFormat`: the selected table takes the copied size, rotation and
        shape; its id, number and position stay. */
    method PasteTableFormat()
      requires Valid()
      modifies this`tables
      ensures Valid()
      ensures old(selectedTable) == None || copiedFormat == None || old(selectedTable).value !in old(tables) ==>
        tables == old(tables)
      ensures old(selectedTable).Some? && copiedFormat.Some? && old(selectedTable).value in old(tables) ==>
        var id := selectedTable.value;
        var f := copiedFormat.value;
        tables == old(tables)[id := old(tables)[id].(width := f.width, height := f.height, rotation := f.rotation, shape := f.shape)]
    {
      if selectedTable == None || copiedFormat == None || selectedTable.value !in tables {
        return;
      }
      var id := selectedTable.value;
      var f := copiedFormat.value;
      tables := tables[id := tables[id].(width := f.width, height := f.height, rotation := f.rotation, shape := f.shape)];
    }
  }

  /** A row pass stops at the end of the row or of the requested count. */
  lemma RowExhausted(start: nat, cols: nat, col: nat, count: nat, done: nat)
    requires col <= cols && done == start + col && done <= count
    requires !(col < cols && done < count)
    ensures done == Arith.Min(start + cols, count)
  {
  }

  /** A full row of `cols` more tables takes the grid from `row` rows to `row + 1`. */
  lemma NextRow(row: nat, cols: nat, count: nat, done: nat)
    requires done == row * cols
    ensures Arith.Min(done + cols, count) == Arith.Min((row + 1) * cols, count)
  {
  }

  /** The grid loops stop only once every requested table is placed. */
  lemma LoopExhausted(row: nat, rows: nat, cols: nat, count: nat, done: nat)
    requires row <= rows && rows * cols >= count && done == Arith.Min(row * cols, count)
    requires !(row < rows && done < count)
    ensures done == count
  {
  }

  lemma WholePrefix(ids: seq<string>, n: nat)
    requires n == |ids|
    ensures ids[..n] == ids
  {
  }

  lemma AppendStep(prefix: seq<string>, ids: seq<string>, k: nat)
    requires k < |ids|
    ensures prefix + ids[..k + 1] == (prefix + ids[..k]) + [ids[k]]
  {
    assert ids[..k + 1] == ids[..k] + [ids[k]];
  }

}
