/** The camera grid of the main window (MainWindow): how many rows and
    columns to draw for N channels, the row-major placement of one image
    control per cell, and which controls are bound to a display slot. Only
    the counts, positions and bindings of the WPF objects are kept. */
module MainWindow {
  import opened Wrappers
  import MVM = MainViewModel
  import VSD = VideoStreamDecoder

  /** The largest channel count GetMaxColumns handles. */
  const MaxChannels: nat := 49

  /** The NotImplementedException GetMaxColumns throws beyond MaxChannels. */
  datatype Fault = UnhandledChannelCount

  /** `k` is the smallest natural number whose square reaches `n`. */
  predicate IsCeilSqrt(n: nat, k: nat)
  {
    k * k >= n && (k == 0 || (k - 1) * (k - 1) < n)
  }

  /** GetMaxColumns, given Decoders.Count. */
  function GetMaxColumns(channels: nat): (r: Result<nat, Fault>)
    ensures r.Failure? <==> channels > MaxChannels
    ensures 1 <= channels <= MaxChannels ==> r.Success? && IsCeilSqrt(channels, r.value)
    ensures channels == 0 ==> r == Success(2)
    ensures r.Success? ==> 1 <= r.value <= 7
  {
    if channels == 1 then Success(1)
    else if channels <= 4 then Success(2)
    else if channels <= 9 then Success(3)
    else if channels <= 16 then Success(4)
    else if channels <= 25 then Success(5)
    else if channels <= 36 then Success(6)
    else if channels <= 49 then Success(7)
    else Failure(UnhandledChannelCount)
  }

  lemma SquareMonotonic(a: nat, b: nat)
    requires a <= b
    ensures a * a <= b * b
  {
    assert a * a <= a * b <= b * b;
  }

  /** There is only one ceiling square root, so GetMaxColumns is the only
      answer the contract allows. */
  lemma CeilSqrtUnique(n: nat, k1: nat, k2: nat)
    requires IsCeilSqrt(n, k1) && IsCeilSqrt(n, k2)
    ensures k1 == k2
  {
    if k1 < k2 {
      SquareMonotonic(k1, k2 - 1);
    } else if k2 < k1 {
      SquareMonotonic(k2, k1 - 1);
    }
  }

  /** An image control: its grid cell and the display slot it is bound to, if any. */
  datatype Control = Control(row: int, column: int, boundTo: Option<string>)

  /** The CamerasLayout grid: row and column definition counts and the children. */
  datatype Grid = Grid(rows: nat, columns: nat, children: seq<Control>)

  /** ClearCameraLayout. */
  function ClearCameraLayout(g: Grid): Grid
  {
    Grid(0, 0, [])
  }

  /** OnCamerasStopped: no children, rows or columns remain. */
  function OnCamerasStopped(g: Grid): (g': Grid)
    ensures g'.children == [] && g'.rows == 0 && g'.columns == 0
  {
    ClearCameraLayout(g)
  }

  /** The loop of SetRowsAndColumns: `count` more row and column definitions. */
  function AddRowsAndColumns(g: Grid, count: nat): (g': Grid)
    ensures g'.rows == g.rows + count && g'.columns == g.columns + count
    ensures g'.children == g.children
    decreases count
  {
    if count == 0 then g
    else AddRowsAndColumns(g.(rows := g.rows + 1, columns := g.columns + 1), count - 1)
  }

  /** SetRowsAndColumns. */
  function SetRowsAndColumns(g: Grid, channels: nat): (r: Result<Grid, Fault>)
    ensures r.Failure? <==> channels > MaxChannels
    ensures r.Success? ==>
      && r.value.rows - g.rows == r.value.columns - g.columns == GetMaxColumns(channels).value
      && r.value.children == g.children
  {
    match GetMaxColumns(channels)
    case Failure(e) => Failure(e)
    case Success(k) => Success(AddRowsAndColumns(g, k))
  }

  /** The control the k-th cell in row-major order gets: bound to the k-th
      slot exactly when k is below the decoder count. */
  function CellControl(k: nat, columns: nat, realPlaysCount: nat, slots: seq<string>): Control
    requires columns > 0
    requires k < realPlaysCount ==> k < |slots|
  {
    Control(k / columns, k % columns, if k < realPlaysCount then Some(slots[k]) else None)
  }

  function Min(a: nat, b: nat): nat
  {
    if a <= b then a else b
  }

  /** The controls SetCameraControls adds, as a reference definition. */
  function RowMajorLayout(rows: nat, columns: nat, realPlaysCount: nat, slots: seq<string>): (cs: seq<Control>)
    requires Min(rows * columns, realPlaysCount) <= |slots|
    ensures |cs| == rows * columns
  {
    if columns == 0 then []
    else seq(rows * columns, k requires 0 <= k < rows * columns => CellControl(k, columns, realPlaysCount, slots))
  }

  /** Index arithmetic of row-major order. */
  lemma RowMajorIndex(row: nat, column: nat, columns: nat)
    requires column < columns
    ensures (row * columns + column) / columns == row
    ensures (row * columns + column) % columns == column
  {
    var k := row * columns + column;
    var q, m := k / columns, k % columns;
    assert (q - row) * columns == column - m by {
      assert k == q * columns + m;
      assert (q - row) * columns == q * columns - row * columns;
    }
    if q != row {
      ScaledBound(q - row, columns);
      assert false;
    }
  }

  /** A non-zero multiple of `c` is at least `c` away from zero. */
  lemma {:induction false} ScaledBound(d: int, c: int)
    requires d != 0 && c >= 0
    ensures d * c >= c || d * c <= -c
    decreases if d > 0 then d else -d
  {
    if d > 1 {
      ScaledBound(d - 1, c);
      assert d * c == (d - 1) * c + c;
    } else if d < -1 {
      ScaledBound(d + 1, c);
      assert d * c == (d + 1) * c - c;
    }
  }

  lemma CellBelowProduct(row: nat, column: nat, rows: nat, columns: nat)
    requires row < rows && column < columns
    ensures row * columns + column < rows * columns
  {
    assert row * columns + column < (row + 1) * columns <= rows * columns;
  }

  /** Position `column` of row `row` is the next control of the layout. */
  function CellIndex(row: nat, column: nat, columns: nat): nat
  {
    row * columns + column
  }

  lemma LayoutCell(rows: nat, columns: nat, realPlaysCount: nat, slots: seq<string>, row: nat, column: nat)
    requires Min(rows * columns, realPlaysCount) <= |slots|
    requires row < rows && column < columns
    ensures CellIndex(row, column, columns) < rows * columns
    ensures CellIndex(row, column, columns) < realPlaysCount ==> CellIndex(row, column, columns) < |slots|
    ensures var k := CellIndex(row, column, columns);
      RowMajorLayout(rows, columns, realPlaysCount, slots)[k]
      == Control(row, column, if k < realPlaysCount then Some(slots[k]) else None)
    ensures CellIndex(row, column, columns) + 1 == (if column + 1 < columns then CellIndex(row, column + 1, columns)
                                                    else CellIndex(row + 1, 0, columns))
  {
    CellBelowProduct(row, column, rows, columns);
    RowMajorIndex(row, column, columns);
  }

  /** SetCameraControls. `slots` is the list of display-slot
      ids (RealPlayModels.Values.ToList()), `realPlaysCount` is
      Decoders.Count. The program reads a slot only for the first
      min(rows * columns, realPlaysCount) controls, which is all it needs. */
  method SetCameraControls(g: Grid, realPlaysCount: nat, slots: seq<string>) returns (g': Grid)
    requires Min(g.rows * g.columns, realPlaysCount) <= |slots|
    ensures g'.rows == g.rows && g'.columns == g.columns
    ensures g'.children == g.children + RowMajorLayout(g.rows, g.columns, realPlaysCount, slots)
  {
    var rowsCount := g.rows;
    var columnsCount := g.columns;
    ghost var layout := RowMajorLayout(rowsCount, columnsCount, realPlaysCount, slots);
    var children := g.children;
    var nextRow := 0;
    var cameraControlsCount := 0;
    var row := 0;
    RowStart(0, rowsCount, columnsCount);
    while row < rowsCount
      invariant 0 <= row <= rowsCount
      invariant nextRow == row
      invariant cameraControlsCount == CellIndex(row, 0, columnsCount) <= |layout|
      invariant children == g.children + layout[..cameraControlsCount]
    {
      children, cameraControlsCount :=
        PlaceRow(g.children, children, nextRow, rowsCount, columnsCount, realPlaysCount, slots, cameraControlsCount);
      nextRow := nextRow + 1;
      row := row + 1;
    }
    assert layout[..cameraControlsCount] == layout;
    g' := Grid(rowsCount, columnsCount, children);
  }

  /** The inner loop of SetCameraControls: the controls of row `row`, one
      per column, appended after the `count` controls of the rows above. */
  method PlaceRow(ghost prefix: seq<Control>, children: seq<Control>, row: nat, rowsCount: nat, columnsCount: nat,
                  realPlaysCount: nat, slots: seq<string>, count: nat)
    returns (children': seq<Control>, count': nat)
    requires Min(rowsCount * columnsCount, realPlaysCount) <= |slots|
    requires row < rowsCount
    requires count == CellIndex(row, 0, columnsCount)
    requires count <= rowsCount * columnsCount
    requires children == prefix + RowMajorLayout(rowsCount, columnsCount, realPlaysCount, slots)[..count]
    ensures count' == CellIndex(row + 1, 0, columnsCount) <= rowsCount * columnsCount
    ensures children' == prefix + RowMajorLayout(rowsCount, columnsCount, realPlaysCount, slots)[..count']
  {
    ghost var layout := RowMajorLayout(rowsCount, columnsCount, realPlaysCount, slots);
    RowStart(row, rowsCount, columnsCount);
    RowStart(row + 1, rowsCount, columnsCount);
    children' := children;
    count' := count;
    var nextColumn := 0;
    var column := 0;
    while column < columnsCount
      invariant 0 <= column <= columnsCount
      invariant column < columnsCount ==> nextColumn == column
      invariant count' == CellIndex(row, 0, columnsCount) + column <= |layout|
      invariant children' == prefix + layout[..count']
    {
      LayoutCell(rowsCount, columnsCount, realPlaysCount, slots, row, column);
      var binding: Option<string> := None;
      if count' + 1 <= realPlaysCount {
        binding := Some(slots[count']);
      }
      var control := Control(row, nextColumn, binding);
      assert control == layout[count'];
      assert layout[..count' + 1] == layout[..count'] + [control];
      children' := children' + [control];
      count' := count' + 1;
      if nextColumn < columnsCount - 1 {
        nextColumn := nextColumn + 1;
      }
      column := column + 1;
    }
  }

  /** Rows start `columns` controls apart, and the row after the last one
      starts at the end of the layout. */
  lemma RowStart(row: nat, rows: nat, columns: nat)
    requires row <= rows
    ensures CellIndex(row + 1, 0, columns) == CellIndex(row, 0, columns) + columns
    ensures CellIndex(row, 0, columns) <= rows * columns
    ensures CellIndex(rows, 0, columns) == rows * columns
    ensures CellIndex(0, 0, columns) == 0
  {
    assert (row + 1) * columns == row * columns + columns;
    assert (rows - row) * columns >= 0;
    assert rows * columns - row * columns == (rows - row) * columns;
  }

  /** Every cell of the grid receives exactly one control, at its own row and column. */
  lemma EachCellOnce(rows: nat, columns: nat, realPlaysCount: nat, slots: seq<string>)
    requires Min(rows * columns, realPlaysCount) <= |slots|
    ensures var cs := RowMajorLayout(rows, columns, realPlaysCount, slots);
      && (forall r, c :: 0 <= r < rows && 0 <= c < columns ==>
            && CellIndex(r, c, columns) < |cs|
            && cs[CellIndex(r, c, columns)].row == r
            && cs[CellIndex(r, c, columns)].column == c)
      && (forall k1, k2 :: 0 <= k1 < k2 < |cs| ==>
            cs[k1].row != cs[k2].row || cs[k1].column != cs[k2].column)
  {
    var cs := RowMajorLayout(rows, columns, realPlaysCount, slots);
    forall r, c | 0 <= r < rows && 0 <= c < columns
      ensures CellIndex(r, c, columns) < |cs|
      ensures cs[CellIndex(r, c, columns)].row == r && cs[CellIndex(r, c, columns)].column == c
    {
      LayoutCell(rows, columns, realPlaysCount, slots, r, c);
    }
    forall k1, k2 | 0 <= k1 < k2 < |cs|
      ensures cs[k1].row != cs[k2].row || cs[k1].column != cs[k2].column
    {
      assert columns > 0;
      var q1, m1 := k1 / columns, k1 % columns;
      var q2, m2 := k2 / columns, k2 % columns;
      assert k1 == q1 * columns + m1 && k2 == q2 * columns + m2;
    }
  }

  /** Some control of `cs` is bound to the slot `id`. */
  predicate Shows(cs: seq<Control>, id: string)
  {
    exists k :: 0 <= k < |cs| && cs[k].boundTo == Some(id)
  }

  /** The first `realPlaysCount` controls are bound to the slots in order
      and the rest to nothing; when the grid has room for every decoder,
      every slot gets exactly one control (given distinct slot ids). */
  lemma EverySlotBound(rows: nat, columns: nat, realPlaysCount: nat, slots: seq<string>)
    requires realPlaysCount <= rows * columns && realPlaysCount <= |slots|
    requires forall i, j :: 0 <= i < j < |slots| ==> slots[i] != slots[j]
    ensures var cs := RowMajorLayout(rows, columns, realPlaysCount, slots);
      forall k :: 0 <= k < |cs| ==> cs[k].boundTo == if k < realPlaysCount then Some(slots[k]) else None
    ensures var cs := RowMajorLayout(rows, columns, realPlaysCount, slots);
      forall j :: 0 <= j < realPlaysCount ==> Shows(cs, slots[j])
    ensures var cs := RowMajorLayout(rows, columns, realPlaysCount, slots);
      forall k1, k2 :: 0 <= k1 < k2 < |cs| && cs[k1].boundTo.Some? ==> cs[k1].boundTo != cs[k2].boundTo
  {
    var cs := RowMajorLayout(rows, columns, realPlaysCount, slots);
    forall j | 0 <= j < realPlaysCount
      ensures Shows(cs, slots[j])
    {
      assert j < |cs| && cs[j].boundTo == Some(slots[j]);
    }
  }

  /** OnCamerasStarted: clear, add the definitions, add the
      controls. `values` is the view model's slot list in enumeration order. */
  method OnCamerasStarted(g: Grid, vm: MVM.ViewModel, values: seq<MVM.RealPlayModel>) returns (r: Result<Grid, Fault>)
    requires |vm.decoders| <= MaxChannels ==> |vm.decoders| <= |values|
    ensures r.Failure? <==> |vm.decoders| > MaxChannels
    ensures r.Success? ==>
      var k := GetMaxColumns(|vm.decoders|).value;
      && r.value.rows == k && r.value.columns == k
      && r.value.children == RowMajorLayout(k, k, |vm.decoders|, SlotIds(values))
  {
    var cleared := ClearCameraLayout(g);
    var sized := SetRowsAndColumns(cleared, |vm.decoders|);
    if sized.Failure? {
      return Failure(sized.error);
    }
    var grid := SetCameraControls(sized.value, |vm.decoders|, SlotIds(values));
    return Success(grid);
  }

  /** The ids of a list of display slots. */
  function SlotIds(values: seq<MVM.RealPlayModel>): (ids: seq<string>)
    ensures |ids| == |values|
    ensures forall i :: 0 <= i < |values| ==> ids[i] == values[i].id
  {
    seq(|values|, i requires 0 <= i < |values| => values[i].id)
  }

  /** The Start command as the window sees it: the view model restarts with
      eight decoders, the window handles CamerasStopped and then
      CamerasStarted, and ends with a 3 x 3 grid in which the first eight
      controls show the eight slots in registration order and the ninth
      shows nothing. Dictionary enumeration is taken in insertion order. */
  method StartCameras(vm: MVM.ViewModel, g: Grid, ids: seq<string>) returns (vm': MVM.ViewModel, g': Grid)
    requires |ids| == MVM.StreamCount
    requires forall i, j :: 0 <= i < j < |ids| ==> ids[i] != ids[j]
    ensures MVM.LockStep(vm') && |vm'.decoders| == MVM.StreamCount
    ensures g'.rows == 3 && g'.columns == 3 && |g'.children| == 9
    ensures forall k :: 0 <= k < 8 ==>
      g'.children[k] == Control(k / 3, k % 3, Some(ids[k])) && ids[k] in vm'.realPlayModels
    ensures g'.children[8] == Control(2, 2, None)
    ensures forall id :: id in vm'.realPlayModels ==> Shows(g'.children, id)
  {
    var stopped, released, events;
    vm', stopped, released, events := MVM.Start(vm, ids);
    var g1 := OnCamerasStopped(g);
    assert forall i :: 0 <= i < |ids| ==> ids[i] in vm'.realPlayModels;
    var values := seq(|ids|, i requires 0 <= i < |ids| => vm'.realPlayModels[ids[i]]);
    assert SlotIds(values) == ids;
    var r := OnCamerasStarted(g1, vm', values);
    assert r.Success? && r.value.children == RowMajorLayout(3, 3, 8, ids);
    g' := if r.Success? then r.value else g1;
    EightSlotLayout(ids);
    forall id | id in vm'.realPlayModels
      ensures Shows(g'.children, id)
    {
      var j :| 0 <= j < |ids| && ids[j] == id;
      assert g'.children[j].boundTo == Some(id);
    }
  }

  /** The layout for eight slots: a 3 x 3 grid with the last cell unbound. */
  lemma EightSlotLayout(ids: seq<string>)
    requires |ids| == 8
    ensures var cs := RowMajorLayout(3, 3, 8, ids);
      && |cs| == 9
      && (forall k :: 0 <= k < 8 ==> cs[k] == Control(k / 3, k % 3, Some(ids[k])))
      && cs[8] == Control(2, 2, None)
  {
  }
}
