/**
 * The layer shifter: moves every pixel of one layer by one cell, clips at
 * the layer's occupied extent and appends a line of transparent pixels.
 * `GetMovePixels` follows the code as written, including its horizontal
 * edge fill; `EdgeFillIntended` is the corrected fill, which clears exactly
 * the vacated line.
 */
module MoveLayer {
  import opened Types
  import opened JsNumber
  import opened PixelUtils

  /** One element of the lists the shift reads and returns: `{layer, row, col, value}`. */
  datatype PixelEntry = PixelEntry(layer: Num, row: Num, col: Num, value: Pixel)

  /** `{ ...keyToPixel(key), value: pixelStorage[key] }` */
  function EntryOf(keyToPixel: string -> Address, key: string, value: Pixel): PixelEntry {
    var a := keyToPixel(key);
    PixelEntry(a.layer, a.row, a.col, value)
  }

  /**
   * The stored pixels of layer `selected`, in key order: every decoded entry
   * whose layer is exactly the number `selected` (NaN and `undefined` never are).
   */
  function LayerEntries(keyToPixel: string -> Address, keys: seq<string>, values: map<string, Pixel>, selected: int)
    : (ps: seq<PixelEntry>)
    requires forall i :: 0 <= i < |keys| ==> keys[i] in values
    ensures |ps| <= |keys|
    ensures forall e :: e in ps ==> e.layer == Int(selected)
    ensures forall e :: e in ps <==>
      exists i :: 0 <= i < |keys| && e == EntryOf(keyToPixel, keys[i], values[keys[i]]) && e.layer == Int(selected)
  {
    if |keys| == 0 then []
    else
      var e := EntryOf(keyToPixel, keys[0], values[keys[0]]);
      var rest := LayerEntries(keyToPixel, keys[1..], values, selected);
      assert forall e' :: e' in rest <==>
        exists i :: 1 <= i < |keys| && e' == EntryOf(keyToPixel, keys[i], values[keys[i]]) && e'.layer == Int(selected) by {
        forall e' | e' in rest ensures exists i :: 1 <= i < |keys| && e' == EntryOf(keyToPixel, keys[i], values[keys[i]]) && e'.layer == Int(selected) {
          var j :| 0 <= j < |keys[1..]| && e' == EntryOf(keyToPixel, keys[1..][j], values[keys[1..][j]]) && e'.layer == Int(selected);
          assert keys[1..][j] == keys[j + 1];
        }
        forall i | 1 <= i < |keys| && EntryOf(keyToPixel, keys[i], values[keys[i]]).layer == Int(selected)
          ensures EntryOf(keyToPixel, keys[i], values[keys[i]]) in rest
        {
          assert keys[1..][i - 1] == keys[i];
        }
      }
      if e.layer == Int(selected) then [e] + rest else rest
  }

  function Rows(ps: seq<PixelEntry>): (xs: seq<Num>)
    ensures |xs| == |ps| && forall i :: 0 <= i < |ps| ==> xs[i] == ps[i].row
  {
    seq(|ps|, i requires 0 <= i < |ps| => ps[i].row)
  }

  function Cols(ps: seq<PixelEntry>): (xs: seq<Num>)
    ensures |xs| == |ps| && forall i :: 0 <= i < |ps| ==> xs[i] == ps[i].col
  {
    seq(|ps|, i requires 0 <= i < |ps| => ps[i].col)
  }

  /**
   * The value `m` ends with after `m = 0` and, for each `x` in order,
   * `if (x > m) m = x`; a NaN or `undefined` `x` compares false.
   */
  function RunningMax(xs: seq<Num>): nat {
    if |xs| == 0 then 0
    else
      var m := RunningMax(xs[..|xs| - 1]);
      var x := xs[|xs| - 1];
      if x.Int? && x.value > m then x.value else m
  }

  /** The running maximum is the largest integer among `xs`, or 0 when there is none above 0. */
  lemma {:induction false} RunningMaxIsMaximum(xs: seq<Num>)
    ensures forall k :: 0 <= k < |xs| && xs[k].Int? ==> xs[k].value <= RunningMax(xs)
    ensures RunningMax(xs) == 0 || exists k :: 0 <= k < |xs| && xs[k] == Int(RunningMax(xs))
  {
    if |xs| > 0 {
      var init := xs[..|xs| - 1];
      RunningMaxIsMaximum(init);
      assert forall k :: 0 <= k < |init| ==> xs[k] == init[k];
    }
  }

  function MaxRow(ps: seq<PixelEntry>): nat {
    RunningMax(Rows(ps))
  }

  function MaxCol(ps: seq<PixelEntry>): nat {
    RunningMax(Cols(ps))
  }

  /** `x - 1` or `x + 1` on a decoded component: NaN unless it is an integer. */
  function Step(x: Num, delta: int): Num {
    if x.Int? then Int(x.value + delta) else NaN
  }

  /** `i >= 0 && i <= max`, false for NaN. */
  predicate InBounds(i: Num, max: int) {
    i.Int? && 0 <= i.value && i.value <= max
  }

  predicate IsVertical(d: Direction) {
    d == Up || d == Down
  }

  /** `{ ...pixel, row: newRowIndex }` or `{ ...pixel, col: newColIndex }` */
  function Moved(p: PixelEntry, d: Direction): PixelEntry {
    if IsVertical(d) then p.(row := Step(p.row, if d == Up then -1 else 1))
    else p.(col := Step(p.col, if d == Left then -1 else 1))
  }

  /** The pixel survives the shift when its new index is still inside `[0, maxRow]` or `[0, maxCol]`. */
  predicate Kept(p: PixelEntry, d: Direction, maxRow: nat, maxCol: nat) {
    if IsVertical(d) then InBounds(Moved(p, d).row, maxRow) else InBounds(Moved(p, d).col, maxCol)
  }

  /** The moved pixels that are pushed, in the order the `forEach` visits them. */
  function ShiftKept(ps: seq<PixelEntry>, d: Direction, maxRow: nat, maxCol: nat): seq<PixelEntry> {
    if |ps| == 0 then []
    else
      var p := ps[|ps| - 1];
      ShiftKept(ps[..|ps| - 1], d, maxRow, maxCol) + (if Kept(p, d, maxRow, maxCol) then [Moved(p, d)] else [])
  }

  /** The transparent cell the edge fill pushes at `index`, as written (see `EdgeFill`). */
  function FillEntry(d: Direction, maxRow: nat, index: nat): PixelEntry {
    if IsVertical(d) then PixelEntry(Undefined, Int(if d == Up then maxRow else 0), Int(index), Transparent)
    else PixelEntry(Undefined, Int(index), Int(if d == Left then maxRow else 0), Transparent)
  }

  /**
   * The transparent line pushed after the moved pixels, as written: always
   * `maxCol + 1` entries without a layer; row `maxRow`/0 for Up/Down, and for
   * Left/Right rows 0..maxCol at column `maxRow`/0.
   */
  function EdgeFill(d: Direction, maxRow: nat, maxCol: nat): (fill: seq<PixelEntry>)
    ensures forall e :: e in fill ==> e.layer == Undefined && e.value == Transparent
  {
    seq(maxCol + 1, index requires 0 <= index => FillEntry(d, maxRow, index))
  }

  /** What `getMovePixels` returns for the pixels `ps` of the selected layer. */
  function Shift(d: Direction, ps: seq<PixelEntry>): seq<PixelEntry> {
    ShiftKept(ps, d, MaxRow(ps), MaxCol(ps)) + EdgeFill(d, MaxRow(ps), MaxCol(ps))
  }

  method GetMovePixels(direction: Direction, selected: int, keyToPixel: string -> Address, pixelStorage: Store<Pixel>)
    returns (newLayer: seq<PixelEntry>)
    requires pixelStorage.Valid()
    ensures newLayer == Shift(direction, LayerEntries(keyToPixel, pixelStorage.keys, pixelStorage.values, selected))
  {
    var pixelKeys := LayerEntries(keyToPixel, pixelStorage.keys, pixelStorage.values, selected);
    var maxRow, maxCol := Extent(pixelKeys);
    newLayer := PushMoved(pixelKeys, direction, maxRow, maxCol);
    newLayer := PushEdgeFill(newLayer, direction, maxRow, maxCol);
  }

  /** The `forEach` that computes `maxRow` and `maxCol`. */
  method Extent(pixelKeys: seq<PixelEntry>) returns (maxRow: nat, maxCol: nat)
    ensures maxRow == MaxRow(pixelKeys) && maxCol == MaxCol(pixelKeys)
    ensures forall k :: 0 <= k < |pixelKeys| && pixelKeys[k].row.Int? ==> pixelKeys[k].row.value <= maxRow
    ensures forall k :: 0 <= k < |pixelKeys| && pixelKeys[k].col.Int? ==> pixelKeys[k].col.value <= maxCol
    ensures maxRow == 0 || exists k :: 0 <= k < |pixelKeys| && pixelKeys[k].row == Int(maxRow)
    ensures maxCol == 0 || exists k :: 0 <= k < |pixelKeys| && pixelKeys[k].col == Int(maxCol)
  {
    maxCol, maxRow := 0, 0;
    var i := 0;
    while i < |pixelKeys|
      invariant 0 <= i <= |pixelKeys|
      invariant maxCol == RunningMax(Cols(pixelKeys[..i]))
      invariant maxRow == RunningMax(Rows(pixelKeys[..i]))
    {
      var pixel := pixelKeys[i];
      assert Cols(pixelKeys[..i + 1])[..i] == Cols(pixelKeys[..i]);
      assert Rows(pixelKeys[..i + 1])[..i] == Rows(pixelKeys[..i]);
      if pixel.col.Int? && pixel.col.value > maxCol {
        maxCol := pixel.col.value;
      }
      if pixel.row.Int? && pixel.row.value > maxRow {
        maxRow := pixel.row.value;
      }
      i := i + 1;
    }
    assert pixelKeys[..i] == pixelKeys;
    ExtentIsMaximum(pixelKeys);
  }

  /** The `forEach` that pushes every moved pixel whose new index is inside the extent. */
  method PushMoved(pixelKeys: seq<PixelEntry>, direction: Direction, maxRow: nat, maxCol: nat)
    returns (newLayer: seq<PixelEntry>)
    ensures newLayer == ShiftKept(pixelKeys, direction, maxRow, maxCol)
  {
    newLayer := [];
    var up, left := direction == Up, direction == Left;
    var i := 0;
    while i < |pixelKeys|
      invariant 0 <= i <= |pixelKeys|
      invariant newLayer == ShiftKept(pixelKeys[..i], direction, maxRow, maxCol)
    {
      var pixel := pixelKeys[i];
      assert pixelKeys[..i + 1][..i] == pixelKeys[..i];
      if direction == Up || direction == Down {
        var newRowIndex := if up then Step(pixel.row, -1) else Step(pixel.row, 1);
        if newRowIndex.Int? && newRowIndex.value >= 0 && newRowIndex.value <= maxRow {
          newLayer := newLayer + [pixel.(row := newRowIndex)];
        }
      } else {
        var newColIndex := if left then Step(pixel.col, -1) else Step(pixel.col, 1);
        if newColIndex.Int? && newColIndex.value >= 0 && newColIndex.value <= maxCol {
          newLayer := newLayer + [pixel.(col := newColIndex)];
        }
      }
      i := i + 1;
    }
    assert pixelKeys[..i] == pixelKeys;
  }

  /** `Array.from({ length: maxCol + 1 }).map(...).forEach(pixel => newLayer.push(pixel))` */
  method PushEdgeFill(kept: seq<PixelEntry>, direction: Direction, maxRow: nat, maxCol: nat)
    returns (newLayer: seq<PixelEntry>)
    ensures newLayer == kept + EdgeFill(direction, maxRow, maxCol)
  {
    newLayer := kept;
    var up, left := direction == Up, direction == Left;
    var index := 0;
    while index < maxCol + 1
      invariant 0 <= index <= maxCol + 1
      invariant |newLayer| == |kept| + index
      invariant newLayer[..|kept|] == kept
      invariant forall j :: 0 <= j < index ==> newLayer[|kept| + j] == FillEntry(direction, maxRow, j)
    {
      if direction == Up || direction == Down {
        newLayer := newLayer + [PixelEntry(Undefined, Int(if up then maxRow else 0), Int(index), Transparent)];
      } else {
        newLayer := newLayer + [PixelEntry(Undefined, Int(index), Int(if left then maxRow else 0), Transparent)];
      }
      index := index + 1;
    }
  }

  /** `MaxRow` and `MaxCol` are the largest integer row and column of the layer, and 0 for an empty layer. */
  lemma ExtentIsMaximum(ps: seq<PixelEntry>)
    ensures forall k :: 0 <= k < |ps| && ps[k].row.Int? ==> ps[k].row.value <= MaxRow(ps)
    ensures forall k :: 0 <= k < |ps| && ps[k].col.Int? ==> ps[k].col.value <= MaxCol(ps)
    ensures MaxRow(ps) == 0 || exists k :: 0 <= k < |ps| && ps[k].row == Int(MaxRow(ps))
    ensures MaxCol(ps) == 0 || exists k :: 0 <= k < |ps| && ps[k].col == Int(MaxCol(ps))
    ensures ps == [] ==> MaxRow(ps) == 0 && MaxCol(ps) == 0
  {
    RunningMaxIsMaximum(Rows(ps));
    RunningMaxIsMaximum(Cols(ps));
  }

  /** Where a pixel lands when it survives the shift, spelled out per direction. */
  ghost predicate MovesTo(p: PixelEntry, d: Direction, maxRow: nat, maxCol: nat, e: PixelEntry) {
    match d
    case Up => p.row.Int? && 0 <= p.row.value - 1 <= maxRow && e == p.(row := Int(p.row.value - 1))
    case Down => p.row.Int? && 0 <= p.row.value + 1 <= maxRow && e == p.(row := Int(p.row.value + 1))
    case Left => p.col.Int? && 0 <= p.col.value - 1 <= maxCol && e == p.(col := Int(p.col.value - 1))
    case Right => p.col.Int? && 0 <= p.col.value + 1 <= maxCol && e == p.(col := Int(p.col.value + 1))
  }

  lemma KeptMovesTo(p: PixelEntry, d: Direction, maxRow: nat, maxCol: nat)
    ensures Kept(p, d, maxRow, maxCol) <==> MovesTo(p, d, maxRow, maxCol, Moved(p, d))
    ensures forall e :: MovesTo(p, d, maxRow, maxCol, e) ==> e == Moved(p, d)
  {
  }

  /**
   * A moved pixel is in the result exactly when some pixel of the layer
   * moves onto it: same layer and value, one index changed by one, and the
   * changed index still inside the extent.
   */
  lemma {:induction false} ShiftKeptMembers(ps: seq<PixelEntry>, d: Direction, maxRow: nat, maxCol: nat)
    ensures forall e :: e in ShiftKept(ps, d, maxRow, maxCol) <==>
      exists k :: 0 <= k < |ps| && MovesTo(ps[k], d, maxRow, maxCol, e)
  {
    if |ps| > 0 {
      var init, p := ps[..|ps| - 1], ps[|ps| - 1];
      ShiftKeptMembers(init, d, maxRow, maxCol);
      KeptMovesTo(p, d, maxRow, maxCol);
      forall e ensures e in ShiftKept(ps, d, maxRow, maxCol) <==> exists k :: 0 <= k < |ps| && MovesTo(ps[k], d, maxRow, maxCol, e) {
        if exists k :: 0 <= k < |ps| && MovesTo(ps[k], d, maxRow, maxCol, e) {
          var k :| 0 <= k < |ps| && MovesTo(ps[k], d, maxRow, maxCol, e);
          if k < |init| {
            assert init[k] == ps[k];
          }
        }
        if e in ShiftKept(init, d, maxRow, maxCol) {
          var k :| 0 <= k < |init| && MovesTo(init[k], d, maxRow, maxCol, e);
          assert ps[k] == init[k];
        }
      }
    }
  }

  /** The moved pixels keep the order of the input: shifting a concatenation shifts each part. */
  lemma {:induction false} ShiftKeptAppend(a: seq<PixelEntry>, b: seq<PixelEntry>, d: Direction, maxRow: nat, maxCol: nat)
    ensures ShiftKept(a + b, d, maxRow, maxCol) == ShiftKept(a, d, maxRow, maxCol) + ShiftKept(b, d, maxRow, maxCol)
    decreases |b|
  {
    if |b| == 0 {
      assert a + b == a;
    } else {
      assert (a + b)[..|a + b| - 1] == a + b[..|b| - 1];
      ShiftKeptAppend(a, b[..|b| - 1], d, maxRow, maxCol);
    }
  }

  /**
   * The result is the surviving moved pixels followed by `MaxCol + 1`
   * transparent entries without a layer: at row `MaxRow` (Up) or 0 (Down)
   * with columns 0..MaxCol, or at rows 0..MaxCol with column `MaxRow` (Left)
   * or 0 (Right).
   */
  lemma ShiftLayout(d: Direction, ps: seq<PixelEntry>)
    ensures var kept := ShiftKept(ps, d, MaxRow(ps), MaxCol(ps));
      && |Shift(d, ps)| == |kept| + MaxCol(ps) + 1
      && Shift(d, ps)[..|kept|] == kept
      && forall i :: |kept| <= i < |Shift(d, ps)| ==>
        (Shift(d, ps)[i] ==
          match d
          case Up => PixelEntry(Undefined, Int(MaxRow(ps)), Int(i - |kept|), Transparent)
          case Down => PixelEntry(Undefined, Int(0), Int(i - |kept|), Transparent)
          case Left => PixelEntry(Undefined, Int(i - |kept|), Int(MaxRow(ps)), Transparent)
          case Right => PixelEntry(Undefined, Int(i - |kept|), Int(0), Transparent))
  {
    var kept := ShiftKept(ps, d, MaxRow(ps), MaxCol(ps));
    AppendFill(kept, d, MaxRow(ps), MaxCol(ps));
  }

  /** The entries after `kept` in `kept + EdgeFill(...)`, spelled out per direction. */
  lemma AppendFill(kept: seq<PixelEntry>, d: Direction, maxRow: nat, maxCol: nat)
    ensures var all := kept + EdgeFill(d, maxRow, maxCol);
      && |all| == |kept| + maxCol + 1
      && all[..|kept|] == kept
      && forall i :: |kept| <= i < |all| ==>
        (all[i] ==
          match d
          case Up => PixelEntry(Undefined, Int(maxRow), Int(i - |kept|), Transparent)
          case Down => PixelEntry(Undefined, Int(0), Int(i - |kept|), Transparent)
          case Left => PixelEntry(Undefined, Int(i - |kept|), Int(maxRow), Transparent)
          case Right => PixelEntry(Undefined, Int(i - |kept|), Int(0), Transparent))
  {
    var fill := EdgeFill(d, maxRow, maxCol);
    assert (kept + fill)[..|kept|] == kept;
    forall i | |kept| <= i < |kept + fill|
      ensures (kept + fill)[i] == FillEntry(d, maxRow, i - |kept|)
    {
      assert (kept + fill)[i] == fill[i - |kept|];
    }
  }

  /** Shifting a layer with no pixels gives exactly one transparent entry at (0, 0). */
  lemma EmptyLayerShift(d: Direction)
    ensures Shift(d, []) == [PixelEntry(Undefined, Int(0), Int(0), Transparent)]
  {
    assert MaxRow([]) == 0 && MaxCol([]) == 0;
  }

  /**
   * Every entry `getMovePixels` returns is either a transparent fill entry
   * without a layer, or a pixel of the selected layer moved by one cell:
   * pixels of other layers never appear.
   */
  lemma MoveStaysInLayer(keyToPixel: string -> Address, store: Store<Pixel>, selected: int, d: Direction)
    requires store.Valid()
    ensures var ps := LayerEntries(keyToPixel, store.keys, store.values, selected);
      forall e :: e in Shift(d, ps) ==>
        || (e.layer == Undefined && e.value == Transparent)
        || (e.layer == Int(selected) && exists k :: 0 <= k < |ps| && MovesTo(ps[k], d, MaxRow(ps), MaxCol(ps), e))
  {
    var ps := LayerEntries(keyToPixel, store.keys, store.values, selected);
    ShiftStaysInLayer(d, ps, selected);
  }

  /** The shift of pixels that all belong to one layer returns fill entries and moved pixels of that layer only. */
  lemma ShiftStaysInLayer(d: Direction, ps: seq<PixelEntry>, selected: int)
    requires forall p :: p in ps ==> p.layer == Int(selected)
    ensures forall e :: e in Shift(d, ps) ==>
      || (e.layer == Undefined && e.value == Transparent)
      || (e.layer == Int(selected) && exists k :: 0 <= k < |ps| && MovesTo(ps[k], d, MaxRow(ps), MaxCol(ps), e))
  {
    var kept, fill := ShiftKept(ps, d, MaxRow(ps), MaxCol(ps)), EdgeFill(d, MaxRow(ps), MaxCol(ps));
    ShiftKeptMembers(ps, d, MaxRow(ps), MaxCol(ps));
    forall e: PixelEntry | e in kept + fill
      ensures || (e.layer == Undefined && e.value == Transparent)
              || (e.layer == Int(selected) && exists k :: 0 <= k < |ps| && MovesTo(ps[k], d, MaxRow(ps), MaxCol(ps), e))
    {
      if e in kept {
        var k :| 0 <= k < |ps| && MovesTo(ps[k], d, MaxRow(ps), MaxCol(ps), e);
        assert ps[k] in ps;
        assert e.layer == ps[k].layer;
      }
    }
  }

  // ---------------------------------------------------------------------
  // The corrected edge fill, and where the code departs from it.
  // ---------------------------------------------------------------------

  /** The line of the extent that a shift leaves empty. */
  ghost predicate OnVacatedEdge(d: Direction, maxRow: nat, maxCol: nat, r: int, c: int) {
    match d
    case Up => r == maxRow && 0 <= c <= maxCol
    case Down => r == 0 && 0 <= c <= maxCol
    case Left => c == maxCol && 0 <= r <= maxRow
    case Right => c == 0 && 0 <= r <= maxRow
  }

  /** Some entry of `fill` is addressed to the cell (r, c). */
  ghost predicate Covers(fill: seq<PixelEntry>, r: int, c: int) {
    exists e :: e in fill && e.row == Int(r) && e.col == Int(c)
  }

  /**
   * The corrected fill: for Left/Right it clears rows 0..maxRow of column
   * `maxCol` (Left) or 0 (Right); Up/Down are as written.
   */
  function EdgeFillIntended(d: Direction, maxRow: nat, maxCol: nat): (fill: seq<PixelEntry>)
    ensures forall e :: e in fill ==> e.layer == Undefined && e.value == Transparent
  {
    if IsVertical(d) then EdgeFill(d, maxRow, maxCol)
    else seq(maxRow + 1, index => PixelEntry(Undefined, Int(index), Int(if d == Left then maxCol else 0), Transparent))
  }

  /** The corrected fill addresses exactly the vacated line, once per cell. */
  lemma IntendedFillIsVacatedEdge(d: Direction, maxRow: nat, maxCol: nat)
    ensures forall r, c :: Covers(EdgeFillIntended(d, maxRow, maxCol), r, c) <==> OnVacatedEdge(d, maxRow, maxCol, r, c)
    ensures |EdgeFillIntended(d, maxRow, maxCol)| == if IsVertical(d) then maxCol + 1 else maxRow + 1
  {
    var fill := EdgeFillIntended(d, maxRow, maxCol);
    forall r, c ensures Covers(fill, r, c) <==> OnVacatedEdge(d, maxRow, maxCol, r, c) {
      if OnVacatedEdge(d, maxRow, maxCol, r, c) {
        var i := if IsVertical(d) then c else r;
        assert fill[i] in fill && fill[i].row == Int(r) && fill[i].col == Int(c);
      }
    }
  }

  /** For Up and Down the code's fill is the corrected one. */
  lemma VerticalFillAsIntended(d: Direction, maxRow: nat, maxCol: nat)
    requires IsVertical(d)
    ensures EdgeFill(d, maxRow, maxCol) == EdgeFillIntended(d, maxRow, maxCol)
  {
  }

  /**
   * No surviving pixel lands on the vacated line (for a layer whose
   * integer indices are not negative), so the corrected fill never
   * overwrites a moved pixel.
   */
  lemma MovedAvoidsVacatedEdge(d: Direction, ps: seq<PixelEntry>)
    requires forall k :: 0 <= k < |ps| ==> (ps[k].row.Int? ==> ps[k].row.value >= 0) && (ps[k].col.Int? ==> ps[k].col.value >= 0)
    ensures forall e :: e in ShiftKept(ps, d, MaxRow(ps), MaxCol(ps)) && e.row.Int? && e.col.Int? ==>
      !OnVacatedEdge(d, MaxRow(ps), MaxCol(ps), e.row.value, e.col.value)
    ensures forall e :: e in ShiftKept(ps, d, MaxRow(ps), MaxCol(ps)) && e.row.Int? && e.col.Int? ==>
      !Covers(EdgeFillIntended(d, MaxRow(ps), MaxCol(ps)), e.row.value, e.col.value)
  {
    ExtentIsMaximum(ps);
    ShiftKeptMembers(ps, d, MaxRow(ps), MaxCol(ps));
    IntendedFillIsVacatedEdge(d, MaxRow(ps), MaxCol(ps));
    forall e | e in ShiftKept(ps, d, MaxRow(ps), MaxCol(ps)) && e.row.Int? && e.col.Int?
      ensures !OnVacatedEdge(d, MaxRow(ps), MaxCol(ps), e.row.value, e.col.value)
    {
      var k :| 0 <= k < |ps| && MovesTo(ps[k], d, MaxRow(ps), MaxCol(ps), e);
    }
  }

  /** The corrected shift: the moved pixels as the code keeps them, then the corrected fill. */
  function ShiftIntended(d: Direction, ps: seq<PixelEntry>): seq<PixelEntry> {
    ShiftKept(ps, d, MaxRow(ps), MaxCol(ps)) + EdgeFillIntended(d, MaxRow(ps), MaxCol(ps))
  }

  /**
   * After the corrected shift (of a layer whose integer indices are not
   * negative) every cell of the vacated line is written, and only with a
   * transparent entry; Up and Down are unchanged from the code.
   */
  lemma ShiftIntendedClearsVacatedEdge(d: Direction, ps: seq<PixelEntry>)
    requires forall k :: 0 <= k < |ps| ==> (ps[k].row.Int? ==> ps[k].row.value >= 0) && (ps[k].col.Int? ==> ps[k].col.value >= 0)
    ensures forall r, c :: OnVacatedEdge(d, MaxRow(ps), MaxCol(ps), r, c) ==> Covers(ShiftIntended(d, ps), r, c)
    ensures forall e ::
      (e in ShiftIntended(d, ps) && e.row.Int? && e.col.Int? && OnVacatedEdge(d, MaxRow(ps), MaxCol(ps), e.row.value, e.col.value))
      ==> e.layer == Undefined && e.value == Transparent
    ensures IsVertical(d) ==> ShiftIntended(d, ps) == Shift(d, ps)
  {
    var kept, fill := ShiftKept(ps, d, MaxRow(ps), MaxCol(ps)), EdgeFillIntended(d, MaxRow(ps), MaxCol(ps));
    IntendedFillIsVacatedEdge(d, MaxRow(ps), MaxCol(ps));
    MovedAvoidsVacatedEdge(d, ps);
    forall r, c | OnVacatedEdge(d, MaxRow(ps), MaxCol(ps), r, c) ensures Covers(kept + fill, r, c) {
      var e :| e in fill && e.row == Int(r) && e.col == Int(c);
      assert e in kept + fill;
    }
  }

  /**
   * As written, shifting the single pixel (0, 1) left pushes it to (0, 0),
   * then pushes a transparent entry for (0, 0) as well, one for (1, 0),
   * which lies outside the extent, and none for the vacated (0, 1).
   */
  lemma HorizontalFillFollowsMovedPixel(red: Pixel)
    requires red != Transparent
    ensures var ps := [PixelEntry(Int(0), Int(0), Int(1), red)];
      && Shift(Left, ps) == [PixelEntry(Int(0), Int(0), Int(0), red),
                            PixelEntry(Undefined, Int(0), Int(0), Transparent),
                            PixelEntry(Undefined, Int(1), Int(0), Transparent)]
      && Covers(EdgeFill(Left, MaxRow(ps), MaxCol(ps)), 0, 0)
      && !Covers(EdgeFill(Left, MaxRow(ps), MaxCol(ps)), 0, 1)
      && ShiftKept(ps, Left, MaxRow(ps), MaxCol(ps)) + EdgeFillIntended(Left, MaxRow(ps), MaxCol(ps))
         == [PixelEntry(Int(0), Int(0), Int(0), red), PixelEntry(Undefined, Int(0), Int(1), Transparent)]
  {
    var ps := [PixelEntry(Int(0), Int(0), Int(1), red)];
    assert Rows(ps) == [Int(0)] && Cols(ps) == [Int(1)];
    assert [Int(0)][..0] == [] && [Int(1)][..0] == [];
    assert MaxRow(ps) == 0 && MaxCol(ps) == 1;
    assert ps[..0] == [];
    assert ShiftKept(ps, Left, 0, 1) == [PixelEntry(Int(0), Int(0), Int(0), red)];
    var fill := EdgeFill(Left, 0, 1);
    assert fill == [FillEntry(Left, 0, 0), FillEntry(Left, 0, 1)];
    assert fill[0].row == Int(0) && fill[0].col == Int(0);
    forall e | e in fill ensures !(e.row == Int(0) && e.col == Int(1)) {
    }
    var intended := EdgeFillIntended(Left, 0, 1);
    assert intended == [PixelEntry(Undefined, Int(0), Int(1), Transparent)];
  }
}
