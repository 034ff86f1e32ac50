/**
 * The layer initialisers: `generateLayer` fills a fresh keyed store with
 * one copy of a default value per cell of a `rows × cols` layer, and
 * `generateLay` builds the same layer as a dense grid.
 */
module LayerInit {
  import opened Types
  import opened JsNumber
  import opened PixelUtils
  import opened GridInit
  import opened LayerCompositor

  /** `` `LAY${layer}_ROW${row}_COL${col}` ``, the same template as `pixelToKey`. */
  function CellKey(layer: int, row: int, col: int): string {
    PixelToKey(Address(Int(layer), Int(row), Int(col)))
  }

  /** The keys the inner loop writes for `row`: columns 0..cols-1, in order. */
  function RowKeys(layer: int, row: int, cols: int): (keys: seq<string>)
    ensures |keys| == if cols > 0 then cols else 0
  {
    if cols <= 0 then [] else RowKeys(layer, row, cols - 1) + [CellKey(layer, row, cols - 1)]
  }

  /** Every key of a `rows × cols` layer, in the order `generateLayer` writes them: row by row. */
  function LayerKeys(layer: int, rows: int, cols: int): seq<string> {
    if rows <= 0 then [] else LayerKeys(layer, rows - 1, cols) + RowKeys(layer, rows - 1, cols)
  }

  /** A generated layer has `rows * cols` keys, and none when either is not positive. */
  lemma {:induction false} LayerKeysLength(layer: int, rows: int, cols: int)
    ensures |LayerKeys(layer, rows, cols)| == if rows > 0 && cols > 0 then rows * cols else 0
  {
    if rows > 0 {
      LayerKeysLength(layer, rows - 1, cols);
      OneMoreRow(rows - 1, cols);
    }
  }

  lemma OneMoreRow(rows: int, cols: int)
    ensures rows * cols + cols == (rows + 1) * cols
  {
  }

  lemma CellKeyInjective(layer: int, r1: int, c1: int, r2: int, c2: int)
    requires CellKey(layer, r1, c1) == CellKey(layer, r2, c2)
    ensures r1 == r2 && c1 == c2
  {
    PixelToKeyInjective(Address(Int(layer), Int(r1), Int(c1)), Address(Int(layer), Int(r2), Int(c2)));
  }

  lemma {:induction false} RowKeysCells(layer: int, row: int, cols: int)
    ensures forall key :: key in RowKeys(layer, row, cols) <==> exists c :: 0 <= c < cols && key == CellKey(layer, row, c)
  {
    if cols > 0 {
      RowKeysCells(layer, row, cols - 1);
      var last := CellKey(layer, row, cols - 1);
      assert RowKeys(layer, row, cols) == RowKeys(layer, row, cols - 1) + [last];
      forall key ensures key in RowKeys(layer, row, cols) <==> exists c :: 0 <= c < cols && key == CellKey(layer, row, c) {
        if exists c :: 0 <= c < cols && key == CellKey(layer, row, c) {
          var c :| 0 <= c < cols && key == CellKey(layer, row, c);
          if c < cols - 1 {
            assert key in RowKeys(layer, row, cols - 1);
          }
        }
      }
    }
  }

  /** `key` is the key of some cell of `rows × cols` on `layer`. */
  ghost predicate IsCellKey(layer: int, rows: int, cols: int, key: string) {
    exists r, c :: 0 <= r < rows && 0 <= c < cols && key == CellKey(layer, r, c)
  }

  /** The keys of a generated layer are exactly the keys of its in-range cells. */
  lemma {:induction false} LayerKeysCells(layer: int, rows: int, cols: int)
    ensures forall key :: key in LayerKeys(layer, rows, cols) <==> IsCellKey(layer, rows, cols, key)
  {
    if rows > 0 {
      LayerKeysCells(layer, rows - 1, cols);
      RowKeysCells(layer, rows - 1, cols);
      assert LayerKeys(layer, rows, cols) == LayerKeys(layer, rows - 1, cols) + RowKeys(layer, rows - 1, cols);
      forall key ensures key in LayerKeys(layer, rows, cols) <==> IsCellKey(layer, rows, cols, key) {
        if key in LayerKeys(layer, rows - 1, cols) {
          assert IsCellKey(layer, rows - 1, cols, key);
          var r, c :| 0 <= r < rows - 1 && 0 <= c < cols && key == CellKey(layer, r, c);
          assert IsCellKey(layer, rows, cols, key);
        } else if key in RowKeys(layer, rows - 1, cols) {
          var c :| 0 <= c < cols && key == CellKey(layer, rows - 1, c);
          assert IsCellKey(layer, rows, cols, key);
        }
        if IsCellKey(layer, rows, cols, key) {
          var r, c :| 0 <= r < rows && 0 <= c < cols && key == CellKey(layer, r, c);
          if r < rows - 1 {
            assert IsCellKey(layer, rows - 1, cols, key);
          } else {
            assert key in RowKeys(layer, rows - 1, cols);
          }
        }
      }
    }
  }

  /** The key of cell `(row, col)` is not among the keys written before it. */
  lemma NextKeyIsNew(layer: int, row: nat, col: nat, cols: int)
    requires col < cols
    ensures CellKey(layer, row, col) !in LayerKeys(layer, row, cols) + RowKeys(layer, row, col)
  {
    var key := CellKey(layer, row, col);
    LayerKeysCells(layer, row, cols);
    RowKeysCells(layer, row, col);
    if key in LayerKeys(layer, row, cols) {
      assert IsCellKey(layer, row, cols, key);
      var r, c :| 0 <= r < row && 0 <= c < cols && key == CellKey(layer, r, c);
      CellKeyInjective(layer, r, c, row, col);
    }
    if key in RowKeys(layer, row, col) {
      var c :| 0 <= c < col && key == CellKey(layer, row, c);
      CellKeyInjective(layer, row, c, row, col);
    }
  }

  /** Writing the next cell of a row appends its key and keeps every value the default. */
  lemma FillStep<V>(layer: int, row: nat, col: nat, cols: int, defaultObject: V, storage: Store<V>)
    requires col < cols
    requires storage.Valid()
    requires storage.keys == LayerKeys(layer, row, cols) + RowKeys(layer, row, col)
    requires forall k :: k in storage.values ==> storage.values[k] == defaultObject
    ensures var next := Put(storage, CellKey(layer, row, col), defaultObject);
      && next.keys == LayerKeys(layer, row, cols) + RowKeys(layer, row, col + 1)
      && forall k :: k in next.values ==> next.values[k] == defaultObject
  {
    var key := CellKey(layer, row, col);
    NextKeyIsNew(layer, row, col, cols);
    assert key !in storage.values;
    var next := Put(storage, key, defaultObject);
    assert next.keys == storage.keys + [key];
    assert RowKeys(layer, row, col + 1) == RowKeys(layer, row, col) + [key];
  }

  /**
   * The store once the outer loop has written rows `0..row-1`: well formed,
   * enumerating exactly those rows' keys in order, every value the default.
   */
  ghost predicate RowsWritten<V>(storage: Store<V>, layer: int, row: int, cols: int, defaultObject: V) {
    && storage.Valid()
    && storage.keys == LayerKeys(layer, row, cols)
    && forall k :: k in storage.values ==> storage.values[k] == defaultObject
  }

  /** The inner loop for one row: writes the keys of columns 0..cols-1 of `row`. */
  method FillRow<V>(layer: int, row: nat, cols: int, defaultObject: V, storage0: Store<V>) returns (storage: Store<V>)
    requires RowsWritten(storage0, layer, row, cols, defaultObject)
    ensures RowsWritten(storage, layer, row + 1, cols, defaultObject)
  {
    storage := storage0;
    var col := 0;
    while col < cols
      invariant 0 <= col <= if cols > 0 then cols else 0
      invariant storage.Valid()
      invariant storage.keys == LayerKeys(layer, row, cols) + RowKeys(layer, row, col)
      invariant forall k :: k in storage.values ==> storage.values[k] == defaultObject
    {
      var key := "LAY" + ToString(Int(layer)) + "_ROW" + ToString(Int(row)) + "_COL" + ToString(Int(col));
      assert key == CellKey(layer, row, col);
      FillStep(layer, row, col, cols, defaultObject, storage);
      storage := Put(storage, key, defaultObject);
      col := col + 1;
    }
  }

  /**
   * `generateLayer({layer, cols, rows, defaultObject})`: one entry per cell
   * `(row, col)` with `0 <= row < rows` and `0 <= col < cols`, written row by
   * row, each holding the default value.
   */
  method GenerateLayer<V>(layer: int, cols: int, rows: int, defaultObject: V) returns (storage: Store<V>)
    ensures storage.Valid()
    ensures storage.keys == LayerKeys(layer, rows, cols)
    ensures forall k :: k in storage.values ==> storage.values[k] == defaultObject
  {
    storage := Store([], map[]);
    var row := 0;
    while row < rows
      invariant 0 <= row <= if rows > 0 then rows else 0
      invariant RowsWritten(storage, layer, row, cols, defaultObject)
    {
      storage := FillRow(layer, row, cols, defaultObject, storage);
      row := row + 1;
    }
  }

  /**
   * A generated store holds exactly `rows * cols` entries (none when either
   * is not positive), one per in-range cell, each the default value, and
   * every key decodes back to its own cell of layer `layer`.
   */
  lemma GeneratedStore<V>(layer: int, cols: int, rows: int, defaultObject: V, storage: Store<V>)
    requires storage.Valid() && storage.keys == LayerKeys(layer, rows, cols)
    requires forall k :: k in storage.values ==> storage.values[k] == defaultObject
    ensures |storage.values| == if rows > 0 && cols > 0 then rows * cols else 0
    ensures forall r, c :: 0 <= r < rows && 0 <= c < cols ==>
      CellKey(layer, r, c) in storage.values && storage.values[CellKey(layer, r, c)] == defaultObject
    ensures forall key :: key in storage.values ==> exists r, c ::
      && 0 <= r < rows && 0 <= c < cols && key == CellKey(layer, r, c)
      && KeyToPixel(key) == Address(Int(layer), Int(r), Int(c))
  {
    GeneratedSize(layer, cols, rows, storage);
    GeneratedCells(layer, cols, rows, defaultObject, storage);
    GeneratedKeysDecode(layer, cols, rows, storage);
  }

  lemma GeneratedSize<V>(layer: int, cols: int, rows: int, storage: Store<V>)
    requires storage.Valid() && storage.keys == LayerKeys(layer, rows, cols)
    ensures |storage.values| == if rows > 0 && cols > 0 then rows * cols else 0
  {
    StoreSize(storage);
    LayerKeysLength(layer, rows, cols);
  }

  lemma GeneratedCells<V>(layer: int, cols: int, rows: int, defaultObject: V, storage: Store<V>)
    requires storage.Valid() && storage.keys == LayerKeys(layer, rows, cols)
    requires forall k :: k in storage.values ==> storage.values[k] == defaultObject
    ensures forall r, c :: 0 <= r < rows && 0 <= c < cols ==>
      CellKey(layer, r, c) in storage.values && storage.values[CellKey(layer, r, c)] == defaultObject
  {
    LayerKeysCells(layer, rows, cols);
    forall r, c | 0 <= r < rows && 0 <= c < cols
      ensures CellKey(layer, r, c) in storage.values
    {
      assert IsCellKey(layer, rows, cols, CellKey(layer, r, c));
    }
  }

  lemma GeneratedKeysDecode<V>(layer: int, cols: int, rows: int, storage: Store<V>)
    requires storage.Valid() && storage.keys == LayerKeys(layer, rows, cols)
    ensures forall key :: key in storage.values ==> exists r, c ::
      && 0 <= r < rows && 0 <= c < cols && key == CellKey(layer, r, c)
      && KeyToPixel(key) == Address(Int(layer), Int(r), Int(c))
  {
    LayerKeysCells(layer, rows, cols);
    forall key | key in storage.values
      ensures exists r, c ::
        && 0 <= r < rows && 0 <= c < cols && key == CellKey(layer, r, c)
        && KeyToPixel(key) == Address(Int(layer), Int(r), Int(c))
    {
      assert IsCellKey(layer, rows, cols, key);
      var r, c :| 0 <= r < rows && 0 <= c < cols && key == CellKey(layer, r, c);
      CellKeyDecodes(layer, r, c);
    }
  }

  /** `generateLay(cols, rows, defaultObject)`: `rows` rows of `cols` copies of the default value. */
  function GenerateLay<T>(cols: int, rows: int, defaultObject: T): (grid: seq<seq<T>>)
    ensures |grid| == if rows > 0 then rows else 0
    ensures forall r :: 0 <= r < |grid| ==> |grid[r]| == if cols > 0 then cols else 0
    ensures forall r, c :: 0 <= r < |grid| && 0 <= c < |grid[r]| ==> grid[r][c] == defaultObject
  {
    ArrayFrom(rows, ArrayFrom(cols, defaultObject))
  }

  /** `generateLay` and `generateGrid` build the same grid. */
  lemma GenerateLayIsGenerateGrid<T>(cols: int, rows: int, defaultObject: T)
    ensures GenerateLay(cols, rows, defaultObject) == GenerateGrid(cols, rows, defaultObject)
  {
  }

  /** The key of a cell decodes back to the cell. */
  lemma CellKeyDecodes(layer: int, r: int, c: int)
    ensures KeyToPixel(CellKey(layer, r, c)) == Address(Int(layer), Int(r), Int(c))
  {
    RoundTrip(Address(Int(layer), Int(r), Int(c)));
  }

  /** Some pixel of `ps` belongs to layer `id` and lands on row `r`, column `c`. */
  ghost predicate Landed(id: int, ps: seq<PixelRef>, r: int, c: int) {
    exists k :: 0 <= k < |ps| && LandsAt(id, ps[k], Int(r), Int(c))
  }

  /** Every pixel of `ps` belongs to layer `id` and lies inside `rows × cols`. */
  ghost predicate InsideRange(id: int, ps: seq<PixelRef>, rows: int, cols: int) {
    forall k :: 0 <= k < |ps| ==>
      ps[k].layer == Int(id) && ps[k].row.Int? && ps[k].col.Int? &&
      0 <= ps[k].row.value < rows && 0 <= ps[k].col.value < cols
  }

  /** Every cell of `rows × cols` is landed on by some pixel of layer `id` in `ps`. */
  ghost predicate CoversRange(id: int, ps: seq<PixelRef>, rows: int, cols: int) {
    forall r, c :: 0 <= r < rows && 0 <= c < cols ==> Landed(id, ps, r, c)
  }

  /**
   * The decoded pixels of a generated layer all lie inside `rows × cols` of
   * the layer, and every cell there is landed on.
   */
  lemma GeneratedPixels(layer: int, rows: int, cols: int)
    ensures InsideRange(layer, CurrentPixels(KeyToPixel, LayerKeys(layer, rows, cols)), rows, cols)
    ensures CoversRange(layer, CurrentPixels(KeyToPixel, LayerKeys(layer, rows, cols)), rows, cols)
  {
    var keys := LayerKeys(layer, rows, cols);
    LayerKeysCells(layer, rows, cols);
    forall k | 0 <= k < |keys| ensures IsCellKey(layer, rows, cols, keys[k]) {
      assert keys[k] in keys;
    }
    forall r, c | 0 <= r < rows && 0 <= c < cols ensures CellKey(layer, r, c) in keys {
      assert IsCellKey(layer, rows, cols, CellKey(layer, r, c));
    }
    DecodedPixels(layer, rows, cols, keys);
  }

  /** Keys that are exactly the cell keys of `rows × cols` on `layer` decode to pixels covering exactly those cells. */
  lemma DecodedPixels(layer: int, rows: int, cols: int, keys: seq<string>)
    requires forall k :: 0 <= k < |keys| ==> IsCellKey(layer, rows, cols, keys[k])
    requires forall r, c :: 0 <= r < rows && 0 <= c < cols ==> CellKey(layer, r, c) in keys
    ensures InsideRange(layer, CurrentPixels(KeyToPixel, keys), rows, cols)
    ensures CoversRange(layer, CurrentPixels(KeyToPixel, keys), rows, cols)
  {
    var ps := CurrentPixels(KeyToPixel, keys);
    forall k | 0 <= k < |ps|
      ensures ps[k].layer == Int(layer) && ps[k].row.Int? && ps[k].col.Int? &&
              0 <= ps[k].row.value < rows && 0 <= ps[k].col.value < cols
    {
      var key := keys[k];
      assert IsCellKey(layer, rows, cols, key);
      var r, c :| 0 <= r < rows && 0 <= c < cols && key == CellKey(layer, r, c);
      CellKeyDecodes(layer, r, c);
      assert ps[k].layer == Int(layer) && ps[k].row == Int(r) && ps[k].col == Int(c);
    }
    forall r, c | 0 <= r < rows && 0 <= c < cols
      ensures Landed(layer, ps, r, c)
    {
      var k :| 0 <= k < |keys| && keys[k] == CellKey(layer, r, c);
      CellKeyDecodes(layer, r, c);
      assert LandsAt(layer, ps[k], Int(r), Int(c));
    }
  }

  /** The grid of the generated layer's own id has exactly the in-range cells. */
  lemma GeneratedGridCells<C>(layer: int, rows: int, cols: int, getPixel: PixelRef -> C)
    ensures var grid := GridOf(layer, CurrentPixels(KeyToPixel, LayerKeys(layer, rows, cols)), getPixel);
      forall r, c :: HasCell(grid, r, c) <==> r.Int? && c.Int? && 0 <= r.value < rows && 0 <= c.value < cols
  {
    var ps := CurrentPixels(KeyToPixel, LayerKeys(layer, rows, cols));
    GeneratedPixels(layer, rows, cols);
    RangeGridCells(layer, ps, rows, cols, getPixel);
  }

  /**
   * When every pixel of `ps` lands inside `rows × cols` on layer `id` and
   * every cell there is landed on, the grid has exactly those cells.
   */
  lemma RangeGridCells<C>(id: int, ps: seq<PixelRef>, rows: int, cols: int, getPixel: PixelRef -> C)
    requires InsideRange(id, ps, rows, cols) && CoversRange(id, ps, rows, cols)
    ensures forall r, c :: HasCell(GridOf(id, ps, getPixel), r, c) <==> r.Int? && c.Int? && 0 <= r.value < rows && 0 <= c.value < cols
  {
    GridCells(id, ps, getPixel);
    forall r, c ensures HasCell(GridOf(id, ps, getPixel), r, c) <==> r.Int? && c.Int? && 0 <= r.value < rows && 0 <= c.value < cols {
      if r.Int? && c.Int? && 0 <= r.value < rows && 0 <= c.value < cols {
        assert Landed(id, ps, r.value, c.value);
      }
    }
  }

  /** The grid of any other id is empty: no generated key decodes to another layer. */
  lemma ForeignGridEmpty<C>(id: int, layer: int, rows: int, cols: int, getPixel: PixelRef -> C)
    requires id != layer
    ensures GridOf(id, CurrentPixels(KeyToPixel, LayerKeys(layer, rows, cols)), getPixel) == map[]
  {
    var ps := CurrentPixels(KeyToPixel, LayerKeys(layer, rows, cols));
    GeneratedPixels(layer, rows, cols);
    assert forall k :: 0 <= k < |ps| ==> ps[k].layer != Int(id);
    NoPixelsEmptyGrid(id, ps, getPixel);
  }

  /**
   * Compositing a freshly generated layer: the grid of a registry entry with
   * the generated layer's id has exactly the cells `0 <= row < rows`,
   * `0 <= col < cols`, and every other entry's grid is empty.
   */
  lemma GeneratedLayerComposites<V, C>(layer: int, cols: int, rows: int, storage: Store<V>,
                                       layerStorage: Store<Layer>, getPixel: PixelRef -> C, i: nat)
    requires storage.keys == LayerKeys(layer, rows, cols)
    requires layerStorage.Valid() && i < |layerStorage.keys|
    ensures var id := layerStorage.values[layerStorage.keys[i]].id;
      var grid := FormatLayers(Some(storage), Some(layerStorage), KeyToPixel, getPixel)[i].grid;
      && (id == layer ==> forall r, c :: HasCell(grid, r, c) <==>
            r.Int? && c.Int? && 0 <= r.value < rows && 0 <= c.value < cols)
      && (id != layer ==> grid == map[])
  {
    var id := layerStorage.values[layerStorage.keys[i]].id;
    var grid := FormatLayers(Some(storage), Some(layerStorage), KeyToPixel, getPixel)[i].grid;
    assert grid == GridOf(id, CurrentPixels(KeyToPixel, storage.keys), getPixel);
    if id == layer {
      GeneratedGridCells(layer, rows, cols, getPixel);
    } else {
      ForeignGridEmpty(id, layer, rows, cols, getPixel);
    }
  }
}
