/**
 * The layer compositor: turns the flat pixel store and the layer registry
 * into one sparse grid per layer, for rendering and export.
 */
module LayerCompositor {
  import opened Types
  import opened JsNumber
  import opened PixelUtils

  /** `{ key, ...keyToPixel(key) }`: a stored key with its decoded address. */
  datatype PixelRef = PixelRef(key: string, layer: Num, row: Num, col: Num)

  /**
   * A JavaScript array of arrays written at arbitrary indices: only the rows
   * and cells that were assigned exist, and an index may be any number
   * (negative, NaN) or `undefined`.
   */
  type SparseGrid<C> = map<Num, map<Num, C>>

  /** `{ ...layer, grid }` */
  datatype CompositeLayer<C> = CompositeLayer(id: int, opacity: real, blendMode: BlendMode, grid: SparseGrid<C>)

  function RefOf(keyToPixel: string -> Address, key: string): PixelRef {
    var a := keyToPixel(key);
    PixelRef(key, a.layer, a.row, a.col)
  }

  /** `Object.keys(pixelStorage).map(...)`, in key order. */
  function CurrentPixels(keyToPixel: string -> Address, keys: seq<string>): (refs: seq<PixelRef>)
    ensures |refs| == |keys|
    ensures forall i :: 0 <= i < |keys| ==> refs[i].key == keys[i]
    ensures forall i :: 0 <= i < |keys| ==> refs[i] == RefOf(keyToPixel, keys[i])
  {
    seq(|keys|, i requires 0 <= i < |keys| => RefOf(keyToPixel, keys[i]))
  }

  /**
   * One step of the inner `forEach` for a pixel of the layer: its row is
   * created if missing, then its cell is set to `getPixel(pixel)` (the `[]`
   * the code puts in an empty cell first is overwritten at once).
   */
  function Place<C>(grid: SparseGrid<C>, p: PixelRef, getPixel: PixelRef -> C): SparseGrid<C> {
    var row := if p.row in grid then grid[p.row] else map[];
    grid[p.row := row[p.col := getPixel(p)]]
  }

  /** The grid of layer `id` after the inner `forEach` has visited `ps` in order. */
  function GridOf<C>(id: int, ps: seq<PixelRef>, getPixel: PixelRef -> C): SparseGrid<C> {
    if |ps| == 0 then map[]
    else
      var grid := GridOf(id, ps[..|ps| - 1], getPixel);
      var p := ps[|ps| - 1];
      if p.layer != Int(id) then grid else Place(grid, p, getPixel)
  }

  /** The inner `forEach`, which fills `grid` in place. */
  method BuildGrid<C>(layer: Layer, currentPixels: seq<PixelRef>, getPixel: PixelRef -> C) returns (grid: SparseGrid<C>)
    ensures grid == GridOf(layer.id, currentPixels, getPixel)
  {
    grid := map[];
    for i := 0 to |currentPixels|
      invariant grid == GridOf(layer.id, currentPixels[..i], getPixel)
    {
      var pixel := currentPixels[i];
      assert currentPixels[..i + 1][..i] == currentPixels[..i];
      if pixel.layer == Int(layer.id) {
        if pixel.row !in grid {
          grid := grid[pixel.row := map[]];
        }
        grid := grid[pixel.row := grid[pixel.row][pixel.col := getPixel(pixel)]];
      }
    }
    assert currentPixels[..|currentPixels|] == currentPixels;
  }

  /**
   * `formatLayers`: nothing unless both stores are present; otherwise one
   * entry per layer in the registry, in order, with the layer's fields and
   * the grid of the pixels whose decoded layer is the layer's id.
   */
  function FormatLayers<V, C>(pixelStorage: Option<Store<V>>, layerStorage: Option<Store<Layer>>,
                              keyToPixel: string -> Address, getPixel: PixelRef -> C)
    : (layers: seq<CompositeLayer<C>>)
    requires layerStorage.Some? ==> layerStorage.value.Valid()
    ensures pixelStorage.None? || layerStorage.None? ==> layers == []
    ensures pixelStorage.Some? && layerStorage.Some? ==>
      var registry := layerStorage.value;
      && |layers| == |registry.keys|
      && forall i :: 0 <= i < |layers| ==>
        var layer := registry.values[registry.keys[i]];
        && layers[i].id == layer.id && layers[i].opacity == layer.opacity && layers[i].blendMode == layer.blendMode
        && layers[i].grid == GridOf(layer.id, CurrentPixels(keyToPixel, pixelStorage.value.keys), getPixel)
  {
    if pixelStorage.Some? && layerStorage.Some? then
      var currentPixels := CurrentPixels(keyToPixel, pixelStorage.value.keys);
      var registry := layerStorage.value;
      seq(|registry.keys|, i requires 0 <= i < |registry.keys| =>
        var layer := registry.values[registry.keys[i]];
        CompositeLayer(layer.id, layer.opacity, layer.blendMode, GridOf(layer.id, currentPixels, getPixel)))
    else []
  }

  /** The grid has a cell at row `r`, column `c`. */
  ghost predicate HasCell<C>(grid: SparseGrid<C>, r: Num, c: Num) {
    r in grid && c in grid[r]
  }

  /** Pixel `p` belongs to layer `id` and lands on row `r`, column `c`. */
  ghost predicate LandsAt(id: int, p: PixelRef, r: Num, c: Num) {
    p.layer == Int(id) && p.row == r && p.col == c
  }

  /** `Place` adds the pixel's row and cell, sets that cell, and leaves every other cell as it was. */
  lemma PlaceCells<C>(grid: SparseGrid<C>, p: PixelRef, getPixel: PixelRef -> C)
    ensures forall r :: r in Place(grid, p, getPixel) <==> r in grid || r == p.row
    ensures forall r, c :: HasCell(Place(grid, p, getPixel), r, c) <==> HasCell(grid, r, c) || (r == p.row && c == p.col)
    ensures Place(grid, p, getPixel)[p.row][p.col] == getPixel(p)
    ensures forall r, c :: HasCell(grid, r, c) && (r != p.row || c != p.col) ==> Place(grid, p, getPixel)[r][c] == grid[r][c]
  {
  }

  /** The grid of layer `id` has a row exactly where some pixel of the layer lands. */
  lemma {:induction false} GridRows<C>(id: int, ps: seq<PixelRef>, getPixel: PixelRef -> C)
    ensures forall r :: r in GridOf(id, ps, getPixel) <==>
      exists k :: 0 <= k < |ps| && ps[k].layer == Int(id) && ps[k].row == r
  {
    if |ps| > 0 {
      var n := |ps| - 1;
      var init, p := ps[..n], ps[n];
      GridRows(id, init, getPixel);
      PlaceCells(GridOf(id, init, getPixel), p, getPixel);
      assert forall k :: 0 <= k < n ==> ps[k] == init[k];
    }
  }

  /** The grid of layer `id` has a cell exactly where some pixel of the layer lands. */
  lemma {:induction false} GridCells<C>(id: int, ps: seq<PixelRef>, getPixel: PixelRef -> C)
    ensures forall r, c :: HasCell(GridOf(id, ps, getPixel), r, c) <==>
      exists k :: 0 <= k < |ps| && LandsAt(id, ps[k], r, c)
  {
    if |ps| > 0 {
      var n := |ps| - 1;
      var init, p := ps[..n], ps[n];
      GridCells(id, init, getPixel);
      var g0 := GridOf(id, init, getPixel);
      PlaceCells(g0, p, getPixel);
      forall r, c ensures HasCell(GridOf(id, ps, getPixel), r, c) <==> exists k :: 0 <= k < |ps| && LandsAt(id, ps[k], r, c) {
        if exists k :: 0 <= k < |ps| && LandsAt(id, ps[k], r, c) {
          var k :| 0 <= k < |ps| && LandsAt(id, ps[k], r, c);
          if k < n {
            assert LandsAt(id, init[k], r, c);
          }
        }
        if HasCell(g0, r, c) {
          var k :| 0 <= k < n && LandsAt(id, init[k], r, c);
          assert ps[k] == init[k];
        }
      }
    }
  }

  /** Each cell holds `getPixel` of the last pixel of the layer, in key order, that lands on it. */
  lemma {:induction false} GridLastWins<C>(id: int, ps: seq<PixelRef>, getPixel: PixelRef -> C)
    ensures forall r, c, k ::
      (0 <= k < |ps| && LandsAt(id, ps[k], r, c) && forall k' :: k < k' < |ps| ==> !LandsAt(id, ps[k'], r, c)) ==>
      HasCell(GridOf(id, ps, getPixel), r, c) && GridOf(id, ps, getPixel)[r][c] == getPixel(ps[k])
  {
    if |ps| > 0 {
      var n := |ps| - 1;
      var init, p := ps[..n], ps[n];
      GridLastWins(id, init, getPixel);
      var g0 := GridOf(id, init, getPixel);
      var g := GridOf(id, ps, getPixel);
      assert g == if p.layer != Int(id) then g0 else Place(g0, p, getPixel);
      PlaceCells(g0, p, getPixel);
      forall r, c, k | 0 <= k < |ps| && LandsAt(id, ps[k], r, c) && (forall k' :: k < k' < |ps| ==> !LandsAt(id, ps[k'], r, c))
        ensures HasCell(g, r, c) && g[r][c] == getPixel(ps[k])
      {
        if k < n {
          assert !LandsAt(id, p, r, c);
          assert forall k' :: k < k' < n ==> !LandsAt(id, init[k'], r, c) by {
            forall k' | k < k' < n ensures !LandsAt(id, init[k'], r, c) {
              assert ps[k'] == init[k'];
            }
          }
          assert LandsAt(id, init[k], r, c) && ps[k] == init[k];
          assert HasCell(g0, r, c) && g0[r][c] == getPixel(init[k]);
        } else {
          assert ps[k] == p;
        }
      }
    }
  }

  /** A layer none of whose pixels appear gets an empty grid. */
  lemma {:induction false} NoPixelsEmptyGrid<C>(id: int, ps: seq<PixelRef>, getPixel: PixelRef -> C)
    requires forall k :: 0 <= k < |ps| ==> ps[k].layer != Int(id)
    ensures GridOf(id, ps, getPixel) == map[]
  {
    if |ps| > 0 {
      NoPixelsEmptyGrid(id, ps[..|ps| - 1], getPixel);
    }
  }

  /**
   * At the level of stored keys: when the `k`-th key decodes to a cell of a
   * registry layer and no later key decodes to the same address, that
   * layer's grid holds `getPixel` of the key's pixel at the cell.
   */
  lemma KeyLastWins<V, C>(pixelStorage: Store<V>, layerStorage: Store<Layer>,
                          keyToPixel: string -> Address, getPixel: PixelRef -> C, i: nat, k: nat)
    requires layerStorage.Valid() && i < |layerStorage.keys| && k < |pixelStorage.keys|
    requires keyToPixel(pixelStorage.keys[k]).layer == Int(layerStorage.values[layerStorage.keys[i]].id)
    requires forall k' :: k < k' < |pixelStorage.keys| ==> keyToPixel(pixelStorage.keys[k']) != keyToPixel(pixelStorage.keys[k])
    ensures var grid := FormatLayers(Some(pixelStorage), Some(layerStorage), keyToPixel, getPixel)[i].grid;
      var a := keyToPixel(pixelStorage.keys[k]);
      HasCell(grid, a.row, a.col) && grid[a.row][a.col] == getPixel(RefOf(keyToPixel, pixelStorage.keys[k]))
  {
    var id := layerStorage.values[layerStorage.keys[i]].id;
    assert FormatLayers(Some(pixelStorage), Some(layerStorage), keyToPixel, getPixel)[i].grid
        == GridOf(id, CurrentPixels(keyToPixel, pixelStorage.keys), getPixel);
    KeysLastWins(id, keyToPixel, pixelStorage.keys, getPixel, k);
  }

  /** The last key that decodes to a given address of layer `id` decides that cell of the layer's grid. */
  lemma KeysLastWins<C>(id: int, keyToPixel: string -> Address, keys: seq<string>, getPixel: PixelRef -> C, k: nat)
    requires k < |keys| && keyToPixel(keys[k]).layer == Int(id)
    requires forall k' :: k < k' < |keys| ==> keyToPixel(keys[k']) != keyToPixel(keys[k])
    ensures var grid := GridOf(id, CurrentPixels(keyToPixel, keys), getPixel);
      var a := keyToPixel(keys[k]);
      HasCell(grid, a.row, a.col) && grid[a.row][a.col] == getPixel(RefOf(keyToPixel, keys[k]))
  {
    var ps := CurrentPixels(keyToPixel, keys);
    var a := keyToPixel(keys[k]);
    assert ps[k] == RefOf(keyToPixel, keys[k]);
    assert LandsAt(id, ps[k], a.row, a.col);
    assert forall k' :: k < k' < |ps| ==> !LandsAt(id, ps[k'], a.row, a.col) by {
      forall k' | k < k' < |ps| ensures !LandsAt(id, ps[k'], a.row, a.col) {
        assert ps[k'] == RefOf(keyToPixel, keys[k']);
        assert keyToPixel(keys[k']) != a;
      }
    }
    GridLastWins(id, ps, getPixel);
  }

  /** The pixels of layer `id`, in order. */
  function Only(id: int, ps: seq<PixelRef>): (qs: seq<PixelRef>)
    ensures forall q :: q in qs ==> q.layer == Int(id) && q in ps
    ensures forall p :: p in ps && p.layer == Int(id) ==> p in qs
    ensures |qs| <= |ps|
  {
    if |ps| == 0 then []
    else
      var init := Only(id, ps[..|ps| - 1]);
      var p := ps[|ps| - 1];
      if p.layer == Int(id) then init + [p] else init
  }

  lemma {:induction false} GridOfOnly<C>(id: int, ps: seq<PixelRef>, getPixel: PixelRef -> C)
    ensures GridOf(id, Only(id, ps), getPixel) == GridOf(id, ps, getPixel)
  {
    if |ps| > 0 {
      var init, p := ps[..|ps| - 1], ps[|ps| - 1];
      GridOfOnly(id, init, getPixel);
      if p.layer == Int(id) {
        var q := Only(id, init) + [p];
        assert q[..|q| - 1] == Only(id, init);
      }
    }
  }

  /** Pixels of other layers never affect a layer's grid: only the layer's own pixels, in order, matter. */
  lemma OtherLayersIgnored<C>(id: int, ps: seq<PixelRef>, qs: seq<PixelRef>, getPixel: PixelRef -> C)
    requires Only(id, ps) == Only(id, qs)
    ensures GridOf(id, ps, getPixel) == GridOf(id, qs, getPixel)
  {
    GridOfOnly(id, ps, getPixel);
    GridOfOnly(id, qs, getPixel);
  }

  /** With no stored pixels every layer gets an empty grid (no transparent default is filled in). */
  lemma EmptyStoreGivesEmptyGrids<V, C>(pixelStorage: Store<V>, layerStorage: Store<Layer>,
                                        keyToPixel: string -> Address, getPixel: PixelRef -> C)
    requires pixelStorage.keys == [] && layerStorage.Valid()
    ensures var layers := FormatLayers(Some(pixelStorage), Some(layerStorage), keyToPixel, getPixel);
      forall i :: 0 <= i < |layers| ==> layers[i].grid == map[]
  {
  }
}
