# Pixel and layer model of the collaborative pixel-art canvas

This project models the data core of liveblocks/pixel-art-together, a canvas
that several users paint at once. Paint lives in a flat key/value pixel
store. Each key `LAY<layer>_ROW<row>_COL<col>` names one cell of one layer. A
layer registry holds each layer's id, opacity and blend mode. Around the
store sit the algorithms modelled here:

- the **coordinate codec** (`pixelToKey` / `keyToPixel`), module `PixelUtils`.
  It rests on module `JsNumber`, which models the JavaScript number values the
  codec sees: decimal rendering inside a template literal, `parseInt`, NaN and
  `undefined`.
- the **layer shifter** (`getMovePixels`), module `MoveLayer`. It moves one
  layer by one cell, clips at the layer's occupied extent, and appends a line
  of transparent entries.
- the **bucket fill** (`getFillPixels`), module `FloodFill`. It is a recursive
  depth-first search over the 4-neighbours of a cell that share its colour.
- the **layer compositor** (`formatLayers`), module `LayerCompositor`. It
  turns the store and the registry into one sparse grid per layer.
- the **initialisers**: `generateLayer` and `generateLay` in module
  `LayerInit`, and `generateGrid` in module `GridInit`.

Module `Types` holds the shared values: pixels, layers, the sixteen blend
modes, the four directions, and the store.

Modelling choices:

- **Numbers.** The store is a JavaScript object used as a dictionary, and
  decoded components are whatever `parseInt` returns. So a component is
  `Num = Int(value) | NaN | Undefined`. Comparing NaN with `===` is always
  false, so only an `Int` component matches a layer id.
- **Store.** It is `Store(keys, values)`: `keys` is the enumeration order of
  `Object.keys`, `values` is the map. Assignment (`Put`) appends a new key and
  keeps the place of an existing one.
- **Callbacks.** `keyToPixel` and `getPixel` are parameters of the source
  functions that use them, and they are function parameters here too.
- **Imperative parts.** Loops and `push`es in the source are methods with
  loops. Each such method is proved equal to a pure function, and the
  properties are lemmas about that function:
  - `GetMovePixels` and its three loops are proved against `Shift`;
  - `BuildGrid` is proved against `GridOf`;
  - `GenerateLayer` and `FillRow` are proved against `LayerKeys`.
- **Flood fill.** `FindClosest` is a recursive method. Its termination
  measure is the set of grid cells not yet counted. `GetFillPixels` states
  soundness, completeness, absence of duplicates and "empty iff isolated"
  directly in its postcondition.

The model follows the code:

- **Compositing** leaves cells without a stored pixel unset. It does not fill
  a transparent default (`EmptyStoreGivesEmptyGrids`, `GridCells`).
- **Flood fill** keeps the recursive search. The seed is counted only when one
  of its neighbours reaches back to it.
- **Horizontal shift** keeps the edge fill as written (see Findings).

## Model

| member | source | states |
|---|---|---|
| `JsNumber.NatToDecimal` | src/lib/utils/pixelUtils.ts:2 | the decimal text of a number is non-empty and made only of digits |
| `JsNumber.ToString` | src/lib/utils/pixelUtils.ts:2 | definition of a number's text inside `${…}`: `-` and the digits for a negative integer, `NaN`, `undefined`; read back by `ParseIntToString` and `ParseNaN` |
| `JsNumber.ToStringHasNoUnderscore` | src/lib/utils/pixelUtils.ts:2 | no number renders with the `_` separator, so a key splits back into exactly its three segments |
| `JsNumber.TrimStart` | src/lib/utils/pixelUtils.ts:6 | `parseInt` skips a leading run of white space: the result is a suffix of the text, everything dropped before it is white space, and it does not start with white space |
| `JsNumber.DigitPrefix` | src/lib/utils/pixelUtils.ts:6 | `parseInt` reads the longest prefix of digits of the radix: a prefix, all digits, followed by a non-digit or the end |
| `JsNumber.ParseInt` | src/lib/utils/pixelUtils.ts:6 | `parseInt` never yields `undefined`; unsigned text yields NaN or an integer |
| `JsNumber.ParseUnsigned` | src/lib/utils/pixelUtils.ts:6 | the unsigned part of `parseInt` is NaN or an integer, and it is NaN exactly when no digit follows: no hexadecimal digit after a `0x`/`0X` prefix, otherwise no decimal digit at the start |
| `JsNumber.DigitsToNum` | src/lib/utils/pixelUtils.ts:6 | reading the longest digit prefix gives NaN or an integer, and NaN exactly when the text is empty or does not start with a digit of the radix |
| `JsNumber.DecimalValue` | src/lib/utils/pixelUtils.ts:2-6 | reading the decimal text of `n` as digits gives `n` back |
| `JsNumber.ParseIntToString` | src/lib/utils/pixelUtils.ts:2-6 | `parseInt` of a number's template-literal text is that number, for every integer (negative included) and NaN |
| `JsNumber.ParseLeadingZeros` | src/lib/utils/pixelUtils.ts:6 | leading zeros do not change what `parseInt` reads |
| `JsNumber.DecimalDigitsParse` | src/lib/utils/pixelUtils.ts:6 | `parseInt` of a string of decimal digits is the digits' value |
| `JsNumber.ParseFromDigit` | src/lib/utils/pixelUtils.ts:6 | text that starts with a digit is read without skipping or a sign |
| `JsNumber.ParseMinus` | src/lib/utils/pixelUtils.ts:6 | a leading `-` negates what follows it |
| `JsNumber.ParseNaN` | src/lib/utils/pixelUtils.ts:2-6 | the text `NaN` reads back as NaN, so a NaN component survives the key |
| `PixelUtils.Split` | src/lib/utils/pixelUtils.ts:6 | `split('_')` returns at least one piece and no piece contains `_` |
| `PixelUtils.DropPrefix` | src/lib/utils/pixelUtils.ts:6 | definition of `str.slice(3)`: the segment after its first three characters, empty for a shorter one; `PrefixesIgnored` proves the prefix is never read |
| `PixelUtils.Component` | src/lib/utils/pixelUtils.ts:6-7 | definition of the `i`-th destructured component: `parseInt` after the prefix, `undefined` past the last segment; `KeyToPixel` and `ExtraSegmentsIgnored` state its properties |
| `PixelUtils.PixelToKey` | src/lib/utils/pixelUtils.ts:2 | definition of the template `LAY${layer}_ROW${row}_COL${col}`; `KeySegments`, `RoundTrip` and `PixelToKeyInjective` state its properties |
| `PixelUtils.SplitJoin` | src/lib/utils/pixelUtils.ts:6 | splitting `a + "_" + b` is splitting `a` followed by splitting `b` |
| `PixelUtils.SplitThree` | src/lib/utils/pixelUtils.ts:6 | three `_`-free segments joined by `_` split back into exactly those three |
| `PixelUtils.KeySegments` | src/lib/utils/pixelUtils.ts:2 | the key splits into exactly `LAY<layer>`, `ROW<row>`, `COL<col>` |
| `PixelUtils.EncodeExample` | src/lib/utils/pixelUtils.ts:2 | layer 0, row 2, col 5 is stored under `LAY0_ROW2_COL5` |
| `PixelUtils.KeyToPixel` | src/lib/utils/pixelUtils.ts:5-8 | a decoded key always has a layer component (the first segment always exists) |
| `PixelUtils.RoundTrip` | src/lib/utils/pixelUtils.ts:2-8 | decoding the key of an address gives the address back, for every address without an `undefined` component |
| `PixelUtils.PixelToKeyInjective` | src/lib/utils/pixelUtils.ts:2-8 | distinct addresses get distinct keys |
| `PixelUtils.ExtraSegmentsIgnored` | src/lib/utils/pixelUtils.ts:6 | segments after the third `_` never change the decoded address |
| `PixelUtils.PrefixesIgnored` | src/lib/utils/pixelUtils.ts:6 | the three characters before each number are dropped unread, whatever they are |
| `PixelUtils.ReencodeIffCanonical` | src/lib/utils/pixelUtils.ts:2-8 | re-encoding a decoded key reproduces the key exactly when it is the key of some address |
| `PixelUtils.PaddedKeyNotCanonical` | src/lib/utils/pixelUtils.ts:6 | a layer number padded with zeros (`LAY007_…`) decodes to the unpadded address, and the padded key is not canonical |
| `Types.Put` | src/lib/utils/generateLayer.ts:5 | assigning a key keeps the store well formed, sets that key's value, keeps an existing key's place and enumerates a new key last |
| `Types.StoreSize` | src/lib/utils/generateLayer.ts:2-9 | a well-formed store holds as many entries as it enumerates keys |
| `Types.DistinctKeys` | src/lib/utils/generateLayer.ts:2-9 | a list of pairwise distinct keys has as many members as entries |
| `MoveLayer.LayerEntries` | src/lib/utils/getMovePixels.ts:7-9 | the entries taken part are exactly the decoded keys, with their values, whose layer is the number `selected`; no other layer appears |
| `MoveLayer.EntryOf` | src/lib/utils/getMovePixels.ts:8 | definition of `{ ...keyToPixel(key), value }`: the decoded address with the stored value |
| `MoveLayer.RunningMaxIsMaximum` | src/lib/utils/getMovePixels.ts:11-20 | the running maximum started at 0 is the largest integer in the list, or 0 |
| `MoveLayer.RunningMax` | src/lib/utils/getMovePixels.ts:11-20 | definition of `if (x > m) m = x` from 0, where NaN and `undefined` compare false; `RunningMaxIsMaximum` proves it is the maximum |
| `MoveLayer.MaxRow` | src/lib/utils/getMovePixels.ts:11-20 | the running maximum of the rows; `ExtentIsMaximum` proves it is the largest row or 0 |
| `MoveLayer.MaxCol` | src/lib/utils/getMovePixels.ts:11-20 | the running maximum of the cols; `ExtentIsMaximum` proves it is the largest col or 0 |
| `MoveLayer.Extent` | src/lib/utils/getMovePixels.ts:11-20 | the extent loop ends with every integer row and col at most `maxRow`/`maxCol`, each either 0 or attained |
| `MoveLayer.ExtentIsMaximum` | src/lib/utils/getMovePixels.ts:11-20 | `maxRow`/`maxCol` are the largest row and col of the layer, attained unless 0, and 0 for an empty layer |
| `MoveLayer.PushMoved` | src/lib/utils/getMovePixels.ts:22-31 | the move loop pushes exactly the surviving moved pixels, in input order |
| `MoveLayer.IsVertical` | src/lib/utils/getMovePixels.ts:22 | the branch test: Up or Down takes the vertical branch, every other direction the horizontal one |
| `MoveLayer.Step` | src/lib/utils/getMovePixels.ts:22-46 | definition of `index - 1` / `index + 1` on a decoded component, NaN when it is not an integer |
| `MoveLayer.InBounds` | src/lib/utils/getMovePixels.ts:26-46 | definition of `i >= 0 && i <= max`, false for NaN |
| `MoveLayer.Moved` | src/lib/utils/getMovePixels.ts:22-52 | definition of `{ ...pixel, row: newRowIndex }` / `{ ...pixel, col: newColIndex }`; `ShiftKeptMembers` states what it keeps |
| `MoveLayer.Kept` | src/lib/utils/getMovePixels.ts:22-52 | definition of the survival test on the moved index; `KeptMovesTo` proves it holds exactly when the move lands inside the extent |
| `MoveLayer.ShiftKept` | src/lib/utils/getMovePixels.ts:22-52 | definition of the pushed moved pixels in visiting order; `ShiftKeptMembers` and `ShiftKeptAppend` state its members and order |
| `MoveLayer.PushEdgeFill` | src/lib/utils/getMovePixels.ts:34-39 | the fill loop appends exactly `maxCol + 1` fill entries after what was pushed before |
| `MoveLayer.FillEntry` | src/lib/utils/getMovePixels.ts:34-59 | definition of the transparent entry the fill pushes at `index`, as written; `EdgeFill` and `AppendFill` state where it lands |
| `MoveLayer.EdgeFill` | src/lib/utils/getMovePixels.ts:34-59 | every entry of the appended fill is transparent and has no layer |
| `MoveLayer.Shift` | src/lib/utils/getMovePixels.ts:22-62 | definition of the returned list (moved pixels, then edge fill); `GetMovePixels` is proved equal to it and `ShiftLayout`, `MoveStaysInLayer` and `EmptyLayerShift` state its properties |
| `MoveLayer.GetMovePixels` | src/lib/utils/getMovePixels.ts:3-62 | the returned list is the shift of the selected layer's pixels: moved pixels that stay in the extent, then the edge fill |
| `MoveLayer.KeptMovesTo` | src/lib/utils/getMovePixels.ts:22-31 | a pixel survives exactly when its one-cell move lands inside the extent |
| `MoveLayer.ShiftKeptMembers` | src/lib/utils/getMovePixels.ts:43-52 | an entry is among the moved pixels iff some pixel moved onto it by one row (Up/Down) or col (Left/Right), same layer and value, the new index in `[0, maxRow]` or `[0, maxCol]` |
| `MoveLayer.ShiftKeptAppend` | src/lib/utils/getMovePixels.ts:24-31 | moved pixels keep input order: moving a concatenation moves each part |
| `MoveLayer.ShiftLayout` | src/lib/utils/getMovePixels.ts:34-59 | the result is the moved pixels, then `maxCol + 1` transparent entries without a layer at the positions the code writes for each direction |
| `MoveLayer.AppendFill` | src/lib/utils/getMovePixels.ts:34-59 | appending the fill keeps what was pushed before and adds `maxCol + 1` entries at the positions the code writes for each direction |
| `MoveLayer.EmptyLayerShift` | src/lib/utils/getMovePixels.ts:11-12 | a layer with no pixels shifts to exactly one transparent entry at (0, 0) |
| `MoveLayer.MoveStaysInLayer` | src/lib/utils/getMovePixels.ts:7-9 | every returned entry is a layer-less transparent fill or a pixel of the selected layer moved by one cell |
| `MoveLayer.ShiftStaysInLayer` | src/lib/utils/getMovePixels.ts:22-59 | shifting pixels of one layer yields only layer-less transparent fill and pixels of that layer moved by one cell |
| `MoveLayer.HorizontalFillFollowsMovedPixel` | src/lib/utils/getMovePixels.ts:54-59 | as written, shifting the single pixel (0, 1) left gives the moved pixel at (0, 0) followed by a transparent entry for the same cell (0, 0), which overwrites it when the list is applied in order; the fill also writes (1, 0) outside the extent and has no entry for the vacated (0, 1), while the corrected fill clears exactly (0, 1) |
| `MoveLayer.EdgeFillIntended` | src/lib/utils/getMovePixels.ts:54-59 | the corrected fill holds only transparent entries without a layer |
| `MoveLayer.ShiftIntended` | src/lib/utils/getMovePixels.ts:22-59 | the corrected shift: moved pixels as the code keeps them, then the corrected fill; `ShiftIntendedClearsVacatedEdge` states its properties |
| `MoveLayer.IntendedFillIsVacatedEdge` | src/lib/utils/getMovePixels.ts:34-59 | the corrected fill addresses exactly the vacated line of the extent, one entry per cell |
| `MoveLayer.VerticalFillAsIntended` | src/lib/utils/getMovePixels.ts:34-39 | for Up and Down the code's fill already is the corrected one |
| `MoveLayer.MovedAvoidsVacatedEdge` | src/lib/utils/getMovePixels.ts:22-52 | no surviving pixel of a layer with non-negative indices lands on the vacated line, so the corrected fill never overwrites one |
| `MoveLayer.ShiftIntendedClearsVacatedEdge` | src/lib/utils/getMovePixels.ts:22-59 | after the corrected shift every vacated cell is written and only with transparent; Up and Down equal the code |
| `FloodFill.Lookup` | src/lib/utils/getFillPixels.ts:18 | `grid?.[row]?.[col]` finds a pixel exactly for in-grid cells; negative or too-large indices give nothing rather than an error |
| `FloodFill.Matches` | src/lib/utils/getFillPixels.ts:18-21 | definition of `pixel?.color === colour`, false outside the grid; `ReachStep` and `PushKeepsInvariant` use it as the step of the region |
| `FloodFill.Reachable` | src/lib/utils/getFillPixels.ts:9-25 | the same-colour 4-connected region of the seed, the reference definition `GetFillPixels` is proved sound and complete against |
| `FloodFill.Neighbours` | src/lib/utils/getFillPixels.ts:10-15 | definition of the four cells visited, in the code's order (above, below, left, right); it has exactly four entries |
| `FloodFill.NeighboursAdjacent` | src/lib/utils/getFillPixels.ts:10-15 | a cell is among the neighbours iff it is orthogonally adjacent: same column one row above or below, or same row one column left or right |
| `FloodFill.AlreadyCounted` | src/lib/utils/getFillPixels.ts:5-7 | `alreadyCounted` is true exactly when some counted pixel sits at the cell |
| `FloodFill.ReachStep` | src/lib/utils/getFillPixels.ts:21-23 | a matching neighbour of a reachable cell is reachable |
| `FloodFill.NeighbourSymmetric` | src/lib/utils/getFillPixels.ts:10-15 | the neighbour relation is symmetric, so a neighbour of the seed reaches back to it |
| `FloodFill.ClosedHoldsRegion` | src/lib/utils/getFillPixels.ts:9-25 | a set holding the seed and closed under matching neighbours holds the seed's whole region |
| `FloodFill.UnvisitedShrinks` | src/lib/utils/getFillPixels.ts:21-23 | each push before a recursive call counts a new in-grid cell, so the cells not yet counted strictly decrease |
| `FloodFill.PushKeepsInvariant` | src/lib/utils/getFillPixels.ts:21-22 | pushing an uncounted matching neighbour keeps the list free of duplicates, on the fill's layer and inside the region |
| `FloodFill.AfterVisit` | src/lib/utils/getFillPixels.ts:17-25 | after a neighbour is pushed and explored, the earlier neighbours stay counted and every new entry has its matching neighbours counted |
| `FloodFill.FindClosest` | src/lib/utils/getFillPixels.ts:9-26 | `findClosest` only appends, keeps the invariant, counts every matching neighbour of its cell, leaves every new entry closed, changes nothing when all matching neighbours were counted, and terminates |
| `FloodFill.RegionCovered` | src/lib/utils/getFillPixels.ts:28-29 | once a matching neighbour of the seed is counted, the seed and its whole region are |
| `FloodFill.GetFillPixels` | src/lib/utils/getFillPixels.ts:1-30 | every entry has the seed's layer, no cell appears twice, every cell is in the grid, has the seed's colour and is reachable from it; if the seed has a matching neighbour every reachable cell is returned, the seed included; the result is empty iff the seed has no matching neighbour |
| `LayerCompositor.CurrentPixels` | src/lib/utils/formatLayers.ts:37-40 | one reference per stored key, in key order: the `i`-th carries the `i`-th key and the layer, row and col `keyToPixel` decodes from it |
| `LayerCompositor.Place` | src/lib/utils/formatLayers.ts:47-50 | definition of one cell write, creating the row when missing; `PlaceCells` states what it changes |
| `LayerCompositor.GridOf` | src/lib/utils/formatLayers.ts:43-51 | definition of a layer's grid after the inner `forEach`; `BuildGrid` is proved equal to it and `GridRows`, `GridCells` and `GridLastWins` state its properties |
| `LayerCompositor.BuildGrid` | src/lib/utils/formatLayers.ts:43-51 | the in-place `forEach` builds exactly the grid `GridOf` describes |
| `LayerCompositor.FormatLayers` | src/lib/utils/formatLayers.ts:29-57 | empty unless both stores are present; otherwise one entry per registry layer in order, keeping id, opacity and blend mode, with the layer's grid |
| `LayerCompositor.PlaceCells` | src/lib/utils/formatLayers.ts:47-50 | placing a pixel creates its row if missing, sets its cell, and leaves every other cell unchanged |
| `LayerCompositor.GridRows` | src/lib/utils/formatLayers.ts:47 | a layer's grid has a row exactly where some pixel of the layer lands |
| `LayerCompositor.GridCells` | src/lib/utils/formatLayers.ts:44-50 | a layer's grid has a cell exactly where some pixel of the layer lands; all other cells stay unset |
| `LayerCompositor.GridLastWins` | src/lib/utils/formatLayers.ts:44-50 | each cell holds `getPixel` of the last pixel of the layer, in key order, that lands on it |
| `LayerCompositor.KeyLastWins` | src/lib/utils/formatLayers.ts:37-50 | in `formatLayers` itself: when a stored key decodes onto a registry layer and no later key decodes to the same address, that layer's grid holds `getPixel` of that key's reference at its cell |
| `LayerCompositor.KeysLastWins` | src/lib/utils/formatLayers.ts:37-50 | on the decoded key list: when key `k` decodes onto layer `id` and no later key decodes to the same address, that cell of the layer's grid exists and holds `getPixel` of key `k`'s reference |
| `LayerCompositor.Only` | src/lib/utils/formatLayers.ts:46 | the filtered list holds exactly the input's pixels of the layer: each kept pixel is an input pixel of that layer, and each input pixel of that layer is kept |
| `LayerCompositor.GridOfOnly` | src/lib/utils/formatLayers.ts:46 | a layer's grid is the grid of the layer's own pixels alone |
| `LayerCompositor.OtherLayersIgnored` | src/lib/utils/formatLayers.ts:46 | two key lists with the same pixels of a layer give that layer the same grid: other layers never leak in |
| `LayerCompositor.NoPixelsEmptyGrid` | src/lib/utils/formatLayers.ts:46 | a list with no pixel of a layer gives that layer the empty grid |
| `LayerCompositor.EmptyStoreGivesEmptyGrids` | src/lib/utils/formatLayers.ts:43-53 | with no stored pixels every layer's grid is empty |
| `GridInit.ArrayFrom` | src/lib/generateGrid.ts:2-3 | `Array.from({length})` has the length clamped at 0, every element the given value |
| `GridInit.GenerateGrid` | src/lib/generateGrid.ts:1-7 | `rows` rows (none if not positive), each of `cols` cells (none if not positive), every cell the default |
| `GridInit.EmptyGrids` | src/lib/generateGrid.ts:2-3 | no rows gives `[]`; no columns gives `rows` empty rows |
| `LayerInit.RowKeys` | src/lib/utils/generateLayer.ts:4-6 | one key per column of a row |
| `LayerInit.CellKey` | src/lib/utils/generateLayer.ts:5 | definition of the key written for a cell, the `pixelToKey` template on integers; `CellKeyInjective` and `CellKeyDecodes` state its properties |
| `LayerInit.LayerKeys` | src/lib/utils/generateLayer.ts:3-7 | definition of the keys in the order the two loops write them; `LayerKeysLength`, `LayerKeysCells` and `GenerateLayer` state its properties |
| `LayerInit.LayerKeysLength` | src/lib/utils/generateLayer.ts:3-7 | `rows * cols` keys when both are positive, none otherwise |
| `LayerInit.CellKeyInjective` | src/lib/utils/generateLayer.ts:5 | two cells of one layer with the same key are the same cell |
| `LayerInit.CellKeyDecodes` | src/lib/utils/generateLayer.ts:5 | the key the initialiser writes for a cell decodes back to that cell |
| `LayerInit.RowKeysCells` | src/lib/utils/generateLayer.ts:4-6 | a row's keys are exactly the keys of its in-range columns |
| `LayerInit.LayerKeysCells` | src/lib/utils/generateLayer.ts:3-7 | the layer's keys are exactly the keys of its in-range cells |
| `LayerInit.NextKeyIsNew` | src/lib/utils/generateLayer.ts:3-6 | each key the loops write was not written before, so every write adds an entry |
| `LayerInit.FillStep` | src/lib/utils/generateLayer.ts:5 | writing the next cell of a row appends its key and keeps every value the default |
| `LayerInit.FillRow` | src/lib/utils/generateLayer.ts:4-6 | the inner loop appends the keys of one row, all holding the default |
| `LayerInit.GenerateLayer` | src/lib/utils/generateLayer.ts:1-10 | the store is well formed, enumerates the cells' keys row by row, and holds the default under every key |
| `LayerInit.GeneratedStore` | src/lib/utils/generateLayer.ts:3-6 | a generated store has exactly `rows * cols` entries (none if either is not positive), one per in-range cell, each the default, and each key decodes to its own cell |
| `LayerInit.GenerateLay` | src/lib/utils/generateLayer.ts:12-18 | `rows` rows of `cols` cells, every cell the default |
| `LayerInit.GenerateLayIsGenerateGrid` | src/lib/generateGrid.ts:1-7 | `generateLay` and `generateGrid` return the same grid |
| `LayerInit.DecodedPixels` | src/lib/utils/formatLayers.ts:37-40 | decoding exactly the cell keys of `rows × cols` on a layer gives pixels inside that range, covering every cell of it |
| `LayerInit.GeneratedPixels` | src/lib/utils/formatLayers.ts:37-40 | the decoded keys of a generated layer lie inside its `rows × cols` and cover every cell of it |
| `LayerInit.RangeGridCells` | src/lib/utils/formatLayers.ts:44-50 | pixels that lie inside `rows × cols` of a layer and cover it give that layer a grid with exactly those cells |
| `LayerInit.GeneratedGridCells` | src/lib/utils/formatLayers.ts:44-50 | the grid of a generated layer's own id has exactly the cells `0..rows-1 × 0..cols-1` |
| `LayerInit.ForeignGridEmpty` | src/lib/utils/formatLayers.ts:46 | a generated layer puts no cell in the grid of any other id |
| `LayerInit.GeneratedLayerComposites` | src/lib/utils/formatLayers.ts:44-50 | compositing a generated layer gives its registry entry exactly the cells `0..rows-1 × 0..cols-1`, and every other entry an empty grid |

## Left out

- Floating-point numbers: components are exact integers. A digit string above 2^53 would be rounded by `parseInt`, and a number of 10^21 or more renders in exponent form; neither is modelled. Rows, columns and layers given to the initialisers and to the fill are integers.
- `Object.keys` lists integer-like keys first, in numeric order. Stored keys start with `LAY`, so the store enumerates them in insertion order, and the model assumes that order.
- PrefixesIgnored: is weaker than the code's `slice(3)` on text outside the Basic Multilingual Plane. A Dafny `string` is a sequence of Unicode code points, and `DropPrefix` drops three of them. JavaScript strings are UTF-16, and `slice(3)` drops three code units. So a segment whose first three characters include a character above U+FFFF (one code point, two code units) loses a different prefix in the code than in the model. Keys written by `pixelToKey` begin with `LAY`, `ROW` and `COL`, so they are unaffected, as are all prefixes of Basic Multilingual Plane characters.
- `{ ...defaultObject }` makes a fresh shallow copy per cell. The model compares values, so copies and the aliasing they avoid are not modelled.
- `Array.from` throws `RangeError` for lengths of 2^32 or more, and it truncates fractional lengths. Neither is modelled; only the clamp at 0 is.
- The `console.log` at src/lib/utils/generateLayer.ts:8 is an output side effect and is left out.
- Exceptions thrown by the `keyToPixel` and `getPixel` callbacks are not modelled.
- The flood fill grid is dense. Array holes and rows or pixels that are `null` are not modelled. The seed must lie in the grid, because `grid[row][col]` throws otherwise; this is a precondition.
- The call-stack depth of the recursive fill is not modelled. Termination is proved.
- `formatLayers` puts a `[]` placeholder in an empty cell and overwrites it at once; the placeholder is not modelled. `layerStorage` is an object whose values are listed in key order; it is a `Store` of layers.
- `src/types.ts` declares `Layer.id` as a string, but the code compares it with numbers from `parseInt` using `===`. The model uses `int` ids. String ids would match no pixel and give every layer an empty grid.
- `Direction` is imported by getMovePixels.ts, but it is not part of this model's source files. It is modelled as four values; any direction other than Up or Down takes the horizontal branch, as in the code. Only `detail.direction` of the event is read.
- `getFillPixels` receives the whole `initialPixel`; only its row, col and layer are read, and those are modelled.
- Rendering and blend-mode compositing of colours happen outside the core. `BlendMode` and its CSS names (src/lib/utils/blendModes.ts) only shape the layer record.
- Other files are left out: the Liveblocks stores and hooks (`src/lib-liveblocks/`, reactive glue over an unseen library), session authorisation (`src/routes/api/auth.ts`, network), the clipboard helper, the debounce timer, room id creation (URL and randomness), the floating-point text-contrast helper, and `src/lib/utils/generateGrid.ts` (it wraps each row in the foreign `LiveList`).
- Multi-client synchronisation and last-write-wins across clients belong to the sync backend and are not modelled.

## Findings

| source | as written | input that shows it | evidently intended | confidence | as-written member | corrected member |
|---|---|---|---|---|---|---|
| src/lib/utils/getMovePixels.ts:54-59 | the horizontal fill pushes `maxCol + 1` entries at rows `0..maxCol` and column `left ? maxRow : 0` | one pixel at row 0, col 1 of a layer, shifted Left: the extent is maxRow 0, maxCol 1, and the fill writes (0, 0) and (1, 0). The list then holds a transparent entry for (0, 0) after the moved pixel, which overwrites it when the list is applied in order on that layer; it also holds a cell below the extent, and none for the vacated (0, 1) | `maxRow + 1` entries at rows `0..maxRow` and column `left ? maxCol : 0`, covering exactly the vacated column | high; not executed | `MoveLayer.HorizontalFillFollowsMovedPixel` | `MoveLayer.EdgeFillIntended` |

`MoveLayer.GetMovePixels` keeps the code's fill, because that is the behaviour of the program. `MoveLayer.ShiftIntended` is the corrected shift built on `EdgeFillIntended`. Its properties are proved in `IntendedFillIsVacatedEdge`, `MovedAvoidsVacatedEdge` and `ShiftIntendedClearsVacatedEdge`.
