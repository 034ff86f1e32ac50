/**
 * The dense grid initialiser: `rows` rows of `cols` copies of a default
 * cell, built with `Array.from`.
 */
module GridInit {

  /**
   * `Array.from({ length }, () => value)`: the length is clamped at 0, so a
   * negative length gives an empty array.
   */
  function ArrayFrom<T>(length: int, value: T): (xs: seq<T>)
    ensures |xs| == if length > 0 then length else 0
    ensures forall i :: 0 <= i < |xs| ==> xs[i] == value
  {
    if length <= 0 then [] else ArrayFrom(length - 1, value) + [value]
  }

  /** `generateGrid(cols, rows, defaultObject)` */
  function GenerateGrid<T>(cols: int, rows: int, defaultObject: T): (grid: seq<seq<T>>)
    ensures |grid| == if rows > 0 then rows else 0
    ensures forall r :: 0 <= r < |grid| ==> |grid[r]| == if cols > 0 then cols else 0
    ensures forall r, c :: 0 <= r < |grid| && 0 <= c < |grid[r]| ==> grid[r][c] == defaultObject
  {
    ArrayFrom(rows, ArrayFrom(cols, defaultObject))
  }

  /** No rows gives an empty grid; no columns gives `rows` empty rows. */
  lemma EmptyGrids<T>(cols: int, rows: int, defaultObject: T)
    ensures rows <= 0 ==> GenerateGrid(cols, rows, defaultObject) == []
    ensures rows > 0 && cols <= 0 ==> GenerateGrid(cols, rows, defaultObject) == ArrayFrom(rows, [])
  {
    if rows > 0 && cols <= 0 {
      assert ArrayFrom(cols, defaultObject) == [];
    }
  }
}
