/**
 * The bucket tool: a depth-first flood fill over the 4-neighbours of a cell
 * that have the same colour. One list serves both as the visited set and as
 * the result, and the seed only enters it when a neighbour reaches back.
 */
module FloodFill {
  import opened Types

  /** A dense layer grid, row by row; rows may differ in length. */
  type Grid = seq<seq<Pixel>>

  /** A grid position `{row, col}`. */
  datatype Cell = Cell(row: int, col: int)

  /** One element of the result: `{row, col, layer}`. */
  datatype FillPixel = FillPixel(row: int, col: int, layer: int)

  function CellOf(p: FillPixel): Cell {
    Cell(p.row, p.col)
  }

  predicate InGrid(grid: Grid, c: Cell) {
    0 <= c.row < |grid| && 0 <= c.col < |grid[c.row]|
  }

  /** `grid?.[row]?.[col]`: the pixel at `c`, or nothing when `c` is outside the grid (negative indices included). */
  function Lookup(grid: Grid, c: Cell): (r: Option<Pixel>)
    ensures r.Some? <==> InGrid(grid, c)
  {
    if 0 <= c.row < |grid| && 0 <= c.col < |grid[c.row]| then Some(grid[c.row][c.col]) else None
  }

  /** `pixel?.color === colour`: false for a cell outside the grid. */
  predicate Matches(grid: Grid, c: Cell, colour: string) {
    var pixel := Lookup(grid, c);
    pixel.Some? && pixel.value.color == colour
  }

  /** Above, below, left, right, in the order the code visits them. */
  function Neighbours(c: Cell): (ns: seq<Cell>)
    ensures |ns| == 4
  {
    [Cell(c.row - 1, c.col), Cell(c.row + 1, c.col), Cell(c.row, c.col - 1), Cell(c.row, c.col + 1)]
  }

  /** The neighbours are exactly the orthogonally adjacent cells. */
  lemma NeighboursAdjacent(c: Cell)
    ensures forall v :: v in Neighbours(c) <==>
      (v.col == c.col && (v.row == c.row - 1 || v.row == c.row + 1)) || (v.row == c.row && (v.col == c.col - 1 || v.col == c.col + 1))
  {
  }

  /** The cells of `pixels`. */
  ghost function Cells(pixels: seq<FillPixel>): set<Cell> {
    set p | p in pixels :: CellOf(p)
  }

  /** `alreadyCounted`: some element of `pixels` sits at `c`. */
  function AlreadyCounted(pixels: seq<FillPixel>, c: Cell): (b: bool)
    ensures b <==> c in Cells(pixels)
  {
    if |pixels| == 0 then false
    else
      var b := CellOf(pixels[0]) == c || AlreadyCounted(pixels[1..], c);
      assert Cells(pixels) == {CellOf(pixels[0])} + Cells(pixels[1..]) by {
        assert forall p :: p in pixels <==> p == pixels[0] || p in pixels[1..];
      }
      b
  }

  predicate NoDuplicates(pixels: seq<FillPixel>) {
    forall i, j :: 0 <= i < j < |pixels| ==> CellOf(pixels[i]) != CellOf(pixels[j])
  }

  /** Every cell of the grid. */
  ghost function AllCells(grid: Grid): set<Cell> {
    set r, c | 0 <= r < |grid| && 0 <= c < |grid[r]| :: Cell(r, c)
  }

  /** The grid cells the fill has not counted yet: the recursion's termination measure. */
  ghost function Unvisited(grid: Grid, pixels: seq<FillPixel>): set<Cell> {
    AllCells(grid) - Cells(pixels)
  }

  /** `t` is reached from `s` in at most `n` steps to a 4-neighbour, every cell on the way having `colour`. */
  ghost predicate ReachIn(grid: Grid, colour: string, s: Cell, t: Cell, n: nat)
    decreases n
  {
    Matches(grid, t, colour) &&
    (t == s || (n > 0 && exists u :: ReachIn(grid, colour, s, u, n - 1) && t in Neighbours(u)))
  }

  function ColourAt(grid: Grid, c: Cell): string
    requires InGrid(grid, c)
  {
    grid[c.row][c.col].color
  }

  /** `t` is in the same-colour 4-connected region as the in-grid cell `s`. */
  ghost predicate Reachable(grid: Grid, s: Cell, t: Cell) {
    InGrid(grid, s) && exists n: nat :: ReachIn(grid, ColourAt(grid, s), s, t, n)
  }

  /** Some in-grid 4-neighbour of `s` has the colour of `s`. */
  ghost predicate HasMatchingNeighbour(grid: Grid, s: Cell)
    requires InGrid(grid, s)
  {
    exists v :: v in Neighbours(s) && Matches(grid, v, ColourAt(grid, s))
  }

  /** Every matching neighbour of a cell of `cells` is itself in `cells`. */
  ghost predicate Closed(grid: Grid, colour: string, cells: set<Cell>) {
    forall u, v :: u in cells && v in Neighbours(u) && Matches(grid, v, colour) ==> v in cells
  }

  /** What holds of the shared list between any two steps of the fill seeded at `seed`. */
  ghost predicate FillInvariant(grid: Grid, layer: int, seed: Cell, pixels: seq<FillPixel>) {
    && NoDuplicates(pixels)
    && (forall p :: p in pixels ==> p.layer == layer)
    && (forall p :: p in pixels ==> Reachable(grid, seed, CellOf(p)))
  }

  /** The entries added after `pixels0` have all their matching neighbours counted. */
  ghost predicate NewEntriesClosed(grid: Grid, colour: string, pixels0: seq<FillPixel>, pixels: seq<FillPixel>) {
    forall k, v :: |pixels0| <= k < |pixels| && v in Neighbours(CellOf(pixels[k])) && Matches(grid, v, colour) ==>
      v in Cells(pixels)
  }

  lemma PrefixCells(a: seq<FillPixel>, b: seq<FillPixel>)
    requires a <= b
    ensures Cells(a) <= Cells(b)
  {
    forall x | x in Cells(a) ensures x in Cells(b) {
      var p :| p in a && CellOf(p) == x;
      var k :| 0 <= k < |a| && a[k] == p;
      assert b[k] == p;
    }
  }

  /** A step to a matching neighbour of a reachable cell stays in the region. */
  lemma ReachStep(grid: Grid, seed: Cell, u: Cell, v: Cell)
    requires Reachable(grid, seed, u)
    requires v in Neighbours(u) && Matches(grid, v, ColourAt(grid, seed))
    ensures Reachable(grid, seed, v)
  {
    var n: nat :| ReachIn(grid, ColourAt(grid, seed), seed, u, n);
    assert ReachIn(grid, ColourAt(grid, seed), seed, v, n + 1);
  }

  lemma NeighbourSymmetric(a: Cell, b: Cell)
    requires b in Neighbours(a)
    ensures a in Neighbours(b)
  {
  }

  /** A closed set of cells that holds the seed holds its whole region. */
  lemma {:induction false} ClosedHoldsRegion(grid: Grid, colour: string, s: Cell, cells: set<Cell>, t: Cell, n: nat)
    requires s in cells && Closed(grid, colour, cells)
    requires ReachIn(grid, colour, s, t, n)
    ensures t in cells
    decreases n
  {
    if t != s {
      var u :| ReachIn(grid, colour, s, u, n - 1) && t in Neighbours(u);
      ClosedHoldsRegion(grid, colour, s, cells, u, n - 1);
    }
  }

  /** Pushing a cell that is not counted yet shrinks the unvisited cells. */
  lemma UnvisitedShrinks(grid: Grid, pixels0: seq<FillPixel>, pixels: seq<FillPixel>, p: FillPixel)
    requires pixels0 <= pixels
    requires InGrid(grid, CellOf(p)) && CellOf(p) !in Cells(pixels)
    ensures Unvisited(grid, pixels + [p]) < Unvisited(grid, pixels0)
  {
    PrefixCells(pixels0, pixels);
    assert CellOf(p) in AllCells(grid);
    assert CellOf(p) in Cells(pixels + [p]);
    assert Cells(pixels + [p]) == Cells(pixels) + {CellOf(p)};
  }

  /**
   * `findClosest(v)`: visits the neighbours of `v` in order; each in-grid one
   * with the colour of `v` that is not counted yet is pushed with the fill's
   * layer and explored at once. `seed` is the cell the fill started from.
   */
  method FindClosest(grid: Grid, layer: int, ghost seed: Cell, v: Cell, pixels0: seq<FillPixel>)
    returns (pixels: seq<FillPixel>)
    requires InGrid(grid, seed) && InGrid(grid, v) && ColourAt(grid, v) == ColourAt(grid, seed)
    requires Reachable(grid, seed, v)
    requires FillInvariant(grid, layer, seed, pixels0)
    ensures FillInvariant(grid, layer, seed, pixels)
    ensures pixels0 <= pixels
    ensures forall u :: u in Neighbours(v) && Matches(grid, u, ColourAt(grid, v)) ==> u in Cells(pixels)
    ensures NewEntriesClosed(grid, ColourAt(grid, v), pixels0, pixels)
    ensures (forall u :: u in Neighbours(v) && Matches(grid, u, ColourAt(grid, v)) ==> u in Cells(pixels0)) ==>
      pixels == pixels0
    decreases Unvisited(grid, pixels0)
  {
    var colour := grid[v.row][v.col].color;
    var neighbours := Neighbours(v);
    pixels := pixels0;
    for i := 0 to 4
      invariant FillInvariant(grid, layer, seed, pixels)
      invariant pixels0 <= pixels
      invariant forall j :: 0 <= j < i && Matches(grid, neighbours[j], colour) ==> neighbours[j] in Cells(pixels)
      invariant NewEntriesClosed(grid, colour, pixels0, pixels)
      invariant (forall u :: u in neighbours && Matches(grid, u, colour) ==> u in Cells(pixels0)) ==> pixels == pixels0
    {
      var neighbour := neighbours[i];
      var pixel := Lookup(grid, neighbour);
      if pixel.Some? && pixel.value.color == colour && !AlreadyCounted(pixels, neighbour) {
        var pushed := FillPixel(neighbour.row, neighbour.col, layer);
        ghost var before := pixels;
        UnvisitedShrinks(grid, pixels0, pixels, pushed);
        PushKeepsInvariant(grid, layer, seed, v, pixels, pushed);
        pixels := pixels + [pushed];
        pixels := FindClosest(grid, layer, seed, neighbour, pixels);
        AfterVisit(grid, colour, pixels0, before, pushed, pixels, neighbours, i);
      }
    }
  }

  /** Pushing a matching, uncounted neighbour of a reachable cell keeps the invariant. */
  lemma PushKeepsInvariant(grid: Grid, layer: int, seed: Cell, v: Cell, pixels: seq<FillPixel>, p: FillPixel)
    requires InGrid(grid, seed) && InGrid(grid, v) && ColourAt(grid, v) == ColourAt(grid, seed)
    requires Reachable(grid, seed, v) && FillInvariant(grid, layer, seed, pixels)
    requires CellOf(p) in Neighbours(v) && Matches(grid, CellOf(p), ColourAt(grid, v))
    requires p.layer == layer && CellOf(p) !in Cells(pixels)
    ensures FillInvariant(grid, layer, seed, pixels + [p])
    ensures Reachable(grid, seed, CellOf(p))
  {
    ReachStep(grid, seed, v, CellOf(p));
    var q := pixels + [p];
    forall i, j | 0 <= i < j < |q| ensures CellOf(q[i]) != CellOf(q[j]) {
      if j == |pixels| {
        assert q[i] in pixels;
      } else {
        assert q[i] == pixels[i] && q[j] == pixels[j];
      }
    }
  }

  /** The loop invariant of `FindClosest` after one neighbour was pushed and explored. */
  lemma AfterVisit(grid: Grid, colour: string, pixels0: seq<FillPixel>, before: seq<FillPixel>, pushed: FillPixel,
                   pixels: seq<FillPixel>, neighbours: seq<Cell>, i: nat)
    requires |neighbours| == 4 && i < 4 && neighbours[i] == CellOf(pushed)
    requires pixels0 <= before && before + [pushed] <= pixels
    requires forall j :: 0 <= j < i && Matches(grid, neighbours[j], colour) ==> neighbours[j] in Cells(before)
    requires NewEntriesClosed(grid, colour, pixels0, before)
    requires NewEntriesClosed(grid, colour, before + [pushed], pixels)
    requires forall u :: u in Neighbours(CellOf(pushed)) && Matches(grid, u, colour) ==> u in Cells(pixels)
    ensures pixels0 <= pixels
    ensures forall j :: 0 <= j < i + 1 && Matches(grid, neighbours[j], colour) ==> neighbours[j] in Cells(pixels)
    ensures NewEntriesClosed(grid, colour, pixels0, pixels)
  {
    PrefixCells(before, pixels);
    assert pushed in pixels by {
      assert pixels[|before|] == pushed;
    }
    forall k, u | |pixels0| <= k < |pixels| && u in Neighbours(CellOf(pixels[k])) && Matches(grid, u, colour)
      ensures u in Cells(pixels)
    {
      if k < |before| {
        assert pixels[k] == before[k];
      } else if k == |before| {
        assert pixels[k] == pushed;
      }
    }
  }

  /**
   * `getFillPixels(initialPixel, grid)`: the cells of the seed's
   * same-colour region, each tagged with the seed's layer, or nothing when
   * the seed has no neighbour of its colour.
   */
  method GetFillPixels(initialPixel: FillPixel, grid: Grid) returns (pixels: seq<FillPixel>)
    requires InGrid(grid, CellOf(initialPixel))
    ensures forall p :: p in pixels ==> p.layer == initialPixel.layer
    ensures NoDuplicates(pixels)
    ensures forall p :: p in pixels ==>
      InGrid(grid, CellOf(p)) && ColourAt(grid, CellOf(p)) == ColourAt(grid, CellOf(initialPixel))
    ensures forall p :: p in pixels ==> Reachable(grid, CellOf(initialPixel), CellOf(p))
    ensures HasMatchingNeighbour(grid, CellOf(initialPixel)) ==>
      forall t :: Reachable(grid, CellOf(initialPixel), t) ==> t in Cells(pixels)
    ensures |pixels| == 0 <==> !HasMatchingNeighbour(grid, CellOf(initialPixel))
  {
    var seed := CellOf(initialPixel);
    var layer := initialPixel.layer;
    assert ReachIn(grid, ColourAt(grid, seed), seed, seed, 0);
    pixels := FindClosest(grid, layer, seed, seed, []);
    forall p | p in pixels
      ensures InGrid(grid, CellOf(p)) && ColourAt(grid, CellOf(p)) == ColourAt(grid, seed)
    {
      var n: nat :| ReachIn(grid, ColourAt(grid, seed), seed, CellOf(p), n);
    }
    if HasMatchingNeighbour(grid, seed) {
      var v :| v in Neighbours(seed) && Matches(grid, v, ColourAt(grid, seed));
      RegionCovered(grid, seed, v, pixels);
    }
  }

  /** The closing step of the fill: once a neighbour of the seed is counted, the seed and its whole region are. */
  lemma RegionCovered(grid: Grid, seed: Cell, v: Cell, pixels: seq<FillPixel>)
    requires InGrid(grid, seed)
    requires v in Neighbours(seed) && Matches(grid, v, ColourAt(grid, seed)) && v in Cells(pixels)
    requires NewEntriesClosed(grid, ColourAt(grid, seed), [], pixels)
    ensures seed in Cells(pixels)
    ensures forall t :: Reachable(grid, seed, t) ==> t in Cells(pixels)
  {
    var colour := ColourAt(grid, seed);
    var cells := Cells(pixels);
    assert Closed(grid, colour, cells) by {
      forall u, w | u in cells && w in Neighbours(u) && Matches(grid, w, colour) ensures w in cells {
        var p :| p in pixels && CellOf(p) == u;
        var k :| 0 <= k < |pixels| && pixels[k] == p;
      }
    }
    NeighbourSymmetric(seed, v);
    assert Matches(grid, seed, colour);
    forall t | Reachable(grid, seed, t) ensures t in cells {
      var n: nat :| ReachIn(grid, colour, seed, t, n);
      ClosedHoldsRegion(grid, colour, seed, cells, t, n);
    }
  }
}
