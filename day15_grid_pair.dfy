/// The pair of equally sized grids the closeness sweep alternates between
/// (Day15/GridPair.cs).
module Day15GridPair {
  import opened Day15GridCell

  /// `GridPair`: the grid in use and a scratch grid of the same size.
  datatype GridPair = GridPair(primary: array2<GridCell>, secondary: array2<GridCell>)

  /// `For(grid)`: keeps `grid` as the primary grid and allocates a new
  /// secondary grid of the same height and width.
  method For(grid: array2<GridCell>) returns (p: GridPair)
    ensures p.primary == grid && fresh(p.secondary)
    ensures p.secondary.Length0 == grid.Length0 && p.secondary.Length1 == grid.Length1
  {
    var secondary := new GridCell[grid.Length0, grid.Length1]((_, _) => Empty());
    p := GridPair(grid, secondary);
  }

  /// `Swap()`: the pair with the roles of the two grids exchanged.
  function Swap(p: GridPair): (r: GridPair)
    ensures r.primary == p.secondary && r.secondary == p.primary
  {
    GridPair(p.secondary, p.primary)
  }

  /// Swapping twice gives back the original pair.
  lemma SwapTwice(p: GridPair)
    ensures Swap(Swap(p)) == p
  {
  }
}
