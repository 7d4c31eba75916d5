/// Day13/Map.cs: the track layout, read-only once built.
module Day13Map {
  import opened Day13CartState

  type Position = (int, int)

  /// The map's size and the track held at each position that has one.
  datatype Map = Map(width: int, height: int, cells: map<Position, TrackCell>)

  /// `Get`: the track at `(x, y)`, or `Empty` for a position the map does
  /// not hold. The size is not consulted, so positions outside it are
  /// simply empty.
  function Get(m: Map, x: int, y: int): (r: TrackCell)
  {
    if (x, y) in m.cells then m.cells[(x, y)] else Empty
  }

  /// A position without a stored track reads as empty, and a stored track
  /// reads back as stored whatever the map's size.
  lemma GetStored(m: Map, x: int, y: int)
    ensures (x, y) !in m.cells ==> Get(m, x, y) == Empty
    ensures (x, y) in m.cells ==> Get(m, x, y) == m.cells[(x, y)]
    ensures Get(Map(0, 0, m.cells), x, y) == Get(m, x, y)
  {
  }
}
