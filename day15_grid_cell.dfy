/// The cell value of the combat map (Day15/GridCell.cs): a wall, open floor
/// or a unit, plus, per faction, the optional 'closeness' annotation that
/// says how far away the nearest reachable unit of that faction is.
module Day15GridCell {
  import opened Wrappers

  /// A grid coordinate: column `x`, row `y`.
  datatype Pos = Pos(x: int, y: int)

  /// Reading order on grid positions: by row, then by column.
  predicate ReadsBefore(p: Pos, q: Pos)
  {
    p.y < q.y || (p.y == q.y && p.x < q.x)
  }

  /// The two opposing factions.
  datatype Faction = Elves | Goblins

  function Enemy(f: Faction): Faction
  {
    if f == Elves then Goblins else Elves
  }

  /// `GridCell`: the unit flags, the id of the unit in the cell (or of the
  /// nearest reachable one), and for each faction the distance to its
  /// nearest reachable unit and the in-range cell a path should aim for.
  datatype GridCell = GridCell(
    isWall: bool,
    isElf: bool,
    isGoblin: bool,
    elfId: Option<int>,
    goblinId: Option<int>,
    elfInRangePosition: Option<Pos>,
    distanceToElfInRange: Option<int>,
    goblinInRangePosition: Option<Pos>,
    distanceToGoblinInRange: Option<int>)

  /// The private constructor with every argument at its default.
  const Default := GridCell(false, false, false, None, None, None, None, None, None)

  /// `Empty()`.
  function Empty(): GridCell { Default }

  /// `Wall()`.
  function Wall(): GridCell { Default.(isWall := true) }

  /// `Goblin(id)`.
  function Goblin(id: int): GridCell { Default.(isGoblin := true, goblinId := Some(id)) }

  /// `Elf(id)`.
  function Elf(id: int): GridCell { Default.(isElf := true, elfId := Some(id)) }

  /// The per-faction views of a cell.
  predicate IsUnit(c: GridCell, f: Faction)
  {
    if f == Elves then c.isElf else c.isGoblin
  }

  predicate IsAnyUnit(c: GridCell)
  {
    c.isElf || c.isGoblin
  }

  /// Floor that paths may pass through: neither a wall nor a unit.
  predicate Open(c: GridCell)
  {
    !c.isWall && !c.isElf && !c.isGoblin
  }

  function Id(c: GridCell, f: Faction): Option<int>
  {
    if f == Elves then c.elfId else c.goblinId
  }

  function Distance(c: GridCell, f: Faction): Option<int>
  {
    if f == Elves then c.distanceToElfInRange else c.distanceToGoblinInRange
  }

  function InRangePosition(c: GridCell, f: Faction): Option<Pos>
  {
    if f == Elves then c.elfInRangePosition else c.goblinInRangePosition
  }

  /// No closeness annotation for either faction.
  predicate Bare(c: GridCell)
  {
    c.distanceToElfInRange.None? && c.elfInRangePosition.None? &&
    c.distanceToGoblinInRange.None? && c.goblinInRangePosition.None?
  }

  /// Wall, elf and goblin exclude one another.
  predicate AtMostOneKind(c: GridCell)
  {
    !(c.isWall && c.isElf) && !(c.isWall && c.isGoblin) && !(c.isElf && c.isGoblin)
  }

  /// What holds of every cell the program builds, per faction: a unit of
  /// the faction has its own id and no annotation; any other cell has an id
  /// exactly when it has a distance, and a distance (at least 1) exactly
  /// when it has an in-range position.
  predicate WellFormedFor(c: GridCell, f: Faction)
  {
    (IsUnit(c, f) ==> Id(c, f).Some? && Distance(c, f).None? && InRangePosition(c, f).None?) &&
    (!IsUnit(c, f) ==>
      (Id(c, f).Some? <==> Distance(c, f).Some?) &&
      (Distance(c, f).Some? <==> InRangePosition(c, f).Some?)) &&
    (Distance(c, f).Some? ==> Distance(c, f).value >= 1)
  }

  /// The cell invariant: one kind at most, walls carry nothing, both
  /// factions' fields well formed.
  predicate WellFormed(c: GridCell)
  {
    AtMostOneKind(c) &&
    (c.isWall ==> c.elfId.None? && c.goblinId.None? && Bare(c)) &&
    WellFormedFor(c, Elves) && WellFormedFor(c, Goblins)
  }

  /// The factories build well-formed cells of exactly one kind (or none,
  /// for `Empty`) with no closeness annotation; a unit carries its own id
  /// and no id of the other faction.
  lemma FactoriesMeans(id: int)
    ensures WellFormed(Empty()) && Bare(Empty()) && Open(Empty())
    ensures Empty().elfId.None? && Empty().goblinId.None?
    ensures WellFormed(Wall()) && Bare(Wall()) && Wall().isWall && !IsAnyUnit(Wall())
    ensures WellFormed(Goblin(id)) && Bare(Goblin(id)) && !Goblin(id).isWall && !Goblin(id).isElf
    ensures Goblin(id).isGoblin && Goblin(id).goblinId == Some(id) && Goblin(id).elfId.None?
    ensures WellFormed(Elf(id)) && Bare(Elf(id)) && !Elf(id).isWall && !Elf(id).isGoblin
    ensures Elf(id).isElf && Elf(id).elfId == Some(id) && Elf(id).goblinId.None?
  {
  }

  /// `WithDistanceToElfInRange`: refuses walls and elves; otherwise a copy
  /// carrying the elf annotation, with the goblin side untouched.
  function WithDistanceToElfInRange(c: GridCell, distance: int, id: int, x: int, y: int): (r: Result<GridCell>)
    ensures r.Failure? <==> c.isWall || c.isElf
    ensures r.Failure? ==> r.error == InvalidOperation
    ensures r.Success? ==>
      r.value.distanceToElfInRange == Some(distance) && r.value.elfId == Some(id) &&
      r.value.elfInRangePosition == Some(Pos(x, y))
    ensures r.Success? ==>
      !r.value.isWall && !r.value.isElf && r.value.isGoblin == c.isGoblin &&
      r.value.goblinId == c.goblinId && r.value.distanceToGoblinInRange == c.distanceToGoblinInRange &&
      r.value.goblinInRangePosition == c.goblinInRangePosition
  {
    if c.isWall then Failure(InvalidOperation)
    else if c.isElf then Failure(InvalidOperation)
    else Success(GridCell(
      false, false, c.isGoblin, Some(id), c.goblinId,
      Some(Pos(x, y)), Some(distance), c.goblinInRangePosition, c.distanceToGoblinInRange))
  }

  /// `WithDistanceToGoblinInRange`: refuses walls and goblins; otherwise a
  /// copy carrying the goblin annotation, with the elf side untouched.
  function WithDistanceToGoblinInRange(c: GridCell, distance: int, id: int, x: int, y: int): (r: Result<GridCell>)
    ensures r.Failure? <==> c.isWall || c.isGoblin
    ensures r.Failure? ==> r.error == InvalidOperation
    ensures r.Success? ==>
      r.value.distanceToGoblinInRange == Some(distance) && r.value.goblinId == Some(id) &&
      r.value.goblinInRangePosition == Some(Pos(x, y))
    ensures r.Success? ==>
      !r.value.isWall && !r.value.isGoblin && r.value.isElf == c.isElf &&
      r.value.elfId == c.elfId && r.value.distanceToElfInRange == c.distanceToElfInRange &&
      r.value.elfInRangePosition == c.elfInRangePosition
  {
    if c.isWall then Failure(InvalidOperation)
    else if c.isGoblin then Failure(InvalidOperation)
    else Success(GridCell(
      false, c.isElf, false, c.elfId, Some(id),
      c.elfInRangePosition, c.distanceToElfInRange, Some(Pos(x, y)), Some(distance)))
  }

  /// The two `With...InRange` methods seen through the faction.
  function WithDistanceTo(c: GridCell, f: Faction, distance: int, id: int, p: Pos): (r: Result<GridCell>)
    ensures r.Failure? <==> c.isWall || IsUnit(c, f)
    ensures r.Success? ==>
      Distance(r.value, f) == Some(distance) && Id(r.value, f) == Some(id) &&
      InRangePosition(r.value, f) == Some(p)
    ensures r.Success? ==>
      var o := Enemy(f);
      !r.value.isWall && r.value.isElf == c.isElf && r.value.isGoblin == c.isGoblin &&
      Id(r.value, o) == Id(c, o) && Distance(r.value, o) == Distance(c, o) &&
      InRangePosition(r.value, o) == InRangePosition(c, o)
  {
    if f == Elves then WithDistanceToElfInRange(c, distance, id, p.x, p.y)
    else WithDistanceToGoblinInRange(c, distance, id, p.x, p.y)
  }

  /// Annotating a well-formed cell that lacks the faction's annotation,
  /// with a distance of at least 1, keeps it well formed.
  lemma WithDistanceToWellFormed(c: GridCell, f: Faction, distance: int, id: int, p: Pos)
    requires WellFormed(c) && !c.isWall && !IsUnit(c, f) && Distance(c, f).None?
    requires distance >= 1
    ensures WithDistanceTo(c, f, distance, id, p).Success?
    ensures WellFormed(WithDistanceTo(c, f, distance, id, p).value)
  {
    var r := WithDistanceTo(c, f, distance, id, p).value;
    assert WellFormedFor(r, f);
    assert WellFormedFor(r, Enemy(f));
    if f == Elves {
      assert WellFormedFor(r, Goblins);
    } else {
      assert WellFormedFor(r, Elves);
    }
  }
}
