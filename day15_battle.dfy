/// The rules of a battle round (Day15/GameState.cs) as functions on values:
/// the map with its closeness data and each faction's hit points by unit id.
/// `RegisterAll` is how `Start` hands out hit points; `Turn` and `RoundFrom`
/// are what `PlayRound` does: in reading order each unit moves towards the
/// nearest enemy, attacks an adjacent one, and a unit whose hit points drop
/// to 0 or below leaves the map at once. The array methods in
/// `Day15GameState` are proved to compute these functions.
module Day15Battle {
  import opened Wrappers
  import opened Day15GridCell
  import opened Day15GridPair
  import opened Day15GridOperations
  import opened Day15Closeness

  // ---------------------------------------------------------------------
  // Reading order
  // ---------------------------------------------------------------------

  /// The positions of row `y` of a grid `w` wide, left to right.
  function RowPositions(y: int, w: nat): (r: seq<Pos>)
    ensures |r| == w && forall x :: 0 <= x < w ==> r[x] == Pos(x, y)
  {
    seq(w, x => Pos(x, y))
  }

  /// Every position of an `h` by `w` grid in the order of the source's
  /// nested `y`, `x` loops.
  function ReadingOrder(h: nat, w: nat): seq<Pos>
  {
    if h == 0 then [] else ReadingOrder(h - 1, w) + RowPositions(h - 1, w)
  }

  /// Positions listed in strictly increasing reading order.
  predicate Increasing(ps: seq<Pos>)
  {
    forall i, j :: 0 <= i < j < |ps| ==> ReadsBefore(ps[i], ps[j])
  }

  /// The loops visit every position of the grid, each once, in reading
  /// order.
  lemma {:induction false} ReadingOrderMeans(h: nat, w: nat)
    ensures forall p :: p in ReadingOrder(h, w) <==> 0 <= p.y < h && 0 <= p.x < w
    ensures Increasing(ReadingOrder(h, w))
  {
    if h > 0 {
      ReadingOrderMeans(h - 1, w);
      var a, b := ReadingOrder(h - 1, w), RowPositions(h - 1, w);
      forall p: Pos ensures p in a + b <==> 0 <= p.y < h && 0 <= p.x < w {
        if p.y == h - 1 && 0 <= p.x < w {
          assert b[p.x] == p;
        }
      }
      forall i, j | 0 <= i < j < |a + b| ensures ReadsBefore((a + b)[i], (a + b)[j]) {
        if i < |a| {
          assert a[i] in a;
        }
      }
    }
  }

  /// The positions among `ps` that hold a unit, in the order of `ps`.
  function UnitsAmong(g: Grid, ps: seq<Pos>): (r: seq<Pos>)
    requires Rect(g) && forall p :: p in ps ==> InGrid(g, p)
  {
    if ps == [] then []
    else
      var n := |ps| - 1;
      UnitsAmong(g, ps[..n]) + if IsAnyUnit(At(g, ps[n])) then [ps[n]] else []
  }

  /// Filtering keeps exactly the unit positions and keeps them in order.
  lemma {:induction false} UnitsAmongMeans(g: Grid, ps: seq<Pos>)
    requires Rect(g) && forall p :: p in ps ==> InGrid(g, p)
    ensures forall p :: p in UnitsAmong(g, ps) <==> p in ps && IsAnyUnit(At(g, p))
    ensures Increasing(ps) ==> Increasing(UnitsAmong(g, ps))
  {
    if ps != [] {
      var n := |ps| - 1;
      UnitsAmongMeans(g, ps[..n]);
      assert ps == ps[..n] + [ps[n]];
      if Increasing(ps) {
        assert Increasing(ps[..n]);
        var a := UnitsAmong(g, ps[..n]);
        forall i | 0 <= i < |a| ensures ReadsBefore(a[i], ps[n]) {
          assert a[i] in a;
          var k :| 0 <= k < n && ps[..n][k] == a[i];
        }
      }
    }
  }

  /// Every position of the grid, in reading order.
  function AllPositions(g: Grid): (r: seq<Pos>)
    ensures forall p :: p in r <==> InGrid(g, p)
  {
    ReadingOrderMeans(|g|, Width(g));
    ReadingOrder(|g|, Width(g))
  }

  /// The `coordinates` list `PlayRound` collects: the units present at the
  /// start of the round, in reading order.
  function Units(g: Grid): seq<Pos>
    requires Rect(g)
  {
    UnitsAmong(g, AllPositions(g))
  }

  /// Turns go to exactly the units on the map, each once, in reading order.
  lemma UnitsMeans(g: Grid)
    requires Rect(g)
    ensures forall p :: p in Units(g) <==> InGrid(g, p) && IsAnyUnit(At(g, p))
    ensures Increasing(Units(g))
  {
    ReadingOrderMeans(|g|, Width(g));
    UnitsAmongMeans(g, AllPositions(g));
  }

  // ---------------------------------------------------------------------
  // Hit points
  // ---------------------------------------------------------------------

  /// Hit points by unit id, for each faction.
  datatype HitPoints = HitPoints(elves: map<int, int>, goblins: map<int, int>)

  function Of(hp: HitPoints, f: Faction): map<int, int>
  {
    if f == Elves then hp.elves else hp.goblins
  }

  function With(hp: HitPoints, f: Faction, m: map<int, int>): (r: HitPoints)
    ensures Of(r, f) == m && Of(r, Enemy(f)) == Of(hp, Enemy(f))
  {
    if f == Elves then hp.(elves := m) else hp.(goblins := m)
  }

  /// Every unit starts with 200 hit points.
  const StartingHitPoints := 200

  /// The unit ids of faction `f` at the positions `ps`.
  ghost function IdsAt(g: Grid, ps: seq<Pos>, f: Faction): set<int>
    requires Rect(g) && forall p :: p in ps ==> InGrid(g, p)
  {
    set p | p in ps && IsUnit(At(g, p), f) && Id(At(g, p), f).Some? :: Id(At(g, p), f).value
  }

  /// No two of the positions `ps` hold units of faction `f` with one id.
  ghost predicate DistinctIds(g: Grid, ps: seq<Pos>, f: Faction)
    requires Rect(g) && forall p :: p in ps ==> InGrid(g, p)
  {
    forall i, j :: 0 <= i < j < |ps| && IsUnit(At(g, ps[i]), f) && IsUnit(At(g, ps[j]), f) ==>
      Id(At(g, ps[i]), f) != Id(At(g, ps[j]), f)
  }

  /// A cell is at most one of wall, elf and goblin, and a unit carries the
  /// id of its own faction.
  predicate HasIds(c: GridCell)
  {
    AtMostOneKind(c) && (c.isElf ==> c.elfId.Some?) && (c.isGoblin ==> c.goblinId.Some?)
  }

  ghost predicate UnitsHaveIds(g: Grid)
  {
    Rect(g) && forall p :: InGrid(g, p) ==> HasIds(At(g, p))
  }

  /// One cell of `Start`'s loop: an elf or a goblin is entered with 200 hit
  /// points under its id; `ImmutableDictionary.Add` throws on an id that is
  /// already present.
  function Register(hp: HitPoints, c: GridCell): (r: Result<HitPoints>)
  {
    if !IsAnyUnit(c) then Success(hp)
    else
      var f := UnitFaction(c);
      match Id(c, f)
      case None => Failure(InvalidOperation)
      case Some(id) =>
        if id in Of(hp, f) then Failure(Argument)
        else Success(With(hp, f, Of(hp, f)[id := StartingHitPoints]))
  }

  /// `Start`'s loop over the positions `ps`.
  function RegisterAll(g: Grid, ps: seq<Pos>): Result<HitPoints>
    requires Rect(g) && forall p :: p in ps ==> InGrid(g, p)
  {
    if ps == [] then Success(HitPoints(map[], map[]))
    else
      var n := |ps| - 1;
      var hp :- RegisterAll(g, ps[..n]);
      Register(hp, At(g, ps[n]))
  }

  /// Each faction's hit points hold exactly the ids of its units among
  /// `ps`, each at 200.
  ghost predicate Registered(g: Grid, ps: seq<Pos>, hp: HitPoints)
    requires Rect(g) && forall p :: p in ps ==> InGrid(g, p)
  {
    forall f ::
      Of(hp, f).Keys == IdsAt(g, ps, f) &&
      forall id :: id in Of(hp, f) ==> Of(hp, f)[id] == StartingHitPoints
  }

  /// Registering succeeds exactly when no two units of a faction share an
  /// id, and then hands every unit 200 hit points under its id.
  lemma {:induction false} RegisterAllMeans(g: Grid, ps: seq<Pos>)
    requires UnitsHaveIds(g) && forall p :: p in ps ==> InGrid(g, p)
    ensures RegisterAll(g, ps).Success? <==> DistinctIds(g, ps, Elves) && DistinctIds(g, ps, Goblins)
    ensures RegisterAll(g, ps).Success? ==> Registered(g, ps, RegisterAll(g, ps).value)
  {
    if ps != [] {
      var n := |ps| - 1;
      var front, last := ps[..n], ps[n];
      assert ps == front + [last];
      assert forall p :: p in front ==> p in ps;
      RegisterAllMeans(g, front);
      if RegisterAll(g, front).Failure? {
        assert RegisterAll(g, ps).Failure?;
        DistinctSnoc(g, front, last, Elves);
        DistinctSnoc(g, front, last, Goblins);
      } else {
        var hp := RegisterAll(g, front).value;
        assert RegisterAll(g, ps) == Register(hp, At(g, last));
        IdsAtSnoc(g, front, last, Elves);
        IdsAtSnoc(g, front, last, Goblins);
        RegisterStep(g, front, last, hp);
        if RegisterAll(g, ps).Success? {
          RegisterStepRegisters(g, front, last, hp);
        }
        DistinctSnoc(g, front, last, Elves);
        DistinctSnoc(g, front, last, Goblins);
      }
    }
  }

  /// Adding one position adds the id of the unit there, if any.
  lemma IdsAtSnoc(g: Grid, front: seq<Pos>, last: Pos, f: Faction)
    requires UnitsHaveIds(g) && InGrid(g, last) && forall p :: p in front ==> InGrid(g, p)
    ensures IdsAt(g, front + [last], f) ==
      IdsAt(g, front, f) + if IsUnit(At(g, last), f) then {Id(At(g, last), f).value} else {}
  {
    assert HasIds(At(g, last));
  }

  /// Adding one position keeps the ids distinct exactly when the unit there
  /// (if any) has a new id.
  lemma DistinctSnoc(g: Grid, front: seq<Pos>, last: Pos, f: Faction)
    requires UnitsHaveIds(g) && InGrid(g, last) && forall p :: p in front ==> InGrid(g, p)
    ensures DistinctIds(g, front + [last], f) <==>
      DistinctIds(g, front, f) && (IsUnit(At(g, last), f) ==> Id(At(g, last), f).value !in IdsAt(g, front, f))
  {
    var ps, c, n := front + [last], At(g, last), |front|;
    assert HasIds(c);
    if DistinctIds(g, ps, f) {
      assert DistinctIds(g, front, f) by {
        forall i, j | 0 <= i < j < n ensures ps[i] == front[i] && ps[j] == front[j] { }
      }
    }
    if IsUnit(c, f) && Id(c, f).value in IdsAt(g, front, f) {
      var p :| p in front && IsUnit(At(g, p), f) && Id(At(g, p), f).Some? && Id(At(g, p), f).value == Id(c, f).value;
      var i :| 0 <= i < n && front[i] == p;
      assert ps[i] == p && ps[n] == last;
    }
    if DistinctIds(g, front, f) && (IsUnit(c, f) ==> Id(c, f).value !in IdsAt(g, front, f)) {
      forall i, j | 0 <= i < j < |ps| && IsUnit(At(g, ps[i]), f) && IsUnit(At(g, ps[j]), f)
        ensures Id(At(g, ps[i]), f) != Id(At(g, ps[j]), f)
      {
        if j == n {
          assert ps[i] == front[i] && front[i] in front;
          assert HasIds(At(g, ps[i]));
        } else {
          assert ps[i] == front[i] && ps[j] == front[j];
        }
      }
    }
  }

  /// One call of `Register` after a successful prefix succeeds exactly when
  /// the unit there (if any) has an id not seen before.
  lemma RegisterStep(g: Grid, front: seq<Pos>, last: Pos, hp: HitPoints)
    requires UnitsHaveIds(g) && InGrid(g, last) && forall p :: p in front ==> InGrid(g, p)
    requires Registered(g, front, hp)
    ensures Register(hp, At(g, last)).Success? <==>
      forall f :: IsUnit(At(g, last), f) ==> Id(At(g, last), f).value !in IdsAt(g, front, f)
  {
    assert HasIds(At(g, last));
  }

  /// ... and then registers the unit with 200 hit points.
  lemma RegisterStepRegisters(g: Grid, front: seq<Pos>, last: Pos, hp: HitPoints)
    requires UnitsHaveIds(g) && InGrid(g, last) && forall p :: p in front ==> InGrid(g, p)
    requires Registered(g, front, hp) && Register(hp, At(g, last)).Success?
    requires forall f ::
               IdsAt(g, front + [last], f) ==
               IdsAt(g, front, f) + if IsUnit(At(g, last), f) then {Id(At(g, last), f).value} else {}
    ensures Registered(g, front + [last], Register(hp, At(g, last)).value)
  {
    var c := At(g, last);
    assert HasIds(c);
    if IsAnyUnit(c) {
      var f := UnitFaction(c);
      assert IsUnit(c, f) && !IsUnit(c, Enemy(f));
    }
  }

  // ---------------------------------------------------------------------
  // Removing a unit
  // ---------------------------------------------------------------------

  /// What `RemoveItem` leaves of a cell: a wall as it is, a unit as a fresh
  /// unit cell with its id and no closeness data, anything else empty.
  function Strip(c: GridCell): (r: GridCell)
    requires HasIds(c)
  {
    if !(c.isWall || c.isElf || c.isGoblin) then Empty()
    else if c.isElf then Elf(c.elfId.value)
    else if c.isGoblin then Goblin(c.goblinId.value)
    else c
  }

  /// `RemoveItem(grid, p)`: the cell at `p` emptied and every cell
  /// stripped.
  function Removed(g: Grid, p: Pos): (r: Grid)
    requires UnitsHaveIds(g) && InGrid(g, p)
    ensures |r| == |g| && Rect(r) && Width(r) == Width(g)
    ensures forall q :: InGrid(g, q) ==> At(r, q) == if q == p then Empty() else Strip(At(g, q))
  {
    seq(|g|, y requires 0 <= y < |g| =>
      seq(Width(g), x requires 0 <= x < Width(g) =>
        if Pos(x, y) == p then Empty() else StripAt(g, Pos(x, y))))
  }

  function StripAt(g: Grid, q: Pos): GridCell
    requires UnitsHaveIds(g) && InGrid(g, q)
  {
    Strip(At(g, q))
  }

  /// Removal empties the cell, keeps every other wall and unit with its
  /// id, and drops all closeness data; on a valid grid, removing a unit
  /// leaves a valid grid.
  lemma RemovedMeans(g: Grid, p: Pos)
    requires UnitsHaveIds(g) && InGrid(g, p)
    ensures var r := Removed(g, p);
      At(r, p) == Empty() && UnitsHaveIds(r) &&
      forall q :: InGrid(g, q) && q != p ==>
        At(r, q).isWall == At(g, q).isWall && At(r, q).isElf == At(g, q).isElf &&
        At(r, q).isGoblin == At(g, q).isGoblin &&
        (At(g, q).isElf ==> At(r, q).elfId == At(g, q).elfId) &&
        (At(g, q).isGoblin ==> At(r, q).goblinId == At(g, q).goblinId)
    ensures Valid(g) && !At(g, p).isWall ==> Valid(Removed(g, p)) && AllBare(Removed(g, p))
  {
    var r := Removed(g, p);
    FactoriesMeans(0);
    forall q | InGrid(g, q) ensures HasIds(At(r, q)) && (!At(g, q).isWall ==> Bare(At(r, q))) {
      FactoriesMeans(if At(g, q).isElf then At(g, q).elfId.value else if At(g, q).isGoblin then At(g, q).goblinId.value else 0);
    }
    if Valid(g) && !At(g, p).isWall {
      forall q | InGrid(r, q) ensures WellFormed(At(r, q)) && Bare(At(r, q)) {
        assert InGrid(g, q);
        if q != p && At(g, q).isElf {
          FactoriesMeans(At(g, q).elfId.value);
        } else if q != p && At(g, q).isGoblin {
          FactoriesMeans(At(g, q).goblinId.value);
        }
      }
      forall q | InGrid(r, q) && !Interior(r, q) ensures At(r, q).isWall {
        assert InGrid(g, q) && !Interior(g, q) && At(g, q).isWall;
      }
      assert Walled(r);
    }
  }

  /// Every cell of a valid grid satisfies `HasIds`.
  lemma ValidHasIds(g: Grid)
    requires Valid(g)
    ensures UnitsHaveIds(g)
  {
    forall p | InGrid(g, p) ensures HasIds(At(g, p)) {
      assert WellFormed(At(g, p));
    }
  }

  // ---------------------------------------------------------------------
  // Placing a unit
  // ---------------------------------------------------------------------

  /// The grid with cell `c` written at `q`.
  function Place(g: Grid, q: Pos, c: GridCell): (r: Grid)
    requires Rect(g) && InGrid(g, q)
    ensures |r| == |g| && Rect(r) && Width(r) == Width(g)
    ensures forall p :: InGrid(g, p) ==> At(r, p) == if p == q then c else At(g, p)
  {
    g[q.y := g[q.y][q.x := c]]
  }

  /// `GridCell.Elf(id)` or `GridCell.Goblin(id)`.
  function UnitCell(f: Faction, id: int): (c: GridCell)
    ensures WellFormed(c) && Bare(c) && !c.isWall && IsUnit(c, f) && !IsUnit(c, Enemy(f))
    ensures Id(c, f) == Some(id) && UnitFaction(c) == f
  {
    FactoriesMeans(id);
    if f == Elves then Elf(id) else Goblin(id)
  }

  /// Writing a well-formed non-wall cell inside the outer wall keeps a grid
  /// valid.
  lemma PlaceValid(g: Grid, q: Pos, c: GridCell)
    requires Valid(g) && InGrid(g, q) && !At(g, q).isWall && WellFormed(c) && !c.isWall
    ensures Valid(Place(g, q, c))
  {
    var r := Place(g, q, c);
    forall p | InGrid(r, p) && !Interior(r, p) ensures At(r, p).isWall {
      assert InGrid(g, p) && !Interior(g, p);
    }
    assert Walled(r);
    forall p | InGrid(r, p) ensures WellFormed(At(r, p)) {
      assert InGrid(g, p);
    }
  }

  // ---------------------------------------------------------------------
  // The battle as a value
  // ---------------------------------------------------------------------

  /// The map (with converged closeness data) and both factions' hit points.
  datatype Battle = Battle(grid: Grid, hp: HitPoints)

  /// The id of the unit of `f` at `p`.
  function UnitId(g: Grid, p: Pos, f: Faction): int
    requires Valid(g) && InGrid(g, p) && IsUnit(At(g, p), f)
  {
    assert WellFormed(At(g, p));
    Id(At(g, p), f).value
  }

  /// Every unit of `f` on the map has an entry in `m` with hit points above
  /// 0: a unit leaves the map in the turn its hit points drop to 0.
  ghost predicate Tracked(g: Grid, m: map<int, int>, f: Faction)
    requires Valid(g)
  {
    forall p :: InGrid(g, p) && IsUnit(At(g, p), f) ==> UnitId(g, p, f) in m && m[UnitId(g, p, f)] > 0
  }

  /// No two units of `f` on the map share an id.
  ghost predicate UniqueIds(g: Grid, f: Faction)
    requires Valid(g)
  {
    forall p, q ::
      (InGrid(g, p) && InGrid(g, q) && IsUnit(At(g, p), f) && IsUnit(At(g, q), f) &&
       UnitId(g, p, f) == UnitId(g, q, f)) ==> p == q
  }

  /// What holds between rounds and between turns.
  ghost predicate Consistent(b: Battle)
  {
    Valid(b.grid) && forall f :: Tracked(b.grid, Of(b.hp, f), f) && UniqueIds(b.grid, f)
  }

  /// Some unit of `f` on the map has the id `id`.
  ghost predicate OnMap(g: Grid, f: Faction, id: int)
    requires Valid(g)
  {
    exists p :: InGrid(g, p) && IsUnit(At(g, p), f) && UnitId(g, p, f) == id
  }

  /// A grid with the same walls, units and ids (and the same hit points)
  /// is as consistent: closeness data plays no part.
  lemma ConsistentLayout(b: Battle, g: Grid)
    requires Consistent(b) && Valid(g) && SameLayout(b.grid, g)
    ensures Consistent(Battle(g, b.hp))
  {
    forall f ensures Tracked(g, Of(b.hp, f), f) && UniqueIds(g, f) {
      forall p | InGrid(g, p) && IsUnit(At(g, p), f) ensures UnitId(g, p, f) == UnitId(b.grid, p, f) {
        assert InGrid(b.grid, p);
      }
    }
  }

  /// Removing the unit (or anything but a wall) at `p` keeps the battle
  /// consistent, and the id of a unit removed is no longer on the map.
  lemma RemovedConsistent(b: Battle, p: Pos)
    requires Consistent(b) && InGrid(b.grid, p) && !At(b.grid, p).isWall
    ensures UnitsHaveIds(b.grid)
    ensures Consistent(Battle(Removed(b.grid, p), b.hp))
    ensures forall f :: IsUnit(At(b.grid, p), f) ==> !OnMap(Removed(b.grid, p), f, UnitId(b.grid, p, f))
  {
    var g := b.grid;
    ValidHasIds(g);
    RemovedMeans(g, p);
    var r := Removed(g, p);
    forall f ensures Tracked(r, Of(b.hp, f), f) && UniqueIds(r, f)
      && (IsUnit(At(g, p), f) ==> !OnMap(r, f, UnitId(g, p, f)))
    {
      forall q | InGrid(r, q) && IsUnit(At(r, q), f) ensures q != p && UnitId(r, q, f) == UnitId(g, q, f) {
        assert InGrid(g, q);
        FactoriesMeans(0);
      }
      if IsUnit(At(g, p), f) && OnMap(r, f, UnitId(g, p, f)) {
        var q :| InGrid(r, q) && IsUnit(At(r, q), f) && UnitId(r, q, f) == UnitId(g, p, f);
        assert InGrid(g, q) && IsUnit(At(g, q), f);
      }
    }
  }

  /// Setting the hit points of an id of `f` keeps the battle consistent
  /// when the new value is above 0 or the id is no longer on the map.
  lemma UpdateConsistent(b: Battle, f: Faction, id: int, v: int)
    requires Consistent(b) && (v > 0 || !OnMap(b.grid, f, id))
    ensures Consistent(Battle(b.grid, With(b.hp, f, Of(b.hp, f)[id := v])))
  {
    var hp := With(b.hp, f, Of(b.hp, f)[id := v]);
    forall e ensures Tracked(b.grid, Of(hp, e), e) {
      if e == f {
        forall p | InGrid(b.grid, p) && IsUnit(At(b.grid, p), f)
          ensures UnitId(b.grid, p, f) in Of(hp, f) && Of(hp, f)[UnitId(b.grid, p, f)] > 0
        {
          assert Tracked(b.grid, Of(b.hp, f), f);
        }
      }
    }
  }

  /// Writing a unit of `f` whose id has living hit points and is not on the
  /// map into an open cell keeps the battle consistent.
  lemma PlaceConsistent(b: Battle, q: Pos, f: Faction, id: int)
    requires Consistent(b) && InGrid(b.grid, q) && Open(At(b.grid, q))
    requires id in Of(b.hp, f) && Of(b.hp, f)[id] > 0 && !OnMap(b.grid, f, id)
    ensures Valid(Place(b.grid, q, UnitCell(f, id)))
    ensures Consistent(Battle(Place(b.grid, q, UnitCell(f, id)), b.hp))
  {
    var g, u := b.grid, UnitCell(f, id);
    PlaceValid(g, q, u);
    var r := Place(g, q, u);
    forall e ensures Tracked(r, Of(b.hp, e), e) && UniqueIds(r, e) {
      forall p | InGrid(r, p) && IsUnit(At(r, p), e) && p != q
        ensures UnitId(r, p, e) == UnitId(g, p, e) && (e == f ==> UnitId(g, p, e) != id)
      {
        assert InGrid(g, p);
      }
      assert forall p :: InGrid(r, p) && IsUnit(At(r, p), e) && p == q ==> e == f && UnitId(r, p, e) == id;
    }
  }

  // ---------------------------------------------------------------------
  // One turn
  // ---------------------------------------------------------------------

  /// Where the step `CalculateMove` gives leads the unit at `p`: an open
  /// cell of the map.
  function Destination(g: Grid, p: Pos): (r: Option<Pos>)
    requires Valid(g) && InGrid(g, p) && IsAnyUnit(At(g, p))
    ensures r.Some? ==> InGrid(g, r.value) && Open(At(g, r.value))
  {
    var m := CalculateMove(g, p);
    if m.value.Some? then Some(Pos(p.x + m.value.value.0, p.y + m.value.value.1)) else None
  }

  /// The grid after the unit of `f` with id `id` leaves `p` for `q`:
  /// `RemoveItem` at `p`, the unit written at `q`, closeness recomputed.
  function MovedGrid(g: Grid, p: Pos, q: Pos, f: Faction, id: int): (r: Grid)
    requires Valid(g) && InGrid(g, p) && !At(g, p).isWall && InGrid(g, q) && Open(At(g, q))
    ensures Valid(r) && |r| == |g| && Width(r) == Width(g)
  {
    ValidHasIds(g);
    RemovedMeans(g, p);
    var g1 := Removed(g, p);
    PlaceValid(g1, q, UnitCell(f, id));
    Closeness(Place(g1, q, UnitCell(f, id)))
  }

  /// The move of `PlayRound`: `RemoveItem` at `p`, the unit written again
  /// at `q`, closeness recomputed. Hit points do not change.
  function Moved(b: Battle, p: Pos, q: Pos): (r: Battle)
    requires Consistent(b) && InGrid(b.grid, p) && IsAnyUnit(At(b.grid, p))
    requires InGrid(b.grid, q) && Open(At(b.grid, q))
    ensures Consistent(r) && r.hp == b.hp && |r.grid| == |b.grid| && Width(r.grid) == Width(b.grid)
    ensures InGrid(r.grid, q)
    ensures var f := UnitFaction(At(b.grid, p));
      IsUnit(At(r.grid, q), f) && UnitId(r.grid, q, f) == UnitId(b.grid, p, f)
  {
    var f := UnitFaction(At(b.grid, p));
    var id := UnitId(b.grid, p, f);
    RemovedConsistent(b, p);
    var b1 := Battle(Removed(b.grid, p), b.hp);
    assert Open(At(b1.grid, q));
    PlaceConsistent(b1, q, f, id);
    var g2 := Place(b1.grid, q, UnitCell(f, id));
    ConsistentLayout(Battle(g2, b.hp), Closeness(g2));
    assert InGrid(g2, q);
    Battle(MovedGrid(b.grid, p, q, f, id), b.hp)
  }

  /// The sort key `PlayRound` hands `FindBest` for an attack by a unit of
  /// `f`: an adjacent enemy whose hit points are above 0, ranked by those
  /// hit points, then by its position in reading order; anything else is
  /// not a target.
  function TargetKey(f: Faction, hp: HitPoints, c: GridCell, q: Pos): Option<Key>
  {
    var e := Enemy(f);
    if IsUnit(c, e) && Id(c, e).Some? && Id(c, e).value in Of(hp, e) && Of(hp, e)[Id(c, e).value] > 0
    then Some(Key(Of(hp, e)[Id(c, e).value], q, Pos(1, 1)))
    else None
  }

  function TargetKeyOf(f: Faction, hp: HitPoints): (GridCell, Pos) -> Option<Key>
  {
    (c, q) => TargetKey(f, hp, c, q)
  }

  /// Elves hit with the game's elf attack power, goblins with 3.
  function Power(f: Faction, elfAttackPower: int): int
  {
    if f == Elves then elfAttackPower else 3
  }

  /// The position of the enemy the unit of `f` at `q` attacks, if any:
  /// `FindBest` over the neighbours with `TargetKey`.
  function AttackTarget(b: Battle, q: Pos, f: Faction): (r: Option<Pos>)
    requires Valid(b.grid) && InGrid(b.grid, q) && IsUnit(At(b.grid, q), f)
    ensures r.Some? ==> InGrid(b.grid, r.value) && IsUnit(At(b.grid, r.value), Enemy(f))
  {
    UnitInterior(b.grid, q);
    NeighboursInGrid(b.grid, q);
    match FindBest(b.grid, q, TargetKeyOf(f, b.hp))
    case None => None
    case Some(target) => Some(target.1)
  }

  /// The attack of the unit of `f` at `q` on the target `AttackTarget`
  /// chooses, if any.
  function Attack(b: Battle, q: Pos, f: Faction, power: int): (r: Battle)
    requires Consistent(b) && InGrid(b.grid, q) && IsUnit(At(b.grid, q), f)
    ensures Consistent(r) && |r.grid| == |b.grid| && Width(r.grid) == Width(b.grid)
  {
    match AttackTarget(b, q, f)
    case None => b
    case Some(t) => Strike(b, t, Enemy(f), power)
  }

  /// The unit of `e` at `t` loses `power` hit points and, when they drop to
  /// 0 or below, is removed from the map and closeness recomputed.
  function Strike(b: Battle, t: Pos, e: Faction, power: int): (r: Battle)
    requires Consistent(b) && InGrid(b.grid, t) && IsUnit(At(b.grid, t), e)
    ensures Consistent(r) && |r.grid| == |b.grid| && Width(r.grid) == Width(b.grid)
  {
    var id := UnitId(b.grid, t, e);
    var left := Of(b.hp, e)[id] - power;
    var hp := With(b.hp, e, Of(b.hp, e)[id := left]);
    if left > 0 then
      UpdateConsistent(b, e, id, left);
      Battle(b.grid, hp)
    else
      RemovedConsistent(b, t);
      var b1 := Battle(Removed(b.grid, t), b.hp);
      UpdateConsistent(b1, e, id, left);
      ConsistentLayout(Battle(b1.grid, hp), Closeness(b1.grid));
      Battle(Closeness(b1.grid), hp)
  }

  /// Some unit in `m` has hit points above 0 (`Any(kv => kv.Value > 0)`).
  predicate AnyAlive(m: map<int, int>)
  {
    exists id | id in m :: m[id] > 0
  }

  /// The unit at `p` moves if `CalculateMove` gives a step, and then
  /// attacks from where it stands.
  function Act(b: Battle, p: Pos, elfAttackPower: int): (r: Battle)
    requires Consistent(b) && InGrid(b.grid, p) && IsAnyUnit(At(b.grid, p))
    ensures Consistent(r) && |r.grid| == |b.grid| && Width(r.grid) == Width(b.grid)
  {
    var f := UnitFaction(At(b.grid, p));
    match Destination(b.grid, p)
    case Some(q) => Attack(Moved(b, p, q), q, f, Power(f, elfAttackPower))
    case None => Attack(b, p, f, Power(f, elfAttackPower))
  }

  /// The turn of whatever stands at `p`, and whether it ended the combat:
  /// nothing happens where no unit stands (it was taken out earlier in the
  /// round); a unit that finds no enemy with hit points above 0 ends the
  /// combat; otherwise the unit acts.
  function Turn(b: Battle, p: Pos, elfAttackPower: int): (r: (Battle, bool))
    requires Consistent(b) && InGrid(b.grid, p)
    ensures Consistent(r.0) && |r.0.grid| == |b.grid| && Width(r.0.grid) == Width(b.grid)
  {
    var c := At(b.grid, p);
    if !IsAnyUnit(c) then (b, false)
    else if !AnyAlive(Of(b.hp, Enemy(UnitFaction(c)))) then (b, true)
    else (Act(b, p, elfAttackPower), false)
  }

  /// The turns of the units listed in `ps`, in order, until one ends the
  /// combat.
  function RoundFrom(b: Battle, ps: seq<Pos>, elfAttackPower: int): (r: (Battle, bool))
    requires Consistent(b) && forall p :: p in ps ==> InGrid(b.grid, p)
    ensures Consistent(r.0) && |r.0.grid| == |b.grid| && Width(r.0.grid) == Width(b.grid)
    decreases |ps|
  {
    if ps == [] then (b, false)
    else
      var t := Turn(b, ps[0], elfAttackPower);
      if t.1 then t
      else
        assert forall p :: p in ps[1..] ==> p in ps;
        RoundFrom(t.0, ps[1..], elfAttackPower)
  }

  /// `PlayRound`: the units on the map at the start of the round take their
  /// turns in reading order.
  function Round(b: Battle, elfAttackPower: int): (r: (Battle, bool))
    requires Consistent(b)
    ensures Consistent(r.0) && |r.0.grid| == |b.grid| && Width(r.0.grid) == Width(b.grid)
  {
    UnitsMeans(b.grid);
    RoundFrom(b, Units(b.grid), elfAttackPower)
  }

  // ---------------------------------------------------------------------
  // What a turn does
  // ---------------------------------------------------------------------

  /// At `n` stands an enemy of `f` whose hit points are above 0.
  ghost predicate LivingEnemy(b: Battle, f: Faction, n: Pos)
    requires Valid(b.grid)
  {
    var e := Enemy(f);
    InGrid(b.grid, n) && IsUnit(At(b.grid, n), e) &&
    UnitId(b.grid, n, e) in Of(b.hp, e) && Of(b.hp, e)[UnitId(b.grid, n, e)] > 0
  }

  ghost function EnemyHitPoints(b: Battle, f: Faction, n: Pos): int
    requires Valid(b.grid) && LivingEnemy(b, f, n)
  {
    Of(b.hp, Enemy(f))[UnitId(b.grid, n, Enemy(f))]
  }

  /// A cell has an attack key exactly when a living enemy stands there.
  lemma TargetKeyMeans(b: Battle, f: Faction, n: Pos)
    requires Valid(b.grid) && InGrid(b.grid, n)
    ensures TargetKey(f, b.hp, At(b.grid, n), n).Some? <==> LivingEnemy(b, f, n)
    ensures LivingEnemy(b, f, n) ==>
      TargetKey(f, b.hp, At(b.grid, n), n).value == Key(EnemyHitPoints(b, f, n), n, Pos(1, 1))
  {
    assert WellFormed(At(b.grid, n));
  }

  /// The attack rule: a unit attacks exactly when a living enemy is next to
  /// it, and attacks a neighbour.
  lemma AttackChoice(b: Battle, q: Pos, f: Faction)
    requires Valid(b.grid) && InGrid(b.grid, q) && IsUnit(At(b.grid, q), f)
    ensures AttackTarget(b, q, f).None? <==> forall n :: n in Neighbours(q) ==> !LivingEnemy(b, f, n)
    ensures AttackTarget(b, q, f).Some? ==> AttackTarget(b, q, f).value in Neighbours(q)
  {
    UnitInterior(b.grid, q);
    NeighbourTargetKeys(b, q, f);
  }

  /// ... and then the adjacent living enemy with the fewest hit points, the
  /// first in reading order among those tied.
  lemma AttackChoiceBest(b: Battle, q: Pos, f: Faction)
    requires Valid(b.grid) && InGrid(b.grid, q) && IsUnit(At(b.grid, q), f)
    ensures AttackTarget(b, q, f).Some? ==>
      var t := AttackTarget(b, q, f).value;
      LivingEnemy(b, f, t) &&
      forall n :: n in Neighbours(q) && LivingEnemy(b, f, n) ==>
        EnemyHitPoints(b, f, t) < EnemyHitPoints(b, f, n) ||
        (EnemyHitPoints(b, f, t) == EnemyHitPoints(b, f, n) && (t == n || ReadsBefore(t, n)))
  {
    var g, key := b.grid, TargetKeyOf(f, b.hp);
    UnitInterior(g, q);
    NeighbourTargetKeys(b, q, f);
    var best := FindBestIndex(g, q, key);
    if best.Some? {
      var t := Neighbours(q)[best.value];
      forall n | n in Neighbours(q) && LivingEnemy(b, f, n)
        ensures EnemyHitPoints(b, f, t) < EnemyHitPoints(b, f, n) ||
          (EnemyHitPoints(b, f, t) == EnemyHitPoints(b, f, n) && (t == n || ReadsBefore(t, n)))
      {
        var j :| 0 <= j < 4 && Neighbours(q)[j] == n;
        assert !KeyLess(NeighbourKey(g, q, key, j).value, NeighbourKey(g, q, key, best.value).value);
        NotBefore(EnemyHitPoints(b, f, n), n, EnemyHitPoints(b, f, t), t);
      }
    }
  }

  /// Attack keys order by hit points, then by reading order.
  lemma NotBefore(hn: int, n: Pos, ht: int, t: Pos)
    requires !KeyLess(Key(hn, n, Pos(1, 1)), Key(ht, t, Pos(1, 1)))
    ensures ht < hn || (ht == hn && (t == n || ReadsBefore(t, n)))
  {
  }

  /// The attack keys of the four neighbours of `q`.
  lemma NeighbourTargetKeys(b: Battle, q: Pos, f: Faction)
    requires Valid(b.grid) && Interior(b.grid, q)
    ensures forall n :: n in Neighbours(q) ==> InGrid(b.grid, n) && exists i :: 0 <= i < 4 && Neighbours(q)[i] == n
    ensures forall i :: 0 <= i < 4 ==>
      InGrid(b.grid, Neighbours(q)[i]) &&
      (NeighbourKey(b.grid, q, TargetKeyOf(f, b.hp), i).Some? <==> LivingEnemy(b, f, Neighbours(q)[i])) &&
      (LivingEnemy(b, f, Neighbours(q)[i]) ==>
        NeighbourKey(b.grid, q, TargetKeyOf(f, b.hp), i).value ==
        Key(EnemyHitPoints(b, f, Neighbours(q)[i]), Neighbours(q)[i], Pos(1, 1)))
  {
    NeighboursInGrid(b.grid, q);
    forall i | 0 <= i < 4 ensures
      (NeighbourKey(b.grid, q, TargetKeyOf(f, b.hp), i).Some? <==> LivingEnemy(b, f, Neighbours(q)[i])) &&
      (LivingEnemy(b, f, Neighbours(q)[i]) ==>
        NeighbourKey(b.grid, q, TargetKeyOf(f, b.hp), i).value ==
        Key(EnemyHitPoints(b, f, Neighbours(q)[i]), Neighbours(q)[i], Pos(1, 1)))
    {
      TargetKeyMeans(b, f, Neighbours(q)[i]);
    }
    forall n | n in Neighbours(q) ensures exists i :: 0 <= i < 4 && Neighbours(q)[i] == n { }
  }

  /// `after` differs from `before` in at most one entry of faction `e`: one
  /// whose hit points were above 0 and drop by `power`.
  ghost predicate OneHit(before: HitPoints, after: HitPoints, e: Faction, power: int)
  {
    Of(after, Enemy(e)) == Of(before, Enemy(e)) &&
    (Of(after, e) == Of(before, e) ||
     exists id :: id in Of(before, e) && Of(before, e)[id] > 0 &&
       Of(after, e) == Of(before, e)[id := Of(before, e)[id] - power])
  }

  /// A strike takes `power` hit points from its target and nothing from
  /// anyone else, and the target leaves the map exactly when its hit points
  /// drop to 0 or below.
  lemma StrikeMeans(b: Battle, t: Pos, e: Faction, power: int)
    requires Consistent(b) && InGrid(b.grid, t) && IsUnit(At(b.grid, t), e)
    ensures var r, id := Strike(b, t, e, power), UnitId(b.grid, t, e);
      Of(r.hp, Enemy(e)) == Of(b.hp, Enemy(e)) &&
      Of(r.hp, e) == Of(b.hp, e)[id := Of(b.hp, e)[id] - power] &&
      (OnMap(r.grid, e, id) <==> Of(b.hp, e)[id] - power > 0)
    ensures OneHit(b.hp, Strike(b, t, e, power).hp, e, power)
  {
    var r, id := Strike(b, t, e, power), UnitId(b.grid, t, e);
    assert Tracked(b.grid, Of(b.hp, e), e);
    if Of(b.hp, e)[id] - power > 0 {
      assert r.grid == b.grid && IsUnit(At(r.grid, t), e) && UnitId(r.grid, t, e) == id;
    } else {
      RemovedConsistent(b, t);
      var g1 := Removed(b.grid, t);
      LayoutOnMap(g1, Closeness(g1));
    }
  }

  /// Grids with the same layout hold the same units.
  lemma LayoutOnMap(g: Grid, h: Grid)
    requires Valid(g) && Valid(h) && SameLayout(g, h)
    ensures forall f, id :: OnMap(h, f, id) <==> OnMap(g, f, id)
  {
    forall f, id ensures OnMap(h, f, id) <==> OnMap(g, f, id) {
      if OnMap(h, f, id) {
        var p :| InGrid(h, p) && IsUnit(At(h, p), f) && UnitId(h, p, f) == id;
        assert InGrid(g, p);
      }
      if OnMap(g, f, id) {
        var p :| InGrid(g, p) && IsUnit(At(g, p), f) && UnitId(g, p, f) == id;
        assert InGrid(h, p);
      }
    }
  }

  /// Removing the unit at `p` takes exactly its id off the map.
  lemma RemovedOnMap(g: Grid, p: Pos)
    requires Valid(g) && InGrid(g, p) && !At(g, p).isWall && forall f :: UniqueIds(g, f)
    ensures UnitsHaveIds(g) && Valid(Removed(g, p))
    ensures forall f, id :: OnMap(Removed(g, p), f, id) <==>
      OnMap(g, f, id) && !(IsUnit(At(g, p), f) && id == UnitId(g, p, f))
  {
    ValidHasIds(g);
    RemovedMeans(g, p);
    var r := Removed(g, p);
    forall f, id ensures OnMap(r, f, id) <==> OnMap(g, f, id) && !(IsUnit(At(g, p), f) && id == UnitId(g, p, f)) {
      if OnMap(r, f, id) {
        var u :| InGrid(r, u) && IsUnit(At(r, u), f) && UnitId(r, u, f) == id;
        assert InGrid(g, u) && u != p && IsUnit(At(g, u), f) && UnitId(g, u, f) == id;
        assert UniqueIds(g, f);
      }
      if OnMap(g, f, id) && !(IsUnit(At(g, p), f) && id == UnitId(g, p, f)) {
        var u :| InGrid(g, u) && IsUnit(At(g, u), f) && UnitId(g, u, f) == id;
        assert u != p && InGrid(r, u);
      }
    }
  }

  /// Writing a unit into an open cell puts exactly its id on the map.
  lemma PlaceOnMap(g: Grid, q: Pos, f: Faction, id: int)
    requires Valid(g) && InGrid(g, q) && Open(At(g, q)) && Valid(Place(g, q, UnitCell(f, id)))
    ensures forall e, i :: OnMap(Place(g, q, UnitCell(f, id)), e, i) <==> OnMap(g, e, i) || (e == f && i == id)
  {
    var r := Place(g, q, UnitCell(f, id));
    forall e, i ensures OnMap(r, e, i) <==> OnMap(g, e, i) || (e == f && i == id) {
      if OnMap(r, e, i) {
        var u :| InGrid(r, u) && IsUnit(At(r, u), e) && UnitId(r, u, e) == i;
        assert InGrid(g, u);
      }
      if OnMap(g, e, i) {
        var u :| InGrid(g, u) && IsUnit(At(g, u), e) && UnitId(g, u, e) == i;
        assert u != q && InGrid(r, u);
      }
      if e == f && i == id {
        assert InGrid(r, q) && IsUnit(At(r, q), e) && UnitId(r, q, e) == i;
      }
    }
  }

  /// A move keeps the same units on the map.
  lemma MovedOnMap(b: Battle, p: Pos, q: Pos)
    requires Consistent(b) && InGrid(b.grid, p) && IsAnyUnit(At(b.grid, p))
    requires InGrid(b.grid, q) && Open(At(b.grid, q))
    ensures forall f, id :: OnMap(Moved(b, p, q).grid, f, id) <==> OnMap(b.grid, f, id)
  {
    var f := UnitFaction(At(b.grid, p));
    var id := UnitId(b.grid, p, f);
    RemovedOnMap(b.grid, p);
    var g1 := Removed(b.grid, p);
    RemovedMeans(b.grid, p);
    assert Open(At(g1, q));
    PlaceValid(g1, q, UnitCell(f, id));
    var g2 := Place(g1, q, UnitCell(f, id));
    PlaceOnMap(g1, q, f, id);
    LayoutOnMap(g2, Closeness(g2));
    assert Moved(b, p, q).grid == Closeness(g2);
    forall e, i ensures OnMap(Closeness(g2), e, i) <==> OnMap(b.grid, e, i) {
      if e == f && i == id {
        assert InGrid(b.grid, p) && IsUnit(At(b.grid, p), e) && UnitId(b.grid, p, e) == i;
      }
    }
  }

  /// Units only ever leave the map: every id on the map after a turn was on
  /// it before.
  lemma TurnOnMap(b: Battle, p: Pos, elfAttackPower: int)
    requires Consistent(b) && InGrid(b.grid, p)
    ensures forall f, id :: OnMap(Turn(b, p, elfAttackPower).0.grid, f, id) ==> OnMap(b.grid, f, id)
  {
    var c := At(b.grid, p);
    if IsAnyUnit(c) && AnyAlive(Of(b.hp, Enemy(UnitFaction(c)))) {
      ActOnMap(b, p, elfAttackPower);
    }
  }

  lemma ActOnMap(b: Battle, p: Pos, elfAttackPower: int)
    requires Consistent(b) && InGrid(b.grid, p) && IsAnyUnit(At(b.grid, p))
    ensures forall f, id :: OnMap(Act(b, p, elfAttackPower).grid, f, id) ==> OnMap(b.grid, f, id)
  {
    var f := UnitFaction(At(b.grid, p));
    match Destination(b.grid, p)
    case Some(q) =>
      MovedOnMap(b, p, q);
      AttackOnMap(Moved(b, p, q), q, f, Power(f, elfAttackPower));
    case None =>
      AttackOnMap(b, p, f, Power(f, elfAttackPower));
  }

  /// An attack takes at most its target off the map.
  lemma AttackOnMap(b: Battle, q: Pos, f: Faction, power: int)
    requires Consistent(b) && InGrid(b.grid, q) && IsUnit(At(b.grid, q), f)
    ensures forall e, id :: OnMap(Attack(b, q, f, power).grid, e, id) ==> OnMap(b.grid, e, id)
  {
    match AttackTarget(b, q, f)
    case None =>
    case Some(t) =>
      var e := Enemy(f);
      var id := UnitId(b.grid, t, e);
      if Of(b.hp, e)[id] - power <= 0 {
        RemovedOnMap(b.grid, t);
        var g1 := Removed(b.grid, t);
        LayoutOnMap(g1, Closeness(g1));
      }
  }

  /// A turn changes hit points only by its attack: nothing changes where
  /// no unit stands or when the turn ends the combat, and otherwise one
  /// living enemy loses the unit's attack power.
  lemma TurnHitPoints(b: Battle, p: Pos, elfAttackPower: int)
    requires Consistent(b) && InGrid(b.grid, p)
    ensures var r, c := Turn(b, p, elfAttackPower), At(b.grid, p);
      (!IsAnyUnit(c) || r.1 ==> r.0 == b) &&
      (IsAnyUnit(c) && !r.1 ==>
        OneHit(b.hp, r.0.hp, Enemy(UnitFaction(c)), Power(UnitFaction(c), elfAttackPower)))
  {
    var c := At(b.grid, p);
    if IsAnyUnit(c) && AnyAlive(Of(b.hp, Enemy(UnitFaction(c)))) {
      var f := UnitFaction(c);
      match Destination(b.grid, p)
      case Some(q) => AttackHitPoints(Moved(b, p, q), q, f, Power(f, elfAttackPower));
      case None => AttackHitPoints(b, p, f, Power(f, elfAttackPower));
    }
  }

  /// An attack is one strike, or nothing.
  lemma AttackHitPoints(b: Battle, q: Pos, f: Faction, power: int)
    requires Consistent(b) && InGrid(b.grid, q) && IsUnit(At(b.grid, q), f)
    ensures OneHit(b.hp, Attack(b, q, f, power).hp, Enemy(f), power)
  {
    if AttackTarget(b, q, f).Some? {
      StrikeMeans(b, AttackTarget(b, q, f).value, Enemy(f), power);
    }
  }

  /// The same units keep entries, and no entry grows.
  ghost predicate NoGain(before: HitPoints, after: HitPoints)
  {
    forall f ::
      Of(after, f).Keys == Of(before, f).Keys &&
      forall id :: id in Of(after, f) ==> Of(after, f)[id] <= Of(before, f)[id]
  }

  lemma OneHitNoGain(before: HitPoints, after: HitPoints, e: Faction, power: int)
    requires OneHit(before, after, e, power) && power >= 0
    ensures NoGain(before, after)
  {
    if Of(after, e) != Of(before, e) {
      var id :| id in Of(before, e) && Of(before, e)[id] > 0 &&
        Of(after, e) == Of(before, e)[id := Of(before, e)[id] - power];
    }
  }

  lemma NoGainTransitive(a: HitPoints, b: HitPoints, c: HitPoints)
    requires NoGain(a, b) && NoGain(b, c)
    ensures NoGain(a, c)
  {
    forall f ensures Of(c, f).Keys == Of(a, f).Keys &&
      forall id :: id in Of(c, f) ==> Of(c, f)[id] <= Of(a, f)[id]
    {
      assert Of(b, f).Keys == Of(a, f).Keys && Of(c, f).Keys == Of(b, f).Keys;
    }
  }

  /// Over a round no unit gains hit points, and no entry appears or goes
  /// away, when the elves' attack power is not negative.
  lemma {:induction false} RoundHitPoints(b: Battle, ps: seq<Pos>, elfAttackPower: int)
    requires Consistent(b) && (forall p :: p in ps ==> InGrid(b.grid, p)) && elfAttackPower >= 0
    ensures NoGain(b.hp, RoundFrom(b, ps, elfAttackPower).0.hp)
    decreases |ps|
  {
    if ps == [] {
      NoGainRefl(b.hp);
    } else {
      var t := Turn(b, ps[0], elfAttackPower);
      TurnHitPoints(b, ps[0], elfAttackPower);
      if !IsAnyUnit(At(b.grid, ps[0])) || t.1 {
        NoGainRefl(b.hp);
      } else {
        var f := UnitFaction(At(b.grid, ps[0]));
        OneHitNoGain(b.hp, t.0.hp, Enemy(f), Power(f, elfAttackPower));
      }
      if !t.1 {
        assert forall p :: p in ps[1..] ==> p in ps;
        RoundHitPoints(t.0, ps[1..], elfAttackPower);
        NoGainTransitive(b.hp, t.0.hp, RoundFrom(t.0, ps[1..], elfAttackPower).0.hp);
      }
    }
  }

  lemma NoGainRefl(hp: HitPoints)
    ensures NoGain(hp, hp)
  {
  }

  /// No unit joins the map during a round.
  lemma {:induction false} RoundOnMap(b: Battle, ps: seq<Pos>, elfAttackPower: int)
    requires Consistent(b) && forall p :: p in ps ==> InGrid(b.grid, p)
    ensures forall f, id :: OnMap(RoundFrom(b, ps, elfAttackPower).0.grid, f, id) ==> OnMap(b.grid, f, id)
    decreases |ps|
  {
    if ps != [] {
      var t := Turn(b, ps[0], elfAttackPower);
      TurnOnMap(b, ps[0], elfAttackPower);
      if !t.1 {
        assert forall p :: p in ps[1..] ==> p in ps;
        RoundOnMap(t.0, ps[1..], elfAttackPower);
      }
    }
  }

  /// A round that ends the combat leaves one faction without a unit whose
  /// hit points are above 0.
  lemma {:induction false} RoundEnds(b: Battle, ps: seq<Pos>, elfAttackPower: int)
    requires Consistent(b) && forall p :: p in ps ==> InGrid(b.grid, p)
    ensures RoundFrom(b, ps, elfAttackPower).1 ==>
      !AnyAlive(Of(RoundFrom(b, ps, elfAttackPower).0.hp, Elves)) ||
      !AnyAlive(Of(RoundFrom(b, ps, elfAttackPower).0.hp, Goblins))
    decreases |ps|
  {
    if ps != [] {
      var t := Turn(b, ps[0], elfAttackPower);
      if t.1 {
        var c := At(b.grid, ps[0]);
        assert t.0 == b && !AnyAlive(Of(b.hp, Enemy(UnitFaction(c))));
      } else {
        assert forall p :: p in ps[1..] ==> p in ps;
        RoundEnds(t.0, ps[1..], elfAttackPower);
      }
    }
  }

  // ---------------------------------------------------------------------
  // Starting a battle
  // ---------------------------------------------------------------------

  /// `Start` on a valid map: registering succeeds exactly when no two units
  /// of a faction share an id, and then every unit on the map, and nothing
  /// else, has 200 hit points, so the battle starts consistent.
  lemma StartConsistent(g: Grid)
    requires Valid(g)
    ensures RegisterAll(g, AllPositions(g)).Success? <==> UniqueIds(g, Elves) && UniqueIds(g, Goblins)
    ensures RegisterAll(g, AllPositions(g)).Success? ==>
      var hp := RegisterAll(g, AllPositions(g)).value;
      Consistent(Battle(g, hp)) &&
      forall f, id :: (id in Of(hp, f) <==> OnMap(g, f, id)) && (id in Of(hp, f) ==> Of(hp, f)[id] == StartingHitPoints)
  {
    ValidHasIds(g);
    RegisterAllMeans(g, AllPositions(g));
    DistinctUnique(g, Elves);
    DistinctUnique(g, Goblins);
    IdsAtOnMap(g, Elves);
    IdsAtOnMap(g, Goblins);
    if RegisterAll(g, AllPositions(g)).Success? {
      var hp := RegisterAll(g, AllPositions(g)).value;
      forall f ensures Tracked(g, Of(hp, f), f) && UniqueIds(g, f) {
        forall p | InGrid(g, p) && IsUnit(At(g, p), f) ensures UnitId(g, p, f) in Of(hp, f) {
          assert OnMap(g, f, UnitId(g, p, f));
        }
      }
    }
  }

  /// Over the whole grid, distinct ids in reading order means no two units
  /// of `f` share an id.
  lemma DistinctUnique(g: Grid, f: Faction)
    requires Valid(g)
    ensures DistinctIds(g, AllPositions(g), f) <==> UniqueIds(g, f)
  {
    if DistinctIds(g, AllPositions(g), f) {
      DistinctToUnique(g, f);
    }
    if UniqueIds(g, f) {
      UniqueToDistinct(g, f);
    }
  }

  lemma DistinctToUnique(g: Grid, f: Faction)
    requires Valid(g) && DistinctIds(g, AllPositions(g), f)
    ensures UniqueIds(g, f)
  {
    var ps := AllPositions(g);
    forall p, q | InGrid(g, p) && InGrid(g, q) && IsUnit(At(g, p), f) && IsUnit(At(g, q), f) &&
      UnitId(g, p, f) == UnitId(g, q, f)
      ensures p == q
    {
      var i :| 0 <= i < |ps| && ps[i] == p;
      var j :| 0 <= j < |ps| && ps[j] == q;
      assert WellFormed(At(g, p)) && WellFormed(At(g, q));
      assert At(g, ps[i]) == At(g, p) && At(g, ps[j]) == At(g, q);
      assert i == j;
    }
  }

  lemma UniqueToDistinct(g: Grid, f: Faction)
    requires Valid(g) && UniqueIds(g, f)
    ensures DistinctIds(g, AllPositions(g), f)
  {
    var ps := AllPositions(g);
    ReadingOrderMeans(|g|, Width(g));
    forall i, j | 0 <= i < j < |ps| && IsUnit(At(g, ps[i]), f) && IsUnit(At(g, ps[j]), f)
      ensures Id(At(g, ps[i]), f) != Id(At(g, ps[j]), f)
    {
      assert ps[i] in ps && ps[j] in ps;
      assert ReadsBefore(ps[i], ps[j]);
      assert WellFormed(At(g, ps[i])) && WellFormed(At(g, ps[j]));
    }
  }

  /// The ids `Start` registers for `f` are those of the units of `f` on the
  /// map.
  lemma IdsAtOnMap(g: Grid, f: Faction)
    requires Valid(g)
    ensures forall id :: id in IdsAt(g, AllPositions(g), f) <==> OnMap(g, f, id)
  {
    forall id ensures id in IdsAt(g, AllPositions(g), f) <==> OnMap(g, f, id) {
      if OnMap(g, f, id) {
        var p :| InGrid(g, p) && IsUnit(At(g, p), f) && UnitId(g, p, f) == id;
        assert p in AllPositions(g);
        assert WellFormed(At(g, p));
      }
    }
  }
}
