/// The two answers of Day 15 (Day15/Program.cs): play rounds until one
/// ends the combat and score the outcome; then find the lowest elf attack
/// power, from 4 up, with which no elf dies.
module Day15Program {
  import opened Wrappers
  import opened Day15GridCell
  import opened Day15GridOperations
  import opened Day15ParseGrid
  import opened Day15Battle
  import opened Day15GameState

  // ---------------------------------------------------------------------
  // Hit points left
  // ---------------------------------------------------------------------

  /// The sum of the values above 0 in `m` (`Select(kv => kv.Value)
  /// .Where(p => p > 0).Sum()`); the order the dictionary is enumerated in
  /// does not matter.
  ghost function SumPositive(m: map<int, int>): int
    decreases |m|
  {
    if m == map[] then 0
    else
      SomeEntry(m);
      var k :| k in m;
      assert |m - {k}| == |m| - 1;
      (if m[k] > 0 then m[k] else 0) + SumPositive(m - {k})
  }

  lemma SomeEntry(m: map<int, int>)
    requires m != map[]
    ensures exists k :: k in m
  {
    if forall k :: k !in m {
      assert false;
    }
  }

  /// Any entry may be taken first.
  lemma {:induction false} SumPositiveRemove(m: map<int, int>, k: int)
    requires k in m
    ensures SumPositive(m) == (if m[k] > 0 then m[k] else 0) + SumPositive(m - {k})
    decreases |m|
  {
    var j :| j in m && SumPositive(m) == (if m[j] > 0 then m[j] else 0) + SumPositive(m - {j});
    if j != k {
      assert |m - {j}| == |m| - 1;
      SumPositiveRemove(m - {j}, k);
      SumPositiveRemove(m - {k}, j);
      assert m - {j} - {k} == m - {k} - {j};
    }
  }

  /// The sum is never negative, and it is 0 exactly when no value is above
  /// 0.
  lemma {:induction false} SumPositiveZero(m: map<int, int>)
    ensures SumPositive(m) >= 0
    ensures SumPositive(m) == 0 <==> !AnyAlive(m)
    decreases |m|
  {
    if m != map[] {
      SomeEntry(m);
      var k :| k in m;
      SumPositiveRemove(m, k);
      assert |m - {k}| == |m| - 1;
      SumPositiveZero(m - {k});
      if AnyAlive(m - {k}) {
        var id :| id in m - {k} && (m - {k})[id] > 0;
        assert id in m && m[id] > 0;
      }
      if AnyAlive(m) && m[k] <= 0 {
        var id :| id in m && m[id] > 0;
        assert id in m - {k};
      }
    }
  }

  /// Sums the values above 0 in `m`, taking the keys in any order.
  method SumOfPositive(m: map<int, int>) returns (sum: int)
    ensures sum == SumPositive(m)
  {
    sum := 0;
    var rest := m;
    while rest != map[]
      invariant sum + SumPositive(rest) == SumPositive(m)
      decreases |rest|
    {
      SomeEntry(rest);
      var k :| k in rest;
      SumPositiveRemove(rest, k);
      if rest[k] > 0 {
        sum := sum + rest[k];
      }
      rest := rest - {k};
    }
  }

  /// `All(kv => kv.Value > 0)`.
  predicate AllAlive(m: map<int, int>)
  {
    forall id | id in m :: m[id] > 0
  }

  // ---------------------------------------------------------------------
  // Part 1
  // ---------------------------------------------------------------------

  /// The score (hit points left on the winning side times the number of
  /// full rounds) and whether every elf survived.
  datatype Outcome = Outcome(score: int, totalElfVictory: bool)

  /// The goblins won when some goblin has hit points above 0; the winning
  /// side's hit points above 0 are summed and multiplied by the rounds
  /// before the one in which the combat ended.
  ghost function OutcomeOf(b: Battle, rounds: int): Outcome
  {
    var goblinsWon := AnyAlive(b.hp.goblins);
    var left := SumPositive(if goblinsWon then b.hp.goblins else b.hp.elves);
    Outcome(left * (rounds - 1), AllAlive(b.hp.elves))
  }

  /// Rounds played from `b` with `rounds` already counted: the battle and
  /// the round count when a round ends the combat, or `None` when `fuel`
  /// rounds pass without that.
  function Fight(b: Battle, elfAttackPower: int, rounds: nat, fuel: nat): (r: Option<(Battle, nat)>)
    requires Consistent(b)
    ensures r.Some? ==> Consistent(r.value.0) && r.value.1 > rounds
    decreases fuel
  {
    if fuel == 0 then None
    else
      var t := Round(b, elfAttackPower);
      if t.1 then Some((t.0, rounds + 1))
      else Fight(t.0, elfAttackPower, rounds + 1, fuel - 1)
  }

  /// When the fight is over, one side has no unit with hit points above 0.
  lemma {:induction false} FightEnds(b: Battle, elfAttackPower: int, rounds: nat, fuel: nat)
    requires Consistent(b)
    ensures var r := Fight(b, elfAttackPower, rounds, fuel);
      r.Some? ==> !AnyAlive(r.value.0.hp.elves) || !AnyAlive(r.value.0.hp.goblins)
    decreases fuel
  {
    if fuel > 0 {
      UnitsMeans(b.grid);
      RoundEnds(b, Units(b.grid), elfAttackPower);
      var t := Round(b, elfAttackPower);
      if !t.1 {
        FightEnds(t.0, elfAttackPower, rounds + 1, fuel - 1);
      }
    }
  }

  /// The outcome of the fight from `b`, or `None` when `fuel` rounds pass
  /// without the combat ending.
  ghost function Fought(b: Battle, elfAttackPower: int, fuel: nat): Option<Outcome>
    requires Consistent(b)
  {
    match Fight(b, elfAttackPower, 0, fuel)
    case None => None
    case Some(end) => Some(OutcomeOf(end.0, end.1))
  }

  /// Scoring a battle in which one side has no unit with hit points above
  /// 0, after at least one round: the score is at least 0, and a total elf
  /// victory leaves no goblin with hit points above 0 (unless there were no
  /// elves at all).
  lemma OutcomeMeans(e: Battle, rounds: int)
    requires !AnyAlive(e.hp.elves) || !AnyAlive(e.hp.goblins)
    requires rounds >= 1
    ensures OutcomeOf(e, rounds).score >= 0
    ensures OutcomeOf(e, rounds).totalElfVictory ==> !AnyAlive(e.hp.goblins) || e.hp.elves == map[]
  {
    SumPositiveZero(if AnyAlive(e.hp.goblins) then e.hp.goblins else e.hp.elves);
    if e.hp.elves != map[] {
      SomeEntry(e.hp.elves);
      var id :| id in e.hp.elves;
      assert AllAlive(e.hp.elves) ==> e.hp.elves[id] > 0;
    }
  }

  /// A finished fight scores at least 0, and a total elf victory leaves no
  /// goblin with hit points above 0 (unless there were no elves at all).
  lemma FoughtOutcome(b: Battle, elfAttackPower: int, fuel: nat)
    requires Consistent(b)
    ensures var r := Fight(b, elfAttackPower, 0, fuel);
      r.Some? ==>
        var o := OutcomeOf(r.value.0, r.value.1);
        o.score >= 0 && (o.totalElfVictory ==> !AnyAlive(r.value.0.hp.goblins) || r.value.0.hp.elves == map[])
  {
    FightEnds(b, elfAttackPower, 0, fuel);
    var r := Fight(b, elfAttackPower, 0, fuel);
    if r.Some? {
      OutcomeMeans(r.value.0, r.value.1);
    }
  }

  /// `GameState.Start(ParseGrid(map))` as a battle: the parsed map with its
  /// closeness data and its units registered.
  ghost function Started(lines: seq<string>): (r: Result<Battle>)
    requires Parse(lines).Success? ==> Valid(Parse(lines).value)
    ensures r.Success? ==> Consistent(r.value)
  {
    var g :- Parse(lines);
    var c := Closeness(g);
    var hp :- RegisterAll(c, AllPositions(c));
    StartConsistent(c);
    Success(Battle(c, hp))
  }

  /// `SolvePart1(map, elfAttackPower)` on the map's lines: parse, start,
  /// play rounds until one ends the combat (at most `fuel` of them), score.
  ghost function Part1(lines: seq<string>, elfAttackPower: int, fuel: nat): Result<Option<Outcome>>
    requires Parse(lines).Success? ==> Valid(Parse(lines).value)
  {
    var b :- Started(lines);
    Success(Fought(b, elfAttackPower, fuel))
  }

  /// The rounds of `SolvePart1`'s loop: `PlayRound` until a round ends the
  /// combat, counting the rounds, at most `fuel` of them.
  method PlayToEnd(s: GameState, fuel: nat) returns (last: GameState, rounds: nat, combatEnds: bool)
    requires Consistent(BattleOf(s))
    modifies s.gridPair.primary
    ensures last.gridPair == s.gridPair && last.elfAttackPower == s.elfAttackPower
    ensures Consistent(BattleOf(last))
    ensures combatEnds ==> Fight(old(BattleOf(s)), s.elfAttackPower, 0, fuel) == Some((BattleOf(last), rounds))
    ensures !combatEnds ==> Fight(old(BattleOf(s)), s.elfAttackPower, 0, fuel).None?
  {
    ghost var b0 := BattleOf(s);
    last := s;
    rounds := 0;
    combatEnds := false;
    while !combatEnds && rounds < fuel
      invariant last.gridPair == s.gridPair && last.elfAttackPower == s.elfAttackPower
      invariant Consistent(BattleOf(last)) && rounds <= fuel
      invariant Fight(b0, s.elfAttackPower, 0, fuel) ==
        if combatEnds then Some((BattleOf(last), rounds))
        else Fight(BattleOf(last), s.elfAttackPower, rounds, fuel - rounds)
      decreases fuel - rounds, !combatEnds
    {
      rounds := rounds + 1;
      last, combatEnds := PlayRound(last);
    }
  }

  /// The score of `SolvePart1` for the state the last round left.
  method Score(s: GameState, rounds: nat) returns (o: Outcome)
    ensures o == OutcomeOf(BattleOf(s), rounds)
  {
    var goblinsWon := AnyAlive(s.goblinHitPoints);
    var left := SumOfPositive(if goblinsWon then s.goblinHitPoints else s.elfHitPoints);
    o := Outcome(left * (rounds - 1), AllAlive(s.elfHitPoints));
  }

  /// `SolvePart1`: `None` when `fuel` rounds pass without the combat
  /// ending.
  method SolvePart1(lines: seq<string>, elfAttackPower: int, fuel: nat) returns (r: Result<Option<Outcome>>)
    requires Parse(lines).Success? ==> Valid(Parse(lines).value)
    ensures r == Part1(lines, elfAttackPower, fuel)
  {
    var grid :- ParseGrid(lines);
    var g :- Start(grid, elfAttackPower);
    assert Started(lines) == Success(BattleOf(g));
    var last, rounds, combatEnds := PlayToEnd(g, fuel);
    if !combatEnds {
      return Success(None);
    }
    var o := Score(last, rounds);
    r := Success(Some(o));
  }

  // ---------------------------------------------------------------------
  // Part 2
  // ---------------------------------------------------------------------

  /// `SolvePart1` fails exactly when starting the battle does, and
  /// otherwise plays the started battle.
  lemma Part1Started(lines: seq<string>, power: int, fuel: nat)
    requires Parse(lines).Success? ==> Valid(Parse(lines).value)
    ensures Started(lines).Failure? ==> Part1(lines, power, fuel) == Failure(Started(lines).error)
    ensures Started(lines).Success? ==> Part1(lines, power, fuel) == Success(Fought(Started(lines).value, power, fuel))
  {
  }

  /// The same search on the battle `b` the map starts with.
  ghost function SearchFrom(b: Battle, power: int, tries: nat, fuel: nat): Option<(int, int)>
    requires Consistent(b)
    decreases tries
  {
    if tries == 0 then None
    else
      match Fought(b, power, fuel)
      case None => None
      case Some(o) =>
        if o.totalElfVictory then Some((power, o.score))
        else SearchFrom(b, power + 1, tries - 1, fuel)
  }

  /// `SolvePart2(map)`, trying at most `tries` powers from 4 on.
  ghost function Part2(lines: seq<string>, tries: nat, fuel: nat): Result<Option<(int, int)>>
    requires Parse(lines).Success? ==> Valid(Parse(lines).value)
  {
    if tries == 0 then Success(None)
    else
      var b :- Started(lines);
      Success(SearchFrom(b, 4, tries, fuel))
  }

  /// The power found is the lowest from `power` on: every lower power was
  /// played to the end and lost an elf.
  lemma {:induction false} SearchFromLowest(b: Battle, power: int, tries: nat, fuel: nat)
    requires Consistent(b)
    ensures var r := SearchFrom(b, power, tries, fuel);
      r.Some? ==>
        var (p, score) := r.value;
        power <= p < power + tries &&
        Fought(b, p, fuel) == Some(Outcome(score, true)) &&
        forall q :: power <= q < p ==> Fought(b, q, fuel).Some? && !Fought(b, q, fuel).value.totalElfVictory
    decreases tries
  {
    if tries > 0 {
      var outcome := Fought(b, power, fuel);
      if outcome.Some? && !outcome.value.totalElfVictory {
        SearchFromLowest(b, power + 1, tries - 1, fuel);
      }
    }
  }

  /// `SolvePart2` fails exactly when starting the battle does, and
  /// otherwise searches on the started battle.
  lemma Part2Started(lines: seq<string>, tries: nat, fuel: nat)
    requires Parse(lines).Success? ==> Valid(Parse(lines).value)
    requires tries > 0
    ensures Started(lines).Failure? ==> Part2(lines, tries, fuel) == Failure(Started(lines).error)
    ensures Started(lines).Success? ==> Part2(lines, tries, fuel) == Success(SearchFrom(Started(lines).value, 4, tries, fuel))
  {
  }

  /// A power played to the end without a total elf victory passes the
  /// search on to the next power.
  lemma SearchFromNext(b: Battle, power: int, tries: nat, fuel: nat)
    requires Consistent(b) && tries > 0
    requires Fought(b, power, fuel).Some? && !Fought(b, power, fuel).value.totalElfVictory
    ensures SearchFrom(b, power, tries, fuel) == SearchFrom(b, power + 1, tries - 1, fuel)
  {
  }

  /// One power tried by `SolvePart2`: the battle played to the end.
  method TryPower(lines: seq<string>, power: int, fuel: nat) returns (r: Result<Option<Outcome>>)
    requires Parse(lines).Success? ==> Valid(Parse(lines).value)
    ensures Started(lines).Failure? ==> r == Failure(Started(lines).error)
    ensures Started(lines).Success? ==> r == Success(Fought(Started(lines).value, power, fuel))
  {
    Part1Started(lines, power, fuel);
    r := SolvePart1(lines, power, fuel);
  }

  /// The powers from `power` on tried in turn, at most `tries` of them.
  method SearchPowers(lines: seq<string>, power: int, tries: nat, fuel: nat) returns (r: Result<Option<(int, int)>>)
    requires Parse(lines).Success? ==> Valid(Parse(lines).value)
    requires tries > 0
    ensures Started(lines).Failure? ==> r == Failure(Started(lines).error)
    ensures Started(lines).Success? ==> r == Success(SearchFrom(Started(lines).value, power, tries, fuel))
    decreases tries
  {
    var outcome :- TryPower(lines, power, fuel);
    if outcome.Some? && !outcome.value.totalElfVictory && tries > 1 {
      SearchFromNext(Started(lines).value, power, tries, fuel);
      r := SearchPowers(lines, power + 1, tries - 1, fuel);
    } else if outcome.Some? && outcome.value.totalElfVictory {
      r := Success(Some((power, outcome.value.score)));
    } else {
      r := Success(None);
    }
  }

  /// `SolvePart2`: powers 4, 5, … tried in turn, at most `tries` of them.
  method SolvePart2(lines: seq<string>, tries: nat, fuel: nat) returns (r: Result<Option<(int, int)>>)
    requires Parse(lines).Success? ==> Valid(Parse(lines).value)
    ensures r == Part2(lines, tries, fuel)
  {
    if tries == 0 {
      return Success(None);
    }
    Part2Started(lines, tries, fuel);
    r := SearchPowers(lines, 4, tries, fuel);
  }
}
