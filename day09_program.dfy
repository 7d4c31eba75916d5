/// Day 9: the marble game driven turn by turn, and the players' scores.
module Day09Program {
  import opened Wrappers
  import opened Linq
  import opened Day09GameState

  /// `k` turns of `Next` from `g`, with the score of the last one.
  function Advance(g: GameState, k: int): (r: (GameState, Option<int>))
    requires Reachable(g)
    ensures Reachable(r.0)
    ensures k >= 0 ==> r.0.lastTurn == g.lastTurn + k
  {
    if k <= 0 then (g, None) else Next(Advance(g, k - 1).0)
  }

  /// The `k`-th element of `GenerateSteps`: the initial state with no score,
  /// then each `Next` of the state before.
  function StepAt(k: int): (r: (GameState, Option<int>))
    ensures Reachable(r.0)
    ensures k >= 0 ==> r.0.lastTurn == k
  {
    Advance(Initial(), k)
  }

  /// `GenerateSteps` starts from `Initial` and plays one turn per element.
  lemma StepAtNext(k: int)
    ensures StepAt(0) == (Initial(), None)
    ensures k > 0 ==> StepAt(k) == Next(StepAt(k - 1).0)
  {
  }

  /// Every state of the game keeps its marbles distinct.
  lemma {:induction false} AdvanceDistinct(g: GameState, k: int)
    requires Reachable(g) && DistinctMarbles(g)
    ensures DistinctMarbles(Advance(g, k).0)
    decreases k
  {
    if k > 0 {
      AdvanceDistinct(g, k - 1);
      NextDistinct(Advance(g, k - 1).0);
    }
  }

  lemma StepAtDistinct(k: int)
    ensures DistinctMarbles(StepAt(k).0)
  {
    AdvanceDistinct(Initial(), k);
  }

  /// A turn scores exactly when it is a positive multiple of 23.
  lemma StepScores(k: nat)
    ensures StepAt(k).1.Some? <==> k > 0 && k % 23 == 0
  {
  }

  /// The turn number and turn score of each of the first `n` elements of
  /// `GenerateSteps`, which is all that `Play` reads of them.
  function Turns(n: nat): (r: seq<(int, Option<int>)>)
    ensures |r| == n
    ensures forall k :: 0 <= k < n ==> r[k].0 == k
  {
    seq(n, k requires 0 <= k => (StepAt(k).0.lastTurn, StepAt(k).1))
  }

  lemma TurnsAt(n: nat, k: nat)
    requires k < n
    ensures Turns(n)[k] == (k, StepAt(k).1)
  {
  }

  /// `Play`'s aggregate step: a scoring turn credits its score to player
  /// `LastTurn % players`. With no players the remainder throws.
  function Credit(acc: seq<int>, turn: (int, Option<int>), players: nat): (r: Result<seq<int>>)
    requires |acc| == players && turn.0 >= 0
    ensures r.Failure? <==> turn.1.Some? && players == 0
    ensures r.Failure? ==> r.error == DivideByZero
    ensures r.Success? ==> |r.value| == players
    ensures r.Success? && turn.1.None? ==> r.value == acc
    ensures r.Success? && turn.1.Some? ==>
      var who := turn.0 % players;
      r.value[who] == acc[who] + turn.1.value &&
      forall i :: 0 <= i < players && i != who ==> r.value[i] == acc[i]
  {
    match turn.1
    case None => Success(acc)
    case Some(score) =>
      if players == 0 then Failure(DivideByZero)
      else
        var who := turn.0 % players;
        Success(acc[who := acc[who] + score])
  }

  /// Turns with non-negative numbers.
  ghost predicate Numbered(turns: seq<(int, Option<int>)>)
  {
    forall k :: 0 <= k < |turns| ==> turns[k].0 >= 0
  }

  /// The `Aggregate` over a list of turns, from the left.
  function ScoresOf(acc: seq<int>, turns: seq<(int, Option<int>)>, players: nat): (r: Result<seq<int>>)
    requires |acc| == players && Numbered(turns)
    ensures r.Success? ==> |r.value| == players
    decreases |turns|
  {
    if turns == [] then Success(acc)
    else
      var next :- Credit(acc, turns[0], players);
      ScoresOf(next, turns[1..], players)
  }

  /// `Play(steps, players)`: `Enumerable.Repeat` rejects a negative count,
  /// and `Take` of a negative count takes nothing.
  function Play(steps: int, players: int): Result<seq<int>>
  {
    if players < 0 then Failure(ArgumentOutOfRange)
    else Scores(if steps < 0 then 0 else steps, players)
  }

  /// Every player's score before the first turn (`new int[players]`).
  function Zeros(n: nat): (r: seq<int>)
    ensures |r| == n && forall k :: 0 <= k < n ==> r[k] == 0
  {
    seq(n, _ => 0)
  }

  function Scores(n: nat, players: nat): (r: Result<seq<int>>)
    ensures r.Success? ==> |r.value| == players
  {
    ScoresOf(Zeros(players), Turns(n), players)
  }

  /// Some turn of the list scores.
  ghost predicate AnyScores(turns: seq<(int, Option<int>)>)
  {
    exists k :: 0 <= k < |turns| && turns[k].1.Some?
  }

  /// The aggregate throws exactly when there are no players and some turn
  /// scores.
  lemma {:induction false} ScoresOfFails(acc: seq<int>, turns: seq<(int, Option<int>)>, players: nat)
    requires |acc| == players && Numbered(turns)
    ensures ScoresOf(acc, turns, players).Failure? <==> players == 0 && AnyScores(turns)
    decreases |turns|
  {
    if turns != [] {
      if Credit(acc, turns[0], players).Success? {
        ScoresOfFails(Credit(acc, turns[0], players).value, turns[1..], players);
        assert AnyScores(turns) <==> turns[0].1.Some? || AnyScores(turns[1..]) by {
          if AnyScores(turns) {
            var k :| 0 <= k < |turns| && turns[k].1.Some?;
            if k > 0 {
              assert turns[1..][k - 1] == turns[k];
            }
          }
          if AnyScores(turns[1..]) {
            var k :| 0 <= k < |turns[1..]| && turns[1..][k].1.Some?;
            assert turns[k + 1] == turns[1..][k];
          }
        }
      }
    }
  }

  /// Whether element `k` of `GenerateSteps` scores.
  lemma TurnScores(n: nat, k: nat)
    requires k < n
    ensures Turns(n)[k].1.Some? <==> k > 0 && k % 23 == 0
  {
    TurnsAt(n, k);
    StepScores(k);
  }

  /// Below 46 only 23 is a positive multiple of 23.
  lemma OnlyMultipleBelow46(k: nat)
    requires 0 < k < 46 && k != 23
    ensures k % 23 != 0
  {
  }

  /// Turn 23 scores.
  lemma ScoresBy23(n: nat)
    requires n > 23
    ensures AnyScores(Turns(n))
  {
    TurnScores(n, 23);
  }

  /// No turn before 23 scores.
  lemma ScoresOnlyFrom23(n: nat)
    requires AnyScores(Turns(n))
    ensures n > 23
  {
    var k :| 0 <= k < n && Turns(n)[k].1.Some?;
    if 0 < k < 23 {
      OnlyMultipleBelow46(k);
    }
    TurnsAt(n, k);
    StepScores(k);
  }

  /// Among the first `n` elements of `GenerateSteps` some turn scores
  /// exactly when turn 23 is among them.
  lemma TurnsScore(n: nat)
    ensures AnyScores(Turns(n)) <==> n > 23
  {
    if n > 23 {
      ScoresBy23(n);
    }
    if AnyScores(Turns(n)) {
      ScoresOnlyFrom23(n);
    }
  }

  /// `Play` fails exactly for a negative player count, or for no players
  /// once a turn has scored.
  lemma PlayFails(steps: int, players: int)
    ensures Play(steps, players).Failure? <==> players < 0 || (players == 0 && steps > 23)
  {
    if players >= 0 {
      var n := if steps < 0 then 0 else steps;
      ScoresOfFails(Zeros(players), Turns(n), players);
      TurnsScore(n);
    }
  }

  /// The total of the turn scores of a list.
  function TotalOf(turns: seq<(int, Option<int>)>): int
  {
    if turns == [] then 0
    else (match turns[0].1 case None => 0 case Some(v) => v) + TotalOf(turns[1..])
  }

  /// The players' scores gain exactly the turns' scores: every turn score
  /// is credited to exactly one player.
  lemma {:induction false} ScoresOfTotal(acc: seq<int>, turns: seq<(int, Option<int>)>, players: nat)
    requires |acc| == players && Numbered(turns) && players > 0
    ensures ScoresOf(acc, turns, players).Success?
    ensures Sum(ScoresOf(acc, turns, players).value) == Sum(acc) + TotalOf(turns)
    decreases |turns|
  {
    ScoresOfFails(acc, turns, players);
    if turns != [] {
      var next := Credit(acc, turns[0], players).value;
      ScoresOfTotal(next, turns[1..], players);
      if turns[0].1.Some? {
        var who := turns[0].0 % players;
        assert next == acc[who := acc[who] + turns[0].1.value];
        SumUpdate(acc, who, acc[who] + turns[0].1.value);
      }
    }
  }

  lemma {:induction false} ZerosSum(n: nat)
    ensures Sum(Zeros(n)) == 0
  {
    if n > 0 {
      assert Zeros(n)[1..] == Zeros(n - 1);
      ZerosSum(n - 1);
    }
  }

  /// The final scores of `Play` add up to the scores of all turns played.
  lemma PlayTotal(steps: nat, players: nat)
    requires players > 0
    ensures Play(steps, players).Success?
    ensures Sum(Play(steps, players).value) == TotalOf(Turns(steps))
  {
    ScoresOfTotal(Zeros(players), Turns(steps), players);
    ZerosSum(players);
  }

  /// `Part1`: the highest score after `steps + 1` elements, that is after
  /// turn `steps`; `Max` throws when there are no players.
  function Part1(steps: int, players: int): (r: Result<int>)
    ensures r.Success? ==> players > 0
    ensures r.Success? ==> Play(steps + 1, players).Success? && var s := Play(steps + 1, players).value;
      r.value in s && forall x :: x in s ==> x <= r.value
  {
    var s :- Play(steps + 1, players);
    match SeqMax(s)
    case None => Failure(InvalidOperation)
    case Some(m) => Success(m)
  }

  /// A list of turns with no score leaves the scores as they are.
  lemma {:induction false} ScoresOfQuiet(acc: seq<int>, turns: seq<(int, Option<int>)>, players: nat)
    requires |acc| == players && Numbered(turns)
    requires forall k :: 0 <= k < |turns| ==> turns[k].1.None?
    ensures ScoresOf(acc, turns, players) == Success(acc)
    decreases |turns|
  {
    if turns != [] {
      ScoresOfQuiet(acc, turns[1..], players);
    }
  }

  /// Splitting the list of turns splits the aggregate.
  lemma {:induction false} ScoresOfSplit(acc: seq<int>, turns: seq<(int, Option<int>)>, i: nat, players: nat)
    requires |acc| == players && Numbered(turns) && i < |turns|
    requires ScoresOf(acc, turns[..i], players).Success?
    ensures var mid := ScoresOf(acc, turns[..i], players).value;
      ScoresOf(acc, turns, players) == (
        match Credit(mid, turns[i], players)
        case Failure(e) => Failure(e)
        case Success(next) => ScoresOf(next, turns[i + 1..], players))
    decreases i
  {
    if i > 0 {
      var next := Credit(acc, turns[0], players).value;
      assert turns[..i][1..] == turns[1..][..i - 1];
      ScoresOfSplit(next, turns[1..], i - 1, players);
      assert turns[1..][i - 1] == turns[i] && turns[1..][i..] == turns[i + 1..];
    } else {
      assert turns[..0] == [];
    }
  }

  // The example game of 25 turns, one turn at a time: each ordinary turn
  // inserts the turn's marble into the circle before, and turn 23 removes
  // marble 9 from index 6.

  lemma ExampleTurn0(k: int)
    requires k == 0
    ensures StepAt(k).0 == GameState([0], 0, 0)
  {
  }

  lemma ExamplePlace1()
    ensures InsertAt([0], 1, 1) == [0, 1]
  {
  }

  lemma ExampleNext1(g: GameState)
    requires g == GameState([0], 0, 0)
    ensures Next(g) == (GameState([0, 1], 1, 1), None)
  {
    OnlyMultipleBelow46(g.lastTurn + 1);
    ModOnce(g.current + 1, |g.marbles|);
    NextPlaces(g);
    ExamplePlace1();
  }

  lemma ExampleTurn1(k: int)
    requires k == 1
    ensures StepAt(k).0 == GameState([0, 1], 1, 1)
  {
    ExampleTurn0(k - 1);
    ExampleNext1(StepAt(k - 1).0);
  }

  lemma ExamplePlace2()
    ensures InsertAt([0, 1], 1, 2) == [0, 2, 1]
  {
  }

  lemma ExampleNext2(g: GameState)
    requires g == GameState([0, 1], 1, 1)
    ensures Next(g) == (GameState([0, 2, 1], 1, 2), None)
  {
    OnlyMultipleBelow46(g.lastTurn + 1);
    ModOnce(g.current + 1, |g.marbles|);
    NextPlaces(g);
    ExamplePlace2();
  }

  lemma ExampleTurn2(k: int)
    requires k == 2
    ensures StepAt(k).0 == GameState([0, 2, 1], 1, 2)
  {
    ExampleTurn1(k - 1);
    ExampleNext2(StepAt(k - 1).0);
  }

  lemma ExamplePlace3()
    ensures InsertAt([0, 2, 1], 3, 3) == [0, 2, 1, 3]
  {
  }

  lemma ExampleNext3(g: GameState)
    requires g == GameState([0, 2, 1], 1, 2)
    ensures Next(g) == (GameState([0, 2, 1, 3], 3, 3), None)
  {
    OnlyMultipleBelow46(g.lastTurn + 1);
    ModOnce(g.current + 1, |g.marbles|);
    NextPlaces(g);
    ExamplePlace3();
  }

  lemma ExampleTurn3(k: int)
    requires k == 3
    ensures StepAt(k).0 == GameState([0, 2, 1, 3], 3, 3)
  {
    ExampleTurn2(k - 1);
    ExampleNext3(StepAt(k - 1).0);
  }

  lemma ExamplePlace4()
    ensures InsertAt([0, 2, 1, 3], 1, 4) == [0, 4, 2, 1, 3]
  {
  }

  lemma ExampleNext4(g: GameState)
    requires g == GameState([0, 2, 1, 3], 3, 3)
    ensures Next(g) == (GameState([0, 4, 2, 1, 3], 1, 4), None)
  {
    OnlyMultipleBelow46(g.lastTurn + 1);
    ModOnce(g.current + 1, |g.marbles|);
    NextPlaces(g);
    ExamplePlace4();
  }

  lemma ExampleTurn4(k: int)
    requires k == 4
    ensures StepAt(k).0 == GameState([0, 4, 2, 1, 3], 1, 4)
  {
    ExampleTurn3(k - 1);
    ExampleNext4(StepAt(k - 1).0);
  }

  lemma ExamplePlace5()
    ensures InsertAt([0, 4, 2, 1, 3], 3, 5) == [0, 4, 2, 5, 1, 3]
  {
  }

  lemma ExampleNext5(g: GameState)
    requires g == GameState([0, 4, 2, 1, 3], 1, 4)
    ensures Next(g) == (GameState([0, 4, 2, 5, 1, 3], 3, 5), None)
  {
    OnlyMultipleBelow46(g.lastTurn + 1);
    ModOnce(g.current + 1, |g.marbles|);
    NextPlaces(g);
    ExamplePlace5();
  }

  lemma ExampleTurn5(k: int)
    requires k == 5
    ensures StepAt(k).0 == GameState([0, 4, 2, 5, 1, 3], 3, 5)
  {
    ExampleTurn4(k - 1);
    ExampleNext5(StepAt(k - 1).0);
  }

  lemma ExamplePlace6()
    ensures InsertAt([0, 4, 2, 5, 1, 3], 5, 6) == [0, 4, 2, 5, 1, 6, 3]
  {
  }

  lemma ExampleNext6(g: GameState)
    requires g == GameState([0, 4, 2, 5, 1, 3], 3, 5)
    ensures Next(g) == (GameState([0, 4, 2, 5, 1, 6, 3], 5, 6), None)
  {
    OnlyMultipleBelow46(g.lastTurn + 1);
    ModOnce(g.current + 1, |g.marbles|);
    NextPlaces(g);
    ExamplePlace6();
  }

  lemma ExampleTurn6(k: int)
    requires k == 6
    ensures StepAt(k).0 == GameState([0, 4, 2, 5, 1, 6, 3], 5, 6)
  {
    ExampleTurn5(k - 1);
    ExampleNext6(StepAt(k - 1).0);
  }

  lemma ExamplePlace7()
    ensures InsertAt([0, 4, 2, 5, 1, 6, 3], 7, 7) == [0, 4, 2, 5, 1, 6, 3, 7]
  {
  }

  lemma ExampleNext7(g: GameState)
    requires g == GameState([0, 4, 2, 5, 1, 6, 3], 5, 6)
    ensures Next(g) == (GameState([0, 4, 2, 5, 1, 6, 3, 7], 7, 7), None)
  {
    OnlyMultipleBelow46(g.lastTurn + 1);
    ModOnce(g.current + 1, |g.marbles|);
    NextPlaces(g);
    ExamplePlace7();
  }

  lemma ExampleTurn7(k: int)
    requires k == 7
    ensures StepAt(k).0 == GameState([0, 4, 2, 5, 1, 6, 3, 7], 7, 7)
  {
    ExampleTurn6(k - 1);
    ExampleNext7(StepAt(k - 1).0);
  }

  lemma ExamplePlace8()
    ensures InsertAt([0, 4, 2, 5, 1, 6, 3, 7], 1, 8) == [0, 8, 4, 2, 5, 1, 6, 3, 7]
  {
  }

  lemma ExampleNext8(g: GameState)
    requires g == GameState([0, 4, 2, 5, 1, 6, 3, 7], 7, 7)
    ensures Next(g) == (GameState([0, 8, 4, 2, 5, 1, 6, 3, 7], 1, 8), None)
  {
    OnlyMultipleBelow46(g.lastTurn + 1);
    ModOnce(g.current + 1, |g.marbles|);
    NextPlaces(g);
    ExamplePlace8();
  }

  lemma ExampleTurn8(k: int)
    requires k == 8
    ensures StepAt(k).0 == GameState([0, 8, 4, 2, 5, 1, 6, 3, 7], 1, 8)
  {
    ExampleTurn7(k - 1);
    ExampleNext8(StepAt(k - 1).0);
  }

  lemma ExamplePlace9()
    ensures InsertAt([0, 8, 4, 2, 5, 1, 6, 3, 7], 3, 9) == [0, 8, 4, 9, 2, 5, 1, 6, 3, 7]
  {
  }

  lemma ExampleNext9(g: GameState)
    requires g == GameState([0, 8, 4, 2, 5, 1, 6, 3, 7], 1, 8)
    ensures Next(g) == (GameState([0, 8, 4, 9, 2, 5, 1, 6, 3, 7], 3, 9), None)
  {
    OnlyMultipleBelow46(g.lastTurn + 1);
    ModOnce(g.current + 1, |g.marbles|);
    NextPlaces(g);
    ExamplePlace9();
  }

  lemma ExampleTurn9(k: int)
    requires k == 9
    ensures StepAt(k).0 == GameState([0, 8, 4, 9, 2, 5, 1, 6, 3, 7], 3, 9)
  {
    ExampleTurn8(k - 1);
    ExampleNext9(StepAt(k - 1).0);
  }

  lemma ExamplePlace10()
    ensures InsertAt([0, 8, 4, 9, 2, 5, 1, 6, 3, 7], 5, 10) == [0, 8, 4, 9, 2, 10, 5, 1, 6, 3, 7]
  {
  }

  lemma ExampleNext10(g: GameState)
    requires g == GameState([0, 8, 4, 9, 2, 5, 1, 6, 3, 7], 3, 9)
    ensures Next(g) == (GameState([0, 8, 4, 9, 2, 10, 5, 1, 6, 3, 7], 5, 10), None)
  {
    OnlyMultipleBelow46(g.lastTurn + 1);
    ModOnce(g.current + 1, |g.marbles|);
    NextPlaces(g);
    ExamplePlace10();
  }

  lemma ExampleTurn10(k: int)
    requires k == 10
    ensures StepAt(k).0 == GameState([0, 8, 4, 9, 2, 10, 5, 1, 6, 3, 7], 5, 10)
  {
    ExampleTurn9(k - 1);
    ExampleNext10(StepAt(k - 1).0);
  }

  lemma ExamplePlace11()
    ensures InsertAt([0, 8, 4, 9, 2, 10, 5, 1, 6, 3, 7], 7, 11) == [0, 8, 4, 9, 2, 10, 5, 11, 1, 6, 3, 7]
  {
  }

  lemma ExampleNext11(g: GameState)
    requires g == GameState([0, 8, 4, 9, 2, 10, 5, 1, 6, 3, 7], 5, 10)
    ensures Next(g) == (GameState([0, 8, 4, 9, 2, 10, 5, 11, 1, 6, 3, 7], 7, 11), None)
  {
    OnlyMultipleBelow46(g.lastTurn + 1);
    ModOnce(g.current + 1, |g.marbles|);
    NextPlaces(g);
    ExamplePlace11();
  }

  lemma ExampleTurn11(k: int)
    requires k == 11
    ensures StepAt(k).0 == GameState([0, 8, 4, 9, 2, 10, 5, 11, 1, 6, 3, 7], 7, 11)
  {
    ExampleTurn10(k - 1);
    ExampleNext11(StepAt(k - 1).0);
  }

  lemma ExamplePlace12()
    ensures InsertAt([0, 8, 4, 9, 2, 10, 5, 11, 1, 6, 3, 7], 9, 12) == [0, 8, 4, 9, 2, 10, 5, 11, 1, 12, 6, 3, 7]
  {
  }

  lemma ExampleNext12(g: GameState)
    requires g == GameState([0, 8, 4, 9, 2, 10, 5, 11, 1, 6, 3, 7], 7, 11)
    ensures Next(g) == (GameState([0, 8, 4, 9, 2, 10, 5, 11, 1, 12, 6, 3, 7], 9, 12), None)
  {
    OnlyMultipleBelow46(g.lastTurn + 1);
    ModOnce(g.current + 1, |g.marbles|);
    NextPlaces(g);
    ExamplePlace12();
  }

  lemma ExampleTurn12(k: int)
    requires k == 12
    ensures StepAt(k).0 == GameState([0, 8, 4, 9, 2, 10, 5, 11, 1, 12, 6, 3, 7], 9, 12)
  {
    ExampleTurn11(k - 1);
    ExampleNext12(StepAt(k - 1).0);
  }

  lemma ExamplePlace13()
    ensures InsertAt([0, 8, 4, 9, 2, 10, 5, 11, 1, 12, 6, 3, 7], 11, 13) == [0, 8, 4, 9, 2, 10, 5, 11, 1, 12, 6, 13, 3, 7]
  {
  }

  lemma ExampleNext13(g: GameState)
    requires g == GameState([0, 8, 4, 9, 2, 10, 5, 11, 1, 12, 6, 3, 7], 9, 12)
    ensures Next(g) == (GameState([0, 8, 4, 9, 2, 10, 5, 11, 1, 12, 6, 13, 3, 7], 11, 13), None)
  {
    OnlyMultipleBelow46(g.lastTurn + 1);
    ModOnce(g.current + 1, |g.marbles|);
    NextPlaces(g);
    ExamplePlace13();
  }

  lemma ExampleTurn13(k: int)
    requires k == 13
    ensures StepAt(k).0 == GameState([0, 8, 4, 9, 2, 10, 5, 11, 1, 12, 6, 13, 3, 7], 11, 13)
  {
    ExampleTurn12(k - 1);
    ExampleNext13(StepAt(k - 1).0);
  }

  lemma ExamplePlace14()
    ensures InsertAt([0, 8, 4, 9, 2, 10, 5, 11, 1, 12, 6, 13, 3, 7], 13, 14) == [0, 8, 4, 9, 2, 10, 5, 11, 1, 12, 6, 13, 3, 14, 7]
  {
  }

  lemma ExampleNext14(g: GameState)
    requires g == GameState([0, 8, 4, 9, 2, 10, 5, 11, 1, 12, 6, 13, 3, 7], 11, 13)
    ensures Next(g) == (GameState([0, 8, 4, 9, 2, 10, 5, 11, 1, 12, 6, 13, 3, 14, 7], 13, 14), None)
  {
    OnlyMultipleBelow46(g.lastTurn + 1);
    ModOnce(g.current + 1, |g.marbles|);
    NextPlaces(g);
    ExamplePlace14();
  }

  lemma ExampleTurn14(k: int)
    requires k == 14
    ensures StepAt(k).0 == GameState([0, 8, 4, 9, 2, 10, 5, 11, 1, 12, 6, 13, 3, 14, 7], 13, 14)
  {
    ExampleTurn13(k - 1);
    ExampleNext14(StepAt(k - 1).0);
  }

  lemma ExamplePlace15()
    ensures InsertAt([0, 8, 4, 9, 2, 10, 5, 11, 1, 12, 6, 13, 3, 14, 7], 15, 15) == [0, 8, 4, 9, 2, 10, 5, 11, 1, 12, 6, 13, 3, 14, 7, 15]
  {
  }

  lemma ExampleNext15(g: GameState)
    requires g == GameState([0, 8, 4, 9, 2, 10, 5, 11, 1, 12, 6, 13, 3, 14, 7], 13, 14)
    ensures Next(g) == (GameState([0, 8, 4, 9, 2, 10, 5, 11, 1, 12, 6, 13, 3, 14, 7, 15], 15, 15), None)
  {
    OnlyMultipleBelow46(g.lastTurn + 1);
    ModOnce(g.current + 1, |g.marbles|);
    NextPlaces(g);
    ExamplePlace15();
  }

  lemma ExampleTurn15(k: int)
    requires k == 15
    ensures StepAt(k).0 == GameState([0, 8, 4, 9, 2, 10, 5, 11, 1, 12, 6, 13, 3, 14, 7, 15], 15, 15)
  {
    ExampleTurn14(k - 1);
    ExampleNext15(StepAt(k - 1).0);
  }

  lemma ExamplePlace16()
    ensures InsertAt([0, 8, 4, 9, 2, 10, 5, 11, 1, 12, 6, 13, 3, 14, 7, 15], 1, 16) == [0, 16, 8, 4, 9, 2, 10, 5, 11, 1, 12, 6, 13, 3, 14, 7, 15]
  {
  }

  lemma ExampleNext16(g: GameState)
    requires g == GameState([0, 8, 4, 9, 2, 10, 5, 11, 1, 12, 6, 13, 3, 14, 7, 15], 15, 15)
    ensures Next(g) == (GameState([0, 16, 8, 4, 9, 2, 10, 5, 11, 1, 12, 6, 13, 3, 14, 7, 15], 1, 16), None)
  {
    OnlyMultipleBelow46(g.lastTurn + 1);
    ModOnce(g.current + 1, |g.marbles|);
    NextPlaces(g);
    ExamplePlace16();
  }

  lemma ExampleTurn16(k: int)
    requires k == 16
    ensures StepAt(k).0 == GameState([0, 16, 8, 4, 9, 2, 10, 5, 11, 1, 12, 6, 13, 3, 14, 7, 15], 1, 16)
  {
    ExampleTurn15(k - 1);
    ExampleNext16(StepAt(k - 1).0);
  }

  lemma ExamplePlace17()
    ensures InsertAt([0, 16, 8, 4, 9, 2, 10, 5, 11, 1, 12, 6, 13, 3, 14, 7, 15], 3, 17) == [0, 16, 8, 17, 4, 9, 2, 10, 5, 11, 1, 12, 6, 13, 3, 14, 7, 15]
  {
  }

  lemma ExampleNext17(g: GameState)
    requires g == GameState([0, 16, 8, 4, 9, 2, 10, 5, 11, 1, 12, 6, 13, 3, 14, 7, 15], 1, 16)
    ensures Next(g) == (GameState([0, 16, 8, 17, 4, 9, 2, 10, 5, 11, 1, 12, 6, 13, 3, 14, 7, 15], 3, 17), None)
  {
    OnlyMultipleBelow46(g.lastTurn + 1);
    ModOnce(g.current + 1, |g.marbles|);
    NextPlaces(g);
    ExamplePlace17();
  }

  lemma ExampleTurn17(k: int)
    requires k == 17
    ensures StepAt(k).0 == GameState([0, 16, 8, 17, 4, 9, 2, 10, 5, 11, 1, 12, 6, 13, 3, 14, 7, 15], 3, 17)
  {
    ExampleTurn16(k - 1);
    ExampleNext17(StepAt(k - 1).0);
  }

  lemma ExamplePlace18()
    ensures InsertAt([0, 16, 8, 17, 4, 9, 2, 10, 5, 11, 1, 12, 6, 13, 3, 14, 7, 15], 5, 18) == [0, 16, 8, 17, 4, 18, 9, 2, 10, 5, 11, 1, 12, 6, 13, 3, 14, 7, 15]
  {
  }

  lemma ExampleNext18(g: GameState)
    requires g == GameState([0, 16, 8, 17, 4, 9, 2, 10, 5, 11, 1, 12, 6, 13, 3, 14, 7, 15], 3, 17)
    ensures Next(g) == (GameState([0, 16, 8, 17, 4, 18, 9, 2, 10, 5, 11, 1, 12, 6, 13, 3, 14, 7, 15], 5, 18), None)
  {
    OnlyMultipleBelow46(g.lastTurn + 1);
    ModOnce(g.current + 1, |g.marbles|);
    NextPlaces(g);
    ExamplePlace18();
  }

  lemma ExampleTurn18(k: int)
    requires k == 18
    ensures StepAt(k).0 == GameState([0, 16, 8, 17, 4, 18, 9, 2, 10, 5, 11, 1, 12, 6, 13, 3, 14, 7, 15], 5, 18)
  {
    ExampleTurn17(k - 1);
    ExampleNext18(StepAt(k - 1).0);
  }

  lemma ExamplePlace19()
    ensures InsertAt([0, 16, 8, 17, 4, 18, 9, 2, 10, 5, 11, 1, 12, 6, 13, 3, 14, 7, 15], 7, 19) == [0, 16, 8, 17, 4, 18, 9, 19, 2, 10, 5, 11, 1, 12, 6, 13, 3, 14, 7, 15]
  {
  }

  lemma ExampleNext19(g: GameState)
    requires g == GameState([0, 16, 8, 17, 4, 18, 9, 2, 10, 5, 11, 1, 12, 6, 13, 3, 14, 7, 15], 5, 18)
    ensures Next(g) == (GameState([0, 16, 8, 17, 4, 18, 9, 19, 2, 10, 5, 11, 1, 12, 6, 13, 3, 14, 7, 15], 7, 19), None)
  {
    OnlyMultipleBelow46(g.lastTurn + 1);
    ModOnce(g.current + 1, |g.marbles|);
    NextPlaces(g);
    ExamplePlace19();
  }

  lemma ExampleTurn19(k: int)
    requires k == 19
    ensures StepAt(k).0 == GameState([0, 16, 8, 17, 4, 18, 9, 19, 2, 10, 5, 11, 1, 12, 6, 13, 3, 14, 7, 15], 7, 19)
  {
    ExampleTurn18(k - 1);
    ExampleNext19(StepAt(k - 1).0);
  }

  lemma ExamplePlace20()
    ensures InsertAt([0, 16, 8, 17, 4, 18, 9, 19, 2, 10, 5, 11, 1, 12, 6, 13, 3, 14, 7, 15], 9, 20) == [0, 16, 8, 17, 4, 18, 9, 19, 2, 20, 10, 5, 11, 1, 12, 6, 13, 3, 14, 7, 15]
  {
  }

  lemma ExampleNext20(g: GameState)
    requires g == GameState([0, 16, 8, 17, 4, 18, 9, 19, 2, 10, 5, 11, 1, 12, 6, 13, 3, 14, 7, 15], 7, 19)
    ensures Next(g) == (GameState([0, 16, 8, 17, 4, 18, 9, 19, 2, 20, 10, 5, 11, 1, 12, 6, 13, 3, 14, 7, 15], 9, 20), None)
  {
    OnlyMultipleBelow46(g.lastTurn + 1);
    ModOnce(g.current + 1, |g.marbles|);
    NextPlaces(g);
    ExamplePlace20();
  }

  lemma ExampleTurn20(k: int)
    requires k == 20
    ensures StepAt(k).0 == GameState([0, 16, 8, 17, 4, 18, 9, 19, 2, 20, 10, 5, 11, 1, 12, 6, 13, 3, 14, 7, 15], 9, 20)
  {
    ExampleTurn19(k - 1);
    ExampleNext20(StepAt(k - 1).0);
  }

  lemma ExamplePlace21()
    ensures InsertAt([0, 16, 8, 17, 4, 18, 9, 19, 2, 20, 10, 5, 11, 1, 12, 6, 13, 3, 14, 7, 15], 11, 21) == [0, 16, 8, 17, 4, 18, 9, 19, 2, 20, 10, 21, 5, 11, 1, 12, 6, 13, 3, 14, 7, 15]
  {
  }

  lemma ExampleNext21(g: GameState)
    requires g == GameState([0, 16, 8, 17, 4, 18, 9, 19, 2, 20, 10, 5, 11, 1, 12, 6, 13, 3, 14, 7, 15], 9, 20)
    ensures Next(g) == (GameState([0, 16, 8, 17, 4, 18, 9, 19, 2, 20, 10, 21, 5, 11, 1, 12, 6, 13, 3, 14, 7, 15], 11, 21), None)
  {
    OnlyMultipleBelow46(g.lastTurn + 1);
    ModOnce(g.current + 1, |g.marbles|);
    NextPlaces(g);
    ExamplePlace21();
  }

  lemma ExampleTurn21(k: int)
    requires k == 21
    ensures StepAt(k).0 == GameState([0, 16, 8, 17, 4, 18, 9, 19, 2, 20, 10, 21, 5, 11, 1, 12, 6, 13, 3, 14, 7, 15], 11, 21)
  {
    ExampleTurn20(k - 1);
    ExampleNext21(StepAt(k - 1).0);
  }

  lemma ExamplePlace22()
    ensures InsertAt([0, 16, 8, 17, 4, 18, 9, 19, 2, 20, 10, 21, 5, 11, 1, 12, 6, 13, 3, 14, 7, 15], 13, 22) == [0, 16, 8, 17, 4, 18, 9, 19, 2, 20, 10, 21, 5, 22, 11, 1, 12, 6, 13, 3, 14, 7, 15]
  {
  }

  lemma ExampleNext22(g: GameState)
    requires g == GameState([0, 16, 8, 17, 4, 18, 9, 19, 2, 20, 10, 21, 5, 11, 1, 12, 6, 13, 3, 14, 7, 15], 11, 21)
    ensures Next(g) == (GameState([0, 16, 8, 17, 4, 18, 9, 19, 2, 20, 10, 21, 5, 22, 11, 1, 12, 6, 13, 3, 14, 7, 15], 13, 22), None)
  {
    OnlyMultipleBelow46(g.lastTurn + 1);
    ModOnce(g.current + 1, |g.marbles|);
    NextPlaces(g);
    ExamplePlace22();
  }

  lemma ExampleTurn22(k: int)
    requires k == 22
    ensures StepAt(k).0 == GameState([0, 16, 8, 17, 4, 18, 9, 19, 2, 20, 10, 21, 5, 22, 11, 1, 12, 6, 13, 3, 14, 7, 15], 13, 22)
  {
    ExampleTurn21(k - 1);
    ExampleNext22(StepAt(k - 1).0);
  }

  lemma ExampleTake23()
    ensures RemoveAt([0, 16, 8, 17, 4, 18, 9, 19, 2, 20, 10, 21, 5, 22, 11, 1, 12, 6, 13, 3, 14, 7, 15], 6) == [0, 16, 8, 17, 4, 18, 19, 2, 20, 10, 21, 5, 22, 11, 1, 12, 6, 13, 3, 14, 7, 15]
  {
  }

  lemma ExampleNext23(g: GameState)
    requires g == GameState([0, 16, 8, 17, 4, 18, 9, 19, 2, 20, 10, 21, 5, 22, 11, 1, 12, 6, 13, 3, 14, 7, 15], 13, 22)
    ensures Next(g) == (GameState([0, 16, 8, 17, 4, 18, 19, 2, 20, 10, 21, 5, 22, 11, 1, 12, 6, 13, 3, 14, 7, 15], 6, 23), Some(32))
  {
    ModOnce(g.current - 7 + |g.marbles|, |g.marbles|);
    NextTakes(g);
    ExampleTake23();
  }

  lemma ExampleTurn23(k: int)
    requires k == 23
    ensures StepAt(k) == (GameState([0, 16, 8, 17, 4, 18, 19, 2, 20, 10, 21, 5, 22, 11, 1, 12, 6, 13, 3, 14, 7, 15], 6, 23), Some(32))
  {
    ExampleTurn22(k - 1);
    ExampleNext23(StepAt(k - 1).0);
  }

  lemma ExamplePlace24()
    ensures InsertAt([0, 16, 8, 17, 4, 18, 19, 2, 20, 10, 21, 5, 22, 11, 1, 12, 6, 13, 3, 14, 7, 15], 8, 24) == [0, 16, 8, 17, 4, 18, 19, 2, 24, 20, 10, 21, 5, 22, 11, 1, 12, 6, 13, 3, 14, 7, 15]
  {
  }

  lemma ExampleNext24(g: GameState)
    requires g == GameState([0, 16, 8, 17, 4, 18, 19, 2, 20, 10, 21, 5, 22, 11, 1, 12, 6, 13, 3, 14, 7, 15], 6, 23)
    ensures Next(g) == (GameState([0, 16, 8, 17, 4, 18, 19, 2, 24, 20, 10, 21, 5, 22, 11, 1, 12, 6, 13, 3, 14, 7, 15], 8, 24), None)
  {
    OnlyMultipleBelow46(g.lastTurn + 1);
    ModOnce(g.current + 1, |g.marbles|);
    NextPlaces(g);
    ExamplePlace24();
  }

  lemma ExampleTurn24(k: int)
    requires k == 24
    ensures StepAt(k).0 == GameState([0, 16, 8, 17, 4, 18, 19, 2, 24, 20, 10, 21, 5, 22, 11, 1, 12, 6, 13, 3, 14, 7, 15], 8, 24)
  {
    ExampleTurn23(k - 1);
    ExampleNext24(StepAt(k - 1).0);
  }

  lemma ExamplePlace25()
    ensures InsertAt([0, 16, 8, 17, 4, 18, 19, 2, 24, 20, 10, 21, 5, 22, 11, 1, 12, 6, 13, 3, 14, 7, 15], 10, 25) == [0, 16, 8, 17, 4, 18, 19, 2, 24, 20, 25, 10, 21, 5, 22, 11, 1, 12, 6, 13, 3, 14, 7, 15]
  {
  }

  lemma ExampleNext25(g: GameState)
    requires g == GameState([0, 16, 8, 17, 4, 18, 19, 2, 24, 20, 10, 21, 5, 22, 11, 1, 12, 6, 13, 3, 14, 7, 15], 8, 24)
    ensures Next(g) == (GameState([0, 16, 8, 17, 4, 18, 19, 2, 24, 20, 25, 10, 21, 5, 22, 11, 1, 12, 6, 13, 3, 14, 7, 15], 10, 25), None)
  {
    OnlyMultipleBelow46(g.lastTurn + 1);
    ModOnce(g.current + 1, |g.marbles|);
    NextPlaces(g);
    ExamplePlace25();
  }

  lemma ExampleTurn25(k: int)
    requires k == 25
    ensures StepAt(k).0 == GameState([0, 16, 8, 17, 4, 18, 19, 2, 24, 20, 25, 10, 21, 5, 22, 11, 1, 12, 6, 13, 3, 14, 7, 15], 10, 25)
  {
    ExampleTurn24(k - 1);
    ExampleNext25(StepAt(k - 1).0);
  }

  /// Of the first 46 turns only turn 23 scores.
  lemma QuietTurn(n: nat, k: nat)
    requires k < n && k < 46 && k != 23
    ensures Turns(n)[k].1.None?
  {
    TurnsAt(n, k);
    StepScores(k);
    if k > 0 {
      OnlyMultipleBelow46(k);
    }
  }

  /// 25 turns among 9 players: the only scoring turn is 23, worth 32, for
  /// player 23 % 9 = 5, so the highest score is 32.
  lemma Part1Example()
    ensures Part1(25, 9) == Success(32)
  {
    Part1ExampleAt(25, 9);
  }

  /// The example with its turn count and player count as variables, so
  /// that the verifier does not evaluate the game from the literals.
  lemma Part1ExampleAt(steps: int, players: int)
    requires steps == 25 && players == 9
    ensures Part1(steps, players) == Success(32)
  {
    var t := Turns(steps + 1);
    ScoringTurn(steps + 1, t);
    QuietTurns(steps + 1, t);
    ExampleScores(t, players);
    ExampleMax(players);
  }

  /// Of 26 numbered turns, turn 23 scores 32.
  ghost predicate ScoresAt23(t: seq<(int, Option<int>)>)
  {
    |t| == 26 && Numbered(t) && t[23] == (23, Some(32))
  }

  /// Of 26 turns, none but turn 23 scores.
  ghost predicate QuietElsewhere(t: seq<(int, Option<int>)>)
  {
    |t| == 26 && forall k :: 0 <= k < 26 && k != 23 ==> t[k].1.None?
  }

  /// Turn 23 of the example scores 32.
  lemma ScoringTurn(n: nat, t: seq<(int, Option<int>)>)
    requires n == 26 && t == Turns(n)
    ensures ScoresAt23(t)
  {
    ExampleScore(n - 3);
    TurnsAt(n, n - 3);
  }

  /// Of the example's first 26 turns only turn 23 scores.
  lemma QuietTurns(n: nat, t: seq<(int, Option<int>)>)
    requires n == 26 && t == Turns(n)
    ensures QuietElsewhere(t)
  {
    forall k | 0 <= k < n && k != 23 ensures t[k].1.None? {
      QuietTurn(n, k);
    }
  }

  lemma ExampleScore(k: int)
    requires k == 23
    ensures StepAt(k).1 == Some(32)
  {
    ExampleTurn23(k);
  }

  /// 26 turns of which only turn 23 scores 32, among 9 players.
  lemma ExampleScores(t: seq<(int, Option<int>)>, players: nat)
    requires players == 9 && ScoresAt23(t) && QuietElsewhere(t)
    ensures ScoresOf(Zeros(players), t, players) == Success(Zeros(players)[5 := 32])
  {
    var i := 23;
    var zeros := Zeros(players);
    ScoresOfQuiet(zeros, t[..i], players);
    var after := zeros[5 := 32];
    assert Credit(zeros, t[i], players) == Success(after);
    ScoresOfQuiet(after, t[i + 1..], players);
    ScoresOfSplit(zeros, t, i, players);
  }

  lemma ExampleMax(players: nat)
    requires players == 9
    ensures SeqMax(Zeros(players)[5 := 32]) == Some(32)
  {
    var after := Zeros(players)[5 := 32];
    assert after[5] == 32 && 32 in after;
    assert forall x :: x in after ==> x <= 32;
    var m := SeqMax(after);
    assert m.Some? && m.value <= 32;
  }
}
