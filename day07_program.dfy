/// Day07/Program.cs: executing the steps one at a time (part 1) and with
/// timed workers (part 2).
module Day07Program {
  import opened Wrappers
  import opened Day07State
  import opened Day07Elves
  import opened Linq

  /// `ExampleInput`: the rules of the seven example lines.
  const ExampleInput: seq<StepConstraint> := [
    StepConstraint('C', 'A'), StepConstraint('C', 'F'), StepConstraint('A', 'B'), StepConstraint('A', 'D'),
    StepConstraint('B', 'E'), StepConstraint('D', 'E'), StepConstraint('F', 'E')]

  /// `Run` from a given state: while a step is ready, report the least one
  /// with the state it was picked in, then execute it.
  function RunFrom(st: State): (r: seq<(char, State)>)
    decreases |st.waitingFor|
  {
    var top := TopNextAvailable(st);
    if top.Failure? then []
    else
      ExecuteStepCount(st, top.value);
      [(top.value, st)] + RunFrom(ExecuteStep(st, top.value))
  }

  /// `Run`.
  function Run(rules: seq<StepConstraint>): seq<(char, State)>
  {
    RunFrom(Start(rules))
  }

  /// The steps of a run (`Select(s => s.step)`).
  function Steps(run: seq<(char, State)>): (r: seq<char>)
    ensures |r| == |run|
    ensures forall i :: 0 <= i < |run| ==> r[i] == run[i].0
  {
    if run == [] then [] else [run[0].0] + Steps(run[1..])
  }

  /// `Part1`.
  function Part1(input: seq<StepConstraint>): string
  {
    Steps(Run(input))
  }

  /// A run that can pick a step reports it and goes on from the state
  /// with that step executed, which knows one step fewer.
  lemma RunFromCons(st: State)
    requires HasNextAvailable(st)
    ensures TopNextAvailable(st).Success?
    ensures var t := TopNextAvailable(st).value;
      RunFrom(st) == [(t, st)] + RunFrom(ExecuteStep(st, t)) && |ExecuteStep(st, t).waitingFor| < |st.waitingFor|
  {
    ExecuteStepCount(st, TopNextAvailable(st).value);
  }

  /// A run from a state where nothing is ready is empty.
  lemma RunFromEmpty(st: State)
    requires !HasNextAvailable(st)
    ensures RunFrom(st) == []
  {
  }

  /// Each step of a run is the `TopNextAvailable` of the state it is
  /// reported with: the least step that waits for nothing.
  lemma {:induction false} RunFromPicksTop(st: State)
    ensures var r := RunFrom(st);
      forall i :: 0 <= i < |r| ==> TopNextAvailable(r[i].1) == Success(r[i].0)
    decreases |st.waitingFor|
  {
    if HasNextAvailable(st) {
      RunFromCons(st);
      var t := TopNextAvailable(st).value;
      RunFromPicksTop(ExecuteStep(st, t));
      var rest := RunFrom(ExecuteStep(st, t));
      forall i | 0 < i < |RunFrom(st)| ensures RunFrom(st)[i] == rest[i - 1] {
      }
    } else {
      RunFromEmpty(st);
    }
  }

  /// Every step of a run is known to the state it starts from.
  lemma {:induction false} RunFromKnown(st: State)
    ensures var r := RunFrom(st);
      forall i :: 0 <= i < |r| ==> r[i].0 in st.waitingFor
    decreases |st.waitingFor|
  {
    if HasNextAvailable(st) {
      RunFromCons(st);
      var t := TopNextAvailable(st).value;
      RunFromKnown(ExecuteStep(st, t));
      var rest := RunFrom(ExecuteStep(st, t));
      forall i | 0 < i < |RunFrom(st)| ensures RunFrom(st)[i] == rest[i - 1] {
      }
    } else {
      RunFromEmpty(st);
    }
  }

  /// No step is reported twice.
  lemma {:induction false} RunFromDistinct(st: State)
    ensures var r := RunFrom(st);
      forall i, j :: 0 <= i < j < |r| ==> r[i].0 != r[j].0
    decreases |st.waitingFor|
  {
    if HasNextAvailable(st) {
      RunFromCons(st);
      var t := TopNextAvailable(st).value;
      RunFromDistinct(ExecuteStep(st, t));
      RunFromKnown(ExecuteStep(st, t));
      var rest := RunFrom(ExecuteStep(st, t));
      forall i | 0 < i < |RunFrom(st)| ensures RunFrom(st)[i] == rest[i - 1] {
      }
    } else {
      RunFromEmpty(st);
    }
  }

  /// What is in a prefix of a tail is in the longer prefix of the whole.
  lemma InPrefixShift(o: seq<char>, tail: seq<char>, t: char, i: nat, p: char)
    requires o == [t] + tail && 0 < i <= |o| && p in tail[..i - 1]
    ensures p in o[..i]
  {
    var j :| 0 <= j < i - 1 && tail[j] == p;
    assert o[..i][j + 1] == p;
  }

  /// A run reports a step only after every step it waited for at the start.
  lemma {:induction false} RunFromRespectsPrerequisites(st: State)
    ensures var r := RunFrom(st);
      forall i :: 0 <= i < |r| ==> r[i].0 in st.waitingFor ==> forall p :: p in st.waitingFor[r[i].0] ==> p in Steps(r)[..i]
    decreases |st.waitingFor|
  {
    if HasNextAvailable(st) {
      RunFromCons(st);
      var t := TopNextAvailable(st).value;
      var st' := ExecuteStep(st, t);
      RunFromRespectsPrerequisites(st');
      RunFromKnown(st');
      var rest := RunFrom(st');
      var r := RunFrom(st);
      assert r[1..] == rest;
      assert Steps(r) == [t] + Steps(rest);
      forall i | 0 < i < |r| && r[i].0 in st.waitingFor
        ensures forall p :: p in st.waitingFor[r[i].0] ==> p in Steps(r)[..i]
      {
        assert r[i] == rest[i - 1];
        forall p | p in st.waitingFor[r[i].0] ensures p in Steps(r)[..i] {
          if p != t {
            assert p in st'.waitingFor[r[i].0];
            InPrefixShift(Steps(r), Steps(rest), t, i, p);
          }
        }
      }
    }
  }

  /// The steps of a run from `st` are known to `st`, distinct, and each
  /// comes after everything it waited for in `st`.
  lemma RunFromOrder(st: State)
    ensures var o := Steps(RunFrom(st));
      (forall i :: 0 <= i < |o| ==> o[i] in st.waitingFor) &&
      (forall i, j :: 0 <= i < j < |o| ==> o[i] != o[j]) &&
      (forall i :: 0 <= i < |o| ==> forall p :: p in st.waitingFor[o[i]] ==> p in o[..i])
  {
    RunFromKnown(st);
    RunFromDistinct(st);
    RunFromRespectsPrerequisites(st);
  }

  lemma Part1Unfold(rules: seq<StepConstraint>)
    ensures Part1(rules) == Steps(RunFrom(Start(rules)))
  {
  }

  /// Part 1's order names only steps some rule mentions, and none twice.
  lemma Part1Steps(rules: seq<StepConstraint>)
    ensures var o := Part1(rules);
      (forall i :: 0 <= i < |o| ==> Named(rules, o[i])) && forall i, j :: 0 <= i < j < |o| ==> o[i] != o[j]
  {
    Part1Unfold(rules);
    RunFromOrder(Start(rules));
    MakeInitialMeans(rules);
  }

  /// Part 1's order puts every rule's prerequisite before the step it gates.
  lemma Part1RespectsRules(rules: seq<StepConstraint>)
    ensures var o := Part1(rules);
      forall i, k :: 0 <= i < |o| && 0 <= k < |rules| && rules[k].next == o[i] ==> rules[k].prereq in o[..i]
  {
    var o := Part1(rules);
    Part1Unfold(rules);
    RunFromOrder(Start(rules));
    MakeInitialMeans(rules);
    forall i, k | 0 <= i < |o| && 0 <= k < |rules| && rules[k].next == o[i] ensures rules[k].prereq in o[..i] {
      assert rules[k].prereq in Prerequisites(rules, o[i]);
    }
  }

  /// The least ready step is picked.
  lemma TopIs(st: State, c: char)
    requires c in st.waitingFor && st.waitingFor[c] == {}
    requires forall k :: k in st.waitingFor && st.waitingFor[k] == {} ==> c <= k
    ensures TopNextAvailable(st) == Success(c)
  {
  }

  /// One pick of a run.
  lemma RunFromStep(st: State, c: char, tail: string)
    requires TopNextAvailable(st) == Success(c)
    requires Steps(RunFrom(ExecuteStep(st, c))) == tail
    ensures Steps(RunFrom(st)) == [c] + tail
  {
    RunFromCons(st);
    var r := RunFrom(st);
    assert r[1..] == RunFrom(ExecuteStep(st, c));
  }

  /// A run from a state that knows no step is empty.
  lemma RunFromEnd(st: State)
    requires ExampleState6(st)
    ensures Steps(RunFrom(st)) == []
  {
    assert NextAvailable(st) == [];
    RunFromEmpty(st);
  }

  /// The example's state after `k` picks.
  ghost predicate ExampleState0(st: State)
  {
    (forall x :: x in st.waitingFor <==> x in {'C', 'A', 'F', 'B', 'D', 'E'}) &&
    st.waitingFor['C'] == {} &&
    st.waitingFor['A'] == {'C'} &&
    st.waitingFor['F'] == {'C'} &&
    st.waitingFor['B'] == {'A'} &&
    st.waitingFor['D'] == {'A'} &&
    st.waitingFor['E'] == {'B', 'D', 'F'}
  }

  ghost predicate ExampleState1(st: State)
  {
    (forall x :: x in st.waitingFor <==> x in {'A', 'F', 'B', 'D', 'E'}) &&
    st.waitingFor['A'] == {} &&
    st.waitingFor['F'] == {} &&
    st.waitingFor['B'] == {'A'} &&
    st.waitingFor['D'] == {'A'} &&
    st.waitingFor['E'] == {'B', 'D', 'F'}
  }

  ghost predicate ExampleState2(st: State)
  {
    (forall x :: x in st.waitingFor <==> x in {'F', 'B', 'D', 'E'}) &&
    st.waitingFor['F'] == {} &&
    st.waitingFor['B'] == {} &&
    st.waitingFor['D'] == {} &&
    st.waitingFor['E'] == {'B', 'D', 'F'}
  }

  ghost predicate ExampleState3(st: State)
  {
    (forall x :: x in st.waitingFor <==> x in {'F', 'D', 'E'}) &&
    st.waitingFor['F'] == {} &&
    st.waitingFor['D'] == {} &&
    st.waitingFor['E'] == {'D', 'F'}
  }

  ghost predicate ExampleState4(st: State)
  {
    (forall x :: x in st.waitingFor <==> x in {'F', 'E'}) &&
    st.waitingFor['F'] == {} &&
    st.waitingFor['E'] == {'F'}
  }

  ghost predicate ExampleState5(st: State)
  {
    (forall x :: x in st.waitingFor <==> x in {'E'}) &&
    st.waitingFor['E'] == {}
  }

  ghost predicate ExampleState6(st: State)
  {
    (forall x :: x in st.waitingFor <==> x in {})
  }

  /// In the example's state after 0 picks 'C' is picked next.
  lemma ExamplePick0(st: State)
    requires ExampleState0(st)
    ensures TopNextAvailable(st) == Success('C') && ExampleState1(ExecuteStep(st, 'C'))
  {
    TopIs(st, 'C');
  }

  /// In the example's state after 1 picks 'A' is picked next.
  lemma ExamplePick1(st: State)
    requires ExampleState1(st)
    ensures TopNextAvailable(st) == Success('A') && ExampleState2(ExecuteStep(st, 'A'))
  {
    TopIs(st, 'A');
  }

  /// In the example's state after 2 picks 'B' is picked next.
  lemma ExamplePick2(st: State)
    requires ExampleState2(st)
    ensures TopNextAvailable(st) == Success('B') && ExampleState3(ExecuteStep(st, 'B'))
  {
    TopIs(st, 'B');
  }

  /// In the example's state after 3 picks 'D' is picked next.
  lemma ExamplePick3(st: State)
    requires ExampleState3(st)
    ensures TopNextAvailable(st) == Success('D') && ExampleState4(ExecuteStep(st, 'D'))
  {
    TopIs(st, 'D');
  }

  /// In the example's state after 4 picks 'F' is picked next.
  lemma ExamplePick4(st: State)
    requires ExampleState4(st)
    ensures TopNextAvailable(st) == Success('F') && ExampleState5(ExecuteStep(st, 'F'))
  {
    TopIs(st, 'F');
  }

  /// In the example's state after 5 picks 'E' is picked next.
  lemma ExamplePick5(st: State)
    requires ExampleState5(st)
    ensures TopNextAvailable(st) == Success('E') && ExampleState6(ExecuteStep(st, 'E'))
  {
    TopIs(st, 'E');
  }

  lemma ExampleFrom5(st: State)
    requires ExampleState5(st)
    ensures Steps(RunFrom(st)) == ['E']
  {
    ExamplePick5(st);
    RunFromEnd(ExecuteStep(st, 'E'));
    RunFromStep(st, 'E', []);
  }

  lemma ExampleFrom4(st: State)
    requires ExampleState4(st)
    ensures Steps(RunFrom(st)) == ['F'] + (['E'])
  {
    ExamplePick4(st);
    ExampleFrom5(ExecuteStep(st, 'F'));
    RunFromStep(st, 'F', ['E']);
  }

  lemma ExampleFrom3(st: State)
    requires ExampleState3(st)
    ensures Steps(RunFrom(st)) == ['D'] + (['F'] + (['E']))
  {
    ExamplePick3(st);
    ExampleFrom4(ExecuteStep(st, 'D'));
    RunFromStep(st, 'D', ['F'] + (['E']));
  }

  lemma ExampleFrom2(st: State)
    requires ExampleState2(st)
    ensures Steps(RunFrom(st)) == ['B'] + (['D'] + (['F'] + (['E'])))
  {
    ExamplePick2(st);
    ExampleFrom3(ExecuteStep(st, 'B'));
    RunFromStep(st, 'B', ['D'] + (['F'] + (['E'])));
  }

  lemma ExampleFrom1(st: State)
    requires ExampleState1(st)
    ensures Steps(RunFrom(st)) == ['A'] + (['B'] + (['D'] + (['F'] + (['E']))))
  {
    ExamplePick1(st);
    ExampleFrom2(ExecuteStep(st, 'A'));
    RunFromStep(st, 'A', ['B'] + (['D'] + (['F'] + (['E']))));
  }

  lemma ExampleFrom0(st: State)
    requires ExampleState0(st)
    ensures Steps(RunFrom(st)) == ['C'] + (['A'] + (['B'] + (['D'] + (['F'] + (['E'])))))
  {
    ExamplePick0(st);
    ExampleFrom1(ExecuteStep(st, 'C'));
    RunFromStep(st, 'C', ['A'] + (['B'] + (['D'] + (['F'] + (['E'])))));
  }

  /// Rules that are the example's seven, one by one.
  ghost predicate IsExampleInput(rules: seq<StepConstraint>)
  {
    |rules| == 7 &&
    rules[0] == StepConstraint('C', 'A') && rules[1] == StepConstraint('C', 'F') &&
    rules[2] == StepConstraint('A', 'B') && rules[3] == StepConstraint('A', 'D') &&
    rules[4] == StepConstraint('B', 'E') && rules[5] == StepConstraint('D', 'E') &&
    rules[6] == StepConstraint('F', 'E')
  }

  /// The example rules name exactly the steps A to F.
  lemma ExampleNamed(rules: seq<StepConstraint>)
    requires IsExampleInput(rules)
    ensures forall x :: Named(rules, x) <==> x in {'C', 'A', 'F', 'B', 'D', 'E'}
  {
    forall x ensures Named(rules, x) <==> x in {'C', 'A', 'F', 'B', 'D', 'E'} {
      if Named(rules, x) {
        var i :| 0 <= i < |rules| && (rules[i].prereq == x || rules[i].next == x);
        assert i == 0 || i == 1 || i == 2 || i == 3 || i == 4 || i == 5 || i == 6;
      }
      if x == 'C' || x == 'A' { assert rules[0].prereq == x || rules[0].next == x; }
      if x == 'F' { assert rules[1].next == x; }
      if x == 'B' { assert rules[2].next == x; }
      if x == 'D' { assert rules[3].next == x; }
      if x == 'E' { assert rules[4].next == x; }
    }
  }

  /// What the example rules make each step wait for.
  lemma ExamplePrerequisites(rules: seq<StepConstraint>)
    requires IsExampleInput(rules)
    ensures Prerequisites(rules, 'C') == {} && Prerequisites(rules, 'A') == {'C'} && Prerequisites(rules, 'F') == {'C'}
    ensures Prerequisites(rules, 'B') == {'A'} && Prerequisites(rules, 'D') == {'A'} && Prerequisites(rules, 'E') == {'B', 'D', 'F'}
  {
    forall s, x | x in Prerequisites(rules, s) ensures
      (s == 'A' && x == 'C') || (s == 'F' && x == 'C') || (s == 'B' && x == 'A') || (s == 'D' && x == 'A') ||
      (s == 'E' && (x == 'B' || x == 'D' || x == 'F'))
    {
      var i :| 0 <= i < |rules| && rules[i].next == s && rules[i].prereq == x;
      assert i == 0 || i == 1 || i == 2 || i == 3 || i == 4 || i == 5 || i == 6;
    }
    assert rules[0].prereq in Prerequisites(rules, 'A');
    assert rules[1].prereq in Prerequisites(rules, 'F');
    assert rules[2].prereq in Prerequisites(rules, 'B');
    assert rules[3].prereq in Prerequisites(rules, 'D');
    assert rules[4].prereq in Prerequisites(rules, 'E');
    assert rules[5].prereq in Prerequisites(rules, 'E');
    assert rules[6].prereq in Prerequisites(rules, 'E');
  }

  /// The example rules start from the first example state.
  lemma ExampleStart(rules: seq<StepConstraint>)
    requires IsExampleInput(rules)
    ensures ExampleState0(Start(rules))
  {
    MakeInitialMeans(rules);
    ExampleNamed(rules);
    ExamplePrerequisites(rules);
  }

  /// The example's part 1 order (the `Part1Example` test).
  lemma Part1Example(rules: seq<StepConstraint>)
    requires IsExampleInput(rules)
    ensures Part1(rules) == "CABDFE"
  {
    ExampleStart(rules);
    ExampleFrom0(Start(rules));
    ExampleOrder();
  }

  lemma ExampleOrder()
    ensures ['C'] + (['A'] + (['B'] + (['D'] + (['F'] + (['E']))))) == "CABDFE"
  {
  }

  /// `ExampleInput` is the example's seven rules.
  lemma ExampleInputIs()
    ensures IsExampleInput(ExampleInput)
  {
  }

  /// The `Part1Example` test on `ExampleInput` itself.
  lemma Part1ExampleInput()
    ensures Part1(ExampleInput) == "CABDFE"
  {
    ExampleInputIs();
    Part1Example(ExampleInput);
  }

  /// One element of `RunPart2`: the step state, the workers and the steps
  /// completed so far.
  datatype Tick = Tick(stepState: State, serviceState: Service, stepsDone: string)

  /// Some worker is busy.
  predicate AnyBusy(workers: seq<Option<WorkInProgress>>)
  {
    exists i :: 0 <= i < |workers| && workers[i].Some?
  }

  /// `RunPart2`'s condition: go on while a worker is busy or a step is ready.
  predicate KeepGoing(t: Tick)
  {
    AnyBusy(t.serviceState.workerState) || HasNextAvailable(t.stepState)
  }

  /// `RunPart2`'s iteration with the corrected `ProcessOneSecond`.
  function Advance(t: Tick): (n: Tick)
    ensures |n.serviceState.workerState| == |t.serviceState.workerState|
  {
    var (st, svc, done) := ProcessOneSecond(t.serviceState, t.stepState);
    Tick(st, svc, t.stepsDone + done)
  }

  /// `RunPart2` with the corrected `ProcessOneSecond`, for seconds up to
  /// `fuel`; `Skip(1)` drops the starting state.
  function RunPart2(rules: seq<StepConstraint>, workers: int, baseTime: int, fuel: nat): (r: Result<seq<Tick>>)
    ensures r.Failure? <==> workers < 0
    ensures r.Success? ==> |r.value| < fuel || fuel == 0
  {
    var svc :- Create(workers, baseTime);
    Success(Skip(Generate(Tick(Start(rules), svc, ""), KeepGoing, Advance, fuel), 1))
  }

  /// `RunPart2`'s iteration with `ProcessOneSecond` as written.
  function AdvanceAsWritten(t: Tick): Result<Tick>
  {
    var (st, svc, done) :- ProcessOneSecondAsWritten(t.serviceState, t.stepState);
    Success(Tick(st, svc, t.stepsDone + done))
  }

  /// `Generate` with `ProcessOneSecond` as written: a second that throws
  /// ends the enumeration with the exception.
  function GenerateAsWritten(t: Tick, fuel: nat): Result<seq<Tick>>
    decreases fuel
  {
    if fuel == 0 || !KeepGoing(t) then Success([])
    else
      var n :- AdvanceAsWritten(t);
      var rest :- GenerateAsWritten(n, fuel - 1);
      Success([t] + rest)
  }

  /// `RunPart2` as written.
  function RunPart2AsWritten(rules: seq<StepConstraint>, workers: int, baseTime: int, fuel: nat): Result<seq<Tick>>
  {
    var svc :- Create(workers, baseTime);
    var g :- GenerateAsWritten(Tick(Start(rules), svc, ""), fuel);
    Success(Skip(g, 1))
  }

  /// As written, part 2 throws on its first second whenever there is a
  /// worker and a step to start.
  lemma RunPart2AsWrittenFails(rules: seq<StepConstraint>, workers: int, baseTime: int, fuel: nat)
    requires workers >= 1 && fuel >= 1 && HasNextAvailable(Start(rules))
    ensures RunPart2AsWritten(rules, workers, baseTime, fuel) == Failure(NullReference)
  {
    ProcessOneSecondAsWrittenFailsWhenIdle(workers, baseTime, Start(rules));
  }

  /// In particular the example run with two workers throws.
  lemma RunPart2ExampleAsWrittenFails(rules: seq<StepConstraint>, fuel: nat)
    requires IsExampleInput(rules) && fuel >= 1
    ensures RunPart2AsWritten(rules, 2, 0, fuel) == Failure(NullReference)
  {
    ExampleStart(rules);
    ExamplePick0(Start(rules));
    RunPart2AsWrittenFails(rules, 2, 0, fuel);
  }

  /// The invariant of part 2 relative to the starting state `o`: the step
  /// state is `o` with the completed steps executed, each step is completed
  /// at most once and only after all its prerequisites, and the workers
  /// are valid for the step state.
  ghost predicate Consistent(o: State, t: Tick)
  {
    Executed(o, t.stepState, t.stepsDone) &&
    Valid(t.serviceState, t.stepState) &&
    (forall a, b :: 0 <= a < b < |t.stepsDone| ==> t.stepsDone[a] != t.stepsDone[b]) &&
    (forall a :: 0 <= a < |t.stepsDone| ==>
      t.stepsDone[a] in o.waitingFor && forall p :: p in o.waitingFor[t.stepsDone[a]] ==> p in t.stepsDone[..a])
  }

  /// The steps completed in one second were being worked on, so they are
  /// known to the step state and have all their prerequisites done.
  lemma AdvanceCompletesReady(o: State, t: Tick)
    requires Consistent(o, t)
    ensures var done := ProcessOneSecond(t.serviceState, t.stepState).2;
      forall x :: x in done ==> x in t.stepState.waitingFor && t.stepState.waitingFor[x] == {}
  {
    ProcessOneSecondCompletes(t.serviceState, t.stepState);
  }

  /// One second keeps the completed steps distinct.
  lemma AdvanceDistinct(o: State, t: Tick)
    requires Consistent(o, t)
    ensures var d := Advance(t).stepsDone; forall a, b :: 0 <= a < b < |d| ==> d[a] != d[b]
  {
    var done := ProcessOneSecond(t.serviceState, t.stepState).2;
    ProcessOneSecondCompletes(t.serviceState, t.stepState);
    AdvanceCompletesReady(o, t);
    var d := Advance(t).stepsDone;
    assert d == t.stepsDone + done;
    forall a, b | 0 <= a < b < |d| ensures d[a] != d[b] {
      if a < |t.stepsDone| <= b {
        assert d[b] == done[b - |t.stepsDone|];
        assert d[b] in done;
      }
    }
  }

  /// One second completes steps only after all their prerequisites.
  lemma AdvanceOrdered(o: State, t: Tick)
    requires Consistent(o, t)
    ensures var d := Advance(t).stepsDone;
      forall a :: 0 <= a < |d| ==> d[a] in o.waitingFor && forall p :: p in o.waitingFor[d[a]] ==> p in d[..a]
  {
    var done := ProcessOneSecond(t.serviceState, t.stepState).2;
    AdvanceCompletesReady(o, t);
    var d := Advance(t).stepsDone;
    var n := |t.stepsDone|;
    assert d == t.stepsDone + done;
    forall a | 0 <= a < |d| ensures d[a] in o.waitingFor && forall p :: p in o.waitingFor[d[a]] ==> p in d[..a] {
      if a < n {
        assert d[..a] == t.stepsDone[..a];
      } else {
        var x := d[a];
        assert x == done[a - n] && x in done;
        forall p | p in o.waitingFor[x] ensures p in d[..a] {
          assert p !in t.stepState.waitingFor[x];
          var k :| 0 <= k < n && t.stepsDone[k] == p;
          assert d[..a][k] == p;
        }
      }
    }
  }

  /// One second of part 2 keeps the invariant.
  lemma AdvanceConsistent(o: State, t: Tick)
    requires Consistent(o, t)
    ensures Consistent(o, Advance(t))
  {
    ProcessOneSecondCompletes(t.serviceState, t.stepState);
    ProcessOneSecondKeepsValid(t.serviceState, t.stepState);
    var (st, svc, done) := ProcessOneSecond(t.serviceState, t.stepState);
    ExecutedCompose(o, t.stepState, st, t.stepsDone, done);
    AdvanceDistinct(o, t);
    AdvanceOrdered(o, t);
  }

  /// Every element of a generated run keeps the invariant.
  lemma GenerateConsistent(o: State, t: Tick, fuel: nat, i: int)
    requires Consistent(o, t) && 0 <= i < |Generate(t, KeepGoing, Advance, fuel)|
    ensures Consistent(o, Generate(t, KeepGoing, Advance, fuel)[i])
  {
    forall x {:trigger Advance(x)} | Consistent(o, x)
      ensures Consistent(o, Advance(x))
    {
      AdvanceConsistent(o, x);
    }
    GenerateKeeps(x => Consistent(o, x), t, KeepGoing, Advance, fuel, i);
  }

  /// Each second part 2 reports keeps the invariant relative to the
  /// rules' starting state.
  lemma RunPart2ConsistentAt(rules: seq<StepConstraint>, workers: int, baseTime: int, fuel: nat, i: int)
    requires workers >= 0
    requires 0 <= i < |RunPart2(rules, workers, baseTime, fuel).value|
    ensures Consistent(Start(rules), RunPart2(rules, workers, baseTime, fuel).value[i])
  {
    var t := Tick(Start(rules), Create(workers, baseTime).value, "");
    CreateValid(workers, baseTime, Start(rules));
    assert Consistent(Start(rules), t);
    assert RunPart2(rules, workers, baseTime, fuel).value[i] == Generate(t, KeepGoing, Advance, fuel)[i + 1];
    GenerateConsistent(Start(rules), t, fuel, i + 1);
  }

  /// Every second part 2 reports keeps the invariant relative to the
  /// rules' starting state.
  lemma RunPart2Consistent(rules: seq<StepConstraint>, workers: int, baseTime: int, fuel: nat)
    requires workers >= 0
    ensures RunPart2(rules, workers, baseTime, fuel).Success?
    ensures var r := RunPart2(rules, workers, baseTime, fuel).value;
      forall i :: 0 <= i < |r| ==> Consistent(Start(rules), r[i])
  {
    forall i | 0 <= i < |RunPart2(rules, workers, baseTime, fuel).value|
      ensures Consistent(Start(rules), RunPart2(rules, workers, baseTime, fuel).value[i])
    {
      RunPart2ConsistentAt(rules, workers, baseTime, fuel, i);
    }
  }
}
