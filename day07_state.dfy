/// The step-dependency state of Day07/State.cs: for every known step, the
/// set of steps it is still waiting for.
module Day07State {
  import opened Wrappers

  /// `StepConstraint`: `prereq` must finish before `next` (the source's
  /// `Then`) can begin.
  datatype StepConstraint = StepConstraint(prereq: char, next: char)

  /// `State`, reduced to its `WaitingForByState` dictionary.
  datatype State = State(waitingFor: map<char, set<char>>)

  /// `AddPrequisitesToRules`: record that `rule.next` waits on `rule.prereq`.
  function AddPrerequisite(d: map<char, set<char>>, rule: StepConstraint): (r: map<char, set<char>>)
    ensures r.Keys == d.Keys + {rule.next}
    ensures r[rule.next] == (if rule.next in d then d[rule.next] else {}) + {rule.prereq}
    ensures forall k :: k in d && k != rule.next ==> r[k] == d[k]
  {
    if rule.next in d then d[rule.next := d[rule.next] + {rule.prereq}]
    else d[rule.next := {rule.prereq}]
  }

  /// `EnsureStepKnown`: add `step` with nothing to wait for, unless known.
  function EnsureStepKnown(d: map<char, set<char>>, step: char): (r: map<char, set<char>>)
    ensures r.Keys == d.Keys + {step}
    ensures forall k :: k in d ==> r[k] == d[k]
    ensures step !in d ==> r[step] == {}
  {
    if step in d then d else d[step := {}]
  }

  /// `MakeInitialWaitingForByState`: the rules folded left to right.
  function MakeInitial(rules: seq<StepConstraint>): map<char, set<char>>
  {
    if rules == [] then map[]
    else
      var rule := rules[|rules| - 1];
      EnsureStepKnown(AddPrerequisite(MakeInitial(rules[..|rules| - 1]), rule), rule.prereq)
  }

  /// Every step some rule names.
  ghost predicate Named(rules: seq<StepConstraint>, s: char)
  {
    exists i :: 0 <= i < |rules| && (rules[i].prereq == s || rules[i].next == s)
  }

  /// The prerequisites the rules give `s`.
  function Prerequisites(rules: seq<StepConstraint>, s: char): set<char>
  {
    set i | 0 <= i < |rules| && rules[i].next == s :: rules[i].prereq
  }

  /// `Start` knows exactly the steps the rules name, and each one waits
  /// exactly on its prerequisites.
  lemma {:induction false} MakeInitialMeans(rules: seq<StepConstraint>)
    ensures forall s :: s in MakeInitial(rules) <==> Named(rules, s)
    ensures forall s :: s in MakeInitial(rules) ==> MakeInitial(rules)[s] == Prerequisites(rules, s)
  {
    if rules != [] {
      var init := rules[..|rules| - 1];
      var rule := rules[|rules| - 1];
      MakeInitialMeans(init);
      forall s ensures Named(rules, s) <==> Named(init, s) || s == rule.prereq || s == rule.next {
        if Named(rules, s) {
          var i :| 0 <= i < |rules| && (rules[i].prereq == s || rules[i].next == s);
          if i < |init| {
            assert init[i] == rules[i];
          }
        }
        if Named(init, s) {
          var i :| 0 <= i < |init| && (init[i].prereq == s || init[i].next == s);
          assert rules[i] == init[i];
        }
        assert rules[|rules| - 1] == rule;
      }
      forall s | s in MakeInitial(rules) ensures MakeInitial(rules)[s] == Prerequisites(rules, s) {
        PrerequisitesSnoc(rules, s);
      }
    }
  }

  lemma PrerequisitesSnoc(rules: seq<StepConstraint>, s: char)
    requires rules != []
    ensures Prerequisites(rules, s) ==
      Prerequisites(rules[..|rules| - 1], s) + (if rules[|rules| - 1].next == s then {rules[|rules| - 1].prereq} else {})
  {
    var init := rules[..|rules| - 1];
    forall x ensures x in Prerequisites(rules, s) <==>
      x in Prerequisites(init, s) || (rules[|rules| - 1].next == s && x == rules[|rules| - 1].prereq)
    {
      if x in Prerequisites(rules, s) {
        var i :| 0 <= i < |rules| && rules[i].next == s && rules[i].prereq == x;
        if i < |init| {
          assert init[i] == rules[i];
        }
      }
      if x in Prerequisites(init, s) {
        var i :| 0 <= i < |init| && init[i].next == s && init[i].prereq == x;
        assert rules[i] == init[i];
      }
    }
  }

  /// `State.Start`.
  function Start(rules: seq<StepConstraint>): State
  {
    State(MakeInitial(rules))
  }

  /// A non-empty set of steps has a member to pick.
  lemma HasStep(s: set<char>)
    requires |s| > 0
    ensures exists a :: a in s
  {
    if forall a :: a !in s {
      assert false;
    }
  }

  /// A non-empty set of steps has a least member.
  lemma {:induction false} HasLeast(s: set<char>)
    requires s != {}
    ensures exists m :: m in s && forall x :: x in s ==> m <= x
    decreases |s|
  {
    HasStep(s);
    var a :| a in s;
    if s != {a} {
      HasLeast(s - {a});
      var m :| m in s - {a} && forall x :: x in s - {a} ==> m <= x;
      assert forall x :: x in s ==> x == a || x in s - {a};
      if a < m {
        assert forall x :: x in s ==> a <= x;
      } else {
        assert forall x :: x in s ==> m <= x;
      }
    }
  }

  /// The least step of a non-empty set.
  function Least(s: set<char>): (m: char)
    requires s != {}
    ensures m in s && forall x :: x in s ==> m <= x
  {
    HasLeast(s);
    var m :| m in s && forall x :: x in s ==> m <= x;
    m
  }

  /// `OrderBy(key)`: a set of steps in ascending order.
  function Ascending(s: set<char>): (r: seq<char>)
    ensures forall x :: x in r <==> x in s
    ensures forall i, j :: 0 <= i < j < |r| ==> r[i] < r[j]
    ensures |r| == |s|
    decreases |s|
  {
    if s == {} then []
    else
      var m := Least(s);
      var rest := Ascending(s - {m});
      assert forall x :: x in s <==> x == m || x in s - {m};
      [m] + rest
  }

  /// The known steps that wait for nothing.
  function Ready(st: State): set<char>
  {
    set k | k in st.waitingFor && st.waitingFor[k] == {}
  }

  /// `NextAvailable`: the ready steps, in ascending order.
  function NextAvailable(st: State): (r: seq<char>)
    ensures forall x :: x in r <==> x in st.waitingFor && st.waitingFor[x] == {}
    ensures forall i, j :: 0 <= i < j < |r| ==> r[i] < r[j]
  {
    Ascending(Ready(st))
  }

  /// `HasNextAvailable`.
  predicate HasNextAvailable(st: State)
  {
    |NextAvailable(st)| > 0
  }

  /// `TopNextAvailable`: the least ready step; it throws when none is ready.
  function TopNextAvailable(st: State): (r: Result<char>)
    ensures r.Failure? <==> !HasNextAvailable(st)
    ensures r.Failure? ==> r.error == InvalidOperation
    ensures r.Success? ==> r.value in st.waitingFor && st.waitingFor[r.value] == {}
    ensures r.Success? ==> forall x :: x in st.waitingFor && st.waitingFor[x] == {} ==> r.value <= x
  {
    var next := NextAvailable(st);
    if |next| > 0 then
      assert forall i :: 0 < i < |next| ==> next[0] < next[i];
      Success(next[0])
    else Failure(InvalidOperation)
  }

  /// `ExecuteStep`: drop `step`, and stop everything waiting for it.
  function ExecuteStep(st: State, step: char): (r: State)
    ensures r.waitingFor.Keys == st.waitingFor.Keys - {step}
    ensures forall k :: k in r.waitingFor ==> r.waitingFor[k] == st.waitingFor[k] - {step}
  {
    State(map k | k in st.waitingFor && k != step :: st.waitingFor[k] - {step})
  }

  /// Executing a known step removes exactly one step.
  lemma ExecuteStepCount(st: State, step: char)
    requires step in st.waitingFor
    ensures |ExecuteStep(st, step).waitingFor| == |st.waitingFor| - 1
  {
    assert ExecuteStep(st, step).waitingFor.Keys == st.waitingFor.Keys - {step};
  }
}
