/// The timed workers of Day07/NationalElfService.cs: each slot is idle or
/// holds a step with the minutes it still needs.
module Day07Elves {
  import opened Wrappers
  import opened Day07State

  /// `NationalElfService.WorkInProgress`.
  datatype WorkInProgress = WorkInProgress(step: char, minutesRemaining: int)

  /// `NationalElfService`: one slot per worker, `None` for the source's null.
  datatype Service = Service(workerState: seq<Option<WorkInProgress>>, baseStepTime: int)

  /// `Create`: `workerCount` idle slots; `Repeat` rejects a negative count.
  function Create(workerCount: int, baseStepTime: int): (r: Result<Service>)
    ensures r.Failure? <==> workerCount < 0
    ensures r.Failure? ==> r.error == ArgumentOutOfRange
    ensures r.Success? ==> |r.value.workerState| == workerCount && r.value.baseStepTime == baseStepTime
    ensures r.Success? ==> forall i :: 0 <= i < workerCount ==> r.value.workerState[i].None?
  {
    if workerCount < 0 then Failure(ArgumentOutOfRange)
    else Success(Service(seq(workerCount, _ => None), baseStepTime))
  }

  /// `GetStepExecutionTime`: the step's distance from 'A' plus the base time.
  function GetStepExecutionTime(baseStepTime: int, step: char): (t: int)
    ensures t == (step as int - 'A' as int) + baseStepTime
  {
    step as int - 'A' as int + baseStepTime
  }

  /// The indices of the idle slots, ascending (`Where(x => x.w == null)`).
  function IdleIndices(workers: seq<Option<WorkInProgress>>, from: nat): (r: seq<nat>)
    requires from <= |workers|
    ensures forall i :: i in r <==> from <= i < |workers| && workers[i].None?
    ensures forall k :: 0 <= k < |r| ==> from <= r[k] < |workers| && workers[r[k]].None?
    ensures forall a, b :: 0 <= a < b < |r| ==> r[a] < r[b]
    decreases |workers| - from
  {
    if from == |workers| then []
    else if workers[from].None? then [from] + IdleIndices(workers, from + 1)
    else IdleIndices(workers, from + 1)
  }

  /// `Zip`: pairs up to the shorter length.
  function Zip<A, B>(a: seq<A>, b: seq<B>): (r: seq<(A, B)>)
    ensures |r| == if |a| < |b| then |a| else |b|
    ensures forall i :: 0 <= i < |r| ==> r[i] == (a[i], b[i])
  {
    if a == [] || b == [] then [] else [(a[0], b[0])] + Zip(a[1..], b[1..])
  }

  /// The `workToStart` fold: give each paired slot its step.
  function StartWork(workers: seq<Option<WorkInProgress>>, baseStepTime: int, work: seq<(char, nat)>): (r: seq<Option<WorkInProgress>>)
    requires forall k :: 0 <= k < |work| ==> work[k].1 < |workers|
    ensures |r| == |workers|
  {
    if work == [] then workers
    else
      var last := work[|work| - 1];
      StartWork(workers, baseStepTime, work[..|work| - 1])[last.1 := Some(WorkInProgress(last.0, GetStepExecutionTime(baseStepTime, last.0)))]
  }

  /// With distinct slots, each paired slot gets its step and the others
  /// are unchanged.
  lemma {:induction false} StartWorkMeans(workers: seq<Option<WorkInProgress>>, baseStepTime: int, work: seq<(char, nat)>)
    requires forall k :: 0 <= k < |work| ==> work[k].1 < |workers|
    requires forall a, b :: 0 <= a < b < |work| ==> work[a].1 != work[b].1
    ensures forall k :: 0 <= k < |work| ==>
      StartWork(workers, baseStepTime, work)[work[k].1] == Some(WorkInProgress(work[k].0, GetStepExecutionTime(baseStepTime, work[k].0)))
    ensures forall i :: 0 <= i < |workers| && (forall k :: 0 <= k < |work| ==> work[k].1 != i) ==>
      StartWork(workers, baseStepTime, work)[i] == workers[i]
  {
    if work != [] {
      StartWorkMeans(workers, baseStepTime, work[..|work| - 1]);
    }
  }

  /// The completion pass of `ProcessOneSecond` as written: the fold reads
  /// the method's `stepState` parameter rather than the accumulated state,
  /// and an idle (null) slot is dereferenced.
  function PassAsWritten(stepState: State, workers: seq<Option<WorkInProgress>>, k: nat): (r: Result<(State, seq<Option<WorkInProgress>>, seq<char>)>)
    requires k <= |workers|
    ensures r.Success? ==> |r.value.1| == |workers|
    ensures r.Failure? <==> exists i :: 0 <= i < k && workers[i].None?
    ensures r.Failure? ==> r.error == NullReference
    ensures r.Success? ==> forall i :: k <= i < |workers| ==> r.value.1[i] == workers[i]
  {
    if k == 0 then Success((stepState, workers, []))
    else
      var prev := PassAsWritten(stepState, workers, k - 1);
      if prev.Failure? then prev
      else
        var acc := prev.value;
        var ws := acc.1[k - 1];
        if ws.None? then Failure(NullReference)
        else if ws.value.minutesRemaining == 1 then
          Success((ExecuteStep(stepState, ws.value.step), acc.1[k - 1 := None], acc.2 + [ws.value.step]))
        else
          Success((stepState, acc.1[k - 1 := Some(WorkInProgress(ws.value.step, ws.value.minutesRemaining - 1))], acc.2))
  }

  /// `ProcessOneSecond` as written.
  function ProcessOneSecondAsWritten(svc: Service, stepState: State): (r: Result<(State, Service, seq<char>)>)
    ensures r.Failure? <==> exists i :: 0 <= i < |svc.workerState| && svc.workerState[i].None?
  {
    var pass :- PassAsWritten(stepState, svc.workerState, |svc.workerState|);
    var (updatedStepState, workerState, completed) := pass;
    var workToStart := Zip(NextAvailable(updatedStepState), IdleIndices(svc.workerState, 0));
    var updated := StartWork(workerState, svc.baseStepTime, workToStart);
    Success((updatedStepState, Service(updated, svc.baseStepTime), completed))
  }

  /// As written, any idle slot makes the second fail, so a freshly created
  /// service with a worker fails on its first second.
  lemma ProcessOneSecondAsWrittenFailsWhenIdle(workerCount: int, baseStepTime: int, stepState: State)
    requires workerCount >= 1
    ensures Create(workerCount, baseStepTime).Success?
    ensures ProcessOneSecondAsWritten(Create(workerCount, baseStepTime).value, stepState) == Failure(NullReference)
  {
    var svc := Create(workerCount, baseStepTime).value;
    assert svc.workerState[0].None?;
  }

  /// As written, when two workers finish in the same second only the
  /// later one's step leaves the step state.
  lemma ProcessOneSecondAsWrittenLosesCompletion()
    ensures var st := State(map['A' := {}, 'B' := {}]);
      var svc := Service([Some(WorkInProgress('A', 1)), Some(WorkInProgress('B', 1))], 0);
      var r := ProcessOneSecondAsWritten(svc, st);
      r.Success? && r.value.2 == ['A', 'B'] && 'A' in r.value.0.waitingFor
  {
    var st := State(map['A' := {}, 'B' := {}]);
    var workers := [Some(WorkInProgress('A', 1)), Some(WorkInProgress('B', 1))];
    assert PassAsWritten(st, workers, 0) == Success((st, workers, []));
    var p1 := PassAsWritten(st, workers, 1);
    assert p1.Success? && p1.value.0 == ExecuteStep(st, 'A');
    assert p1.value.1 == workers[0 := None];
    assert p1.value.2 == ['A'];
    var p2 := PassAsWritten(st, workers, 2);
    assert p2.value.0 == ExecuteStep(st, 'B');
    assert 'A' in ExecuteStep(st, 'B').waitingFor;
  }

  /// The steps some slot is working on.
  function InProgress(workers: seq<Option<WorkInProgress>>): set<char>
  {
    set i | 0 <= i < |workers| && workers[i].Some? :: workers[i].value.step
  }

  /// The completion pass with the evident intent: idle slots are skipped
  /// and each completion is executed on the accumulated state.
  function Pass(stepState: State, workers: seq<Option<WorkInProgress>>, k: nat): (r: (State, seq<Option<WorkInProgress>>, seq<char>))
    requires k <= |workers|
    ensures |r.1| == |workers|
    ensures forall i :: k <= i < |workers| ==> r.1[i] == workers[i]
  {
    if k == 0 then (stepState, workers, [])
    else
      var acc := Pass(stepState, workers, k - 1);
      var ws := acc.1[k - 1];
      if ws.None? then acc
      else if ws.value.minutesRemaining == 1 then
        (ExecuteStep(acc.0, ws.value.step), acc.1[k - 1 := None], acc.2 + [ws.value.step])
      else
        (acc.0, acc.1[k - 1 := Some(WorkInProgress(ws.value.step, ws.value.minutesRemaining - 1))], acc.2)
  }

  /// The steps of the slots among the first `k` that finish this second.
  function Finishing(workers: seq<Option<WorkInProgress>>, k: nat): (r: seq<char>)
    requires k <= |workers|
  {
    if k == 0 then []
    else
      var ws := workers[k - 1];
      Finishing(workers, k - 1) + (if ws.Some? && ws.value.minutesRemaining == 1 then [ws.value.step] else [])
  }

  /// `after` is `before` with every step of `steps` executed: those steps
  /// are gone and nothing waits for them any more.
  ghost predicate Executed(before: State, after: State, steps: seq<char>)
  {
    (forall k :: k in after.waitingFor <==> k in before.waitingFor && k !in steps) &&
    (forall k :: k in after.waitingFor ==> forall p :: p in after.waitingFor[k] <==> p in before.waitingFor[k] && p !in steps)
  }

  /// Executing one list of steps and then another executes both.
  lemma ExecutedCompose(a: State, b: State, c: State, first: seq<char>, second: seq<char>)
    requires Executed(a, b, first) && Executed(b, c, second)
    ensures Executed(a, c, first + second)
  {
    assert forall x :: x in first + second <==> x in first || x in second;
  }

  /// The pass empties each finishing slot, counts down each other busy
  /// slot, leaves idle slots idle, reports the finishing steps in slot
  /// order, and executes every one of them.
  lemma {:induction false} PassCompleted(stepState: State, workers: seq<Option<WorkInProgress>>, k: nat)
    requires k <= |workers|
    ensures Pass(stepState, workers, k).2 == Finishing(workers, k)
  {
    if k > 0 {
      PassCompleted(stepState, workers, k - 1);
    }
  }

  lemma {:induction false} PassExecutes(stepState: State, workers: seq<Option<WorkInProgress>>, k: nat)
    requires k <= |workers|
    ensures Executed(stepState, Pass(stepState, workers, k).0, Finishing(workers, k))
  {
    if k > 0 {
      PassExecutes(stepState, workers, k - 1);
      var f := Finishing(workers, k - 1);
      assert forall x :: x in Finishing(workers, k) <==> x in f || (workers[k - 1].Some? && workers[k - 1].value.minutesRemaining == 1 && x == workers[k - 1].value.step);
    }
  }

  lemma {:induction false} PassSlots(stepState: State, workers: seq<Option<WorkInProgress>>, k: nat)
    requires k <= |workers|
    ensures forall i :: 0 <= i < k ==>
      Pass(stepState, workers, k).1[i] ==
        if workers[i].None? || workers[i].value.minutesRemaining == 1 then None
        else Some(WorkInProgress(workers[i].value.step, workers[i].value.minutesRemaining - 1))
  {
    if k > 0 {
      PassSlots(stepState, workers, k - 1);
    }
  }

  /// The entries of `s` outside `out`, in order.
  function Without(s: seq<char>, out: set<char>): (r: seq<char>)
    ensures forall x :: x in r <==> x in s && x !in out
  {
    if s == [] then []
    else
      assert forall x :: x in s <==> x == s[0] || x in s[1..];
      if s[0] in out then Without(s[1..], out) else [s[0]] + Without(s[1..], out)
  }

  /// Leaving entries out of an ascending sequence keeps it ascending.
  lemma {:induction false} AscendingWithout(s: seq<char>, out: set<char>)
    requires forall i, j :: 0 <= i < j < |s| ==> s[i] < s[j]
    ensures forall a, b :: 0 <= a < b < |Without(s, out)| ==> Without(s, out)[a] < Without(s, out)[b]
  {
    if s != [] {
      AscendingWithout(s[1..], out);
      AscendingHead(s);
      var rest := Without(s[1..], out);
      assert forall a :: 0 <= a < |rest| ==> rest[a] in s[1..];
    }
  }

  /// In a strictly ascending sequence the head is below the whole tail.
  lemma AscendingHead(s: seq<char>)
    requires s != []
    ensures (forall i, j :: 0 <= i < j < |s| ==> s[i] < s[j]) ==> forall x :: x in s[1..] ==> s[0] < x
  {
    if forall i, j :: 0 <= i < j < |s| ==> s[i] < s[j] {
      forall x | x in s[1..] ensures s[0] < x {
        var j :| 0 <= j < |s[1..]| && s[1..][j] == x;
        assert s[j + 1] == x;
      }
    }
  }

  /// The `workToStart` fold of the steps `avail` over the slots idle
  /// before the second began.
  function Started(post: seq<Option<WorkInProgress>>, baseStepTime: int, pre: seq<Option<WorkInProgress>>, avail: seq<char>): (r: seq<Option<WorkInProgress>>)
    requires |post| == |pre|
    ensures |r| == |post|
  {
    ZipIdleFacts(avail, pre);
    StartWork(post, baseStepTime, Zip(avail, IdleIndices(pre, 0)))
  }

  /// `ProcessOneSecond` with idle slots skipped, completions accumulated,
  /// and only steps nobody is working on started.
  function ProcessOneSecond(svc: Service, stepState: State): (r: (State, Service, seq<char>))
    ensures |r.1.workerState| == |svc.workerState| && r.1.baseStepTime == svc.baseStepTime
  {
    var pass := Pass(stepState, svc.workerState, |svc.workerState|);
    var updated := Started(pass.1, svc.baseStepTime, svc.workerState, Without(NextAvailable(pass.0), InProgress(pass.1)));
    (pass.0, Service(updated, svc.baseStepTime), pass.2)
  }

  /// `ProcessOneSecond` with only the completion pass corrected: every
  /// ready step is paired with an idle slot as written, whether or not a
  /// busy slot is already working on it.
  function ProcessOneSecondUnfiltered(svc: Service, stepState: State): (r: (State, Service, seq<char>))
    ensures |r.1.workerState| == |svc.workerState| && r.1.baseStepTime == svc.baseStepTime
    ensures r.0 == Pass(stepState, svc.workerState, |svc.workerState|).0
  {
    var pass := Pass(stepState, svc.workerState, |svc.workerState|);
    var updated := Started(pass.1, svc.baseStepTime, svc.workerState, NextAvailable(pass.0));
    (pass.0, Service(updated, svc.baseStepTime), pass.2)
  }

  /// Unfiltered, a step still in progress goes to an idle worker too: two
  /// idle workers, base time 0 and only C ready; the first second starts C
  /// on slot 0 for two minutes, and the second second starts C again on
  /// slot 1.
  lemma ProcessOneSecondUnfilteredRestartsStep()
    ensures var st := State(map['C' := {}]);
      var first := ProcessOneSecondUnfiltered(Service([None, None], 0), st);
      var second := ProcessOneSecondUnfiltered(first.1, first.0);
      second.1.workerState == [Some(WorkInProgress('C', 1)), Some(WorkInProgress('C', 2))] &&
      !BusyDistinct(second.1.workerState)
  {
    var st := State(map['C' := {}]);
    UnfilteredFirstSecond(st);
    UnfilteredSecondSecond(st);
    var first := ProcessOneSecondUnfiltered(Service([None, None], 0), st);
    var second := ProcessOneSecondUnfiltered(first.1, first.0);
    var both := second.1.workerState;
    assert both[0].value.step == both[1].value.step;
  }

  lemma UnfilteredFirstSecond(st: State)
    requires st.waitingFor == map['C' := {}]
    ensures ProcessOneSecondUnfiltered(Service([None, None], 0), st)
         == (st, Service([Some(WorkInProgress('C', 2)), None], 0), [])
  {
    OnlyReady(st, 'C');
    var idle: seq<Option<WorkInProgress>> := [None, None];
    assert Pass(st, idle, 1) == (st, idle, []);
    assert Pass(st, idle, 2) == (st, idle, []);
    assert IdleIndices(idle, 0) == [0, 1];
    assert Zip(['C'], [0, 1]) == [('C', 0)];
    assert [('C', 0)][..0] == [];
    assert GetStepExecutionTime(0, 'C') == 2;
    assert StartWork(idle, 0, [('C', 0)]) == [Some(WorkInProgress('C', 2)), None];
  }

  lemma UnfilteredSecondSecond(st: State)
    requires st.waitingFor == map['C' := {}]
    ensures ProcessOneSecondUnfiltered(Service([Some(WorkInProgress('C', 2)), None], 0), st)
         == (st, Service([Some(WorkInProgress('C', 1)), Some(WorkInProgress('C', 2))], 0), [])
  {
    OnlyReady(st, 'C');
    var busy := [Some(WorkInProgress('C', 2)), None];
    var counted := [Some(WorkInProgress('C', 1)), None];
    assert Pass(st, busy, 0) == (st, busy, []);
    assert busy[0 := Some(WorkInProgress('C', 1))] == counted;
    assert Pass(st, busy, 1) == (st, counted, []);
    assert Pass(st, busy, 2) == (st, counted, []);
    assert IdleIndices(busy, 0) == [1];
    assert Zip(['C'], [1]) == [('C', 1)];
    assert [('C', 1)][..0] == [];
    assert GetStepExecutionTime(0, 'C') == 2;
    assert StartWork(counted, 0, [('C', 1)]) == [Some(WorkInProgress('C', 1)), Some(WorkInProgress('C', 2))];
  }

  /// A state in which `c` is the only known step and waits for nothing has
  /// exactly `c` ready.
  lemma OnlyReady(st: State, c: char)
    requires st.waitingFor == map[c := {}]
    ensures NextAvailable(st) == [c]
  {
    var r := NextAvailable(st);
    assert c in r;
    assert forall i :: 0 <= i < |r| ==> r[i] == c;
  }

  /// The work paired with the idle slots names distinct slots, each idle.
  lemma ZipIdleFacts(avail: seq<char>, pre: seq<Option<WorkInProgress>>)
    ensures var work := Zip(avail, IdleIndices(pre, 0));
      (forall k :: 0 <= k < |work| ==> work[k].1 < |pre| && pre[work[k].1].None?) &&
      (forall a, b :: 0 <= a < b < |work| ==> work[a].1 != work[b].1)
  {
    var idle := IdleIndices(pre, 0);
    var work := Zip(avail, idle);
    assert forall k :: 0 <= k < |work| ==> work[k].1 == idle[k];
  }

  /// Starting work leaves the slots that were busy before the second alone.
  lemma StartedKeepsBusy(post: seq<Option<WorkInProgress>>, baseStepTime: int, pre: seq<Option<WorkInProgress>>, avail: seq<char>)
    requires |post| == |pre|
    ensures forall i :: 0 <= i < |pre| && pre[i].Some? ==> Started(post, baseStepTime, pre, avail)[i] == post[i]
  {
    ZipIdleFacts(avail, pre);
    StartWorkMeans(post, baseStepTime, Zip(avail, IdleIndices(pre, 0)));
  }

  /// A slot that starting work fills is the `k`th idle slot and gets the
  /// `k`th available step with its full execution time.
  lemma StartedSourceAt(post: seq<Option<WorkInProgress>>, baseStepTime: int, pre: seq<Option<WorkInProgress>>, avail: seq<char>, i: nat)
    requires |post| == |pre| && i < |pre|
    requires pre[i].None? && post[i].None? && Started(post, baseStepTime, pre, avail)[i].Some?
    ensures exists k :: (0 <= k < |avail| && k < |IdleIndices(pre, 0)| && IdleIndices(pre, 0)[k] == i &&
      Started(post, baseStepTime, pre, avail)[i] == Some(WorkInProgress(avail[k], GetStepExecutionTime(baseStepTime, avail[k]))))
  {
    var idle := IdleIndices(pre, 0);
    var work := Zip(avail, idle);
    ZipIdleFacts(avail, pre);
    StartWorkMeans(post, baseStepTime, work);
    if forall k :: 0 <= k < |work| ==> work[k].1 != i {
      assert false;
    }
    var k :| 0 <= k < |work| && work[k].1 == i;
    assert work[k] == (avail[k], idle[k]);
  }

  lemma StartedSource(post: seq<Option<WorkInProgress>>, baseStepTime: int, pre: seq<Option<WorkInProgress>>, avail: seq<char>)
    requires |post| == |pre|
    requires forall i :: 0 <= i < |pre| && pre[i].None? ==> post[i].None?
    ensures forall i :: 0 <= i < |pre| && pre[i].None? && Started(post, baseStepTime, pre, avail)[i].Some? ==>
      exists k :: (0 <= k < |avail| && k < |IdleIndices(pre, 0)| && IdleIndices(pre, 0)[k] == i &&
        Started(post, baseStepTime, pre, avail)[i] == Some(WorkInProgress(avail[k], GetStepExecutionTime(baseStepTime, avail[k]))))
  {
    forall i | 0 <= i < |pre| && pre[i].None? && Started(post, baseStepTime, pre, avail)[i].Some? {
      StartedSourceAt(post, baseStepTime, pre, avail, i);
    }
  }

  /// With the available steps ascending, two slots started in one second
  /// get different steps.
  lemma StartedDistinct(post: seq<Option<WorkInProgress>>, baseStepTime: int, pre: seq<Option<WorkInProgress>>, avail: seq<char>)
    requires |post| == |pre|
    requires forall i :: 0 <= i < |pre| && pre[i].None? ==> post[i].None?
    requires forall a, b :: 0 <= a < b < |avail| ==> avail[a] < avail[b]
    ensures var r := Started(post, baseStepTime, pre, avail);
      forall i, j :: 0 <= i < |pre| && 0 <= j < |pre| && i != j && pre[i].None? && pre[j].None? && r[i].Some? && r[j].Some? ==>
        r[i].value.step != r[j].value.step
  {
    var idle := IdleIndices(pre, 0);
    var r := Started(post, baseStepTime, pre, avail);
    StartedSource(post, baseStepTime, pre, avail);
    forall i, j | 0 <= i < |pre| && 0 <= j < |pre| && i != j && pre[i].None? && pre[j].None? && r[i].Some? && r[j].Some?
      ensures r[i].value.step != r[j].value.step
    {
      var ki :| 0 <= ki < |avail| && ki < |idle| && idle[ki] == i && r[i] == Some(WorkInProgress(avail[ki], GetStepExecutionTime(baseStepTime, avail[ki])));
      var kj :| 0 <= kj < |avail| && kj < |idle| && idle[kj] == j && r[j] == Some(WorkInProgress(avail[kj], GetStepExecutionTime(baseStepTime, avail[kj])));
      assert ki != kj;
    }
  }

  /// Over one second a busy slot counts down, or empties when it was on
  /// its last minute.
  lemma ProcessOneSecondBusySlots(svc: Service, stepState: State)
    ensures var post := ProcessOneSecond(svc, stepState).1.workerState;
      forall i :: 0 <= i < |svc.workerState| && svc.workerState[i].Some? ==>
        post[i] == if svc.workerState[i].value.minutesRemaining == 1 then None
                   else Some(WorkInProgress(svc.workerState[i].value.step, svc.workerState[i].value.minutesRemaining - 1))
  {
    var ws := svc.workerState;
    var pass := Pass(stepState, ws, |ws|);
    PassSlots(stepState, ws, |ws|);
    StartedKeepsBusy(pass.1, svc.baseStepTime, ws, Without(NextAvailable(pass.0), InProgress(pass.1)));
  }

  /// Over one second an idle slot either stays idle or starts, with its
  /// full execution time, a step that is ready once this second's
  /// completions are executed and that no busy slot is still working on.
  lemma ProcessOneSecondIdleSlots(svc: Service, stepState: State)
    ensures var (updated, next, _) := ProcessOneSecond(svc, stepState);
      forall i :: 0 <= i < |svc.workerState| && svc.workerState[i].None? && next.workerState[i].Some? ==>
        var x := next.workerState[i].value.step;
        next.workerState[i].value.minutesRemaining == GetStepExecutionTime(svc.baseStepTime, x) &&
        x in updated.waitingFor && updated.waitingFor[x] == {} &&
        forall j :: 0 <= j < |svc.workerState| && svc.workerState[j].Some? && svc.workerState[j].value.minutesRemaining != 1 ==>
          svc.workerState[j].value.step != x
  {
    var ws := svc.workerState;
    var pass := Pass(stepState, ws, |ws|);
    var avail := Without(NextAvailable(pass.0), InProgress(pass.1));
    PassSlots(stepState, ws, |ws|);
    StartedSource(pass.1, svc.baseStepTime, ws, avail);
    forall j | 0 <= j < |ws| && ws[j].Some? && ws[j].value.minutesRemaining != 1
      ensures ws[j].value.step in InProgress(pass.1)
    {
      assert pass.1[j].Some? && pass.1[j].value.step == ws[j].value.step;
    }
  }

  /// Two slots idle before a second never start the same step in it.
  lemma ProcessOneSecondStartsDistinct(svc: Service, stepState: State)
    ensures var next := ProcessOneSecond(svc, stepState).1.workerState;
      forall i, j :: (0 <= i < |svc.workerState| && 0 <= j < |svc.workerState| && i != j &&
        svc.workerState[i].None? && svc.workerState[j].None? && next[i].Some? && next[j].Some?) ==>
        next[i].value.step != next[j].value.step
  {
    var ws := svc.workerState;
    var pass := Pass(stepState, ws, |ws|);
    PassSlots(stepState, ws, |ws|);
    AscendingWithout(NextAvailable(pass.0), InProgress(pass.1));
    StartedDistinct(pass.1, svc.baseStepTime, ws, Without(NextAvailable(pass.0), InProgress(pass.1)));
  }

  /// The finishing steps are those of the slots on their last minute.
  lemma {:induction false} FinishingMembers(workers: seq<Option<WorkInProgress>>, k: nat)
    requires k <= |workers|
    ensures forall x :: x in Finishing(workers, k) <==>
      exists j :: 0 <= j < k && workers[j].Some? && workers[j].value.minutesRemaining == 1 && workers[j].value.step == x
  {
    if k > 0 {
      FinishingMembers(workers, k - 1);
    }
  }

  /// Busy slots work on different steps.
  ghost predicate BusyDistinct(workers: seq<Option<WorkInProgress>>)
  {
    forall i, j :: 0 <= i < |workers| && 0 <= j < |workers| && i != j && workers[i].Some? && workers[j].Some? ==>
      workers[i].value.step != workers[j].value.step
  }

  /// When busy slots work on different steps, no step finishes twice.
  lemma {:induction false} FinishingDistinct(workers: seq<Option<WorkInProgress>>, k: nat)
    requires k <= |workers| && BusyDistinct(workers)
    ensures forall a, b :: 0 <= a < b < |Finishing(workers, k)| ==> Finishing(workers, k)[a] != Finishing(workers, k)[b]
  {
    if k > 0 {
      FinishingDistinct(workers, k - 1);
      FinishingMembers(workers, k - 1);
      var f := Finishing(workers, k - 1);
      var w := workers[k - 1];
      if w.Some? && w.value.minutesRemaining == 1 {
        if w.value.step in f {
          var j :| 0 <= j < k - 1 && workers[j].Some? && workers[j].value.minutesRemaining == 1 && workers[j].value.step == w.value.step;
          assert false;
        }
        assert Finishing(workers, k) == f + [w.value.step];
      }
    }
  }

  /// One second reports as done exactly the steps of the slots on their
  /// last minute, each once, and executes all of them.
  lemma ProcessOneSecondCompletes(svc: Service, stepState: State)
    ensures var (updated, _, done) := ProcessOneSecond(svc, stepState);
      (forall x :: x in done <==> exists j :: (0 <= j < |svc.workerState| && svc.workerState[j].Some? &&
        svc.workerState[j].value.minutesRemaining == 1 && svc.workerState[j].value.step == x)) &&
      Executed(stepState, updated, done)
    ensures BusyDistinct(svc.workerState) ==> var done := ProcessOneSecond(svc, stepState).2;
      forall a, b :: 0 <= a < b < |done| ==> done[a] != done[b]
  {
    var ws := svc.workerState;
    PassCompleted(stepState, ws, |ws|);
    PassExecutes(stepState, ws, |ws|);
    FinishingMembers(ws, |ws|);
    if BusyDistinct(ws) {
      FinishingDistinct(ws, |ws|);
    }
  }

  /// The service invariant: every busy slot works on a known step that
  /// waits for nothing, and no two busy slots share a step.
  ghost predicate Valid(svc: Service, stepState: State)
  {
    (forall i :: 0 <= i < |svc.workerState| && svc.workerState[i].Some? ==>
      svc.workerState[i].value.step in stepState.waitingFor && stepState.waitingFor[svc.workerState[i].value.step] == {}) &&
    BusyDistinct(svc.workerState)
  }

  /// A freshly created service is valid for any step state.
  lemma CreateValid(workerCount: int, baseStepTime: int, stepState: State)
    requires workerCount >= 0
    ensures Valid(Create(workerCount, baseStepTime).value, stepState)
  {
  }

  /// A step a slot keeps working on is not among this second's completions.
  lemma KeptStepNotDone(svc: Service, stepState: State, i: nat)
    requires Valid(svc, stepState) && i < |svc.workerState|
    requires svc.workerState[i].Some? && svc.workerState[i].value.minutesRemaining != 1
    ensures var (updated, _, _) := ProcessOneSecond(svc, stepState);
      var x := svc.workerState[i].value.step;
      x in updated.waitingFor && updated.waitingFor[x] == {}
  {
    var ws := svc.workerState;
    var (updated, _, done) := ProcessOneSecond(svc, stepState);
    ProcessOneSecondCompletes(svc, stepState);
    var x := ws[i].value.step;
    if x in done {
      var j :| 0 <= j < |ws| && ws[j].Some? && ws[j].value.minutesRemaining == 1 && ws[j].value.step == x;
      assert false;
    }
    if p :| p in updated.waitingFor[x] {
      assert false;
    }
  }

  /// After one second every busy slot works on a known step that waits
  /// for nothing.
  lemma ProcessOneSecondKeepsReady(svc: Service, stepState: State)
    requires Valid(svc, stepState)
    ensures var (updated, next, _) := ProcessOneSecond(svc, stepState);
      forall i :: 0 <= i < |next.workerState| && next.workerState[i].Some? ==>
        next.workerState[i].value.step in updated.waitingFor && updated.waitingFor[next.workerState[i].value.step] == {}
  {
    var ws := svc.workerState;
    var (updated, next, done) := ProcessOneSecond(svc, stepState);
    var post := next.workerState;
    ProcessOneSecondBusySlots(svc, stepState);
    ProcessOneSecondIdleSlots(svc, stepState);
    forall i | 0 <= i < |post| && post[i].Some?
      ensures post[i].value.step in updated.waitingFor && updated.waitingFor[post[i].value.step] == {}
    {
      if ws[i].Some? {
        KeptStepNotDone(svc, stepState, i);
      }
    }
  }

  /// After one second no two busy slots share a step.
  lemma ProcessOneSecondKeepsDistinct(svc: Service, stepState: State)
    requires Valid(svc, stepState)
    ensures BusyDistinct(ProcessOneSecond(svc, stepState).1.workerState)
  {
    var ws := svc.workerState;
    var post := ProcessOneSecond(svc, stepState).1.workerState;
    ProcessOneSecondBusySlots(svc, stepState);
    ProcessOneSecondIdleSlots(svc, stepState);
    ProcessOneSecondStartsDistinct(svc, stepState);
    forall i, j | 0 <= i < |post| && 0 <= j < |post| && i != j && post[i].Some? && post[j].Some?
      ensures post[i].value.step != post[j].value.step
    {
      if ws[i].Some? && ws[j].Some? {
        assert post[i].value.step == ws[i].value.step;
      }
    }
  }

  /// One second keeps the service invariant, with the step state updated.
  lemma ProcessOneSecondKeepsValid(svc: Service, stepState: State)
    requires Valid(svc, stepState)
    ensures var (updated, next, _) := ProcessOneSecond(svc, stepState); Valid(next, updated)
  {
    ProcessOneSecondKeepsReady(svc, stepState);
    ProcessOneSecondKeepsDistinct(svc, stepState);
  }
}
