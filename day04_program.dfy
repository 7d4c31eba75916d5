/// Guard records in timestamp order (Day04/Program.cs): each line is
/// dispatched to a state transition, and part 1 multiplies the most asleep
/// guard's id by the minute that guard was most often asleep.
module Day04Program {
  import opened Wrappers
  import opened Day04State

  /// The three kinds of record line (`INotifications`).
  datatype Notification = BeginShift(guardId: int) | FallsAsleep | WakesUp

  type Record = (Time, Notification)

  /// What handling one record does to the state.
  function Apply(s: State, rec: Record): (r: Result<State>)
    requires Valid(s)
    ensures r.Success? ==> Valid(r.value)
  {
    match rec.1
    case BeginShift(id) => ChangeGuard(s, id, rec.0)
    case FallsAsleep => GuardSleeps(s, rec.0)
    case WakesUp => GuardWakes(s, rec.0)
  }

  /// `NotifyReceiver`: holds the state while one record's callback runs. A
  /// transition that throws leaves the state as it was and reports its
  /// error.
  class NotifyReceiver {
    var state: State
    const dateTime: Time

    constructor(state: State, dateTime: Time)
      ensures this.state == state && this.dateTime == dateTime
    {
      this.state := state;
      this.dateTime := dateTime;
    }

    method BeginShift(guardId: int) returns (error: Option<Error>)
      requires Valid(state)
      modifies this
      ensures var r := ChangeGuard(old(state), guardId, dateTime);
        if r.Success? then state == r.value && error == None
        else state == old(state) && error == Some(r.error)
    {
      var r := ChangeGuard(state, guardId, dateTime);
      if r.Success? {
        state := r.value;
        error := None;
      } else {
        error := Some(r.error);
      }
    }

    method FallsAsleep() returns (error: Option<Error>)
      requires Valid(state)
      modifies this
      ensures var r := GuardSleeps(old(state), dateTime);
        if r.Success? then state == r.value && error == None
        else state == old(state) && error == Some(r.error)
    {
      var r := GuardSleeps(state, dateTime);
      if r.Success? {
        state := r.value;
        error := None;
      } else {
        error := Some(r.error);
      }
    }

    method WakesUp() returns (error: Option<Error>)
      requires Valid(state)
      modifies this
      ensures var r := GuardWakes(old(state), dateTime);
        if r.Success? then state == r.value && error == None
        else state == old(state) && error == Some(r.error)
    {
      var r := GuardWakes(state, dateTime);
      if r.Success? {
        state := r.value;
        error := None;
      } else {
        error := Some(r.error);
      }
    }
  }

  /// `ProcessNotification`: a fresh receiver for the record's time, the
  /// record's callback, then the receiver's state.
  method ProcessNotification(state: State, rec: Record) returns (r: Result<State>)
    requires Valid(state)
    ensures r == Apply(state, rec)
  {
    var nr := new NotifyReceiver(state, rec.0);
    var error: Option<Error>;
    match rec.1 {
      case BeginShift(id) => error := nr.BeginShift(id);
      case FallsAsleep => error := nr.FallsAsleep();
      case WakesUp => error := nr.WakesUp();
    }
    if error.Some? {
      r := Failure(error.value);
    } else {
      r := Success(nr.state);
    }
  }

  /// `Aggregate(State.Initial, ProcessNotification)`: the first failing
  /// record ends the run.
  function Run(s: State, items: seq<Record>): (r: Result<State>)
    requires Valid(s)
    ensures r.Success? ==> Valid(r.value)
    decreases |items|
  {
    if items == [] then Success(s)
    else
      var next :- Apply(s, items[0]);
      Run(next, items[1..])
  }

  /// A failing record makes the whole run fail with its error; otherwise
  /// the run continues from the record's result.
  lemma RunStep(s: State, rec: Record, rest: seq<Record>)
    requires Valid(s)
    ensures Apply(s, rec).Failure? ==> Run(s, [rec] + rest) == Failure(Apply(s, rec).error)
    ensures Apply(s, rec).Success? ==> Run(s, [rec] + rest) == Run(Apply(s, rec).value, rest)
  {
    assert ([rec] + rest)[0] == rec && ([rec] + rest)[1..] == rest;
  }

  lemma {:induction false} RunAppend(s: State, xs: seq<Record>, ys: seq<Record>)
    requires Valid(s)
    ensures Run(s, xs + ys) == (match Run(s, xs) case Success(m) => Run(m, ys) case Failure(e) => Failure(e))
    decreases |xs|
  {
    if xs == [] {
      assert xs + ys == ys;
    } else {
      RunStep(s, xs[0], xs[1..] + ys);
      assert xs + ys == [xs[0]] + (xs[1..] + ys);
      RunStep(s, xs[0], xs[1..]);
      assert xs == [xs[0]] + xs[1..];
      if Apply(s, xs[0]).Success? {
        RunAppend(Apply(s, xs[0]).value, xs[1..], ys);
      }
    }
  }

  predicate SortedByTime(s: seq<Record>)
  {
    forall i, j :: 0 <= i < j < |s| ==> s[i].0 <= s[j].0
  }

  /// Inserts `x` before the first record that is not earlier, so records
  /// with equal times keep their order.
  function Insert(x: Record, s: seq<Record>): (r: seq<Record>)
    ensures multiset(r) == multiset(s) + multiset{x}
    decreases |s|
  {
    if s == [] || x.0 <= s[0].0 then [x] + s
    else
      assert s == [s[0]] + s[1..];
      [s[0]] + Insert(x, s[1..])
  }

  lemma {:induction false} InsertSorted(x: Record, s: seq<Record>)
    requires SortedByTime(s)
    ensures SortedByTime(Insert(x, s))
    decreases |s|
  {
    if s != [] && x.0 > s[0].0 {
      var rest := Insert(x, s[1..]);
      InsertSorted(x, s[1..]);
      assert Insert(x, s) == [s[0]] + rest;
      forall k | 0 <= k < |rest| ensures s[0].0 <= rest[k].0 {
        assert rest[k] in multiset(rest);
        if rest[k] != x {
          assert rest[k] in multiset(s[1..]);
          var j :| 0 <= j < |s[1..]| && s[1..][j] == rest[k];
          assert s[j + 1] == rest[k];
        }
      }
    }
  }

  /// `OrderBy(l => l.dateTime)`.
  function SortByTime(items: seq<Record>): (r: seq<Record>)
    ensures SortedByTime(r)
    ensures multiset(r) == multiset(items)
  {
    if items == [] then []
    else
      assert items == [items[0]] + items[1..];
      var rest := SortByTime(items[1..]);
      InsertSorted(items[0], rest);
      Insert(items[0], rest)
  }

  lemma HasKey<V>(m: map<int, V>)
    requires m != map[]
    ensures exists k :: k in m
  {
    if forall k :: k !in m {
      assert false;
    }
  }

  ghost function PickKey<V>(m: map<int, V>): (k: int)
    requires m != map[]
    ensures k in m
  {
    HasKey(m);
    var k :| k in m; k
  }

  /// The order a dictionary enumerates its keys in: every key exactly once,
  /// in an order the source does not define.
  ghost function KeyOrder<V>(m: map<int, V>): (ks: seq<int>)
    ensures forall k :: k in ks <==> k in m
    ensures forall i, j :: 0 <= i < j < |ks| ==> ks[i] != ks[j]
    ensures |ks| == |m|
    decreases |m|
  {
    if m == map[] then []
    else
      var k := PickKey(m);
      var rest := KeyOrder(m - {k});
      assert |m - {k}| == |m| - 1;
      rest + [k]
  }

  /// `OrderBy(score).Last()`: the stable sort puts equal scores in their
  /// original order, so the result is the last of the highest scores.
  function LastMaxIndex(scores: seq<int>): (i: nat)
    requires |scores| > 0
    ensures i < |scores|
    ensures forall j :: 0 <= j < |scores| ==> scores[j] <= scores[i]
    ensures forall j :: i < j < |scores| ==> scores[j] < scores[i]
    decreases |scores|
  {
    if |scores| == 1 then 0
    else
      var i := LastMaxIndex(scores[..|scores| - 1]);
      if scores[|scores| - 1] >= scores[i] then |scores| - 1 else i
  }

  ghost function GuardTotals(slots: Slots, guards: seq<int>): (r: seq<int>)
    requires forall i :: 0 <= i < |guards| ==> guards[i] in slots
    ensures |r| == |guards|
    ensures forall i :: 0 <= i < |guards| ==> r[i] == TotalAsleep(slots[guards[i]])
  {
    seq(|guards|, i requires 0 <= i < |guards| => TotalAsleep(slots[guards[i]]))
  }

  function MinuteCounts(counts: map<int, int>, minutes: seq<int>): (r: seq<int>)
    requires forall i :: 0 <= i < |minutes| ==> minutes[i] in counts
    ensures |r| == |minutes|
    ensures forall i :: 0 <= i < |minutes| ==> r[i] == counts[minutes[i]]
  {
    seq(|minutes|, i requires 0 <= i < |minutes| => counts[minutes[i]])
  }

  /// `GuardSleepSlots.OrderBy(total).Last().Key`: a guard with the largest
  /// total; guards enumerated after it have a smaller one.
  ghost function MostAsleepGuard(slots: Slots): (g: int)
    requires slots != map[]
    ensures g in slots
    ensures forall h :: h in slots ==> TotalAsleep(slots[h]) <= TotalAsleep(slots[g])
    ensures forall i, j :: 0 <= i < j < |KeyOrder(slots)| && KeyOrder(slots)[i] == g ==>
      TotalAsleep(slots[KeyOrder(slots)[j]]) < TotalAsleep(slots[g])
  {
    var guards := KeyOrder(slots);
    var totals := GuardTotals(slots, guards);
    var gi := LastMaxIndex(totals);
    GuardChoice(slots, guards, totals, gi);
    guards[gi]
  }

  lemma GuardChoice(slots: Slots, guards: seq<int>, totals: seq<int>, gi: nat)
    requires guards == KeyOrder(slots) && guards != []
    requires totals == GuardTotals(slots, guards) && gi == LastMaxIndex(totals)
    ensures forall h :: h in slots ==> TotalAsleep(slots[h]) <= TotalAsleep(slots[guards[gi]])
    ensures forall i, j :: 0 <= i < j < |guards| && guards[i] == guards[gi] ==>
      TotalAsleep(slots[guards[j]]) < TotalAsleep(slots[guards[gi]])
  {
    forall h | h in slots ensures TotalAsleep(slots[h]) <= TotalAsleep(slots[guards[gi]]) {
      var j :| 0 <= j < |guards| && guards[j] == h;
      assert totals[j] <= totals[gi];
    }
    forall i, j | 0 <= i < j < |guards| && guards[i] == guards[gi]
      ensures TotalAsleep(slots[guards[j]]) < TotalAsleep(slots[guards[gi]])
    {
      assert i == gi;
      assert totals[j] < totals[gi];
    }
  }

  /// `mostAsleep.Value.OrderBy(kv => kv.Value).Last().Key`: a minute with the
  /// largest count; minutes enumerated after it have a smaller one.
  ghost function MostAsleepMinute(counts: map<int, int>): (m: int)
    requires counts != map[]
    ensures m in counts
    ensures forall n :: n in counts ==> counts[n] <= counts[m]
    ensures forall i, j :: 0 <= i < j < |KeyOrder(counts)| && KeyOrder(counts)[i] == m ==>
      counts[KeyOrder(counts)[j]] < counts[m]
  {
    var minutes := KeyOrder(counts);
    var values := MinuteCounts(counts, minutes);
    var mi := LastMaxIndex(values);
    MinuteChoice(counts, minutes, values, mi);
    minutes[mi]
  }

  lemma MinuteChoice(counts: map<int, int>, minutes: seq<int>, values: seq<int>, mi: nat)
    requires minutes == KeyOrder(counts) && minutes != []
    requires values == MinuteCounts(counts, minutes) && mi == LastMaxIndex(values)
    ensures forall n :: n in counts ==> counts[n] <= counts[minutes[mi]]
    ensures forall i, j :: 0 <= i < j < |minutes| && minutes[i] == minutes[mi] ==>
      counts[minutes[j]] < counts[minutes[mi]]
  {
    forall n | n in counts ensures counts[n] <= counts[minutes[mi]] {
      var j :| 0 <= j < |minutes| && minutes[j] == n;
      assert values[j] <= values[mi];
    }
    forall i, j | 0 <= i < j < |minutes| && minutes[i] == minutes[mi]
      ensures counts[minutes[j]] < counts[minutes[mi]]
    {
      assert i == mi;
      assert values[j] < values[mi];
    }
  }

  /// The chosen guard and minute; `Last()` of an empty sequence is
  /// `InvalidOperation`, both when no guard has slots and when the chosen
  /// guard has no minute recorded.
  ghost function MostAsleep(slots: Slots): (r: Result<(int, int)>)
    ensures r.Failure? <==> slots == map[] || slots[MostAsleepGuard(slots)] == map[]
    ensures r.Failure? ==> r.error == InvalidOperation
    ensures r.Success? ==> r.value == (MostAsleepGuard(slots), MostAsleepMinute(slots[MostAsleepGuard(slots)]))
  {
    if slots == map[] then Failure(InvalidOperation)
    else
      var g := MostAsleepGuard(slots);
      if slots[g] == map[] then Failure(InvalidOperation)
      else Success((g, MostAsleepMinute(slots[g])))
  }

  /// `Part1`: the records in time order from `State.Initial`, then the
  /// most asleep guard's id times that guard's most asleep minute.
  ghost function Part1(items: seq<Record>): Result<int>
  {
    var final :- Run(Initial, SortByTime(items));
    var choice :- MostAsleep(final.guardSleepSlots);
    Success(choice.0 * choice.1)
  }

  /// Part 1 succeeds exactly when the sorted run succeeds and the choice
  /// exists, with the product of the chosen guard and minute.
  lemma Part1Means(items: seq<Record>)
    ensures Part1(items).Success? <==>
      Run(Initial, SortByTime(items)).Success? && MostAsleep(Run(Initial, SortByTime(items)).value.guardSleepSlots).Success?
    ensures Part1(items).Success? ==>
      var c := MostAsleep(Run(Initial, SortByTime(items)).value.guardSleepSlots).value;
      Part1(items).value == c.0 * c.1
  {
  }
}
