/// Guard shift records (Day04/State.cs): the state reached after each
/// notification, with the number of days each guard was seen asleep in each
/// minute of the midnight hour.
module Day04State {
  import opened Wrappers

  /// A timestamp, as whole minutes since midnight of day 0.
  type Time = nat

  const MinutesPerDay := 1440

  function Day(t: Time): nat { t / MinutesPerDay }
  function Hour(t: Time): nat { (t % MinutesPerDay) / 60 }
  function Minute(t: Time): nat { t % 60 }

  /// `GetMinutes`: minutes past midnight.
  function GetMinutes(t: Time): (r: nat)
    ensures r == t % MinutesPerDay && r < MinutesPerDay
  {
    var q := t % MinutesPerDay;
    assert t == MinutesPerDay * (t / MinutesPerDay) + q;
    assert t == 60 * (24 * (t / MinutesPerDay) + q / 60) + q % 60;
    Hour(t) * 60 + Minute(t)
  }

  /// Guard id to (minute to number of days asleep in that minute).
  type Slots = map<int, map<int, int>>

  datatype State = State(
    guardSleepSlots: Slots,
    guardId: Option<int>,
    currentlyAwake: Option<bool>,
    lastChangeTime: Option<Time>)

  /// `State.Initial`: no slots and no guard yet.
  const Initial := State(map[], None, None, None)

  /// The states the transitions can produce: the three optional fields are
  /// set together, and an asleep guard fell asleep in the midnight hour.
  predicate Valid(s: State)
  {
    s.guardId.Some? == s.currentlyAwake.Some? &&
    s.guardId.Some? == s.lastChangeTime.Some? &&
    (s.currentlyAwake == Some(false) ==> Hour(s.lastChangeTime.value) == 0)
  }

  /// Days asleep recorded for `guard` at `minute` (0 when not recorded).
  function SlotCount(slots: Slots, guard: int, minute: int): int
  {
    if guard in slots && minute in slots[guard] then slots[guard][minute] else 0
  }

  /// One more day asleep at `minute`.
  function Bump(counts: map<int, int>, minute: int): (r: map<int, int>)
    ensures r.Keys == counts.Keys + {minute}
  {
    if minute in counts then counts[minute := counts[minute] + 1] else counts[minute := 1]
  }

  /// The inner `Aggregate` of `AddSleepyTime` over `Range(start, end - start + 1)`.
  function BumpRange(counts: map<int, int>, start: int, end: int): (r: map<int, int>)
    ensures forall m :: m in r <==> m in counts || start <= m <= end
    ensures forall m :: m in r ==>
      r[m] == (if m in counts then counts[m] else 0) + (if start <= m <= end then 1 else 0)
    decreases end - start + 1
  {
    if end < start then counts else BumpRange(Bump(counts, start), start + 1, end)
  }

  /// `AddSleepyTime`: the guard gains one day asleep in each minute of
  /// [start, end]; a negative range length is `ArgumentOutOfRange`. A guard
  /// with no counts yet starts from the empty map, which gives the count 1
  /// for each minute of the range, as the source's `CreateRange` does.
  function AddSleepyTime(slots: Slots, guard: int, start: int, end: int): (r: Result<Slots>)
    ensures r.Failure? <==> end - start + 1 < 0
    ensures r.Failure? ==> r.error == ArgumentOutOfRange
    ensures r.Success? ==> r.value.Keys == slots.Keys + {guard}
    ensures r.Success? ==> forall g, m ::
      SlotCount(r.value, g, m) == SlotCount(slots, g, m) + (if g == guard && start <= m <= end then 1 else 0)
    ensures r.Success? ==> forall m :: m in r.value[guard] <==>
      (guard in slots && m in slots[guard]) || start <= m <= end
  {
    if end - start + 1 < 0 then Failure(ArgumentOutOfRange)
    else if guard !in slots then Success(slots[guard := BumpRange(map[], start, end)])
    else Success(slots[guard := BumpRange(slots[guard], start, end)])
  }

  /// A shift starting in the 23rd hour counts from the next midnight.
  function ShiftStart(t: Time): (r: Time)
    ensures Hour(t) > 22 ==> r == (Day(t) + 1) * MinutesPerDay
    ensures Hour(t) <= 22 ==> r == t
  {
    if Hour(t) > 22 then (Day(t) + 1) * MinutesPerDay else t
  }

  /// `ChangeGuard`.
  function ChangeGuard(s: State, id: int, t: Time): (r: Result<State>)
    requires Valid(s)
    ensures r.Success? ==> Valid(r.value)
  {
    if s.guardId.None? then
      Success(State(s.guardSleepSlots, Some(id), Some(true), Some(t)))
    else
      var start := ShiftStart(t);
      var last := s.lastChangeTime.value;
      if Day(start) <= Day(last) then Failure(Argument)
      else if s.currentlyAwake != Some(true) then
        var slots :- AddSleepyTime(s.guardSleepSlots, s.guardId.value, GetMinutes(last), 59);
        Success(State(slots, Some(id), Some(true), Some(start)))
      else
        Success(State(s.guardSleepSlots, Some(id), Some(true), Some(start)))
  }

  /// `GuardSleeps`.
  function GuardSleeps(s: State, t: Time): (r: Result<State>)
    requires Valid(s)
    ensures r.Success? ==> Valid(r.value)
  {
    if s.guardId.None? then Failure(InvalidOperation)
    else if s.currentlyAwake != Some(true) then Failure(InvalidOperation)
    else if t < s.lastChangeTime.value then Failure(InvalidOperation)
    else if Hour(t) != 0 then Failure(Argument)
    else Success(State(s.guardSleepSlots, s.guardId, Some(false), Some(t)))
  }

  /// `GuardWakes`.
  function GuardWakes(s: State, t: Time): (r: Result<State>)
    requires Valid(s)
    ensures r.Success? ==> Valid(r.value)
  {
    if s.guardId.None? then Failure(InvalidOperation)
    else if s.currentlyAwake != Some(false) then Failure(InvalidOperation)
    else if t < s.lastChangeTime.value then Failure(InvalidOperation)
    else if Hour(t) != 0 then Failure(Argument)
    else
      var lastKnown := GetMinutes(s.lastChangeTime.value);
      var slots :- AddSleepyTime(s.guardSleepSlots, s.guardId.value, lastKnown, Minute(t) - 1);
      Success(State(slots, s.guardId, Some(true), Some(t)))
  }

  /// The first shift only records the guard, awake, at the given time.
  lemma ChangeGuardFirst(s: State, id: int, t: Time)
    requires Valid(s) && s.guardId.None?
    ensures ChangeGuard(s, id, t) == Success(State(s.guardSleepSlots, Some(id), Some(true), Some(t)))
  {
  }

  /// A later shift fails exactly when its (adjusted) day is not after the
  /// last change's day. Otherwise the new guard is awake from the adjusted
  /// time, and a guard left asleep gains the rest of the midnight hour.
  lemma ChangeGuardMeans(s: State, id: int, t: Time)
    requires Valid(s) && s.guardId.Some?
    ensures ChangeGuard(s, id, t).Failure? <==> Day(ShiftStart(t)) <= Day(s.lastChangeTime.value)
    ensures ChangeGuard(s, id, t).Failure? ==> ChangeGuard(s, id, t).error == Argument
    ensures ChangeGuard(s, id, t).Success? ==>
      var r := ChangeGuard(s, id, t).value;
      r.guardId == Some(id) && r.currentlyAwake == Some(true) && r.lastChangeTime == Some(ShiftStart(t)) &&
      forall g, m :: SlotCount(r.guardSleepSlots, g, m) == SlotCount(s.guardSleepSlots, g, m) +
        (if s.currentlyAwake == Some(false) && g == s.guardId.value &&
            GetMinutes(s.lastChangeTime.value) <= m <= 59 then 1 else 0)
  {
    var last := s.lastChangeTime.value;
    if s.currentlyAwake == Some(false) {
      assert GetMinutes(last) == Minute(last) < 60;
    } else {
      assert s.currentlyAwake.value;
    }
  }

  /// Falling asleep fails with no guard, with the guard already asleep,
  /// before the last change, or outside the midnight hour; otherwise only
  /// the awake flag and the time change.
  lemma GuardSleepsMeans(s: State, t: Time)
    requires Valid(s)
    ensures GuardSleeps(s, t).Failure? <==>
      s.guardId.None? || s.currentlyAwake != Some(true) || t < s.lastChangeTime.value || Hour(t) != 0
    ensures GuardSleeps(s, t).Failure? ==>
      GuardSleeps(s, t).error == (if s.guardId.None? || s.currentlyAwake != Some(true) || t < s.lastChangeTime.value
                                  then InvalidOperation else Argument)
    ensures GuardSleeps(s, t).Success? ==>
      GuardSleeps(s, t).value == s.(currentlyAwake := Some(false), lastChangeTime := Some(t))
  {
  }

  /// Waking fails with no guard, with the guard already awake, before the
  /// last change, outside the midnight hour, or (as a negative range) at an
  /// earlier minute than the last change on a later day; otherwise the
  /// guard gains the minutes from the last change up to the one before now.
  lemma GuardWakesMeans(s: State, t: Time)
    requires Valid(s)
    ensures GuardWakes(s, t).Failure? <==>
      s.guardId.None? || s.currentlyAwake != Some(false) || t < s.lastChangeTime.value || Hour(t) != 0 ||
      Minute(t) < GetMinutes(s.lastChangeTime.value)
    ensures GuardWakes(s, t).Success? ==>
      var r := GuardWakes(s, t).value;
      r.guardId == s.guardId && r.currentlyAwake == Some(true) && r.lastChangeTime == Some(t) &&
      forall g, m :: SlotCount(r.guardSleepSlots, g, m) == SlotCount(s.guardSleepSlots, g, m) +
        (if g == s.guardId.value && GetMinutes(s.lastChangeTime.value) <= m < Minute(t) then 1 else 0)
  {
  }

  /// A guard's total minutes asleep: the sum of the recorded counts.
  lemma HasMinute(counts: map<int, int>)
    requires counts != map[]
    ensures exists m :: m in counts
  {
    if forall m :: m !in counts {
      assert false;
    }
  }

  ghost function PickMinute(counts: map<int, int>): int
    requires counts != map[]
  {
    HasMinute(counts);
    var m :| m in counts; m
  }

  ghost function TotalAsleep(counts: map<int, int>): int
    decreases |counts|
  {
    if counts == map[] then 0
    else
      var m := PickMinute(counts);
      counts[m] + TotalAsleep(counts - {m})
  }

  /// The total does not depend on which minute is taken first.
  lemma {:induction false} TotalAsleepRemove(counts: map<int, int>, m: int)
    requires m in counts
    ensures TotalAsleep(counts) == counts[m] + TotalAsleep(counts - {m})
    decreases |counts|
  {
    var p := PickMinute(counts);
    if p != m {
      TotalAsleepRemove(counts - {p}, m);
      TotalAsleepRemove(counts - {m}, p);
      assert counts - {p} - {m} == counts - {m} - {p};
    }
  }

  lemma TotalAsleepBump(counts: map<int, int>, m: int)
    ensures TotalAsleep(Bump(counts, m)) == TotalAsleep(counts) + 1
  {
    var b := Bump(counts, m);
    TotalAsleepRemove(b, m);
    assert b - {m} == counts - {m};
    if m in counts {
      TotalAsleepRemove(counts, m);
    } else {
      assert counts - {m} == counts;
    }
  }

  /// Each minute of the range adds one to the guard's total.
  lemma {:induction false} TotalAsleepBumpRange(counts: map<int, int>, start: int, end: int)
    ensures TotalAsleep(BumpRange(counts, start, end)) ==
      TotalAsleep(counts) + (if end < start then 0 else end - start + 1)
    decreases end - start + 1
  {
    if start <= end {
      TotalAsleepBump(counts, start);
      TotalAsleepBumpRange(Bump(counts, start), start + 1, end);
    }
  }

  /// `AddSleepyTime` adds the length of the range to the guard's total.
  lemma AddSleepyTimeTotal(slots: Slots, guard: int, start: int, end: int)
    requires AddSleepyTime(slots, guard, start, end).Success?
    ensures TotalAsleep(AddSleepyTime(slots, guard, start, end).value[guard]) ==
      (if guard in slots then TotalAsleep(slots[guard]) else 0) + (end - start + 1)
  {
    if guard in slots {
      TotalAsleepBumpRange(slots[guard], start, end);
    } else {
      TotalAsleepBumpRange(map[], start, end);
    }
  }
}
